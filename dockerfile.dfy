/** The Dockerfile analysis (analyze_repo_multi_trhead.py:158-183): the base
    image of the last `FROM`, the text of the last `CMD` and its keywords,
    the keywords of all `RUN` commands together, and one tag list per
    category. */
module Dockerfile {
  import opened Wrappers
  import opened Taxonomy
  import Text
  import Keywords

  /** One parsed instruction: its name as written and its arguments. */
  datatype Command = Command(cmd: string, value: seq<string>)

  /** What the Dockerfile parser makes of the file; `Unparsable` stands for
      the parse error the analysis swallows. */
  datatype DockerfileSource = Unparsable | Commands(commands: seq<Command>)

  /** The Dockerfile record. `fromFull` and `keywords` are keys the analysis
      only sets on the way (after a `FROM`, after any instruction), and the
      tags are only computed when the file parses. */
  datatype DockerAnalysis = DockerAnalysis(
    path: string, cmd: string, cmdKeywords: seq<string>, from: string,
    fromFull: Option<string>, keywords: Option<seq<string>>, tags: Option<Tags>)

  /** How many keywords the analysis keeps. */
  const KeywordCount: nat := 5

  predicate IsFrom(c: Command) { Text.Lower(c.cmd) == "from" && c.value != [] }
  predicate IsRun(c: Command) { Text.Lower(c.cmd) == "run" }
  predicate IsCmd(c: Command) { Text.Lower(c.cmd) == "cmd" }

  /** The image of the last `FROM` that names one. */
  function LastFrom(cs: seq<Command>): Option<string> {
    if cs == [] then None
    else if IsFrom(cs[|cs| - 1]) then Some(cs[|cs| - 1].value[0])
    else LastFrom(cs[..|cs| - 1])
  }

  /** The arguments of the last `CMD`, joined by blanks. */
  function LastCmd(cs: seq<Command>): Option<string> {
    if cs == [] then None
    else if IsCmd(cs[|cs| - 1]) then Some(Text.Join(" ", cs[|cs| - 1].value))
    else LastCmd(cs[..|cs| - 1])
  }

  /** `runs`: every `RUN`'s arguments joined by blanks, each followed by a
      blank. */
  function Runs(cs: seq<Command>): string {
    if cs == [] then []
    else Runs(cs[..|cs| - 1]) + (if IsRun(cs[|cs| - 1]) then Text.Join(" ", cs[|cs| - 1].value) + " " else [])
  }

  /** The tag list of one category: the base image itself when listed,
      else the first listed word of the base image, of the command, of the
      `RUN` text, in that order. */
  function DockerTag(from: string, cmd: string, runs: string, l: seq<string>): seq<string> {
    var one := MatchOne(from, l);
    if one != [] then one
    else
      var a := MatchOnes(Text.GetWords(from), l);
      if a != [] then a
      else
        var b := MatchOnes(Text.GetWords(cmd), l);
        if b != [] then b else MatchOnes(Text.GetWords(runs), l)
  }

  function DockerTags(tax: Taxonomy, from: string, cmd: string, runs: string): (r: Tags)
    ensures forall c | c in Categories :: c in r
  {
    map c | c in Categories :: DockerTag(from, cmd, runs, tax.Words(c))
  }

  /** The record of a Dockerfile. */
  function DockerOf(tax: Taxonomy, path: string, src: DockerfileSource): (r: DockerAnalysis)
    ensures r.path == path
    ensures r.tags.None? <==> src.Unparsable?
    ensures ':' !in r.from
    ensures src.Commands? ==> r.fromFull == LastFrom(src.commands)
  {
    match src
    case Unparsable => DockerAnalysis(path, "", [], "", None, None, None)
    case Commands(cs) =>
      var from := if LastFrom(cs).Some? then Text.BeforeFirst(LastFrom(cs).value, ':') else "";
      var cmd := if LastCmd(cs).Some? then LastCmd(cs).value else "";
      var cmdKeywords := if LastCmd(cs).Some? then Keywords.KeywordsOf(cmd, KeywordCount) else [];
      var keywords := if cs == [] then None else Some(Keywords.KeywordsOf(Runs(cs), KeywordCount));
      DockerAnalysis(path, cmd, cmdKeywords, from, LastFrom(cs), keywords,
                     Some(DockerTags(tax, from, cmd, Runs(cs))))
  }

  /** Runs the analysis over the instructions in order, as the program
      does: a later `FROM` or `CMD` overrides an earlier one, `RUN` texts
      accumulate, and the keywords are recomputed after every instruction. */
  method AnalyzeDockerfile(tax: Taxonomy, path: string, src: DockerfileSource) returns (r: DockerAnalysis)
    ensures r == DockerOf(tax, path, src)
  {
    if src.Unparsable? {
      return DockerAnalysis(path, "", [], "", None, None, None);
    }
    var from, fromFull, cmd, cmdKeywords, keywords, runs := Scan(src.commands);
    r := DockerAnalysis(path, cmd, cmdKeywords, from, fromFull, keywords, Some(DockerTags(tax, from, cmd, runs)));
  }

  /** The instruction loop. */
  method Scan(cs: seq<Command>)
    returns (from: string, fromFull: Option<string>, cmd: string, cmdKeywords: seq<string>,
             keywords: Option<seq<string>>, runs: string)
    ensures Scanned(cs, from, fromFull, cmd, cmdKeywords, runs)
    ensures keywords == if cs == [] then None else Some(Keywords.KeywordsOf(runs, KeywordCount))
  {
    from, fromFull, cmd, cmdKeywords, keywords := "", None, "", [], None;
    runs := "";
    for i := 0 to |cs|
      invariant Scanned(cs[..i], from, fromFull, cmd, cmdKeywords, runs)
      invariant keywords == if i == 0 then None else Some(Keywords.KeywordsOf(runs, KeywordCount))
    {
      from, fromFull, cmd, cmdKeywords, runs := ScanStep(cs, i, from, fromFull, cmd, cmdKeywords, runs);
      keywords := Some(Keywords.KeywordsOf(runs, KeywordCount));
    }
    assert cs[..|cs|] == cs;
  }

  /** What the instruction loop has gathered after the instructions `cs`. */
  predicate Scanned(cs: seq<Command>, from: string, fromFull: Option<string>, cmd: string,
                    cmdKeywords: seq<string>, runs: string)
  {
    && runs == Runs(cs)
    && fromFull == LastFrom(cs)
    && from == (if fromFull.Some? then Text.BeforeFirst(fromFull.value, ':') else "")
    && cmd == (if LastCmd(cs).Some? then LastCmd(cs).value else "")
    && cmdKeywords == (if LastCmd(cs).Some? then Keywords.KeywordsOf(cmd, KeywordCount) else [])
  }

  /** One turn of the instruction loop. */
  method ScanStep(cs: seq<Command>, i: nat, from: string, fromFull: Option<string>, cmd: string,
                  cmdKeywords: seq<string>, runs: string)
    returns (from': string, fromFull': Option<string>, cmd': string, cmdKeywords': seq<string>, runs': string)
    requires i < |cs| && Scanned(cs[..i], from, fromFull, cmd, cmdKeywords, runs)
    ensures Scanned(cs[..i + 1], from', fromFull', cmd', cmdKeywords', runs')
  {
    Step(cs, i);
    from', fromFull', cmd', cmdKeywords', runs' := Apply(cs[i], from, fromFull, cmd, cmdKeywords, runs);
  }

  /** The body of the instruction loop, before the keywords are recomputed. */
  method Apply(c: Command, from: string, fromFull: Option<string>, cmd: string, cmdKeywords: seq<string>, runs: string)
    returns (from': string, fromFull': Option<string>, cmd': string, cmdKeywords': seq<string>, runs': string)
    ensures (from', fromFull') == if IsFrom(c) then (Text.BeforeFirst(c.value[0], ':'), Some(c.value[0])) else (from, fromFull)
    ensures (cmd', cmdKeywords') == if IsCmd(c) then
      (Text.Join(" ", c.value), Keywords.KeywordsOf(Text.Join(" ", c.value), KeywordCount)) else (cmd, cmdKeywords)
    ensures runs' == runs + if IsRun(c) then Text.Join(" ", c.value) + " " else []
  {
    from', fromFull', cmd', cmdKeywords', runs' := from, fromFull, cmd, cmdKeywords, runs;
    var name := Text.Lower(c.cmd);
    if name == "from" && c.value != [] {
      from' := Text.BeforeFirst(c.value[0], ':');
      fromFull' := Some(c.value[0]);
    }
    if name == "run" {
      runs' := runs + Text.Join(" ", c.value) + " ";
    }
    if name == "cmd" {
      cmd' := Text.Join(" ", c.value);
      cmdKeywords' := Keywords.KeywordsOf(cmd', KeywordCount);
    }
  }

  /** What one more instruction does to the three summaries. */
  lemma Step(cs: seq<Command>, i: nat)
    requires i < |cs|
    ensures LastFrom(cs[..i + 1]) == if IsFrom(cs[i]) then Some(cs[i].value[0]) else LastFrom(cs[..i])
    ensures LastCmd(cs[..i + 1]) == if IsCmd(cs[i]) then Some(Text.Join(" ", cs[i].value)) else LastCmd(cs[..i])
    ensures Runs(cs[..i + 1]) == Runs(cs[..i]) + if IsRun(cs[i]) then Text.Join(" ", cs[i].value) + " " else []
  {
    assert cs[..i + 1][..i] == cs[..i];
  }

  /** The chain of fall-backs is one search: the base image itself when
      listed, else the first listed word of the base image, the command and
      the `RUN` text read one after the other. A tag is a single listed
      word. */
  lemma DockerTagIsSearch(from: string, cmd: string, runs: string, l: seq<string>)
    ensures var r := DockerTag(from, cmd, runs, l);
      (from in l ==> r == [from])
      && (from !in l ==> r == MatchOnes(Text.GetWords(from) + Text.GetWords(cmd) + Text.GetWords(runs), l))
      && |r| <= 1 && (forall w | w in r :: w in l)
  {
    var a, b, c := Text.GetWords(from), Text.GetWords(cmd), Text.GetWords(runs);
    MatchOnesAppend(a, b, l);
    MatchOnesAppend(a + b, c, l);
    var m := MatchOnes(a + b + c, l);
    if m != [] {
      var i :| 0 <= i < |a + b + c| && m == [(a + b + c)[i]] && (a + b + c)[i] in l;
    }
  }

  /** The base image comes from the last `FROM` that names one: that
      instruction is in the file and no later one names an image. */
  lemma {:induction false} LastFromIsLast(cs: seq<Command>)
    ensures LastFrom(cs).Some? <==> exists i | 0 <= i < |cs| :: IsFrom(cs[i])
    ensures LastFrom(cs).Some? ==> exists i | 0 <= i < |cs| ::
      IsFrom(cs[i]) && cs[i].value[0] == LastFrom(cs).value && forall j | i < j < |cs| :: !IsFrom(cs[j])
  {
    if cs != [] {
      var n := |cs| - 1;
      var init := cs[..n];
      if IsFrom(cs[n]) {
        assert IsFrom(cs[n]) && cs[n].value[0] == LastFrom(cs).value;
      } else {
        LastFromIsLast(init);
        assert LastFrom(cs) == LastFrom(init);
        if LastFrom(init).Some? {
          var i :| 0 <= i < |init| && IsFrom(init[i]) && init[i].value[0] == LastFrom(init).value
                   && forall j | i < j < |init| :: !IsFrom(init[j]);
          assert cs[i] == init[i];
          forall j | i < j < |cs| ensures !IsFrom(cs[j]) {
            if j < n { assert cs[j] == init[j]; }
          }
        } else {
          forall i | 0 <= i < |cs| ensures !IsFrom(cs[i]) {
            if i < n { assert cs[i] == init[i]; }
          }
        }
      }
    }
  }

  /** The command text comes from the last `CMD`. */
  lemma {:induction false} LastCmdIsLast(cs: seq<Command>)
    ensures LastCmd(cs).Some? <==> exists i | 0 <= i < |cs| :: IsCmd(cs[i])
    ensures LastCmd(cs).Some? ==> exists i | 0 <= i < |cs| ::
      IsCmd(cs[i]) && Text.Join(" ", cs[i].value) == LastCmd(cs).value && forall j | i < j < |cs| :: !IsCmd(cs[j])
  {
    if cs != [] {
      var n := |cs| - 1;
      var init := cs[..n];
      if IsCmd(cs[n]) {
        assert IsCmd(cs[n]) && Text.Join(" ", cs[n].value) == LastCmd(cs).value;
      } else {
        LastCmdIsLast(init);
        assert LastCmd(cs) == LastCmd(init);
        if LastCmd(init).Some? {
          var i :| 0 <= i < |init| && IsCmd(init[i]) && Text.Join(" ", init[i].value) == LastCmd(init).value
                   && forall j | i < j < |init| :: !IsCmd(init[j]);
          assert cs[i] == init[i];
          forall j | i < j < |cs| ensures !IsCmd(cs[j]) {
            if j < n { assert cs[j] == init[j]; }
          }
        } else {
          forall i | 0 <= i < |cs| ensures !IsCmd(cs[i]) {
            if i < n { assert cs[i] == init[i]; }
          }
        }
      }
    }
  }

  /** The `RUN` text of two parts of a file is the text of the first part
      followed by that of the second: no instruction's text is lost or
      reordered. */
  lemma {:induction false} RunsAppend(a: seq<Command>, b: seq<Command>)
    ensures Runs(a + b) == Runs(a) + Runs(b)
    decreases |b|
  {
    if b == [] {
      assert a + b == a;
    } else {
      var b' := b[..|b| - 1];
      RunsAppend(a, b');
      assert (a + b)[..|a + b| - 1] == a + b';
      assert (a + b)[|a + b| - 1] == b[|b| - 1];
    }
  }

  /** A file that does not parse gets no tags; one that parses gets a tag
      list for every category, at most one word long, and keywords when it
      has instructions. */
  lemma DockerOfShape(tax: Taxonomy, path: string, src: DockerfileSource)
    ensures var r := DockerOf(tax, path, src);
      r.path == path
      && (src.Unparsable? ==> r.tags.None? && r.keywords.None? && r.fromFull.None?)
      && (src.Commands? ==>
            r.tags.Some? && (forall c | c in Categories :: c in r.tags.value && |r.tags.value[c]| <= 1)
            && (r.keywords.Some? <==> src.commands != [])
            && (r.keywords.Some? ==> |r.keywords.value| <= KeywordCount)
            && |r.cmdKeywords| <= KeywordCount
            && ':' !in r.from)
  {
    if src.Commands? {
      var r := DockerOf(tax, path, src);
      var cs := src.commands;
      forall c | c in Categories ensures |r.tags.value[c]| <= 1 {
        DockerTagIsSearch(r.from, r.cmd, Runs(cs), tax.Words(c));
      }
      Keywords.MostCommonOrder(Text.GetWords(Runs(cs)), KeywordCount);
      Keywords.MostCommonOrder(Text.GetWords(r.cmd), KeywordCount);
    }
  }
}
