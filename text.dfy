/** The string operations the analysis relies on, with Python's semantics:
    `str.split` with and without `maxsplit`, `str.join`, `str.replace` with and
    without a count, suffix tests, and the tokenizer `get_words`
    (analyze_repo_multi_trhead.py:132-139). */
module Text {

  /** Python's `string.punctuation`. */
  const Punctuation: string := "!\"#$%&'()*+,-./:;<=>?@[\\]^_`{|}~"

  predicate IsDigit(c: char) { '0' <= c <= '9' }

  predicate IsUpper(c: char) { 'A' <= c <= 'Z' }

  /** The separators `str.split()` and the word tokenizer break on. */
  predicate IsWhitespace(c: char) {
    c == ' ' || c == '\t' || c == '\n' || c == '\r' || c == '\U{0B}' || c == '\U{0C}'
  }

  /** A character that can occur in a word produced by `GetWords`. */
  predicate IsWordChar(c: char) {
    !IsWhitespace(c) && c !in Punctuation && !IsDigit(c) && !IsUpper(c)
  }

  function LowerChar(c: char): char {
    if IsUpper(c) then (c as int + 32) as char else c
  }

  /** `s.lower()` on ASCII letters. */
  function Lower(s: string): (r: string)
    ensures |r| == |s| && forall c | c in r :: !IsUpper(c)
    ensures forall i | 0 <= i < |s| && !IsUpper(s[i]) :: r[i] == s[i]
    ensures forall i | 0 <= i < |s| && IsUpper(s[i]) ::
      'a' <= r[i] <= 'z' && r[i] as int - 'a' as int == s[i] as int - 'A' as int
  {
    seq(|s|, i requires 0 <= i < |s| => LowerChar(s[i]))
  }

  /** Punctuation and digits become blanks, letters are lower-cased. */
  function CleanChar(c: char): char {
    if c in Punctuation || IsDigit(c) then ' ' else LowerChar(c)
  }

  function Clean(s: string): (r: string)
    ensures |r| == |s|
  {
    seq(|s|, i requires 0 <= i < |s| => CleanChar(s[i]))
  }

  function Flush(cur: string): seq<string> {
    if cur == [] then [] else [cur]
  }

  /** Whitespace tokenisation: the maximal runs of non-blank characters of
      `s`, the first one prefixed by the pending run `cur`. */
  function TokensFrom(s: string, cur: string): seq<string>
    decreases |s|
  {
    if s == [] then Flush(cur)
    else if IsWhitespace(s[0]) then Flush(cur) + TokensFrom(s[1..], [])
    else TokensFrom(s[1..], cur + [s[0]])
  }

  function Tokens(s: string): seq<string> {
    TokensFrom(s, [])
  }

  /** `[w for w in ws if len(w) > 2]`. */
  function LongWords(ws: seq<string>): seq<string> {
    if ws == [] then []
    else (if |ws[0]| > 2 then [ws[0]] else []) + LongWords(ws[1..])
  }

  /** The filter keeps exactly the words longer than two characters. */
  lemma {:induction false} LongWordsMembers(ws: seq<string>)
    ensures forall w | w in LongWords(ws) :: w in ws && |w| > 2
    ensures forall w | w in ws && |w| > 2 :: w in LongWords(ws)
  {
    if ws != [] {
      LongWordsMembers(ws[1..]);
      assert forall w | w in ws :: w == ws[0] || w in ws[1..];
    }
  }

  /** The filter keeps every long word as often as it occurs, and no other. */
  lemma {:induction false} LongWordsCount(ws: seq<string>)
    ensures forall w :: multiset(LongWords(ws))[w] == if |w| > 2 then multiset(ws)[w] else 0
  {
    if ws != [] {
      LongWordsCount(ws[1..]);
      assert ws == [ws[0]] + ws[1..];
    }
  }

  /** The filter keeps the order of the words: filtering two lists one after
      the other is filtering their concatenation. */
  lemma {:induction false} LongWordsAppend(a: seq<string>, b: seq<string>)
    ensures LongWords(a + b) == LongWords(a) + LongWords(b)
    decreases |a|
  {
    if a == [] {
      assert a + b == b;
    } else {
      var x, rest := a[0], a[1..];
      assert a == [x] + rest && a + b == [x] + (rest + b);
      LongWordsCons(x, rest + b);
      LongWordsCons(x, rest);
      LongWordsAppend(rest, b);
    }
  }

  lemma LongWordsCons(x: string, ws: seq<string>)
    ensures LongWords([x] + ws) == (if |x| > 2 then [x] else []) + LongWords(ws)
  {
    assert ([x] + ws)[1..] == ws;
  }

  /** `get_words(data)`: blank out punctuation and digits, lower-case, split
      into words and keep the words longer than two characters. */
  function GetWords(data: string): (r: seq<string>)
    ensures forall w | w in r :: |w| > 2
  {
    LongWordsMembers(Tokens(Clean(data)));
    LongWords(Tokens(Clean(data)))
  }

  lemma {:induction false} TokensFromShape(s: string, cur: string)
    requires forall c | c in s :: IsWhitespace(c) || IsWordChar(c)
    requires forall c | c in cur :: IsWordChar(c)
    ensures forall t | t in TokensFrom(s, cur) :: t != [] && forall c | c in t :: IsWordChar(c)
  {
    if s != [] {
      if IsWhitespace(s[0]) {
        TokensFromShape(s[1..], []);
      } else {
        assert s[0] in s;
        TokensFromShape(s[1..], cur + [s[0]]);
      }
    }
  }

  /** Every word `get_words` returns is longer than two characters and holds
      no blank, punctuation, digit or upper-case letter. */
  lemma GetWordsShape(data: string)
    ensures forall w | w in GetWords(data) :: |w| > 2 && forall c | c in w :: IsWordChar(c)
  {
    var cl := Clean(data);
    forall c | c in cl ensures IsWhitespace(c) || IsWordChar(c) {
      var i :| 0 <= i < |cl| && cl[i] == c;
      CleanCharShape(data[i]);
    }
    TokensFromShape(cl, []);
    LongWordsMembers(Tokens(cl));
  }

  lemma CleanCharShape(c: char)
    ensures IsWhitespace(CleanChar(c)) || IsWordChar(CleanChar(c))
  {
    if !(c in Punctuation || IsDigit(c)) {
      if IsUpper(c) {
        assert 'a' <= LowerChar(c) <= 'z';
      }
    }
  }

  // ---------------------------------------------------------------------
  // str.split / str.join

  predicate OccursAt(s: string, pat: string, i: nat) {
    i + |pat| <= |s| && s[i..i + |pat|] == pat
  }

  predicate Occurs(s: string, pat: string) {
    exists i: nat | i <= |s| :: OccursAt(s, pat, i)
  }

  /** `(cur + s).split(sep, n)` where `cur` is known to hold no separator;
      a negative `n` means no limit. */
  function SplitFrom(s: string, sep: string, n: int, cur: string): (r: seq<string>)
    requires |sep| > 0
    ensures |r| >= 1
    decreases |s|
  {
    if n == 0 then [cur + s]
    else if s == [] then [cur]
    else if sep <= s then [cur] + SplitFrom(s[|sep|..], sep, n - 1, [])
    else SplitFrom(s[1..], sep, n, cur + [s[0]])
  }

  /** `s.split(sep, maxsplit)`; `maxsplit < 0` is Python's default. */
  function Split(s: string, sep: string, maxsplit: int): seq<string>
    requires |sep| > 0
  {
    SplitFrom(s, sep, maxsplit, [])
  }

  /** `sep.join(parts)`. */
  function Join(sep: string, parts: seq<string>): string {
    if parts == [] then []
    else if |parts| == 1 then parts[0]
    else parts[0] + sep + Join(sep, parts[1..])
  }

  lemma JoinPair(sep: string, a: string, b: string)
    ensures Join(sep, [a, b]) == a + sep + b
  {
    assert [a, b][1..] == [b];
  }

  lemma JoinTriple(sep: string, a: string, b: string, c: string)
    ensures Join(sep, [a, b, c]) == a + sep + b + sep + c
  {
    assert [a, b, c][1..] == [b, c];
    JoinPair(sep, b, c);
  }

  /** Joining the pieces of a split with the separator gives the string back. */
  lemma {:induction false} JoinSplitFrom(s: string, sep: string, n: int, cur: string)
    requires |sep| > 0
    ensures Join(sep, SplitFrom(s, sep, n, cur)) == cur + s
  {
    if n == 0 || s == [] {
    } else if sep <= s {
      var rest := SplitFrom(s[|sep|..], sep, n - 1, []);
      JoinSplitFrom(s[|sep|..], sep, n - 1, []);
      assert [cur] + rest == [cur] + rest;
      assert s == sep + s[|sep|..];
    } else {
      JoinSplitFrom(s[1..], sep, n, cur + [s[0]]);
      assert cur + [s[0]] + s[1..] == cur + s;
    }
  }

  lemma JoinSplit(s: string, sep: string, maxsplit: int)
    requires |sep| > 0
    ensures Join(sep, Split(s, sep, maxsplit)) == s
  {
    JoinSplitFrom(s, sep, maxsplit, []);
  }

  /** A split limited to `n` cuts yields at most `n + 1` pieces. */
  lemma {:induction false} SplitFromBound(s: string, sep: string, n: int, cur: string)
    requires |sep| > 0 && n >= 0
    ensures |SplitFrom(s, sep, n, cur)| <= n + 1
    decreases |s|
  {
    if n == 0 || s == [] {
    } else if sep <= s {
      SplitFromBound(s[|sep|..], sep, n - 1, []);
    } else {
      SplitFromBound(s[1..], sep, n, cur + [s[0]]);
    }
  }

  /** Index of the first occurrence of `c` in `s`. */
  function IndexOf(s: string, c: char): (k: nat)
    requires c in s
    ensures k < |s| && s[k] == c && c !in s[..k]
  {
    if s[0] == c then 0 else 1 + IndexOf(s[1..], c)
  }

  /** The first `c` of `a + [c] + b`, when `a` holds none, is the one after `a`. */
  lemma IndexOfAfter(a: string, c: char, b: string)
    requires c !in a
    ensures IndexOf(a + [c] + b, c) == |a|
  {
    var s := a + [c] + b;
    var k := IndexOf(s, c);
    assert forall i | 0 <= i < |a| :: s[i] == a[i];
    assert s[|a|] == c;
    assert forall j | 0 <= j < k :: s[..k][j] == s[j];
  }

  /** Splitting on a separator that does not occur: one piece. */
  lemma {:induction false} SplitFromAbsentPattern(s: string, sep: string, n: int, cur: string)
    requires |sep| > 0 && !Occurs(s, sep)
    ensures SplitFrom(s, sep, n, cur) == [cur + s]
    decreases |s|
  {
    if n != 0 && s != [] {
      assert !OccursAt(s, sep, 0);
      assert !(sep <= s);
      forall i: nat | OccursAt(s[1..], sep, i) ensures false {
        assert s[i + 1..i + 1 + |sep|] == s[1..][i..i + |sep|];
        assert OccursAt(s, sep, i + 1);
      }
      SplitFromAbsentPattern(s[1..], sep, n, cur + [s[0]]);
      assert cur + [s[0]] + s[1..] == cur + s;
    } else if s == [] {
      assert cur + s == cur;
    }
  }

  /** Splitting on a one-character separator that does not occur: one piece. */
  lemma {:induction false} SplitFromAbsent(s: string, c: char, n: int, cur: string)
    requires c !in s
    ensures SplitFrom(s, [c], n, cur) == [cur + s]
    decreases |s|
  {
    if n != 0 && s != [] {
      assert s[0] != c;
      SplitFromAbsent(s[1..], c, n, cur + [s[0]]);
      assert cur + [s[0]] + s[1..] == cur + s;
    } else if s == [] {
      assert cur + s == cur;
    }
  }

  /** With a limit other than 0, the first piece is everything before the
      first separator; with limit 1 the second piece is everything after it. */
  lemma {:induction false} SplitFromChar(s: string, c: char, n: int, cur: string)
    requires n != 0 && c in s
    ensures SplitFrom(s, [c], n, cur)[0] == cur + s[..IndexOf(s, c)]
    ensures n == 1 ==> SplitFrom(s, [c], n, cur) == [cur + s[..IndexOf(s, c)], s[IndexOf(s, c) + 1..]]
    decreases |s|
  {
    if [c] <= s {
      assert IndexOf(s, c) == 0;
      assert cur + s[..0] == cur;
      assert [] + s[1..] == s[1..];
    } else {
      assert s[0] != c;
      assert c in s[1..];
      var k := IndexOf(s[1..], c);
      assert IndexOf(s, c) == k + 1;
      SplitFromChar(s[1..], c, n, cur + [s[0]]);
      assert cur + [s[0]] + s[1..][..k] == cur + s[..k + 1];
      assert s[1..][k + 1..] == s[k + 2..];
    }
  }

  /** `s.split(c, 1)`: the text before the first `c` and the text after it,
      or all of `s`. */
  lemma SplitOnce(s: string, c: char)
    ensures c in s ==> Split(s, [c], 1) == [s[..IndexOf(s, c)], s[IndexOf(s, c) + 1..]]
    ensures c !in s ==> Split(s, [c], 1) == [s]
  {
    if c in s {
      SplitFromChar(s, c, 1, []);
      assert [] + s[..IndexOf(s, c)] == s[..IndexOf(s, c)];
    } else {
      SplitFromAbsent(s, c, 1, []);
      assert [] + s == s;
    }
  }

  /** `s.split(c)[0]`: the text before the first `c`, or all of `s`. */
  function BeforeFirst(s: string, c: char): (r: string)
    ensures c !in r
    ensures r <= s
    ensures c in s ==> |r| < |s| && s[|r|] == c
    ensures c !in s ==> r == s
  {
    SplitFirstPiece(s, c, -1);
    Split(s, [c], -1)[0]
  }

  lemma SplitFirstPiece(s: string, c: char, n: int)
    requires n != 0
    ensures c in s ==> Split(s, [c], n)[0] == s[..IndexOf(s, c)]
    ensures c !in s ==> Split(s, [c], n) == [s]
  {
    if c in s { SplitFromChar(s, c, n, []); } else { SplitFromAbsent(s, c, n, []); assert [] + s == s; }
  }

  // ---------------------------------------------------------------------
  // str.replace

  /** `s.replace(pat, rep)`: every non-overlapping occurrence, left to right. */
  function ReplaceAll(s: string, pat: string, rep: string): string
    requires |pat| > 0
    decreases |s|
  {
    if s == [] then []
    else if pat <= s then rep + ReplaceAll(s[|pat|..], pat, rep)
    else [s[0]] + ReplaceAll(s[1..], pat, rep)
  }

  /** `s.replace(pat, rep, 1)`: the first occurrence only. */
  function ReplaceFirst(s: string, pat: string, rep: string): string
    requires |pat| > 0
    decreases |s|
  {
    if s == [] then []
    else if pat <= s then rep + s[|pat|..]
    else [s[0]] + ReplaceFirst(s[1..], pat, rep)
  }

  /** Replacing a pattern that does not occur changes nothing. */
  lemma {:induction false} ReplaceAllAbsent(s: string, pat: string, rep: string)
    requires |pat| > 0 && !Occurs(s, pat)
    ensures ReplaceAll(s, pat, rep) == s
    decreases |s|
  {
    if s != [] {
      if pat <= s {
        assert OccursAt(s, pat, 0);
      }
      forall i: nat | OccursAt(s[1..], pat, i) ensures false {
        assert s[i + 1..i + 1 + |pat|] == s[1..][i..i + |pat|];
        assert OccursAt(s, pat, i + 1);
      }
      ReplaceAllAbsent(s[1..], pat, rep);
    }
  }

  /** Replacing every `c` of `pre + [c] + post`, when that `c` is the only
      one, replaces just it. */
  lemma {:induction false} ReplaceAllOne(pre: string, c: char, d: char, post: string)
    requires c !in pre && c !in post
    ensures ReplaceAll(pre + [c] + post, [c], [d]) == pre + [d] + post
    decreases |pre|
  {
    var s := pre + [c] + post;
    if pre == [] {
      assert [c] <= s && s[1..] == post;
      AbsentChar(post, [c], c);
      ReplaceAllAbsent(post, [c], [d]);
    } else {
      assert s[0] == pre[0] != c;
      assert !([c] <= s);
      assert s[1..] == pre[1..] + [c] + post;
      assert ReplaceAll(s, [c], [d]) == [s[0]] + ReplaceAll(s[1..], [c], [d]);
      ReplaceAllOne(pre[1..], c, d, post);
      assert [pre[0]] + (pre[1..] + [d] + post) == pre + [d] + post;
    }
  }

  /** A pattern holding a character that is absent from `s` does not occur in it. */
  lemma AbsentChar(s: string, pat: string, c: char)
    requires c in pat && c !in s
    ensures !Occurs(s, pat)
  {
    forall i: nat | i <= |s| ensures !OccursAt(s, pat, i) {
      if i + |pat| <= |s| {
        var k :| 0 <= k < |pat| && pat[k] == c;
        assert s[i..i + |pat|][k] == s[i + k] != c;
      }
    }
  }

  /** A string is what precedes an index, the character there, and what
      follows. */
  lemma Around(s: string, k: nat)
    requires k < |s|
    ensures s == s[..k] + [s[k]] + s[k + 1..]
  {
    var t := s[..k] + [s[k]] + s[k + 1..];
    assert |t| == |s|;
    forall i | 0 <= i < |s| ensures t[i] == s[i] {
      if i < k {
        assert t[i] == s[..k][i];
      } else if i > k {
        assert t[i] == s[k + 1..][i - k - 1];
      }
    }
  }

  /** Replacing the first `a` by `b`. */
  lemma ReplaceFirstChar(s: string, a: char, b: char)
    ensures a !in s ==> ReplaceFirst(s, [a], [b]) == s
    ensures a in s ==> ReplaceFirst(s, [a], [b]) == s[..IndexOf(s, a)] + [b] + s[IndexOf(s, a) + 1..]
  {
    if a in s {
      var k := IndexOf(s, a);
      Around(s, k);
      ReplaceFirstFound(s[..k], a, b, s[k + 1..]);
    } else {
      ReplaceFirstNone(s, a, b);
    }
  }

  lemma {:induction false} ReplaceFirstNone(s: string, a: char, b: char)
    requires a !in s
    ensures ReplaceFirst(s, [a], [b]) == s
  {
    if s != [] {
      assert s[0] != a;
      ReplaceFirstNone(s[1..], a, b);
      assert [s[0]] + s[1..] == s;
    }
  }

  lemma {:induction false} ReplaceFirstFound(pre: string, a: char, b: char, post: string)
    requires a !in pre
    ensures ReplaceFirst(pre + [a] + post, [a], [b]) == pre + [b] + post
  {
    var s := pre + [a] + post;
    if pre == [] {
      assert [a] <= s && s[1..] == post;
    } else {
      assert s[0] == pre[0] != a;
      assert s[1..] == pre[1..] + [a] + post;
      ReplaceFirstFound(pre[1..], a, b, post);
      assert [pre[0]] + (pre[1..] + [b] + post) == pre + [b] + post;
    }
  }

  /** Replacing the first `a` by `b` keeps the length and brings in no
      character but `b`. */
  lemma ReplaceFirstCharShape(s: string, a: char, b: char)
    ensures |ReplaceFirst(s, [a], [b])| == |s|
    ensures forall x | x in ReplaceFirst(s, [a], [b]) :: x in s || x == b
  {
    ReplaceFirstChar(s, a, b);
    if a in s {
      var k := IndexOf(s, a);
      var r := ReplaceFirst(s, [a], [b]);
      assert forall i | 0 <= i < |r| :: r[i] == (if i == k then b else s[i]);
    }
  }

  /** The first `c` of `pre + [c] + post`, when `pre` holds none, is the
      one replaced. */
  lemma ReplaceFirstAt(pre: string, c: char, d: char, post: string)
    requires c !in pre
    ensures ReplaceFirst(pre + [c] + post, [c], [d]) == pre + [d] + post
  {
    ReplaceFirstFound(pre, c, d, post);
  }

  /** Replacing the first `b` back by `a` undoes replacing the first `a` by
      `b`, when `b` occurred nowhere. */
  lemma ReplaceFirstCharUndone(s: string, a: char, b: char, tail: string)
    requires b !in s && b !in tail
    ensures ReplaceFirst(ReplaceFirst(s, [a], [b]) + tail, [b], [a]) == s + tail
  {
    if a in s {
      var k := IndexOf(s, a);
      Around(s, k);
      ReplaceFirstUndoneAt(s[..k], a, b, s[k + 1..], tail);
    } else {
      ReplaceFirstChar(s, a, b);
      ReplaceFirstChar(s + tail, b, a);
    }
  }

  lemma ReplaceFirstUndoneAt(pre: string, a: char, b: char, post: string, tail: string)
    requires a !in pre && b !in pre
    ensures ReplaceFirst(ReplaceFirst(pre + [a] + post, [a], [b]) + tail, [b], [a]) == pre + [a] + post + tail
  {
    ReplaceFirstAt(pre, a, b, post);
    assert pre + [b] + post + tail == pre + [b] + (post + tail);
    ReplaceFirstAt(pre, b, a, post + tail);
    assert pre + [a] + (post + tail) == pre + [a] + post + tail;
  }

  /** Removing every occurrence of `pat` from `s + pat`, where `pat` does not
      occur in `s` and its first character does not recur in it, leaves `s`. */
  lemma {:induction false} RemoveTrailingPattern(s: string, pat: string)
    requires |pat| > 0 && !Occurs(s, pat)
    requires forall k | 0 < k < |pat| :: pat[k] != pat[0]
    ensures ReplaceAll(s + pat, pat, []) == s
    decreases |s|
  {
    var t := s + pat;
    if s == [] {
      assert t == pat;
      assert t[|pat|..] == [];
    } else {
      if |pat| <= |s| {
        assert !OccursAt(s, pat, 0);
        assert t[..|pat|] == s[..|pat|];
      } else {
        assert t[|s|] == pat[0] != pat[|s|];
      }
      assert !(pat <= t);
      forall i: nat | OccursAt(s[1..], pat, i) ensures false {
        assert s[i + 1..i + 1 + |pat|] == s[1..][i..i + |pat|];
        assert OccursAt(s, pat, i + 1);
      }
      RemoveTrailingPattern(s[1..], pat);
      assert t[1..] == s[1..] + pat;
      assert [s[0]] + s[1..] == s;
    }
  }

  predicate EndsWith(s: string, suffix: string) {
    |suffix| <= |s| && s[|s| - |suffix|..] == suffix
  }

  // ---------------------------------------------------------------------
  // str.splitlines

  /** The line boundaries `str.splitlines` recognises. */
  predicate IsLineBreak(c: char) {
    c == '\n' || c == '\r' || c == '\U{0B}' || c == '\U{0C}' || c == '\U{1C}' || c == '\U{1D}'
    || c == '\U{1E}' || c == '\U{85}' || c == '\U{2028}' || c == '\U{2029}'
  }

  /** The lines of `s` after the partial line `cur`; `\r\n` is one boundary
      and a final boundary does not open an empty line. */
  function SplitLinesFrom(s: string, cur: string): seq<string>
    decreases |s|
  {
    if s == [] then (if cur == [] then [] else [cur])
    else if s[0] == '\r' && |s| > 1 && s[1] == '\n' then [cur] + SplitLinesFrom(s[2..], [])
    else if IsLineBreak(s[0]) then [cur] + SplitLinesFrom(s[1..], [])
    else SplitLinesFrom(s[1..], cur + [s[0]])
  }

  /** `s.splitlines()`. */
  function SplitLines(s: string): seq<string> {
    SplitLinesFrom(s, [])
  }

  /** No line contains a line boundary, and every character of a line is a
      character of the text. */
  lemma {:induction false} SplitLinesFromShape(s: string, cur: string)
    requires forall c | c in cur :: !IsLineBreak(c)
    ensures forall l, c | l in SplitLinesFrom(s, cur) && c in l :: !IsLineBreak(c) && (c in s || c in cur)
    decreases |s|
  {
    if s == [] {
    } else if s[0] == '\r' && |s| > 1 && s[1] == '\n' {
      SplitLinesFromShape(s[2..], []);
      assert forall c | c in s[2..] :: c in s;
    } else if IsLineBreak(s[0]) {
      SplitLinesFromShape(s[1..], []);
      assert forall c | c in s[1..] :: c in s;
    } else {
      SplitLinesFromShape(s[1..], cur + [s[0]]);
      assert forall c | c in s[1..] :: c in s;
    }
  }

  /** The lines joined with blanks hold no line boundary. */
  lemma JoinLinesShape(s: string)
    ensures forall c | c in Join(" ", SplitLines(s)) :: !IsLineBreak(c) && (c in s || c == ' ')
  {
    SplitLinesFromShape(s, []);
    JoinChars(" ", SplitLines(s));
  }

  /** A character of a join comes from a part or from the separator. */
  lemma {:induction false} JoinChars(sep: string, parts: seq<string>)
    ensures forall c | c in Join(sep, parts) :: c in sep || exists p | p in parts :: c in p
  {
    if |parts| > 1 {
      JoinChars(sep, parts[1..]);
      assert forall p | p in parts[1..] :: p in parts;
    }
  }
}
