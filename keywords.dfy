/** `keywords` (analyze_repo_multi_trhead.py:142-146): the `n` most frequent
    words of a text. `Counter.most_common(n)` ranks the distinct words by
    count, highest first, keeping words of equal count in the order they
    first occur. */
module Keywords {
  import opened Lists
  import Text

  /** How often `w` occurs in `ws`. */
  function Count(ws: seq<string>, w: string): nat {
    if ws == [] then 0 else (if ws[0] == w then 1 else 0) + Count(ws[1..], w)
  }

  /** The distinct words, in order of first occurrence (the key order of a
      `Counter`). */
  function Distinct(ws: seq<string>): (r: seq<string>)
    ensures NoDuplicates(r)
    ensures Elements(r) == Elements(ws)
  {
    if ws == [] then []
    else
      var prev := Distinct(ws[..|ws| - 1]);
      var w := ws[|ws| - 1];
      assert Elements(ws) == Elements(ws[..|ws| - 1]) + {w} by {
        assert ws == ws[..|ws| - 1] + [w];
      }
      if w in prev then prev
      else
        NoDuplicatesAppend(prev, [w]);
        prev + [w]
  }

  /** The position of the first occurrence of `w` in `ws`. */
  function FirstIndex(ws: seq<string>, w: string): (i: nat)
    requires w in ws
    ensures i < |ws| && ws[i] == w && forall j | 0 <= j < i :: ws[j] != w
  {
    if ws[0] == w then 0 else 1 + FirstIndex(ws[1..], w)
  }

  /** A word already present keeps its first position when a word is
      appended. */
  lemma FirstIndexSnoc(ws: seq<string>, w: string, v: string)
    requires v in ws
    ensures FirstIndex(ws + [w], v) == FirstIndex(ws, v)
  {
    var i, k := FirstIndex(ws, v), FirstIndex(ws + [w], v);
    assert (ws + [w])[i] == v;
  }

  /** `Distinct` lists the words in order of first occurrence. */
  lemma {:induction false} DistinctFirstOccurrence(ws: seq<string>)
    ensures forall x | x in Distinct(ws) :: x in ws
    ensures forall i, j | 0 <= i < j < |Distinct(ws)| ::
      FirstIndex(ws, Distinct(ws)[i]) < FirstIndex(ws, Distinct(ws)[j])
    decreases |ws|
  {
    var d := Distinct(ws);
    forall x | x in d ensures x in ws {
      assert x in Elements(d);
    }
    if ws != [] {
      var init, w := ws[..|ws| - 1], ws[|ws| - 1];
      var p := Distinct(init);
      DistinctFirstOccurrence(init);
      assert ws == init + [w];
      forall v | v in init ensures FirstIndex(ws, v) == FirstIndex(init, v) {
        FirstIndexSnoc(init, w, v);
      }
      if w !in p {
        assert w !in Elements(init);
        assert FirstIndex(ws, w) == |init|;
        assert d == p + [w];
        forall i, j | 0 <= i < j < |d| ensures FirstIndex(ws, d[i]) < FirstIndex(ws, d[j]) {
          if j < |p| {
            assert d[i] == p[i] && d[j] == p[j];
          } else {
            assert d[i] == p[i];
          }
        }
      }
    }
  }

  /** For two words of the text, `x` comes before `y` among the distinct
      words exactly when `x` first occurs before `y` does. */
  lemma DistinctBefore(ws: seq<string>, x: string, y: string)
    requires x in ws && y in ws
    ensures Before(Distinct(ws), x, y) <==> FirstIndex(ws, x) < FirstIndex(ws, y)
  {
    var d := Distinct(ws);
    DistinctFirstOccurrence(ws);
    if FirstIndex(ws, x) < FirstIndex(ws, y) {
      assert x in Elements(ws) && y in Elements(ws);
      assert x in Elements(d) && y in Elements(d);
      var a :| 0 <= a < |d| && d[a] == x;
      var b :| 0 <= b < |d| && d[b] == y;
      assert a != b;
    }
  }

  /** `x` comes before `y` in `s`. */
  predicate Before(s: seq<string>, x: string, y: string) {
    exists a, b | 0 <= a < b < |s| :: s[a] == x && s[b] == y
  }

  /** The position of the first candidate of highest count. */
  function MaxIndex(cands: seq<string>, ws: seq<string>): (k: nat)
    requires |cands| > 0
    ensures k < |cands|
    ensures forall j | 0 <= j < |cands| :: Count(ws, cands[j]) <= Count(ws, cands[k])
    ensures forall j | 0 <= j < k :: Count(ws, cands[j]) < Count(ws, cands[k])
  {
    if |cands| == 1 then 0
    else
      var k := MaxIndex(cands[1..], ws) + 1;
      assert forall j | 1 <= j < |cands| :: cands[j] == cands[1..][j - 1];
      if Count(ws, cands[0]) >= Count(ws, cands[k]) then 0 else k
  }

  function Remove(s: seq<string>, k: nat): seq<string>
    requires k < |s|
  {
    s[..k] + s[k + 1..]
  }

  /** Repeatedly takes the first candidate of highest count: the first `n`
      elements of a stable sort by decreasing count. */
  function Select(cands: seq<string>, ws: seq<string>, n: nat): seq<string>
    decreases n
  {
    if n == 0 || cands == [] then []
    else
      var k := MaxIndex(cands, ws);
      [cands[k]] + Select(Remove(cands, k), ws, n - 1)
  }

  /** `[x[0] for x in Counter(words).most_common(n)]`. */
  function MostCommon(words: seq<string>, n: nat): (r: seq<string>)
    ensures |r| <= n && NoDuplicates(r)
  {
    SelectShape(Distinct(words), words, n);
    Select(Distinct(words), words, n)
  }

  /** `keywords(data, n)`. */
  function KeywordsOf(data: string, n: nat): (r: seq<string>)
    ensures |r| <= n && NoDuplicates(r)
  {
    MostCommon(Text.GetWords(data), n)
  }

  lemma RemoveAt(s: seq<string>, k: nat)
    requires k < |s|
    ensures |Remove(s, k)| == |s| - 1
    ensures forall i | 0 <= i < k :: Remove(s, k)[i] == s[i]
    ensures forall i | k <= i < |s| - 1 :: Remove(s, k)[i] == s[i + 1]
  {
  }

  /** Removing an element keeps the others distinct. */
  lemma RemoveNoDuplicates(s: seq<string>, k: nat)
    requires k < |s| && NoDuplicates(s)
    ensures NoDuplicates(Remove(s, k))
  {
    var t := Remove(s, k);
    RemoveAt(s, k);
    forall i, j | 0 <= i < j < |t| ensures t[i] != t[j] {
      var i' := if i < k then i else i + 1;
      var j' := if j < k then j else j + 1;
      assert t[i] == s[i'] && t[j] == s[j'];
    }
  }

  /** Every other element is still there. */
  lemma RemoveKeeps(s: seq<string>, k: nat, x: string)
    requires k < |s| && x in s && x != s[k]
    ensures x in Remove(s, k)
  {
    var t := Remove(s, k);
    RemoveAt(s, k);
    var i :| 0 <= i < |s| && s[i] == x;
    if i < k { assert t[i] == x; } else { assert t[i - 1] == x; }
  }

  /** Nothing else is there, and the removed element is gone. */
  lemma RemoveFrom(s: seq<string>, k: nat, x: string)
    requires k < |s| && NoDuplicates(s) && x in Remove(s, k)
    ensures x in s && x != s[k]
  {
    var t := Remove(s, k);
    RemoveAt(s, k);
    var i :| 0 <= i < |t| && t[i] == x;
    var i' := if i < k then i else i + 1;
    assert s[i'] == x;
  }

  lemma RemoveSubset(s: seq<string>, k: nat)
    requires k < |s| && NoDuplicates(s)
    ensures Elements(Remove(s, k)) <= Elements(s) - {s[k]}
  {
    forall x | x in Elements(Remove(s, k)) ensures x in Elements(s) - {s[k]} {
      RemoveFrom(s, k, x);
    }
  }

  lemma RemoveBefore(s: seq<string>, k: nat, x: string, y: string)
    requires k < |s| && Before(Remove(s, k), x, y)
    ensures Before(s, x, y)
  {
    var t := Remove(s, k);
    RemoveAt(s, k);
    var a, b :| 0 <= a < b < |t| && t[a] == x && t[b] == y;
    var a' := if a < k then a else a + 1;
    var b' := if b < k then b else b + 1;
    assert s[a'] == x && s[b'] == y;
  }

  /** The selection lists distinct candidates, as many as `n` allows. */
  lemma SelectShape(cands: seq<string>, ws: seq<string>, n: nat)
    requires NoDuplicates(cands)
    ensures var r := Select(cands, ws, n);
      NoDuplicates(r) && Elements(r) <= Elements(cands)
      && |r| == (if n < |cands| then n else |cands|)
  {
    SelectDistinct(cands, ws, n);
    SelectLength(cands, ws, n);
  }

  lemma {:induction false} SelectDistinct(cands: seq<string>, ws: seq<string>, n: nat)
    requires NoDuplicates(cands)
    ensures NoDuplicates(Select(cands, ws, n)) && Elements(Select(cands, ws, n)) <= Elements(cands)
    decreases n
  {
    if n != 0 && cands != [] {
      var k := MaxIndex(cands, ws);
      RemoveNoDuplicates(cands, k);
      SelectDistinct(Remove(cands, k), ws, n - 1);
      DistinctStep(cands, ws, n);
    }
  }

  /** The first selected word is not selected again. */
  lemma DistinctStep(cands: seq<string>, ws: seq<string>, n: nat)
    requires NoDuplicates(cands) && n != 0 && cands != []
    requires NoDuplicates(Select(Remove(cands, MaxIndex(cands, ws)), ws, n - 1))
    requires Elements(Select(Remove(cands, MaxIndex(cands, ws)), ws, n - 1)) <= Elements(Remove(cands, MaxIndex(cands, ws)))
    ensures NoDuplicates(Select(cands, ws, n)) && Elements(Select(cands, ws, n)) <= Elements(cands)
  {
    var k := MaxIndex(cands, ws);
    var rest := Remove(cands, k);
    RemoveSubset(cands, k);
    var r' := Select(rest, ws, n - 1);
    assert Select(cands, ws, n) == [cands[k]] + r';
    assert cands[k] in Elements(cands);
    ConsFresh(cands[k], r', Elements(cands));
  }

  lemma {:induction false} SelectLength(cands: seq<string>, ws: seq<string>, n: nat)
    ensures |Select(cands, ws, n)| == if n < |cands| then n else |cands|
    decreases n
  {
    if n != 0 && cands != [] {
      var k := MaxIndex(cands, ws);
      var rest := Remove(cands, k);
      SelectLength(rest, ws, n - 1);
      assert |rest| == |cands| - 1;
    }
  }

  /** Putting in front an element the rest lacks keeps the list free of
      duplicates, and within the elements it was drawn from. */
  lemma ConsFresh(x: string, r: seq<string>, all: set<string>)
    requires NoDuplicates(r) && Elements(r) <= all - {x} && x in all
    ensures NoDuplicates([x] + r) && Elements([x] + r) <= all
  {
    NoDuplicatesAppend([x], r);
    ElementsAppend([x], r);
  }

  /** Everything after the first selected word counts at most as much, and
      comes after it among the candidates when it counts as much. */
  lemma AfterMax(cands: seq<string>, ws: seq<string>, y: string)
    requires NoDuplicates(cands) && cands != []
    requires y in Remove(cands, MaxIndex(cands, ws))
    ensures Count(ws, y) <= Count(ws, cands[MaxIndex(cands, ws)])
    ensures Count(ws, y) == Count(ws, cands[MaxIndex(cands, ws)]) ==> Before(cands, cands[MaxIndex(cands, ws)], y)
  {
    var k := MaxIndex(cands, ws);
    RemoveFrom(cands, k, y);
    var a :| 0 <= a < |cands| && cands[a] == y;
    assert a != k;
  }

  /** Two selected words, the earlier first: it counts at least as much,
      and comes first among the candidates when it counts as much. */
  lemma {:induction false} SelectPair(cands: seq<string>, ws: seq<string>, n: nat, i: nat, j: nat)
    requires NoDuplicates(cands) && i < j < |Select(cands, ws, n)|
    ensures var r := Select(cands, ws, n);
      Count(ws, r[i]) >= Count(ws, r[j])
      && (Count(ws, r[i]) == Count(ws, r[j]) ==> Before(cands, r[i], r[j]))
    decreases n
  {
    if i == 0 {
      SelectFirst(cands, ws, n, j);
    } else {
      var k := MaxIndex(cands, ws);
      PairStep(cands, ws, n, i, j);
      SelectPair(Remove(cands, k), ws, n - 1, i - 1, j - 1);
      var r := Select(cands, ws, n);
      if Count(ws, r[i]) == Count(ws, r[j]) {
        RemoveBefore(cands, k, r[i], r[j]);
      }
    }
  }

  /** Two selected words after the first are selected, one place earlier,
      once the first is removed. */
  lemma PairStep(cands: seq<string>, ws: seq<string>, n: nat, i: nat, j: nat)
    requires NoDuplicates(cands) && 0 < i < j < |Select(cands, ws, n)|
    ensures n > 0 && NoDuplicates(Remove(cands, MaxIndex(cands, ws)))
    ensures j - 1 < |Select(Remove(cands, MaxIndex(cands, ws)), ws, n - 1)|
    ensures Select(cands, ws, n)[i] == Select(Remove(cands, MaxIndex(cands, ws)), ws, n - 1)[i - 1]
    ensures Select(cands, ws, n)[j] == Select(Remove(cands, MaxIndex(cands, ws)), ws, n - 1)[j - 1]
  {
    var k := MaxIndex(cands, ws);
    var rest := Remove(cands, k);
    RemoveNoDuplicates(cands, k);
    assert Select(cands, ws, n) == [cands[k]] + Select(rest, ws, n - 1);
  }

  /** The first selected word against a later one. */
  lemma SelectFirst(cands: seq<string>, ws: seq<string>, n: nat, j: nat)
    requires NoDuplicates(cands) && 0 < j < |Select(cands, ws, n)|
    ensures var r := Select(cands, ws, n);
      Count(ws, r[0]) >= Count(ws, r[j])
      && (Count(ws, r[0]) == Count(ws, r[j]) ==> Before(cands, r[0], r[j]))
  {
    var r := Select(cands, ws, n);
    var k := MaxIndex(cands, ws);
    var rest := Remove(cands, k);
    var r' := Select(rest, ws, n - 1);
    assert r == [cands[k]] + r';
    RemoveNoDuplicates(cands, k);
    SelectDistinct(rest, ws, n - 1);
    assert r[j] == r'[j - 1] && r'[j - 1] in Elements(r');
    assert r[j] in Elements(rest);
    AfterMax(cands, ws, r[j]);
  }

  /** A candidate left out and a selected word: the selected one counts at
      least as much, and comes first among the candidates when it counts as
      much. */
  lemma {:induction false} SelectLeftOut(cands: seq<string>, ws: seq<string>, n: nat, x: string, y: string)
    requires NoDuplicates(cands) && x in cands && x !in Select(cands, ws, n) && y in Select(cands, ws, n)
    ensures Count(ws, x) <= Count(ws, y)
    ensures Count(ws, x) == Count(ws, y) ==> Before(cands, y, x)
    decreases n
  {
    var k := MaxIndex(cands, ws);
    if y == cands[k] {
      LeftOutFirst(cands, ws, n, x);
    } else {
      LeftOutStep(cands, ws, n, x, y);
      SelectLeftOut(Remove(cands, k), ws, n - 1, x, y);
      if Count(ws, x) == Count(ws, y) {
        RemoveBefore(cands, k, y, x);
      }
    }
  }

  /** A candidate left out and a selected word other than the first are
      still left out and selected once the first is removed. */
  lemma LeftOutStep(cands: seq<string>, ws: seq<string>, n: nat, x: string, y: string)
    requires NoDuplicates(cands) && x in cands && x !in Select(cands, ws, n) && y in Select(cands, ws, n)
    requires y != cands[MaxIndex(cands, ws)]
    ensures n > 0 && NoDuplicates(Remove(cands, MaxIndex(cands, ws))) && x in Remove(cands, MaxIndex(cands, ws))
    ensures x !in Select(Remove(cands, MaxIndex(cands, ws)), ws, n - 1)
    ensures y in Select(Remove(cands, MaxIndex(cands, ws)), ws, n - 1)
  {
    var k := MaxIndex(cands, ws);
    var rest := Remove(cands, k);
    var r' := Select(rest, ws, n - 1);
    assert Select(cands, ws, n) == [cands[k]] + r';
    RemoveNoDuplicates(cands, k);
    assert x != cands[k];
    RemoveKeeps(cands, k, x);
  }

  /** A candidate left out against the first selected word. */
  lemma LeftOutFirst(cands: seq<string>, ws: seq<string>, n: nat, x: string)
    requires NoDuplicates(cands) && x in cands && x !in Select(cands, ws, n) && cands[MaxIndex(cands, ws)] in Select(cands, ws, n)
    ensures var y := cands[MaxIndex(cands, ws)];
      Count(ws, x) <= Count(ws, y) && (Count(ws, x) == Count(ws, y) ==> Before(cands, y, x))
  {
    var k := MaxIndex(cands, ws);
    assert x != cands[k];
    RemoveKeeps(cands, k, x);
    AfterMax(cands, ws, x);
  }

  /** `most_common(n)` lists at most `n` distinct words of the text, as many
      as there are distinct words when fewer, highest count first, words of
      equal count in order of first occurrence. */
  lemma MostCommonOrder(words: seq<string>, n: nat)
    ensures var r := MostCommon(words, n);
      NoDuplicates(r)
      && (forall w | w in r :: w in words)
      && |r| == (if n < |Distinct(words)| then n else |Distinct(words)|)
      && (forall i, j | 0 <= i < j < |r| :: Count(words, r[i]) >= Count(words, r[j]))
      && (forall i, j | 0 <= i < j < |r| && Count(words, r[i]) == Count(words, r[j]) ::
            r[i] in words && r[j] in words && FirstIndex(words, r[i]) < FirstIndex(words, r[j]))
  {
    var d := Distinct(words);
    SelectShape(d, words, n);
    var r := MostCommon(words, n);
    forall w | w in r ensures w in words {
      assert w in Elements(r);
    }
    forall i, j | 0 <= i < j < |r|
      ensures Count(words, r[i]) >= Count(words, r[j])
      ensures Count(words, r[i]) == Count(words, r[j]) ==>
        r[i] in words && r[j] in words && FirstIndex(words, r[i]) < FirstIndex(words, r[j])
    {
      SelectPair(d, words, n, i, j);
      assert r[i] in r && r[j] in r;
      DistinctBefore(words, r[i], r[j]);
    }
  }

  /** Every word left out of `most_common(n)` occurs at most as often as
      every word listed, and after it when as often. */
  lemma MostCommonTop(words: seq<string>, n: nat)
    ensures var r := MostCommon(words, n);
      (forall x, y | x in words && x !in r && y in r :: Count(words, x) <= Count(words, y))
      && (forall x, y | x in words && x !in r && y in r && Count(words, x) == Count(words, y) ::
            y in words && FirstIndex(words, y) < FirstIndex(words, x))
  {
    var d := Distinct(words);
    var r := MostCommon(words, n);
    MostCommonOrder(words, n);
    forall x, y | x in words && x !in r && y in r
      ensures Count(words, x) <= Count(words, y)
      ensures Count(words, x) == Count(words, y) ==> y in words && FirstIndex(words, y) < FirstIndex(words, x)
    {
      assert x in Elements(words);
      SelectLeftOut(d, words, n, x, y);
      DistinctBefore(words, y, x);
    }
  }

  /** A word occurring more often than another is listed first. */
  lemma MostCommonExample()
    ensures MostCommon(["npm", "run", "npm"], 1) == ["npm"]
  {
    var ws := ["npm", "run", "npm"];
    assert Count(ws, "npm") == 2;
    assert Count(ws, "run") == 1;
    assert Distinct(ws) == ["npm", "run"] by {
      assert ws[..2] == ["npm", "run"];
      assert ws[..2][..1] == ["npm"];
      assert ws[..2][..1][..0] == [];
    }
  }
}
