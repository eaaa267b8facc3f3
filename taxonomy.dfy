/** The curated role word lists and the three exact-match lookups
    (analyze_repo_multi_trhead.py:28-75). */
module Taxonomy {
  import opened Lists

  /** The keys of `DATA`, in its order. */
  datatype Category = Dbs | Servers | Buses | Langs | Gates | Monitors | Discos

  const Categories: seq<Category> := [Dbs, Servers, Buses, Langs, Gates, Monitors, Discos]

  /** Every category is a key of `DATA`. */
  lemma AllCategories()
    ensures forall c: Category :: c in Categories
  {
    forall c: Category ensures c in Categories {
      match c
      case Dbs => assert Categories[0] == c;
      case Servers => assert Categories[1] == c;
      case Buses => assert Categories[2] == c;
      case Langs => assert Categories[3] == c;
      case Gates => assert Categories[4] == c;
      case Monitors => assert Categories[5] == c;
      case Discos => assert Categories[6] == c;
    }
  }

  /** The categories compose services and manifest files are tagged with:
      every one but `langs`. */
  const TaggedCategories: seq<Category> := [Dbs, Servers, Buses, Gates, Monitors, Discos]

  /** The word lists, read once at start-up (already lower-cased). */
  datatype Taxonomy = Taxonomy(
    dbs: seq<string>, servers: seq<string>, buses: seq<string>, langs: seq<string>,
    gates: seq<string>, monitors: seq<string>, discos: seq<string>)
  {
    function Words(c: Category): seq<string> {
      match c
      case Dbs => dbs
      case Servers => servers
      case Buses => buses
      case Langs => langs
      case Gates => gates
      case Monitors => monitors
      case Discos => discos
    }
  }

  /** Tags per category, as the analyses store them (`analysis[k]`). */
  type Tags = map<Category, seq<string>>

  /** `match_one`: the first list word equal to `name`. Since candidates are
      compared by equality, the answer does not depend on the list's order. */
  function MatchOne(name: string, l: seq<string>): (r: seq<string>)
    ensures r == if name in l then [name] else []
  {
    if l == [] then []
    else if name == l[0] then [l[0]]
    else MatchOne(name, l[1..])
  }

  /** `match_ones`: the match of the earliest token that is in the list. */
  function MatchOnes(names: seq<string>, l: seq<string>): (r: seq<string>)
    ensures |r| <= 1
    ensures r == [] <==> forall n | n in names :: n !in l
    ensures r != [] ==> exists i | 0 <= i < |names| ::
      r == [names[i]] && names[i] in l && forall j | 0 <= j < i :: names[j] !in l
  {
    if names == [] then []
    else
      var res := MatchOne(names[0], l);
      if res != [] then res
      else
        var r := MatchOnes(names[1..], l);
        assert forall n | n in names :: n == names[0] || n in names[1..];
        assert r != [] ==> exists i | 0 <= i < |names[1..]| ::
          r == [names[1..][i]] && names[1..][i] in l && forall j | 0 <= j < i :: names[1..][j] !in l;
        r
  }

  /** The word `match_ones` finds is one of the tokens and in the list. */
  lemma MatchOnesMembers(names: seq<string>, l: seq<string>)
    ensures forall w | w in MatchOnes(names, l) :: w in names && w in l
  {
    var r := MatchOnes(names, l);
    if r != [] {
      var i :| 0 <= i < |names| && r == [names[i]] && names[i] in l;
    }
  }

  /** Scanning `a + b` first-match-wins finds `a`'s match, or else `b`'s:
      Python's `match_ones(a, l) or match_ones(b, l)`. */
  lemma {:induction false} MatchOnesAppend(a: seq<string>, b: seq<string>, l: seq<string>)
    ensures MatchOnes(a + b, l) == if MatchOnes(a, l) != [] then MatchOnes(a, l) else MatchOnes(b, l)
  {
    if a != [] {
      assert (a + b)[0] == a[0];
      assert (a + b)[1..] == a[1..] + b;
      MatchOnesAppend(a[1..], b, l);
    } else {
      assert a + b == b;
    }
  }

  /** The result depends on the order of the tokens. */
  lemma MatchOnesOrderMatters()
    ensures MatchOnes(["mysql", "redis"], ["redis", "mysql"]) == ["mysql"]
    ensures MatchOnes(["redis", "mysql"], ["redis", "mysql"]) == ["redis"]
  {
  }

  /** The set `match_alls` collects: every token that is a list word. */
  function Matches(names: seq<string>, l: seq<string>): set<string> {
    set n | n in names && n in l
  }

  /** `match_alls`: the union of `match_one` over all tokens, as a list. */
  method MatchAlls(names: seq<string>, l: seq<string>) returns (r: seq<string>)
    ensures NoDuplicates(r)
    ensures Elements(r) == Matches(names, l)
    ensures forall x | x in r :: x in names && x in l
  {
    var alls: set<string> := {};
    for i := 0 to |names|
      invariant alls == Matches(names[..i], l)
    {
      assert names[..i + 1] == names[..i] + [names[i]];
      alls := alls + Elements(MatchOne(names[i], l));
    }
    assert names[..|names|] == names;
    r := ListOf(alls);
    assert forall x | x in r :: x in Elements(r);
  }

  /** What `match_alls` finds does not depend on the order of the tokens,
      nor on how often each occurs. */
  lemma MatchesOrderIndependent(a: seq<string>, b: seq<string>, l: seq<string>)
    requires Elements(a) == Elements(b)
    ensures Matches(a, l) == Matches(b, l)
  {
    forall n ensures n in Matches(a, l) <==> n in Matches(b, l) {
      assert n in a <==> n in Elements(a);
    }
  }
}
