/** `synthetize_data` (analyze_repo_multi_trhead.py:315-354): the
    repository-wide tags, gathered from the manifests, the compose services
    and the Dockerfiles, normalised, and the repository counts. */
module Synthesis {
  import opened Wrappers
  import opened Lists
  import opened Taxonomy
  import Text
  import Compose
  import Dockerfile
  import Manifest

  /** The tags of every category, as Python sets. */
  type TagSets = map<Category, set<string>>

  /** The summary fields `synthetize_data` adds to the repository record.
      The tag lists are Python sets turned into lists, so only their
      elements are determined. */
  datatype Synthesis = Synthesis(
    tags: TagSets, counts: map<Category, nat>, numServices: nat, sharedDbs: bool,
    numDockers: nat, images: set<string>, numFiles: nat, avgSizeService: real)

  // ---------------------------------------------------------------------------
  // Gathering
  // ---------------------------------------------------------------------------

  /** Everything the parts tag category `c` with (the parts lacking `c`
      contribute nothing). */
  function Collected(parts: seq<Tags>, c: Category): set<string> {
    if parts == [] then {}
    else
      var last := parts[|parts| - 1];
      Collected(parts[..|parts| - 1], c) + (if c in last then Elements(last[c]) else {})
  }

  /** A word is gathered exactly when some part tags the category with it. */
  lemma {:induction false} CollectedSpec(parts: seq<Tags>, c: Category)
    ensures forall x :: x in Collected(parts, c) <==> exists i | 0 <= i < |parts| :: c in parts[i] && x in parts[i][c]
  {
    if parts != [] {
      var init := parts[..|parts| - 1];
      CollectedSpec(init, c);
      assert forall i | 0 <= i < |init| :: init[i] == parts[i];
      forall x | exists i | 0 <= i < |parts| :: c in parts[i] && x in parts[i][c]
        ensures x in Collected(parts, c)
      {
        var i :| 0 <= i < |parts| && c in parts[i] && x in parts[i][c];
        if i == |parts| - 1 {
          assert x in Elements(parts[i][c]);
        } else {
          assert c in init[i] && x in init[i][c];
        }
      }
    }
  }

  /** The tags a manifest contributes (none when it could not be decoded). */
  function FileParts(files: seq<Manifest.FileAnalysis>): seq<Tags> {
    seq(|files|, i requires 0 <= i < |files| => if files[i].tags.Some? then files[i].tags.value else map[])
  }

  function ServiceParts(services: seq<Compose.Service>): seq<Tags> {
    seq(|services|, i requires 0 <= i < |services| => services[i].tags)
  }

  /** The tags a Dockerfile contributes (none when it could not be parsed). */
  function DockerParts(dockers: seq<Dockerfile.DockerAnalysis>): seq<Tags> {
    seq(|dockers|, i requires 0 <= i < |dockers| => if dockers[i].tags.Some? then dockers[i].tags.value else map[])
  }

  /** The parts in the order the analysis adds them: manifests, compose
      services, Dockerfiles. */
  function Parts(files: seq<Manifest.FileAnalysis>, services: seq<Compose.Service>,
                 dockers: seq<Dockerfile.DockerAnalysis>): seq<Tags>
  {
    FileParts(files) + ServiceParts(services) + DockerParts(dockers)
  }

  /** The gathered tags of a category, the languages included. */
  function Raw(parts: seq<Tags>, languages: seq<string>, c: Category): set<string> {
    Collected(parts, c) + if c == Langs then Elements(languages) else {}
  }

  // ---------------------------------------------------------------------------
  // Normalisation
  // ---------------------------------------------------------------------------

  /** `'db' == db[-2:]`. */
  predicate EndsDb(s: string) {
    Text.EndsWith(s, "db")
  }

  /** Every database tag ending in "db" is replaced by "db" itself. */
  function CollapseDbSuffix(s: set<string>): set<string> {
    (set x | x in s && !EndsDb(x)) + if exists x | x in s :: EndsDb(x) then {"db"} else {}
  }

  /** The generic tag is dropped when the category holds more than one tag. */
  function DropSentinel(s: set<string>, t: string): set<string> {
    if |s| > 1 then s - {t} else s
  }

  /** The generic tag of a category, for the four categories that have one. */
  function Sentinel(c: Category): Option<string> {
    match c
    case Dbs => Some("db")
    case Gates => Some("gateway")
    case Monitors => Some("monitoring")
    case Buses => Some("bus")
    case _ => None
  }

  /** The normalised tags of a category. */
  function Normalize(c: Category, s: set<string>): set<string> {
    if c == Dbs then DropSentinel(CollapseDbSuffix(s), "db")
    else if Sentinel(c).Some? then DropSentinel(s, Sentinel(c).value)
    else s
  }

  lemma DropSentinelFacts(s: set<string>, t: string)
    ensures DropSentinel(s, t) <= s && s - {t} <= DropSentinel(s, t)
    ensures DropSentinel(s, t) == {} <==> s == {}
    ensures t in DropSentinel(s, t) ==> DropSentinel(s, t) == {t}
  {
    if |s| > 1 {
      var x :| x in s;
      if x == t {
        assert |s - {x}| == |s| - 1;
        var y :| y in s - {x};
        assert y in DropSentinel(s, t);
      } else {
        assert x in DropSentinel(s, t);
      }
    } else if t in s {
      assert |s - {t}| == |s| - 1;
      assert s - {t} == {};
      assert s == {t};
    }
  }

  /** After collapsing, the only tag ending in "db" is "db", and it is there
      exactly when some tag ended in "db"; the others are kept. */
  lemma CollapseDbSuffixFacts(s: set<string>)
    ensures forall x | x in CollapseDbSuffix(s) && EndsDb(x) :: x == "db"
    ensures "db" in CollapseDbSuffix(s) <==> exists x | x in s :: EndsDb(x)
    ensures forall x | x in s && !EndsDb(x) :: x in CollapseDbSuffix(s)
    ensures CollapseDbSuffix(s) - {"db"} <= s
    ensures CollapseDbSuffix(s) == {} <==> s == {}
  {
    assert EndsDb("db");
    if s != {} {
      var x :| x in s;
      if EndsDb(x) { assert "db" in CollapseDbSuffix(s); } else { assert x in CollapseDbSuffix(s); }
    }
  }

  /** The database tags that survive: every tag not ending in "db", and
      "db" only when it is the one database tag left; nothing is left only
      when nothing was found. */
  lemma NormalizeDbsFacts(s: set<string>)
    ensures var n := Normalize(Dbs, s);
      (n == {} <==> s == {})
      && (forall x | x in n :: (x in s && !EndsDb(x)) || n == {"db"})
      && (forall x | x in s && !EndsDb(x) :: x in n)
      && ("db" in n ==> n == {"db"})
  {
    CollapseDbSuffixFacts(s);
    DropSentinelFacts(CollapseDbSuffix(s), "db");
    assert EndsDb("db");
  }

  /** Normalising the database tags a second time changes nothing. */
  lemma NormalizeDbsIdempotent(s: set<string>)
    ensures Normalize(Dbs, Normalize(Dbs, s)) == Normalize(Dbs, s)
  {
    var n := Normalize(Dbs, s);
    NormalizeDbsFacts(s);
    assert EndsDb("db");
    if "db" in n {
      assert CollapseDbSuffix({"db"}) == {"db"};
    } else {
      assert forall x | x in n :: !EndsDb(x);
      assert CollapseDbSuffix(n) == n;
    }
  }

  /** Dropping a generic tag a second time changes nothing. */
  lemma DropSentinelIdempotent(s: set<string>, t: string)
    ensures DropSentinel(DropSentinel(s, t), t) == DropSentinel(s, t)
  {
    DropSentinelFacts(s, t);
  }

  /** Normalising a category keeps it non-empty when it was; applying it
      twice changes nothing; the generic tag only remains as the sole tag;
      the other categories with a generic tag lose at most that tag, and
      the categories without one are left as they are. */
  lemma NormalizeFacts(c: Category, s: set<string>)
    ensures Normalize(c, s) == {} <==> s == {}
    ensures Normalize(c, Normalize(c, s)) == Normalize(c, s)
    ensures Sentinel(c).Some? && Sentinel(c).value in Normalize(c, s) ==> Normalize(c, s) == {Sentinel(c).value}
    ensures Sentinel(c).None? ==> Normalize(c, s) == s
    ensures c != Dbs ==> Normalize(c, s) <= s && (Sentinel(c).Some? ==> s - {Sentinel(c).value} <= Normalize(c, s))
  {
    if c == Dbs {
      NormalizeDbsFacts(s);
      NormalizeDbsIdempotent(s);
    } else if Sentinel(c).Some? {
      DropSentinelFacts(s, Sentinel(c).value);
      DropSentinelIdempotent(s, Sentinel(c).value);
    }
  }

  /** The documented example: the generic "db" gives way to a named database. */
  lemma NormalizeExampleNamed(s: set<string>)
    requires s == {"mysql", "db"}
    ensures Normalize(Dbs, s) == {"mysql"}
  {
    NormalizeDbsFacts(s);
    assert !EndsDb("mysql") && EndsDb("db");
    var n := Normalize(Dbs, s);
    assert "mysql" in n;
    assert n != {"db"};
    forall x | x in n ensures x == "mysql" {
      assert x in s && !EndsDb(x);
    }
  }

  /** The generic "db" alone stays. */
  lemma NormalizeExampleGeneric()
    ensures Normalize(Dbs, {"db"}) == {"db"}
  {
    NormalizeDbsFacts({"db"});
    assert EndsDb("db");
  }

  /** A database name ending in "db" is replaced by "db"... */
  lemma NormalizeExampleSuffix()
    ensures Normalize(Dbs, {"mongodb"}) == {"db"}
  {
    NormalizeDbsFacts({"mongodb"});
    assert EndsDb("mongodb");
  }

  /** ... which then gives way to another database. */
  lemma NormalizeExampleSuffixDropped()
    ensures Normalize(Dbs, {"mongodb", "redis"}) == {"redis"}
  {
    NormalizeDbsFacts({"mongodb", "redis"});
    assert EndsDb("mongodb") && !EndsDb("redis");
  }

  // ---------------------------------------------------------------------------
  // The synthesis
  // ---------------------------------------------------------------------------

  /** `size / max(num_dockers, 1)`. */
  function AvgSize(size: nat, numDockers: nat): real {
    size as real / (if numDockers > 1 then numDockers else 1) as real
  }

  /** The summary of a repository: each category holds the normalised
      gathered tags, and is counted. */
  function SynthesisOf(files: seq<Manifest.FileAnalysis>, structure: Compose.ComposeAnalysis,
                       dockers: seq<Dockerfile.DockerAnalysis>, languages: seq<string>, size: nat): Synthesis
  {
    var parts := Parts(files, structure.services, dockers);
    var tags := map c | c in Categories :: Normalize(c, Raw(parts, languages, c));
    Synthesis(
      tags, map c | c in Categories :: |tags[c]|,
      structure.numServices, structure.detectedDbs.sharedDbs, |dockers|,
      set d | d in dockers && d.from != "" :: d.from,
      |dockers| + |files| + 1, AvgSize(size, |dockers|))
  }

  /** A repository tag (other than "db") was found by some manifest,
      service or Dockerfile, or is one of the languages; every tag found that
      is not the category's generic one (and, for databases, does not end
      in "db") is a repository tag. */
  lemma TagProvenance(parts: seq<Tags>, languages: seq<string>, c: Category, x: string)
    ensures var t := Normalize(c, Raw(parts, languages, c));
      (x in t && x != "db" ==>
         (c == Langs && x in languages) || exists i | 0 <= i < |parts| :: c in parts[i] && x in parts[i][c])
      && ((exists i | 0 <= i < |parts| :: c in parts[i] && x in parts[i][c])
          && Sentinel(c) != Some(x) && (c == Dbs ==> !EndsDb(x))
          ==> x in t)
  {
    CollectedSpec(parts, c);
    var raw := Raw(parts, languages, c);
    NormalizeFacts(c, raw);
    NormalizeDbsFacts(raw);
  }

  /** The images are the non-empty base images of the Dockerfiles. */
  lemma ImagesOf(files: seq<Manifest.FileAnalysis>, structure: Compose.ComposeAnalysis,
                 dockers: seq<Dockerfile.DockerAnalysis>, languages: seq<string>, size: nat)
    ensures var r := SynthesisOf(files, structure, dockers, languages, size);
      "" !in r.images
      && (forall i | 0 <= i < |dockers| && dockers[i].from != "" :: dockers[i].from in r.images)
      && (forall m | m in r.images :: exists i | 0 <= i < |dockers| :: dockers[i].from == m)
  {
    var r := SynthesisOf(files, structure, dockers, languages, size);
    forall i | 0 <= i < |dockers| && dockers[i].from != "" ensures dockers[i].from in r.images {
      assert dockers[i] in dockers;
    }
    forall m | m in r.images ensures exists i | 0 <= i < |dockers| :: dockers[i].from == m {
      var d :| d in dockers && d.from != "" && d.from == m;
      var i :| 0 <= i < |dockers| && dockers[i] == d;
    }
  }

  /** The size is shared among the Dockerfiles, or all given to one when
      there is none. */
  lemma AvgSizeFacts(size: nat, numDockers: nat)
    ensures numDockers == 0 ==> AvgSize(size, numDockers) == size as real
    ensures AvgSize(size, numDockers) * (if numDockers > 1 then numDockers else 1) as real == size as real
    ensures 0.0 <= AvgSize(size, numDockers) <= size as real
  {
  }

  /** In the summary every count is the size of its category's final set;
      the only database tag ending in "db" is "db" itself; a generic tag
      remains only as its category's sole tag; and the file count is the
      Dockerfiles plus the manifests plus the compose file. */
  lemma SynthesisFacts(files: seq<Manifest.FileAnalysis>, structure: Compose.ComposeAnalysis,
                       dockers: seq<Dockerfile.DockerAnalysis>, languages: seq<string>, size: nat)
    ensures var r := SynthesisOf(files, structure, dockers, languages, size);
      (forall c :: c in r.tags && c in r.counts && r.counts[c] == |r.tags[c]|)
      && (forall x | x in r.tags[Dbs] && EndsDb(x) :: x == "db")
      && (forall c | Sentinel(c).Some? && Sentinel(c).value in r.tags[c] :: r.tags[c] == {Sentinel(c).value})
      && r.numDockers == |dockers| && r.numFiles == |dockers| + |files| + 1
  {
    AllCategories();
    var parts := Parts(files, structure.services, dockers);
    var r := SynthesisOf(files, structure, dockers, languages, size);
    forall c | Sentinel(c).Some? && Sentinel(c).value in r.tags[c]
      ensures r.tags[c] == {Sentinel(c).value}
    {
      NormalizeFacts(c, Raw(parts, languages, c));
    }
    NormalizeDbsFacts(Raw(parts, languages, Dbs));
  }

  // ---------------------------------------------------------------------------
  // The imperative synthesis
  // ---------------------------------------------------------------------------

  /** `for k in keys: analysis[k] = set()`. */
  method EmptyTags() returns (tags: TagSets)
    ensures forall c :: c in tags && tags[c] == {}
  {
    tags := map[];
    for i := 0 to |Categories|
      invariant forall c :: c in tags <==> c in Categories[..i]
      invariant forall c | c in tags :: tags[c] == {}
    {
      assert Categories[..i + 1] == Categories[..i] + [Categories[i]];
      tags := tags[Categories[i] := {}];
    }
    assert Categories[..|Categories|] == Categories;
    AllCategories();
  }

  /** One pass of `add_data`'s inner loop: the tags of one part. */
  method AddPart(tags: TagSets, d: Tags) returns (r: TagSets)
    requires forall c :: c in tags
    ensures forall c :: c in r && r[c] == tags[c] + if c in d then Elements(d[c]) else {}
  {
    r := tags;
    for j := 0 to |Categories|
      invariant forall c :: c in r
      invariant forall c | c in Categories[..j] :: r[c] == tags[c] + if c in d then Elements(d[c]) else {}
      invariant forall c | c !in Categories[..j] :: r[c] == tags[c]
    {
      var k := Categories[j];
      assert Categories[..j + 1] == Categories[..j] + [k];
      if k in d {
        r := r[k := r[k] + Elements(d[k])];
      }
    }
    assert Categories[..|Categories|] == Categories;
    AllCategories();
  }

  /** `add_data(data)`: the tags of every part, category by category. */
  method AddData(tags: TagSets, parts: seq<Tags>) returns (r: TagSets)
    requires forall c :: c in tags
    ensures forall c :: c in r && r[c] == tags[c] + Collected(parts, c)
  {
    r := tags;
    for i := 0 to |parts|
      invariant forall c :: c in r && r[c] == tags[c] + Collected(parts[..i], c)
    {
      assert parts[..i + 1][..i] == parts[..i];
      r := AddPart(r, parts[i]);
    }
    assert parts[..|parts|] == parts;
  }

  /** Collapsing one more tag. */
  lemma CollapseAdd(done: set<string>, x: string)
    ensures CollapseDbSuffix(done + {x}) == CollapseDbSuffix(done) + if EndsDb(x) then {"db"} else {x}
  {
  }

  /** One turn of the collapse loop, from the tags still to visit. */
  lemma CollapseStep(s: set<string>, rest: set<string>, x: string)
    requires x in rest && rest <= s
    ensures (if EndsDb(x) then (rest + CollapseDbSuffix(s - rest)) - {x} + {"db"} else rest + CollapseDbSuffix(s - rest))
         == (rest - {x}) + CollapseDbSuffix(s - (rest - {x}))
  {
    var done := s - rest;
    assert s - (rest - {x}) == done + {x};
    CollapseAdd(done, x);
    assert x !in CollapseDbSuffix(done) - {"db"};
  }

  /** The loop body: a tag ending in "db" is discarded and "db" added. */
  method CollapseOne(dbs: set<string>, x: string) returns (r: set<string>)
    ensures r == if EndsDb(x) then dbs - {x} + {"db"} else dbs
  {
    r := dbs;
    if EndsDb(x) {
      r := r - {x};
      r := r + {"db"};
    }
  }

  /** `for db in set(dbs)`: each database tag ending in "db" is discarded
      and "db" added, in whatever order the set is walked. */
  method CollapseDbs(s: set<string>) returns (r: set<string>)
    ensures r == CollapseDbSuffix(s)
  {
    r := s;
    var rest := s;
    assert CollapseDbSuffix(s - rest) == {};
    while rest != {}
      invariant rest <= s
      invariant r == rest + CollapseDbSuffix(s - rest)
      decreases |rest|
    {
      var x :| x in rest;
      CollapseStep(s, rest, x);
      r := CollapseOne(r, x);
      rest := rest - {x};
    }
    assert s - rest == s;
  }

  /** The database collapse and the four `len(...) > 1` discards. */
  method NormalizeTags(tags: TagSets) returns (r: TagSets)
    requires forall c :: c in tags
    ensures forall c :: c in r && r[c] == Normalize(c, tags[c])
  {
    var dbs := CollapseDbs(tags[Dbs]);
    var r1 := DropGeneric(tags[Dbs := dbs], Dbs, "db");
    var r2 := DropGeneric(r1, Gates, "gateway");
    var r3 := DropGeneric(r2, Monitors, "monitoring");
    r := DropGeneric(r3, Buses, "bus");
    forall c ensures c in r && r[c] == Normalize(c, tags[c]) {
      match c
      case Dbs => assert r[c] == r1[c] == DropSentinel(dbs, "db");
      case Gates => assert r[c] == r2[c];
      case Monitors => assert r[c] == r3[c];
      case Buses =>
      case Servers => assert r[c] == tags[c];
      case Langs => assert r[c] == tags[c];
      case Discos => assert r[c] == tags[c];
    }
  }

  /** `if len(analysis[k]) > 1: analysis[k].discard(tag)`. */
  method DropGeneric(tags: TagSets, c: Category, t: string) returns (r: TagSets)
    requires forall c :: c in tags
    ensures r == tags[c := DropSentinel(tags[c], t)]
  {
    r := tags;
    if |r[c]| > 1 {
      r := r[c := r[c] - {t}];
    }
  }

  /** `analysis['num_%s' % k] = len(analysis[k])`. */
  method CountTags(tags: TagSets) returns (counts: map<Category, nat>)
    requires forall c :: c in tags
    ensures counts == map c | c in Categories :: |tags[c]|
  {
    counts := map[];
    for i := 0 to |Categories|
      invariant forall c :: c in counts <==> c in Categories[..i]
      invariant forall c | c in counts :: counts[c] == |tags[c]|
    {
      assert Categories[..i + 1] == Categories[..i] + [Categories[i]];
      counts := counts[Categories[i] := |tags[Categories[i]]|];
    }
    assert Categories[..|Categories|] == Categories;
  }

  /** `{s['from'] for s in analysis['dockers'] if s['from']}`. */
  method Images(dockers: seq<Dockerfile.DockerAnalysis>) returns (images: set<string>)
    ensures images == set d | d in dockers && d.from != "" :: d.from
  {
    images := {};
    for i := 0 to |dockers|
      invariant images == set d | d in dockers[..i] && d.from != "" :: d.from
    {
      assert dockers[..i + 1] == dockers[..i] + [dockers[i]];
      if dockers[i].from != "" {
        images := images + {dockers[i].from};
      }
    }
    assert dockers[..|dockers|] == dockers;
  }

  /** The gathered tags: every category starts empty and takes the tags of
      the manifests, the services and the Dockerfiles and, for `langs`, the
      languages. */
  method GatherTags(files: seq<Manifest.FileAnalysis>, services: seq<Compose.Service>,
                    dockers: seq<Dockerfile.DockerAnalysis>, languages: seq<string>)
    returns (tags: TagSets)
    ensures forall c :: c in tags && tags[c] == Raw(Parts(files, services, dockers), languages, c)
  {
    tags := EmptyTags();
    tags := AddData(tags, FileParts(files));
    tags := AddData(tags, ServiceParts(services));
    tags := AddData(tags, DockerParts(dockers));
    tags := tags[Langs := tags[Langs] + Elements(languages)];
    CollectedConcat(FileParts(files), ServiceParts(services), DockerParts(dockers));
  }

  /** Runs `synthetize_data`: every category starts empty, takes the tags of
      the manifests, the services and the Dockerfiles and, for `langs`, the
      languages; the database tags are collapsed, the generic tags dropped,
      and the categories counted. */
  method Synthetize(files: seq<Manifest.FileAnalysis>, structure: Compose.ComposeAnalysis,
                    dockers: seq<Dockerfile.DockerAnalysis>, languages: seq<string>, size: nat)
    returns (r: Synthesis)
    ensures r == SynthesisOf(files, structure, dockers, languages, size)
  {
    var tags := GatherTags(files, structure.services, dockers, languages);
    ghost var parts := Parts(files, structure.services, dockers);
    tags := NormalizeTags(tags);
    AllCategories();
    assert tags == map c | c in Categories :: Normalize(c, Raw(parts, languages, c));
    var counts := CountTags(tags);
    var images := Images(dockers);
    r := Synthesis(
      tags, counts, structure.numServices, structure.detectedDbs.sharedDbs, |dockers|,
      images, |dockers| + |files| + 1, AvgSize(size, |dockers|));
  }

  /** Gathering three lists of parts one after the other gathers their
      concatenation. */
  lemma CollectedConcat(a: seq<Tags>, b: seq<Tags>, d: seq<Tags>)
    ensures forall c :: Collected(a + b + d, c) == Collected(a, c) + Collected(b, c) + Collected(d, c)
  {
    forall c ensures Collected(a + b + d, c) == Collected(a, c) + Collected(b, c) + Collected(d, c) {
      CollectedAppend(a, b, c);
      CollectedAppend(a + b, d, c);
    }
  }

  lemma {:induction false} CollectedAppend(a: seq<Tags>, b: seq<Tags>, c: Category)
    ensures Collected(a + b, c) == Collected(a, c) + Collected(b, c)
    decreases |b|
  {
    if b == [] {
      assert a + b == a;
    } else {
      var b' := b[..|b| - 1];
      CollectedAppend(a, b', c);
      assert (a + b)[..|a + b| - 1] == a + b';
      assert (a + b)[|a + b| - 1] == b[|b| - 1];
    }
  }
}
