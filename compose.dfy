/** The docker-compose analysis (analyze_repo_multi_trhead.py:202-303): one
    record per declared service, the databases detected among them, whether
    two services depend on the same database, and the metrics of the full
    and the reduced dependency graph. */
module Compose {
  import opened Wrappers
  import opened Lists
  import opened Yaml
  import opened Taxonomy
  import opened Graphs
  import Text

  /** One entry of `analysis['services']`. */
  datatype Service = Service(
    name: string, image: string, imageFull: string, tags: Tags, dependsOn: seq<string>)

  /** `analysis['detected_dbs']`. `names` is built from a Python set, whose
      listing order the program does not control, so it is kept as a set. */
  datatype DetectedDbs = DetectedDbs(
    num: nat, names: set<string>, services: seq<string>, sharedDbs: bool)

  /** The compose record; `depGraphs` holds the `dep_graph_full` and
      `dep_graph_micro` metrics, absent when the file declares no services. */
  datatype ComposeAnalysis = ComposeAnalysis(
    path: string, numServices: nat, services: seq<Service>,
    detectedDbs: DetectedDbs, depGraphs: Option<(GraphMetrics, GraphMetrics)>)

  /** What the YAML loader makes of the file: `Unloadable` stands for the
      decoding, parser and scanner errors the analysis swallows (line 299),
      `Rejected` for the other loader errors (a composer error on a file of
      several documents, a constructor error on an unknown tag, a reader
      error), which escape the analysis. */
  datatype ComposeSource = Unloadable | Rejected | Loaded(doc: Value)

  /** The record the analysis starts from and returns for an empty file. */
  function EmptyAnalysis(path: string): ComposeAnalysis {
    ComposeAnalysis(path, 0, [], DetectedDbs(0, {}, [], false), None)
  }

  // ---------------------------------------------------------------------------
  // One service
  // ---------------------------------------------------------------------------

  /** `(s['image'], s['image_full'])`: the image name without its tag, else
      the build context (the first value of a build mapping, printed), else
      the empty string. A truthy image that is not a string, or a build
      value that is neither a string nor a mapping, raises. */
  function Identity(body: Value): (r: Result<(string, string)>)
    requires Truthy(body)
    ensures body.Mapping? && Lookup(body.entries, "image").Some? && Lookup(body.entries, "image").value.Str?
            && Truthy(Lookup(body.entries, "image").value) ==>
              var full := Lookup(body.entries, "image").value.s;
              r.Ok? && r.value.1 == full && r.value.0 <= full && ':' !in r.value.0
              && (':' in full ==> full[|r.value.0|] == ':')
              && (':' !in full ==> r.value.0 == full)
    ensures body.Mapping? && !Given(body.entries, "image") && Given(body.entries, "build") ==>
              var b := Lookup(body.entries, "build").value;
              (b.Str? ==> r == Ok((b.s, b.s)))
              && (b.Mapping? ==> r == Ok((PyStr(b.entries[0].1), PyStr(b.entries[0].1))))
              && (!b.Str? && !b.Mapping? ==> r == Err(NotAString))
    ensures body.Mapping? && !Given(body.entries, "image") && !Given(body.entries, "build") ==>
              r == Ok(([], []))
    ensures body.Mapping? && Given(body.entries, "image") && !Lookup(body.entries, "image").value.Str? ==>
              r == Err(NotAString)
    ensures r.Ok? && body.Mapping? && !Given(body.entries, "image") ==> r.value.0 == r.value.1
    ensures (body.Str? || body.List?) && r.Ok? ==> r.value == ([], [])
  {
    var image :- Member(body, "image");
    if image.Some? && Truthy(image.value) then
      if image.value.Str? then Ok((Text.BeforeFirst(image.value.s, ':'), image.value.s))
      else Err(NotAString)
    else
      var build :- Member(body, "build");
      if build.Some? && Truthy(build.value) then
        match build.value
        case Str(s) => Ok((s, s))
        case Mapping(entries) => var t := PyStr(entries[0].1); Ok((t, t))
        case _ => Err(NotAString)
      else Ok(([], []))
  }

  /** `key in service and service[key]`: the key is present with a truthy
      value. */
  predicate Given(entries: seq<(string, Value)>, key: string) {
    Lookup(entries, key).Some? && Truthy(Lookup(entries, key).value)
  }

  /** The tags of a service: for every category but `langs`, the first word
      of the image name found in the category's list. */
  function ServiceTags(tax: Taxonomy, image: string): (r: Tags)
    ensures forall c :: c in r <==> c in TaggedCategories
    ensures Langs !in r
  {
    assert Langs !in TaggedCategories;
    var words := Text.GetWords(image);
    map c | c in TaggedCategories :: MatchOnes(words, tax.Words(c))
  }

  /** A service has at most one tag per category, a word of its image name
      that the category lists, and none exactly when the category lists no
      word of the image name. */
  lemma ServiceTagsFacts(tax: Taxonomy, image: string)
    ensures var r := ServiceTags(tax, image);
      forall c | c in r ::
        |r[c]| <= 1
        && (forall w | w in r[c] :: w in Text.GetWords(image) && w in tax.Words(c))
        && (r[c] == [] <==> forall w | w in Text.GetWords(image) :: w !in tax.Words(c))
  {
    var r := ServiceTags(tax, image);
    forall c | c in r
      ensures |r[c]| <= 1
      ensures forall w | w in r[c] :: w in Text.GetWords(image) && w in tax.Words(c)
      ensures r[c] == [] <==> forall w | w in Text.GetWords(image) :: w !in tax.Words(c)
    {
      MatchOnesMembers(Text.GetWords(image), tax.Words(c));
    }
  }

  /** `s['depends_on']`: the keys of a `depends_on` mapping, the entries of
      any other `depends_on` value (none for `null`), else the entries of
      `links`, else none. Entries must be hashable graph nodes. */
  function Dependencies(body: Value): (r: Result<seq<string>>)
    ensures body.Mapping? && Lookup(body.entries, "depends_on").Some? ==>
              var d := Lookup(body.entries, "depends_on").value;
              (d.Mapping? ==> r == Ok(Keys(d.entries)))
              && (d.Null? ==> r == Ok([]))
              && (d.Str? ==> r == Ok(seq(|d.s|, i requires 0 <= i < |d.s| => [d.s[i]])))
              && ((d.List? && forall i | 0 <= i < |d.items| :: d.items[i].Str?) ==>
                    r.Ok? && |r.value| == |d.items| && forall i | 0 <= i < |d.items| :: r.value[i] == d.items[i].s)
              && (d.Scalar? ==> r == Err(NotIterable))
    ensures body.Mapping? && Lookup(body.entries, "depends_on").None? && Lookup(body.entries, "links").Some? ==>
              var d := Lookup(body.entries, "links").value;
              ((d.Null? || d.Scalar?) ==> r == Err(NotIterable))
              && (d.Mapping? ==> r == Ok(Keys(d.entries)))
              && ((d.List? && forall i | 0 <= i < |d.items| :: d.items[i].Str?) ==>
                    r.Ok? && |r.value| == |d.items| && forall i | 0 <= i < |d.items| :: r.value[i] == d.items[i].s)
    ensures body.Mapping? && Lookup(body.entries, "depends_on").None? && Lookup(body.entries, "links").None? ==>
              r == Ok([])
  {
    var dep :- Member(body, "depends_on");
    if dep.Some? then
      match dep.value
      case Mapping(entries) => Ok(Keys(entries))
      case Null => Ok([])
      case Str(s) => LabelsOfString(s); Labels(Iterate(dep.value).value)
      case List(_) => Labels(Iterate(dep.value).value)
      case Scalar(_, _) => Iterate(dep.value).PropagateFailure()
    else
      var links :- Member(body, "links");
      if links.Some? then
        var items :- Iterate(links.value);
        LabelsOfIteration(links.value);
        Labels(items)
      else Ok([])
  }

  /** Listing a mapping gives its keys; listing a list of strings gives
      those strings. */
  lemma LabelsOfIteration(v: Value)
    requires Iterate(v).Ok?
    ensures v.Mapping? ==> Labels(Iterate(v).value) == Ok(Keys(v.entries))
    ensures v.List? && (forall i | 0 <= i < |v.items| :: v.items[i].Str?) ==>
      Labels(Iterate(v).value).Ok? && |Labels(Iterate(v).value).value| == |v.items|
      && forall i | 0 <= i < |v.items| :: Labels(Iterate(v).value).value[i] == v.items[i].s
  {
    var items := Iterate(v).value;
    if v.Mapping? {
      assert forall i | 0 <= i < |items| :: Label(items[i]) == Ok(v.entries[i].0);
      assert Labels(items).value == Keys(v.entries);
    }
  }

  /** Listing a string gives its characters, each a one-character node. */
  lemma LabelsOfString(s: string)
    ensures Labels(Iterate(Str(s)).value) == Ok(seq(|s|, i requires 0 <= i < |s| => [s[i]]))
  {
    var items := Iterate(Str(s)).value;
    var names := seq(|s|, i requires 0 <= i < |s| => [s[i]]);
    assert |items| == |s| && forall i | 0 <= i < |s| :: items[i] == Str([s[i]]);
    assert forall i | 0 <= i < |items| :: Label(items[i]) == Ok(names[i]);
    assert Labels(items).Ok?;
    assert Labels(items).value == names;
  }

  /** The record of one non-empty service. */
  function ServiceOf(tax: Taxonomy, name: string, body: Value): (r: Result<Service>)
    requires Truthy(body)
    ensures r.Ok? ==> r.value.name == name
    ensures r.Ok? <==> Identity(body).Ok? && Dependencies(body).Ok?
    ensures r.Ok? ==> r.value.image == Identity(body).value.0 && r.value.imageFull == Identity(body).value.1
                      && r.value.tags == ServiceTags(tax, r.value.image)
                      && r.value.dependsOn == Dependencies(body).value
  {
    var id :- Identity(body);
    var deps :- Dependencies(body);
    Ok(Service(name, id.0, id.1, ServiceTags(tax, id.0), deps))
  }

  /** The records of the non-empty services of `entries`, in order; the
      first service that raises aborts the analysis. */
  function ServicesOf(tax: Taxonomy, entries: seq<(string, Value)>): Result<seq<Service>>
    decreases |entries|
  {
    if entries == [] then Ok([])
    else
      var prev :- ServicesOf(tax, entries[..|entries| - 1]);
      var last := entries[|entries| - 1];
      if !Truthy(last.1) then Ok(prev)
      else
        var s :- ServiceOf(tax, last.0, last.1);
        Ok(prev + [s])
  }

  /** Once a prefix of the services raises, the whole list does. */
  lemma {:induction false} ServicesOfErrPersists(tax: Taxonomy, entries: seq<(string, Value)>, i: nat)
    requires i <= |entries| && ServicesOf(tax, entries[..i]).Err?
    ensures ServicesOf(tax, entries) == ServicesOf(tax, entries[..i])
    decreases |entries| - i
  {
    if i < |entries| {
      assert entries[..i + 1][..i] == entries[..i];
      ServicesOfErrPersists(tax, entries, i + 1);
    } else {
      assert entries[..i] == entries;
    }
  }

  /** The names of the non-empty entries. */
  function NonEmptyNames(entries: seq<(string, Value)>): set<string> {
    set i | 0 <= i < |entries| && Truthy(entries[i].1) :: entries[i].0
  }

  /** The records are those of the non-empty entries: at most one per entry,
      and named exactly after the non-empty ones. */
  lemma {:induction false} ServicesOfShape(tax: Taxonomy, entries: seq<(string, Value)>)
    requires ServicesOf(tax, entries).Ok?
    ensures |ServicesOf(tax, entries).value| <= |entries|
    ensures Names(ServicesOf(tax, entries).value) == NonEmptyNames(entries)
    decreases |entries|
  {
    if entries != [] {
      var init := entries[..|entries| - 1];
      var last := entries[|entries| - 1];
      ServicesOfShape(tax, init);
      var prev := ServicesOf(tax, init).value;
      var ss := ServicesOf(tax, entries).value;
      NonEmptyNamesSnoc(entries);
      if Truthy(last.1) {
        NamesSnoc(prev, ss[|ss| - 1]);
        assert ss == prev + [ss[|ss| - 1]];
      }
    }
  }

  /** The non-empty names of one more entry. */
  lemma NonEmptyNamesSnoc(entries: seq<(string, Value)>)
    requires entries != []
    ensures NonEmptyNames(entries) ==
      NonEmptyNames(entries[..|entries| - 1]) + if Truthy(entries[|entries| - 1].1) then {entries[|entries| - 1].0} else {}
  {
    var init := entries[..|entries| - 1];
    forall x | x in NonEmptyNames(entries)
      ensures x in NonEmptyNames(init) || (Truthy(entries[|entries| - 1].1) && x == entries[|entries| - 1].0)
    {
      var i :| 0 <= i < |entries| && Truthy(entries[i].1) && entries[i].0 == x;
      if i < |init| {
        assert init[i] == entries[i];
      }
    }
    forall x | x in NonEmptyNames(init) ensures x in NonEmptyNames(entries) {
      var i :| 0 <= i < |init| && Truthy(init[i].1) && init[i].0 == x;
      assert entries[i] == init[i];
    }
  }

  lemma NamesSnoc(ss: seq<Service>, s: Service)
    ensures Names(ss + [s]) == Names(ss) + {s.name}
  {
    assert forall x | x in ss + [s] :: x in ss || x == s;
    assert s in ss + [s];
  }

  // ---------------------------------------------------------------------------
  // Roles
  // ---------------------------------------------------------------------------

  /** A database was detected for the service. */
  predicate HasDb(s: Service) {
    Dbs in s.tags && s.tags[Dbs] != []
  }

  /** The service is infrastructure (a database, server, bus, gateway,
      monitor or discovery service) rather than a microservice. */
  predicate IsInfra(s: Service) {
    exists c | c in TaggedCategories :: c in s.tags && s.tags[c] != []
  }

  /** `detected_dbs`, in service order: the service name and its database. */
  function DbEntries(ss: seq<Service>): (r: seq<(string, string)>)
    ensures |r| <= |ss|
    ensures forall e | e in r :: exists s | s in ss :: HasDb(s) && e == (s.name, s.tags[Dbs][0])
  {
    if ss == [] then []
    else
      var prev := DbEntries(ss[..|ss| - 1]);
      var s := ss[|ss| - 1];
      if HasDb(s) then prev + [(s.name, s.tags[Dbs][0])] else prev
  }

  /** `detected_dbs` keeps service order: the entries of two lists of
      services are those of the first followed by those of the second. */
  lemma {:induction false} DbEntriesAppend(a: seq<Service>, b: seq<Service>)
    ensures DbEntries(a + b) == DbEntries(a) + DbEntries(b)
    decreases |b|
  {
    if b == [] {
      assert a + b == a;
    } else {
      var b', x := b[..|b| - 1], b[|b| - 1];
      var e: seq<(string, string)> := if HasDb(x) then [(x.name, x.tags[Dbs][0])] else [];
      DbEntriesAppend(a, b');
      assert (a + b)[..|a + b| - 1] == a + b';
      assert (a + b)[|a + b| - 1] == x;
      assert DbEntries(b) == DbEntries(b') + e;
      assert DbEntries(a + b) == DbEntries(a + b') + e;
      assert DbEntries(a) + DbEntries(b') + e == DbEntries(a) + (DbEntries(b') + e);
    }
  }

  /** Every service with a database has its entry, with its first database. */
  lemma {:induction false} DbEntriesComplete(ss: seq<Service>)
    ensures forall s | s in ss && HasDb(s) :: (s.name, s.tags[Dbs][0]) in DbEntries(ss)
  {
    if ss != [] {
      var init := ss[..|ss| - 1];
      DbEntriesComplete(init);
      assert ss == init + [ss[|ss| - 1]];
      forall s | s in ss && HasDb(s) ensures (s.name, s.tags[Dbs][0]) in DbEntries(ss) {
        if s in init {
          assert (s.name, s.tags[Dbs][0]) in DbEntries(init);
        }
      }
    }
  }

  /** The names of the services with a database. */
  function DbServiceNames(ss: seq<Service>): set<string> {
    set s | s in ss && HasDb(s) :: s.name
  }

  /** `detected_dbs` lists exactly the services with a database, and its
      `names` are exactly their first databases. */
  lemma DbEntriesNames(ss: seq<Service>)
    ensures Elements(Firsts(DbEntries(ss))) == DbServiceNames(ss)
    ensures (set e | e in DbEntries(ss) :: e.1) == set s | s in ss && HasDb(s) :: s.tags[Dbs][0]
  {
    var es := DbEntries(ss);
    DbEntriesComplete(ss);
    forall x | x in Elements(Firsts(es)) ensures x in DbServiceNames(ss) {
      var i :| 0 <= i < |es| && Firsts(es)[i] == x;
      assert es[i] in es;
    }
    forall s | s in ss && HasDb(s) ensures s.name in Elements(Firsts(es)) {
      var i :| 0 <= i < |es| && es[i] == (s.name, s.tags[Dbs][0]);
      assert Firsts(es)[i] == s.name;
    }
    forall s | s in ss && HasDb(s) ensures s.tags[Dbs][0] in set e | e in es :: e.1 {
      assert (s.name, s.tags[Dbs][0]) in es;
    }
  }

  /** `shared_dbs` holds exactly when two distinct services depend on one
      same service with a database. */
  lemma SharedDbsMeaning(ss: seq<Service>)
    ensures DetectedOf(ss).sharedDbs == SharedDb(ss, DbServiceNames(ss))
    ensures DetectedOf(ss).num == |DbEntries(ss)|
  {
    DbEntriesNames(ss);
  }

  /** `nodes_not_microservice`, in service order. */
  function InfraNames(ss: seq<Service>): (r: seq<string>)
    ensures forall n | n in r :: exists s | s in ss :: IsInfra(s) && s.name == n
  {
    if ss == [] then []
    else
      var prev := InfraNames(ss[..|ss| - 1]);
      var s := ss[|ss| - 1];
      if IsInfra(s) then prev + [s.name] else prev
  }

  /** The first components of a list of pairs. */
  function Firsts(es: seq<(string, string)>): (r: seq<string>)
    ensures |r| == |es| && forall i | 0 <= i < |es| :: r[i] == es[i].0
  {
    seq(|es|, i requires 0 <= i < |es| => es[i].0)
  }

  // ---------------------------------------------------------------------------
  // Shared databases
  // ---------------------------------------------------------------------------

  /** Both services depend on one same database service. */
  predicate Shares(a: Service, b: Service, db: set<string>) {
    exists d | d in a.dependsOn :: d in db && d in b.dependsOn
  }

  /** Two distinct services of the list depend on one same database service. */
  predicate SharedDb(ss: seq<Service>, db: set<string>) {
    exists i, j | 0 <= i < j < |ss| :: Shares(ss[i], ss[j], db)
  }

  /** A longer prefix shares a database when the shorter one did, or when
      its new last service shares one with an earlier service. */
  lemma SharedDbStep(ss: seq<Service>, db: set<string>, n: nat)
    requires n < |ss|
    ensures SharedDb(ss[..n + 1], db) <==>
      SharedDb(ss[..n], db) || exists k | 0 <= k < n :: Shares(ss[k], ss[n], db)
  {
    var p, q := ss[..n + 1], ss[..n];
    if SharedDb(p, db) {
      var i, j :| 0 <= i < j < |p| && Shares(p[i], p[j], db);
      if j < n {
        assert q[i] == p[i] && q[j] == p[j];
      } else {
        assert p[i] == ss[i] && p[j] == ss[n];
      }
    }
    if SharedDb(q, db) {
      var i, j :| 0 <= i < j < |q| && Shares(q[i], q[j], db);
      assert p[i] == q[i] && p[j] == q[j];
    }
    if exists k | 0 <= k < n :: Shares(ss[k], ss[n], db) {
      var k :| 0 <= k < n && Shares(ss[k], ss[n], db);
      assert p[k] == ss[k] && p[n] == ss[n];
    }
  }

  /** The database services the first `n` services depend on. */
  function DbDeps(ss: seq<Service>, db: set<string>, n: nat): set<string>
    requires n <= |ss|
  {
    set k, d | 0 <= k < n && d in ss[k].dependsOn && d in db :: d
  }

  /** The database services one more service depends on. */
  lemma DbDepsStep(ss: seq<Service>, db: set<string>, i: nat)
    requires i < |ss|
    ensures DbDeps(ss, db, i + 1) == DbDeps(ss, db, i) + Elements(ss[i].dependsOn) * db
  {
    forall d | d in Elements(ss[i].dependsOn) * db ensures d in DbDeps(ss, db, i + 1) {
      assert d in ss[i].dependsOn;
    }
  }

  /** The new service's database services are new exactly when it shares
      none with an earlier service. */
  lemma DbDepsDisjoint(ss: seq<Service>, db: set<string>, i: nat)
    requires i < |ss|
    ensures DbDeps(ss, db, i) !! Elements(ss[i].dependsOn) * db <==>
      !exists k | 0 <= k < i :: Shares(ss[k], ss[i], db)
  {
    forall k, d | 0 <= k < i && d in ss[k].dependsOn && d in db && d in ss[i].dependsOn
      ensures d in DbDeps(ss, db, i) && d in Elements(ss[i].dependsOn) * db
    {
    }
    forall d | d in DbDeps(ss, db, i) && d in Elements(ss[i].dependsOn) * db
      ensures exists k | 0 <= k < i :: Shares(ss[k], ss[i], db)
    {
      var k :| 0 <= k < i && d in ss[k].dependsOn && d in db;
      assert d in ss[i].dependsOn;
    }
  }

  /** `check_shared_db`: concatenates, service by service, the database
      services each one depends on, and reports whether the concatenation
      repeats an element. */
  method CheckSharedDb(ss: seq<Service>, dbServices: seq<string>) returns (shared: bool)
    ensures shared == SharedDb(ss, Elements(dbServices))
  {
    var db := Elements(dbServices);
    var dependencies: seq<string> := [];
    for i := 0 to |ss|
      invariant NoDuplicates(dependencies) <==> !SharedDb(ss[..i], db)
      invariant Elements(dependencies) == DbDeps(ss, db, i)
    {
      var common := ListOf(Elements(ss[i].dependsOn) * db);
      NoDuplicatesAppend(dependencies, common);
      SharedDbStep(ss, db, i);
      DbDepsStep(ss, db, i);
      DbDepsDisjoint(ss, db, i);
      assert Elements(dependencies + common) == Elements(dependencies) + Elements(common);
      dependencies := dependencies + common;
    }
    assert ss[..|ss|] == ss;
    DistinctCard(dependencies);
    shared := |Elements(dependencies)| != |dependencies|;
  }

  /** The detected-databases record of a list of services. */
  function DetectedOf(ss: seq<Service>): DetectedDbs {
    var es := DbEntries(ss);
    DetectedDbs(|es|, set e | e in es :: e.1, Firsts(es), SharedDb(ss, Elements(Firsts(es))))
  }

  // ---------------------------------------------------------------------------
  // Dependency graphs
  // ---------------------------------------------------------------------------

  function Names(ss: seq<Service>): set<string> {
    set s | s in ss :: s.name
  }

  /** Everything some service depends on, declared or not. */
  function DependencyTargets(ss: seq<Service>): set<string> {
    set s, d | s in ss && d in s.dependsOn :: d
  }

  function DependencyEdges(ss: seq<Service>): set<(string, string)> {
    set s, d | s in ss && d in s.dependsOn :: (s.name, d)
  }

  /** `dep_graphs['full']`: a node per service and per dependency target, an
      edge from each service to each of its dependencies. */
  function FullGraph(ss: seq<Service>): (g: Graph)
    ensures Closed(g)
  {
    Graph(Names(ss) + DependencyTargets(ss), DependencyEdges(ss))
  }

  /** A graph with a set of nodes and their edges removed. */
  function Without(g: Graph, removed: set<Node>): (h: Graph)
    ensures Closed(g) ==> Closed(h)
    ensures h.nodes <= g.nodes && h.edges <= g.edges
  {
    Graph(g.nodes - removed, set e | e in g.edges && e.0 !in removed && e.1 !in removed)
  }

  /** `dep_graphs['micro']`: the full graph without its infrastructure
      services. */
  function ReducedGraph(ss: seq<Service>): Graph {
    Without(FullGraph(ss), Elements(InfraNames(ss)))
  }

  /** Appending a service adds its name, its dependencies and its edges. */
  lemma FullGraphSnoc(ss: seq<Service>, s: Service)
    ensures FullGraph(ss + [s]).nodes == FullGraph(ss).nodes + {s.name} + Elements(s.dependsOn)
    ensures FullGraph(ss + [s]).edges == FullGraph(ss).edges + set d | d in s.dependsOn :: (s.name, d)
  {
    var t := ss + [s];
    assert forall x | x in t :: x in ss || x == s;
    assert forall x | x in ss :: x in t;
    assert s in t;
  }

  /** The full graph has a node for every declared service and for every
      undeclared dependency target, and no other; an edge per distinct
      (service, dependency) pair; the reduced graph keeps exactly the
      microservices and the edges among the remaining nodes. */
  lemma GraphShape(ss: seq<Service>)
    ensures var g := FullGraph(ss);
      |g.nodes| == |Names(ss)| + |DependencyTargets(ss) - Names(ss)|
      && (forall s, d | s in ss && d in s.dependsOn :: (s.name, d) in g.edges)
      && (forall e | e in g.edges :: exists s | s in ss :: s.name == e.0 && e.1 in s.dependsOn)
    ensures var g, h := FullGraph(ss), ReducedGraph(ss);
      Closed(h)
      && h.nodes == g.nodes - (set s | s in ss && IsInfra(s) :: s.name)
      && (forall e :: e in h.edges <==> e in g.edges && e.0 in h.nodes && e.1 in h.nodes)
  {
    var g := FullGraph(ss);
    var nodes := Names(ss) + (DependencyTargets(ss) - Names(ss));
    assert g.nodes == nodes;
    assert Names(ss) !! (DependencyTargets(ss) - Names(ss));
    InfraNamesComplete(ss);
  }

  /** Everything listed in `nodes_not_microservice` is a node of the full
      graph. */
  lemma InfraNamesSound(ss: seq<Service>)
    ensures forall n | n in InfraNames(ss) :: n in FullGraph(ss).nodes
  {
  }

  /** Every infrastructure service is listed in `nodes_not_microservice`. */
  lemma {:induction false} InfraNamesComplete(ss: seq<Service>)
    ensures forall s | s in ss && IsInfra(s) :: s.name in InfraNames(ss)
  {
    if ss != [] {
      var init := ss[..|ss| - 1];
      InfraNamesComplete(init);
      assert ss == init + [ss[|ss| - 1]];
      forall s | s in ss && IsInfra(s) ensures s.name in InfraNames(ss) {
        if s in init {
          assert s.name in InfraNames(init);
        }
      }
    }
  }

  // ---------------------------------------------------------------------------
  // The analysis
  // ---------------------------------------------------------------------------

  /** The compose analysis of one file. */
  function ComposeOf(tax: Taxonomy, path: string, src: ComposeSource): (r: Result<ComposeAnalysis>)
    ensures src.Unloadable? ==> r == Ok(EmptyAnalysis(path))
    ensures src.Rejected? ==> r == Err(LoaderError)
    ensures r.Ok? ==> r.value.path == path && r.value.numServices == |r.value.services|
    ensures r.Ok? && r.value.services != [] ==>
              r.value.detectedDbs == DetectedOf(r.value.services) && r.value.depGraphs.Some?
  {
    match src
    case Unloadable => Ok(EmptyAnalysis(path))
    case Rejected => Err(LoaderError)
    case Loaded(doc) =>
      if !Truthy(doc) then Ok(EmptyAnalysis(path))
      else
        var m :- Member(doc, "services");
        if m.None? || !Truthy(m.value) then Ok(EmptyAnalysis(path))
        else if !m.value.Mapping? then Err(NotAMapping)
        else
          var ss :- ServicesOf(tax, m.value.entries);
          AnalysisOf(path, ss)
  }

  /** The record of a file whose services have been read. */
  function AnalysisOf(path: string, ss: seq<Service>): Result<ComposeAnalysis> {
    var full :- MetricsOf(FullGraph(ss));
    var micro :- MetricsOf(ReducedGraph(ss));
    Ok(ComposeAnalysis(path, |ss|, ss, DetectedOf(ss), Some((full, micro))))
  }

  /** A value found under a key of a valid document is valid. */
  lemma MemberValid(v: Value, key: string)
    requires Valid(v) && Member(v, key).Ok? && Member(v, key).value.Some?
    ensures Valid(Member(v, key).value.value)
  {
    var i :| 0 <= i < |v.entries| && v.entries[i] == (key, Member(v, key).value.value);
  }

  /** Once the services are read, the analysis fails exactly when the full
      dependency graph has a cycle; otherwise both graphs are acyclic, the
      reduced one is no larger than the full one, and the counts are those
      of the two graphs. */
  lemma ComposeGraphs(path: string, ss: seq<Service>)
    ensures var r := AnalysisOf(path, ss);
      (r == Err(CyclicGraph) <==> HasCycle(FullGraph(ss)))
      && (r.Ok? <==> !HasCycle(FullGraph(ss)))
      && (r.Ok? ==>
            r.value.numServices == |ss| && r.value.services == ss && r.value.depGraphs.Some?
            && var (f, m) := r.value.depGraphs.value;
            f.nodes == |FullGraph(ss).nodes| && f.edges == |FullGraph(ss).edges|
            && m.nodes <= f.nodes && m.edges <= f.edges && f.acyclic && m.acyclic
            && m.longestPath <= f.longestPath)
  {
    var g, h := FullGraph(ss), ReducedGraph(ss);
    MetricsFacts(g);
    MetricsFacts(h);
    SubgraphCycle(h, g);
    if !HasCycle(g) {
      assert !HasCycle(h);
      assert |h.nodes| <= |g.nodes| by { Subset(h.nodes, g.nodes); }
      assert |h.edges| <= |g.edges| by { Subset(h.edges, g.edges); }
      AcyclicIffNoCycle(g);
      AcyclicIffNoCycle(h);
      LongestPathIsLongest(g);
      LongestPathIsLongest(h);
      if h.nodes != {} {
        var p :| IsWalk(h, p) && |p| - 1 == LongestPath(h).value;
        assert IsWalk(g, p);
      }
    }
  }

  lemma Subset<T>(a: set<T>, b: set<T>)
    requires a <= b
    ensures |a| <= |b|
  {
    assert b == a + (b - a);
  }

  /** Adds one service to the graph: its node, then an edge to each of its
      dependencies. */
  method AddService(full: DiGraph, svc: Service)
    requires full.Valid()
    modifies full
    ensures full.Valid()
    ensures full.nodes == old(full.nodes) + {svc.name} + Elements(svc.dependsOn)
    ensures full.edges == old(full.edges) + set d | d in svc.dependsOn :: (svc.name, d)
  {
    var name := svc.name;
    full.AddNode(name);
    var pairs := seq(|svc.dependsOn|, k requires 0 <= k < |svc.dependsOn| => (name, svc.dependsOn[k]));
    assert Elements(pairs) == set d | d in svc.dependsOn :: (name, d) by {
      forall d | d in svc.dependsOn ensures (name, d) in Elements(pairs) {
        var k :| 0 <= k < |svc.dependsOn| && svc.dependsOn[k] == d;
        assert pairs[k] == (name, d);
      }
    }
    assert Targets(pairs) == Elements(svc.dependsOn) by {
      forall d | d in svc.dependsOn ensures d in Targets(pairs) {
        var k :| 0 <= k < |svc.dependsOn| && svc.dependsOn[k] == d;
        assert pairs[k].1 == d;
      }
    }
    assert Sources(pairs) <= {name};
    full.AddEdgesFrom(pairs);
  }

  /** The service loop: reads the non-empty services in document order,
      growing the full graph and the lists of database and infrastructure
      services as it goes. */
  method ReadServices(tax: Taxonomy, entries: seq<(string, Value)>)
    returns (r: Result<seq<Service>>, full: DiGraph, detected: seq<(string, string)>, notMicro: seq<string>)
    requires NoDuplicates(Keys(entries))
    ensures fresh(full) && full.Valid()
    ensures r == ServicesOf(tax, entries)
    ensures r.Ok? ==> full.Value() == FullGraph(r.value) && detected == DbEntries(r.value)
                      && notMicro == InfraNames(r.value) && NoDuplicates(notMicro)
  {
    full := new DiGraph();
    var services: seq<Service> := [];
    detected := [];
    notMicro := [];
    for i := 0 to |entries|
      invariant fresh(full) && full.Valid()
      invariant ServicesOf(tax, entries[..i]) == Ok(services)
      invariant full.Value() == FullGraph(services)
      invariant detected == DbEntries(services)
      invariant notMicro == InfraNames(services)
      invariant NoDuplicates(notMicro)
      invariant forall n | n in notMicro :: n in Keys(entries[..i])
    {
      var name, body := entries[i].0, entries[i].1;
      if Truthy(body) {
        var s := ServiceOf(tax, name, body);
        if s.Err? {
          ErrStep(tax, entries, i, services);
          return Err(s.error), full, detected, notMicro;
        }
        var svc := s.value;
        ServiceStep(tax, entries, i, services, svc);
        services := services + [svc];
        if HasDb(svc) {
          detected := detected + [(name, svc.tags[Dbs][0])];
        }
        AddService(full, svc);
        if IsInfra(svc) {
          notMicro := notMicro + [name];
        }
      } else {
        SkipStep(tax, entries, i, services);
      }
    }
    assert entries[..|entries|] == entries;
    r := Ok(services);
  }

  /** A service read on one turn of the service loop extends the lists of
      services, databases and infrastructure names by itself, and the
      infrastructure names stay distinct. */
  lemma ServiceStep(tax: Taxonomy, entries: seq<(string, Value)>, i: nat, services: seq<Service>, svc: Service)
    requires i < |entries| && NoDuplicates(Keys(entries))
    requires ServicesOf(tax, entries[..i]) == Ok(services)
    requires Truthy(entries[i].1) && ServiceOf(tax, entries[i].0, entries[i].1) == Ok(svc)
    requires NoDuplicates(InfraNames(services))
    requires forall n | n in InfraNames(services) :: n in Keys(entries[..i])
    ensures ServicesOf(tax, entries[..i + 1]) == Ok(services + [svc])
    ensures FullGraph(services + [svc]).nodes == FullGraph(services).nodes + {svc.name} + Elements(svc.dependsOn)
    ensures FullGraph(services + [svc]).edges == FullGraph(services).edges + set d | d in svc.dependsOn :: (svc.name, d)
    ensures DbEntries(services + [svc]) == DbEntries(services) + if HasDb(svc) then [(entries[i].0, svc.tags[Dbs][0])] else []
    ensures InfraNames(services + [svc]) == InfraNames(services) + if IsInfra(svc) then [entries[i].0] else []
    ensures NoDuplicates(InfraNames(services + [svc]))
    ensures forall n | n in InfraNames(services + [svc]) :: n in Keys(entries[..i + 1])
  {
    ServicesSnoc(tax, entries, i);
    KeysPrefix(entries, i);
    NoDuplicatesAppend(InfraNames(services), [entries[i].0]);
    FullGraphSnoc(services, svc);
    ListsSnoc(services, svc);
  }

  /** The database and infrastructure lists of one more service. */
  lemma ListsSnoc(ss: seq<Service>, s: Service)
    ensures DbEntries(ss + [s]) == DbEntries(ss) + if HasDb(s) then [(s.name, s.tags[Dbs][0])] else []
    ensures InfraNames(ss + [s]) == InfraNames(ss) + if IsInfra(s) then [s.name] else []
  {
    assert (ss + [s])[..|ss|] == ss;
  }

  /** The services of one more entry. */
  lemma ServicesSnoc(tax: Taxonomy, entries: seq<(string, Value)>, i: nat)
    requires i < |entries|
    ensures ServicesOf(tax, entries[..i + 1]) ==
      (var prev :- ServicesOf(tax, entries[..i]);
       if !Truthy(entries[i].1) then Ok(prev)
       else var s :- ServiceOf(tax, entries[i].0, entries[i].1); Ok(prev + [s]))
  {
    assert entries[..i + 1][..i] == entries[..i];
  }

  /** A service that raises on one turn of the service loop makes the whole
      list raise. */
  lemma ErrStep(tax: Taxonomy, entries: seq<(string, Value)>, i: nat, services: seq<Service>)
    requires i < |entries| && ServicesOf(tax, entries[..i]) == Ok(services)
    requires Truthy(entries[i].1) && ServiceOf(tax, entries[i].0, entries[i].1).Err?
    ensures ServicesOf(tax, entries) == Err(ServiceOf(tax, entries[i].0, entries[i].1).error)
  {
    ServicesSnoc(tax, entries, i);
    ServicesOfErrPersists(tax, entries, i + 1);
  }

  /** An empty service on one turn of the service loop changes nothing. */
  lemma SkipStep(tax: Taxonomy, entries: seq<(string, Value)>, i: nat, services: seq<Service>)
    requires i < |entries| && NoDuplicates(Keys(entries))
    requires ServicesOf(tax, entries[..i]) == Ok(services) && !Truthy(entries[i].1)
    requires forall n | n in InfraNames(services) :: n in Keys(entries[..i])
    ensures ServicesOf(tax, entries[..i + 1]) == Ok(services)
    ensures forall n | n in InfraNames(services) :: n in Keys(entries[..i + 1])
  {
    ServicesSnoc(tax, entries, i);
    KeysPrefix(entries, i);
  }

  /** The keys of a longer prefix, and the next key is new. */
  lemma KeysPrefix(entries: seq<(string, Value)>, i: nat)
    requires i < |entries| && NoDuplicates(Keys(entries))
    ensures Keys(entries[..i + 1]) == Keys(entries[..i]) + [entries[i].0]
    ensures entries[i].0 !in Keys(entries[..i])
  {
    forall k | 0 <= k < i ensures Keys(entries[..i])[k] != entries[i].0 {
      assert Keys(entries[..i])[k] == Keys(entries)[k];
      assert Keys(entries)[i] == entries[i].0;
    }
  }

  /** `dep_graphs['micro']`: a copy of the full graph with the listed nodes
      removed one by one. */
  method Reduce(full: DiGraph, notMicro: seq<string>) returns (micro: DiGraph)
    requires full.Valid() && NoDuplicates(notMicro)
    requires forall n | n in notMicro :: n in full.nodes
    ensures fresh(micro) && micro.Valid()
    ensures micro.Value() == Without(full.Value(), Elements(notMicro))
  {
    micro := full.Copy();
    for j := 0 to |notMicro|
      invariant fresh(micro) && micro.Valid()
      invariant micro.Value() == Without(full.Value(), Elements(notMicro[..j]))
    {
      assert notMicro[j] !in Elements(notMicro[..j]);
      assert Elements(notMicro[..j + 1]) == Elements(notMicro[..j]) + {notMicro[j]} by {
        assert notMicro[..j + 1] == notMicro[..j] + [notMicro[j]];
      }
      micro.RemoveNode(notMicro[j]);
    }
    assert notMicro[..|notMicro|] == notMicro;
  }

  /** Runs the compose analysis as the program does: the services in
      document order, the full graph grown node by node, then copied and
      stripped of its infrastructure services. */
  method AnalyzeCompose(tax: Taxonomy, path: string, src: ComposeSource) returns (r: Result<ComposeAnalysis>)
    requires src.Loaded? ==> Valid(src.doc)
    ensures r == ComposeOf(tax, path, src)
  {
    if src.Rejected? {
      return Err(LoaderError);
    }
    if src.Unloadable? || !Truthy(src.doc) {
      return Ok(EmptyAnalysis(path));
    }
    var m := Member(src.doc, "services");
    if m.Err? {
      return Err(m.error);
    }
    if m.value.None? || !Truthy(m.value.value) {
      return Ok(EmptyAnalysis(path));
    }
    if !m.value.value.Mapping? {
      return Err(NotAMapping);
    }
    MemberValid(src.doc, "services");
    var read, full, detected, notMicro := ReadServices(tax, m.value.value.entries);
    if read.Err? {
      return Err(read.error);
    }
    var services := read.value;
    var dbServices := Firsts(detected);
    var shared := CheckSharedDb(services, dbServices);
    var dbs := DetectedDbs(|detected|, set e | e in detected :: e.1, dbServices, shared);
    InfraNamesSound(services);
    var micro := Reduce(full, notMicro);
    var fm := ComputeMetrics(full);
    if fm.Err? {
      return Err(fm.error);
    }
    var mm := ComputeMetrics(micro);
    if mm.Err? {
      return Err(mm.error);
    }
    r := Ok(ComposeAnalysis(path, |services|, services, dbs, Some((fm.value, mm.value))));
  }
}
