/** Directed dependency graphs: the mutable `networkx.DiGraph` the compose
    analysis builds, its value, and the metrics it reports for it
    (analyze_repo_multi_trhead.py:271-297): node and edge counts, the average
    out-degree, whether the graph is acyclic, and its longest path. */
module Graphs {
  import opened Wrappers
  import opened Lists

  type Node = string

  /** A graph's value: its node set and its edge set (a DiGraph holds each
      edge once, however often it is added). */
  datatype Graph = Graph(nodes: set<Node>, edges: set<(Node, Node)>)

  /** Every edge joins two nodes of the graph. */
  predicate Closed(g: Graph) {
    forall e | e in g.edges :: e.0 in g.nodes && e.1 in g.nodes
  }

  function Sources(pairs: seq<(Node, Node)>): set<Node> {
    set p | p in pairs :: p.0
  }

  function Targets(pairs: seq<(Node, Node)>): set<Node> {
    set p | p in pairs :: p.1
  }

  /** The ends and the pairs of one more pair. */
  lemma PairsSnoc(pairs: seq<(Node, Node)>, i: nat)
    requires i < |pairs|
    ensures Sources(pairs[..i + 1]) == Sources(pairs[..i]) + {pairs[i].0}
    ensures Targets(pairs[..i + 1]) == Targets(pairs[..i]) + {pairs[i].1}
    ensures Elements(pairs[..i + 1]) == Elements(pairs[..i]) + {pairs[i]}
  {
    assert pairs[..i + 1] == pairs[..i] + [pairs[i]];
  }

  /** A `networkx.DiGraph`, updated in place. */
  class DiGraph {
    var nodes: set<Node>
    var edges: set<(Node, Node)>

    ghost predicate Valid()
      reads this
    {
      Closed(Value())
    }

    function Value(): Graph
      reads this
    {
      Graph(nodes, edges)
    }

    constructor ()
      ensures Valid()
      ensures nodes == {} && edges == {}
    {
      nodes, edges := {}, {};
    }

    /** `add_node(n)`. */
    method AddNode(n: Node)
      requires Valid()
      modifies this
      ensures Valid()
      ensures nodes == old(nodes) + {n} && edges == old(edges)
    {
      nodes := nodes + {n};
    }

    /** `add_edges_from(pairs)`: each pair becomes an edge, and its ends
        become nodes when they are not already. */
    method AddEdgesFrom(pairs: seq<(Node, Node)>)
      requires Valid()
      modifies this
      ensures Valid()
      ensures nodes == old(nodes) + Sources(pairs) + Targets(pairs)
      ensures edges == old(edges) + Elements(pairs)
    {
      for i := 0 to |pairs|
        invariant Valid()
        invariant nodes == old(nodes) + Sources(pairs[..i]) + Targets(pairs[..i])
        invariant edges == old(edges) + Elements(pairs[..i])
      {
        PairsSnoc(pairs, i);
        nodes := nodes + {pairs[i].0, pairs[i].1};
        edges := edges + {pairs[i]};
      }
      assert pairs[..|pairs|] == pairs;
    }

    /** `remove_node(n)`: the node goes, with every edge that touches it.
        networkx raises for a node that is not in the graph. */
    method RemoveNode(n: Node)
      requires Valid() && n in nodes
      modifies this
      ensures Valid()
      ensures nodes == old(nodes) - {n}
      ensures edges == set e | e in old(edges) && e.0 != n && e.1 != n
    {
      nodes := nodes - {n};
      edges := set e | e in edges && e.0 != n && e.1 != n;
    }

    /** `copy()`: an independent graph with the same nodes and edges. */
    method Copy() returns (c: DiGraph)
      requires Valid()
      ensures fresh(c) && c.Valid()
      ensures c.Value() == Value()
    {
      c := new DiGraph();
      c.nodes, c.edges := nodes, edges;
    }
  }

  // ---------------------------------------------------------------------
  // Walks and cycles

  /** `p` lists the nodes visited along `|p| - 1` consecutive edges. */
  predicate IsWalk(g: Graph, p: seq<Node>) {
    && |p| >= 1
    && (forall i | 0 <= i < |p| :: p[i] in g.nodes)
    && (forall i | 0 <= i < |p| - 1 :: (p[i], p[i + 1]) in g.edges)
  }

  /** A directed cycle: a walk of at least one edge that ends where it began
      (a self-loop is one). */
  ghost predicate HasCycle(g: Graph) {
    exists p :: IsWalk(g, p) && |p| >= 2 && p[0] == p[|p| - 1]
  }

  /** Some walk of `k` edges starts at `v`. */
  predicate WalkFrom(g: Graph, v: Node, k: nat)
    decreases k
  {
    if k == 0 then v in g.nodes
    else exists e | e in g.edges :: e.0 == v && WalkFrom(g, e.1, k - 1)
  }

  /** `is_directed_acyclic_graph`: no walk has as many edges as the graph
      has nodes. */
  predicate IsAcyclic(g: Graph) {
    forall v | v in g.nodes :: !WalkFrom(g, v, |g.nodes|)
  }

  /** The largest `j <= k` such that a walk of `j` edges exists (0 if none). */
  function LongestBelow(g: Graph, k: nat): nat
    decreases k
  {
    if k == 0 then 0
    else if exists v | v in g.nodes :: WalkFrom(g, v, k) then k
    else LongestBelow(g, k - 1)
  }

  /** `dag_longest_path_length`: the number of edges of a longest path; it
      raises on a graph with a cycle. */
  function LongestPath(g: Graph): (r: Result<nat>)
    ensures r.Err? <==> !IsAcyclic(g)
    ensures r.Err? ==> r.error == CyclicGraph
    ensures g.nodes == {} ==> r == Ok(0)
    ensures r.Ok? && g.nodes != {} ==> r.value < |g.nodes|
  {
    if !IsAcyclic(g) then Err(CyclicGraph)
    else if |g.nodes| == 0 then Ok(0)
    else
      LongestBelowSpec(g, |g.nodes| - 1);
      Ok(LongestBelow(g, |g.nodes| - 1))
  }

  lemma {:induction false} WalkOf(g: Graph, v: Node, k: nat) returns (p: seq<Node>)
    requires Closed(g) && WalkFrom(g, v, k)
    ensures IsWalk(g, p) && |p| == k + 1 && p[0] == v
    decreases k
  {
    if k == 0 {
      p := [v];
    } else {
      var e :| e in g.edges && e.0 == v && WalkFrom(g, e.1, k - 1);
      var q := WalkOf(g, e.1, k - 1);
      p := [v] + q;
      assert p[1..] == q;
      forall i | 0 <= i < |p| - 1 ensures (p[i], p[i + 1]) in g.edges {
        if i > 0 { assert (q[i - 1], q[i]) in g.edges; }
      }
    }
  }

  lemma {:induction false} WalkFromOf(g: Graph, p: seq<Node>)
    requires IsWalk(g, p)
    ensures WalkFrom(g, p[0], |p| - 1)
    decreases |p|
  {
    if |p| > 1 {
      var q := p[1..];
      assert IsWalk(g, q) by {
        forall i | 0 <= i < |q| - 1 ensures (q[i], q[i + 1]) in g.edges {
          assert (p[i + 1], p[i + 2]) in g.edges;
        }
      }
      WalkFromOf(g, q);
      var e := (p[0], p[1]);
      assert e in g.edges && e.0 == p[0] && WalkFrom(g, e.1, |p| - 2);
    }
  }

  /** The walk formulation of `WalkFrom`, both directions. */
  lemma WalkFromMeansWalk(g: Graph, v: Node, k: nat)
    requires Closed(g)
    ensures WalkFrom(g, v, k) <==> exists p :: IsWalk(g, p) && |p| == k + 1 && p[0] == v
  {
    if WalkFrom(g, v, k) {
      var p := WalkOf(g, v, k);
    }
    forall p | IsWalk(g, p) && |p| == k + 1 && p[0] == v ensures WalkFrom(g, v, k) {
      WalkFromOf(g, p);
    }
  }

  /** A sequence longer than the set its entries come from repeats an entry. */
  lemma {:induction false} Pigeonhole(p: seq<Node>, s: set<Node>) returns (i: nat, j: nat)
    requires forall k | 0 <= k < |p| :: p[k] in s
    requires |p| > |s|
    ensures i < j < |p| && p[i] == p[j]
  {
    if p[0] in p[1..] {
      var k :| 0 <= k < |p[1..]| && p[1..][k] == p[0];
      i, j := 0, k + 1;
    } else {
      var s' := s - {p[0]};
      forall k | 0 <= k < |p[1..]| ensures p[1..][k] in s' {
        assert p[1..][k] in p[1..];
      }
      var i', j' := Pigeonhole(p[1..], s');
      i, j := i' + 1, j' + 1;
    }
  }

  /** A walk that revisits a node contains a cycle. */
  lemma CycleOfRepeat(g: Graph, p: seq<Node>, i: nat, j: nat)
    requires IsWalk(g, p) && i < j < |p| && p[i] == p[j]
    ensures HasCycle(g)
  {
    var c := p[i..j + 1];
    assert forall k | 0 <= k < |c| :: c[k] == p[i + k];
    assert IsWalk(g, c);
    assert |c| >= 2 && c[0] == c[|c| - 1];
  }

  /** Going round a cycle gives walks of every length from each of its nodes. */
  lemma {:induction false} CycleWalks(g: Graph, c: seq<Node>, i: nat, n: nat)
    requires IsWalk(g, c) && |c| >= 2 && c[0] == c[|c| - 1]
    requires i < |c| - 1
    ensures WalkFrom(g, c[i], n)
    decreases n
  {
    if n > 0 {
      var next := if i + 1 < |c| - 1 then i + 1 else 0;
      assert c[i + 1] == c[next];
      CycleWalks(g, c, next, n - 1);
      var e := (c[i], c[i + 1]);
      assert e in g.edges && e.0 == c[i] && WalkFrom(g, e.1, n - 1);
    }
  }

  /** The computed test agrees with the definition: acyclic exactly when the
      graph has no directed cycle. */
  lemma AcyclicIffNoCycle(g: Graph)
    requires Closed(g)
    ensures IsAcyclic(g) <==> !HasCycle(g)
  {
    if !IsAcyclic(g) {
      var v :| v in g.nodes && WalkFrom(g, v, |g.nodes|);
      var p := WalkOf(g, v, |g.nodes|);
      var i, j := Pigeonhole(p, g.nodes);
      CycleOfRepeat(g, p, i, j);
    }
    if HasCycle(g) {
      var c :| IsWalk(g, c) && |c| >= 2 && c[0] == c[|c| - 1];
      CycleWalks(g, c, 0, |g.nodes|);
      assert c[0] in g.nodes;
    }
  }

  /** A self-loop makes a graph cyclic. */
  lemma SelfLoopIsCycle(g: Graph, v: Node)
    requires Closed(g) && (v, v) in g.edges
    ensures !IsAcyclic(g)
  {
    assert IsWalk(g, [v, v]);
    AcyclicIffNoCycle(g);
  }

  /** In an acyclic graph no walk visits a node twice: every walk is a path. */
  lemma AcyclicWalkIsPath(g: Graph, p: seq<Node>)
    requires Closed(g) && IsAcyclic(g) && IsWalk(g, p)
    ensures NoDuplicates(p)
  {
    AcyclicIffNoCycle(g);
    forall i, j | 0 <= i < j < |p| ensures p[i] != p[j] {
      if p[i] == p[j] { CycleOfRepeat(g, p, i, j); }
    }
  }

  lemma {:induction false} LongestBelowSpec(g: Graph, k: nat)
    ensures LongestBelow(g, k) <= k
    ensures LongestBelow(g, k) > 0 ==> exists v | v in g.nodes :: WalkFrom(g, v, LongestBelow(g, k))
    ensures forall j, v | LongestBelow(g, k) < j <= k && v in g.nodes :: !WalkFrom(g, v, j)
    decreases k
  {
    if k > 0 && !(exists v | v in g.nodes :: WalkFrom(g, v, k)) {
      LongestBelowSpec(g, k - 1);
    }
  }

  /** A walk with at least `k` edges has a prefix with exactly `k`. */
  lemma WalkPrefix(g: Graph, p: seq<Node>, k: nat)
    requires IsWalk(g, p) && k < |p|
    ensures IsWalk(g, p[..k + 1])
  {
  }

  /** On an acyclic graph `dag_longest_path_length` succeeds and returns the
      largest number of edges on any walk (a path, by AcyclicWalkIsPath),
      attained by some walk when the graph has a node. */
  lemma LongestPathIsLongest(g: Graph)
    requires Closed(g) && IsAcyclic(g)
    ensures LongestPath(g).Ok?
    ensures forall p | IsWalk(g, p) :: |p| - 1 <= LongestPath(g).value
    ensures g.nodes != {} ==> exists p :: IsWalk(g, p) && |p| - 1 == LongestPath(g).value
  {
    var n := |g.nodes|;
    if n > 0 {
      var r := LongestBelow(g, n - 1);
      LongestBelowSpec(g, n - 1);
      forall p | IsWalk(g, p) ensures |p| - 1 <= r {
        if |p| - 1 >= n {
          WalkPrefix(g, p, n);
          WalkFromOf(g, p[..n + 1]);
          assert false;
        }
        if |p| - 1 > r {
          WalkFromOf(g, p);
          assert false;
        }
      }
      if r > 0 {
        var v :| v in g.nodes && WalkFrom(g, v, r);
        var p := WalkOf(g, v, r);
      } else {
        var v :| v in g.nodes;
        assert IsWalk(g, [v]);
      }
    } else {
      forall p ensures !IsWalk(g, p) {
        if |p| >= 1 { assert p[0] !in g.nodes; }
      }
    }
  }

  /** A cycle of a subgraph is a cycle of the graph. */
  lemma SubgraphCycle(h: Graph, g: Graph)
    requires h.nodes <= g.nodes && h.edges <= g.edges
    ensures HasCycle(h) ==> HasCycle(g)
  {
    if HasCycle(h) {
      var c :| IsWalk(h, c) && |c| >= 2 && c[0] == c[|c| - 1];
      assert IsWalk(g, c);
    }
  }

  // ---------------------------------------------------------------------
  // Out-degrees and the metrics record

  function OutDegree(g: Graph, v: Node): nat {
    |set e | e in g.edges && e.0 == v|
  }

  ghost function EdgesFrom(g: Graph, s: set<Node>): set<(Node, Node)> {
    set e | e in g.edges && e.0 in s
  }

  /** The sum of the out-degrees of the nodes of `s`. */
  ghost function SumOutDegrees(g: Graph, s: set<Node>): nat
    decreases s
  {
    if s == {} then 0
    else var v :| v in s; OutDegree(g, v) + SumOutDegrees(g, s - {v})
  }

  lemma EdgesFromAdd(g: Graph, s: set<Node>, v: Node)
    requires v !in s
    ensures |EdgesFrom(g, s + {v})| == |EdgesFrom(g, s)| + OutDegree(g, v)
  {
    var out := set e | e in g.edges && e.0 == v;
    assert EdgesFrom(g, s + {v}) == EdgesFrom(g, s) + out;
    assert EdgesFrom(g, s) !! out;
  }

  lemma {:induction false} SumOutDegreesCountsEdges(g: Graph, s: set<Node>)
    ensures SumOutDegrees(g, s) == |EdgesFrom(g, s)|
    decreases s
  {
    if s != {} {
      var v :| v in s && SumOutDegrees(g, s) == OutDegree(g, v) + SumOutDegrees(g, s - {v});
      SumOutDegreesCountsEdges(g, s - {v});
      EdgesFromAdd(g, s - {v}, v);
      assert s - {v} + {v} == s;
    } else {
      assert EdgesFrom(g, s) == {};
    }
  }

  /** The out-degrees of all nodes add up to the number of edges. */
  lemma SumOutDegreesIsEdgeCount(g: Graph)
    requires Closed(g)
    ensures SumOutDegrees(g, g.nodes) == |g.edges|
  {
    SumOutDegreesCountsEdges(g, g.nodes);
    assert EdgesFrom(g, g.nodes) == g.edges;
  }

  /** The `dep_graph_*` record. */
  datatype GraphMetrics = GraphMetrics(
    nodes: nat, edges: nat, avgDepsPerService: real, acyclic: bool, longestPath: nat)

  /** The mean out-degree, 0 for a graph without nodes. */
  function AvgOutDegree(g: Graph): real {
    if |g.nodes| == 0 then 0.0 else |g.edges| as real / |g.nodes| as real
  }

  /** The metrics of one graph; computing the longest path of a cyclic graph
      raises. */
  function MetricsOf(g: Graph): (r: Result<GraphMetrics>)
    ensures r.Ok? <==> IsAcyclic(g)
    ensures r.Ok? ==> r.value.nodes == |g.nodes| && r.value.edges == |g.edges| && r.value.acyclic
    ensures r.Ok? ==> r.value.longestPath == LongestPath(g).value && r.value.avgDepsPerService == AvgOutDegree(g)
  {
    var lp :- LongestPath(g);
    Ok(GraphMetrics(|g.nodes|, |g.edges|, AvgOutDegree(g), IsAcyclic(g), lp))
  }

  /** The metrics succeed exactly on graphs without a cycle, and then report
      the graph acyclic. */
  lemma MetricsFacts(g: Graph)
    requires Closed(g)
    ensures MetricsOf(g).Ok? <==> !HasCycle(g)
    ensures MetricsOf(g).Ok? ==> MetricsOf(g).value.acyclic
  {
    AcyclicIffNoCycle(g);
  }

  /** The average is the sum of the out-degrees over the node count, and 0
      without nodes. */
  lemma MetricsMean(g: Graph)
    requires Closed(g)
    ensures MetricsOf(g).Ok? && g.nodes != {} ==>
      MetricsOf(g).value.avgDepsPerService * |g.nodes| as real == SumOutDegrees(g, g.nodes) as real
    ensures MetricsOf(g).Ok? && g.nodes == {} ==> MetricsOf(g).value.avgDepsPerService == 0.0
  {
    SumOutDegreesIsEdgeCount(g);
    if g.nodes != {} {
      MeanTimesCount(AvgOutDegree(g), |g.edges|, |g.nodes|);
    }
  }

  lemma MeanTimesCount(mean: real, total: nat, count: nat)
    requires count > 0 && mean == total as real / count as real
    ensures mean * count as real == total as real
  {
  }

  /** Computes the metrics of a DiGraph as the analysis does, summing the
      out-degrees node by node. */
  method ComputeMetrics(dg: DiGraph) returns (r: Result<GraphMetrics>)
    requires dg.Valid()
    ensures r == MetricsOf(dg.Value())
  {
    var g := dg.Value();
    var sum: nat := 0;
    var rest := g.nodes;
    while rest != {}
      invariant rest <= g.nodes
      invariant sum == |EdgesFrom(g, g.nodes - rest)|
      decreases |rest|
    {
      var v :| v in rest;
      EdgesFromAdd(g, g.nodes - rest, v);
      assert g.nodes - rest + {v} == g.nodes - (rest - {v});
      sum := sum + OutDegree(g, v);
      rest := rest - {v};
    }
    assert g.nodes - rest == g.nodes;
    assert EdgesFrom(g, g.nodes) == g.edges;
    assert sum == |g.edges|;
    var n := |g.nodes|;
    var avg := if n != 0 then sum as real / n as real else 0.0;
    var acyclic := IsAcyclic(g);
    var lp := LongestPath(g);
    if lp.Err? {
      return Err(lp.error);
    }
    r := Ok(GraphMetrics(n, |g.edges|, avg, acyclic, lp.value));
  }
}
