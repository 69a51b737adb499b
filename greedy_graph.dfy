/**
 * The graph the greedy executable works on: for each node, the list of its
 * weighted edges in insertion order. Graphs are built from `u v w` triples on
 * the command line (each triple adds the edge in both directions) or are the
 * built-in four-node graph; `printInit` lists the nodes and every undirected
 * edge once.
 *
 * The source keeps the graph in an `unordered_map`, whose iteration order is
 * unspecified; wherever it is iterated, the model takes that order as a
 * parameter `order` enumerating the keys.
 */
module GreedyGraph {
  import opened Wrappers
  import Decimal

  datatype Edge = Edge(to: int, weight: int)

  type Graph = map<int, seq<Edge>>

  /** An undirected edge as `printInit` and Kruskal list it: `u < v` with its weight. */
  datatype WEdge = WEdge(u: int, v: int, w: int)

  /** `graph[u]`: the edges out of `u`, or the empty list the map default-constructs. */
  function Adj(g: Graph, u: int): seq<Edge> {
    if u in g then g[u] else []
  }

  /** Every edge leads to a node of the graph. */
  ghost predicate Closed(g: Graph) {
    forall u, e :: u in g && e in g[u] ==> e.to in g
  }

  /** `order` lists each key of `g` exactly once. */
  ghost predicate IsEnumeration(order: seq<int>, g: Graph) {
    && (forall k :: k in order <==> k in g)
    && (forall i, j :: 0 <= i < j < |order| ==> order[i] != order[j])
  }

  datatype Triple = Triple(u: int, v: int, w: int)

  /** `graph[u].push_back({v,w}); graph[v].push_back({u,w});` */
  function AddTriple(g: Graph, t: Triple): Graph {
    var g1 := g[t.u := Adj(g, t.u) + [Edge(t.v, t.w)]];
    g1[t.v := Adj(g1, t.v) + [Edge(t.u, t.w)]]
  }

  /** The triples added in order. */
  function AddAll(g: Graph, ts: seq<Triple>): Graph
    decreases |ts|
  {
    if |ts| == 0 then g else AddTriple(AddAll(g, ts[..|ts| - 1]), ts[|ts| - 1])
  }

  /** Triple `t` contributes edge `e` to the list of node `x`. */
  predicate Contributes(t: Triple, x: int, e: Edge) {
    (t.u == x && e == Edge(t.v, t.w)) || (t.v == x && e == Edge(t.u, t.w))
  }

  /** Adding one triple appends its contributions to the lists of its two ends. */
  lemma AddTripleEdges(g: Graph, t: Triple, x: int, e: Edge)
    ensures e in Adj(AddTriple(g, t), x) <==> e in Adj(g, x) || Contributes(t, x, e)
  {
  }

  /** The edges of a node after adding triples: the ones it had and the ones the triples contribute. */
  lemma {:induction false} AddAllEdges(g: Graph, ts: seq<Triple>, x: int, e: Edge)
    ensures e in Adj(AddAll(g, ts), x) <==> e in Adj(g, x) || exists k :: 0 <= k < |ts| && Contributes(ts[k], x, e)
    decreases |ts|
  {
    if |ts| > 0 {
      var init, t := ts[..|ts| - 1], ts[|ts| - 1];
      AddAllEdges(g, init, x, e);
      AddTripleEdges(AddAll(g, init), t, x, e);
      if exists k :: 0 <= k < |init| && Contributes(init[k], x, e) {
        var k :| 0 <= k < |init| && Contributes(init[k], x, e);
        assert ts[k] == init[k];
      }
      if exists k :: 0 <= k < |ts| && Contributes(ts[k], x, e) {
        var k :| 0 <= k < |ts| && Contributes(ts[k], x, e);
        if k < |init| {
          assert init[k] == ts[k];
        }
      }
    }
  }

  /** The nodes after adding triples: the ones there were and every endpoint of a triple. */
  lemma {:induction false} AddAllKeys(g: Graph, ts: seq<Triple>, x: int)
    ensures x in AddAll(g, ts) <==> x in g || exists k :: 0 <= k < |ts| && (ts[k].u == x || ts[k].v == x)
    decreases |ts|
  {
    if |ts| > 0 {
      var init := ts[..|ts| - 1];
      AddAllKeys(g, init, x);
      if exists k :: 0 <= k < |init| && (init[k].u == x || init[k].v == x) {
        var k :| 0 <= k < |init| && (init[k].u == x || init[k].v == x);
        assert ts[k] == init[k];
      }
      if exists k :: 0 <= k < |ts| && (ts[k].u == x || ts[k].v == x) {
        var k :| 0 <= k < |ts| && (ts[k].u == x || ts[k].v == x);
        if k < |init| {
          assert init[k] == ts[k];
        }
      }
    }
  }

  /** A graph built from triples has every edge in both directions with the same weight, and is closed. */
  lemma BuiltSymmetric(ts: seq<Triple>, x: int, e: Edge)
    requires e in Adj(AddAll(map[], ts), x)
    ensures Edge(x, e.weight) in Adj(AddAll(map[], ts), e.to)
    ensures x in AddAll(map[], ts) && e.to in AddAll(map[], ts)
  {
    var g := AddAll(map[], ts);
    AddAllEdges(map[], ts, x, e);
    var k :| 0 <= k < |ts| && Contributes(ts[k], x, e);
    assert Contributes(ts[k], e.to, Edge(x, e.weight));
    AddAllEdges(map[], ts, e.to, Edge(x, e.weight));
    AddAllKeys(map[], ts, x);
    AddAllKeys(map[], ts, e.to);
  }

  lemma BuiltClosed(ts: seq<Triple>)
    ensures Closed(AddAll(map[], ts))
  {
    var g := AddAll(map[], ts);
    forall u: int, e: Edge | u in g && e in g[u]
      ensures e.to in g
    {
      BuiltSymmetric(ts, u, e);
    }
  }

  /** The first `n` arguments are numbers. */
  ghost predicate AllParse(args: seq<string>, n: int) {
    forall k :: 0 <= k < n && k < |args| ==> Decimal.Parse(args[k]).Some?
  }

  /** The `j`-th triple of the arguments. */
  function TripleAt(args: seq<string>, j: int): Triple
    requires 0 <= j && 3 * j + 2 < |args| && AllParse(args, 3 * j + 3)
  {
    Triple(Decimal.Parse(args[3 * j]).value, Decimal.Parse(args[3 * j + 1]).value, Decimal.Parse(args[3 * j + 2]).value)
  }

  /** The first `m` triples of the arguments. */
  function Triples(args: seq<string>, m: nat): seq<Triple>
    requires 3 * m <= |args| && AllParse(args, 3 * m)
  {
    seq(m, j requires 0 <= j < m => TripleAt(args, j))
  }

  /** How `buildGraphFromArgs` ends. */
  datatype BuildResult =
    | BadCount      // the count is not a multiple of 3: the "need u v w triplets" error and `exit(1)`
    | BadNumber     // `stoi` rejects an argument
    | Built(g: Graph)

  /**
   * `buildGraphFromArgs(argc, argv, 2)` over `args == argv[2..]`: the graph the
   * triples build, each adding both directions.
   */
  method BuildGraphFromArgs(args: seq<string>) returns (r: BuildResult)
    ensures r == BadCount <==> |args| % 3 != 0
    ensures r == BadNumber <==> |args| % 3 == 0 && !AllParse(args, |args|)
    ensures r.Built? ==> |args| % 3 == 0 && AllParse(args, |args|) && r.g == AddAll(map[], Triples(args, |args| / 3))
  {
    if |args| % 3 != 0 {
      return BadCount;
    }
    var g: Graph := map[];
    var i := 0;
    ghost var m := 0;
    ghost var total := |args| / 3;
    while i + 2 < |args|
      invariant 0 <= i <= |args| && i == 3 * m && |args| == 3 * total && AllParse(args, i)
      invariant g == AddAll(map[], Triples(args, m))
      decreases |args| - i
    {
      var u, v, w := Decimal.Parse(args[i]), Decimal.Parse(args[i + 1]), Decimal.Parse(args[i + 2]);
      if u.None? || v.None? || w.None? {
        RejectedAt(args, if u.None? then i else if v.None? then i + 1 else i + 2);
        return BadNumber;
      }
      var t := Triple(u.value, v.value, w.value);
      var next := i + 3;
      NextTriple(args, i, m, next, t);
      g := AddTriple(g, t);
      i := next;
      m := m + 1;
    }
    assert m == total;
    return Built(g);
  }

  /** One argument that is not a number leaves the arguments unparsed. */
  lemma RejectedAt(args: seq<string>, k: int)
    requires 0 <= k < |args| && Decimal.Parse(args[k]).None?
    ensures !AllParse(args, |args|)
  {
  }

  /** Reading one more triple extends the list of triples by it. */
  lemma NextTriple(args: seq<string>, i: int, m: nat, next: int, t: Triple)
    requires i == 3 * m && next == i + 3 && next <= |args| && AllParse(args, i)
    requires Decimal.Parse(args[i]) == Some(t.u) && Decimal.Parse(args[i + 1]) == Some(t.v) && Decimal.Parse(args[i + 2]) == Some(t.w)
    ensures AllParse(args, next)
    ensures Triples(args, m + 1) == Triples(args, m) + [t]
  {
    assert TripleAt(args, m) == t;
  }

  /** `buildDefaultGraph()`. */
  const DefaultGraph: Graph := map[
    0 := [Edge(1, 4), Edge(2, 1)],
    1 := [Edge(0, 4), Edge(2, 2), Edge(3, 5)],
    2 := [Edge(0, 1), Edge(1, 2), Edge(3, 8)],
    3 := [Edge(1, 5), Edge(2, 8)]
  ]

  /** The built-in graph is closed and undirected: each edge is listed from both ends. */
  lemma DefaultClosed()
    ensures Closed(DefaultGraph)
    ensures forall u, e :: u in DefaultGraph && e in DefaultGraph[u] ==> Edge(u, e.weight) in DefaultGraph[e.to]
  {
  }

  /** The undirected edges of one node's list: those leading to a larger node. */
  function EdgesFrom(u: int, es: seq<Edge>): seq<WEdge>
    decreases |es|
  {
    if |es| == 0 then []
    else EdgesFrom(u, es[..|es| - 1]) + (if u < es[|es| - 1].to then [WEdge(u, es[|es| - 1].to, es[|es| - 1].weight)] else [])
  }

  /** The undirected edges of the graph, node by node in `order`. */
  function UndirectedEdges(g: Graph, order: seq<int>): seq<WEdge>
    decreases |order|
  {
    if |order| == 0 then []
    else UndirectedEdges(g, order[..|order| - 1]) + EdgesFrom(order[|order| - 1], Adj(g, order[|order| - 1]))
  }

  lemma {:induction false} EdgesFromMember(u: int, es: seq<Edge>, x: WEdge)
    ensures x in EdgesFrom(u, es) <==> x.u == u && u < x.v && Edge(x.v, x.w) in es
    decreases |es|
  {
    if |es| > 0 {
      var init := es[..|es| - 1];
      EdgesFromMember(u, init, x);
      assert es == init + [es[|es| - 1]];
    }
  }

  lemma {:induction false} UndirectedMember(g: Graph, order: seq<int>, x: WEdge)
    ensures x in UndirectedEdges(g, order) <==> x.u in order && x.u < x.v && Edge(x.v, x.w) in Adj(g, x.u)
    decreases |order|
  {
    if |order| > 0 {
      var init, last := order[..|order| - 1], order[|order| - 1];
      UndirectedMember(g, init, x);
      EdgesFromMember(last, Adj(g, last), x);
      assert order == init + [last];
    }
  }

  /**
   * The edges `printInit` and Kruskal collect: exactly the graph's edges that
   * lead to a larger node, so each edge built from a triple `u v w` with
   * `u != v` is listed from its smaller end only.
   */
  lemma ListedEdges(g: Graph, order: seq<int>, x: WEdge)
    requires IsEnumeration(order, g)
    ensures x in UndirectedEdges(g, order) <==> x.u in g && x.u < x.v && Edge(x.v, x.w) in g[x.u]
  {
    UndirectedMember(g, order, x);
  }

  /** The node set of `printInit`: every key and every edge target. */
  ghost function Nodes(g: Graph): set<int> {
    (set u | u in g) + (set u, e | u in g && e in g[u] :: e.to)
  }

  /** A closed graph has no nodes beyond its keys. */
  lemma ClosedNodes(g: Graph)
    requires Closed(g)
    ensures Nodes(g) == set u | u in g
  {
  }

  /**
   * The edge-collecting loops of `printInit` (lines 62-69) and `runKruskal`
   * (lines 223-226): over the nodes in `order`, keep each edge to a larger node.
   */
  method ListEdges(g: Graph, order: seq<int>) returns (edges: seq<WEdge>)
    ensures edges == UndirectedEdges(g, order)
    ensures IsEnumeration(order, g) ==> forall x :: x in edges <==> x.u in g && x.u < x.v && Edge(x.v, x.w) in g[x.u]
  {
    edges := [];
    var i := 0;
    while i < |order|
      invariant 0 <= i <= |order|
      invariant edges == UndirectedEdges(g, order[..i])
    {
      var part := KeepLarger(order[i], Adj(g, order[i]));
      UndirectedSnoc(g, order, i);
      edges := edges + part;
      i := i + 1;
    }
    assert order[..i] == order;
    if IsEnumeration(order, g) {
      forall x
        ensures x in edges <==> x.u in g && x.u < x.v && Edge(x.v, x.w) in g[x.u]
      {
        ListedEdges(g, order, x);
      }
    }
  }

  /** The inner loop over the neighbours of `u`: each edge to a larger node, in list order. */
  method KeepLarger(u: int, es: seq<Edge>) returns (part: seq<WEdge>)
    ensures part == EdgesFrom(u, es)
  {
    part := [];
    var j := 0;
    while j < |es|
      invariant 0 <= j <= |es|
      invariant part == EdgesFrom(u, es[..j])
    {
      if u < es[j].to {
        part := part + [WEdge(u, es[j].to, es[j].weight)];
      }
      assert es[..j + 1][..j] == es[..j];
      j := j + 1;
    }
    assert es[..j] == es;
  }

  /** Visiting one more key adds the edges from it to larger nodes. */
  lemma UndirectedSnoc(g: Graph, order: seq<int>, i: int)
    requires 0 <= i < |order|
    ensures UndirectedEdges(g, order[..i + 1]) == UndirectedEdges(g, order[..i]) + EdgesFrom(order[i], Adj(g, order[i]))
  {
    assert order[..i + 1][..i] == order[..i];
  }

  /** The targets of a list of edges. */
  function Targets(es: seq<Edge>): set<int>
    decreases |es|
  {
    if |es| == 0 then {} else Targets(es[..|es| - 1]) + {es[|es| - 1].to}
  }

  lemma {:induction false} TargetsMember(es: seq<Edge>, x: int)
    ensures x in Targets(es) <==> exists e :: e in es && e.to == x
    decreases |es|
  {
    if |es| > 0 {
      var init := es[..|es| - 1];
      TargetsMember(init, x);
      assert es == init + [es[|es| - 1]];
    }
  }

  /** The nodes `printInit` has seen after visiting the keys in `order`. */
  function NodesSeen(g: Graph, order: seq<int>): set<int>
    decreases |order|
  {
    if |order| == 0 then {}
    else NodesSeen(g, order[..|order| - 1]) + {order[|order| - 1]} + Targets(Adj(g, order[|order| - 1]))
  }

  lemma {:induction false} NodesSeenMember(g: Graph, order: seq<int>, x: int)
    ensures x in NodesSeen(g, order) <==> exists u :: u in order && (u == x || x in Targets(Adj(g, u)))
    decreases |order|
  {
    if |order| > 0 {
      var init, last := order[..|order| - 1], order[|order| - 1];
      NodesSeenMember(g, init, x);
      assert order == init + [last];
      if x in NodesSeen(g, init) {
        var u :| u in init && (u == x || x in Targets(Adj(g, u)));
        assert u in order;
      }
    }
  }

  /** Once every key is visited, the nodes seen are the keys and every edge target. */
  lemma NodesSeenAll(g: Graph, order: seq<int>)
    requires IsEnumeration(order, g)
    ensures NodesSeen(g, order) == Nodes(g)
  {
    forall x
      ensures x in NodesSeen(g, order) <==> x in Nodes(g)
    {
      NodesSeenMember(g, order, x);
      if x in Nodes(g) && x !in g {
        var u, e :| u in g && e in g[u] && e.to == x;
        TargetsMember(Adj(g, u), x);
      }
      if x in NodesSeen(g, order) && x !in g {
        var u :| u in order && (u == x || x in Targets(Adj(g, u)));
        TargetsMember(Adj(g, u), x);
      }
    }
  }

  /**
   * `printInit(graph)`: the node set (which `std::set` lists in ascending
   * order) and the undirected edges, collected in one pass over the nodes in
   * `order`.
   */
  method PrintInit(g: Graph, order: seq<int>) returns (nodes: set<int>, edges: seq<WEdge>)
    ensures edges == UndirectedEdges(g, order)
    ensures forall x :: x in edges ==> x.u < x.v
    ensures IsEnumeration(order, g) ==> nodes == Nodes(g)
    ensures IsEnumeration(order, g) ==> forall x :: x in edges <==> x.u in g && x.u < x.v && Edge(x.v, x.w) in g[x.u]
  {
    nodes := {};
    edges := [];
    var i := 0;
    while i < |order|
      invariant 0 <= i <= |order|
      invariant nodes == NodesSeen(g, order[..i])
      invariant edges == UndirectedEdges(g, order[..i])
    {
      var u := order[i];
      var part, targets := ScanNeighbours(u, Adj(g, u));
      UndirectedSnoc(g, order, i);
      NodesSeenSnoc(g, order, i);
      edges := edges + part;
      nodes := nodes + {u} + targets;
      i := i + 1;
    }
    assert order[..i] == order;
    forall x | x in edges
      ensures x.u < x.v
    {
      UndirectedMember(g, order, x);
    }
    if IsEnumeration(order, g) {
      NodesSeenAll(g, order);
      forall x
        ensures x in edges <==> x.u in g && x.u < x.v && Edge(x.v, x.w) in g[x.u]
      {
        ListedEdges(g, order, x);
      }
    }
  }

  /** The inner loop of `printInit` over the neighbours of `u`: the edges to larger nodes, and every target. */
  method ScanNeighbours(u: int, es: seq<Edge>) returns (part: seq<WEdge>, targets: set<int>)
    ensures part == EdgesFrom(u, es) && targets == Targets(es)
  {
    part, targets := [], {};
    var j := 0;
    while j < |es|
      invariant 0 <= j <= |es|
      invariant part == EdgesFrom(u, es[..j]) && targets == Targets(es[..j])
    {
      if u < es[j].to {
        part := part + [WEdge(u, es[j].to, es[j].weight)];
      }
      targets := targets + {es[j].to};
      assert es[..j + 1][..j] == es[..j];
      j := j + 1;
    }
    assert es[..j] == es;
  }

  /** Visiting one more key adds it and its targets to the nodes seen. */
  lemma NodesSeenSnoc(g: Graph, order: seq<int>, i: int)
    requires 0 <= i < |order|
    ensures NodesSeen(g, order[..i + 1]) == NodesSeen(g, order[..i]) + {order[i]} + Targets(Adj(g, order[i]))
  {
    assert order[..i + 1][..i] == order[..i];
  }

  /** `numeric_limits<int>::max()`: the distance (Dijkstra) or key (Prim) of a node not reached yet. */
  const INF: int := 2147483647

  /** `p` is a walk in `g` whose `i`-th step is an edge of weight `ws[i]`. */
  ghost predicate IsWalk(g: Graph, p: seq<int>, ws: seq<int>) {
    |p| == |ws| + 1 && forall i :: 0 <= i < |ws| ==> p[i] in g && Edge(p[i + 1], ws[i]) in g[p[i]]
  }

  /** The total weight of a walk. */
  function Sum(ws: seq<int>): int
    decreases |ws|
  {
    if |ws| == 0 then 0 else Sum(ws[..|ws| - 1]) + ws[|ws| - 1]
  }

  lemma {:induction false} SumCons(a: int, ws: seq<int>)
    ensures Sum([a] + ws) == a + Sum(ws)
    decreases |ws|
  {
    if |ws| > 0 {
      assert ([a] + ws)[..|ws|] == [a] + ws[..|ws| - 1];
      SumCons(a, ws[..|ws| - 1]);
    }
  }
}
