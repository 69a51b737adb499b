/**
 * `main` of the greedy executable: the algorithm name comes first; the graph
 * is the built-in one when nothing or a single `0` follows, and otherwise
 * the graph the `u v w` triples after the name build. Dijkstra runs from
 * node 0 to node 3, both tree algorithms from node 0.
 *
 * Two library behaviours are parameters: `keyOrder`, the iteration order of
 * the graph's `unordered_map`, and `sortByWeight`, what `std::sort` with the
 * weight comparator makes of the edge list (it is not stable, so the order
 * of equal weights is unspecified).
 */
module GreedyMain {
  import opened GreedyGraph
  import Decimal
  import Dijkstra
  import Prim
  import Kruskal

  /** How one run of the executable ends. */
  datatype Run =
    | Usage                                   // no algorithm name: the usage error, exit status 1
    | BadCount                                // the triples do not come in threes: exit status 1
    | BadNumber                               // `stoi` rejects an argument: the program aborts
    | Unknown                                 // the graph was built but the name is not known: exit status 1
    | Shortest(d: Dijkstra.Outcome)           // `runDijkstra(graph, 0, 3)`
    | Prims(p: Prim.Outcome)                  // `runPrims(graph)`, from node 0
    | Kruskals(total: int, mst: seq<(int, int)>)  // `runKruskal(graph)`

  /** The arguments after the name select the built-in graph. */
  predicate UsesDefault(ga: seq<string>) {
    |ga| == 0 || (|ga| == 1 && ga[0] == "0")
  }

  /** The arguments after the name give a graph: the default, or triples of numbers. */
  ghost predicate Builds(ga: seq<string>) {
    UsesDefault(ga) || (|ga| % 3 == 0 && AllParse(ga, |ga|))
  }

  /** The graph the arguments after the name give. */
  ghost function GraphOf(ga: seq<string>): Graph
    requires Builds(ga)
  {
    if UsesDefault(ga) then DefaultGraph else AddAll(map[], Triples(ga, |ga| / 3))
  }

  /** Every weight among the triples that is a number is not negative. */
  ghost predicate NonNegativeWeights(ga: seq<string>) {
    forall k :: 0 <= k < |ga| && k % 3 == 2 && Decimal.Parse(ga[k]).Some? ==> Decimal.Parse(ga[k]).value >= 0
  }

  /** What sorting the edges by weight delivers: the same edges, by non-decreasing weight. */
  ghost predicate SortsByWeight(sortByWeight: seq<WEdge> -> seq<WEdge>) {
    forall s :: Kruskal.ByWeight(sortByWeight(s)) && multiset(sortByWeight(s)) == multiset(s)
  }

  /** What running algorithm `algo` on the graph `g` reports. */
  ghost predicate Ran(algo: string, g: Graph, keyOrder: Graph -> seq<int>, sortByWeight: seq<WEdge> -> seq<WEdge>, r: Run) {
    && (r.Unknown? <==> algo != "dijkstra" && algo != "prims" && algo != "kruskal")
    && (r.Shortest? <==> algo == "dijkstra")
    && (r.Prims? <==> algo == "prims")
    && (r.Kruskals? <==> algo == "kruskal")
    && (r.Shortest? ==>
          && (r.d.StartMissing? <==> 0 !in g)
          && (0 in g ==> exists dist, ws :: Dijkstra.Final(g, 0, dist) && Dijkstra.Answer(g, 0, 3, dist, r.d, ws)))
    && (r.Prims? ==>
          && (r.p.StartMissing? <==> 0 !in g)
          && (r.p.Tree? ==> exists incl, ws :: Prim.Spanning(g, 0, r.p.total, r.p.mst, incl, ws)))
    && (r.Kruskals? ==>
          var sorted := sortByWeight(UndirectedEdges(g, keyOrder(g)));
          exists p, rk, bd, chosen :: Kruskal.Spanning(g, sorted, p, rk, bd, chosen) && r.mst == Kruskal.Pairs(chosen) && r.total == Kruskal.Weight(chosen))
  }

  /** What `main` reports for `args == argv[1..]`. */
  ghost predicate Reports(args: seq<string>, keyOrder: Graph -> seq<int>, sortByWeight: seq<WEdge> -> seq<WEdge>, r: Run) {
    && (r.Usage? <==> |args| == 0)
    && (|args| > 0 ==>
          var ga := args[1..];
          && (r.BadCount? <==> !UsesDefault(ga) && |ga| % 3 != 0)
          && (r.BadNumber? <==> !UsesDefault(ga) && |ga| % 3 == 0 && !AllParse(ga, |ga|))
          && (Builds(ga) ==> Closed(GraphOf(ga)) && Ran(args[0], GraphOf(ga), keyOrder, sortByWeight, r)))
  }

  /** A graph built from triples whose weights are not negative has no negative edge. */
  lemma BuiltNonNegative(ga: seq<string>)
    requires |ga| % 3 == 0 && AllParse(ga, |ga|) && NonNegativeWeights(ga)
    ensures Dijkstra.NonNegative(AddAll(map[], Triples(ga, |ga| / 3)))
  {
    var m := |ga| / 3;
    var ts := Triples(ga, m);
    var g := AddAll(map[], ts);
    forall u: int, e: Edge | u in g && e in g[u]
      ensures e.weight >= 0
    {
      AddAllEdges(map[], ts, u, e);
      var k :| 0 <= k < |ts| && Contributes(ts[k], u, e);
      TripleWeight(ga, m, k);
    }
  }

  /** The weight of the `k`-th triple is the argument at `3 * k + 2`, which is not negative. */
  lemma TripleWeight(ga: seq<string>, m: nat, k: int)
    requires 3 * m <= |ga| && AllParse(ga, 3 * m) && NonNegativeWeights(ga) && 0 <= k < m
    ensures Triples(ga, m)[k].w >= 0
  {
    var j := 3 * k + 2;
    assert j % 3 == 2 && j < |ga|;
    assert Triples(ga, m)[k] == TripleAt(ga, k);
    assert TripleAt(ga, k).w == Decimal.Parse(ga[j]).value;
  }

  /** The graph `main` works on, or how building it fails. */
  method SelectGraph(ga: seq<string>) returns (b: BuildResult)
    ensures b.BadCount? <==> !UsesDefault(ga) && |ga| % 3 != 0
    ensures b.BadNumber? <==> !UsesDefault(ga) && |ga| % 3 == 0 && !AllParse(ga, |ga|)
    ensures b.Built? <==> Builds(ga)
    ensures b.Built? ==> b.g == GraphOf(ga) && Closed(b.g)
  {
    if UsesDefault(ga) {
      DefaultClosed();
      b := Built(DefaultGraph);
    } else {
      b := BuildGraphFromArgs(ga);
      if b.Built? {
        BuiltClosed(Triples(ga, |ga| / 3));
      }
    }
  }

  /** `main(argc, argv)` with `args == argv[1..]`. */
  method GreedyMain(args: seq<string>, keyOrder: Graph -> seq<int>, sortByWeight: seq<WEdge> -> seq<WEdge>) returns (r: Run)
    requires forall h :: IsEnumeration(keyOrder(h), h)
    requires SortsByWeight(sortByWeight)
    requires |args| > 0 && args[0] == "dijkstra" ==> NonNegativeWeights(args[1..])
    ensures Reports(args, keyOrder, sortByWeight, r)
  {
    if |args| == 0 {
      return Usage;
    }
    var algo, ga := args[0], args[1..];
    var b := SelectGraph(ga);
    if b.BadCount? {
      return Run.BadCount;
    } else if b.BadNumber? {
      return Run.BadNumber;
    }
    var g := b.g;
    if algo == "dijkstra" {
      if UsesDefault(ga) {
        DefaultNonNegative();
      } else {
        BuiltNonNegative(ga);
      }
      var d, dist, ws := Dijkstra.RunDijkstra(g, 0, 3);
      r := Shortest(d);
    } else if algo == "prims" {
      var p, incl, ws := Prim.RunPrims(g, 0);
      r := Prims(p);
    } else if algo == "kruskal" {
      var order := keyOrder(g);
      var sorted := sortByWeight(UndirectedEdges(g, order));
      var total, mst, chosen, dsu := Kruskal.RunKruskal(g, order, sorted);
      r := Kruskals(total, mst);
    } else {
      r := Unknown;
    }
  }

  /** The built-in graph has no negative edge. */
  lemma DefaultNonNegative()
    ensures Dijkstra.NonNegative(DefaultGraph)
  {
  }

  /** The shortest distances from node 0 in the built-in graph form a feasible potential. */
  lemma DefaultFeasible()
    ensures Dijkstra.Feasible(DefaultGraph, map[0 := 0, 1 := 3, 2 := 1, 3 := 8])
  {
    var g, h := DefaultGraph, map[0 := 0, 1 := 3, 2 := 1, 3 := 8];
    forall u: int, e: Edge | u in g && e in g[u]
      ensures u in h && e.to in h && h[e.to] - h[u] <= e.weight
    {
      assert u in {0, 1, 2, 3};
    }
  }

  /**
   * `greedy dijkstra` with the built-in graph reports a path from 0 to 3 of
   * cost 8 (0, 2, 1, 3): the distances reach 8 along it, and the potential
   * 0, 3, 1, 8 of nodes 0 to 3 shows no walk is cheaper.
   */
  lemma DefaultShortest(args: seq<string>, keyOrder: Graph -> seq<int>, sortByWeight: seq<WEdge> -> seq<WEdge>, r: Run)
    requires args == ["dijkstra"] && Reports(args, keyOrder, sortByWeight, r)
    ensures r.Shortest? && r.d.Path? && r.d.cost == 8
  {
    var ga := args[1..];
    assert ga == [] && UsesDefault(ga);
    var g := DefaultGraph;
    assert Ran(args[0], g, keyOrder, sortByWeight, r);
    assert 0 in g;
    var dist, ws :| Dijkstra.Final(g, 0, dist) && Dijkstra.Answer(g, 0, 3, dist, r.d, ws);
    assert Edge(2, 1) in g[0] && Edge(1, 2) in g[2] && Edge(3, 5) in g[1];
    assert dist[3] <= 8;
    DefaultFeasible();
    Dijkstra.PotentialBound(g, map[0 := 0, 1 := 3, 2 := 1, 3 := 8], r.d.path, ws);
  }
}
