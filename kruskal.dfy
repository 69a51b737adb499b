/**
 * `runKruskal`: list the undirected edges, order them by weight, make every
 * node a singleton set, then take each edge in turn, keeping it exactly when
 * `unionSet` reports that it joined two different sets.
 *
 * `std::sort` with a comparator on the weight alone leaves the order of equal
 * weights unspecified, so the ordered list is the parameter `sorted`, required
 * to be the collected edges ordered by weight.
 */
module Kruskal {
  import opened GreedyGraph
  import opened DisjointSets

  /** Weights never decrease along the list. */
  ghost predicate ByWeight(s: seq<WEdge>) {
    forall i, j :: 0 <= i < j < |s| ==> s[i].w <= s[j].w
  }

  /** The total weight of a list of edges. */
  function Weight(s: seq<WEdge>): int
    decreases |s|
  {
    if |s| == 0 then 0 else Weight(s[..|s| - 1]) + s[|s| - 1].w
  }

  /** The `(u, v)` pairs of a list of edges, as `runKruskal` records them. */
  function Pairs(s: seq<WEdge>): (r: seq<(int, int)>)
    ensures |r| == |s| && forall k :: 0 <= k < |s| ==> r[k] == (s[k].u, s[k].v)
  {
    seq(|s|, k requires 0 <= k < |s| => (s[k].u, s[k].v))
  }

  /** An edge of the ordered list joins two nodes of a closed graph. */
  lemma EdgeOfGraph(g: Graph, order: seq<int>, sorted: seq<WEdge>, e: WEdge)
    requires Closed(g) && IsEnumeration(order, g) && multiset(sorted) == multiset(UndirectedEdges(g, order))
    requires e in sorted
    ensures e.u in g && e.v in g && e.u < e.v && Edge(e.v, e.w) in g[e.u]
  {
    assert e in multiset(sorted);
    ListedEdges(g, order, e);
  }

  /** A forest with an element has a root. */
  lemma SomeRoot(parent: map<int, int>, rank: map<int, int>, bound: int, x: int)
    requires Forest(parent, rank, bound) && x in parent
    ensures |Roots(parent)| >= 1
  {
    FindIsRoot(parent, rank, bound, x);
    RootsMember(parent, Find(parent, rank, bound, x));
  }

  /** The first `j` edges of `s` each end inside one set of the forest. */
  ghost predicate Inside(parent: map<int, int>, rank: map<int, int>, bound: int, s: seq<WEdge>, j: int)
    requires Forest(parent, rank, bound)
  {
    forall k :: 0 <= k < j && k < |s| ==>
      s[k].u in parent && s[k].v in parent && Find(parent, rank, bound, s[k].u) == Find(parent, rank, bound, s[k].v)
  }

  /** Merging sets keeps every edge that ended inside one set inside one. */
  lemma StillInside(p: map<int, int>, rk: map<int, int>, bd: int, p': map<int, int>, rk': map<int, int>, bd': int,
                    a: int, b: int, merged: bool, s: seq<WEdge>, j: int, next: int)
    requires UnionPost(p, rk, bd, p', rk', bd', a, b, merged) && Inside(p, rk, bd, s, j)
    requires 0 <= j < |s| && s[j].u == a && s[j].v == b && next == j + 1
    ensures Inside(p', rk', bd', s, next)
  {
    forall k | 0 <= k < next
      ensures s[k].u in p' && s[k].v in p' && Find(p', rk', bd', s[k].u) == Find(p', rk', bd', s[k].v)
    {
      if k < j {
        assert Find(p, rk, bd, s[k].u) == Find(p, rk, bd, s[k].v);
      }
    }
  }

  /** The forest holds exactly the nodes of `s`, each a set of its own. */
  ghost predicate Singletons(p: map<int, int>, rk: map<int, int>, bd: int, s: seq<int>) {
    Forest(p, rk, bd) && Roots(p) == p.Keys && forall k :: k in p <==> k in s
  }

  /** `dsu.makeSet(order[i])` after the nodes before it extends `Singletons` by that node. */
  method AddNode(dsu: Dsu, ghost g: Graph, order: seq<int>, i: int, next: int)
    modifies dsu
    requires IsEnumeration(order, g) && 0 <= i < |order| && next == i + 1
    requires Singletons(dsu.parent, dsu.rank, dsu.bound, order[..i])
    ensures Singletons(dsu.parent, dsu.rank, dsu.bound, order[..next])
  {
    Fresh(order, g, i);
    dsu.MakeSet(order[i]);
    assert order[..next] == order[..i] + [order[i]];
  }

  /** A node listed once does not occur before its own position. */
  lemma Fresh(order: seq<int>, g: Graph, i: int)
    requires IsEnumeration(order, g) && 0 <= i < |order|
    ensures order[i] !in order[..i]
  {
  }

  /** `for (auto& [u,_]: graph) dsu.makeSet(u);`: every node a set of its own. */
  method MakeSets(g: Graph, order: seq<int>) returns (dsu: Dsu)
    requires IsEnumeration(order, g)
    ensures fresh(dsu) && Singletons(dsu.parent, dsu.rank, dsu.bound, order)
  {
    dsu := new Dsu();
    var i := 0;
    while i < |order|
      invariant 0 <= i <= |order| && fresh(dsu)
      invariant Singletons(dsu.parent, dsu.rank, dsu.bound, order[..i])
    {
      var next := i + 1;
      AddNode(dsu, g, order, i, next);
      i := next;
    }
    assert order[..i] == order;
  }

  /**
   * `a` and `b` are connected by the edges `es`: equal, or joined through the
   * last edge to nodes the earlier edges connect them to.
   */
  ghost predicate Connected(es: seq<WEdge>, a: int, b: int)
    decreases |es|
  {
    if |es| == 0 then a == b
    else
      var rest, e := es[..|es| - 1], es[|es| - 1];
      || Connected(rest, a, b)
      || (Connected(rest, a, e.u) && Connected(rest, e.v, b))
      || (Connected(rest, a, e.v) && Connected(rest, e.u, b))
  }

  /** The edges form a forest: each joins two nodes the edges before it do not connect. */
  ghost predicate Acyclic(es: seq<WEdge>) {
    forall k :: 0 <= k < |es| ==> !Connected(es[..k], es[k].u, es[k].v)
  }

  /** The sets of the forest are the components of the edges `chosen`. */
  ghost predicate Components(g: Graph, p: map<int, int>, rk: map<int, int>, bd: int, chosen: seq<WEdge>)
    requires Forest(p, rk, bd) && p.Keys == g.Keys
  {
    forall x, y :: x in g && y in g ==> (Find(p, rk, bd, x) == Find(p, rk, bd, y) <==> Connected(chosen, x, y))
  }

  /**
   * The state of `runKruskal` after the first `j` edges of `sorted`: the
   * counts and order of `Scanned`, the sets are the components of the chosen
   * edges, and those edges form a forest.
   */
  ghost predicate Progress(g: Graph, sorted: seq<WEdge>, j: int, p: map<int, int>, rk: map<int, int>, bd: int, chosen: seq<WEdge>) {
    Scanned(g, sorted, j, p, rk, bd, chosen) && Components(g, p, rk, bd, chosen) && Acyclic(chosen)
  }

  /**
   * After the first `j` edges of `sorted`: the forest covers the nodes,
   * `chosen` are taken from those edges in order, each of those edges ends
   * inside one set, and every chosen edge removed one set.
   */
  ghost predicate Scanned(g: Graph, sorted: seq<WEdge>, j: int, p: map<int, int>, rk: map<int, int>, bd: int, chosen: seq<WEdge>) {
    && 0 <= j <= |sorted|
    && Forest(p, rk, bd) && p.Keys == g.Keys
    && (forall c :: c in chosen ==> c in sorted[..j])
    && ByWeight(chosen) && (|chosen| > 0 ==> j > 0 && chosen[|chosen| - 1].w <= sorted[j - 1].w)
    && Inside(p, rk, bd, sorted, j)
    && |chosen| + |Roots(p)| == |g|
  }

  /** Before any edge: every node a set of its own and nothing chosen. */
  lemma Start(g: Graph, order: seq<int>, sorted: seq<WEdge>, p: map<int, int>, rk: map<int, int>, bd: int)
    requires IsEnumeration(order, g) && Singletons(p, rk, bd, order)
    ensures Progress(g, sorted, 0, p, rk, bd, [])
  {
    forall k
      ensures k in p.Keys <==> k in g.Keys
    {
    }
    assert p.Keys == g.Keys;
    assert |Roots(p)| == |g.Keys| == |g|;
    forall x | x in g
      ensures Find(p, rk, bd, x) == x
    {
      RootsMember(p, x);
    }
  }

  /** Considering edge `j`: `unionSet` on its ends, and the edge taken exactly when it merged. */
  lemma Step(g: Graph, sorted: seq<WEdge>, j: int, p: map<int, int>, rk: map<int, int>, bd: int, chosen: seq<WEdge>,
             p': map<int, int>, rk': map<int, int>, bd': int, merged: bool, chosen': seq<WEdge>, next: int)
    requires Progress(g, sorted, j, p, rk, bd, chosen) && j < |sorted| && ByWeight(sorted)
    requires UnionPost(p, rk, bd, p', rk', bd', sorted[j].u, sorted[j].v, merged)
    requires chosen' == (if merged then chosen + [sorted[j]] else chosen) && next == j + 1
    ensures Progress(g, sorted, next, p', rk', bd', chosen')
  {
    StepScanned(g, sorted, j, p, rk, bd, chosen, p', rk', bd', merged, chosen', next);
    StepComponents(g, p, rk, bd, chosen, p', rk', bd', sorted[j], merged, chosen');
    StepAcyclic(g, p, rk, bd, chosen, sorted[j], merged, chosen');
  }

  /** The counts and order after considering edge `j`. */
  lemma StepScanned(g: Graph, sorted: seq<WEdge>, j: int, p: map<int, int>, rk: map<int, int>, bd: int, chosen: seq<WEdge>,
                    p': map<int, int>, rk': map<int, int>, bd': int, merged: bool, chosen': seq<WEdge>, next: int)
    requires Scanned(g, sorted, j, p, rk, bd, chosen) && j < |sorted| && ByWeight(sorted)
    requires UnionPost(p, rk, bd, p', rk', bd', sorted[j].u, sorted[j].v, merged)
    requires chosen' == (if merged then chosen + [sorted[j]] else chosen) && next == j + 1
    ensures Scanned(g, sorted, next, p', rk', bd', chosen')
  {
    StillInside(p, rk, bd, p', rk', bd', sorted[j].u, sorted[j].v, merged, sorted, j, next);
    assert sorted[..next] == sorted[..j] + [sorted[j]];
    if merged {
      forall a, b | 0 <= a < b < |chosen'|
        ensures chosen'[a].w <= chosen'[b].w
      {
        if b < |chosen| {
          assert chosen'[a] == chosen[a] && chosen'[b] == chosen[b];
        } else if a < |chosen| {
          assert chosen[a].w <= chosen[|chosen| - 1].w;
        }
      }
    }
  }

  /** The components after `unionSet` on the ends of `e`: those of `chosen`, with `e` added exactly when it merged. */
  lemma StepComponents(g: Graph, p: map<int, int>, rk: map<int, int>, bd: int, chosen: seq<WEdge>,
                       p': map<int, int>, rk': map<int, int>, bd': int, e: WEdge, merged: bool, chosen': seq<WEdge>)
    requires Forest(p, rk, bd) && p.Keys == g.Keys && Components(g, p, rk, bd, chosen)
    requires UnionPost(p, rk, bd, p', rk', bd', e.u, e.v, merged)
    requires chosen' == if merged then chosen + [e] else chosen
    ensures Components(g, p', rk', bd', chosen')
  {
    var fu, fv, r := Find(p, rk, bd, e.u), Find(p, rk, bd, e.v), Find(p', rk', bd', e.u);
    forall x, y | x in g && y in g
      ensures Find(p', rk', bd', x) == Find(p', rk', bd', y) <==> Connected(chosen', x, y)
    {
      var fx, fy := Find(p, rk, bd, x), Find(p, rk, bd, y);
      assert Find(p', rk', bd', x) == if fx == fu || fx == fv then r else fx;
      assert Find(p', rk', bd', y) == if fy == fu || fy == fv then r else fy;
      if merged {
        ConnectedSnoc(chosen, e, x, y);
      }
    }
  }

  /** Connectivity through one more edge, by the definition. */
  lemma ConnectedSnoc(es: seq<WEdge>, e: WEdge, a: int, b: int)
    ensures Connected(es + [e], a, b) <==>
      || Connected(es, a, b)
      || (Connected(es, a, e.u) && Connected(es, e.v, b))
      || (Connected(es, a, e.v) && Connected(es, e.u, b))
  {
    assert (es + [e])[..|es|] == es;
  }

  /** An edge is taken only when it merged two sets, whose members the chosen edges did not connect. */
  lemma StepAcyclic(g: Graph, p: map<int, int>, rk: map<int, int>, bd: int, chosen: seq<WEdge>,
                    e: WEdge, merged: bool, chosen': seq<WEdge>)
    requires Forest(p, rk, bd) && p.Keys == g.Keys && Components(g, p, rk, bd, chosen) && Acyclic(chosen)
    requires e.u in p && e.v in p && (merged <==> Find(p, rk, bd, e.u) != Find(p, rk, bd, e.v))
    requires chosen' == if merged then chosen + [e] else chosen
    ensures Acyclic(chosen')
  {
    if merged {
      forall k | 0 <= k < |chosen'|
        ensures !Connected(chosen'[..k], chosen'[k].u, chosen'[k].v)
      {
        if k < |chosen| {
          assert chosen'[..k] == chosen[..k] && chosen'[k] == chosen[k];
        } else {
          assert chosen'[..k] == chosen && chosen'[k] == e;
        }
      }
    }
  }

  /**
   * What `runKruskal` ends with: the forest covers the nodes, the chosen
   * edges are taken from `sorted` in order of weight, every edge of `sorted`
   * ends inside one set, the chosen edges number the nodes less the
   * sets, so at most one fewer than the nodes, the sets are the components
   * of the chosen edges, and those edges form a forest.
   */
  ghost predicate Spanning(g: Graph, sorted: seq<WEdge>, p: map<int, int>, rk: map<int, int>, bd: int, chosen: seq<WEdge>) {
    && Forest(p, rk, bd) && p.Keys == g.Keys
    && (forall c :: c in chosen ==> c in sorted)
    && ByWeight(chosen)
    && Inside(p, rk, bd, sorted, |sorted|)
    && |chosen| + |Roots(p)| == |g|
    && (|g| > 0 ==> |chosen| <= |g| - 1)
    && Components(g, p, rk, bd, chosen) && Acyclic(chosen)
  }

  /** At the end the chosen edges connect the two ends of every edge of the list: no edge could join two of their components. */
  lemma SpanningConnects(g: Graph, sorted: seq<WEdge>, p: map<int, int>, rk: map<int, int>, bd: int, chosen: seq<WEdge>, e: WEdge)
    requires Spanning(g, sorted, p, rk, bd, chosen) && e in sorted
    ensures Connected(chosen, e.u, e.v)
  {
    var k :| 0 <= k < |sorted| && sorted[k] == e;
    assert Find(p, rk, bd, e.u) == Find(p, rk, bd, e.v);
  }

  /** After the last edge, the state is `Spanning`. */
  lemma Finish(g: Graph, order: seq<int>, sorted: seq<WEdge>, j: int, p: map<int, int>, rk: map<int, int>, bd: int, chosen: seq<WEdge>)
    requires IsEnumeration(order, g) && Progress(g, sorted, j, p, rk, bd, chosen) && j >= |sorted|
    ensures Spanning(g, sorted, p, rk, bd, chosen)
  {
    assert sorted[..j] == sorted;
    if |g| > 0 {
      assert order[0] in g;
      SomeRoot(p, rk, bd, order[0]);
    }
  }

  /** Taking one more edge adds its pair and its weight. */
  lemma Take(chosen: seq<WEdge>, e: WEdge)
    ensures Pairs(chosen + [e]) == Pairs(chosen) + [(e.u, e.v)]
    ensures Weight(chosen + [e]) == Weight(chosen) + e.w
  {
    assert (chosen + [e])[..|chosen|] == chosen;
  }

  /**
   * One turn of the loop of `runKruskal`: `unionSet` on the ends of edge `j`,
   * and the edge taken, with its weight added, exactly when that merged two sets.
   */
  method Consider(g: Graph, order: seq<int>, sorted: seq<WEdge>, j: int, next: int, dsu: Dsu,
                  total: int, mst: seq<(int, int)>, ghost chosen: seq<WEdge>)
    returns (total': int, mst': seq<(int, int)>, ghost chosen': seq<WEdge>)
    modifies dsu
    requires Closed(g) && IsEnumeration(order, g)
    requires ByWeight(sorted) && multiset(sorted) == multiset(UndirectedEdges(g, order))
    requires dsu.Valid() && Progress(g, sorted, j, dsu.parent, dsu.rank, dsu.bound, chosen) && j < |sorted| && next == j + 1
    requires mst == Pairs(chosen) && total == Weight(chosen)
    ensures dsu.Valid() && Progress(g, sorted, next, dsu.parent, dsu.rank, dsu.bound, chosen')
    ensures mst' == Pairs(chosen') && total' == Weight(chosen')
  {
    var e := sorted[j];
    EdgeOfGraph(g, order, sorted, e);
    ghost var p, rk, bd := dsu.parent, dsu.rank, dsu.bound;
    var merged := dsu.UnionSet(e.u, e.v);
    total', mst', chosen' := total, mst, chosen;
    if merged {
      Take(chosen, e);
      total', mst', chosen' := total + e.w, mst + [(e.u, e.v)], chosen + [e];
    }
    Step(g, sorted, j, p, rk, bd, chosen, dsu.parent, dsu.rank, dsu.bound, merged, chosen', next);
  }

  /**
   * `runKruskal(graph)` with the nodes visited in `order` and the collected
   * edges ordered as `sorted`. `chosen` are the edges it includes and `dsu`
   * the sets it ends with: every chosen edge is one of the graph's, each
   * joined two different sets when it was taken, every considered edge ends
   * inside one set, and the chosen edges number the nodes less the sets, so
   * they form a spanning forest (at most one edge fewer than the nodes).
   */
  method RunKruskal(g: Graph, order: seq<int>, sorted: seq<WEdge>) returns (total: int, mst: seq<(int, int)>, ghost chosen: seq<WEdge>, dsu: Dsu)
    requires Closed(g) && IsEnumeration(order, g)
    requires ByWeight(sorted) && multiset(sorted) == multiset(UndirectedEdges(g, order))
    ensures dsu.Valid() && Spanning(g, sorted, dsu.parent, dsu.rank, dsu.bound, chosen)
    ensures mst == Pairs(chosen) && total == Weight(chosen)
  {
    dsu := MakeSets(g, order);
    total, mst, chosen := 0, [], [];
    Start(g, order, sorted, dsu.parent, dsu.rank, dsu.bound);
    var j := 0;
    while j < |sorted|
      invariant dsu.Valid() && mst == Pairs(chosen) && total == Weight(chosen)
      invariant Progress(g, sorted, j, dsu.parent, dsu.rank, dsu.bound, chosen)
    {
      var next := j + 1;
      total, mst, chosen := Consider(g, order, sorted, j, next, dsu, total, mst, chosen);
      j := next;
    }
    Finish(g, order, sorted, j, dsu.parent, dsu.rank, dsu.bound, chosen);
  }
}
