/**
 * `runDijkstra(graph, start, end)`: distances from `start` by a priority
 * queue of `(distance, node)` entries, with stale entries skipped, then the
 * path to `end` read back through `prev`.
 *
 * Every graph `main` builds has each edge's far end as a key (`Closed`), and
 * the weights are required non-negative: with a negative edge the `prev`
 * links can form a cycle and the read-back loop does not end.
 */
module Dijkstra {
  import opened GreedyGraph
  import opened MinQueue

  ghost predicate NonNegative(g: Graph) {
    forall u, e :: u in g && e in g[u] ==> e.weight >= 0
  }

  /** What `runDijkstra` ends with. */
  datatype Outcome =
    | StartMissing                     // `graph.at(start)` throws: the start is not a node
    | NoPath                           // "No path to node <end>"
    | Path(path: seq<int>, cost: int)  // the final path and `dist[end]`

  /** Every edge out of a node of `xs` leads no further than a distance plus its weight. */
  ghost predicate RelaxedAt(g: Graph, dist: map<int, int>, xs: set<int>) {
    forall x, e :: x in xs && x in g && x in dist && e in g[x] && e.to in dist ==> dist[e.to] <= dist[x] + e.weight
  }

  /** One distance per node. */
  ghost predicate DistKeys(g: Graph, dist: map<int, int>) {
    forall x :: x in dist <==> x in g
  }

  /** Distances are never negative and never beyond `INF`. */
  ghost predicate DistBounds(dist: map<int, int>) {
    forall x :: x in dist ==> 0 <= dist[x] <= INF
  }

  /** Visited nodes are reached nodes, each with its turn `ord[x]` among the `n` visits so far. */
  ghost predicate VisOk(g: Graph, dist: map<int, int>, vis: set<int>, ord: map<int, nat>, n: nat) {
    forall x :: x in vis ==> x in g && x in dist && dist[x] < INF && x in ord && ord[x] < n
  }

  /** Every queued entry names a node and is no nearer than that node's distance. */
  ghost predicate QueueOk(g: Graph, dist: map<int, int>, pq: seq<Entry>) {
    forall i :: 0 <= i < |pq| ==> pq[i].1 in g && pq[i].1 in dist && dist[pq[i].1] <= pq[i].0 < INF
  }

  /** No visited node is further than any queued entry. */
  ghost predicate VisBelow(dist: map<int, int>, vis: set<int>, pq: seq<Entry>) {
    forall x, i :: x in vis && x in dist && 0 <= i < |pq| ==> dist[x] <= pq[i].0
  }

  /** A reached node not yet visited has its current distance queued. */
  ghost predicate Pending(g: Graph, dist: map<int, int>, vis: set<int>, pq: seq<Entry>) {
    forall y :: y in g && y in dist && y !in vis && dist[y] < INF ==> (dist[y], y) in pq
  }

  /** `prev` has an entry exactly for the reached nodes other than the start. */
  ghost predicate PrevIff(g: Graph, start: int, dist: map<int, int>, prev: map<int, int>) {
    forall v :: v in prev <==> v in g && v in dist && v != start && dist[v] < INF
  }

  /** Each `prev` link is an edge of weight `pw[v]` from a visited node, and the distances differ by it. */
  ghost predicate PrevOk(g: Graph, dist: map<int, int>, prev: map<int, int>, pw: map<int, int>, vis: set<int>) {
    forall v :: v in prev ==>
      v in pw && v in dist && prev[v] in vis && prev[v] in g && prev[v] in dist
      && Edge(v, pw[v]) in g[prev[v]] && dist[v] == dist[prev[v]] + pw[v]
  }

  /** A visited node was visited after the node its `prev` link comes from. */
  ghost predicate PrevOrd(prev: map<int, int>, vis: set<int>, ord: map<int, nat>) {
    forall v :: v in prev && v in vis && v in ord && prev[v] in ord ==> ord[prev[v]] < ord[v]
  }

  /**
   * What the main loop keeps, besides `RelaxedAt` of the visited nodes. `pw`
   * is the weight of the edge each `prev` link came by and `ord` the turn at
   * which each node was visited, out of `n` so far; both are ghost.
   */
  ghost predicate Base(g: Graph, start: int, dist: map<int, int>, prev: map<int, int>, pw: map<int, int>,
                       vis: set<int>, pq: seq<Entry>, ord: map<int, nat>, n: nat) {
    && start in g && start in dist && dist[start] == 0
    && DistKeys(g, dist) && DistBounds(dist)
    && VisOk(g, dist, vis, ord, n)
    && QueueOk(g, dist, pq) && VisBelow(dist, vis, pq) && Pending(g, dist, vis, pq)
    && PrevIff(g, start, dist, prev) && PrevOk(g, dist, prev, pw, vis) && PrevOrd(prev, vis, ord)
  }

  /** The invariant of the main loop. */
  ghost predicate Inv(g: Graph, start: int, dist: map<int, int>, prev: map<int, int>, pw: map<int, int>,
                      vis: set<int>, pq: seq<Entry>, ord: map<int, nat>, n: nat) {
    Base(g, start, dist, prev, pw, vis, pq, ord, n) && RelaxedAt(g, dist, vis)
  }

  /** No visited node is further than `u`. */
  ghost predicate Furthest(dist: map<int, int>, vis: set<int>, u: int) {
    u in dist && forall x :: x in vis && x in dist ==> dist[x] <= dist[u]
  }

  /** Just after `vis.insert(u)`: `u` is the furthest of the visited nodes, its edges not yet relaxed. */
  ghost predicate Ready(g: Graph, start: int, u: int, dist: map<int, int>, prev: map<int, int>, pw: map<int, int>,
                        vis: set<int>, pq: seq<Entry>, ord: map<int, nat>, n: nat) {
    && Base(g, start, dist, prev, pw, vis, pq, ord, n)
    && u in vis && u in g && Furthest(dist, vis, u)
    && RelaxedAt(g, dist, vis - {u})
  }

  /** The edges in `es[..i]` lead no further than `u`'s distance plus their weight. */
  ghost predicate Processed(dist: map<int, int>, u: int, es: seq<Edge>, i: int)
    requires 0 <= i <= |es|
  {
    forall e :: e in es[..i] && e.to in dist && u in dist ==> dist[e.to] <= dist[u] + e.weight
  }

  /** The invariant of the loop over `graph.at(u)`: the first `i` edges of `es` are relaxed. */
  ghost predicate Relaxing(g: Graph, start: int, u: int, es: seq<Edge>, i: int, dist: map<int, int>, prev: map<int, int>,
                           pw: map<int, int>, vis: set<int>, pq: seq<Entry>, ord: map<int, nat>, n: nat) {
    && Ready(g, start, u, dist, prev, pw, vis, pq, ord, n)
    && u in g && es == g[u] && 0 <= i <= |es|
    && (forall t :: 0 <= t < |es| ==> es[t].to in g)
    && Processed(dist, u, es, i)
  }

  /** After the main loop: every reached node visited, every visited node relaxed. */
  ghost predicate Done(g: Graph, start: int, dist: map<int, int>, prev: map<int, int>, pw: map<int, int>,
                       vis: set<int>, ord: map<int, nat>, n: nat) {
    && Base(g, start, dist, prev, pw, vis, [], ord, n)
    && RelaxedAt(g, dist, vis)
    && (forall x :: x in g ==> (x in vis <==> dist[x] < INF))
  }

  /**
   * The distances `runDijkstra` ends with: one per node, zero at the start,
   * none beyond `INF`, and no edge from a reached node leads further than
   * that node's distance plus the edge's weight.
   */
  ghost predicate Final(g: Graph, start: int, dist: map<int, int>) {
    && start in g
    && (forall x :: x in dist <==> x in g)
    && (forall x :: x in dist ==> 0 <= dist[x] <= INF)
    && dist[start] == 0
    && (forall x, e :: x in g && e in g[x] && dist[x] < INF && e.to in dist ==> dist[e.to] <= dist[x] + e.weight)
  }

  /**
   * The answer for `end`: no path exactly when `end` is not the start and
   * was not reached; otherwise a walk from `start` to `end` in `g` whose
   * weights `ws` add up to the reported cost, `dist[end]`.
   */
  ghost predicate Answer(g: Graph, start: int, end: int, dist: map<int, int>, r: Outcome, ws: seq<int>)
    requires Final(g, start, dist)
  {
    && (r.NoPath? <==> end != start && (end !in g || dist[end] == INF))
    && (r.Path? ==> end in g && IsWalk(g, r.path, ws) && r.path[0] == start && r.path[|r.path| - 1] == end
                    && r.cost == dist[end] && Sum(ws) == r.cost)
  }

  lemma Init(g: Graph, start: int, dist: map<int, int>)
    requires start in g && dist == (map x | x in g :: INF)[start := 0]
    ensures Inv(g, start, dist, map[], map[], {}, [(0, start)], map[], 0)
  {
    assert (dist[start], start) in [(0, start)];
  }

  /** The entry `top()` returns names a node, no nearer than that node's distance. */
  lemma PopFacts(g: Graph, start: int, dist: map<int, int>, prev: map<int, int>, pw: map<int, int>,
                 vis: set<int>, pq: seq<Entry>, ord: map<int, nat>, n: nat, k: int)
    requires Inv(g, start, dist, prev, pw, vis, pq, ord, n) && 0 <= k < |pq|
    ensures pq[k].1 in g && pq[k].1 in dist && dist[pq[k].1] <= pq[k].0
  {
    assert QueueOk(g, dist, pq);
  }

  /** What a smaller queue keeps of the facts about the queue. */
  lemma QueueShrink(g: Graph, dist: map<int, int>, vis: set<int>, pq: seq<Entry>, rest: seq<Entry>)
    requires QueueOk(g, dist, pq) && VisBelow(dist, vis, pq) && forall x :: x in rest ==> x in pq
    ensures QueueOk(g, dist, rest) && VisBelow(dist, vis, rest)
  {
    forall i | 0 <= i < |rest|
      ensures rest[i].1 in g && rest[i].1 in dist && dist[rest[i].1] <= rest[i].0 < INF
    {
      assert rest[i] in pq;
    }
    forall x, i | x in vis && x in dist && 0 <= i < |rest|
      ensures dist[x] <= rest[i].0
    {
      assert rest[i] in pq;
    }
  }

  /** Taking out entry `k` keeps `Pending` when that entry is stale or its node is now visited. */
  lemma PendingRemove(g: Graph, dist: map<int, int>, vis: set<int>, vis': set<int>, pq: seq<Entry>, k: int, rest: seq<Entry>)
    requires Pending(g, dist, vis, pq) && 0 <= k < |pq| && rest == RemoveAt(pq, k)
    requires vis <= vis' && (pq[k].1 in vis' || pq[k].1 !in dist || pq[k].0 != dist[pq[k].1])
    ensures Pending(g, dist, vis', rest)
  {
    forall y | y in g && y in dist && y !in vis' && dist[y] < INF
      ensures (dist[y], y) in rest
    {
      assert (dist[y], y) in pq;
    }
  }

  /** Dropping a stale entry, or one for a visited node, keeps the invariant. */
  lemma Skip(g: Graph, start: int, dist: map<int, int>, prev: map<int, int>, pw: map<int, int>,
             vis: set<int>, pq: seq<Entry>, ord: map<int, nat>, n: nat, k: int, rest: seq<Entry>)
    requires Inv(g, start, dist, prev, pw, vis, pq, ord, n) && 0 <= k < |pq| && rest == RemoveAt(pq, k)
    requires pq[k].1 in dist && (pq[k].0 > dist[pq[k].1] || pq[k].1 in vis)
    ensures Inv(g, start, dist, prev, pw, vis, rest, ord, n)
  {
    QueueShrink(g, dist, vis, pq, rest);
    PendingRemove(g, dist, vis, vis, pq, k, rest);
  }

  /** Visiting `u` adds it, with turn `n`, to the visited nodes. */
  lemma VisitOrd(g: Graph, dist: map<int, int>, prev: map<int, int>, pw: map<int, int>, vis: set<int>, ord: map<int, nat>, n: nat,
                 u: int, vis': set<int>, ord': map<int, nat>, n': nat)
    requires VisOk(g, dist, vis, ord, n) && PrevOk(g, dist, prev, pw, vis) && PrevOrd(prev, vis, ord)
    requires u in g && u in dist && dist[u] < INF && u !in vis
    requires vis' == vis + {u} && ord' == ord[u := n] && n' == n + 1
    ensures VisOk(g, dist, vis', ord', n') && PrevOk(g, dist, prev, pw, vis') && PrevOrd(prev, vis', ord')
  {
    forall v | v in prev && v in vis' && v in ord' && prev[v] in ord'
      ensures ord'[prev[v]] < ord'[v]
    {
      var x := prev[v];
      assert x in vis;
      assert x in ord && ord[x] < n;
      assert x != u;
      if v != u {
        assert v in vis && v in ord;
      }
    }
  }

  /** The node of a least entry is no nearer than any visited node or any other entry. */
  lemma VisitBelow(dist: map<int, int>, vis: set<int>, pq: seq<Entry>, k: int, rest: seq<Entry>, u: int, vis': set<int>)
    requires VisBelow(dist, vis, pq) && IsTop(pq, k) && rest == RemoveAt(pq, k)
    requires u == pq[k].1 && u in dist && dist[u] == pq[k].0 && vis' == vis + {u}
    ensures VisBelow(dist, vis', rest) && Furthest(dist, vis', u)
  {
    forall x, i | x in vis' && x in dist && 0 <= i < |rest|
      ensures dist[x] <= rest[i].0
    {
      assert rest[i] in pq;
      if x == u {
        assert LexLeq(pq[k], rest[i]);
      }
    }
    forall x | x in vis' && x in dist
      ensures dist[x] <= dist[u]
    {
      if x != u {
        assert dist[x] <= pq[k].0;
      }
    }
  }

  /** Visiting the node of a least, current entry. */
  lemma Visit(g: Graph, start: int, dist: map<int, int>, prev: map<int, int>, pw: map<int, int>,
              vis: set<int>, pq: seq<Entry>, ord: map<int, nat>, n: nat, k: int, rest: seq<Entry>,
              u: int, vis': set<int>, ord': map<int, nat>, n': nat)
    requires Inv(g, start, dist, prev, pw, vis, pq, ord, n) && IsTop(pq, k) && rest == RemoveAt(pq, k)
    requires u == pq[k].1 && u in dist && pq[k].0 <= dist[u] && u !in vis
    requires vis' == vis + {u} && ord' == ord[u := n] && n' == n + 1
    ensures Ready(g, start, u, dist, prev, pw, vis', rest, ord', n')
  {
    assert QueueOk(g, dist, pq) && VisBelow(dist, vis, pq);
    assert dist[u] == pq[k].0;
    VisitOrd(g, dist, prev, pw, vis, ord, n, u, vis', ord', n');
    QueueShrink(g, dist, vis, pq, rest);
    PendingRemove(g, dist, vis, vis', pq, k, rest);
    VisitBelow(dist, vis, pq, k, rest, u, vis');
    assert vis' - {u} == vis;
  }

  /** The first relaxation step: no edge relaxed yet. */
  lemma RelaxBegin(g: Graph, start: int, u: int, dist: map<int, int>, prev: map<int, int>, pw: map<int, int>,
                   vis: set<int>, pq: seq<Entry>, ord: map<int, nat>, n: nat)
    requires Closed(g) && Ready(g, start, u, dist, prev, pw, vis, pq, ord, n)
    ensures Relaxing(g, start, u, g[u], 0, dist, prev, pw, vis, pq, ord, n)
  {
  }

  /** Edge `i` leads no nearer: nothing changes but the count of relaxed edges. */
  lemma RelaxKeep(g: Graph, start: int, u: int, es: seq<Edge>, i: int, next: int, dist: map<int, int>, prev: map<int, int>,
                  pw: map<int, int>, vis: set<int>, pq: seq<Entry>, ord: map<int, nat>, n: nat)
    requires Relaxing(g, start, u, es, i, dist, prev, pw, vis, pq, ord, n) && i < |es| && next == i + 1
    requires es[i].to in dist && dist[u] + es[i].weight >= dist[es[i].to]
    ensures Relaxing(g, start, u, es, next, dist, prev, pw, vis, pq, ord, n)
  {
    assert es[..next] == es[..i] + [es[i]];
  }

  /** The node edge `i` leads to is not visited and is not the start, and the edge is not negative. */
  lemma Improvable(g: Graph, start: int, u: int, es: seq<Edge>, i: int, dist: map<int, int>, prev: map<int, int>,
                   pw: map<int, int>, vis: set<int>, pq: seq<Entry>, ord: map<int, nat>, n: nat)
    requires NonNegative(g) && Relaxing(g, start, u, es, i, dist, prev, pw, vis, pq, ord, n) && i < |es|
    requires es[i].to in dist && dist[u] + es[i].weight < dist[es[i].to]
    ensures es[i].to !in vis && es[i].to != start && es[i].to in g && es[i].weight >= 0 && es[i] in g[u]
    ensures 0 <= dist[u] + es[i].weight < INF && es[i].to != u
  {
    assert es[i] in g[u];
    assert DistBounds(dist) && Furthest(dist, vis, u);
  }

  /** An improvement keeps the distances of the other nodes. */
  lemma ImproveDist(g: Graph, start: int, dist: map<int, int>, v: int, dv: int, dist': map<int, int>)
    requires DistKeys(g, dist) && DistBounds(dist) && start in dist && dist[start] == 0
    requires v in g && v != start && 0 <= dv < INF && dist' == dist[v := dv]
    ensures DistKeys(g, dist') && DistBounds(dist') && start in dist' && dist'[start] == 0
  {
  }

  /** An improvement at an unvisited node keeps what is known of the visited ones. */
  lemma ImproveVis(g: Graph, dist: map<int, int>, vis: set<int>, ord: map<int, nat>, n: nat, u: int, v: int, dv: int, dist': map<int, int>)
    requires VisOk(g, dist, vis, ord, n) && Furthest(dist, vis, u) && v !in vis && u != v && dist' == dist[v := dv]
    ensures VisOk(g, dist', vis, ord, n) && Furthest(dist', vis, u)
  {
  }

  /** An improvement queues its new distance, no nearer than `u`'s. */
  lemma ImproveQueue(g: Graph, dist: map<int, int>, vis: set<int>, pq: seq<Entry>, u: int, v: int, dv: int, dist': map<int, int>, pq': seq<Entry>)
    requires QueueOk(g, dist, pq) && VisBelow(dist, vis, pq) && Pending(g, dist, vis, pq) && Furthest(dist, vis, u)
    requires v in g && v in dist && v !in vis && u != v && dist[u] <= dv < dist[v] && dv < INF
    requires dist' == dist[v := dv] && pq' == pq + [(dv, v)]
    ensures QueueOk(g, dist', pq') && VisBelow(dist', vis, pq') && Pending(g, dist', vis, pq')
  {
    forall i | 0 <= i < |pq'|
      ensures pq'[i].1 in g && pq'[i].1 in dist' && dist'[pq'[i].1] <= pq'[i].0 < INF
    {
      if i < |pq| {
        assert pq'[i] == pq[i];
      }
    }
    forall x, i | x in vis && x in dist' && 0 <= i < |pq'|
      ensures dist'[x] <= pq'[i].0
    {
      if i < |pq| {
        assert pq'[i] == pq[i];
      }
    }
    forall y | y in g && y in dist' && y !in vis && dist'[y] < INF
      ensures (dist'[y], y) in pq'
    {
      if y != v {
        assert (dist[y], y) in pq;
      }
    }
  }

  /** An improvement links `v` to `u` by the edge it came by. */
  lemma ImprovePrev(g: Graph, start: int, dist: map<int, int>, prev: map<int, int>, pw: map<int, int>, vis: set<int>, ord: map<int, nat>,
                    u: int, v: int, w: int, dv: int, dist': map<int, int>, prev': map<int, int>, pw': map<int, int>)
    requires PrevIff(g, start, dist, prev) && PrevOk(g, dist, prev, pw, vis) && PrevOrd(prev, vis, ord)
    requires u in vis && u in g && u in dist && v in g && v != start && v !in vis && u != v
    requires Edge(v, w) in g[u] && dv == dist[u] + w && dv < INF
    requires dist' == dist[v := dv] && prev' == prev[v := u] && pw' == pw[v := w]
    ensures PrevIff(g, start, dist', prev') && PrevOk(g, dist', prev', pw', vis) && PrevOrd(prev', vis, ord)
  {
    forall y | y in prev'
      ensures y in pw' && y in dist' && prev'[y] in vis && prev'[y] in g && prev'[y] in dist'
              && Edge(y, pw'[y]) in g[prev'[y]] && dist'[y] == dist'[prev'[y]] + pw'[y]
    {
      if y != v {
        assert prev'[y] == prev[y] && prev[y] in vis;
      }
    }
  }

  /** An improvement at an unvisited node keeps the relaxed visited nodes relaxed. */
  lemma ImproveRelaxed(g: Graph, dist: map<int, int>, xs: set<int>, v: int, dv: int, dist': map<int, int>)
    requires RelaxedAt(g, dist, xs) && v !in xs && v in dist && dv < dist[v] && dist' == dist[v := dv]
    ensures RelaxedAt(g, dist', xs)
  {
  }

  /** An improvement by edge `i` relaxes it and keeps the earlier ones relaxed. */
  lemma ImproveProcessed(dist: map<int, int>, u: int, es: seq<Edge>, i: int, next: int, v: int, dv: int, dist': map<int, int>)
    requires 0 <= i < |es| && next == i + 1 && Processed(dist, u, es, i) && u in dist
    requires v == es[i].to && v in dist && u != v && dv == dist[u] + es[i].weight && dv < dist[v] && dist' == dist[v := dv]
    ensures Processed(dist', u, es, next)
  {
    assert es[..next] == es[..i] + [es[i]];
  }

  /** Edge `i` leads nearer: its end gets the shorter distance, `u` as `prev` and a new entry. */
  lemma RelaxImprove(g: Graph, start: int, u: int, es: seq<Edge>, i: int, next: int, dist: map<int, int>, prev: map<int, int>,
                     pw: map<int, int>, vis: set<int>, pq: seq<Entry>, ord: map<int, nat>, n: nat,
                     v: int, dv: int, dist': map<int, int>, prev': map<int, int>, pw': map<int, int>, pq': seq<Entry>)
    requires NonNegative(g) && Relaxing(g, start, u, es, i, dist, prev, pw, vis, pq, ord, n) && i < |es| && next == i + 1
    requires v == es[i].to && v in dist && dv == dist[u] + es[i].weight && dv < dist[v]
    requires dist' == dist[v := dv] && prev' == prev[v := u] && pw' == pw[v := es[i].weight] && pq' == pq + [(dv, v)]
    ensures Relaxing(g, start, u, es, next, dist', prev', pw', vis, pq', ord, n)
  {
    Improvable(g, start, u, es, i, dist, prev, pw, vis, pq, ord, n);
    ImproveDist(g, start, dist, v, dv, dist');
    ImproveVis(g, dist, vis, ord, n, u, v, dv, dist');
    ImproveQueue(g, dist, vis, pq, u, v, dv, dist', pq');
    ImprovePrev(g, start, dist, prev, pw, vis, ord, u, v, es[i].weight, dv, dist', prev', pw');
    ImproveRelaxed(g, dist, vis - {u}, v, dv, dist');
    ImproveProcessed(dist, u, es, i, next, v, dv, dist');
  }

  /** All of `graph.at(u)` relaxed: the main loop's invariant again. */
  lemma RelaxEnd(g: Graph, start: int, u: int, es: seq<Edge>, dist: map<int, int>, prev: map<int, int>,
                 pw: map<int, int>, vis: set<int>, pq: seq<Entry>, ord: map<int, nat>, n: nat)
    requires Relaxing(g, start, u, es, |es|, dist, prev, pw, vis, pq, ord, n)
    ensures Inv(g, start, dist, prev, pw, vis, pq, ord, n)
  {
    assert es[..|es|] == es;
    assert RelaxedAt(g, dist, vis - {u}) && Processed(dist, u, es, |es|);
  }

  /** The loop over `graph.at(u)`: `if (dist[u]+w < dist[v]) { dist[v]=dist[u]+w; prev[v]=u; pq.push({dist[v],v}); }`. */
  /** No distance of `d0` went up in `d`, and no node was added or dropped. */
  ghost predicate Lowered(d0: map<int, int>, d: map<int, int>) {
    d.Keys == d0.Keys && forall x :: x in d0 ==> d[x] <= d0[x]
  }

  /** Lowering one distance keeps `Lowered`. */
  lemma LowerOne(d0: map<int, int>, d: map<int, int>, v: int, dv: int)
    requires Lowered(d0, d) && v in d && dv < d[v]
    ensures Lowered(d0, d[v := dv])
  {
  }

  method Relax(g: Graph, ghost start: int, u: int, dist0: map<int, int>, prev0: map<int, int>, ghost pw0: map<int, int>,
               ghost vis: set<int>, pq0: seq<Entry>, ghost ord: map<int, nat>, ghost n: nat)
    returns (dist: map<int, int>, prev: map<int, int>, ghost pw: map<int, int>, pq: seq<Entry>)
    requires Closed(g) && NonNegative(g) && Ready(g, start, u, dist0, prev0, pw0, vis, pq0, ord, n)
    ensures Inv(g, start, dist, prev, pw, vis, pq, ord, n) && Lowered(dist0, dist)
  {
    RelaxBegin(g, start, u, dist0, prev0, pw0, vis, pq0, ord, n);
    var es := g[u];
    dist, prev, pw, pq := dist0, prev0, pw0, pq0;
    var i := 0;
    while i < |es|
      invariant Relaxing(g, start, u, es, i, dist, prev, pw, vis, pq, ord, n)
      invariant Lowered(dist0, dist)
    {
      var v, w := es[i].to, es[i].weight;
      var next := i + 1;
      if dist[u] + w < dist[v] {
        var dv := dist[u] + w;
        RelaxImprove(g, start, u, es, i, next, dist, prev, pw, vis, pq, ord, n,
                     v, dv, dist[v := dv], prev[v := u], pw[v := w], pq + [(dv, v)]);
        LowerOne(dist0, dist, v, dv);
        dist := dist[v := dv];
        prev := prev[v := u];
        pw := pw[v := w];
        pq := pq + [(dv, v)];
      } else {
        RelaxKeep(g, start, u, es, i, next, dist, prev, pw, vis, pq, ord, n);
      }
      i := next;
    }
    RelaxEnd(g, start, u, es, dist, prev, pw, vis, pq, ord, n);
  }

  /** With the queue empty, every node with a finite distance has been visited. */
  lemma Exhausted(g: Graph, start: int, dist: map<int, int>, prev: map<int, int>, pw: map<int, int>,
                  vis: set<int>, ord: map<int, nat>, n: nat)
    requires Inv(g, start, dist, prev, pw, vis, [], ord, n)
    ensures Done(g, start, dist, prev, pw, vis, ord, n) && Final(g, start, dist)
  {
    assert Pending(g, dist, vis, []) && VisOk(g, dist, vis, ord, n);
    forall x | x in g
      ensures x in vis <==> dist[x] < INF
    {
    }
  }

  /** Reading back: `[cur] + path` is a walk to `end`, its weights `ws` summing to what `cur` lacks of `dist[end]`. */
  ghost predicate Walking(g: Graph, start: int, end: int, dist: map<int, int>, prev: map<int, int>, pw: map<int, int>,
                          vis: set<int>, ord: map<int, nat>, n: nat, cur: int, path: seq<int>, ws: seq<int>) {
    && Done(g, start, dist, prev, pw, vis, ord, n)
    && cur in vis && end in dist
    && IsWalk(g, [cur] + path, ws) && ([cur] + path)[|path|] == end
    && Sum(ws) + dist[cur] == dist[end]
  }

  lemma WalkBegin(g: Graph, start: int, end: int, dist: map<int, int>, prev: map<int, int>, pw: map<int, int>,
                  vis: set<int>, ord: map<int, nat>, n: nat)
    requires Done(g, start, dist, prev, pw, vis, ord, n) && (end in prev || end == start)
    ensures Walking(g, start, end, dist, prev, pw, vis, ord, n, end, [], [])
  {
  }

  /** `path.push_back(cur); cur = prev[cur];`: one step back along `prev`, to an earlier-visited node. */
  lemma WalkBack(g: Graph, start: int, end: int, dist: map<int, int>, prev: map<int, int>, pw: map<int, int>,
                 vis: set<int>, ord: map<int, nat>, n: nat, cur: int, path: seq<int>, ws: seq<int>)
    requires Walking(g, start, end, dist, prev, pw, vis, ord, n, cur, path, ws) && cur != start
    ensures cur in prev && cur in pw && prev[cur] in vis && cur in ord && prev[cur] in ord && ord[prev[cur]] < ord[cur]
    ensures Walking(g, start, end, dist, prev, pw, vis, ord, n, prev[cur], [cur] + path, [pw[cur]] + ws)
  {
    var p, w := prev[cur], pw[cur];
    SumCons(w, ws);
    var q, q' := [cur] + path, [p] + ([cur] + path);
    forall i | 0 <= i < |[w] + ws|
      ensures q'[i] in g && Edge(q'[i + 1], ([w] + ws)[i]) in g[q'[i]]
    {
      if i > 0 {
        assert q'[i] == q[i - 1] && q'[i + 1] == q[i] && ([w] + ws)[i] == ws[i - 1];
      }
    }
  }

  lemma WalkEnd(g: Graph, start: int, end: int, dist: map<int, int>, prev: map<int, int>, pw: map<int, int>,
                vis: set<int>, ord: map<int, nat>, n: nat, path: seq<int>, ws: seq<int>)
    requires Walking(g, start, end, dist, prev, pw, vis, ord, n, start, path, ws)
    ensures end in g && IsWalk(g, [start] + path, ws) && ([start] + path)[|path|] == end && Sum(ws) == dist[end]
  {
  }

  /** Whether `end` has a `prev` link or is the start: what the read-back test decides. */
  lemma Reached(g: Graph, start: int, end: int, dist: map<int, int>, prev: map<int, int>, pw: map<int, int>,
                vis: set<int>, ord: map<int, nat>, n: nat)
    requires Done(g, start, dist, prev, pw, vis, ord, n)
    ensures (end !in prev && end != start) <==> end != start && (end !in g || dist[end] == INF)
  {
    assert PrevIff(g, start, dist, prev) && DistBounds(dist);
  }

  /** The main loop of `runDijkstra`: pop entries until the queue is empty. */
  method Settle(g: Graph, start: int)
    returns (dist: map<int, int>, prev: map<int, int>, ghost pw: map<int, int>, vis: set<int>, ghost ord: map<int, nat>, ghost n: nat)
    requires Closed(g) && NonNegative(g) && start in g
    ensures Done(g, start, dist, prev, pw, vis, ord, n) && Final(g, start, dist)
    ensures Lowered((map x | x in g :: INF)[start := 0], dist)
  {
    // `for (auto& [n,_]: graph) dist[n] = INT_MAX;` builds this map, whatever the visiting order.
    dist := (map x | x in g :: INF)[start := 0];
    ghost var init := dist;
    var pq: seq<Entry>;
    prev, vis, pq := map[], {}, [(0, start)];
    pw, ord, n := map[], map[], 0;
    Init(g, start, dist);
    while |pq| > 0
      invariant Inv(g, start, dist, prev, pw, vis, pq, ord, n) && Lowered(init, dist)
      decreases g.Keys - vis, |pq|
    {
      var k := Top(pq);
      var d, u := pq[k].0, pq[k].1;
      var rest := RemoveAt(pq, k);
      PopFacts(g, start, dist, prev, pw, vis, pq, ord, n, k);
      if d > dist[u] {
        Skip(g, start, dist, prev, pw, vis, pq, ord, n, k, rest);
        pq := rest;
      } else if u in vis {
        Skip(g, start, dist, prev, pw, vis, pq, ord, n, k, rest);
        pq := rest;
      } else {
        Visit(g, start, dist, prev, pw, vis, pq, ord, n, k, rest, u, vis + {u}, ord[u := n], n + 1);
        vis, ord, n := vis + {u}, ord[u := n], n + 1;
        dist, prev, pw, pq := Relax(g, start, u, dist, prev, pw, vis, rest, ord, n);
      }
    }
    Exhausted(g, start, dist, prev, pw, vis, ord, n);
  }

  /**
   * `while(cur!=start){ path.push_back(cur); cur=prev[cur]; }` and the
   * reversal after it: pushing each node and reversing at the end builds the
   * sequence that prepending each node builds.
   */
  method ReadBack(g: Graph, start: int, end: int, dist: map<int, int>, prev: map<int, int>, ghost pw: map<int, int>,
                  ghost vis: set<int>, ghost ord: map<int, nat>, ghost n: nat)
    returns (path: seq<int>, ghost ws: seq<int>)
    requires Done(g, start, dist, prev, pw, vis, ord, n) && (end in prev || end == start)
    ensures end in g && end in dist && IsWalk(g, path, ws) && path[0] == start && path[|path| - 1] == end && Sum(ws) == dist[end]
  {
    WalkBegin(g, start, end, dist, prev, pw, vis, ord, n);
    var cur := end;
    path, ws := [], [];
    while cur != start
      invariant Walking(g, start, end, dist, prev, pw, vis, ord, n, cur, path, ws)
      decreases if cur in ord then ord[cur] else 0
    {
      WalkBack(g, start, end, dist, prev, pw, vis, ord, n, cur, path, ws);
      path, ws := [cur] + path, [pw[cur]] + ws;
      cur := prev[cur];
    }
    WalkEnd(g, start, end, dist, prev, pw, vis, ord, n, path, ws);
    path := [start] + path;
  }

  /**
   * `runDijkstra(graph, start, end)`. The edge lists, and so the order in
   * which equal entries and edges are met, are those of `g`.
   */
  method RunDijkstra(g: Graph, start: int, end: int) returns (r: Outcome, dist: map<int, int>, ghost ws: seq<int>)
    requires Closed(g) && NonNegative(g)
    ensures r.StartMissing? <==> start !in g
    ensures start in g ==> Final(g, start, dist) && Answer(g, start, end, dist, r, ws)
  {
    if start !in g {
      return StartMissing, map[], [];
    }
    var prev, vis;
    ghost var pw, ord, n;
    dist, prev, pw, vis, ord, n := Settle(g, start);
    Reached(g, start, end, dist, prev, pw, vis, ord, n);
    if end !in prev && end != start {
      return NoPath, dist, [];
    }
    var path;
    path, ws := ReadBack(g, start, end, dist, prev, pw, vis, ord, n);
    r := Path(path, dist[end]);
  }

  /**
   * No walk from the start is shorter than the distance found for its last
   * node: a walk lighter than `INF` ends at a node whose distance is at most
   * the walk's weight.
   */
  lemma {:induction false} NoShorterWalk(g: Graph, start: int, dist: map<int, int>, p: seq<int>, ws: seq<int>)
    requires Closed(g) && NonNegative(g) && Final(g, start, dist)
    requires IsWalk(g, p, ws) && p[0] == start && Sum(ws) < INF
    ensures p[|p| - 1] in dist && dist[p[|p| - 1]] <= Sum(ws)
    decreases |ws|
  {
    var m := |ws|;
    if m > 0 {
      var p', ws' := p[..m], ws[..m - 1];
      assert IsWalk(g, p', ws') by {
        forall i | 0 <= i < |ws'|
          ensures p'[i] in g && Edge(p'[i + 1], ws'[i]) in g[p'[i]]
        {
          assert p'[i] == p[i] && p'[i + 1] == p[i + 1] && ws'[i] == ws[i];
        }
      }
      assert p[m - 1] in g && Edge(p[m], ws[m - 1]) in g[p[m - 1]];
      assert Sum(ws) == Sum(ws') + ws[m - 1];
      assert ws[m - 1] >= 0;
      NoShorterWalk(g, start, dist, p', ws');
      assert p'[m - 1] == p[m - 1];
    }
  }

  /** A path `runDijkstra` reports is a shortest walk: no walk from the start to `end` weighs less. */
  lemma ShortestPath(g: Graph, start: int, end: int, dist: map<int, int>, r: Outcome, ws: seq<int>, p: seq<int>, ws': seq<int>)
    requires Closed(g) && NonNegative(g) && Final(g, start, dist) && Answer(g, start, end, dist, r, ws) && r.Path?
    requires IsWalk(g, p, ws') && p[0] == start && p[|p| - 1] == end
    ensures r.cost <= Sum(ws')
  {
    if Sum(ws') < INF {
      NoShorterWalk(g, start, dist, p, ws');
    } else {
      assert r.cost == dist[end] <= INF;
    }
  }

  /** When `runDijkstra` reports no path, every walk from the start to `end` weighs `INF` or more. */
  lemma NoPathUnreachable(g: Graph, start: int, end: int, dist: map<int, int>, r: Outcome, ws: seq<int>, p: seq<int>, ws': seq<int>)
    requires Closed(g) && NonNegative(g) && Final(g, start, dist) && Answer(g, start, end, dist, r, ws) && r.NoPath?
    requires IsWalk(g, p, ws') && p[0] == start && p[|p| - 1] == end
    ensures Sum(ws') >= INF
  {
    if Sum(ws') < INF {
      NoShorterWalk(g, start, dist, p, ws');
    }
  }

  /** `h` gives every node a potential that no edge rises above its weight. */
  ghost predicate Feasible(g: Graph, h: map<int, int>) {
    forall u, e :: u in g && e in g[u] ==> u in h && e.to in h && h[e.to] - h[u] <= e.weight
  }

  /** A feasible potential bounds every walk from below: no walk weighs less than the rise of the potential along it. */
  lemma {:induction false} PotentialBound(g: Graph, h: map<int, int>, p: seq<int>, ws: seq<int>)
    requires Feasible(g, h) && IsWalk(g, p, ws) && p[0] in h
    ensures p[|p| - 1] in h && Sum(ws) >= h[p[|p| - 1]] - h[p[0]]
    decreases |ws|
  {
    var m := |ws|;
    if m > 0 {
      var p', ws' := p[..m], ws[..m - 1];
      assert IsWalk(g, p', ws') by {
        forall i | 0 <= i < |ws'|
          ensures p'[i] in g && Edge(p'[i + 1], ws'[i]) in g[p'[i]]
        {
          assert p'[i] == p[i] && p'[i + 1] == p[i + 1] && ws'[i] == ws[i];
        }
      }
      PotentialBound(g, h, p', ws');
      assert p'[m - 1] == p[m - 1] && p'[0] == p[0];
      assert p[m - 1] in g && Edge(p[m], ws[m - 1]) in g[p[m - 1]];
      assert Sum(ws) == Sum(ws') + ws[m - 1];
    }
  }
}
