/**
 * `runPrims(graph, start)`: grow a tree from `start`, each time including
 * the node of the least `(key, node)` entry not yet in it, adding the edge
 * from its `parent` and its key to the total, then lowering the keys of its
 * neighbours outside the tree.
 *
 * `inMST` is an `unordered_map<int,bool>` whose lookups insert `false`; the
 * model keeps the set of nodes mapped to `true`.
 */
module Prim {
  import opened GreedyGraph
  import opened MinQueue

  /** What `runPrims` ends with. */
  datatype Outcome =
    | StartMissing                                // `graph.at(start)` throws: the start is not a node
    | Tree(total: int, mst: seq<(int, int)>)      // `printFinalMST(total, mst)`

  /** One key per node. */
  ghost predicate KeyKeys(g: Graph, key: map<int, int>) {
    forall x :: x in key <==> x in g
  }

  /** No key is beyond `INF`. */
  ghost predicate KeyBounds(key: map<int, int>) {
    forall x :: x in key ==> key[x] <= INF
  }

  /** `incl` lists the nodes of the tree once each, in the order they were included. */
  ghost predicate Included(g: Graph, inMST: set<int>, incl: seq<int>) {
    && (forall x :: x in inMST <==> x in incl)
    && (forall i, j :: 0 <= i < j < |incl| ==> incl[i] != incl[j])
    && (forall i :: 0 <= i < |incl| ==> incl[i] in g)
  }

  /** Every queued entry names a node and is no lower than that node's key. */
  ghost predicate QueueOk(g: Graph, key: map<int, int>, pq: seq<Entry>) {
    forall i :: 0 <= i < |pq| ==> pq[i].1 in g && pq[i].1 in key && key[pq[i].1] <= pq[i].0 < INF
  }

  /** A node outside the tree with a finite key has that key queued. */
  ghost predicate Pending(g: Graph, key: map<int, int>, inMST: set<int>, pq: seq<Entry>) {
    forall y :: y in g && y in key && y !in inMST && key[y] < INF ==> (key[y], y) in pq
  }

  /** `parent` has an entry exactly for the nodes other than the start whose key is finite. */
  ghost predicate ParentIff(g: Graph, start: int, key: map<int, int>, parent: map<int, int>) {
    forall v :: v in parent <==> v in g && v in key && v != start && key[v] < INF
  }

  /** Each `parent` link is an edge, of weight the node's key, from a node of the tree. */
  ghost predicate ParentOk(g: Graph, key: map<int, int>, parent: map<int, int>, inMST: set<int>) {
    forall v :: v in parent ==> v in key && parent[v] in inMST && parent[v] in g && Edge(v, key[v]) in g[parent[v]]
  }

  /** Before the first inclusion the queue holds just `(0, start)`; after it the start comes first. */
  ghost predicate Begun(start: int, incl: seq<int>, pq: seq<Entry>) {
    && (|incl| == 0 ==> pq == [(0, start)])
    && (|incl| > 0 ==> incl[0] == start)
  }

  /**
   * The tree so far: one `mst` pair per included node after the start, from
   * a node included before it by an edge of weight `ws[i]`, and `total` the
   * sum of those weights.
   */
  ghost predicate TreeOk(g: Graph, incl: seq<int>, mst: seq<(int, int)>, ws: seq<int>, total: int) {
    && (if |incl| == 0 then |mst| == 0 else |mst| == |incl| - 1)
    && |ws| == |mst|
    && (forall i :: 0 <= i < |mst| ==>
          mst[i].1 == incl[i + 1] && mst[i].0 in incl[..i + 1] && mst[i].0 in g && Edge(incl[i + 1], ws[i]) in g[mst[i].0])
    && total == Sum(ws)
  }

  /** What the main loop keeps, besides `RelaxedAt` of the tree's nodes. */
  ghost predicate Base(g: Graph, start: int, key: map<int, int>, parent: map<int, int>, inMST: set<int>, pq: seq<Entry>,
                       incl: seq<int>, mst: seq<(int, int)>, ws: seq<int>, total: int) {
    && start in g && start in key
    && KeyKeys(g, key) && KeyBounds(key)
    && Included(g, inMST, incl)
    && QueueOk(g, key, pq) && Pending(g, key, inMST, pq)
    && ParentIff(g, start, key, parent) && ParentOk(g, key, parent, inMST)
    && Begun(start, incl, pq)
    && TreeOk(g, incl, mst, ws, total)
  }

  /** Every edge out of a node of `xs` leads into the tree or to a key no higher than its weight. */
  ghost predicate RelaxedAt(g: Graph, key: map<int, int>, inMST: set<int>, xs: set<int>) {
    forall x, e :: x in xs && x in g && e in g[x] ==> e.to in inMST || (e.to in key && key[e.to] <= e.weight)
  }

  /** The invariant of the main loop. */
  ghost predicate Inv(g: Graph, start: int, key: map<int, int>, parent: map<int, int>, inMST: set<int>, pq: seq<Entry>,
                      incl: seq<int>, mst: seq<(int, int)>, ws: seq<int>, total: int) {
    Base(g, start, key, parent, inMST, pq, incl, mst, ws, total) && RelaxedAt(g, key, inMST, inMST)
  }

  /** Just after `u` is included: its edges not yet considered. */
  ghost predicate Ready(g: Graph, start: int, u: int, key: map<int, int>, parent: map<int, int>, inMST: set<int>, pq: seq<Entry>,
                        incl: seq<int>, mst: seq<(int, int)>, ws: seq<int>, total: int) {
    && Base(g, start, key, parent, inMST, pq, incl, mst, ws, total)
    && u in inMST && u in g && |incl| > 0
    && RelaxedAt(g, key, inMST, inMST - {u})
  }

  /** The edges in `es[..i]` lead into the tree or to a key no higher than their weight. */
  ghost predicate Processed(key: map<int, int>, inMST: set<int>, es: seq<Edge>, i: int)
    requires 0 <= i <= |es|
  {
    forall e :: e in es[..i] ==> e.to in inMST || (e.to in key && key[e.to] <= e.weight)
  }

  /** The invariant of the loop over `graph.at(u)`. */
  ghost predicate Relaxing(g: Graph, start: int, u: int, es: seq<Edge>, i: int, key: map<int, int>, parent: map<int, int>,
                           inMST: set<int>, pq: seq<Entry>, incl: seq<int>, mst: seq<(int, int)>, ws: seq<int>, total: int) {
    && Ready(g, start, u, key, parent, inMST, pq, incl, mst, ws, total)
    && es == g[u] && 0 <= i <= |es|
    && (forall t :: 0 <= t < |es| ==> es[t].to in g)
    && Processed(key, inMST, es, i)
  }

  /**
   * What `runPrims` ends with: the included nodes, once each and the start
   * first; one `mst` pair per node after the start, joining it by an edge of
   * `g` of weight `ws[i]` to a node included before it; `total` the sum of
   * those weights; and no edge lighter than `INF` leaves the tree.
   */
  ghost predicate Spanning(g: Graph, start: int, total: int, mst: seq<(int, int)>, incl: seq<int>, ws: seq<int>) {
    && |incl| > 0 && incl[0] == start
    && (forall i, j :: 0 <= i < j < |incl| ==> incl[i] != incl[j])
    && (forall i :: 0 <= i < |incl| ==> incl[i] in g)
    && |mst| == |incl| - 1 && |ws| == |mst|
    && (forall i :: 0 <= i < |mst| ==>
          mst[i].1 == incl[i + 1] && mst[i].0 in incl[..i + 1] && mst[i].0 in g && Edge(incl[i + 1], ws[i]) in g[mst[i].0])
    && total == Sum(ws)
    && (forall x, e :: x in incl && x in g && e in g[x] && e.weight < INF ==> e.to in incl)
  }

  lemma Init(g: Graph, start: int, key: map<int, int>)
    requires start in g && key == (map x | x in g :: INF)[start := 0]
    ensures Inv(g, start, key, map[], {}, [(0, start)], [], [], [], 0)
  {
    assert (key[start], start) in [(0, start)];
  }

  /** The entry `top()` returns names a node, no lower than its key. */
  lemma PopFacts(g: Graph, start: int, key: map<int, int>, parent: map<int, int>, inMST: set<int>, pq: seq<Entry>,
                 incl: seq<int>, mst: seq<(int, int)>, ws: seq<int>, total: int, k: int)
    requires Inv(g, start, key, parent, inMST, pq, incl, mst, ws, total) && 0 <= k < |pq|
    ensures pq[k].1 in g && pq[k].1 in key && key[pq[k].1] <= pq[k].0 < INF
  {
    assert QueueOk(g, key, pq);
  }

  /** What a smaller queue keeps of the facts about the queue. */
  lemma QueueShrink(g: Graph, key: map<int, int>, pq: seq<Entry>, rest: seq<Entry>)
    requires QueueOk(g, key, pq) && forall x :: x in rest ==> x in pq
    ensures QueueOk(g, key, rest)
  {
    forall i | 0 <= i < |rest|
      ensures rest[i].1 in g && rest[i].1 in key && key[rest[i].1] <= rest[i].0 < INF
    {
      assert rest[i] in pq;
    }
  }

  /** Taking out entry `k` keeps `Pending` once its node is in the tree. */
  lemma PendingRemove(g: Graph, key: map<int, int>, inMST: set<int>, inMST': set<int>, pq: seq<Entry>, k: int, rest: seq<Entry>)
    requires Pending(g, key, inMST, pq) && 0 <= k < |pq| && rest == RemoveAt(pq, k)
    requires inMST <= inMST' && pq[k].1 in inMST'
    ensures Pending(g, key, inMST', rest)
  {
    forall y | y in g && y in key && y !in inMST' && key[y] < INF
      ensures (key[y], y) in rest
    {
      assert (key[y], y) in pq;
    }
  }

  /** Dropping an entry whose node is already in the tree keeps the invariant. */
  lemma Skip(g: Graph, start: int, key: map<int, int>, parent: map<int, int>, inMST: set<int>, pq: seq<Entry>,
             incl: seq<int>, mst: seq<(int, int)>, ws: seq<int>, total: int, k: int, rest: seq<Entry>)
    requires Inv(g, start, key, parent, inMST, pq, incl, mst, ws, total) && 0 <= k < |pq| && rest == RemoveAt(pq, k)
    requires pq[k].1 in inMST
    ensures Inv(g, start, key, parent, inMST, rest, incl, mst, ws, total)
  {
    QueueShrink(g, key, pq, rest);
    PendingRemove(g, key, inMST, inMST, pq, k, rest);
    var y := pq[k].1;
    assert y in inMST;
    assert Included(g, inMST, incl);
    assert y in incl;
  }

  /**
   * The least entry of a node outside the tree carries that node's key: the
   * start's `0` before anything is included, and otherwise the weight of
   * the edge from the node's parent, which is in the tree.
   */
  lemma PopCost(g: Graph, start: int, key: map<int, int>, parent: map<int, int>, inMST: set<int>, pq: seq<Entry>,
                incl: seq<int>, mst: seq<(int, int)>, ws: seq<int>, total: int, k: int)
    requires Inv(g, start, key, parent, inMST, pq, incl, mst, ws, total) && IsTop(pq, k) && pq[k].1 !in inMST
    ensures pq[k].1 in key && pq[k].0 == key[pq[k].1] < INF
    ensures pq[k].1 == start <==> |incl| == 0
    ensures pq[k].1 == start ==> pq[k].0 == 0
    ensures pq[k].1 != start ==> pq[k].1 in parent && parent[pq[k].1] in inMST
  {
    var u := pq[k].1;
    assert QueueOk(g, key, pq) && Pending(g, key, inMST, pq);
    assert (key[u], u) in pq;
    assert LexLeq(pq[k], (key[u], u));
    if |incl| > 0 {
      assert start in inMST;
    }
  }

  /** Including `u` keeps the listing of the tree's nodes. */
  lemma IncludeSet(g: Graph, inMST: set<int>, incl: seq<int>, u: int, inMST': set<int>, incl': seq<int>)
    requires Included(g, inMST, incl) && u in g && u !in inMST && inMST' == inMST + {u} && incl' == incl + [u]
    ensures Included(g, inMST', incl')
  {
    forall i, j | 0 <= i < j < |incl'|
      ensures incl'[i] != incl'[j]
    {
      if j == |incl| {
        assert incl'[i] == incl[i];
      }
    }
  }

  /** A new node joined by an edge of weight `cost` from a node already in the tree extends it by one pair. */
  lemma TreeExtend(g: Graph, incl: seq<int>, mst: seq<(int, int)>, ws: seq<int>, total: int, u: int, p: int, cost: int)
    requires TreeOk(g, incl, mst, ws, total) && |incl| > 0 && p in incl && p in g && Edge(u, cost) in g[p]
    ensures TreeOk(g, incl + [u], mst + [(p, u)], ws + [cost], total + cost)
  {
    var incl', mst', ws' := incl + [u], mst + [(p, u)], ws + [cost];
    assert ws'[..|ws|] == ws;
    forall i | 0 <= i < |mst'|
      ensures mst'[i].1 == incl'[i + 1] && mst'[i].0 in incl'[..i + 1] && mst'[i].0 in g && Edge(incl'[i + 1], ws'[i]) in g[mst'[i].0]
    {
      if i == |mst| {
        assert incl'[..i + 1] == incl && incl'[i + 1] == u;
      } else {
        assert incl'[..i + 1] == incl[..i + 1] && incl'[i + 1] == incl[i + 1];
        assert mst'[i] == mst[i] && ws'[i] == ws[i];
      }
    }
  }

  /** Including `u` by the edge from `parent[u]` extends the tree by one pair and one weight. */
  lemma IncludeTree(g: Graph, start: int, key: map<int, int>, parent: map<int, int>, inMST: set<int>, incl: seq<int>,
                    mst: seq<(int, int)>, ws: seq<int>, total: int, u: int, cost: int,
                    incl': seq<int>, mst': seq<(int, int)>, ws': seq<int>, total': int)
    requires TreeOk(g, incl, mst, ws, total) && Included(g, inMST, incl) && ParentOk(g, key, parent, inMST)
    requires u in key && cost == key[u] && (u == start <==> |incl| == 0) && (u == start ==> cost == 0)
    requires u != start ==> u in parent && parent[u] in inMST
    requires incl' == incl + [u] && total' == total + cost
    requires mst' == (if u != start then mst + [(parent[u], u)] else mst)
    requires ws' == (if u != start then ws + [cost] else ws)
    ensures TreeOk(g, incl', mst', ws', total')
  {
    if u != start {
      var p := parent[u];
      assert p in inMST && p in g && Edge(u, key[u]) in g[p];
      assert Included(g, inMST, incl);
      assert p in incl;
      TreeExtend(g, incl, mst, ws, total, u, p, cost);
    }
  }

  /** Including the node of a least entry outside the tree. */
  lemma Include(g: Graph, start: int, key: map<int, int>, parent: map<int, int>, inMST: set<int>, pq: seq<Entry>,
                incl: seq<int>, mst: seq<(int, int)>, ws: seq<int>, total: int, k: int, rest: seq<Entry>,
                u: int, cost: int, inMST': set<int>, incl': seq<int>, mst': seq<(int, int)>, ws': seq<int>, total': int)
    requires Inv(g, start, key, parent, inMST, pq, incl, mst, ws, total) && IsTop(pq, k) && rest == RemoveAt(pq, k)
    requires u == pq[k].1 && cost == pq[k].0 && u !in inMST
    requires inMST' == inMST + {u} && incl' == incl + [u] && total' == total + cost
    requires u != start ==> u in parent
    requires mst' == (if u != start then mst + [(parent[u], u)] else mst)
    requires ws' == (if u != start then ws + [cost] else ws)
    ensures Ready(g, start, u, key, parent, inMST', rest, incl', mst', ws', total')
  {
    PopFacts(g, start, key, parent, inMST, pq, incl, mst, ws, total, k);
    PopCost(g, start, key, parent, inMST, pq, incl, mst, ws, total, k);
    IncludeSet(g, inMST, incl, u, inMST', incl');
    IncludeTree(g, start, key, parent, inMST, incl, mst, ws, total, u, cost, incl', mst', ws', total');
    QueueShrink(g, key, pq, rest);
    PendingRemove(g, key, inMST, inMST', pq, k, rest);
    ParentGrow(g, key, parent, inMST, inMST');
    RelaxedGrow(g, key, inMST, u, inMST');
    assert Begun(start, incl', rest) by {
      if |incl| > 0 {
        assert incl'[0] == incl[0];
      }
    }
  }

  /** Parent links into the tree still lead into a larger tree. */
  lemma ParentGrow(g: Graph, key: map<int, int>, parent: map<int, int>, inMST: set<int>, inMST': set<int>)
    requires ParentOk(g, key, parent, inMST) && inMST <= inMST'
    ensures ParentOk(g, key, parent, inMST')
  {
  }

  /** Before `u`'s edges are considered, every other node of the tree is still relaxed. */
  lemma RelaxedGrow(g: Graph, key: map<int, int>, inMST: set<int>, u: int, inMST': set<int>)
    requires RelaxedAt(g, key, inMST, inMST) && u !in inMST && inMST' == inMST + {u}
    ensures RelaxedAt(g, key, inMST', inMST' - {u})
  {
    assert inMST' - {u} == inMST;
  }

  /** The parent of a node outside a non-empty tree, when it has one. */
  lemma ParentOf(g: Graph, start: int, key: map<int, int>, parent: map<int, int>, inMST: set<int>, pq: seq<Entry>,
                 incl: seq<int>, mst: seq<(int, int)>, ws: seq<int>, total: int, k: int)
    requires Inv(g, start, key, parent, inMST, pq, incl, mst, ws, total) && IsTop(pq, k) && pq[k].1 !in inMST
    ensures pq[k].1 != start ==> pq[k].1 in parent
  {
    PopCost(g, start, key, parent, inMST, pq, incl, mst, ws, total, k);
  }

  lemma RelaxBegin(g: Graph, start: int, u: int, key: map<int, int>, parent: map<int, int>, inMST: set<int>, pq: seq<Entry>,
                   incl: seq<int>, mst: seq<(int, int)>, ws: seq<int>, total: int)
    requires Closed(g) && Ready(g, start, u, key, parent, inMST, pq, incl, mst, ws, total)
    ensures Relaxing(g, start, u, g[u], 0, key, parent, inMST, pq, incl, mst, ws, total)
  {
  }

  /** Edge `i` leads into the tree or no lower: nothing changes but the count of considered edges. */
  lemma RelaxKeep(g: Graph, start: int, u: int, es: seq<Edge>, i: int, next: int, key: map<int, int>, parent: map<int, int>,
                  inMST: set<int>, pq: seq<Entry>, incl: seq<int>, mst: seq<(int, int)>, ws: seq<int>, total: int)
    requires Relaxing(g, start, u, es, i, key, parent, inMST, pq, incl, mst, ws, total) && i < |es| && next == i + 1
    requires es[i].to in key && (es[i].to in inMST || es[i].weight >= key[es[i].to])
    ensures Relaxing(g, start, u, es, next, key, parent, inMST, pq, incl, mst, ws, total)
  {
    assert es[..next] == es[..i] + [es[i]];
  }

  /** Lowering the key of `v`, outside the tree, to `w` keeps the facts about keys, queue and parents. */
  lemma LowerKey(g: Graph, start: int, key: map<int, int>, parent: map<int, int>, inMST: set<int>, pq: seq<Entry>,
                 u: int, v: int, w: int, key': map<int, int>, parent': map<int, int>, pq': seq<Entry>)
    requires KeyKeys(g, key) && KeyBounds(key) && QueueOk(g, key, pq) && Pending(g, key, inMST, pq)
    requires ParentIff(g, start, key, parent) && ParentOk(g, key, parent, inMST)
    requires u in inMST && u in g && start in inMST && v in g && v !in inMST && v in key && w < key[v]
    requires Edge(v, w) in g[u]
    requires key' == key[v := w] && parent' == parent[v := u] && pq' == pq + [(w, v)]
    ensures KeyKeys(g, key') && KeyBounds(key') && QueueOk(g, key', pq') && Pending(g, key', inMST, pq')
    ensures ParentIff(g, start, key', parent') && ParentOk(g, key', parent', inMST)
  {
    forall i | 0 <= i < |pq'|
      ensures pq'[i].1 in g && pq'[i].1 in key' && key'[pq'[i].1] <= pq'[i].0 < INF
    {
      if i < |pq| {
        assert pq'[i] == pq[i];
      }
    }
    forall y | y in g && y in key' && y !in inMST && key'[y] < INF
      ensures (key'[y], y) in pq'
    {
      if y != v {
        assert (key[y], y) in pq;
      }
    }
  }

  /** Lowering a key keeps every relaxed edge relaxed. */
  lemma LowerRelaxed(g: Graph, key: map<int, int>, inMST: set<int>, es: seq<Edge>, i: int, next: int, xs: set<int>,
                     v: int, w: int, key': map<int, int>)
    requires RelaxedAt(g, key, inMST, xs) && 0 <= i < |es| && next == i + 1 && Processed(key, inMST, es, i)
    requires v == es[i].to && v in key && w == es[i].weight && w < key[v] && key' == key[v := w]
    ensures RelaxedAt(g, key', inMST, xs) && Processed(key', inMST, es, next)
  {
    assert es[..next] == es[..i] + [es[i]];
  }

  /** Edge `i` leads outside the tree with a lower weight: its end gets that key, `u` as parent and a new entry. */
  lemma RelaxImprove(g: Graph, start: int, u: int, es: seq<Edge>, i: int, next: int, key: map<int, int>, parent: map<int, int>,
                     inMST: set<int>, pq: seq<Entry>, incl: seq<int>, mst: seq<(int, int)>, ws: seq<int>, total: int,
                     v: int, w: int, key': map<int, int>, parent': map<int, int>, pq': seq<Entry>)
    requires Relaxing(g, start, u, es, i, key, parent, inMST, pq, incl, mst, ws, total) && i < |es| && next == i + 1
    requires v == es[i].to && w == es[i].weight && v !in inMST && v in key && w < key[v]
    requires key' == key[v := w] && parent' == parent[v := u] && pq' == pq + [(w, v)]
    ensures Relaxing(g, start, u, es, next, key', parent', inMST, pq', incl, mst, ws, total)
  {
    assert es[i] in g[u];
    assert Begun(start, incl, pq) && Included(g, inMST, incl);
    assert start in inMST;
    LowerKey(g, start, key, parent, inMST, pq, u, v, w, key', parent', pq');
    LowerRelaxed(g, key, inMST, es, i, next, inMST - {u}, v, w, key');
  }

  /** All of `graph.at(u)` considered: the main loop's invariant again. */
  lemma RelaxEnd(g: Graph, start: int, u: int, es: seq<Edge>, key: map<int, int>, parent: map<int, int>,
                 inMST: set<int>, pq: seq<Entry>, incl: seq<int>, mst: seq<(int, int)>, ws: seq<int>, total: int)
    requires Relaxing(g, start, u, es, |es|, key, parent, inMST, pq, incl, mst, ws, total)
    ensures Inv(g, start, key, parent, inMST, pq, incl, mst, ws, total)
  {
    assert es[..|es|] == es;
    assert RelaxedAt(g, key, inMST, inMST - {u}) && Processed(key, inMST, es, |es|);
  }

  /** The loop over `graph.at(u)`: `if (!inMST[v] && w<key[v]) { key[v]=w; parent[v]=u; pq.push({w,v}); }`. */
  method Relax(g: Graph, ghost start: int, u: int, key0: map<int, int>, parent0: map<int, int>, inMST: set<int>, pq0: seq<Entry>,
               ghost incl: seq<int>, ghost mst: seq<(int, int)>, ghost ws: seq<int>, ghost total: int)
    returns (key: map<int, int>, parent: map<int, int>, pq: seq<Entry>)
    requires Closed(g) && Ready(g, start, u, key0, parent0, inMST, pq0, incl, mst, ws, total)
    ensures Inv(g, start, key, parent, inMST, pq, incl, mst, ws, total)
  {
    RelaxBegin(g, start, u, key0, parent0, inMST, pq0, incl, mst, ws, total);
    var es := g[u];
    key, parent, pq := key0, parent0, pq0;
    var i := 0;
    while i < |es|
      invariant Relaxing(g, start, u, es, i, key, parent, inMST, pq, incl, mst, ws, total)
    {
      var v, w := es[i].to, es[i].weight;
      var next := i + 1;
      if v !in inMST && w < key[v] {
        RelaxImprove(g, start, u, es, i, next, key, parent, inMST, pq, incl, mst, ws, total,
                     v, w, key[v := w], parent[v := u], pq + [(w, v)]);
        key := key[v := w];
        parent := parent[v := u];
        pq := pq + [(w, v)];
      } else {
        RelaxKeep(g, start, u, es, i, next, key, parent, inMST, pq, incl, mst, ws, total);
      }
      i := next;
    }
    RelaxEnd(g, start, u, es, key, parent, inMST, pq, incl, mst, ws, total);
  }

  /** With the queue empty, no edge lighter than `INF` leaves the tree. */
  lemma Exhausted(g: Graph, start: int, key: map<int, int>, parent: map<int, int>, inMST: set<int>,
                  incl: seq<int>, mst: seq<(int, int)>, ws: seq<int>, total: int)
    requires Inv(g, start, key, parent, inMST, [], incl, mst, ws, total)
    ensures Spanning(g, start, total, mst, incl, ws)
  {
    assert Pending(g, key, inMST, []) && KeyBounds(key) && KeyKeys(g, key) && Included(g, inMST, incl);
    assert Begun(start, incl, []);
    forall x, e | x in incl && x in g && e in g[x] && e.weight < INF
      ensures e.to in incl
    {
      assert x in inMST;
    }
  }

  /**
   * One turn of the main loop: pop the least entry; skip it when its node
   * is in the tree, otherwise include the node, add its cost and the pair
   * from its parent, and consider its edges.
   */
  method Turn(g: Graph, start: int, key: map<int, int>, parent: map<int, int>, inMST: set<int>, pq: seq<Entry>,
              total: int, mst: seq<(int, int)>, ghost incl: seq<int>, ghost ws: seq<int>)
    returns (key': map<int, int>, parent': map<int, int>, inMST': set<int>, pq': seq<Entry>,
             total': int, mst': seq<(int, int)>, ghost incl': seq<int>, ghost ws': seq<int>)
    requires Closed(g) && Inv(g, start, key, parent, inMST, pq, incl, mst, ws, total) && |pq| > 0
    ensures Inv(g, start, key', parent', inMST', pq', incl', mst', ws', total')
    ensures inMST' == inMST ==> |pq'| < |pq|
    ensures inMST' != inMST ==> g.Keys - inMST' < g.Keys - inMST
  {
    var k := Top(pq);
    var cost, u := pq[k].0, pq[k].1;
    var rest := RemoveAt(pq, k);
    PopFacts(g, start, key, parent, inMST, pq, incl, mst, ws, total, k);
    if u in inMST {
      Skip(g, start, key, parent, inMST, pq, incl, mst, ws, total, k, rest);
      key', parent', inMST', pq', total', mst', incl', ws' := key, parent, inMST, rest, total, mst, incl, ws;
    } else {
      ParentOf(g, start, key, parent, inMST, pq, incl, mst, ws, total, k);
      mst' := if u != start then mst + [(parent[u], u)] else mst;
      ws' := if u != start then ws + [cost] else ws;
      Include(g, start, key, parent, inMST, pq, incl, mst, ws, total, k, rest,
              u, cost, inMST + {u}, incl + [u], mst', ws', total + cost);
      inMST', incl', total' := inMST + {u}, incl + [u], total + cost;
      key', parent', pq' := Relax(g, start, u, key, parent, inMST', rest, incl', mst', ws', total');
      assert u in g.Keys - inMST && u !in g.Keys - inMST';
    }
  }

  /** The main loop of `runPrims`: pop entries until the queue is empty. */
  method Grow(g: Graph, start: int)
    returns (total: int, mst: seq<(int, int)>, ghost incl: seq<int>, ghost ws: seq<int>)
    requires Closed(g) && start in g
    ensures Spanning(g, start, total, mst, incl, ws)
  {
    // `for (auto& [n,_]: graph) key[n]=INT_MAX;` builds this map, whatever the visiting order.
    var key := (map x | x in g :: INF)[start := 0];
    var parent: map<int, int>, inMST: set<int>, pq: seq<Entry> := map[], {}, [(0, start)];
    total, mst, incl, ws := 0, [], [], [];
    Init(g, start, key);
    while |pq| > 0
      invariant Inv(g, start, key, parent, inMST, pq, incl, mst, ws, total)
      decreases g.Keys - inMST, |pq|
    {
      key, parent, inMST, pq, total, mst, incl, ws := Turn(g, start, key, parent, inMST, pq, total, mst, incl, ws);
    }
    Exhausted(g, start, key, parent, inMST, incl, mst, ws, total);
  }

  /** `runPrims(graph, start)`. */
  method RunPrims(g: Graph, start: int) returns (r: Outcome, ghost incl: seq<int>, ghost ws: seq<int>)
    requires Closed(g)
    ensures r.StartMissing? <==> start !in g
    ensures r.Tree? ==> Spanning(g, start, r.total, r.mst, incl, ws)
  {
    if start !in g {
      return StartMissing, [], [];
    }
    var total, mst;
    total, mst, incl, ws := Grow(g, start);
    r := Tree(total, mst);
  }

  /** Every node of the tree is reached from the start along the tree's own edges. */
  lemma TreeWalk(g: Graph, start: int, total: int, mst: seq<(int, int)>, incl: seq<int>, ws: seq<int>, j: int)
    returns (p: seq<int>, pws: seq<int>)
    requires Spanning(g, start, total, mst, incl, ws) && 0 <= j < |incl|
    ensures IsWalk(g, p, pws) && p[0] == start && p[|p| - 1] == incl[j]
    decreases j
  {
    if j == 0 {
      p, pws := [start], [];
    } else {
      var a := mst[j - 1].0;
      var t :| 0 <= t < j && incl[t] == a;
      var q, qws := TreeWalk(g, start, total, mst, incl, ws, t);
      p, pws := q + [incl[j]], qws + [ws[j - 1]];
      forall i | 0 <= i < |pws|
        ensures p[i] in g && Edge(p[i + 1], pws[i]) in g[p[i]]
      {
        if i < |qws| {
          assert p[i] == q[i] && p[i + 1] == q[i + 1] && pws[i] == qws[i];
        } else {
          assert p[i] == a;
        }
      }
    }
  }

  /** Every node a walk from the start reaches, by edges lighter than `INF`, is in the tree. */
  lemma {:induction false} WalkInTree(g: Graph, start: int, total: int, mst: seq<(int, int)>, incl: seq<int>, ws: seq<int>,
                                      p: seq<int>, pws: seq<int>)
    requires Spanning(g, start, total, mst, incl, ws)
    requires IsWalk(g, p, pws) && p[0] == start && forall i :: 0 <= i < |pws| ==> pws[i] < INF
    ensures p[|p| - 1] in incl
    decreases |pws|
  {
    var m := |pws|;
    if m > 0 {
      var p', pws' := p[..m], pws[..m - 1];
      assert IsWalk(g, p', pws') by {
        forall i | 0 <= i < |pws'|
          ensures p'[i] in g && Edge(p'[i + 1], pws'[i]) in g[p'[i]]
        {
          assert p'[i] == p[i] && p'[i + 1] == p[i + 1] && pws'[i] == pws[i];
        }
      }
      WalkInTree(g, start, total, mst, incl, ws, p', pws');
      assert p'[m - 1] == p[m - 1];
      assert p[m - 1] in g && Edge(p[m], pws[m - 1]) in g[p[m - 1]];
    } else {
      assert incl[0] == start;
    }
  }
}
