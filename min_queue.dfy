/**
 * The `priority_queue<pair<int,int>, vector<...>, greater<>>` of Dijkstra and
 * Prim: a bag of `(priority, node)` pairs whose `top()` is the least pair in
 * lexicographic order. The bag is kept as a sequence; `pop()` removes the
 * entry `top()` returned.
 */
module MinQueue {
  type Entry = (int, int)

  /** The order `greater<>` on pairs puts at the top: the priority first, then the node. */
  predicate LexLeq(a: Entry, b: Entry) {
    a.0 < b.0 || (a.0 == b.0 && a.1 <= b.1)
  }

  /** `k` holds a least entry of `pq`. */
  ghost predicate IsTop(pq: seq<Entry>, k: int) {
    0 <= k < |pq| && forall j :: 0 <= j < |pq| ==> LexLeq(pq[k], pq[j])
  }

  /** The queue with the entry at `k` taken out. */
  function RemoveAt(pq: seq<Entry>, k: int): (r: seq<Entry>)
    requires 0 <= k < |pq|
    ensures |r| == |pq| - 1
    ensures forall x :: x in r ==> x in pq
    ensures forall x :: x in pq && x != pq[k] ==> x in r
    ensures multiset(r) == multiset(pq) - multiset{pq[k]}
  {
    assert pq == pq[..k] + [pq[k]] + pq[k + 1..];
    pq[..k] + pq[k + 1..]
  }

  /** `pq.top()`: the position of a least entry, which no other entry precedes. */
  method Top(pq: seq<Entry>) returns (k: int)
    requires |pq| > 0
    ensures IsTop(pq, k)
  {
    k := 0;
    var i := 1;
    while i < |pq|
      invariant 1 <= i <= |pq| && 0 <= k < i
      invariant forall j :: 0 <= j < i ==> LexLeq(pq[k], pq[j])
    {
      if !LexLeq(pq[k], pq[i]) {
        k := i;
      }
      i := i + 1;
    }
  }
}
