/**
 * The Hamiltonian-cycle executable: backtracking over an adjacency matrix
 * that extends a path from vertex 0 one vertex at a time, writing and
 * resetting `path[pos]` in a shared vector, and `main`, which always searches
 * its built-in matrix.
 *
 * The matrix may have more columns than rows (the built-in one is 6×10); only
 * the first `|graph|` columns of each row are ever read.
 */
module Hamiltonian {
  import opened Prefixes

  /** Every row has an entry for every vertex. */
  ghost predicate Wide(graph: seq<seq<int>>) {
    forall i :: 0 <= i < |graph| ==> |graph[i]| >= |graph|
  }

  /** The entry for `u` to `v` is non-zero: the edge `isSafe` accepts. */
  predicate Edge(graph: seq<seq<int>>, u: int, v: int) {
    0 <= u < |graph| && 0 <= v < |graph[u]| && graph[u][v] != 0
  }

  /** The entry for `u` to `v` is exactly 1: the closing edge the last step demands. */
  predicate Closing(graph: seq<seq<int>>, u: int, v: int) {
    0 <= u < |graph| && 0 <= v < |graph[u]| && graph[u][v] == 1
  }

  ghost predicate Distinct(s: seq<int>) {
    forall i, j :: 0 <= i < j < |s| ==> s[i] != s[j]
  }

  ghost predicate InRange(s: seq<int>, n: int) {
    forall i :: 0 <= i < |s| ==> 0 <= s[i] < n
  }

  /** Consecutive vertices of `s` are joined by edges. */
  ghost predicate Linked(graph: seq<seq<int>>, s: seq<int>) {
    forall k :: 1 <= k < |s| ==> Edge(graph, s[k - 1], s[k])
  }

  /** A simple path from vertex 0: what `path[0..pos)` holds during the search. */
  ghost predicate Partial(graph: seq<seq<int>>, p: seq<int>) {
    1 <= |p| <= |graph| && p[0] == 0 && InRange(p, |graph|) && Distinct(p) && Linked(graph, p)
  }

  /** A Hamiltonian cycle from vertex 0: every vertex once, consecutive ones adjacent, and back to the start. */
  ghost predicate HamCycle(graph: seq<seq<int>>, s: seq<int>) {
    Partial(graph, s) && |s| == |graph| && Closing(graph, s[|s| - 1], s[0])
  }

  /** No Hamiltonian cycle starts with the path `p`. */
  ghost predicate Dead(graph: seq<seq<int>>, p: seq<int>) {
    forall s :: !(HamCycle(graph, s) && IsPrefix(p, s))
  }

  /** No Hamiltonian cycle starts with the path `p` followed by `v`. */
  ghost predicate DeadFrom(graph: seq<seq<int>>, p: seq<int>, v: int) {
    Dead(graph, p + [v])
  }

  /** The vector holds `p` in its first positions and -1 everywhere else. */
  ghost predicate Holds(path: array<int>, p: seq<int>)
    reads path
  {
    |p| <= path.Length && forall k :: 0 <= k < path.Length ==> path[k] == (if k < |p| then p[k] else -1)
  }

  /** `isSafe(v, graph, path, pos)`: an edge from the last vertex of the path to `v`, and `v` not yet on the path. */
  method IsSafe(v: int, graph: seq<seq<int>>, path: array<int>, pos: int) returns (safe: bool)
    requires Wide(graph) && 0 <= v < |graph| && 1 <= pos <= path.Length && 0 <= path[pos - 1] < |graph|
    ensures safe <==> Edge(graph, path[pos - 1], v) && forall i :: 0 <= i < pos ==> path[i] != v
  {
    if graph[path[pos - 1]][v] == 0 {
      return false;
    }
    var i := 0;
    while i < pos
      invariant 0 <= i <= pos
      invariant forall k :: 0 <= k < i ==> path[k] != v
    {
      if path[i] == v {
        return false;
      }
      i := i + 1;
    }
    return true;
  }

  /** Vertex 0 starts the path, so no cycle visits it a second time. */
  lemma ZeroDead(graph: seq<seq<int>>, p: seq<int>)
    requires |p| >= 1 && p[0] == 0
    ensures DeadFrom(graph, p, 0)
  {
    forall s | IsPrefix(p + [0], s)
      ensures !Distinct(s)
    {
      assert s[0] == s[..|p| + 1][0] == 0;
      assert s[|p|] == s[..|p| + 1][|p|] == 0;
    }
  }

  /** A candidate without an edge from the last vertex, or already on the path, leads to no cycle. */
  lemma UnsafeDead(graph: seq<seq<int>>, p: seq<int>, v: int)
    requires |p| >= 1 && !(Edge(graph, p[|p| - 1], v) && v !in p)
    ensures DeadFrom(graph, p, v)
  {
    var pos := |p|;
    forall s | IsPrefix(p + [v], s)
      ensures !(Linked(graph, s) && Distinct(s))
    {
      assert s[pos] == s[..pos + 1][pos] == v;
      assert s[pos - 1] == s[..pos + 1][pos - 1] == p[pos - 1];
      if v in p {
        var i :| 0 <= i < pos && p[i] == v;
        assert s[i] == s[..pos + 1][i];
      }
    }
  }

  /** An accepted candidate extends the path. */
  lemma Extend(graph: seq<seq<int>>, p: seq<int>, v: int)
    requires Partial(graph, p) && |p| < |graph| && 0 <= v < |graph|
    requires Edge(graph, p[|p| - 1], v) && v !in p
    ensures Partial(graph, p + [v])
  {
    var s := p + [v];
    forall k | 1 <= k < |s|
      ensures Edge(graph, s[k - 1], s[k])
    {
      if k < |p| {
        assert s[k - 1] == p[k - 1] && s[k] == p[k];
      }
    }
  }

  /** When every vertex fails as the next one, the path leads nowhere. */
  lemma FailDead(graph: seq<seq<int>>, p: seq<int>)
    requires |p| < |graph| && forall u :: 0 <= u < |graph| ==> DeadFrom(graph, p, u)
    ensures Dead(graph, p)
  {
    forall s | HamCycle(graph, s) && IsPrefix(p, s)
      ensures DeadFrom(graph, p, s[|p|]) && IsPrefix(p + [s[|p|]], s)
    {
      PrefixOfNext(s, p);
    }
  }

  /** A full path without the closing edge is no cycle, and it is the only candidate it starts. */
  lemma UnclosedDead(graph: seq<seq<int>>, p: seq<int>)
    requires |p| == |graph| >= 1 && !Closing(graph, p[|p| - 1], p[0])
    ensures Dead(graph, p)
  {
    forall s | IsPrefix(p, s) && |s| == |graph|
      ensures s == p
    {
      PrefixSameLength(p, s);
    }
  }

  /**
   * `hamCycleUtil(graph, path, pos)`, with `p` the path in `path[0..pos)`. It
   * returns true with a Hamiltonian cycle that starts with `p`, and false only
   * when no such cycle exists, after resetting every position it wrote back
   * to -1. Positions before `pos` are never changed.
   */
  method HamCycleUtil(graph: seq<seq<int>>, path: array<int>, pos: int, ghost p: seq<int>) returns (ok: bool, ghost sol: seq<int>)
    modifies path
    requires Wide(graph) && path.Length == |graph| && |p| == pos && Partial(graph, p) && Holds(path, p)
    ensures ok ==> HamCycle(graph, sol) && IsPrefix(p, sol) && Holds(path, sol)
    ensures !ok ==> Dead(graph, p) && Holds(path, p)
    decreases |graph| - pos, 1
  {
    var n := |graph|;
    if pos == n {
      if graph[path[pos - 1]][path[0]] == 1 {
        return true, p;
      }
      UnclosedDead(graph, p);
      return false, [];
    }
    ZeroDead(graph, p);
    var v := 1;
    while v < n
      invariant 1 <= v <= n
      invariant Holds(path, p)
      invariant forall u :: 0 <= u < v ==> DeadFrom(graph, p, u)
    {
      var found;
      found, sol := TryVertex(graph, path, pos, p, v);
      if found {
        return true, sol;
      }
      v := v + 1;
    }
    FailDead(graph, p);
    return false, [];
  }

  /**
   * One round of the loop in `hamCycleUtil`: if `isSafe` accepts `v`, write it
   * at `path[pos]`, search on, and reset `path[pos]` to -1 when that fails.
   */
  method TryVertex(graph: seq<seq<int>>, path: array<int>, pos: int, ghost p: seq<int>, v: int) returns (ok: bool, ghost sol: seq<int>)
    modifies path
    requires Wide(graph) && path.Length == |graph| && |p| == pos < |graph| && Partial(graph, p) && Holds(path, p)
    requires 1 <= v < |graph|
    ensures ok ==> HamCycle(graph, sol) && IsPrefix(p, sol) && Holds(path, sol)
    ensures !ok ==> DeadFrom(graph, p, v) && Holds(path, p)
    decreases |graph| - pos, 0
  {
    var safe := IsSafe(v, graph, path, pos);
    if !safe {
      UnsafeDead(graph, p, v);
      return false, [];
    }
    ghost var next := p + [v];
    path[pos] := v;
    Extend(graph, p, v);
    var below := pos + 1;
    ok, sol := HamCycleUtil(graph, path, below, next);
    if ok {
      PrefixOfPrefix(p, next, sol);
    } else {
      path[pos] := -1;
    }
  }

  /** Every cycle starts at vertex 0, so the search from `[0]` covers all of them. */
  lemma StartCovers(graph: seq<seq<int>>)
    requires Dead(graph, [0])
    ensures forall s :: !HamCycle(graph, s)
  {
    forall s
      ensures !HamCycle(graph, s)
    {
      StartsAtZero(graph, s);
    }
  }

  lemma StartsAtZero(graph: seq<seq<int>>, s: seq<int>)
    ensures HamCycle(graph, s) ==> IsPrefix([0], s)
  {
    if |s| >= 1 {
      assert s[..1] == [s[0]];
    }
  }

  /**
   * `findHamiltonianCycle(graph)`: the vector it searches with, and whether a
   * cycle was found. The source needs at least one vertex (it writes `path[0]`).
   */
  method FindHamiltonianCycle(graph: seq<seq<int>>) returns (found: bool, path: array<int>, ghost cycle: seq<int>)
    requires |graph| >= 1 && Wide(graph)
    ensures path.Length == |graph| && path[0] == 0
    ensures found ==> HamCycle(graph, cycle) && path[..] == cycle
    ensures !found ==> (forall s :: !HamCycle(graph, s)) && forall k :: 1 <= k < path.Length ==> path[k] == -1
  {
    path := new int[|graph|](_ => -1);
    path[0] := 0;
    var start := 1;
    found, cycle := HamCycleUtil(graph, path, start, [0]);
    if !found {
      StartCovers(graph);
    }
  }

  /** Pigeonhole: more than `m` distinct values do not fit in `0..m-1`. */
  lemma {:induction false} NoFit(s: seq<int>, m: nat)
    ensures Distinct(s) && InRange(s, m) ==> |s| <= m
    decreases m
  {
    if Distinct(s) && InRange(s, m) {
      if m == 0 {
        EmptyRange(s);
      } else if m - 1 in s {
        var k :| 0 <= k < |s| && s[k] == m - 1;
        var t := seq(|s| - 1, i requires 0 <= i < |s| - 1 => if i < k then s[i] else s[i + 1]);
        forall i, j | 0 <= i < j < |t|
          ensures t[i] != t[j]
        {
          var i', j' := if i < k then i else i + 1, if j < k then j else j + 1;
          assert t[i] == s[i'] && t[j] == s[j'];
        }
        forall i | 0 <= i < |t|
          ensures 0 <= t[i] < m - 1
        {
          var i' := if i < k then i else i + 1;
          assert t[i] == s[i'] && s[i'] != s[k];
        }
        NoFit(t, m - 1);
      } else {
        forall i | 0 <= i < |s|
          ensures s[i] < m - 1
        {
          assert s[i] in s;
        }
        NoFit(s, m - 1);
      }
    }
  }

  /** Nothing fits in the empty range. */
  lemma EmptyRange(s: seq<int>)
    ensures InRange(s, 0) ==> |s| == 0
  {
    if |s| > 0 {
      ghost var first := s[0];
    }
  }

  /** `n` distinct values in `0..n-1` take every value. */
  lemma Covers(s: seq<int>, n: nat, v: int)
    requires Distinct(s) && InRange(s, n) && |s| == n && 0 <= v < n
    ensures v in s
  {
    var r := seq(|s|, i requires 0 <= i < |s| => if s[i] > v then s[i] - 1 else s[i]);
    if v !in s {
      forall i | 0 <= i < |s|
        ensures s[i] != v
      {
        assert s[i] in s;
      }
      assert Distinct(r) && InRange(r, n - 1);
    }
    NoFit(r, n - 1);
  }

  /** A cycle takes every vertex: it is a permutation of `0..|graph|-1`. */
  lemma CycleVisitsAll(graph: seq<seq<int>>, s: seq<int>)
    requires HamCycle(graph, s)
    ensures forall v :: 0 <= v < |graph| ==> v in s
  {
    forall v | 0 <= v < |graph|
      ensures v in s
    {
      Covers(s, |graph|, v);
    }
  }

  /** Every vertex on a cycle has an edge out of it. */
  lemma ExitOnCycle(graph: seq<seq<int>>, s: seq<int>, v: int)
    requires 0 <= v < |graph|
    ensures HamCycle(graph, s) ==> exists w :: Edge(graph, v, w)
  {
    if HamCycle(graph, s) {
      CycleVisitsAll(graph, s);
      assert v in s;
      var k :| 0 <= k < |s| && s[k] == v;
      if k + 1 < |s| {
        var next := k + 1;
        assert Edge(graph, s[k], s[next]);
      } else {
        assert Edge(graph, s[k], s[0]);
      }
    }
  }

  /** The matrix `main` searches: six vertices, rows of ten entries, and vertices 4 and 5 without any edge out. */
  const DefaultGraph: seq<seq<int>> := [
    [0, 1, 1, 1, 1, 1, 1, 1, 1, 1],
    [1, 0, 1, 1, 1, 1, 1, 1, 1, 1],
    [1, 1, 0, 1, 1, 1, 1, 1, 1, 1],
    [1, 1, 1, 0, 1, 1, 1, 1, 1, 0],
    [0, 0, 0, 0, 0, 0, 0, 0, 0, 0],
    [0, 0, 0, 0, 0, 0, 0, 0, 0, 0]
  ]

  /** The built-in matrix has no Hamiltonian cycle: vertex 4 has nowhere to go. */
  lemma DefaultHasNone()
    ensures forall s :: !HamCycle(DefaultGraph, s)
  {
    forall s
      ensures !HamCycle(DefaultGraph, s)
    {
      ExitOnCycle(DefaultGraph, s, 4);
      assert forall w :: !Edge(DefaultGraph, 4, w);
    }
  }

  /** `main`: the command line is ignored, and the search over the built-in matrix reports no cycle. */
  method Run(args: seq<string>) returns (found: bool, path: array<int>)
    ensures !found && path.Length == 6 && path[0] == 0
    ensures forall k :: 1 <= k < 6 ==> path[k] == -1
  {
    var graph := DefaultGraph;
    ghost var cycle;
    found, path, cycle := FindHamiltonianCycle(graph);
    DefaultHasNone();
  }
}
