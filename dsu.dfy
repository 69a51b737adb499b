/**
 * The disjoint-set forest Kruskal uses: `parent` links every element towards
 * the representative of its set, `rank` bounds the height below a root.
 * `findSet` compresses the path it walks, `unionSet` links the root of lower
 * rank under the other.
 *
 * The representative of an element is the ghost function `Find`, defined on
 * the maps; it terminates because ranks strictly increase along parent links
 * (the ghost field `bound` caps every rank).
 */
module DisjointSets {

  /** Parents are elements and ranks strictly increase towards the root. */
  ghost predicate Forest(parent: map<int, int>, rank: map<int, int>, bound: int) {
    && (forall x :: x in parent <==> x in rank)
    && (forall x :: x in parent ==> parent[x] in parent)
    && (forall x :: x in parent && parent[x] != x ==> rank[x] < rank[parent[x]])
    && 0 <= bound && (forall x :: x in rank ==> 0 <= rank[x] <= bound)
  }

  /** The root reached from `x` by following parent links. */
  ghost function Find(parent: map<int, int>, rank: map<int, int>, bound: int, x: int): int
    requires Forest(parent, rank, bound) && x in parent
    decreases bound - rank[x]
  {
    if parent[x] == x then x else Find(parent, rank, bound, parent[x])
  }

  /** The representatives: elements that are their own parent. */
  ghost function Roots(parent: map<int, int>): set<int> {
    set x | x in parent && parent[x] == x
  }

  lemma RootsMember(parent: map<int, int>, y: int)
    ensures y in Roots(parent) <==> y in parent && parent[y] == y
  {
  }

  /** `Find` ends at a root, of rank above that of any non-root it starts from. */
  lemma {:induction false} FindIsRoot(parent: map<int, int>, rank: map<int, int>, bound: int, x: int)
    requires Forest(parent, rank, bound) && x in parent
    ensures Find(parent, rank, bound, x) in parent
    ensures parent[Find(parent, rank, bound, x)] == Find(parent, rank, bound, x)
    ensures Find(parent, rank, bound, x) != x ==> rank[x] < rank[Find(parent, rank, bound, x)]
    decreases bound - rank[x]
  {
    if parent[x] != x {
      FindIsRoot(parent, rank, bound, parent[x]);
    }
  }

  /** Pointing `x` straight at its root changes no element's root. */
  lemma {:induction false} CompressFind(parent: map<int, int>, rank: map<int, int>, bound: int, x: int, r: int, y: int)
    requires Forest(parent, rank, bound) && x in parent && r == Find(parent, rank, bound, x)
    requires Forest(parent[x := r], rank, bound) && y in parent
    ensures Find(parent[x := r], rank, bound, y) == Find(parent, rank, bound, y)
    decreases bound - rank[y]
  {
    var p := parent[x := r];
    if y == x {
      if parent[x] != x {
        FindIsRoot(parent, rank, bound, x);
        assert p[r] == r;
      }
    } else if parent[y] != y {
      CompressFind(parent, rank, bound, x, r, parent[y]);
    }
  }

  /** Pointing `x` at its root keeps the forest shape and the roots. */
  lemma CompressForest(parent: map<int, int>, rank: map<int, int>, bound: int, x: int, r: int)
    requires Forest(parent, rank, bound) && x in parent && r == Find(parent, rank, bound, x)
    ensures Forest(parent[x := r], rank, bound)
    ensures Roots(parent[x := r]) == Roots(parent)
  {
    FindIsRoot(parent, rank, bound, x);
    var p := parent[x := r];
    assert p.Keys == parent.Keys;
    forall y | y in p
      ensures p[y] in p && (p[y] != y ==> rank[y] < rank[p[y]])
    {
      if y != x {
        assert p[y] == parent[y];
      }
    }
    forall y
      ensures y in Roots(p) <==> y in Roots(parent)
    {
      if y == x && parent[x] != x {
        assert r != x;
      }
    }
  }

  lemma Compress(parent: map<int, int>, rank: map<int, int>, bound: int, x: int, r: int, parent': map<int, int>)
    requires Forest(parent, rank, bound) && x in parent && r == Find(parent, rank, bound, x) && parent' == parent[x := r]
    ensures Forest(parent', rank, bound) && parent'.Keys == parent.Keys
    ensures forall y {:trigger Find(parent', rank, bound, y)} :: y in parent' ==> Find(parent', rank, bound, y) == Find(parent, rank, bound, y)
    ensures Roots(parent') == Roots(parent)
  {
    CompressForest(parent, rank, bound, x, r);
    forall y {:trigger Find(parent', rank, bound, y)} | y in parent'
      ensures Find(parent', rank, bound, y) == Find(parent, rank, bound, y)
    {
      CompressFind(parent, rank, bound, x, r, y);
    }
  }

  /** Linking root `b` under root `a`, raising `a`'s rank on a tie; nothing else changes. */
  ghost predicate Linked(parent: map<int, int>, rank: map<int, int>, a: int, b: int, parent': map<int, int>, rank': map<int, int>) {
    && a in parent && b in parent && a in rank && b in rank
    && (forall y :: y in parent' <==> y in parent) && (forall y :: y in rank' <==> y in rank)
    && parent'[b] == a
    && (forall y :: y in parent && y != b ==> parent'[y] == parent[y])
    && rank'[a] == (if rank[a] == rank[b] then rank[a] + 1 else rank[a])
    && (forall y :: y in rank && y != a ==> rank'[y] == rank[y])
  }

  /** After the link, the elements whose root was `b` have root `a`; the others keep theirs. */
  lemma {:induction false} LinkFind(parent: map<int, int>, rank: map<int, int>, bound: int, a: int, b: int,
                                    parent': map<int, int>, rank': map<int, int>, bound': int, y: int)
    requires Forest(parent, rank, bound) && Forest(parent', rank', bound')
    requires a in parent && b in parent && a != b && parent[a] == a && parent[b] == b && rank[b] <= rank[a]
    requires Linked(parent, rank, a, b, parent', rank') && y in parent
    ensures Find(parent', rank', bound', y) == if Find(parent, rank, bound, y) == b then a else Find(parent, rank, bound, y)
    decreases bound - rank[y]
  {
    if parent[y] != y {
      LinkFind(parent, rank, bound, a, b, parent', rank', bound', parent[y]);
    }
  }

  lemma LinkForest(parent: map<int, int>, rank: map<int, int>, bound: int, a: int, b: int,
                   parent': map<int, int>, rank': map<int, int>, bound': int)
    requires Forest(parent, rank, bound)
    requires a in parent && b in parent && a != b && parent[a] == a && parent[b] == b && rank[b] <= rank[a]
    requires Linked(parent, rank, a, b, parent', rank') && bound' == if bound < rank'[a] then rank'[a] else bound
    ensures Forest(parent', rank', bound')
    ensures Roots(parent') == Roots(parent) - {b}
  {
    forall y | y in parent'
      ensures parent'[y] in parent' && (parent'[y] != y ==> rank'[y] < rank'[parent'[y]])
    {
      if y != b && parent[y] != y {
        assert y != a;
        assert parent[y] in rank;
      }
    }
    forall y
      ensures y in Roots(parent') <==> y in Roots(parent) - {b}
    {
      RootsMember(parent', y);
      RootsMember(parent, y);
      if y in parent && y != b {
        assert parent'[y] == parent[y];
      }
    }
  }

  lemma Link(parent: map<int, int>, rank: map<int, int>, bound: int, a: int, b: int,
             parent': map<int, int>, rank': map<int, int>, bound': int)
    requires Forest(parent, rank, bound)
    requires a in parent && b in parent && a != b && parent[a] == a && parent[b] == b && rank[b] <= rank[a]
    requires Linked(parent, rank, a, b, parent', rank') && bound' == if bound < rank'[a] then rank'[a] else bound
    ensures Forest(parent', rank', bound')
    ensures forall y {:trigger Find(parent', rank', bound', y)} :: y in parent ==> Find(parent', rank', bound', y) == if Find(parent, rank, bound, y) == b then a else Find(parent, rank, bound, y)
    ensures Roots(parent') == Roots(parent) - {b}
  {
    LinkForest(parent, rank, bound, a, b, parent', rank', bound');
    forall y {:trigger Find(parent', rank', bound', y)} | y in parent
      ensures Find(parent', rank', bound', y) == if Find(parent, rank, bound, y) == b then a else Find(parent, rank, bound, y)
    {
      LinkFind(parent, rank, bound, a, b, parent', rank', bound', y);
    }
  }

  /** The recursive step of `findSet`: after the call on the parent, `x` is pointed at the root found. */
  lemma FindStep(p0: map<int, int>, rank: map<int, int>, bound: int, x: int, p1: map<int, int>, root: int, p2: map<int, int>)
    requires Forest(p0, rank, bound) && x in p0 && p0[x] != x
    requires Forest(p1, rank, bound) && p1.Keys == p0.Keys && Roots(p1) == Roots(p0)
    requires forall y {:trigger Find(p1, rank, bound, y)} :: y in p1 ==> Find(p1, rank, bound, y) == Find(p0, rank, bound, y)
    requires root == Find(p0, rank, bound, p0[x]) && p2 == p1[x := root]
    ensures Forest(p2, rank, bound) && p2.Keys == p0.Keys && Roots(p2) == Roots(p0)
    ensures root == Find(p0, rank, bound, x) && p2[x] == root
    ensures forall y {:trigger Find(p2, rank, bound, y)} :: y in p2 ==> Find(p2, rank, bound, y) == Find(p0, rank, bound, y)
  {
    assert Find(p1, rank, bound, x) == root;
    Compress(p1, rank, bound, x, root, p2);
    forall y {:trigger Find(p2, rank, bound, y)} | y in p2
      ensures Find(p2, rank, bound, y) == Find(p0, rank, bound, y)
    {
      assert Find(p1, rank, bound, y) == Find(p0, rank, bound, y);
    }
  }

  class Dsu {
    var parent: map<int, int>
    var rank: map<int, int>
    ghost var bound: int

    ghost predicate Valid()
      reads this
    {
      Forest(parent, rank, bound)
    }

    /** `DSU dsu;`: no elements. */
    constructor ()
      ensures Valid() && parent == map[] && rank == map[]
    {
      parent := map[];
      rank := map[];
      bound := 0;
    }

    /** `makeSet(x)`: a new singleton set. `x` must not be an element yet. */
    method MakeSet(x: int)
      modifies this
      requires Valid() && x !in parent
      ensures Valid() && parent == old(parent)[x := x] && rank == old(rank)[x := 0] && bound == old(bound)
      ensures forall y {:trigger Find(parent, rank, bound, y)} :: y in old(parent) ==> Find(parent, rank, bound, y) == Find(old(parent), old(rank), old(bound), y)
      ensures Find(parent, rank, bound, x) == x && Roots(parent) == Roots(old(parent)) + {x}
    {
      ghost var p0, r0 := parent, rank;
      parent := parent[x := x];
      rank := rank[x := 0];
      AddSingleton(p0, r0, bound, x, parent, rank);
    }

    /** `findSet(x)`: the representative of `x`; every link walked now points at it. */
    method FindSet(x: int) returns (r: int)
      modifies this
      requires Valid() && x in parent
      ensures Valid() && r == Find(old(parent), old(rank), old(bound), x) && r in parent && parent[r] == r
      ensures rank == old(rank) && bound == old(bound) && parent.Keys == old(parent.Keys)
      ensures forall y {:trigger Find(parent, rank, bound, y)} :: y in parent ==> Find(parent, rank, bound, y) == Find(old(parent), old(rank), old(bound), y)
      ensures Roots(parent) == Roots(old(parent))
      decreases bound - rank[x]
    {
      if parent[x] != x {
        ghost var p0 := parent;
        var up := parent[x];
        var root := FindSet(up);
        ghost var p1 := parent;
        parent := parent[x := root];
        FindStep(p0, rank, bound, x, p1, root, parent);
      }
      FindIsRoot(parent, rank, bound, x);
      r := parent[x];
    }

    /**
     * `unionSet(a, b)`: false when `a` and `b` already share a representative;
     * otherwise the two sets become one, whose representative is one of the
     * two old ones, and there is one representative fewer.
     */
    method UnionSet(a: int, b: int) returns (merged: bool)
      modifies this
      requires Valid() && a in parent && b in parent
      ensures Valid()
      ensures UnionPost(old(parent), old(rank), old(bound), parent, rank, bound, a, b, merged)
    {
      ghost var p0 := parent;
      var ra := FindSet(a);
      ghost var p1 := parent;
      var rb := FindSet(b);
      ghost var p2 := parent;
      SameRoots(p0, p1, p2, rank, bound);
      if ra == rb {
        JoinedAlready(p0, rank, bound, p2, a, b);
        return false;
      }
      var rk := rank;
      // the root of higher rank stays a root
      var hi, lo := if rk[ra] < rk[rb] then rb else ra, if rk[ra] < rk[rb] then ra else rb;
      var p3 := parent[lo := hi];
      var rk3 := if rk[hi] == rk[lo] then rk[hi := rk[hi] + 1] else rk;
      ghost var b3 := if bound < rk3[hi] then rk3[hi] else bound;
      LinkAt(p0, rk, bound, p2, a, b, ra, rb, hi, lo, p3, rk3, b3);
      parent, rank := p3, rk3;
      bound := b3;
      merged := true;
    }
  }

  /**
   * The outcome of `unionSet(a, b)` from forest `p` to forest `p'`: the same
   * elements; `merged` exactly when `a` and `b` had different roots; the two
   * sets joined as `Joined` says; one root fewer when merged, as many otherwise.
   */
  ghost predicate UnionPost(p: map<int, int>, rk: map<int, int>, bd: int, p': map<int, int>, rk': map<int, int>, bd': int, a: int, b: int, merged: bool)
  {
    && Forest(p, rk, bd) && Forest(p', rk', bd') && a in p && b in p && p'.Keys == p.Keys
    && (merged <==> Find(p, rk, bd, a) != Find(p, rk, bd, b))
    && Joined(p, rk, bd, p', rk', bd', a, b)
    && |Roots(p')| == |Roots(p)| - (if merged then 1 else 0)
  }

  /**
   * What `unionSet(a, b)` leaves: `a` and `b` share a root, one of their two
   * old ones, which every element of their two sets now has; every other
   * element keeps its root.
   */
  ghost predicate Joined(p: map<int, int>, rk: map<int, int>, bd: int, p': map<int, int>, rk': map<int, int>, bd': int, a: int, b: int)
    requires Forest(p, rk, bd) && Forest(p', rk', bd') && a in p && b in p && p'.Keys == p.Keys
  {
    var fa, fb, r := Find(p, rk, bd, a), Find(p, rk, bd, b), Find(p', rk', bd', a);
    && Find(p', rk', bd', b) == r
    && (r == fa || r == fb)
    && forall y {:trigger Find(p', rk', bd', y)} :: y in p ==>
         Find(p', rk', bd', y) == if Find(p, rk, bd, y) == fa || Find(p, rk, bd, y) == fb then r else Find(p, rk, bd, y)
  }

  lemma JoinedAlready(p0: map<int, int>, rk: map<int, int>, bd: int, p2: map<int, int>, a: int, b: int)
    requires Forest(p0, rk, bd) && Forest(p2, rk, bd) && a in p0 && b in p0 && p2.Keys == p0.Keys
    requires Find(p0, rk, bd, a) == Find(p0, rk, bd, b)
    requires forall y {:trigger Find(p2, rk, bd, y)} :: y in p2 ==> Find(p2, rk, bd, y) == Find(p0, rk, bd, y)
    requires Roots(p2) == Roots(p0)
    ensures UnionPost(p0, rk, bd, p2, rk, bd, a, b, false)
  {
    assert Find(p2, rk, bd, a) == Find(p0, rk, bd, a) && Find(p2, rk, bd, b) == Find(p0, rk, bd, b);
  }

  lemma JoinedByLink(p0: map<int, int>, rk: map<int, int>, bd: int, p3: map<int, int>, rk3: map<int, int>, bd3: int, a: int, b: int, ra: int, rb: int)
    requires Forest(p0, rk, bd) && Forest(p3, rk3, bd3) && a in p0 && b in p0 && p3.Keys == p0.Keys
    requires (ra == Find(p0, rk, bd, a) && rb == Find(p0, rk, bd, b)) || (ra == Find(p0, rk, bd, b) && rb == Find(p0, rk, bd, a))
    requires forall y {:trigger Find(p3, rk3, bd3, y)} :: y in p3 ==>
      Find(p3, rk3, bd3, y) == if Find(p0, rk, bd, y) == rb then ra else Find(p0, rk, bd, y)
    ensures Joined(p0, rk, bd, p3, rk3, bd3, a, b)
  {
    assert Find(p3, rk3, bd3, a) == ra && Find(p3, rk3, bd3, b) == ra;
  }

  /** The linking step of `unionSet` on the roots `ra` of `a` and `rb` of `b`, ordered by rank into `hi` and `lo`. */
  lemma LinkAt(p0: map<int, int>, rk: map<int, int>, bd: int, p2: map<int, int>, a: int, b: int, ra: int, rb: int, hi: int, lo: int,
               p3: map<int, int>, rk3: map<int, int>, bd3: int)
    requires Forest(p0, rk, bd) && Forest(p2, rk, bd) && a in p0 && b in p0
    requires p2.Keys == p0.Keys && Roots(p2) == Roots(p0)
    requires forall y {:trigger Find(p2, rk, bd, y)} :: y in p2 ==> Find(p2, rk, bd, y) == Find(p0, rk, bd, y)
    requires ra == Find(p0, rk, bd, a) && rb == Find(p0, rk, bd, b) && ra != rb && ra in rk && rb in rk
    requires hi == (if rk[ra] < rk[rb] then rb else ra) && lo == (if rk[ra] < rk[rb] then ra else rb)
    requires p3 == p2[lo := hi] && rk3 == (if rk[hi] == rk[lo] then rk[hi := rk[hi] + 1] else rk)
    requires bd3 == if bd < rk3[hi] then rk3[hi] else bd
    ensures UnionPost(p0, rk, bd, p3, rk3, bd3, a, b, true)
  {
    FindIsRoot(p0, rk, bd, a);
    FindIsRoot(p0, rk, bd, b);
    RootsMember(p0, ra);
    RootsMember(p0, rb);
    LinkUpdate(p2, rk, hi, lo, p3, rk3);
    Union(p0, rk, bd, p2, hi, lo, p3, rk3, bd3);
    JoinedByLink(p0, rk, bd, p3, rk3, bd3, a, b, hi, lo);
  }

  /** The map updates of `unionSet` perform a link. */
  lemma LinkUpdate(parent: map<int, int>, rank: map<int, int>, a: int, b: int, parent': map<int, int>, rank': map<int, int>)
    requires a in parent && b in parent && a in rank && b in rank
    requires parent' == parent[b := a] && rank' == (if rank[a] == rank[b] then rank[a := rank[a] + 1] else rank)
    ensures Linked(parent, rank, a, b, parent', rank')
  {
  }

  /** Two calls of `findSet` in a row: the roots and every element's root stay as before the first. */
  lemma SameRoots(p0: map<int, int>, p1: map<int, int>, p2: map<int, int>, rank: map<int, int>, bound: int)
    requires Forest(p0, rank, bound) && Forest(p1, rank, bound) && Forest(p2, rank, bound)
    requires p1.Keys == p0.Keys && p2.Keys == p1.Keys && Roots(p1) == Roots(p0) && Roots(p2) == Roots(p1)
    requires forall y {:trigger Find(p1, rank, bound, y)} :: y in p1 ==> Find(p1, rank, bound, y) == Find(p0, rank, bound, y)
    requires forall y {:trigger Find(p2, rank, bound, y)} :: y in p2 ==> Find(p2, rank, bound, y) == Find(p1, rank, bound, y)
    ensures p2.Keys == p0.Keys && Roots(p2) == Roots(p0)
    ensures forall y {:trigger Find(p2, rank, bound, y)} :: y in p2 ==> Find(p2, rank, bound, y) == Find(p0, rank, bound, y)
  {
    forall y {:trigger Find(p2, rank, bound, y)} | y in p2
      ensures Find(p2, rank, bound, y) == Find(p0, rank, bound, y)
    {
      assert Find(p1, rank, bound, y) == Find(p0, rank, bound, y);
    }
  }

  /**
   * The linking step of `unionSet`: `p2` has the roots and the element roots
   * of `p0`, and `ra`, `rb` are distinct roots, `rb` of no greater rank.
   * Linking `rb` under `ra` merges exactly those two sets.
   */
  lemma Union(p0: map<int, int>, rank: map<int, int>, bound: int, p2: map<int, int>, ra: int, rb: int,
              p3: map<int, int>, rank3: map<int, int>, bound3: int)
    requires Forest(p0, rank, bound) && Forest(p2, rank, bound)
    requires p2.Keys == p0.Keys && Roots(p2) == Roots(p0)
    requires forall y {:trigger Find(p2, rank, bound, y)} :: y in p2 ==> Find(p2, rank, bound, y) == Find(p0, rank, bound, y)
    requires ra in Roots(p0) && rb in Roots(p0) && ra != rb && rank[rb] <= rank[ra]
    requires Linked(p2, rank, ra, rb, p3, rank3) && bound3 == if bound < rank3[ra] then rank3[ra] else bound
    ensures Forest(p3, rank3, bound3) && p3.Keys == p0.Keys
    ensures forall y {:trigger Find(p3, rank3, bound3, y)} :: y in p3 ==>
      Find(p3, rank3, bound3, y) == if Find(p0, rank, bound, y) == rb then ra else Find(p0, rank, bound, y)
    ensures |Roots(p3)| == |Roots(p0)| - 1
  {
    RootsMember(p2, ra);
    RootsMember(p2, rb);
    Link(p2, rank, bound, ra, rb, p3, rank3, bound3);
    forall y
      ensures y in p3.Keys <==> y in p2.Keys
    {
      assert y in p3 <==> y in p2;
    }
    forall y {:trigger Find(p3, rank3, bound3, y)} | y in p3
      ensures Find(p3, rank3, bound3, y) == if Find(p0, rank, bound, y) == rb then ra else Find(p0, rank, bound, y)
    {
      assert Find(p2, rank, bound, y) == Find(p0, rank, bound, y);
    }
  }

  /** A new singleton changes no existing element's root. */
  lemma {:induction false} AddFind(parent: map<int, int>, rank: map<int, int>, bound: int, x: int,
                                   parent': map<int, int>, rank': map<int, int>, y: int)
    requires Forest(parent, rank, bound) && x !in parent && y in parent
    requires parent' == parent[x := x] && rank' == rank[x := 0] && Forest(parent', rank', bound)
    ensures Find(parent', rank', bound, y) == Find(parent, rank, bound, y)
    decreases bound - rank[y]
  {
    if parent[y] != y {
      AddFind(parent, rank, bound, x, parent', rank', parent[y]);
    }
  }

  lemma AddForest(parent: map<int, int>, rank: map<int, int>, bound: int, x: int, parent': map<int, int>, rank': map<int, int>)
    requires Forest(parent, rank, bound) && x !in parent
    requires parent' == parent[x := x] && rank' == rank[x := 0]
    ensures Forest(parent', rank', bound)
  {
    forall y | y in parent'
      ensures parent'[y] in parent' && (parent'[y] != y ==> rank'[y] < rank'[parent'[y]])
    {
      if y != x {
        assert parent'[y] == parent[y] && rank'[y] == rank[y];
        assert parent[y] in rank;
      }
    }
  }

  lemma AddSingleton(parent: map<int, int>, rank: map<int, int>, bound: int, x: int, parent': map<int, int>, rank': map<int, int>)
    requires Forest(parent, rank, bound) && x !in parent
    requires parent' == parent[x := x] && rank' == rank[x := 0]
    ensures Forest(parent', rank', bound)
    ensures forall y {:trigger Find(parent', rank', bound, y)} :: y in parent ==> Find(parent', rank', bound, y) == Find(parent, rank, bound, y)
    ensures Find(parent', rank', bound, x) == x && Roots(parent') == Roots(parent) + {x}
  {
    AddForest(parent, rank, bound, x, parent', rank');
    forall y {:trigger Find(parent', rank', bound, y)} | y in parent
      ensures Find(parent', rank', bound, y) == Find(parent, rank, bound, y)
    {
      AddFind(parent, rank, bound, x, parent', rank', y);
    }
    forall y
      ensures y in Roots(parent') <==> y in Roots(parent) + {x}
    {
      RootsMember(parent', y);
      RootsMember(parent, y);
      if y in parent {
        assert parent'[y] == parent[y];
      }
    }
  }
}
