/**
 * The sorting executable's five comparison sorts, each in place over the
 * argument array.
 */
module Sorting {

  ghost predicate Sorted(s: seq<int>) {
    forall i, j :: 0 <= i < j < |s| ==> s[i] <= s[j]
  }

  /** Positions `lo..hi-1` of `s` are in order. */
  ghost predicate SortedRange(s: seq<int>, lo: int, hi: int) {
    forall i, j :: 0 <= lo <= i < j < hi <= |s| ==> s[i] <= s[j]
  }

  /** The first `hi` elements of `s` are in order. */
  ghost predicate SortedBelow(s: seq<int>, hi: int) {
    forall i, j :: 0 <= i < j < hi && j < |s| ==> s[i] <= s[j]
  }

  lemma SortedRangeSlice(s: seq<int>, lo: int, hi: int)
    requires 0 <= lo <= hi <= |s|
    ensures SortedRange(s, lo, hi) <==> Sorted(s[lo..hi])
  {
    if Sorted(s[lo..hi]) {
      forall i, j | lo <= i < j < hi
        ensures s[i] <= s[j]
      {
        assert s[i] == s[lo..hi][i - lo] && s[j] == s[lo..hi][j - lo];
      }
    }
  }

  /**
   * `t` is `s` with only positions `lo..hi-1` rearranged: the same elements
   * overall, and the same element at every position outside the range.
   */
  ghost predicate PermutedIn(s: seq<int>, t: seq<int>, lo: int, hi: int) {
    && |t| == |s|
    && (forall k :: 0 <= k < |s| && !(lo <= k < hi) ==> t[k] == s[k])
    && multiset(t) == multiset(s)
  }

  /** Splitting a sequence at two cuts splits its multiset. */
  lemma MultisetSplit(s: seq<int>, lo: int, hi: int)
    requires 0 <= lo <= hi <= |s|
    ensures multiset(s) == multiset(s[..lo]) + multiset(s[lo..hi]) + multiset(s[hi..])
  {
    assert s == s[..lo] + s[lo..hi] + s[hi..];
  }

  /** The range itself holds the same elements before and after. */
  lemma PermutedInSlice(s: seq<int>, t: seq<int>, lo: int, hi: int)
    requires 0 <= lo <= hi <= |s| && PermutedIn(s, t, lo, hi)
    ensures multiset(t[lo..hi]) == multiset(s[lo..hi])
  {
    MultisetSplit(s, lo, hi);
    MultisetSplit(t, lo, hi);
    assert t[..lo] == s[..lo];
    assert t[hi..] == s[hi..];
    MultisetCancel(multiset(s[..lo]), multiset(t[lo..hi]), multiset(s[lo..hi]), multiset(s[hi..]));
  }

  lemma MultisetCancel(a: multiset<int>, x: multiset<int>, y: multiset<int>, b: multiset<int>)
    requires a + x + b == a + y + b
    ensures x == y
  {
    forall v
      ensures x[v] == y[v]
    {
      assert (a + x + b)[v] == (a + y + b)[v];
    }
  }

  lemma PermutedInTrans(s: seq<int>, t: seq<int>, u: seq<int>, lo: int, hi: int)
    requires PermutedIn(s, t, lo, hi) && PermutedIn(t, u, lo, hi)
    ensures PermutedIn(s, u, lo, hi)
  {
  }

  /** A permutation of a sub-range is a permutation of any range around it. */
  lemma PermutedInWiden(s: seq<int>, t: seq<int>, lo: int, hi: int, lo': int, hi': int)
    requires lo' <= lo && hi <= hi'
    requires PermutedIn(s, t, lo, hi)
    ensures PermutedIn(s, t, lo', hi')
  {
  }

  /** Rearranging a range keeps every upper bound of its elements. */
  lemma UpperBoundKept(s: seq<int>, t: seq<int>, lo: int, hi: int, v: int)
    requires 0 <= lo <= hi <= |s| && PermutedIn(s, t, lo, hi)
    requires forall k :: lo <= k < hi ==> s[k] <= v
    ensures forall k :: lo <= k < hi ==> t[k] <= v
  {
    PermutedInSlice(s, t, lo, hi);
    forall k | lo <= k < hi
      ensures t[k] <= v
    {
      assert t[k] == t[lo..hi][k - lo];
      assert t[k] in multiset(s[lo..hi]);
      var m :| lo <= m < hi && s[m] == t[k] by {
        var m' :| 0 <= m' < hi - lo && s[lo..hi][m'] == t[k];
        assert s[lo + m'] == t[k];
      }
    }
  }

  /** Rearranging a range keeps every strict lower bound of its elements. */
  lemma LowerBoundKept(s: seq<int>, t: seq<int>, lo: int, hi: int, v: int)
    requires 0 <= lo <= hi <= |s| && PermutedIn(s, t, lo, hi)
    requires forall k :: lo <= k < hi ==> s[k] > v
    ensures forall k :: lo <= k < hi ==> t[k] > v
  {
    PermutedInSlice(s, t, lo, hi);
    forall k | lo <= k < hi
      ensures t[k] > v
    {
      assert t[k] == t[lo..hi][k - lo];
      assert t[k] in multiset(s[lo..hi]);
      var m :| lo <= m < hi && s[m] == t[k] by {
        var m' :| 0 <= m' < hi - lo && s[lo..hi][m'] == t[k];
        assert s[lo + m'] == t[k];
      }
    }
  }

  method Swap(a: array<int>, i: int, j: int)
    requires 0 <= i < a.Length && 0 <= j < a.Length
    modifies a
    ensures a[..] == old(a[..])[i := old(a[j])][j := old(a[i])]
    ensures multiset(a[..]) == multiset(old(a[..]))
  {
    a[i], a[j] := a[j], a[i];
  }

  // ---------------------------------------------------------------- quick

  /**
   * The loop of `quickSort`'s partition step with pivot `v`: `s[low..i]` holds
   * elements no greater than `v`, `s[i+1..j-1]` elements greater than `v`.
   */
  ghost predicate Partitioning(s: seq<int>, low: int, i: int, j: int, high: int, v: int) {
    && low - 1 <= i < j <= high < |s| && 0 <= low
    && s[high] == v
    && (forall k :: low <= k <= i ==> s[k] <= v)
    && (forall k :: i < k < j ==> s[k] > v)
  }

  /**
   * The partition step of `quickSort` on `[low..high]`, pivot `a[high]`: the
   * pivot ends at `p`, the smaller-or-equal elements before it, the greater after.
   */
  method Partition(a: array<int>, low: int, high: int) returns (p: int)
    requires 0 <= low < high < a.Length
    modifies a
    ensures low <= p <= high
    ensures PermutedIn(old(a[..]), a[..], low, high + 1)
    ensures a[p] == old(a[high])
    ensures forall k :: low <= k < p ==> a[k] <= a[p]
    ensures forall k :: p < k <= high ==> a[k] > a[p]
  {
    ghost var s0 := a[..];
    var pivot := a[high];
    var i := low - 1;
    var j := low;
    while j < high
      invariant Partitioning(a[..], low, i, j, high, pivot)
      invariant PermutedIn(s0, a[..], low, high)
    {
      ghost var s := a[..];
      ghost var i0 := i;
      if a[j] <= pivot {
        i := i + 1;
        if i != j {
          Swap(a, i, j);
        }
      }
      ghost var t := a[..];
      PartitionStep(s0, s, t, low, i0, i, j, high, pivot);
      j := j + 1;
    }
    ghost var s := a[..];
    Swap(a, i + 1, high);
    ghost var t := a[..];
    PivotPlaced(s0, s, t, low, i, high, pivot);
    p := i + 1;
  }

  /** One iteration of the partition loop: `s[j]` joins the smaller or the greater side. */
  lemma PartitionStep(s0: seq<int>, s: seq<int>, t: seq<int>, low: int, i0: int, i: int, j: int, high: int, v: int)
    requires Partitioning(s, low, i0, j, high, v) && j < high
    requires PermutedIn(s0, s, low, high)
    requires i == if s[j] <= v then i0 + 1 else i0
    requires t == (if s[j] <= v && i != j then s[i := s[j]][j := s[i]] else s)
    requires multiset(t) == multiset(s)
    ensures Partitioning(t, low, i, j + 1, high, v)
    ensures PermutedIn(s0, t, low, high)
  {
  }

  lemma PivotPlaced(s0: seq<int>, s: seq<int>, t: seq<int>, low: int, i: int, high: int, v: int)
    requires Partitioning(s, low, i, high, high, v)
    requires PermutedIn(s0, s, low, high) && s0[high] == v
    requires t == s[i + 1 := s[high]][high := s[i + 1]] && multiset(t) == multiset(s)
    ensures PermutedIn(s0, t, low, high + 1)
    ensures t[i + 1] == v
    ensures forall k :: low <= k < i + 1 ==> t[k] <= v
    ensures forall k :: i + 1 < k <= high ==> t[k] > v
  {
  }

  /** `quickSort` on `[low..high]`: that range becomes sorted, the rest is untouched. */
  method QuickSort(a: array<int>, low: int, high: int)
    requires 0 <= low <= high + 1 <= a.Length
    modifies a
    ensures SortedRange(a[..], low, high + 1)
    ensures PermutedIn(old(a[..]), a[..], low, high + 1)
    decreases high - low + 1
  {
    if low >= high {
      return;
    }
    ghost var s0 := a[..];
    var p := Partition(a, low, high);
    ghost var s1 := a[..];
    QuickSort(a, low, p - 1);
    ghost var s2 := a[..];
    QuickSort(a, p + 1, high);
    ghost var s3 := a[..];
    QuickSortJoin(s0, s1, s2, s3, low, p, high);
  }

  /** After the partition and both recursive calls of `quickSort`, the range is sorted. */
  lemma QuickSortJoin(s0: seq<int>, s1: seq<int>, s2: seq<int>, s3: seq<int>, low: int, p: int, high: int)
    requires 0 <= low <= p <= high < |s0|
    requires PermutedIn(s0, s1, low, high + 1)
    requires forall k :: low <= k < p ==> s1[k] <= s1[p]
    requires forall k :: p < k <= high ==> s1[k] > s1[p]
    requires PermutedIn(s1, s2, low, p) && SortedRange(s2, low, p)
    requires PermutedIn(s2, s3, p + 1, high + 1) && SortedRange(s3, p + 1, high + 1)
    ensures SortedRange(s3, low, high + 1)
    ensures PermutedIn(s0, s3, low, high + 1)
  {
    UpperBoundKept(s1, s2, low, p, s1[p]);
    LowerBoundKept(s2, s3, p + 1, high + 1, s1[p]);
    assert forall k :: low <= k < p ==> s3[k] == s2[k];
    PermutedInWiden(s1, s2, low, p, low, high + 1);
    PermutedInWiden(s2, s3, p + 1, high + 1, low, high + 1);
    PermutedInTrans(s0, s1, s2, low, high + 1);
    PermutedInTrans(s0, s2, s3, low, high + 1);
  }

  // ---------------------------------------------------------------- bubble

  /**
   * The state after `n - m` outer passes of `bubbleSort`: the positions from
   * `m` on hold the largest elements, in their final order.
   */
  ghost predicate Settled(s: seq<int>, m: int) {
    && (forall p, q :: 0 <= m <= p < q < |s| ==> s[p] <= s[q])
    && (forall p, q :: 0 <= p < m <= q < |s| ==> s[p] <= s[q])
  }

  /** `bubbleSort`: each outer pass settles one more position at the end. */
  method BubbleSort(a: array<int>)
    modifies a
    ensures Sorted(a[..])
    ensures multiset(a[..]) == multiset(old(a[..]))
  {
    var n := a.Length;
    var i := 0;
    while i < n - 1
      invariant 0 <= i <= n && (n > 0 ==> i <= n - 1)
      invariant Settled(a[..], n - i)
      invariant multiset(a[..]) == multiset(old(a[..]))
    {
      BubblePass(a, n - i);
      i := i + 1;
    }
  }

  /** One outer pass of `bubbleSort` over `a[..m]`: the largest of them moves to `m - 1`. */
  method BubblePass(a: array<int>, m: int)
    requires 2 <= m <= a.Length && Settled(a[..], m)
    modifies a
    ensures Settled(a[..], m - 1)
    ensures multiset(a[..]) == multiset(old(a[..]))
  {
    var j := 0;
    while j < m - 1
      invariant 0 <= j <= m - 1
      invariant Bubbling(a[..], j, m)
      invariant multiset(a[..]) == multiset(old(a[..]))
    {
      ghost var s := a[..];
      if a[j] > a[j + 1] {
        Swap(a, j, j + 1);
      }
      ghost var t := a[..];
      BubbleStep(s, t, j, m);
      j := j + 1;
    }
    ghost var t := a[..];
    BubbleDone(t, m);
  }

  /** Inside a pass of `bubbleSort`: `s[j]` is the largest of `s[..j+1]`. */
  ghost predicate Bubbling(s: seq<int>, j: int, m: int) {
    && 0 <= j < m <= |s|
    && (forall k :: 0 <= k <= j ==> s[k] <= s[j])
    && Settled(s, m)
  }

  lemma BubbleStep(s: seq<int>, t: seq<int>, j: int, m: int)
    requires Bubbling(s, j, m) && j + 1 < m
    requires t == if s[j] > s[j + 1] then s[j := s[j + 1]][j + 1 := s[j]] else s
    ensures Bubbling(t, j + 1, m)
  {
  }

  lemma BubbleDone(s: seq<int>, m: int)
    requires Bubbling(s, m - 1, m)
    ensures Settled(s, m - 1)
  {
  }

  // ---------------------------------------------------------------- selection

  /** The state after `i` iterations of `selectionSort`: `a[..i]` is sorted and no greater than the rest. */
  ghost predicate Selected(s: seq<int>, i: int) {
    && i <= |s|
    && (forall p, q :: 0 <= p < q < i ==> s[p] <= s[q])
    && (forall p, q :: 0 <= p < i <= q < |s| ==> s[p] <= s[q])
  }

  /** `selectionSort`: iteration `i` swaps the least of `a[i..]` into position `i`. */
  method SelectionSort(a: array<int>)
    modifies a
    ensures Sorted(a[..])
    ensures multiset(a[..]) == multiset(old(a[..]))
  {
    var n := a.Length;
    var i := 0;
    while i < n - 1
      invariant 0 <= i <= n && (n > 0 ==> i <= n - 1)
      invariant Selected(a[..], i)
      invariant multiset(a[..]) == multiset(old(a[..]))
    {
      var minIdx := MinIndex(a, i);
      ghost var s := a[..];
      if minIdx != i {
        Swap(a, i, minIdx);
      }
      ghost var t := a[..];
      var next := i + 1;
      SelectStep(s, t, i, next, minIdx);
      i := next;
    }
  }

  lemma SelectStep(s: seq<int>, t: seq<int>, i: int, next: int, minIdx: int)
    requires Selected(s, i) && 0 <= i <= minIdx < |s| && next == i + 1
    requires forall k :: i <= k < |s| ==> s[minIdx] <= s[k]
    requires t == if minIdx != i then s[i := s[minIdx]][minIdx := s[i]] else s
    ensures Selected(t, next)
  {
  }

  /** The inner loop of `selectionSort`: the first position of a least element of `a[i..]`. */
  method MinIndex(a: array<int>, i: int) returns (minIdx: int)
    requires 0 <= i < a.Length
    ensures i <= minIdx < a.Length
    ensures forall k :: i <= k < a.Length ==> a[minIdx] <= a[k]
    ensures forall k :: i <= k < minIdx ==> a[k] > a[minIdx]
  {
    minIdx := i;
    var j := i + 1;
    while j < a.Length
      invariant i <= minIdx < j <= a.Length
      invariant forall k :: i <= k < j ==> a[minIdx] <= a[k]
      invariant forall k :: i <= k < minIdx ==> a[k] > a[minIdx]
    {
      if a[j] < a[minIdx] {
        minIdx := j;
      }
      j := j + 1;
    }
  }

  // ---------------------------------------------------------------- insertion

  /** `insertionSort`: after outer iteration `i`, `a[..i+1]` is sorted. */
  method InsertionSort(a: array<int>)
    modifies a
    ensures Sorted(a[..])
    ensures multiset(a[..]) == multiset(old(a[..]))
  {
    var n := a.Length;
    var i := 1;
    assert SortedBelow(a[..], 1);
    while i < n
      invariant 1 <= i && (n > 0 ==> i <= n) && (n == 0 ==> i == 1)
      invariant SortedBelow(a[..], i)
      invariant multiset(a[..]) == multiset(old(a[..]))
    {
      Insert(a, i);
      i := i + 1;
    }
  }

  /** The body of the outer loop: `a[i]` is shifted down into the sorted prefix `a[..i]`. */
  method Insert(a: array<int>, i: int)
    requires 0 < i < a.Length
    requires SortedBelow(a[..], i)
    modifies a
    ensures SortedBelow(a[..], i + 1)
    ensures multiset(a[..]) == multiset(old(a[..]))
  {
    ghost var before := a[..];
    var key := a[i];
    var j := i - 1;
    var hole := i;
    while j >= 0 && a[j] > key
      invariant -1 <= j < i && hole == j + 1
      invariant forall k :: 0 <= k < hole ==> a[k] == before[k]
      invariant forall k :: hole < k <= i ==> a[k] == before[k - 1] && a[k] > key
      invariant forall k :: i < k < a.Length ==> a[k] == before[k]
    {
      a[hole] := a[j];
      hole := j;
      j := j - 1;
    }
    a[hole] := key;
    ghost var after := a[..];
    InsertStep(before, after, i, hole);
  }

  /** One outer step of `insertionSort`: the prefix grows by one and stays sorted. */
  lemma InsertStep(s: seq<int>, t: seq<int>, i: int, p: int)
    requires 0 <= p <= i < |s| == |t|
    requires SortedBelow(s, i)
    requires forall k :: 0 <= k < p ==> t[k] == s[k]
    requires t[p] == s[i]
    requires forall k :: p < k <= i ==> t[k] == s[k - 1] && t[k] > s[i]
    requires p > 0 ==> s[p - 1] <= s[i]
    requires forall k :: i < k < |s| ==> t[k] == s[k]
    ensures SortedBelow(t, i + 1)
    ensures multiset(t) == multiset(s)
  {
    InsertSorted(s, t, i, p);
    InsertPermutes(s, t, i, p);
  }

  /** Moving `s[i]` down to position `p` over larger elements keeps the prefix sorted. */
  lemma InsertSorted(s: seq<int>, t: seq<int>, i: int, p: int)
    requires 0 <= p <= i < |s| == |t|
    requires SortedBelow(s, i)
    requires forall k :: 0 <= k < p ==> t[k] == s[k]
    requires t[p] == s[i]
    requires forall k :: p < k <= i ==> t[k] == s[k - 1] && t[k] > s[i]
    requires p > 0 ==> s[p - 1] <= s[i]
    ensures SortedBelow(t, i + 1)
  {
    forall x, y | 0 <= x < y <= i
      ensures t[x] <= t[y]
    {
      if y < p {
      } else if y == p {
        assert t[x] == s[x] <= s[p - 1];
      } else if x < p {
        assert t[x] == s[x] <= s[p - 1] <= s[i] < t[y];
      } else if x == p {
      } else {
        assert t[x] == s[x - 1] && t[y] == s[y - 1];
      }
    }
  }

  /** Moving `s[i]` down to position `p`, shifting `s[p..i]` up by one, permutes `s`. */
  lemma InsertPermutes(s: seq<int>, t: seq<int>, i: int, p: int)
    requires 0 <= p <= i < |s| == |t|
    requires forall k :: 0 <= k < p ==> t[k] == s[k]
    requires t[p] == s[i]
    requires forall k :: p < k <= i ==> t[k] == s[k - 1]
    requires forall k :: i < k < |s| ==> t[k] == s[k]
    ensures multiset(t) == multiset(s)
  {
    assert t[p..i + 1] == [s[i]] + s[p..i];
    assert s[p..i + 1] == s[p..i] + [s[i]];
    SameOutside(s, t, p, i + 1);
  }

  // ---------------------------------------------------------------- merge

  /** The merge of `x[i..]` and `y[j..]`, taking from the left run on ties. */
  function MergeFrom(x: seq<int>, y: seq<int>, i: nat, j: nat): seq<int>
    requires i <= |x| && j <= |y|
    decreases |x| - i + |y| - j
  {
    if i == |x| then y[j..]
    else if j == |y| then x[i..]
    else if x[i] <= y[j] then [x[i]] + MergeFrom(x, y, i + 1, j)
    else [y[j]] + MergeFrom(x, y, i, j + 1)
  }

  lemma {:induction false} MergeFromPermutes(x: seq<int>, y: seq<int>, i: nat, j: nat)
    requires i <= |x| && j <= |y|
    ensures multiset(MergeFrom(x, y, i, j)) == multiset(x[i..]) + multiset(y[j..])
    decreases |x| - i + |y| - j
  {
    if i < |x| && j < |y| {
      if x[i] <= y[j] {
        MergeFromPermutes(x, y, i + 1, j);
        HeadPermutes(x, i, MergeFrom(x, y, i + 1, j), multiset(y[j..]));
      } else {
        MergeFromPermutes(x, y, i, j + 1);
        HeadPermutes(y, j, MergeFrom(x, y, i, j + 1), multiset(x[i..]));
      }
    } else if i == |x| {
      assert x[i..] == [];
    } else {
      assert y[j..] == [];
    }
  }

  /** One step of a merge: the head of run `x` goes in front of the rest `r`. */
  lemma HeadPermutes(x: seq<int>, i: nat, r: seq<int>, other: multiset<int>)
    requires i < |x| && multiset(r) == multiset(x[i + 1..]) + other
    ensures multiset([x[i]] + r) == multiset(x[i..]) + other
  {
    assert x[i..] == [x[i]] + x[i + 1..];
  }

  lemma MergeFromLength(x: seq<int>, y: seq<int>, i: nat, j: nat)
    requires i <= |x| && j <= |y|
    ensures |MergeFrom(x, y, i, j)| == |x| - i + |y| - j
  {
    MergeFromPermutes(x, y, i, j);
    assert |multiset(MergeFrom(x, y, i, j))| == |multiset(x[i..])| + |multiset(y[j..])|;
  }

  /** The first element of a merge is the head of one of its runs. */
  lemma MergeFromFirst(x: seq<int>, y: seq<int>, i: nat, j: nat)
    requires i <= |x| && j <= |y| && MergeFrom(x, y, i, j) != []
    ensures (i < |x| && MergeFrom(x, y, i, j)[0] == x[i]) || (j < |y| && MergeFrom(x, y, i, j)[0] == y[j])
  {
  }

  lemma {:induction false} MergeFromSorted(x: seq<int>, y: seq<int>, i: nat, j: nat)
    requires i <= |x| && j <= |y| && Sorted(x) && Sorted(y)
    ensures Sorted(MergeFrom(x, y, i, j))
    decreases |x| - i + |y| - j
  {
    if i < |x| && j < |y| {
      if x[i] <= y[j] {
        MergeFromSorted(x, y, i + 1, j);
        var r := MergeFrom(x, y, i + 1, j);
        if r != [] {
          MergeFromFirst(x, y, i + 1, j);
        }
        assert MergeFrom(x, y, i, j) == [x[i]] + r;
      } else {
        MergeFromSorted(x, y, i, j + 1);
        var r := MergeFrom(x, y, i, j + 1);
        MergeFromFirst(x, y, i, j + 1);
        assert MergeFrom(x, y, i, j) == [y[j]] + r;
      }
    }
  }

  /** The merge from `(i, j)` on is the suffix of the whole merge `m` at position `i + j`. */
  ghost predicate Suffix(x: seq<int>, y: seq<int>, i: nat, j: nat, m: seq<int>) {
    i <= |x| && j <= |y| && i + j <= |m| && MergeFrom(x, y, i, j) == m[i + j..]
  }

  lemma TakeLeft(x: seq<int>, y: seq<int>, i: nat, j: nat, m: seq<int>)
    requires Suffix(x, y, i, j, m) && i < |x| && (j == |y| || x[i] <= y[j])
    ensures i + j < |m| && m[i + j] == x[i] && Suffix(x, y, i + 1, j, m)
  {
    if j == |y| {
      assert x[i..][1..] == x[i + 1..];
    }
    assert m[i + j..][1..] == m[i + j + 1..];
  }

  lemma TakeRight(x: seq<int>, y: seq<int>, i: nat, j: nat, m: seq<int>)
    requires Suffix(x, y, i, j, m) && j < |y| && (i == |x| || x[i] > y[j])
    ensures i + j < |m| && m[i + j] == y[j] && Suffix(x, y, i, j + 1, m)
  {
    if i == |x| {
      assert y[j..][1..] == y[j + 1..];
    }
    assert m[i + j..][1..] == m[i + j + 1..];
  }

  /** Once one run is used up, the rest of the merge is the rest of the other run. */
  lemma SuffixRest(x: seq<int>, y: seq<int>, i: nat, j: nat, m: seq<int>)
    requires Suffix(x, y, i, j, m) && (i == |x| || j == |y|)
    ensures forall p :: i <= p < |x| ==> m[p + j] == x[p]
    ensures forall p :: j <= p < |y| ==> m[i + p] == y[p]
  {
    if i == |x| {
      forall p | j <= p < |y| ensures m[i + p] == y[p] {
        assert m[i + j..][p - j] == y[j..][p - j];
      }
    } else {
      forall p | i <= p < |x| ensures m[p + j] == x[p] {
        assert m[i + j..][p - i] == x[i..][p - i];
      }
    }
  }

  /**
   * `merge`: the runs `a[left..mid]` and `a[mid+1..right]` are copied out and
   * merged back into `a[left..right]`; positions outside the range keep their values.
   */
  method Merge(a: array<int>, left: int, mid: int, right: int)
    requires 0 <= left <= mid < right < a.Length
    modifies a
    ensures a[left..right + 1] == MergeFrom(old(a[left..mid + 1]), old(a[mid + 1..right + 1]), 0, 0)
    ensures forall p :: 0 <= p < a.Length && !(left <= p <= right) ==> a[p] == old(a[p])
  {
    var leftArr := a[left..mid + 1];
    var rightArr := a[mid + 1..right + 1];
    ghost var merged := MergeFrom(leftArr, rightArr, 0, 0);
    var i, j := MergeHeads(a, left, leftArr, rightArr);
    SuffixRest(leftArr, rightArr, i, j, merged);
    var k := left + i + j;
    CopyRun(a, leftArr, i, k);
    k := k + |leftArr| - i;
    CopyRun(a, rightArr, j, k);
    forall p | left <= p <= right
      ensures a[p] == merged[p - left]
    {
      if p < left + i + j {
      } else if p < k {
        assert merged[p - left] == leftArr[p - (left + i + j) + i];
      } else {
        assert merged[p - left] == rightArr[p - k + j];
      }
    }
    assert a[left..right + 1] == merged;
  }

  /** The first loop of `merge`: heads are taken while both runs are non-empty. */
  method MergeHeads(a: array<int>, left: int, leftArr: seq<int>, rightArr: seq<int>) returns (i: nat, j: nat)
    requires 0 <= left && left + |leftArr| + |rightArr| <= a.Length
    modifies a
    ensures i == |leftArr| || j == |rightArr|
    ensures Suffix(leftArr, rightArr, i, j, MergeFrom(leftArr, rightArr, 0, 0))
    ensures forall p :: left <= p < left + i + j ==> a[p] == MergeFrom(leftArr, rightArr, 0, 0)[p - left]
    ensures forall p :: 0 <= p < left || left + |leftArr| + |rightArr| <= p < a.Length ==> a[p] == old(a[p])
  {
    ghost var merged := MergeFrom(leftArr, rightArr, 0, 0);
    MergeFromLength(leftArr, rightArr, 0, 0);
    i, j := 0, 0;
    assert merged[0..] == merged;
    while i < |leftArr| && j < |rightArr|
      invariant Suffix(leftArr, rightArr, i, j, merged)
      invariant forall p :: left <= p < left + i + j ==> a[p] == merged[p - left]
      invariant forall p :: 0 <= p < left || left + |leftArr| + |rightArr| <= p < a.Length ==> a[p] == old(a[p])
    {
      if leftArr[i] <= rightArr[j] {
        TakeLeft(leftArr, rightArr, i, j, merged);
        a[left + i + j] := leftArr[i];
        i := i + 1;
      } else {
        TakeRight(leftArr, rightArr, i, j, merged);
        a[left + i + j] := rightArr[j];
        j := j + 1;
      }
    }
  }

  /** The tail loops of `merge`: `run[from..]` is written to `a` from position `k` on. */
  method CopyRun(a: array<int>, run: seq<int>, from: int, k: int)
    requires 0 <= from <= |run| && 0 <= k && k + |run| - from <= a.Length
    modifies a
    ensures forall p :: k <= p < k + |run| - from ==> a[p] == run[p - k + from]
    ensures forall p :: 0 <= p < k || k + |run| - from <= p < a.Length ==> a[p] == old(a[p])
  {
    var i, k' := from, k;
    while i < |run|
      invariant from <= i <= |run| && k' == k + i - from
      invariant forall p :: k <= p < k' ==> a[p] == run[p - k + from]
      invariant forall p :: 0 <= p < k || k' <= p < a.Length ==> a[p] == old(a[p])
    {
      a[k'] := run[i];
      i, k' := i + 1, k' + 1;
    }
  }

  /** `merge` of two sorted runs leaves the range sorted. */
  lemma MergeSorts(s: seq<int>, t: seq<int>, left: int, mid: int, right: int)
    requires 0 <= left <= mid < right < |s| == |t|
    requires SortedRange(s, left, mid + 1) && SortedRange(s, mid + 1, right + 1)
    requires t[left..right + 1] == MergeFrom(s[left..mid + 1], s[mid + 1..right + 1], 0, 0)
    ensures SortedRange(t, left, right + 1)
  {
    SortedRangeSlice(s, left, mid + 1);
    SortedRangeSlice(s, mid + 1, right + 1);
    SortedRangeSlice(t, left, right + 1);
    MergeFromSorted(s[left..mid + 1], s[mid + 1..right + 1], 0, 0);
  }

  /** `merge` only rearranges the range `[left..right]`. */
  lemma MergePermutes(s: seq<int>, t: seq<int>, left: int, mid: int, right: int)
    requires 0 <= left <= mid < right < |s| == |t|
    requires t[left..right + 1] == MergeFrom(s[left..mid + 1], s[mid + 1..right + 1], 0, 0)
    requires forall p :: 0 <= p < |s| && !(left <= p <= right) ==> t[p] == s[p]
    ensures PermutedIn(s, t, left, right + 1)
  {
    var m, hi := mid + 1, right + 1;
    var x, y := s[left..m], s[m..hi];
    var merged := MergeFrom(x, y, 0, 0);
    assert t[left..hi] == merged;
    MergeFromPermutes(x, y, 0, 0);
    assert x[0..] == x && y[0..] == y;
    assert s[left..hi] == x + y;
    assert multiset(merged) == multiset(x) + multiset(y);
    SameOutside(s, t, left, hi);
  }

  /** Equal outside `[lo..hi)` and equal as multisets inside: equal as multisets. */
  lemma SameOutside(s: seq<int>, t: seq<int>, lo: int, hi: int)
    requires 0 <= lo <= hi <= |s| == |t|
    requires forall p :: 0 <= p < |s| && !(lo <= p < hi) ==> t[p] == s[p]
    requires multiset(t[lo..hi]) == multiset(s[lo..hi])
    ensures multiset(t) == multiset(s)
  {
    MultisetSplit(s, lo, hi);
    MultisetSplit(t, lo, hi);
    assert t[..lo] == s[..lo];
    assert t[hi..] == s[hi..];
  }

  /** `mergeSort` on `[left..right]`: that range becomes sorted, the rest is untouched. */
  method MergeSort(a: array<int>, left: int, right: int)
    requires 0 <= left <= right < a.Length
    modifies a
    ensures SortedRange(a[..], left, right + 1)
    ensures PermutedIn(old(a[..]), a[..], left, right + 1)
    decreases right - left
  {
    if left == right {
      return;
    }
    var mid := left + (right - left) / 2;
    ghost var s0 := a[..];
    MergeSort(a, left, mid);
    ghost var s1 := a[..];
    MergeSort(a, mid + 1, right);
    ghost var s2 := a[..];
    SortedHalves(s0, s1, s2, left, mid, right);
    Merge(a, left, mid, right);
    ghost var s3 := a[..];
    MergeSorts(s2, s3, left, mid, right);
    MergePermutes(s2, s3, left, mid, right);
    PermutedInTrans(s0, s2, s3, left, right + 1);
  }

  /** After both recursive calls of `mergeSort`, each half is sorted and the range is permuted. */
  lemma SortedHalves(s0: seq<int>, s1: seq<int>, s2: seq<int>, left: int, mid: int, right: int)
    requires 0 <= left <= mid < right < |s0|
    requires PermutedIn(s0, s1, left, mid + 1) && SortedRange(s1, left, mid + 1)
    requires PermutedIn(s1, s2, mid + 1, right + 1)
    ensures SortedRange(s2, left, mid + 1)
    ensures PermutedIn(s0, s2, left, right + 1)
  {
    PermutedInWiden(s0, s1, left, mid + 1, left, right + 1);
    PermutedInWiden(s1, s2, mid + 1, right + 1, left, right + 1);
    PermutedInTrans(s0, s1, s2, left, right + 1);
  }
}
