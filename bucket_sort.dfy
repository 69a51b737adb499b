/**
 * `countingSort` and `radixSort` of the sorting executable. Both are built
 * from the same counting pass: count the elements per key, turn the counts
 * into prefix sums, then place the elements from the right, each at the last
 * free slot of its key's block. `countingSort` keys an element by its value,
 * `radixSort` by one decimal digit at a time.
 */
module BucketSort {
  import opened CArith
  import Sorting

  // ---------------------------------------------------------------- digits

  /** `getDigit`: the decimal digit of `num` at place value `exp`, with C++ division. */
  function GetDigit(num: int, exp: int): (d: int)
    requires exp != 0
    ensures -9 <= d <= 9
    ensures num >= 0 && exp > 0 ==> 0 <= d <= 9 && d == (num / exp) % 10
  {
    NonNegativeAgree(Abs(num), Abs(exp));
    CMod(CDiv(num, exp), 10)
  }

  /** `countingSort` keys an element by its value... */
  const Value: int -> int := x => x

  /** ...and `radixSort` by its digit at place value `exp`. */
  function DigitKey(exp: int): int -> int
    requires exp > 0
  {
    x => GetDigit(x, exp)
  }

  /** Every element of `s` has a key in `lo..hi-1`. */
  predicate KeysIn(s: seq<int>, key: int -> int, lo: int, hi: int) {
    forall i :: 0 <= i < |s| ==> lo <= key(s[i]) < hi
  }

  // ---------------------------------------------------------------- the specification of a pass

  /** `x` alone when its key is `b`, nothing otherwise. */
  function Keep(x: int, key: int -> int, b: int): seq<int> {
    if key(x) == b then [x] else []
  }

  /** The elements of `s` whose key is `b`, in their order in `s`. */
  function Filter(s: seq<int>, key: int -> int, b: int): seq<int> {
    if s == [] then [] else Keep(s[0], key, b) + Filter(s[1..], key, b)
  }

  /** The blocks of keys `0..c-1`, in key order, each block in input order. */
  function Bucketed(s: seq<int>, key: int -> int, c: nat): seq<int> {
    if c == 0 then [] else Bucketed(s, key, c - 1) + Filter(s, key, c - 1)
  }

  lemma {:induction false} FilterAppend(s: seq<int>, t: seq<int>, key: int -> int, b: int)
    ensures Filter(s + t, key, b) == Filter(s, key, b) + Filter(t, key, b)
  {
    if s == [] {
      assert s + t == t;
    } else {
      var h := Keep(s[0], key, b);
      assert (s + t)[0] == s[0] && (s + t)[1..] == s[1..] + t;
      FilterAppend(s[1..], t, key, b);
      calc {
        Filter(s + t, key, b);
        h + Filter(s[1..] + t, key, b);
        h + (Filter(s[1..], key, b) + Filter(t, key, b));
        (h + Filter(s[1..], key, b)) + Filter(t, key, b);
      }
    }
  }

  lemma FilterSnoc(s: seq<int>, x: int, key: int -> int)
    ensures forall b :: Filter(s + [x], key, b) == Filter(s, key, b) + Keep(x, key, b)
  {
    forall b
      ensures Filter(s + [x], key, b) == Filter(s, key, b) + Keep(x, key, b)
    {
      FilterAppend(s, [x], key, b);
      assert [x][1..] == [];
    }
  }

  /** A block holds only elements of its key. */
  lemma {:induction false} FilterKeys(s: seq<int>, key: int -> int, b: int)
    ensures KeysIn(Filter(s, key, b), key, b, b + 1)
  {
    if s != [] {
      FilterKeys(s[1..], key, b);
      KeysInAppend(Keep(s[0], key, b), Filter(s[1..], key, b), key, b, b + 1);
    }
  }

  lemma KeysInAppend(x: seq<int>, y: seq<int>, key: int -> int, lo: int, hi: int)
    requires KeysIn(x, key, lo, hi) && KeysIn(y, key, lo, hi)
    ensures KeysIn(x + y, key, lo, hi)
  {
    forall i | 0 <= i < |x + y|
      ensures lo <= key((x + y)[i]) < hi
    {
      if i >= |x| {
        assert (x + y)[i] == y[i - |x|];
      } else {
        assert (x + y)[i] == x[i];
      }
    }
  }

  /** Where the `j`-th element of a block comes from in `s`. */
  lemma {:induction false} FilterSource(s: seq<int>, key: int -> int, b: int, j: int) returns (m: int)
    requires 0 <= j < |Filter(s, key, b)|
    ensures 0 <= m < |s| && s[m] == Filter(s, key, b)[j]
  {
    var h, r := Keep(s[0], key, b), Filter(s[1..], key, b);
    assert Filter(s, key, b) == h + r;
    if j < |h| {
      m := 0;
    } else {
      var m' := FilterSource(s[1..], key, b, j - |h|);
      m := m' + 1;
    }
  }

  /** A block keeps every pairwise relation that holds between earlier and later elements of `s`. */
  lemma {:induction false} FilterKeepsOrder(s: seq<int>, key: int -> int, b: int, P: (int, int) -> bool)
    requires Pairwise(s, P)
    ensures Pairwise(Filter(s, key, b), P)
  {
    if s != [] {
      var r := Filter(s[1..], key, b);
      FilterKeepsOrder(s[1..], key, b, P);
      if key(s[0]) == b {
        var f := [s[0]] + r;
        assert Filter(s, key, b) == f;
        forall i, j | 0 <= i < j < |f|
          ensures P(f[i], f[j])
        {
          if i == 0 {
            var m := FilterSource(s[1..], key, b, j - 1);
            assert f[j] == s[m + 1];
          } else {
            assert f[i] == r[i - 1] && f[j] == r[j - 1];
          }
        }
      } else {
        assert Filter(s, key, b) == r;
      }
    }
  }

  /** Taking the block of key `b` out of the block of key `c` gives it back when `b == c`, nothing otherwise. */
  lemma {:induction false} FilterFilter(s: seq<int>, key: int -> int, c: int, b: int)
    ensures Filter(Filter(s, key, c), key, b) == if b == c then Filter(s, key, b) else []
  {
    if s != [] {
      var r := Filter(s[1..], key, c);
      FilterFilter(s[1..], key, c, b);
      if key(s[0]) == c {
        assert Filter(s, key, c) == [s[0]] + r;
        FilterAppend([s[0]], r, key, b);
        assert [s[0]][1..] == [];
        assert Filter([s[0]], key, b) == Keep(s[0], key, b) + [];
      } else {
        assert Filter(s, key, c) == r;
        if b == c {
          assert Filter(s, key, b) == [] + Filter(s[1..], key, b);
        }
      }
    }
  }

  /** Every element of the first `c` blocks has a key in `0..c-1`. */
  lemma {:induction false} BucketedKeys(s: seq<int>, key: int -> int, c: nat)
    ensures KeysIn(Bucketed(s, key, c), key, 0, c)
  {
    if c > 0 {
      var p := c - 1;
      BucketedKeys(s, key, p);
      FilterKeys(s, key, p);
      assert Bucketed(s, key, c) == Bucketed(s, key, p) + Filter(s, key, p);
      KeysInAppend(Bucketed(s, key, p), Filter(s, key, p), key, 0, c);
    }
  }

  lemma {:induction false} BucketedMonotone(s: seq<int>, key: int -> int, b: nat, c: nat)
    requires b <= c
    ensures |Bucketed(s, key, b)| <= |Bucketed(s, key, c)|
    decreases c - b
  {
    if b < c {
      BucketedMonotone(s, key, b + 1, c);
    }
  }

  /** `x` counted once when its key is below `c`. */
  function Extra(x: int, key: int -> int, c: int): multiset<int> {
    if 0 <= key(x) < c then multiset{x} else multiset{}
  }

  lemma {:induction false} BucketedCons(x: int, s: seq<int>, key: int -> int, c: nat)
    ensures multiset(Bucketed([x] + s, key, c)) ==
      multiset(Bucketed(s, key, c)) + Extra(x, key, c)
  {
    if c > 0 {
      var p := c - 1;
      BucketedCons(x, s, key, p);
      ConsStep(x, s, key, c, p);
    }
  }

  /** The step of `BucketedCons` from the first `p` blocks to the first `c == p + 1`. */
  lemma ConsStep(x: int, s: seq<int>, key: int -> int, c: nat, p: nat)
    requires c > 0 && p == c - 1
    requires multiset(Bucketed([x] + s, key, p)) ==
      multiset(Bucketed(s, key, p)) + Extra(x, key, p)
    ensures multiset(Bucketed([x] + s, key, c)) ==
      multiset(Bucketed(s, key, c)) + Extra(x, key, c)
  {
    var u := [x] + s;
    assert u != [] && u[0] == x && u[1..] == s;
    assert Bucketed(u, key, c) == Bucketed(u, key, p) + Filter(u, key, p);
    assert Bucketed(s, key, c) == Bucketed(s, key, p) + Filter(s, key, p);
    var k := Keep(x, key, p);
    assert Filter(u, key, p) == k + Filter(s, key, p);
    var ex, ex' := Extra(x, key, p), Extra(x, key, c);
    assert ex + multiset(k) == ex' by {
      if key(x) == p {
        assert k == [x];
      } else {
        assert k == [];
      }
    }
    Regroup(multiset(Bucketed(u, key, p)), multiset(Bucketed(s, key, p)), multiset(Filter(s, key, p)), ex, multiset(k));
  }

  lemma Regroup(a: multiset<int>, b: multiset<int>, f: multiset<int>, ex: multiset<int>, k: multiset<int>)
    requires a == b + ex
    ensures a + (k + f) == (b + f) + (ex + k)
  {
    assert forall v :: (a + (k + f))[v] == ((b + f) + (ex + k))[v];
  }

  /** A pass only rearranges: when every key is below `K` the blocks hold exactly the input. */
  lemma {:induction false} BucketedPermutes(s: seq<int>, key: int -> int, K: nat)
    requires KeysIn(s, key, 0, K)
    ensures multiset(Bucketed(s, key, K)) == multiset(s)
  {
    if s == [] {
      EmptyBuckets(key, K);
    } else {
      var x, t := s[0], s[1..];
      assert s == [x] + t;
      assert 0 <= key(x) < K;
      BucketedPermutes(t, key, K);
      BucketedCons(x, t, key, K);
      assert Extra(x, key, K) == multiset{x};
    }
  }

  /** ...so a pass keeps the length. */
  lemma BucketedLength(s: seq<int>, key: int -> int, K: nat)
    requires KeysIn(s, key, 0, K)
    ensures |Bucketed(s, key, K)| == |s|
  {
    BucketedPermutes(s, key, K);
    assert |multiset(Bucketed(s, key, K))| == |multiset(s)|;
  }

  lemma {:induction false} EmptyBuckets(key: int -> int, c: nat)
    ensures Bucketed([], key, c) == []
  {
    if c > 0 {
      var p := c - 1;
      EmptyBuckets(key, p);
      assert Bucketed([], key, c) == Bucketed([], key, p) + Filter([], key, p);
    }
  }

  /**
   * A pass is stable: the elements of any one key appear in the result in the
   * order they had in the input.
   */
  lemma {:induction false} BucketedStable(s: seq<int>, key: int -> int, K: nat, b: int)
    ensures Filter(Bucketed(s, key, K), key, b) == if 0 <= b < K then Filter(s, key, b) else []
  {
    if K > 0 {
      var p := K - 1;
      BucketedStable(s, key, p, b);
      StableStep(s, key, K, p, b);
    }
  }

  lemma StableStep(s: seq<int>, key: int -> int, K: nat, p: nat, b: int)
    requires K > 0 && p == K - 1
    requires Filter(Bucketed(s, key, p), key, b) == if 0 <= b < p then Filter(s, key, b) else []
    ensures Filter(Bucketed(s, key, K), key, b) == if 0 <= b < K then Filter(s, key, b) else []
  {
    var x, y := Bucketed(s, key, p), Filter(s, key, p);
    assert Bucketed(s, key, K) == x + y;
    FilterAppend(x, y, key, b);
    FilterFilter(s, key, p, b);
    if 0 <= b < p {
      assert Filter(x + y, key, b) == Filter(s, key, b) + [];
    } else if b == p {
      assert Filter(x + y, key, b) == [] + Filter(s, key, b);
    } else {
      assert Filter(x + y, key, b) == [] + [];
    }
  }

  /** `P` holds from every element of `t` to every later one. */
  ghost predicate Pairwise(t: seq<int>, P: (int, int) -> bool) {
    forall i, j :: 0 <= i < j < |t| ==> P(t[i], t[j])
  }

  /** `t` is ordered by key, and by `P` among elements of equal key. */
  ghost predicate OrderedBy(t: seq<int>, key: int -> int, P: (int, int) -> bool) {
    forall i, j :: 0 <= i < j < |t| ==>
      key(t[i]) < key(t[j]) || (key(t[i]) == key(t[j]) && P(t[i], t[j]))
  }

  lemma OrderedAppend(x: seq<int>, y: seq<int>, key: int -> int, P: (int, int) -> bool, c: int)
    requires OrderedBy(x, key, P) && KeysIn(x, key, 0, c)
    requires Pairwise(y, P) && KeysIn(y, key, c, c + 1)
    ensures OrderedBy(x + y, key, P)
  {
    forall i, j | 0 <= i < j < |x + y|
      ensures key((x + y)[i]) < key((x + y)[j]) || (key((x + y)[i]) == key((x + y)[j]) && P((x + y)[i], (x + y)[j]))
    {
      if j < |x| {
        assert (x + y)[i] == x[i] && (x + y)[j] == x[j];
      } else if i < |x| {
        assert (x + y)[i] == x[i] && (x + y)[j] == y[j - |x|];
      } else {
        assert (x + y)[i] == y[i - |x|] && (x + y)[j] == y[j - |x|];
      }
    }
  }

  /**
   * The result of a pass is ordered by key and, within one key, keeps every
   * pairwise relation `P` that held from earlier to later input elements.
   */
  lemma {:induction false} BucketedOrder(s: seq<int>, key: int -> int, c: nat, P: (int, int) -> bool)
    requires Pairwise(s, P)
    ensures OrderedBy(Bucketed(s, key, c), key, P)
  {
    if c > 0 {
      var p := c - 1;
      BucketedOrder(s, key, p, P);
      OrderedStep(s, key, c, p, P);
    }
  }

  /** Appending the block of key `c - 1` keeps the blocks ordered. */
  lemma OrderedStep(s: seq<int>, key: int -> int, c: nat, p: nat, P: (int, int) -> bool)
    requires Pairwise(s, P) && c > 0 && p == c - 1
    requires OrderedBy(Bucketed(s, key, p), key, P)
    ensures OrderedBy(Bucketed(s, key, c), key, P)
  {
    var x, y := Bucketed(s, key, p), Filter(s, key, p);
    assert Bucketed(s, key, c) == x + y;
    BucketedKeys(s, key, p);
    FilterKeys(s, key, p);
    FilterKeepsOrder(s, key, p, P);
    OrderedAppend(x, y, key, P, p);
  }

  // ---------------------------------------------------------------- the counting pass

  /**
   * One counting pass over `a` by `key` with keys in `0..K-1`: `a` becomes
   * the blocks of its keys in key order, each block in input order.
   */
  method CountingPass(a: array<int>, key: int -> int, K: nat)
    requires K >= 1 && KeysIn(a[..], key, 0, K)
    modifies a
    ensures a[..] == Bucketed(old(a[..]), key, K)
  {
    ghost var st := Starts(a[..], key, K);
    var count := CountKeys(a, key, K);
    PrefixSums(count, st);
    var output := Place(a, key, count, K, st);
    forall i | 0 <= i < a.Length {
      a[i] := output[i];
    }
    assert a[..] == output[..];
  }

  /** The first loop of a pass: `count[b]` is the number of elements with key `b`. */
  method CountKeys(a: array<int>, key: int -> int, K: nat) returns (count: array<int>)
    requires KeysIn(a[..], key, 0, K)
    ensures fresh(count) && count.Length == K
    ensures forall b :: 0 <= b < K ==> count[b] == |Filter(a[..], key, b)|
  {
    count := new int[K](_ => 0);
    var i := 0;
    while i < a.Length
      invariant 0 <= i <= a.Length
      invariant forall b :: 0 <= b < K ==> count[b] == |Filter(a[..i], key, b)|
    {
      var d := key(a[i]);
      FilterSnoc(a[..i], a[i], key);
      assert a[..i + 1] == a[..i] + [a[i]];
      count[d] := count[d] + 1;
      i := i + 1;
    }
    assert a[..a.Length] == a[..];
  }

  /**
   * `st` lists where the blocks start: block `b` runs from `st[b]` to
   * `st[b + 1]`, as long as the elements with key `b`.
   */
  ghost predicate Widths(s: seq<int>, key: int -> int, st: seq<int>) {
    && |st| >= 1 && st[0] == 0
    && forall b {:trigger Filter(s, key, b)} :: 0 <= b < |st| - 1 ==> st[b] + |Filter(s, key, b)| == st[b + 1]
  }

  /** The starts of blocks `0..c`. */
  ghost function Starts(s: seq<int>, key: int -> int, c: nat): (st: seq<int>)
    ensures |st| == c + 1 && Widths(s, key, st)
  {
    if c == 0 then [0]
    else
      var k := c - 1;
      var p := Starts(s, key, k);
      var st := p + [p[k] + |Filter(s, key, k)|];
      assert forall b :: 0 <= b < k ==> st[b] == p[b];
      st
  }

  predicate Ascending(st: seq<int>) {
    forall b, c :: 0 <= b <= c < |st| ==> st[b] <= st[c]
  }

  /** The starts only grow... */
  lemma {:induction false} StartsAscending(s: seq<int>, key: int -> int, c: nat)
    ensures Ascending(Starts(s, key, c))
  {
    if c > 0 {
      var k := c - 1;
      StartsAscending(s, key, k);
      var p, st := Starts(s, key, k), Starts(s, key, c);
      assert st == p + [p[k] + |Filter(s, key, k)|];
      forall b, j | 0 <= b <= j < |st|
        ensures st[b] <= st[j]
      {
        if j == c {
          if b < c {
            assert st[b] == p[b] <= p[k];
          }
        } else {
          assert st[b] == p[b] && st[j] == p[j];
        }
      }
    }
  }

  /** ...and the last one is the sum of all block sizes. */
  lemma {:induction false} StartsLast(s: seq<int>, key: int -> int, c: nat)
    ensures Starts(s, key, c)[c] == |Bucketed(s, key, c)|
  {
    if c > 0 {
      var k := c - 1;
      StartsLast(s, key, k);
      var p := Starts(s, key, k);
      assert Starts(s, key, c) == p + [p[k] + |Filter(s, key, k)|];
      assert Bucketed(s, key, c) == Bucketed(s, key, k) + Filter(s, key, k);
    }
  }

  /** The starts of a pass only grow, and the last one is the length of the input. */
  lemma StartsEnd(s: seq<int>, key: int -> int, K: nat)
    requires KeysIn(s, key, 0, K)
    ensures Ascending(Starts(s, key, K)) && Starts(s, key, K)[K] == |s|
  {
    StartsAscending(s, key, K);
    StartsLast(s, key, K);
    BucketedLength(s, key, K);
  }

  /** The second loop of a pass: `count[b]` becomes the end of block `b`. */
  method PrefixSums(count: array<int>, ghost st: seq<int>)
    requires |st| == count.Length + 1 && count.Length >= 1 && st[0] == 0
    requires forall b :: 0 <= b < count.Length ==> st[b] + count[b] == st[b + 1]
    modifies count
    ensures forall b :: 0 <= b < count.Length ==> count[b] == st[b + 1]
  {
    var i := 1;
    while i < count.Length
      invariant 1 <= i <= count.Length
      invariant forall b :: 0 <= b < i ==> count[b] == st[b + 1]
      invariant forall b :: i <= b < count.Length ==> st[b] + count[b] == st[b + 1]
    {
      count[i] := count[i] + count[i - 1];
      i := i + 1;
    }
  }

  /**
   * The third loop's layout: block `b` has its free slots from `st[b]` to
   * `cnt[b]`, then its placed elements `done[b]`, up to the block's end.
   */
  ghost predicate Layout(st: seq<int>, cnt: seq<int>, out: seq<int>, done: seq<seq<int>>) {
    && |st| == |cnt| + 1 && |done| == |cnt|
    && forall b :: 0 <= b < |cnt| ==> Slots(st, cnt, out, done, b)
  }

  /** Block `b` of the layout. */
  ghost predicate Slots(st: seq<int>, cnt: seq<int>, out: seq<int>, done: seq<seq<int>>, b: int)
    requires |st| == |cnt| + 1 && |done| == |cnt| && 0 <= b < |cnt|
  {
    && 0 <= st[b] <= cnt[b]
    && cnt[b] + |done[b]| == st[b + 1] <= |out|
    && out[cnt[b]..st[b + 1]] == done[b]
  }

  /** `done[b]` holds the elements of `s[i..]` with key `b`, in order. */
  ghost predicate Tracks(s: seq<int>, key: int -> int, done: seq<seq<int>>, i: int) {
    && 0 <= i <= |s|
    && forall b :: 0 <= b < |done| ==> done[b] == Filter(s[i..], key, b)
  }

  /** The third loop of a pass: elements are placed from the right, each at the end of its block. */
  method Place(a: array<int>, key: int -> int, count: array<int>, K: nat, ghost st: seq<int>)
      returns (output: array<int>)
    requires count != a && count.Length == K && KeysIn(a[..], key, 0, K)
    requires st == Starts(a[..], key, K)
    requires forall b :: 0 <= b < K ==> count[b] == st[b + 1]
    modifies count
    ensures fresh(output) && output.Length == a.Length
    ensures output[..] == Bucketed(a[..], key, K)
  {
    ghost var s := a[..];
    StartsEnd(s, key, K);
    output := new int[a.Length];
    ghost var done: seq<seq<int>> := seq(K, _ => []);
    PlaceStart(s, key, st, count[..], output[..], done);
    var i := a.Length - 1;
    ghost var j := a.Length;
    while i >= 0
      invariant -1 <= i < a.Length && j == i + 1
      invariant Layout(st, count[..], output[..], done)
      invariant Tracks(s, key, done, j)
    {
      ghost var cnt, out := count[..], output[..];
      var x := a[i];
      var d := key(x);
      Slot(s, key, st, cnt, out, done, i, j);
      var pos := count[d] - 1;
      output[pos] := x;
      count[d] := pos;
      assert count[..] == cnt[d := pos];
      assert output[..] == out[pos := x];
      ghost var done' := done[d := [x] + done[d]];
      LayoutStep(st, cnt, out, done, d, x, pos, count[..], output[..], done');
      TrackStep(s, key, done, i, j, done');
      done := done';
      j := i;
      i := i - 1;
    }
    PlacedAll(s, key, st, count[..], output[..], done);
  }

  /** Before the third loop: every block is all free slots. */
  lemma PlaceStart(s: seq<int>, key: int -> int, st: seq<int>, cnt: seq<int>, out: seq<int>, done: seq<seq<int>>)
    requires |st| == |cnt| + 1 && |done| == |cnt| && |out| == st[|cnt|] && st[0] == 0 && Ascending(st)
    requires forall b :: 0 <= b < |cnt| ==> cnt[b] == st[b + 1] && done[b] == []
    ensures Layout(st, cnt, out, done) && Tracks(s, key, done, |s|)
  {
    assert s[|s|..] == [];
  }

  /** The element about to be placed has a free slot in its block. */
  lemma Slot(s: seq<int>, key: int -> int, st: seq<int>, cnt: seq<int>, out: seq<int>, done: seq<seq<int>>, i: int, j: int)
    requires Layout(st, cnt, out, done) && Tracks(s, key, done, j) && j == i + 1
    requires KeysIn(s, key, 0, |cnt|) && 0 <= i && Widths(s, key, st)
    ensures 0 <= key(s[i]) < |cnt|
    ensures 0 <= st[key(s[i])] < cnt[key(s[i])] <= |out|
  {
    var d := key(s[i]);
    assert Slots(st, cnt, out, done, d);
    assert s == s[..j] + s[j..];
    FilterAppend(s[..j], s[j..], key, d);
    SplitAt(s, key, i, j, d);
    assert done[d] == Filter(s[j..], key, d);
  }

  /** Placing `x` at the last free slot of block `d` keeps the layout. */
  lemma LayoutStep(st: seq<int>, cnt: seq<int>, out: seq<int>, done: seq<seq<int>>, d: int, x: int, p: int,
                    cnt': seq<int>, out': seq<int>, done': seq<seq<int>>)
    requires Layout(st, cnt, out, done) && Ascending(st) && 0 <= d < |cnt| && 0 <= st[d] < cnt[d] <= |out|
    requires p == cnt[d] - 1 && cnt' == cnt[d := p] && out' == out[p := x] && done' == done[d := [x] + done[d]]
    ensures Layout(st, cnt', out', done')
  {
    assert Slots(st, cnt, out, done, d);
    forall b | 0 <= b < |cnt|
      ensures Slots(st, cnt', out', done', b)
    {
      assert Slots(st, cnt, out, done, b);
      if b == d {
        assert out'[p..st[b + 1]] == [x] + out[cnt[d]..st[b + 1]] by {
          assert out'[p..st[b + 1]][1..] == out[cnt[d]..st[b + 1]];
        }
      } else {
        assert cnt[b] <= st[b + 1];
        if b < d {
          assert st[b + 1] <= st[d];
        } else {
          assert st[d + 1] <= st[b];
        }
        SliceMiss(out, p, x, cnt[b], st[b + 1]);
      }
    }
  }

  /** A write outside a slice leaves the slice as it was. */
  lemma SliceMiss(out: seq<int>, p: int, x: int, lo: int, hi: int)
    requires 0 <= p < |out| && 0 <= lo <= hi <= |out| && (p < lo || hi <= p)
    ensures out[p := x][lo..hi] == out[lo..hi]
  {
  }

  /** Placing `s[i-1]` adds it at the front of its key's placed elements. */
  lemma TrackStep(s: seq<int>, key: int -> int, done: seq<seq<int>>, i: int, j: int, done': seq<seq<int>>)
    requires Tracks(s, key, done, j) && j == i + 1 && 0 <= i && 0 <= key(s[i]) < |done|
    requires done' == done[key(s[i]) := [s[i]] + done[key(s[i])]]
    ensures Tracks(s, key, done', i)
  {
    forall b | 0 <= b < |done|
      ensures done'[b] == Filter(s[i..], key, b)
    {
      SplitAt(s, key, i, j, b);
    }
  }

  /** How block `b` of `s[..j]` and of `s[i..]` grows from that of `s[..i]` and of `s[j..]`, for `j == i + 1`. */
  lemma SplitAt(s: seq<int>, key: int -> int, i: int, j: int, b: int)
    requires 0 <= i < |s| && j == i + 1
    ensures Filter(s[..j], key, b) == Filter(s[..i], key, b) + Keep(s[i], key, b)
    ensures Filter(s[i..], key, b) == Keep(s[i], key, b) + Filter(s[j..], key, b)
  {
    assert s[..j] == s[..i] + [s[i]];
    FilterSnoc(s[..i], s[i], key);
    var t := s[i..];
    assert t != [] && t[0] == s[i] && t[1..] == s[j..];
  }

  /** When the third loop ends, the output is the blocks, in key order. */
  lemma PlacedAll(s: seq<int>, key: int -> int, st: seq<int>, cnt: seq<int>, out: seq<int>, done: seq<seq<int>>)
    requires Widths(s, key, st) && Ascending(st) && |out| == |s|
    requires Layout(st, cnt, out, done) && Tracks(s, key, done, 0) && st[|cnt|] == |s|
    ensures out == Bucketed(s, key, |cnt|)
  {
    forall b | 0 <= b < |cnt|
      ensures out[st[b]..st[b + 1]] == Filter(s, key, b)
    {
      BlockFull(s, key, st, cnt, out, done, b);
    }
    PlacedPrefix(s, key, st, out, |cnt|);
    assert out[..|out|] == out;
  }

  /** Once every element is placed, block `b` has no free slot left and holds the elements with key `b`. */
  lemma BlockFull(s: seq<int>, key: int -> int, st: seq<int>, cnt: seq<int>, out: seq<int>, done: seq<seq<int>>, b: int)
    requires Widths(s, key, st) && |st| == |cnt| + 1 && |done| == |cnt| && 0 <= b < |cnt|
    requires Slots(st, cnt, out, done, b) && Tracks(s, key, done, 0)
    ensures out[st[b]..st[b + 1]] == Filter(s, key, b)
  {
    assert s[0..] == s;
    assert done[b] == Filter(s, key, b);
    assert st[b] + |Filter(s, key, b)| == st[b + 1];
    assert cnt[b] == st[b];
  }

  /** The first `c` blocks of the output are the first `c` blocks of the result. */
  lemma {:induction false} PlacedPrefix(s: seq<int>, key: int -> int, st: seq<int>, out: seq<int>, c: nat)
    requires c < |st| && st[0] == 0 && st[c] <= |out| && Ascending(st)
    requires forall b :: 0 <= b < c ==> out[st[b]..st[b + 1]] == Filter(s, key, b)
    ensures out[..st[c]] == Bucketed(s, key, c)
  {
    if c > 0 {
      var b := c - 1;
      PlacedPrefix(s, key, st, out, b);
      assert Bucketed(s, key, c) == Bucketed(s, key, b) + Filter(s, key, b);
      assert out[st[b]..st[b + 1]] == Filter(s, key, b);
      Join(out, st[b], st[b + 1], Bucketed(s, key, b), Filter(s, key, b));
    }
  }

  lemma Join(out: seq<int>, m: int, n: int, x: seq<int>, y: seq<int>)
    requires 0 <= m <= n <= |out| && out[..m] == x && out[m..n] == y
    ensures out[..n] == x + y
  {
    assert out[..n] == out[..m] + out[m..n];
  }

  // ---------------------------------------------------------------- the two sorts

  /** `*max_element`: the largest element of a non-empty sequence. */
  function MaxOf(s: seq<int>): (m: int)
    requires |s| > 0
    ensures m in s
    ensures forall i :: 0 <= i < |s| ==> s[i] <= m
  {
    if |s| == 1 then s[0]
    else
      var r := MaxOf(s[1..]);
      assert r in s[1..];
      if s[0] >= r then s[0] else r
  }

  predicate AllNonNegative(s: seq<int>) {
    forall i :: 0 <= i < |s| ==> s[i] >= 0
  }

  /**
   * `countingSort`, on the non-negative input it is written for: one pass
   * keyed by value with `max + 1` counters.
   */
  method CountingSort(a: array<int>)
    requires a.Length > 0 && AllNonNegative(a[..])
    modifies a
    ensures Sorting.Sorted(a[..])
    ensures multiset(a[..]) == multiset(old(a[..]))
  {
    ghost var s := a[..];
    var maxVal := MaxOf(a[..]);
    var k := maxVal + 1;
    ValueKeys(s, k);
    CountingPass(a, Value, k);
    ValueBlocksSorted(s, k);
  }

  lemma ValueKeys(s: seq<int>, K: int)
    requires AllNonNegative(s) && |s| > 0 && K == MaxOf(s) + 1
    ensures K >= 1 && KeysIn(s, Value, 0, K)
  {
  }

  /** Blocks keyed by value are the input in ascending order. */
  lemma ValueBlocksSorted(s: seq<int>, K: nat)
    requires KeysIn(s, Value, 0, K)
    ensures Sorting.Sorted(Bucketed(s, Value, K))
    ensures multiset(Bucketed(s, Value, K)) == multiset(s)
  {
    BucketedPermutes(s, Value, K);
    var t := Bucketed(s, Value, K);
    BucketedOrder(s, Value, K, (x, y) => true);
    assert OrderedBy(t, Value, (x, y) => true);
    forall i, j | 0 <= i < j < |t|
      ensures t[i] <= t[j]
    {
      assert Value(t[i]) <= Value(t[j]);
    }
  }

  /** The elements are in order of their remainders modulo `m`. */
  ghost predicate SortedMod(s: seq<int>, m: nat)
    requires m > 0
  {
    forall i, j :: 0 <= i < j < |s| ==> s[i] % m <= s[j] % m
  }

  /**
   * Every digit the passes of `radixSort` read from place value `exp` on, while
   * `exp <= maxVal`, lies in `0..9`, so no pass indexes `count` below 0. A
   * negative element reads a negative digit only at a place where its
   * truncated quotient is not a multiple of ten.
   */
  predicate DigitsInRange(s: seq<int>, maxVal: int, exp: int)
    requires exp >= 1
    decreases maxVal - exp
  {
    exp > maxVal || ((forall i :: 0 <= i < |s| ==> GetDigit(s[i], exp) >= 0) && DigitsInRange(s, maxVal, exp * 10))
  }

  /** The array after the passes of `radixSort` from place value `exp` on, while `exp <= maxVal`. */
  ghost function PassesFrom(s: seq<int>, maxVal: int, exp: int): seq<int>
    requires exp >= 1
    decreases maxVal - exp
  {
    if exp > maxVal then s else PassesFrom(Bucketed(s, DigitKey(exp), 10), maxVal, exp * 10)
  }

  /** Non-negative input, or a maximum below 1, reads only digits in `0..9`. */
  lemma {:induction false} NonNegativeDigits(s: seq<int>, maxVal: int, exp: int)
    requires exp >= 1 && (AllNonNegative(s) || maxVal <= 0)
    ensures DigitsInRange(s, maxVal, exp)
    decreases maxVal - exp
  {
    if exp <= maxVal {
      assert AllNonNegative(s);
      NonNegativeDigits(s, maxVal, exp * 10);
    }
  }

  /**
   * `radixSort`: one counting pass per decimal digit, least significant first,
   * while `maxVal / exp > 0`. When no pass reads a negative digit the array
   * becomes the result of those passes, a permutation of the input; on
   * non-negative input it is sorted, and when the maximum is not positive no
   * pass runs and the array is unchanged.
   */
  method RadixSort(a: array<int>)
    requires a.Length > 0 && DigitsInRange(a[..], MaxOf(a[..]), 1)
    modifies a
    ensures a[..] == PassesFrom(old(a[..]), MaxOf(old(a[..])), 1)
    ensures multiset(a[..]) == multiset(old(a[..]))
    ensures AllNonNegative(old(a[..])) ==> Sorting.Sorted(a[..])
    ensures MaxOf(old(a[..])) <= 0 ==> a[..] == old(a[..])
  {
    ghost var s0 := a[..];
    var maxVal := MaxOf(a[..]);
    var exp := 1;
    RadixInit(s0, maxVal);
    while CDiv(maxVal, exp) > 0
      invariant RadixInv(s0, a[..], maxVal, exp)
      decreases maxVal - exp
    {
      ghost var s := a[..];
      var key := DigitKey(exp);
      RadixLive(s0, s, maxVal, exp, key);
      CountingPass(a, key, 10);
      var next := exp * 10;
      RadixPass(s0, s, a[..], maxVal, exp, next, key);
      exp := next;
    }
    RadixEnd(s0, a[..], maxVal, exp);
  }

  /**
   * The loop invariant of `radixSort`: the passes still to run lead from the
   * array to the final result and read only digits in `0..9`; the array holds
   * the input's elements; on non-negative input it is ordered by the digits
   * below `exp`, and with a maximum below 1 it is untouched.
   */
  ghost predicate RadixInv(s0: seq<int>, s: seq<int>, maxVal: int, exp: int) {
    && exp >= 1
    && DigitsInRange(s0, maxVal, exp)
    && PassesFrom(s, maxVal, exp) == PassesFrom(s0, maxVal, 1)
    && multiset(s) == multiset(s0)
    && (forall i :: 0 <= i < |s| ==> s[i] <= maxVal)
    && (maxVal <= 0 ==> s == s0)
    && (AllNonNegative(s0) ==> AllNonNegative(s) && SortedMod(s, exp))
  }

  lemma RadixInit(s0: seq<int>, maxVal: int)
    requires |s0| > 0 && maxVal == MaxOf(s0)
    requires DigitsInRange(s0, maxVal, 1)
    ensures RadixInv(s0, s0, maxVal, 1)
  {
  }

  /** Inside the loop `exp <= maxVal`, so the pass at `exp` reads a digit in `0..9` of every element. */
  lemma RadixLive(s0: seq<int>, s: seq<int>, maxVal: int, exp: int, key: int -> int)
    requires RadixInv(s0, s, maxVal, exp) && CDiv(maxVal, exp) > 0 && key == DigitKey(exp)
    ensures maxVal >= exp && KeysIn(s, key, 0, 10)
  {
    QuotientPositive(maxVal, exp);
    assert forall i :: 0 <= i < |s0| ==> GetDigit(s0[i], exp) >= 0;
    DigitKeys(s0, s, exp, key);
  }

  /** One pass keeps the invariant, with `exp` multiplied by ten. */
  lemma RadixPass(s0: seq<int>, s: seq<int>, t: seq<int>, maxVal: int, exp: int, next: int, key: int -> int)
    requires RadixInv(s0, s, maxVal, exp) && maxVal >= exp
    requires key == DigitKey(exp) && next == exp * 10 && KeysIn(s, key, 0, 10)
    requires t == Bucketed(s, key, 10)
    ensures RadixInv(s0, t, maxVal, next)
  {
    assert PassesFrom(s, maxVal, exp) == PassesFrom(t, maxVal, next);
    RadixKeeps(s, t, key, maxVal);
    if AllNonNegative(s0) {
      RadixStep(s, t, exp, next, key);
    }
  }

  /** When the loop stops the array is the result of the passes: sorted on non-negative input, untouched when no pass ran. */
  lemma RadixEnd(s0: seq<int>, s: seq<int>, maxVal: int, exp: int)
    requires |s0| > 0 && maxVal == MaxOf(s0)
    requires RadixInv(s0, s, maxVal, exp) && CDiv(maxVal, exp) <= 0
    ensures s == PassesFrom(s0, maxVal, 1)
    ensures multiset(s) == multiset(s0)
    ensures AllNonNegative(s0) ==> Sorting.Sorted(s)
    ensures MaxOf(s0) <= 0 ==> s == s0
  {
    QuotientZero(maxVal, exp);
    if AllNonNegative(s0) {
      RadixDone(s, exp, maxVal);
    }
  }

  /** The loop of `radixSort` stops once `exp` exceeds `maxVal`. */
  lemma QuotientZero(a: int, b: int)
    requires b >= 1 && CDiv(a, b) <= 0
    ensures a < b
  {
    if a >= 0 {
      NonNegativeAgree(a, b);
      MulMonotone(a / b, 0, b);
    }
  }

  /** The loop of `radixSort` runs only while `exp` is at most `maxVal`. */
  lemma QuotientPositive(a: int, b: int)
    requires b >= 1 && CDiv(a, b) > 0
    ensures a >= b
  {
  }

  /** The digits of the input at `exp` are in `0..9`, so those of any rearrangement are. */
  lemma DigitKeys(s0: seq<int>, s: seq<int>, exp: int, key: int -> int)
    requires multiset(s) == multiset(s0) && exp > 0 && key == DigitKey(exp)
    requires forall i :: 0 <= i < |s0| ==> GetDigit(s0[i], exp) >= 0
    ensures KeysIn(s, key, 0, 10)
  {
    forall i | 0 <= i < |s|
      ensures 0 <= key(s[i]) < 10
    {
      assert s[i] in multiset(s0);
      var j :| 0 <= j < |s0| && s0[j] == s[i];
    }
  }

  /** A pass of `radixSort` keeps the elements, so they stay at most `maxVal`, and non-negative if they were. */
  lemma RadixKeeps(s: seq<int>, t: seq<int>, key: int -> int, maxVal: int)
    requires KeysIn(s, key, 0, 10)
    requires forall i :: 0 <= i < |s| ==> s[i] <= maxVal
    requires t == Bucketed(s, key, 10)
    ensures multiset(t) == multiset(s)
    ensures forall i :: 0 <= i < |t| ==> t[i] <= maxVal
    ensures AllNonNegative(s) ==> AllNonNegative(t)
  {
    BucketedPermutes(s, key, 10);
    forall i | 0 <= i < |t|
      ensures t[i] <= maxVal && (AllNonNegative(s) ==> t[i] >= 0)
    {
      assert t[i] in multiset(s);
      var m :| 0 <= m < |s| && s[m] == t[i];
    }
  }

  /**
   * A pass of `radixSort` at place value `E` extends the order from the digits
   * below `E` to those below `E10 == 10 * E`.
   */
  lemma RadixStep(s: seq<int>, t: seq<int>, E: int, E10: int, key: int -> int)
    requires E > 0 && E10 == E * 10 && key == DigitKey(E)
    requires AllNonNegative(s) && SortedMod(s, E) && AllNonNegative(t)
    requires t == Bucketed(s, key, 10)
    ensures SortedMod(t, E10)
  {
    var P := (x, y) => x % E <= y % E;
    assert Pairwise(s, P);
    BucketedOrder(s, key, 10, P);
    forall i, j | 0 <= i < j < |t|
      ensures t[i] % E10 <= t[j] % E10
    {
      DigitOrder(t[i], t[j], E, E10);
    }
  }

  /** Ordered by the digit at `E` and then by the digits below it means ordered by the digits below `10 * E`. */
  lemma DigitOrder(x: int, y: int, E: int, E10: int)
    requires x >= 0 && y >= 0 && E > 0 && E10 == E * 10
    requires GetDigit(x, E) < GetDigit(y, E) || (GetDigit(x, E) == GetDigit(y, E) && x % E <= y % E)
    ensures x % E10 <= y % E10
  {
    var dx, dy := GetDigit(x, E), GetDigit(y, E);
    var rx, ry := x % E, y % E;
    ModSplit(x, E, E10, dx, rx);
    ModSplit(y, E, E10, dy, ry);
    if dx < dy {
      var dx1 := dx + 1;
      MulMonotone(dx1, dy, E);
      MulSucc(dx, dx1, E);
    }
  }

  /** The digits of `x` below `E10 == 10 * E`: its digit `d` at `E` above its digits `r` below `E`. */
  lemma ModSplit(x: int, E: int, E10: int, d: int, r: int)
    requires x >= 0 && E > 0 && E10 == E * 10 && d == GetDigit(x, E) && r == x % E
    ensures x % E10 == d * E + r
    ensures 0 <= r < E
  {
    var q := x / E;
    var h := q / 10;
    assert x == q * E + r;
    assert q == h * 10 + d;
    assert x == h * E10 + (d * E + r) by {
      assert q * E == (h * 10 + d) * E;
    }
    MulMonotone(d, 9, E);
    ModUnique(x, E10, h, d * E + r);
  }

  lemma MulSucc(d: int, d1: int, E: int)
    requires d1 == d + 1
    ensures d1 * E == d * E + E
  {
  }

  /** When `exp` passes `maxVal`, order modulo `exp` is plain order. */
  lemma RadixDone(t: seq<int>, exp: int, maxVal: int)
    requires exp > 0 && CDiv(maxVal, exp) <= 0 && AllNonNegative(t)
    requires forall i :: 0 <= i < |t| ==> t[i] <= maxVal
    requires SortedMod(t, exp)
    ensures Sorting.Sorted(t)
  {
    forall i | 0 <= i < |t|
      ensures t[i] % exp == t[i]
    {
      ModUnique(t[i], exp, 0, t[i]);
    }
  }
}
