/**
 * The searching executable: an iterative binary search over `arr[left..right]`,
 * and `main`, which either builds the even numbers `0, 2, .., 2(n-1)` from the
 * command line or reads the array from standard input.
 */
module Searching {
  import opened Wrappers
  import Decimal
  import Sorting

  /** One probe of the loop: the current bounds and the middle position checked. */
  datatype Probe = Probe(left: int, right: int, mid: int)

  /** The probe lies inside the range it was asked about, with `mid` between its bounds. */
  predicate Within(p: Probe, left: int, right: int) {
    left <= p.left <= p.mid <= p.right <= right
  }

  function Width(p: Probe): int {
    p.right - p.left
  }

  /** `target` occurs nowhere among the positions `lo..hi` of `a`. */
  ghost predicate Absent(a: seq<int>, lo: int, hi: int, target: int) {
    forall k :: lo <= k <= hi && 0 <= k < |a| ==> a[k] != target
  }

  /** `target` occurs nowhere in `left..right` outside the live bounds `lo..hi`. */
  ghost predicate Excluded(a: seq<int>, left: int, lo: int, hi: int, right: int, target: int) {
    forall k :: left <= k <= right && 0 <= k < |a| && (k < lo || hi < k) ==> a[k] != target
  }

  /**
   * `binarySearch(arr, left, right, target)`. Besides the index it returns the
   * probes in the order the loop makes them (the "Checking middle element"
   * steps): each lies in the original range and is narrower than the one before,
   * which is why the loop ends.
   */
  method BinarySearch(a: array<int>, left: int, right: int, target: int) returns (r: int, probes: seq<Probe>)
    requires 0 <= left && right < a.Length
    ensures r == -1 || (left <= r <= right && a[r] == target)
    ensures r != -1 ==> |probes| > 0 && probes[|probes| - 1].mid == r
    ensures forall k :: 0 <= k < |probes| ==> Within(probes[k], left, right)
    ensures forall k :: 0 <= k < |probes| - 1 ==> Width(probes[k + 1]) < Width(probes[k])
    ensures Sorting.Sorted(a[..]) && r == -1 ==> Absent(a[..], left, right, target)
  {
    var lo, hi := left, right;
    probes := [];
    while lo <= hi
      invariant left <= lo && hi <= right
      invariant forall k :: 0 <= k < |probes| ==> Within(probes[k], left, right)
      invariant forall k :: 0 <= k < |probes| - 1 ==> Width(probes[k + 1]) < Width(probes[k])
      invariant |probes| > 0 ==> hi - lo < Width(probes[|probes| - 1])
      invariant Sorting.Sorted(a[..]) ==> Excluded(a[..], left, lo, hi, right, target)
      decreases hi - lo
    {
      var mid := lo + (hi - lo) / 2;
      probes := probes + [Probe(lo, hi, mid)];
      if a[mid] == target {
        return mid, probes;
      } else if a[mid] < target {
        var next := mid + 1;
        if Sorting.Sorted(a[..]) {
          ExcludeBelow(a[..], left, lo, hi, right, mid, next, target);
        }
        lo := next;
      } else {
        var next := mid - 1;
        if Sorting.Sorted(a[..]) {
          ExcludeAbove(a[..], left, lo, hi, right, mid, next, target);
        }
        hi := next;
      }
    }
    if Sorting.Sorted(a[..]) {
      BothSides(a[..], left, lo, hi, right, target);
    }
    r := -1;
  }

  /** On a sorted array, `a[mid] < target` rules out everything up to `mid`. */
  lemma ExcludeBelow(a: seq<int>, left: int, lo: int, hi: int, right: int, mid: int, next: int, target: int)
    requires Sorting.Sorted(a) && 0 <= mid < |a| && a[mid] < target && next == mid + 1
    requires Excluded(a, left, lo, hi, right, target)
    ensures Excluded(a, left, next, hi, right, target)
  {
    forall k | left <= k <= right && 0 <= k < |a| && (k < next || hi < k)
      ensures a[k] != target
    {
      if lo <= k <= mid {
        assert a[k] <= a[mid];
      }
    }
  }

  /** On a sorted array, `a[mid] > target` rules out everything from `mid` on. */
  lemma ExcludeAbove(a: seq<int>, left: int, lo: int, hi: int, right: int, mid: int, next: int, target: int)
    requires Sorting.Sorted(a) && 0 <= mid < |a| && a[mid] > target && next == mid - 1
    requires Excluded(a, left, lo, hi, right, target)
    ensures Excluded(a, left, lo, next, right, target)
  {
    forall k | left <= k <= right && 0 <= k < |a| && (k < lo || next < k)
      ensures a[k] != target
    {
      if mid <= k <= hi {
        assert a[mid] <= a[k];
      }
    }
  }

  /** Once the bounds cross, the two excluded sides cover the whole range. */
  lemma BothSides(a: seq<int>, left: int, lo: int, hi: int, right: int, target: int)
    requires hi < lo
    requires Excluded(a, left, lo, hi, right, target)
    ensures Absent(a, left, right, target)
  {
  }

  /** How one run of the executable ends. */
  datatype SearchOutcome =
    | Aborted                                          // `stoi` rejects an argument, or `resize` gets a negative size
    | InvalidSize                                      // `n == 0`: the "Invalid array size" record, exit status 1
    | Searched(arr: seq<int>, target: int, index: int) // the result record of the search over the whole array

  /**
   * The size and the target `main` reads: from `argv[1]`, `argv[2]` when there
   * are at least two arguments, else the first two numbers of standard input.
   */
  function Header(args: seq<string>, stdin: seq<int>): Option<(int, int)>
    requires |args| < 2 ==> |stdin| >= 2
  {
    if |args| >= 2 then
      match (Decimal.Parse(args[0]), Decimal.Parse(args[1]))
      case (Some(n), Some(t)) => Some((n, t))
      case _ => None
    else
      Some((stdin[0], stdin[1]))
  }

  /** The array `main` searches: the evens from the command line, or the numbers after the header on standard input. */
  ghost predicate Built(args: seq<string>, stdin: seq<int>, n: int, arr: seq<int>)
    requires |args| < 2 ==> |stdin| >= 2 + n
  {
    && |arr| == n
    && (|args| >= 2 ==> forall k :: 0 <= k < n ==> arr[k] == 2 * k)
    && (|args| < 2 ==> arr == stdin[2..2 + n])
  }

  /**
   * `main` over `args == argv[1..]`, with `stdin` the numbers standard input
   * supplies (enough of them for the size it announces).
   */
  method Run(args: seq<string>, stdin: seq<int>) returns (r: SearchOutcome)
    requires |args| < 2 ==> |stdin| >= 2 && (stdin[0] >= 0 ==> |stdin| >= 2 + stdin[0])
    ensures r.Aborted? <==> Header(args, stdin).None? || Header(args, stdin).value.0 < 0
    ensures r.InvalidSize? <==> Header(args, stdin).Some? && Header(args, stdin).value.0 == 0
    ensures r.Searched? ==> Header(args, stdin) == Some((|r.arr|, r.target)) && |r.arr| > 0
    ensures r.Searched? ==> Built(args, stdin, |r.arr|, r.arr)
    ensures r.Searched? && r.index != -1 ==> 0 <= r.index < |r.arr| && r.arr[r.index] == r.target
    ensures r.Searched? && Sorting.Sorted(r.arr) ==> (r.index == -1 <==> r.target !in r.arr)
    ensures r.Searched? && |args| >= 2 ==> Sorting.Sorted(r.arr)
    ensures r.Searched? && |args| >= 2 ==>
      (r.index != -1 <==> r.target % 2 == 0 && 0 <= r.target < 2 * |r.arr|) &&
      (r.index != -1 ==> r.index == r.target / 2)
  {
    var header := Header(args, stdin);
    if header.None? {
      return Aborted;
    }
    var (n, target) := header.value;
    if n < 0 {
      return Aborted;
    }
    var a := new int[n];
    if |args| >= 2 {
      var i := 0;
      while i < n
        invariant 0 <= i <= n
        invariant forall k :: 0 <= k < i ==> a[k] == 2 * k
      {
        a[i] := 2 * i;
        i := i + 1;
      }
      EvensSorted(a[..]);
    } else {
      var i := 0;
      while i < n
        invariant 0 <= i <= n
        invariant forall k :: 0 <= k < i ==> a[k] == stdin[2 + k]
      {
        a[i] := stdin[2 + i];
        i := i + 1;
      }
      assert a[..] == stdin[2..2 + n];
    }
    if n < 1 {
      return InvalidSize;
    }
    var hi := n - 1;
    var index, probes := BinarySearch(a, 0, hi, target);
    if Sorting.Sorted(a[..]) && index == -1 {
      assert Absent(a[..], 0, hi, target);
    }
    if |args| >= 2 {
      EvensContain(a[..], target);
      if index != -1 {
        EvenAt(a[..], index);
      }
    }
    return Searched(a[..], target, index);
  }

  /** The evens `0, 2, 4, ..` are in ascending order. */
  lemma EvensSorted(s: seq<int>)
    requires forall k :: 0 <= k < |s| ==> s[k] == 2 * k
    ensures Sorting.Sorted(s)
  {
  }

  /** The evens below `2n` are exactly the even numbers in `0..2n-1`. */
  lemma EvensContain(s: seq<int>, t: int)
    requires forall k :: 0 <= k < |s| ==> s[k] == 2 * k
    ensures t in s <==> t % 2 == 0 && 0 <= t < 2 * |s|
  {
    if t % 2 == 0 && 0 <= t < 2 * |s| {
      var k := t / 2;
      assert s[k] == t;
    }
  }

  /** In the evens, the value at position `k` is `2k`: even and in range, and `k` is half of it. */
  lemma EvenAt(s: seq<int>, k: int)
    requires forall j :: 0 <= j < |s| ==> s[j] == 2 * j
    requires 0 <= k < |s|
    ensures s[k] % 2 == 0 && 0 <= s[k] < 2 * |s| && s[k] / 2 == k
  {
  }
}
