/**
 * `main` of the sorting executable: the algorithm name comes first, the
 * numbers to sort after it (a fixed default array when there are none); the
 * array is recorded before and after the sort the name selects.
 */
module SortingMain {
  import opened Wrappers
  import Decimal
  import Sorting
  import BucketSort

  /** The array sorted when only the name is given. */
  const DefaultArray: seq<int> := [7, 8, 9, 4, 80, 60, 78, 49]

  /** The names of the five comparison sorts, which sort any input. */
  const ComparisonSorts: set<string> :=
    {"merge-sort", "quick-sort", "bubble-sort", "selection-sort", "insertion-sort"}

  /** How one run of the executable ends. */
  datatype SortOutcome =
    | MissingName                                  // no algorithm name: an error line and exit status 1
    | BadNumber                                    // an argument `stoi` rejects: the program aborts
    | OutOfBounds(initial: seq<int>)               // a negative index into `count`, or `length_error` from a negative size
    | Records(initial: seq<int>, final: seq<int>)  // the initial and the final record of the array

  /** `parseInput`: every argument read with `stoi`, in order; `None` when one is not a number. */
  method ParseInput(args: seq<string>) returns (r: Option<seq<int>>)
    ensures r.Some? <==> forall k :: 0 <= k < |args| ==> Decimal.Parse(args[k]).Some?
    ensures r.Some? ==> |r.value| == |args| && forall k :: 0 <= k < |args| ==> Decimal.Parse(args[k]) == Some(r.value[k])
  {
    var arr: seq<int> := [];
    var i := 0;
    while i < |args|
      invariant 0 <= i <= |args| && |arr| == i
      invariant forall k :: 0 <= k < i ==> Decimal.Parse(args[k]) == Some(arr[k])
    {
      var n := Decimal.Parse(args[i]);
      if n.None? {
        return None;
      }
      arr := arr + [n.value];
      i := i + 1;
    }
    return Some(arr);
  }

  /** A sort of the whole array, stated on the range form the recursive sorts use. */
  lemma WholeRange(s: seq<int>, t: seq<int>)
    requires Sorting.PermutedIn(s, t, 0, |s|) && Sorting.SortedRange(t, 0, |t|)
    ensures Sorting.Sorted(t) && multiset(t) == multiset(s)
  {
  }

  /** `arr` is the array `main` reads from `args == argv[1..]`: the numbers after the name, or the default. */
  ghost predicate ReadFrom(args: seq<string>, arr: seq<int>) {
    && |args| > 0
    && (|args| == 1 ==> arr == DefaultArray)
    && (|args| > 1 ==> |arr| == |args| - 1 && forall k :: 0 <= k < |arr| ==> Decimal.Parse(args[k + 1]) == Some(arr[k]))
  }

  /** Every argument after the name is a number `stoi` accepts. */
  ghost predicate AllNumbers(args: seq<string>) {
    forall k :: 1 <= k < |args| ==> Decimal.Parse(args[k]).Some?
  }

  /**
   * The inputs on which the selected sort goes outside `count`:
   * `countingSort` on any negative element (a negative index, or
   * `length_error` when the maximum is below -1 and the size is negative),
   * `radixSort` when a pass that runs reads a negative digit.
   */
  predicate OutOfRange(name: string, arr: seq<int>)
    requires |arr| > 0
  {
    || (name == "counting-sort" && !BucketSort.AllNonNegative(arr))
    || (name == "radix-sort" && !BucketSort.DigitsInRange(arr, BucketSort.MaxOf(arr), 1))
  }

  /** What sorting `s` by `name` promises of the result `t`. */
  ghost predicate SortsAs(name: string, s: seq<int>, t: seq<int>)
    requires |s| > 0
  {
    && multiset(t) == multiset(s)
    && (name in ComparisonSorts || name == "counting-sort" ==> Sorting.Sorted(t))
    && (name == "radix-sort" ==> t == BucketSort.PassesFrom(s, BucketSort.MaxOf(s), 1))
    && (name == "radix-sort" && BucketSort.AllNonNegative(s) ==> Sorting.Sorted(t))
    && (name == "radix-sort" && BucketSort.MaxOf(s) <= 0 ==> t == s)
    && (name !in ComparisonSorts + {"counting-sort", "radix-sort"} ==> t == s)
  }

  /** The array `main` reads: the parsed arguments after the name, or the default. */
  method ReadArray(args: seq<string>) returns (r: Option<seq<int>>)
    requires |args| > 0
    ensures r.None? <==> !AllNumbers(args)
    ensures r.Some? ==> ReadFrom(args, r.value) && |r.value| > 0
  {
    if |args| > 1 {
      var rest := args[1..];
      r := ParseInput(rest);
      if r.None? {
        var k :| 0 <= k < |rest| && Decimal.Parse(rest[k]).None?;
        assert Decimal.Parse(args[k + 1]).None?;
      } else {
        forall k | 1 <= k < |args|
          ensures Decimal.Parse(args[k]).Some?
        {
          assert args[k] == rest[k - 1];
        }
      }
    } else {
      r := Some(DefaultArray);
    }
  }

  /** The dispatch on the algorithm name in `main`. */
  method SortNamed(name: string, a: array<int>)
    requires a.Length > 0 && !OutOfRange(name, a[..])
    modifies a
    ensures SortsAs(name, old(a[..]), a[..])
  {
    ghost var s := a[..];
    var hi := a.Length - 1;
    if name == "merge-sort" {
      Sorting.MergeSort(a, 0, hi);
      WholeRange(s, a[..]);
    } else if name == "quick-sort" {
      Sorting.QuickSort(a, 0, hi);
      WholeRange(s, a[..]);
    } else if name == "bubble-sort" {
      Sorting.BubbleSort(a);
    } else if name == "selection-sort" {
      Sorting.SelectionSort(a);
    } else if name == "insertion-sort" {
      Sorting.InsertionSort(a);
    } else if name == "counting-sort" {
      BucketSort.CountingSort(a);
    } else if name == "radix-sort" {
      BucketSort.RadixSort(a);
    }
  }

  /** What `main` promises for `args == argv[1..]`. */
  ghost predicate Reported(args: seq<string>, r: SortOutcome) {
    && (|args| == 0 <==> r == MissingName)
    && (r == BadNumber <==> |args| > 0 && !AllNumbers(args))
    && (r.OutOfBounds? || r.Records? ==> ReadFrom(args, r.initial) && |r.initial| > 0)
    && (r.OutOfBounds? || r.Records? ==> (r.OutOfBounds? <==> OutOfRange(args[0], r.initial)))
    && (r.Records? ==> SortsAs(args[0], r.initial, r.final))
  }

  /**
   * `main` over `args == argv[1..]`, writing the final record for every name
   * (see `RecordsWritten`).
   */
  method Run(args: seq<string>) returns (r: SortOutcome)
    ensures Reported(args, r)
  {
    if |args| == 0 {
      return MissingName;
    }
    var name := args[0];
    var read := ReadArray(args);
    if read.None? {
      return BadNumber;
    }
    var arr := read.value;
    if OutOfRange(name, arr) {
      return OutOfBounds(arr);
    }
    var a := new int[|arr|](i requires 0 <= i < |arr| => arr[i]);
    assert a[..] == arr;
    SortNamed(name, a);
    return Records(arr, a[..]);
  }

  /** The names `main` has a branch for. */
  const KnownSorts: set<string> := ComparisonSorts + {"counting-sort", "radix-sort"}

  /** The array records a run writes, as intended: the initial array and, after the sort, the final one. */
  function RecordsWritten(r: SortOutcome): seq<seq<int>> {
    if r.Records? then [r.initial, r.final] else if r.OutOfBounds? then [r.initial] else []
  }

  /**
   * The records as `main` is written: the final record and `return 0` sit
   * inside the `else` branch for unknown names, so a known sort ends after
   * the initial record.
   */
  function RecordsAsWritten(name: string, r: SortOutcome): seq<seq<int>> {
    if r.Records? && name in KnownSorts then [r.initial] else RecordsWritten(r)
  }

  /**
   * `radix-sort -20 -100 5`: the maximum 5 allows one pass, at place value 1,
   * and the digits it reads are 0, 0 and 5, so the run completes. The pass
   * keeps the two elements of digit 0 in input order, and the result is not
   * sorted.
   */
  lemma RadixMixedSign(args: seq<string>, r: SortOutcome)
    requires args == ["radix-sort", "-20", "-100", "5"] && Reported(args, r)
    ensures r.Records? && r.final == [-20, -100, 5] && !Sorting.Sorted(r.final)
  {
    var s: seq<int> := [-20, -100, 5];
    MixedSignArgs(args);
    MixedSignPass();
    RadixReported(args, s, r);
    MixedSignUnsorted(s);
  }

  lemma MixedSignUnsorted(s: seq<int>)
    requires s == [-20, -100, 5]
    ensures !Sorting.Sorted(s)
  {
    assert s[0] > s[1];
  }

  /** A radix-sort run on numbers `s` that read no negative digit reports the result of the passes. */
  lemma RadixReported(args: seq<string>, s: seq<int>, r: SortOutcome)
    requires |args| > 0 && args[0] == "radix-sort" && AllNumbers(args) && |s| > 0
    requires forall arr :: ReadFrom(args, arr) ==> arr == s
    requires BucketSort.DigitsInRange(s, BucketSort.MaxOf(s), 1)
    requires Reported(args, r)
    ensures r.Records? && r.initial == s && r.final == BucketSort.PassesFrom(s, BucketSort.MaxOf(s), 1)
  {
    assert r.OutOfBounds? || r.Records?;
    assert r.initial == s;
  }

  /** The numbers after the name are -20, -100 and 5. */
  lemma MixedSignArgs(args: seq<string>)
    requires args == ["radix-sort", "-20", "-100", "5"]
    ensures AllNumbers(args)
    ensures forall arr :: ReadFrom(args, arr) ==> arr == [-20, -100, 5]
  {
    assert Decimal.Parse(args[1]) == Some(-20);
    assert args[2][1..] == "100" && "100"[..2] == "10" && "10"[..1] == "1";
    assert Decimal.DigitsValue("10") == 10;
    assert Decimal.DigitsValue("100") == 100;
    assert Decimal.Parse(args[2]) == Some(-100);
    assert Decimal.Parse(args[3]) == Some(5);
  }

  /** On -20, -100, 5 radix sort reads digits in range and its one pass changes nothing. */
  lemma MixedSignPass()
    ensures BucketSort.MaxOf([-20, -100, 5]) == 5
    ensures BucketSort.DigitsInRange([-20, -100, 5], 5, 1)
    ensures BucketSort.PassesFrom([-20, -100, 5], 5, 1) == [-20, -100, 5]
  {
    var s: seq<int> := [-20, -100, 5];
    assert BucketSort.MaxOf(s[1..]) == 5;
    var key := BucketSort.DigitKey(1);
    MixedSignDigits(key);
    MixedSignInRange(s, key);
    MixedSignPasses(s, key);
  }

  lemma MixedSignInRange(s: seq<int>, key: int -> int)
    requires s == [-20, -100, 5] && key == BucketSort.DigitKey(1)
    requires key(-20) == 0 && key(-100) == 0 && key(5) == 5
    ensures BucketSort.DigitsInRange(s, 5, 1)
  {
    assert BucketSort.DigitsInRange(s, 5, 10);
    assert forall i :: 0 <= i < |s| ==> BucketSort.GetDigit(s[i], 1) >= 0;
  }

  lemma MixedSignPasses(s: seq<int>, key: int -> int)
    requires s == [-20, -100, 5] && key == BucketSort.DigitKey(1)
    requires key(-20) == 0 && key(-100) == 0 && key(5) == 5
    ensures BucketSort.PassesFrom(s, 5, 1) == s
  {
    RadixOnePass(s, key);
    assert BucketSort.PassesFrom(s, 5, 1) == BucketSort.PassesFrom(BucketSort.Bucketed(s, key, 10), 5, 10);
  }

  /** The digits at place value 1 of -20, -100 and 5. */
  lemma MixedSignDigits(key: int -> int)
    requires key == BucketSort.DigitKey(1)
    ensures key(-20) == 0 && key(-100) == 0 && key(5) == 5
  {
    assert BucketSort.GetDigit(-20, 1) == 0;
    assert BucketSort.GetDigit(-100, 1) == 0;
    assert BucketSort.GetDigit(5, 1) == 5;
  }

  /** The one pass of `radix-sort -20 -100 5` leaves the array as it is. */
  lemma RadixOnePass(s: seq<int>, key: int -> int)
    requires s == [-20, -100, 5] && key(-20) == 0 && key(-100) == 0 && key(5) == 5
    ensures BucketSort.Bucketed(s, key, 10) == s
  {
    forall b | 0 <= b < 10
      ensures BucketSort.Filter(s, key, b) == (if b == 0 then [-20, -100] else if b == 5 then [5] else [])
    {
      Filter3(s, key, b);
    }
    assert BucketSort.Bucketed(s, key, 1) == [-20, -100];
    EmptyBuckets(s, key, 1, 5, [-20, -100]);
    assert BucketSort.Bucketed(s, key, 6) == s;
    EmptyBuckets(s, key, 6, 10, s);
  }

  /** The block of `b` in a three-element sequence. */
  lemma Filter3(s: seq<int>, key: int -> int, b: int)
    requires |s| == 3
    ensures BucketSort.Filter(s, key, b) == BucketSort.Keep(s[0], key, b) + BucketSort.Keep(s[1], key, b) + BucketSort.Keep(s[2], key, b)
  {
    var t := s[1..];
    assert t[1..][1..] == [];
    assert BucketSort.Filter(t[1..], key, b) == BucketSort.Keep(s[2], key, b);
  }

  /** Empty blocks `lo..hi-1` add nothing. */
  lemma {:induction false} EmptyBuckets(s: seq<int>, key: int -> int, lo: nat, hi: nat, prefix: seq<int>)
    requires lo <= hi && BucketSort.Bucketed(s, key, lo) == prefix
    requires forall b :: lo <= b < hi ==> BucketSort.Filter(s, key, b) == []
    ensures BucketSort.Bucketed(s, key, hi) == prefix
    decreases hi - lo
  {
    if lo < hi {
      assert BucketSort.Bucketed(s, key, lo + 1) == prefix + [];
      EmptyBuckets(s, key, lo + 1, hi, prefix);
    }
  }

  /** The default array is not sorted: 9 comes before 4. */
  lemma DefaultUnsorted()
    ensures !Sorting.Sorted(DefaultArray)
  {
    assert DefaultArray[2] > DefaultArray[3];
  }

  /**
   * As written, sorting the default array by name reports only the unsorted
   * initial array, never the sorted one.
   */
  lemma NoFinalRecord(r: SortOutcome)
    requires Reported(["bubble-sort"], r)
    ensures r.Records? && RecordsAsWritten("bubble-sort", r) == [DefaultArray] && !Sorting.Sorted(DefaultArray)
  {
    SortsDefault(r);
    assert "bubble-sort" in KnownSorts;
    DefaultUnsorted();
  }

  /** `bubble-sort` alone sorts the default array. */
  lemma SortsDefault(r: SortOutcome)
    requires Reported(["bubble-sort"], r)
    ensures r.Records? && r.initial == DefaultArray
  {
    var args := ["bubble-sort"];
    assert AllNumbers(args);
    assert !OutOfRange(args[0], DefaultArray);
    assert ReadFrom(args, r.initial);
  }

  /** As intended, every run that sorts ends with a record of the array sorted and permuted. */
  lemma FinalRecordSorted(args: seq<string>, r: SortOutcome)
    requires Reported(args, r) && r.Records? && args[0] in ComparisonSorts
    ensures RecordsWritten(r) == [r.initial, r.final]
    ensures Sorting.Sorted(r.final) && multiset(r.final) == multiset(r.initial)
  {
    assert SortsAs(args[0], r.initial, r.final);
  }
}
