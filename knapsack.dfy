/**
 * The knapsack executable: the 0/1 knapsack table filled row by row, the
 * argument reader `parseArgs`, and `main`'s argument check. The table has
 * `n + 1` rows of `W + 1` entries; as written it is allocated with `n` rows of
 * `W` entries and then indexed up to `[n][W]`, which leaves the table.
 */
module Knapsack {
  import opened Wrappers
  import Decimal
  import CArith

  /** A selection of items: `c[k]` says whether item `k` is packed. */
  type Choice = seq<bool>

  /** The total weight of the items `c` packs (of the first `|c|` items). */
  function Weight(ws: seq<int>, c: Choice): int
    requires |c| <= |ws|
    decreases |c|
  {
    if |c| == 0 then 0 else Weight(ws, c[..|c| - 1]) + (if c[|c| - 1] then ws[|c| - 1] else 0)
  }

  /** The total value of the items `c` packs. */
  function Worth(vs: seq<int>, c: Choice): int
    requires |c| <= |vs|
    decreases |c|
  {
    if |c| == 0 then 0 else Worth(vs, c[..|c| - 1]) + (if c[|c| - 1] then vs[|c| - 1] else 0)
  }

  predicate NonNegative(s: seq<int>) {
    forall k :: 0 <= k < |s| ==> s[k] >= 0
  }

  /** `dp[i][w]`: the value the recurrence gives for the first `i` items and capacity `w`. */
  function Best(ws: seq<int>, vs: seq<int>, i: int, w: int): int
    requires |ws| == |vs| && 0 <= i <= |ws|
    decreases i
  {
    if i == 0 then 0
    else if ws[i - 1] > w then Best(ws, vs, i - 1, w)
    else Max(vs[i - 1] + Best(ws, vs, i - 1, w - ws[i - 1]), Best(ws, vs, i - 1, w))
  }

  function Max(a: int, b: int): int {
    if a > b then a else b
  }

  /** The decision `printStep` reports for entry `[i][w]`: "include" exactly when packing item `i-1` gains strictly. */
  predicate Includes(ws: seq<int>, vs: seq<int>, i: int, w: int)
    requires |ws| == |vs| && 1 <= i <= |ws|
  {
    ws[i - 1] <= w && vs[i - 1] + Best(ws, vs, i - 1, w - ws[i - 1]) > Best(ws, vs, i - 1, w)
  }

  /** A selection that attains `Best`: follow the decisions back from `[i][w]`. */
  function Pick(ws: seq<int>, vs: seq<int>, i: int, w: int): (c: Choice)
    requires |ws| == |vs| && 0 <= i <= |ws|
    ensures |c| == i
    decreases i
  {
    if i == 0 then []
    else if Includes(ws, vs, i, w) then Pick(ws, vs, i - 1, w - ws[i - 1]) + [true]
    else Pick(ws, vs, i - 1, w) + [false]
  }

  /** Each row is at least the row above it: an item can always be left out. */
  lemma RowsGrow(ws: seq<int>, vs: seq<int>, i: int, w: int)
    requires |ws| == |vs| && 1 <= i <= |ws|
    ensures Best(ws, vs, i, w) >= Best(ws, vs, i - 1, w)
    ensures ws[i - 1] > w ==> Best(ws, vs, i, w) == Best(ws, vs, i - 1, w)
    ensures ws[i - 1] <= w ==> Best(ws, vs, i, w) == Max(vs[i - 1] + Best(ws, vs, i - 1, w - ws[i - 1]), Best(ws, vs, i - 1, w))
  {
  }

  /** Appending one decision adds that item's weight and value (or nothing). */
  lemma Snoc(ws: seq<int>, vs: seq<int>, c: Choice, b: bool)
    requires |ws| == |vs| && |c| < |ws|
    ensures Weight(ws, c + [b]) == Weight(ws, c) + (if b then ws[|c|] else 0)
    ensures Worth(vs, c + [b]) == Worth(vs, c) + (if b then vs[|c|] else 0)
  {
    assert (c + [b])[..|c|] == c;
  }

  /** With non-negative weights, no selection weighs less than nothing. */
  lemma {:induction false} WeightNonNegative(ws: seq<int>, c: Choice)
    requires |c| <= |ws| && NonNegative(ws)
    ensures Weight(ws, c) >= 0
  {
    if |c| > 0 {
      WeightNonNegative(ws, c[..|c| - 1]);
    }
  }

  /** The traced-back selection fits in `w` and is worth exactly `Best`. */
  lemma {:induction false} PickAttains(ws: seq<int>, vs: seq<int>, i: int, w: int)
    requires |ws| == |vs| && 0 <= i <= |ws| && w >= 0
    ensures Weight(ws, Pick(ws, vs, i, w)) <= w
    ensures Worth(vs, Pick(ws, vs, i, w)) == Best(ws, vs, i, w)
  {
    if i > 0 {
      var k := i - 1;
      if Includes(ws, vs, i, w) {
        var rest := w - ws[k];
        PickAttains(ws, vs, k, rest);
        Snoc(ws, vs, Pick(ws, vs, k, rest), true);
      } else {
        PickAttains(ws, vs, k, w);
        Snoc(ws, vs, Pick(ws, vs, k, w), false);
      }
    }
  }

  /** No selection of the first `i` items that fits in `w` is worth more than `Best`. */
  lemma {:induction false} BestBounds(ws: seq<int>, vs: seq<int>, i: int, w: int, c: Choice)
    requires |ws| == |vs| && 0 <= i <= |ws| && NonNegative(ws)
    requires |c| == i && Weight(ws, c) <= w
    ensures Worth(vs, c) <= Best(ws, vs, i, w)
  {
    if i > 0 {
      var k := i - 1;
      var c' := c[..k];
      assert c == c' + [c[k]];
      Snoc(ws, vs, c', c[k]);
      RowsGrow(ws, vs, i, w);
      if c[k] {
        WeightNonNegative(ws, c');
        var rest := w - ws[k];
        BestBounds(ws, vs, k, rest, c');
      } else {
        BestBounds(ws, vs, k, w, c');
      }
    }
  }

  /** `r` is the optimum: some selection that fits attains it, and none that fits beats it. */
  ghost predicate Optimal(ws: seq<int>, vs: seq<int>, W: int, r: int)
    requires |ws| == |vs|
  {
    && Weight(ws, Pick(ws, vs, |ws|, W)) <= W && Worth(vs, Pick(ws, vs, |ws|, W)) == r
    && forall c: Choice :: |c| == |ws| && Weight(ws, c) <= W ==> Worth(vs, c) <= r
  }

  /** The recurrence computes the optimum. */
  lemma BestOptimal(ws: seq<int>, vs: seq<int>, W: int)
    requires |ws| == |vs| && NonNegative(ws) && W >= 0
    ensures Optimal(ws, vs, W, Best(ws, vs, |ws|, W))
  {
    var n := |ws|;
    PickAttains(ws, vs, n, W);
    forall c: Choice | |c| == n && Weight(ws, c) <= W
      ensures Worth(vs, c) <= Best(ws, vs, n, W)
    {
      BestBounds(ws, vs, n, W, c);
    }
  }

  /** One `printStep` record: the entry `[i][w]`, the decision reported for it, and its value. */
  datatype Step = Step(i: int, w: int, packed: bool, value: int)

  /** The record is right: the entry holds `Best` and the decision is "include" exactly when including gains. */
  ghost predicate Reports(ws: seq<int>, vs: seq<int>, W: int, s: Step)
    requires |ws| == |vs|
  {
    && 1 <= s.i <= |ws| && 0 <= s.w <= W
    && s.value == Best(ws, vs, s.i, s.w)
    && (s.packed <==> Includes(ws, vs, s.i, s.w))
  }

  /** Record `k` is of entry `[1 + k / (W + 1)][k % (W + 1)]`: the entries of rows `1..n` in row-major order. */
  predicate RowMajor(steps: seq<Step>, W: int)
    requires W >= 0
  {
    forall k :: 0 <= k < |steps| ==> steps[k].i == 1 + k / (W + 1) && steps[k].w == k % (W + 1)
  }

  /** Appending the record of entry `[i][w]` right after `(i - 1) * (W + 1) + w` records keeps the order. */
  lemma Placed(steps: seq<Step>, W: int, s: Step, steps': seq<Step>)
    requires W >= 0 && RowMajor(steps, W) && steps' == steps + [s]
    requires 0 <= s.w <= W && |steps| == (s.i - 1) * (W + 1) + s.w
    ensures RowMajor(steps', W)
  {
    CArith.ModUnique(|steps|, W + 1, s.i - 1, s.w);
  }

  /** Every entry of rows `0..i-1` holds `Best`. */
  ghost predicate RowsDone(dp: array2<int>, ws: seq<int>, vs: seq<int>, i: int)
    requires |ws| == |vs| && dp.Length0 == |ws| + 1
    reads dp
  {
    forall r, c :: 0 <= r < i && r < dp.Length0 && 0 <= c < dp.Length1 ==> dp[r, c] == Best(ws, vs, r, c)
  }

  /** The entries of row `i` below column `w` hold `Best`. */
  ghost predicate RowPrefix(dp: array2<int>, ws: seq<int>, vs: seq<int>, i: int, w: int)
    requires |ws| == |vs| && dp.Length0 == |ws| + 1 && 0 <= i < dp.Length0
    reads dp
  {
    forall c :: 0 <= c < w && c < dp.Length1 ==> dp[i, c] == Best(ws, vs, i, c)
  }

  /** Entry `[i][w]` lies inside a table of `rows` rows of `cols` entries each. */
  predicate InTable(rows: int, cols: int, i: int, w: int) {
    0 <= i < rows && 0 <= w < cols
  }

  /** The entries `knapsack` writes or reads: rows `0..n`, capacities `0..W`, the last being `dp[n][W]`. */
  predicate Touched(n: int, W: int, i: int, w: int) {
    0 <= i <= n && 0 <= w <= W
  }

  /**
   * As allocated in the source, `n` rows of `W` entries: the final read
   * `dp[n][W]` is touched but lies outside the table, whatever the instance.
   */
  lemma TableAsWrittenTooSmall(n: nat, W: nat)
    ensures Touched(n, W, n, W) && !InTable(n, W, n, W)
  {
  }

  /** As `Solve` allocates it, `n + 1` rows of `W + 1` entries: every touched entry lies inside. */
  lemma TableFits(n: nat, W: nat, i: int, w: int)
    requires Touched(n, W, i, w)
    ensures InTable(n + 1, W + 1, i, w)
  {
  }

  /**
   * `knapsack(W, weights, values)`: fills the table row by row and returns
   * `dp[n][W]`, the best value of a selection that fits in `W`, with one
   * `printStep` record per entry of rows `1..n`, in the order they are filled.
   */
  method Solve(W: int, weights: seq<int>, values: seq<int>) returns (r: int, steps: seq<Step>)
    requires |weights| == |values| && W >= 0 && NonNegative(weights)
    ensures r == Best(weights, values, |weights|, W)
    ensures Optimal(weights, values, W, r)
    ensures forall k :: 0 <= k < |steps| ==> Reports(weights, values, W, steps[k])
    ensures |steps| == |weights| * (W + 1) && RowMajor(steps, W)
  {
    var n := |weights|;
    var dp := new int[n + 1, W + 1]((_, _) => 0);
    steps := [];
    var i := 1;
    while i <= n
      invariant 1 <= i <= n + 1
      invariant RowsDone(dp, weights, values, i)
      invariant forall k :: 0 <= k < |steps| ==> Reports(weights, values, W, steps[k])
      invariant |steps| == (i - 1) * (W + 1) && RowMajor(steps, W)
    {
      var below := i + 1;
      steps := FillRow(dp, weights, values, W, i, below, steps);
      i := below;
    }
    r := dp[n, W];
    BestOptimal(weights, values, W);
  }

  /** The inner loop of `knapsack`: row `i` from row `i - 1`, one entry per capacity `0..W`. */
  method FillRow(dp: array2<int>, weights: seq<int>, values: seq<int>, W: int, i: int, below: int, steps: seq<Step>)
      returns (steps': seq<Step>)
    requires |weights| == |values| && dp.Length0 == |weights| + 1 && dp.Length1 == W + 1
    requires 1 <= i <= |weights| && below == i + 1 && NonNegative(weights)
    requires RowsDone(dp, weights, values, i)
    requires forall j :: 0 <= j < |steps| ==> Reports(weights, values, W, steps[j])
    requires W >= 0 && |steps| == (i - 1) * (W + 1) && RowMajor(steps, W)
    modifies dp
    ensures RowsDone(dp, weights, values, below)
    ensures forall j :: 0 <= j < |steps'| ==> Reports(weights, values, W, steps'[j])
    ensures |steps'| == i * (W + 1) && RowMajor(steps', W)
  {
    steps' := steps;
    var k := i - 1;
    var w := 0;
    while w <= W
      invariant 0 <= w <= W + 1
      invariant RowsDone(dp, weights, values, i) && RowPrefix(dp, weights, values, i, w)
      invariant forall j :: 0 <= j < |steps'| ==> Reports(weights, values, W, steps'[j])
      invariant |steps'| == (i - 1) * (W + 1) + w && RowMajor(steps', W)
    {
      var v;
      var packed := false;
      if weights[k] <= w {
        var rest := w - weights[k];
        var take := values[k] + dp[k, rest];
        var leave := dp[k, w];
        v := Max(take, leave);
        packed := take > leave;
      } else {
        v := dp[k, w];
      }
      var step := Step(i, w, packed, v);
      CellReports(weights, values, W, k, step);
      var next := w + 1;
      dp[i, w] := v;
      ghost var before := steps';
      steps' := steps' + [step];
      Recorded(weights, values, W, before, step, steps');
      Placed(before, W, step, steps');
      w := next;
    }
    assert (i - 1) * (W + 1) + (W + 1) == i * (W + 1);
  }

  /** The entry `[i][w]` just computed from row `i - 1 == k` is what `Best` and `Includes` say. */
  lemma CellReports(ws: seq<int>, vs: seq<int>, W: int, k: int, s: Step)
    requires |ws| == |vs| && 1 <= s.i <= |ws| && 0 <= s.w <= W && k == s.i - 1
    requires ws[k] <= s.w ==>
      var take, leave := vs[k] + Best(ws, vs, k, s.w - ws[k]), Best(ws, vs, k, s.w);
      s.value == Max(take, leave) && s.packed == (take > leave)
    requires ws[k] > s.w ==> s.value == Best(ws, vs, k, s.w) && !s.packed
    ensures Reports(ws, vs, W, s)
  {
    RowsGrow(ws, vs, s.i, s.w);
  }

  /** Appending a correct record keeps every record correct. */
  lemma Recorded(ws: seq<int>, vs: seq<int>, W: int, steps: seq<Step>, s: Step, steps': seq<Step>)
    requires |ws| == |vs| && steps' == steps + [s]
    requires forall j :: 0 <= j < |steps| ==> Reports(ws, vs, W, steps[j])
    requires Reports(ws, vs, W, s)
    ensures forall j :: 0 <= j < |steps'| ==> Reports(ws, vs, W, steps'[j])
  {
  }

  /**
   * `parseArgs(argc, argv, start, count)`: the numbers `argv[start..]`, at most
   * `count` of them and no further than `argv` goes; `None` when `stoi`
   * rejects one of them.
   */
  method ParseArgs(argv: seq<string>, start: int, count: int) returns (r: Option<seq<int>>)
    requires count > 0 ==> start >= 0
    ensures r.Some? <==> Parses(argv, start, start + count)
    ensures r.Some? ==> Reads(argv, start, count, r.value)
  {
    var result: seq<int> := [];
    var i := start;
    while i < start + count && i < |argv|
      invariant start <= i && |result| == i - start
      invariant i == start || (i <= |argv| && i <= start + count)
      invariant forall k :: start <= k < i ==> 0 <= k < |argv| && Decimal.Parse(argv[k]).Some?
      invariant forall k :: 0 <= k < |result| ==> 0 <= start + k < |argv| && Decimal.Parse(argv[start + k]) == Some(result[k])
    {
      var x := Decimal.Parse(argv[i]);
      if x.None? {
        return None;
      }
      result := result + [x.value];
      i := i + 1;
    }
    r := Some(result);
  }

  /** `xs` are the `min(count, |argv| - start)` numbers from `argv[start]` on, in order (none when that is not positive). */
  ghost predicate Reads(argv: seq<string>, start: int, count: int, xs: seq<int>) {
    && |xs| == (if count <= 0 || start >= |argv| then 0 else if start + count <= |argv| then count else |argv| - start)
    && forall k :: 0 <= k < |xs| ==> 0 <= start + k < |argv| && Decimal.Parse(argv[start + k]) == Some(xs[k])
  }

  /** The capacity and the item count `main` reads from `argv[1]` and `argv[2]`. */
  function Header(argv: seq<string>): Option<(int, int)>
    requires |argv| > 3
  {
    match (Decimal.Parse(argv[1]), Decimal.Parse(argv[2]))
    case (Some(w), Some(c)) => Some((w, c))
    case _ => None
  }

  /** Every argument in `argv[from..to]` (as far as `argv` goes) is a number `stoi` accepts. */
  ghost predicate Parses(argv: seq<string>, from: int, to: int) {
    forall k :: from <= k < to && 0 <= k < |argv| ==> Decimal.Parse(argv[k]).Some?
  }

  /** The weights and the values are read from the two halves of `argv[3..3 + 2 * count]`. */
  lemma ArgsSplit(argv: seq<string>, count: int, start: int, end: int)
    requires start == 3 + count && end == 3 + 2 * count
    ensures Parses(argv, 3, end) <==> Parses(argv, 3, start) && Parses(argv, start, end)
  {
  }

  /** Two reads of `count` numbers each, from `argv[3]` and `argv[3 + count]`, make the instance. */
  lemma ReadBoth(argv: seq<string>, W: int, count: int, start: int, ws: seq<int>, vs: seq<int>)
    requires |argv| > 3 && Header(argv) == Some((W, count)) && start == 3 + count && |argv| >= 3 + 2 * count
    requires Reads(argv, 3, count, ws) && Reads(argv, start, count, vs)
    ensures Instance(argv, W, ws, vs) && |ws| == |vs|
  {
  }

  /** The instance `main` hands to `knapsack`: the built-in one, or the one spelled out in `argv`. */
  ghost predicate Instance(argv: seq<string>, W: int, weights: seq<int>, values: seq<int>) {
    if |argv| <= 3 then
      W == DefaultW && weights == DefaultWeights && values == DefaultValues
    else
      && Header(argv).Some? && W == Header(argv).value.0
      && var count := Header(argv).value.1;
      && |argv| >= 3 + 2 * count
      && Reads(argv, 3, count, weights) && Reads(argv, 3 + count, count, values)
  }

  /** The arguments make `main` abort: `stoi` rejects one it reads, or the capacity is negative. */
  ghost predicate Rejected(argv: seq<string>) {
    && |argv| > 3
    && (|| Header(argv).None?
        || var (W, count) := Header(argv).value;
           |argv| >= 3 + 2 * count && (!Parses(argv, 3, 3 + 2 * count) || W < 0))
  }

  /** How one run of the executable ends. */
  datatype KnapsackOutcome =
    | Aborted                                                  // `stoi` rejects an argument, or the table is sized with a negative capacity
    | NotEnough                                                // "Not enough arguments for weights and values.", exit status 1
    | OutOfBounds(W: int, weights: seq<int>, values: seq<int>) // a negative weight sends `w - weights[i-1]` past the end of a row
    | Solved(W: int, weights: seq<int>, values: seq<int>, best: int)

  /** The built-in instance: capacity 10 and four items. */
  const DefaultW: int := 10
  const DefaultWeights: seq<int> := [2, 3, 4, 5]
  const DefaultValues: seq<int> := [3, 4, 5, 6]

  /**
   * `main` over the whole `argv` (the program name first): with more than
   * three entries, the capacity, the item count, then the weights and the
   * values; otherwise the built-in instance.
   */
  method Run(argv: seq<string>) returns (r: KnapsackOutcome)
    ensures |argv| <= 3 ==> r == Solved(DefaultW, DefaultWeights, DefaultValues, 13)
    ensures r == NotEnough <==> |argv| > 3 && Header(argv).Some? && |argv| < 3 + 2 * Header(argv).value.1
    ensures r == Aborted <==> Rejected(argv)
    ensures r.OutOfBounds? || r.Solved? ==> Instance(argv, r.W, r.weights, r.values) && r.W >= 0
    ensures r.OutOfBounds? ==> !NonNegative(r.weights)
    ensures r.Solved? ==> |r.weights| == |r.values| && NonNegative(r.weights)
    ensures r.Solved? ==> r.best == Best(r.weights, r.values, |r.weights|, r.W) && Optimal(r.weights, r.values, r.W, r.best)
  {
    var W, weights, values := DefaultW, DefaultWeights, DefaultValues;
    if |argv| > 3 {
      var header := Header(argv);
      if header.None? {
        return Aborted;
      }
      var count: int;
      W, count := header.value.0, header.value.1;
      var end := 3 + 2 * count;
      if |argv| >= end {
        var ws := ParseArgs(argv, 3, count);
        var start := 3 + count;
        var vs := ParseArgs(argv, start, count);
        ArgsSplit(argv, count, start, end);
        if ws.None? || vs.None? {
          return Aborted;
        }
        weights, values := ws.value, vs.value;
        ReadBoth(argv, W, count, start, weights, values);
      } else {
        return NotEnough;
      }
    }
    if W < 0 {
      return Aborted;
    }
    if !NonNegative(weights) {
      return OutOfBounds(W, weights, values);
    }
    var best, steps := Solve(W, weights, values);
    if |argv| <= 3 {
      DefaultBest();
    }
    return Solved(W, weights, values, best);
  }

  /** The built-in instance packs the items of weight 2, 3 and 5, worth 13. */
  lemma DefaultBest()
    ensures Best(DefaultWeights, DefaultValues, 4, DefaultW) == 13
  {
  }
}
