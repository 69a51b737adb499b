/**
 * The Fibonacci executable: the iterative `fibonacci(n)`, which keeps the last
 * two values in `a` and `b`, logging one step per loop round, and `main`, which
 * takes `n` from the command line or defaults to 10.
 */
module Fibonacci {
  import opened Wrappers
  import Decimal

  /** The recursive definition the loop computes. */
  function Fib(n: nat): nat {
    if n < 2 then n else Fib(n - 2) + Fib(n - 1)
  }

  /** One logged step: the index, the value computed there, and the indices it was computed from. */
  datatype Step = Step(n: int, result: int, prevIndices: seq<int>)

  /**
   * `fibonacci(n)`: for `n >= 0` the result is `Fib(n)`; for `n < 0` neither
   * base case matches, the loop never runs and the result is the initial `b`.
   * The steps are the base-case record, or one record per round of the loop.
   */
  method Fibonacci(n: int) returns (r: int, steps: seq<Step>)
    ensures n >= 0 ==> r == Fib(n)
    ensures n < 0 ==> r == 1 && steps == []
    ensures n == 0 ==> steps == [Step(0, 0, [])]
    ensures n == 1 ==> steps == [Step(1, 1, [])]
    ensures n >= 2 ==> |steps| == n - 1
    ensures n >= 2 ==> forall k :: 0 <= k < |steps| ==> steps[k] == Step(k + 2, Fib(k + 2), [k, k + 1])
    ensures n >= 2 ==> forall k :: 2 <= k < |steps| ==> steps[k].result == steps[k - 1].result + steps[k - 2].result
  {
    if n == 0 {
      return 0, [Step(0, 0, [])];
    }
    if n == 1 {
      return 1, [Step(1, 1, [])];
    }
    var a, b := 0, 1;
    steps := [];
    var i := 2;
    while i <= n
      invariant 2 <= i && (if n >= 2 then i <= n + 1 else i == 2)
      invariant a == Fib(i - 2) && b == Fib(i - 1)
      invariant |steps| == i - 2
      invariant forall k :: 0 <= k < |steps| ==> steps[k] == Step(k + 2, Fib(k + 2), [k, k + 1])
    {
      var temp := a + b;
      steps := steps + [Step(i, temp, [i - 2, i - 1])];
      a := b;
      b := temp;
      i := i + 1;
    }
    r := b;
  }

  /** How one run of the executable ends. */
  datatype FibOutcome =
    | Aborted                     // `stoi` rejects `argv[1]`
    | Computed(n: int, result: int) // the "Fibonacci complete" record

  /** `fibonacci(10)`, the default, is 55. */
  lemma DefaultValue()
    ensures Fib(10) == 55
  {
    assert Fib(2) == 1 && Fib(3) == 2 && Fib(4) == 3 && Fib(5) == 5;
    assert Fib(6) == 8 && Fib(7) == 13 && Fib(8) == 21;
  }

  /**
   * `main` over `args == argv[1..]`. `trace` is what it logs: the starting
   * record (with the placeholder result 1), the steps of `fibonacci`, and the
   * closing record.
   */
  method Run(args: seq<string>) returns (r: FibOutcome, trace: seq<Step>)
    ensures r == Aborted <==> |args| > 0 && Decimal.Parse(args[0]).None?
    ensures r.Computed? ==> r.n == (if |args| > 0 then Decimal.Parse(args[0]).value else 10)
    ensures r.Computed? && r.n >= 0 ==> r.result == Fib(r.n)
    ensures r.Computed? && r.n < 0 ==> r.result == 1
    ensures r.Computed? ==> |trace| >= 2 && trace[0] == Step(r.n, 1, []) && trace[|trace| - 1] == Step(r.n, r.result, [])
    ensures |args| == 0 ==> r == Computed(10, 55)
  {
    var n := 10;
    if |args| > 0 {
      var parsed := Decimal.Parse(args[0]);
      if parsed.None? {
        return Aborted, [];
      }
      n := parsed.value;
    }
    var result, steps := Fibonacci(n);
    if |args| == 0 {
      DefaultValue();
    }
    r := Computed(n, result);
    trace := [Step(n, 1, [])] + steps + [Step(n, result, [])];
  }
}
