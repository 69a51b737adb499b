/**
 * The dispatch table of the run endpoint: which executable a run of algorithm
 * `id` with parameter list `params` starts, and with which argument list.
 */
module Dispatch {
  import opened Decimal

  /** One element of the request body's `array`: an integral JSON number, a string, a boolean or `null`. */
  datatype Param = Num(n: int) | Text(s: string) | Bool(b: bool) | Null

  /** The fixed catalogue of executables in the algorithms directory. */
  datatype Executable =
    | Fibonacci | Knapsack | Greedy | Backtracking | Kmp | RabinKarp
    | HamiltonianCycle | SortingAlgorithm

  /** A resolved run: the executable and its argument list (never a shell line). */
  datatype Invocation = Invocation(exe: Executable, args: seq<string>)

  /** `String(p)` for one parameter. */
  function ParamText(p: Param): string {
    match p
    case Num(n) => FromInt(n)
    case Text(s) => s
    case Bool(b) => if b then "true" else "false"
    case Null => "null"
  }

  /**
   * `params.map(String)`: one argument per parameter, in order; `stoi` reads
   * a number's argument back as that number and rejects a boolean's or
   * `null`'s, and a string is passed as itself.
   */
  function Stringify(params: seq<Param>): (r: seq<string>)
    ensures |r| == |params|
    ensures forall k :: 0 <= k < |params| ==> r[k] == ParamText(params[k])
    ensures forall k :: 0 <= k < |params| && params[k].Num? ==> Parse(r[k]) == Wrappers.Some(params[k].n)
    ensures forall k :: 0 <= k < |params| && (params[k].Bool? || params[k].Null?) ==> Parse(r[k]).None?
    ensures forall k :: 0 <= k < |params| && params[k].Text? ==> r[k] == params[k].s
  {
    var r := seq(|params|, k requires 0 <= k < |params| => ParamText(params[k]));
    assert forall k :: 0 <= k < |params| && params[k].Num? ==> Parse(r[k]) == Wrappers.Some(params[k].n) by {
      forall k | 0 <= k < |params| && params[k].Num? {
        ParseFromInt(params[k].n);
      }
    }
    assert forall k :: 0 <= k < |params| && (params[k].Bool? || params[k].Null?) ==> Parse(r[k]).None? by {
      forall k | 0 <= k < |params| && (params[k].Bool? || params[k].Null?) {
        LiteralTextRejected(params[k]);
      }
    }
    r
  }

  /** The `switch (lastChoice)` of `startProcess`. */
  function Resolve(id: string, params: seq<Param>): Invocation {
    match id
    case "dp-fibonacci" => Invocation(Fibonacci, Stringify(params))
    case "dp-knapsack" => Invocation(Knapsack, Stringify(params))
    case "greedy" => Invocation(Greedy, Stringify(params))
    case "n-queen" => Invocation(Backtracking, Stringify(params))
    case "string-kmp" => Invocation(Kmp, Stringify(params))
    case "string-rabin" => Invocation(RabinKarp, Stringify(params))
    case "greedy-dijkstra" => Invocation(Greedy, ["dijkstra"] + Stringify(params))
    case "greedy-prims" => Invocation(Greedy, ["prims"] + Stringify(params))
    // As written, the Kruskal id also starts Prim's algorithm.
    case "greedy-kruskal" => Invocation(Greedy, ["prims"] + Stringify(params))
    case "hamiltonian_cycle" => Invocation(HamiltonianCycle, Stringify(params))
    case _ => Invocation(SortingAlgorithm, [id] + Stringify(params))
  }

  /** A row of the declarative form of the table: executable and literal prefix. */
  datatype Rule = Rule(exe: Executable, prefix: seq<string>)

  const Table: map<string, Rule> := map[
    "dp-fibonacci" := Rule(Fibonacci, []),
    "dp-knapsack" := Rule(Knapsack, []),
    "greedy" := Rule(Greedy, []),
    "n-queen" := Rule(Backtracking, []),
    "string-kmp" := Rule(Kmp, []),
    "string-rabin" := Rule(RabinKarp, []),
    "greedy-dijkstra" := Rule(Greedy, ["dijkstra"]),
    "greedy-prims" := Rule(Greedy, ["prims"]),
    "greedy-kruskal" := Rule(Greedy, ["prims"]),
    "hamiltonian_cycle" := Rule(HamiltonianCycle, [])
  ]

  /**
   * The switch agrees with the declarative table: a catalogued id selects its
   * row's executable and puts the row's prefix before the stringified
   * parameters; any other id selects the sorting executable with the id itself
   * as the first argument.
   */
  lemma ResolveMatchesTable(id: string, params: seq<Param>)
    ensures id in Table ==>
      Resolve(id, params) == Invocation(Table[id].exe, Table[id].prefix + Stringify(params))
    ensures id !in Table ==>
      Resolve(id, params) == Invocation(SortingAlgorithm, [id] + Stringify(params))
  {
  }

  /** The argument list ends with the parameters, each written with `String`, in order. */
  lemma ResolveForwardsParams(id: string, params: seq<Param>)
    ensures var inv := Resolve(id, params);
      var offset := |inv.args| - |params|;
      0 <= offset <= 1 &&
      inv.args[offset..] == Stringify(params) &&
      (offset == 1 <==> id == "greedy-dijkstra" || id == "greedy-prims" ||
                        id == "greedy-kruskal" || id !in Table)
  {
    ResolveMatchesTable(id, params);
    var inv := Resolve(id, params);
    if id in Table && |Table[id].prefix| == 1 {
      assert inv.args[1..] == Stringify(params);
    } else if id !in Table {
      assert inv.args[1..] == Stringify(params);
    }
  }

  /**
   * Every numeric parameter arrives at the executable as an argument that
   * `stoi` reads back as the same number.
   */
  lemma NumericParamsRoundTrip(id: string, params: seq<Param>, k: nat)
    requires k < |params| && params[k].Num?
    ensures var inv := Resolve(id, params);
      var offset := |inv.args| - |params|;
      0 <= offset && Parse(inv.args[offset + k]) == Wrappers.Some(params[k].n)
  {
    ResolveForwardsParams(id, params);
    var inv := Resolve(id, params);
    var offset := |inv.args| - |params|;
    assert inv.args[offset + k] == inv.args[offset..][k];
    ParseFromInt(params[k].n);
  }

  /**
   * A boolean or `null` parameter arrives at the executable as a word that
   * `stoi` rejects, so an executable that reads it as a number aborts.
   */
  lemma LiteralParamsRejected(id: string, params: seq<Param>, k: nat)
    requires k < |params| && (params[k].Bool? || params[k].Null?)
    ensures var inv := Resolve(id, params);
      var offset := |inv.args| - |params|;
      0 <= offset && Parse(inv.args[offset + k]).None?
  {
    ResolveForwardsParams(id, params);
    var inv := Resolve(id, params);
    var offset := |inv.args| - |params|;
    assert inv.args[offset + k] == inv.args[offset..][k];
    LiteralTextRejected(params[k]);
  }

  /** The text of a boolean or `null` starts with a letter, which `stoi` rejects. */
  lemma LiteralTextRejected(p: Param)
    requires p.Bool? || p.Null?
    ensures Parse(ParamText(p)).None?
  {
    var w := ParamText(p);
    assert !IsDigit(w[0]) && w[0] != '-';
  }

  /** `greedy-kruskal` starts exactly the run that `greedy-prims` starts. */
  lemma KruskalIdRunsPrims(params: seq<Param>)
    ensures Resolve("greedy-kruskal", params) == Resolve("greedy-prims", params)
    ensures Resolve("greedy-kruskal", params).args[0] == "prims"
  {
  }

  /** Only the sorting fallback forwards the id itself; the other rows never do. */
  lemma OnlyFallbackForwardsId(id: string, params: seq<Param>)
    ensures Resolve(id, params).exe == SortingAlgorithm <==> id !in Table
  {
    ResolveMatchesTable(id, params);
  }
}
