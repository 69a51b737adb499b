# Algorithm visualiser backend, modelled in Dafny

The backend of an algorithm visualiser has two parts.

The Express server (`server.js`):
- takes a run request for an algorithm id;
- resolves the id to one of a fixed set of command-line executables and an argument list;
- spawns the executable;
- forwards each non-empty line the executable writes to every connected server-sent-events client;
- ends every client's stream when the process exits or fails to start.

The executables are small C++ programs. Each reads its arguments, runs one algorithm, and prints its steps as JSON records:
- sorting: merge, quick, bubble, selection, insertion, counting and radix sort;
- binary search;
- KMP and Rabin-Karp string matching;
- 0/1 knapsack and iterative Fibonacci;
- N-Queens and Hamiltonian-cycle backtracking;
- Dijkstra, Prim and Kruskal (with a disjoint-set forest) on an adjacency-list graph.

The model follows the source's own structure, file by file.

Server:
- `Server.Server` is a class holding the three module-level variables (`lastChoice`, `userParams`, `clients`), plus a log of effects and of spawned processes. Each handler is one method that changes them.
- `Dispatch.Resolve` is the `switch` of `startProcess`.
- `LineFramer` is the `split('\n').filter(Boolean)` of one stdout chunk.

Executables:
- Every executable's `main` is a method over `argv`. Its result datatype distinguishes each way the program can end: a usage error, a `stoi` abort, a bounds failure, or the printed result.
- Algorithms that work in place on a `vector` work on an `array<int>`, with loop invariants. Each is proved against a specification: sorted and a permutation, the first occurrence, the optimum of the recurrence, the lexicographically first solution, a shortest walk, a spanning tree or forest.
- The knapsack table and the N-Queens board are `array2`s.
- The graph and the per-node `unordered_map`s are `map`s.
- The disjoint-set forest is a class with `parent` and `rank` maps.

Standard library behaviour that the source leaves unspecified becomes a parameter with a precondition stating what the library guarantees:
- `keyOrder`, the iteration order of an `unordered_map`: some enumeration of its keys;
- `sortByWeight`, the result of a non-stable `std::sort`: a permutation ordered by weight.

Text written to standard output (the JSON step records) is not modelled. Where the steps matter, they are returned as a sequence of values (Fibonacci, knapsack, binary-search probes).

C++ `/` and `%` truncate toward zero, which Dafny's Euclidean operators do not. `CArith` defines the truncating forms, and the Rabin-Karp rolling hash and `getDigit` use them.

`stoi` is modelled as a strict decimal parse (`Decimal.Parse`, with an optional leading `-`). A parse failure is an abort of the program. The server's `String(n)` is `Decimal.FromInt`, and the two round-trip.

As written, the `greedy-kruskal` id of the server starts the greedy executable with the argument `prims`, the same command as `greedy-prims`. The model keeps this (`Dispatch.KruskalIdRunsPrims`). Kruskal's algorithm is reached by the `greedy` id with `kruskal` as the first parameter.

## Model

| member | source | states |
|---|---|---|
| Decimal.NatToString | Project/Code/Backend/server.js:57 | the decimal text of a natural number is digits only, without a leading zero |
| Decimal.Parse | Project/Code/Backend/algorithms/Greedy.cpp:94 | the model's strict stand-in for `stoi`: it succeeds exactly on an optional `-` followed by one or more digits, and digits alone give a non-negative value (what `stoi` accepts beyond that is listed under Left out) |
| Decimal.NatRoundTrip | Project/Code/Backend/server.js:57 | reading back the decimal text of `n` gives `n` |
| Decimal.ParseFromInt | Project/Code/Backend/server.js:57 | `stoi(String(n)) == n` for every integer: numeric parameters reach the executable unchanged |
| Decimal.FromIntInjective | Project/Code/Backend/server.js:57 | different integers are sent as different argument strings |
| Dispatch.Stringify | Project/Code/Backend/server.js:57 | one argument per parameter, in order: `stoi` reads a number's argument back as that number, rejects the argument of a boolean or `null`, and a string is passed as itself |
| Dispatch.ResolveMatchesTable | Project/Code/Backend/server.js:54-103 | each catalogued id selects its executable and puts its literal prefix before the parameters; any other id runs the sorting executable with the id as first argument |
| Dispatch.ResolveForwardsParams | Project/Code/Backend/server.js:54-103 | the parameters always appear, in order, as the tail of the argument list, after at most one extra leading argument, exactly when the id has one |
| Dispatch.NumericParamsRoundTrip | Project/Code/Backend/server.js:54-103 | every integral numeric parameter (one that `String` writes in plain decimal) is read back by the executable as the same number |
| Dispatch.LiteralParamsRejected | Project/Code/Backend/server.js:57 | a boolean or `null` parameter reaches the executable as a word that `stoi` rejects |
| Dispatch.KruskalIdRunsPrims | Project/Code/Backend/server.js:89-92 | the `greedy-kruskal` id yields the same invocation as `greedy-prims`, whose first argument is `prims` |
| Dispatch.OnlyFallbackForwardsId | Project/Code/Backend/server.js:98-102 | the sorting executable is chosen exactly for the ids not in the table |
| LineFramer.Split | Project/Code/Backend/server.js:110 | `split('\n')` always yields at least one piece |
| LineFramer.SplitPiecesHaveNoNewline | Project/Code/Backend/server.js:110 | no piece of the split contains a newline |
| LineFramer.JoinSplit | Project/Code/Backend/server.js:110 | joining the pieces with newlines restores the chunk |
| LineFramer.LinesAreLines | Project/Code/Backend/server.js:110 | every forwarded line is non-empty and has no newline |
| LineFramer.LinesConcat | Project/Code/Backend/server.js:110 | the forwarded lines together hold exactly the chunk's characters other than newlines: nothing is lost or invented |
| LineFramer.LinesOfTerminated | Project/Code/Backend/server.js:110 | a chunk of whole `endl`-terminated lines is forwarded as exactly those lines |
| LineFramer.SplitLineThenNewline | Project/Code/Backend/server.js:110 | a line followed by a newline splits off as its own first piece |
| LineFramer.ChunkBoundarySplitsRecord | Project/Code/Backend/server.js:109-110 | chunks are framed independently, so a record split across two chunks is forwarded as two lines |
| Server.Launch | Project/Code/Backend/server.js:47-48 | no process is started exactly when no algorithm was chosen; otherwise the sorting executable is started exactly for an id outside the table, and the stringified parameters end its argument list after at most one leading word |
| Server.Server.constructor | Project/Code/Backend/server.js:10-12 | no choice, no parameters, no clients, nothing written or spawned |
| Server.Server.Run | Project/Code/Backend/server.js:14-23 | records the choice and the body's array, or `[]` when absent, then starts exactly the invocation `Launch` gives; the clients are untouched |
| Server.Server.StartProcess | Project/Code/Backend/server.js:47-107 | appends the resolved invocation to the spawned processes, or nothing when no algorithm was chosen |
| Server.Server.Connect | Project/Code/Backend/server.js:25-30 | appends the new client; nothing is written |
| Server.Server.Disconnect | Project/Code/Backend/server.js:31-33 | the client list becomes the old one without that client |
| Server.Server.OnStdout | Project/Code/Backend/server.js:109-114 | appends, line by line, one `data:` frame per line to every current client in list order |
| Server.Server.WriteAll | Project/Code/Backend/server.js:112 | one write of the frame to each client, in list order |
| Server.Server.OnClose | Project/Code/Backend/server.js:116-123 | every client gets the end frame and is ended exactly once, and the list is emptied |
| Server.Server.OnError | Project/Code/Backend/server.js:125-132 | every client gets the error frame with the encoded message and is ended exactly once, and the list is emptied |
| Server.FanoutReceived | Project/Code/Backend/server.js:111-113 | a connected client receives exactly the data frames of all lines in order; a client not connected receives nothing and is never ended |
| Server.FinishReceived | Project/Code/Backend/server.js:118-121 | a terminal event delivers its frame exactly once to each client and to no one else |
| Server.FinishEnds | Project/Code/Backend/server.js:118-121 | a terminal event ends each client exactly once and no one else |
| Server.BroadcastReceived | Project/Code/Backend/server.js:112 | a broadcast delivers the text once to each listed client and nothing to others |
| Server.DisconnectIsolation | Project/Code/Backend/server.js:31-33 | removing one client does not change what any other client receives |
| Server.ConnectKeepsOthers | Project/Code/Backend/server.js:30 | a newly connected client has never been ended, so the connection invariant holds |
| Server.RemoveMembers | Project/Code/Backend/server.js:32 | the filter keeps exactly the other clients |
| Server.RemoveNoDup | Project/Code/Backend/server.js:32 | the filter keeps the list free of duplicates |
| Server.RemoveAbsent | Project/Code/Backend/server.js:32 | filtering a client that is not connected changes nothing |
| Sorting.Swap | Project/Code/Backend/algorithms/SortingAlgorithm.cpp:42-46 | exchanges two entries and nothing else |
| Sorting.Partition | Project/Code/Backend/algorithms/SortingAlgorithm.cpp:34-52 | Lomuto partition around `arr[high]`: the pivot lands at the returned index, entries before it are not greater, entries after it are greater, and only the range is permuted |
| Sorting.QuickSort | Project/Code/Backend/algorithms/SortingAlgorithm.cpp:26-55 | the range `[low, high]` ends sorted and permuted; the rest is unchanged |
| Sorting.Merge | Project/Code/Backend/algorithms/SortingAlgorithm.cpp:57-73 | the range becomes the two-way merge of its two halves, taking from the left on ties; the rest is unchanged |
| Sorting.MergeFromSorted | Project/Code/Backend/algorithms/SortingAlgorithm.cpp:63-69 | merging two sorted runs gives a sorted run |
| Sorting.MergeFromPermutes | Project/Code/Backend/algorithms/SortingAlgorithm.cpp:63-69 | merging keeps exactly the elements of both runs |
| Sorting.MergeSort | Project/Code/Backend/algorithms/SortingAlgorithm.cpp:75-90 | the range `[left, right]` ends sorted and permuted; the rest is unchanged |
| Sorting.BubbleSort | Project/Code/Backend/algorithms/SortingAlgorithm.cpp:92-108 | the array ends sorted and is a permutation of the input |
| Sorting.BubblePass | Project/Code/Backend/algorithms/SortingAlgorithm.cpp:95-106 | one pass moves the largest unsettled entry to the end of the unsettled part |
| Sorting.SelectionSort | Project/Code/Backend/algorithms/SortingAlgorithm.cpp:111-126 | the array ends sorted and is a permutation of the input |
| Sorting.MinIndex | Project/Code/Backend/algorithms/SortingAlgorithm.cpp:114-120 | the index of the first least entry of the suffix |
| Sorting.InsertionSort | Project/Code/Backend/algorithms/SortingAlgorithm.cpp:127-141 | the array ends sorted and is a permutation of the input |
| Sorting.Insert | Project/Code/Backend/algorithms/SortingAlgorithm.cpp:130-139 | inserting `arr[i]` extends the sorted prefix by one and permutes the array |
| CArith.CMod | Project/Code/Backend/algorithms/rabin_karp.cpp:49-50 | C++ `%`: the remainder has the sign of the dividend and is smaller than the divisor in magnitude |
| CArith.DivModIdentity | Project/Code/Backend/algorithms/SortingAlgorithm.cpp:168 | truncating division and remainder recompose the dividend |
| CArith.NonNegativeAgree | Project/Code/Backend/algorithms/SortingAlgorithm.cpp:168 | on non-negative operands, C++ and Euclidean division agree |
| CArith.TruncatesTowardZero | Project/Code/Backend/algorithms/rabin_karp.cpp:49 | on a negative dividend the C++ operators differ from Euclidean ones (`-7 / 2` is `-3`, remainder `-1`) |
| CArith.CModCongruent | Project/Code/Backend/algorithms/rabin_karp.cpp:49-50 | the C++ remainder is congruent to the dividend |
| BucketSort.GetDigit | Project/Code/Backend/algorithms/SortingAlgorithm.cpp:167-169 | the digit lies in `-9..9`, and is the decimal digit of `num` at `exp` for non-negative `num` |
| BucketSort.MaxOf | Project/Code/Backend/algorithms/SortingAlgorithm.cpp:144 | `max_element`: an element of the array, no smaller than any other |
| BucketSort.CountingPass | Project/Code/Backend/algorithms/SortingAlgorithm.cpp:176-197 | one counting pass (count, prefix sums, placement from the back) leaves the elements grouped by key in ascending key order, stably |
| BucketSort.BucketedPermutes | Project/Code/Backend/algorithms/SortingAlgorithm.cpp:158-164 | grouping by key keeps exactly the input elements |
| BucketSort.BucketedStable | Project/Code/Backend/algorithms/SortingAlgorithm.cpp:190-195 | within each key, the elements keep their input order |
| BucketSort.BucketedOrder | Project/Code/Backend/algorithms/SortingAlgorithm.cpp:190-195 | an order the input already respects inside each key survives the pass |
| BucketSort.CountingSort | Project/Code/Backend/algorithms/SortingAlgorithm.cpp:143-165 | on non-negative input the array ends sorted and permuted |
| BucketSort.RadixSort | Project/Code/Backend/algorithms/SortingAlgorithm.cpp:171-200 | whenever no pass reads a negative digit (mixed signs included), the array becomes the result of the digit passes and is a permutation of the input; it is sorted when the input is non-negative, and unchanged when the maximum is not positive (the loop does not run) |
| BucketSort.NonNegativeDigits | Project/Code/Backend/algorithms/SortingAlgorithm.cpp:167-180 | on non-negative input, or when the maximum is not positive, no pass reads a digit outside `0..9` |
| SortingMain.ParseInput | Project/Code/Backend/algorithms/SortingAlgorithm.cpp:205-211 | succeeds exactly when every argument is a number, and yields them in order |
| SortingMain.ReadArray | Project/Code/Backend/algorithms/SortingAlgorithm.cpp:221-222 | the arguments after the name, or the default array when there are none; never empty |
| SortingMain.SortNamed | Project/Code/Backend/algorithms/SortingAlgorithm.cpp:226-242 | the sort the name selects: comparison sorts and counting sort sort; radix sort gives the result of its digit passes, sorted on non-negative input; any other name leaves the array unchanged; the array is always permuted |
| SortingMain.Run | Project/Code/Backend/algorithms/SortingAlgorithm.cpp:213-247 | a missing name, a `stoi` abort, an out-of-bounds count index, or the initial and final arrays, each exactly when it applies; the index is out of bounds for counting sort exactly when an element is negative, and for radix sort exactly when some pass reads a negative digit |
| SortingMain.RadixMixedSign | Project/Code/Backend/algorithms/SortingAlgorithm.cpp:171-200 | `radix-sort -20 -100 5` reads no negative digit, completes, and writes the final array `-20 -100 5`, which is not sorted |
| SortingMain.NoFinalRecord | Project/Code/Backend/algorithms/SortingAlgorithm.cpp:241-247 | as written, `bubble-sort` on the default array writes only the unsorted initial array |
| SortingMain.FinalRecordSorted | Project/Code/Backend/algorithms/SortingAlgorithm.cpp:224-247 | with the final record written after every branch, a comparison sort's final record is sorted and a permutation of the initial one |
| Searching.BinarySearch | Project/Code/Backend/algorithms/SearchingAlgo.cpp:19-39 | an index holding the target or `-1`; probes stay within bounds and their window shrinks strictly; on a sorted array, `-1` means the target is absent |
| Searching.Run | Project/Code/Backend/algorithms/SearchingAlgo.cpp:41-73 | the size and target from `argv` (with the evens array) or from standard input; an abort on a bad or negative size; "Invalid array size" for 0; on a sorted array, "not found" exactly when the target is absent |
| Searching.EvensSorted | Project/Code/Backend/algorithms/SearchingAlgo.cpp:49 | the built-in array of evens is sorted |
| Searching.EvensContain | Project/Code/Backend/algorithms/SearchingAlgo.cpp:49 | the built-in array holds exactly the even numbers below `2n` |
| StringMatch.FirstUnique | Project/Code/Backend/algorithms/kmp.cpp:71-77 | the first occurrence, or "none", is unique, so both matchers must agree |
| Kmp.LpsArray | Project/Code/Backend/algorithms/kmp.cpp:21-51 | every `lps[i]` is the length of the longest proper border of `pattern[..i+1]` |
| Kmp.LpsBounds | Project/Code/Backend/algorithms/kmp.cpp:24-30 | `lps[0] == 0` and `0 <= lps[i] <= i` |
| Kmp.KmpSearch | Project/Code/Backend/algorithms/kmp.cpp:53-96 | the index of the first occurrence of the pattern, or `-1` exactly when none exists |
| Kmp.Run | Project/Code/Backend/algorithms/kmp.cpp:98-107 | the first occurrence for the text and pattern from `argv`, or for the defaults (found at 5) |
| Kmp.DefaultFound | Project/Code/Backend/algorithms/kmp.cpp:99-100 | `momo` first occurs in `auntymomos` at index 5 |
| RabinKarp.HashCons | Project/Code/Backend/algorithms/rabin_karp.cpp:31-34 | the base-256 value splits into the leading character times `256^(m-1)` plus the rest |
| RabinKarp.Roll | Project/Code/Backend/algorithms/rabin_karp.cpp:48-51 | the rolling update, with C++ `%` and the `+q` correction, gives the hash of the next window |
| RabinKarp.RabinKarpSearch | Project/Code/Backend/algorithms/rabin_karp.cpp:19-55 | with every character's code non-negative, the index of the first occurrence, or `-1` exactly when none exists: hash collisions are always checked |
| RabinKarp.SignedByteMissesMatch | Project/Code/Backend/algorithms/rabin_karp.cpp:27-54 | as written over signed bytes, the pattern `é` hashes to -48 and is reported missing from `aé`, where it occurs at byte 1 |
| RabinKarp.Run | Project/Code/Backend/algorithms/rabin_karp.cpp:57-67 | the first occurrence for the text and pattern from `argv`, or for the defaults (found at 3) |
| RabinKarp.DefaultFound | Project/Code/Backend/algorithms/rabin_karp.cpp:58-59 | `singh` first occurs in `pansinghtomar` at index 3 |
| Knapsack.RowsGrow | Project/Code/Backend/algorithms/knapsack.cpp:28-35 | the recurrence: an item too heavy is excluded, otherwise the better of including and excluding it |
| Knapsack.PickAttains | Project/Code/Backend/algorithms/knapsack.cpp:26-41 | some selection that fits in the capacity attains the value of the table |
| Knapsack.BestBounds | Project/Code/Backend/algorithms/knapsack.cpp:26-41 | no selection that fits is worth more than the value of the table |
| Knapsack.BestOptimal | Project/Code/Backend/algorithms/knapsack.cpp:41 | the returned value is the optimum of the 0/1 knapsack |
| Knapsack.TableAsWrittenTooSmall | Project/Code/Backend/algorithms/knapsack.cpp:24-41 | as allocated, `n` rows of `W` entries, the final read `dp[n][W]` lies outside the table; that read is undefined behaviour in C++, and the model says only that it is out of bounds |
| Knapsack.TableFits | Project/Code/Backend/algorithms/knapsack.cpp:26-41 | with `n + 1` rows of `W + 1` entries, every entry the loops touch lies inside |
| Knapsack.Solve | Project/Code/Backend/algorithms/knapsack.cpp:22-42 | returns the optimum; there is one step record per entry of rows `1..n`, in row-major order, and each gives the entry's value and the include/exclude decision the recurrence makes |
| Knapsack.ParseArgs | Project/Code/Backend/algorithms/knapsack.cpp:44-50 | `count` numbers from `start`, in order, or an abort when one is not a number |
| Knapsack.Run | Project/Code/Backend/algorithms/knapsack.cpp:52-72 | the default instance gives 13; too few arguments gives the error; otherwise an abort, an out-of-bounds negative weight, or the optimum of the instance the arguments spell out |
| Knapsack.DefaultBest | Project/Code/Backend/algorithms/knapsack.cpp:53-55 | the built-in instance's optimum is 13 |
| Fibonacci.Fibonacci | Project/Code/Backend/algorithms/fibonacci.cpp:24-43 | `fib(n)` for `n >= 0` (and 1 for negative `n`), with one step per index from 2, each the sum of the two before |
| Fibonacci.Run | Project/Code/Backend/algorithms/fibonacci.cpp:45-57 | `n` from `argv[1]` or 10; a `stoi` abort; the start and completion records around the result; the default gives 55 |
| Fibonacci.DefaultValue | Project/Code/Backend/algorithms/fibonacci.cpp:46 | `fib(10) == 55` |
| NQueens.IsSafe | Project/Code/Backend/algorithms/Backtracking.cpp:18-26 | true exactly when no queen above the row shares the column or a diagonal |
| NQueens.SafeMeans | Project/Code/Backend/algorithms/Backtracking.cpp:18-26 | on a board holding the placed queens, the board scan is the attack test on the column placement |
| NQueens.Solve | Project/Code/Backend/algorithms/Backtracking.cpp:29-49 | success yields a solution extending the placed rows, the lexicographically first one, left on the board; failure means no extension exists, with the board restored |
| NQueens.NoneAtAll | Project/Code/Backend/algorithms/Backtracking.cpp:64 | a failed search from the empty board means the size has no solution |
| NQueens.Run | Project/Code/Backend/algorithms/Backtracking.cpp:51-69 | `N` from `argv[1]` or standard input; an abort; "Invalid N" for `N < 1`; otherwise the first solution on the board, or an empty board when none exists |
| Hamiltonian.IsSafe | Project/Code/Backend/algorithms/hamiltonian_cycle.cpp:32-36 | an edge from the last vertex of the path, to a vertex not yet on it |
| Hamiltonian.HamCycleUtil | Project/Code/Backend/algorithms/hamiltonian_cycle.cpp:38-59 | success yields a Hamiltonian cycle extending the path, stored in `path`; failure means no extension closes a cycle, with the path restored |
| Hamiltonian.TryVertex | Project/Code/Backend/algorithms/hamiltonian_cycle.cpp:49-57 | one round of the candidate loop, for the single candidate `v`: on success the vector holds a Hamiltonian cycle that extends the path; on failure no Hamiltonian cycle starts with the path followed by `v`, and the vector holds the path again with `path[pos]` reset to -1 |
| Hamiltonian.FindHamiltonianCycle | Project/Code/Backend/algorithms/hamiltonian_cycle.cpp:61-68 | the path starts at 0 and is a Hamiltonian cycle when found; otherwise no Hamiltonian cycle exists and the path is 0 followed by `-1`s |
| Hamiltonian.CycleVisitsAll | Project/Code/Backend/algorithms/hamiltonian_cycle.cpp:38-47 | a Hamiltonian cycle visits every vertex |
| Hamiltonian.DefaultHasNone | Project/Code/Backend/algorithms/hamiltonian_cycle.cpp:71-84 | the built-in graph has no Hamiltonian cycle: vertex 4 has no outgoing edge |
| Hamiltonian.Run | Project/Code/Backend/algorithms/hamiltonian_cycle.cpp:70-91 | the executable always reports no cycle for its built-in graph, and the path is 0 then five `-1`s |
| GreedyGraph.BuildGraphFromArgs | Project/Code/Backend/algorithms/Greedy.cpp:87-99 | an error when the arguments do not come in threes, an abort when one is not a number, else the graph with both directions of every triple's edge |
| GreedyGraph.AddAllEdges | Project/Code/Backend/algorithms/Greedy.cpp:93-97 | an edge is in the built graph exactly when some triple contributes it in one of its two directions |
| GreedyGraph.BuiltSymmetric | Project/Code/Backend/algorithms/Greedy.cpp:95-96 | every edge of a built graph has its reverse, and both ends are nodes |
| GreedyGraph.BuiltClosed | Project/Code/Backend/algorithms/Greedy.cpp:95-96 | every edge of a built graph leads to a node |
| GreedyGraph.DefaultClosed | Project/Code/Backend/algorithms/Greedy.cpp:101-108 | the built-in graph is closed and symmetric |
| GreedyGraph.ListEdges | Project/Code/Backend/algorithms/Greedy.cpp:223-226 | the edges collected with `u < v`: exactly one copy of each undirected edge of the graph, in any key order |
| GreedyGraph.PrintInit | Project/Code/Backend/algorithms/Greedy.cpp:58-85 | the node set is every node and edge end; the edge list is each undirected edge once, with `u < v` |
| GreedyGraph.NodesSeenAll | Project/Code/Backend/algorithms/Greedy.cpp:62-69 | walking the keys in any order collects every node |
| MinQueue.Top | Project/Code/Backend/algorithms/Greedy.cpp:120 | the least `(distance, node)` entry in lexicographic order, as `greater<>` orders pairs |
| MinQueue.RemoveAt | Project/Code/Backend/algorithms/Greedy.cpp:120 | `pop` removes that one entry and keeps the others: the multiset of entries loses exactly one copy of it |
| Dijkstra.RunDijkstra | Project/Code/Backend/algorithms/Greedy.cpp:110-159 | `graph.at` throws exactly when the start is not a node; otherwise the final distances are zero at the start and relaxed over every edge, and the answer is "no path" exactly when the end is unreached, or a walk from start to end whose weights add up to `dist[end]` |
| Dijkstra.NoShorterWalk | Project/Code/Backend/algorithms/Greedy.cpp:119-147 | no walk from the start is lighter than the distance found for its last node |
| Dijkstra.ShortestPath | Project/Code/Backend/algorithms/Greedy.cpp:149-158 | the reported path is a shortest walk from start to end |
| Dijkstra.NoPathUnreachable | Project/Code/Backend/algorithms/Greedy.cpp:151-153 | when no path is reported, no walk of weight below `INT_MAX` reaches the end |
| Dijkstra.PotentialBound | Project/Code/Backend/algorithms/Greedy.cpp:139 | a potential no edge rises above bounds every walk from below |
| Dijkstra.Settle | Project/Code/Backend/algorithms/Greedy.cpp:112-147 | the main loop ends with the visited nodes exactly the reached ones, every edge relaxed, `prev` a chain of edges back to the start, and distances never above their initial values |
| Dijkstra.Relax | Project/Code/Backend/algorithms/Greedy.cpp:135-146 | the loop over `graph.at(u)` relaxes every edge of `u`, only ever lowering distances |
| Dijkstra.ReadBack | Project/Code/Backend/algorithms/Greedy.cpp:155-157 | following `prev` from the end yields a walk from the start whose weights add up to `dist[end]` |
| Prim.RunPrims | Project/Code/Backend/algorithms/Greedy.cpp:161-202 | `graph.at` throws exactly when the start is not a node; otherwise the nodes included once each with the start first, each later one joined by an `mst` pair from an earlier one by an edge of its weight, `total` the sum of those weights, and no edge below `INT_MAX` leaving the tree |
| Prim.Grow | Project/Code/Backend/algorithms/Greedy.cpp:167-199 | the main loop builds such a spanning tree of the start's component |
| Prim.Relax | Project/Code/Backend/algorithms/Greedy.cpp:187-198 | every edge of the included node leads into the tree or to a key no higher than its weight |
| Prim.TreeWalk | Project/Code/Backend/algorithms/Greedy.cpp:181-183 | every included node is reached from the start along the tree's own edges |
| Prim.WalkInTree | Project/Code/Backend/algorithms/Greedy.cpp:187-199 | every node reachable from the start is in the tree |
| DisjointSets.Dsu.constructor | Project/Code/Backend/algorithms/Greedy.cpp:231 | an empty forest |
| DisjointSets.Dsu.MakeSet | Project/Code/Backend/algorithms/Greedy.cpp:206 | adds a singleton set; every other element keeps its representative |
| DisjointSets.Dsu.FindSet | Project/Code/Backend/algorithms/Greedy.cpp:207-210 | returns the root of the element's tree; path compression changes no element's representative and no set of roots |
| DisjointSets.Dsu.UnionSet | Project/Code/Backend/algorithms/Greedy.cpp:211-218 | false exactly when both already share a representative; otherwise their two sets become one under one of the two old roots, every other element keeps its root, and there is one root fewer |
| DisjointSets.FindIsRoot | Project/Code/Backend/algorithms/Greedy.cpp:207-210 | the representative is a root, of rank above the element unless it is the element |
| DisjointSets.CompressForest | Project/Code/Backend/algorithms/Greedy.cpp:208 | pointing an element at its root keeps the forest and its roots |
| DisjointSets.LinkForest | Project/Code/Backend/algorithms/Greedy.cpp:214-216 | linking the root of lower rank under the other, with the rank bump on ties, keeps ranks increasing towards the roots |
| DisjointSets.AddForest | Project/Code/Backend/algorithms/Greedy.cpp:206 | adding a singleton keeps the forest |
| Kruskal.MakeSets | Project/Code/Backend/algorithms/Greedy.cpp:231-232 | every node becomes its own set |
| Kruskal.EdgeOfGraph | Project/Code/Backend/algorithms/Greedy.cpp:223-228 | every edge of the sorted list joins two nodes of the graph with `u < v` |
| Kruskal.RunKruskal | Project/Code/Backend/algorithms/Greedy.cpp:221-254 | the chosen edges come from the list in weight order and form a forest (each joins two nodes the earlier ones do not connect); the disjoint sets are exactly the components of the chosen edges; every listed edge ends inside one set; the chosen edges number the nodes less the sets, so at most one fewer than the nodes; `mst` and `total` are their pairs and weight sum |
| Kruskal.SpanningConnects | Project/Code/Backend/algorithms/Greedy.cpp:236-251 | at the end, the chosen edges connect the two ends of every listed edge |
| GreedyMain.SelectGraph | Project/Code/Backend/algorithms/Greedy.cpp:266-268 | the built-in graph for no argument or a single `0`; otherwise the triples' graph or its error; always closed |
| GreedyMain.BuiltNonNegative | Project/Code/Backend/algorithms/Greedy.cpp:93-97 | triples with non-negative weights build a graph with no negative edge |
| GreedyMain.GreedyMain | Project/Code/Backend/algorithms/Greedy.cpp:260-280 | usage error, triple-count error, abort, unknown name, or the named algorithm's result on the selected graph, from node 0 (and to node 3), each exactly when it applies; for `kruskal`, the result is an acyclic spanning forest of the graph's components, built from the edges in weight order |
| GreedyMain.DefaultNonNegative | Project/Code/Backend/algorithms/Greedy.cpp:101-108 | the built-in graph has no negative edge |
| GreedyMain.DefaultFeasible | Project/Code/Backend/algorithms/Greedy.cpp:101-108 | the distances 0, 3, 1, 8 of nodes 0 to 3 form a feasible potential of the built-in graph |
| GreedyMain.DefaultShortest | Project/Code/Backend/algorithms/Greedy.cpp:270 | `dijkstra` on the built-in graph reports a path from 0 to 3 of cost 8 |

## Left out

- The JSON step records the executables print, and their text, are not modelled. Where the sequence of steps matters it is returned as values.
- Decimal.Parse: `stoi` also accepts leading blanks, a `+` sign and trailing garbage (`"12x"`), and throws on values beyond `int`. The model's parse is strict decimal over unbounded integers.
- 32-bit overflow: `INT_MAX` is modelled only in its role as infinity (`INF`). Arithmetic otherwise uses unbounded integers. This covers:
  - Fibonacci.Fibonacci beyond `n = 46`, where `fib(n)` exceeds `INT_MAX`;
  - the knapsack table's sums of values (Knapsack.Solve);
  - Dijkstra's path costs `dist[u] + w` (Dijkstra.RunDijkstra);
  - Kruskal's `total`;
  - radix sort's `exp * 10` for a maximum of `10^9` or more.
- Express routing, CORS, the SSE headers, `res.sendStatus`, console logging and the `/pseudocode` route are left out. They are I/O with no state of the core.
- `req.body.array || []`: any falsy array value is modelled as absent, and a non-array value (on which `.map` would throw) is not modelled.
- Dispatch.Stringify: a parameter is an integer, a string, a boolean or `null`. Fractions (`String(1.5)` is `1.5`, which `stoi` reads as 1), numbers that `String` writes in exponent form (`1e+21`, read as 1), integers beyond exact double precision, and nested arrays or objects are not modelled.
- Concurrency: Node runs each handler to completion, so each is one method call. There is no interleaving inside a handler.
- Process spawning is an entry in the `spawned` log. The output chunks and the exit or error event are parameters of `OnStdout`, `OnClose` and `OnError`.
- The frontend components are not part of this model.
- Unordered-map iteration order and the order of equal weights after `std::sort` are parameters (`keyOrder`, `order`, `sortByWeight`, `sorted`) constrained to what the library guarantees. The model does not fix one order.
- GreedyGraph.PrintInit: the node set is returned as a set; `std::set`'s ascending print order is not modelled.
- DisjointSets.Dsu.MakeSet requires a new element. `runKruskal` calls it once per distinct key, so resetting an existing element does not arise.
- Prim: lookups of `inMST[v]` insert `false` entries. The model keeps the set of nodes mapped to `true`, which is all the algorithm reads.
- Dijkstra.RunDijkstra requires non-negative weights and a closed graph. With a negative edge the `prev` links can form a cycle and the read-back loop does not end (arguments `0 1 1 1 3 -5`). GreedyMain.GreedyMain therefore requires non-negative weights for `dijkstra`.
- Prim.RunPrims, Prim.Grow and Kruskal.RunKruskal: minimality of the tree's weight is not proved. Their contracts state a spanning tree of the start's component (Prim.RunPrims and Prim.Grow), and an acyclic spanning forest of the graph's components built from the list in weight order (Kruskal).
- Dijkstra.ReadBack: `push_back` then `reverse` is modelled as prepending one node at a time.
- Searching.Run and NQueens.Run: standard input is a parameter. Searching.Run requires that it supplies as many numbers as the size it announces.
- Kmp.KmpSearch and Kmp.Run require a non-empty pattern: with an empty one the source reads `lps[0]` of an empty vector.
- Kmp.KmpSearch, Kmp.Run, RabinKarp.RabinKarpSearch and RabinKarp.Run: a string is a sequence of characters, and an index counts characters. The C++ `string` holds UTF-8 bytes, and its indices count bytes: for the text `éa` and the pattern `a` the executables report 2, while the model reports 1.
- RabinKarp.RabinKarpSearch requires the pattern to be no longer than the text, because the source hashes `text[i]` for `i < m` regardless. It takes each character's code as non-negative. With C++'s signed `char`, a byte of 0x80 or more can make the pattern's hash negative, and then a real occurrence is missed. RabinKarp.SignedByteMissesMatch exhibits this, and it is listed under Findings.
- Hamiltonian.FindHamiltonianCycle requires every row to be at least as long as the number of rows. The built-in matrix is 6 rows of 10, and only its first six columns are read.
- BucketSort.CountingSort requires non-negative input. `main` never gives an empty array, and SortingMain.Run reports a negative element as an out-of-bounds outcome instead of sorting.
- BucketSort.RadixSort requires that no pass reads a negative digit. SortingMain.Run reports an input on which some pass does as an out-of-bounds outcome. On mixed-sign input that passes this test, the result is the passes' output, which need not be sorted (SortingMain.RadixMixedSign).
- LineFramer.Lines: every record an executable writes ends with `endl`, taken as `'\n'`. A runtime that writes `"\r\n"` (Windows text mode) would leave a `'\r'` at the end of each forwarded line; this is not modelled.

## Findings

| source | as written | input that shows it | evidently intended | confidence | as-written member | corrected member |
|---|---|---|---|---|---|---|
| Project/Code/Backend/algorithms/SortingAlgorithm.cpp:241-247 | the "Final sorted array" record sits inside the `else` branch for unknown names, so it is written only for names with no sort | `bubble-sort` with no numbers: only the initial array `7 8 9 4 80 60 78 49` is recorded | the final record after every branch, holding the sorted array | not executed | SortingMain.NoFinalRecord | SortingMain.FinalRecordSorted |
| Project/Code/Backend/algorithms/rabin_karp.cpp:32 | the pattern's hash is reduced with C++ `%` over signed `char` and never brought into `[0, q)`, while the rolled text hash is (lines 49-50), so `p == t` can fail on a real occurrence | text `aé`, pattern `é` (bytes C3 A9): `p` ends at -48, the rolled `t` of the matching window is 53, and "Pattern not found" is printed | hashes of non-negative codes (an `unsigned char` read, or `+q` on a negative `p` and initial `t`), so every occurrence is found | not executed | RabinKarp.SignedByteMissesMatch | RabinKarp.RabinKarpSearch |
| Project/Code/Backend/algorithms/knapsack.cpp:24 | `dp` is allocated with `n` rows of `W` entries, but the loops and the result read rows `0..n` and entries `0..W` | the default instance (`n = 4`, `W = 10`) reads `dp[4][10]` | a table of `n + 1` rows of `W + 1` entries | not executed | Knapsack.TableAsWrittenTooSmall | Knapsack.TableFits |
