# Shortest paths, sequential and OpenMP: a Dafny model

The repository benchmarks three single-machine shortest-path programs, each with
a sequential and an OpenMP engine that share a loader, a negative-cycle check
and a `summarize` printout:

- **Bellman-Ford** (`src/bellman_ford_seq_parallel.c`). It runs up to `n - 1`
  rounds of edge relaxation over `dist` and leaves early after a round that
  changed nothing. The parallel engine relaxes the edges of a round
  concurrently, with a lock per target vertex.
- **Dijkstra, dense O(n²)** (`src/dijkstra_seq_parallel.c`). Each round picks an
  unused vertex of least tentative distance, marks it `used` and relaxes its
  out-arcs. The parallel engine splits the scan across threads and combines the
  local minima in a critical section.
- **Floyd-Warshall** (`src/floyd_warshall_seq_parallel.c`). A `k`/`i`/`j` triple
  loop over a copy of the `n x n` matrix. The parallel engine runs the rows of
  one pivot `k` concurrently.

## How the model is built

- **Modules.** One module per source file (`BellmanFord`, `Dijkstra`,
  `FloydWarshall`), plus two shared modules:
  - `Graph`: the parsed edge `Edge(u, v, w)` with `Int32` fields, the loaders'
    range filter, and the pointwise order `Below` on distance vectors.
  - `Stats`: the `summarize` counters.
- **Sentinels.** Each module keeps its file's own `INF`: `10^18` for
  Bellman-Ford and Dijkstra, `10^15` for Floyd-Warshall.
- **Engines and specifications.** Every engine is an imperative method over a
  local `array` or `array2`, with the source's loops and loop invariants. Each
  one is proved equal to a recursive specification function, which follows the
  source's control flow: early exits, the two `INF` skips, the strict `<` of
  the selections. The properties are then proved as lemmas about those
  functions.
- **Thread schedules are inputs, not threads.**
  - Bellman-Ford: one order per round in which the edges take the lock, a
    permutation of the edge indices.
  - Dijkstra: one slicing of the vertices per round, with the slices listed in
    the order their threads enter the critical section.
  - Floyd-Warshall: one order per pivot in which its rows are relaxed.
- **What is proved for every schedule** (`TopDown` is the schedule in which
  every pivot takes its rows in order 0, 1, ..., n - 1):
  - Bellman-Ford:
    - the parallel run only lowers `dist`;
    - its early exit is sound: the result is a fixpoint, or all `n - 1`
      rounds ran.
  - Dijkstra:
    - the parallel selection finds the same least distance as the sequential
      scan;
    - it may settle on another vertex when distances tie;
    - every property of the sequential run carries over.
  - Floyd-Warshall:
    - every finite entry the sweep returns is the weight of a walk in the input;
    - when no closed walk has negative weight, every row order gives the same
      matrix as the sequential engine (`ParallelAgrees`);
    - on a graph with a negative cycle, a different row order gives a different
      matrix (`RowOrderMatters`).
- **Loaders and `summarize`.** Each loader is modelled over already-parsed
  triples. `summarize` is modelled as its two counters. It is the same code in
  the Bellman-Ford and Dijkstra files (`src/dijkstra_seq_parallel.c:145-157`),
  so `Stats.Summarize` covers both of them.

## Model

| member | source | states |
|---|---|---|
| Graph.Filter | src/bellman_ford_seq_parallel.c:37-41 | the loaders keep an edge exactly when it was read and both endpoints are in [0, n); the kept list is no longer than the input and all in range |
| Graph.FilterAppend | src/bellman_ford_seq_parallel.c:31-42 | the filter splits over concatenation, so kept edges stay in input order |
| Graph.FilterKeepsInRange | src/bellman_ford_seq_parallel.c:37-41 | input whose endpoints are all in range loses nothing |
| Graph.FilterIdempotent | src/bellman_ford_seq_parallel.c:37-41 | filtering the filtered list again changes nothing |
| Stats.CountBelow | src/bellman_ford_seq_parallel.c:148-150 | the reached count is at most the length; it equals the length iff every entry is finite and 0 iff none is |
| Stats.MaxBelow | src/bellman_ford_seq_parallel.c:146-152 | maxd is at least 0, at least every finite entry, and is 0 or one of the finite entries |
| Stats.Summarize | src/bellman_ford_seq_parallel.c:143-153 | the counter loop returns the number of entries below INF (at most n) and the maximum of 0 and the finite entries |
| Stats.CountBelowAppend | src/floyd_warshall_seq_parallel.c:103-110 | counting finite entries splits over concatenation |
| BellmanFord.LoadGraph | src/bellman_ford_seq_parallel.c:27-45 | the loader pushes exactly the in-range triples in input order, and m is recounted as the number kept |
| BellmanFord.Init | src/bellman_ford_seq_parallel.c:51-52 | the start vector has n entries: 0 at the source and INF everywhere else |
| BellmanFord.Relax | src/bellman_ford_seq_parallel.c:59-65 | relaxing one edge only lowers entry v, touches no other entry, changes the vector iff dist[u] is finite and dist[u] + w < dist[v], and then writes dist[u] + w |
| BellmanFord.Pass | src/bellman_ford_seq_parallel.c:58-66 | a round of relaxations leaves every entry at most where it was |
| BellmanFord.Rounds | src/bellman_ford_seq_parallel.c:55-70 | the rounds with early exit leave every entry at most where it was |
| BellmanFord.Passes | src/bellman_ford_seq_parallel.c:55-66 | the same number of rounds without an early exit also only lowers entries |
| BellmanFord.BellmanFord | src/bellman_ford_seq_parallel.c:50-73 | the result is pointwise at most the start vector |
| BellmanFord.BellmanFordBounds | src/bellman_ford_seq_parallel.c:51-64 | the result has n entries, none above INF, and the source entry is at most 0 |
| BellmanFord.SingleVertex | src/bellman_ford_seq_parallel.c:55 | with n = 1 no round runs and the result is [0] |
| BellmanFord.PassUnchangedIff | src/bellman_ford_seq_parallel.c:56-69 | a round changes nothing iff no edge with a finite dist[u] has dist[u] + w < dist[v] |
| BellmanFord.RoundsOutcome | src/bellman_ford_seq_parallel.c:55-70 | the result is a fixpoint of relaxation (the negative-cycle scan finds nothing) or all k rounds ran |
| BellmanFord.StableStaysPut | src/bellman_ford_seq_parallel.c:68-69 | further rounds, with or without the early exit, never change a fixpoint |
| BellmanFord.RelaxEdge | src/bellman_ford_seq_parallel.c:59-65 | the edge-loop body updates the array as Relax does and reports a write iff the edge improves dist[v] |
| BellmanFord.RelaxRound | src/bellman_ford_seq_parallel.c:56-66 | the edge loop relaxes every edge in list order, and `changed` is true iff the vector changed |
| BellmanFord.BellmanFordSeq | src/bellman_ford_seq_parallel.c:50-73 | the sequential engine returns BellmanFord(edges, n, source) |
| BellmanFord.Relaxable | src/bellman_ford_seq_parallel.c:129-140 | the property `has_negative_cycle` reports holds iff relaxing some single edge of the list would change the vector |
| BellmanFord.HasNegativeCycle | src/bellman_ford_seq_parallel.c:130-140 | the scan returns true iff some edge with finite dist[u] has dist[u] + w < dist[v] |
| BellmanFord.Permute | src/bellman_ford_seq_parallel.c:92-94 | position i of a round's schedule relaxes edge order[i] |
| BellmanFord.PermuteRelaxable | src/bellman_ford_seq_parallel.c:92-115 | a permuted edge list is in range, and some edge can still lower the vector in it iff some edge can in the original list |
| BellmanFord.ParRounds | src/bellman_ford_seq_parallel.c:89-119 | every schedule's rounds leave each entry at most where it was |
| BellmanFord.ParPasses | src/bellman_ford_seq_parallel.c:89-115 | every schedule's rounds without an early exit also only lower entries |
| BellmanFord.ParRoundsOutcome | src/bellman_ford_seq_parallel.c:89-119 | for every schedule the result is a fixpoint of relaxation over the original edges, or all k rounds ran (it equals ParPasses) and changed the start vector |
| BellmanFord.ParStableStaysPut | src/bellman_ford_seq_parallel.c:89-119 | a vector no edge can lower is left unchanged by every schedule |
| BellmanFord.BellmanFordParallel | src/bellman_ford_seq_parallel.c:76-127 | the parallel result for a schedule is pointwise at most the start vector |
| BellmanFord.LockedRelax | src/bellman_ford_seq_parallel.c:96-114 | the optimistic test against a value of dist[v] at least the current one, followed by the test and write under the lock, updates dist exactly as Relax does, and writes iff the edge improves dist[v] |
| BellmanFord.ParallelRound | src/bellman_ford_seq_parallel.c:89-115 | a round in the schedule's order relaxes the permuted edges, and `updated` is true iff some entry was lowered |
| BellmanFord.ParallelStep | src/bellman_ford_seq_parallel.c:89-119 | one round either stops, in which case the array already holds the run's result, or leaves the rest of the run to end in the same result |
| BellmanFord.BellmanFordPar | src/bellman_ford_seq_parallel.c:76-127 | the serialised parallel engine returns BellmanFordParallel for its schedule |
| Dijkstra.OutArcs | src/dijkstra_seq_parallel.c:37 | (v, w) is in the list of u iff the edge u -> v of weight w was kept |
| Dijkstra.Adjacency | src/dijkstra_seq_parallel.c:22-38 | there are n lists and every arc leads to a vertex of the graph |
| Dijkstra.AdjacencyArcs | src/dijkstra_seq_parallel.c:32-37 | adj[u] holds (v, w) iff the input has the edge u -> v of weight w with both ends in range |
| Dijkstra.OutArcsAppend | src/dijkstra_seq_parallel.c:26-38 | the lists of a concatenated input are the concatenated lists, so arcs keep input order |
| Dijkstra.OutArcsPush | src/dijkstra_seq_parallel.c:32-37 | one more triple appends its arc to its tail's list when in range, and to no other list |
| Dijkstra.AdjacencyPush | src/dijkstra_seq_parallel.c:32-37 | one more triple pushes (v, w) onto adj[u] when both ends are in range and leaves the lists alone otherwise |
| Dijkstra.NegativeFlag | src/dijkstra_seq_parallel.c:36-42 | some kept edge has a negative weight iff some list holds a negative arc |
| Dijkstra.EmptyLists | src/dijkstra_seq_parallel.c:22 | the loader starts from n empty lists |
| Dijkstra.PushArc | src/dijkstra_seq_parallel.c:37 | the push appends (v, w) to the list of u and changes no other list |
| Dijkstra.LoadGraph | src/dijkstra_seq_parallel.c:9-45 | the loader builds Adjacency(triples, n), and has_negative is set iff some kept edge has w < 0, iff some list has a negative arc |
| Dijkstra.Scan | src/dijkstra_seq_parallel.c:57-66 | the selection returns u = -1 iff best is INF, and otherwise an unused vertex whose distance is best |
| Dijkstra.ScanLeast | src/dijkstra_seq_parallel.c:60-66 | best is at most every unused distance, every unused vertex before u is strictly farther (lowest index wins ties), and u = -1 only when every unused vertex is at INF |
| Dijkstra.ScanBelow | src/dijkstra_seq_parallel.c:61-66 | no unused vertex scanned is closer than the pick |
| Dijkstra.LocalScan | src/dijkstra_seq_parallel.c:104-113 | a thread's local_u/local_best pair is -1/INF or an unused vertex at distance local_best |
| Dijkstra.LocalScanBelow | src/dijkstra_seq_parallel.c:107-113 | no unused vertex of the thread's slice is closer than its local pick |
| Dijkstra.LocalScanPicksListed | src/dijkstra_seq_parallel.c:107-113 | a thread's local pick comes from its own slice |
| Dijkstra.Combine | src/dijkstra_seq_parallel.c:116-122 | the critical sections in any entry order leave a pair that is -1/INF or an unused vertex at distance best |
| Dijkstra.CombineBelow | src/dijkstra_seq_parallel.c:116-122 | no unused vertex of any slice is closer than the combined pick |
| Dijkstra.CombinePicksListed | src/dijkstra_seq_parallel.c:116-122 | the combined pick comes from one of the slices |
| Dijkstra.ParallelSelectAgrees | src/dijkstra_seq_parallel.c:101-126 | for any slices that cover the vertices and any combining order, best equals the sequential best, the loop stops in the same rounds, and u is unused with dist[u] = best |
| Dijkstra.TieMayPickOtherVertex | src/dijkstra_seq_parallel.c:116-122 | with two unused vertices at the same distance, the sequential scan picks 0 and a covering slicing picks 1 |
| Dijkstra.Start | src/dijkstra_seq_parallel.c:51-54 | the start state has dist INF except 0 at the source, and nothing used |
| Dijkstra.RelaxArcs | src/dijkstra_seq_parallel.c:74-80 | relaxing u's arcs only lowers distances |
| Dijkstra.RelaxArcsFromLeast | src/dijkstra_seq_parallel.c:74-80 | with non-negative weights, relaxing out of u leaves every vertex no farther than u alone and writes nothing below dist[u] |
| Dijkstra.Step | src/dijkstra_seq_parallel.c:71-80 | a round marks exactly u used, and only an unused u |
| Dijkstra.StepKeepsInv | src/dijkstra_seq_parallel.c:71-80 | from any eligible vertex a round keeps the bounds (source at most 0, all at most INF); with non-negative weights it keeps used vertices, u included, at their distances |
| Dijkstra.StepKeepsUsed | src/dijkstra_seq_parallel.c:71 | a used vertex stays used |
| Dijkstra.RunSeq | src/dijkstra_seq_parallel.c:56-81 | the rounds keep the state's shape |
| Dijkstra.Dijkstra | src/dijkstra_seq_parallel.c:49-84 | the result has n entries |
| Dijkstra.ScanEligible | src/dijkstra_seq_parallel.c:60-69 | when the scan picks a vertex, it is unused, reached and nearest among the unused ones |
| Dijkstra.RoundKeepsInv | src/dijkstra_seq_parallel.c:56-81 | a sequential round keeps the invariant and the used marks; with non-negative weights it keeps used distances |
| Dijkstra.RunSeqLowers | src/dijkstra_seq_parallel.c:56-81 | a sequential run ends pointwise at most the distances it started from |
| Dijkstra.RunSeqInv | src/dijkstra_seq_parallel.c:56-81 | the invariant holds along the whole sequential run |
| Dijkstra.RunSeqKeepsUsed | src/dijkstra_seq_parallel.c:56-81 | a used vertex stays used to the end and, with non-negative weights, keeps its distance (finalized) |
| Dijkstra.StartInv | src/dijkstra_seq_parallel.c:51-54 | the start state satisfies the invariant |
| Dijkstra.StartPicksSource | src/dijkstra_seq_parallel.c:54-66 | the first scan picks the source at distance 0 |
| Dijkstra.StartPicksSourcePar | src/dijkstra_seq_parallel.c:94-122 | the first parallel selection picks the source at distance 0, for any covering slices |
| Dijkstra.DijkstraBounds | src/dijkstra_seq_parallel.c:49-84 | the result has n entries, none above INF, and the source entry is at most 0 |
| Dijkstra.SourceFirst | src/dijkstra_seq_parallel.c:54-80 | with non-negative weights the first round settles the source at 0 and keeps the invariant |
| Dijkstra.RunSeqFirst | src/dijkstra_seq_parallel.c:56-81 | the sequential run begins by settling the source |
| Dijkstra.SourceStaysFrom | src/dijkstra_seq_parallel.c:56-81 | a used source at 0 stays at 0 through the remaining rounds |
| Dijkstra.SourceStays | src/dijkstra_seq_parallel.c:56-81 | after the first round the source keeps its 0 to the end |
| Dijkstra.DijkstraSourceZero | src/dijkstra_seq_parallel.c:49-84 | with non-negative weights the result has 0 at the source |
| Dijkstra.Initial | src/dijkstra_seq_parallel.c:51-54 | the engines' fresh arrays hold the start state |
| Dijkstra.SelectSeq | src/dijkstra_seq_parallel.c:57-66 | the selection loop returns the pair Scan defines |
| Dijkstra.RelaxOut | src/dijkstra_seq_parallel.c:74-80 | the relax loop updates dist as RelaxArcs does, re-reading dist[u] for each arc |
| Dijkstra.Settle | src/dijkstra_seq_parallel.c:71-80 | marking u used and relaxing its arcs moves the arrays to Step of the old state |
| Dijkstra.DijkstraSeq | src/dijkstra_seq_parallel.c:49-84 | the sequential engine returns Dijkstra(adj, source) |
| Dijkstra.RunPar | src/dijkstra_seq_parallel.c:97-139 | the parallel rounds keep the state's shape |
| Dijkstra.DijkstraParallel | src/dijkstra_seq_parallel.c:88-142 | the parallel result has n entries |
| Dijkstra.CombineEligible | src/dijkstra_seq_parallel.c:101-126 | with covering slices the combined pick is unused, reached and nearest among the unused vertices |
| Dijkstra.RoundKeepsInvPar | src/dijkstra_seq_parallel.c:97-139 | a parallel round keeps the invariant and the used marks, and with non-negative weights the used distances, for any slices |
| Dijkstra.RunParLowers | src/dijkstra_seq_parallel.c:97-139 | a parallel run ends pointwise at most the distances it started from, for every slicing |
| Dijkstra.DijkstraLowers | src/dijkstra_seq_parallel.c:48-142 | both engines return distances pointwise at most the start vector (0 at the source, INF elsewhere) |
| Dijkstra.RunParInv | src/dijkstra_seq_parallel.c:97-139 | the invariant holds along every parallel run |
| Dijkstra.RunParKeepsUsed | src/dijkstra_seq_parallel.c:97-139 | a used vertex stays used to the end of every parallel run |
| Dijkstra.RunParKeepsDist | src/dijkstra_seq_parallel.c:97-139 | with non-negative weights a used vertex keeps its distance to the end of every parallel run |
| Dijkstra.DijkstraParallelBounds | src/dijkstra_seq_parallel.c:88-142 | the parallel result has n entries, none above INF, and the source entry is at most 0 |
| Dijkstra.RunParFirst | src/dijkstra_seq_parallel.c:94-128 | every parallel run begins by settling the source |
| Dijkstra.SourceStaysFromPar | src/dijkstra_seq_parallel.c:97-139 | a used source at 0 stays at 0 through the remaining parallel rounds |
| Dijkstra.SourceStaysPar | src/dijkstra_seq_parallel.c:97-139 | after the first round the source keeps its 0 in every parallel run |
| Dijkstra.DijkstraParallelSourceZero | src/dijkstra_seq_parallel.c:88-142 | with non-negative weights every slicing returns 0 at the source |
| Dijkstra.LocalSelect | src/dijkstra_seq_parallel.c:104-113 | one thread's loop over its slice returns the pair LocalScan defines |
| Dijkstra.ParallelSelect | src/dijkstra_seq_parallel.c:101-123 | the thread loops followed by the critical sections in slice order return the pair Combine defines |
| Dijkstra.ParallelRound | src/dijkstra_seq_parallel.c:97-139 | a parallel round stops iff the combined pick is -1 or INF, and otherwise settles the picked vertex |
| Dijkstra.DijkstraPar | src/dijkstra_seq_parallel.c:88-142 | the serialised parallel engine returns DijkstraParallel for its slicing |
| FloydWarshall.Entry | src/floyd_warshall_seq_parallel.c:21-39 | a loaded entry is at most 0 on the diagonal and at most INF elsewhere |
| FloydWarshall.EntryIsLeast | src/floyd_warshall_seq_parallel.c:21-39 | dist[u][v] is at most every kept weight u -> v and is either the start value or one of them; it is INF iff u != v and no edge u -> v was kept |
| FloydWarshall.InfMatrix | src/floyd_warshall_seq_parallel.c:21 | the loader starts from an n x n matrix of INF |
| FloydWarshall.ZeroDiagonal | src/floyd_warshall_seq_parallel.c:24 | the diagonal is set to 0 and the rest stays INF |
| FloydWarshall.KeepLeast | src/floyd_warshall_seq_parallel.c:39 | a duplicate edge keeps the smaller weight and no other entry changes |
| FloydWarshall.Matrix | src/floyd_warshall_seq_parallel.c:8-43 | the loaded matrix is n x n with no entry above INF and no diagonal entry above 0 |
| FloydWarshall.LoadMatrix | src/floyd_warshall_seq_parallel.c:8-43 | the loader returns Matrix(triples, n) |
| FloydWarshall.FloydWarshall | src/floyd_warshall_seq_parallel.c:46-63 | the sequential result has the argument's n x n shape |
| FloydWarshall.FloydWarshallParallel | src/floyd_warshall_seq_parallel.c:66-86 | every row schedule returns a matrix of the argument's n x n shape |
| FloydWarshall.Cell | src/floyd_warshall_seq_parallel.c:53-57 | only cell (i, j) can change and it never rises; it drops iff dist[k][j] is not INF and dist[i][k] + dist[k][j] is strictly smaller, dist[i][k] being read from the current matrix, and then it becomes that sum |
| FloydWarshall.RowFrom | src/floyd_warshall_seq_parallel.c:52-58 | the j loop from column j on leaves every row other than i unchanged |
| FloydWarshall.RowStep | src/floyd_warshall_seq_parallel.c:51-58 | relaxing row i leaves every other row unchanged, and changes nothing at all when dist[i][k] is INF |
| FloydWarshall.PivotFromKeepsUnlisted | src/floyd_warshall_seq_parallel.c:50-59 | a pivot leaves every row its order does not list as it was |
| FloydWarshall.RelaxRowUnlessInf | src/floyd_warshall_seq_parallel.c:51-58 | the i loop body tests dist[i][k] against INF once and then runs the j loop, updating the matrix as RowStep does |
| FloydWarshall.RelaxCell | src/floyd_warshall_seq_parallel.c:53-57 | the j loop body updates the matrix as Cell does: skipped when dist[k][j] is INF, lowered to the candidate when smaller |
| FloydWarshall.RelaxRow | src/floyd_warshall_seq_parallel.c:52-58 | the j loop updates the matrix as RowFrom does |
| FloydWarshall.RelaxPivot | src/floyd_warshall_seq_parallel.c:50-59 | the i loop in the given order, with its dist[i][k] == INF skip, updates the matrix as PivotFrom does |
| FloydWarshall.RelaxAll | src/floyd_warshall_seq_parallel.c:49-60 | the k loop updates the matrix as PivotsFrom does |
| FloydWarshall.CopyIn | src/floyd_warshall_seq_parallel.c:46 | the engines work on a fresh copy of their argument, so the caller's matrix is never written |
| FloydWarshall.FloydWarshallSeq | src/floyd_warshall_seq_parallel.c:46-63 | the sequential engine returns FloydWarshall(D) |
| FloydWarshall.FloydWarshallPar | src/floyd_warshall_seq_parallel.c:66-86 | the serialised parallel engine returns FloydWarshallParallel for its row schedule |
| FloydWarshall.CellLowers | src/floyd_warshall_seq_parallel.c:53-57 | a cell update never raises an entry |
| FloydWarshall.RowFromLowers | src/floyd_warshall_seq_parallel.c:52-58 | a row sweep never raises an entry |
| FloydWarshall.RowStepLowers | src/floyd_warshall_seq_parallel.c:51-58 | one row of a pivot never raises an entry |
| FloydWarshall.PivotFromLowers | src/floyd_warshall_seq_parallel.c:50-59 | a pivot in any row order never raises an entry |
| FloydWarshall.PivotsFromLowers | src/floyd_warshall_seq_parallel.c:49-60 | the k loop never raises an entry |
| FloydWarshall.SweepLowers | src/floyd_warshall_seq_parallel.c:46-86 | both engines return a matrix pointwise at most their argument, so no entry rises above INF |
| FloydWarshall.LoadedDiagonal | src/floyd_warshall_seq_parallel.c:24-57 | after either engine the diagonal of a loaded matrix is still at most 0 |
| FloydWarshall.CellSound | src/floyd_warshall_seq_parallel.c:53-57 | a cell update joins a walk to the pivot with a walk from it and never adds an INF operand, so finite entries remain walk weights |
| FloydWarshall.RowFromSound | src/floyd_warshall_seq_parallel.c:52-58 | a row sweep keeps every finite entry a walk weight |
| FloydWarshall.PivotFromSound | src/floyd_warshall_seq_parallel.c:50-59 | a pivot in any row order keeps every finite entry a walk weight |
| FloydWarshall.PivotsFromSound | src/floyd_warshall_seq_parallel.c:49-60 | the k loop keeps every finite entry a walk weight |
| FloydWarshall.SweepSound | src/floyd_warshall_seq_parallel.c:46-86 | every finite entry either engine returns is the total of a walk along finite input entries between its row and column |
| FloydWarshall.NegativeDiagonalIsCycle | src/floyd_warshall_seq_parallel.c:88-94 | a negative diagonal entry after either engine comes from a closed walk of negative weight |
| FloydWarshall.CellIs | src/floyd_warshall_seq_parallel.c:53-57 | with dist[k][k] >= 0 a cell update writes only cell (i, j) and leaves row k and cell (i, k) alone |
| FloydWarshall.RowFromIs | src/floyd_warshall_seq_parallel.c:52-58 | with dist[k][k] >= 0 the j loop changes only row i, and each cell gets its value computed from the matrix before the pivot |
| FloydWarshall.RowAfterKeeps | src/floyd_warshall_seq_parallel.c:74-81 | with dist[k][k] >= 0 a pivot leaves column k of each row, and row k itself, unchanged |
| FloydWarshall.RowStepIs | src/floyd_warshall_seq_parallel.c:74-81 | with dist[k][k] >= 0 relaxing row i replaces that row by its closed form and touches nothing else |
| FloydWarshall.RowAfterAgain | src/floyd_warshall_seq_parallel.c:74-81 | a row computed while other rows were already relaxed is the same as one computed from the matrix before the pivot |
| FloydWarshall.SweptStep | src/floyd_warshall_seq_parallel.c:71-83 | relaxing the next row of the order extends the set of relaxed rows by that row |
| FloydWarshall.PivotFromIs | src/floyd_warshall_seq_parallel.c:71-83 | relaxing the rest of the order from a partly relaxed matrix relaxes every listed row |
| FloydWarshall.AnyRowOrder | src/floyd_warshall_seq_parallel.c:71-83 | with dist[k][k] >= 0, every order taking each row once gives the same matrix after pivot k |
| FloydWarshall.TopDownRowOrders | src/floyd_warshall_seq_parallel.c:49-50 | the sequential loop order takes each row once per pivot |
| FloydWarshall.PivotsAgree | src/floyd_warshall_seq_parallel.c:71-83 | from a sound matrix and with no negative closed walk, any row order per pivot agrees with the top-down one from pivot k on |
| FloydWarshall.ParallelAgrees | src/floyd_warshall_seq_parallel.c:66-86 | without a negative closed walk, floyd_warshall_par returns what floyd_warshall_seq returns, in every row order |
| FloydWarshall.HasNegativeCycle | src/floyd_warshall_seq_parallel.c:89-95 | the check returns true iff some diagonal entry is negative |
| FloydWarshall.NoCycleNoWarning | src/floyd_warshall_seq_parallel.c:153-157 | without a negative closed walk neither engine leaves a negative diagonal entry, so no warning is printed |
| FloydWarshall.NegativePairLoads | src/floyd_warshall_seq_parallel.c:21-39 | loading 0 -> 1 : -1 and 1 -> 0 : -1 gives [[0, -1], [-1, 0]] |
| FloydWarshall.NegativePairPivot0 | src/floyd_warshall_seq_parallel.c:49-59 | pivot 0 on that matrix gives [[0, -1], [-1, -2]] |
| FloydWarshall.NegativePairPivot1 | src/floyd_warshall_seq_parallel.c:49-59 | pivot 1 top-down then gives [[-2, -3], [-3, -4]] |
| FloydWarshall.NegativePair | src/floyd_warshall_seq_parallel.c:49-62 | on that graph the sequential engine returns [[-2, -3], [-3, -4]], both diagonal entries negative |
| FloydWarshall.NegativePairWarns | src/floyd_warshall_seq_parallel.c:128-157 | loading that graph, sweeping it sequentially and checking the diagonal reports a negative cycle |
| FloydWarshall.NegativePairPivot1Reversed | src/floyd_warshall_seq_parallel.c:71-83 | with row 1 taken before row 0, pivot 1 gives [[-4, -5], [-3, -4]] |
| FloydWarshall.RowOrderMatters | src/floyd_warshall_seq_parallel.c:66-86 | when a cycle is negative, a schedule taking each row once per pivot can return something other than the sequential result |
| FloydWarshall.SummarizeRow | src/floyd_warshall_seq_parallel.c:104-109 | the j loop extends the counters kept so far by the row's finite entries |
| FloydWarshall.SummarizeMatrix | src/floyd_warshall_seq_parallel.c:98-110 | reachable is the number of entries below INF (at most n²) and maxd the maximum of 0 and the finite entries |

## Left out

- Threads are not modelled: OpenMP teams, `omp_set_num_threads` and the
  `threads` arguments, the `omp_lock_t` calls, `schedule(dynamic, 256)`, the
  `reduction(||:updated)` and `nowait`. Each parallel loop is modelled as one
  serial order chosen by an input schedule.
- The parallel engines' data races are not modelled. In `bellman_ford_par`,
  dist[u] is read without a lock and the optimistic test reads dist[v] without
  one: the model reads the current dist[u]. For dist[v], `LockedRelax` takes as
  input any value at least the current one.
- When a pivot's diagonal entry is negative, rows of that pivot running
  together race on row k. The model covers only the serial row orders, and
  `RowOrderMatters` shows that these already disagree.
- File parsing is left out: `ifstream`, `stoi`, the `exit(1)` error paths and
  the warnings printed on `cerr`. The loaders are modelled on already-parsed
  triples.
- All `main` functions are left out: the command line, `omp_get_wtime`
  timing, the n > 2000 warning and every `cout`. `summarize` is modelled as
  its two counters, without the printing.
- `src/generate_graph.c` is not part of this model. It is random graph
  generation and file output.
- Machine integers are modelled as unbounded `int`. Overflow of the `int`
  counters and of `long long` sums is not modelled, nor is a weight added to a
  sentinel-sized value. Edge fields are the C `int` range (`Graph.Int32`).
- Full optimality is not proved. The model does not show that Bellman-Ford or
  Dijkstra compute least path weights, nor that parallel Bellman-Ford equals
  sequential Bellman-Ford. For Floyd-Warshall it proves only soundness
  (`SweepSound`), not that the result is the least walk weight.
- FloydWarshall.NegativeDiagonalIsCycle: only one direction is proved, a
  negative diagonal entry implies a negative closed walk. The converse, that
  every negative cycle is caught, is not proved.
- FloydWarshall.LoadMatrix and Dijkstra.LoadGraph: both require n >= 0. A
  negative n read from the file makes the C++ vector constructors throw,
  which is not modelled.
- FloydWarshall.FloydWarshall: the sequential engine is modelled as the
  top-down schedule of the same pivot sweep.
- The three files' sentinels are kept as written (`10^18`, `10^18`,
  `10^15`). No property relating them across files is stated.
