// All-pairs shortest paths on an n x n distance matrix: the loader's matrix build, the
// k/i/j sweep of the sequential engine, the parallel engine whose rows of one pivot may be
// processed in any order, the diagonal check and the matrix summary.

module FloydWarshall {
  import opened Graph
  import Stats

  /** "No path": this file's sentinel is 1e15, not the 1e18 of the other two engines. */
  const INF: int := 1_000_000_000_000_000

  /** An n x n matrix, n being the number of rows. */
  predicate Square(E: seq<seq<int>>)
  {
    forall i :: 0 <= i < |E| ==> |E[i]| == |E|
  }

  /** The local matrix of an engine holds the matrix value E, cell by cell. */
  ghost predicate Holds(a: array2<int>, E: seq<seq<int>>)
    reads a
  {
    a.Length0 == |E| && a.Length1 == |E| && Square(E)
    && forall i, j :: 0 <= i < |E| && 0 <= j < |E| ==> a[i, j] == E[i][j]
  }

  /** A matrix value is fixed by the cells of an array that holds it. */
  lemma HoldsUnique(a: array2<int>, E: seq<seq<int>>, F: seq<seq<int>>)
    requires Holds(a, E) && Holds(a, F)
    ensures E == F
  {
    forall i | 0 <= i < |E| ensures E[i] == F[i] {
      assert forall j :: 0 <= j < |E| ==> E[i][j] == a[i, j] == F[i][j];
    }
  }

  /** The matrix value an array holds, which is what an engine returns. */
  method Contents(a: array2<int>) returns (E: seq<seq<int>>)
    requires a.Length0 == a.Length1
    ensures Holds(a, E)
  {
    var n := a.Length0;
    E := seq(n, i requires 0 <= i < n reads a => seq(n, j requires 0 <= j < n reads a => a[i, j]));
  }

  // ---------------------------------------------------------------------------
  // Loader

  /** Entry (u, v) of the matrix `load_matrix` builds from the first triples: 0 on the diagonal
      and INF elsewhere to begin with, then lowered to the weight of every in-range edge u -> v
      that is smaller, so duplicates keep their least weight. */
  function Entry(triples: seq<Edge>, n: int, u: int, v: int): (d: int)
    ensures d <= (if u == v then 0 else INF)
  {
    if triples == [] then (if u == v then 0 else INF)
    else
      var e := triples[|triples| - 1];
      var d := Entry(triples[..|triples| - 1], n, u, v);
      if InRange(e, n) && e.u == u && e.v == v && e.w < d then e.w else d
  }

  /** Reading one more triple lowers only the entry of its edge, when it is in range. */
  lemma EntryPush(prefix: seq<Edge>, e: Edge, n: int, u: int, v: int)
    ensures Entry(prefix + [e], n, u, v)
         == if InRange(e, n) && e.u == u && e.v == v && e.w < Entry(prefix, n, u, v) then e.w
            else Entry(prefix, n, u, v)
  {
    assert (prefix + [e])[..|prefix|] == prefix;
  }

  /** The entry is the least of its start value and the weights of the in-range edges u -> v;
      it stays INF exactly when u != v and no such edge was read. */
  lemma {:induction false} EntryIsLeast(triples: seq<Edge>, n: int, u: int, v: int)
    ensures var d := Entry(triples, n, u, v);
      (forall e :: e in triples && InRange(e, n) && e.u == u && e.v == v ==> d <= e.w)
      && (d == (if u == v then 0 else INF)
          || exists e :: e in triples && InRange(e, n) && e.u == u && e.v == v && d == e.w)
      && (d == INF <==> u != v && forall e :: e in triples && InRange(e, n) ==> !(e.u == u && e.v == v))
  {
    if triples != [] {
      var prefix := triples[..|triples| - 1];
      var e := triples[|triples| - 1];
      assert triples == prefix + [e];
      EntryIsLeast(prefix, n, u, v);
    }
  }

  /** The matrix `load_matrix` returns: no entry is above INF and no diagonal entry above 0. */
  function Matrix(triples: seq<Edge>, n: nat): (M: seq<seq<int>>)
    ensures |M| == n && Square(M)
    ensures AtMostInf(M)
    ensures forall u :: 0 <= u < n ==> M[u][u] <= 0
  {
    seq(n, u requires 0 <= u < n => seq(n, v requires 0 <= v < n => Entry(triples, n, u, v)))
  }

  /** The loader's start: an n x n matrix with every entry INF. */
  method InfMatrix(n: nat) returns (a: array2<int>)
    ensures fresh(a) && a.Length0 == n && a.Length1 == n
    ensures forall u, v :: 0 <= u < n && 0 <= v < n ==> a[u, v] == INF
  {
    a := new int[n, n]((u, v) => INF);
  }

  /** Every vertex is at distance 0 from itself. */
  method ZeroDiagonal(a: array2<int>)
    requires a.Length0 == a.Length1
    requires forall u, v :: 0 <= u < a.Length0 && 0 <= v < a.Length0 ==> a[u, v] == INF
    modifies a
    ensures forall u, v :: 0 <= u < a.Length0 && 0 <= v < a.Length0 ==> a[u, v] == Entry([], a.Length0, u, v)
  {
    var i := 0;
    while i < a.Length0
      invariant 0 <= i <= a.Length0
      invariant forall u, v :: 0 <= u < a.Length0 && 0 <= v < a.Length0 ==>
        a[u, v] == if u == v && u < i then 0 else INF
    {
      a[i, i] := 0;
      i := i + 1;
    }
  }

  /** An in-range edge lowers its entry to its weight when smaller, so duplicates keep the least. */
  method KeepLeast(a: array2<int>, e: Edge)
    requires a.Length0 == a.Length1 && InRange(e, a.Length0)
    modifies a
    ensures a[e.u, e.v] == if e.w < old(a[e.u, e.v]) then e.w else old(a[e.u, e.v])
    ensures forall u, v :: 0 <= u < a.Length0 && 0 <= v < a.Length0 && (u != e.u || v != e.v) ==>
      a[u, v] == old(a[u, v])
  {
    if e.w < a[e.u, e.v] {
      a[e.u, e.v] := e.w;
    }
  }

  /** `load_matrix` over parsed triples: out-of-range edges are skipped. */
  method LoadMatrix(triples: seq<Edge>, n: Int32) returns (M: seq<seq<int>>)
    requires n >= 0
    ensures M == Matrix(triples, n)
  {
    var a := InfMatrix(n);
    ZeroDiagonal(a);
    ghost var read: seq<Edge> := [];
    var i := 0;
    while i < |triples|
      invariant 0 <= i <= |triples| && read == triples[..i]
      invariant forall u, v :: 0 <= u < n && 0 <= v < n ==> a[u, v] == Entry(read, n, u, v)
    {
      var e := triples[i];
      forall u, v | 0 <= u < n && 0 <= v < n {
        EntryPush(read, e, n, u, v);
      }
      if InRange(e, n) {
        KeepLeast(a, e);
      }
      TakeNext(triples, i);
      i, read := i + 1, read + [e];
    }
    assert read == triples;
    M := Contents(a);
    HoldsUnique(a, M, Matrix(triples, n));
  }

  // ---------------------------------------------------------------------------
  // The sweep, as a function of the matrix

  /** Cell (i, j) under pivot k: skipped when dist[k][j] is INF, otherwise lowered to
      dist[i][k] + dist[k][j] when that is smaller. dist[i][k] is read afresh. */
  function Cell(E: seq<seq<int>>, k: int, i: int, j: int): (r: seq<seq<int>>)
    requires Square(E) && 0 <= k < |E| && 0 <= i < |E| && 0 <= j < |E|
    ensures |r| == |E| && Square(r)
    ensures r == E[i := E[i][j := r[i][j]]]
    ensures r[i][j] <= E[i][j]
    ensures r[i][j] < E[i][j] <==> E[k][j] != INF && E[i][k] + E[k][j] < E[i][j]
    ensures r[i][j] < E[i][j] ==> r[i][j] == E[i][k] + E[k][j]
  {
    assert E[i][j := E[i][j]] == E[i];
    if E[k][j] == INF then E
    else
      var cand := E[i][k] + E[k][j];
      if cand < E[i][j] then E[i := E[i][j := cand]] else E
  }

  /** The j loop of row i under pivot k, from column j on. */
  function RowFrom(E: seq<seq<int>>, k: int, i: int, j: nat): (r: seq<seq<int>>)
    requires Square(E) && 0 <= k < |E| && 0 <= i < |E| && j <= |E|
    ensures |r| == |E| && Square(r)
    ensures forall x :: 0 <= x < |E| && x != i ==> r[x] == E[x]
    decreases |E| - j
  {
    if j == |E| then E else RowFrom(Cell(E, k, i, j), k, i, j + 1)
  }

  /** Row i under pivot k: skipped when dist[i][k] is INF, checked once before the j loop. */
  function RowStep(E: seq<seq<int>>, k: int, i: int): (r: seq<seq<int>>)
    requires Square(E) && 0 <= k < |E| && 0 <= i < |E|
    ensures |r| == |E| && Square(r)
    ensures forall x :: 0 <= x < |E| && x != i ==> r[x] == E[x]
    ensures E[i][k] == INF ==> r == E
  {
    if E[i][k] == INF then E else RowFrom(E, k, i, 0)
  }

  /** Every entry of order is a row of an n x n matrix. */
  predicate Rows(order: seq<int>, n: int)
  {
    forall r :: 0 <= r < |order| ==> 0 <= order[r] < n
  }

  /** The rows of pivot k in the given order, from position r of the order on. */
  function PivotFrom(E: seq<seq<int>>, k: int, order: seq<int>, r: nat): (P: seq<seq<int>>)
    requires Square(E) && 0 <= k < |E| && Rows(order, |E|) && r <= |order|
    ensures |P| == |E| && Square(P)
    decreases |order| - r
  {
    if r == |order| then E else PivotFrom(RowStep(E, k, order[r]), k, order, r + 1)
  }

  /** Every pivot's order lists rows of the matrix. */
  predicate Schedule(orders: seq<seq<int>>, n: int)
  {
    |orders| >= n && forall k :: 0 <= k < |orders| ==> Rows(orders[k], n)
  }

  /** Pivots k, k + 1, ..., n - 1, pivot k taking its rows in the order orders[k]. */
  function PivotsFrom(E: seq<seq<int>>, orders: seq<seq<int>>, k: nat): (R: seq<seq<int>>)
    requires Square(E) && Schedule(orders, |E|) && k <= |E|
    ensures |R| == |E| && Square(R)
    decreases |E| - k
  {
    if k == |E| then E else PivotsFrom(PivotFrom(E, k, orders[k], 0), orders, k + 1)
  }

  /** The rows 0, 1, ..., n - 1. */
  function Range(n: nat): (order: seq<int>)
    ensures |order| == n && Rows(order, n) && forall r :: 0 <= r < n ==> order[r] == r
  {
    seq(n, r => r)
  }

  /** The schedule of the sequential engine: every pivot takes its rows top to bottom. */
  function TopDown(n: nat): (orders: seq<seq<int>>)
    ensures |orders| == n && Schedule(orders, n) && forall k :: 0 <= k < n ==> orders[k] == Range(n)
  {
    seq(n, k => Range(n))
  }

  /** What `floyd_warshall_seq` returns. */
  function FloydWarshall(D: seq<seq<int>>): (R: seq<seq<int>>)
    requires Square(D)
    ensures |R| == |D| && Square(R)
  {
    PivotsFrom(D, TopDown(|D|), 0)
  }

  /** What `floyd_warshall_par` returns when pivot k takes its rows in the order orders[k]. */
  function FloydWarshallParallel(D: seq<seq<int>>, orders: seq<seq<int>>): (R: seq<seq<int>>)
    requires Square(D) && Schedule(orders, |D|)
    ensures |R| == |D| && Square(R)
  {
    PivotsFrom(D, orders, 0)
  }

  // ---------------------------------------------------------------------------
  // The engines on a local matrix

  /** The body of the j loop. */
  method RelaxCell(a: array2<int>, ghost E: seq<seq<int>>, k: int, i: int, j: int) returns (ghost E': seq<seq<int>>)
    requires Holds(a, E) && 0 <= k < |E| && 0 <= i < |E| && 0 <= j < |E|
    modifies a
    ensures Holds(a, E') && E' == Cell(E, k, i, j)
  {
    if a[k, j] != INF {
      var cand := a[i, k] + a[k, j];
      if cand < a[i, j] {
        a[i, j] := cand;
      }
    }
    E' := Cell(E, k, i, j);
  }

  /** The j loop of row i under pivot k. */
  method RelaxRow(a: array2<int>, ghost E: seq<seq<int>>, k: int, i: int) returns (ghost E': seq<seq<int>>)
    requires Holds(a, E) && 0 <= k < |E| && 0 <= i < |E|
    modifies a
    ensures Holds(a, E') && E' == RowFrom(E, k, i, 0)
  {
    ghost var cur := E;
    var j := 0;
    while j < a.Length1
      invariant 0 <= j <= |E| && |cur| == |E| && Holds(a, cur)
      invariant RowFrom(cur, k, i, j) == RowFrom(E, k, i, 0)
    {
      cur := RelaxCell(a, cur, k, i, j);
      j := j + 1;
    }
    E' := cur;
  }

  /** The body of the i loop: row i is skipped when dist[i][k] is INF. */
  method RelaxRowUnlessInf(a: array2<int>, ghost E: seq<seq<int>>, k: int, i: int) returns (ghost E': seq<seq<int>>)
    requires Holds(a, E) && 0 <= k < |E| && 0 <= i < |E|
    modifies a
    ensures Holds(a, E') && E' == RowStep(E, k, i)
  {
    if a[i, k] != INF {
      E' := RelaxRow(a, E, k, i);
    } else {
      E' := E;
    }
  }

  /** The i loop of pivot k, rows taken in the given order. */
  method RelaxPivot(a: array2<int>, ghost E: seq<seq<int>>, k: int, order: seq<int>) returns (ghost E': seq<seq<int>>)
    requires Holds(a, E) && 0 <= k < |E| && Rows(order, |E|)
    modifies a
    ensures Holds(a, E') && E' == PivotFrom(E, k, order, 0)
  {
    ghost var cur := E;
    var r := 0;
    while r < |order|
      invariant 0 <= r <= |order| && |cur| == |E| && Holds(a, cur)
      invariant PivotFrom(cur, k, order, r) == PivotFrom(E, k, order, 0)
    {
      cur := RelaxRowUnlessInf(a, cur, k, order[r]);
      r := r + 1;
    }
    E' := cur;
  }

  /** The k loop. */
  method RelaxAll(a: array2<int>, ghost E: seq<seq<int>>, orders: seq<seq<int>>) returns (ghost E': seq<seq<int>>)
    requires Holds(a, E) && Schedule(orders, |E|)
    modifies a
    ensures Holds(a, E') && E' == PivotsFrom(E, orders, 0)
  {
    ghost var cur := E;
    var k := 0;
    while k < a.Length0
      invariant 0 <= k <= |E| && |cur| == |E| && Holds(a, cur)
      invariant PivotsFrom(cur, orders, k) == PivotsFrom(E, orders, 0)
    {
      cur := RelaxPivot(a, cur, k, orders[k]);
      k := k + 1;
    }
    E' := cur;
  }

  /** The engines' copy of their argument, which they take by value. */
  method CopyIn(D: seq<seq<int>>) returns (a: array2<int>)
    requires Square(D)
    ensures fresh(a) && Holds(a, D)
  {
    var n := |D|;
    a := new int[n, n]((i, j) requires 0 <= i < n && 0 <= j < n => D[i][j]);
  }

  /** `floyd_warshall_seq`. */
  method FloydWarshallSeq(D: seq<seq<int>>) returns (R: seq<seq<int>>)
    requires Square(D)
    ensures R == FloydWarshall(D)
  {
    var a := CopyIn(D);
    ghost var E := RelaxAll(a, D, TopDown(|D|));
    R := Contents(a);
    HoldsUnique(a, R, E);
  }

  /** `floyd_warshall_par` serialised: pivot k takes its rows in the order orders[k]. */
  method FloydWarshallPar(D: seq<seq<int>>, orders: seq<seq<int>>) returns (R: seq<seq<int>>)
    requires Square(D) && Schedule(orders, |D|)
    ensures R == FloydWarshallParallel(D, orders)
  {
    var a := CopyIn(D);
    ghost var E := RelaxAll(a, D, orders);
    R := Contents(a);
    HoldsUnique(a, R, E);
  }

  // ---------------------------------------------------------------------------
  // Entries only go down

  /** F is pointwise at most E, both n x n. */
  predicate Le(F: seq<seq<int>>, E: seq<seq<int>>)
  {
    Square(F) && Square(E) && |F| == |E|
    && forall i, j :: 0 <= i < |E| && 0 <= j < |E| ==> F[i][j] <= E[i][j]
  }

  /** No entry is above the sentinel. */
  predicate AtMostInf(E: seq<seq<int>>)
  {
    Square(E) && forall i, j :: 0 <= i < |E| && 0 <= j < |E| ==> E[i][j] <= INF
  }

  lemma LeTrans(A: seq<seq<int>>, B: seq<seq<int>>, C: seq<seq<int>>)
    requires Le(A, B) && Le(B, C)
    ensures Le(A, C)
  {
  }

  /** A matrix below one with no entry above INF has none either. */
  lemma LeAtMostInf(F: seq<seq<int>>, E: seq<seq<int>>)
    requires Le(F, E) && AtMostInf(E)
    ensures AtMostInf(F)
  {
  }

  /** A cell update only ever lowers the cell. */
  lemma CellLowers(E: seq<seq<int>>, k: int, i: int, j: int)
    requires Square(E) && 0 <= k < |E| && 0 <= i < |E| && 0 <= j < |E|
    ensures Le(Cell(E, k, i, j), E)
  {
  }

  lemma {:induction false} RowFromLowers(E: seq<seq<int>>, k: int, i: int, j: nat)
    requires Square(E) && 0 <= k < |E| && 0 <= i < |E| && j <= |E|
    ensures Le(RowFrom(E, k, i, j), E)
    decreases |E| - j
  {
    if j < |E| {
      var C := Cell(E, k, i, j);
      CellLowers(E, k, i, j);
      RowFromLowers(C, k, i, j + 1);
      LeTrans(RowFrom(C, k, i, j + 1), C, E);
    }
  }

  lemma RowStepLowers(E: seq<seq<int>>, k: int, i: int)
    requires Square(E) && 0 <= k < |E| && 0 <= i < |E|
    ensures Le(RowStep(E, k, i), E)
  {
    if E[i][k] != INF {
      RowFromLowers(E, k, i, 0);
    }
  }

  lemma {:induction false} PivotFromLowers(E: seq<seq<int>>, k: int, order: seq<int>, r: nat)
    requires Square(E) && 0 <= k < |E| && Rows(order, |E|) && r <= |order|
    ensures Le(PivotFrom(E, k, order, r), E)
    decreases |order| - r
  {
    if r < |order| {
      var S := RowStep(E, k, order[r]);
      RowStepLowers(E, k, order[r]);
      PivotFromLowers(S, k, order, r + 1);
      LeTrans(PivotFrom(S, k, order, r + 1), S, E);
    }
  }

  /** A pivot touches only the rows its order lists: the others come out as they went in. */
  lemma {:induction false} PivotFromKeepsUnlisted(E: seq<seq<int>>, k: int, order: seq<int>, r: nat, x: int)
    requires Square(E) && 0 <= k < |E| && Rows(order, |E|) && r <= |order| && 0 <= x < |E|
    requires x !in order[r..]
    ensures PivotFrom(E, k, order, r)[x] == E[x]
    decreases |order| - r
  {
    if r < |order| {
      assert order[r] == order[r..][0] && order[r + 1..] == order[r..][1..];
      var S := RowStep(E, k, order[r]);
      PivotFromKeepsUnlisted(S, k, order, r + 1, x);
    }
  }

  lemma {:induction false} PivotsFromLowers(E: seq<seq<int>>, orders: seq<seq<int>>, k: nat)
    requires Square(E) && Schedule(orders, |E|) && k <= |E|
    ensures Le(PivotsFrom(E, orders, k), E)
    decreases |E| - k
  {
    if k < |E| {
      var P := PivotFrom(E, k, orders[k], 0);
      PivotFromLowers(E, k, orders[k], 0);
      PivotsFromLowers(P, orders, k + 1);
      LeTrans(PivotsFrom(P, orders, k + 1), P, E);
    }
  }

  /** Both engines return a matrix pointwise at most their argument, and no entry rises
      above INF that was not above it before. */
  lemma SweepLowers(D: seq<seq<int>>, orders: seq<seq<int>>)
    requires Square(D) && Schedule(orders, |D|)
    ensures Le(FloydWarshall(D), D) && Le(FloydWarshallParallel(D, orders), D)
    ensures AtMostInf(D) ==> AtMostInf(FloydWarshall(D)) && AtMostInf(FloydWarshallParallel(D, orders))
  {
    PivotsFromLowers(D, TopDown(|D|), 0);
    PivotsFromLowers(D, orders, 0);
  }

  /** After either engine, the diagonal of a loaded matrix is still at most 0. */
  lemma LoadedDiagonal(triples: seq<Edge>, n: nat, orders: seq<seq<int>>)
    requires Schedule(orders, n)
    ensures forall u :: 0 <= u < n ==> FloydWarshall(Matrix(triples, n))[u][u] <= 0
    ensures forall u :: 0 <= u < n ==> FloydWarshallParallel(Matrix(triples, n), orders)[u][u] <= 0
  {
    var M := Matrix(triples, n);
    SweepLowers(M, orders);
    forall u | 0 <= u < n ensures FloydWarshall(M)[u][u] <= 0 && FloydWarshallParallel(M, orders)[u][u] <= 0 {
      assert M[u][u] <= 0;
    }
  }

  // ---------------------------------------------------------------------------
  // Every finite entry is the weight of a walk

  /** Every vertex of p is a vertex of the n x n matrix D. */
  predicate Vertices(D: seq<seq<int>>, p: seq<int>)
  {
    Square(D) && forall t :: 0 <= t < |p| ==> 0 <= p[t] < |D|
  }

  /** p is a walk from i to j along finite entries of D: the sweep never adds INF. */
  predicate Walk(D: seq<seq<int>>, p: seq<int>, i: int, j: int)
  {
    Vertices(D, p) && |p| >= 2 && p[0] == i && p[|p| - 1] == j
    && forall t :: 0 <= t < |p| - 1 ==> D[p[t]][p[t + 1]] != INF
  }

  /** The total of the entries of D along p. */
  function Weight(D: seq<seq<int>>, p: seq<int>): int
    requires Vertices(D, p)
    decreases |p|
  {
    if |p| < 2 then 0 else D[p[0]][p[1]] + Weight(D, p[1..])
  }

  /** Some walk from i to j has total w. */
  ghost predicate Reached(D: seq<seq<int>>, i: int, j: int, w: int)
  {
    exists p :: Walk(D, p, i, j) && Weight(D, p) == w
  }

  /** Every finite entry of E is the weight of a walk of D between its row and column. */
  ghost predicate Sound(D: seq<seq<int>>, E: seq<seq<int>>)
  {
    Square(D) && Square(E) && |E| == |D|
    && forall i, j :: 0 <= i < |E| && 0 <= j < |E| && E[i][j] != INF ==> Reached(D, i, j, E[i][j])
  }

  /** No closed walk of D has a negative total. */
  ghost predicate NoNegativeCycle(D: seq<seq<int>>)
  {
    forall i, p :: Walk(D, p, i, i) ==> Weight(D, p) >= 0
  }

  /** A walk to k followed by a walk from k is a walk, whose weight is the sum. */
  lemma {:induction false} WalkJoin(D: seq<seq<int>>, p: seq<int>, q: seq<int>, i: int, k: int, j: int)
    requires Walk(D, p, i, k) && Walk(D, q, k, j)
    ensures Walk(D, p + q[1..], i, j) && Weight(D, p + q[1..]) == Weight(D, p) + Weight(D, q)
    decreases |p|
  {
    var pq := p + q[1..];
    if |p| == 2 {
      assert pq == [i] + q;
      assert pq[1..] == q;
    } else {
      var p' := p[1..];
      assert Walk(D, p', p[1], k);
      WalkJoin(D, p', q, p[1], k, j);
      assert pq[1..] == p' + q[1..];
    }
  }

  lemma ReachedJoin(D: seq<seq<int>>, i: int, k: int, j: int, w1: int, w2: int)
    requires Reached(D, i, k, w1) && Reached(D, k, j, w2)
    ensures Reached(D, i, j, w1 + w2)
  {
    var p :| Walk(D, p, i, k) && Weight(D, p) == w1;
    var q :| Walk(D, q, k, j) && Weight(D, q) == w2;
    WalkJoin(D, p, q, i, k, j);
  }

  /** Each finite entry of D is the weight of the one-step walk [i, j]. */
  lemma SoundStart(D: seq<seq<int>>)
    requires Square(D)
    ensures Sound(D, D)
  {
    forall i, j | 0 <= i < |D| && 0 <= j < |D| && D[i][j] != INF ensures Reached(D, i, j, D[i][j]) {
      var p := [i, j];
      assert Walk(D, p, i, j);
      assert Weight(D, p) == D[i][j] + Weight(D, [j]);
    }
  }

  /** A cell update joins a walk to the pivot with a walk from it, never an INF operand. */
  lemma CellSound(D: seq<seq<int>>, E: seq<seq<int>>, k: int, i: int, j: int)
    requires Sound(D, E) && 0 <= k < |E| && 0 <= i < |E| && 0 <= j < |E| && E[i][k] != INF
    ensures Sound(D, Cell(E, k, i, j))
  {
    var C := Cell(E, k, i, j);
    if C != E {
      ReachedJoin(D, i, k, j, E[i][k], E[k][j]);
      forall a, b | 0 <= a < |C| && 0 <= b < |C| && C[a][b] != INF ensures Reached(D, a, b, C[a][b]) {
        if a != i || b != j {
          assert C[a][b] == E[a][b];
        }
      }
    }
  }

  lemma {:induction false} RowFromSound(D: seq<seq<int>>, E: seq<seq<int>>, k: int, i: int, j: nat, R: seq<seq<int>>)
    requires Sound(D, E) && 0 <= k < |E| && 0 <= i < |E| && j <= |E| && E[i][k] < INF
    requires R == RowFrom(E, k, i, j)
    ensures Sound(D, R)
    decreases |E| - j
  {
    if j < |E| {
      var C := Cell(E, k, i, j);
      CellSound(D, E, k, i, j);
      assert C[i][k] <= E[i][k];
      RowFromSound(D, C, k, i, j + 1, R);
    }
  }

  lemma {:induction false} PivotFromSound(D: seq<seq<int>>, E: seq<seq<int>>, k: int, order: seq<int>, r: nat, R: seq<seq<int>>)
    requires Sound(D, E) && AtMostInf(E) && 0 <= k < |E| && Rows(order, |E|) && r <= |order|
    requires R == PivotFrom(E, k, order, r)
    ensures Sound(D, R)
    decreases |order| - r
  {
    if r < |order| {
      var i := order[r];
      var S := RowStep(E, k, i);
      if E[i][k] != INF {
        RowFromSound(D, E, k, i, 0, S);
      }
      RowStepLowers(E, k, i);
      LeAtMostInf(S, E);
      PivotFromSound(D, S, k, order, r + 1, R);
    }
  }

  lemma {:induction false} PivotsFromSound(D: seq<seq<int>>, E: seq<seq<int>>, orders: seq<seq<int>>, k: nat, R: seq<seq<int>>)
    requires Sound(D, E) && AtMostInf(E) && Schedule(orders, |E|) && k <= |E|
    requires R == PivotsFrom(E, orders, k)
    ensures Sound(D, R)
    decreases |E| - k
  {
    if k < |E| {
      var P := PivotFrom(E, k, orders[k], 0);
      PivotFromSound(D, E, k, orders[k], 0, P);
      PivotFromLowers(E, k, orders[k], 0);
      LeAtMostInf(P, E);
      PivotsFromSound(D, P, orders, k + 1, R);
    }
  }

  /** Every finite entry either engine returns is the weight of a walk along finite entries
      of its argument. */
  lemma SweepSound(D: seq<seq<int>>, orders: seq<seq<int>>)
    requires AtMostInf(D) && Schedule(orders, |D|)
    ensures Sound(D, FloydWarshall(D)) && Sound(D, FloydWarshallParallel(D, orders))
  {
    SoundStart(D);
    PivotsFromSound(D, D, TopDown(|D|), 0, FloydWarshall(D));
    PivotsFromSound(D, D, orders, 0, FloydWarshallParallel(D, orders));
  }

  /** A negative diagonal entry after either engine comes from a negative closed walk. */
  lemma NegativeDiagonalIsCycle(D: seq<seq<int>>, orders: seq<seq<int>>, i: int)
    requires AtMostInf(D) && Schedule(orders, |D|) && 0 <= i < |D|
    requires FloydWarshall(D)[i][i] < 0 || FloydWarshallParallel(D, orders)[i][i] < 0
    ensures exists p :: Walk(D, p, i, i) && Weight(D, p) < 0
  {
    SweepSound(D, orders);
  }

  // ---------------------------------------------------------------------------
  // With a non-negative pivot entry the order of the rows does not matter

  /** The value cell (i, x) takes under pivot k, read against the matrix before the pivot. */
  function RelaxedAt(E: seq<seq<int>>, k: int, i: int, x: int): int
    requires Square(E) && 0 <= k < |E| && 0 <= i < |E| && 0 <= x < |E|
  {
    if E[k][x] == INF then E[i][x]
    else if E[i][k] + E[k][x] < E[i][x] then E[i][k] + E[k][x] else E[i][x]
  }

  /** Row i once the j loop has run from column j to the end: the columns before j as in E,
      the others relaxed. */
  function Partial(E: seq<seq<int>>, k: int, i: int, j: int): (row: seq<int>)
    requires Square(E) && 0 <= k < |E| && 0 <= i < |E|
    ensures |row| == |E|
  {
    seq(|E|, x requires 0 <= x < |E| => if x < j then E[i][x] else RelaxedAt(E, k, i, x))
  }

  /** Row i after pivot k, computed from the matrix before the pivot. */
  function RowAfter(E: seq<seq<int>>, k: int, i: int): (row: seq<int>)
    requires Square(E) && 0 <= k < |E| && 0 <= i < |E|
    ensures |row| == |E|
  {
    if E[i][k] == INF then E[i] else Partial(E, k, i, 0)
  }

  /** The matrix after pivot k when every row is relaxed against the matrix before it. */
  function Closed(E: seq<seq<int>>, k: int): (C: seq<seq<int>>)
    requires Square(E) && 0 <= k < |E|
    ensures |C| == |E| && Square(C)
  {
    seq(|E|, i requires 0 <= i < |E| => RowAfter(E, k, i))
  }

  /** The matrix once the rows listed have been relaxed against E, the others untouched. */
  function Swept(E: seq<seq<int>>, k: int, rows: seq<int>): (S: seq<seq<int>>)
    requires Square(E) && 0 <= k < |E|
    ensures |S| == |E| && Square(S)
  {
    seq(|E|, i requires 0 <= i < |E| => if i in rows then RowAfter(E, k, i) else E[i])
  }

  /** A row order of an n x n matrix: one entry per row, every row listed. */
  predicate IsRowOrder(order: seq<int>, n: int)
  {
    |order| == n && Rows(order, n) && forall i :: 0 <= i < n ==> i in order
  }

  /** A schedule whose every pivot takes each row once. */
  predicate RowOrders(orders: seq<seq<int>>, n: int)
  {
    |orders| == n && forall k :: 0 <= k < n ==> IsRowOrder(orders[k], n)
  }

  /** One cell update with E[k][k] >= 0 writes RelaxedAt and leaves row k and cell (i, k) alone. */
  lemma CellIs(E: seq<seq<int>>, k: int, i: int, j: int)
    requires Square(E) && 0 <= k < |E| && 0 <= i < |E| && 0 <= j < |E| && E[k][k] >= 0
    ensures Cell(E, k, i, j) == E[i := E[i][j := RelaxedAt(E, k, i, j)]]
    ensures Cell(E, k, i, j)[k] == E[k] && Cell(E, k, i, j)[i][k] == E[i][k]
  {
    if Cell(E, k, i, j) == E {
      assert E[i][j := E[i][j]] == E[i];
    }
  }

  lemma {:induction false} RowFromIs(E: seq<seq<int>>, k: int, i: int, j: nat)
    requires Square(E) && 0 <= k < |E| && 0 <= i < |E| && j <= |E| && E[k][k] >= 0
    ensures RowFrom(E, k, i, j) == E[i := Partial(E, k, i, j)]
    decreases |E| - j
  {
    if j == |E| {
      assert Partial(E, k, i, j) == E[i];
    } else {
      var C := Cell(E, k, i, j);
      CellIs(E, k, i, j);
      RowFromIs(C, k, i, j + 1);
      assert Partial(C, k, i, j + 1) == Partial(E, k, i, j) by {
        forall x | 0 <= x < |E| ensures Partial(C, k, i, j + 1)[x] == Partial(E, k, i, j)[x] {
          if x > j {
            assert C[i][x] == E[i][x];
            assert RelaxedAt(C, k, i, x) == RelaxedAt(E, k, i, x);
          }
        }
      }
    }
  }

  /** With E[k][k] >= 0, RowAfter keeps column k of its row, and keeps row k whole. */
  lemma RowAfterKeeps(E: seq<seq<int>>, k: int, i: int)
    requires Square(E) && 0 <= k < |E| && 0 <= i < |E| && E[k][k] >= 0
    ensures RowAfter(E, k, i)[k] == E[i][k]
    ensures RowAfter(E, k, k) == E[k]
  {
    assert RowAfter(E, k, k) == E[k] by {
      if E[k][k] != INF {
        forall x | 0 <= x < |E| ensures RowAfter(E, k, k)[x] == E[k][x] {
        }
      }
    }
  }

  lemma RowStepIs(E: seq<seq<int>>, k: int, i: int)
    requires Square(E) && 0 <= k < |E| && 0 <= i < |E| && E[k][k] >= 0
    ensures RowStep(E, k, i) == E[i := RowAfter(E, k, i)]
  {
    if E[i][k] != INF {
      RowFromIs(E, k, i, 0);
    }
  }

  /** Relaxing row i again, once it or nothing has been relaxed and row k is untouched,
      gives the same row: RowAfter needs only rows i and k. */
  lemma RowAfterAgain(S: seq<seq<int>>, E: seq<seq<int>>, k: int, i: int)
    requires Square(S) && Square(E) && |S| == |E| && 0 <= k < |E| && 0 <= i < |E| && E[k][k] >= 0
    requires S[k] == E[k] && (S[i] == E[i] || S[i] == RowAfter(E, k, i))
    ensures RowAfter(S, k, i) == RowAfter(E, k, i)
  {
    RowAfterKeeps(E, k, i);
    assert S[i][k] == E[i][k];
    if E[i][k] != INF {
      forall x | 0 <= x < |E| ensures RowAfter(S, k, i)[x] == RowAfter(E, k, i)[x] {
        assert RowAfter(S, k, i)[x] == RelaxedAt(S, k, i, x);
      }
    }
  }

  /** Relaxing the next row of the order extends the rows already relaxed by that row. */
  lemma SweptStep(E: seq<seq<int>>, S: seq<seq<int>>, k: int, order: seq<int>, r: nat)
    requires Square(E) && 0 <= k < |E| && E[k][k] >= 0 && Rows(order, |E|) && r < |order|
    requires S == Swept(E, k, order[..r])
    ensures RowStep(S, k, order[r]) == Swept(E, k, order[..r + 1])
  {
    var i := order[r];
    RowAfterKeeps(E, k, i);
    assert S[k] == E[k];
    RowStepIs(S, k, i);
    RowAfterAgain(S, E, k, i);
    TakeNext(order, r);
    var T := Swept(E, k, order[..r + 1]);
    forall x | 0 <= x < |E| ensures S[i := RowAfter(E, k, i)][x] == T[x] {
      assert x in order[..r + 1] <==> x in order[..r] || x == i;
    }
  }

  lemma {:induction false} PivotFromIs(E: seq<seq<int>>, S: seq<seq<int>>, k: int, order: seq<int>, r: nat)
    requires Square(E) && 0 <= k < |E| && E[k][k] >= 0 && Rows(order, |E|) && r <= |order|
    requires S == Swept(E, k, order[..r])
    ensures PivotFrom(S, k, order, r) == Swept(E, k, order)
    decreases |order| - r
  {
    if r == |order| {
      assert order[..r] == order;
    } else {
      SweptStep(E, S, k, order, r);
      PivotFromIs(E, RowStep(S, k, order[r]), k, order, r + 1);
    }
  }

  /** With E[k][k] >= 0 (INF included) pivot k fixes row k and column k, so every row order
      gives the same matrix: each row relaxed against the matrix before the pivot. */
  lemma AnyRowOrder(E: seq<seq<int>>, k: int, order: seq<int>)
    requires Square(E) && 0 <= k < |E| && E[k][k] >= 0 && IsRowOrder(order, |E|)
    ensures PivotFrom(E, k, order, 0) == Closed(E, k)
  {
    assert Swept(E, k, order[..0]) == E;
    PivotFromIs(E, E, k, order, 0);
    assert Swept(E, k, order) == Closed(E, k);
  }

  /** RowOrders covers the sequential schedule. */
  lemma TopDownRowOrders(n: nat)
    ensures RowOrders(TopDown(n), n)
  {
    forall k | 0 <= k < n ensures IsRowOrder(TopDown(n)[k], n) {
      forall i | 0 <= i < n ensures i in Range(n) {
        assert Range(n)[i] == i;
      }
    }
  }

  /** With no negative closed walk, a sound matrix has no negative diagonal entry. */
  lemma PivotNonNegative(D: seq<seq<int>>, E: seq<seq<int>>, k: int)
    requires Sound(D, E) && NoNegativeCycle(D) && 0 <= k < |E|
    ensures E[k][k] >= 0
  {
    if E[k][k] != INF {
      var p :| Walk(D, p, k, k) && Weight(D, p) == E[k][k];
    }
  }

  lemma {:induction false} PivotsAgree(D: seq<seq<int>>, E: seq<seq<int>>, orders: seq<seq<int>>, k: nat, A: seq<seq<int>>, B: seq<seq<int>>)
    requires Sound(D, E) && AtMostInf(E) && NoNegativeCycle(D) && RowOrders(orders, |E|) && k <= |E|
    requires A == PivotsFrom(E, orders, k) && B == PivotsFrom(E, TopDown(|E|), k)
    ensures A == B
    decreases |E| - k
  {
    if k < |E| {
      var top := TopDown(|E|);
      PivotNonNegative(D, E, k);
      TopDownRowOrders(|E|);
      AnyRowOrder(E, k, orders[k]);
      AnyRowOrder(E, k, top[k]);
      var P := PivotFrom(E, k, orders[k], 0);
      PivotFromSound(D, E, k, orders[k], 0, P);
      PivotFromLowers(E, k, orders[k], 0);
      LeAtMostInf(P, E);
      PivotsAgree(D, P, orders, k + 1, A, B);
    }
  }

  /** On a matrix with no negative closed walk the parallel engine returns what the sequential
      one returns, whatever order the threads take the rows of each pivot in. */
  lemma ParallelAgrees(D: seq<seq<int>>, orders: seq<seq<int>>)
    requires AtMostInf(D) && NoNegativeCycle(D) && RowOrders(orders, |D|)
    ensures FloydWarshallParallel(D, orders) == FloydWarshall(D)
  {
    SoundStart(D);
    PivotsAgree(D, D, orders, 0, FloydWarshallParallel(D, orders), FloydWarshall(D));
  }

  // ---------------------------------------------------------------------------
  // The negative-cycle check and the summary

  /** `has_negative_cycle`: true exactly when some diagonal entry is negative. */
  method HasNegativeCycle(R: seq<seq<int>>) returns (found: bool)
    requires Square(R)
    ensures found <==> exists i :: 0 <= i < |R| && R[i][i] < 0
  {
    var i := 0;
    while i < |R|
      invariant 0 <= i <= |R|
      invariant forall t :: 0 <= t < i ==> R[t][t] >= 0
    {
      if R[i][i] < 0 {
        return true;
      }
      i := i + 1;
    }
    return false;
  }

  /** No warning is printed for a matrix without a negative closed walk. */
  lemma NoCycleNoWarning(D: seq<seq<int>>, orders: seq<seq<int>>)
    requires AtMostInf(D) && Schedule(orders, |D|) && NoNegativeCycle(D)
    ensures forall i :: 0 <= i < |D| ==> FloydWarshall(D)[i][i] >= 0
    ensures forall i :: 0 <= i < |D| ==> FloydWarshallParallel(D, orders)[i][i] >= 0
  {
    forall i | 0 <= i < |D|
      ensures FloydWarshall(D)[i][i] >= 0 && FloydWarshallParallel(D, orders)[i][i] >= 0
    {
      if FloydWarshall(D)[i][i] < 0 || FloydWarshallParallel(D, orders)[i][i] < 0 {
        NegativeDiagonalIsCycle(D, orders, i);
        assert false;
      }
    }
  }

  /** The loader on the two-vertex graph 0 -> 1 and 1 -> 0, both of weight -1. */
  lemma NegativePairLoads()
    ensures Matrix([Edge(0, 1, -1), Edge(1, 0, -1)], 2) == [[0, -1], [-1, 0]]
  {
    var pair := [Edge(0, 1, -1), Edge(1, 0, -1)];
    assert pair[..1] == [Edge(0, 1, -1)] && pair[..1][..0] == [];
    var M := Matrix(pair, 2);
    assert Entry(pair, 2, 0, 0) == 0 && Entry(pair, 2, 0, 1) == -1;
    assert Entry(pair, 2, 1, 0) == -1 && Entry(pair, 2, 1, 1) == 0;
    assert M[0] == [0, -1] && M[1] == [-1, 0];
  }

  /** Pivot 0 on that matrix: row 0 is unchanged, row 1 gets 1 -> 0 -> 1 on the diagonal. */
  lemma NegativePairPivot0()
    ensures PivotFrom([[0, -1], [-1, 0]], 0, [0, 1], 0) == [[0, -1], [-1, -2]]
  {
    var E0: seq<seq<int>> := [[0, -1], [-1, 0]];
    var E1: seq<seq<int>> := [[0, -1], [-1, -2]];
    assert RowFrom(E0, 0, 0, 0) == E0 by {
      assert RowFrom(E0, 0, 0, 2) == E0;
      assert RowFrom(E0, 0, 0, 1) == E0;
    }
    assert RowFrom(E0, 0, 1, 0) == E1 by {
      assert RowFrom(E1, 0, 1, 2) == E1;
      assert E0[1][1 := -2] == E1[1];
      assert Cell(E0, 0, 1, 1) == E1;
      assert RowFrom(E0, 0, 1, 1) == E1;
    }
    assert PivotFrom(E1, 0, [0, 1], 2) == E1;
    assert PivotFrom(E0, 0, [0, 1], 1) == E1;
  }

  /** Pivot 1: with the diagonal entry -2 every entry goes down along the cycle. */
  lemma NegativePairPivot1()
    ensures PivotFrom([[0, -1], [-1, -2]], 1, [0, 1], 0) == [[-2, -3], [-3, -4]]
  {
    var E1: seq<seq<int>> := [[0, -1], [-1, -2]];
    var F1: seq<seq<int>> := [[-2, -1], [-1, -2]];
    var F2: seq<seq<int>> := [[-2, -3], [-1, -2]];
    var F3: seq<seq<int>> := [[-2, -3], [-3, -2]];
    var E2: seq<seq<int>> := [[-2, -3], [-3, -4]];
    assert RowFrom(E1, 1, 0, 0) == F2 by {
      assert E1[0][0 := -2] == F1[0];
      assert Cell(E1, 1, 0, 0) == F1;
      assert F1[0][1 := -3] == F2[0];
      assert Cell(F1, 1, 0, 1) == F2;
      assert RowFrom(F2, 1, 0, 2) == F2;
      assert RowFrom(F1, 1, 0, 1) == F2;
    }
    assert RowFrom(F2, 1, 1, 0) == E2 by {
      assert F2[1][0 := -3] == F3[1];
      assert Cell(F2, 1, 1, 0) == F3;
      assert F3[1][1 := -4] == E2[1];
      assert Cell(F3, 1, 1, 1) == E2;
      assert RowFrom(E2, 1, 1, 2) == E2;
      assert RowFrom(F3, 1, 1, 1) == E2;
    }
    assert PivotFrom(E2, 1, [0, 1], 2) == E2;
    assert PivotFrom(F2, 1, [0, 1], 1) == E2;
  }

  /** On that graph the sequential engine returns [[-2, -3], [-3, -4]], whose diagonal is
      negative, so the check reports a negative cycle. */
  lemma NegativePair()
    ensures Matrix([Edge(0, 1, -1), Edge(1, 0, -1)], 2) == [[0, -1], [-1, 0]]
    ensures FloydWarshall([[0, -1], [-1, 0]]) == [[-2, -3], [-3, -4]]
  {
    NegativePairLoads();
    NegativePairPivot0();
    NegativePairPivot1();
    var E1: seq<seq<int>> := [[0, -1], [-1, -2]];
    var E2: seq<seq<int>> := [[-2, -3], [-3, -4]];
    var top := TopDown(2);
    assert top[0] == [0, 1] && top[1] == [0, 1];
    assert PivotsFrom(E2, top, 2) == E2;
    assert PivotsFrom(E1, top, 1) == E2;
  }

  /** Pivot 1 again, taking row 1 before row 0: row 0 is then relaxed against the lowered row 1. */
  lemma NegativePairPivot1Reversed()
    ensures PivotFrom([[0, -1], [-1, -2]], 1, [1, 0], 0) == [[-4, -5], [-3, -4]]
  {
    var E1: seq<seq<int>> := [[0, -1], [-1, -2]];
    var G1: seq<seq<int>> := [[0, -1], [-3, -2]];
    var G2: seq<seq<int>> := [[0, -1], [-3, -4]];
    var G3: seq<seq<int>> := [[-4, -1], [-3, -4]];
    var G4: seq<seq<int>> := [[-4, -5], [-3, -4]];
    assert RowFrom(E1, 1, 1, 0) == G2 by {
      assert E1[1][0 := -3] == G1[1];
      assert Cell(E1, 1, 1, 0) == G1;
      assert G1[1][1 := -4] == G2[1];
      assert Cell(G1, 1, 1, 1) == G2;
      assert RowFrom(G2, 1, 1, 2) == G2;
      assert RowFrom(G1, 1, 1, 1) == G2;
    }
    assert RowFrom(G2, 1, 0, 0) == G4 by {
      assert G2[0][0 := -4] == G3[0];
      assert Cell(G2, 1, 0, 0) == G3;
      assert G3[0][1 := -5] == G4[0];
      assert Cell(G3, 1, 0, 1) == G4;
      assert RowFrom(G4, 1, 0, 2) == G4;
      assert RowFrom(G3, 1, 0, 1) == G4;
    }
    assert PivotFrom(G4, 1, [1, 0], 2) == G4;
    assert PivotFrom(G2, 1, [1, 0], 1) == G4;
  }

  /** With a negative diagonal entry the row order matters: on the same graph, a schedule that
      takes each row once per pivot but row 1 first under pivot 1 ends in another matrix than
      the sequential engine, so the parallel sweep's agreement needs the absence of negative
      closed walks. */
  lemma RowOrderMatters()
    ensures RowOrders([[0, 1], [1, 0]], 2)
    ensures FloydWarshallParallel([[0, -1], [-1, 0]], [[0, 1], [1, 0]]) == [[-4, -5], [-3, -4]]
    ensures FloydWarshallParallel([[0, -1], [-1, 0]], [[0, 1], [1, 0]]) != FloydWarshall([[0, -1], [-1, 0]])
  {
    NegativePair();
    NegativePairPivot0();
    NegativePairPivot1Reversed();
    var orders: seq<seq<int>> := [[0, 1], [1, 0]];
    assert IsRowOrder(orders[0], 2) by { assert orders[0][0] == 0 && orders[0][1] == 1; }
    assert IsRowOrder(orders[1], 2) by { assert orders[1][1] == 0 && orders[1][0] == 1; }
    var E1: seq<seq<int>> := [[0, -1], [-1, -2]];
    var G4: seq<seq<int>> := [[-4, -5], [-3, -4]];
    assert PivotsFrom(G4, orders, 2) == G4;
    assert PivotsFrom(E1, orders, 1) == G4;
    assert G4[0][0] == -4;
  }

  /** `main` on that graph with the sequential engine warns about a negative cycle. */
  method NegativePairWarns() returns (found: bool)
    ensures found
  {
    var M := LoadMatrix([Edge(0, 1, -1), Edge(1, 0, -1)], 2);
    var R := FloydWarshallSeq(M);
    NegativePair();
    found := HasNegativeCycle(R);
    assert R[0][0] < 0;
  }

  /** The rows of a matrix laid end to end. */
  function Flatten(rows: seq<seq<int>>): (flat: seq<int>)
  {
    if rows == [] then [] else Flatten(rows[..|rows| - 1]) + rows[|rows| - 1]
  }

  lemma {:induction false} FlattenLength(rows: seq<seq<int>>, n: nat)
    requires forall i :: 0 <= i < |rows| ==> |rows[i]| == n
    ensures |Flatten(rows)| == |rows| * n
  {
    if rows != [] {
      var m := |rows| - 1;
      FlattenLength(rows[..m], n);
      assert |Flatten(rows)| == m * n + n;
      assert m * n + n == (m + 1) * n;
    }
  }

  /** Extending a prefix of row by its next element. */
  lemma AppendNext(seen: seq<int>, row: seq<int>, j: nat)
    requires j < |row|
    ensures seen + row[..j + 1] == (seen + row[..j]) + [row[j]]
  {
    TakeNext(row, j);
  }

  /** The j loop of `summarize` over one row, continuing the counters kept for the entries
      seen before it. */
  method SummarizeRow(row: seq<int>, reached0: int, maxd0: int, ghost seen: seq<int>) returns (reached: int, maxd: int)
    requires reached0 == Stats.CountBelow(seen, INF) && maxd0 == Stats.MaxBelow(seen, INF)
    ensures reached == Stats.CountBelow(seen + row, INF) && maxd == Stats.MaxBelow(seen + row, INF)
  {
    reached, maxd := reached0, maxd0;
    ghost var cur := seen;
    var j := 0;
    while j < |row|
      invariant 0 <= j <= |row| && cur == seen + row[..j]
      invariant reached == Stats.CountBelow(cur, INF) && maxd == Stats.MaxBelow(cur, INF)
    {
      assert (cur + [row[j]])[..|cur|] == cur;
      if row[j] < INF {
        reached := reached + 1;
        if row[j] > maxd {
          maxd := row[j];
        }
      }
      AppendNext(seen, row, j);
      cur := cur + [row[j]];
      j := j + 1;
    }
    assert row[..j] == row;
  }

  /** `summarize`: the finite entries of the n x n matrix and the largest of them (0 when none
      is positive), row by row. */
  method SummarizeMatrix(R: seq<seq<int>>) returns (reachable: int, maxd: int)
    requires Square(R)
    ensures reachable == Stats.CountBelow(Flatten(R), INF) && maxd == Stats.MaxBelow(Flatten(R), INF)
    ensures 0 <= reachable <= |R| * |R| && maxd >= 0
  {
    reachable, maxd := 0, 0;
    var i := 0;
    while i < |R|
      invariant 0 <= i <= |R|
      invariant reachable == Stats.CountBelow(Flatten(R[..i]), INF) && maxd == Stats.MaxBelow(Flatten(R[..i]), INF)
    {
      reachable, maxd := SummarizeRow(R[i], reachable, maxd, Flatten(R[..i]));
      TakeNext(R, i);
      assert R[..i + 1][..i] == R[..i];
      i := i + 1;
    }
    assert R[..i] == R;
    FlattenLength(R, |R|);
  }
}
