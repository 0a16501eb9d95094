// Dense O(n^2) Dijkstra over adjacency lists: the loader's adjacency build,
// the sequential engine, and the parallel engine whose selection step is a
// fold of per-slice minima combined in critical-section order.

module Dijkstra {
  import opened Graph

  /** "Unreached". */
  const INF: int := 1_000_000_000_000_000_000

  /** One entry `(v, w)` of an adjacency list. */
  datatype Arc = Arc(to: Int32, w: Int32)

  /** Every arc leads to a vertex of the graph. */
  predicate WellFormed(adj: seq<seq<Arc>>)
  {
    forall u, k :: 0 <= u < |adj| && 0 <= k < |adj[u]| ==> 0 <= adj[u][k].to < |adj|
  }

  /** Dijkstra's precondition: no arc has a negative weight. */
  predicate NonNegative(adj: seq<seq<Arc>>)
  {
    forall u, k :: 0 <= u < |adj| && 0 <= k < |adj[u]| ==> adj[u][k].w >= 0
  }

  // ---------------------------------------------------------------------------
  // Loader

  /** The arcs out of u, in the order their edges appear. */
  function OutArcs(edges: seq<Edge>, u: Int32): (arcs: seq<Arc>)
    ensures |arcs| <= |edges|
    ensures forall a :: a in arcs <==> Edge(u, a.to, a.w) in edges
  {
    if edges == [] then []
    else
      var e := edges[|edges| - 1];
      OutArcs(edges[..|edges| - 1], u) + (if e.u == u then [Arc(e.v, e.w)] else [])
  }

  /** The adjacency lists `load_graph` builds from parsed triples. */
  function Adjacency(triples: seq<Edge>, n: Int32): (adj: seq<seq<Arc>>)
    requires n >= 0
    ensures |adj| == n && WellFormed(adj)
  {
    seq(n, u requires 0 <= u < n => OutArcs(Filter(triples, n), u))
  }

  /** The list of u holds an arc exactly when the input has the matching edge out of u with both
      ends in range. */
  lemma AdjacencyArcs(triples: seq<Edge>, n: Int32, u: int, a: Arc)
    requires 0 <= u < n
    ensures a in Adjacency(triples, n)[u] <==> Edge(u, a.to, a.w) in triples && InRange(Edge(u, a.to, a.w), n)
  {
  }

  /** The arcs follow the input order: the lists of a concatenated input are the concatenated lists. */
  lemma {:induction false} OutArcsAppend(a: seq<Edge>, b: seq<Edge>, u: Int32)
    ensures OutArcs(a + b, u) == OutArcs(a, u) + OutArcs(b, u)
  {
    if b == [] {
      assert a + b == a;
    } else {
      assert (a + b)[..|a + b| - 1] == a + b[..|b| - 1];
      OutArcsAppend(a, b[..|b| - 1], u);
    }
  }

  /** Appending one triple extends the list of its tail by its arc when it is in range. */
  lemma OutArcsPush(prefix: seq<Edge>, e: Edge, n: int, u: Int32)
    ensures OutArcs(Filter(prefix + [e], n), u)
         == OutArcs(Filter(prefix, n), u) + (if InRange(e, n) && e.u == u then [Arc(e.v, e.w)] else [])
  {
    FilterAppend(prefix, [e], n);
    assert [e][..0] == [];
    OutArcsAppend(Filter(prefix, n), Filter([e], n), u);
  }

  /** The loader's warning fires exactly when some list holds a negative arc. */
  lemma NegativeFlag(triples: seq<Edge>, n: Int32)
    requires n >= 0
    ensures (exists e :: e in triples && InRange(e, n) && e.w < 0) <==> !NonNegative(Adjacency(triples, n))
  {
    var adj := Adjacency(triples, n);
    if exists e :: e in triples && InRange(e, n) && e.w < 0 {
      var e :| e in triples && InRange(e, n) && e.w < 0;
      AdjacencyArcs(triples, n, e.u, Arc(e.v, e.w));
      assert Arc(e.v, e.w) in adj[e.u];
      var k :| 0 <= k < |adj[e.u]| && adj[e.u][k] == Arc(e.v, e.w);
    }
    if !NonNegative(adj) {
      var u, k :| 0 <= u < |adj| && 0 <= k < |adj[u]| && adj[u][k].w < 0;
      var a := adj[u][k];
      assert a in adj[u];
      AdjacencyArcs(triples, n, u, a);
      assert Edge(u, a.to, a.w) in triples;
    }
  }

  /** Reading one more triple appends its arc to the list of its tail when both ends are in range. */
  lemma AdjacencyPush(prefix: seq<Edge>, e: Edge, n: Int32)
    requires n >= 0
    ensures var adj := Adjacency(prefix, n);
      Adjacency(prefix + [e], n) == if InRange(e, n) then adj[e.u := adj[e.u] + [Arc(e.v, e.w)]] else adj
  {
    var adj := Adjacency(prefix, n);
    var adj' := Adjacency(prefix + [e], n);
    var want := if InRange(e, n) then adj[e.u := adj[e.u] + [Arc(e.v, e.w)]] else adj;
    forall u | 0 <= u < n ensures adj'[u] == want[u] {
      OutArcsPush(prefix, e, n, u);
    }
  }

  /** The loader's start: one empty adjacency list per vertex. */
  method EmptyLists(n: Int32) returns (lists: array<seq<Arc>>)
    requires n >= 0
    ensures fresh(lists) && lists[..] == Adjacency([], n)
  {
    lists := new seq<Arc>[n](_ => []);
  }

  /** Appending the arc (v, w) to the list of u. */
  method PushArc(lists: array<seq<Arc>>, e: Edge)
    requires InRange(e, lists.Length)
    modifies lists
    ensures lists[..] == old(lists[..])[e.u := old(lists[e.u]) + [Arc(e.v, e.w)]]
  {
    lists[e.u] := lists[e.u] + [Arc(e.v, e.w)];
  }

  /** `load_graph`: push every in-range edge onto the list of its tail; flag a negative weight. */
  method LoadGraph(triples: seq<Edge>, n: Int32) returns (adj: seq<seq<Arc>>, hasNegative: bool)
    requires n >= 0
    ensures adj == Adjacency(triples, n)
    ensures hasNegative <==> exists e :: e in triples && InRange(e, n) && e.w < 0
    ensures hasNegative <==> !NonNegative(adj)
  {
    var lists := EmptyLists(n);
    hasNegative := false;
    var i := 0;
    ghost var read: seq<Edge> := [];
    while i < |triples|
      invariant 0 <= i <= |triples| && lists.Length == n && read == triples[..i]
      invariant lists[..] == Adjacency(read, n)
      invariant hasNegative <==> exists j :: 0 <= j < i && InRange(triples[j], n) && triples[j].w < 0
    {
      var e := triples[i];
      AdjacencyPush(read, e, n);
      if InRange(e, n) {
        if e.w < 0 {
          hasNegative := true;
        }
        PushArc(lists, e);
      }
      TakeNext(triples, i);
      i, read := i + 1, read + [e];
    }
    assert read == triples;
    adj := lists[..];
    assert hasNegative <==> exists e :: e in triples && InRange(e, n) && e.w < 0 by {
      if hasNegative {
        var j :| 0 <= j < i && InRange(triples[j], n) && triples[j].w < 0;
        assert triples[j] in triples;
      }
    }
    NegativeFlag(triples, n);
  }

  // ---------------------------------------------------------------------------
  // Selection

  /** The vertex a selection loop settles on and its distance; u == -1 means none. */
  datatype Pick = Pick(u: int, best: int)

  /** What every selection returns: u == -1 exactly when best is INF, and otherwise an unused
      vertex whose distance is best. */
  predicate Candidate(dist: seq<int>, used: seq<bool>, p: Pick)
    requires |dist| == |used|
  {
    p.best <= INF && (p.u == -1 <==> p.best == INF)
    && (p.u != -1 ==> 0 <= p.u < |dist| && !used[p.u] && dist[p.u] == p.best)
  }

  /** The selection of `dijkstra_seq` after looking at vertices [0, k): the strict `<` keeps
      the first vertex of least distance, and an INF vertex is never picked. */
  function Scan(dist: seq<int>, used: seq<bool>, k: nat): (p: Pick)
    requires k <= |dist| == |used|
    ensures Candidate(dist, used, p) && p.u < k
  {
    if k == 0 then Pick(-1, INF)
    else
      var p := Scan(dist, used, k - 1);
      if !used[k - 1] && dist[k - 1] < p.best then Pick(k - 1, dist[k - 1]) else p
  }

  /** The scan finds the least distance among the unused vertices of [0, k), picks the first
      vertex at that distance, and finds none when all of them are at INF or above. */
  lemma {:induction false} ScanLeast(dist: seq<int>, used: seq<bool>, k: nat)
    requires k <= |dist| == |used|
    ensures var p := Scan(dist, used, k);
      (forall v :: 0 <= v < k && !used[v] ==> p.best <= dist[v])
      && (p.u != -1 ==> forall v :: 0 <= v < p.u && !used[v] ==> p.best < dist[v])
      && (p.u == -1 ==> forall v :: 0 <= v < k && !used[v] ==> dist[v] >= INF)
  {
    if k > 0 {
      ScanLeast(dist, used, k - 1);
    }
  }

  /** No unused vertex of [0, k) is closer than the scan's pick. */
  lemma ScanBelow(dist: seq<int>, used: seq<bool>, k: nat, v: int)
    requires k <= |dist| == |used| && 0 <= v < k && !used[v]
    ensures Scan(dist, used, k).best <= dist[v]
  {
    ScanLeast(dist, used, k);
  }

  /** Every vertex listed is a vertex of the graph. */
  predicate InBounds(vs: seq<int>, n: int)
  {
    forall i :: 0 <= i < |vs| ==> 0 <= vs[i] < n
  }

  /** One thread's loop over the first i vertices of its slice, with its own `local_best` and
      `local_u`. The range test only makes the function total: a slice of the loop's iteration
      space never holds a vertex outside [0, n), and `LocalSelect` reads the arrays without it. */
  function LocalScan(dist: seq<int>, used: seq<bool>, slice: seq<int>, i: nat): (p: Pick)
    requires |dist| == |used| && i <= |slice|
    ensures Candidate(dist, used, p)
  {
    if i == 0 then Pick(-1, INF)
    else
      var p := LocalScan(dist, used, slice, i - 1);
      var v := slice[i - 1];
      if 0 <= v < |dist| && !used[v] && dist[v] < p.best then Pick(v, dist[v]) else p
  }

  /** No unused vertex among the first i of a thread's slice is closer than the thread's pick. */
  lemma {:induction false} LocalScanBelow(dist: seq<int>, used: seq<bool>, slice: seq<int>, i: nat, j: nat)
    requires |dist| == |used| && j < i <= |slice|
    requires 0 <= slice[j] < |dist| && !used[slice[j]]
    ensures LocalScan(dist, used, slice, i).best <= dist[slice[j]]
  {
    if j < i - 1 {
      LocalScanBelow(dist, used, slice, i - 1, j);
    }
  }

  /** A thread's pick is one of the first i vertices of its slice. */
  lemma {:induction false} LocalScanPicksListed(dist: seq<int>, used: seq<bool>, slice: seq<int>, i: nat)
    requires |dist| == |used| && i <= |slice|
    ensures var p := LocalScan(dist, used, slice, i);
      p.u != -1 ==> exists j :: 0 <= j < i && slice[j] == p.u
  {
    if i > 0 {
      var p := LocalScan(dist, used, slice, i);
      if p == LocalScan(dist, used, slice, i - 1) {
        LocalScanPicksListed(dist, used, slice, i - 1);
      } else {
        assert slice[i - 1] == p.u;
      }
    }
  }

  /** v is in one of the slices. */
  predicate Listed(slices: seq<seq<int>>, v: int)
  {
    exists q, j :: 0 <= q < |slices| && 0 <= j < |slices[q]| && slices[q][j] == v
  }

  /** Every slice holds vertices of the graph, and every vertex is in some slice. */
  predicate Covers(slices: seq<seq<int>>, n: int)
  {
    (forall q :: 0 <= q < |slices| ==> InBounds(slices[q], n))
    && (forall v :: 0 <= v < n ==> Listed(slices, v))
  }

  /** The critical sections of the first s threads: their local minima are combined in the
      order of `slices`, and a later one replaces the current one only when strictly smaller. */
  function Combine(dist: seq<int>, used: seq<bool>, slices: seq<seq<int>>, s: nat): (p: Pick)
    requires |dist| == |used| && s <= |slices|
    ensures Candidate(dist, used, p)
  {
    if s == 0 then Pick(-1, INF)
    else
      var g := Combine(dist, used, slices, s - 1);
      var l := LocalScan(dist, used, slices[s - 1], |slices[s - 1]|);
      if l.best < g.best then l else g
  }

  /** No unused vertex of the first s slices is closer than the combined pick. */
  lemma {:induction false} CombineBelow(dist: seq<int>, used: seq<bool>, slices: seq<seq<int>>, s: nat, q: nat, j: nat)
    requires |dist| == |used| && q < s <= |slices| && j < |slices[q]|
    requires 0 <= slices[q][j] < |dist| && !used[slices[q][j]]
    ensures Combine(dist, used, slices, s).best <= dist[slices[q][j]]
  {
    if q < s - 1 {
      CombineBelow(dist, used, slices, s - 1, q, j);
    } else {
      LocalScanBelow(dist, used, slices[q], |slices[q]|, j);
    }
  }

  /** The combined pick is a vertex of one of the first s slices. */
  lemma {:induction false} CombinePicksListed(dist: seq<int>, used: seq<bool>, slices: seq<seq<int>>, s: nat)
    requires |dist| == |used| && s <= |slices|
    ensures var p := Combine(dist, used, slices, s);
      p.u != -1 ==> exists q, j :: 0 <= q < s && 0 <= j < |slices[q]| && slices[q][j] == p.u
  {
    if s > 0 {
      var p := Combine(dist, used, slices, s);
      if p == Combine(dist, used, slices, s - 1) {
        CombinePicksListed(dist, used, slices, s - 1);
      } else if p.u != -1 {
        LocalScanPicksListed(dist, used, slices[s - 1], |slices[s - 1]|);
        var j :| 0 <= j < |slices[s - 1]| && slices[s - 1][j] == p.u;
        assert 0 <= s - 1 < s && slices[s - 1][j] == p.u;
      }
    }
  }

  /** For every covering of the vertices by slices and every combining order, the parallel
      selection finds the same least distance as the sequential scan, stops in the same rounds,
      and picks an unused vertex at that distance. */
  lemma ParallelSelectAgrees(dist: seq<int>, used: seq<bool>, slices: seq<seq<int>>)
    requires |dist| == |used| && Covers(slices, |dist|)
    ensures var s := Scan(dist, used, |dist|);
      var p := Combine(dist, used, slices, |slices|);
      p.best == s.best && (p.u == -1 <==> s.u == -1)
      && (p.u != -1 ==> 0 <= p.u < |dist| && !used[p.u] && dist[p.u] == p.best)
  {
    var s := Scan(dist, used, |dist|);
    var p := Combine(dist, used, slices, |slices|);
    if s.u != -1 {
      assert Listed(slices, s.u);
      var q, j :| 0 <= q < |slices| && 0 <= j < |slices[q]| && slices[q][j] == s.u;
      CombineBelow(dist, used, slices, |slices|, q, j);
      assert p.best <= s.best;
    }
    if p.u != -1 {
      ScanBelow(dist, used, |dist|, p.u);
      assert s.best <= p.best;
    }
  }

  /** On a tie the parallel selection may settle on another vertex than the sequential one:
      two unused vertices at distance 5, the slice holding vertex 1 entering the critical section first. */
  lemma TieMayPickOtherVertex()
    ensures Scan([5, 5], [false, false], 2).u == 0
    ensures Combine([5, 5], [false, false], [[1], [0]], 2).u == 1
    ensures Covers([[1], [0]], 2)
  {
    var slices := [[1], [0]];
    forall v | 0 <= v < 2
      ensures Listed(slices, v)
    {
      assert slices[1 - v][0] == v;
    }
  }

  // ---------------------------------------------------------------------------
  // Relaxation and the round loop

  /** The tentative distances and the `used` marks. */
  datatype State = State(dist: seq<int>, used: seq<bool>)

  predicate Shaped(adj: seq<seq<Arc>>, st: State)
  {
    |st.dist| == |adj| && |st.used| == |adj|
  }

  /** Before the first round: INF everywhere, 0 at the source, nothing used. */
  function Start(n: nat, source: nat): (st: State)
    requires source < n
    ensures |st.dist| == n && |st.used| == n && st.dist[source] == 0
    ensures forall v :: 0 <= v < n ==> !st.used[v] && (v != source ==> st.dist[v] == INF)
  {
    State(seq(n, v => if v == source then 0 else INF), seq(n, _ => false))
  }

  /** Every arc of the list leads to a vertex of the graph. */
  predicate ArcsIn(arcs: seq<Arc>, n: int)
  {
    forall k :: 0 <= k < |arcs| ==> 0 <= arcs[k].to < n
  }

  /** The relax loop over the arcs out of u: each arc lowers dist[to] to dist[u] + w when that is
      smaller, reading dist[u] afresh for every arc. */
  function RelaxArcs(dist: seq<int>, arcs: seq<Arc>, u: int): (r: seq<int>)
    requires 0 <= u < |dist| && ArcsIn(arcs, |dist|)
    ensures |r| == |dist|
    ensures Below(r, dist)
  {
    if arcs == [] then dist
    else
      assert ArcsIn(arcs[..|arcs| - 1], |dist|);
      var d := RelaxArcs(dist, arcs[..|arcs| - 1], u);
      var a := arcs[|arcs| - 1];
      var r := if d[u] + a.w < d[a.to] then d[a.to := d[u] + a.w] else d;
      BelowTrans(r, d, dist);
      r
  }

  /** With non-negative weights, relaxing out of u never touches a vertex at most as far as u,
      and every value it writes is at least dist[u]. */
  lemma {:induction false} RelaxArcsFromLeast(dist: seq<int>, arcs: seq<Arc>, u: int)
    requires 0 <= u < |dist| && ArcsIn(arcs, |dist|)
    requires forall k :: 0 <= k < |arcs| ==> arcs[k].w >= 0
    ensures var r := RelaxArcs(dist, arcs, u);
      (forall x :: 0 <= x < |dist| && dist[x] <= dist[u] ==> r[x] == dist[x])
      && (forall y :: 0 <= y < |dist| ==> r[y] == dist[y] || r[y] >= dist[u])
  {
    if arcs != [] {
      RelaxArcsFromLeast(dist, arcs[..|arcs| - 1], u);
    }
  }

  /** u may be settled next: unused, reached, and no unused vertex is closer. */
  predicate Eligible(st: State, u: int)
    requires |st.dist| == |st.used|
  {
    0 <= u < |st.dist| && !st.used[u] && st.dist[u] < INF
    && forall v :: 0 <= v < |st.dist| && !st.used[v] ==> st.dist[u] <= st.dist[v]
  }

  /** One round after the selection: mark u used, then relax its arcs. */
  function Step(adj: seq<seq<Arc>>, st: State, u: int): (st': State)
    requires WellFormed(adj) && Shaped(adj, st) && 0 <= u < |adj| && !st.used[u]
    ensures Shaped(adj, st') && st'.used == st.used[u := true]
  {
    State(RelaxArcs(st.dist, adj[u], u), st.used[u := true])
  }

  /** With non-negative weights every used vertex is reached and no farther than any unused one. */
  predicate Settled(st: State)
    requires |st.dist| == |st.used|
  {
    (forall x :: 0 <= x < |st.dist| && st.used[x] ==> st.dist[x] < INF)
    && (forall x, y {:trigger NoFarther(st, x, y)} ::
          0 <= x < |st.dist| && 0 <= y < |st.dist| && st.used[x] && !st.used[y] ==> NoFarther(st, x, y))
  }

  /** x is no farther from the source than y. */
  predicate NoFarther(st: State, x: int, y: int)
    requires 0 <= x < |st.dist| && 0 <= y < |st.dist|
  {
    st.dist[x] <= st.dist[y]
  }

  /** What holds of the state at the start of every round. */
  predicate Inv(adj: seq<seq<Arc>>, source: nat, st: State)
  {
    WellFormed(adj) && Shaped(adj, st) && source < |adj|
    && st.dist[source] <= 0 && (forall v :: 0 <= v < |adj| ==> st.dist[v] <= INF)
    && (NonNegative(adj) ==> Settled(st))
  }

  /** A round from an eligible vertex keeps the invariant; with non-negative weights it changes
      no used vertex and not u itself: used vertices are final. */
  lemma StepKeepsInv(adj: seq<seq<Arc>>, source: nat, st: State, u: int)
    requires Inv(adj, source, st) && Eligible(st, u)
    ensures Inv(adj, source, Step(adj, st, u))
    ensures NonNegative(adj) ==>
      forall x :: 0 <= x < |adj| && (st.used[x] || x == u) ==> Step(adj, st, u).dist[x] == st.dist[x]
  {
    var st' := Step(adj, st, u);
    var n := |adj|;
    forall i | 0 <= i < n ensures st'.dist[i] <= INF {
      assert st'.dist[i] <= st.dist[i];
    }
    if NonNegative(adj) {
      RelaxArcsFromLeast(st.dist, adj[u], u);
      forall x | 0 <= x < n && st.used[x] ensures st.dist[x] <= st.dist[u] {
        assert NoFarther(st, x, u);
      }
      forall x, y | 0 <= x < n && 0 <= y < n && st'.used[x] && !st'.used[y]
        ensures NoFarther(st', x, y)
      {
        assert !st.used[y] && y != u;
        assert st.dist[u] <= st.dist[y];
        assert st'.dist[x] == st.dist[x] <= st.dist[u];
      }
    }
  }

  /** A round keeps every used vertex used. */
  lemma StepKeepsUsed(adj: seq<seq<Arc>>, st: State, u: int)
    requires WellFormed(adj) && Shaped(adj, st) && 0 <= u < |adj| && !st.used[u]
    ensures forall x :: 0 <= x < |adj| && st.used[x] ==> Step(adj, st, u).used[x]
  {
    var st' := Step(adj, st, u);
    forall x | 0 <= x < |adj| && st.used[x] ensures st'.used[x] {
      assert st'.used[x] == st.used[u := true][x];
    }
  }

  /** `dijkstra_seq` from a state: at most k more rounds, stopping when no unused vertex is reached. */
  function RunSeq(adj: seq<seq<Arc>>, st: State, k: nat): (st': State)
    requires WellFormed(adj) && Shaped(adj, st)
    ensures Shaped(adj, st')
    decreases k
  {
    if k == 0 then st
    else
      var p := Scan(st.dist, st.used, |adj|);
      if p.u == -1 || p.best == INF then st else RunSeq(adj, Step(adj, st, p.u), k - 1)
  }

  /** What `dijkstra_seq` returns: n rounds at most from the start state. */
  function Dijkstra(adj: seq<seq<Arc>>, source: int): (dist: seq<int>)
    requires WellFormed(adj) && 0 <= source < |adj|
    ensures |dist| == |adj|
  {
    RunSeq(adj, Start(|adj|, source), |adj|).dist
  }

  /** The scan's choice is an eligible vertex. */
  lemma ScanEligible(st: State)
    requires |st.dist| == |st.used|
    ensures var p := Scan(st.dist, st.used, |st.dist|); p.u != -1 ==> Eligible(st, p.u)
  {
    ScanLeast(st.dist, st.used, |st.dist|);
  }

  /** A sequential round keeps the invariant, keeps used vertices used and, with non-negative
      weights, leaves their distances alone. */
  lemma RoundKeepsInv(adj: seq<seq<Arc>>, source: nat, st: State)
    requires Inv(adj, source, st) && Scan(st.dist, st.used, |adj|).u != -1
    ensures var st' := Step(adj, st, Scan(st.dist, st.used, |adj|).u);
      Inv(adj, source, st')
      && (forall x :: 0 <= x < |adj| && st.used[x] ==> st'.used[x])
      && (NonNegative(adj) ==> forall x :: 0 <= x < |adj| && st.used[x] ==> st'.dist[x] == st.dist[x])
  {
    var u := Scan(st.dist, st.used, |adj|).u;
    ScanEligible(st);
    StepKeepsInv(adj, source, st, u);
    StepKeepsUsed(adj, st, u);
  }

  /** Along the sequential run the invariant holds. */
  lemma {:induction false} RunSeqInv(adj: seq<seq<Arc>>, source: nat, st: State, k: nat)
    requires Inv(adj, source, st)
    ensures Inv(adj, source, RunSeq(adj, st, k))
    decreases k
  {
    var p := Scan(st.dist, st.used, |adj|);
    if k > 0 && p.u != -1 {
      RoundKeepsInv(adj, source, st);
      RunSeqInv(adj, source, Step(adj, st, p.u), k - 1);
    }
  }

  /** Along the sequential run vertices stay used once used and, with non-negative weights, the
      distance of a used vertex never changes again. */
  lemma {:induction false} RunSeqKeepsUsed(adj: seq<seq<Arc>>, source: nat, st: State, k: nat, x: nat)
    requires Inv(adj, source, st) && x < |adj| && st.used[x]
    ensures RunSeq(adj, st, k).used[x]
    ensures NonNegative(adj) ==> RunSeq(adj, st, k).dist[x] == st.dist[x]
    decreases k
  {
    var p := Scan(st.dist, st.used, |adj|);
    if k > 0 && p.u != -1 {
      RoundKeepsInv(adj, source, st);
      RunSeqKeepsUsed(adj, source, Step(adj, st, p.u), k - 1, x);
    }
  }

  /** The start state satisfies the invariant. */
  lemma StartInv(adj: seq<seq<Arc>>, source: nat)
    requires WellFormed(adj) && source < |adj|
    ensures Inv(adj, source, Start(|adj|, source))
  {
  }

  /** The first round settles the source: it is the only vertex at a finite distance. */
  lemma StartPicksSource(st: State, source: nat)
    requires source < |st.dist| && st == Start(|st.dist|, source)
    ensures Scan(st.dist, st.used, |st.dist|) == Pick(source, 0)
  {
    var p := Scan(st.dist, st.used, |st.dist|);
    ScanLeast(st.dist, st.used, |st.dist|);
    assert p.best <= st.dist[source] == 0;
  }

  /** The first round of any parallel selection settles the source too. */
  lemma StartPicksSourcePar(st: State, source: nat, slices: seq<seq<int>>)
    requires source < |st.dist| && st == Start(|st.dist|, source) && Covers(slices, |st.dist|)
    ensures Combine(st.dist, st.used, slices, |slices|) == Pick(source, 0)
  {
    StartPicksSource(st, source);
    ParallelSelectAgrees(st.dist, st.used, slices);
  }

  /** The result has n entries, none above INF, and the source entry is at most 0. */
  lemma DijkstraBounds(adj: seq<seq<Arc>>, source: nat)
    requires WellFormed(adj) && source < |adj|
    ensures var r := Dijkstra(adj, source);
      |r| == |adj| && r[source] <= 0 && forall v :: 0 <= v < |adj| ==> r[v] <= INF
  {
    var st := Start(|adj|, source);
    StartInv(adj, source);
    RunSeqInv(adj, source, st, |adj|);
  }

  /** With non-negative weights the first round settles the source at 0 and keeps the invariant. */
  lemma SourceFirst(adj: seq<seq<Arc>>, source: nat)
    requires WellFormed(adj) && source < |adj| && NonNegative(adj)
    ensures Inv(adj, source, Step(adj, Start(|adj|, source), source))
    ensures Step(adj, Start(|adj|, source), source).used[source]
    ensures Step(adj, Start(|adj|, source), source).dist[source] == 0
  {
    var st := Start(|adj|, source);
    StartInv(adj, source);
    StartPicksSource(st, source);
    ScanEligible(st);
    StepKeepsInv(adj, source, st, source);
  }

  /** The sequential run begins by settling the source. */
  lemma RunSeqFirst(adj: seq<seq<Arc>>, source: nat)
    requires WellFormed(adj) && source < |adj|
    ensures var st := Start(|adj|, source);
      RunSeq(adj, st, |adj|) == RunSeq(adj, Step(adj, st, source), |adj| - 1)
  {
    StartPicksSource(Start(|adj|, source), source);
  }

  /** A used source at 0 stays at 0 for the remaining n - 1 rounds of the sequential run. */
  lemma SourceStaysFrom(adj: seq<seq<Arc>>, source: nat, st: State)
    requires WellFormed(adj) && source < |adj| && NonNegative(adj)
    requires Inv(adj, source, st) && st.used[source] && st.dist[source] == 0
    ensures RunSeq(adj, st, |adj| - 1).dist[source] == 0
  {
    RunSeqKeepsUsed(adj, source, st, |adj| - 1, source);
  }

  /** After the first round the source keeps its 0 for the rest of the sequential run. */
  lemma SourceStays(adj: seq<seq<Arc>>, source: nat)
    requires WellFormed(adj) && source < |adj| && NonNegative(adj)
    ensures RunSeq(adj, Step(adj, Start(|adj|, source), source), |adj| - 1).dist[source] == 0
  {
    SourceFirst(adj, source);
    SourceStaysFrom(adj, source, Step(adj, Start(|adj|, source), source));
  }

  /** With non-negative weights the source is settled first at 0 and stays there. */
  lemma DijkstraSourceZero(adj: seq<seq<Arc>>, source: nat)
    requires WellFormed(adj) && source < |adj| && NonNegative(adj)
    ensures Dijkstra(adj, source)[source] == 0
  {
    RunSeqFirst(adj, source);
    SourceStays(adj, source);
  }

  // ---------------------------------------------------------------------------
  // The sequential engine

  /** The arrays both engines start from: `dist` INF except 0 at the source, nothing used. */
  method Initial(n: nat, source: nat) returns (d: array<int>, used: array<bool>)
    requires source < n
    ensures fresh(d) && fresh(used) && d.Length == n && used.Length == n
    ensures State(d[..], used[..]) == Start(n, source)
  {
    d := new int[n](_ => INF);
    used := new bool[n](_ => false);
    d[source] := 0;
  }

  /** The selection loop of `dijkstra_seq`. */
  method SelectSeq(dist: array<int>, used: array<bool>) returns (u: int, best: int)
    requires dist.Length == used.Length
    ensures Pick(u, best) == Scan(dist[..], used[..], dist.Length)
  {
    u, best := -1, INF;
    var v := 0;
    while v < dist.Length
      invariant 0 <= v <= dist.Length
      invariant Pick(u, best) == Scan(dist[..], used[..], v)
    {
      if !used[v] && dist[v] < best {
        best := dist[v];
        u := v;
      }
      v := v + 1;
    }
  }

  /** The relax loop over the arcs out of u; the parallel engine runs the same loop. */
  method RelaxOut(dist: array<int>, arcs: seq<Arc>, u: int)
    requires 0 <= u < dist.Length && ArcsIn(arcs, dist.Length)
    modifies dist
    ensures dist[..] == RelaxArcs(old(dist[..]), arcs, u)
  {
    var i := 0;
    while i < |arcs|
      invariant 0 <= i <= |arcs|
      invariant dist[..] == RelaxArcs(old(dist[..]), arcs[..i], u)
    {
      assert arcs[..i + 1][..i] == arcs[..i];
      var to := arcs[i].to;
      var w := arcs[i].w;
      var cand := dist[u] + w;
      if cand < dist[to] {
        dist[to] := cand;
      }
      i := i + 1;
    }
    assert arcs[..i] == arcs;
  }

  /** The end of a round: mark u used, then relax its arcs. */
  method Settle(adj: seq<seq<Arc>>, d: array<int>, used: array<bool>, u: int)
    requires WellFormed(adj) && d.Length == |adj| && used.Length == |adj| && 0 <= u < |adj|
    requires !used[u]
    modifies d, used
    ensures State(d[..], used[..]) == Step(adj, State(old(d[..]), old(used[..])), u)
  {
    used[u] := true;
    assert forall k :: 0 <= k < |adj[u]| ==> 0 <= adj[u][k].to < |adj|;
    RelaxOut(d, adj[u], u);
  }

  /** One round of the sequential run unfolds to a scan and a step. */
  lemma RunSeqStep(adj: seq<seq<Arc>>, st: State, k: nat)
    requires WellFormed(adj) && Shaped(adj, st) && k > 0
    ensures var p := Scan(st.dist, st.used, |adj|);
      RunSeq(adj, st, k) == if p.u == -1 then st else RunSeq(adj, Step(adj, st, p.u), k - 1)
  {
  }

  /** `dijkstra_seq`. */
  method DijkstraSeq(adj: seq<seq<Arc>>, source: int) returns (dist: seq<int>)
    requires WellFormed(adj) && 0 <= source < |adj|
    ensures dist == Dijkstra(adj, source)
  {
    var n := |adj|;
    var d, used := Initial(n, source);
    ghost var st := State(d[..], used[..]);
    ghost var goal := RunSeq(adj, st, n);
    var it := 0;
    while it < n
      invariant 0 <= it <= n && d.Length == n && used.Length == n
      invariant State(d[..], used[..]) == st && Shaped(adj, st)
      invariant RunSeq(adj, st, n - it) == goal
    {
      var u, best := SelectSeq(d, used);
      RunSeqStep(adj, st, n - it);
      if u == -1 || best == INF {
        break;
      }
      Settle(adj, d, used, u);
      st, it := Step(adj, st, u), it + 1;
    }
    dist := d[..];
  }

  // ---------------------------------------------------------------------------
  // The parallel engine, with the slicing of every round as an input

  /** `dijkstra_parallel` from a state at round t: at most k more rounds, round t selecting with
      the slices slicing[t]. */
  function RunPar(adj: seq<seq<Arc>>, st: State, slicing: seq<seq<seq<int>>>, t: nat, k: nat): (st': State)
    requires WellFormed(adj) && Shaped(adj, st) && t + k <= |slicing|
    ensures Shaped(adj, st')
    decreases k
  {
    if k == 0 then st
    else
      var p := Combine(st.dist, st.used, slicing[t], |slicing[t]|);
      if p.u == -1 || p.best == INF then st
      else RunPar(adj, Step(adj, st, p.u), slicing, t + 1, k - 1)
  }

  /** A parallel run of k rounds from st, starting at round t, ends at goal. */
  ghost predicate EndsAt(adj: seq<seq<Arc>>, st: State, slicing: seq<seq<seq<int>>>, t: nat, k: nat, goal: State)
    requires WellFormed(adj) && Shaped(adj, st) && t + k <= |slicing|
  {
    RunPar(adj, st, slicing, t, k) == goal
  }

  /** A parallel run stops at a round whose selection finds no reached vertex. */
  lemma RunParStop(adj: seq<seq<Arc>>, st: State, slicing: seq<seq<seq<int>>>, t: nat, k: nat)
    requires WellFormed(adj) && Shaped(adj, st) && k > 0 && t + k <= |slicing|
    requires var p := Combine(st.dist, st.used, slicing[t], |slicing[t]|); p.u == -1 || p.best == INF
    ensures RunPar(adj, st, slicing, t, k) == st
  {
  }

  /** Otherwise it goes on from the state after settling the vertex the selection picks. */
  lemma RunParAdvance(adj: seq<seq<Arc>>, st: State, slicing: seq<seq<seq<int>>>, t: nat, k: nat, u: int)
    requires WellFormed(adj) && Shaped(adj, st) && k > 0 && t + k <= |slicing|
    requires u == Combine(st.dist, st.used, slicing[t], |slicing[t]|).u && u != -1
    ensures 0 <= u < |adj| && !st.used[u]
    ensures RunPar(adj, Step(adj, st, u), slicing, t + 1, k - 1) == RunPar(adj, st, slicing, t, k)
  {
  }

  /** What `dijkstra_parallel` returns for a given slicing. */
  function DijkstraParallel(adj: seq<seq<Arc>>, source: int, slicing: seq<seq<seq<int>>>): (dist: seq<int>)
    requires WellFormed(adj) && 0 <= source < |adj|
    requires |slicing| >= |adj| && (forall r :: 0 <= r < |slicing| ==> Covers(slicing[r], |adj|))
    ensures |dist| == |adj|
  {
    RunPar(adj, Start(|adj|, source), slicing, 0, |adj|).dist
  }

  /** A sequential run from st ends pointwise at most st's distances. */
  lemma {:induction false} RunSeqLowers(adj: seq<seq<Arc>>, st: State, k: nat, goal: State)
    requires WellFormed(adj) && Shaped(adj, st) && goal == RunSeq(adj, st, k)
    ensures Below(goal.dist, st.dist)
    decreases k
  {
    if k > 0 {
      var p := Scan(st.dist, st.used, |adj|);
      if p.u != -1 && p.best != INF {
        var st' := Step(adj, st, p.u);
        RunSeqLowers(adj, st', k - 1, goal);
        BelowTrans(goal.dist, st'.dist, st.dist);
      }
    }
  }

  /** So does a parallel run, whatever the slicing. */
  lemma {:induction false} RunParLowers(adj: seq<seq<Arc>>, st: State, slicing: seq<seq<seq<int>>>, t: nat, k: nat, goal: State)
    requires WellFormed(adj) && Shaped(adj, st) && t + k <= |slicing| && EndsAt(adj, st, slicing, t, k, goal)
    ensures Below(goal.dist, st.dist)
    decreases k
  {
    if k > 0 {
      var p := Combine(st.dist, st.used, slicing[t], |slicing[t]|);
      if p.u != -1 && p.best != INF {
        RunParAdvance(adj, st, slicing, t, k, p.u);
        var st' := Step(adj, st, p.u);
        RunParLowers(adj, st', slicing, t + 1, k - 1, goal);
        BelowTrans(goal.dist, st'.dist, st.dist);
      }
    }
  }

  /** Distances only ever decrease: both engines end pointwise at most the start vector, 0 at
      the source and INF elsewhere. */
  lemma DijkstraLowers(adj: seq<seq<Arc>>, source: int, slicing: seq<seq<seq<int>>>)
    requires WellFormed(adj) && 0 <= source < |adj|
    requires |slicing| >= |adj| && (forall r :: 0 <= r < |slicing| ==> Covers(slicing[r], |adj|))
    ensures Below(Dijkstra(adj, source), Start(|adj|, source).dist)
    ensures Below(DijkstraParallel(adj, source, slicing), Start(|adj|, source).dist)
  {
    var st := Start(|adj|, source);
    RunSeqLowers(adj, st, |adj|, RunSeq(adj, st, |adj|));
    RunParLowers(adj, st, slicing, 0, |adj|, RunPar(adj, st, slicing, 0, |adj|));
  }

  /** With slices that cover the vertices, the combined pick may be settled next. */
  lemma CombineEligible(st: State, slices: seq<seq<int>>)
    requires |st.dist| == |st.used| && Covers(slices, |st.dist|)
    ensures var p := Combine(st.dist, st.used, slices, |slices|); p.u != -1 ==> Eligible(st, p.u)
  {
    ParallelSelectAgrees(st.dist, st.used, slices);
    ScanEligible(st);
  }

  /** A parallel round keeps the invariant, keeps used vertices used and, with non-negative
      weights, leaves their distances alone, whatever the slices and their combining order. */
  lemma RoundKeepsInvPar(adj: seq<seq<Arc>>, source: nat, st: State, slices: seq<seq<int>>)
    requires Inv(adj, source, st) && Covers(slices, |adj|) && Combine(st.dist, st.used, slices, |slices|).u != -1
    ensures var st' := Step(adj, st, Combine(st.dist, st.used, slices, |slices|).u);
      Inv(adj, source, st')
      && (forall x :: 0 <= x < |adj| && st.used[x] ==> st'.used[x])
      && (NonNegative(adj) ==> forall x :: 0 <= x < |adj| && st.used[x] ==> st'.dist[x] == st.dist[x])
  {
    var u := Combine(st.dist, st.used, slices, |slices|).u;
    CombineEligible(st, slices);
    StepKeepsInv(adj, source, st, u);
    StepKeepsUsed(adj, st, u);
  }

  /** Along the parallel run the invariant holds, for every slicing. */
  lemma {:induction false} RunParInv(adj: seq<seq<Arc>>, source: nat, st: State,
                                     slicing: seq<seq<seq<int>>>, t: nat, k: nat)
    requires Inv(adj, source, st) && t + k <= |slicing| && (forall r :: 0 <= r < |slicing| ==> Covers(slicing[r], |adj|))
    ensures Inv(adj, source, RunPar(adj, st, slicing, t, k))
    decreases k
  {
    if k > 0 {
      assert Covers(slicing[t], |adj|);
      var p := Combine(st.dist, st.used, slicing[t], |slicing[t]|);
      if p.u != -1 {
        RoundKeepsInvPar(adj, source, st, slicing[t]);
        RunParInv(adj, source, Step(adj, st, p.u), slicing, t + 1, k - 1);
      }
    }
  }

  /** Along the parallel run used vertices stay used, for every slicing. */
  lemma {:induction false} RunParKeepsUsed(adj: seq<seq<Arc>>, source: nat, st: State,
                                           slicing: seq<seq<seq<int>>>, t: nat, k: nat, x: nat,
                                           goal: State)
    requires Inv(adj, source, st) && x < |adj| && st.used[x]
    requires t + k <= |slicing| && (forall r :: 0 <= r < |slicing| ==> Covers(slicing[r], |adj|))
    requires EndsAt(adj, st, slicing, t, k, goal)
    ensures goal.used[x]
    decreases k
  {
    if k > 0 {
      var p := Combine(st.dist, st.used, slicing[t], |slicing[t]|);
      if p.u != -1 && p.best != INF {
        assert Covers(slicing[t], |adj|);
        RoundKeepsInvPar(adj, source, st, slicing[t]);
        RunParKeepsUsed(adj, source, Step(adj, st, p.u), slicing, t + 1, k - 1, x, goal);
      }
    }
  }

  /** With non-negative weights a used vertex keeps its distance along the parallel run, for
      every slicing. */
  lemma {:induction false} RunParKeepsDist(adj: seq<seq<Arc>>, source: nat, st: State,
                                           slicing: seq<seq<seq<int>>>, t: nat, k: nat, x: nat,
                                           goal: State)
    requires Inv(adj, source, st) && NonNegative(adj) && x < |adj| && st.used[x]
    requires t + k <= |slicing| && (forall r :: 0 <= r < |slicing| ==> Covers(slicing[r], |adj|))
    requires EndsAt(adj, st, slicing, t, k, goal)
    ensures goal.dist[x] == st.dist[x]
    decreases k
  {
    if k > 0 {
      var p := Combine(st.dist, st.used, slicing[t], |slicing[t]|);
      if p.u != -1 && p.best != INF {
        assert Covers(slicing[t], |adj|);
        RoundKeepsInvPar(adj, source, st, slicing[t]);
        RunParKeepsDist(adj, source, Step(adj, st, p.u), slicing, t + 1, k - 1, x, goal);
      }
    }
  }

  /** The parallel result has the same bounds as the sequential one, for every slicing. */
  lemma DijkstraParallelBounds(adj: seq<seq<Arc>>, source: nat, slicing: seq<seq<seq<int>>>)
    requires WellFormed(adj) && source < |adj|
    requires |slicing| >= |adj| && (forall r :: 0 <= r < |slicing| ==> Covers(slicing[r], |adj|))
    ensures var r := DijkstraParallel(adj, source, slicing);
      |r| == |adj| && r[source] <= 0 && forall v :: 0 <= v < |adj| ==> r[v] <= INF
  {
    StartInv(adj, source);
    RunParInv(adj, source, Start(|adj|, source), slicing, 0, |adj|);
  }

  /** Every parallel run begins by settling the source. */
  lemma RunParFirst(adj: seq<seq<Arc>>, source: nat, slicing: seq<seq<seq<int>>>)
    requires WellFormed(adj) && source < |adj|
    requires |slicing| >= |adj| && (forall r :: 0 <= r < |slicing| ==> Covers(slicing[r], |adj|))
    ensures var st := Start(|adj|, source);
      RunPar(adj, st, slicing, 0, |adj|) == RunPar(adj, Step(adj, st, source), slicing, 1, |adj| - 1)
  {
    assert Covers(slicing[0], |adj|);
    StartPicksSourcePar(Start(|adj|, source), source, slicing[0]);
  }

  /** A used source at 0 stays at 0 for the remaining n - 1 rounds of every parallel run. */
  lemma SourceStaysFromPar(adj: seq<seq<Arc>>, source: nat, st: State, slicing: seq<seq<seq<int>>>)
    requires WellFormed(adj) && source < |adj| && NonNegative(adj)
    requires Inv(adj, source, st) && st.used[source] && st.dist[source] == 0
    requires |slicing| >= |adj| && (forall r :: 0 <= r < |slicing| ==> Covers(slicing[r], |adj|))
    ensures RunPar(adj, st, slicing, 1, |adj| - 1).dist[source] == 0
  {
    RunParKeepsDist(adj, source, st, slicing, 1, |adj| - 1, source, RunPar(adj, st, slicing, 1, |adj| - 1));
  }

  /** After the first round the source keeps its 0 for the rest of every parallel run. */
  lemma SourceStaysPar(adj: seq<seq<Arc>>, source: nat, slicing: seq<seq<seq<int>>>)
    requires WellFormed(adj) && source < |adj| && NonNegative(adj)
    requires |slicing| >= |adj| && (forall r :: 0 <= r < |slicing| ==> Covers(slicing[r], |adj|))
    ensures RunPar(adj, Step(adj, Start(|adj|, source), source), slicing, 1, |adj| - 1).dist[source] == 0
  {
    SourceFirst(adj, source);
    SourceStaysFromPar(adj, source, Step(adj, Start(|adj|, source), source), slicing);
  }

  /** With non-negative weights every slicing settles the source first at 0, and it stays there. */
  lemma DijkstraParallelSourceZero(adj: seq<seq<Arc>>, source: nat, slicing: seq<seq<seq<int>>>)
    requires WellFormed(adj) && source < |adj| && NonNegative(adj)
    requires |slicing| >= |adj| && (forall r :: 0 <= r < |slicing| ==> Covers(slicing[r], |adj|))
    ensures DijkstraParallel(adj, source, slicing)[source] == 0
  {
    RunParFirst(adj, source, slicing);
    SourceStaysPar(adj, source, slicing);
  }

  /** One thread's scan of its slice. */
  method LocalSelect(dist: array<int>, used: array<bool>, slice: seq<int>) returns (localU: int, localBest: int)
    requires dist.Length == used.Length && InBounds(slice, dist.Length)
    ensures Pick(localU, localBest) == LocalScan(dist[..], used[..], slice, |slice|)
  {
    localU, localBest := -1, INF;
    var i := 0;
    while i < |slice|
      invariant 0 <= i <= |slice|
      invariant Pick(localU, localBest) == LocalScan(dist[..], used[..], slice, i)
    {
      var v := slice[i];
      if !used[v] && dist[v] < localBest {
        localBest := dist[v];
        localU := v;
      }
      i := i + 1;
    }
  }

  /** The parallel selection of `dijkstra_parallel`: every slice scanned, then the local minima
      combined in the order of `slices`. */
  method ParallelSelect(dist: array<int>, used: array<bool>, slices: seq<seq<int>>) returns (u: int, best: int)
    requires dist.Length == used.Length && forall s :: 0 <= s < |slices| ==> InBounds(slices[s], dist.Length)
    ensures Pick(u, best) == Combine(dist[..], used[..], slices, |slices|)
  {
    u, best := -1, INF;
    var s := 0;
    while s < |slices|
      invariant 0 <= s <= |slices|
      invariant Pick(u, best) == Combine(dist[..], used[..], slices, s)
    {
      var localU, localBest := LocalSelect(dist, used, slices[s]);
      if localBest < best {
        best := localBest;
        u := localU;
      }
      s := s + 1;
    }
  }

  /** Round t of `dijkstra_parallel` on the arrays: the parallel selection with the slices
      slicing[t], then, unless it finds no reached vertex, the settling of the vertex it picks.
      It hands back the number of the next round and how many rounds are left: a parallel run
      of k rounds from the old state ends where the rest of the run from the new state ends, or
      at the old state itself when the round stops. */
  method ParallelRound(adj: seq<seq<Arc>>, d: array<int>, used: array<bool>,
                       slicing: seq<seq<seq<int>>>, t: nat, ghost k: nat, ghost goal: State)
    returns (stop: bool, next: nat, ghost rest: nat)
    requires WellFormed(adj) && d.Length == |adj| && used.Length == |adj|
    requires k > 0 && t + k <= |slicing| && Covers(slicing[t], |adj|)
    requires EndsAt(adj, State(d[..], used[..]), slicing, t, k, goal)
    modifies d, used
    ensures var p := Combine(old(d[..]), old(used[..]), slicing[t], |slicing[t]|);
      stop == (p.u == -1 || p.best == INF)
      && State(d[..], used[..]) == if stop then State(old(d[..]), old(used[..]))
                                   else Step(adj, State(old(d[..]), old(used[..])), p.u)
    ensures stop ==> State(d[..], used[..]) == goal
    ensures next == t + 1 && rest == k - 1
    ensures !stop ==> EndsAt(adj, State(d[..], used[..]), slicing, next, rest, goal)
  {
    ghost var st := State(d[..], used[..]);
    next, rest := t + 1, k - 1;
    var u, best := ParallelSelect(d, used, slicing[t]);
    stop := u == -1 || best == INF;
    if stop {
      RunParStop(adj, st, slicing, t, k);
    } else {
      RunParAdvance(adj, st, slicing, t, k, u);
      Settle(adj, d, used, u);
    }
  }

  /** `dijkstra_parallel` serialised: round t selects with slicing[t], then relaxes as the
      sequential engine does. */
  method DijkstraPar(adj: seq<seq<Arc>>, source: int, slicing: seq<seq<seq<int>>>) returns (dist: seq<int>)
    requires WellFormed(adj) && 0 <= source < |adj|
    requires |slicing| >= |adj| && (forall r :: 0 <= r < |slicing| ==> Covers(slicing[r], |adj|))
    ensures dist == DijkstraParallel(adj, source, slicing)
  {
    var n := |adj|;
    var d, used := Initial(n, source);
    ghost var goal := RunPar(adj, State(d[..], used[..]), slicing, 0, n);
    ghost var left: nat := n;
    var it := 0;
    while it < n
      invariant 0 <= it <= n && it + left == n && d.Length == n && used.Length == n
      invariant EndsAt(adj, State(d[..], used[..]), slicing, it, left, goal)
    {
      var stop;
      stop, it, left := ParallelRound(adj, d, used, slicing, it, left, goal);
      if stop {
        break;
      }
    }
    dist := d[..];
  }
}
