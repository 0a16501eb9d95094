// Bellman-Ford over an edge list: the loader's filter, the sequential engine
// with its early exit, the per-edge protocol of the parallel engine run under
// an explicit edge schedule, and the post-hoc negative-cycle scan.

module BellmanFord {
  import opened Graph

  /** "Unreached". The Floyd-Warshall engine uses a different sentinel. */
  const INF: int := 1_000_000_000_000_000_000

  // ---------------------------------------------------------------------------
  // Loader

  /** The filter step of `load_graph` over already-parsed triples: push every in-range edge, then recount m. */
  method LoadGraph(triples: seq<Edge>, n: int) returns (edges: seq<Edge>, m: int)
    ensures edges == Filter(triples, n)
    ensures m == |edges| && m <= |triples|
    ensures AllInRange(edges, n)
  {
    edges := [];
    var i := 0;
    while i < |triples|
      invariant 0 <= i <= |triples|
      invariant edges == Filter(triples[..i], n)
    {
      assert triples[..i + 1][..i] == triples[..i];
      var e := triples[i];
      if InRange(e, n) {
        edges := edges + [e];
      }
      i := i + 1;
    }
    assert triples[..i] == triples;
    m := |edges|;
  }

  // ---------------------------------------------------------------------------
  // Specification of one relaxation, one round, and the round loop

  /** The initial vector: INF everywhere, 0 at the source. */
  function Init(n: nat, source: nat): (d: seq<int>)
    requires source < n
    ensures |d| == n && d[source] == 0
    ensures forall i :: 0 <= i < n && i != source ==> d[i] == INF
  {
    seq(n, i => if i == source then 0 else INF)
  }

  /** Edge e can lower d: its tail is reached and going through it is strictly shorter. */
  predicate Improves(d: seq<int>, e: Edge)
    requires InRange(e, |d|)
  {
    d[e.u] != INF && d[e.u] + e.w < d[e.v]
  }

  /** Relaxing one edge: lowers entry v to d[u] + w when that improves it, and changes nothing else. */
  function Relax(d: seq<int>, e: Edge): (r: seq<int>)
    requires InRange(e, |d|)
    ensures Below(r, d)
    ensures forall i :: 0 <= i < |d| && i != e.v ==> r[i] == d[i]
    ensures r != d <==> Improves(d, e)
    ensures Improves(d, e) ==> r[e.v] == d[e.u] + e.w < d[e.v]
  {
    if Improves(d, e) then d[e.v := d[e.u] + e.w] else d
  }

  /** One round: every edge of the list relaxed once, in list order. */
  function Pass(d: seq<int>, edges: seq<Edge>): (r: seq<int>)
    requires AllInRange(edges, |d|)
    ensures Below(r, d)
  {
    if edges == [] then d
    else Relax(Pass(d, edges[..|edges| - 1]), edges[|edges| - 1])
  }

  /** Some edge can still lower d: what `has_negative_cycle` reports. It holds exactly when
      relaxing one of the edges on its own would change d. */
  predicate Relaxable(edges: seq<Edge>, d: seq<int>): (b: bool)
    requires AllInRange(edges, |d|)
    ensures b <==> exists i :: 0 <= i < |edges| && Relax(d, edges[i]) != d
  {
    exists i :: 0 <= i < |edges| && Improves(d, edges[i])
  }

  /** At most k rounds, stopping after the first round that changes nothing. */
  function Rounds(d: seq<int>, edges: seq<Edge>, k: nat): (r: seq<int>)
    requires AllInRange(edges, |d|)
    ensures Below(r, d)
    decreases k
  {
    if k == 0 then d
    else
      var d' := Pass(d, edges);
      if d' == d then d
      else
        var r := Rounds(d', edges, k - 1);
        BelowTrans(r, d', d);
        r
  }

  /** Exactly k rounds, with no early exit. */
  function Passes(d: seq<int>, edges: seq<Edge>, k: nat): (r: seq<int>)
    requires AllInRange(edges, |d|)
    ensures Below(r, d)
    decreases k
  {
    if k == 0 then d
    else
      var d' := Pass(d, edges);
      var r := Passes(d', edges, k - 1);
      BelowTrans(r, d', d);
      r
  }

  /** The input contract of both engines. */
  predicate ValidInput(edges: seq<Edge>, n: int, source: int)
  {
    n >= 1 && 0 <= source < n && AllInRange(edges, n)
  }

  /** What `bellman_ford_seq` returns: up to n - 1 rounds from the initial vector. */
  function BellmanFord(edges: seq<Edge>, n: int, source: int): (r: seq<int>)
    requires ValidInput(edges, n, source)
    ensures Below(r, Init(n, source))
  {
    Rounds(Init(n, source), edges, n - 1)
  }

  // ---------------------------------------------------------------------------
  // Properties of the specification

  /** The result has n entries, none above INF, and the source entry is at most 0. */
  lemma BellmanFordBounds(edges: seq<Edge>, n: int, source: int)
    requires ValidInput(edges, n, source)
    ensures var r := BellmanFord(edges, n, source);
      |r| == n && r[source] <= 0 && forall i :: 0 <= i < n ==> r[i] <= INF
  {
    var r := BellmanFord(edges, n, source);
    forall i | 0 <= i < n ensures r[i] <= INF {
      assert r[i] <= Init(n, source)[i];
    }
  }

  /** With a single vertex no round runs and the result is [0]. */
  lemma SingleVertex(edges: seq<Edge>)
    requires AllInRange(edges, 1)
    ensures BellmanFord(edges, 1, 0) == [0]
  {
  }

  /** A round changes nothing exactly when no edge can lower the vector. */
  lemma {:induction false} PassUnchangedIff(d: seq<int>, edges: seq<Edge>)
    requires AllInRange(edges, |d|)
    ensures Pass(d, edges) == d <==> !Relaxable(edges, d)
  {
    if edges != [] {
      var init := edges[..|edges| - 1];
      var last := edges[|edges| - 1];
      var p := Pass(d, init);
      PassUnchangedIff(d, init);
      if Pass(d, edges) == d {
        // Relax(p, last) == d with Relax(p, last) <= p <= d forces p == d.
        forall i | 0 <= i < |d| ensures p[i] == d[i] {
          assert Relax(p, last)[i] <= p[i] <= d[i];
        }
        assert p == d;
        assert !Improves(d, last);
        forall i | 0 <= i < |edges| ensures !Improves(d, edges[i]) {
          if i < |edges| - 1 {
            assert edges[i] == init[i];
          }
        }
      }
    }
  }

  /** The early exit is sound: either the result is a fixpoint of relaxation, or all k rounds ran. */
  lemma {:induction false} RoundsOutcome(d: seq<int>, edges: seq<Edge>, k: nat)
    requires AllInRange(edges, |d|)
    ensures var r := Rounds(d, edges, k);
      !Relaxable(edges, r) || r == Passes(d, edges, k)
    decreases k
  {
    if k > 0 {
      var d' := Pass(d, edges);
      if d' == d {
        PassUnchangedIff(d, edges);
      } else {
        RoundsOutcome(d', edges, k - 1);
      }
    }
  }

  /** When a round changes nothing the vector is a fixpoint: no edge has d[u] + w < d[v] for a
      finite d[u], so the negative-cycle scan reports nothing; and a fixpoint is never changed again. */
  lemma {:induction false} StableStaysPut(d: seq<int>, edges: seq<Edge>, k: nat)
    requires AllInRange(edges, |d|)
    requires !Relaxable(edges, d)
    ensures Rounds(d, edges, k) == d && Passes(d, edges, k) == d
    decreases k
  {
    PassUnchangedIff(d, edges);
    if k > 0 {
      StableStaysPut(d, edges, k - 1);
    }
  }

  // ---------------------------------------------------------------------------
  // The engines

  /** One more edge of a round: the prefix relaxation extends by that edge. */
  lemma PassStep(start: seq<int>, edges: seq<Edge>, i: nat)
    requires AllInRange(edges, |start|) && i < |edges|
    ensures AllInRange(edges[..i], |start|) && AllInRange(edges[..i + 1], |start|)
    ensures Pass(start, edges[..i + 1]) == Relax(Pass(start, edges[..i]), edges[i])
  {
    var p := edges[..i + 1];
    assert |p| == i + 1;
    assert p[..i] == edges[..i];
    assert p[i] == edges[i];
    assert AllInRange(p, |start|);
    assert Pass(start, p) == Relax(Pass(start, p[..i]), p[i]);
  }

  /** A round has changed something after one more edge exactly when it had already or that
      edge improves. */
  lemma FlagStep(start: seq<int>, d: seq<int>, e: Edge)
    requires Below(d, start) && InRange(e, |d|)
    ensures Relax(d, e) != start <==> d != start || Improves(d, e)
  {
    if Improves(d, e) {
      assert Relax(d, e)[e.v] < d[e.v] <= start[e.v];
    }
  }

  /** The body of the edge loop of `bellman_ford_seq`: lower dist[v] when dist[u] is finite and
      dist[u] + w is smaller. */
  method RelaxEdge(d: array<int>, e: Edge) returns (improved: bool)
    requires InRange(e, d.Length)
    modifies d
    ensures d[..] == Relax(old(d[..]), e)
    ensures improved <==> Improves(old(d[..]), e)
  {
    improved := false;
    if d[e.u] != INF {
      var cand := d[e.u] + e.w;
      if cand < d[e.v] {
        d[e.v] := cand;
        improved := true;
      }
    }
  }

  /** One round of `bellman_ford_seq`: relax every edge in list order; `changed` records a write. */
  method RelaxRound(d: array<int>, edges: seq<Edge>) returns (changed: bool)
    requires AllInRange(edges, d.Length)
    modifies d
    ensures d[..] == Pass(old(d[..]), edges)
    ensures changed <==> d[..] != old(d[..])
  {
    changed := false;
    ghost var start := d[..];
    var i := 0;
    while i < |edges|
      invariant 0 <= i <= |edges|
      invariant d[..] == Pass(start, edges[..i])
      invariant changed <==> d[..] != start
    {
      PassStep(start, edges, i);
      FlagStep(start, d[..], edges[i]);
      var improved := RelaxEdge(d, edges[i]);
      changed := changed || improved;
      i := i + 1;
    }
    assert edges[..i] == edges;
  }

  /** `bellman_ford_seq`: up to n - 1 rounds, leaving the loop after a round that changed nothing. */
  method BellmanFordSeq(edges: seq<Edge>, n: int, source: int) returns (dist: seq<int>)
    requires ValidInput(edges, n, source)
    ensures dist == BellmanFord(edges, n, source)
  {
    var d := new int[n](_ => INF);
    d[source] := 0;
    assert d[..] == Init(n, source);
    var it := 0;
    while it < n - 1
      invariant 0 <= it <= n - 1 && d.Length == n
      invariant Rounds(d[..], edges, n - 1 - it) == BellmanFord(edges, n, source)
    {
      var changed := RelaxRound(d, edges);
      if !changed {
        break;
      }
      it := it + 1;
    }
    dist := d[..];
  }

  /** `has_negative_cycle`: scan the edges and report the first one that could still lower `dist`. */
  method HasNegativeCycle(edges: seq<Edge>, dist: seq<int>) returns (found: bool)
    requires AllInRange(edges, |dist|)
    ensures found <==> Relaxable(edges, dist)
  {
    var i := 0;
    while i < |edges|
      invariant 0 <= i <= |edges|
      invariant forall j :: 0 <= j < i ==> !Improves(dist, edges[j])
    {
      var e := edges[i];
      if dist[e.u] != INF {
        var cand := dist[e.u] + e.w;
        if cand < dist[e.v] {
          return true;
        }
      }
      i := i + 1;
    }
    return false;
  }

  // ---------------------------------------------------------------------------
  // The parallel engine, with its schedule as an input

  /** order lists every index of [0, m) once: the order in which a round's edges take the lock. */
  predicate IsOrder(order: seq<int>, m: int)
  {
    |order| == m
    && (forall i :: 0 <= i < |order| ==> 0 <= order[i] < m)
    && (forall k :: 0 <= k < m ==> k in order)
  }

  /** The edges in the order a schedule relaxes them. */
  function Permute(edges: seq<Edge>, order: seq<int>): (r: seq<Edge>)
    requires forall i :: 0 <= i < |order| ==> 0 <= order[i] < |edges|
    ensures |r| == |order| && forall i :: 0 <= i < |order| ==> r[i] == edges[order[i]]
  {
    seq(|order|, i requires 0 <= i < |order| => edges[order[i]])
  }

  /** A reordered edge list can lower d exactly when the original can. */
  lemma PermuteRelaxable(edges: seq<Edge>, order: seq<int>, d: seq<int>)
    requires IsOrder(order, |edges|) && AllInRange(edges, |d|)
    ensures AllInRange(Permute(edges, order), |d|)
    ensures Relaxable(Permute(edges, order), d) <==> Relaxable(edges, d)
  {
    var p := Permute(edges, order);
    if Relaxable(edges, d) {
      var i :| 0 <= i < |edges| && Improves(d, edges[i]);
      assert i in order;
      var j :| 0 <= j < |order| && order[j] == i;
      assert p[j] == edges[i];
    }
  }

  /** Every round of the schedule takes each edge once. */
  predicate Scheduled(schedule: seq<seq<int>>, m: int)
  {
    forall t :: 0 <= t < |schedule| ==> IsOrder(schedule[t], m)
  }

  /** Up to k rounds of the parallel engine from round t on; round t relaxes the edges in the
      order schedule[t]. */
  function ParRounds(d: seq<int>, edges: seq<Edge>, schedule: seq<seq<int>>, t: nat, k: nat): (r: seq<int>)
    requires AllInRange(edges, |d|)
    requires t + k <= |schedule| && Scheduled(schedule, |edges|)
    ensures Below(r, d)
    decreases k
  {
    if k == 0 then d
    else
      assert IsOrder(schedule[t], |edges|);
      var d' := Pass(d, Permute(edges, schedule[t]));
      if d' == d then d
      else
        var r := ParRounds(d', edges, schedule, t + 1, k - 1);
        BelowTrans(r, d', d);
        r
  }

  /** Exactly k rounds of the schedule from round t on, with no early exit. */
  function ParPasses(d: seq<int>, edges: seq<Edge>, schedule: seq<seq<int>>, t: nat, k: nat): (r: seq<int>)
    requires AllInRange(edges, |d|)
    requires t + k <= |schedule| && Scheduled(schedule, |edges|)
    ensures Below(r, d)
    decreases k
  {
    if k == 0 then d
    else
      assert IsOrder(schedule[t], |edges|);
      var d' := Pass(d, Permute(edges, schedule[t]));
      var r := ParPasses(d', edges, schedule, t + 1, k - 1);
      BelowTrans(r, d', d);
      r
  }

  /** The parallel engine's early exit is sound for every schedule: its result is a fixpoint of
      relaxation over the original edge list, or all k rounds ran and the result differs from d. */
  lemma {:induction false} ParRoundsOutcome(d: seq<int>, edges: seq<Edge>, schedule: seq<seq<int>>, t: nat, k: nat)
    requires AllInRange(edges, |d|)
    requires t + k <= |schedule| && Scheduled(schedule, |edges|)
    ensures var r := ParRounds(d, edges, schedule, t, k);
      !Relaxable(edges, r) || (r == ParPasses(d, edges, schedule, t, k) && (k > 0 ==> r != d))
    decreases k
  {
    if k > 0 {
      var p := Permute(edges, schedule[t]);
      PermuteRelaxable(edges, schedule[t], d);
      var d' := Pass(d, p);
      if d' == d {
        PassUnchangedIff(d, p);
      } else {
        ParRoundsOutcome(d', edges, schedule, t + 1, k - 1);
        var r := ParRounds(d', edges, schedule, t + 1, k - 1);
        BelowSqueeze(r, d', d);
      }
    }
  }

  /** A vector the sequential engine would leave alone is left alone by every schedule. */
  lemma ParStableStaysPut(d: seq<int>, edges: seq<Edge>, schedule: seq<seq<int>>, t: nat, k: nat)
    requires AllInRange(edges, |d|) && !Relaxable(edges, d)
    requires t + k <= |schedule| && Scheduled(schedule, |edges|)
    ensures ParRounds(d, edges, schedule, t, k) == d
  {
    if k > 0 {
      PermuteRelaxable(edges, schedule[t], d);
      PassUnchangedIff(d, Permute(edges, schedule[t]));
    }
  }

  /** What `bellman_ford_par` returns for a given schedule. */
  function BellmanFordParallel(edges: seq<Edge>, n: int, source: int, schedule: seq<seq<int>>): (r: seq<int>)
    requires ValidInput(edges, n, source)
    requires |schedule| >= n - 1 && Scheduled(schedule, |edges|)
    ensures Below(r, Init(n, source))
  {
    ParRounds(Init(n, source), edges, schedule, 0, n - 1)
  }

  /** The per-edge protocol of the parallel round. `seenV` is the value of dist[v] the optimistic
      test read without the lock; writes to dist are decreasing, so it is at least the current
      value. Under the lock the candidate is compared again with the current dist[v]. */
  method LockedRelax(dist: array<int>, e: Edge, seenV: int) returns (wrote: bool)
    requires InRange(e, dist.Length)
    requires dist[e.v] <= seenV
    modifies dist
    ensures dist[..] == Relax(old(dist[..]), e)
    ensures wrote <==> Improves(old(dist[..]), e)
  {
    var du := dist[e.u];
    if du == INF {
      return false;
    }
    var cand := du + e.w;
    if cand >= seenV {
      return false;
    }
    // lock dist[v]
    wrote := false;
    if cand < dist[e.v] {
      dist[e.v] := cand;
      wrote := true;
    }
    // unlock dist[v]
  }

  /** One round of `bellman_ford_par`: the edges take their turn in the order `order`, each
      running the locked protocol; `updated` is the OR of what they wrote. */
  method ParallelRound(d: array<int>, edges: seq<Edge>, order: seq<int>) returns (updated: bool)
    requires AllInRange(edges, d.Length) && IsOrder(order, |edges|)
    modifies d
    ensures d[..] == Pass(old(d[..]), Permute(edges, order))
    ensures updated <==> d[..] != old(d[..])
  {
    updated := false;
    ghost var start := d[..];
    ghost var es := Permute(edges, order);
    var i := 0;
    while i < |order|
      invariant 0 <= i <= |order|
      invariant d[..] == Pass(start, es[..i])
      invariant updated <==> d[..] != start
    {
      PassStep(start, es, i);
      var e := edges[order[i]];
      assert e == es[i];
      FlagStep(start, d[..], e);
      var wrote := LockedRelax(d, e, d[e.v]);
      updated := updated || wrote;
      i := i + 1;
    }
    assert es[..i] == es;
  }

  /** The rounds from t on, with k of them left, end in goal. */
  ghost predicate ParEndsAt(d: seq<int>, edges: seq<Edge>, schedule: seq<seq<int>>, t: nat, k: nat, goal: seq<int>)
    requires AllInRange(edges, |d|) && t + k <= |schedule| && Scheduled(schedule, |edges|)
  {
    ParRounds(d, edges, schedule, t, k) == goal
  }

  /** One more round: it either leaves d alone, which is then the result, or moves on to round
      t + 1 with one round fewer left. */
  lemma ParRoundsAdvance(d: seq<int>, d': seq<int>, edges: seq<Edge>, schedule: seq<seq<int>>, t: nat, k: nat, goal: seq<int>)
    requires AllInRange(edges, |d|) && k > 0 && t + k <= |schedule| && Scheduled(schedule, |edges|)
    requires ParEndsAt(d, edges, schedule, t, k, goal)
    requires d' == Pass(d, Permute(edges, schedule[t]))
    ensures d' == d ==> d == goal
    ensures d' != d ==> ParEndsAt(d', edges, schedule, t + 1, k - 1, goal)
  {
  }

  /** Round t of `bellman_ford_par` with k rounds left of a run that ends in goal: `stop` when
      the round changed nothing, and then dist already is the result; otherwise the run goes on
      from round `next` = t + 1 with `rest` = k - 1 rounds left. */
  method ParallelStep(d: array<int>, edges: seq<Edge>, schedule: seq<seq<int>>, t: nat, ghost k: nat, ghost goal: seq<int>)
    returns (stop: bool, next: nat, ghost rest: nat)
    requires AllInRange(edges, d.Length) && k > 0 && t + k <= |schedule| && Scheduled(schedule, |edges|)
    requires ParEndsAt(d[..], edges, schedule, t, k, goal)
    modifies d
    ensures stop ==> d[..] == goal
    ensures next == t + 1 && rest == k - 1
    ensures !stop ==> ParEndsAt(d[..], edges, schedule, next, rest, goal)
  {
    ghost var before := d[..];
    next, rest := t + 1, k - 1;
    var updated := ParallelRound(d, edges, schedule[t]);
    stop := !updated;
    ParRoundsAdvance(before, d[..], edges, schedule, t, k, goal);
  }

  /** `bellman_ford_par` serialised: round t follows the schedule's order schedule[t]. */
  method BellmanFordPar(edges: seq<Edge>, n: int, source: int, schedule: seq<seq<int>>)
    returns (dist: seq<int>)
    requires ValidInput(edges, n, source)
    requires |schedule| >= n - 1 && Scheduled(schedule, |edges|)
    ensures dist == BellmanFordParallel(edges, n, source, schedule)
  {
    var d := new int[n](_ => INF);
    d[source] := 0;
    assert d[..] == Init(n, source);
    ghost var goal := BellmanFordParallel(edges, n, source, schedule);
    var it := 0;
    ghost var left := n - 1;
    while it < n - 1
      invariant 0 <= it <= n - 1 && it + left == n - 1 && d.Length == n
      invariant ParEndsAt(d[..], edges, schedule, it, left, goal)
    {
      var stop;
      stop, it, left := ParallelStep(d, edges, schedule, it, left, goal);
      if stop {
        break;
      }
    }
    dist := d[..];
  }
}
