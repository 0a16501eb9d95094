// The reachability summary printed after a single-source run: how many
// entries are finite and the largest finite one.

module Stats {

  /** Number of entries of s strictly below the sentinel. */
  function CountBelow(s: seq<int>, inf: int): (c: nat)
    ensures c <= |s|
    ensures c == |s| <==> forall i :: 0 <= i < |s| ==> s[i] < inf
    ensures c == 0 <==> forall i :: 0 <= i < |s| ==> s[i] >= inf
  {
    if s == [] then 0
    else CountBelow(s[..|s| - 1], inf) + (if s[|s| - 1] < inf then 1 else 0)
  }

  /** Largest entry strictly below the sentinel, or 0 when there is none or all are negative. */
  function MaxBelow(s: seq<int>, inf: int): (m: int)
    ensures m >= 0
    ensures forall i :: 0 <= i < |s| && s[i] < inf ==> s[i] <= m
    ensures m == 0 || exists i :: 0 <= i < |s| && s[i] < inf && s[i] == m
  {
    if s == [] then 0
    else
      var m' := MaxBelow(s[..|s| - 1], inf);
      if s[|s| - 1] < inf && s[|s| - 1] > m' then s[|s| - 1] else m'
  }

  /** The counters of `summarize`: `reached` finite entries, `maxd` the maximum of 0 and the finite entries. */
  method Summarize(dist: seq<int>, inf: int) returns (reached: int, maxd: int)
    ensures reached == CountBelow(dist, inf) && reached <= |dist|
    ensures maxd == MaxBelow(dist, inf) && maxd >= 0
  {
    reached, maxd := 0, 0;
    var i := 0;
    while i < |dist|
      invariant 0 <= i <= |dist|
      invariant reached == CountBelow(dist[..i], inf)
      invariant maxd == MaxBelow(dist[..i], inf)
    {
      assert dist[..i + 1][..i] == dist[..i];
      if dist[i] < inf {
        reached := reached + 1;
        if dist[i] > maxd {
          maxd := dist[i];
        }
      }
      i := i + 1;
    }
    assert dist[..i] == dist;
  }

  /** Counting splits over concatenation. */
  lemma {:induction false} CountBelowAppend(a: seq<int>, b: seq<int>, inf: int)
    ensures CountBelow(a + b, inf) == CountBelow(a, inf) + CountBelow(b, inf)
  {
    if b != [] {
      assert (a + b)[..|a + b| - 1] == a + b[..|b| - 1];
      CountBelowAppend(a, b[..|b| - 1], inf);
    } else {
      assert a + b == a;
    }
  }
}
