// Edge triples as the three loaders read them, and the range filter they share.

module Graph {

  /** The C `int` the loaders read vertex ids and weights into. */
  type Int32 = x: int | -0x8000_0000 <= x < 0x8000_0000

  /** One parsed edge line `u v w`: a directed edge u -> v of weight w. */
  datatype Edge = Edge(u: Int32, v: Int32, w: Int32)

  /** Both endpoints are vertices of a graph with n vertices. */
  predicate InRange(e: Edge, n: int)
  {
    0 <= e.u < n && 0 <= e.v < n
  }

  predicate AllInRange(edges: seq<Edge>, n: int)
  {
    forall i :: 0 <= i < |edges| ==> InRange(edges[i], n)
  }

  /** Distance vector d is pointwise at most e: the relation every relaxation step keeps. */
  predicate Below(d: seq<int>, e: seq<int>)
  {
    |d| == |e| && forall i {:trigger d[i], e[i]} :: 0 <= i < |d| ==> d[i] <= e[i]
  }

  /** Below is transitive. */
  lemma BelowTrans(a: seq<int>, b: seq<int>, c: seq<int>)
    requires Below(a, b) && Below(b, c)
    ensures Below(a, c)
  {
    forall i | 0 <= i < |a| ensures a[i] <= c[i] {
      assert a[i] <= b[i] <= c[i];
    }
  }

  /** A vector squeezed between two equal ones equals them. */
  lemma BelowSqueeze(a: seq<int>, b: seq<int>, c: seq<int>)
    requires Below(a, b) && Below(b, c)
    ensures a == c ==> b == c
  {
    if a == c {
      forall i | 0 <= i < |b| ensures b[i] == c[i] {
        assert a[i] <= b[i] <= c[i];
      }
    }
  }

  /** The edges a loader keeps: those with both endpoints in [0, n), in input order. */
  function Filter(triples: seq<Edge>, n: int): (kept: seq<Edge>)
    ensures |kept| <= |triples|
    ensures AllInRange(kept, n)
    ensures forall e :: e in kept <==> e in triples && InRange(e, n)
  {
    if triples == [] then []
    else
      var last := triples[|triples| - 1];
      Filter(triples[..|triples| - 1], n) + (if InRange(last, n) then [last] else [])
  }

  /** Nothing is dropped from input whose endpoints are all in range. */
  lemma {:induction false} FilterKeepsInRange(triples: seq<Edge>, n: int)
    requires AllInRange(triples, n)
    ensures Filter(triples, n) == triples
  {
    if triples != [] {
      FilterKeepsInRange(triples[..|triples| - 1], n);
      assert triples[..|triples| - 1] + [triples[|triples| - 1]] == triples;
    }
  }

  /** Filtering twice keeps what filtering once kept. */
  lemma FilterIdempotent(triples: seq<Edge>, n: int)
    ensures Filter(Filter(triples, n), n) == Filter(triples, n)
  {
    FilterKeepsInRange(Filter(triples, n), n);
  }

  /** A prefix one longer is the prefix and the next element. */
  lemma TakeNext<T>(s: seq<T>, i: nat)
    requires i < |s|
    ensures s[..i + 1] == s[..i] + [s[i]]
  {
  }

  /** The filter splits over concatenation, so it keeps the kept edges in input order. */
  lemma {:induction false} FilterAppend(a: seq<Edge>, b: seq<Edge>, n: int)
    ensures Filter(a + b, n) == Filter(a, n) + Filter(b, n)
  {
    if b == [] {
      assert a + b == a;
    } else {
      var b' := b[..|b| - 1];
      assert (a + b)[..|a + b| - 1] == a + b';
      assert (a + b)[|a + b| - 1] == b[|b| - 1];
      FilterAppend(a, b', n);
    }
  }
}
