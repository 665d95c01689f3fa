/**
 * Triangular probing over a power-of-two table (src/map.c).
 *
 * Bucket t of the sequence of a hash h is h + 1 + 2 + ... + t, modulo the table size.
 */
module Probing {
  import opened Arith
  import opened Bits

  function Tri(t: nat): nat {
    t * (t + 1) / 2
  }

  function Probe(h: nat, t: nat, n: nat): (b: nat)
    requires n > 0
    ensures b < n
  {
    (h + Tri(t)) % n
  }

  lemma TriTwice(t: nat)
    ensures 2 * Tri(t) == t * (t + 1)
  {
    var half := if t % 2 == 0 then t / 2 else (t + 1) / 2;
    if t % 2 == 0 {
      MulAssoc(2, half, t + 1);
      DivModUnique(t * (t + 1), half * (t + 1), 0, 2);
    } else {
      MulAssoc(t, half, 2);
      DivModUnique(t * (t + 1), t * half, 0, 2);
    }
  }

  /** One step of the source's loop: i = (i + ++step) & mask. */
  lemma ProbeStep(h: nat, t: nat, n: nat)
    requires n > 0
    ensures Probe(h, t + 1, n) == (Probe(h, t, n) + t + 1) % n
  {
    TriTwice(t);
    TriTwice(t + 1);
    assert Tri(t + 1) == Tri(t) + t + 1 by { assert (t + 1) * (t + 2) == t * (t + 1) + 2 * (t + 1); }
    var a := h + Tri(t);
    ModAdd(a % n + t + 1, a / n, n);
    assert a + t + 1 == (a % n + t + 1) + a / n * n;
  }

  lemma OddTimesOdd(x: int, y: int)
    requires x % 2 == 1 && y % 2 == 1
    ensures x * y % 2 == 1
  {
    var a, b := x / 2, y / 2;
    var p := a * y;
    MulDist(2 * a, 1, y);
    MulAssoc(2, a, y);
    DivModUnique(x * y, p + b, 1, 2);
  }

  lemma {:induction false} OddFactor(x: int, y: int, q: int, k: nat)
    requires x % 2 == 1 && x * y == q * Pow2(k)
    ensures y % Pow2(k) == 0
    decreases k
  {
    if k != 0 {
      var p, z := Pow2(k - 1), y / 2;
      MulAssoc(q, 2, p);
      MulAssoc(2, q, p);
      assert x * y == 2 * (q * p);
      if y % 2 == 1 { OddTimesOdd(x, y); }
      assert x * y == 2 * (x * z) by {
        assert y == z * 2;
        MulAssoc(x, z, 2);
      }
      OddFactor(x, z, q, k - 1);
      assert z == z / p * p;
      MulAssoc(z / p, p, 2);
      DivModUnique(y, z / p, 0, Pow2(k));
    }
  }

  lemma NoOddFactor(x: int, y: int, q: int, k: nat)
    requires x % 2 == 1 && 0 < y < Pow2(k)
    ensures x * y != q * Pow2(k)
  {
    if x * y == q * Pow2(k) {
      OddFactor(x, y, q, k);
      DivModUnique(y, 0, y, Pow2(k));
    }
  }

  lemma SquareDifference(s: nat, t: nat)
    ensures (t - s) * (t + s + 1) == t * (t + 1) - s * (s + 1)
  {
    MulDist(t, s, t + s + 1);
  }

  lemma MeetingPoint(h: nat, s: nat, t: nat, n: nat) returns (q: int)
    requires n > 0 && Probe(h, s, n) == Probe(h, t, n)
    ensures (t - s) * (t + s + 1) == q * (2 * n)
  {
    q := ModEqual(h + Tri(t), h + Tri(s), n);
    TriTwice(s);
    TriTwice(t);
    SquareDifference(s, t);
    MulAssoc(q, 2, n);
    MulAssoc(2, q, n);
  }

  lemma NoSmallFactors(x: int, y: int, q: int, k: nat)
    requires 0 < x < Pow2(k) && 0 < y < Pow2(k) && (x + y) % 2 == 1
    ensures x * y != q * Pow2(k)
  {
    hide *;
    MulCommutes(x, y);
    if x % 2 == 1 {
      NoOddFactor(x, y, q, k);
    } else {
      NoOddFactor(y, x, q, k);
    }
  }

  /** The first n buckets of a probe sequence are pairwise different. */
  lemma ProbeInjective(h: nat, s: nat, t: nat, k: nat)
    requires s < t < Pow2(k)
    ensures Probe(h, s, Pow2(k)) != Probe(h, t, Pow2(k))
  {
    hide Probe, Tri;
    if Probe(h, s, Pow2(k)) == Probe(h, t, Pow2(k)) {
      var q := MeetingPoint(h, s, t, Pow2(k));
      NoSmallFactors(t - s, t + s + 1, q, k + 1);
    }
  }

  ghost function Visited(h: nat, t: nat, n: nat): set<int>
    requires n > 0
  {
    set s | 0 <= s < t :: Probe(h, s, n)
  }

  lemma {:induction false} VisitedSize(h: nat, t: nat, k: nat)
    requires t <= Pow2(k)
    ensures |Visited(h, t, Pow2(k))| == t
  {
    var n := Pow2(k);
    if t != 0 {
      VisitedSize(h, t - 1, k);
      forall s | 0 <= s < t - 1 ensures Probe(h, s, n) != Probe(h, t - 1, n) {
        ProbeInjective(h, s, t - 1, k);
      }
      assert Visited(h, t, n) == Visited(h, t - 1, n) + {Probe(h, t - 1, n)};
    }
  }

  ghost function Range(n: nat): (r: set<int>)
    ensures |r| == n && forall b :: b in r <==> 0 <= b < n
  {
    if n == 0 then {} else Range(n - 1) + {n - 1}
  }

  lemma SubsetOfSameSize<T>(a: set<T>, b: set<T>)
    requires a <= b && |a| == |b|
    ensures a == b
  {
    assert b == a + (b - a);
  }

  /** n probes visit every bucket. */
  lemma ProbeSurjective(h: nat, b: nat, k: nat)
    requires b < Pow2(k)
    ensures exists t :: 0 <= t < Pow2(k) && Probe(h, t, Pow2(k)) == b
  {
    var n := Pow2(k);
    VisitedSize(h, n, k);
    SubsetOfSameSize(Visited(h, n, n), Range(n));
    assert b in Visited(h, n, n);
  }

  /** The position of a bucket in a probe sequence. */
  ghost function Position(h: nat, b: nat, k: nat): (t: nat)
    requires b < Pow2(k)
    ensures t < Pow2(k) && Probe(h, t, Pow2(k)) == b
  {
    ProbeSurjective(h, b, k);
    var t :| 0 <= t < Pow2(k) && Probe(h, t, Pow2(k)) == b;
    t
  }

  lemma PositionUnique(h: nat, t: nat, k: nat)
    requires t < Pow2(k)
    ensures Position(h, Probe(h, t, Pow2(k)), k) == t
  {
    var p := Position(h, Probe(h, t, Pow2(k)), k);
    if p < t { ProbeInjective(h, p, t, k); }
    if t < p { ProbeInjective(h, t, p, k); }
  }

  /** A probe sequence is back at its first bucket after 2n - 1 steps, and not within n. */
  lemma ProbeReturns(h: nat, t: nat, k: nat)
    requires 0 < t
    ensures t < Pow2(k) ==> Probe(h, t, Pow2(k)) != Probe(h, 0, Pow2(k))
    ensures t == 2 * Pow2(k) - 1 ==> Probe(h, t, Pow2(k)) == Probe(h, 0, Pow2(k))
  {
    var n := Pow2(k);
    if t < n { ProbeInjective(h, 0, t, k); }
    if t == 2 * n - 1 {
      TriTwice(t);
      assert t * (t + 1) == 2 * (t * n);
      ModAdd(h, t, n);
    }
  }
}
