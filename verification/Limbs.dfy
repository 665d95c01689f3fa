/** Positional notation: the number that a sequence of digits stands for, least digit first. */
module Limbs {
  import opened Arith

  function Pow(b: nat, n: nat): (r: nat)
    ensures b > 0 ==> r > 0
  {
    if n == 0 then 1 else Pow(b, n - 1) * b
  }

  function Val(s: seq<int>, b: nat): int {
    if s == [] then 0 else Val(s[..|s| - 1], b) + s[|s| - 1] * Pow(b, |s| - 1)
  }

  ghost predicate Digits(s: seq<int>, b: nat) {
    forall i :: 0 <= i < |s| ==> 0 <= s[i] < b
  }

  lemma {:induction false} PowAdd(b: nat, m: nat, n: nat)
    ensures Pow(b, m + n) == Pow(b, m) * Pow(b, n)
  {
    if n != 0 {
      PowAdd(b, m, n - 1);
      MulAssoc(Pow(b, m), Pow(b, n - 1), b);
    }
  }

  lemma {:induction false} PowMonotone(b: nat, m: nat, n: nat)
    requires m <= n && b > 0
    ensures Pow(b, m) <= Pow(b, n)
  {
    if m < n {
      PowMonotone(b, m, n - 1);
      MulOrder(1, b, Pow(b, n - 1));
    }
  }

  /** The value grows digit by digit. */
  lemma ValStep(s: seq<int>, i: nat, b: nat)
    requires i < |s|
    ensures Val(s[..i + 1], b) == Val(s[..i], b) + s[i] * Pow(b, i)
  {
    assert s[..i + 1][..i] == s[..i];
  }

  /** One column of a sum or difference in base b, scaled to its place. */
  lemma Column(p: int, x: int, y: int, carry: int, lo: int, next: int, b: nat)
    requires lo + next * b == x + y + carry
    ensures lo * p + next * (p * b) == x * p + y * p + carry * p
  {
    MulDist(lo, next * b, p);
    MulDist(x + y, carry, p);
    MulDist(x, y, p);
    MulAssoc(next, b, p);
    MulCommutes(b, p);
  }

  lemma {:induction false} ValBound(s: seq<int>, b: nat)
    requires Digits(s, b) && b > 0
    ensures 0 <= Val(s, b) < Pow(b, |s|)
  {
    if s != [] {
      var n := |s| - 1;
      ValBound(s[..n], b);
      MulOrder(s[n], b - 1, Pow(b, n));
      MulDist(b, 1, Pow(b, n));
      MulOrder(0, s[n], Pow(b, n));
    }
  }

  lemma {:induction false} ValConcat(s: seq<int>, t: seq<int>, b: nat)
    ensures Val(s + t, b) == Val(s, b) + Val(t, b) * Pow(b, |s|)
  {
    if t == [] {
      assert s + t == s;
    } else {
      var n := |t| - 1;
      ValConcat(s, t[..n], b);
      assert (s + t)[..|s| + n] == s + t[..n];
      PowAdd(b, n, |s|);
      MulAssoc(t[n], Pow(b, n), Pow(b, |s|));
      MulDist(Val(t[..n], b), t[n] * Pow(b, n), Pow(b, |s|));
    }
  }

  lemma ValOne(x: int, b: nat)
    ensures Val([x], b) == x
  {
    assert [x][..0] == [];
  }

  /** The least digit split off. */
  lemma ValCons(s: seq<int>, b: nat)
    requires s != []
    ensures Val(s, b) == s[0] + Val(s[1..], b) * b
  {
    assert s == [s[0]] + s[1..];
    ValConcat([s[0]], s[1..], b);
    ValOne(s[0], b);
    assert Pow(b, 1) == Pow(b, 0) * b == b;
  }

  lemma {:induction false} ValZero(s: seq<int>, b: nat)
    requires forall i :: 0 <= i < |s| ==> s[i] == 0
    ensures Val(s, b) == 0
  {
    if s != [] { ValZero(s[..|s| - 1], b); }
  }

  /** The order of two numbers is decided by the highest digit in which they differ. */
  lemma ValOrder(s: seq<int>, t: seq<int>, i: nat, b: nat)
    requires |s| == |t| && i < |s| && Digits(s, b) && Digits(t, b)
    requires s[i + 1..] == t[i + 1..] && s[i] < t[i]
    ensures Val(s, b) < Val(t, b)
  {
    hide Val, Pow;
    var p := Pow(b, i);
    assert s == s[..i + 1] + s[i + 1..] && t == t[..i + 1] + t[i + 1..];
    ValConcat(s[..i + 1], s[i + 1..], b);
    ValConcat(t[..i + 1], t[i + 1..], b);
    ValStep(s, i, b);
    ValStep(t, i, b);
    ValBound(s[..i], b);
    ValBound(t[..i], b);
    MulOrder(s[i] + 1, t[i], p);
    MulDist(s[i], 1, p);
  }
}
