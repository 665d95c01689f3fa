/** Modular inversion by the binary Euclidean algorithm (src/ecc.c). */
module ModInv {
  import opened Arith
  import opened Bits
  import opened Vli

  // ----- Divisibility

  ghost predicate Common(d: nat, x: nat, y: nat) {
    d > 0 && Mod(x, d) == 0 && Mod(y, d) == 0
  }

  ghost predicate IsGcd(g: nat, x: nat, y: nat) {
    Common(g, x, y) && forall d: nat :: Common(d, x, y) ==> Mod(g, d) == 0
  }

  lemma Multiple(k: int, d: nat)
    requires d > 0
    ensures Mod(k * d, d) == 0
  {
    DivModUnique(k * d, k, 0, d);
  }

  lemma Factor(x: int, d: nat) returns (k: int)
    requires d > 0 && Mod(x, d) == 0
    ensures x == k * d
  {
    k := x / d;
  }

  lemma ModSumZero(x: int, y: int, d: nat)
    requires d > 0 && Mod(x, d) == 0 && Mod(y, d) == 0
    ensures Mod(x + y, d) == 0 && Mod(x - y, d) == 0
  {
    hide Mod;
    var j := Factor(x, d);
    var k := Factor(y, d);
    MulDist(j, k, d);
    Multiple(j + k, d);
    Multiple(j - k, d);
  }

  lemma ProductParity(k: int, d: int)
    ensures k * d % 2 == if k % 2 == 1 && d % 2 == 1 then 1 else 0
  {
    var i := k / 2;
    MulDist(2 * i, k % 2, d);
    MulAssoc(2, i, d);
    EvenPlus(i * d, if k % 2 == 1 then d else 0);
  }

  lemma EvenPlus(t: int, y: int)
    ensures (2 * t + y) % 2 == y % 2
  {
  }

  /** An odd number that divides 2 x divides x. */
  lemma OddDivides(x: int, d: nat)
    requires d > 0 && d % 2 == 1 && Mod(2 * x, d) == 0
    ensures Mod(x, d) == 0
  {
    hide Mod;
    var k := Factor(2 * x, d);
    ProductParity(k, d);
    MulAssoc(2, k / 2, d);
    Multiple(k / 2, d);
  }

  /** Halving one of two numbers, the other being odd, keeps their common divisors. */
  lemma HalveCommon(x: nat, y: nat, d: nat)
    requires y % 2 == 1
    ensures Common(d, 2 * x, y) <==> Common(d, x, y)
  {
    if d > 0 {
      if Mod(x, d) == 0 {
        ModSumZero(x, x, d);
      }
      if Mod(2 * x, d) == 0 && Mod(y, d) == 0 {
        var k := Factor(y, d);
        ProductParity(k, d);
        OddDivides(x, d);
      }
    }
  }

  lemma SubtractCommon(x: nat, y: nat, d: nat)
    requires y <= x
    ensures Common(d, x, y) <==> Common(d, x - y, y)
  {
    hide Mod;
    if Common(d, x, y) {
      ModSumZero(x, y, d);
    }
    if Common(d, x - y, y) {
      ModSumZero(x - y, y, d);
    }
  }

  lemma CommonSwap(d: nat, x: nat, y: nat)
    ensures Common(d, x, y) <==> Common(d, y, x)
  {
  }

  // ----- Congruences

  /** u x and a leave the same remainder by m. */
  ghost predicate Follows(u: int, x: int, a: int, m: nat)
    requires m > 0
  {
    Mod(u * x - a, m) == 0
  }

  lemma HalveFollows(u: int, w: int, e: int, x: int, a: int, m: nat)
    requires m > 0 && m % 2 == 1 && 2 * w == u + e * m && Follows(u, x, 2 * a, m)
    ensures Follows(w, x, a, m)
  {
    hide Mod;
    var k := Factor(u * x - 2 * a, m);
    MulAssoc(2, w, x);
    MulDist(u, e * m, x);
    MulAssoc(e, m, x);
    MulCommutes(m, x);
    MulAssoc(e, x, m);
    MulDist(k, e * x, m);
    Multiple(k + e * x, m);
    assert 2 * (w * x - a) == (k + e * x) * m;
    OddDivides(w * x - a, m);
  }

  lemma SubtractFollows(u: int, v: int, w: int, e: int, x: int, a: int, b: int, m: nat)
    requires m > 0 && w == u - v + e * m && Follows(u, x, a, m) && Follows(v, x, b, m)
    ensures Follows(w, x, a - b, m)
  {
    hide Mod;
    ModSumZero(u * x - a, v * x - b, m);
    MulDist(u - v, e * m, x);
    MulDist(u, v, x);
    MulAssoc(e, m, x);
    MulCommutes(m, x);
    MulAssoc(e, x, m);
    Multiple(e * x, m);
    ModSumZero(u * x - a - (v * x - b), e * x * m, m);
  }

  // ----- The steps

  /** Half of u modulo m: of u or u + m, whichever is even. */
  function HalveMod(u: nat, m: nat): nat {
    if u % 2 == 0 then u / 2 else (u + m) / 2
  }

  function SubtractMod(u: nat, v: nat, m: nat): nat
    requires v <= m
  {
    if u < v then u + m - v else u - v
  }

  /** Halves u, even where u + m takes 257 bits. */
  method Halve(u: array<digit>, m: array<digit>)
    requires u.Length == m.Length == 4 && u != m && V(u[..]) <= V(m[..])
    modifies u
    ensures V(u[..]) == HalveMod(old(V(u[..])), V(m[..])) <= V(m[..])
  {
    hide V, BitOr;
    var carry := 0;
    Parity(u[..]);
    FourDigits(u[..]);
    if u[0] % 2 != 0 {
      carry := Add(u, u, m);
    }
    FourDigits(u[..]);
    Rshift1(u);
    if carry != 0 {
      FourDigits(m[..]);
      TopClear(u[..]);
      ghost var was := u[..];
      u[3] := BitOr(u[3], 0x8000_0000_0000_0000);
      TopSet(was, u[..]);
    }
  }

  lemma Parity(s: seq<digit>)
    requires |s| == 4
    ensures V(s) % 2 == s[0] % 2
  {
    var k := B / 2 * s[1] as int + B2 / 2 * s[2] as int + B3 / 2 * s[3] as int;
    EvenPlus(k, s[0]);
  }

  lemma TopClear(s: seq<digit>)
    requires |s| == 4 && V(s) < B4 / 2
    ensures s[3] < 0x8000_0000_0000_0000
    ensures BitOr(s[3], 0x8000_0000_0000_0000) == s[3] + 0x8000_0000_0000_0000
  {
    hide BitOr;
    ShiftIn(s[3], 1);
  }

  lemma TopSet(s: seq<digit>, t: seq<digit>)
    requires |s| == 4 && s[3] < 0x8000_0000_0000_0000 && t == s[3 := s[3] + 0x8000_0000_0000_0000]
    ensures V(t) == V(s) + B4 / 2
  {
  }

  /** u = u - v modulo m; the sum may lose its carry, which the difference gives back. */
  method Subtract(u: array<digit>, v: array<digit>, m: array<digit>)
    requires u.Length == v.Length == m.Length == 4 && u != m && u != v
    requires V(u[..]) <= V(m[..]) && V(v[..]) <= V(m[..])
    modifies u
    ensures V(u[..]) == SubtractMod(old(V(u[..])), V(v[..]), V(m[..])) <= V(m[..])
  {
    hide V, SubtractMod;
    ghost var x, y, n := V(u[..]), V(v[..]), V(m[..]);
    FourDigits(m[..]);
    var carry := 0;
    var r := Cmp(u, v);
    if r < 0 {
      carry := Add(u, u, m);
    }
    ghost var s := V(u[..]);
    var borrow := Sub(u, u, v);
    FourDigits(u[..]);
    Wrapped(x, y, n, s, V(u[..]), carry, borrow);
  }

  /** A carry lost by the sum is the borrow of the difference. */
  lemma Wrapped(x: nat, y: nat, n: nat, s: int, w: nat, carry: int, borrow: int)
    requires x <= n < B4 && y <= n && w < B4 && 0 <= carry <= 1 && 0 <= borrow <= 1
    requires s + carry * B4 == (if x < y then x + n else x) && w - borrow * B4 == s - y
    ensures w == SubtractMod(x, y, n) <= n
  {
  }

  // ----- The algorithm

  /** What u, v, a and b have to do with the input x and the modulus m. */
  ghost predicate Inv(u: nat, v: nat, a: nat, b: nat, x: nat, m: nat)
    requires m > 0
  {
    && 0 < a && 0 < b && b % 2 + a % 2 > 0 && u < m && v < m
    && Follows(u, x, a, m) && Follows(v, x, b, m)
    && forall d: nat :: Common(d, a, b) <==> Common(d, x, m)
  }

  /** a is halved. */
  lemma StepHalve(u: nat, v: nat, a: nat, b: nat, x: nat, m: nat, w: nat, e: int)
    requires m % 2 == 1 && Inv(u, v, 2 * a, b, x, m) && w < m && 2 * w == u + e * m
    ensures Inv(w, v, a, b, x, m)
  {
    hide Follows, Common;
    HalveFollows(u, w, e, x, a, m);
    CommonHalved(a, b, x, m);
  }

  lemma CommonHalved(a: nat, b: nat, x: nat, m: nat)
    requires b % 2 == 1 && forall d: nat :: Common(d, 2 * a, b) <==> Common(d, x, m)
    ensures forall d: nat :: Common(d, a, b) <==> Common(d, x, m)
  {
    hide Common;
    forall d: nat ensures Common(d, a, b) <==> Common(d, x, m) {
      HalveCommon(a, b, d);
    }
  }

  /** b is taken from a. */
  lemma StepSubtract(u: nat, v: nat, a: nat, b: nat, x: nat, m: nat, w: nat, e: int)
    requires m > 0 && Inv(u, v, a, b, x, m) && b < a && b % 2 == 1 && w < m && w == u - v + e * m
    ensures Inv(w, v, a - b, b, x, m)
  {
    hide Follows, Common;
    SubtractFollows(u, v, w, e, x, a, b, m);
    forall d: nat ensures Common(d, a - b, b) <==> Common(d, x, m) {
      SubtractCommon(a, b, d);
    }
  }

  lemma InvSwap(u: nat, v: nat, a: nat, b: nat, x: nat, m: nat)
    requires m > 0 && Inv(u, v, a, b, x, m)
    ensures Inv(v, u, b, a, x, m)
  {
    hide Follows, Common;
    forall d: nat ensures Common(d, b, a) <==> Common(d, x, m) {
      CommonSwap(d, a, b);
    }
  }

  lemma InvStart(x: nat, m: nat)
    requires x > 0 && m > 1 && m % 2 == 1
    ensures Inv(1, 0, x, m, x, m)
  {
    assert Follows(1, x, x, m);
    Multiple(-1, m);
    assert Follows(0, x, m, m);
  }

  lemma InvEnd(u: nat, v: nat, a: nat, x: nat, m: nat)
    requires m > 0 && Inv(u, v, a, a, x, m)
    ensures IsGcd(a, x, m) && Follows(u, x, a, m) && u < m
  {
    hide Follows;
    Multiple(1, a);
    assert Common(a, a, a);
    forall d: nat | Common(d, x, m) ensures Mod(a, d) == 0 {
      assert Common(d, a, a);
    }
  }

  /** What the loop leaves in u, for any modulus. */
  function Euclid(a: nat, b: nat, u: nat, v: nat, m: nat): nat
    requires a > 0 && b > 0 && u <= m && v <= m
    decreases a + b
  {
    if a == b then u
    else if a % 2 == 0 then Euclid(a / 2, b, HalveMod(u, m), v, m)
    else if b % 2 == 0 then Euclid(a, b / 2, u, HalveMod(v, m), m)
    else if a > b then Euclid((a - b) / 2, b, HalveMod(SubtractMod(u, v, m), m), v, m)
    else Euclid(a, (b - a) / 2, u, HalveMod(SubtractMod(v, u, m), m), m)
  }

  lemma HalveIs(u: nat, m: nat) returns (e: nat)
    requires m % 2 == 1 && u < m
    ensures HalveMod(u, m) < m && 2 * HalveMod(u, m) == u + e * m
  {
    e := u % 2;
  }

  lemma SubtractIs(u: nat, v: nat, m: nat) returns (e: nat)
    requires u < m && v < m
    ensures SubtractMod(u, v, m) < m && SubtractMod(u, v, m) == u - v + e * m
  {
    e := if u < v then 1 else 0;
  }

  lemma InvHalve(u: nat, v: nat, a: nat, b: nat, x: nat, m: nat)
    requires m % 2 == 1 && Inv(u, v, a, b, x, m) && a % 2 == 0
    ensures a / 2 > 0 && Inv(HalveMod(u, m), v, a / 2, b, x, m)
  {
    hide Follows, Common, HalveMod;
    var e := HalveIs(u, m);
    StepHalve(u, v, a / 2, b, x, m, HalveMod(u, m), e);
  }

  lemma InvSubtract(u: nat, v: nat, a: nat, b: nat, x: nat, m: nat)
    requires m % 2 == 1 && Inv(u, v, a, b, x, m) && a % 2 == 1 && b % 2 == 1 && b < a
    ensures (a - b) / 2 > 0 && Inv(HalveMod(SubtractMod(u, v, m), m), v, (a - b) / 2, b, x, m)
  {
    hide Follows, Common, HalveMod, SubtractMod;
    var e := SubtractIs(u, v, m);
    StepSubtract(u, v, a, b, x, m, SubtractMod(u, v, m), e);
    InvHalve(SubtractMod(u, v, m), v, a - b, b, x, m);
  }

  /** For an odd modulus the loop ends with the gcd, and u x leaves the gcd. */
  lemma {:induction false} EuclidGcd(u: nat, v: nat, a: nat, b: nat, x: nat, m: nat) returns (g: nat)
    requires m % 2 == 1 && Inv(u, v, a, b, x, m)
    ensures var r := Euclid(a, b, u, v, m); IsGcd(g, x, m) && Follows(r, x, g, m) && r < m
    decreases a + b
  {
    hide Follows, Common, IsGcd, HalveMod, SubtractMod;
    InvSwap(u, v, a, b, x, m);
    if a == b {
      g := a;
      InvEnd(u, v, a, x, m);
    } else if a % 2 == 0 {
      InvHalve(u, v, a, b, x, m);
      g := EuclidGcd(HalveMod(u, m), v, a / 2, b, x, m);
    } else if b % 2 == 0 {
      InvHalve(v, u, b, a, x, m);
      InvSwap(HalveMod(v, m), u, b / 2, a, x, m);
      g := EuclidGcd(u, HalveMod(v, m), a, b / 2, x, m);
    } else if a > b {
      InvSubtract(u, v, a, b, x, m);
      g := EuclidGcd(HalveMod(SubtractMod(u, v, m), m), v, (a - b) / 2, b, x, m);
    } else {
      InvSubtract(v, u, b, a, x, m);
      InvSwap(HalveMod(SubtractMod(v, u, m), m), u, (b - a) / 2, a, x, m);
      g := EuclidGcd(u, HalveMod(SubtractMod(v, u, m), m), a, (b - a) / 2, x, m);
    }
  }

  /** An odd input that divides the modulus, whatever that is, gives 1; among them the input 1. */
  lemma {:induction false} DivisorGivesOne(x: nat, k: nat, v: nat, m: nat)
    requires x % 2 == 1 && k > 0 && m > 0 && v <= m
    ensures k * x > 0 && Euclid(x, k * x, 1, v, m) == 1
    decreases k
  {
    hide HalveMod, SubtractMod;
    MulOrder(1, k, x);
    ProductParity(k, x);
    HalveAtMost(v, m);
    SubtractAtMost(v, 1, m);
    HalveAtMost(SubtractMod(v, 1, m), m);
    Unfold(x, k * x, 1, v, m);
    if k % 2 == 0 {
      MulAssoc(2, k / 2, x);
      DivisorGivesOne(x, k / 2, HalveMod(v, m), m);
    } else if k > 1 {
      MulDist(k, 1, x);
      MulAssoc(2, k / 2, x);
      MulOrder(2, k, x);
      DivisorGivesOne(x, k / 2, HalveMod(SubtractMod(v, 1, m), m), m);
    }
  }

  lemma HalveAtMost(u: nat, m: nat)
    requires u <= m
    ensures HalveMod(u, m) <= m
  {
  }

  lemma SubtractAtMost(u: nat, v: nat, m: nat)
    requires u <= m && v <= m
    ensures SubtractMod(u, v, m) <= m
  {
  }

  /**
   * With a power of two for b and 0 for v, the loop halves a to 1 and u with it; while u is a larger power of two
   * than a it ends up even.
   */
  lemma {:induction false} HalvedTogether(a: nat, j: nat, i: nat, m: nat)
    requires 0 < a < Pow2(i) <= m && (a % 2 == 1 || a < Pow2(j) || j == 0)
    ensures Euclid(a, Pow2(j), Pow2(i), 0, m) % 2 == 0
    decreases a + j
  {
    hide Euclid;
    Unfold(a, Pow2(j), Pow2(i), 0, m);
    if a % 2 == 0 {
      HalvedTogether(a / 2, j, i - 1, m);
    } else if j > 0 {
      HalvedTogether(a, j - 1, i, m);
    } else if a > 1 {
      HalvedTogether(a / 2, 0, i - 1, m);
    }
  }

  lemma {:induction false} PowerGivesEven(x: nat, j: nat, k: nat)
    requires 1 < x < Pow2(k) && (x % 2 == 1 || x < Pow2(j) || j == 0)
    ensures Euclid(x, Pow2(j), 1, 0, Pow2(k)) % 2 == 0
    decreases j
  {
    hide Euclid;
    Unfold(x, Pow2(j), 1, 0, Pow2(k));
    if x % 2 == 1 && j > 0 {
      PowerGivesEven(x, j - 1, k);
    } else {
      HalvedTogether(x / 2, j, k - 1, Pow2(k));
    }
  }

  /** Modulo a power of two the result for a smaller input is an inverse only for the input 1. */
  lemma PowerOfTwo(x: nat, k: nat)
    requires 0 < x < Pow2(k)
    ensures Mod(Euclid(x, Pow2(k), 1, 0, Pow2(k)) * x - 1, Pow2(k)) == 0 <==> x == 1
  {
    hide Euclid, Mod;
    var r := Euclid(x, Pow2(k), 1, 0, Pow2(k));
    if x == 1 {
      DivisorGivesOne(1, Pow2(k), 0, Pow2(k));
      Multiple(0, Pow2(k));
    } else {
      PowerGivesEven(x, k, k);
      ProductParity(r, x);
      if Mod(r * x - 1, Pow2(k)) == 0 {
        var q := Factor(r * x - 1, Pow2(k));
        ProductParity(q, Pow2(k));
      }
    }
  }

  /** For an even modulus the result can be wrong: 3 and 4 are coprime, yet it is 2. */
  lemma EvenModulus()
    ensures IsGcd(1, 3, 4) && Euclid(3, 4, 1, 0, 4) == 2 && Mod(2 * 3 - 1, 4) != 0
  {
    assert Euclid(3, 1, 1, 0, 4) == Euclid(1, 1, 2, 0, 4);
    assert Euclid(3, 2, 1, 0, 4) == Euclid(3, 1, 1, 0, 4);
    assert HalveMod(0, 4) == 0;
    Multiple(3, 1);
    Multiple(4, 1);
    forall d: nat | Common(d, 3, 4) ensures Mod(1, d) == 0 {
      ModSumZero(4, 3, d);
    }
  }

  /**
   * The inversion, for every nonzero modulus; with an odd one, the result times the input leaves the
   * gcd of the two.
   */
  method Inverse(result: array<digit>, input: array<digit>, m: array<digit>) returns (ghost g: nat)
    requires result.Length == input.Length == m.Length == 4 && (V(m[..]) > 0 || V(input[..]) == 0)
    modifies result
    ensures var x, n := old(V(input[..])), old(V(m[..]));
      V(result[..]) == if x == 0 then 0 else Euclid(x, n, 1, 0, n)
    ensures var x, n := old(V(input[..])), old(V(m[..]));
      x > 0 && n % 2 == 1 && n > 1 ==>
        IsGcd(g, x, n) && V(result[..]) < n && Mod(V(result[..]) * x - g, n) == 0
  {
    hide V, Inv, IsGcd, Common, Euclid, Follows, Mod;
    g := 0;
    var zero := IsZero(input);
    if zero {
      Clear(result);
      return;
    }
    ghost var x, n := V(input[..]), V(m[..]);
    var a, b, u, v := Start(input, m);
    Loop(a, b, u, v, m);
    Copy(result, u, 0);
    assert u[0..4] == u[..];
    if n % 2 == 1 && n > 1 {
      InvStart(x, n);
      g := EuclidGcd(1, 0, x, n, x, n);
      FollowsIs(Euclid(x, n, 1, 0, n), x, g, n);
    }
  }

  lemma FollowsIs(u: int, x: int, a: int, m: nat)
    requires m > 0
    ensures Follows(u, x, a, m) <==> Mod(u * x - a, m) == 0
  {
  }

  /** a, b, u and v before the first step. */
  method Start(input: array<digit>, m: array<digit>)
    returns (a: array<digit>, b: array<digit>, u: array<digit>, v: array<digit>)
    requires input.Length == m.Length == 4
    ensures fresh(a) && fresh(b) && fresh(u) && fresh(v) && a != b && a != u && a != v && b != u && b != v && u != v
    ensures a.Length == b.Length == u.Length == v.Length == 4
    ensures V(a[..]) == V(input[..]) && V(b[..]) == V(m[..]) && V(u[..]) == 1 && V(v[..]) == 0
  {
    hide V;
    a, b, u, v := new digit[4], new digit[4], new digit[4], new digit[4];
    Copy(a, input, 0);
    Copy(b, m, 0);
    assert input[0..4] == input[..] && m[0..4] == m[..];
    Clear(u);
    u[0] := 1;
    Clear(v);
    One(u[..]);
  }

  method Clear(vli: array<digit>)
    requires vli.Length == 4
    modifies vli
    ensures V(vli[..]) == 0 && forall i :: 0 <= i < 4 ==> vli[i] == 0
  {
    for i := 0 to 4
      invariant forall k :: 0 <= k < i ==> vli[k] == 0
    {
      vli[i] := 0;
    }
  }

  lemma One(s: seq<digit>)
    requires |s| == 4 && s[0] == 1 && s[1] == s[2] == s[3] == 0
    ensures V(s) == 1
  {
  }

  /** An even a: halve it, and u with it. */
  method StepEven(a: array<digit>, u: array<digit>, m: array<digit>)
    requires a.Length == u.Length == m.Length == 4 && a != u && a != m && u != m && V(u[..]) <= V(m[..])
    modifies a, u
    ensures V(a[..]) == old(V(a[..])) / 2 && V(u[..]) == HalveMod(old(V(u[..])), V(m[..])) <= V(m[..])
  {
    hide V, HalveMod;
    Rshift1(a);
    Halve(u, m);
  }

  /** Two odd numbers, a the larger: take b from a and halve, u and v with them. */
  method StepOdd(a: array<digit>, b: array<digit>, u: array<digit>, v: array<digit>, m: array<digit>)
    requires a.Length == b.Length == u.Length == v.Length == m.Length == 4
    requires a != b && a != u && a != v && a != m && u != b && u != v && u != m
    requires V(b[..]) < V(a[..]) && V(u[..]) <= V(m[..]) && V(v[..]) <= V(m[..])
    modifies a, u
    ensures V(a[..]) == (old(V(a[..])) - V(b[..])) / 2
    ensures V(u[..]) == HalveMod(SubtractMod(old(V(u[..])), V(v[..]), V(m[..])), V(m[..])) <= V(m[..])
  {
    hide V, HalveMod, SubtractMod;
    FourDigits(a[..]);
    var borrow := Sub(a, a, b);
    FourDigits(a[..]);
    Rshift1(a);
    Subtract(u, v, m);
    Halve(u, m);
  }

  /** The loop: until a and b meet. */
  method Loop(a: array<digit>, b: array<digit>, u: array<digit>, v: array<digit>, m: array<digit>)
    requires a.Length == b.Length == u.Length == v.Length == m.Length == 4
    requires a != b && a != u && a != v && a != m && b != u && b != v && b != m && u != v && u != m && v != m
    requires V(a[..]) > 0 && V(b[..]) > 0 && V(u[..]) <= V(m[..]) && V(v[..]) <= V(m[..])
    modifies a, b, u, v
    ensures V(u[..]) == old(Euclid(V(a[..]), V(b[..]), V(u[..]), V(v[..]), V(m[..])))
  {
    hide V, HalveMod, SubtractMod, Euclid;
    ghost var n := V(m[..]);
    ghost var goal := Euclid(V(a[..]), V(b[..]), V(u[..]), V(v[..]), n);
    while true
      invariant V(a[..]) > 0 && V(b[..]) > 0 && V(u[..]) <= n && V(v[..]) <= n && V(m[..]) == n
      invariant Euclid(V(a[..]), V(b[..]), V(u[..]), V(v[..]), n) == goal
      decreases V(a[..]) + V(b[..])
    {
      var r := Cmp(a, b);
      Unfold(V(a[..]), V(b[..]), V(u[..]), V(v[..]), n);
      if r == 0 {
        return;
      }
      Parity(a[..]);
      Parity(b[..]);
      if a[0] % 2 == 0 {
        StepEven(a, u, m);
      } else if b[0] % 2 == 0 {
        StepEven(b, v, m);
      } else if r > 0 {
        StepOdd(a, b, u, v, m);
      } else {
        StepOdd(b, a, v, u, m);
      }
    }
  }

  /** One turn of the loop. */
  lemma Unfold(a: nat, b: nat, u: nat, v: nat, m: nat)
    requires a > 0 && b > 0 && u <= m && v <= m
    ensures a == b ==> Euclid(a, b, u, v, m) == u
    ensures a != b && a % 2 == 0 ==> Euclid(a, b, u, v, m) == Euclid(a / 2, b, HalveMod(u, m), v, m)
    ensures a != b && a % 2 == 1 && b % 2 == 0 ==> Euclid(a, b, u, v, m) == Euclid(a, b / 2, u, HalveMod(v, m), m)
    ensures a > b && a % 2 == 1 && b % 2 == 1 ==>
      Euclid(a, b, u, v, m) == Euclid((a - b) / 2, b, HalveMod(SubtractMod(u, v, m), m), v, m)
    ensures a < b && a % 2 == 1 && b % 2 == 1 ==>
      Euclid(a, b, u, v, m) == Euclid(a, (b - a) / 2, u, HalveMod(SubtractMod(v, u, m), m), m)
  {
  }

  /** The result is an inverse exactly when the input is prime to the modulus. */
  lemma InverseIff(r: nat, x: nat, m: nat, g: nat)
    requires m > 1 && IsGcd(g, x, m) && Mod(r * x - g, m) == 0
    ensures Mod(r * x - 1, m) == 0 <==> g == 1
  {
    if Mod(r * x - 1, m) == 0 {
      hide Mod;
      ModSumZero(r * x - 1, r * x - g, m);
      var k := Factor(m, g);
      Smaller(k, g, m);
      var j := Factor(g - 1, m);
      NoMultiple(j, m, g - 1);
    }
  }

  lemma Smaller(k: int, g: nat, m: nat)
    requires m == k * g && m > 0 && g > 0
    ensures g <= m
  {
    MulLess(0, k, g);
    MulOrder(1, k, g);
  }

  lemma NoMultiple(j: int, m: nat, y: int)
    requires 0 <= y < m && y == j * m
    ensures y == 0
  {
    MulLess(-1, j, m);
    MulLess(j, 1, m);
  }
}
