/** Powers of two, and bitwise operations on naturals as functions of their binary digits. */
module Bits {
  import opened Arith

  function Pow2(n: nat): (r: nat)
    ensures r > 0
  {
    if n == 0 then 1 else 2 * Pow2(n - 1)
  }

  lemma Pow2Values()
    ensures Pow2(31) == 0x8000_0000
    ensures Pow2(32) == 0x1_0000_0000
  {
    assert Pow2(8) == 0x100;
    assert Pow2(16) == 0x1_0000;
    assert Pow2(24) == 0x100_0000;
    assert Pow2(31) == 0x8000_0000;
  }

  lemma {:induction false} Pow2Add(a: nat, b: nat)
    ensures Pow2(a + b) == Pow2(a) * Pow2(b)
  {
    if a != 0 {
      Pow2Add(a - 1, b);
      assert Pow2(a + b) == 2 * Pow2(a - 1 + b);
    }
  }

  function Max(a: nat, b: nat): nat {
    if a < b then b else a
  }

  /** Bitwise or. */
  function BitOr(x: nat, y: nat): nat
    decreases x + y
  {
    if x == 0 && y == 0 then 0 else 2 * BitOr(x / 2, y / 2) + Max(x % 2, y % 2)
  }

  /** Bitwise and. */
  function BitAnd(x: nat, y: nat): nat
    decreases x + y
  {
    if x == 0 || y == 0 then 0 else 2 * BitAnd(x / 2, y / 2) + (x % 2) * (y % 2)
  }

  lemma {:induction false} BitOrZero(x: nat)
    ensures BitOr(x, 0) == x && BitOr(0, x) == x
  {
    if x != 0 { BitOrZero(x / 2); }
  }

  lemma BitOrStep(x: nat, y: nat)
    ensures BitOr(x, y) == 2 * BitOr(x / 2, y / 2) + Max(x % 2, y % 2)
  {
  }

  /** Left shift. */
  function Shl(u: nat, n: nat): nat {
    if n == 0 then u else 2 * Shl(u, n - 1)
  }

  lemma {:induction false} ShlIsMul(u: nat, n: nat)
    ensures Shl(u, n) == u * Pow2(n)
  {
    if n != 0 {
      ShlIsMul(u, n - 1);
      MulAssoc(u, Pow2(n - 1), 2);
    }
  }

  /** The or of numbers is the or of their low n bits and the or of the rest. */
  lemma {:induction false} BitOrSplit(a: nat, u: nat, b: nat, v: nat, n: nat)
    requires a < Pow2(n) && b < Pow2(n)
    ensures BitOr(a + Shl(u, n), b + Shl(v, n)) == BitOr(a, b) + Shl(BitOr(u, v), n)
    decreases n
  {
    hide BitOr, Max;
    if n == 0 {
      BitOrZero(0);
    } else {
      var s, t := Shl(u, n - 1), Shl(v, n - 1);
      BitOrSplit(a / 2, u, b / 2, v, n - 1);
      BitOrStep(a, b);
      BitOrStep(a + 2 * s, b + 2 * t);
      assert (a + 2 * s) / 2 == a / 2 + s && (b + 2 * t) / 2 == b / 2 + t;
    }
  }

  lemma {:induction false} BitOrBound(x: nat, y: nat, n: nat)
    requires x < Pow2(n) && y < Pow2(n)
    ensures BitOr(x, y) < Pow2(n)
  {
    if n == 0 {
      BitOrZero(0);
    } else {
      BitOrBound(x / 2, y / 2, n - 1);
      BitOrStep(x, y);
    }
  }

  lemma {:induction false} ShlZero(n: nat)
    ensures Shl(0, n) == 0
  {
    if n != 0 { ShlZero(n - 1); }
  }

  lemma Pow2Twice(k: nat)
    ensures Pow2(k + 1) == 2 * Pow2(k)
  {
  }

  /** Setting a bit below every bit that is set. */
  lemma BitOrNext(m: nat, k: nat)
    ensures BitOr(Shl(m, k + 1), Pow2(k)) == Shl(m, k + 1) + Pow2(k)
  {
    hide *;
    Pow2Twice(k);
    BitOrSplit(0, m, Pow2(k), 0, k + 1);
    ShlZero(k + 1);
    BitOrZero(m);
    BitOrZero(Pow2(k));
  }

  lemma BitAndStep(x: nat, y: nat)
    ensures BitAnd(x, y) == 2 * BitAnd(x / 2, y / 2) + (x % 2) * (y % 2)
  {
  }

  lemma {:induction false} BitAndSplit(a: nat, u: nat, b: nat, v: nat, n: nat)
    requires a < Pow2(n) && b < Pow2(n)
    ensures BitAnd(a + Shl(u, n), b + Shl(v, n)) == BitAnd(a, b) + Shl(BitAnd(u, v), n)
    decreases n
  {
    hide BitAnd;
    if n == 0 {
      BitAndZero(0);
    } else {
      var s, t := Shl(u, n - 1), Shl(v, n - 1);
      BitAndSplit(a / 2, u, b / 2, v, n - 1);
      BitAndStep(a, b);
      BitAndStep(a + 2 * s, b + 2 * t);
      assert (a + 2 * s) / 2 == a / 2 + s && (b + 2 * t) / 2 == b / 2 + t;
    }
  }

  lemma BitAndZero(x: nat)
    ensures BitAnd(x, 0) == 0 && BitAnd(0, x) == 0
  {
  }

  lemma {:induction false} BitAndBound(x: nat, y: nat)
    ensures BitAnd(x, y) <= y
  {
    if x != 0 && y != 0 {
      BitAndBound(x / 2, y / 2);
    }
  }

  /** Masking with n ones keeps the low n bits. */
  lemma {:induction false} BitAndOnes(x: nat, n: nat)
    requires x < Pow2(n)
    ensures BitAnd(x, Pow2(n) - 1) == x
  {
    hide BitAnd;
    if n == 0 {
      BitAndZero(0);
    } else {
      BitAndOnes(x / 2, n - 1);
      BitAndStep(x, Pow2(n) - 1);
    }
  }

  /** Numbers without a common bit: one below 2^n, the other a multiple of it. */
  lemma OrSum(a: nat, u: nat, n: nat)
    requires a < Pow2(n)
    ensures BitOr(a, u * Pow2(n)) == a + u * Pow2(n)
  {
    hide BitOr, Shl, Pow2;
    ShlIsMul(u, n);
    ShlZero(n);
    BitOrSplit(a, 0, 0, u, n);
    BitOrZero(a);
    BitOrZero(u);
  }

  lemma {:induction false} OrCommutes(x: nat, y: nat)
    ensures BitOr(x, y) == BitOr(y, x)
    decreases x + y
  {
    if x != 0 || y != 0 {
      OrCommutes(x / 2, y / 2);
    }
  }

  lemma ShiftOr(u: nat, carry: nat, shift: nat)
    requires carry < Pow2(shift)
    ensures BitOr(u * Pow2(shift), carry) == u * Pow2(shift) + carry
  {
    hide BitOr, Pow2;
    OrSum(carry, u, shift);
    OrCommutes(u * Pow2(shift), carry);
  }
}
