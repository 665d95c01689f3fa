/**
 * 256-bit arithmetic on four 64-bit digits, least digit first, and arithmetic
 * modulo the prime of the curve P-256 (src/ecc.c).
 */
module Vli {
  import opened Arith
  import opened Bits
  import opened Limbs

  const B: nat := 0x1_0000_0000_0000_0000
  const H: nat := 0x1_0000_0000
  const B2: nat := 0x1_0000_0000_0000_0000_0000_0000_0000_0000
  const B3: nat := 0x1_0000_0000_0000_0000_0000_0000_0000_0000_0000_0000_0000_0000
  const B4: nat := 0x1_0000_0000_0000_0000_0000_0000_0000_0000_0000_0000_0000_0000_0000_0000_0000_0000

  type digit = x: int | 0 <= x < 0x1_0000_0000_0000_0000

  /** The number that four digits stand for. */
  function V(s: seq<digit>): nat
    requires |s| == 4
  {
    s[0] as int + B * s[1] as int + B2 * s[2] as int + B3 * s[3] as int
  }

  lemma Places()
    ensures Pow(B, 0) == 1 && Pow(B, 1) == B && Pow(B, 2) == B2 && Pow(B, 3) == B3 && Pow(B, 4) == B4
  {
    assert Pow(B, 2) == B2;
    assert Pow(B, 4) == B4;
  }

  lemma FourDigits(s: seq<digit>)
    requires |s| == 4
    ensures V(s) == Val(s, B) && V(s) < B4
  {
    hide Val, Pow;
    Places();
    ValZero([], B);
    assert s[..0] == [] && s[..4] == s;
    ValStep(s, 0, B);
    ValStep(s, 1, B);
    ValStep(s, 2, B);
    ValStep(s, 3, B);
  }

  // ----- Addition and subtraction

  /** The carry is kept when the sum is the left digit again: then nothing, or a full turn, was added. */
  lemma CarryKept(x: digit, y: digit, carry: int, sum: digit, next: int)
    requires 0 <= carry <= 1 && sum == (x + y + carry) % B
    requires next == if sum != x then (if sum < x then 1 else 0) else carry
    ensures sum + next * B == x + y + carry
  {
    if x + y + carry >= B {
      DivModUnique(x + y + carry, 1, x + y + carry - B, B);
    } else {
      DivModUnique(x + y + carry, 0, x + y + carry, B);
    }
  }

  lemma BorrowKept(x: digit, y: digit, borrow: int, diff: digit, next: int)
    requires 0 <= borrow <= 1 && diff == (x - y - borrow) % B
    requires next == if diff != x then (if diff > x then 1 else 0) else borrow
    ensures diff - next * B == x - y - borrow
  {
    if x - y - borrow < 0 {
      DivModUnique(x - y - borrow, -1, x - y - borrow + B, B);
    } else {
      DivModUnique(x - y - borrow, 0, x - y - borrow, B);
    }
  }

  lemma PowNext(i: nat)
    ensures Pow(B, i + 1) == Pow(B, i) * B
  {
  }

  method Add(result: array<digit>, left: array<digit>, right: array<digit>) returns (carry: int)
    requires result.Length == left.Length == right.Length == 4
    modifies result
    ensures 0 <= carry <= 1 && V(result[..]) + carry * B4 == old(V(left[..]) + V(right[..]))
  {
    hide Val, Pow, V;
    ghost var x, y := left[..], right[..];
    carry := 0;
    Places();
    ValZero([], B);
    assert result[..0] == x[..0] == y[..0] == [];
    for i := 0 to 4
      invariant 0 <= carry <= 1
      invariant forall k :: i <= k < 4 ==> left[k] == x[k] && right[k] == y[k]
      invariant Val(result[..i], B) + carry * Pow(B, i) == Val(x[..i], B) + Val(y[..i], B)
    {
      ghost var was, r := carry, result[..];
      var sum: digit := (left[i] + right[i] + carry) % B;
      if sum != left[i] {
        carry := if sum < left[i] then 1 else 0;
      }
      CarryKept(x[i], y[i], was, sum, carry);
      result[i] := sum;
      assert result[..i] == r[..i];
      Column(Pow(B, i), x[i], y[i], was, sum, carry, B);
      ValStep(result[..], i, B);
      ValStep(x, i, B);
      ValStep(y, i, B);
      PowNext(i);
    }
    assert result[..4] == result[..] && x[..4] == x && y[..4] == y;
    FourDigits(result[..]);
    FourDigits(x);
    FourDigits(y);
  }

  method Sub(result: array<digit>, left: array<digit>, right: array<digit>) returns (borrow: int)
    requires result.Length == left.Length == right.Length == 4
    modifies result
    ensures 0 <= borrow <= 1 && V(result[..]) - borrow * B4 == old(V(left[..]) - V(right[..]))
  {
    hide Val, Pow, V;
    ghost var x, y := left[..], right[..];
    borrow := 0;
    Places();
    ValZero([], B);
    assert result[..0] == x[..0] == y[..0] == [];
    for i := 0 to 4
      invariant 0 <= borrow <= 1
      invariant forall k :: i <= k < 4 ==> left[k] == x[k] && right[k] == y[k]
      invariant Val(result[..i], B) - borrow * Pow(B, i) == Val(x[..i], B) - Val(y[..i], B)
    {
      ghost var was, r := borrow, result[..];
      var diff: digit := (left[i] - right[i] - borrow) % B;
      if diff != left[i] {
        borrow := if diff > left[i] then 1 else 0;
      }
      BorrowKept(x[i], y[i], was, diff, borrow);
      result[i] := diff;
      assert result[..i] == r[..i];
      ghost var minus := 0 - y[i] as int;
      Column(Pow(B, i), x[i], minus, 0 - was, diff, 0 - borrow, B);
      MulDist(0, y[i], Pow(B, i));
      ValStep(result[..], i, B);
      ValStep(x, i, B);
      ValStep(y, i, B);
      PowNext(i);
    }
    assert result[..4] == result[..] && x[..4] == x && y[..4] == y;
    FourDigits(result[..]);
    FourDigits(x);
    FourDigits(y);
  }

  // ----- Shifts and comparison

  /** result = in << shift, and the bits shifted out. */
  method Lshift(result: array<digit>, source: array<digit>, shift: nat) returns (carry: nat)
    requires result.Length == source.Length == 4 && 0 < shift < 64
    modifies result
    ensures carry < Pow2(shift) && V(result[..]) + carry * B4 == old(V(source[..])) * Pow2(shift)
  {
    hide Val, Pow, V, Pow2, BitOr;
    ghost var x, p := source[..], Pow2(shift);
    Halves(shift);
    Places();
    ValZero([], B);
    assert result[..0] == x[..0] == [];
    carry := 0;
    for i := 0 to 4
      invariant carry < p && forall k :: i <= k < 4 ==> source[k] == x[k]
      invariant Val(result[..i], B) + carry * Pow(B, i) == Val(x[..i], B) * p
    {
      var temp := source[i];
      ghost var was, r := carry, result[..];
      ShiftDigit(temp, p, Pow2(64 - shift), B);
      ShiftOr(temp % Pow2(64 - shift), carry, shift);
      result[i] := BitOr(temp * Pow2(shift) % B, carry);
      carry := temp / Pow2(64 - shift);
      assert result[..i] == r[..i];
      Column(Pow(B, i), temp * p, 0, was, result[i], carry, B);
      ShiftPlace(Val(x[..i], B), x[i], p, Pow(B, i));
      ValStep(result[..], i, B);
      ValStep(x, i, B);
      PowNext(i);
    }
    assert result[..4] == result[..] && x[..4] == x;
    FourDigits(result[..]);
    FourDigits(x);
  }

  lemma Halves(shift: nat)
    requires shift <= 64
    ensures Pow2(shift) * Pow2(64 - shift) == B
  {
    hide Pow2;
    Pow2Add(shift, 64 - shift);
    Pow2Values();
    Pow2Add(32, 32);
  }

  /** vli = vli >> 1. */
  method Rshift1(vli: array<digit>)
    requires vli.Length == 4
    modifies vli
    ensures V(vli[..]) == old(V(vli[..])) / 2
  {
    hide Val, Pow, V, BitOr;
    ghost var x := vli[..];
    var carry: nat := 0;
    ghost var bit := 0;
    ValZero([], B);
    assert vli[4..] == x[4..] == [];
    var i := 4;
    while i > 0
      invariant 0 <= i <= 4 && vli[..i] == x[..i]
      invariant 0 <= bit <= 1 && carry == bit * 0x8000_0000_0000_0000
      invariant 2 * Val(vli[i..], B) + bit == Val(x[i..], B)
    {
      i := i - 1;
      ghost var high := vli[i + 1..];
      var temp := vli[i];
      assert temp == x[i];
      ShiftIn(temp / 2, bit);
      vli[i] := BitOr(temp / 2, carry);
      assert vli[i..][1..] == high && x[i..][1..] == x[i + 1..];
      ValCons(vli[i..], B);
      ValCons(x[i..], B);
      bit := temp % 2;
      carry := temp * 0x8000_0000_0000_0000 % B;
      TopBit(temp);
    }
    assert vli[0..] == vli[..] && x[0..] == x;
    FourDigits(vli[..]);
    FourDigits(x);
  }

  lemma ShiftIn(x: nat, bit: nat)
    requires x < 0x8000_0000_0000_0000 && bit <= 1
    ensures BitOr(x, bit * 0x8000_0000_0000_0000) == x + bit * 0x8000_0000_0000_0000
  {
    hide BitOr, Pow2;
    Halves(63);
    Pow2One();
    OrSum(x, bit, 63);
  }

  lemma Pow2One()
    ensures Pow2(1) == 2
  {
  }

  lemma TopBit(temp: digit)
    ensures temp * 0x8000_0000_0000_0000 % B == temp % 2 * 0x8000_0000_0000_0000
  {
    DivModUnique(temp * 0x8000_0000_0000_0000, temp / 2, temp % 2 * 0x8000_0000_0000_0000, B);
  }

  /** The sign of left - right. */
  method Cmp(left: array<digit>, right: array<digit>) returns (r: int)
    requires left.Length == right.Length == 4
    ensures r == if V(left[..]) > V(right[..]) then 1 else if V(left[..]) < V(right[..]) then -1 else 0
  {
    hide Val, V;
    FourDigits(left[..]);
    FourDigits(right[..]);
    var i := 4;
    while i > 0
      invariant 0 <= i <= 4 && left[i..] == right[i..]
    {
      i := i - 1;
      assert left[..][i + 1..] == left[i + 1..] && right[..][i + 1..] == right[i + 1..];
      if left[i] > right[i] {
        ValOrder(right[..], left[..], i, B);
        return 1;
      } else if left[i] < right[i] {
        ValOrder(left[..], right[..], i, B);
        return -1;
      }
    }
    assert left[..] == left[0..] && right[..] == right[0..];
    return 0;
  }

  method IsZero(vli: array<digit>) returns (r: bool)
    requires vli.Length == 4
    ensures r <==> V(vli[..]) == 0
  {
    for i := 0 to 4
      invariant forall k :: 0 <= k < i ==> vli[k] == 0
    {
      if vli[i] != 0 {
        return false;
      }
    }
    return true;
  }

  /** dest = four digits of src from an offset on. */
  method Copy(dest: array<digit>, src: array<digit>, offset: nat)
    requires dest.Length == 4 && offset + 4 <= src.Length
    modifies dest
    ensures dest[..] == old(src[offset..offset + 4])
  {
    for i := 0 to 4
      invariant forall k :: 0 <= k < i ==> dest[k] == old(src[offset + k])
      invariant forall k :: offset + i <= k < src.Length ==> src[k] == old(src[k])
    {
      dest[i] := src[offset + i];
    }
  }

  // ----- Multiplication

  /** The product of digit i of l with the digit of r that lands in column k. */
  function Term(l: seq<digit>, r: seq<digit>, k: nat, i: nat): nat
    requires |l| == |r| == 4 && i < 4
  {
    if 0 <= k - i < 4 then l[i] as int * r[k - i] as int else 0
  }

  /** The first n terms of column k. */
  function Cross(l: seq<digit>, r: seq<digit>, k: nat, n: nat): nat
    requires |l| == |r| == 4 && n <= 4
  {
    if n == 0 then 0 else Cross(l, r, k, n - 1) + Term(l, r, k, n - 1)
  }

  /** The columns below k, each at its place. */
  ghost function Columns(l: seq<digit>, r: seq<digit>, k: nat): nat
    requires |l| == |r| == 4
  {
    if k == 0 then 0 else Columns(l, r, k - 1) + Cross(l, r, k - 1, 4) * Pow(B, k - 1)
  }

  /** Terms outside the two numbers add nothing to a column. */
  lemma CrossEnds(l: seq<digit>, r: seq<digit>, k: nat)
    requires |l| == |r| == 4 && k < 7
    ensures Cross(l, r, k, if k < 4 then 0 else k - 3) == 0
    ensures k < 4 ==> Cross(l, r, k, k + 1) == Cross(l, r, k, 4)
  {
    assert Cross(l, r, k, 0) == 0;
    assert Cross(l, r, k, 1) == Term(l, r, k, 0);
    assert Cross(l, r, k, 2) == Cross(l, r, k, 1) + Term(l, r, k, 1);
    assert Cross(l, r, k, 3) == Cross(l, r, k, 2) + Term(l, r, k, 2);
    assert Cross(l, r, k, 4) == Cross(l, r, k, 3) + Term(l, r, k, 3);
  }

  lemma CrossIs(l: seq<digit>, r: seq<digit>, k: nat)
    requires |l| == |r| == 4
    ensures Cross(l, r, k, 4) == Term(l, r, k, 0) + Term(l, r, k, 1) + Term(l, r, k, 2) + Term(l, r, k, 3)
  {
    hide Term;
    assert Cross(l, r, k, 0) == 0;
    assert Cross(l, r, k, 1) == Term(l, r, k, 0);
    assert Cross(l, r, k, 2) == Term(l, r, k, 0) + Term(l, r, k, 1);
  }

  lemma DigitProduct(x: digit, y: digit)
    ensures 0 <= x as int * y as int <= (B - 1) * (B - 1)
  {
    MulOrder(0, x, y);
    MulOrder(x, B - 1, y);
    MulOrder(y, B - 1, B - 1);
  }

  /** Column k of the product, added to the carry of the columns below it. */
  method AddColumn(left: array<digit>, right: array<digit>, k: nat, r01: nat) returns (s01: nat, r2: nat)
    requires left.Length == right.Length == 4 && k < 7 && r01 < B2
    ensures s01 < B2 && r2 <= 4 && s01 + r2 * B2 == r01 + Cross(left[..], right[..], k, 4)
  {
    hide Cross;
    s01, r2 := r01, 0;
    var i := if k < 4 then 0 else k + 1 - 4;
    CrossEnds(left[..], right[..], k);
    while i <= k && i < 4
      invariant (if k < 4 then 0 else k - 3) <= i <= 4 && i <= k + 1
      invariant s01 < B2 && r2 <= i && s01 + r2 * B2 == r01 + Cross(left[..], right[..], k, i)
    {
      var product := left[i] as int * right[k - i] as int;
      DigitProduct(left[i], right[k - i]);
      CrossNext(left[..], right[..], k, i);
      ghost var was := s01;
      s01 := (s01 + product) % B2;
      DivModUnique(was + product, if was + product < B2 then 0 else 1, if was + product < B2 then was + product else was + product - B2, B2);
      r2 := r2 + if s01 < product then 1 else 0;
      i := i + 1;
    }
  }

  lemma CrossNext(l: seq<digit>, r: seq<digit>, k: nat, i: nat)
    requires |l| == |r| == 4 && i < 4 && 0 <= k - i < 4
    ensures Cross(l, r, k, i + 1) == Cross(l, r, k, i) + l[i] as int * r[k - i] as int
  {
  }

  /** The number that eight digits stand for. */
  function Wide(s: seq<digit>): nat
    requires |s| == 8
  {
    V(s[..4]) + B4 * V(s[4..])
  }

  lemma EightDigits(s: seq<digit>)
    requires |s| == 8
    ensures Wide(s) == Val(s, B)
  {
    hide Val, Pow, V;
    Places();
    FourDigits(s[..4]);
    FourDigits(s[4..]);
    ValConcat(s[..4], s[4..], B);
    assert s == s[..4] + s[4..];
  }

  method Mult(result: array<digit>, left: array<digit>, right: array<digit>)
    requires result.Length == 8 && left.Length == right.Length == 4 && result != left && result != right
    modifies result
    ensures Wide(result[..]) == V(left[..]) * V(right[..])
  {
    hide Val, Pow, V, Cross, Columns, Wide, BitOr;
    ghost var l, r := left[..], right[..];
    var r01: nat := 0;
    FourDigits(l);
    FourDigits(r);
    ValZero([], B);
    Start(l, r);
    assert result[..0] == [];
    for k := 0 to 7
      invariant r01 < B2 && left[..] == l && right[..] == r
      invariant Val(result[..k], B) + r01 * Pow(B, k) == Columns(l, r, k)
    {
      var s01, r2 := AddColumn(left, right, k, r01);
      ghost var was := result[..];
      result[k] := s01 % B;
      assert result[..k] == was[..k];
      CarryColumn(s01, r2);
      ghost var rest := s01 / B + r2 * B;
      NextColumn(l, r, k, Pow(B, k), r01, result[k], rest);
      ValStep(result[..], k, B);
      r01 := BitOr(s01 / B, r2 * B);
    }
    ghost var low := result[..];
    AllColumns(l, r);
    LastDigit(result[..7], r01, V(l), V(r));
    result[7] := r01 % B;
    assert result[..7] == low[..7];
    ValStep(result[..], 7, B);
    assert result[..8] == result[..];
    EightDigits(result[..]);
  }

  lemma Start(l: seq<digit>, r: seq<digit>)
    requires |l| == |r| == 4
    ensures Columns(l, r, 0) == 0
  {
  }

  lemma CarryColumn(s01: nat, r2: nat)
    requires s01 < B2 && r2 <= 4
    ensures BitOr(s01 / B, r2 * B) == s01 / B + r2 * B < B2
    ensures s01 % B + (s01 / B + r2 * B) * B == s01 + r2 * B2
  {
    hide BitOr, Pow2;
    Halves(64);
    Pow2Zero();
    OrSum(s01 / B, r2, 64);
  }

  lemma Pow2Zero()
    ensures Pow2(0) == 1
  {
  }

  lemma NextColumn(l: seq<digit>, r: seq<digit>, k: nat, p: nat, r01: nat, lo: digit, rest: nat)
    requires |l| == |r| == 4 && p == Pow(B, k) && lo + rest * B == r01 + Cross(l, r, k, 4)
    ensures lo * p + rest * Pow(B, k + 1) == r01 * p + (Columns(l, r, k + 1) - Columns(l, r, k))
  {
    hide Cross;
    Column(p, r01, Cross(l, r, k, 4), 0, lo, rest, B);
    PowNext(k);
  }

  lemma LastDigit(low: seq<digit>, r01: nat, x: nat, y: nat)
    requires |low| == 7 && x < B4 && y < B4 && Val(low, B) + r01 * Pow(B, 7) == x * y
    ensures r01 < B
  {
    hide Val, Pow;
    ValBound(low, B);
    Places();
    PowAdd(B, 4, 4);
    PowNext(7);
    MulOrder(x, B4 - 1, y);
    MulOrder(y, B4 - 1, B4 - 1);
    MulCommutes(B4 - 1, y);
    MulCommutes(B, Pow(B, 7));
    MulLess(r01, B, Pow(B, 7));
  }

  /** The seven columns at their places make up the product. */
  lemma AllColumns(l: seq<digit>, r: seq<digit>)
    requires |l| == |r| == 4
    ensures Columns(l, r, 7) == V(l) * V(r)
  {
    hide Columns, Cross, Pow;
    SevenColumns(l, r);
    CrossIs(l, r, 0);
    CrossIs(l, r, 1);
    CrossIs(l, r, 2);
    CrossIs(l, r, 3);
    CrossIs(l, r, 4);
    CrossIs(l, r, 5);
    CrossIs(l, r, 6);
    Expand(l, r);
  }

  lemma SevenColumns(l: seq<digit>, r: seq<digit>)
    requires |l| == |r| == 4
    ensures Columns(l, r, 7) == Cross(l, r, 0, 4) + B * Cross(l, r, 1, 4) + B2 * Cross(l, r, 2, 4) + B3 * Cross(l, r, 3, 4)
      + B4 * Cross(l, r, 4, 4) + B4 * B * Cross(l, r, 5, 4) + B4 * B2 * Cross(l, r, 6, 4)
  {
    hide Cross, Pow;
    Places();
    PowNext(4);
    PowNext(5);
    assert Columns(l, r, 0) == 0;
    assert Columns(l, r, 1) == Cross(l, r, 0, 4);
    assert Columns(l, r, 2) == Cross(l, r, 0, 4) + B * Cross(l, r, 1, 4);
    assert Columns(l, r, 4) == Columns(l, r, 2) + B2 * Cross(l, r, 2, 4) + B3 * Cross(l, r, 3, 4);
    assert Columns(l, r, 6) == Columns(l, r, 4) + B4 * Cross(l, r, 4, 4) + B4 * B * Cross(l, r, 5, 4);
  }

  lemma Row(x: int, r: seq<digit>)
    requires |r| == 4
    ensures x * V(r) == x * r[0] as int + B * (x * r[1] as int) + B2 * (x * r[2] as int) + B3 * (x * r[3] as int)
  {
    var a, b, c, d := r[0] as int, r[1] as int, r[2] as int, r[3] as int;
    MulCommutes(x, V(r));
    MulDist(a + B * b + B2 * c, B3 * d, x);
    MulDist(a + B * b, B2 * c, x);
    MulDist(a, B * b, x);
    MulAssoc(B, b, x);
    MulAssoc(B2, c, x);
    MulAssoc(B3, d, x);
    MulCommutes(a, x);
    MulCommutes(b, x);
    MulCommutes(c, x);
    MulCommutes(d, x);
  }

  lemma Expand(l: seq<digit>, r: seq<digit>)
    requires |l| == |r| == 4
    ensures V(l) * V(r) == l[0] as int * V(r) + B * (l[1] as int * V(r)) + B2 * (l[2] as int * V(r)) + B3 * (l[3] as int * V(r))
    ensures forall i :: 0 <= i < 4 ==> (
      l[i] as int * V(r) == l[i] as int * r[0] as int + B * (l[i] as int * r[1] as int)
        + B2 * (l[i] as int * r[2] as int) + B3 * (l[i] as int * r[3] as int))
  {
    Row(V(r), l);
    MulCommutes(V(l), V(r));
    MulCommutes(l[0], V(r));
    MulCommutes(l[1], V(r));
    MulCommutes(l[2], V(r));
    MulCommutes(l[3], V(r));
    forall i | 0 <= i < 4
      ensures l[i] as int * V(r) == l[i] as int * r[0] as int + B * (l[i] as int * r[1] as int)
        + B2 * (l[i] as int * r[2] as int) + B3 * (l[i] as int * r[3] as int)
    {
      Row(l[i], r);
    }
  }
}
