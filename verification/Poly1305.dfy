/** The Poly1305 authenticator in 44, 44 and 42-bit limbs (src/poly1305, section 2.5 of RFC 8439). */
module Poly1305 {
  import opened Arith
  import opened Bits
  import opened ByteOrder
  import opened Bytes
  import opened Limbs

  const B24: nat := 0x100_0000
  const B20: nat := 0x10_0000
  const B42: nat := 0x400_0000_0000
  const B44: nat := 0x1000_0000_0000
  const B64: nat := 0x1_0000_0000_0000_0000
  const B88: nat := 0x1_0000_0000_0000_0000_0000_00
  const B128: nat := 0x1_0000_0000_0000_0000_0000_0000_0000_0000
  const B130: nat := 0x4_0000_0000_0000_0000_0000_0000_0000_0000
  const PRIME: nat := 0x3_ffff_ffff_ffff_ffff_ffff_ffff_ffff_fffb

  type U64 = x: int | 0 <= x < B64
  type U128 = x: int | 0 <= x < B128

  /** The number that the limbs stand for. */
  function Value(h0: int, h1: int, h2: int): int {
    h0 + B44 * h1 + B88 * h2
  }

  // ----- Cutting 128-bit numbers into limbs

  function Limb0(t0: U64): U64 {
    t0 % B44
  }

  /** ((t0 >> 44) | (t1 << 20)) & (2^44 - 1), the shift cut to 64 bits. */
  function Limb1(t0: U64, t1: U64): nat {
    BitOr(t0 / B44, t1 * B20 % B64) % B44
  }

  function Limb2(t1: U64): U64 {
    t1 / B24
  }

  lemma OrIsSum(a: nat, b: nat)
    requires a < B20 && b % B20 == 0
    ensures BitOr(a, b) == a + b
  {
    hide BitOr, Pow2;
    Pow20();
    OrSum(a, b / B20, 20);
  }

  lemma Pow20()
    ensures Pow2(20) == B20
  {
    assert Pow2(10) == 1024;
    Pow2Add(10, 10);
  }

  lemma Limbs128(t0: U64, t1: U64)
    ensures Value(Limb0(t0), Limb1(t0, t1), Limb2(t1)) == t0 + B64 * t1
    ensures 0 <= Limb1(t0, t1) < B44 && Limb2(t1) < 0x100_0000_0000
  {
    hide Limb1;
    LimbParts(t0 % B44, t0 / B44, t1 % B24, t1 / B24 % B20, t1 / B24 / B20);
  }

  /** The same, with the parts of the two words that end up in each limb as unknowns. */
  lemma LimbParts(a: nat, b: nat, c: nat, d: nat, e: nat)
    requires a < B44 && b < B20 && c < B24 && d < B20 && e < B20
    ensures var t0, t1 := a + B44 * b, c + B24 * d + B44 * e;
      Limb1(t0, t1) == b + B20 * c && Limb0(t0) == a && Limb2(t1) == d + B20 * e
  {
    hide BitOr;
    var t0, t1 := a + B44 * b, c + B24 * d + B44 * e;
    DivModUnique(t0, b, a, B44);
    DivModUnique(t1, d + B20 * e, c, B24);
    DivModUnique(t1 * B20, e, B20 * c + B44 * d, B64);
    DivModUnique(B20 * c + B44 * d, c + B24 * d, 0, B20);
    OrIsSum(b, B20 * c + B44 * d);
    DivModUnique(b + B20 * c + B44 * d, d, b + B20 * c, B44);
  }

  // ----- One block

  /** What clamping leaves of the multiplier. */
  predicate Multiplier(r0: int, r1: int, r2: int) {
    0 <= r0 < B44 && 0 <= r1 < B44 && 0 <= r2 < 0x10_0000_0000
  }

  /** The bounds of the accumulator between blocks. */
  predicate Accumulator(h0: int, h1: int, h2: int) {
    0 <= h0 < B44 && 0 <= h1 < B44 + 0x1000 && 0 <= h2 < B42
  }

  /** The limb products of a block fit in 128 bits with room to spare. */
  lemma ProductBounds(h0: int, h1: int, h2: int, r0: int, r1: int, r2: int)
    requires Multiplier(r0, r1, r2) && 0 <= h0 < 2 * B44 && 0 <= h1 < 2 * B44 + 0x1000 && 0 <= h2 < 2 * B42
    ensures 0 <= h0 * r0 < 2 * B88 && 0 <= h1 * (20 * r2) < B88 && 0 <= h2 * (20 * r1) < 10 * B88
    ensures 0 <= h0 * r1 < 2 * B88 && 0 <= h1 * r0 < 3 * B88 && 0 <= h2 * (20 * r2) < B88
    ensures 0 <= h0 * r2 < B88 && 0 <= h1 * r1 < 3 * B88 && 0 <= h2 * r0 < B88
  {
    ProductBound(h0, r0, 2 * B44 - 1, B44 - 1);
    ProductBound(h0, r1, 2 * B44 - 1, B44 - 1);
    ProductBound(h0, r2, 2 * B44 - 1, 0x10_0000_0000);
    ProductBound(h1, r0, 2 * B44 + 0x1000, B44 - 1);
    ProductBound(h1, r1, 2 * B44 + 0x1000, B44 - 1);
    ProductBound(h1, 20 * r2, 2 * B44 + 0x1000, 20 * 0x10_0000_0000);
    ProductBound(h2, r0, 2 * B42 - 1, B44 - 1);
    ProductBound(h2, 20 * r1, 2 * B42 - 1, 20 * (B44 - 1));
    ProductBound(h2, 20 * r2, 2 * B42 - 1, 20 * 0x10_0000_0000);
  }

  /** Carrying the three columns: the value changes by a multiple of the prime. */
  method Carry(d0: U128, d1: U128, d2: U128) returns (h0: U64, h1: U64, h2: U64, ghost k: nat)
    requires d0 < 13 * B88 && d1 < 7 * B88 && d2 < 6 * B88
    ensures Accumulator(h0, h1, h2)
    ensures Value(h0, h1, h2) == Value(d0, d1, d2) - PRIME * k
  {
    var c: U64 := d0 / B44;
    h0 := d0 % B44;
    var e1: U128 := d1 + c;
    c := e1 / B44;
    h1 := e1 % B44;
    var e2: U128 := d2 + c;
    c := e2 / B42;
    h2 := e2 % B42;
    k := c;
    assert Value(h0, h1, h2) == Value(d0, d1, d2) - B130 * k;
    var five: U64 := c * 5;
    var f0: U64 := h0 + five;
    c := f0 / B44;
    h0 := f0 % B44;
    h1 := h1 + c;
  }

  /** The nine products of two numbers of three limbs. */
  lemma Expand(h0: int, h1: int, h2: int, r0: int, r1: int, r2: int)
    ensures Value(h0, h1, h2) * Value(r0, r1, r2)
         == h0 * r0 + B44 * (h0 * r1 + h1 * r0) + B88 * (h0 * r2 + h1 * r1 + h2 * r0)
            + B44 * B88 * (h1 * r2 + h2 * r1) + B88 * B88 * (h2 * r2)
  {
    var r := Value(r0, r1, r2);
    MulDist(h0 + B44 * h1, B88 * h2, r);
    MulDist(h0, B44 * h1, r);
    MulAssoc(B44, h1, r);
    MulAssoc(B88, h2, r);
    Row(h0, r0, r1, r2);
    Row(h1, r0, r1, r2);
    Row(h2, r0, r1, r2);
  }

  lemma Row(x: int, r0: int, r1: int, r2: int)
    ensures x * Value(r0, r1, r2) == x * r0 + B44 * (x * r1) + B88 * (x * r2)
  {
    MulCommutes(x, Value(r0, r1, r2));
    MulDist(r0 + B44 * r1, B88 * r2, x);
    MulDist(r0, B44 * r1, x);
    MulAssoc(B44, r1, x);
    MulAssoc(B88, r2, x);
    MulCommutes(r0, x);
    MulCommutes(r1, x);
    MulCommutes(r2, x);
  }

  /** 2^132 is 20 more than four times the prime, so the high columns fold onto the low ones. */
  lemma Fold(h0: int, h1: int, h2: int, r0: int, r1: int, r2: int)
    ensures Value(h0 * r0 + h1 * (20 * r2) + h2 * (20 * r1), h0 * r1 + h1 * r0 + h2 * (20 * r2), h0 * r2 + h1 * r1 + h2 * r0)
         == Value(h0, h1, h2) * Value(r0, r1, r2) - 4 * PRIME * (h1 * r2 + h2 * r1 + B44 * (h2 * r2))
  {
    Expand(h0, h1, h2, r0, r1, r2);
    Twenty(h1, r2);
    Twenty(h2, r1);
    Twenty(h2, r2);
    hide Value;
    FoldSum(h0 * r0, h0 * r1, h0 * r2, h1 * r0, h1 * r1, h1 * r2, h2 * r0, h2 * r1, h2 * r2);
  }

  lemma Twenty(x: int, y: int)
    ensures x * (20 * y) == 20 * (x * y)
  {
    MulCommutes(x, 20 * y);
    MulAssoc(20, y, x);
    MulCommutes(x, y);
  }

  /** The same with the products as unknowns. */
  lemma FoldSum(a: int, b: int, c: int, d: int, e: int, f: int, g: int, i: int, j: int)
    ensures Value(a + 20 * f + 20 * i, b + d + 20 * j, c + e + g)
         == a + B44 * (b + d) + B88 * (c + e + g) + B44 * B88 * (f + i) + B88 * B88 * j
            - 4 * PRIME * (f + i + B44 * j)
  {
  }

  /** ((t1 >> 24) & (2^42 - 1)) | hibit. */
  lemma OrHigh(a: nat, hibit: nat)
    requires a < 0x100_0000_0000 && (hibit == 0 || hibit == 0x100_0000_0000)
    ensures BitOr(a, hibit) == a + hibit
  {
    hide BitOr, Pow2;
    Powers();
    OrSum(a, if hibit == 0 then 0 else 1, 40);
  }

  lemma Powers()
    ensures Pow2(24) == B24 && Pow2(40) == 0x100_0000_0000 && Pow2(44) == B44 && Pow2(64) == B64
  {
    Pow20();
    hide Pow2;
    Pow2Add(20, 20);
    PowersSmall();
    Pow2Add(20, 4);
    Pow2Add(40, 4);
    Pow2Add(44, 20);
  }

  lemma PowersSmall()
    ensures Pow2(4) == 16
  {
  }

  lemma Congruent(v: int, a: int, k: int)
    requires v == a - PRIME * k
    ensures Mod(v, PRIME) == Mod(a, PRIME)
  {
    ModAdd(a, -k, PRIME);
  }

  /** h := (h + block) r, partially reduced; no sum or product exceeds its width. */
  method Block(h0: U64, h1: U64, h2: U64, r0: U64, r1: U64, r2: U64, t0: U64, t1: U64, hibit: U64)
    returns (g0: U64, g1: U64, g2: U64)
    requires Multiplier(r0, r1, r2) && Accumulator(h0, h1, h2) && (hibit == 0 || hibit == 0x100_0000_0000)
    ensures Accumulator(g0, g1, g2)
    ensures Mod(Value(g0, g1, g2), PRIME)
         == Mod((Value(h0, h1, h2) + t0 + B64 * t1 + B88 * hibit) * Value(r0, r1, r2), PRIME)
  {
    hide BitOr, Limb1, Mod;
    Limbs128(t0, t1);
    OrHigh(Limb2(t1), hibit);
    var s1: U64 := r1 * 20;
    var s2: U64 := r2 * 20;
    var x0: U64 := h0 + Limb0(t0);
    var x1: U64 := h1 + Limb1(t0, t1);
    var x2: U64 := h2 + BitOr(Limb2(t1), hibit);
    assert Value(x0, x1, x2) == Value(h0, h1, h2) + t0 + B64 * t1 + B88 * hibit;
    ghost var k;
    g0, g1, g2, k := Multiply(x0, x1, x2, r0, r1, r2, s1, s2);
    Congruent(Value(g0, g1, g2), Value(x0, x1, x2) * Value(r0, r1, r2), k);
  }

  /** The three columns of the product, the high ones folded in. */
  function Column0(x0: int, x1: int, x2: int, r0: int, s1: int, s2: int): int {
    x0 * r0 + x1 * s2 + x2 * s1
  }

  function Column1(x0: int, x1: int, x2: int, r0: int, r1: int, s2: int): int {
    x0 * r1 + x1 * r0 + x2 * s2
  }

  function Column2(x0: int, x1: int, x2: int, r0: int, r1: int, r2: int): int {
    x0 * r2 + x1 * r1 + x2 * r0
  }

  lemma Columns(x0: int, x1: int, x2: int, r0: int, r1: int, r2: int) returns (j: int)
    requires Multiplier(r0, r1, r2) && 0 <= x0 < 2 * B44 && 0 <= x1 < 2 * B44 + 0x1000 && 0 <= x2 < 2 * B42
    ensures 0 <= Column0(x0, x1, x2, r0, 20 * r1, 20 * r2) < 13 * B88
    ensures 0 <= Column1(x0, x1, x2, r0, r1, 20 * r2) < 7 * B88
    ensures 0 <= Column2(x0, x1, x2, r0, r1, r2) < 6 * B88
    ensures Value(Column0(x0, x1, x2, r0, 20 * r1, 20 * r2), Column1(x0, x1, x2, r0, r1, 20 * r2),
                  Column2(x0, x1, x2, r0, r1, r2)) == Value(x0, x1, x2) * Value(r0, r1, r2) - 4 * PRIME * j
  {
    hide Value, Multiplier;
    ProductBounds(x0, x1, x2, r0, r1, r2);
    Fold(x0, x1, x2, r0, r1, r2);
    j := x1 * r2 + x2 * r1 + B44 * (x2 * r2);
  }

  /** The columns of the product, carried. */
  method Multiply(x0: U64, x1: U64, x2: U64, r0: U64, r1: U64, r2: U64, s1: U64, s2: U64)
    returns (g0: U64, g1: U64, g2: U64, ghost k: int)
    requires Multiplier(r0, r1, r2) && x0 < 2 * B44 && x1 < 2 * B44 + 0x1000 && x2 < 2 * B42
    requires s1 == 20 * r1 && s2 == 20 * r2
    ensures Accumulator(g0, g1, g2)
    ensures Value(g0, g1, g2) == Value(x0, x1, x2) * Value(r0, r1, r2) - PRIME * k
  {
    hide Value, Multiplier, Column0, Column1, Column2;
    ghost var j := Columns(x0, x1, x2, r0, r1, r2);
    var d0: U128 := Column0(x0, x1, x2, r0, s1, s2);
    var d1: U128 := Column1(x0, x1, x2, r0, r1, s2);
    var d2: U128 := Column2(x0, x1, x2, r0, r1, r2);
    g0, g1, g2, k := Carry(d0, d1, d2);
    k := k + 4 * j;
  }

  // ----- The polynomial

  /** The accumulator after the blocks of a message, each with a one put above its octets. */
  function Poly(a: nat, r: nat, m: Bytes): nat
    decreases |m|
  {
    if m == [] then a
    else if |m| < 16 then Mod((a + LittleEndian(m) + Pow(256, |m|)) * r, PRIME)
    else Poly(Mod((a + LittleEndian(m[..16]) + B128) * r, PRIME), r, m[16..])
  }

  const CLAMP: nat := 0x0fff_fffc_0fff_fffc_0fff_fffc_0fff_ffff

  /** The authenticator of a message under a one-time key, section 2.5 of RFC 8439. */
  function Tag(key: Bytes, m: Bytes): nat
    requires |key| == 32
  {
    Mod(Poly(0, BitAnd(LittleEndian(key[..16]), CLAMP), m) + LittleEndian(key[16..]), B128)
  }

  /** Whole blocks can be absorbed in two goes. */
  lemma {:induction false} PolyConcat(a: nat, r: nat, m: Bytes, n: Bytes)
    requires |m| % 16 == 0
    ensures Poly(a, r, m + n) == Poly(Poly(a, r, m), r, n)
    decreases |m|
  {
    hide Mod, LittleEndian, Pow;
    if m == [] {
      assert m + n == n;
    } else {
      assert (m + n)[..16] == m[..16] && (m + n)[16..] == m[16..] + n;
      PolyConcat(Mod((a + LittleEndian(m[..16]) + B128) * r, PRIME), r, m[16..], n);
    }
  }

  lemma OctetPowers()
    ensures Pow(256, 8) == B64 && Pow(256, 16) == B128
  {
    assert Pow(256, 4) == 0x1_0000_0000;
    assert Pow(256, 8) == B64;
    assert Pow(256, 12) == 0x1_0000_0000_0000_0000_0000_0000;
  }

  // ----- Clamping

  lemma AndLow(x: nat, m: nat)
    requires m < B44
    ensures BitAnd(x, m) == BitAnd(x % B44, m)
  {
    hide BitAnd, Shl, Pow2;
    Powers();
    ShlIsMul(x / B44, 44);
    ShlZero(44);
    BitAndSplit(x % B44, x / B44, m, 0, 44);
    BitAndZero(x / B44);
  }

  lemma AndTwo(a: nat, u: nat, b: nat, v: nat)
    requires a < B44 && b < B44
    ensures BitAnd(a + B44 * u, b + B44 * v) == BitAnd(a, b) + B44 * BitAnd(u, v)
  {
    hide BitAnd, Shl, Pow2;
    Powers();
    ShlIsMul(u, 44);
    ShlIsMul(v, 44);
    ShlIsMul(BitAnd(u, v), 44);
    BitAndSplit(a, u, b, v, 44);
  }

  /** Masking limb by limb masks the number. */
  lemma AndValue(a: nat, b: nat, c: nat, x: nat, y: nat, z: nat)
    requires a < B44 && b < B44 && x < B44 && y < B44
    ensures BitAnd(Value(a, b, c), Value(x, y, z)) == Value(BitAnd(a, x), BitAnd(b, y), BitAnd(c, z))
  {
    hide BitAnd;
    AndTwo(b, c, y, z);
    AndTwo(a, b + B44 * c, x, y + B44 * z);
  }

  const MASK0: nat := 0xffc_0fff_ffff
  const MASK1: nat := 0xfff_ffc0_ffff
  const MASK2: nat := 0x00f_ffff_fc0f

  lemma Clamped(t0: U64, t1: U64)
    ensures var r0, r1, r2 := BitAnd(t0, MASK0), BitAnd(BitOr(t0 / B44, t1 * B20 % B64), MASK1), BitAnd(t1 / B24, MASK2);
      Multiplier(r0, r1, r2) && Value(r0, r1, r2) == BitAnd(t0 + B64 * t1, CLAMP)
  {
    hide BitAnd, BitOr;
    var x := BitOr(t0 / B44, t1 * B20 % B64);
    AndLow(t0, MASK0);
    AndLow(x, MASK1);
    Limbs128(t0, t1);
    AndValue(t0 % B44, x % B44, t1 / B24, MASK0, MASK1, MASK2);
    BitAndBound(t0, MASK0);
    BitAndBound(x, MASK1);
    BitAndBound(t1 / B24, MASK2);
  }

  // ----- The last reduction

  /** Carries once around: from the second limb up, past the prime and back into it. */
  method CarryAround(a0: U64, a1: U64, a2: U64) returns (h0: U64, h1: U64, h2: U64, ghost k: int)
    requires Accumulator(a0, a1, a2)
    ensures h0 < B44 && h1 <= B44 && h2 < B42
    ensures Value(h0, h1, h2) == Value(a0, a1, a2) - PRIME * k
  {
    var c: U64 := a1 / B44;
    h1 := a1 % B44;
    h2 := a2 + c;
    c := h2 / B42;
    h2 := h2 % B42;
    k := c;
    h0 := a0 + c * 5;
    c := h0 / B44;
    h0 := h0 % B44;
    h1 := h1 + c;
  }

  /** (h & ~c) | (g & c), where c has all bits set or none. */
  function Select(c: U64, h: U64, g: U64): nat {
    BitOr(BitAnd(h, B64 - 1 - c), BitAnd(g, c))
  }

  lemma SelectIs(c: U64, h: U64, g: U64)
    requires c == 0 || c == B64 - 1
    ensures Select(c, h, g) == if c == 0 then h else g
  {
    hide BitAnd, BitOr, Pow2;
    Powers();
    BitAndOnes(h, 64);
    BitAndOnes(g, 64);
    BitAndZero(h);
    BitAndZero(g);
    BitOrZero(h);
    BitOrZero(g);
  }

  /** The number less the prime, and all bits set unless that is negative. */
  method LessPrime(h0: U64, h1: U64, h2: U64) returns (g0: U64, g1: U64, g2: U64, c: U64)
    requires h0 < B44 && h1 <= B44 && h2 < B42
    ensures c == if Value(h0, h1, h2) < PRIME then 0 else B64 - 1
    ensures g0 < B44 && g1 < B44 && (Value(h0, h1, h2) >= PRIME ==> Value(g0, g1, g2) == Value(h0, h1, h2) - PRIME)
  {
    g0 := h0 + 5;
    c := g0 / B44;
    g0 := g0 % B44;
    g1 := h1 + c;
    c := g1 / B44;
    g1 := g1 % B44;
    ghost var top := h2 + c;
    assert Value(g0, g1, top) == Value(h0, h1, h2) + 5;
    g2 := (h2 + c - B42) % B64;
    assert g2 == if top < B42 then B64 + top - B42 else top - B42;
    c := (g2 / 0x8000_0000_0000_0000 - 1) % B64;
    assert c == if top < B42 then 0 else B64 - 1;
  }

  /** The remainder by the prime, without a branch. */
  method Reduce(a0: U64, a1: U64, a2: U64) returns (h0: U64, h1: U64, h2: U64)
    requires Accumulator(a0, a1, a2)
    ensures h0 < B44 && h1 <= B44 && h2 < B42 && Value(h0, h1, h2) == Mod(Value(a0, a1, a2), PRIME)
  {
    hide Select, Mod;
    ghost var k, j;
    h0, h1, h2, k := CarryAround(a0, a1, a2);
    h0, h1, h2, j := CarryAround(h0, h1, h2);
    ghost var v := Value(h0, h1, h2);
    Congruent(v, Value(a0, a1, a2), k + j);
    var g0, g1, g2, c := LessPrime(h0, h1, h2);
    SelectIs(c, h0, g0);
    SelectIs(c, h1, g1);
    SelectIs(c, h2, g2);
    h0 := Select(c, h0, g0);
    h1 := Select(c, h1, g1);
    h2 := Select(c, h2, g2);
    Remainder(v, Value(h0, h1, h2));
  }

  lemma Remainder(v: int, w: int)
    requires 0 <= v < 2 * PRIME && w == if v < PRIME then v else v - PRIME
    ensures w == Mod(v, PRIME)
  {
    DivModUnique(v, if v < PRIME then 0 else 1, w, PRIME);
  }

  /** The words of the tag: the sum with the second half of the key, cut to 128 bits. */
  method AddPad(a0: U64, a1: U64, a2: U64, t0: U64, t1: U64) returns (w0: U64, w1: U64)
    requires a0 < B44 && a1 <= B44 && a2 < B42
    ensures w0 + B64 * w1 == Mod(Value(a0, a1, a2) + t0 + B64 * t1, B128)
  {
    hide BitOr, Limb1, Mod;
    Limbs128(t0, t1);
    var h0: U64 := a0 + Limb0(t0);
    var c: U64 := h0 / B44;
    h0 := h0 % B44;
    var h1: U64 := a1 + (Limb1(t0, t1) + c);
    c := h1 / B44;
    h1 := h1 % B44;
    var h2: U64 := a2 + (Limb2(t1) + c);
    ghost var q := h2 / B42;
    h2 := h2 % B42;
    assert Value(h0, h1, h2) + B130 * q == Value(a0, a1, a2) + t0 + B64 * t1;
    Joined(h0, h1, h2);
    w0 := BitOr(h0, h1 * B44 % B64);
    w1 := BitOr(h1 / B20, h2 * B24 % B64);
    ModMany(Value(a0, a1, a2) + t0 + B64 * t1, Value(h0, h1, h2), q);
  }

  lemma ModMany(x: int, y: int, q: int)
    requires x == y + B130 * q
    ensures Mod(x, B128) == Mod(y, B128)
  {
    ModAdd(y, 4 * q, B128);
  }

  /** Three limbs put together as two words. */
  lemma Joined(h0: nat, h1: nat, h2: nat)
    requires h0 < B44 && h1 < B44 && h2 < B42
    ensures var w0, w1 := BitOr(h0, h1 * B44 % B64), BitOr(h1 / B20, h2 * B24 % B64);
      w0 < B64 && w1 < B64 && w0 + B64 * w1 == Mod(Value(h0, h1, h2), B128)
  {
    hide BitOr;
    JoinedParts(h0, h1 % B20, h1 / B20, h2 % 0x100_0000_0000, h2 / 0x100_0000_0000);
  }

  lemma JoinedParts(a: nat, b: nat, c: nat, d: nat, e: nat)
    requires a < B44 && b < B20 && c < B24 && d < 0x100_0000_0000 && e < 4
    ensures var h1, h2 := b + B20 * c, d + 0x100_0000_0000 * e;
      && BitOr(a, h1 * B44 % B64) == a + B44 * b && BitOr(c, h2 * B24 % B64) == c + B24 * d
      && Mod(Value(a, h1, h2), B128) == Value(a, h1, d) == (a + B44 * b) + B64 * (c + B24 * d)
  {
    hide BitOr, Pow2;
    var h1, h2 := b + B20 * c, d + 0x100_0000_0000 * e;
    Powers();
    DivModUnique(h1 * B44, c, B44 * b, B64);
    DivModUnique(h2 * B24, e, B24 * d, B64);
    OrSum(a, b, 44);
    OrSum(c, d, 24);
    DivModUnique(Value(a, h1, h2), e, Value(a, h1, d), B128);
  }

  function ToLittleEndian(v: nat, n: nat): (s: Bytes)
    ensures |s| == n
  {
    if n == 0 then [] else
      var first: byte := v % 256;
      [first] + ToLittleEndian(v / 256, n - 1)
  }

  lemma {:induction false} ToLittleEndianValue(v: nat, n: nat)
    requires v < Pow(256, n)
    ensures LittleEndian(ToLittleEndian(v, n)) == v
  {
    if n > 0 {
      ToLittleEndianValue(v / 256, n - 1);
      assert ToLittleEndian(v, n)[1..] == ToLittleEndian(v / 256, n - 1);
      ValCons(ToLittleEndian(v, n), 256);
    }
  }

  lemma TagBytes(w0: U64, w1: U64)
    ensures LittleEndian(ToLittleEndian(w0, 8) + ToLittleEndian(w1, 8)) == w0 + B64 * w1
  {
    hide LittleEndian, ToLittleEndian;
    OctetPowers();
    ToLittleEndianValue(w0, 8);
    ToLittleEndianValue(w1, 8);
    LittleEndianConcat(ToLittleEndian(w0, 8), ToLittleEndian(w1, 8));
  }

  method MakeTag(h0: U64, h1: U64, h2: U64, t0: U64, t1: U64) returns (mac: Bytes)
    requires Accumulator(h0, h1, h2)
    ensures |mac| == 16 && LittleEndian(mac) == Mod(Mod(Value(h0, h1, h2), PRIME) + (t0 + B64 * t1), B128)
  {
    hide LittleEndian, Mod, Value, ToLittleEndian;
    var g0, g1, g2 := Reduce(h0, h1, h2);
    var w0, w1 := AddPad(g0, g1, g2, t0, t1);
    TagBytes(w0, w1);
    mac := ToLittleEndian(w0, 8) + ToLittleEndian(w1, 8);
  }

  // ----- The authenticator

  /** The accumulator after whole blocks, each with `top` added. */
  function Absorb(a: nat, r: nat, m: Bytes, top: nat): nat
    decreases |m|
  {
    if |m| < 16 then a
    else Absorb(Mod((a + LittleEndian(m[..16]) + top) * r, PRIME), r, m[16..], top)
  }

  lemma {:induction false} AbsorbIsPoly(a: nat, r: nat, m: Bytes)
    requires |m| % 16 == 0
    ensures Absorb(a, r, m, B128) == Poly(a, r, m)
    decreases |m|
  {
    hide Mod, LittleEndian, Pow;
    if m != [] {
      AbsorbIsPoly(Mod((a + LittleEndian(m[..16]) + B128) * r, PRIME), r, m[16..]);
    }
  }

  /** The accumulator may be reduced before or after the block is added and multiplied. */
  lemma ReduceFirst(h: int, x: int, r: int)
    ensures Mod((h + x) * r, PRIME) == Mod((Mod(h, PRIME) + x) * r, PRIME)
  {
    var q := h / PRIME;
    assert h == q * PRIME + Mod(h, PRIME);
    MulDist(q * PRIME, Mod(h, PRIME) + x, r);
    MulAssoc(q, PRIME, r);
    MulCommutes(PRIME, r);
    MulAssoc(q, r, PRIME);
    ModAdd((Mod(h, PRIME) + x) * r, q * r, PRIME);
  }

  /** The two words of a block. */
  lemma BlockWords(m: Bytes)
    requires |m| == 16
    ensures LittleEndian(m[..8]) < B64 && LittleEndian(m[8..]) < B64
    ensures LittleEndian(m) == LittleEndian(m[..8]) + B64 * LittleEndian(m[8..])
  {
    hide LittleEndian;
    OctetPowers();
    LittleEndianBound(m[..8]);
    LittleEndianBound(m[8..]);
    LittleEndianConcat(m[..8], m[8..]);
    assert m == m[..8] + m[8..];
  }

  /** The first half of the key in limbs, with the bits cleared that the standard clears. */
  method Clamp(t0: U64, t1: U64) returns (r0: U64, r1: U64, r2: U64)
    ensures Multiplier(r0, r1, r2) && Value(r0, r1, r2) == BitAnd(t0 + B64 * t1, CLAMP)
  {
    hide BitAnd, BitOr;
    Clamped(t0, t1);
    r0 := BitAnd(t0, MASK0);
    r1 := BitAnd(BitOr(t0 / B44, t1 * B20 % B64), MASK1);
    r2 := BitAnd(t1 / B24, MASK2);
  }

  /** The key as four words. */
  method Words(key: Bytes) returns (t0: U64, t1: U64, t2: U64, t3: U64)
    requires |key| == 32
    ensures t0 + B64 * t1 == LittleEndian(key[..16]) && t2 + B64 * t3 == LittleEndian(key[16..])
  {
    hide LittleEndian;
    BlockWords(key[..16]);
    BlockWords(key[16..]);
    assert key[..16][..8] == key[..8] && key[..16][8..] == key[8..16];
    assert key[16..][..8] == key[16..24] && key[16..][8..] == key[24..];
    t0, t1 := LittleEndian(key[..8]), LittleEndian(key[8..16]);
    t2, t3 := LittleEndian(key[16..24]), LittleEndian(key[24..]);
  }

  lemma NothingYet(r: nat)
    ensures Mod(Value(0, 0, 0), PRIME) == 0 == Poly(0, r, [])
  {
  }

  class Authenticator {
    var r0: U64
    var r1: U64
    var r2: U64
    var h0: U64
    var h1: U64
    var h2: U64
    var pad0: U64
    var pad1: U64
    var leftover: nat
    const buffer: array<byte>
    var final: bool
    /** The key, and all octets taken in so far. */
    ghost const key: Bytes
    ghost var seen: Bytes

    ghost function R(): nat
      reads this
      requires Multiplier(r0, r1, r2)
    {
      Value(r0, r1, r2)
    }

    ghost function H(): nat
      reads this
      requires Accumulator(h0, h1, h2)
    {
      Mod(Value(h0, h1, h2), PRIME)
    }

    ghost predicate Bounded()
      reads this
    {
      Multiplier(r0, r1, r2) && Accumulator(h0, h1, h2) && buffer.Length == 16
    }

    /** The whole blocks are in the accumulator, the rest is in the buffer. */
    ghost predicate Held()
      reads this, buffer
    {
      && Bounded() && |key| == 32 && !final
      && R() == BitAnd(LittleEndian(key[..16]), CLAMP) && pad0 + B64 * pad1 == LittleEndian(key[16..])
      && leftover <= 16 && leftover <= |seen| && (|seen| - leftover) % 16 == 0
      && buffer[..leftover] == seen[|seen| - leftover..]
      && H() == Poly(0, R(), seen[..|seen| - leftover])
    }

    ghost predicate Valid()
      reads this, buffer
    {
      Held() && leftover < 16
    }

    constructor (key: Bytes)
      requires |key| == 32
      ensures Valid() && this.key == key && seen == [] && fresh(buffer)
    {
      hide *;
      h0, h1, h2, leftover, final := 0, 0, 0, 0, false;
      buffer := new byte[16];
      this.key, seen := key, [];
      var t0, t1, t2, t3 := Words(key);
      var c0, c1, c2 := Clamp(t0, t1);
      r0, r1, r2, pad0, pad1 := c0, c1, c2, t2, t3;
      new;
      Begun();
    }

    lemma Begun()
      requires |key| == 32 && Multiplier(r0, r1, r2) && h0 == h1 == h2 == leftover == 0 && !final && seen == []
      requires buffer.Length == 16 && Value(r0, r1, r2) == BitAnd(LittleEndian(key[..16]), CLAMP)
      requires pad0 + B64 * pad1 == LittleEndian(key[16..])
      ensures Valid()
    {
      hide BitAnd, LittleEndian, Mod, Poly, Multiplier;
      NothingYet(R());
    }

    /** Absorbs whole blocks. */
    method Blocks(m: Bytes)
      requires Bounded()
      modifies `h0, `h1, `h2
      ensures Bounded() && H() == Absorb(old(H()), R(), m, if final then 0 else B128)
    {
      hide LittleEndian, Mod, Value;
      var hibit: U64 := if final then 0 else 0x100_0000_0000;
      ghost var top, goal := B88 * hibit, Absorb(H(), R(), m, if final then 0 else B128);
      var i := 0;
      while |m| - i >= 16
        invariant 0 <= i <= |m| && Bounded() && Absorb(H(), R(), m[i..], top) == goal
      {
        ghost var block, h := m[i..][..16], Value(h0, h1, h2);
        assert block[..8] == m[i..i + 8] && block[8..] == m[i + 8..i + 16] && m[i..][16..] == m[i + 16..];
        BlockWords(block);
        ReduceFirst(h, LittleEndian(block) + top, R());
        h0, h1, h2 := Block(h0, h1, h2, r0, r1, r2, LittleEndian(m[i..i + 8]), LittleEndian(m[i + 8..i + 16]), hibit);
        i := i + 16;
      }
    }

    /** Copies octets behind those in the buffer. */
    method Copy(m: Bytes)
      requires buffer.Length == 16 && leftover + |m| <= 16
      modifies buffer
      ensures buffer[..leftover + |m|] == old(buffer[..leftover]) + m
    {
      for i := 0 to |m|
        invariant buffer[..leftover + i] == old(buffer[..leftover]) + m[..i]
      {
        buffer[leftover + i] := m[i];
        assert buffer[..leftover + i + 1] == buffer[..leftover + i] + [m[i]];
        assert m[..i + 1] == m[..i] + [m[i]];
      }
      assert m[..|m|] == m;
    }

    /** Puts as much into the buffer as it takes. */
    method TopUp(m: Bytes) returns (rest: Bytes)
      requires Valid()
      modifies this, buffer
      ensures Held() && |rest| <= |m| && rest == m[|m| - |rest|..] && seen == old(seen) + m[..|m| - |rest|]
      ensures rest != [] ==> leftover == 16
    {
      hide LittleEndian, Mod, BitAnd, Poly, Absorb, Value;
      var want := 16 - leftover;
      if want > |m| {
        want := |m|;
      }
      ghost var full := seen[..|seen| - leftover];
      Copy(m[..want]);
      rest := m[want..];
      leftover := leftover + want;
      seen := seen + m[..want];
      assert buffer[..leftover] == seen[|seen| - leftover..] && seen[..|seen| - leftover] == full;
    }

    /** Absorbs a full buffer. */
    method Flush()
      requires Held() && leftover == 16
      modifies this
      ensures Valid() && leftover == 0 && seen == old(seen)
    {
      hide LittleEndian, Mod, BitAnd, Poly, Absorb, Value;
      ghost var full := seen[..|seen| - 16];
      assert buffer[..] == buffer[..16] && seen == full + buffer[..];
      Absorbed(R(), full, buffer[..]);
      Blocks(buffer[..]);
      leftover := 0;
      assert seen[..|seen|] == seen && buffer[..0] == seen[|seen|..];
    }

    /** Tops up a buffer that holds something, and absorbs it once it is full. */
    method Fill(m: Bytes) returns (rest: Bytes)
      requires Valid() && leftover > 0
      modifies this, buffer
      ensures Valid() && |rest| <= |m| && rest == m[|m| - |rest|..] && seen == old(seen) + m[..|m| - |rest|]
      ensures rest != [] ==> leftover == 0
    {
      hide Held;
      rest := TopUp(m);
      if leftover < 16 {
        return;
      }
      Most();
      Flush();
    }

    lemma Most()
      requires Held()
      ensures leftover <= 16
    {
    }

    /** Absorbs the whole blocks of a message. */
    method Whole(m: Bytes) returns (rest: Bytes)
      requires Valid() && leftover == 0
      modifies this
      ensures Valid() && leftover == 0 && |rest| < 16 && |rest| <= |m|
      ensures rest == m[|m| - |rest|..] && seen == old(seen) + m[..|m| - |rest|]
    {
      hide LittleEndian, Mod, BitAnd, Poly, Absorb, Value;
      var want := |m| / 16 * 16;
      assert seen[..|seen|] == seen;
      Absorbed(R(), seen, m[..want]);
      Blocks(m[..want]);
      seen := seen + m[..want];
      rest := m[want..];
      assert seen[..|seen|] == seen && buffer[..0] == seen[|seen|..];
    }

    /** Keeps less than a block in the empty buffer. */
    method Keep(m: Bytes)
      requires Valid() && leftover == 0 && |m| < 16
      modifies this, buffer
      ensures Valid() && seen == old(seen) + m
    {
      hide LittleEndian, Mod, BitAnd, Poly, Absorb, Value;
      ghost var full := seen;
      Copy(m);
      leftover := leftover + |m|;
      seen := seen + m;
      assert full[..|full|] == full;
      assert buffer[..leftover] == seen[|seen| - leftover..] && seen[..|seen| - leftover] == full;
    }

    /** Takes in more of the message. */
    method Update(m: Bytes)
      requires Valid()
      modifies this, buffer
      ensures Valid() && seen == old(seen) + m
    {
      hide *;
      ghost var was := seen;
      var rest := m;
      if leftover > 0 {
        rest := Fill(rest);
      }
      assert seen == was + m[..|m| - |rest|] && rest == m[|m| - |rest|..];
      if |rest| >= 16 {
        rest := Whole(rest);
      }
      assert seen == was + m[..|m| - |rest|] && rest == m[|m| - |rest|..];
      if rest != [] {
        Keep(rest);
      }
      assert seen == was + m;
    }

    /** Writes a one and zeros behind what is left in the buffer. */
    method Pad(ghost zeros: Bytes)
      requires buffer.Length == 16 && leftover < 16 && |zeros| == 15 - leftover
      requires forall i :: 0 <= i < |zeros| ==> zeros[i] == 0
      modifies buffer
      ensures buffer[..] == old(buffer[..leftover]) + [1] + zeros
    {
      buffer[leftover] := 1;
      for i := leftover + 1 to 16
        invariant buffer[..leftover] == old(buffer[..leftover]) && buffer[leftover] == 1
        invariant forall j :: leftover < j < i ==> buffer[j] == 0
      {
        buffer[i] := 0;
      }
    }

    /** Pads what is left in the buffer to a block and absorbs it. */
    method LastBlock()
      requires Valid() && leftover > 0
      modifies this, buffer
      ensures Bounded() && R() == old(R()) && pad0 == old(pad0) && pad1 == old(pad1) && seen == old(seen)
      ensures H() == Poly(0, R(), seen)
    {
      hide LittleEndian, Mod, BitAnd, Poly, Absorb, Value;
      ghost var tail, full := buffer[..leftover], seen[..|seen| - leftover];
      ghost var zeros: Bytes := seq(15 - leftover, _ => 0);
      Pad(zeros);
      final := true;
      assert seen == full + tail;
      LastIs(R(), full, tail, zeros);
      Blocks(buffer[..]);
    }

    /** The tag of all that was taken in; the state is wiped. */
    method Finish() returns (mac: Bytes)
      requires Valid()
      modifies this, buffer
      ensures |mac| == 16 && LittleEndian(mac) == Tag(key, seen) && seen == old(seen)
      ensures r0 == r1 == r2 == h0 == h1 == h2 == pad0 == pad1 == 0
    {
      hide LittleEndian, Mod, BitAnd, Poly, Absorb, Value;
      if leftover > 0 {
        LastBlock();
      } else {
        assert seen[..|seen|] == seen;
      }
      mac := MakeTag(h0, h1, h2, pad0, pad1);
      h0, h1, h2, r0, r1, r2, pad0, pad1 := 0, 0, 0, 0, 0, 0, 0, 0;
    }
  }

  lemma Absorbed(r: nat, full: Bytes, m: Bytes)
    requires |full| % 16 == 0 && |m| % 16 == 0
    ensures Absorb(Poly(0, r, full), r, m, B128) == Poly(0, r, full + m)
  {
    hide Poly, Absorb;
    AbsorbIsPoly(Poly(0, r, full), r, m);
    PolyConcat(0, r, full, m);
  }

  /** A one above the octets of a partial block stands for its place. */
  lemma PaddedValue(tail: Bytes, zeros: Bytes)
    requires forall i :: 0 <= i < |zeros| ==> zeros[i] == 0
    ensures LittleEndian(tail + [1] + zeros) == LittleEndian(tail) + Pow(256, |tail|)
  {
    hide LittleEndian, Pow;
    var p, q := Pow(256, |tail|), Pow(256, |tail| + 1);
    LittleEndianZeros(zeros);
    LittleEndianOne(1);
    LittleEndianConcat(tail, [1]);
    LittleEndianConcat(tail + [1], zeros);
    assert p * LittleEndian([1]) == p && q * LittleEndian(zeros) == 0;
  }

  lemma LastIs(r: nat, full: Bytes, tail: Bytes, zeros: Bytes)
    requires |full| % 16 == 0 && 0 < |tail| < 16 && |zeros| == 15 - |tail|
    requires forall i :: 0 <= i < |zeros| ==> zeros[i] == 0
    ensures Absorb(Poly(0, r, full), r, tail + [1] + zeros, 0) == Poly(0, r, full + tail)
  {
    hide LittleEndian, Mod, Pow;
    PaddedValue(tail, zeros);
    PolyConcat(0, r, full, tail);
    var block := tail + [1] + zeros;
    assert block[..16] == block && block[16..] == [];
  }

  /** However a message is cut into pieces, its tag is the same. */
  method Authenticate(key: Bytes, chunks: seq<Bytes>) returns (mac: Bytes)
    requires |key| == 32
    ensures |mac| == 16 && LittleEndian(mac) == Tag(key, Concat(chunks))
  {
    hide *;
    var st := new Authenticator(key);
    NoChunks();
    for i := 0 to |chunks|
      invariant st.Valid() && st.key == key && fresh(st.buffer) && st.seen == Concat(chunks[..i])
    {
      assert chunks[..i + 1] == chunks[..i] + [chunks[i]];
      ConcatSnoc(chunks[..i], chunks[i]);
      st.Update(chunks[i]);
    }
    assert chunks[..|chunks|] == chunks;
    mac := st.Finish();
  }

  lemma NoChunks()
    ensures Concat([]) == []
  {
  }
}
