/** The 5x52 field multiplication of secp256k1 (src/secp256k1/field_5x52_int128_impl.h). */
module Field5x52 {
  import opened Arith
  import opened Bits

  /** Powers of the limb base, by place. */
  const X: nat := 0x0010_0000_0000_0000
  const X2: nat := X * X
  const X3: nat := X2 * X
  const X4: nat := X2 * X2
  const X5: nat := X4 * X
  const X6: nat := X3 * X3
  const X7: nat := X6 * X
  const X8: nat := X4 * X4

  /** The bounds of intermediate values: Bn is 2^n. */
  const B48: nat := 0x0001_0000_0000_0000
  const B49: nat := 0x0002_0000_0000_0000
  const B56: nat := 0x0100_0000_0000_0000
  const B60: nat := 0x1000_0000_0000_0000
  const B61: nat := 0x2000_0000_0000_0000
  const B62: nat := 0x4000_0000_0000_0000
  const B63: nat := 0x8000_0000_0000_0000
  const B64: nat := 0x0001_0000_0000_0000_0000
  const B100: nat := 0x0010_0000_0000_0000_0000_0000_0000
  const B112: nat := 0x0001_0000_0000_0000_0000_0000_0000_0000
  const B113: nat := 0x0002_0000_0000_0000_0000_0000_0000_0000
  const B114: nat := 0x0004_0000_0000_0000_0000_0000_0000_0000
  const B115: nat := 0x0008_0000_0000_0000_0000_0000_0000_0000
  const B116: nat := 0x0010_0000_0000_0000_0000_0000_0000_0000
  const B128: nat := 0x0001_0000_0000_0000_0000_0000_0000_0000_0000

  /** 2^256 - 2^32 - 977. */
  const PRIME: nat := 0xffff_ffff_ffff_ffff_ffff_ffff_ffff_ffff_ffff_ffff_ffff_ffff_ffff_fffe_ffff_fc2f

  /** 2^260 less sixteen times the prime. */
  const R: nat := 0x10_0000_3D10

  type U64 = x: int | 0 <= x < B64
  type U128 = x: int | 0 <= x < B128

  lemma Folds()
    ensures X5 == R + 16 * PRIME && X4 * B48 == R / 16 + PRIME
  {
  }

  function Value(r0: int, r1: int, r2: int, r3: int, r4: int): int {
    r0 + X * r1 + X2 * r2 + X3 * r3 + X4 * r4
  }

  // ----- The carry chain, over the columns of the product

  /** Columns three, four and eight; the eighth wraps around to the third. */
  method High(p3: U128, p4: U128, p8: U128) returns (t3: U64, t4: U64, tx: U64, d: U128)
    requires p3 < B114 && p4 < B114 && p8 < B112
    ensures t3 < X && t4 < B48 && tx < 16 && d < B64
    ensures p3 + X * p4 + X5 * p8 == t3 + X * (t4 + B48 * tx) + X2 * d + 16 * PRIME * p8
  {
    d := p3;
    var c: U128 := p8;
    d := d + c % X * R;
    c := c / X;
    assert d < B115 && c < B60;
    t3 := d % X;
    d := d / X;
    assert d < B63;
    d := d + p4;
    assert d < B115;
    d := d + c * R;
    assert d < B116;
    t4 := d % X;
    d := d / X;
    assert d < B64;
    tx := t4 / B48;
    t4 := t4 % B48;
    Folds();
  }

  /** Columns zero and five; the fifth, with the bits above 2^256, wraps around to column zero. */
  method Fifth(p0: U128, p5: U128, e: U128, tx: U64) returns (r0: U64, c: U128, d: U128, ghost u: nat)
    requires p0 < B112 && p5 < B113 + B112 && e < B64 && tx < 16
    ensures r0 < X && c < B61 && d < B62
    ensures p0 + X4 * B48 * tx + X5 * (e + p5) == r0 + X * c + X6 * d + PRIME * u
  {
    hide BitOr;
    c := p0;
    d := e + p5;
    assert d < B114;
    var u0: U64 := d % X;
    d := d / X;
    assert u0 < X && d < B62;
    LowBits(u0, tx);
    u0 := BitOr(u0 * 16, tx);
    assert u0 < B56;
    u := u0;
    c := c + u0 * (R / 16);
    assert c < B113;
    r0 := c % X;
    c := c / X;
    Folds();
  }

  lemma LowBits(u0: nat, tx: nat)
    requires tx < 16
    ensures BitOr(u0 * 16, tx) == u0 * 16 + tx
  {
    hide BitOr;
    assert Pow2(4) == 16;
    OrSum(tx, u0, 4);
    OrCommutes(u0 * 16, tx);
  }

  /** A low column and the high one that wraps around to it. */
  method Wrap(p: U128, q: U128, c0: U128, d0: U128) returns (r: U64, c: U128, d: U128, ghost k: nat)
    requires p < B113 + B112 && q < B113 + B112 && c0 < B63 && d0 < B62
    ensures r < X && c < B63 && d < B62
    ensures c0 + p + X5 * (d0 + q) == r + X * c + X6 * d + 16 * PRIME * k
  {
    c := c0 + p;
    assert c < B114;
    d := d0 + q;
    assert d < B114;
    k := d % X;
    c := c + d % X * R;
    d := d / X;
    assert c < B115 && d < B62;
    r := c % X;
    c := c / X;
    Folds();
  }

  /** The last two limbs. */
  method Last(t3: U64, t4: U64, c0: U128, d: U128) returns (r3: U64, r4: U64)
    requires t3 < X && t4 < B48 && c0 < B63 && d < B62
    ensures r3 < X && r4 < B49
    ensures c0 + t3 + X5 * d + X * t4 == r3 + X * r4 + 16 * PRIME * d
  {
    var c: U128 := c0 + (d * R + t3);
    assert c < B100;
    r3 := c % X;
    c := c / X;
    assert c < B48;
    c := c + t4;
    assert c < B49;
    r4 := c;
    Folds();
  }

  // ----- The columns

  /** The sum of the products of limbs that land in column k. */
  function P(a: seq<int>, b: seq<int>, k: nat): int
    requires |a| == |b| == 5
  {
    match k
    case 0 => a[0] * b[0]
    case 1 => a[0] * b[1] + a[1] * b[0]
    case 2 => a[0] * b[2] + a[1] * b[1] + a[2] * b[0]
    case 3 => a[0] * b[3] + a[1] * b[2] + a[2] * b[1] + a[3] * b[0]
    case 4 => a[0] * b[4] + a[1] * b[3] + a[2] * b[2] + a[3] * b[1] + a[4] * b[0]
    case 5 => a[1] * b[4] + a[2] * b[3] + a[3] * b[2] + a[4] * b[1]
    case 6 => a[2] * b[4] + a[3] * b[3] + a[4] * b[2]
    case 7 => a[3] * b[4] + a[4] * b[3]
    case _ => a[4] * b[4]
  }

  /** The bounds on entry: 56 bits, and 52 for the top limb. */
  predicate Entry(a: seq<int>) {
    |a| == 5 && 0 <= a[0] < B56 && 0 <= a[1] < B56 && 0 <= a[2] < B56 && 0 <= a[3] < B56 && 0 <= a[4] < X
  }

  function Number(a: seq<int>): int
    requires |a| == 5
  {
    Value(a[0], a[1], a[2], a[3], a[4])
  }

  lemma LimbProducts(a: seq<int>, b: seq<int>, i: nat)
    requires Entry(a) && Entry(b) && i < 5
    ensures forall j :: 0 <= j < 4 ==> 0 <= a[i] * b[j] < (if i < 4 then B112 else B56 * X)
    ensures 0 <= a[i] * b[4] < (if i < 4 then B56 * X else X2)
  {
    forall j | 0 <= j < 4 ensures 0 <= a[i] * b[j] < (if i < 4 then B112 else B56 * X) {
      ProductBound(a[i], b[j], if i < 4 then B56 - 1 else X - 1, B56 - 1);
    }
    ProductBound(a[i], b[4], if i < 4 then B56 - 1 else X - 1, X - 1);
  }

  lemma ColumnBounds(a: seq<int>, b: seq<int>)
    requires Entry(a) && Entry(b)
    ensures 0 <= P(a, b, 0) < B112 && 0 <= P(a, b, 1) < B113 + B112 && 0 <= P(a, b, 2) < B113 + B112
    ensures 0 <= P(a, b, 3) < B114 && 0 <= P(a, b, 4) < B114 && 0 <= P(a, b, 5) < B113 + B112
    ensures 0 <= P(a, b, 6) < B113 + B112 && 0 <= P(a, b, 7) < B113 + B112 && 0 <= P(a, b, 8) < B112
  {
    LimbProducts(a, b, 0);
    LimbProducts(a, b, 1);
    LimbProducts(a, b, 2);
    LimbProducts(a, b, 3);
    LimbProducts(a, b, 4);
    hide Entry;
  }

  lemma Row(x: int, b: seq<int>)
    requires |b| == 5
    ensures x * Number(b) == x * b[0] + X * (x * b[1]) + X2 * (x * b[2]) + X3 * (x * b[3]) + X4 * (x * b[4])
  {
    MulCommutes(x, Number(b));
    MulDist(b[0] + X * b[1] + X2 * b[2] + X3 * b[3], X4 * b[4], x);
    MulDist(b[0] + X * b[1] + X2 * b[2], X3 * b[3], x);
    MulDist(b[0] + X * b[1], X2 * b[2], x);
    MulDist(b[0], X * b[1], x);
    MulAssoc(X, b[1], x);
    MulAssoc(X2, b[2], x);
    MulAssoc(X3, b[3], x);
    MulAssoc(X4, b[4], x);
    MulCommutes(b[0], x);
    MulCommutes(b[1], x);
    MulCommutes(b[2], x);
    MulCommutes(b[3], x);
    MulCommutes(b[4], x);
  }

  /** The columns at their places make up the product. */
  lemma Expand(a: seq<int>, b: seq<int>)
    requires |a| == |b| == 5
    ensures Number(a) * Number(b)
         == P(a, b, 0) + X * P(a, b, 1) + X2 * P(a, b, 2) + X3 * P(a, b, 3) + X4 * P(a, b, 4)
            + X5 * P(a, b, 5) + X6 * P(a, b, 6) + X7 * P(a, b, 7) + X8 * P(a, b, 8)
  {
    Rows(a, b);
    Row(a[0], b);
    Row(a[1], b);
    Row(a[2], b);
    Row(a[3], b);
    Row(a[4], b);
    hide Number;
  }

  lemma Rows(a: seq<int>, b: seq<int>)
    requires |a| == |b| == 5
    ensures Number(a) * Number(b) == a[0] * Number(b) + X * (a[1] * Number(b)) + X2 * (a[2] * Number(b))
      + X3 * (a[3] * Number(b)) + X4 * (a[4] * Number(b))
  {
    hide Number;
    var n := Number(b);
    Row(n, a);
    MulCommutes(Number(a), n);
    MulCommutes(a[0], n);
    MulCommutes(a[1], n);
    MulCommutes(a[2], n);
    MulCommutes(a[3], n);
    MulCommutes(a[4], n);
  }

  // ----- Multiplication and squaring

  /** The five equations of the carry chain, put together. */
  lemma Combine(p: seq<int>, t3: int, t4: int, tx: int, d1: int, r0: int, c1: int, d2: int, u: int,
                r1: int, c2: int, d3: int, k1: int, r2: int, c3: int, d4: int, k2: int, r3: int, r4: int)
    requires |p| == 9
    requires p[3] + X * p[4] + X5 * p[8] == t3 + X * (t4 + B48 * tx) + X2 * d1 + 16 * PRIME * p[8]
    requires p[0] + X4 * B48 * tx + X5 * (d1 + p[5]) == r0 + X * c1 + X6 * d2 + PRIME * u
    requires c1 + p[1] + X5 * (d2 + p[6]) == r1 + X * c2 + X6 * d3 + 16 * PRIME * k1
    requires c2 + p[2] + X5 * (d3 + p[7]) == r2 + X * c3 + X6 * d4 + 16 * PRIME * k2
    requires c3 + t3 + X5 * d4 + X * t4 == r3 + X * r4 + 16 * PRIME * d4
    ensures Value(r0, r1, r2, r3, r4) + PRIME * (16 * X3 * p[8] + u + 16 * X * k1 + 16 * X2 * k2 + 16 * X3 * d4)
         == p[0] + X * p[1] + X2 * p[2] + X3 * p[3] + X4 * p[4] + X5 * p[5] + X6 * p[6] + X7 * p[7] + X8 * p[8]
  {
  }

  /** Limbs below 2^52, the top one below 2^49. */
  predicate Reduced(r: seq<int>) {
    |r| == 5 && 0 <= r[0] < X && 0 <= r[1] < X && 0 <= r[2] < X && 0 <= r[3] < X && 0 <= r[4] < B49
  }

  /** From the nine columns to the five limbs, each written as soon as it is known. */
  method Chain(r: array<U64>, p: seq<U128>) returns (ghost k: int)
    requires r.Length == 5 && |p| == 9 && p[0] < B112 && p[1] < B113 + B112 && p[2] < B113 + B112 && p[3] < B114
    requires p[4] < B114 && p[5] < B113 + B112 && p[6] < B113 + B112 && p[7] < B113 + B112 && p[8] < B112
    modifies r
    ensures Reduced(r[..])
    ensures Number(r[..]) + PRIME * k
         == p[0] + X * p[1] as int + X2 * p[2] as int + X3 * p[3] as int + X4 * p[4] as int
            + X5 * p[5] as int + X6 * p[6] as int + X7 * p[7] as int + X8 * p[8] as int
  {
    ghost var u, k1, k2;
    var t3, t4, tx, d1 := High(p[3], p[4], p[8]);
    var r0, c1, d2, r1, c2, d3, r2, c3, d4;
    r0, c1, d2, u := Fifth(p[0], p[5], d1, tx);
    r[0] := r0;
    r1, c2, d3, k1 := Wrap(p[1], p[6], c1, d2);
    r[1] := r1;
    r2, c3, d4, k2 := Wrap(p[2], p[7], c2, d3);
    r[2] := r2;
    var r3, r4 := Last(t3, t4, c3, d4);
    r[3] := r3;
    r[4] := r4;
    Combine(p, t3, t4, tx, d1, r0, c1, d2, u, r1, c2, d3, k1, r2, c3, d4, k2, r3, r4);
    k := 16 * X3 * p[8] as int + u + 16 * X * k1 + 16 * X2 * k2 + 16 * X3 * d4 as int;
  }

  lemma Congruent(v: int, k: int, n: int)
    requires v + PRIME * k == n
    ensures Mod(v, PRIME) == Mod(n, PRIME)
  {
    ModAdd(v, k, PRIME);
  }

  /** r = a b, congruent modulo the prime; r may be a. */
  method MulInner(r: array<U64>, a: array<U64>, b: array<U64>)
    requires r.Length == a.Length == b.Length == 5 && r != b && Entry(a[..]) && Entry(b[..])
    modifies r
    ensures Reduced(r[..])
    ensures Mod(Number(r[..]), PRIME) == Mod(old(Number(a[..]) * Number(b[..])), PRIME)
  {
    hide P, Mod, Number, Reduced, Entry;
    var x: seq<int>, y: seq<int> := a[..], b[..];
    ColumnBounds(x, y);
    Expand(x, y);
    ghost var k := Chain(r, [P(x, y, 0), P(x, y, 1), P(x, y, 2), P(x, y, 3), P(x, y, 4), P(x, y, 5), P(x, y, 6), P(x, y, 7),
                             P(x, y, 8)]);
    Congruent(Number(r[..]), k, Number(x) * Number(y));
  }

  /** The columns of a square, with the equal products taken once and doubled. */
  function Q(a: seq<int>, k: nat): int
    requires |a| == 5
  {
    match k
    case 0 => a[0] * a[0]
    case 1 => (a[0] * 2) * a[1]
    case 2 => (a[0] * 2) * a[2] + a[1] * a[1]
    case 3 => (a[0] * 2) * a[3] + (a[1] * 2) * a[2]
    case 4 => a[0] * (a[4] * 2) + (a[1] * 2) * a[3] + a[2] * a[2]
    case 5 => a[1] * (a[4] * 2) + (a[2] * 2) * a[3]
    case 6 => a[2] * (a[4] * 2) + a[3] * a[3]
    case 7 => a[3] * (a[4] * 2)
    case _ => a[4] * a[4]
  }

  lemma Twice(x: int, y: int)
    ensures (x * 2) * y == x * y + y * x && x * (y * 2) == x * y + y * x
  {
    MulDist(x, x, y);
    MulDist(y, y, x);
    MulCommutes(x, y);
    MulCommutes(x, y * 2);
    MulCommutes(x * 2, y);
  }

  lemma SquareColumns(a: seq<int>, k: nat)
    requires |a| == 5 && k < 9
    ensures Q(a, k) == P(a, a, k)
  {
    forall i, j | 0 <= i < 5 && 0 <= j < 5
      ensures (a[i] * 2) * a[j] == a[i] * a[j] + a[j] * a[i] && a[i] * (a[j] * 2) == a[i] * a[j] + a[j] * a[i]
    {
      Twice(a[i], a[j]);
    }
  }

  /** r = a a, congruent modulo the prime; r may be a. */
  method SqrInner(r: array<U64>, a: array<U64>)
    requires r.Length == a.Length == 5 && Entry(a[..])
    modifies r
    ensures Reduced(r[..])
    ensures Mod(Number(r[..]), PRIME) == Mod(old(Number(a[..]) * Number(a[..])), PRIME)
  {
    hide P, Q, Mod, Number, Reduced, Entry;
    var x: seq<int> := a[..];
    ColumnBounds(x, x);
    Expand(x, x);
    forall k: nat | k < 9 ensures Q(x, k) == P(x, x, k) {
      SquareColumns(x, k);
    }
    ghost var k := Chain(r, [Q(x, 0), Q(x, 1), Q(x, 2), Q(x, 3), Q(x, 4), Q(x, 5), Q(x, 6), Q(x, 7), Q(x, 8)]);
    Congruent(Number(r[..]), k, Number(x) * Number(x));
  }
}
