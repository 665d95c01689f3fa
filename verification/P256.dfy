/** Arithmetic modulo the prime of the curve P-256 (src/ecc.c, appendix D.2.3 of FIPS 186-4). */
module P256 {
  import opened Arith
  import opened Bits
  import opened Vli

  const PRIME: nat := 0xffff_ffff_0000_0001_0000_0000_0000_0000_0000_0000_ffff_ffff_ffff_ffff_ffff_ffff

  // ----- Halves of digits

  function Hi(x: digit): (r: digit)
    ensures r < H
  {
    x / H
  }

  function Lo(x: digit): (r: digit)
    ensures r < H
  {
    x % H
  }

  /** x << 32, cut to 64 bits. */
  function Up(x: digit): digit {
    x * H % B
  }

  /** x & 0xffffffff00000000. */
  function Upper(x: digit): nat {
    BitAnd(x, B - H)
  }

  lemma Pow32()
    ensures Pow2(32) == H
  {
    Pow2Values();
  }

  lemma HalfFacts(x: digit)
    ensures x == Lo(x) + H * Hi(x) && Up(x) == Lo(x) * H && Upper(x) == Hi(x) * H && BitAnd(x, H - 1) == Lo(x)
  {
    hide BitAnd, Pow2, Shl;
    DivModUnique(x * H, Hi(x), Lo(x) * H, B);
    Pow32();
    ShlIsMul(Hi(x), 32);
    ShlIsMul(H - 1, 32);
    ShlZero(32);
    BitAndSplit(Lo(x), Hi(x), 0, H - 1, 32);
    BitAndZero(Lo(x));
    BitAndOnes(Hi(x), 32);
    BitAndSplit(Lo(x), Hi(x), H - 1, 0, 32);
    BitAndZero(Hi(x));
    BitAndOnes(Lo(x), 32);
  }

  /** A low half and a high half put together. */
  lemma Together(a: nat, b: nat)
    requires a < H
    ensures BitOr(a, b * H) == a + b * H
  {
    hide BitOr, Pow2;
    Pow32();
    OrSum(a, b, 32);
  }

  // ----- The terms of the reduction

  /** A number of eight 32-bit words, most significant first, as the standard lists them. */
  function Words(a7: int, a6: int, a5: int, a4: int, a3: int, a2: int, a1: int, a0: int): int {
    a0 + H * a1 + B * (a2 + H * a3) + B2 * (a4 + H * a5) + B3 * (a6 + H * a7)
  }

  /** Word i of a 512-bit number. */
  function C(p: seq<digit>, i: nat): (r: nat)
    requires |p| == 8 && i < 16
    ensures r < H
  {
    if i % 2 == 0 then Lo(p[i / 2]) else Hi(p[i / 2])
  }

  function S1(p: seq<digit>): int
    requires |p| == 8
  {
    Words(C(p, 15), C(p, 14), C(p, 13), C(p, 12), C(p, 11), 0, 0, 0)
  }

  function S2(p: seq<digit>): int
    requires |p| == 8
  {
    Words(0, C(p, 15), C(p, 14), C(p, 13), C(p, 12), 0, 0, 0)
  }

  function S3(p: seq<digit>): int
    requires |p| == 8
  {
    Words(C(p, 15), C(p, 14), 0, 0, 0, C(p, 10), C(p, 9), C(p, 8))
  }

  function S4(p: seq<digit>): int
    requires |p| == 8
  {
    Words(C(p, 8), C(p, 13), C(p, 15), C(p, 14), C(p, 13), C(p, 11), C(p, 10), C(p, 9))
  }

  function D1(p: seq<digit>): int
    requires |p| == 8
  {
    Words(C(p, 10), C(p, 8), 0, 0, 0, C(p, 13), C(p, 12), C(p, 11))
  }

  function D2(p: seq<digit>): int
    requires |p| == 8
  {
    Words(C(p, 11), C(p, 9), 0, 0, C(p, 15), C(p, 14), C(p, 13), C(p, 12))
  }

  function D3(p: seq<digit>): int
    requires |p| == 8
  {
    Words(C(p, 12), 0, C(p, 10), C(p, 9), C(p, 8), C(p, 15), C(p, 14), C(p, 13))
  }

  function D4(p: seq<digit>): int
    requires |p| == 8
  {
    Words(C(p, 13), 0, C(p, 11), C(p, 10), C(p, 9), 0, C(p, 15), C(p, 14))
  }

  /** The low half of the number with all terms added and subtracted. */
  function Folded(p: seq<digit>): int
    requires |p| == 8
  {
    V(p[..4]) + 2 * S1(p) + 2 * S2(p) + S3(p) + S4(p) - D1(p) - D2(p) - D3(p) - D4(p)
  }

  /** How often the prime was left out: the quotient by the prime of each word's place, less its terms. */
  function Quotient(c8: int, c9: int, c10: int, c11: int, c12: int, c13: int, c14: int, c15: int): int {
    c8
    + 0x0001_0000_0001 * c9
    + 0x0001_0000_0001_0000_0000 * c10
    + 0x0001_0000_0000_ffff_ffff_ffff_ffff * c11
    + 0x0001_0000_0000_ffff_ffff_ffff_fffe_ffff_ffff * c12
    + 0x0001_0000_0000_ffff_ffff_ffff_fffe_ffff_fffe_ffff_ffff * c13
    + 0x0001_0000_0000_ffff_ffff_ffff_fffe_ffff_fffe_ffff_fffe_ffff_ffff * c14
    + 0x0001_0000_0000_ffff_ffff_ffff_fffe_ffff_fffe_ffff_fffe_ffff_ffff_0000_0000 * c15
  }

  lemma HighWords(p: seq<digit>)
    requires |p| == 8
    ensures V(p[4..]) == Words(C(p, 15), C(p, 14), C(p, 13), C(p, 12), C(p, 11), C(p, 10), C(p, 9), C(p, 8))
  {
    assert p[4..][0] == p[4] && p[4..][1] == p[5] && p[4..][2] == p[6] && p[4..][3] == p[7];
  }

  /** The terms differ from the number by a multiple of the prime. */
  lemma FoldedIs(p: seq<digit>)
    requires |p| == 8
    ensures Wide(p) - Folded(p)
         == PRIME * Quotient(C(p, 8), C(p, 9), C(p, 10), C(p, 11), C(p, 12), C(p, 13), C(p, 14), C(p, 15))
  {
    hide C, V;
    HighWords(p);
    FoldedWords(C(p, 8), C(p, 9), C(p, 10), C(p, 11), C(p, 12), C(p, 13), C(p, 14), C(p, 15));
  }

  lemma FoldedWords(c8: int, c9: int, c10: int, c11: int, c12: int, c13: int, c14: int, c15: int)
    ensures B4 * Words(c15, c14, c13, c12, c11, c10, c9, c8)
         - 2 * Words(c15, c14, c13, c12, c11, 0, 0, 0) - 2 * Words(0, c15, c14, c13, c12, 0, 0, 0)
         - Words(c15, c14, 0, 0, 0, c10, c9, c8) - Words(c8, c13, c15, c14, c13, c11, c10, c9)
         + Words(c10, c8, 0, 0, 0, c13, c12, c11) + Words(c11, c9, 0, 0, c15, c14, c13, c12)
         + Words(c12, 0, c10, c9, c8, c15, c14, c13) + Words(c13, 0, c11, c10, c9, 0, c15, c14)
         == PRIME * Quotient(c8, c9, c10, c11, c12, c13, c14, c15)
  {
  }

  // ----- The reduction

  method Load(tmp: array<digit>, t0: digit, t1: digit, t2: digit, t3: digit)
    requires tmp.Length == 4
    modifies tmp
    ensures tmp[..] == [t0, t1, t2, t3]
  {
    tmp[0], tmp[1], tmp[2], tmp[3] := t0, t1, t2, t3;
  }

  /** Adds a term; the carry counts multiples of 2^256. */
  method Plus(result: array<digit>, tmp: array<digit>, carry: int) returns (c: int)
    requires result.Length == tmp.Length == 4 && result != tmp
    modifies result
    ensures V(result[..]) + c * B4 == old(V(result[..])) + carry * B4 + V(tmp[..])
  {
    hide V;
    var k := Add(result, result, tmp);
    c := carry + k;
  }

  method Minus(result: array<digit>, tmp: array<digit>, carry: int) returns (c: int)
    requires result.Length == tmp.Length == 4 && result != tmp
    modifies result
    ensures V(result[..]) + c * B4 == old(V(result[..])) + carry * B4 - V(tmp[..])
  {
    hide V;
    var k := Sub(result, result, tmp);
    c := carry - k;
  }

  /** Adds twice a term whose low digit is zero, and stays so. */
  method PlusTwice(result: array<digit>, tmp: array<digit>, carry: int) returns (c: int)
    requires result.Length == tmp.Length == 4 && result != tmp && tmp[0] == 0
    modifies result, tmp
    ensures V(result[..]) + c * B4 == old(V(result[..])) + carry * B4 + 2 * old(V(tmp[..])) && tmp[0] == 0
  {
    hide V, Pow2;
    Pow2One();
    ghost var was := tmp[..];
    var j := Lshift(tmp, tmp, 1);
    LowDigit(tmp[..], was, j);
    c := Plus(result, tmp, carry + j);
  }

  lemma LowDigit(t: seq<digit>, was: seq<digit>, j: nat)
    requires |t| == |was| == 4 && was[0] == 0 && V(t) + j * B4 == V(was) * 2
    ensures t[0] == 0
  {
    DivModUnique(t[0], 2 * (was[1] + B * was[2] as int + B2 * was[3] as int) - (t[1] + B * t[2] as int + B2 * t[3] as int) - j * B3, 0, B);
  }

  /** (a >> 32) | (b << 32). */
  function Across(a: digit, b: digit): nat {
    BitOr(Hi(a), Up(b))
  }

  /** (a >> 32) | (b & 0xffffffff00000000). */
  function Highs(a: digit, b: digit): nat {
    BitOr(Hi(a), Upper(b))
  }

  /** (a & 0xffffffff) | (b << 32). */
  function Lows(a: digit, b: digit): nat {
    BitOr(BitAnd(a, H - 1), Up(b))
  }

  lemma Mixed(a: digit, b: digit)
    ensures Across(a, b) == Hi(a) + Lo(b) * H < B
    ensures Highs(a, b) == Hi(a) + Hi(b) * H < B
    ensures Lows(a, b) == Lo(a) + Lo(b) * H < B
  {
    hide BitOr, BitAnd;
    HalfFacts(a);
    HalfFacts(b);
    Together(Hi(a), Lo(b));
    Together(Hi(a), Hi(b));
    Together(Lo(a), Lo(b));
  }

  lemma Halved(p: seq<digit>)
    requires |p| == 8
    ensures C(p, 8) + H * C(p, 9) == p[4] && C(p, 10) + H * C(p, 11) == p[5]
    ensures C(p, 12) + H * C(p, 13) == p[6] && C(p, 14) + H * C(p, 15) == p[7]
    ensures C(p, 8) == Lo(p[4]) && C(p, 9) == Hi(p[4]) && C(p, 10) == Lo(p[5]) && C(p, 11) == Hi(p[5])
    ensures C(p, 12) == Lo(p[6]) && C(p, 13) == Hi(p[6]) && C(p, 14) == Lo(p[7]) && C(p, 15) == Hi(p[7])
  {
  }

  method AddS1(result: array<digit>, tmp: array<digit>, p: array<digit>, carry: int) returns (c: int)
    requires result.Length == tmp.Length == 4 && result != tmp && p.Length == 8 && p != result && p != tmp
    modifies result, tmp
    ensures V(result[..]) + c * B4 == old(V(result[..])) + carry * B4 + 2 * S1(p[..]) && tmp[0] == 0
  {
    hide V, S1, BitAnd, BitOr, Upper, Up, Across, Highs, Lows;
    HalfFacts(p[5]);
    Load(tmp, 0, Upper(p[5]), p[6], p[7]);
    S1Is(p[..], tmp[..]);
    c := PlusTwice(result, tmp, carry);
  }

  lemma S1Is(p: seq<digit>, t: seq<digit>)
    requires |p| == 8 && t == [0, Hi(p[5]) * H, p[6], p[7]]
    ensures V(t) == S1(p)
  {
    hide Hi, Lo, C;
    Halved(p);
  }

  method AddS2(result: array<digit>, tmp: array<digit>, p: array<digit>, carry: int) returns (c: int)
    requires result.Length == tmp.Length == 4 && result != tmp && p.Length == 8 && p != result && p != tmp && tmp[0] == 0
    modifies result, tmp
    ensures V(result[..]) + c * B4 == old(V(result[..])) + carry * B4 + 2 * S2(p[..])
  {
    hide V, S2, BitAnd, BitOr, Upper, Up, Across, Highs, Lows;
    HalfFacts(p[6]);
    Mixed(p[6], p[7]);
    Load(tmp, tmp[0], Up(p[6]), Across(p[6], p[7]), Hi(p[7]));
    S2Is(p[..], tmp[..]);
    c := PlusTwice(result, tmp, carry);
  }

  lemma S2Is(p: seq<digit>, t: seq<digit>)
    requires |p| == 8 && t == [0, Lo(p[6]) * H, Hi(p[6]) + Lo(p[7]) * H, Hi(p[7])]
    ensures V(t) == S2(p)
  {
    hide Hi, Lo, C;
    Halved(p);
  }

  method AddS3(result: array<digit>, tmp: array<digit>, p: array<digit>, carry: int) returns (c: int)
    requires result.Length == tmp.Length == 4 && result != tmp && p.Length == 8 && p != result && p != tmp
    modifies result, tmp
    ensures V(result[..]) + c * B4 == old(V(result[..])) + carry * B4 + S3(p[..])
  {
    hide V, S3, BitAnd, BitOr, Upper, Up, Across, Highs, Lows;
    HalfFacts(p[5]);
    Load(tmp, p[4], BitAnd(p[5], H - 1), 0, p[7]);
    S3Is(p[..], tmp[..]);
    c := Plus(result, tmp, carry);
  }

  lemma S3Is(p: seq<digit>, t: seq<digit>)
    requires |p| == 8 && t == [p[4], Lo(p[5]), 0, p[7]]
    ensures V(t) == S3(p)
  {
    hide Hi, Lo, C;
    Halved(p);
  }

  method AddS4(result: array<digit>, tmp: array<digit>, p: array<digit>, carry: int) returns (c: int)
    requires result.Length == tmp.Length == 4 && result != tmp && p.Length == 8 && p != result && p != tmp
    modifies result, tmp
    ensures V(result[..]) + c * B4 == old(V(result[..])) + carry * B4 + S4(p[..])
  {
    hide V, S4, BitAnd, BitOr, Upper, Up, Across, Highs, Lows;
    Mixed(p[4], p[5]);
    Mixed(p[5], p[6]);
    Mixed(p[6], p[4]);
    Load(tmp, Across(p[4], p[5]), Highs(p[5], p[6]), p[7], Across(p[6], p[4]));
    S4Is(p[..], tmp[..]);
    c := Plus(result, tmp, carry);
  }

  lemma S4Is(p: seq<digit>, t: seq<digit>)
    requires |p| == 8 && t == [Hi(p[4]) + Lo(p[5]) * H, Hi(p[5]) + Hi(p[6]) * H, p[7], Hi(p[6]) + Lo(p[4]) * H]
    ensures V(t) == S4(p)
  {
    hide Hi, Lo, C;
    Halved(p);
  }

  method SubtractD1(result: array<digit>, tmp: array<digit>, p: array<digit>, carry: int) returns (c: int)
    requires result.Length == tmp.Length == 4 && result != tmp && p.Length == 8 && p != result && p != tmp
    modifies result, tmp
    ensures V(result[..]) + c * B4 == old(V(result[..])) + carry * B4 - D1(p[..])
  {
    hide V, D1, BitAnd, BitOr, Upper, Up, Across, Highs, Lows;
    Mixed(p[5], p[6]);
    Mixed(p[4], p[5]);
    Load(tmp, Across(p[5], p[6]), Hi(p[6]), 0, Lows(p[4], p[5]));
    D1Is(p[..], tmp[..]);
    c := Minus(result, tmp, carry);
  }

  lemma D1Is(p: seq<digit>, t: seq<digit>)
    requires |p| == 8 && t == [Hi(p[5]) + Lo(p[6]) * H, Hi(p[6]), 0, Lo(p[4]) + Lo(p[5]) * H]
    ensures V(t) == D1(p)
  {
    hide Hi, Lo, C;
    Halved(p);
  }

  method SubtractD2(result: array<digit>, tmp: array<digit>, p: array<digit>, carry: int) returns (c: int)
    requires result.Length == tmp.Length == 4 && result != tmp && p.Length == 8 && p != result && p != tmp
    modifies result, tmp
    ensures V(result[..]) + c * B4 == old(V(result[..])) + carry * B4 - D2(p[..])
  {
    hide V, D2, BitAnd, BitOr, Upper, Up, Across, Highs, Lows;
    Mixed(p[4], p[5]);
    Load(tmp, p[6], p[7], 0, Highs(p[4], p[5]));
    D2Is(p[..], tmp[..]);
    c := Minus(result, tmp, carry);
  }

  lemma D2Is(p: seq<digit>, t: seq<digit>)
    requires |p| == 8 && t == [p[6], p[7], 0, Hi(p[4]) + Hi(p[5]) * H]
    ensures V(t) == D2(p)
  {
    hide Hi, Lo, C;
    Halved(p);
  }

  method SubtractD3(result: array<digit>, tmp: array<digit>, p: array<digit>, carry: int) returns (c: int)
    requires result.Length == tmp.Length == 4 && result != tmp && p.Length == 8 && p != result && p != tmp
    modifies result, tmp
    ensures V(result[..]) + c * B4 == old(V(result[..])) + carry * B4 - D3(p[..])
  {
    hide V, D3, BitAnd, BitOr, Upper, Up, Across, Highs, Lows;
    Mixed(p[6], p[7]);
    Mixed(p[7], p[4]);
    Mixed(p[4], p[5]);
    HalfFacts(p[6]);
    Load(tmp, Across(p[6], p[7]), Across(p[7], p[4]), Across(p[4], p[5]), Up(p[6]));
    D3Is(p[..], tmp[..]);
    c := Minus(result, tmp, carry);
  }

  lemma D3Is(p: seq<digit>, t: seq<digit>)
    requires |p| == 8 && t == [Hi(p[6]) + Lo(p[7]) * H, Hi(p[7]) + Lo(p[4]) * H, Hi(p[4]) + Lo(p[5]) * H, Lo(p[6]) * H]
    ensures V(t) == D3(p)
  {
    hide Hi, Lo, C;
    Halved(p);
  }

  method SubtractD4(result: array<digit>, tmp: array<digit>, p: array<digit>, carry: int) returns (c: int)
    requires result.Length == tmp.Length == 4 && result != tmp && p.Length == 8 && p != result && p != tmp
    modifies result, tmp
    ensures V(result[..]) + c * B4 == old(V(result[..])) + carry * B4 - D4(p[..])
  {
    hide V, D4, BitAnd, BitOr, Upper, Up, Across, Highs, Lows;
    HalfFacts(p[4]);
    HalfFacts(p[6]);
    Load(tmp, p[7], Upper(p[4]), p[5], Upper(p[6]));
    D4Is(p[..], tmp[..]);
    c := Minus(result, tmp, carry);
  }

  lemma D4Is(p: seq<digit>, t: seq<digit>)
    requires |p| == 8 && t == [p[7], Hi(p[4]) * H, p[5], Hi(p[6]) * H]
    ensures V(t) == D4(p)
  {
    hide Hi, Lo, C;
    Halved(p);
  }

  method Prime() returns (p: array<digit>)
    ensures fresh(p) && p.Length == 4 && V(p[..]) == PRIME
  {
    p := new digit[4];
    Load(p, 0xffff_ffff_ffff_ffff, 0xffff_ffff, 0, 0xffff_ffff_0000_0001);
  }

  /** All terms; the carry is exact, and may be negative. */
  method Fold(result: array<digit>, p: array<digit>) returns (carry: int)
    requires result.Length == 4 && p.Length == 8 && p != result
    modifies result
    ensures V(result[..]) + carry * B4 == Folded(p[..])
  {
    hide V, S1, S2, S3, S4, D1, D2, D3, D4;
    var tmp := new digit[4];
    Copy(result, p, 0);
    assert p[0..4] == p[..][..4];
    carry := AddS1(result, tmp, p, 0);
    carry := AddS2(result, tmp, p, carry);
    carry := AddS3(result, tmp, p, carry);
    carry := AddS4(result, tmp, p, carry);
    carry := SubtractD1(result, tmp, p, carry);
    carry := SubtractD2(result, tmp, p, carry);
    carry := SubtractD3(result, tmp, p, carry);
    carry := SubtractD4(result, tmp, p, carry);
  }

  lemma Digits4(s: seq<digit>)
    requires |s| == 4
    ensures V(s) < B4
  {
    hide V;
    FourDigits(s);
  }

  /** Adds the prime as long as the number is negative. */
  method Raise(result: array<digit>, prime: array<digit>, carry: int, ghost x: int) returns (ghost k: nat)
    requires result.Length == prime.Length == 4 && result != prime && V(prime[..]) == PRIME && carry < 0
    requires V(result[..]) + carry * B4 == x
    modifies result
    ensures V(result[..]) == x + k * PRIME && V(result[..]) < PRIME
  {
    hide V;
    Digits4(result[..]);
    var j := Add(result, result, prime);
    var c := carry + j;
    k := 1;
    Digits4(result[..]);
    while c < 0
      invariant V(result[..]) + c * B4 == x + k * PRIME < PRIME && V(result[..]) < B4 && c <= 0 && V(prime[..]) == PRIME
      decreases -(V(result[..]) + c * B4)
    {
      j := Add(result, result, prime);
      c := c + j;
      k := k + 1;
      Digits4(result[..]);
    }
  }

  /** Subtracts the prime as long as the number reaches it. */
  method Lower(result: array<digit>, prime: array<digit>, carry: int, ghost x: int) returns (ghost k: nat)
    requires result.Length == prime.Length == 4 && result != prime && V(prime[..]) == PRIME && carry >= 0
    requires V(result[..]) + carry * B4 == x
    modifies result
    ensures V(result[..]) == x - k * PRIME && V(result[..]) < PRIME
  {
    hide V;
    var c := carry;
    k := 0;
    while true
      invariant V(result[..]) + c * B4 == x - k * PRIME && c >= 0 && V(prime[..]) == PRIME
      decreases V(result[..]) + c * B4
    {
      Digits4(result[..]);
      var r := Cmp(prime, result);
      if c == 0 && r == 1 {
        return;
      }
      var j := Sub(result, result, prime);
      c := c - j;
      k := k + 1;
      Digits4(result[..]);
    }
  }

  /** result = product mod the prime, for every 512-bit product. */
  method MmodFast(result: array<digit>, product: array<digit>)
    requires result.Length == 4 && product.Length == 8 && result != product
    modifies result
    ensures V(result[..]) == Mod(Wide(product[..]), PRIME)
  {
    hide V, Wide, Folded, Quotient, Mod;
    ghost var p := product[..];
    var prime := Prime();
    var carry := Fold(result, product);
    ghost var x, k := Folded(p), 0;
    FoldedIs(p);
    ghost var q := Quotient(C(p, 8), C(p, 9), C(p, 10), C(p, 11), C(p, 12), C(p, 13), C(p, 14), C(p, 15));
    if carry < 0 {
      k := Raise(result, prime, carry, x);
      Remainder(Wide(p), V(result[..]), q - k);
    } else {
      k := Lower(result, prime, carry, x);
      Remainder(Wide(p), V(result[..]), q + k);
    }
  }

  lemma Remainder(x: int, r: int, q: int)
    requires x == r + q * PRIME && 0 <= r < PRIME
    ensures r == Mod(x, PRIME)
  {
    DivModUnique(x, q, r, PRIME);
  }

  /** result = left right mod the prime, fully reduced, for all operands. */
  method ModMultFast(result: array<digit>, left: array<digit>, right: array<digit>)
    requires result.Length == left.Length == right.Length == 4
    modifies result
    ensures V(result[..]) == Mod(old(V(left[..]) * V(right[..])), PRIME)
  {
    hide V, Wide, Mod;
    var product := new digit[8];
    Mult(product, left, right);
    MmodFast(result, product);
  }
}
