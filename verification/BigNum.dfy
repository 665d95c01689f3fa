/**
 * 512-bit unsigned arithmetic on sixteen 32-bit words (src/bn.c), least word first.
 *
 * Each operation is proved against the number its operands stand for.  Outputs may be the
 * same array as an input, as in the source.
 */
module BigNum {
  import opened Arith
  import opened Bits
  import opened ByteOrder
  import opened Bytes
  import opened Limbs

  type word = w: int | 0 <= w < 0x1_0000_0000

  const BASE: nat := 0x1_0000_0000
  const SIZE: nat := 16

  /** 2^512. */
  ghost const MODULUS: nat := Pow(BASE, SIZE)

  ghost function N(s: seq<word>): int {
    Val(s, BASE)
  }

  lemma Range(s: seq<word>)
    requires |s| == SIZE
    ensures 0 <= N(s) < MODULUS
  {
    ValBound(s, BASE);
  }

  // ----- Addition and subtraction

  method Add(a: array<word>, b: array<word>, c: array<word>)
    requires a.Length == b.Length == c.Length == SIZE
    modifies c
    ensures N(c[..]) == Mod(old(N(a[..]) + N(b[..])), MODULUS)
  {
    hide Val, Pow;
    ghost var x, y := a[..], b[..];
    var carry := 0;
    assert c[..0] == x[..0] == y[..0] == [] by { }
    ValZero([], BASE);
    for i := 0 to SIZE
      invariant 0 <= carry <= 1
      invariant forall k :: i <= k < SIZE ==> a[k] == x[k] && b[k] == y[k]
      invariant Val(c[..i], BASE) + carry * Pow(BASE, i) == Val(x[..i], BASE) + Val(y[..i], BASE)
    {
      var tmp := a[i] as int + b[i] + carry;
      ghost var was := carry;
      carry := if tmp > 0xffff_ffff then 1 else 0;
      ghost var cs := c[..];
      c[i] := tmp % BASE;
      assert c[..i] == cs[..i];
      Column(Pow(BASE, i), x[i], y[i], was, c[i], carry, BASE);
      ValStep(c[..], i, BASE);
      ValStep(x, i, BASE);
      ValStep(y, i, BASE);
      PowStep(i);
    }
    assert c[..SIZE] == c[..] && x[..SIZE] == x && y[..SIZE] == y;
    Range(c[..]);
    DivModUnique(N(x) + N(y), carry, N(c[..]), MODULUS);
  }

  method Sub(a: array<word>, b: array<word>, c: array<word>)
    requires a.Length == b.Length == c.Length == SIZE
    modifies c
    ensures N(c[..]) == Mod(old(N(a[..]) - N(b[..])), MODULUS)
  {
    hide Val, Pow, Mod;
    ghost var x, y := a[..], b[..];
    var borrow := 0;
    ValZero([], BASE);
    for i := 0 to SIZE
      invariant 0 <= borrow <= 1
      invariant forall k :: i <= k < SIZE ==> a[k] == x[k] && b[k] == y[k]
      invariant Val(c[..i], BASE) - borrow * Pow(BASE, i) == Val(x[..i], BASE) - Val(y[..i], BASE)
    {
      var res := (a[i] as int + BASE) - (b[i] + borrow);
      ghost var was, cs := borrow, c[..];
      borrow := if res <= 0xffff_ffff then 1 else 0;
      c[i] := res % BASE;
      BorrowKept(res, borrow);
      assert c[..i] == cs[..i];
      ghost var minus := 0 - y[i] as int;
      Column(Pow(BASE, i), x[i], minus, -was, c[i], -borrow, BASE);
      MulDist(0, y[i], Pow(BASE, i));
      ValStep(c[..], i, BASE);
      ValStep(x, i, BASE);
      ValStep(y, i, BASE);
      PowStep(i);
    }
    assert c[..SIZE] == c[..] && x[..SIZE] == x && y[..SIZE] == y;
    Range(c[..]);
    Remainder(N(x) - N(y), -borrow, N(c[..]));
  }

  /** The word kept and the borrow of a column that was raised by BASE. */
  lemma BorrowKept(res: int, borrow: int)
    requires 0 <= res < 2 * BASE && borrow == if res <= 0xffff_ffff then 1 else 0
    ensures res % BASE - borrow * BASE == res - BASE
  {
  }

  lemma Remainder(a: int, q: int, r: nat)
    requires a == q * MODULUS + r && r < MODULUS
    ensures Mod(a, MODULUS) == r
  {
    DivModUnique(a, q, r, MODULUS);
  }

  method Inc(n: array<word>)
    requires n.Length == SIZE
    modifies n
    ensures N(n[..]) == Mod(old(N(n[..])) + 1, MODULUS)
  {
    hide Val, Pow;
    ghost var x := n[..];
    ValZero([], BASE);
    PowZero();
    for i := 0 to SIZE
      invariant Val(n[..i], BASE) + Pow(BASE, i) == Val(x[..i], BASE) + 1
      invariant forall k :: i <= k < SIZE ==> n[k] == x[k]
    {
      var tmp := n[i];
      var res := (tmp as int + 1) % BASE;
      ghost var ns := n[..];
      n[i] := res;
      assert n[..i] == ns[..i];
      ValStep(n[..], i, BASE);
      ValStep(x, i, BASE);
      PowStep(i);
      MulDist(tmp, 1, Pow(BASE, i));
      if res > tmp {
        assert n[i + 1..] == x[i + 1..];
        SameTail(n[..], x, i + 1);
        Range(n[..]);
        DivModUnique(N(x) + 1, 0, N(n[..]), MODULUS);
        return;
      }
    }
    assert n[..SIZE] == n[..] && x[..SIZE] == x;
    Range(n[..]);
    DivModUnique(N(x) + 1, 1, N(n[..]), MODULUS);
  }

  /** Numbers that agree from word i on differ as their low parts do. */
  lemma SameTail(s: seq<word>, t: seq<word>, i: nat)
    requires |s| == |t| && i <= |s| && s[i..] == t[i..]
    ensures N(s) - N(t) == Val(s[..i], BASE) - Val(t[..i], BASE)
  {
    hide Val, Pow;
    assert s == s[..i] + s[i..] && t == t[..i] + t[i..];
    ValConcat(s[..i], s[i..], BASE);
    ValConcat(t[..i], t[i..], BASE);
  }

  // ----- Comparison

  method Cmp(a: array<word>, b: array<word>) returns (r: int)
    requires a.Length == b.Length == SIZE
    ensures r == if N(a[..]) > N(b[..]) then 1 else if N(a[..]) < N(b[..]) then -1 else 0
  {
    var i := SIZE;
    while i != 0
      invariant 0 <= i <= SIZE && a[i..] == b[i..]
    {
      i := i - 1;
      if a[i] > b[i] {
        ValOrder(b[..], a[..], i, BASE);
        return 1;
      } else if a[i] < b[i] {
        ValOrder(a[..], b[..], i, BASE);
        return -1;
      }
    }
    assert a[..] == a[0..] == b[0..] == b[..];
    return 0;
  }

  method IsZero(n: array<word>) returns (r: bool)
    requires n.Length == SIZE
    ensures r <==> N(n[..]) == 0
  {
    for i := 0 to SIZE
      invariant forall k :: 0 <= k < i ==> n[k] == 0
    {
      if n[i] != 0 {
        NonZero(n[..], i);
        return false;
      }
    }
    ValZero(n[..], BASE);
    return true;
  }

  lemma NonZero(s: seq<word>, i: nat)
    requires i < |s| && s[i] != 0
    ensures N(s) > 0
  {
    hide Val, Pow;
    assert s == s[..i + 1] + s[i + 1..];
    ValConcat(s[..i + 1], s[i + 1..], BASE);
    ValStep(s, i, BASE);
    ValBound(s[..i], BASE);
    ValBound(s[i + 1..], BASE);
    MulOrder(1, s[i], Pow(BASE, i));
    MulOrder(0, Val(s[i + 1..], BASE), Pow(BASE, i + 1));
  }

  // ----- Copies and conversions

  method Init(n: array<word>)
    requires n.Length == SIZE
    modifies n
    ensures N(n[..]) == 0 && forall k :: 0 <= k < SIZE ==> n[k] == 0
  {
    for i := 0 to SIZE
      invariant forall k :: 0 <= k < i ==> n[k] == 0
    {
      n[i] := 0;
    }
    ValZero(n[..], BASE);
  }

  method Assign(dst: array<word>, src: array<word>)
    requires dst.Length == src.Length == SIZE
    modifies dst
    ensures dst[..] == old(src[..])
  {
    ghost var s := src[..];
    for i := 0 to SIZE
      invariant dst[..i] == s[..i] && forall k :: i <= k < SIZE ==> src[k] == s[k]
    {
      dst[i] := src[i];
    }
  }

  method FromInt(n: array<word>, i: nat)
    requires n.Length == SIZE && i < 0x1_0000_0000_0000_0000
    modifies n
    ensures N(n[..]) == i
  {
    Init(n);
    n[0] := i % BASE;
    n[1] := i / BASE;
    TwoWords(n[..]);
  }

  lemma TwoWords(s: seq<word>)
    requires |s| == SIZE && forall k :: 2 <= k < SIZE ==> s[k] == 0
    ensures N(s) == s[0] + s[1] as int * BASE
  {
    hide Val, Pow;
    ValCons(s, BASE);
    ValCons(s[1..], BASE);
    ValZero(s[1..][1..], BASE);
  }

  lemma PowZero()
    ensures Pow(BASE, 0) == 1
  {
  }

  lemma PowStep(i: nat)
    ensures Pow(BASE, i + 1) == Pow(BASE, i) * BASE
  {
  }

  // ----- Shifts

  method LshiftWord(a: array<word>, nwords: nat)
    requires a.Length == SIZE
    modifies a
    ensures N(a[..]) == Mod(old(N(a[..])) * Pow(BASE, nwords), MODULUS)
  {
    ghost var s := a[..];
    var i := SIZE - 1;
    while i >= nwords
      invariant -1 <= i < SIZE && (i >= nwords - 1 || i == SIZE - 1)
      invariant forall k :: i < k < SIZE ==> a[k] == s[k - nwords]
      invariant forall k :: 0 <= k <= i ==> a[k] == s[k]
    {
      a[i] := a[i - nwords];
      i := i - 1;
    }
    while i >= 0
      invariant -1 <= i < nwords && i < SIZE
      invariant forall k :: nwords <= k < SIZE ==> a[k] == s[k - nwords]
      invariant forall k :: i < k < nwords && k < SIZE ==> a[k] == 0
    {
      a[i] := 0;
      i := i - 1;
    }
    WordsShifted(s, a[..], nwords);
  }

  lemma WordsShifted(s: seq<word>, t: seq<word>, n: nat)
    requires |s| == |t| == SIZE
    requires forall k :: n <= k < SIZE ==> t[k] == s[k - n]
    requires forall k :: 0 <= k < n && k < SIZE ==> t[k] == 0
    ensures N(t) == N(s) * Pow(BASE, n) % MODULUS
  {
    hide Val, Pow;
    if n > SIZE {
      ValZero(t, BASE);
      PowAdd(BASE, n - SIZE, SIZE);
      MulAssoc(N(s), Pow(BASE, n - SIZE), MODULUS);
      DivModUnique(N(s) * Pow(BASE, n), N(s) * Pow(BASE, n - SIZE), 0, MODULUS);
      return;
    }
    var m := SIZE - n;
    var low, high := Val(s[..m], BASE), Val(s[m..], BASE);
    assert s == s[..m] + s[m..];
    ValConcat(s[..m], s[m..], BASE);
    assert t == t[..n] + t[n..] && t[n..] == s[..m];
    ValConcat(t[..n], t[n..], BASE);
    ValZero(t[..n], BASE);
    PowAdd(BASE, m, n);
    MulDist(low, high * Pow(BASE, m), Pow(BASE, n));
    MulAssoc(high, Pow(BASE, m), Pow(BASE, n));
    Range(t);
    DivModUnique(N(s) * Pow(BASE, n), high, N(t), MODULUS);
  }

  /** A word shifted left, and the bit that falls out. */
  function Twice(w: word): (r: word)
    ensures r % 2 == 0
  {
    2 * w as int % BASE
  }

  function TopBit(w: word): (r: word)
    ensures r <= 1 && Twice(w) as int + r as int * BASE == 2 * w as int
  {
    w / 0x8000_0000
  }

  function Half(w: word): (r: word)
    ensures r < 0x8000_0000
  {
    w / 2
  }

  function LowBit(w: word): (r: word)
    ensures r <= 1 && w == 2 * Half(w) as int + r
  {
    w % 2
  }

  lemma OrLow(x: nat, y: nat)
    requires x % 2 == 0 && y <= 1
    ensures BitOr(x, y) == x + y
  {
    BitOrStep(x, y);
    BitOrZero(x / 2);
  }

  lemma OrHigh(x: nat, y: nat)
    requires x < 0x8000_0000 && y <= 1
    ensures BitOr(x, y * 0x8000_0000) == x + y * 0x8000_0000
  {
    hide BitOr, Pow2;
    Pow2Values();
    BitOrSplit(x, 0, 0, y, 31);
    ShlIsMul(0, 31);
    ShlIsMul(y, 31);
    BitOrZero(x);
    BitOrZero(y);
  }

  method Lshift1(a: array<word>)
    requires a.Length == SIZE
    modifies a
    ensures N(a[..]) == Mod(2 * old(N(a[..])), MODULUS)
  {
    hide Twice, TopBit, Val, Pow, BitOr;
    ghost var s := a[..];
    var i := SIZE - 1;
    while i > 0
      invariant 0 <= i < SIZE
      invariant forall k :: i < k < SIZE ==> a[k] == Twice(s[k]) as int + TopBit(s[k - 1])
      invariant forall k :: 0 <= k <= i ==> a[k] == s[k]
    {
      var hi, lo := Twice(a[i]), TopBit(a[i - 1]);
      OrLow(hi, lo);
      a[i] := BitOr(hi, lo);
      i := i - 1;
    }
    a[0] := Twice(a[0]);
    Doubled(s, a[..]);
  }

  lemma Doubled(s: seq<word>, t: seq<word>)
    requires |s| == |t| == SIZE && t[0] == Twice(s[0])
    requires forall k :: 0 < k < SIZE ==> t[k] == Twice(s[k]) as int + TopBit(s[k - 1])
    ensures N(t) == 2 * N(s) % MODULUS
  {
    hide Twice, TopBit, Val, Pow;
    BitsLeft(s, t, SIZE);
    assert s[..SIZE] == s && t[..SIZE] == t;
    Range(t);
    DivModUnique(2 * N(s), TopBit(s[SIZE - 1]), N(t), MODULUS);
  }

  lemma {:induction false} BitsLeft(s: seq<word>, t: seq<word>, i: nat)
    requires |s| == |t| && 0 < i <= |s|
    requires t[0] == Twice(s[0])
    requires forall k :: 0 < k < |s| ==> t[k] == Twice(s[k]) as int + TopBit(s[k - 1])
    ensures Val(t[..i], BASE) + TopBit(s[i - 1]) as int * Pow(BASE, i) == 2 * Val(s[..i], BASE)
  {
    hide *;
    var j := i - 1;
    var p, top := Pow(BASE, j), TopBit(s[j]);
    ValStep(s, j, BASE);
    ValStep(t, j, BASE);
    PowStep(j);
    if j == 0 {
      ValZero(s[..0], BASE);
      ValZero(t[..0], BASE);
      Column(p, s[0], s[0], 0, t[0], top, BASE);
    } else {
      BitsLeft(s, t, j);
      Column(p, s[j], s[j], TopBit(s[j - 1]), t[j], top, BASE);
    }
  }

  method Rshift1(a: array<word>)
    requires a.Length == SIZE
    modifies a
    ensures N(a[..]) == old(N(a[..])) / 2
  {
    hide Half, LowBit, Val, Pow, BitOr;
    ghost var s := a[..];
    for i := 0 to SIZE - 1
      invariant forall k :: 0 <= k < i ==> a[k] == Half(s[k]) as int + LowBit(s[k + 1]) as int * 0x8000_0000
      invariant forall k :: i <= k < SIZE ==> a[k] == s[k]
    {
      var lo, hi := Half(a[i]), LowBit(a[i + 1]) as int * 0x8000_0000;
      OrHigh(lo, LowBit(a[i + 1]));
      a[i] := BitOr(lo, hi);
    }
    a[SIZE - 1] := Half(a[SIZE - 1]);
    BitsRight(s, a[..], SIZE);
    assert s[..SIZE] == s && a[..][..SIZE] == a[..];
  }

  lemma {:induction false} BitsRight(s: seq<word>, t: seq<word>, i: nat)
    requires 0 < |s| == |t| && i <= |s|
    requires forall k :: 0 <= k < |s| - 1 ==> t[k] == Half(s[k]) as int + LowBit(s[k + 1]) as int * 0x8000_0000
    requires t[|s| - 1] == Half(s[|s| - 1])
    ensures 2 * Val(t[..i], BASE) + LowBit(s[0]) ==
      Val(s[..i], BASE) + (if i < |s| then LowBit(s[i]) as int else 0) * Pow(BASE, i)
  {
    hide Val, Pow, Half, LowBit;
    if i == 0 {
      ValZero(s[..0], BASE);
      ValZero(t[..0], BASE);
      PowZero();
    } else {
      var j := i - 1;
      var p, bit := Pow(BASE, j), LowBit(s[j]) as int;
      var bit' := if i < |s| then LowBit(s[i]) as int else 0;
      BitsRight(s, t, j);
      ValStep(s, j, BASE);
      ValStep(t, j, BASE);
      PowStep(j);
      assert t[j] as int == Half(s[j]) as int + bit' * 0x8000_0000;
      Column(p, s[j], 0 - bit, 0, 2 * t[j] as int, 0 - bit', BASE);
      MulDist(0, bit, p);
      MulDist(0, bit', p * BASE);
      MulAssoc(2, t[j], p);
    }
  }

  // ----- Bitwise or

  lemma {:induction false} PlaceIsShift(i: nat)
    ensures Pow(BASE, i) == Pow2(32 * i)
  {
    if i != 0 {
      PlaceIsShift(i - 1);
      Pow2Add(32 * (i - 1), 32);
      Pow2Values();
    }
  }

  lemma {:induction false} OrWords(s: seq<word>, t: seq<word>, u: seq<word>, i: nat)
    requires |s| == |t| == |u| && i <= |s| && forall k :: 0 <= k < |s| ==> u[k] == BitOr(s[k], t[k])
    ensures Val(s[..i], BASE) >= 0 && Val(t[..i], BASE) >= 0
    ensures Val(u[..i], BASE) == BitOr(Val(s[..i], BASE), Val(t[..i], BASE))
  {
    hide Val, Pow, Pow2, BitOr;
    ValBound(s[..i], BASE);
    ValBound(t[..i], BASE);
    if i == 0 {
      ValZero(s[..0], BASE);
      ValZero(t[..0], BASE);
      ValZero(u[..0], BASE);
      BitOrZero(0);
    } else {
      var j := i - 1;
      var x, y := Val(s[..j], BASE), Val(t[..j], BASE);
      OrWords(s, t, u, j);
      ValStep(s, j, BASE);
      ValStep(t, j, BASE);
      ValStep(u, j, BASE);
      ValBound(s[..j], BASE);
      ValBound(t[..j], BASE);
      PlaceIsShift(j);
      BitOrSplit(x, s[j], y, t[j], 32 * j);
      ShlIsMul(s[j], 32 * j);
      ShlIsMul(t[j], 32 * j);
      ShlIsMul(BitOr(s[j], t[j]), 32 * j);
    }
  }

  method Or(a: array<word>, b: array<word>, c: array<word>)
    requires a.Length == b.Length == c.Length == SIZE
    modifies c
    ensures old(N(a[..])) >= 0 && old(N(b[..])) >= 0
    ensures N(c[..]) == BitOr(old(N(a[..])), old(N(b[..])))
  {
    hide BitOr, Val, Pow, Pow2;
    ghost var s, t := a[..], b[..];
    for i := 0 to SIZE
      invariant forall k :: i <= k < SIZE ==> a[k] == s[k] && b[k] == t[k]
      invariant forall k :: 0 <= k < i ==> c[k] == BitOr(s[k], t[k])
    {
      Pow2Values();
      BitOrBound(a[i], b[i], 32);
      c[i] := BitOr(a[i], b[i]);
    }
    OrWords(s, t, c[..], SIZE);
    assert s[..SIZE] == s && t[..SIZE] == t && c[..][..SIZE] == c[..];
  }

  // ----- Multiplication

  /** A product of two words, moved to column i + j. */
  method Cell(tmp: array<word>, x: word, y: word, i: nat, j: nat)
    requires tmp.Length == SIZE && i + j < SIZE
    modifies tmp
    ensures N(tmp[..]) == (x as int * Pow(BASE, i)) * (y as int * Pow(BASE, j)) % MODULUS
  {
    hide Val, Pow;
    var intermediate := x as int * y as int;
    assert intermediate <= 0xffff_ffff * 0xffff_ffff by {
      MulOrder(x, 0xffff_ffff, y);
      MulOrder(y, 0xffff_ffff, 0xffff_ffff);
    }
    FromInt(tmp, intermediate);
    LshiftWord(tmp, i + j);
    PowAdd(BASE, i, j);
    Rearrange(x, y, Pow(BASE, i), Pow(BASE, j));
  }

  lemma Rearrange(x: int, y: int, p: int, q: int)
    ensures (x * y) * (p * q) == (x * p) * (y * q)
  {
    MulAssoc(x * y, p, q);
    MulAssoc(x, y, p);
    MulCommutes(y, p);
    MulAssoc(x, p, y);
    MulAssoc(x * p, y, q);
  }

  /** Columns past the top do not count. */
  lemma Vanishes(u: int, y: int, i: nat, j: nat)
    requires i + j >= SIZE
    ensures (u * Pow(BASE, i)) * (y * Pow(BASE, j)) % MODULUS == 0
  {
    hide Pow;
    var k := i + j - SIZE;
    Rearrange(u, y, Pow(BASE, i), Pow(BASE, j));
    PowAdd(BASE, i, j);
    PowAdd(BASE, k, SIZE);
    MulAssoc(u * y, Pow(BASE, k), Pow(BASE, SIZE));
    ModAdd(0, u * y * Pow(BASE, k), MODULUS);
  }

  method Row(a: array<word>, b: array<word>, row: array<word>, i: nat)
    requires a.Length == b.Length == row.Length == SIZE && i < SIZE && row != a && row != b
    modifies row
    ensures N(row[..]) == (a[i] as int * Pow(BASE, i)) * N(b[..]) % MODULUS
  {
    hide Val, Pow;
    ghost var u := a[i] as int * Pow(BASE, i);
    Init(row);
    ValZero([], BASE);
    for j := 0 to SIZE
      invariant N(row[..]) == u * Val(b[..j], BASE) % MODULUS
    {
      ghost var was := u * Val(b[..j], BASE);
      ghost var cell := u * (b[j] as int * Pow(BASE, j));
      ValStep(b[..], j, BASE);
      MulDist(Val(b[..j], BASE), b[j] as int * Pow(BASE, j), u);
      MulCommutes(u, Val(b[..j + 1], BASE));
      MulCommutes(u, Val(b[..j], BASE));
      MulCommutes(u, b[j] as int * Pow(BASE, j));
      ModSum(cell, was, MODULUS);
      if i + j < SIZE {
        var tmp := new word[SIZE];
        Cell(tmp, a[i], b[j], i, j);
        Add(tmp, row, row);
      } else {
        Vanishes(a[i], b[j], i, j);
        Range(row[..]);
        DivModUnique(N(row[..]), 0, N(row[..]), MODULUS);
      }
      assert b[..][..j + 1] == b[..j + 1] && b[..][..j] == b[..j];
    }
    assert b[..SIZE] == b[..];
  }

  method Mul(a: array<word>, b: array<word>, c: array<word>)
    requires a.Length == b.Length == c.Length == SIZE
    modifies c
    ensures N(c[..]) == Mod(old(N(a[..]) * N(b[..])), MODULUS)
  {
    hide Val, Pow;
    var row, cc := new word[SIZE], new word[SIZE];
    Init(cc);
    ValZero([], BASE);
    ghost var y := N(b[..]);
    for i := 0 to SIZE
      invariant N(cc[..]) == Val(a[..i], BASE) * y % MODULUS
      invariant a[..] == old(a[..]) && b[..] == old(b[..])
    {
      Row(a, b, row, i);
      ValStep(a[..], i, BASE);
      assert a[..][..i + 1] == a[..i + 1] && a[..][..i] == a[..i];
      MulDist(Val(a[..i], BASE), a[i] as int * Pow(BASE, i), y);
      ModSum(Val(a[..i], BASE) * y, (a[i] as int * Pow(BASE, i)) * y, MODULUS);
      Add(cc, row, cc);
    }
    assert a[..SIZE] == a[..];
    Assign(c, cc);
  }

  /** The part of w << r that stays in its word, and the part that moves to the next. */
  function LowPart(w: word, r: nat): word {
    w as int * Pow2(r) % BASE
  }

  function Spilled(w: word, r: nat): word
    requires r <= 32
  {
    QuotLess(w, Pow2(32 - r));
    w / Pow2(32 - r)
  }

  lemma Spill(w: word, r: nat)
    requires 0 < r < 32
    ensures Spilled(w, r) < Pow2(r) && LowPart(w, r) as int + Spilled(w, r) as int * BASE == w as int * Pow2(r)
  {
    hide Pow2;
    Pow2Add(r, 32 - r);
    Pow2Values();
    ShiftDigit(w, Pow2(r), Pow2(32 - r), BASE);
  }

  lemma Joined(w: word, v: word, r: nat)
    requires 0 < r < 32
    ensures BitOr(LowPart(w, r), Spilled(v, r)) == LowPart(w, r) as int + Spilled(v, r) as int < BASE
  {
    hide Pow2, BitOr;
    Pow2Add(r, 32 - r);
    Pow2Values();
    ShiftDigit(w, Pow2(r), Pow2(32 - r), BASE);
    ShiftDigit(v, Pow2(r), Pow2(32 - r), BASE);
    ShiftOr(w % Pow2(32 - r), Spilled(v, r), r);
  }

  lemma {:induction false} SpilledUp(s: seq<word>, t: seq<word>, r: nat, i: nat)
    requires |s| == |t| && 0 < i <= |s| && 0 < r < 32 && t[0] == LowPart(s[0], r)
    requires forall k :: 0 < k < |s| ==> t[k] == LowPart(s[k], r) as int + Spilled(s[k - 1], r)
    ensures Val(t[..i], BASE) + Spilled(s[i - 1], r) as int * Pow(BASE, i) == Val(s[..i], BASE) * Pow2(r)
  {
    hide Val, Pow, Pow2, LowPart, Spilled;
    var j := i - 1;
    var p, q, top := Pow(BASE, j), Pow2(r), Spilled(s[j], r);
    ValStep(s, j, BASE);
    ValStep(t, j, BASE);
    PowStep(j);
    Spill(s[j], r);
    ShiftPlace(Val(s[..j], BASE), s[j], q, p);
    if j == 0 {
      ValZero(s[..0], BASE);
      ValZero(t[..0], BASE);
      Column(p, s[0] as int * q, 0, 0, t[0], top, BASE);
    } else {
      SpilledUp(s, t, r, j);
      Column(p, s[j] as int * q, 0, Spilled(s[j - 1], r), t[j], top, BASE);
    }
  }

  method LshiftBits(a: array<word>, r: nat)
    requires a.Length == SIZE && 0 < r < 32
    modifies a
    ensures N(a[..]) == Mod(old(N(a[..])) * Pow2(r), MODULUS)
  {
    hide LowPart, Spilled, Val, Pow, Pow2, BitOr;
    ghost var s := a[..];
    var i := SIZE - 1;
    while i > 0
      invariant 0 <= i < SIZE
      invariant forall k :: i < k < SIZE ==> a[k] == LowPart(s[k], r) as int + Spilled(s[k - 1], r)
      invariant forall k :: 0 <= k <= i ==> a[k] == s[k]
    {
      Joined(a[i], a[i - 1], r);
      a[i] := BitOr(LowPart(a[i], r), Spilled(a[i - 1], r));
      i := i - 1;
    }
    a[0] := LowPart(a[0], r);
    SpilledUp(s, a[..], r, SIZE);
    assert s[..SIZE] == s && a[..][..SIZE] == a[..];
    Range(a[..]);
    DivModUnique(N(s) * Pow2(r), Spilled(s[SIZE - 1], r), N(a[..]), MODULUS);
  }

  /** b = a << nbits; the bits shifted past the top are lost, and a is shifted too. */
  method Lshift(a: array<word>, b: array<word>, nbits: nat)
    requires a.Length == b.Length == SIZE
    modifies a, b
    ensures N(b[..]) == Mod(old(N(a[..])) * Pow2(nbits), MODULUS)
    ensures a[..] == b[..]
  {
    hide Val, Pow, Pow2;
    var nwords, rest := nbits / 32, nbits % 32;
    ghost var x := N(a[..]);
    Range(a[..]);
    DivModUnique(x, 0, x, MODULUS);
    PowZero();
    if nwords != 0 {
      LshiftWord(a, nwords);
    }
    PlaceIsShift(nwords);
    Pow2Add(32 * nwords, rest);
    MulAssoc(x, Pow2(32 * nwords), Pow2(rest));
    ModMul(x * Pow2(32 * nwords), Pow2(rest), MODULUS);
    if rest != 0 {
      LshiftBits(a, rest);
    }
    Assign(b, a);
  }

  // ----- Division

  lemma TopWord(s: seq<word>)
    requires |s| == SIZE
    ensures s[SIZE - 1] >= 0x8000_0000 <==> 2 * N(s) >= MODULUS
  {
    hide Val, Pow;
    var p, top := Pow(BASE, SIZE - 1), s[SIZE - 1] as int;
    assert s == s[..SIZE];
    ValStep(s, SIZE - 1, BASE);
    ValBound(s[..SIZE - 1], BASE);
    PowStep(SIZE - 1);
    if top >= 0x8000_0000 {
      MulOrder(0x8000_0000, top, p);
    } else {
      MulOrder(top, 0x7fff_ffff, p);
    }
  }

  /** current is 2^k and denom is b * 2^k. */
  ghost predicate Scaled(current: int, denom: int, b: int, k: nat) {
    current == Pow2(k) && denom == b * Pow2(k)
  }

  lemma ScaledTwice(b: int, k: nat)
    ensures Pow2(k + 1) == 2 * Pow2(k) && b * Pow2(k + 1) == 2 * (b * Pow2(k))
  {
    MulAssoc(b, Pow2(k), 2);
  }

  /** The doubling loop: the divisor is scaled up past the dividend, or until it would overflow. */
  method ScaleUp(a: array<word>, current: array<word>, denom: array<word>, ghost b: nat)
    returns (overflow: bool, ghost k: nat)
    requires a.Length == current.Length == denom.Length == SIZE && a != current && a != denom && current != denom
    requires N(current[..]) == 1 && N(denom[..]) == b > 0
    modifies current, denom
    ensures Scaled(N(current[..]), N(denom[..]), b, k)
    ensures overflow ==> N(denom[..]) <= N(a[..]) < 2 * N(denom[..])
    ensures !overflow ==> N(a[..]) < N(denom[..]) && (k > 0 ==> b * Pow2(k - 1) <= N(a[..]))
  {
    hide N, Pow;
    k := 0;
    while true
      invariant Scaled(N(current[..]), N(denom[..]), b, k)
      invariant k > 0 ==> b * Pow2(k - 1) <= N(a[..])
      decreases MODULUS - N(denom[..])
    {
      Range(denom[..]);
      Range(a[..]);
      var r := Cmp(denom, a);
      if r == 1 {
        return false, k;
      }
      TopWord(denom[..]);
      if denom[SIZE - 1] >= 0x8000_0000 {
        return true, k;
      }
      MulOrder(1, b, Pow2(k));
      DivModUnique(2 * N(current[..]), 0, 2 * N(current[..]), MODULUS);
      DivModUnique(2 * N(denom[..]), 0, 2 * N(denom[..]), MODULUS);
      ScaledTwice(b, k);
      Lshift1(current);
      Lshift1(denom);
      k := k + 1;
    }
  }

  /** The invariant of the subtracting loop: what is left of the dividend is below twice the divisor. */
  ghost predicate Reducing(current: int, denom: int, rest: int, quotient: int, a: int, b: int, k: nat, m: int) {
    && quotient * b + rest == a && 0 <= rest
    && (current == 0 ==> rest < b)
    && (current != 0 ==> Scaled(current, denom, b, k) && rest < 2 * denom && quotient == m * Pow2(k + 1) && 0 <= m)
  }

  lemma HalfStep(current: int, denom: int, rest: int, quotient: int, a: int, b: int, k: nat, m: int)
    requires quotient * b + rest == a && 0 <= rest < denom && 0 <= m
    requires Scaled(current, denom, b, k) && quotient == m * Pow2(k)
    ensures Reducing(current / 2, denom / 2, rest, quotient, a, b, if k > 0 then k - 1 else 0, m)
    ensures current / 2 < current
  {
    if k > 0 {
      ScaledTwice(b, k - 1);
      hide Pow2;
    }
  }

  /** Subtracting the scaled divisor and setting its bit in the quotient. */
  lemma TakeBit(current: int, denom: int, rest: int, quotient: int, a: int, b: int, k: nat, m: int)
    requires Reducing(current, denom, rest, quotient, a, b, k, m) && current != 0 && quotient >= 0 && current > 0
    ensures quotient == (2 * m) * Pow2(k)
    ensures BitOr(quotient, current) == quotient + current == (2 * m + 1) * Pow2(k)
    ensures (quotient + current) * b + (rest - denom) == a
  {
    assert Pow2(k + 1) == 2 * Pow2(k);
    hide Pow2, BitOr, Shl;
    BitOrNext(m, k);
    ShlIsMul(m, k + 1);
    MulAssoc(m, 2, Pow2(k));
    MulDist(2 * m, 1, Pow2(k));
    MulDist(quotient, current, b);
    MulCommutes(b, Pow2(k));
  }

  /** The subtracting loop. */
  method Reduce(current: array<word>, denom: array<word>, tmp: array<word>, c: array<word>,
                ghost a: nat, ghost b: nat, ghost k0: nat)
    requires current.Length == denom.Length == tmp.Length == c.Length == SIZE
    requires current != denom && current != tmp && denom != tmp && c != current && c != denom && c != tmp
    requires b > 0 && N(c[..]) == 0 && Reducing(N(current[..]), N(denom[..]), N(tmp[..]), N(c[..]), a, b, k0, 0)
    modifies current, denom, tmp, c
    ensures N(c[..]) == a / b
  {
    hide N, Pow, Pow2, BitOr;
    ghost var k, m := k0, 0;
    while true
      invariant Reducing(N(current[..]), N(denom[..]), N(tmp[..]), N(c[..]), a, b, k, m)
      decreases N(current[..])
    {
      Range(current[..]);
      Range(denom[..]);
      Range(tmp[..]);
      Range(c[..]);
      var zero := IsZero(current);
      if zero {
        DivModUnique(a, N(c[..]), N(tmp[..]), b);
        return;
      }
      TakeBit(N(current[..]), N(denom[..]), N(tmp[..]), N(c[..]), a, b, k, m);
      var r := Cmp(tmp, denom);
      m := 2 * m;
      if r != -1 {
        DivModUnique(N(tmp[..]) - N(denom[..]), 0, N(tmp[..]) - N(denom[..]), MODULUS);
        Sub(tmp, denom, tmp);
        Or(c, current, c);
        m := m + 1;
      }
      HalfStep(N(current[..]), N(denom[..]), N(tmp[..]), N(c[..]), a, b, k, m);
      Rshift1(current);
      Rshift1(denom);
      k := if k > 0 then k - 1 else 0;
    }
  }

  /** Shift-and-subtract division; the divisor must not be zero, or the scaling loop does not end. */
  method Div(a: array<word>, b: array<word>, c: array<word>)
    requires a.Length == b.Length == c.Length == SIZE && N(b[..]) != 0
    modifies c
    ensures N(c[..]) == old(N(a[..]) / N(b[..]))
  {
    hide N, Pow, Pow2, BitOr;
    ghost var x, y := N(a[..]), N(b[..]);
    Range(a[..]);
    Range(b[..]);
    var current, denom, tmp := new word[SIZE], new word[SIZE], new word[SIZE];
    FromInt(current, 1);
    Assign(denom, b);
    Assign(tmp, a);
    var overflow, k := ScaleUp(a, current, denom, y);
    ghost var k' := k;
    if !overflow {
      StartBelow(y, k, x);
      Rshift1(denom);
      Rshift1(current);
      k' := if k > 0 then k - 1 else 0;
    }
    Init(c);
    Reduce(current, denom, tmp, c, x, y, k');
  }

  lemma StartBelow(b: int, k: nat, a: int)
    requires 0 <= a < b * Pow2(k) && b > 0
    ensures Reducing(Pow2(k) / 2, b * Pow2(k) / 2, a, 0, a, b, if k > 0 then k - 1 else 0, 0)
  {
    HalfStep(Pow2(k), b * Pow2(k), a, 0, a, b, k, 0);
  }

  // ----- Octet strings

  function WordAt(s: Bytes, i: nat): word
    requires i + 4 <= |s|
  {
    s[i] as int * 0x100_0000 + s[i + 1] as int * 0x1_0000 + s[i + 2] as int * 0x100 + s[i + 3] as int
  }

  lemma FourOctets(s: Bytes, i: nat)
    requires i + 4 <= |s|
    ensures BigEndian(s[..i + 4]) == BigEndian(s[..i]) * BASE + WordAt(s, i)
  {
    hide BigEndian;
    BigEndianStep(s, i);
    BigEndianStep(s, i + 1);
    BigEndianStep(s, i + 2);
    BigEndianStep(s, i + 3);
  }

  /** Read a big-endian octet string; octets past the last whole word are ignored. */
  method FromArray(n: array<word>, bytes: Bytes)
    requires n.Length == SIZE && |bytes| / 4 <= SIZE
    modifies n
    ensures N(n[..]) == BigEndian(bytes[..|bytes| / 4 * 4])
  {
    hide Val, Pow, BigEndian, WordAt;
    Init(n);
    var words := |bytes| / 4;
    var j, i := words - 1, 0;
    ValZero(n[words..words], BASE);
    BigEndianZero(bytes[..0]);
    while j >= 0
      invariant -1 <= j < words && i == 4 * (words - 1 - j)
      invariant forall k :: words <= k < SIZE ==> n[k] == 0
      invariant Val(n[j + 1..words], BASE) == BigEndian(bytes[..i])
      decreases j
    {
      ghost var was := n[j + 1..words];
      n[j] := WordAt(bytes, i);
      FourOctets(bytes, i);
      assert n[j..words] == [n[j]] + was && n[j..words][1..] == was;
      ValCons(n[j..words], BASE);
      j, i := j - 1, i + 4;
    }
    assert n[..] == n[0..words] + n[words..];
    ValConcat(n[0..words], n[words..], BASE);
    ValZero(n[words..], BASE);
  }

  /** Write the low octets of a number, big-endian; size is a multiple of four. */
  method ToArray(n: array<word>, size: nat) returns (bytes: Bytes)
    requires n.Length == SIZE && size / 4 <= SIZE
    ensures |bytes| == size / 4 * 4
    ensures BigEndian(bytes) == Mod(N(n[..]), Pow(BASE, size / 4))
  {
    var words := size / 4;
    hide *;
    bytes := WriteWords(n, words);
    assert n[0..words] == n[..][0..words];
    LowWords(n[..], words);
  }

  method WriteWords(n: array<word>, words: nat) returns (bytes: Bytes)
    requires n.Length == SIZE && words <= SIZE
    ensures |bytes| == words * 4
    ensures BigEndian(bytes) == Val(n[0..words], BASE)
  {
    hide Val, BigEndian, Octets;
    var j := words - 1;
    bytes := [];
    ValZero(n[words..words], BASE);
    BigEndianZero([]);
    while j >= 0
      invariant -1 <= j < words && |bytes| == 4 * (words - 1 - j)
      invariant Val(n[j + 1..words], BASE) == BigEndian(bytes)
      decreases j
    {
      AppendWord(bytes, n[j]);
      assert n[j..words][1..] == n[j + 1..words];
      ValCons(n[j..words], BASE);
      bytes := bytes + Octets(n[j]);
      j := j - 1;
    }
  }

  function Octets(w: word): (s: Bytes)
    ensures |s| == 4
  {
    [w / 0x100_0000, w / 0x1_0000 % 0x100, w / 0x100 % 0x100, w % 0x100]
  }

  lemma OctetsWord(s: Bytes, w: word)
    ensures WordAt(s + Octets(w), |s|) == w
  {
    var t := s + Octets(w);
    assert w / 0x1_0000 == w / 0x100 / 0x100 && w / 0x100_0000 == w / 0x1_0000 / 0x100;
    assert t[|s|] == Octets(w)[0] && t[|s| + 1] == Octets(w)[1] && t[|s| + 2] == Octets(w)[2] && t[|s| + 3] == Octets(w)[3];
  }

  lemma AppendWord(s: Bytes, w: word)
    ensures BigEndian(s + Octets(w)) == BigEndian(s) * BASE + w
  {
    hide Octets, BigEndian, WordAt;
    var t := s + Octets(w);
    FourOctets(t, |s|);
    assert t[..|s| + 4] == t && t[..|s|] == s;
    OctetsWord(s, w);
  }

  lemma LowWords(s: seq<word>, m: nat)
    requires m <= |s|
    ensures Val(s[0..m], BASE) == Mod(N(s), Pow(BASE, m))
  {
    hide Val, Pow;
    assert s == s[0..m] + s[m..];
    ValConcat(s[0..m], s[m..], BASE);
    ValBound(s[0..m], BASE);
    DivModUnique(N(s), Val(s[m..], BASE), Val(s[0..m], BASE), Pow(BASE, m));
  }
}
