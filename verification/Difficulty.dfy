/**
 * Compact difficulty targets, block proofs and retargeting
 * (src/header.c, src/chain.c, main-network constants of src/constants.h).
 */
module Difficulty {
  import opened Arith
  import opened BigNum
  import opened Bits
  import opened Bytes
  import opened ByteOrder
  import opened Limbs

  // ----- Compact form

  /** 256^n. */
  function P(n: nat): (r: nat)
    ensures r > 0
  {
    Pow(256, n)
  }

  /** The number of octets a number takes. */
  function ByteLen(t: nat): (e: nat)
    ensures t < P(e) && (t > 0 ==> e > 0 && P(e - 1) <= t)
  {
    if t == 0 then 0 else 1 + ByteLen(t / 256)
  }

  /** The mantissa that a compact form stands for, after the shift for short exponents. */
  function Significand(bits: nat): nat {
    var exponent, mantissa := bits / 0x100_0000, bits % 0x80_0000;
    match exponent
    case 0 => mantissa / 0x100_0000
    case 1 => mantissa / 0x1_0000
    case 2 => mantissa / 0x100
    case _ => mantissa
  }

  /** The number of zero octets below it; the exponent wraps as in the source. */
  function Places(bits: nat): nat {
    var exponent := bits / 0x100_0000;
    if exponent <= 3 then 0 else (exponent - 3) % 32
  }

  /** The target a compact form stands for, unless it is zero, negative or too large. */
  function Target(bits: nat): (r: Option<nat>)
    ensures r.Some? ==> r.value < P(32)
  {
    if bits == 0 || bits / 0x80_0000 % 2 == 1 then None
    else
      var t := Significand(bits) * P(Places(bits));
      if t < P(32) then Some(t) else None
  }

  /** The loop that writes a mantissa into a zeroed target; false when it does not fit. */
  method Spread(mantissa: nat, shift: nat, target: array<byte>) returns (ok: bool)
    requires target.Length == 32 && shift < 32 && forall j :: 0 <= j < 32 ==> target[j] == 0
    modifies target
    ensures ok <==> mantissa * P(shift) < P(32)
    ensures ok ==> BigEndian(target[..]) == mantissa * P(shift)
  {
    hide BigEndian;
    var m, i := mantissa, 31 - shift;
    BigEndianZero(target[..]);
    while m != 0 && i >= 0
      invariant -1 <= i <= 31 && 0 <= m
      invariant BigEndian(target[..]) + m * P(31 - i) == mantissa * P(shift)
      invariant forall j :: 0 <= j <= i ==> target[j] == 0
      decreases m
    {
      ghost var was := target[..];
      PutOctet(was, i, m);
      target[i] := m % 256;
      assert target[..] == was[i := target[i]];
      i := i - 1;
      m := m / 256;
    }
    BigEndianBound(target[..]);
    if m != 0 {
      MulOrder(1, m, P(32));
      return false;
    }
    return true;
  }

  method Zeros(target: array<byte>)
    modifies target
    ensures forall j :: 0 <= j < target.Length ==> target[j] == 0
  {
    for k := 0 to target.Length
      invariant forall j :: 0 <= j < k ==> target[j] == 0
    {
      target[k] := 0;
    }
  }

  method PowToTarget(bits: nat, target: array<byte>) returns (ok: bool)
    requires bits < 0x1_0000_0000 && target.Length == 32
    modifies target
    ensures ok == Target(bits).Some?
    ensures ok ==> BigEndian(target[..]) == Target(bits).value
  {
    hide BigEndian, P;
    Zeros(target);
    if bits == 0 {
      return false;
    }
    if bits / 0x80_0000 % 2 == 1 {
      return false;
    }
    var exponent, mantissa := bits / 0x100_0000, bits % 0x80_0000;
    var shift := 0;
    if exponent <= 3 {
      mantissa := mantissa / [0x100_0000, 0x1_0000, 0x100, 1][exponent];
    } else {
      shift := (exponent - 3) % 32;
    }
    ok := Spread(mantissa, shift, target);
  }

  /** Moving the low octet of a mantissa into place. */
  lemma PutOctet(s: Bytes, i: nat, m: nat)
    requires |s| == 32 && i < 32 && s[i] == 0
    ensures var x: byte := m % 256;
      BigEndian(s[i := x]) + m / 256 * P(32 - i) == BigEndian(s) + m * P(31 - i)
  {
    hide BigEndian;
    var x: byte, p := m % 256, P(31 - i);
    assert P(32 - i) == p * 256;
    hide P, Pow;
    BigEndianSet(s, i, x);
    MulAssoc(m / 256, 256, p);
    MulDist(m / 256 * 256, x as int, p);
  }

  /** The leading three octets of a number, filled up with zeros when it is shorter. */
  function Mantissa(t: nat): (m: nat)
    requires t > 0
  {
    match ByteLen(t)
    case 1 => t * 0x1_0000
    case 2 => t * 0x100
    case e => Quot(t, P(e - 3))
  }

  /** The compact form of a number; a mantissa with its top bit set gives up an octet. */
  function Compact(t: nat): nat {
    if t == 0 then 0
    else
      var e, m := ByteLen(t), Mantissa(t);
      if m >= 0x80_0000 then (e + 1) * 0x100_0000 + m / 256 else e * 0x100_0000 + m
  }

  /** A number with all but its leading k octets cleared. */
  function Leading(t: nat, k: nat): nat {
    var e := ByteLen(t);
    if e <= k then t else t - Mod(t, P(e - k))
  }

  /** What survives the compact form: two or three leading octets. */
  function Kept(t: nat): nat
    requires t > 0
  {
    Leading(t, if Mantissa(t) >= 0x80_0000 then 2 else 3)
  }

  lemma {:induction false} ByteLenFits(t: nat, n: nat)
    requires t < P(n)
    ensures ByteLen(t) <= n
  {
    var e := ByteLen(t);
    if e > n { PowMonotone(256, n, e - 1); }
  }

  /** Dividing by a power of 256. */
  lemma Scale(t: nat, d: nat, n: nat)
    requires n > 0 && P(d + n - 1) <= t < P(d + n)
    ensures P(n - 1) <= Quot(t, P(d)) < P(n)
  {
    PowAdd(256, d, n);
    PowAdd(256, d, n - 1);
    ScaleBounds(t, P(d), P(n - 1), P(n));
  }

  lemma ScaleBounds(t: nat, p: nat, low: nat, high: nat)
    requires p > 0 && p * low <= t < p * high
    ensures low <= t / p < high
  {
    var q := t / p;
    MulDist(q, 1, p);
    MulLess(low, q + 1, p);
    MulLess(q, high, p);
  }

  lemma MantissaBound(t: nat)
    requires t > 0
    ensures 0x1_0000 <= Mantissa(t) < 0x100_0000
  {
    var e := ByteLen(t);
    Powers();
    if e > 2 { Scale(t, e - 3, 3); }
  }

  lemma Powers()
    ensures P(0) == 1 && P(1) == 0x100 && P(2) == 0x1_0000 && P(3) == 0x100_0000
  {
  }

  /** Decoding a compact form gives back the number with only its leading octets. */
  lemma CompactTarget(t: nat)
    requires 0 < t < P(32)
    ensures Target(Compact(t)) == Some(Kept(t))
    ensures 0 < Compact(t) < 0x1_0000_0000
  {
    ByteLenFits(t, 32);
    MantissaBound(t);
    MantissaCases(t);
    hide *;
    if Mantissa(t) < 0x80_0000 {
      if ByteLen(t) <= 3 { CompactShort(t); } else { CompactThree(t); }
    } else {
      if ByteLen(t) <= 2 { CompactShort(t); } else { CompactTwo(t); }
    }
  }

  lemma MantissaCases(t: nat)
    requires t > 0
    ensures ByteLen(t) == 1 ==> Mantissa(t) == t * 0x1_0000
    ensures ByteLen(t) == 2 ==> Mantissa(t) == t * 0x100
    ensures ByteLen(t) == 3 ==> Mantissa(t) == t
    ensures ByteLen(t) >= 3 ==> Mantissa(t) == Quot(t, P(ByteLen(t) - 3))
    ensures Compact(t) ==
      if Mantissa(t) >= 0x80_0000 then (ByteLen(t) + 1) * 0x100_0000 + Mantissa(t) / 256
      else ByteLen(t) * 0x100_0000 + Mantissa(t)
  {
    Powers();
    hide P;
  }

  lemma CompactShort(t: nat)
    requires 0 < t < P(32) && 0x1_0000 <= Mantissa(t) < 0x100_0000
    requires ByteLen(t) <= if Mantissa(t) < 0x80_0000 then 3 else 2
    ensures Target(Compact(t)) == Some(Kept(t))
  {
    MantissaCases(t);
    hide Target, P, ByteLen, Mantissa, Compact;
    ShortTarget(t, Compact(t));
  }

  lemma CompactThree(t: nat)
    requires 3 < ByteLen(t) <= 32 && 0 < t < P(32) && 0x1_0000 <= Mantissa(t) < 0x80_0000
    ensures Target(Compact(t)) == Some(Kept(t))
  {
    var e := ByteLen(t);
    MantissaCases(t);
    hide Target, P, ByteLen, Mantissa, Compact, Quot, Mod;
    LongTarget(Compact(t), e, Mantissa(t), t, e - 3);
  }

  lemma CompactTwo(t: nat)
    requires 2 < ByteLen(t) <= 32 && 0 < t < P(32) && 0x80_0000 <= Mantissa(t) < 0x100_0000
    ensures Target(Compact(t)) == Some(Kept(t))
  {
    LongTwo(t);
    hide *;
    ShiftedTarget(t, ByteLen(t), Mantissa(t), Compact(t));
  }

  lemma ShiftedTarget(t: nat, e: nat, m: nat, bits: nat)
    requires 2 < e <= 32 && t < P(32) && 0x80_0000 <= m < 0x100_0000 && m == Quot(t, P(e - 3))
    requires bits == (e + 1) * 0x100_0000 + m / 256
    ensures Target(bits) == Some(t - Mod(t, P(e - 2)))
  {
    hide *;
    DivTwice(t, e - 3);
    LongTarget(bits, e + 1, m / 256, t, e - 2);
  }

  lemma LongTwo(t: nat)
    requires 2 < ByteLen(t) && 0x80_0000 <= Mantissa(t)
    ensures Mantissa(t) == Quot(t, P(ByteLen(t) - 3))
    ensures Compact(t) == (ByteLen(t) + 1) * 0x100_0000 + Mantissa(t) / 256
    ensures Kept(t) == t - Mod(t, P(ByteLen(t) - 2))
  {
    hide P, Quot, Mod;
  }

  lemma ShortTarget(t: nat, bits: nat)
    requires 0 < t < P(32)
    requires
      || (bits == 0x100_0000 + t * 0x1_0000 && t < 0x80)
      || (bits == 0x200_0000 + t * 0x100 && t < 0x8000)
      || (bits == 0x300_0000 + t && t < 0x80_0000)
    ensures Target(bits) == Some(t)
  {
    Powers();
    hide P;
  }

  lemma LongTarget(bits: nat, exponent: nat, mantissa: nat, t: nat, d: nat)
    requires bits == exponent * 0x100_0000 + mantissa && 0 < mantissa < 0x80_0000
    requires 4 <= exponent == d + 3 < 35 && mantissa == Quot(t, P(d)) && t < P(32)
    ensures Target(bits) == Some(t - Mod(t, P(d)))
  {
    hide P, Quot, Mod;
    assert bits / 0x100_0000 == exponent && bits % 0x80_0000 == mantissa && bits / 0x80_0000 % 2 == 0;
    assert Significand(bits) == mantissa && Places(bits) == d;
    hide *;
    QuotMod(t, P(d));
  }

  lemma DivTwice(t: nat, d: nat)
    ensures Quot(t, P(d)) / 256 == Quot(t, P(d + 1))
  {
    var p, q := P(d), t / P(d);
    assert P(d + 1) == p * 256;
    hide P, Pow;
    var r := t % p + q % 256 * p;
    MulAssoc(q / 256, 256, p);
    MulDist(q / 256 * 256, q % 256, p);
    MulOrder(q % 256, 255, p);
    MulOrder(0, q % 256, p);
    DivModUnique(t, q / 256, r, p * 256);
  }

  lemma {:induction false} ByteLenUnique(t: nat, e: nat)
    requires 0 < e && P(e - 1) <= t < P(e)
    ensures ByteLen(t) == e
  {
    ByteLenFits(t, e);
    var l := ByteLen(t);
    if l < e { PowMonotone(256, l, e - 1); }
  }

  /** The first octet that is not zero fixes the length. */
  lemma FirstOctet(s: Bytes, i: nat)
    requires |s| == 32 && i < 32 && s[i] != 0 && forall j :: 0 <= j < i ==> s[j] == 0
    ensures ByteLen(BigEndian(s)) == 32 - i && BigEndian(s[..i]) == 0 && BigEndian(s) > 0
  {
    hide BigEndian, ByteLen, Pow;
    var d := 31 - i;
    BigEndianZero(s[..i]);
    BigEndianStep(s, i);
    assert s == s[..i + 1] + s[i + 1..];
    BigEndianConcat(s[..i + 1], s[i + 1..]);
    BigEndianBound(s[i + 1..]);
    MulOrder(1, s[i] as int, P(d));
    MulOrder(s[i] as int, 255, P(d));
    assert P(d + 1) == P(d) * 256 by { PowAdd(256, d, 1); Powers(); }
    ByteLenUnique(BigEndian(s), 32 - i);
  }

  method PowToBits(target: Bytes) returns (bits: nat)
    requires |target| == 32
    ensures bits == Compact(BigEndian(target))
  {
    hide BigEndian, ByteLen, P;
    var i := 0;
    while i < 32 && target[i] == 0
      invariant 0 <= i <= 32 && forall j :: 0 <= j < i ==> target[j] == 0
    {
      i := i + 1;
    }
    var exponent := 32 - i;
    if exponent == 0 {
      BigEndianZero(target);
      return 0;
    }
    FirstOctet(target, i);
    var mantissa := Head(target, i);
    if mantissa >= 0x80_0000 {
      mantissa := mantissa / 256;
      exponent := exponent + 1;
    }
    bits := exponent * 0x100_0000 + mantissa;
  }

  /** The mantissa of a target whose first octet that is not zero is octet first. */
  method Head(target: Bytes, first: nat) returns (mantissa: nat)
    requires |target| == 32 && first < 32 && target[first] != 0 && forall j :: 0 <= j < first ==> target[j] == 0
    ensures BigEndian(target) > 0 && mantissa == Mantissa(BigEndian(target))
  {
    hide BigEndian, ByteLen, P;
    FirstOctet(target, first);
    Powers();
    var exponent := 32 - first;
    if exponent <= 3 {
      LastOctets(target);
      mantissa := target[31];
      if exponent >= 2 {
        mantissa := mantissa + target[30] as int * 0x100;
      }
      if exponent == 3 {
        mantissa := mantissa + target[29] as int * 0x1_0000;
      }
      mantissa := mantissa * [0x1_0000, 0x100, 1][exponent - 1];
      assert target[..32] == target;
    } else {
      mantissa := 0;
      var i := first;
      while i < 35 - exponent
        invariant first <= i <= 35 - exponent && mantissa == BigEndian(target[..i])
      {
        BigEndianStep(target, i);
        mantissa := mantissa * 256 + target[i] as int;
        i := i + 1;
      }
      TopPart(target, i);
    }
  }

  lemma TopPart(s: Bytes, i: nat)
    requires i <= |s|
    ensures Quot(BigEndian(s), P(|s| - i)) == BigEndian(s[..i])
  {
    hide BigEndian, Pow;
    assert s == s[..i] + s[i..];
    BigEndianConcat(s[..i], s[i..]);
    BigEndianBound(s[i..]);
    DivModUnique(BigEndian(s), BigEndian(s[..i]), BigEndian(s[i..]), P(|s| - i));
  }

  lemma LastOctets(s: Bytes)
    requires |s| == 32 && forall j :: 0 <= j < 29 ==> s[j] == 0
    ensures BigEndian(s) == s[29] as int * 0x1_0000 + s[30] as int * 0x100 + s[31] as int
  {
    hide BigEndian;
    BigEndianZero(s[..29]);
    BigEndianStep(s, 29);
    BigEndianStep(s, 30);
    BigEndianStep(s, 31);
    assert s[..32] == s;
  }

  // ----- Proof and work

  /** 2^256. */
  const TWO256: nat := 0x1_0000000000000000_0000000000000000_0000000000000000_0000000000000000

  lemma {:induction false} OctetPlaces(n: nat)
    ensures P(n) == Pow2(8 * n)
  {
    if n != 0 {
      OctetPlaces(n - 1);
      Pow2Add(8 * (n - 1), 8);
      assert Pow2(8) == 256;
    }
  }

  lemma Constants()
    ensures P(32) == Pow(BASE, 8) == Pow2(256) == TWO256
    ensures MODULUS == TWO256 * TWO256
  {
    hide P, Pow, Pow2;
    Pow2Values();
    Pow2Add(32, 32);
    Pow2Add(64, 64);
    Pow2Add(128, 128);
    OctetPlaces(32);
    PlaceIsShift(8);
    TopPlace();
  }

  lemma TopPlace()
    ensures MODULUS == Pow(BASE, 8) * Pow(BASE, 8)
  {
    hide Pow;
    PowAdd(BASE, 8, 8);
  }

  /** The work one block at a target stands for, cut to 32 octets. */
  function Proof(target: nat): nat {
    Mod(Quot(TWO256, target + 1), TWO256)
  }

  /** The work of a block is that of its parent plus its own, cut to 32 octets. */
  function Work(parent: nat, target: nat): nat {
    Mod(parent + Proof(target), TWO256)
  }

  /** How the constants of this module look to the 512-bit operations. */
  lemma Facts(x: nat, y: nat)
    ensures Mod(1 * Pow2(256), MODULUS) == TWO256
    ensures x < P(32) ==> Mod(x + 1, MODULUS) == x + 1
    ensures x < P(32) && y < P(32) ==> Mod(x + y, MODULUS) == x + y
    ensures x <= LIMIT ==> Mod(x, Pow(BASE, 8)) == x
    ensures TWO256 == Pow(BASE, 8) && SIZE == 16
  {
    hide Pow2, Pow, P;
    Constants();
  }

  lemma ProofIs(target: nat)
    ensures Proof(target) == Mod(TWO256 / (target + 1), TWO256)
  {
    hide Mod;
  }

  method GetProof(bits: nat) returns (ok: bool, proof: Bytes)
    requires bits < 0x1_0000_0000
    ensures ok == Target(bits).Some?
    ensures ok ==> |proof| == 32 && BigEndian(proof) == Proof(Target(bits).value)
  {
    hide *;
    Facts(0, 0);
    var target := new byte[32];
    ok := PowToTarget(bits, target);
    proof := [];
    if !ok {
      return;
    }
    var max, num := new word[SIZE], new word[SIZE];
    FromInt(max, 1);
    Lshift(max, max, 256);
    ReadBytes(num, target[..]);
    BigEndianBound(target[..]);
    PowerOf256(32);
    Facts(N(num[..]), 0);
    Inc(num);
    Div(max, num, num);
    ProofIs(Target(bits).value);
    proof := ToArray(num, 32);
  }

  lemma PowerOf256(n: nat)
    ensures P(n) == Pow(256, n)
  {
  }

  method ReadBytes(n: array<word>, bytes: Bytes)
    requires n.Length == SIZE && |bytes| == 32
    modifies n
    ensures N(n[..]) == BigEndian(bytes)
  {
    hide N, BigEndian;
    FromArray(n, bytes);
    assert bytes[..32] == bytes;
  }

  /** The cumulative work of a header, from its parent's if it has one. */
  method CalcWork(bits: nat, prev: Option<Bytes>) returns (ok: bool, work: Bytes)
    requires bits < 0x1_0000_0000 && (prev.Some? ==> |prev.value| == 32)
    ensures ok == Target(bits).Some?
    ensures ok ==> |work| == 32
    ensures ok && prev.None? ==> BigEndian(work) == Proof(Target(bits).value)
    ensures ok && prev.Some? ==> BigEndian(work) == Work(BigEndian(prev.value), Target(bits).value)
  {
    hide *;
    ok, work := GetProof(bits);
    if prev.None? || !ok {
      return;
    }
    work := AddWork(prev.value, work);
    WorkIs(BigEndian(prev.value), Target(bits).value);
  }

  lemma WorkIs(parent: nat, target: nat)
    ensures Work(parent, target) == Mod(parent + Proof(target), TWO256)
  {
    hide Mod, Proof;
  }

  method AddWork(x: Bytes, y: Bytes) returns (work: Bytes)
    requires |x| == |y| == 32
    ensures |work| == 32 && BigEndian(work) == Mod(BigEndian(x) + BigEndian(y), TWO256)
  {
    hide *;
    Facts(BigEndian(x), BigEndian(y));
    BigEndianBound(x);
    BigEndianBound(y);
    PowerOf256(32);
    var a, b := new word[SIZE], new word[SIZE];
    ReadBytes(a, x);
    ReadBytes(b, y);
    Add(a, b, b);
    work := ToArray(b, 32);
  }

  // ----- Retargeting

  const SPACING: nat := 600
  const MIN_ACTUAL: nat := 21600
  const MAX_ACTUAL: nat := 345600

  /** The compact form of the easiest target, and that target. */
  const BITS: nat := 0x1c00_ffff
  const LIMIT: nat := 0xffff_00000000000000000000000000000000000000000000000000

  function Actual(firstTime: int, lastTime: int): (r: nat)
    ensures MIN_ACTUAL <= r <= MAX_ACTUAL
  {
    var d := lastTime - firstTime;
    if d < MIN_ACTUAL then MIN_ACTUAL else if d > MAX_ACTUAL then MAX_ACTUAL else d
  }

  /** The work done per block spacing between two blocks, in 512-bit arithmetic. */
  ghost function Rate(firstWork: nat, lastWork: nat, actual: nat): nat
    requires actual > 0
  {
    Quot(Mod(Mod(lastWork - firstWork, MODULUS) * SPACING, MODULUS), actual)
  }

  /** The compact target for the next block. */
  ghost function RetargetBits(firstWork: nat, lastWork: nat, actual: nat): nat
    requires actual > 0
  {
    var rate := Rate(firstWork, lastWork, actual);
    if rate == 0 then BITS
    else
      if RateTarget(rate) > LIMIT then BITS else Compact(RateTarget(rate))
  }

  method Retarget(firstWork: Bytes, firstTime: int, lastWork: Bytes, lastTime: int) returns (bits: nat)
    requires |firstWork| == |lastWork| == 32
    ensures bits == RetargetBits(BigEndian(firstWork), BigEndian(lastWork), Actual(firstTime, lastTime))
  {
    hide Rate, RateTarget, BigEndian, Compact, N, Actual;
    ghost var rate := Rate(BigEndian(firstWork), BigEndian(lastWork), Actual(firstTime, lastTime));
    var target := new word[SIZE];
    WorkRate(target, firstWork, lastWork, Actual(firstTime, lastTime));
    var zero := IsZero(target);
    if zero {
      return BITS;
    }
    Invert(target, rate);
    bits := Encode(target);
  }

  method WorkRate(target: array<word>, firstWork: Bytes, lastWork: Bytes, actual: nat)
    requires target.Length == SIZE && |firstWork| == |lastWork| == 32 && 0 < actual < 0x1_0000_0000
    modifies target
    ensures N(target[..]) == Rate(BigEndian(firstWork), BigEndian(lastWork), actual)
  {
    hide N, BigEndian, Mod;
    var last, spacing, time := new word[SIZE], new word[SIZE], new word[SIZE];
    ReadBytes(target, firstWork);
    ReadBytes(last, lastWork);
    FromInt(spacing, SPACING);
    Sub(last, target, target);
    Mul(target, spacing, target);
    FromInt(time, actual);
    Div(target, time, target);
  }

  /** The target at which 2^256 hashes take one spacing at the given rate. */
  ghost function RateTarget(rate: nat): nat
    requires rate > 0
  {
    Mod(TWO256 / rate - 1, MODULUS)
  }

  /** From the work per spacing to the target. */
  method Invert(target: array<word>, ghost rate: nat)
    requires target.Length == SIZE && N(target[..]) == rate > 0
    modifies target
    ensures N(target[..]) == RateTarget(rate)
  {
    hide *;
    var one, max := new word[SIZE], new word[SIZE];
    FromInt(one, 1);
    FromInt(max, 1);
    Facts(0, 0);
    Lshift(max, max, 256);
    Div(max, target, target);
    Sub(target, one, target);
    RateTargetIs(rate);
  }

  /** The compact form of a target, no easier than the limit. */
  method Encode(target: array<word>) returns (bits: nat)
    requires target.Length == SIZE
    ensures N(target[..]) >= 0 && bits == if N(target[..]) > LIMIT then BITS else Compact(N(target[..]))
  {
    hide *;
    Range(target[..]);
    Facts(N(target[..]), 0);
    var limit := new word[SIZE];
    var bytes := LimitBytes();
    ReadBytes(limit, bytes);
    var r := Cmp(target, limit);
    if r > 0 {
      return BITS;
    }
    bytes := ToArray(target, 32);
    bits := PowToBits(bytes);
  }

  lemma RateTargetIs(rate: nat)
    requires rate > 0
    ensures RateTarget(rate) == Mod(TWO256 / rate - 1, MODULUS)
  {
    hide Mod;
  }

  /** HSK_LIMIT. */
  method LimitBytes() returns (s: Bytes)
    ensures |s| == 32 && BigEndian(s) == LIMIT
  {
    hide BigEndian, Pow;
    var low: Bytes := seq(25, _ => 0);
    s := [0, 0, 0, 0, 0, 0xff, 0xff] + low;
    LimitPlace();
    BigEndianZero(low);
    SevenOctets();
    BigEndianConcat([0, 0, 0, 0, 0, 0xff, 0xff], low);
  }

  lemma SevenOctets()
    ensures BigEndian([0, 0, 0, 0, 0, 0xff, 0xff]) == 0xffff
  {
    hide BigEndian;
    var s: Bytes := [0, 0, 0, 0, 0, 0xff, 0xff];
    BigEndianZero(s[..5]);
    BigEndianStep(s, 5);
    BigEndianStep(s, 6);
    assert s[..7] == s;
  }

  lemma LimitPlace()
    ensures LIMIT == 0xffff * P(25)
  {
    hide P, Pow2;
    Pow2Values();
    Pow2Add(32, 32);
    Pow2Add(64, 64);
    Pow2Add(128, 64);
    Pow2Add(192, 8);
    OctetPlaces(1);
    Powers();
    OctetPlaces(25);
  }

  /** The limit is what the easiest compact form decodes to. */
  lemma LimitBits()
    ensures Target(BITS) == Some(LIMIT)
  {
    hide P;
    LimitPlace();
    Constants();
    assert Significand(BITS) == 0xffff && Places(BITS) == 25;
  }

  lemma KeptBound(t: nat)
    requires 35 <= t < P(32)
    ensures 35 <= Kept(t) <= t
  {
    var e, k := ByteLen(t), if Mantissa(t) >= 0x80_0000 then 2 else 3;
    if e > k {
      Scale(t, e - k, k);
      Powers();
      hide *;
      var p := P(e - k);
      QuotMod(t, p);
      MulOrder(256, Quot(t, p), p);
    }
  }

  lemma InverseBound(n: nat, rate: nat)
    requires rate > 0 && 36 * rate <= n
    ensures 36 <= n / rate <= n
  {
    var q := n / rate;
    MulDist(q, 1, rate);
    MulLess(36, q + 1, rate);
    MulOrder(1, rate, q);
  }

  lemma RateExact(d: nat, actual: nat)
    requires 0 < d < TWO256 && MIN_ACTUAL <= actual <= MAX_ACTUAL
    ensures 36 * Quot(Mod(Mod(d, MODULUS) * SPACING, MODULUS), actual) <= d
  {
    assert Mod(d, MODULUS) == d && Mod(d * SPACING, MODULUS) == d * SPACING by {
      hide Pow2, Pow, P;
      Constants();
    }
    hide Mod;
    RateSmall(d * SPACING, actual);
  }

  lemma RateSmall(x: nat, actual: nat)
    requires MIN_ACTUAL <= actual
    ensures MIN_ACTUAL * Quot(x, actual) <= x
  {
    MulOrder(MIN_ACTUAL, actual, Quot(x, actual));
  }

  lemma RateTargetBound(rate: nat)
    requires rate > 0 && 36 * rate <= TWO256
    ensures 35 <= RateTarget(rate) < TWO256
  {
    hide Pow2, Pow, P;
    Constants();
    InverseBound(TWO256, rate);
  }

  /** Whenever work was done, the new target is at least 35 and at most the limit. */
  lemma RetargetBound(firstWork: nat, lastWork: nat, actual: nat)
    requires firstWork < lastWork < TWO256 && MIN_ACTUAL <= actual <= MAX_ACTUAL
    ensures var r := Target(RetargetBits(firstWork, lastWork, actual)); r.Some? && 35 <= r.value <= LIMIT
  {
    hide Target, Compact, Kept, RateTarget, Mod, Quot, P;
    LimitBits();
    RateExact(lastWork - firstWork, actual);
    var rate := Rate(firstWork, lastWork, actual);
    if rate > 0 {
      RateTargetBound(rate);
      var t := RateTarget(rate);
      Constants();
      if t <= LIMIT {
        CompactTarget(t);
        KeptBound(t);
      }
    }
  }

  lemma BackwardMod(d: int)
    requires 0 < d < TWO256
    ensures Mod(0 - d, MODULUS) == MODULUS - d
    ensures Mod((MODULUS - d) * SPACING, MODULUS) == MODULUS - d * SPACING
    ensures MODULUS - d * SPACING > MAX_ACTUAL * (TWO256 + 1)
  {
    hide Pow2, Pow, P;
    Constants();
    DivModUnique(0 - d, -1, MODULUS - d, MODULUS);
    DivModUnique((MODULUS - d) * SPACING, SPACING - 1, MODULUS - d * SPACING, MODULUS);
  }

  lemma LargeQuotient(x: nat, n: nat, actual: nat)
    requires 0 < actual <= MAX_ACTUAL && x > MAX_ACTUAL * (n + 1)
    ensures Quot(x, actual) > n
  {
    MulOrder(actual, MAX_ACTUAL, n + 1);
    var q := Quot(x, actual);
    MulDist(q, 1, actual);
    MulLess(n + 1, q + 1, actual);
  }

  lemma BackwardRate(d: int, actual: nat)
    requires 0 < d < TWO256 && MIN_ACTUAL <= actual <= MAX_ACTUAL
    ensures Quot(Mod(Mod(0 - d, MODULUS) * SPACING, MODULUS), actual) > TWO256
  {
    BackwardMod(d);
    hide Mod, Quot;
    LargeQuotient(MODULUS - d * SPACING, TWO256, actual);
  }

  lemma BackwardTarget(rate: nat)
    requires rate > TWO256
    ensures RateTarget(rate) > LIMIT
  {
    hide Pow2, Pow, P;
    Constants();
    DivModUnique(TWO256, 0, TWO256, rate);
    DivModUnique(-1, -1, MODULUS - 1, MODULUS);
  }

  /** Where no work was done, or the work total wrapped around, the target is the easiest one. */
  lemma RetargetIdle(firstWork: nat, lastWork: nat, actual: nat)
    requires lastWork <= firstWork < TWO256 && MIN_ACTUAL <= actual <= MAX_ACTUAL
    ensures RetargetBits(firstWork, lastWork, actual) == BITS
  {
    hide Target, Compact, Kept, RateTarget, Mod, Quot, P;
    if lastWork == firstWork {
      NoRate(actual);
    } else {
      BackwardRate(firstWork - lastWork, actual);
      BackwardTarget(Rate(firstWork, lastWork, actual));
    }
  }

  lemma NoRate(actual: nat)
    requires actual > 0
    ensures Quot(Mod(Mod(0, MODULUS) * SPACING, MODULUS), actual) == 0
  {
    hide Pow2, Pow, P;
    Constants();
  }

  /** Whatever the two work totals, the new target is at least 35 and at most the limit. */
  lemma RetargetInRange(firstWork: nat, lastWork: nat, actual: nat)
    requires firstWork < TWO256 && lastWork < TWO256 && MIN_ACTUAL <= actual <= MAX_ACTUAL
    ensures var r := Target(RetargetBits(firstWork, lastWork, actual)); r.Some? && 35 <= r.value <= LIMIT
  {
    hide *;
    if firstWork < lastWork {
      RetargetBound(firstWork, lastWork, actual);
    } else {
      RetargetIdle(firstWork, lastWork, actual);
      EasiestInRange();
    }
  }

  lemma EasiestInRange()
    ensures Target(BITS).Some? && 35 <= Target(BITS).value <= LIMIT
  {
    hide Target, P;
    LimitBits();
  }

  lemma QuotientBound(n: nat, k: nat)
    requires 36 <= k <= n
    ensures 1 <= n / k <= n / 36 < n
  {
    var q := n / k;
    MulDist(q, 1, k);
    MulLess(1, q + 1, k);
    MulOrder(36, k, q);
  }

  /** A target in that range stands for at least one unit of work, and its work fits in 32 octets. */
  lemma ProofBound(target: nat)
    requires 35 <= target <= LIMIT
    ensures Proof(target) == Quot(TWO256, target + 1) && 1 <= Proof(target) <= TWO256 / 36
  {
    QuotientBound(TWO256, target + 1);
  }
}
