/** Octet strings as numbers. */
module ByteOrder {
  import opened Arith
  import opened Bytes
  import opened Limbs

  function BigEndian(s: Bytes): nat {
    if s == [] then 0 else BigEndian(s[..|s| - 1]) * 256 + s[|s| - 1] as int
  }

  lemma BigEndianStep(s: Bytes, i: nat)
    requires i < |s|
    ensures BigEndian(s[..i + 1]) == BigEndian(s[..i]) * 256 + s[i] as int
  {
    assert s[..i + 1][..i] == s[..i];
  }

  lemma {:induction false} BigEndianConcat(s: Bytes, t: Bytes)
    ensures BigEndian(s + t) == BigEndian(s) * Pow(256, |t|) + BigEndian(t)
  {
    if t == [] {
      assert s + t == s;
    } else {
      var n := |t| - 1;
      BigEndianConcat(s, t[..n]);
      assert (s + t)[..|s| + n] == s + t[..n];
      MulAssoc(BigEndian(s), Pow(256, n), 256);
    }
  }

  lemma {:induction false} BigEndianBound(s: Bytes)
    ensures BigEndian(s) < Pow(256, |s|)
  {
    if s != [] { BigEndianBound(s[..|s| - 1]); }
  }

  lemma {:induction false} BigEndianZero(s: Bytes)
    requires forall i :: 0 <= i < |s| ==> s[i] == 0
    ensures BigEndian(s) == 0
  {
    if s != [] { BigEndianZero(s[..|s| - 1]); }
  }

  /** Writing an octet where there was a zero. */
  lemma BigEndianSet(s: Bytes, i: nat, x: byte)
    requires i < |s| && s[i] == 0
    ensures BigEndian(s[i := x]) == BigEndian(s) + x as int * Pow(256, |s| - 1 - i)
  {
    hide Pow, BigEndian;
    var t := s[i := x];
    assert s == s[..i + 1] + s[i + 1..] && t == t[..i + 1] + t[i + 1..] && t[i + 1..] == s[i + 1..];
    BigEndianConcat(s[..i + 1], s[i + 1..]);
    BigEndianConcat(t[..i + 1], t[i + 1..]);
    BigEndianStep(s, i);
    BigEndianStep(t, i);
    assert t[..i] == s[..i];
    MulDist(BigEndian(s[..i]) * 256, x as int, Pow(256, |s| - 1 - i));
  }

  /** Comparing octet strings of one length compares the numbers. */
  lemma BigEndianOrder(s: Bytes, t: Bytes, i: nat)
    requires |s| == |t| && i < |s| && s[..i] == t[..i] && s[i] < t[i]
    ensures BigEndian(s) < BigEndian(t)
  {
    hide Pow, BigEndian;
    var n := |s| - 1 - i;
    assert s == s[..i + 1] + s[i + 1..] && t == t[..i + 1] + t[i + 1..];
    BigEndianConcat(s[..i + 1], s[i + 1..]);
    BigEndianConcat(t[..i + 1], t[i + 1..]);
    BigEndianStep(s, i);
    BigEndianStep(t, i);
    BigEndianBound(s[i + 1..]);
    MulOrder(BigEndian(s[..i + 1]) + 1, BigEndian(t[..i + 1]), Pow(256, n));
    MulDist(BigEndian(s[..i + 1]), 1, Pow(256, n));
  }

  /** The k octets of a number below 256^k. */
  function ToBytes(n: nat, k: nat): (s: Bytes)
    ensures |s| == k
  {
    if k == 0 then [] else
      var last: byte := n % 256;
      ToBytes(n / 256, k - 1) + [last]
  }

  lemma {:induction false} ToBytesValue(n: nat, k: nat)
    requires n < Pow(256, k)
    ensures BigEndian(ToBytes(n, k)) == n
  {
    if k > 0 {
      ToBytesValue(n / 256, k - 1);
      assert ToBytes(n, k)[..k - 1] == ToBytes(n / 256, k - 1);
    }
  }

  lemma {:induction false} ToBytesInverse(s: Bytes)
    ensures ToBytes(BigEndian(s), |s|) == s
  {
    if s != [] {
      ToBytesInverse(s[..|s| - 1]);
      DivModUnique(BigEndian(s), BigEndian(s[..|s| - 1]), s[|s| - 1] as int, 256);
    }
  }

  /** memcmp. */
  method Compare(s: Bytes, t: Bytes) returns (r: int)
    requires |s| == |t|
    ensures r == if BigEndian(s) > BigEndian(t) then 1 else if BigEndian(s) < BigEndian(t) then -1 else 0
    ensures r == 0 <==> s == t
  {
    for i := 0 to |s|
      invariant s[..i] == t[..i]
    {
      if s[i] < t[i] {
        BigEndianOrder(s, t, i);
        return -1;
      } else if s[i] > t[i] {
        BigEndianOrder(t, s, i);
        return 1;
      }
    }
    assert s == s[..|s|] == t[..|t|] == t;
    return 0;
  }

  // ----- Least significant octet first

  function LittleEndian(s: Bytes): nat {
    ValBound(s, 256);
    Val(s, 256)
  }

  lemma LittleEndianBound(s: Bytes)
    ensures LittleEndian(s) < Pow(256, |s|)
  {
    ValBound(s, 256);
  }

  lemma LittleEndianZeros(s: Bytes)
    requires forall i :: 0 <= i < |s| ==> s[i] == 0
    ensures LittleEndian(s) == 0
  {
    ValZero(s, 256);
  }

  lemma LittleEndianOne(b: byte)
    ensures LittleEndian([b]) == b
  {
    ValOne(b, 256);
  }

  lemma LittleEndianConcat(s: Bytes, t: Bytes)
    ensures LittleEndian(s + t) == LittleEndian(s) + Pow(256, |s|) * LittleEndian(t)
  {
    ValConcat(s, t, 256);
    MulCommutes(Val(t, 256), Pow(256, |s|));
  }
}
