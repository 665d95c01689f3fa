/** Octets and octet strings, shared by every component. */
module Bytes {

  type byte = b: int | 0 <= b < 256

  type Bytes = seq<byte>

  /** A 32-octet digest. */
  type Hash = h: Bytes | |h| == 32 witness seq(32, _ => 0)

  /** The all-zero digest. */
  const ZERO_HASH: Hash := seq(32, _ => 0)

  datatype Option<+T> = None | Some(value: T)

  /** Pieces put together. */
  function Concat(chunks: seq<Bytes>): Bytes {
    if chunks == [] then [] else chunks[0] + Concat(chunks[1..])
  }

  lemma {:induction false} ConcatSnoc(chunks: seq<Bytes>, last: Bytes)
    ensures Concat(chunks + [last]) == Concat(chunks) + last
  {
    if chunks == [] {
      assert [last][1..] == [];
    } else {
      assert (chunks + [last])[1..] == chunks[1..] + [last];
      ConcatSnoc(chunks[1..], last);
    }
  }
}
