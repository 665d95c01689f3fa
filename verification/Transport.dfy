/**
 * The framing of brontide and the reassembly of its records from arbitrary
 * reads, as functions on values (src/brontide.c).
 */
module Transport {
  import opened Bytes
  import opened Noise

  const MAX_MESSAGE: nat := 8_000_009

  /** What a read returns; Aborted stands for not returning at all, because an assert failed. */
  datatype Code = Success | BadActOne | BadActTwo | BadActThree | BadTag | BadSize | Aborted

  /** What a peer draws at random for its act: a private key, and the choice of a uniform encoding. */
  datatype Random = Random(ephemeral: Bytes, uniform: Bytes)

  // ----- Sending

  /** A message on the wire: its sealed length and tag, then its sealed text and tag. */
  function Frame(S: Suite, c: Cipher, m: Bytes): (Cipher, Bytes) {
    var r1 := Encrypt(S, c, None, U32(|m|));
    var r2 := Encrypt(S, r1.0, None, m);
    (r2.0, r1.1 + r1.0.tag + r2.1 + r2.0.tag)
  }

  function Frames(S: Suite, c: Cipher, ms: seq<Bytes>): (Cipher, Bytes)
    decreases |ms|
  {
    if ms == [] then (c, [])
    else
      var r := Frame(S, c, ms[0]);
      var rest := Frames(S, r.0, ms[1..]);
      (rest.0, r.1 + rest.1)
  }

  function Write(S: Suite, b: Peer, m: Bytes): Peer {
    if b.state != Done then b
    else
      var r := Frame(S, b.send, m);
      b.(send := r.0, written := b.written + r.1)
  }

  function WriteAll(S: Suite, b: Peer, ms: seq<Bytes>): Peer
    decreases |ms|
  {
    if ms == [] then b else WriteAll(S, Write(S, b, ms[0]), ms[1..])
  }

  lemma {:induction false} WriteAllIs(S: Suite, b: Peer, ms: seq<Bytes>)
    requires b.state == Done
    ensures var r := Frames(S, b.send, ms);
      WriteAll(S, b, ms) == b.(send := r.0, written := b.written + r.1)
    decreases |ms|
  {
    hide Frame;
    if ms == [] {
      assert b.written + [] == b.written;
    } else {
      var r := Frame(S, b.send, ms[0]);
      WriteAllIs(S, Write(S, b, ms[0]), ms[1..]);
      var rest := Frames(S, r.0, ms[1..]);
      assert b.written + (r.1 + rest.1) == (b.written + r.1) + rest.1;
    }
  }

  // ----- Receiving

  /** The length of the record the peer waits for. */
  predicate Awaits(b: Peer, n: nat) {
    match b.state
    case NoAct => true
    case ActOne => !b.initiator && n == 80
    case ActTwo => b.initiator && n == 80
    case ActThree => !b.initiator && n == 65
    case Done => if b.hasSize then 16 <= n <= MAX_MESSAGE + 16 else n == 20
    case Crashed => true
  }

  /** Nothing that arrives is looked at any more. */
  predicate Over(b: Peer) {
    b.state == NoAct || b.state == Crashed
  }

  predicate Wf(b: Peer) {
    Awaits(b, b.need) && Nonces(b) && (!Over(b) ==> |b.msg| < b.need && (b.state != Done ==> !b.hasSize))
  }

  function Crash(b: Peer): (Peer, Code) {
    (b.(state := Crashed), Aborted)
  }

  function Expect(b: Peer, n: nat): Peer {
    b.(msg := [], need := n)
  }

  function RecvActTwo(S: Suite, b: Peer, act: Bytes): (Peer, bool)
    requires |act| == 80
  {
    if !S.validKey(S.fromUniform(act[..64])) then (b, false) else RecvAct(S, b, b.localEphemeral, act)
  }

  /** Each Diffie-Hellman is asserted to succeed, and it does exactly with a valid key. */
  function ParseActOne(S: Suite, random: Random, b: Peer, record: Bytes): (Peer, Code)
    requires |record| == 80
  {
    var r := RecvAct(S, b, b.localStatic, record);
    if !S.validKey(S.fromUniform(record[..64])) then Crash(b)
    else if !r.1 then (r.0, BadActOne)
    else AnswerActOne(S, random, r.0)
  }

  function AnswerActOne(S: Suite, random: Random, b: Peer): (Peer, Code) {
    if !S.validKey(b.remoteEphemeral) then Crash(b)
    else
      var g := GenAct(S, b, b.remoteEphemeral, random.ephemeral, random.uniform);
      (Expect(g.0.(written := g.0.written + g.1, state := ActThree), 65), Success)
  }

  function ParseActTwo(S: Suite, b: Peer, record: Bytes): (Peer, Code)
    requires |record| == 80
  {
    var r := RecvActTwo(S, b, record);
    if !r.1 then (r.0, BadActTwo) else AnswerActTwo(S, r.0)
  }

  function AnswerActTwo(S: Suite, b: Peer): (Peer, Code) {
    if !S.validKey(b.remoteEphemeral) then Crash(b)
    else
      var g := GenActThree(S, b);
      (Expect(g.0.(written := g.0.written + g.1, state := Done), 20), Success)
  }

  function ParseActThree(S: Suite, b: Peer, record: Bytes): (Peer, Code)
    requires |record| == 65
  {
    var r, s := RecvActThree(S, b, record), SealedKey(S, b, record);
    if s.1 && !S.validKey(s.0) then Crash(b)
    else if !r.1 then (r.0, BadActThree) else (Expect(r.0.(state := Done), 20), Success)
  }

  function ParseSize(S: Suite, b: Peer, record: Bytes): (r: (Peer, Code))
    requires |record| == 20
  {
    var d := Decrypt(S, b.recv, None, record[..4]);
    var c := b.(recv := d.0);
    if d.0.tag != record[4..] then (c, BadTag)
    else
      var size := FromU32(d.1);
      if size > MAX_MESSAGE then (c, BadSize) else (Expect(c.(hasSize := true), size + 16), Success)
  }

  function ParseText(S: Suite, b: Peer, record: Bytes): (Peer, Code)
    requires |record| >= 16
  {
    var n := |record| - 16;
    var d := Decrypt(S, b.recv, None, record[..n]);
    var c := b.(recv := d.0);
    if d.0.tag != record[n..] then (c, BadTag)
    else (Expect(c.(hasSize := false, received := c.received + [d.1]), 20), Success)
  }

  /** What a peer does with a whole record. */
  function Parse(S: Suite, random: Random, b: Peer, record: Bytes): (Peer, Code)
    requires Wf(b) && !Over(b) && |record| == b.need
  {
    match b.state
    case ActOne => ParseActOne(S, random, b, record)
    case ActTwo => ParseActTwo(S, b, record)
    case ActThree => ParseActThree(S, b, record)
    case Done => if b.hasSize then ParseText(S, b, record) else ParseSize(S, b, record)
    case _ => (b, Success)
  }

  // ----- What every record keeps

  /** No nonce ever reaches the rotation interval. */
  predicate Nonces(b: Peer) {
    b.send.nonce < ROTATION_INTERVAL && b.recv.nonce < ROTATION_INTERVAL && b.cs.nonce < ROTATION_INTERVAL
  }

  lemma CipherNonce(S: Suite, c: Cipher, ad: Option<Bytes>, s: Bytes)
    requires c.nonce < ROTATION_INTERVAL
    ensures Encrypt(S, c, ad, s).0.nonce < ROTATION_INTERVAL && Decrypt(S, c, ad, s).0.nonce < ROTATION_INTERVAL
  {
  }

  lemma MixedNonces(S: Suite, b: Peer, s: Bytes, tag: Bytes)
    requires Nonces(b)
    ensures Nonces(EncryptMixed(S, b, s).0) && Nonces(DecryptMixed(S, b, s, tag).0)
    ensures SameRole(EncryptMixed(S, b, s).0, b) && SameRole(DecryptMixed(S, b, s, tag).0, b)
  {
    hide Encrypt, Decrypt;
    CipherNonce(S, b.cs, Some(b.digest), s);
  }

  lemma MixKeyNonces(S: Suite, b: Peer, s: Bytes)
    requires Nonces(b)
    ensures Nonces(MixKey(S, b, s)) && SameRole(MixKey(S, b, s), b)
  {
  }

  /** The parts of a peer that the handshake functions leave alone. */
  predicate SameRole(a: Peer, b: Peer) {
    && a.initiator == b.initiator && a.state == b.state && a.hasSize == b.hasSize && a.msg == b.msg && a.need == b.need
    && a.received == b.received && a.written == b.written
  }

  lemma GenActNonces(S: Suite, b: Peer, remote: Bytes, ephemeral: Bytes, random: Bytes)
    requires Nonces(b)
    ensures Nonces(GenAct(S, b, remote, ephemeral, random).0) && SameRole(GenAct(S, b, remote, ephemeral, random).0, b)
  {
    hide EncryptMixed, MixKey;
    var e := S.pubkey(ephemeral);
    var x := MixHash(S, b.(localEphemeral := ephemeral), e);
    MixKeyNonces(S, x, S.ecdh(remote, ephemeral));
    MixedNonces(S, MixKey(S, x, S.ecdh(remote, ephemeral)), [], []);
  }

  lemma RecvActNonces(S: Suite, b: Peer, secret: Bytes, act: Bytes)
    requires Nonces(b) && |act| == 80
    ensures Nonces(RecvAct(S, b, secret, act).0) && SameRole(RecvAct(S, b, secret, act).0, b)
  {
    hide DecryptMixed, MixKey;
    var e := S.fromUniform(act[..64]);
    var x := MixHash(S, b.(remoteEphemeral := e), e);
    MixKeyNonces(S, x, S.ecdh(e, secret));
    MixedNonces(S, MixKey(S, x, S.ecdh(e, secret)), [], act[64..]);
  }

  lemma SplitNonces(S: Suite, b: Peer)
    requires Nonces(b)
    ensures Nonces(Split(S, b)) && SameRole(Split(S, b), b)
  {
  }

  lemma GenActThreeNonces(S: Suite, b: Peer)
    requires Nonces(b)
    ensures Nonces(GenActThree(S, b).0) && SameRole(GenActThree(S, b).0, b)
  {
    hide EncryptMixed, MixKey, Split, Nonces, SameRole;
    var s := S.pubkey(b.localStatic);
    MixedNonces(S, b, s, []);
    var r1 := EncryptMixed(S, b, s);
    var x := MixKey(S, r1.0, S.ecdh(b.remoteEphemeral, b.localStatic));
    MixKeyNonces(S, r1.0, S.ecdh(b.remoteEphemeral, b.localStatic));
    MixedNonces(S, x, [], []);
    SplitNonces(S, EncryptMixed(S, x, []).0);
    SameRoleChain(Split(S, EncryptMixed(S, x, []).0), EncryptMixed(S, x, []).0, x);
    SameRoleChain(x, r1.0, b);
    SameRoleChain(Split(S, EncryptMixed(S, x, []).0), x, b);
  }

  lemma SameRoleChain(a: Peer, b: Peer, c: Peer)
    requires SameRole(a, b) && SameRole(b, c)
    ensures SameRole(a, c)
  {
  }

  lemma RecvActThreeNonces(S: Suite, b: Peer, act: Bytes)
    requires Nonces(b) && |act| == 65
    ensures Nonces(RecvActThree(S, b, act).0) && SameRole(RecvActThree(S, b, act).0, b)
  {
    hide DecryptMixed, MixKey, Split;
    MixedNonces(S, b, act[..33], act[33..49]);
    var r1 := DecryptMixed(S, b, act[..33], act[33..49]);
    var keyed := r1.0.(remoteStatic := r1.1);
    var x := MixKey(S, keyed, S.ecdh(r1.1, b.localEphemeral));
    MixKeyNonces(S, keyed, S.ecdh(r1.1, b.localEphemeral));
    MixedNonces(S, x, [], act[49..]);
    SplitNonces(S, DecryptMixed(S, x, [], act[49..]).0);
  }

  /** A peer that accepts a record waits for the next one. */
  lemma ParseKeeps(S: Suite, random: Random, b: Peer, record: Bytes)
    requires Wf(b) && !Over(b) && |record| == b.need
    ensures var r := Parse(S, random, b, record);
      && Nonces(r.0) && (r.1 == Success ==> Wf(r.0) && !Over(r.0) && r.0.msg == [])
      && (r.1 != Success ==> r.0.msg == b.msg) && r.0.initiator == b.initiator
      && (r.1 == Aborted <==> r.0.state == Crashed)
      && (r.1 == Aborted ==> Wf(r.0)) && Wf(r.0.(state := NoAct))
  {
    hide RecvAct, GenAct, RecvActThree, GenActThree, Decrypt, FromU32;
    match b.state
    case ActOne =>
      RecvActNonces(S, b, b.localStatic, record);
      var r := RecvAct(S, b, b.localStatic, record).0;
      GenActNonces(S, r, r.remoteEphemeral, random.ephemeral, random.uniform);
    case ActTwo =>
      RecvActNonces(S, b, b.localEphemeral, record);
      GenActThreeNonces(S, RecvAct(S, b, b.localEphemeral, record).0);
    case ActThree => RecvActThreeNonces(S, b, record);
    case Done =>
      CipherNonce(S, b.recv, None, if b.hasSize then record[..|record| - 16] else record[..4]);
  }

  lemma WriteWf(S: Suite, b: Peer, m: Bytes)
    requires Wf(b)
    ensures Wf(Write(S, b, m))
  {
    hide Encrypt;
    CipherNonce(S, b.send, None, U32(|m|));
    CipherNonce(S, Encrypt(S, b.send, None, U32(|m|)).0, None, m);
  }

  // ----- Reassembly

  /** A peer after reading some octets, and what the read returned. */
  function Feed(S: Suite, random: Random, b: Peer, data: Bytes): (r: (Peer, Code))
    requires Wf(b)
    ensures Wf(r.0)
    decreases |data|
  {
    if b.state == NoAct then (b, Success)
    else if b.state == Crashed then (b, Aborted)
    else if |b.msg| + |data| < b.need then (b.(msg := b.msg + data), Success)
    else
      var k := b.need - |b.msg|;
      ParseKeeps(S, random, b, b.msg + data[..k]);
      var r := Parse(S, random, b, b.msg + data[..k]);
      if r.1 == Aborted then r
      else if r.1 != Success then (r.0.(state := NoAct), r.1)
      else Feed(S, random, r.0, data[k..])
  }

  /** What can be seen of a peer: once destroyed, the partial record in its buffer is never looked at again. */
  function Observable(b: Peer): Peer {
    if Over(b) then b.(msg := []) else b
  }

  lemma ActIgnoresMsg(S: Suite, b: Peer, m: Bytes, s: Bytes, t: Bytes, act: Bytes, random: Random)
    requires |act| == 80
    ensures GenAct(S, b.(msg := m), s, random.ephemeral, random.uniform)
         == (GenAct(S, b, s, random.ephemeral, random.uniform).0.(msg := m),
             GenAct(S, b, s, random.ephemeral, random.uniform).1)
    ensures RecvAct(S, b.(msg := m), t, act) == (RecvAct(S, b, t, act).0.(msg := m), RecvAct(S, b, t, act).1)
  {
    hide Encrypt, Decrypt, InitKey;
  }

  lemma ActThreeIgnoresMsg(S: Suite, b: Peer, m: Bytes, act: Bytes)
    requires |act| == 65
    ensures GenActThree(S, b.(msg := m)) == (GenActThree(S, b).0.(msg := m), GenActThree(S, b).1)
    ensures RecvActThree(S, b.(msg := m), act) == (RecvActThree(S, b, act).0.(msg := m), RecvActThree(S, b, act).1)
    ensures SealedKey(S, b.(msg := m), act) == SealedKey(S, b, act)
  {
    hide Encrypt, Decrypt, InitKey, InitSaltKey;
  }

  /** The buffer's old contents play no part in parsing a record. */
  lemma ParseIgnoresMsg(S: Suite, random: Random, b: Peer, m: Bytes, record: Bytes)
    requires Wf(b) && Wf(b.(msg := m)) && !Over(b) && |record| == b.need
    ensures var x := Parse(S, random, b, record); var y := Parse(S, random, b.(msg := m), record);
      x.1 == y.1 && x.0.(msg := []) == y.0.(msg := [])
  {
    hide ParseActOne, ParseActTwo, ParseActThree, ParseSize, ParseText;
    match b.state
    case ActOne => ActOneIgnoresMsg(S, random, b, m, record);
    case ActTwo => ActTwoIgnoresMsg(S, b, m, record);
    case ActThree => LastActIgnoresMsg(S, b, m, record);
    case Done => FrameIgnoresMsg(S, b, m, record);
  }

  predicate SameButMsg(x: (Peer, Code), y: (Peer, Code)) {
    x.1 == y.1 && x.0.(msg := []) == y.0.(msg := [])
  }

  lemma ActOneIgnoresMsg(S: Suite, random: Random, b: Peer, m: Bytes, record: Bytes)
    requires |record| == 80
    ensures SameButMsg(ParseActOne(S, random, b, record), ParseActOne(S, random, b.(msg := m), record))
  {
    hide RecvAct, GenAct;
    var r := RecvAct(S, b, b.localStatic, record).0;
    ActIgnoresMsg(S, b, m, [], b.localStatic, record, random);
    ActIgnoresMsg(S, r, m, r.remoteEphemeral, [], record, random);
  }

  lemma ActTwoIgnoresMsg(S: Suite, b: Peer, m: Bytes, record: Bytes)
    requires |record| == 80
    ensures SameButMsg(ParseActTwo(S, b, record), ParseActTwo(S, b.(msg := m), record))
  {
    hide RecvAct, AnswerActTwo;
    ActIgnoresMsg(S, b, m, [], b.localEphemeral, record, Random([], []));
    AnswerIgnoresMsg(S, RecvAct(S, b, b.localEphemeral, record).0, m);
  }

  lemma AnswerIgnoresMsg(S: Suite, b: Peer, m: Bytes)
    ensures SameButMsg(AnswerActTwo(S, b), AnswerActTwo(S, b.(msg := m)))
  {
    hide GenActThree, RecvActThree, SealedKey;
    ActThreeIgnoresMsg(S, b, m, seq(65, _ => 0));
  }

  lemma LastActIgnoresMsg(S: Suite, b: Peer, m: Bytes, record: Bytes)
    requires |record| == 65
    ensures SameButMsg(ParseActThree(S, b, record), ParseActThree(S, b.(msg := m), record))
  {
    hide RecvActThree, SealedKey, GenActThree;
    ActThreeIgnoresMsg(S, b, m, record);
  }

  lemma FrameIgnoresMsg(S: Suite, b: Peer, m: Bytes, record: Bytes)
    ensures |record| == 20 ==> SameButMsg(ParseSize(S, b, record), ParseSize(S, b.(msg := m), record))
    ensures |record| >= 16 ==> SameButMsg(ParseText(S, b, record), ParseText(S, b.(msg := m), record))
  {
    hide Decrypt, FromU32;
  }

  /** A record completed by y after x was buffered. */
  lemma FeedBuffered(S: Suite, random: Random, b: Peer, x: Bytes, y: Bytes)
    requires Wf(b) && !Over(b) && |b.msg| + |x| < b.need
    ensures var r := Feed(S, random, b.(msg := b.msg + x), y); var q := Feed(S, random, b, x + y);
      q.1 == r.1 && Observable(q.0) == Observable(r.0)
  {
    hide Parse;
    var c := b.(msg := b.msg + x);
    if |c.msg| + |y| < b.need {
      assert (b.msg + x) + y == b.msg + (x + y);
    } else {
      var j, k := b.need - |c.msg|, b.need - |b.msg|;
      var record := c.msg + y[..j];
      assert record == b.msg + (x + y)[..k];
      assert y[j..] == (x + y)[k..];
      ParseKeeps(S, random, b, record);
      ParseKeeps(S, random, c, record);
      ParseIgnoresMsg(S, random, b, c.msg, record);
    }
  }

  /** Reading x and then y is the same as reading them at once. */
  lemma {:induction false} FeedSplit(S: Suite, random: Random, b: Peer, x: Bytes, y: Bytes)
    requires Wf(b)
    ensures var r := Feed(S, random, b, x); var q := Feed(S, random, b, x + y);
      if Over(r.0) && !Over(b) then q == r
      else q.1 == Feed(S, random, r.0, y).1 && Observable(q.0) == Observable(Feed(S, random, r.0, y).0)
    decreases |x|
  {
    hide Parse;
    if !Over(b) {
      if |b.msg| + |x| < b.need {
        FeedBuffered(S, random, b, x, y);
      } else {
        var k := b.need - |b.msg|;
        var record := b.msg + x[..k];
        assert record == b.msg + (x + y)[..k] && (x + y)[k..] == x[k..] + y;
        ParseKeeps(S, random, b, record);
        var r := Parse(S, random, b, record);
        if r.1 == Success {
          FeedSplit(S, random, r.0, x[k..], y);
        }
      }
    }
  }

  /** A peer after a sequence of reads. */
  function Receive(S: Suite, random: Random, b: Peer, chunks: seq<Bytes>): (r: Peer)
    requires Wf(b)
    ensures Wf(r)
    decreases |chunks|
  {
    if chunks == [] then b else Receive(S, random, Feed(S, random, b, chunks[0]).0, chunks[1..])
  }

  /** Reads of any sizes do what one read of the whole stream does. */
  lemma {:induction false} ReceiveConcat(S: Suite, random: Random, b: Peer, chunks: seq<Bytes>)
    requires Wf(b)
    ensures Observable(Receive(S, random, b, chunks)) == Observable(Feed(S, random, b, Concat(chunks)).0)
    decreases |chunks|
  {
    if chunks == [] {
      assert b.msg + [] == b.msg;
    } else {
      var r := Feed(S, random, b, chunks[0]).0;
      ReceiveConcat(S, random, r, chunks[1..]);
      FeedSplit(S, random, b, chunks[0], Concat(chunks[1..]));
    }
  }

  // ----- When a read aborts

  /** Act one with a key that is not valid, or act three with such a key under a right first tag. */
  predicate AbortsOn(S: Suite, b: Peer, record: Bytes) {
    || (b.state == ActOne && |record| == 80 && !S.validKey(S.fromUniform(record[..64])))
    || (b.state == ActThree && |record| == 65 && SealedKey(S, b, record).1 && !S.validKey(SealedKey(S, b, record).0))
  }

  lemma ParseAborts(S: Suite, random: Random, b: Peer, record: Bytes)
    requires Wf(b) && !Over(b) && |record| == b.need
    ensures Parse(S, random, b, record).1 == Aborted <==> AbortsOn(S, b, record)
  {
    hide RecvAct, GenAct, RecvActThree, GenActThree, Decrypt, FromU32, SealedKey, Nonces;
    if b.state == ActOne {
      RecvActKeeps(S, b, b.localStatic, record);
    } else if b.state == ActTwo {
      RecvActKeeps(S, b, b.localEphemeral, record);
    }
  }

  /** Which acts are still to come only gets fewer. */
  lemma ParseGoesOn(S: Suite, random: Random, b: Peer, record: Bytes)
    requires Wf(b) && !Over(b) && |record| == b.need && Parse(S, random, b, record).1 == Success
    ensures var c := Parse(S, random, b, record).0; c.state == if b.state == ActOne then ActThree else Done
  {
    hide RecvAct, GenAct, RecvActThree, GenActThree, Decrypt, FromU32, SealedKey, Nonces;
  }

  /** Nothing that is read makes an initiator abort, or anybody who is connected. */
  lemma {:induction false} NeverAborts(S: Suite, random: Random, b: Peer, data: Bytes)
    requires Wf(b) && (b.initiator || b.state == Done) && b.state != Crashed
    ensures var r := Feed(S, random, b, data); r.1 != Aborted && r.0.state != Crashed && r.0.initiator == b.initiator
    decreases |data|
  {
    hide Parse, Nonces;
    if !Over(b) && |b.msg| + |data| >= b.need {
      var k := b.need - |b.msg|;
      var record := b.msg + data[..k];
      ParseKeeps(S, random, b, record);
      ParseAborts(S, random, b, record);
      var r := Parse(S, random, b, record);
      if r.1 == Success {
        ParseGoesOn(S, random, b, record);
        NeverAborts(S, random, r.0, data[k..]);
      }
    }
  }

  lemma {:induction false} InitiatorSafe(S: Suite, random: Random, b: Peer, chunks: seq<Bytes>)
    requires Wf(b) && b.initiator && b.state != Crashed
    ensures Receive(S, random, b, chunks).state != Crashed
    decreases |chunks|
  {
    hide Feed, Wf;
    if chunks != [] {
      NeverAborts(S, random, b, chunks[0]);
      InitiatorSafe(S, random, Feed(S, random, b, chunks[0]).0, chunks[1..]);
    }
  }

  lemma FeedCrashes(S: Suite, random: Random, b: Peer, data: Bytes)
    requires Wf(b)
    ensures var r := Feed(S, random, b, data); r.1 == Aborted <==> r.0.state == Crashed
    decreases |data|
  {
    hide Parse, Nonces;
    if !Over(b) && |b.msg| + |data| >= b.need {
      var k := b.need - |b.msg|;
      ParseKeeps(S, random, b, b.msg + data[..k]);
      var r := Parse(S, random, b, b.msg + data[..k]);
      if r.1 == Success {
        FeedCrashes(S, random, r.0, data[k..]);
      }
    }
  }

  /** One record of a read, with nothing in the buffer. */
  lemma FeedOne(S: Suite, random: Random, b: Peer, data: Bytes)
    requires Wf(b) && !Over(b) && b.msg == [] && |data| >= b.need
    ensures var record := data[..b.need]; var r := Parse(S, random, b, record); var q := Feed(S, random, b, data);
      && (r.1 == Aborted <==> AbortsOn(S, b, record))
      && (r.1 == Success ==> Wf(r.0) && !Over(r.0) && r.0.msg == [] && q == Feed(S, random, r.0, data[b.need..]))
      && (r.1 != Success ==> q.1 == r.1)
  {
    hide Parse, Nonces, AbortsOn;
    var record := data[..b.need];
    assert b.msg + record == record;
    ParseKeeps(S, random, b, record);
    ParseAborts(S, random, b, record);
  }

  /**
   * A responder that waits for act one, and any octets: it aborts exactly when act one has a key that is
   * not valid, or act one is accepted and act three has such a key under a right first tag.
   */
  lemma ResponderAborts(S: Suite, random: Random, b: Peer, data: Bytes)
    requires Wf(b) && b.state == ActOne && b.msg == []
    ensures Feed(S, random, b, data).1 == Aborted <==>
      && |data| >= 80
      && (|| AbortsOn(S, b, data[..80])
          || (var p := Parse(S, random, b, data[..80]);
              p.1 == Success && |data| >= 145 && AbortsOn(S, p.0, data[80..145])))
  {
    hide Parse, Nonces, AbortsOn;
    if |data| >= 80 {
      FeedOne(S, random, b, data);
      var p := Parse(S, random, b, data[..80]);
      if p.1 == Success {
        ParseGoesOn(S, random, b, data[..80]);
        var rest := data[80..];
        if |data| >= 145 {
          assert rest[..65] == data[80..145];
          FeedOne(S, random, p.0, rest);
          var q := Parse(S, random, p.0, rest[..65]);
          if q.1 == Success {
            ParseGoesOn(S, random, p.0, rest[..65]);
            NeverAborts(S, random, q.0, rest[65..]);
          }
        }
      }
    }
  }

  /** The same, however the octets are split into reads. */
  lemma ResponderCrashes(S: Suite, random: Random, b: Peer, chunks: seq<Bytes>)
    requires Wf(b) && b.state == ActOne && b.msg == []
    ensures Receive(S, random, b, chunks).state == Crashed <==> Feed(S, random, b, Concat(chunks)).1 == Aborted
  {
    hide Feed, Receive, Wf;
    ReceiveConcat(S, random, b, chunks);
    FeedCrashes(S, random, b, Concat(chunks));
  }

  /** A suite in which the only valid key is a two and zeros, and which hides nothing. */
  function OneKey(): Suite {
    var tag: Bytes := seq(16, _ => 0);
    var key: Bytes := [2] + seq(32, _ => 0);
    var none: Bytes := seq(33, _ => 0);
    Suite((k, iv, ad, p) => (p, tag), (k, iv, ad, x) => (x, tag), (a, b) => (a, b), a => a,
          a => key, (a, b) => [], (a, b) => seq(64, _ => 0), u => if u != [] && u[0] == 1 then none else key, k => k == key)
  }

  lemma OneKeyLawful()
    ensures OneKey().Lawful()
  {
    var S := OneKey();
    forall a, r ensures |S.toUniform(S.pubkey(a), r)| == 64 && S.fromUniform(S.toUniform(S.pubkey(a), r)) == S.pubkey(a) {
      assert S.toUniform(S.pubkey(a), r)[0] == 0;
    }
  }

  const ZEROS: Bytes := seq(145, _ => 0)

  /**
   * So there are lawful suites where octets make a responder abort: here a good act one and then an act
   * three that seals 33 zeros as a key.
   */
  lemma BadKeyAborts(random: Random)
    ensures OneKey().Lawful()
    ensures var b := Connect(OneKey(), random, Begin(OneKey(), false, [], []));
      && Wf(b) && b.state == ActOne && Parse(OneKey(), random, b, ZEROS[..80]).1 == Success
      && Feed(OneKey(), random, b, ZEROS).1 == Aborted
  {
    hide Begin, Feed, Connect;
    var S := OneKey();
    OneKeyLawful();
    var b0 := Begin(S, false, [], []);
    BeginIs(S, false, [], []);
    var b := Connect(S, random, b0);
    ConnectResponder(S, random, b0);
    ZerosAccepted(random, b);
    var p := Parse(S, random, b, ZEROS[..80]);
    ParseGoesOn(S, random, b, ZEROS[..80]);
    ZerosSeal(p.0);
    ResponderAborts(S, random, b, ZEROS);
  }

  lemma ZerosAccepted(random: Random, b: Peer)
    requires Wf(b) && b.state == ActOne
    ensures Parse(OneKey(), random, b, ZEROS[..80]).1 == Success
  {
    hide GenAct;
    var act, tag: Bytes := ZEROS[..80], seq(16, _ => 0);
    assert act[..64][0] == 0;
    assert act[64..] == tag;
  }

  lemma ZerosSeal(b: Peer)
    requires b.state == ActThree
    ensures AbortsOn(OneKey(), b, ZEROS[80..145])
  {
    var act := ZEROS[80..145];
    var tag: Bytes := seq(16, _ => 0);
    assert |act| == 65 && forall i :: 0 <= i < 65 ==> act[i] == 0;
    assert act[33..49] == tag;
    assert act[..33][0] == 0;
  }

  // ----- Streams

  /** Connected, and between two messages. */
  predicate Ready(b: Peer) {
    Wf(b) && b.state == Done && !b.hasSize && b.msg == []
  }

  /** The header of a frame is read. */
  lemma FeedSize(S: Suite, random: Random, b: Peer, m: Bytes, rest: Bytes)
    requires S.Sealing() && Ready(b) && |m| <= MAX_MESSAGE
    ensures var r := Encrypt(S, b.recv, None, U32(|m|));
      var c := b.(recv := r.0, hasSize := true, need := |m| + 16);
      |r.1| == 4 && Wf(c) && Feed(S, random, b, r.1 + r.0.tag + rest) == Feed(S, random, c, rest)
  {
    hide Encrypt, Decrypt, FromU32, U32;
    var r := Encrypt(S, b.recv, None, U32(|m|));
    Lockstep(S, b.recv, None, U32(|m|));
    U32Inverse(|m|);
    var record, data := r.1 + r.0.tag, r.1 + r.0.tag + rest;
    assert b.msg + data[..20] == record && data[20..] == rest;
    assert record[..4] == r.1 && record[4..] == r.0.tag;
    assert Parse(S, random, b, record) == (b.(recv := r.0, hasSize := true, need := |m| + 16), Success);
  }

  /** The text of a frame is read and delivered. */
  lemma FeedText(S: Suite, random: Random, b: Peer, m: Bytes, rest: Bytes)
    requires S.Sealing() && Wf(b) && b.state == Done && b.hasSize && b.msg == [] && b.need == |m| + 16
    ensures var r := Encrypt(S, b.recv, None, m);
      var c := b.(recv := r.0, hasSize := false, need := 20, received := b.received + [m]);
      Ready(c) && Feed(S, random, b, r.1 + r.0.tag + rest) == Feed(S, random, c, rest)
  {
    hide Encrypt, Decrypt;
    var r := Encrypt(S, b.recv, None, m);
    Lockstep(S, b.recv, None, m);
    var record, data := r.1 + r.0.tag, r.1 + r.0.tag + rest;
    var n := |m| + 16;
    assert b.msg + data[..n] == record && data[n..] == rest;
    assert record[..|m|] == r.1 && record[|m|..] == r.0.tag;
    assert Parse(S, random, b, record)
        == (b.(recv := r.0, hasSize := false, need := 20, received := b.received + [m]), Success);
  }

  lemma FeedFrame(S: Suite, random: Random, b: Peer, m: Bytes, rest: Bytes)
    requires S.Sealing() && Ready(b) && |m| <= MAX_MESSAGE
    ensures var r := Frame(S, b.recv, m);
      var c := b.(recv := r.0, received := b.received + [m]);
      Ready(c) && Feed(S, random, b, r.1 + rest) == Feed(S, random, c, rest)
  {
    hide Encrypt, Feed;
    var r1 := Encrypt(S, b.recv, None, U32(|m|));
    var r2 := Encrypt(S, r1.0, None, m);
    FeedSize(S, random, b, m, r2.1 + r2.0.tag + rest);
    FeedText(S, random, b.(recv := r1.0, hasSize := true, need := |m| + 16), m, rest);
    assert Frame(S, b.recv, m).1 + rest == r1.1 + r1.0.tag + (r2.1 + r2.0.tag + rest);
  }

  lemma {:induction false} FeedFrames(S: Suite, random: Random, b: Peer, ms: seq<Bytes>)
    requires S.Sealing() && Ready(b) && forall i :: 0 <= i < |ms| ==> |ms[i]| <= MAX_MESSAGE
    ensures var r := Frames(S, b.recv, ms);
      var c := b.(recv := r.0, received := b.received + ms);
      Ready(c) && Feed(S, random, b, r.1).0 == c
    decreases |ms|
  {
    hide Frame, Parse;
    if ms == [] {
      assert b.received + [] == b.received && b.msg + [] == b.msg;
    } else {
      var r := Frame(S, b.recv, ms[0]);
      var rest := Frames(S, r.0, ms[1..]);
      FeedFrame(S, random, b, ms[0], rest.1);
      FeedFrames(S, random, b.(recv := r.0, received := b.received + [ms[0]]), ms[1..]);
      assert b.received + ms == (b.received + [ms[0]]) + ms[1..];
    }
  }

  /**
   * Whatever the messages and however the octets of their frames are split into reads, a peer
   * whose receiving cipher equals the sender's sending cipher receives exactly those messages,
   * and the two ciphers are equal again.
   */
  lemma StreamCorrect(S: Suite, random: Random, a: Peer, b: Peer, ms: seq<Bytes>, chunks: seq<Bytes>)
    requires S.Sealing() && a.state == Done && Ready(b) && a.send == b.recv
    requires forall i :: 0 <= i < |ms| ==> |ms[i]| <= MAX_MESSAGE
    requires a.written + Concat(chunks) == WriteAll(S, a, ms).written
    ensures var c := Receive(S, random, b, chunks);
      && Ready(c) && c.received == b.received + ms && c.recv == WriteAll(S, a, ms).send
      && c == b.(recv := c.recv, received := c.received)
  {
    hide Frames, Feed, Receive;
    WriteAllIs(S, a, ms);
    var r := Frames(S, a.send, ms);
    assert Concat(chunks) == (a.written + Concat(chunks))[|a.written|..] == r.1;
    FeedFrames(S, random, b, ms);
    ReceiveConcat(S, random, b, chunks);
  }

  /** A message too long for the receiver is refused, and the connection is over. */
  lemma OversizeRefused(S: Suite, random: Random, b: Peer, m: Bytes, rest: Bytes)
    requires S.Sealing() && Ready(b) && MAX_MESSAGE < |m| < 0x1_0000_0000
    ensures var r := Feed(S, random, b, Frame(S, b.recv, m).1 + rest); r.1 == BadSize && r.0.state == NoAct
  {
    hide Encrypt, Decrypt, FromU32, U32;
    var r := Encrypt(S, b.recv, None, U32(|m|));
    Lockstep(S, b.recv, None, U32(|m|));
    U32Inverse(|m|);
    var data := Frame(S, b.recv, m).1 + rest;
    var record := r.1 + r.0.tag;
    assert b.msg + data[..20] == record;
    assert record[..4] == r.1 && record[4..] == r.0.tag;
    assert Parse(S, random, b, record) == (b.(recv := r.0), BadSize);
  }

  // ----- The handshake over the wire

  /** hsk_brontide_on_connect: the initiator writes act one, the responder waits for it. */
  function Connect(S: Suite, random: Random, b: Peer): Peer {
    if b.initiator && !S.validKey(b.remoteStatic) then b.(state := Crashed)
    else if b.initiator then
      var g := GenAct(S, b.(state := ActTwo), b.remoteStatic, random.ephemeral, random.uniform);
      Expect(g.0.(written := g.0.written + g.1), 80)
    else Expect(b.(state := ActOne), 80)
  }

  lemma ConnectWf(S: Suite, random: Random, b: Peer)
    requires Wf(b) && !b.hasSize
    ensures Wf(Connect(S, random, b))
  {
    hide GenAct;
    GenActNonces(S, b.(state := ActTwo), b.remoteStatic, random.ephemeral, random.uniform);
  }

  /** However a record is split into reads, the peer does what the record asks for. */
  lemma ReceiveRecord(S: Suite, random: Random, b: Peer, chunks: seq<Bytes>)
    requires Wf(b) && !Over(b) && b.msg == [] && |Concat(chunks)| == b.need
    requires Parse(S, random, b, Concat(chunks)).1 == Success
    ensures Receive(S, random, b, chunks) == Parse(S, random, b, Concat(chunks)).0
  {
    hide Parse;
    var record := Concat(chunks);
    ParseKeeps(S, random, b, record);
    var r := Parse(S, random, b, record).0;
    assert b.msg + record[..b.need] == record && record[b.need..] == [];
    assert Feed(S, random, r, []) == (r, Success) by { assert r.msg + [] == r.msg; }
    assert Feed(S, random, b, record).0 == r;
    ReceiveConcat(S, random, b, chunks);
  }

  lemma BeginIs(S: Suite, initiator: bool, localStatic: Bytes, remoteStatic: Bytes)
    ensures var b := Begin(S, initiator, localStatic, remoteStatic);
      && Nonces(b) && b.initiator == initiator && b.localStatic == localStatic && b.remoteStatic == remoteStatic
      && b.send == b.recv == Blank() && !b.hasSize && b.written == [] && b.received == []
  {
  }

  /** Act one arrives, in any number of reads: the responder agrees with the initiator and answers. */
  lemma ActOneArrives(S: Suite, x: Random, y: Random, a: Peer, b: Peer, chunks: seq<Bytes>)
    requires S.Lawful() && Agree(a, b) && Wf(b) && b.state == ActOne && b.msg == []
    requires a.remoteStatic == S.pubkey(b.localStatic)
    requires Concat(chunks) == GenAct(S, a, a.remoteStatic, x.ephemeral, x.uniform).1
    ensures |Concat(chunks)| == 80
    ensures var r := RecvAct(S, b, b.localStatic, Concat(chunks));
      && Agree(GenAct(S, a, a.remoteStatic, x.ephemeral, x.uniform).0, r.0) && SameSetup(b, r.0) && SameRole(r.0, b)
      && r.0.remoteEphemeral == S.pubkey(x.ephemeral) && Nonces(r.0)
      && var g := GenAct(S, r.0, r.0.remoteEphemeral, y.ephemeral, y.uniform);
         Receive(S, y, b, chunks) == Expect(g.0.(written := g.0.written + g.1, state := ActThree), 65)
  {
    hide GenAct, RecvAct, Agree, Receive;
    ActAgrees(S, a, b, a.remoteStatic, x.ephemeral, b.localStatic, x.uniform);
    GenActCarries(S, a, a.remoteStatic, x.ephemeral, x.uniform);
    RecvActKeeps(S, b, b.localStatic, Concat(chunks));
    RecvActNonces(S, b, b.localStatic, Concat(chunks));
    ReceiveRecord(S, y, b, chunks);
  }

  /** Act two arrives: the initiator agrees with the responder, answers and is connected. */
  lemma ActTwoArrives(S: Suite, x: Random, y: Random, a: Peer, r: Peer, chunks: seq<Bytes>)
    requires S.Lawful() && Agree(r, a) && Wf(a) && a.state == ActTwo && a.msg == []
    requires r.remoteEphemeral == S.pubkey(a.localEphemeral)
    requires Concat(chunks) == GenAct(S, r, r.remoteEphemeral, y.ephemeral, y.uniform).1
    ensures |Concat(chunks)| == 80
    ensures var q := RecvAct(S, a, a.localEphemeral, Concat(chunks));
      && Agree(GenAct(S, r, r.remoteEphemeral, y.ephemeral, y.uniform).0, q.0) && SameSetup(a, q.0) && SameRole(q.0, a)
      && q.0.remoteEphemeral == S.pubkey(y.ephemeral) && Nonces(q.0)
      && var g := GenActThree(S, q.0);
         Receive(S, x, a, chunks) == Expect(g.0.(written := g.0.written + g.1, state := Done), 20)
  {
    hide GenAct, RecvAct, Agree, Receive, GenActThree;
    ActAgrees(S, r, a, r.remoteEphemeral, y.ephemeral, a.localEphemeral, y.uniform);
    GenActCarries(S, r, r.remoteEphemeral, y.ephemeral, y.uniform);
    RecvActKeeps(S, a, a.localEphemeral, Concat(chunks));
    RecvActNonces(S, a, a.localEphemeral, Concat(chunks));
    ReceiveRecord(S, x, a, chunks);
  }

  /** Act three arrives: both ends hold the same keys, and the responder knows the initiator. */
  lemma ActThreeArrives(S: Suite, y: Random, q: Peer, b: Peer, chunks: seq<Bytes>)
    requires S.Lawful() && Agree(q, b) && Wf(b) && b.state == ActThree && b.msg == [] && q.initiator
    requires q.send == b.recv && q.recv == b.send && q.remoteEphemeral == S.pubkey(b.localEphemeral)
    requires Concat(chunks) == GenActThree(S, q).1
    ensures var c := Receive(S, y, b, chunks);
      && Ready(c) && Paired(GenActThree(S, q).0, c) && c.remoteStatic == S.pubkey(q.localStatic)
      && c.received == b.received
  {
    hide GenActThree, RecvActThree, Agree, Receive, Paired;
    ActThreeAgrees(S, q, b);
    var act := Concat(chunks);
    ParseKeeps(S, y, b, act);
    RecvActThreeNonces(S, b, act);
    ReceiveRecord(S, y, b, chunks);
    PairedExpect(GenActThree(S, q).0, RecvActThree(S, b, act).0);
  }

  lemma PairedExpect(a: Peer, b: Peer)
    requires Paired(a, b)
    ensures Paired(a, Expect(b.(state := Done), 20))
    ensures forall w :: Paired(Expect(a.(written := w, state := Done), 20), b)
  {
  }

  /** The initiator has sent act one and waits for act two. */
  lemma ConnectInitiator(S: Suite, x: Random, a: Peer)
    requires a.initiator && S.validKey(a.remoteStatic) && Nonces(a) && !a.hasSize && a.written == []
    ensures var g := GenAct(S, a.(state := ActTwo), a.remoteStatic, x.ephemeral, x.uniform); var c := Connect(S, x, a);
      && Wf(c) && c.state == ActTwo && c.msg == [] && c.written == g.1 && c.received == a.received
      && c.localEphemeral == x.ephemeral && SameSetup(a, c) && c == Expect(g.0.(written := g.1), 80)
  {
    hide GenAct;
    GenActNonces(S, a.(state := ActTwo), a.remoteStatic, x.ephemeral, x.uniform);
    GenActKeeps(S, a.(state := ActTwo), a.remoteStatic, x.ephemeral, x.uniform);
  }

  lemma AgreeFields(a: Peer, b: Peer, c: Peer, d: Peer)
    requires Agree(a, b) && c.digest == a.digest && c.chain == a.chain && c.cs == a.cs
    requires d.digest == b.digest && d.chain == b.chain && d.cs == b.cs
    ensures Agree(c, d) && Agree(d, c)
  {
  }

  /**
   * An undisturbed handshake: for all static and ephemeral keys, and however each act is split into
   * reads, both ends are connected, with the same digest and chaining key, each sending under what the
   * other receives under, and the responder knows the initiator's static key.
   */
  lemma Handshake(S: Suite, x: Random, y: Random, mine: Bytes, theirs: Bytes, none: Bytes,
                  one: seq<Bytes>, two: seq<Bytes>, three: seq<Bytes>)
    requires S.Lawful()
    ensures var a := Connect(S, x, Begin(S, true, mine, S.pubkey(theirs)));
      var b := Connect(S, y, Begin(S, false, theirs, none));
      && Wf(a) && Wf(b) && |a.written| == 80
      && (Concat(one) == a.written ==>
          var b2 := Receive(S, y, b, one);
          && b2.state == ActThree && b2.msg == [] && |b2.written| == 80
          && (Concat(two) == b2.written ==>
            var a2 := Receive(S, x, a, two);
            && a.written <= a2.written && |a2.written| == 145
            && (a.written + Concat(three) == a2.written ==>
              var b3 := Receive(S, y, b2, three);
              && Ready(a2) && Ready(b3) && Paired(a2, b3) && b3.remoteStatic == S.pubkey(mine)
              && a2.received == [] && b3.received == [])))
  {
    hide GenAct, RecvAct, Agree, Receive, GenActThree, Paired, Begin, Connect;
    var a0, b0 := Begin(S, true, mine, S.pubkey(theirs)), Begin(S, false, theirs, none);
    BeginIs(S, true, mine, S.pubkey(theirs));
    BeginIs(S, false, theirs, none);
    BeginAgrees(S, mine, theirs, none);
    var a, b := Connect(S, x, a0), Connect(S, y, b0);
    ConnectInitiator(S, x, a0);
    ConnectResponder(S, y, b0);
    GenActSize(S, a0.(state := ActTwo), a0.remoteStatic, x.ephemeral, x.uniform);
    if Concat(one) == a.written {
      var a1 := a0.(state := ActTwo);
      AgreeFields(a0, b0, a1, b);
      ActOneArrives(S, x, y, a1, b, one);
      var r := RecvAct(S, b, b.localStatic, Concat(one)).0;
      AgreeFields(GenAct(S, a1, a1.remoteStatic, x.ephemeral, x.uniform).0, r, a, r);
      ResponderAnswers(S, y, r);
      GenActSize(S, r, r.remoteEphemeral, y.ephemeral, y.uniform);
      var b2 := Receive(S, y, b, one);
      if Concat(two) == b2.written {
        ActTwoArrives(S, x, y, a, r, two);
        var q := RecvAct(S, a, a.localEphemeral, Concat(two)).0;
        AgreeFields(GenAct(S, r, r.remoteEphemeral, y.ephemeral, y.uniform).0, q, b2, q);
        InitiatorAnswers(S, q);
        ActThreeAgrees(S, q, b2);
        var a2 := Receive(S, x, a, two);
        if a.written + Concat(three) == a2.written {
          assert Concat(three) == (a.written + Concat(three))[|a.written|..] == GenActThree(S, q).1;
          ActThreeArrives(S, y, q, b2, three);
          PairedExpect(GenActThree(S, q).0, Receive(S, y, b2, three));
        }
      }
    }
  }

  lemma ConnectResponder(S: Suite, y: Random, b: Peer)
    requires !b.initiator && Nonces(b) && !b.hasSize
    ensures Connect(S, y, b) == Expect(b.(state := ActOne), 80) && Wf(Connect(S, y, b))
  {
  }

  lemma ResponderAnswers(S: Suite, y: Random, r: Peer)
    requires !r.initiator && Nonces(r) && !r.hasSize && r.written == []
    ensures var g := GenAct(S, r, r.remoteEphemeral, y.ephemeral, y.uniform);
      var c := Expect(g.0.(written := g.0.written + g.1, state := ActThree), 65);
      Wf(c) && c.written == g.1 && SameSetup(r, c) && c.localEphemeral == y.ephemeral && c.received == r.received
  {
    hide GenAct;
    GenActNonces(S, r, r.remoteEphemeral, y.ephemeral, y.uniform);
    GenActKeeps(S, r, r.remoteEphemeral, y.ephemeral, y.uniform);
  }

  lemma InitiatorAnswers(S: Suite, q: Peer)
    requires Nonces(q) && !q.hasSize
    ensures var g := GenActThree(S, q);
      var c := Expect(g.0.(written := g.0.written + g.1, state := Done), 20);
      Ready(c) && c.written == q.written + g.1 && c.received == q.received
  {
    hide GenActThree;
    GenActThreeNonces(S, q);
  }
}
