/**
 * The cipher states and the three-act handshake of brontide, as functions on
 * values (src/brontide.c). The primitives are whatever a suite supplies.
 */
module Noise {
  import opened Bytes

  const ROTATION_INTERVAL: nat := 1000

  type Iv = s: Bytes | |s| == 12 witness seq(12, _ => 0)

  /**
   * The primitives: authenticated encryption of a text under key, iv and associated data,
   * giving the text and its tag; HKDF; SHA-256; public keys, Diffie-Hellman, and the uniform
   * encoding of public keys, which takes randomness. Diffie-Hellman is only asked for with keys
   * that are valid: with any other the source's asserts fail, see Transport.
   */
  datatype Suite = Suite(
    seal: (Bytes, Iv, Option<Bytes>, Bytes) -> (Bytes, Bytes),
    unseal: (Bytes, Iv, Option<Bytes>, Bytes) -> (Bytes, Bytes),
    hkdf: (Bytes, Bytes) -> (Bytes, Bytes),
    sha256: Bytes -> Bytes,
    pubkey: Bytes -> Bytes,
    ecdh: (Bytes, Bytes) -> Bytes,
    toUniform: (Bytes, Bytes) -> Bytes,
    fromUniform: Bytes -> Bytes,
    validKey: Bytes -> bool)
  {
    /** Decryption undoes encryption and computes the same tag. */
    ghost predicate Sealing() {
      forall key, iv, ad, p ::
        var (x, tag) := seal(key, iv, ad, p);
        |x| == |p| && |tag| == 16 && unseal(key, iv, ad, x) == (p, tag)
    }

    ghost predicate Keys() {
      && (forall a, b :: ecdh(pubkey(a), b) == ecdh(pubkey(b), a))
      && (forall a :: |pubkey(a)| == 33 && validKey(pubkey(a)))
      && (forall a, r :: |toUniform(pubkey(a), r)| == 64 && fromUniform(toUniform(pubkey(a), r)) == pubkey(a))
    }

    /** All that is assumed of the primitives. */
    ghost predicate Lawful() {
      Sealing() && Keys()
    }
  }

  /** The assumptions can be met: here by primitives that hide nothing. */
  lemma LawfulSuite() returns (S: Suite)
    ensures S.Lawful()
  {
    var tag: Bytes := seq(16, _ => 0);
    var key: Bytes := seq(33, _ => 0);
    S := Suite((k, iv, ad, p) => (p, tag), (k, iv, ad, x) => (x, tag), (a, b) => (a, b), a => a,
               a => key, (a, b) => [], (a, b) => seq(64, _ => 0), a => key, a => true);
  }

  /** The four octets of a 32-bit number, least significant first. */
  function U32(n: nat): (r: Bytes)
    ensures |r| == 4
  {
    [n % 256, n / 256 % 256, n / 65536 % 256, n / 16777216 % 256]
  }

  function FromU32(s: Bytes): nat {
    if |s| != 4 then 0
    else s[0] as int + s[1] as int * 256 + s[2] as int * 65536 + s[3] as int * 16777216
  }

  lemma U32Inverse(n: nat)
    requires n < 0x1_0000_0000
    ensures FromU32(U32(n)) == n
  {
    assert n / 65536 == n / 256 / 256 && n / 16777216 == n / 256 / 256 / 256;
  }

  // ----- Cipher states

  datatype Cipher = Cipher(nonce: nat, iv: Iv, key: Bytes, salt: Bytes, tag: Bytes)

  function Update(c: Cipher): Cipher {
    c.(iv := c.iv[..4] + U32(c.nonce) + c.iv[8..])
  }

  function InitKey(c: Cipher, key: Bytes): Cipher {
    Update(c.(key := key, nonce := 0))
  }

  function InitSaltKey(c: Cipher, salt: Bytes, key: Bytes): Cipher {
    InitKey(c.(salt := salt), key)
  }

  function RotateKey(S: Suite, c: Cipher): Cipher {
    var h := S.hkdf(c.key, c.salt);
    InitKey(c.(salt := h.0), h.1)
  }

  /** After each message the nonce moves on, and every thousandth message changes the key. */
  function Advance(S: Suite, c: Cipher): Cipher {
    var d := Update(c.(nonce := c.nonce + 1));
    if d.nonce == ROTATION_INTERVAL then RotateKey(S, d) else d
  }

  function Encrypt(S: Suite, c: Cipher, ad: Option<Bytes>, p: Bytes): (Cipher, Bytes) {
    var r := S.seal(c.key, c.iv, ad, p);
    (Advance(S, c.(tag := r.1)), r.0)
  }

  function Decrypt(S: Suite, c: Cipher, ad: Option<Bytes>, x: Bytes): (Cipher, Bytes) {
    var r := S.unseal(c.key, c.iv, ad, x);
    (Advance(S, c.(tag := r.1)), r.0)
  }

  /** Two equal cipher states stay equal when one decrypts what the other encrypted, and the text survives. */
  lemma Lockstep(S: Suite, c: Cipher, ad: Option<Bytes>, p: Bytes)
    requires S.Sealing()
    ensures Decrypt(S, c, ad, Encrypt(S, c, ad, p).1) == (Encrypt(S, c, ad, p).0, p)
    ensures |Encrypt(S, c, ad, p).1| == |p| && |Encrypt(S, c, ad, p).0.tag| == 16
    ensures c.nonce < ROTATION_INTERVAL ==> Encrypt(S, c, ad, p).0.nonce < ROTATION_INTERVAL
  {
    var r := S.seal(c.key, c.iv, ad, p);
    assert |r.0| == |p| && S.unseal(c.key, c.iv, ad, r.0) == (p, r.1);
  }

  /** The key and salt after a number of rotations. */
  function Rotated(S: Suite, key: Bytes, salt: Bytes, n: nat): (Bytes, Bytes) {
    if n == 0 then (key, salt)
    else
      var r := Rotated(S, key, salt, n - 1);
      var h := S.hkdf(r.0, r.1);
      (h.1, h.0)
  }

  function Advanced(S: Suite, c: Cipher, n: nat): Cipher {
    if n == 0 then c else Advance(S, Advanced(S, c, n - 1))
  }

  lemma AdvanceFields(S: Suite, c: Cipher)
    ensures var d := Advance(S, c);
      if c.nonce + 1 == ROTATION_INTERVAL then d.nonce == 0 && (d.key, d.salt) == Rotated(S, c.key, c.salt, 1)
      else d.nonce == c.nonce + 1 && d.key == c.key && d.salt == c.salt
  {
    assert Rotated(S, c.key, c.salt, 0) == (c.key, c.salt);
  }

  lemma RotatedNext(S: Suite, key: Bytes, salt: Bytes, n: nat)
    ensures var r := Rotated(S, key, salt, n); Rotated(S, key, salt, n + 1) == Rotated(S, r.0, r.1, 1)
  {
    var r := Rotated(S, key, salt, n);
    assert Rotated(S, r.0, r.1, 0) == r;
  }

  lemma Turns(n: nat)
    requires n > 0
    ensures if (n - 1) % 1000 == 999 then n % 1000 == 0 && n / 1000 == (n - 1) / 1000 + 1
            else n % 1000 == (n - 1) % 1000 + 1 && n / 1000 == (n - 1) / 1000
  {
  }

  /** After n messages of a fresh key, the nonce is n mod 1000 and the key has been rotated n / 1000 times. */
  lemma {:induction false} RotationSchedule(S: Suite, c: Cipher, n: nat)
    requires c.nonce == 0
    ensures var d := Advanced(S, c, n);
      d.nonce == n % 1000 && (d.key, d.salt) == Rotated(S, c.key, c.salt, n / 1000)
  {
    hide Advance, Rotated;
    if n == 0 {
      RotatedNone(S, c.key, c.salt);
    } else {
      RotationSchedule(S, c, n - 1);
      AdvanceFields(S, Advanced(S, c, n - 1));
      RotatedNext(S, c.key, c.salt, (n - 1) / 1000);
      Turns(n);
    }
  }

  lemma RotatedNone(S: Suite, key: Bytes, salt: Bytes)
    ensures Rotated(S, key, salt, 0) == (key, salt)
  {
  }

  // ----- The handshake

  /** Crashed: an assert of the source has failed, and the process is gone. */
  datatype Act = NoAct | ActOne | ActTwo | ActThree | Done | Crashed

  /** One end of a connection; `received` and `written` record what went to the read and write callbacks. */
  datatype Peer = Peer(
    initiator: bool, state: Act, cs: Cipher, chain: Bytes, temp: Bytes, digest: Bytes,
    localStatic: Bytes, localEphemeral: Bytes, remoteStatic: Bytes, remoteEphemeral: Bytes,
    send: Cipher, recv: Cipher, hasSize: bool, msg: Bytes, need: nat,
    received: seq<Bytes>, written: Bytes)

  function MixHash(S: Suite, b: Peer, data: Bytes): Peer {
    b.(digest := S.sha256(b.digest + data))
  }

  function MixKey(S: Suite, b: Peer, secret: Bytes): Peer {
    var h := S.hkdf(secret, b.chain);
    b.(chain := h.0, temp := h.1, cs := InitKey(b.cs, h.1))
  }

  /** Encrypts under the handshake key, bound to the digest; the tag is in the cipher state. */
  function EncryptMixed(S: Suite, b: Peer, p: Bytes): (Peer, Bytes) {
    var r := Encrypt(S, b.cs, Some(b.digest), p);
    (b.(cs := r.0, digest := S.sha256(b.digest + r.1 + r.0.tag)), r.1)
  }

  function DecryptMixed(S: Suite, b: Peer, x: Bytes, tag: Bytes): (Peer, Bytes) {
    var r := Decrypt(S, b.cs, Some(b.digest), x);
    (b.(cs := r.0, digest := S.sha256(b.digest + x + tag)), r.1)
  }

  /** e, and the Diffie-Hellman of the remote key with e: acts one and two. */
  function GenAct(S: Suite, b: Peer, remote: Bytes, ephemeral: Bytes, random: Bytes): (Peer, Bytes) {
    var e := S.pubkey(ephemeral);
    var mixed := MixKey(S, MixHash(S, b.(localEphemeral := ephemeral), e), S.ecdh(remote, ephemeral));
    var r := EncryptMixed(S, mixed, []);
    (r.0, S.toUniform(e, random) + r.0.cs.tag)
  }

  function RecvAct(S: Suite, b: Peer, secret: Bytes, act: Bytes): (Peer, bool)
    requires |act| == 80
  {
    var e := S.fromUniform(act[..64]);
    var mixed := MixKey(S, MixHash(S, b.(remoteEphemeral := e), e), S.ecdh(e, secret));
    var r := DecryptMixed(S, mixed, [], act[64..]);
    (r.0, r.0.cs.tag == act[64..])
  }

  function Split(S: Suite, b: Peer): Peer {
    var h := S.hkdf([], b.chain);
    if b.initiator then
      b.(send := InitSaltKey(b.send, b.chain, h.0), recv := InitSaltKey(b.recv, b.chain, h.1))
    else
      b.(recv := InitSaltKey(b.recv, b.chain, h.0), send := InitSaltKey(b.send, b.chain, h.1))
  }

  function GenActThree(S: Suite, b: Peer): (Peer, Bytes) {
    var r1 := EncryptMixed(S, b, S.pubkey(b.localStatic));
    var r2 := EncryptMixed(S, MixKey(S, r1.0, S.ecdh(b.remoteEphemeral, b.localStatic)), []);
    (Split(S, r2.0), r1.1 + r1.0.cs.tag + r2.0.cs.tag)
  }

  /** The static key that act three carries, and whether its first tag is right. */
  function SealedKey(S: Suite, b: Peer, act: Bytes): (Bytes, bool)
    requires |act| == 65
  {
    var r := DecryptMixed(S, b, act[..33], act[33..49]);
    (r.1, r.0.cs.tag == act[33..49])
  }

  function RecvActThree(S: Suite, b: Peer, act: Bytes): (Peer, bool)
    requires |act| == 65
  {
    var r1 := DecryptMixed(S, b, act[..33], act[33..49]);
    if r1.0.cs.tag != act[33..49] then (r1.0, false)
    else
      var keyed := r1.0.(remoteStatic := r1.1);
      var r2 := DecryptMixed(S, MixKey(S, keyed, S.ecdh(r1.1, b.localEphemeral)), [], act[49..]);
      if r2.0.cs.tag != act[49..] then (r2.0, false) else (Split(S, r2.0), true)
  }

  /** The two ends have hashed the same things and derived the same keys. */
  predicate Agree(a: Peer, b: Peer) {
    a.digest == b.digest && a.chain == b.chain && a.cs == b.cs
  }

  lemma MixAgrees(S: Suite, a: Peer, b: Peer, data: Bytes, secret: Bytes)
    requires Agree(a, b)
    ensures Agree(MixKey(S, MixHash(S, a, data), secret), MixKey(S, MixHash(S, b, data), secret))
    ensures Agree(MixKey(S, a, secret), MixKey(S, b, secret))
  {
  }

  /** What one end encrypts, the agreeing other end decrypts; they still agree, and the tag verifies. */
  lemma MixedAgrees(S: Suite, a: Peer, b: Peer, p: Bytes)
    requires S.Sealing() && Agree(a, b)
    ensures var r := EncryptMixed(S, a, p); var q := DecryptMixed(S, b, r.1, r.0.cs.tag);
      && Agree(r.0, q.0) && q.1 == p && q.0.cs.tag == r.0.cs.tag && |r.1| == |p| && |r.0.cs.tag| == 16
  {
    Lockstep(S, a.cs, Some(a.digest), p);
  }

  /** Acts one and two: the receiver accepts, learns the ephemeral key, and the two ends still agree. */
  lemma ActAgrees(S: Suite, a: Peer, b: Peer, remote: Bytes, ephemeral: Bytes, secret: Bytes, random: Bytes)
    requires S.Lawful() && Agree(a, b) && S.ecdh(remote, ephemeral) == S.ecdh(S.pubkey(ephemeral), secret)
    ensures |GenAct(S, a, remote, ephemeral, random).1| == 80
    ensures var act := GenAct(S, a, remote, ephemeral, random).1;
      && S.validKey(S.fromUniform(act[..64])) && RecvAct(S, b, secret, act).1
      && Agree(GenAct(S, a, remote, ephemeral, random).0, RecvAct(S, b, secret, act).0)
  {
    hide Agree, Encrypt, Decrypt, InitKey;
    var e, shared := S.pubkey(ephemeral), S.ecdh(remote, ephemeral);
    var u := S.toUniform(e, random);
    assert |u| == 64 && S.fromUniform(u) == e;
    AgreesUp(a, b, ephemeral, e);
    var x, y := a.(localEphemeral := ephemeral), b.(remoteEphemeral := e);
    MixAgrees(S, x, y, e, shared);
    var mx, my := MixKey(S, MixHash(S, x, e), shared), MixKey(S, MixHash(S, y, e), shared);
    MixedAgrees(S, mx, my, []);
    var r := EncryptMixed(S, mx, []);
    assert r.1 == [];
    var act := u + r.0.cs.tag;
    assert act == GenAct(S, a, remote, ephemeral, random).1;
    assert act[..64] == u && act[64..] == r.0.cs.tag;
  }

  lemma AgreesUp(a: Peer, b: Peer, x: Bytes, y: Bytes)
    requires Agree(a, b)
    ensures Agree(a.(localEphemeral := x), b.(remoteEphemeral := y))
  {
  }

  const ZERO_KEY: Bytes := seq(32, _ => 0)

  function Blank(): Cipher {
    Cipher(0, seq(12, _ => 0), ZERO_KEY, ZERO_KEY, seq(16, _ => 0))
  }

  function Ascii(s: string): Bytes {
    seq(|s|, i requires 0 <= i < |s| => s[i] as int % 256)
  }

  const PROTOCOL := Ascii("Noise_XK_secp256k1_ChaChaPoly_SHA256+SVDW_Squared")
  const PROLOGUE := Ascii("hns")

  /** hsk_brontide_init, and hsk_brontide_init_sym. */
  function Setup(S: Suite, initiator: bool, localStatic: Bytes, remoteStatic: Bytes): Peer {
    var digest := S.sha256(PROTOCOL);
    Peer(initiator, NoAct, InitKey(Blank(), ZERO_KEY), digest, ZERO_KEY, digest,
         localStatic, ZERO_KEY, remoteStatic, seq(33, _ => 0),
         Blank(), Blank(), false, [], 0, [], [])
  }

  /** hsk_brontide_init_brontide. */
  function Begin(S: Suite, initiator: bool, localStatic: Bytes, remoteStatic: Bytes): Peer {
    var b := Setup(S, initiator, localStatic, remoteStatic);
    MixHash(S, MixHash(S, b, PROLOGUE), if initiator then remoteStatic else S.pubkey(localStatic))
  }

  /** The parts of a peer that acts one and two leave alone. */
  predicate SameSetup(a: Peer, b: Peer) {
    && a.initiator == b.initiator && a.localStatic == b.localStatic && a.remoteStatic == b.remoteStatic
    && a.send == b.send && a.recv == b.recv
  }

  lemma GenActKeeps(S: Suite, b: Peer, remote: Bytes, ephemeral: Bytes, random: Bytes)
    ensures var c := GenAct(S, b, remote, ephemeral, random).0;
      SameSetup(b, c) && c.localEphemeral == ephemeral && c.remoteEphemeral == b.remoteEphemeral
  {
    hide Encrypt, InitKey;
  }

  lemma RecvActKeeps(S: Suite, b: Peer, secret: Bytes, act: Bytes)
    requires |act| == 80
    ensures var c := RecvAct(S, b, secret, act).0;
      && SameSetup(b, c) && c.remoteEphemeral == S.fromUniform(act[..64]) && c.localEphemeral == b.localEphemeral
  {
    hide Decrypt, InitKey;
  }

  lemma GenActCarries(S: Suite, b: Peer, remote: Bytes, ephemeral: Bytes, random: Bytes)
    requires S.Keys()
    ensures var act := GenAct(S, b, remote, ephemeral, random).1;
      |act| >= 64 && S.fromUniform(act[..64]) == S.pubkey(ephemeral)
  {
    hide Encrypt, InitKey;
    var e := S.pubkey(ephemeral);
    var u := S.toUniform(e, random);
    assert |u| == 64 && S.fromUniform(u) == e;
    assert GenAct(S, b, remote, ephemeral, random).1[..64] == u;
  }

  lemma GenActSize(S: Suite, b: Peer, remote: Bytes, ephemeral: Bytes, random: Bytes)
    requires S.Lawful()
    ensures |GenAct(S, b, remote, ephemeral, random).1| == 80
  {
    hide Encrypt, InitKey;
    var e := S.pubkey(ephemeral);
    assert |S.toUniform(e, random)| == 64;
    var x := MixKey(S, MixHash(S, b.(localEphemeral := ephemeral), e), S.ecdh(remote, ephemeral));
    Lockstep(S, x.cs, Some(x.digest), []);
  }

  /** After an undisturbed split, each end sends what the other receives. */
  predicate Paired(a: Peer, b: Peer) {
    a.digest == b.digest && a.chain == b.chain && a.send == b.recv && a.recv == b.send
    && a.send.nonce == 0 && a.recv.nonce == 0
  }

  lemma SplitPairs(S: Suite, a: Peer, b: Peer)
    requires Agree(a, b) && a.initiator && !b.initiator && a.send == b.recv && a.recv == b.send
    ensures Paired(Split(S, a), Split(S, b))
  {
  }

  /** Act three: the responder accepts it and learns the initiator's static key. */
  lemma ActThreeAgrees(S: Suite, a: Peer, b: Peer)
    requires S.Lawful() && Agree(a, b) && a.initiator && !b.initiator && a.send == b.recv && a.recv == b.send
    requires a.remoteEphemeral == S.pubkey(b.localEphemeral)
    ensures |GenActThree(S, a).1| == 65
    ensures SealedKey(S, b, GenActThree(S, a).1) == (S.pubkey(a.localStatic), true)
    ensures var r := RecvActThree(S, b, GenActThree(S, a).1);
      r.1 && Paired(GenActThree(S, a).0, r.0) && r.0.remoteStatic == S.pubkey(a.localStatic)
  {
    hide Agree, Encrypt, Decrypt, InitKey, Paired, InitSaltKey, Split;
    var s := S.pubkey(a.localStatic);
    MixedAgrees(S, a, b, s);
    var r1 := EncryptMixed(S, a, s);
    var q1 := DecryptMixed(S, b, r1.1, r1.0.cs.tag);
    var keyed := q1.0.(remoteStatic := s);
    AgreesStatic(r1.0, q1.0, s);
    var shared := S.ecdh(a.remoteEphemeral, a.localStatic);
    assert shared == S.ecdh(s, b.localEphemeral);
    MixAgrees(S, r1.0, keyed, [], shared);
    var mx, my := MixKey(S, r1.0, shared), MixKey(S, keyed, shared);
    MixedAgrees(S, mx, my, []);
    var r2 := EncryptMixed(S, mx, []);
    assert r2.1 == [];
    var act := r1.1 + r1.0.cs.tag + r2.0.cs.tag;
    assert act == GenActThree(S, a).1;
    assert act[..33] == r1.1 && act[33..49] == r1.0.cs.tag && act[49..] == r2.0.cs.tag;
    SplitPairs(S, r2.0, DecryptMixed(S, my, [], r2.0.cs.tag).0);
    SplitKeeps(S, DecryptMixed(S, my, [], r2.0.cs.tag).0);
  }

  lemma SplitKeeps(S: Suite, b: Peer)
    ensures Split(S, b).remoteStatic == b.remoteStatic
  {
  }

  lemma AgreesStatic(a: Peer, b: Peer, s: Bytes)
    requires Agree(a, b)
    ensures Agree(a, b.(remoteStatic := s))
  {
  }

  lemma BeginAgrees(S: Suite, localI: Bytes, localR: Bytes, none: Bytes)
    ensures Agree(Begin(S, true, localI, S.pubkey(localR)), Begin(S, false, localR, none))
  {
  }
}
