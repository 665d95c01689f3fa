/** An encrypted connection (src/brontide.c). */
module Brontide {
  import opened Bytes
  import opened CipherStates
  import opened Noise
  import opened Transport

  class Connection {
    const suite: Suite
    const random: Random
    const cs: CipherState
    const send: CipherState
    const recv: CipherState
    const initiator: bool
    var state: Act
    var chain: Bytes
    var temp: Bytes
    var digest: Bytes
    const localStatic: Bytes
    var localEphemeral: Bytes
    var remoteStatic: Bytes
    var remoteEphemeral: Bytes
    var hasSize: bool
    var msg: Bytes
    var need: nat
    /** What went to the read callback, and what went to the write callback. */
    var received: seq<Bytes>
    var written: Bytes

    ghost const Repr: set<object> := {this, cs, cs.iv, send, send.iv, recv, recv.iv}

    /** The three cipher states are well formed and share nothing. */
    ghost predicate Ciphers()
      reads Repr
    {
      && cs.iv.Length == send.iv.Length == recv.iv.Length == 12
      && cs != send && cs != recv && send != recv && cs.iv != send.iv && cs.iv != recv.iv && send.iv != recv.iv
      && cs.suite == send.suite == recv.suite == suite && cs.Valid() && send.Valid() && recv.Valid()
    }

    ghost function Value(): Peer
      requires Ciphers()
      reads Repr
    {
      Peer(initiator, state, cs.Value(), chain, temp, digest, localStatic, localEphemeral, remoteStatic, remoteEphemeral,
           send.Value(), recv.Value(), hasSize, msg, need, received, written)
    }

    ghost predicate Valid()
      reads Repr
    {
      Ciphers() && Wf(Value())
    }

    lemma Objects()
      ensures Repr == {this, cs, cs.iv, send, send.iv, recv, recv.iv}
    {
    }

    lemma Fields()
      requires Ciphers()
      ensures var v := Value();
        && v.state == state && v.written == written && v.received == received && v.remoteStatic == remoteStatic
        && v.send == send.Value() && v.recv == recv.Value() && v.hasSize == hasSize && v.initiator == initiator
    {
    }

    constructor (suite: Suite, random: Random, initiator: bool, localStatic: Bytes, remoteStatic: Bytes)
      ensures Valid() && Value() == Begin(suite, initiator, localStatic, remoteStatic)
      ensures this.suite == suite && this.random == random
      ensures fresh(cs) && fresh(cs.iv) && fresh(send) && fresh(send.iv) && fresh(recv) && fresh(recv.iv)
    {
      hide Noise.MixHash, Noise.InitKey, Blank, CipherState.Valid, CipherState.Value, Nonces, Ascii, Rotated, IvFor;
      this.suite, this.random, this.initiator, state := suite, random, initiator, NoAct;
      var c0 := new CipherState(suite);
      var c1 := new CipherState(suite);
      var c2 := new CipherState(suite);
      cs, send, recv := c0, c1, c2;
      temp, localEphemeral, remoteEphemeral := ZERO_KEY, ZERO_KEY, seq(33, _ => 0);
      this.localStatic, this.remoteStatic := localStatic, remoteStatic;
      hasSize, msg, need, received, written := false, [], 0, [], [];
      digest := suite.sha256(PROTOCOL);
      chain := suite.sha256(PROTOCOL);
      new;
      cs.InitKey(ZERO_KEY);
      assert Value() == Setup(suite, initiator, localStatic, remoteStatic);
      hide Setup;
      MixHash(PROLOGUE);
      MixHash(if initiator then remoteStatic else suite.pubkey(localStatic));
      BeginIs(suite, initiator, localStatic, remoteStatic);
    }

    method MixHash(data: Bytes)
      requires Ciphers()
      modifies `digest
      ensures Ciphers() && Value() == Noise.MixHash(suite, old(Value()), data)
    {
      digest := suite.sha256(digest + data);
    }

    method MixKey(secret: Bytes)
      requires Ciphers()
      modifies `chain, `temp, cs, cs.iv
      ensures Ciphers() && Value() == Noise.MixKey(suite, old(Value()), secret)
    {
      hide InitKey, CipherState.Valid;
      var h := suite.hkdf(secret, chain);
      chain, temp := h.0, h.1;
      cs.InitKey(temp);
    }

    method Encrypt(p: Bytes) returns (x: Bytes)
      requires Ciphers()
      modifies `digest, cs, cs.iv
      ensures Ciphers() && (Value(), x) == EncryptMixed(suite, old(Value()), p)
    {
      hide Noise.Encrypt, CipherState.Valid, Rotated, IvFor;
      x := cs.Encrypt(Some(digest), p);
      digest := suite.sha256(digest + x + cs.tag);
    }

    method Decrypt(x: Bytes, tag: Bytes) returns (p: Bytes)
      requires Ciphers()
      modifies `digest, cs, cs.iv
      ensures Ciphers() && (Value(), p) == DecryptMixed(suite, old(Value()), x, tag)
    {
      hide Noise.Decrypt, CipherState.Valid, Rotated, IvFor;
      var h := suite.sha256(digest + x + tag);
      p := cs.Decrypt(Some(digest), x);
      digest := h;
    }

    /** hsk_ec_ecdh, which fails on a key that does not parse. */
    method Ecdh(key: Bytes, secret: Bytes) returns (ok: bool, s: Bytes)
      ensures ok == suite.validKey(key) && (ok ==> s == suite.ecdh(key, secret))
    {
      ok := suite.validKey(key);
      s := if ok then suite.ecdh(key, secret) else [];
    }

    /** Acts one and two: a new key, and what it shares with a key of the other end. */
    method GenAct(remote: Bytes) returns (ok: bool, act: Bytes)
      requires Ciphers()
      modifies `localEphemeral, `digest, `chain, `temp, cs, cs.iv
      ensures Ciphers() && ok == suite.validKey(remote)
      ensures ok ==> (Value(), act) == Noise.GenAct(suite, old(Value()), remote, random.ephemeral, random.uniform)
    {
      hide EncryptMixed, Noise.MixKey, Noise.MixHash, CipherState.Valid;
      localEphemeral, act := random.ephemeral, [];
      var e := suite.pubkey(localEphemeral);
      var uniform := suite.toUniform(e, random.uniform);
      MixHash(e);
      var s;
      ok, s := Ecdh(remote, localEphemeral);
      if ok {
        MixKey(s);
        var x := Encrypt([]);
        act := uniform + cs.tag;
      }
    }

    method RecvAct(secret: Bytes, act: Bytes) returns (ok: bool, good: bool)
      requires Ciphers() && |act| == 80
      modifies `remoteEphemeral, `digest, `chain, `temp, cs, cs.iv
      ensures Ciphers() && ok == suite.validKey(suite.fromUniform(act[..64]))
      ensures ok ==> (Value(), good) == Noise.RecvAct(suite, old(Value()), secret, act)
    {
      hide DecryptMixed, Noise.MixKey, Noise.MixHash, CipherState.Valid;
      var u, p := act[..64], act[64..];
      remoteEphemeral, good := suite.fromUniform(u), false;
      MixHash(remoteEphemeral);
      var s;
      ok, s := Ecdh(remoteEphemeral, secret);
      if ok {
        MixKey(s);
        var x := Decrypt([], p);
        good := cs.tag == p;
      }
    }

    /** Derives the keys of the connection. */
    method Split()
      requires Ciphers()
      modifies send, send.iv, recv, recv.iv
      ensures Ciphers() && Value() == Noise.Split(suite, old(Value()))
    {
      hide InitSaltKey, CipherState.Valid;
      var h := suite.hkdf([], chain);
      if initiator {
        send.InitSaltKey(chain, h.0);
        recv.InitSaltKey(chain, h.1);
      } else {
        recv.InitSaltKey(chain, h.0);
        send.InitSaltKey(chain, h.1);
      }
    }

    method GenActThree() returns (ok: bool, act: Bytes)
      requires Ciphers()
      modifies `digest, `chain, `temp, cs, cs.iv, send, send.iv, recv, recv.iv
      ensures Ciphers() && ok == suite.validKey(old(remoteEphemeral))
      ensures ok ==> (Value(), act) == Noise.GenActThree(suite, old(Value()))
    {
      hide EncryptMixed, Noise.MixKey, Noise.Split, CipherState.Valid;
      act := [];
      var ours := suite.pubkey(localStatic);
      var x := Encrypt(ours);
      var tag1 := cs.tag;
      var s;
      ok, s := Ecdh(remoteEphemeral, localStatic);
      if ok {
        MixKey(s);
        var y := Encrypt([]);
        act := x + tag1 + cs.tag;
        Split();
      }
    }

    method RecvActThree(act: Bytes) returns (ok: bool, good: bool)
      requires Ciphers() && |act| == 65
      modifies `digest, `chain, `temp, `remoteStatic, cs, cs.iv, send, send.iv, recv, recv.iv
      ensures Ciphers()
      ensures var s := SealedKey(suite, old(Value()), act); ok == (s.1 ==> suite.validKey(s.0))
      ensures ok ==> (Value(), good) == Noise.RecvActThree(suite, old(Value()), act)
    {
      hide DecryptMixed, Noise.MixKey, Noise.Split, CipherState.Valid;
      var p1, p2 := act[33..49], act[49..];
      var remote := Decrypt(act[..33], p1);
      if cs.tag != p1 {
        return true, false;
      }
      remoteStatic, good := remote, false;
      var s;
      ok, s := Ecdh(remote, localEphemeral);
      if ok {
        MixKey(s);
        var x := Decrypt([], p2);
        if cs.tag != p2 {
          return true, false;
        }
        Split();
        good := true;
      }
    }

    /** The outcome r, where nothing counts after a failed assert but that it failed. */
    ghost predicate Became(r: (Peer, Code), code: Code)
      requires Ciphers()
      reads Repr
    {
      code == r.1 && if code == Aborted then state == Crashed else Value() == r.0
    }

    /** An assert fails. */
    method Abort() returns (code: Code)
      requires Ciphers()
      modifies `state
      ensures Ciphers() && state == Crashed && code == Aborted
    {
      state, code := Crashed, Aborted;
    }

    /** Waits for the next record. */
    method Await(next: Act, n: nat) returns (code: Code)
      requires Ciphers()
      modifies `state, `msg, `need
      ensures Ciphers() && code == Success && Value() == Expect(old(Value()).(state := next), n)
    {
      hide CipherState.Valid, CipherState.Value;
      state, msg, need, code := next, [], n, Success;
    }

    method Enter(next: Act)
      requires Ciphers()
      modifies `state
      ensures Ciphers() && Value() == old(Value()).(state := next)
    {
      hide CipherState.Valid, CipherState.Value;
      state := next;
    }

    method Put(act: Bytes)
      requires Ciphers()
      modifies `written
      ensures Ciphers() && Value() == old(Value()).(written := old(written) + act)
    {
      hide CipherState.Valid, CipherState.Value;
      written := written + act;
    }

    /** hsk_brontide_destroy. */
    method Destroy()
      requires Ciphers()
      modifies `state
      ensures Valid() && Value() == old(Value()).(state := NoAct)
    {
      state := NoAct;
      OverWf();
    }

    /** The connection is up: the initiator speaks first. */
    method OnConnect()
      requires Valid() && state == NoAct && !hasSize
      modifies this, cs, cs.iv
      ensures Valid() && (state == Crashed <==> initiator && !suite.validKey(old(remoteStatic)))
      ensures state != Crashed ==> Value() == Connect(suite, random, old(Value()))
    {
      hide Noise.GenAct, CipherState.Valid, Nonces, Ciphers, Wf;
      ConnectWf(suite, random, Value());
      var code;
      if initiator {
        Enter(ActTwo);
        var ok, act := GenAct(remoteStatic);
        if !ok {
          code := Abort();
          OverWf();
          return;
        }
        Put(act);
        code := Await(ActTwo, 80);
      } else {
        code := Await(ActOne, 80);
      }
    }

    lemma CipherNonces()
      requires Ciphers()
      ensures Nonces(Value())
    {
    }

    /** Sends a message, if connected. */
    method Write(data: Bytes)
      requires Valid()
      modifies Repr
      ensures Valid() && Value() == Transport.Write(suite, old(Value()), data)
    {
      hide Noise.Encrypt, U32, CipherState.Valid, Rotated, IvFor, Nonces;
      WriteWf(suite, Value(), data);
      if state != Done {
        return;
      }
      var x1 := send.Encrypt(None, U32(|data|));
      var tag1 := send.tag;
      var x2 := send.Encrypt(None, data);
      written := written + (x1 + tag1 + x2 + send.tag);
    }

    /** Act two, on the initiator's side. */
    method OnActTwo(data: Bytes) returns (code: Code)
      requires Ciphers() && |data| == 80
      modifies Repr
      ensures Ciphers() && Became(ParseActTwo(suite, old(Value()), data), code)
    {
      hide Noise.RecvAct, CipherState.Valid, AnswerActTwo, Ciphers;
      if !suite.validKey(suite.fromUniform(data[..64])) {
        return BadActTwo;
      }
      var ok, good := RecvAct(localEphemeral, data);
      if !good {
        return BadActTwo;
      }
      code := SendActThree();
    }

    method SendActThree() returns (code: Code)
      requires Ciphers()
      modifies Repr
      ensures Ciphers() && Became(AnswerActTwo(suite, old(Value())), code)
    {
      hide Noise.GenActThree, CipherState.Valid, Ciphers;
      var ok, act := GenActThree();
      if ok {
        Put(act);
        code := Await(Done, 20);
      } else {
        code := Abort();
      }
    }

    /** Acts one and three, on the responder's side. */
    method OnActOne(data: Bytes) returns (code: Code)
      requires Ciphers() && |data| == 80
      modifies Repr
      ensures Ciphers() && Became(ParseActOne(suite, random, old(Value()), data), code)
    {
      hide Noise.RecvAct, CipherState.Valid, AnswerActOne, Ciphers;
      var ok, good := RecvAct(localStatic, data);
      if !ok {
        code := Abort();
        return;
      }
      if !good {
        return BadActOne;
      }
      code := SendActTwo();
    }

    method SendActTwo() returns (code: Code)
      requires Ciphers()
      modifies Repr
      ensures Ciphers() && Became(AnswerActOne(suite, random, old(Value())), code)
    {
      hide Noise.GenAct, CipherState.Valid, Ciphers;
      var ok, act := GenAct(remoteEphemeral);
      if ok {
        Put(act);
        code := Await(ActThree, 65);
      } else {
        code := Abort();
      }
    }

    method OnActThree(data: Bytes) returns (code: Code)
      requires Ciphers() && |data| == 65
      modifies Repr
      ensures Ciphers() && Became(ParseActThree(suite, old(Value()), data), code)
    {
      hide Noise.RecvActThree, SealedKey, CipherState.Valid, Ciphers;
      var ok, good := RecvActThree(data);
      if !ok {
        code := Abort();
      } else if !good {
        code := BadActThree;
      } else {
        code := Await(Done, 20);
      }
    }

    /** The length of a message. */
    method OnSize(data: Bytes) returns (code: Code)
      requires Ciphers() && |data| == 20
      modifies `hasSize, `msg, `need, recv, recv.iv
      ensures Ciphers() && (Value(), code) == ParseSize(suite, old(Value()), data)
    {
      hide Noise.Decrypt, FromU32, CipherState.Valid, Rotated, IvFor;
      var p := recv.Decrypt(None, data[..4]);
      if recv.tag != data[4..] {
        return BadTag;
      }
      var size := FromU32(p);
      if size > MAX_MESSAGE {
        return BadSize;
      }
      hasSize, msg, need := true, [], size + 16;
      return Success;
    }

    /** A message of the announced length. */
    method OnText(data: Bytes) returns (code: Code)
      requires Ciphers() && |data| >= 16
      modifies `hasSize, `msg, `need, `received, recv, recv.iv
      ensures Ciphers() && (Value(), code) == ParseText(suite, old(Value()), data)
    {
      hide Noise.Decrypt, CipherState.Valid, Rotated, IvFor;
      var n := |data| - 16;
      var p := recv.Decrypt(None, data[..n]);
      if recv.tag != data[n..] {
        return BadTag;
      }
      hasSize, received, msg, need := false, received + [p], [], 20;
      return Success;
    }

    method OnRecord(record: Bytes) returns (code: Code)
      requires Valid() && !Over(Value()) && |record| == need
      modifies Repr
      ensures Ciphers() && Became(Parse(suite, random, old(Value()), record), code)
    {
      hide ParseActOne, ParseActTwo, ParseActThree, ParseSize, ParseText, CipherState.Valid, Nonces;
      if initiator && state == ActTwo {
        code := OnActTwo(record);
      } else if state == ActOne {
        code := OnActOne(record);
      } else if state == ActThree {
        code := OnActThree(record);
      } else {
        assert state == Done;
        if !hasSize {
          code := OnSize(record);
        } else {
          code := OnText(record);
        }
        FrameRuns(suite, random, old(Value()), record);
      }
    }

    /**
     * Takes in whatever was read; whole records are acted upon, the rest is kept. Nothing that is read
     * makes an initiator abort.
     */
    method OnRead(data: Bytes) returns (code: Code)
      requires Valid() && state != Crashed
      modifies Repr
      ensures Valid() && Became(Feed(suite, random, old(Value()), data), code)
      ensures initiator ==> code != Aborted
    {
      hide Parse, Wf, CipherState.Valid, Ciphers;
      if state == NoAct {
        return Success;
      }
      ghost var goal := Feed(suite, random, Value(), data);
      if initiator {
        NeverAborts(suite, random, Value(), data);
      }
      var rest := data;
      while |msg| + |rest| >= need
        invariant Valid() && !Over(Value()) && Feed(suite, random, Value(), rest) == goal
        decreases |rest|
      {
        ghost var b := Value();
        Waiting(b);
        var k := need - |msg|;
        var record := msg + rest[..k];
        ParseKeeps(suite, random, b, record);
        code := OnRecord(record);
        if code != Success {
          if code != Aborted {
            Destroy();
          } else {
            OverWf();
          }
          return;
        }
        rest := rest[k..];
      }
      code := Buffer(rest);
    }

    /** Keeps the beginning of a record. */
    method Buffer(rest: Bytes) returns (code: Code)
      requires Valid() && |msg| + |rest| < need
      modifies `msg
      ensures Valid() && Value() == old(Value()).(msg := old(msg) + rest) && code == Success
    {
      hide CipherState.Valid;
      msg, code := msg + rest, Success;
    }

    lemma OverWf()
      requires Ciphers() && Over(Value())
      ensures Wf(Value())
    {
      hide CipherState.Valid;
      CipherNonces();
    }
  }

  /** Messages are read without Diffie-Hellman. */
  lemma FrameRuns(S: Suite, random: Random, b: Peer, record: Bytes)
    requires Wf(b) && b.state == Done && |record| == b.need
    ensures Parse(S, random, b, record).1 != Aborted
  {
    hide Noise.Decrypt, FromU32, Nonces;
  }

  lemma Waiting(b: Peer)
    requires Wf(b) && !Over(b)
    ensures |b.msg| < b.need
  {
  }
}
