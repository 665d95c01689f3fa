/** The cipher state of one direction, updated in place, with its key rotation (src/brontide.c). */
module CipherStates {
  import opened Bytes
  import opened Noise

  /** The initialisation vector for a nonce. */
  function IvFor(n: nat): Iv {
    [0, 0, 0, 0] + U32(n) + [0, 0, 0, 0]
  }

  class CipherState {
    const suite: Suite
    var nonce: nat
    const iv: array<byte>
    var key: Bytes
    var salt: Bytes
    var tag: Bytes
    /** The key and salt that were set last, and how many texts have passed since. */
    ghost var firstKey: Bytes
    ghost var firstSalt: Bytes
    ghost var count: nat

    ghost function Value(): Cipher
      requires iv.Length == 12
      reads this, iv
    {
      Cipher(nonce, iv[..], key, salt, tag)
    }

    /** Nonce, key, salt and vector are those for the number of texts that have passed. */
    ghost predicate Valid()
      reads this, iv
    {
      && iv.Length == 12 && nonce == count % ROTATION_INTERVAL && iv[..] == IvFor(nonce)
      && (key, salt) == Rotated(suite, firstKey, firstSalt, count / ROTATION_INTERVAL)
    }

    constructor (suite: Suite)
      ensures Valid() && Value() == Blank() && this.suite == suite && fresh(iv)
    {
      this.suite := suite;
      nonce, key, salt, tag := 0, ZERO_KEY, ZERO_KEY, seq(16, _ => 0);
      iv := new byte[12](_ => 0);
      firstKey, firstSalt, count := ZERO_KEY, ZERO_KEY, 0;
      new;
      assert iv[..] == seq(12, _ => 0) == IvFor(0);
    }

    /** Writes the nonce into the vector. */
    method Update()
      requires iv.Length == 12
      modifies iv
      ensures iv[..] == old(iv[..4]) + U32(nonce) + old(iv[8..])
    {
      var octets := U32(nonce);
      for i := 0 to 4
        invariant iv[..4] == old(iv[..4]) && iv[8..] == old(iv[8..]) && iv[4..4 + i] == octets[..i]
      {
        iv[4 + i] := octets[i];
      }
    }

    method InitKey(key: Bytes)
      requires Valid()
      modifies this, iv
      ensures Valid() && firstKey == key && firstSalt == salt == old(salt) && count == 0
      ensures Value() == Noise.InitKey(old(Value()), key)
    {
      this.key, nonce := key, 0;
      firstKey, firstSalt, count := key, salt, 0;
      Update();
      assert iv[..] == IvFor(0);
    }

    method InitSaltKey(salt: Bytes, key: Bytes)
      requires Valid()
      modifies this, iv
      ensures Valid() && firstKey == key && firstSalt == salt && count == 0
      ensures Value() == Noise.InitSaltKey(old(Value()), salt, key)
    {
      this.salt := salt;
      this.key, nonce := key, 0;
      firstKey, firstSalt, count := key, salt, 0;
      Update();
      assert iv[..] == IvFor(0);
    }

    /** Derives the next key and salt from the present ones. */
    method RotateKey()
      requires iv.Length == 12
      modifies `nonce, `key, `salt, iv
      ensures Value() == Noise.RotateKey(suite, old(Value()))
    {
      var h := suite.hkdf(key, salt);
      salt := h.0;
      key, nonce := h.1, 0;
      Update();
    }

    /** One more text has passed: the nonce moves on, and every thousandth time the key is rotated. */
    method Advance(tag: Bytes)
      requires Valid()
      modifies this, iv
      ensures Valid() && Value() == Noise.Advance(suite, old(Value()).(tag := tag))
      ensures count == old(count) + 1 && firstKey == old(firstKey) && firstSalt == old(firstSalt)
    {
      hide Rotated, U32, IvFor, Noise.RotateKey;
      ghost var c := Value().(tag := tag);
      this.tag := tag;
      nonce := nonce + 1;
      Update();
      Renewed(c.iv, c.nonce, nonce);
      count := count + 1;
      RotatedNext(suite, firstKey, firstSalt, (count - 1) / 1000);
      Turns(count);
      if nonce == ROTATION_INTERVAL {
        Renewed(iv[..], nonce, 0);
        RotatesOnce(suite, Value());
        RotateKey();
      }
    }

    /** The n-th text under a key is sealed under the key rotated n / 1000 times, with nonce n % 1000. */
    method Encrypt(ad: Option<Bytes>, p: Bytes) returns (x: Bytes)
      requires Valid()
      modifies this, iv
      ensures Valid() && count == old(count) + 1 && firstKey == old(firstKey) && firstSalt == old(firstSalt)
      ensures (x, tag) == suite.seal(Rotated(suite, firstKey, firstSalt, old(count) / ROTATION_INTERVAL).0,
                                     IvFor(old(count) % ROTATION_INTERVAL), ad, p)
      ensures (Value(), x) == Noise.Encrypt(suite, old(Value()), ad, p)
    {
      hide Rotated, Noise.Advance, U32;
      var r := suite.seal(key, iv[..], ad, p);
      Tagged(suite, Value().(tag := r.1));
      Advance(r.1);
      x := r.0;
    }

    method Decrypt(ad: Option<Bytes>, x: Bytes) returns (p: Bytes)
      requires Valid()
      modifies this, iv
      ensures Valid() && count == old(count) + 1 && firstKey == old(firstKey) && firstSalt == old(firstSalt)
      ensures (p, tag) == suite.unseal(Rotated(suite, firstKey, firstSalt, old(count) / ROTATION_INTERVAL).0,
                                       IvFor(old(count) % ROTATION_INTERVAL), ad, x)
      ensures (Value(), p) == Noise.Decrypt(suite, old(Value()), ad, x)
    {
      hide Rotated, Noise.Advance, U32;
      var r := suite.unseal(key, iv[..], ad, x);
      Tagged(suite, Value().(tag := r.1));
      Advance(r.1);
      p := r.0;
    }
  }

  lemma Renewed(iv: Iv, m: nat, n: nat)
    requires iv == IvFor(m)
    ensures iv[..4] + U32(n) + iv[8..] == IvFor(n)
  {
  }

  lemma RotatesOnce(S: Suite, c: Cipher)
    ensures var d := Noise.RotateKey(S, c);
      && (d.key, d.salt) == Rotated(S, c.key, c.salt, 1) && d.nonce == 0 && d.tag == c.tag
      && d.iv == c.iv[..4] + U32(0) + c.iv[8..]
  {
    RotatedNone(S, c.key, c.salt);
  }

  lemma Tagged(S: Suite, c: Cipher)
    ensures Noise.Advance(S, c).tag == c.tag
  {
  }
}
