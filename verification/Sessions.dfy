/** Two connection objects and the octets on their way between them (src/brontide.c). */
module Sessions {
  import opened Brontide
  import opened Bytes
  import opened Duplex
  import opened Noise
  import opened Transport

  class Session {
    const a: Connection
    const b: Connection
    var toA: Bytes
    var toB: Bytes
    /** The messages that each end has taken. */
    ghost var sentA: seq<Bytes>
    ghost var sentB: seq<Bytes>
    ghost const e: Setting

    ghost predicate Apart()
      reads this, a.Repr, b.Repr
    {
      && a.Repr !! b.Repr && this !in a.Repr && this !in b.Repr && a.Valid() && b.Valid()
      && a.suite == b.suite == e.S && a.random == e.x && b.random == e.y
    }

    ghost function Value(): Pair
      requires Apart()
      reads this, a.Repr, b.Repr
    {
      Pair(a.Value(), b.Value(), toA, toB, sentA, sentB)
    }

    ghost predicate Valid()
      reads this, a.Repr, b.Repr
    {
      Apart() && Inv(e, Value())
    }

    /** An initiator with a key of its own and the responder's public key, and the responder. */
    constructor (suite: Suite, x: Random, y: Random, mine: Bytes, theirs: Bytes)
      requires suite.Lawful()
      ensures Valid() && e == Setting(suite, x, y, suite.pubkey(mine)) && sentA == [] && sentB == []
      ensures fresh(a.Repr) && fresh(b.Repr)
    {
      hide Begin, Inv, Wf, Connect, Connection.Ciphers, Connection.Value, Opened;
      var c := Open(suite, x, true, mine, suite.pubkey(theirs));
      var d := Open(suite, y, false, theirs, seq(33, _ => 0));
      OpenedInv(Setting(suite, x, y, suite.pubkey(mine)), mine, theirs, seq(33, _ => 0));
      a, b, e := c, d, Setting(suite, x, y, suite.pubkey(mine));
      toA, toB, sentA, sentB := [], c.written, [], [];
      new;
      c.Fields();
      OpenedIs(e, mine, theirs, seq(33, _ => 0));
    }

    /** The initiator reads up to k octets of what is there. */
    method DeliverToA(k: nat)
      requires Valid() && k <= |toA|
      modifies this, a.Repr
      ensures Valid() && Value() == ReadA(e, old(Value()), k)
    {
      hide Inv, Feed, Wf, Connection.Ciphers, Connection.Value;
      ghost var p := Value();
      ReadAKeeps(e, p, k);
      InvWf(e, p);
      InvWf(e, ReadA(e, p, k));
      FeedCrashes(e.S, e.x, p.a, toA[..k]);
      a.Fields();
      var n := |a.written|;
      var code := a.OnRead(toA[..k]);
      a.Fields();
      toA := toA[k..];
      toB := toB + if n <= |a.written| then a.written[n..] else [];
    }

    method DeliverToB(k: nat)
      requires Valid() && k <= |toB|
      modifies this, b.Repr
      ensures Valid() && Value() == ReadB(e, old(Value()), k)
    {
      hide Inv, Feed, Wf, Connection.Ciphers, Connection.Value;
      ghost var p := Value();
      ReadBKeeps(e, p, k);
      InvWf(e, p);
      InvWf(e, ReadB(e, p, k));
      FeedCrashes(e.S, e.y, p.b, toB[..k]);
      b.Fields();
      var n := |b.written|;
      var code := b.OnRead(toB[..k]);
      b.Fields();
      toB := toB[k..];
      toA := toA + if n <= |b.written| then b.written[n..] else [];
    }

    method SendA(m: Bytes)
      requires Valid() && |m| <= MAX_MESSAGE
      modifies this, a.Repr
      ensures Valid() && Value() == WriteA(e, old(Value()), m)
    {
      hide Inv, Transport.Write, Wf, Connection.Ciphers, Connection.Value;
      ghost var p := Value();
      WriteAKeeps(e, p, m);
      a.Fields();
      var n := |a.written|;
      a.Write(m);
      a.Fields();
      toB := toB + if n <= |a.written| then a.written[n..] else [];
      sentA := if p.a.state == Done then sentA + [m] else sentA;
    }

    method SendB(m: Bytes)
      requires Valid() && |m| <= MAX_MESSAGE
      modifies this, b.Repr
      ensures Valid() && Value() == WriteB(e, old(Value()), m)
    {
      hide Inv, Transport.Write, Wf, Connection.Ciphers, Connection.Value;
      ghost var p := Value();
      WriteBKeeps(e, p, m);
      b.Fields();
      var n := |b.written|;
      b.Write(m);
      b.Fields();
      toA := toA + if n <= |b.written| then b.written[n..] else [];
      sentB := if p.b.state == Done then sentB + [m] else sentB;
    }

    /**
     * Everything on its way is read, which ends: then both ends are connected and hold the same keys, the
     * responder knows the initiator's key, and each has received exactly what the other sent.
     */
    method Settle()
      requires Valid()
      modifies this, a.Repr, b.Repr
      ensures Valid() && toA == [] && toB == [] && sentA == old(sentA) && sentB == old(sentB)
      ensures a.state == Done && b.state == Done && a.send.Value() == b.recv.Value() && a.recv.Value() == b.send.Value()
      ensures b.remoteStatic == e.key && a.received == sentB && b.received == sentA
    {
      hide Inv, Feed, Wf, Connection.Ciphers, Connection.Value;
      while toA != [] || toB != []
        invariant Valid() && sentA == old(sentA) && sentB == old(sentB)
        decreases Rank(Value())
      {
        ReadsSettle(e, Value());
        if toB != [] {
          DeliverToB(|toB|);
        } else {
          DeliverToA(|toA|);
        }
      }
      AtRest(e, Value());
      a.Fields();
      b.Fields();
    }
  }

  lemma OpenedIs(e: Setting, mine: Bytes, theirs: Bytes, none: Bytes)
    ensures var a := Connect(e.S, e.x, Begin(e.S, true, mine, e.S.pubkey(theirs)));
      var b := Connect(e.S, e.y, Begin(e.S, false, theirs, none));
      Opened(e, mine, theirs, none) == Pair(a, b, [], a.written, [], [])
  {
  }

  /** A new connection object, connected. */
  method Open(suite: Suite, random: Random, initiator: bool, localStatic: Bytes, remoteStatic: Bytes) returns (c: Connection)
    requires initiator ==> suite.validKey(remoteStatic)
    ensures fresh(c.Repr) && c.Valid() && c.suite == suite && c.random == random
    ensures c.Value() == Connect(suite, random, Begin(suite, initiator, localStatic, remoteStatic))
  {
    hide Begin, Connect, Wf, Connection.Ciphers, Connection.Value;
    c := new Connection(suite, random, initiator, localStatic, remoteStatic);
    BeginIs(suite, initiator, localStatic, remoteStatic);
    BeginState(suite, initiator, localStatic, remoteStatic);
    c.Fields();
    c.Objects();
    c.OnConnect();
  }

  lemma BeginState(S: Suite, initiator: bool, localStatic: Bytes, remoteStatic: Bytes)
    ensures Begin(S, initiator, localStatic, remoteStatic).state == NoAct
  {
  }
}
