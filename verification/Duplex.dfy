/**
 * Two ends of a connection and what is on its way between them (src/brontide.c): every interleaving of
 * writes on both sides and of reads of any size, from the first act on.
 *
 * The invariant looks ahead: it speaks of the peers as they will be once all that is on its way has
 * been read.
 */
module Duplex {
  import opened Bytes
  import opened Noise
  import opened Transport

  /** The suite, what the two ends draw at random, and the public key of the initiator. */
  datatype Setting = Setting(S: Suite, x: Random, y: Random, key: Bytes)

  datatype Pair = Pair(a: Peer, b: Peer, toA: Bytes, toB: Bytes, sentA: seq<Bytes>, sentB: seq<Bytes>)

  /** What a peer has written since it was as `before`. */
  function News(before: Peer, now: Peer): Bytes {
    if |before.written| <= |now.written| then now.written[|before.written|..] else []
  }

  // ----- Steps

  function ReadA(e: Setting, p: Pair, k: nat): Pair
    requires Wf(p.a) && k <= |p.toA|
  {
    var c := Feed(e.S, e.x, p.a, p.toA[..k]).0;
    p.(a := c, toA := p.toA[k..], toB := p.toB + News(p.a, c))
  }

  function ReadB(e: Setting, p: Pair, k: nat): Pair
    requires Wf(p.b) && k <= |p.toB|
  {
    var c := Feed(e.S, e.y, p.b, p.toB[..k]).0;
    p.(b := c, toB := p.toB[k..], toA := p.toA + News(p.b, c))
  }

  /** A message is taken only once the end is connected; before that it is dropped. */
  function WriteA(e: Setting, p: Pair, m: Bytes): Pair {
    var c := Write(e.S, p.a, m);
    p.(a := c, toB := p.toB + News(p.a, c), sentA := if p.a.state == Done then p.sentA + [m] else p.sentA)
  }

  function WriteB(e: Setting, p: Pair, m: Bytes): Pair {
    var c := Write(e.S, p.b, m);
    p.(b := c, toA := p.toA + News(p.b, c), sentB := if p.b.state == Done then p.sentB + [m] else p.sentB)
  }

  // ----- What is going to happen

  /** Act three brings the responder to its end of the connection. */
  predicate Third(e: Setting, a: Peer, b: Peer, act: Bytes)
    requires Wf(b)
  {
    var d := Feed(e.S, e.y, b, act).0;
    && Ready(a) && Ready(d) && a.send == d.recv && a.recv == d.send && a.digest == d.digest && a.chain == d.chain
    && a.received == [] && d.received == [] && d.remoteStatic == e.key
  }

  /** Act two makes the initiator send act three. */
  predicate Second(e: Setting, a: Peer, b: Peer, act: Bytes)
    requires Wf(a) && Wf(b)
  {
    var c := Feed(e.S, e.x, a, act).0;
    c.state == Done && |News(a, c)| == 65 && Third(e, c, b, News(a, c))
  }

  /** Act one makes the responder send act two. */
  predicate First(e: Setting, a: Peer, b: Peer, act: Bytes)
    requires Wf(a) && Wf(b)
  {
    var d := Feed(e.S, e.y, b, act).0;
    d.state == ActThree && d.msg == [] && |News(b, d)| == 80 && Second(e, a, d, News(b, d))
  }

  /** All that was sent will be received, and then the two ends hold the same keys. */
  predicate Flowing(e: Setting, p: Pair)
    requires Wf(p.a) && Wf(p.b)
  {
    var c, d := Feed(e.S, e.x, p.a, p.toA).0, Feed(e.S, e.y, p.b, p.toB).0;
    && Ready(c) && Ready(d) && c.send == d.recv && c.recv == d.send && c.digest == d.digest && c.chain == d.chain
    && c.received == p.sentB && d.received == p.sentA && d.remoteStatic == e.key
  }

  ghost predicate Inv(e: Setting, p: Pair) {
    && e.S.Sealing() && Wf(p.a) && Wf(p.b)
    && match (p.a.state, p.b.state)
       case (ActTwo, ActOne) =>
         && p.toA == [] && p.sentA == [] && p.sentB == [] && p.a.msg == []
         && |p.b.msg| + |p.toB| == 80 && First(e, p.a, p.b, p.toB)
       case (ActTwo, ActThree) =>
         && p.toB == [] && p.sentA == [] && p.sentB == [] && p.b.msg == []
         && |p.a.msg| + |p.toA| == 80 && Second(e, p.a, p.b, p.toA)
       case (Done, ActThree) => p.toA == [] && p.sentB == [] && Flowing(e, p)
       case (Done, Done) => Flowing(e, p)
       case _ => false
  }

  // ----- Reading in the last two states

  /** A peer that has nothing more to write when it reads. */
  predicate Settled(b: Peer) {
    b.state == ActThree || b.state == Done
  }

  lemma ParseQuiet(S: Suite, random: Random, b: Peer, record: Bytes)
    requires Wf(b) && Settled(b) && |record| == b.need
    ensures var r := Parse(S, random, b, record);
      r.0.written == b.written && (r.1 == Success ==> r.0.state == Done)
  {
    hide RecvActThree, Decrypt, FromU32, SealedKey, Nonces;
    if b.state == ActThree {
      RecvActThreeNonces(S, b, record);
    }
  }

  lemma {:induction false} FeedQuiet(S: Suite, random: Random, b: Peer, data: Bytes)
    requires Wf(b) && Settled(b)
    ensures var c := Feed(S, random, b, data).0; c.written == b.written && (Settled(c) || Over(c))
    ensures var c := Feed(S, random, b, data).0; c.state == ActThree ==> b.state == ActThree
    decreases |data|
  {
    hide Parse, Nonces;
    if |b.msg| + |data| >= b.need {
      var k := b.need - |b.msg|;
      ParseKeeps(S, random, b, b.msg + data[..k]);
      ParseQuiet(S, random, b, b.msg + data[..k]);
      var r := Parse(S, random, b, b.msg + data[..k]);
      if r.1 == Success {
        FeedQuiet(S, random, r.0, data[k..]);
      }
    }
  }

  /** Messages are received whatever is sent in the other direction meanwhile. */
  lemma FrameCommutes(S: Suite, random: Random, b: Peer, record: Bytes, s: Cipher, w: Bytes)
    requires Wf(b) && b.state == Done && |record| == b.need && s.nonce < ROTATION_INTERVAL
    ensures var q := b.(send := s, written := w); var r := Parse(S, random, b, record);
      Wf(q) && Parse(S, random, q, record) == (r.0.(send := s, written := w), r.1)
    ensures Parse(S, random, b, record).0.send == b.send
  {
    hide Decrypt, FromU32;
  }

  lemma {:induction false} FeedCommutes(S: Suite, random: Random, b: Peer, data: Bytes, s: Cipher, w: Bytes)
    requires Wf(b) && b.state == Done && s.nonce < ROTATION_INTERVAL
    ensures var q := b.(send := s, written := w); var r := Feed(S, random, b, data);
      Wf(q) && Feed(S, random, q, data) == (r.0.(send := s, written := w), r.1)
    ensures Feed(S, random, b, data).0.send == b.send
    decreases |data|
  {
    hide Parse;
    if |b.msg| + |data| >= b.need {
      var k := b.need - |b.msg|;
      var record := b.msg + data[..k];
      ParseKeeps(S, random, b, record);
      FrameCommutes(S, random, b, record, s, w);
      ParseQuiet(S, random, b, record);
      var r := Parse(S, random, b, record);
      if r.1 == Success {
        FeedCommutes(S, random, r.0, data[k..], s, w);
      }
    }
  }

  /** A read takes its part of what was going to happen. */
  lemma Ahead(S: Suite, random: Random, b: Peer, u: Bytes, v: Bytes)
    requires Wf(b) && !Over(b) && !Over(Feed(S, random, b, u + v).0)
    ensures var c := Feed(S, random, b, u).0; !Over(c) && Feed(S, random, c, v).0 == Feed(S, random, b, u + v).0
  {
    hide Feed, Wf;
    FeedSplit(S, random, b, u, v);
    FeedOver(S, random, Feed(S, random, b, u).0, v);
  }

  lemma FeedOver(S: Suite, random: Random, b: Peer, data: Bytes)
    requires Wf(b)
    ensures Over(b) ==> Over(Feed(S, random, b, data).0)
  {
    hide Parse, Nonces;
  }

  lemma FeedNothing(S: Suite, random: Random, b: Peer)
    requires Wf(b)
    ensures Feed(S, random, b, []).0 == b
  {
    hide Parse, Nonces;
    assert b.msg + [] == b.msg;
  }

  lemma FeedPart(S: Suite, random: Random, b: Peer, u: Bytes)
    requires Wf(b) && !Over(b) && |b.msg| + |u| < b.need
    ensures Feed(S, random, b, u).0 == b.(msg := b.msg + u)
  {
    hide Parse, Nonces;
  }

  // ----- Every step keeps the invariant

  lemma ReadBEarly(e: Setting, p: Pair, k: nat)
    requires Inv(e, p) && k <= |p.toB| && p.a.state == ActTwo && p.b.state == ActOne
    ensures Inv(e, ReadB(e, p, k))
  {
    hide Feed, Nonces, Second, Third;
    var u, v := p.toB[..k], p.toB[k..];
    assert p.toB == u + v;
    Ahead(e.S, e.y, p.b, u, v);
    var c := Feed(e.S, e.y, p.b, u).0;
    if v == [] {
      assert u == p.toB && p.toA + News(p.b, c) == News(p.b, c);
    } else {
      FeedPart(e.S, e.y, p.b, u);
      assert p.toA + News(p.b, c) == p.toA;
    }
  }

  lemma ReadAEarly(e: Setting, p: Pair, k: nat)
    requires Inv(e, p) && k <= |p.toA| && p.a.state == ActTwo && p.b.state == ActThree
    ensures Inv(e, ReadA(e, p, k))
  {
    hide Feed, Nonces;
    var u, v := p.toA[..k], p.toA[k..];
    assert p.toA == u + v;
    Ahead(e.S, e.x, p.a, u, v);
    var c := Feed(e.S, e.x, p.a, u).0;
    if v == [] {
      assert u == p.toA && p.toB + News(p.a, c) == News(p.a, c);
      FeedNothing(e.S, e.x, c);
    } else {
      FeedPart(e.S, e.x, p.a, u);
      assert p.toB + News(p.a, c) == p.toB;
    }
  }

  lemma ReadBLate(e: Setting, p: Pair, k: nat)
    requires Inv(e, p) && k <= |p.toB| && p.a.state == Done
    ensures Inv(e, ReadB(e, p, k))
  {
    hide Feed, Nonces;
    var u, v := p.toB[..k], p.toB[k..];
    assert p.toB == u + v;
    Ahead(e.S, e.y, p.b, u, v);
    FeedQuiet(e.S, e.y, p.b, u);
    var c := Feed(e.S, e.y, p.b, u).0;
    assert p.toA + News(p.b, c) == p.toA;
  }

  lemma ReadALate(e: Setting, p: Pair, k: nat)
    requires Inv(e, p) && k <= |p.toA| && p.a.state == Done
    ensures Inv(e, ReadA(e, p, k))
  {
    hide Feed, Nonces;
    var u, v := p.toA[..k], p.toA[k..];
    assert p.toA == u + v;
    Ahead(e.S, e.x, p.a, u, v);
    FeedQuiet(e.S, e.x, p.a, u);
    var c := Feed(e.S, e.x, p.a, u).0;
    assert p.toB + News(p.a, c) == p.toB;
  }

  lemma ReadNothing(e: Setting, p: Pair)
    requires Wf(p.a) && Wf(p.b)
    ensures ReadA(e, p, 0) == p && ReadB(e, p, 0) == p
  {
    hide Feed, Nonces;
    FeedNothing(e.S, e.x, p.a);
    FeedNothing(e.S, e.y, p.b);
    assert p.toA[..0] == [] && p.toA[0..] == p.toA && p.toB[..0] == [] && p.toB[0..] == p.toB;
    assert p.toB + [] == p.toB && p.toA + [] == p.toA;
  }

  lemma ReadBKeeps(e: Setting, p: Pair, k: nat)
    requires Inv(e, p) && k <= |p.toB|
    ensures Inv(e, ReadB(e, p, k))
  {
    hide First, Second, Flowing, ReadB, Wf;
    if p.a.state == Done {
      ReadBLate(e, p, k);
    } else if p.b.state == ActOne {
      ReadBEarly(e, p, k);
    } else {
      ReadNothing(e, p);
    }
  }

  lemma ReadAKeeps(e: Setting, p: Pair, k: nat)
    requires Inv(e, p) && k <= |p.toA|
    ensures Inv(e, ReadA(e, p, k))
  {
    hide First, Second, Flowing, ReadA, Wf;
    if p.a.state == Done {
      ReadALate(e, p, k);
    } else if p.b.state == ActThree {
      ReadAEarly(e, p, k);
    } else {
      ReadNothing(e, p);
    }
  }

  /** A message put behind what is on its way. */
  lemma Behind(S: Suite, random: Random, b: Peer, data: Bytes, m: Bytes)
    requires S.Sealing() && Wf(b) && !Over(b) && Ready(Feed(S, random, b, data).0) && |m| <= MAX_MESSAGE
    ensures var c := Feed(S, random, b, data).0; var r := Frame(S, c.recv, m);
      && Ready(c.(recv := r.0, received := c.received + [m]))
      && Feed(S, random, b, data + r.1).0 == c.(recv := r.0, received := c.received + [m])
  {
    hide Feed, Frame, Nonces;
    var c := Feed(S, random, b, data).0;
    var r := Frame(S, c.recv, m);
    FeedFrame(S, random, c, m, []);
    var d := c.(recv := r.0, received := c.received + [m]);
    FeedNothing(S, random, d);
    assert r.1 + [] == r.1;
    FeedSplit(S, random, b, data, r.1);
  }

  lemma WriteIs(S: Suite, b: Peer, m: Bytes)
    requires Wf(b)
    ensures var c := Write(S, b, m); var r := Frame(S, b.send, m);
      && Wf(c)
      && (b.state == Done ==> c == b.(send := r.0, written := b.written + r.1) && News(b, c) == r.1
                              && r.0.nonce < ROTATION_INTERVAL)
      && (b.state != Done ==> c == b && News(b, c) == [])
  {
    hide Frame;
    WriteWf(S, b, m);
  }

  lemma WriteAKeeps(e: Setting, p: Pair, m: Bytes)
    requires Inv(e, p) && |m| <= MAX_MESSAGE
    ensures Inv(e, WriteA(e, p, m))
  {
    hide Feed, Frame, Nonces, First, Second, Write;
    WriteIs(e.S, p.a, m);
    if p.a.state == Done {
      var r := Frame(e.S, p.a.send, m);
      FeedCommutes(e.S, e.x, p.a, p.toA, r.0, p.a.written + r.1);
      Behind(e.S, e.y, p.b, p.toB, m);
    } else {
      assert p.toB + [] == p.toB;
    }
  }

  lemma WriteBKeeps(e: Setting, p: Pair, m: Bytes)
    requires Inv(e, p) && |m| <= MAX_MESSAGE
    ensures Inv(e, WriteB(e, p, m))
  {
    hide Feed, Frame, Nonces, First, Second, Write;
    WriteIs(e.S, p.b, m);
    if p.b.state == Done {
      var r := Frame(e.S, p.b.send, m);
      FeedCommutes(e.S, e.y, p.b, p.toB, r.0, p.b.written + r.1);
      Behind(e.S, e.x, p.a, p.toA, m);
    } else {
      assert p.toA + [] == p.toA;
    }
  }

  // ----- The beginning and the end

  function Opened(e: Setting, mine: Bytes, theirs: Bytes, none: Bytes): Pair {
    var a := Connect(e.S, e.x, Begin(e.S, true, mine, e.S.pubkey(theirs)));
    var b := Connect(e.S, e.y, Begin(e.S, false, theirs, none));
    Pair(a, b, [], a.written, [], [])
  }

  lemma ReceiveOne(S: Suite, random: Random, b: Peer, data: Bytes)
    requires Wf(b)
    ensures Receive(S, random, b, [data]) == Feed(S, random, b, data).0 && Concat([data]) == data
  {
    hide Feed, Wf;
    var c := Feed(S, random, b, data).0;
    assert [data][1..] == [];
    assert Receive(S, random, c, []) == c;
    assert Concat([data]) == data + Concat([]) == data;
  }

  /** For all keys, both ends have just connected. */
  lemma OpenedInv(e: Setting, mine: Bytes, theirs: Bytes, none: Bytes)
    requires e.S.Lawful() && e.key == e.S.pubkey(mine)
    ensures Inv(e, Opened(e, mine, theirs, none))
  {
    hide Feed, Receive, Begin, Connect, Nonces;
    var p := Opened(e, mine, theirs, none);
    var a, b := p.a, p.b;
    ConnectStates(e, mine, theirs, none);
    Handshake(e.S, e.x, e.y, mine, theirs, none, [a.written], [], []);
    ReceiveOne(e.S, e.y, b, a.written);
    var b2 := Feed(e.S, e.y, b, a.written).0;
    Handshake(e.S, e.x, e.y, mine, theirs, none, [a.written], [b2.written], []);
    ReceiveOne(e.S, e.x, a, b2.written);
    var a2 := Feed(e.S, e.x, a, b2.written).0;
    var act := a2.written[|a.written|..];
    ReceiveOne(e.S, e.y, b2, act);
    Handshake(e.S, e.x, e.y, mine, theirs, none, [a.written], [b2.written], [act]);
    assert a.written + act == a2.written;
  }

  lemma ConnectStates(e: Setting, mine: Bytes, theirs: Bytes, none: Bytes)
    requires e.S.Lawful()
    ensures var p := Opened(e, mine, theirs, none);
      && Wf(p.a) && Wf(p.b) && p.a.state == ActTwo && p.b.state == ActOne && p.a.msg == [] && p.b.msg == []
      && p.b.written == []
  {
    hide Begin, Connect, GenAct, Nonces;
    var a, b := Begin(e.S, true, mine, e.S.pubkey(theirs)), Begin(e.S, false, theirs, none);
    BeginIs(e.S, true, mine, e.S.pubkey(theirs));
    BeginIs(e.S, false, theirs, none);
    ConnectInitiator(e.S, e.x, a);
    ConnectResponder(e.S, e.y, b);
  }

  /**
   * Once nothing is on its way, both ends are connected and hold the same keys, the responder knows the
   * initiator, and each has received exactly what the other sent.
   */
  lemma AtRest(e: Setting, p: Pair)
    requires Inv(e, p) && p.toA == [] && p.toB == []
    ensures Ready(p.a) && Ready(p.b) && p.a.send == p.b.recv && p.a.recv == p.b.send
    ensures p.a.digest == p.b.digest && p.a.chain == p.b.chain && p.b.remoteStatic == e.key
    ensures p.a.received == p.sentB && p.b.received == p.sentA
  {
    hide Feed, Nonces, First, Second;
    FeedNothing(e.S, e.x, p.a);
    FeedNothing(e.S, e.y, p.b);
  }

  /** At no time has an end received anything but a beginning of what the other sent. */
  lemma NothingElse(e: Setting, p: Pair)
    requires Inv(e, p) && p.a.state == Done
    ensures p.a.received <= p.sentB && p.b.received <= p.sentA
  {
    hide Feed, Nonces, First, Second;
    FeedReceives(e.S, e.x, p.a, p.toA);
    FeedReceives(e.S, e.y, p.b, p.toB);
  }

  lemma {:induction false} FeedReceives(S: Suite, random: Random, b: Peer, data: Bytes)
    requires Wf(b) && Settled(b)
    ensures b.received <= Feed(S, random, b, data).0.received
    decreases |data|
  {
    hide Parse, Nonces;
    if |b.msg| + |data| >= b.need {
      var k := b.need - |b.msg|;
      var record := b.msg + data[..k];
      ParseKeeps(S, random, b, record);
      ParseQuiet(S, random, b, record);
      ParseReceives(S, random, b, record);
      var r := Parse(S, random, b, record);
      if r.1 == Success {
        FeedReceives(S, random, r.0, data[k..]);
      }
    }
  }

  lemma ParseReceives(S: Suite, random: Random, b: Peer, record: Bytes)
    requires Wf(b) && Settled(b) && |record| == b.need
    ensures b.received <= Parse(S, random, b, record).0.received
  {
    hide RecvActThree, Decrypt, FromU32, SealedKey, Nonces;
    if b.state == ActThree {
      RecvActThreeNonces(S, b, record);
    }
  }

  // ----- Whole runs

  datatype Event = ReadsA(k: nat) | ReadsB(k: nat) | WritesA(m: Bytes) | WritesB(m: Bytes)

  /** A read takes what is there, up to k octets. */
  function Upto(k: nat, data: Bytes): (n: nat)
    ensures n <= |data|
  {
    if k <= |data| then k else |data|
  }

  predicate Allowed(events: seq<Event>) {
    forall v :: v in events ==> (v.WritesA? || v.WritesB? ==> |v.m| <= MAX_MESSAGE)
  }

  function Next(e: Setting, p: Pair, v: Event): Pair
    requires Wf(p.a) && Wf(p.b)
  {
    match v
    case ReadsA(k) => ReadA(e, p, Upto(k, p.toA))
    case ReadsB(k) => ReadB(e, p, Upto(k, p.toB))
    case WritesA(m) => WriteA(e, p, m)
    case WritesB(m) => WriteB(e, p, m)
  }

  ghost function Run(e: Setting, p: Pair, events: seq<Event>): (q: Pair)
    requires Inv(e, p) && Allowed(events)
    ensures Inv(e, q)
    decreases |events|
  {
    if events == [] then p
    else
      NextKeeps(e, p, events[0]);
      Run(e, Next(e, p, events[0]), events[1..])
  }

  lemma NextKeeps(e: Setting, p: Pair, v: Event)
    requires Inv(e, p) && (v.WritesA? || v.WritesB? ==> |v.m| <= MAX_MESSAGE)
    ensures Inv(e, Next(e, p, v))
  {
    hide Inv, ReadA, ReadB, WriteA, WriteB;
    InvWf(e, p);
    match v
    case ReadsA(k) => ReadAKeeps(e, p, Upto(k, p.toA));
    case ReadsB(k) => ReadBKeeps(e, p, Upto(k, p.toB));
    case WritesA(m) => WriteAKeeps(e, p, m);
    case WritesB(m) => WriteBKeeps(e, p, m);
  }

  lemma InvWf(e: Setting, p: Pair)
    requires Inv(e, p)
    ensures Wf(p.a) && Wf(p.b) && !Over(p.a) && !Over(p.b)
  {
    hide First, Second, Flowing, Wf;
  }

  /**
   * For all keys, random octets, messages of allowed size and interleavings of writes and reads: when
   * nothing is on its way any more, the handshake is done and each end has received exactly what the
   * other sent once it was connected.
   */
  lemma RunDelivers(e: Setting, mine: Bytes, theirs: Bytes, none: Bytes, events: seq<Event>)
    requires e.S.Lawful() && e.key == e.S.pubkey(mine) && Allowed(events)
    ensures Inv(e, Opened(e, mine, theirs, none))
    ensures var p := Run(e, Opened(e, mine, theirs, none), events);
      && !Over(p.a) && !Over(p.b)
      && (p.toA == [] && p.toB == [] ==>
          && Ready(p.a) && Ready(p.b) && p.a.send == p.b.recv && p.a.recv == p.b.send && p.b.remoteStatic == e.key
          && p.a.received == p.sentB && p.b.received == p.sentA)
  {
    hide Inv, Opened, Ready, Run;
    OpenedInv(e, mine, theirs, none);
    var p := Run(e, Opened(e, mine, theirs, none), events);
    InvWf(e, p);
    if p.toA == [] && p.toB == [] {
      AtRest(e, p);
    }
  }

  /** Reading all that is on its way brings the two ends closer to rest. */
  function Rank(p: Pair): nat {
    (if p.a.state != Done then 1000 else 0) + (if p.b.state == ActOne then 1000 else 0) + |p.toA| + |p.toB|
  }

  lemma ReadsSettle(e: Setting, p: Pair)
    requires Inv(e, p)
    ensures p.toB != [] ==> Rank(ReadB(e, p, |p.toB|)) < Rank(p)
    ensures p.toA != [] ==> Rank(ReadA(e, p, |p.toA|)) < Rank(p)
  {
    hide Feed, Nonces, Third;
    assert p.toB[..|p.toB|] == p.toB && p.toA[..|p.toA|] == p.toA;
    if p.a.state == Done {
      FeedQuiet(e.S, e.x, p.a, p.toA);
      FeedQuiet(e.S, e.y, p.b, p.toB);
    }
  }
}
