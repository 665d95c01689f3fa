/**
 * Which orphans a submission takes out of the orphanage, and which stay there although their
 * parent is connected: an orphan is found only through the map of missing parents, which has
 * room for one orphan per parent (src/chain.c).
 */
module Orphans {
  import opened Ancestry
  import opened Bytes
  import opened ByteOrder
  import opened Difficulty
  import opened ForkChoice

  /** o is the orphan that its missing parent leads to. */
  ghost predicate Listed(v: View, o: Header) {
    o.prev in v.prevs && v.prevs[o.prev] == o
  }

  /** o is an orphan that its missing parent does not lead to. */
  ghost predicate Lost(v: View, o: Header) {
    Stored(v.orphans, o) && !Listed(v, o)
  }

  /** Submitting h empties the orphanage first. */
  ghost predicate Clears(v: View, g: Header, h: Header, now: nat)
    requires Sound(v, g) && h.hash != g.prev
  {
    Submit(v, g, h, now).1 == Orphaned && |v.orphans| > MAX_ORPHANS
  }

  // ----- Adoption

  /** o is in the orphanage of both and listed in both or in neither. */
  ghost predicate Unmoved(v: View, w: View, o: Header) {
    Stored(w.orphans, o) && (Listed(w, o) <==> Listed(v, o))
  }

  /** o was listed, left the orphanage, and its parent is connected. */
  ghost predicate Taken(v: View, w: View, o: Header) {
    Listed(v, o) && o.hash !in w.orphans && o.prev in w.hashes
  }

  lemma ReleasedMoves(v: View, g: Header, o: Header, k: Hash)
    requires Ready(v, g) && Stored(v.orphans, o) && k in v.prevs
    ensures var c := v.prevs[k];
      && c.prev == k
      && if o == c then Listed(v, o) && o.hash !in Released(v, c).orphans else Unmoved(v, Released(v, c), o)
  {
    hide Tree, Heaviest, Worked;
    WaitingOne(v, g, k);
  }

  lemma ConnectOrphans(v: View, g: Header, p: Header, h: Header)
    requires Ready(v, g) && Stored(v.hashes, p) && h.prev == p.hash && Worked(h)
    ensures Connect(v, g, p, h).0.orphans == v.orphans && Connect(v, g, p, h).0.prevs == v.prevs
    ensures Connect(v, g, p, h).1 != Orphaned
  {
    hide Ready, Stored, MedianTime, NextBits;
  }

  /** Adoption adds no orphan and does not answer that the header is one. */
  lemma {:induction false} AdoptShrinks(v: View, g: Header, h: Header)
    requires Ready(v, g) && Stored(v.hashes, h)
    ensures Adopt(v, g, h).0.orphans.Keys <= v.orphans.Keys && Adopt(v, g, h).1 != Orphaned
    decreases |v.prevs|
  {
    if h.hash in v.prevs {
      var o := v.prevs[h.hash];
      AdoptStep(v, g, h, o);
      ConnectOrphans(Released(v, o), g, h, o);
      var r := Connect(Released(v, o), g, h, o);
      hide Connect, Ready, Adopt, Fresh;
      if r.1 == Success {
        AdoptShrinks(r.0, g, r.0.hashes[o.hash]);
      }
    }
  }

  lemma AdoptHolds(v: View, g: Header, h: Header, k: Hash)
    requires Ready(v, g) && Stored(v.hashes, h) && k in v.hashes
    ensures k in Adopt(v, g, h).0.hashes
  {
    hide Adopt, Ready;
    AdoptExtends(v, g, h);
  }

  lemma AdoptNone(v: View, g: Header, h: Header)
    requires Ready(v, g) && Stored(v.hashes, h) && h.hash !in v.prevs
    ensures Adopt(v, g, h) == (v, Success)
  {
    hide Ready;
  }

  /** What one turn of the adoption does to the orphanage. */
  lemma StepTakes(v: View, g: Header, h: Header, c: Header)
    requires Ready(v, g) && Stored(v.hashes, h) && h.hash in v.prevs && c == v.prevs[h.hash]
    requires var w := Released(v, c); Ready(w, g) && Fresh(w, g, h, c)
    ensures var r := Connect(Released(v, c), g, h, c).0; r.orphans == Released(v, c).orphans && r.prevs == Released(v, c).prevs
    ensures Adopt(v, g, h).0.orphans.Keys <= Released(v, c).orphans.Keys
  {
    hide Connect, Ready, Adopt, Released;
    AdoptStep(v, g, h, c);
    ConnectOrphans(Released(v, c), g, h, c);
    var r := Connect(Released(v, c), g, h, c);
    if r.1 == Success {
      AdoptShrinks(r.0, g, r.0.hashes[c.hash]);
    }
  }

  lemma {:induction false} AdoptTakes(v: View, g: Header, h: Header, o: Header)
    requires Ready(v, g) && Stored(v.hashes, h) && Stored(v.orphans, o)
    ensures Unmoved(v, Adopt(v, g, h).0, o) || Taken(v, Adopt(v, g, h).0, o)
    decreases |v.prevs|
  {
    hide Connect, Ready, Adopt, Released, Worked;
    if h.hash !in v.prevs {
      AdoptNone(v, g, h);
    } else {
      var c := v.prevs[h.hash];
      AdoptStep(v, g, h, c);
      AdoptHolds(v, g, h, h.hash);
      ReleasedMoves(v, g, o, h.hash);
      StepTakes(v, g, h, c);
      var r := Connect(Released(v, c), g, h, c);
      if r.1 == Success && o != c {
        AdoptTakes(r.0, g, r.0.hashes[c.hash], o);
      }
    }
  }

  // ----- One submission

  lemma AcceptTakes(v: View, g: Header, h: Header, o: Header)
    requires Sound(v, g) && h.hash != g.prev && Worked(h)
    requires h.hash !in v.hashes && h.hash !in v.orphans && h.prev in v.hashes && Stored(v.orphans, o)
    ensures Unmoved(v, Accept(v, g, h).0, o) || Taken(v, Accept(v, g, h).0, o)
    ensures Accept(v, g, h).1 != Orphaned
  {
    hide Connect, Ready, Adopt, Worked;
    var p := v.hashes[h.prev];
    SoundFresh(v, g, p, h);
    ConnectKeeps(v, g, p, h);
    ConnectOrphans(v, g, p, h);
    var r := Connect(v, g, p, h);
    if r.1 == Success {
      AdoptTakes(r.0, g, r.0.hashes[h.hash], o);
      AdoptShrinks(r.0, g, r.0.hashes[h.hash]);
    }
  }

  /**
   * An orphan leaves the orphanage exactly when that is emptied, or when the orphan is the listed one and its parent
   * is connected.  It becomes lost exactly when another one comes that misses the same parent.
   */
  lemma SubmitTakes(v: View, g: Header, h: Header, now: nat, o: Header)
    requires Sound(v, g) && h.hash != g.prev && Stored(v.orphans, o)
    ensures var (w, code) := Submit(v, g, h, now);
      && (o.hash !in w.orphans <==> Clears(v, g, h, now) || (Listed(v, o) && o.prev in w.hashes))
      && (o.hash in w.orphans ==> Stored(w.orphans, o))
      && (Lost(w, o) <==> !Clears(v, g, h, now) && (Lost(v, o) || (code == Orphaned && h.prev == o.prev)))
  {
    hide Target, BigEndian, Accept, Ready;
    SubmitKeeps(v, g, h, now);
    if h.hash !in v.hashes && h.hash !in v.orphans && Worked(h) && h.prev in v.hashes {
      AcceptTakes(v, g, h, o);
    }
  }

  // ----- Whole runs

  /** Some submission of the run empties the orphanage. */
  ghost predicate Cleared(v: View, g: Header, events: seq<Event>)
    requires Sound(v, g) && Admissible(g, events)
    decreases |events|
  {
    if events == [] then false
    else
      SubmitKeeps(v, g, events[0].header, events[0].now);
      || Clears(v, g, events[0].header, events[0].now)
      || Cleared(Submit(v, g, events[0].header, events[0].now).0, g, events[1..])
  }

  /** A lost orphan is not connected, and every copy of it is refused. */
  ghost predicate Refused(v: View, g: Header, o: Header)
    requires Sound(v, g)
  {
    && o.hash !in v.hashes && o.hash != g.prev
    && forall h: Header, now: nat | h.hash == o.hash ::
      Submit(v, g, h, now) == (v, if h.time > now + 2 * 60 * 60 then TimeTooNew else DuplicateOrphan)
  }

  lemma LostRefused(v: View, g: Header, o: Header)
    requires Sound(v, g) && Lost(v, o)
    ensures Refused(v, g, o)
  {
    hide Tree, Heaviest, Worked, Filed, Waiting, Accept, Target, BigEndian, Listed;
  }

  /** Until the orphanage is emptied no run connects a lost orphan, and every copy of it is refused. */
  lemma {:induction false} LostStays(v: View, g: Header, events: seq<Event>, o: Header)
    requires Sound(v, g) && Admissible(g, events) && Lost(v, o) && !Cleared(v, g, events)
    ensures Lost(Run(v, g, events), o) && Refused(Run(v, g, events), g, o)
    decreases |events|
  {
    hide Sound, Submit, Lost, Refused, Clears;
    LostRefused(v, g, o);
    if events != [] {
      var e := events[0];
      SubmitKeeps(v, g, e.header, e.now);
      LostStep(v, g, e.header, e.now, o);
      LostStays(Submit(v, g, e.header, e.now).0, g, events[1..], o);
    }
  }

  lemma LostStep(v: View, g: Header, h: Header, now: nat, o: Header)
    requires Sound(v, g) && h.hash != g.prev && Lost(v, o) && !Clears(v, g, h, now)
    ensures Lost(Submit(v, g, h, now).0, o)
  {
    hide Sound, Submit, Clears;
    SubmitTakes(v, g, h, now, o);
  }

  // ----- An instance

  /** A small number as a digest. */
  function Digest(n: nat): (h: Hash)
    requires n < 256
    ensures BigEndian(h) == n
  {
    SeatedWork(n);
    ToBytes(n, 32)
  }

  /** A header of the easiest difficulty. */
  function Sample(hash: nat, prev: nat, time: nat): Header
    requires hash < 256 && prev < 256
  {
    Header(Digest(hash), Digest(prev), Digest(0), time, BITS, 0, Digest(0))
  }

  lemma SampleWorked(hash: nat, prev: nat, time: nat)
    requires hash < 256 && prev < 256
    ensures Target(BITS).Some? && Worked(Sample(hash, prev, time))
  {
    hide Target, BigEndian, ToBytes;
    LimitBits();
  }

  lemma LoneGenesis(g: Header)
    requires g.height == 0 && g.hash != g.prev
    ensures Sound(View(map[g.hash := g], g, map[], map[]), g)
  {
    hide BigEndian, Worked, Child;
  }

  /** A header later than its parent and its parent's parent, at the start of the chain, obeys the rules. */
  lemma EarlyVerdict(t: Table, p: Header, h: Header)
    requires Closed(t) && Stored(t, p) && p.height <= 1 && h.bits == BITS
    requires p.time < h.time && (p.height == 1 ==> t[p.prev].time < h.time)
    ensures Verdict(t, p, h) == Success
  {
    hide Sorted, At, RetargetBits, Actual, Middle, Times, Under;
    var s := Times(t, p, 11);
    TimesStep(t, p, 11);
    if p.height == 1 {
      TimesStep(t, t[p.prev], 10);
    }
    AllUnder(s, h.time);
    if h.time <= MedianTime(t, p) {
      UnderMonotone(s, h.time, MedianTime(t, p));
    }
  }

  lemma {:induction false} AllUnder(s: seq<nat>, m: nat)
    requires forall i :: 0 <= i < |s| ==> s[i] < m
    ensures Under(s, m) == |s|
  {
    if s != [] {
      AllUnder(s[1..], m);
    }
  }

  /** An orphan whose parent nobody knows, and a child of a stored parent. */
  lemma SampleSubmitted(v: View, g: Header, hash: nat, prev: nat, time: nat)
    requires Sound(v, g) && 0 < hash < 256 && prev < 256 && time <= 7200 && g.prev == Digest(0)
    requires var h := Sample(hash, prev, time); h.hash !in v.hashes && h.hash !in v.orphans
    ensures var h := Sample(hash, prev, time);
      && h.hash != g.prev && Worked(h)
      && Submit(v, g, h, 0) == if h.prev in v.hashes then Accept(v, g, h) else (Waiting(v, h), Orphaned)
  {
    hide Target, BigEndian, ToBytes, Sound, Waiting, Accept;
    SampleWorked(hash, prev, time);
  }

  lemma SoundClosed(v: View, g: Header)
    requires Sound(v, g)
    ensures Closed(v.hashes)
  {
  }

  lemma AcceptJoins(v: View, g: Header, h: Header)
    requires Sound(v, g) && h.hash != g.prev && Worked(h)
    requires h.hash !in v.hashes && h.hash !in v.orphans && h.prev in v.hashes
    requires Verdict(v.hashes, v.hashes[h.prev], h) == Success
    ensures Stored(Accept(v, g, h).0.hashes, Seated(v.hashes[h.prev], h))
  {
    hide Ready, Adopt, Worked, Verdict, Seated, Target, BigEndian;
    var p := v.hashes[h.prev];
    SoundClosed(v, g);
    SoundFresh(v, g, p, h);
    ConnectKeeps(v, g, p, h);
    SeatedChild(v.hashes, p, h);
    var r := Connect(v, g, p, h);
    AdoptExtends(r.0, g, r.0.hashes[h.hash]);
  }

  /** The orphans a and b, in this order, and then their parent c: b is found and a is lost. */
  lemma ParentOfTwo(v: View, g: Header, a: Header, b: Header, c: Header)
    requires g == Sample(1, 0, 0) && a == Sample(3, 2, 2) && b == Sample(4, 2, 2) && c == Sample(2, 1, 1)
    requires v.hashes == map[g.hash := g] && v.orphans == map[a.hash := a, b.hash := b] && v.prevs == map[c.hash := b]
    requires Sound(v, g)
    ensures c.hash != g.prev && var w := Submit(v, g, c, 0).0;
      && Lost(w, a) && b.hash !in w.orphans && c.hash in w.hashes
      && Sound(w, g) && Verdict(w.hashes, w.hashes[c.hash], a) == Success
  {
    hide BigEndian, Sound, Accept, Verdict, Waiting, Digest, Clears;
    SampleSubmitted(v, g, 2, 1, 1);
    SoundClosed(v, g);
    EarlyVerdict(v.hashes, g, c);
    AcceptJoins(v, g, c);
    AcceptTakes(v, g, c, a);
    SubmitKeeps(v, g, c, 0);
    var w := Submit(v, g, c, 0).0;
    SubmitTakes(v, g, c, 0, a);
    SubmitTakes(v, g, c, 0, b);
    SoundClosed(w, g);
    EarlyVerdict(w.hashes, w.hashes[c.hash], a);
  }

  /** In this run a obeys the rules as a child of c, which is connected, and stays an orphan. */
  lemma TwoOrphans() returns (v: View, g: Header, a: Header, b: Header, c: Header)
    ensures Sound(v, g) && a.prev == b.prev == c.hash && Admissible(g, [Event(a, 0), Event(b, 0), Event(c, 0)])
    ensures var w := Run(v, g, [Event(a, 0), Event(b, 0), Event(c, 0)]);
      && Lost(w, a) && b.hash !in w.orphans && c.hash in w.hashes
      && Closed(w.hashes) && Worked(a) && Verdict(w.hashes, w.hashes[c.hash], a) == Success
  {
    hide BigEndian, Sound, Verdict, Submit, Worked, Digest, Lost;
    g, a, b, c := Sample(1, 0, 0), Sample(3, 2, 2), Sample(4, 2, 2), Sample(2, 1, 1);
    v := View(map[g.hash := g], g, map[], map[]);
    LoneGenesis(g);
    SampleSubmitted(v, g, 3, 2, 2);
    SubmitKeeps(v, g, a, 0);
    var x := Waiting(v, a);
    SampleSubmitted(x, g, 4, 2, 2);
    SubmitKeeps(x, g, b, 0);
    var y := Waiting(x, b);
    ParentOfTwo(y, g, a, b, c);
    SoundClosed(Submit(y, g, c, 0).0, g);
    RunThree(v, g, a, b, c);
  }

  lemma RunThree(v: View, g: Header, a: Header, b: Header, c: Header)
    requires Sound(v, g) && a.hash != g.prev && b.hash != g.prev && c.hash != g.prev
    ensures var x := Submit(v, g, a, 0).0;
      Sound(x, g) && var y := Submit(x, g, b, 0).0;
      Sound(y, g) && Run(v, g, [Event(a, 0), Event(b, 0), Event(c, 0)]) == Submit(y, g, c, 0).0
  {
    hide Sound, Submit;
    var events := [Event(a, 0), Event(b, 0), Event(c, 0)];
    assert events[1..] == [Event(b, 0), Event(c, 0)] && events[1..][1..] == [Event(c, 0)];
    SubmitKeeps(v, g, a, 0);
    var x := Submit(v, g, a, 0).0;
    SubmitKeeps(x, g, b, 0);
    var y := Submit(x, g, b, 0).0;
    SubmitKeeps(y, g, c, 0);
    assert Run(y, g, [Event(c, 0)]) == Submit(y, g, c, 0).0;
    assert Run(x, g, events[1..]) == Run(y, g, [Event(c, 0)]);
  }
}
