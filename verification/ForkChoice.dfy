/**
 * What submitting a header does to the stored headers, the tip and the waiting
 * orphans, as functions on values, and what every run of submissions keeps
 * (src/chain.c).
 */
module ForkChoice {
  import opened Ancestry
  import opened Arith
  import opened Bytes
  import opened ByteOrder
  import opened Difficulty

  const MAX_ORPHANS: nat := 10000

  /** The connected headers, the best of them, and the orphans by hash and by missing parent. */
  datatype View = View(hashes: Table, tip: Header, orphans: Table, prevs: Table)

  ghost predicate Heaviest(t: Table, tip: Header) {
    forall k :: k in t ==> t[k].Weight() <= tip.Weight()
  }

  /** Orphans are filed by their own hash, are not connected, and meet their targets. */
  ghost predicate Apart(orphans: Table, hashes: Table, g: Header) {
    forall k :: k in orphans ==> orphans[k].hash == k && k !in hashes && k != g.prev && Worked(orphans[k])
  }

  /** Whoever waits for a parent is a stored orphan, filed under that parent. */
  ghost predicate Filed(prevs: Table, orphans: Table) {
    forall k :: k in prevs ==> prevs[k].prev == k && Stored(orphans, prevs[k])
  }

  ghost predicate Orphanage(v: View, g: Header) {
    Apart(v.orphans, v.hashes, g) && Filed(v.prevs, v.orphans) && |v.orphans| <= MAX_ORPHANS + 1
  }

  ghost predicate Ready(v: View, g: Header) {
    Tree(v.hashes, g) && Stored(v.hashes, v.tip) && Heaviest(v.hashes, v.tip) && Orphanage(v, g)
  }

  /** Nobody waits for a header that is connected, save perhaps for h. */
  ghost predicate SettledBut(v: View, h: Hash) {
    forall k :: k in v.prevs && k in v.hashes ==> k == h
  }

  /** Between two submissions. */
  ghost predicate Sound(v: View, g: Header) {
    Ready(v, g) && forall k :: k in v.prevs ==> k !in v.hashes
  }

  lemma Without(t: Table, k: Hash)
    requires k in t
    ensures |t - {k}| == |t| - 1
  {
    assert (t - {k}).Keys == t.Keys - {k};
  }

  lemma With(t: Table, k: Hash, h: Header)
    ensures |t[k := h]| <= |t| + 1
  {
    assert t[k := h].Keys == t.Keys + {k};
  }

  // ----- One more connected header

  lemma VerdictGrows(t: Table, k: Header, p: Header, h: Header)
    requires Closed(t) && k.hash !in t && Closed(t[k.hash := k]) && Stored(t, p)
    ensures Verdict(t[k.hash := k], p, h) == Verdict(t, p, h)
  {
    hide MedianTime, NextBits;
    MedianGrows(t, k, p);
    NextBitsGrows(t, k, p);
  }

  lemma MedianGrows(t: Table, k: Header, p: Header)
    requires Closed(t) && k.hash !in t && Closed(t[k.hash := k]) && Stored(t, p)
    ensures MedianTime(t[k.hash := k], p) == MedianTime(t, p)
  {
    hide Sorted, Times, IsMedian;
    TimesGrows(t, k, p, 11);
  }

  lemma NextBitsGrows(t: Table, k: Header, p: Header)
    requires Closed(t) && k.hash !in t && Closed(t[k.hash := k]) && Stored(t, p)
    ensures NextBits(t[k.hash := k], p) == NextBits(t, p)
  {
    hide At, RetargetBits, Actual, Middle, BigEndian;
    forall n: nat | n <= p.height ensures At(t[k.hash := k], p, n) == At(t, p, n) {
      AtGrows(t, k, p, n);
    }
  }

  lemma ClosedGrows(t: Table, k: Header)
    requires Closed(t) && k.hash !in t && Attached(t, k)
    ensures Closed(t[k.hash := k])
  {
  }

  lemma TreeGrows(t: Table, g: Header, p: Header, h: Header)
    requires Tree(t, g) && Stored(t, p) && Child(t, p, h) && h.hash !in t && h.hash != g.prev
    ensures Tree(t[h.hash := h], g)
  {
    hide Verdict, Target, Work, BigEndian;
    ClosedGrows(t, h);
    var u := t[h.hash := h];
    forall k | k in u && k != g.hash ensures Connected(u, u[k]) {
      if k == h.hash {
        VerdictGrows(t, h, p, h);
      } else {
        assert Connected(t, t[k]);
        VerdictGrows(t, h, t[t[k].prev], t[k]);
      }
    }
  }

  /** v with h connected: the tip moves only to a strictly heavier header. */
  ghost function Joined(v: View, h: Header): View {
    v.(hashes := v.hashes[h.hash := h], tip := if h.Weight() > v.tip.Weight() then h else v.tip)
  }

  /** h may be connected to p in v. */
  ghost predicate Fresh(v: View, g: Header, p: Header, h: Header) {
    && Stored(v.hashes, p) && h.prev == p.hash
    && h.hash !in v.hashes && h.hash !in v.orphans && h.hash != g.prev && Worked(h)
  }

  lemma SeatedChild(t: Table, p: Header, h: Header)
    requires Closed(t) && Stored(t, p) && h.prev == p.hash && Verdict(t, p, h) == Success && Worked(h)
    ensures Target(h.bits).Some? && Child(t, p, Seated(p, h))
  {
    hide Target, Work, BigEndian, MedianTime, NextBits, Seated;
    NextBitsInRange(t, p);
  }

  ghost function Connect(v: View, g: Header, p: Header, h: Header): (View, Code)
    requires Ready(v, g) && Stored(v.hashes, p) && h.prev == p.hash && Worked(h)
  {
    var code := Verdict(v.hashes, p, h);
    if code != Success then (v, code)
    else
      SeatedChild(v.hashes, p, h);
      (Joined(v, Seated(p, h)), Success)
  }

  lemma JoinedKeeps(v: View, g: Header, h: Header)
    requires Heaviest(v.hashes, v.tip) && Stored(v.hashes, v.tip) && Apart(v.orphans, v.hashes, g)
    requires h.hash !in v.hashes && h.hash !in v.orphans
    ensures Heaviest(Joined(v, h).hashes, Joined(v, h).tip) && Stored(Joined(v, h).hashes, Joined(v, h).tip)
    ensures Apart(v.orphans, Joined(v, h).hashes, g)
  {
    hide BigEndian;
  }

  lemma ConnectKeeps(v: View, g: Header, p: Header, h: Header)
    requires Ready(v, g) && Fresh(v, g, p, h)
    ensures Ready(Connect(v, g, p, h).0, g)
    ensures Connect(v, g, p, h).1 == Success ==>
      h.hash in Connect(v, g, p, h).0.hashes && Connect(v, g, p, h).0.hashes[h.hash].hash == h.hash
  {
    hide Verdict, Target, Work, BigEndian, Seated, Connected, Child, Heaviest, Closed, Worked;
    if Verdict(v.hashes, p, h) == Success {
      SeatedChild(v.hashes, p, h);
      hide Apart, Filed, Tree;
      TreeGrows(v.hashes, g, p, Seated(p, h));
      JoinedKeeps(v, g, Seated(p, h));
    }
  }

  /** Connects the orphans waiting for h, then those waiting for them, until one is refused. */
  ghost function Adopt(v: View, g: Header, h: Header): (View, Code)
    requires Ready(v, g) && Stored(v.hashes, h)
    decreases |v.prevs|
  {
    if h.hash !in v.prevs then (v, Success)
    else
      var o := v.prevs[h.hash];
      var w := Released(v, o);
      ReleasedKeeps(v, g, o, h);
      ConnectKeeps(w, g, h, o);
      var (x, code) := Connect(w, g, h, o);
      if code != Success then (x, code) else Adopt(x, g, x.hashes[o.hash])
  }

  /** v without the waiting orphan o. */
  ghost function Released(v: View, o: Header): View {
    v.(orphans := v.orphans - {o.hash}, prevs := v.prevs - {o.prev})
  }

  lemma WaitingOne(v: View, g: Header, k: Hash)
    requires Apart(v.orphans, v.hashes, g) && Filed(v.prevs, v.orphans) && k in v.prevs
    ensures v.prevs[k].prev == k && Stored(v.orphans, v.prevs[k]) && Worked(v.prevs[k])
    ensures v.prevs[k].hash !in v.hashes && v.prevs[k].hash != g.prev
  {
    hide Worked;
  }

  lemma ReleasedApart(orphans: Table, hashes: Table, g: Header, k: Hash)
    requires Apart(orphans, hashes, g)
    ensures Apart(orphans - {k}, hashes, g)
  {
    hide Worked;
  }

  lemma WaitingApart(orphans: Table, hashes: Table, g: Header, h: Header)
    requires Apart(orphans, hashes, g) && h.hash !in hashes && h.hash != g.prev && Worked(h)
    ensures Apart(orphans[h.hash := h], hashes, g) && Apart(map[h.hash := h], hashes, g)
  {
    hide Worked;
  }

  lemma ReleasedFiled(prevs: Table, orphans: Table, o: Header)
    requires Filed(prevs, orphans) && o.prev in prevs && prevs[o.prev] == o
    ensures Filed(prevs - {o.prev}, orphans - {o.hash})
  {
  }

  lemma ReleasedKeeps(v: View, g: Header, o: Header, h: Header)
    requires Ready(v, g) && Stored(v.hashes, h) && h.hash in v.prevs && o == v.prevs[h.hash]
    ensures Ready(Released(v, o), g) && Fresh(Released(v, o), g, h, o)
    ensures |Released(v, o).prevs| < |v.prevs|
  {
    hide Tree, Heaviest, Worked, Apart, Filed;
    WaitingOne(v, g, h.hash);
    Without(v.prevs, o.prev);
    Without(v.orphans, o.hash);
    ReleasedFiled(v.prevs, v.orphans, o);
    ReleasedApart(v.orphans, v.hashes, g, o.hash);
  }

  lemma ConnectPrevs(v: View, g: Header, p: Header, h: Header)
    requires Ready(v, g) && Stored(v.hashes, p) && h.prev == p.hash && Worked(h)
    ensures Connect(v, g, p, h).0.prevs == v.prevs
  {
    hide Verdict, Ready, Stored;
  }

  /** One step of the recursion, with all it needs. */
  lemma AdoptStep(v: View, g: Header, h: Header, o: Header)
    requires Ready(v, g) && Stored(v.hashes, h) && h.hash in v.prevs && o == v.prevs[h.hash]
    ensures var w := Released(v, o);
      && Ready(w, g) && Fresh(w, g, h, o) && |w.prevs| < |v.prevs| && Ready(Connect(w, g, h, o).0, g)
    ensures var r := Connect(Released(v, o), g, h, o);
      if r.1 != Success then Adopt(v, g, h) == r
      else
        && o.hash in r.0.hashes && Stored(r.0.hashes, r.0.hashes[o.hash])
        && |r.0.prevs| < |v.prevs| && Adopt(v, g, h) == Adopt(r.0, g, r.0.hashes[o.hash])
  {
    ReleasedKeeps(v, g, o, h);
    ConnectKeeps(Released(v, o), g, h, o);
    ConnectPrevs(Released(v, o), g, h, o);
    hide Ready, Released, Connect, Heaviest, Tree, Orphanage;
  }

  lemma ReleasedSettles(v: View, g: Header, o: Header, h: Header)
    requires Ready(v, g) && Stored(v.hashes, h) && h.hash in v.prevs && o == v.prevs[h.hash] && SettledBut(v, h.hash)
    ensures Sound(Released(v, o), g)
  {
    hide Tree, Heaviest, Apart, Filed;
    ReleasedKeeps(v, g, o, h);
  }

  lemma ConnectSettles(v: View, g: Header, p: Header, h: Header)
    requires Sound(v, g) && Fresh(v, g, p, h)
    ensures var r := Connect(v, g, p, h);
      if r.1 == Success then SettledBut(r.0, h.hash) else Sound(r.0, g)
  {
    hide Tree, Heaviest, Verdict, Apart, Filed, Worked;
    if Connect(v, g, p, h).1 == Success {
      assert Connect(v, g, p, h).0.hashes.Keys == v.hashes.Keys + {h.hash};
    }
  }

  lemma {:induction false} AdoptKeeps(v: View, g: Header, h: Header)
    requires Ready(v, g) && Stored(v.hashes, h) && SettledBut(v, h.hash)
    ensures Sound(Adopt(v, g, h).0, g)
    decreases |v.prevs|
  {
    if h.hash in v.prevs {
      var o := v.prevs[h.hash];
      var w := Released(v, o);
      ReleasedSettles(v, g, o, h);
      ReleasedKeeps(v, g, o, h);
      ConnectKeeps(w, g, h, o);
      ConnectSettles(w, g, h, o);
      var r := Connect(w, g, h, o);
      assert r.1 == Success ==> |r.0.prevs| < |v.prevs|;
      hide Connect, Sound, Ready, SettledBut, Released;
      if r.1 == Success {
        AdoptKeeps(r.0, g, r.0.hashes[o.hash]);
      }
    }
  }

  // ----- A submission

  /** hsk_chain_add at the time `now`. */
  ghost function Submit(v: View, g: Header, h: Header, now: nat): (View, Code)
    requires Sound(v, g) && h.hash != g.prev
  {
    if h.time > now + 2 * 60 * 60 then (v, TimeTooNew)
    else if h.hash in v.hashes then (v, Duplicate)
    else if h.hash in v.orphans then (v, DuplicateOrphan)
    else if Target(h.bits).None? then (v, NegTarget)
    else if BigEndian(h.hash) > Target(h.bits).value then (v, HighHash)
    else if h.prev !in v.hashes then (Waiting(v, h), Orphaned)
    else Accept(v, g, h)
  }

  /** Connects h to its stored parent, and then whoever waited for it. */
  ghost function Accept(v: View, g: Header, h: Header): (View, Code)
    requires Sound(v, g) && h.hash != g.prev && Worked(h)
    requires h.hash !in v.hashes && h.hash !in v.orphans && h.prev in v.hashes
  {
    var p := v.hashes[h.prev];
    ConnectKeeps(v, g, p, h);
    var r := Connect(v, g, p, h);
    if r.1 != Success then r else Adopt(r.0, g, r.0.hashes[h.hash])
  }

  lemma AcceptKeeps(v: View, g: Header, h: Header)
    requires Sound(v, g) && h.hash != g.prev && Worked(h)
    requires h.hash !in v.hashes && h.hash !in v.orphans && h.prev in v.hashes
    ensures Sound(Accept(v, g, h).0, g) && Extends(v, Accept(v, g, h).0)
  {
    var p := v.hashes[h.prev];
    SoundFresh(v, g, p, h);
    hide Extends, Tree, Heaviest, Connect;
    ConnectKeeps(v, g, p, h);
    ConnectSettles(v, g, p, h);
    ConnectExtends(v, g, p, h);
    var r := Connect(v, g, p, h);
    if r.1 == Success {
      AdoptKeeps(r.0, g, r.0.hashes[h.hash]);
      AdoptExtends(r.0, g, r.0.hashes[h.hash]);
      ExtendsChain(v, r.0, Adopt(r.0, g, r.0.hashes[h.hash]).0);
    }
  }

  /** v with the orphan h; a full orphanage is emptied first. */
  ghost function Waiting(v: View, h: Header): View {
    var full := |v.orphans| > MAX_ORPHANS;
    v.(orphans := (if full then map[] else v.orphans)[h.hash := h],
       prevs := (if full then map[] else v.prevs)[h.prev := h])
  }

  lemma NoneFiled()
    ensures Filed(map[], map[])
  {
  }

  lemma WaitingFiled(prevs: Table, orphans: Table, h: Header)
    requires Filed(prevs, orphans) && h.hash !in orphans
    ensures Filed(prevs[h.prev := h], orphans[h.hash := h])
  {
  }

  lemma WaitingKeeps(v: View, g: Header, h: Header)
    requires Sound(v, g) && h.hash !in v.hashes && h.hash !in v.orphans && h.hash != g.prev && h.prev !in v.hashes && Worked(h)
    ensures Sound(Waiting(v, h), g)
  {
    hide Tree, Heaviest, Worked, Apart, Filed;
    With(v.orphans, h.hash, h);
    With(map[], h.hash, h);
    WaitingFiled(v.prevs, v.orphans, h);
    NoneFiled();
    WaitingFiled(map[], map[], h);
    WaitingApart(v.orphans, v.hashes, g, h);
  }

  /** Every submission, accepted or not, keeps the chain sound. */
  lemma SubmitKeeps(v: View, g: Header, h: Header, now: nat)
    requires Sound(v, g) && h.hash != g.prev
    ensures Sound(Submit(v, g, h, now).0, g) && Extends(v, Submit(v, g, h, now).0)
  {
    hide Target, BigEndian, Sound, Extends, Accept, Waiting;
    ReleasedExtends(v, h);
    if h.hash !in v.hashes && h.hash !in v.orphans && Worked(h) {
      if h.prev in v.hashes {
        AcceptKeeps(v, g, h);
      } else {
        WaitingKeeps(v, g, h);
        WaitingExtends(v, h);
      }
    }
  }

  lemma SoundFresh(v: View, g: Header, p: Header, h: Header)
    requires Sound(v, g) && h.prev in v.hashes && p == v.hashes[h.prev]
    requires h.hash !in v.hashes && h.hash !in v.orphans && h.hash != g.prev && Worked(h)
    ensures Fresh(v, g, p, h)
  {
  }

  // ----- Whole runs

  datatype Event = Event(header: Header, now: nat)

  ghost predicate Admissible(g: Header, events: seq<Event>) {
    forall i :: 0 <= i < |events| ==> events[i].header.hash != g.prev
  }

  ghost function Run(v: View, g: Header, events: seq<Event>): (r: View)
    requires Sound(v, g) && Admissible(g, events)
    ensures Sound(r, g)
    decreases |events|
  {
    if events == [] then v
    else
      SubmitKeeps(v, g, events[0].header, events[0].now);
      Run(Submit(v, g, events[0].header, events[0].now).0, g, events[1..])
  }

  /** Stored headers are never lost or altered, and the tip never gets lighter. */
  ghost predicate Extends(v: View, w: View) {
    && (forall k :: k in v.hashes ==> k in w.hashes && w.hashes[k] == v.hashes[k])
    && w.tip.Weight() >= v.tip.Weight()
  }

  lemma ConnectExtends(v: View, g: Header, p: Header, h: Header)
    requires Ready(v, g) && Fresh(v, g, p, h)
    ensures Extends(v, Connect(v, g, p, h).0)
  {
    hide Tree, Heaviest, Verdict, BigEndian;
  }

  lemma ExtendsChain(u: View, v: View, w: View)
    requires Extends(u, v) && Extends(v, w)
    ensures Extends(u, w)
  {
  }

  lemma ReleasedExtends(v: View, o: Header)
    ensures Extends(v, Released(v, o)) && Extends(v, v)
  {
  }

  lemma {:induction false} AdoptExtends(v: View, g: Header, h: Header)
    requires Ready(v, g) && Stored(v.hashes, h)
    ensures Extends(v, Adopt(v, g, h).0)
    decreases |v.prevs|
  {
    hide Extends, Verdict, Tree, Heaviest;
    var o := if h.hash in v.prevs then v.prevs[h.hash] else h;
    ReleasedExtends(v, o);
    if h.hash in v.prevs {
      var w := Released(v, o);
      ReleasedKeeps(v, g, o, h);
      ConnectKeeps(w, g, h, o);
      ConnectExtends(w, g, h, o);
      var r := Connect(w, g, h, o);
      assert r.1 == Success ==> |r.0.prevs| < |v.prevs|;
      hide Connect, Ready, Released;
      ExtendsChain(v, w, r.0);
      if r.1 == Success {
        AdoptExtends(r.0, g, r.0.hashes[o.hash]);
        ExtendsChain(v, r.0, Adopt(r.0, g, r.0.hashes[o.hash]).0);
      }
    }
  }

  lemma WaitingExtends(v: View, h: Header)
    ensures Extends(v, Waiting(v, h))
  {
  }

  lemma {:induction false} RunExtends(v: View, g: Header, events: seq<Event>)
    requires Sound(v, g) && Admissible(g, events)
    ensures Extends(v, Run(v, g, events))
    decreases |events|
  {
    hide Sound, Submit;
    if events != [] {
      SubmitKeeps(v, g, events[0].header, events[0].now);
      RunExtends(Submit(v, g, events[0].header, events[0].now).0, g, events[1..]);
    }
  }

  // ----- Exact work

  /** All the work from the genesis up to h, not cut to 32 octets. */
  ghost function Total(t: Table, h: Header): nat
    requires Closed(t) && Attached(t, h)
    decreases h.height
  {
    if h.height == 0 || Target(h.bits).None? then h.Weight()
    else Total(t, t[h.prev]) + Proof(Target(h.bits).value)
  }

  lemma RootIsGenesis(t: Table, g: Header, h: Header)
    requires Tree(t, g) && Stored(t, h)
    ensures h.height == 0 <==> h == g
    ensures h != g ==> h.prev in t && Child(t, t[h.prev], h)
  {
    hide Child;
    if h.hash != g.hash {
      assert Connected(t, t[h.hash]);
      ChildHeight(t, t[h.prev], h);
    }
  }

  lemma ChildHeight(t: Table, p: Header, h: Header)
    requires Closed(t) && Stored(t, p) && Child(t, p, h)
    ensures h.height > 0
  {
    hide Verdict;
  }

  lemma ChildWeight(t: Table, p: Header, h: Header)
    requires Closed(t) && Stored(t, p) && Child(t, p, h)
    ensures Target(h.bits).Some? && h.height > 0 && h.Weight() == Mod(p.Weight() + Proof(Target(h.bits).value), TWO256)
  {
    hide Verdict, Mod, BigEndian, Target, Proof;
  }

  /** A stored header weighs its exact work cut to 32 octets. */
  lemma {:induction false} WeightIsTotal(t: Table, g: Header, h: Header)
    requires Tree(t, g) && Stored(t, h)
    ensures h.Weight() == Mod(Total(t, h), TWO256)
    decreases h.height
  {
    hide Child, Connected, Mod, BigEndian, Target, Proof;
    RootIsGenesis(t, g, h);
    WeightBound(h);
    if h == g {
      ModSmall(h.Weight(), TWO256);
    } else {
      var p := t[h.prev];
      WeightIsTotal(t, g, p);
      ChildWeight(t, p, h);
      ModCut(Total(t, p), Proof(Target(h.bits).value), TWO256);
    }
  }

  lemma ModSmall(x: nat, n: nat)
    requires x < n
    ensures Mod(x, n) == x
  {
  }

  lemma ModCut(x: nat, y: nat, n: nat)
    requires n > 0
    ensures Mod(Mod(x, n) + y, n) == Mod(x + y, n)
  {
    ModAdd(x % n + y, x / n, n);
  }

  lemma CutSum(x: nat, y: nat, n: nat)
    requires x < n && 0 < y < n
    ensures Mod(x + y, n) > x <==> x + y < n
  {
    if x + y >= n {
      DivModUnique(x + y, 1, x + y - n, n);
    }
  }

  /** The stored work grows from parent to child exactly when the sum fits in 32 octets. */
  lemma LinkGrows(t: Table, g: Header, h: Header)
    requires Tree(t, g) && Stored(t, h) && h != g
    ensures h.prev in t && h.height == t[h.prev].height + 1 && Target(h.bits).Some?
    ensures h.Weight() > t[h.prev].Weight() <==> t[h.prev].Weight() + Proof(Target(h.bits).value) < TWO256
    ensures 1 <= Proof(Target(h.bits).value) <= TWO256 / 36
  {
    hide Tree, Verdict, Mod, BigEndian, Target, Proof;
    RootIsGenesis(t, g, h);
    var p, target := t[h.prev], Target(h.bits).value;
    ProofBound(target);
    WeightBound(p);
    CutSum(p.Weight(), Proof(target), TWO256);
  }

  /** While no total reaches 2^256, the tip has the most exact work of all stored headers. */
  lemma MostWork(v: View, g: Header, k: Hash)
    requires Sound(v, g) && k in v.hashes
    requires Total(v.hashes, v.hashes[k]) < TWO256 && Total(v.hashes, v.tip) < TWO256
    ensures Total(v.hashes, v.hashes[k]) <= Total(v.hashes, v.tip)
  {
    hide Total, Mod, BigEndian;
    WeightIsTotal(v.hashes, g, v.hashes[k]);
    WeightIsTotal(v.hashes, g, v.tip);
    ModSmall(Total(v.hashes, v.hashes[k]), TWO256);
    ModSmall(Total(v.hashes, v.tip), TWO256);
  }
}
