/**
 * Headers, the tree they form by their parent links, and what the chain rules
 * ask of each header in that tree (src/chain.c, src/header.h).
 */
module Ancestry {
  import opened Bytes
  import opened ByteOrder
  import opened Difficulty

  type Octets32 = w: Bytes | |w| == 32 witness ZERO_HASH

  type Compact32 = b: nat | b < 0x1_0000_0000

  /**
   * A header. `hash` is its cached digest, `height` and `work` are filled in
   * when it is connected to its parent.
   */
  datatype Header = Header(hash: Hash, prev: Hash, root: Hash, time: nat, bits: Compact32,
                           height: nat, work: Octets32)
  {
    function Weight(): nat {
      BigEndian(work)
    }
  }

  /** Headers filed by their own hash. */
  type Table = map<Hash, Header>

  predicate Stored(t: Table, h: Header) {
    h.hash in t && t[h.hash] == h
  }

  /** The header is a root, or its parent is stored one step below it. */
  predicate Attached(t: Table, h: Header) {
    h.height > 0 ==> h.prev in t && t[h.prev].height == h.height - 1
  }

  ghost predicate Closed(t: Table) {
    forall k :: k in t ==> t[k].hash == k && Attached(t, t[k])
  }

  /** The ancestor of a header at a given height. */
  function At(t: Table, h: Header, n: nat): (r: Header)
    requires Closed(t) && Attached(t, h) && n <= h.height
    ensures r.height == n && Attached(t, r) && (n < h.height || Stored(t, h) ==> Stored(t, r))
    decreases h.height
  {
    if h.height == n then h else At(t, t[h.prev], n)
  }

  lemma {:induction false} AtAt(t: Table, h: Header, n: nat, m: nat)
    requires Closed(t) && Attached(t, h) && m <= n <= h.height
    ensures At(t, At(t, h, n), m) == At(t, h, m)
    decreases h.height
  {
    if n < h.height {
      AtAt(t, t[h.prev], n, m);
    }
  }

  /** Storing one more header changes nobody's ancestors. */
  lemma {:induction false} AtGrows(t: Table, k: Header, h: Header, n: nat)
    requires Closed(t) && k.hash !in t && Closed(t[k.hash := k])
    requires Attached(t, h) && n <= h.height
    ensures At(t[k.hash := k], h, n) == At(t, h, n)
    decreases h.height
  {
    if n < h.height {
      AtGrows(t, k, t[h.prev], n);
    }
  }

  // ----- Median time past

  /** How many elements are smaller than m. */
  function Under(s: seq<nat>, m: nat): (r: nat)
    ensures r <= |s|
  {
    if s == [] then 0 else (if s[0] < m then 1 else 0) + Under(s[1..], m)
  }

  /** At most half of the elements are below m, and more than half are at or below it. */
  predicate IsMedian(s: seq<nat>, m: nat) {
    Under(s, m) <= |s| / 2 < Under(s, m + 1)
  }

  lemma MedianIs(s: seq<nat>, m: nat)
    requires Under(s, m) <= |s| / 2 < Under(s, m + 1)
    ensures IsMedian(s, m)
  {
  }

  lemma {:induction false} UnderMonotone(s: seq<nat>, a: nat, b: nat)
    requires a <= b
    ensures Under(s, a) <= Under(s, b)
  {
    if s != [] { UnderMonotone(s[1..], a, b); }
  }

  lemma MedianUnique(s: seq<nat>, a: nat, b: nat)
    requires IsMedian(s, a) && IsMedian(s, b)
    ensures a == b
  {
    if a < b {
      UnderMonotone(s, a + 1, b);
    } else if b < a {
      UnderMonotone(s, b + 1, a);
    }
  }

  predicate Ascending(s: seq<nat>) {
    forall i, j :: 0 <= i < j < |s| ==> s[i] <= s[j]
  }

  function Place(x: nat, s: seq<nat>): (r: seq<nat>)
    requires Ascending(s)
    ensures |r| == |s| + 1 && Ascending(r) && forall i :: 0 <= i < |r| ==> r[i] == x || r[i] in s
    ensures forall m :: Under(r, m) == (if x < m then 1 else 0) + Under(s, m)
  {
    if s == [] || x <= s[0] then Prepend(x, s)
    else Prepend(s[0], Place(x, s[1..]))
  }

  function Prepend(x: nat, s: seq<nat>): (r: seq<nat>)
    requires Ascending(s) && forall i :: 0 <= i < |s| ==> x <= s[i]
    ensures |r| == |s| + 1 && Ascending(r) && forall i :: 0 <= i < |r| ==> r[i] == x || r[i] in s
    ensures forall m :: Under(r, m) == (if x < m then 1 else 0) + Under(s, m)
  {
    [x] + s
  }

  function Sorted(s: seq<nat>): (r: seq<nat>)
    ensures |r| == |s| && Ascending(r)
    ensures forall m :: Under(r, m) == Under(s, m)
  {
    if s == [] then [] else Place(s[0], Sorted(s[1..]))
  }

  lemma {:induction false} UnderAscending(s: seq<nat>, k: nat, m: nat)
    requires Ascending(s) && k <= |s|
    ensures (forall i :: k <= i < |s| ==> m <= s[i]) ==> Under(s, m) <= k
    ensures (forall i :: 0 <= i < k ==> s[i] < m) ==> k <= Under(s, m)
  {
    if s != [] {
      var rest := s[1..];
      assert forall i :: 0 <= i < |rest| ==> rest[i] == s[i + 1];
      if k > 0 {
        UnderAscending(rest, k - 1, m);
      } else {
        UnderAscending(rest, 0, m);
      }
    }
  }

  lemma MiddleUnder(r: seq<nat>, k: nat)
    requires Ascending(r) && k < |r|
    ensures Under(r, r[k]) <= k < Under(r, r[k] + 1)
  {
    hide Under;
    UnderAscending(r, k, r[k]);
    UnderAscending(r, k + 1, r[k] + 1);
  }

  lemma SortedMiddle(s: seq<nat>)
    requires s != []
    ensures IsMedian(s, Sorted(s)[|s| / 2])
  {
    hide *;
    var r, k := Sorted(s), |s| / 2;
    assert |r| == |s| && Ascending(r);
    MiddleUnder(r, k);
    assert Under(r, r[k]) == Under(s, r[k]) && Under(r, r[k] + 1) == Under(s, r[k] + 1);
    MedianIs(s, r[k]);
  }

  /** The times of a header and of the headers before it, n at most. */
  function Times(t: Table, h: Header, n: nat): (s: seq<nat>)
    requires Closed(t) && Attached(t, h)
    ensures |s| <= n && (n > 0 ==> s != [])
    decreases n
  {
    if n == 0 then []
    else if h.height == 0 then [h.time]
    else [h.time] + Times(t, t[h.prev], n - 1)
  }

  lemma TimesStep(t: Table, h: Header, n: nat)
    requires Closed(t) && Attached(t, h) && n > 0
    ensures h.height > 0 ==> Attached(t, t[h.prev])
    ensures Times(t, h, n) == [h.time] + if h.height == 0 then [] else Times(t, t[h.prev], n - 1)
  {
  }

  lemma {:induction false} TimesGrows(t: Table, k: Header, h: Header, n: nat)
    requires Closed(t) && k.hash !in t && Closed(t[k.hash := k]) && Attached(t, h)
    ensures Times(t[k.hash := k], h, n) == Times(t, h, n)
    decreases n
  {
    if n > 0 && h.height > 0 {
      TimesGrows(t, k, t[h.prev], n - 1);
    }
  }

  function MedianTime(t: Table, h: Header): (m: nat)
    requires Closed(t) && Stored(t, h)
    ensures IsMedian(Times(t, h, 11), m)
  {
    SortedMiddle(Times(t, h, 11));
    Sorted(Times(t, h, 11))[|Times(t, h, 11)| / 2]
  }

  // ----- Difficulty of the next header

  /** Of three headers, the one in the middle by time; of equal times, the second one's. */
  function Middle(x: Header, y: Header, z: Header): (r: Header)
    ensures r in {x, y, z}
  {
    if x.time <= y.time <= z.time || z.time <= y.time <= x.time then y
    else if x.time < y.time then (if x.time > z.time then x else z)
    else (if z.time < x.time then z else x)
  }

  ghost function NextBits(t: Table, p: Header): nat
    requires Closed(t) && Stored(t, p)
  {
    if p.height < 146 then BITS else
      var last := Middle(At(t, p, p.height - 2), At(t, p, p.height - 1), p);
      var first := Middle(At(t, p, p.height - 146), At(t, p, p.height - 145), At(t, p, p.height - 144));
      RetargetBits(first.Weight(), last.Weight(), Actual(first.time, last.time))
  }

  lemma WeightBound(h: Header)
    ensures h.Weight() < TWO256
  {
    hide *;
    BigEndianBound(h.work);
    PowerOf256(32);
    Constants();
    WeightIs(h);
  }

  lemma WeightIs(h: Header)
    ensures h.Weight() == BigEndian(h.work)
  {
  }

  /** Every difficulty the rules ask for is a proper target worth at least one unit of work. */
  lemma NextBitsInRange(t: Table, p: Header)
    requires Closed(t) && Stored(t, p)
    ensures var r := Target(NextBits(t, p)); r.Some? && 35 <= r.value <= LIMIT
  {
    hide Target, RetargetBits, Actual, BigEndian, Middle, At;
    if p.height < 146 {
      EasiestInRange();
    } else {
      var last := Middle(At(t, p, p.height - 2), At(t, p, p.height - 1), p);
      var first := Middle(At(t, p, p.height - 146), At(t, p, p.height - 145), At(t, p, p.height - 144));
      WeightBound(first);
      WeightBound(last);
      RetargetInRange(first.Weight(), last.Weight(), Actual(first.time, last.time));
    }
  }

  // ----- The tree of connected headers

  datatype Code = Success | TimeTooNew | Duplicate | DuplicateOrphan | NegTarget | HighHash
                | Orphaned | TimeTooOld | BadDiffBits

  /** What the rules say of h as a child of p. */
  ghost function Verdict(t: Table, p: Header, h: Header): Code
    requires Closed(t) && Stored(t, p)
  {
    if h.time <= MedianTime(t, p) then TimeTooOld
    else if h.bits != NextBits(t, p) then BadDiffBits
    else Success
  }

  /** The hash of a header meets its target. */
  predicate Worked(h: Header) {
    Target(h.bits).Some? && BigEndian(h.hash) <= Target(h.bits).value
  }

  /** h is connected to its parent p: it obeys the rules and its height and work follow from p's. */
  ghost predicate Child(t: Table, p: Header, h: Header)
    requires Closed(t) && Stored(t, p)
  {
    && h.prev == p.hash && Verdict(t, p, h) == Success && Worked(h)
    && h.height == p.height + 1
    && Target(h.bits).Some? && 35 <= Target(h.bits).value <= LIMIT
    && h.Weight() == Work(p.Weight(), Target(h.bits).value)
  }

  ghost predicate Connected(t: Table, h: Header)
    requires Closed(t)
  {
    h.prev in t && Child(t, t[h.prev], h)
  }

  /** Every stored header but the genesis is connected to a stored parent. */
  ghost predicate Tree(t: Table, g: Header) {
    && Closed(t) && Stored(t, g) && g.height == 0 && g.prev !in t
    && (forall k :: k in t && k != g.hash ==> Connected(t, t[k]))
  }

  /** h with the height and the work it gets as a child of p. */
  ghost function Seated(p: Header, h: Header): (r: Header)
    requires Target(h.bits).Some?
    ensures r.hash == h.hash && r.prev == h.prev && r.time == h.time && r.bits == h.bits && r.height == p.height + 1
    ensures r.Weight() == Work(p.Weight(), Target(h.bits).value)
  {
    SeatedWork(Work(p.Weight(), Target(h.bits).value));
    Header(h.hash, h.prev, h.root, h.time, h.bits, p.height + 1,
           ToBytes(Work(p.Weight(), Target(h.bits).value), 32))
  }

  lemma SeatedWork(n: nat)
    requires n < TWO256
    ensures BigEndian(ToBytes(n, 32)) == n
  {
    hide *;
    Constants();
    PowerOf256(32);
    ToBytesValue(n, 32);
  }
}
