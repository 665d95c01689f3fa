/** The header chain (src/chain.c). */
module Chain {
  import opened Ancestry
  import opened Bytes
  import opened ByteOrder
  import opened Difficulty
  import opened ForkChoice

  // ----- Common ancestors

  /** f is an ancestor of both a and b, and they have none in common above it. */
  ghost predicate HighestCommon(t: Table, a: Header, b: Header, f: Header)
    requires Closed(t) && Attached(t, a) && Attached(t, b)
  {
    && f.height <= a.height && f.height <= b.height
    && At(t, a, f.height) == f == At(t, b, f.height)
    && ApartAbove(t, a, b, f.height)
  }

  ghost predicate ApartAbove(t: Table, a: Header, b: Header, n: nat)
    requires Closed(t) && Attached(t, a) && Attached(t, b)
  {
    forall i :: n < i <= a.height && i <= b.height ==> At(t, a, i) != At(t, b, i)
  }

  /** A header that hangs in the tree, stored or about to be. */
  ghost predicate Hangs(t: Table, h: Header) {
    Attached(t, h) && (Stored(t, h) || (h.hash !in t && h.height > 0))
  }

  lemma StoredAttached(t: Table, h: Header)
    requires Closed(t) && Stored(t, h)
    ensures Attached(t, h)
  {
  }

  /** Exactly the genesis has no stored parent. */
  lemma ParentOf(t: Table, g: Header, h: Header)
    requires Tree(t, g) && Stored(t, h)
    ensures h.prev in t <==> h.height > 0
    ensures h.height > 0 ==> Stored(t, t[h.prev]) && Attached(t, t[h.prev])
  {
    hide Child;
    RootIsGenesis(t, g, h);
  }

  lemma ApartStep(t: Table, a: Header, b: Header, x: Header, y: Header)
    requires Closed(t) && Hangs(t, a) && Hangs(t, b) && y.height <= x.height <= a.height && y.height <= b.height
    requires x == At(t, a, x.height) && y == At(t, b, y.height) && x.height > 0 && x.hash != y.hash
    requires ApartAbove(t, a, b, y.height)
    ensures ApartAbove(t, a, b, if x.height == y.height then y.height - 1 else y.height)
  {
    hide At, Closed;
    if x.height == y.height {
      assert At(t, a, x.height).hash != At(t, b, x.height).hash;
    }
  }

  lemma ApartTop(t: Table, a: Header, b: Header)
    requires Closed(t) && Attached(t, a) && Attached(t, b)
    ensures ApartAbove(t, a, b, if a.height < b.height then a.height else b.height)
  {
  }

  lemma ForkFacts(t: Table, a: Header, b: Header, f: Header)
    requires Closed(t) && Stored(t, a) && Attached(t, a) && Hangs(t, b) && b.hash !in t && HighestCommon(t, a, b, f)
    ensures Stored(t, f) && f.height <= a.height && f.height < b.height && f == At(t, a, f.height)
  {
    hide ApartAbove;
    AtTop(t, b);
  }

  lemma SameHash(t: Table, a: Header, b: Header)
    requires Stored(t, a) && Hangs(t, b) && a.hash == b.hash
    ensures a == b
  {
  }

  /** A step down from h along its branch. */
  lemma AtParent(t: Table, g: Header, a: Header, h: Header)
    requires Tree(t, g) && Hangs(t, a) && h.height <= a.height && h == At(t, a, h.height) && h.height > 0
    ensures h.prev in t && Stored(t, t[h.prev]) && t[h.prev].height == h.height - 1
    ensures t[h.prev] == At(t, a, h.height - 1)
  {
    hide Connected, Child;
    AtAt(t, a, h.height, h.height - 1);
  }

  lemma Roots(t: Table, g: Header, a: Header)
    requires Tree(t, g) && Hangs(t, a)
    ensures At(t, a, 0) == g
  {
    hide Child;
    RootIsGenesis(t, g, At(t, a, 0));
  }

  // ----- Links between headers during a reorganisation

  ghost predicate Among(k: Hash, s: seq<Header>) {
    exists i :: 0 <= i < |s| && s[i].hash == k
  }

  /** Each header of s is linked to the one after it, and the last one to none. */
  ghost predicate Chained(next: map<Hash, Header>, s: seq<Header>) {
    && (forall i :: 0 <= i < |s| - 1 ==> s[i].hash in next && next[s[i].hash] == s[i + 1])
    && (s != [] ==> s[|s| - 1].hash !in next)
  }

  /** s goes down from h to just above the height lo. */
  ghost predicate Falls(t: Table, h: Header, lo: nat, s: seq<Header>)
    requires Closed(t) && Attached(t, h)
  {
    lo <= h.height && |s| == h.height - lo && forall i :: 0 <= i < |s| ==> s[i] == At(t, h, h.height - i)
  }

  /** s goes up from just above the height lo to h. */
  ghost predicate Rises(t: Table, h: Header, lo: nat, s: seq<Header>)
    requires Closed(t) && Attached(t, h)
  {
    lo <= h.height && |s| == h.height - lo && forall i :: 0 <= i < |s| ==> s[i] == At(t, h, lo + 1 + i)
  }

  /** Headers at different heights of one branch have different hashes. */
  lemma HashesDiffer(t: Table, a: Header, i: nat, j: nat)
    requires Closed(t) && Hangs(t, a) && i <= a.height && j <= a.height && i != j
    ensures At(t, a, i).hash != At(t, a, j).hash
  {
    hide At;
    var x, y := At(t, a, i), At(t, a, j);
    assert i < a.height ==> Stored(t, x);
    assert j < a.height ==> Stored(t, y);
    if i == a.height { AtTop(t, a); }
    if j == a.height { AtTop(t, a); }
  }

  lemma AtTop(t: Table, a: Header)
    requires Closed(t) && Attached(t, a)
    ensures At(t, a, a.height) == a
  {
  }

  /** Two branches share no hash above their highest common ancestor. */
  lemma BranchesApart(t: Table, a: Header, b: Header, n: nat, i: nat, j: nat)
    requires Closed(t) && Stored(t, a) && Hangs(t, b) && ApartAbove(t, a, b, n)
    requires n < i <= a.height && n < j <= b.height
    ensures At(t, a, i).hash != At(t, b, j).hash
  {
    hide At;
    if j == b.height { AtTop(t, b); }
    var x, y := At(t, a, i), At(t, b, j);
    assert Stored(t, x) && x.height == i && y.height == j;
    assert j < b.height ==> Stored(t, y);
    if i == j {
      assert x != y;
    }
  }

  ghost predicate Distinct(s: seq<Header>) {
    forall i, j :: 0 <= i < j < |s| ==> s[i].hash != s[j].hash
  }

  ghost predicate Disjoint(s: seq<Header>, u: seq<Header>) {
    forall i, j :: 0 <= i < |s| && 0 <= j < |u| ==> s[i].hash != u[j].hash
  }

  lemma FallsDistinct(t: Table, h: Header, lo: nat, s: seq<Header>)
    requires Closed(t) && Hangs(t, h) && Falls(t, h, lo, s)
    ensures Distinct(s)
    ensures forall i :: 0 <= i < |s| ==> s[i].hash != At(t, h, lo).hash && s[i].height == h.height - i
  {
    hide At, Closed;
    forall i, j | 0 <= i < j < |s| ensures s[i].hash != s[j].hash {
      HashesDiffer(t, h, h.height - i, h.height - j);
    }
    forall i | 0 <= i < |s| ensures s[i].hash != At(t, h, lo).hash {
      HashesDiffer(t, h, h.height - i, lo);
    }
  }

  lemma RisesDistinct(t: Table, h: Header, lo: nat, s: seq<Header>)
    requires Closed(t) && Hangs(t, h) && Rises(t, h, lo, s)
    ensures Distinct(s)
    ensures forall i :: 0 <= i < |s| ==> s[i].hash != At(t, h, lo).hash && s[i].height == lo + 1 + i
  {
    hide At, Closed;
    forall i, j | 0 <= i < j < |s| ensures s[i].hash != s[j].hash {
      HashesDiffer(t, h, lo + 1 + i, lo + 1 + j);
    }
    forall i | 0 <= i < |s| ensures s[i].hash != At(t, h, lo).hash {
      HashesDiffer(t, h, lo + 1 + i, lo);
    }
  }

  lemma BranchesDisjoint(t: Table, a: Header, b: Header, lo: nat, m: nat, down: seq<Header>, up: seq<Header>)
    requires Closed(t) && Stored(t, a) && Hangs(t, b) && ApartAbove(t, a, b, lo) && lo <= m
    requires Falls(t, a, lo, down) && Rises(t, b, m, up)
    ensures Disjoint(down, up)
    ensures lo < m ==> forall i :: 0 <= i < |down| ==> down[i].hash != At(t, b, m).hash
  {
    hide At, Closed;
    forall i, j | 0 <= i < |down| && 0 <= j < |up| ensures down[i].hash != up[j].hash {
      BranchesApart(t, a, b, lo, a.height - i, m + 1 + j);
    }
    if lo < m {
      forall i | 0 <= i < |down| ensures down[i].hash != At(t, b, m).hash {
        BranchesApart(t, a, b, lo, a.height - i, m);
      }
    }
  }

  function First(s: seq<Header>): Option<Header> {
    if s == [] then None else Some(s[0])
  }

  /** Taking the first header of s off its list. */
  lemma Unlink(next: map<Hash, Header>, s: seq<Header>, u: seq<Header>)
    requires s != [] && Chained(next, s) && Chained(next, u) && Distinct(s) && Disjoint(s, u)
    requires forall k :: k in next ==> Among(k, s) || Among(k, u)
    ensures var after := next - {s[0].hash};
      && Chained(after, s[1..]) && Chained(after, u) && Distinct(s[1..]) && Disjoint(s[1..], u)
      && (forall k :: k in after ==> Among(k, s[1..]) || Among(k, u))
    ensures (if s[0].hash in next then Some(next[s[0].hash]) else None) == First(s[1..])
  {
    AmongTail(s);
    UnlinkOwn(next, s);
    UnlinkOther(next, s, u);
    hide Among, Chained, Distinct, Disjoint;
  }

  lemma UnlinkOwn(next: map<Hash, Header>, s: seq<Header>)
    requires s != [] && Chained(next, s) && Distinct(s)
    ensures Chained(next - {s[0].hash}, s[1..]) && Distinct(s[1..])
    ensures (if s[0].hash in next then Some(next[s[0].hash]) else None) == First(s[1..])
  {
    var rest := s[1..];
    assert forall i :: 0 <= i < |rest| ==> rest[i] == s[i + 1];
  }

  lemma UnlinkOther(next: map<Hash, Header>, s: seq<Header>, u: seq<Header>)
    requires s != [] && Chained(next, u) && Disjoint(s, u)
    ensures Chained(next - {s[0].hash}, u) && Disjoint(s[1..], u)
  {
    var rest := s[1..];
    assert forall i :: 0 <= i < |rest| ==> rest[i] == s[i + 1];
  }

  lemma AmongTail(s: seq<Header>)
    requires s != []
    ensures forall k :: Among(k, s) ==> k == s[0].hash || Among(k, s[1..])
  {
    var rest := s[1..];
    forall k | Among(k, s) && k != s[0].hash ensures Among(k, rest) {
      var i :| 0 <= i < |s| && s[i].hash == k;
      assert rest[i - 1].hash == k;
    }
  }

  lemma ChainedPrepend(next: map<Hash, Header>, down: seq<Header>, s: seq<Header>, h: Header)
    requires Chained(next, down) && Chained(next, s) && Distinct(s) && h.hash !in next
    requires forall k :: k in next ==> Among(k, down) || Among(k, s)
    requires forall i :: 0 <= i < |s| ==> s[i].hash != h.hash
    requires forall i :: 0 <= i < |down| ==> down[i].hash != h.hash
    ensures var after := if s == [] then next else next[h.hash := s[0]];
      && Chained(after, down) && Chained(after, [h] + s)
      && forall k :: k in after ==> Among(k, down) || Among(k, [h] + s)
  {
    var u, after := [h] + s, if s == [] then next else next[h.hash := s[0]];
    assert forall i :: 0 < i < |u| ==> u[i] == s[i - 1];
    forall k | k in after ensures Among(k, down) || Among(k, u) {
      if k == h.hash {
        assert u[0].hash == k;
      } else if Among(k, s) {
        var i :| 0 <= i < |s| && s[i].hash == k;
        assert u[i + 1].hash == k;
      }
    }
  }

  lemma RisesStep(t: Table, a: Header, b: Header, lo: nat, m: nat, down: seq<Header>, up: seq<Header>,
                  h: Header, next: map<Hash, Header>)
    requires Closed(t) && Stored(t, a) && Hangs(t, b) && ApartAbove(t, a, b, lo) && lo < m
    requires Falls(t, a, lo, down) && Rises(t, b, m, up) && h == At(t, b, m)
    requires Chained(next, down) && Chained(next, up) && forall k :: k in next ==> Among(k, down) || Among(k, up)
    ensures h.hash !in next && Rises(t, b, m - 1, [h] + up)
    ensures var after := if up == [] then next else next[h.hash := up[0]];
      && Chained(after, down) && Chained(after, [h] + up)
      && forall k :: k in after ==> Among(k, down) || Among(k, [h] + up)
  {
    hide Closed, At, ApartAbove, Chained, Among, Distinct, Disjoint;
    RisesDistinct(t, b, m, up);
    BranchesDisjoint(t, a, b, lo, m, down, up);
    NotAmong(up, h);
    NotAmong(down, h);
    ChainedPrepend(next, down, up, h);
  }

  function Last(s: seq<Header>): Option<Header> {
    if s == [] then None else Some(s[|s| - 1])
  }

  lemma FallsStart(t: Table, h: Header, next: map<Hash, Header>)
    requires Closed(t) && Attached(t, h) && next == map[]
    ensures Falls(t, h, h.height, []) && Chained(next, [])
  {
  }

  lemma FallsStep(t: Table, a: Header, lo: nat, s: seq<Header>, h: Header, next: map<Hash, Header>)
    requires Closed(t) && Hangs(t, a) && 0 < lo && Falls(t, a, lo, s) && h == At(t, a, lo)
    requires Chained(next, s) && forall k :: k in next ==> Among(k, s)
    ensures h.hash !in next && Falls(t, a, lo - 1, s + [h])
    ensures var after := if s == [] then next else next[s[|s| - 1].hash := h];
      Chained(after, s + [h]) && forall k :: k in after ==> Among(k, s + [h])
  {
    hide Closed, At, Chained, Among;
    FallsDistinct(t, a, lo, s);
    NotAmong(s, h);
    ChainedAppend(next, if s == [] then next else next[s[|s| - 1].hash := h], s, h);
  }

  lemma ChainedAppend(before: map<Hash, Header>, after: map<Hash, Header>, s: seq<Header>, h: Header)
    requires Chained(before, s) && (forall k :: k in before ==> Among(k, s)) && Distinct(s)
    requires forall i :: 0 <= i < |s| ==> s[i].hash != h.hash
    requires after == if s == [] then before else before[s[|s| - 1].hash := h]
    ensures Chained(after, s + [h]) && forall k :: k in after ==> Among(k, s + [h])
  {
    hide Among;
    AmongAppend(s, h);
    NotAmong(s, h);
  }

  lemma NotAmong(s: seq<Header>, h: Header)
    requires forall i :: 0 <= i < |s| ==> s[i].hash != h.hash
    ensures !Among(h.hash, s)
  {
  }

  lemma AmongAppend(s: seq<Header>, h: Header)
    ensures forall k :: Among(k, s) ==> Among(k, s + [h])
    ensures s != [] ==> Among(s[|s| - 1].hash, s + [h])
  {
    var u := s + [h];
    forall k | Among(k, s) ensures Among(k, u) {
      var i :| 0 <= i < |s| && s[i].hash == k;
      assert u[i].hash == k;
    }
    assert forall i :: 0 <= i < |s| ==> u[i].hash == s[i].hash;
  }

  lemma RisesStart(t: Table, h: Header, next: map<Hash, Header>)
    requires Closed(t) && Attached(t, h)
    ensures Rises(t, h, h.height, []) && Chained(next, [])
  {
  }

  lemma NoneAmong(s: seq<Header>)
    ensures s == [] ==> forall k :: !Among(k, s)
  {
  }

  lemma ChainedEmpty(next: map<Hash, Header>, s: seq<Header>)
    ensures Chained(next, []) && Disjoint(s, [])
  {
  }

  /** The two lists of a reorganisation have no header in common. */
  lemma Lists(t: Table, a: Header, b: Header, f: Header, down: seq<Header>, up: seq<Header>)
    requires Closed(t) && Stored(t, a) && Attached(t, a) && Hangs(t, b) && HighestCommon(t, a, b, f)
    requires f.height < b.height
    requires Falls(t, a, f.height, down) && Rises(t, b, f.height, up)
    ensures Distinct(down) && Distinct(up) && Disjoint(down, up) && up != []
  {
    hide At, ApartAbove, Distinct, Disjoint;
    FallsDistinct(t, a, f.height, down);
    RisesDistinct(t, b, f.height, up);
    BranchesDisjoint(t, a, b, f.height, f.height, down, up);
  }

  // ----- The chain

  /** The index holds exactly the ancestors of h below the height `top`. */
  ghost predicate Indexed(heights: map<nat, Header>, t: Table, h: Header, top: nat)
    requires Closed(t) && Attached(t, h) && top <= h.height + 1
  {
    forall n: nat :: (n in heights <==> n < top) && (n < top ==> heights[n] == At(t, h, n))
  }

  lemma Unindex(heights: map<nat, Header>, t: Table, h: Header, n: nat)
    requires Closed(t) && Attached(t, h) && n <= h.height && Indexed(heights, t, h, n + 1)
    ensures Indexed(heights - {n}, t, h, n)
  {
  }

  lemma IndexGrows(heights: map<nat, Header>, t: Table, k: Header, h: Header, top: nat)
    requires Closed(t) && k.hash !in t && Attached(t, k) && Attached(t, h) && top <= h.height + 1
    requires Indexed(heights, t, h, top)
    ensures Closed(t[k.hash := k]) && Attached(t[k.hash := k], h) && Indexed(heights, t[k.hash := k], h, top)
  {
    hide At;
    ClosedGrows(t, k);
    forall n: nat | n < top ensures At(t[k.hash := k], h, n) == At(t, h, n) {
      AtGrows(t, k, h, n);
    }
  }

  lemma IndexChild(heights: map<nat, Header>, t: Table, p: Header, h: Header)
    requires Closed(t) && Stored(t, p) && Attached(t, p) && h.prev == p.hash && h.height == p.height + 1
    requires Indexed(heights, t, p, p.height + 1)
    ensures Attached(t, h) && Indexed(heights, t, h, h.height)
  {
  }

  lemma IndexTop(heights: map<nat, Header>, t: Table, h: Header)
    requires Closed(t) && Attached(t, h) && Indexed(heights, t, h, h.height)
    ensures Indexed(heights[h.height := h], t, h, h.height + 1)
  {
  }

  /** Up to a common ancestor, two branches have the same index. */
  lemma IndexShared(heights: map<nat, Header>, t: Table, a: Header, b: Header, f: Header)
    requires Closed(t) && Attached(t, a) && Attached(t, b) && HighestCommon(t, a, b, f)
    requires Indexed(heights, t, a, f.height + 1)
    ensures Indexed(heights, t, b, f.height + 1)
  {
    hide At;
    forall n: nat | n <= f.height ensures At(t, a, n) == At(t, b, n) {
      AtAt(t, a, f.height, n);
      AtAt(t, b, f.height, n);
    }
  }

  lemma Reindex(heights: map<nat, Header>, t: Table, h: Header, n: nat)
    requires Closed(t) && Attached(t, h) && n <= h.height && Indexed(heights, t, h, n)
    ensures Indexed(heights[n := At(t, h, n)], t, h, n + 1)
  {
  }

  /** Connecting a header keeps the height index in step with the tip. */
  lemma IndexJoined(heights: map<nat, Header>, t: Table, p: Header, h: Header, tip: Header)
    requires Closed(t) && Stored(t, p) && Stored(t, tip) && h.prev == p.hash && h.height == p.height + 1 && h.hash !in t
    ensures Closed(t[h.hash := h]) && Attached(t, tip) && Attached(t, h)
    ensures Attached(t[h.hash := h], h) && Attached(t[h.hash := h], tip)
    ensures Indexed(heights, t, tip, tip.height + 1) ==> Indexed(heights, t[h.hash := h], tip, tip.height + 1)
    ensures Indexed(heights, t, h, h.height) ==> Indexed(heights[h.height := h], t[h.hash := h], h, h.height + 1)
  {
    StoredAttached(t, tip);
    StoredAttached(t, p);
    ClosedGrows(t, h);
    hide Indexed, Closed, At;
    if Indexed(heights, t, tip, tip.height + 1) {
      IndexGrows(heights, t, h, tip, tip.height + 1);
    }
    if Indexed(heights, t, h, h.height) {
      IndexGrows(heights, t, h, h, h.height);
      IndexTop(heights, t[h.hash := h], h);
    }
  }

  lemma OrphansStored(v: View, g: Header)
    requires Orphanage(v, g)
    ensures forall k :: k in v.prevs ==> v.prevs[k].prev == k && Stored(v.orphans, v.prevs[k])
  {
  }

  lemma SeatedIs(p: Header, h: Header, work: Octets32)
    requires Target(h.bits).Some? && BigEndian(work) == Work(p.Weight(), Target(h.bits).value)
    ensures Seated(p, h) == h.(height := p.height + 1, work := work)
  {
    hide BigEndian, Target, Work;
    ToBytesInverse(work);
  }

  lemma Alone(g: Header)
    requires g.height == 0 && g.hash != g.prev
    ensures Sound(View(map[g.hash := g], g, map[], map[]), g)
    ensures Closed(map[g.hash := g]) && Attached(map[g.hash := g], g) && Indexed(map[0 := g], map[g.hash := g], g, 1)
  {
    hide BigEndian, Child;
  }

  class Chain {
    var hashes: Table
    var heights: map<nat, Header>
    var orphans: Table
    var prevs: Table
    var tip: Header
    var height: nat
    const genesis: Header
    /** The next link of each header that has one. */
    var next: map<Hash, Header>

    ghost function Value(): View
      reads this
    {
      View(hashes, tip, orphans, prevs)
    }

    /** The height index follows the tip, and no header is linked to another. */
    ghost predicate Tracked()
      reads this
      requires Closed(hashes) && Attached(hashes, tip)
    {
      height == tip.height && next == map[] && Indexed(heights, hashes, tip, tip.height + 1)
    }

    ghost predicate Valid()
      reads this
    {
      Sound(Value(), genesis) && Tracked()
    }

    method GetAncestor(h: Header, n: nat) returns (r: Header)
      requires Tree(hashes, genesis) && Stored(hashes, h) && n <= h.height
      ensures r == At(hashes, h, n)
    {
      hide Closed, Child, Connected, At;
      StoredAttached(hashes, h);
      r := h;
      AtTop(hashes, h);
      while r.height != n
        invariant n <= r.height <= h.height && r == At(hashes, h, r.height)
        decreases r.height
      {
        AtParent(hashes, genesis, h, r);
        r := hashes[r.prev];
      }
    }

    method GetMtp(prev: Header) returns (m: nat)
      requires Tree(hashes, genesis) && Stored(hashes, prev)
      ensures m == MedianTime(hashes, prev)
    {
      hide Closed, Child, Connected, Sorted, Times;
      var median: seq<nat> := [];
      var cursor := Some(prev);
      StoredAttached(hashes, prev);
      var i := 0;
      ghost var rest := Times(hashes, prev, 11);
      while i < 11 && cursor.Some?
        invariant 0 <= i <= 11 && |median| == i
        invariant cursor.Some? ==> Stored(hashes, cursor.value) && Attached(hashes, cursor.value)
        invariant Times(hashes, prev, 11) == median + rest
        invariant rest == if cursor.None? then [] else Times(hashes, cursor.value, 11 - i)
      {
        var h := cursor.value;
        ParentOf(hashes, genesis, h);
        TimesStep(hashes, h, 11 - i);
        ghost var before := rest;
        rest := if h.height == 0 then [] else Times(hashes, hashes[h.prev], 11 - i - 1);
        assert median + before == (median + [h.time]) + rest;
        median := median + [h.time];
        cursor := if h.prev in hashes then Some(hashes[h.prev]) else None;
        i := i + 1;
      }
      assert median == Times(hashes, prev, 11);
      m := Sorted(median)[|median| / 2];
    }

    method SuitableBlock(prev: Header) returns (r: Header)
      requires Tree(hashes, genesis) && Stored(hashes, prev) && prev.height >= 2
      ensures r == Middle(At(hashes, prev, prev.height - 2), At(hashes, prev, prev.height - 1), prev)
    {
      hide Child, Connected;
      var z := prev;
      AtTop(hashes, prev);
      AtParent(hashes, genesis, prev, z);
      var y := hashes[z.prev];
      AtParent(hashes, genesis, prev, y);
      var x := hashes[y.prev];
      if x.time > z.time { x, z := z, x; }
      if x.time > y.time { x, y := y, x; }
      if y.time > z.time { y, z := z, y; }
      return y;
    }

    method GetTarget(prev: Header) returns (bits: nat)
      requires Tree(hashes, genesis) && Stored(hashes, prev)
      ensures bits == NextBits(hashes, prev)
    {
      hide Closed, Child, Connected, At, Middle, RetargetBits, Actual, BigEndian, Stored;
      if prev.height < 144 + 2 {
        return BITS;
      }
      StoredAttached(hashes, prev);
      var last := SuitableBlock(prev);
      var ancestor := GetAncestor(prev, prev.height - 144);
      var first := SuitableBlock(ancestor);
      AtAt(hashes, prev, prev.height - 144, prev.height - 145);
      AtAt(hashes, prev, prev.height - 144, prev.height - 146);
      bits := Retarget(first.work, first.time, last.work, last.time);
    }

    /** The highest common ancestor, whichever of the two branches is the longer one. */
    method FindFork(a: Header, b: Header) returns (r: Option<Header>)
      requires Tree(hashes, genesis) && Stored(hashes, a) && Hangs(hashes, b)
      ensures r.Some? && HighestCommon(hashes, a, b, r.value)
    {
      hide Closed, Child, Connected, At, ApartAbove;
      var fork, longer := a, b;
      StoredAttached(hashes, a);
      ApartTop(hashes, a, b);
      AtTop(hashes, a);
      AtTop(hashes, b);
      while fork.hash != longer.hash
        invariant fork.height <= a.height && fork == At(hashes, a, fork.height) && Stored(hashes, fork)
        invariant longer.height <= b.height && longer == At(hashes, b, longer.height) && Hangs(hashes, longer)
        invariant ApartAbove(hashes, a, b, if fork.height < longer.height then fork.height else longer.height)
        decreases fork.height + longer.height
      {
        ghost var before := fork.height + longer.height;
        while longer.height > fork.height
          invariant longer.height <= b.height && longer == At(hashes, b, longer.height) && Hangs(hashes, longer)
          invariant fork.height + longer.height <= before
          invariant ApartAbove(hashes, a, b, if fork.height < longer.height then fork.height else longer.height)
        {
          AtParent(hashes, genesis, b, longer);
          if longer.prev !in hashes {
            return None;
          }
          longer := hashes[longer.prev];
        }
        if fork.hash == longer.hash {
          SameHash(hashes, fork, longer);
          return Some(fork);
        }
        if fork.height == 0 {
          Roots(hashes, genesis, a);
          Roots(hashes, genesis, b);
        }
        ApartStep(hashes, a, b, fork, longer);
        AtParent(hashes, genesis, a, fork);
        if fork.prev !in hashes {
          return None;
        }
        fork := hashes[fork.prev];
      }
      SameHash(hashes, fork, longer);
      return Some(fork);
    }

    /** Links the headers from the tip down to the fork, which are to be taken off the index. */
    method CollectDown(fork: Header) returns (disconnect: Option<Header>, ghost down: seq<Header>)
      requires Tree(hashes, genesis) && Stored(hashes, tip) && next == map[]
      requires fork.height <= tip.height && fork == At(hashes, tip, fork.height) && Stored(hashes, fork)
      modifies `next
      ensures Falls(hashes, tip, fork.height, down) && disconnect == First(down) && Chained(next, down)
      ensures forall k :: k in next ==> Among(k, down)
    {
      hide Closed, Child, Connected, At, Falls, Chained, Among;
      StoredAttached(hashes, tip);
      AtTop(hashes, tip);
      var entry, tail := tip, None;
      disconnect, down := None, [];
      FallsStart(hashes, tip, next);
      while entry.hash != fork.hash
        invariant fork.height <= entry.height <= tip.height
        invariant entry == At(hashes, tip, entry.height) && Stored(hashes, entry)
        invariant Falls(hashes, tip, entry.height, down) && disconnect == First(down)
        invariant tail == Last(down)
        invariant Chained(next, down) && forall k :: k in next ==> Among(k, down)
        decreases entry.height
      {
        FallsStep(hashes, tip, entry.height, down, entry, next);
        assert entry.hash !in next;
        if disconnect.None? {
          disconnect := Some(entry);
        }
        if tail.Some? {
          next := next[tail.value.hash := entry];
        }
        tail := Some(entry);
        down := down + [entry];
        AtParent(hashes, genesis, tip, entry);
        entry := hashes[entry.prev];
      }
    }

    /** Links the headers from just above the fork up to the competitor, which are to go onto the index. */
    method CollectUp(competitor: Header, fork: Header, ghost down: seq<Header>)
      returns (connect: Option<Header>, ghost up: seq<Header>)
      requires Tree(hashes, genesis) && Stored(hashes, tip) && Hangs(hashes, competitor)
      requires HighestCommon(hashes, tip, competitor, fork)
      requires Falls(hashes, tip, fork.height, down) && Chained(next, down) && forall k :: k in next ==> Among(k, down)
      modifies `next
      ensures Rises(hashes, competitor, fork.height, up) && connect == First(up)
      ensures Chained(next, down) && Chained(next, up) && forall k :: k in next ==> Among(k, down) || Among(k, up)
    {
      hide Closed, Child, Connected, At, Falls, Rises, Chained, Among, ApartAbove;
      StoredAttached(hashes, tip);
      AtTop(hashes, competitor);
      var entry := competitor;
      connect, up := None, [];
      RisesStart(hashes, competitor, next);
      while entry.hash != fork.hash
        invariant fork.height <= entry.height <= competitor.height
        invariant entry == At(hashes, competitor, entry.height) && Hangs(hashes, entry)
        invariant Rises(hashes, competitor, entry.height, up) && connect == First(up)
        invariant Chained(next, down) && Chained(next, up) && forall k :: k in next ==> Among(k, down) || Among(k, up)
        decreases entry.height
      {
        RisesStep(hashes, tip, competitor, fork.height, entry.height, down, up, entry, next);
        assert entry.hash !in next;
        if connect.Some? {
          next := next[entry.hash := connect.value];
        }
        connect := Some(entry);
        up := [entry] + up;
        AtParent(hashes, genesis, competitor, entry);
        entry := hashes[entry.prev];
      }
      SameHash(hashes, fork, entry);
    }

    /** Takes a list of headers off the index and unlinks them. */
    method Disconnect(disconnect: Option<Header>, ghost lo: nat, ghost down: seq<Header>, ghost up: seq<Header>)
      requires Closed(hashes) && Stored(hashes, tip) && Attached(hashes, tip)
      requires Falls(hashes, tip, lo, down) && disconnect == First(down)
      requires Distinct(down) && Disjoint(down, up) && Chained(next, down) && Chained(next, up)
      requires forall k :: k in next ==> Among(k, down) || Among(k, up)
      requires Indexed(heights, hashes, tip, tip.height + 1)
      modifies `next, `heights
      ensures Chained(next, up) && forall k :: k in next ==> Among(k, up)
      ensures Indexed(heights, hashes, tip, lo + 1)
    {
      hide Closed, At, Chained, Among, Distinct, Disjoint, Indexed;
      var c := disconnect;
      ghost var s := down;
      while c.Some?
        invariant |s| <= |down| && c == First(s) && s == down[|down| - |s|..]
        invariant Distinct(s) && Disjoint(s, up) && Chained(next, s) && Chained(next, up)
        invariant forall k :: k in next ==> Among(k, s) || Among(k, up)
        invariant Indexed(heights, hashes, tip, lo + 1 + |s|)
        decreases |s|
      {
        var h := c.value;
        Unlink(next, s, up);
        var n := if h.hash in next then Some(next[h.hash]) else None;
        next := next - {h.hash};
        assert h == At(hashes, tip, lo + |s|);
        Unindex(heights, hashes, tip, lo + |s|);
        heights := heights - {h.height};
        s := s[1..];
        c := n;
      }
      NoneAmong(s);
    }

    /** Puts a list of headers onto the index, save the last one, and unlinks them. */
    method Reconnect(connect: Option<Header>, ghost competitor: Header, ghost lo: nat, ghost up: seq<Header>)
      requires Closed(hashes) && Attached(hashes, competitor)
      requires Rises(hashes, competitor, lo, up) && up != [] && connect == First(up)
      requires Distinct(up) && Chained(next, up) && forall k :: k in next ==> Among(k, up)
      requires Indexed(heights, hashes, competitor, lo + 1)
      modifies `next, `heights
      ensures next == map[] && Indexed(heights, hashes, competitor, competitor.height)
    {
      hide Closed, At, Chained, Among, Distinct, Indexed;
      var c := connect;
      ghost var s := up;
      ChainedEmpty(next, s);
      while c.Some?
        invariant 0 < |s| <= |up| && c == First(s) && s == up[|up| - |s|..]
        invariant Distinct(s) && Chained(next, s) && Chained(next, []) && Disjoint(s, [])
        invariant forall k :: k in next ==> Among(k, s) || Among(k, [])
        invariant Indexed(heights, hashes, competitor, competitor.height + 1 - |s|)
        decreases |s|
      {
        var h := c.value;
        Unlink(next, s, []);
        var n := if h.hash in next then Some(next[h.hash]) else None;
        next := next - {h.hash};
        assert h == At(hashes, competitor, competitor.height + 1 - |s|);
        s := s[1..];
        if n.None? {
          NoneAmong(s);
          break;
        }
        Reindex(heights, hashes, competitor, competitor.height - |s|);
        heights := heights[h.height := h];
        c := n;
      }
    }

    /** Makes room for a competitor: the index now holds its ancestors and nothing else. */
    method Reorganize(competitor: Header)
      requires Tree(hashes, genesis) && Stored(hashes, tip) && Attached(hashes, tip) && Tracked()
      requires Hangs(hashes, competitor) && competitor.hash !in hashes
      modifies `next, `heights
      ensures next == map[] && Indexed(heights, hashes, competitor, competitor.height)
    {
      hide Connected, Indexed, Rises, Falls, ApartAbove, At, Chained, Among, Disjoint, Distinct, HighestCommon, Child;
      var f := FindFork(tip, competitor);
      var fork := f.value;
      ForkFacts(hashes, tip, competitor, fork);
      ghost var down: seq<Header>;
      ghost var up: seq<Header>;
      var disconnect, connect;
      disconnect, down := CollectDown(fork);
      connect, up := CollectUp(competitor, fork, down);
      Lists(hashes, tip, competitor, fork, down, up);
      Disconnect(disconnect, fork.height, down, up);
      IndexShared(heights, hashes, tip, competitor, fork);
      Reconnect(connect, competitor, fork.height, up);
    }

    /** Stores a header whose height and work are known; a strictly heavier one becomes the tip. */
    method Store(h: Header, prev: Header)
      requires Tree(hashes, genesis) && Stored(hashes, tip) && Attached(hashes, tip) && Tracked()
      requires Stored(hashes, prev) && h.prev == prev.hash && h.height == prev.height + 1 && h.hash !in hashes
      modifies `hashes, `heights, `next, `height, `tip
      ensures Value() == Joined(old(Value()), h)
      ensures Closed(hashes) && Attached(hashes, tip) && Tracked()
    {
      hide Connected, Closed, BigEndian, Indexed;
      IndexJoined(heights, hashes, prev, h, tip);
      var r := Compare(h.work, tip.work);
      if r <= 0 {
        hashes := hashes[h.hash := h];
      } else {
        if h.prev != tip.hash {
          Reorganize(h);
        } else {
          IndexChild(heights, hashes, tip, h);
        }
        IndexJoined(heights, hashes, prev, h, tip);
        hashes := hashes[h.hash := h];
        heights := heights[h.height := h];
        height := h.height;
        tip := h;
      }
    }

    /** Connects hdr to its stored parent if the rules allow it. */
    method Insert(hdr: Header, prev: Header) returns (code: Code, stored: Header)
      requires Ready(Value(), genesis) && Tracked() && Fresh(Value(), genesis, prev, hdr)
      modifies `hashes, `heights, `next, `height, `tip
      ensures (Value(), code) == Connect(old(Value()), genesis, prev, hdr)
      ensures Ready(Value(), genesis) && Tracked()
      ensures code == Success ==> Stored(hashes, stored) && stored.hash == hdr.hash
    {
      hide Connected, Closed, Heaviest, Orphanage, MedianTime, NextBits, Target, BigEndian, Indexed, Seated, Work, Child;
      ConnectKeeps(Value(), genesis, prev, hdr);
      stored := hdr;
      var mtp := GetMtp(prev);
      if hdr.time <= mtp {
        return TimeTooOld, stored;
      }
      var bits := GetTarget(prev);
      if hdr.bits != bits {
        return BadDiffBits, stored;
      }
      SeatedChild(hashes, prev, hdr);
      var ok, work := CalcWork(hdr.bits, Some(prev.work));
      assert ok;
      stored := hdr.(height := prev.height + 1, work := work);
      SeatedIs(prev, hdr, work);
      StoredAttached(hashes, tip);
      Store(stored, prev);
      return Success, stored;
    }

    /** Takes out the orphan waiting for a hash. */
    method ResolveOrphan(hash: Hash) returns (r: Option<Header>)
      requires forall k :: k in prevs ==> prevs[k].prev == k && Stored(orphans, prevs[k])
      modifies `prevs, `orphans
      ensures hash !in old(prevs) ==> r == None && Value() == old(Value())
      ensures hash in old(prevs) ==> r == Some(old(prevs)[hash]) && Value() == Released(old(Value()), old(prevs)[hash])
    {
      if hash !in prevs {
        return None;
      }
      var orphan := prevs[hash];
      prevs := prevs - {orphan.prev};
      orphans := orphans - {orphan.hash};
      return Some(orphan);
    }

    /** Connects the orphan that waits for a connected header, if there is one. */
    method ResolveNext(prev: Header) returns (code: Code, stored: Option<Header>)
      requires Ready(Value(), genesis) && Tracked() && Stored(hashes, prev)
      modifies `hashes, `heights, `next, `height, `tip, `prevs, `orphans
      ensures Ready(Value(), genesis) && Tracked()
      ensures stored.None? ==> (Value(), code) == Adopt(old(Value()), genesis, prev)
      ensures stored.Some? ==> Stored(hashes, stored.value) && |prevs| < |old(prevs)|
      ensures stored.Some? ==> Adopt(Value(), genesis, stored.value) == Adopt(old(Value()), genesis, prev)
    {
      hide Closed, Connected, Connect, Heaviest, Orphanage, Indexed, Released, Fresh;
      OrphansStored(Value(), genesis);
      StoredAttached(hashes, tip);
      if prev.hash in prevs {
        AdoptStep(Value(), genesis, prev, prevs[prev.hash]);
      }
      var hdr := ResolveOrphan(prev.hash);
      if hdr.None? {
        return Success, None;
      }
      assert hashes == old(hashes) && tip == old(tip);
      var header;
      code, header := Insert(hdr.value, prev);
      stored := if code == Success then Some(header) else None;
    }

    /** Connects whoever waits for a header that has just been connected. */
    method Resolve(header: Header) returns (code: Code)
      requires Ready(Value(), genesis) && Tracked() && Stored(hashes, header)
      modifies `hashes, `heights, `next, `height, `tip, `prevs, `orphans
      ensures (Value(), code) == Adopt(old(Value()), genesis, header)
      ensures Ready(Value(), genesis) && Tracked()
    {
      hide Closed, Connected, Heaviest, Orphanage, Indexed, Adopt;
      ghost var goal := Adopt(Value(), genesis, header);
      StoredAttached(hashes, tip);
      var prev := header;
      while true
        invariant Ready(Value(), genesis) && Attached(hashes, tip) && Tracked() && Stored(hashes, prev)
        invariant Adopt(Value(), genesis, prev) == goal
        decreases |prevs|
      {
        var stored;
        code, stored := ResolveNext(prev);
        StoredAttached(hashes, tip);
        if stored.None? {
          return;
        }
        prev := stored.value;
      }
    }

    method VerifyPow(hdr: Header) returns (code: Code)
      ensures code == if Target(hdr.bits).None? then NegTarget
                      else if BigEndian(hdr.hash) > Target(hdr.bits).value then HighHash else Success
    {
      hide BigEndian, Target;
      var target := new byte[32];
      var ok := PowToTarget(hdr.bits, target);
      if !ok {
        return NegTarget;
      }
      var r := Compare(hdr.hash, target[..]);
      return if r > 0 then HighHash else Success;
    }

    /** Keeps an orphan; too many of them are dropped first. */
    method Park(h: Header)
      requires Valid() && h.hash !in hashes && h.hash !in orphans && h.hash != genesis.prev && h.prev !in hashes && Worked(h)
      modifies `prevs, `orphans
      ensures Value() == Waiting(old(Value()), h) && Valid()
    {
      hide Closed, Sound, Indexed;
      WaitingKeeps(Value(), genesis, h);
      if |orphans| > MAX_ORPHANS {
        prevs := map[];
        orphans := map[];
      }
      orphans := orphans[h.hash := h];
      prevs := prevs[h.prev := h];
      assert Value() == Waiting(old(Value()), h);
    }

    /** Connects a header whose parent is stored, and whoever waited for it. */
    method Extend(h: Header) returns (code: Code)
      requires Valid() && h.hash != genesis.prev && Worked(h)
      requires h.hash !in hashes && h.hash !in orphans && h.prev in hashes
      modifies `hashes, `heights, `next, `height, `tip, `prevs, `orphans
      ensures (Value(), code) == Accept(old(Value()), genesis, h) && Valid()
    {
      hide Closed, Connected, Connect, Heaviest, Orphanage, Indexed, Adopt;
      AcceptKeeps(Value(), genesis, h);
      var prev := hashes[h.prev];
      SoundFresh(Value(), genesis, prev, h);
      ConnectKeeps(Value(), genesis, prev, h);
      var stored;
      code, stored := Insert(h, prev);
      if code != Success {
        return;
      }
      code := Resolve(stored);
    }

    /** Submits a header at the time `now`. */
    method Add(h: Header, now: nat) returns (code: Code)
      requires Valid() && h.hash != genesis.prev
      modifies this
      ensures (Value(), code) == Submit(old(Value()), genesis, h, now)
      ensures Valid()
    {
      hide Sound, Ready, Tree, Tracked, Accept, Target, BigEndian;
      ghost var v := Value();
      SubmitKeeps(v, genesis, h, now);
      if h.time > now + 2 * 60 * 60 {
        return TimeTooNew;
      }
      if h.hash in hashes {
        return Duplicate;
      }
      if h.hash in orphans {
        return DuplicateOrphan;
      }
      code := VerifyPow(h);
      if code != Success {
        return;
      }
      if h.prev !in hashes {
        Park(h);
        return Orphaned;
      }
      code := Extend(h);
    }

    /** The chain that holds only the genesis. */
    constructor (g: Header)
      requires g.height == 0 && g.hash != g.prev && Target(g.bits).Some?
      ensures Valid() && orphans == map[] && prevs == map[] && hashes == map[g.hash := tip] && genesis == tip
      ensures tip.Weight() == Proof(Target(g.bits).value)
    {
      hide Target, BigEndian, Proof, Sound, Indexed;
      var ok, work := CalcWork(g.bits, None);
      assert ok;
      var h := g.(work := work);
      Alone(h);
      hashes := map[h.hash := h];
      heights := map[h.height := h];
      orphans, prevs, next := map[], map[], map[];
      tip, genesis, height := h, h, h.height;
    }

    /** The name-tree root to resolve against, taken from the main chain. */
    method SafeRoot() returns (root: Hash)
      requires Valid()
      ensures root == At(hashes, tip, if height % 36 >= 12 then height else height / 36 * 36).root
    {
      hide Closed, Connected, Heaviest, Orphanage, At;
      var mod := height % 36;
      if mod >= 12 {
        mod := 0;
      }
      StoredAttached(hashes, tip);
      root := heights[height - mod].root;
    }
  }
}
