/**
 * The open-addressing hash table (src/map.c, src/map.h).
 *
 * Buckets are live, deleted (a tombstone) or vacant.  `at` records, for each key, the
 * bucket that holds it; the abstract value of a table is the finite map of its live buckets.
 */
module HashMap {
  import opened Bits
  import opened Bytes
  import opened Probing

  datatype Flag = Live | Deleted | Vacant

  /** Keys agree with their buckets, one bucket per key. */
  ghost predicate Located<K>(flags: seq<Flag>, keys: seq<K>, at: map<K, nat>) {
    && |flags| <= |keys|
    && (forall k :: k in at ==> at[k] < |flags| && flags[at[k]] == Live && keys[at[k]] == k)
    && (forall b :: 0 <= b < |flags| && flags[b] == Live ==> keys[b] in at && at[keys[b]] == b)
  }

  /** No vacant bucket comes before the bucket of k in the probe sequence of k. */
  ghost predicate Reachable(flags: seq<Flag>, h: nat, b: nat, e: nat)
    requires |flags| == Pow2(e) && b < Pow2(e)
  {
    forall s :: 0 <= s < Position(h, b, e) ==> flags[Probe(h, s, Pow2(e))] != Vacant
  }

  ghost predicate InOrder<K>(hash: K -> nat, flags: seq<Flag>, keys: seq<K>, at: map<K, nat>, e: nat) {
    && |flags| == Pow2(e)
    && Located(flags, keys, at)
    && forall k :: k in at ==> Reachable(flags, hash(k), at[k], e)
  }

  ghost function Contents<K, V>(vals: seq<V>, at: map<K, nat>): (m: map<K, V>)
  {
    map k | k in at && at[k] < |vals| :: vals[at[k]]
  }

  ghost function Occupied(flags: seq<Flag>): (n: nat)
    ensures n <= |flags|
    ensures n < |flags| ==> exists b :: 0 <= b < |flags| && flags[b] == Vacant
  {
    if flags == [] then 0
    else
      var n := Occupied(flags[..|flags| - 1]);
      if flags[|flags| - 1] == Vacant then n else n + 1
  }

  lemma {:induction false} OccupiedUpdate(flags: seq<Flag>, b: nat, f: Flag)
    requires b < |flags| && f != Vacant
    ensures Occupied(flags[b := f]) == Occupied(flags) + (if flags[b] == Vacant then 1 else 0)
  {
    var l := |flags| - 1;
    if b != l {
      OccupiedUpdate(flags[..l], b, f);
      assert flags[b := f][..l] == flags[..l][b := f];
    } else {
      assert flags[b := f][..l] == flags[..l];
    }
  }

  lemma {:induction false} OccupiedVacant(flags: seq<Flag>)
    requires forall b :: 0 <= b < |flags| ==> flags[b] == Vacant
    ensures Occupied(flags) == 0
  {
    if flags != [] { OccupiedVacant(flags[..|flags| - 1]); }
  }

  lemma LocatedPrefix<K>(flags: seq<Flag>, keys: seq<K>, at: map<K, nat>)
    requires Located(flags, keys, at) && flags != []
    ensures var l := |flags| - 1;
      if flags[l] == Live then
        keys[l] in at && Located(flags[..l], keys, at - {keys[l]}) && |at - {keys[l]}| == |at| - 1
      else
        Located(flags[..l], keys, at)
  {
    var l := |flags| - 1;
    if flags[l] == Live {
      assert (at - {keys[l]}).Keys == at.Keys - {keys[l]};
    }
  }

  /** There are at most as many keys as occupied buckets, and as many when nothing is deleted. */
  lemma {:induction false} KeysFit<K>(flags: seq<Flag>, keys: seq<K>, at: map<K, nat>)
    requires Located(flags, keys, at)
    ensures |at| <= Occupied(flags)
    ensures (forall b :: 0 <= b < |flags| ==> flags[b] != Deleted) ==> |at| == Occupied(flags)
    decreases |flags|
  {
    if flags == [] {
      assert at == map[];
    } else {
      var l := |flags| - 1;
      LocatedPrefix(flags, keys, at);
      hide Located;
      KeysFit(flags[..l], keys, if flags[l] == Live then at - {keys[l]} else at);
    }
  }

  // ----- Search

  /** A search that saw only mismatches and then a vacant bucket, or every bucket, rules the key out. */
  lemma SearchExhausted<K>(hash: K -> nat, flags: seq<Flag>, keys: seq<K>, at: map<K, nat>, e: nat, key: K, t: nat)
    requires InOrder(hash, flags, keys, at, e)
    requires forall s :: 0 <= s < t && s < Pow2(e) ==>
      var b := Probe(hash(key), s, Pow2(e)); flags[b] != Live || keys[b] != key
    requires t >= Pow2(e) || flags[Probe(hash(key), t, Pow2(e))] == Vacant
    ensures key !in at
  {
    assert key in at ==> Position(hash(key), at[key], e) < Pow2(e);
  }

  // ----- Updates of a table

  /** Filling the bucket that ends an unsuccessful search keeps the table in order. */
  lemma InsertKeepsTable<K>(hash: K -> nat, flags: seq<Flag>, keys: seq<K>, at: map<K, nat>, e: nat, key: K, t: nat)
    requires InOrder(hash, flags, keys, at, e) && key !in at && t < Pow2(e)
    requires flags[Probe(hash(key), t, Pow2(e))] != Live
    requires forall s :: 0 <= s < t ==> flags[Probe(hash(key), s, Pow2(e))] != Vacant
    ensures var x := Probe(hash(key), t, Pow2(e));
      InOrder(hash, flags[x := Live], keys[x := key], at[key := x], e)
  {
    var x := Probe(hash(key), t, Pow2(e));
    var f := flags[x := Live];
    PositionUnique(hash(key), t, e);
    forall k | k in at[key := x] ensures Reachable(f, hash(k), at[key := x][k], e) {
      if k != key { assert Reachable(flags, hash(k), at[k], e); }
    }
  }

  lemma DeleteKeepsTable<K>(hash: K -> nat, flags: seq<Flag>, keys: seq<K>, at: map<K, nat>, e: nat, key: K)
    requires InOrder(hash, flags, keys, at, e) && key in at
    ensures InOrder(hash, flags[at[key] := Deleted], keys, at - {key}, e)
  {
    var f := flags[at[key] := Deleted];
    forall k | k in at - {key} ensures Reachable(f, hash(k), at[k], e) {
      assert Reachable(flags, hash(k), at[k], e);
    }
  }

  // ----- Rehashing in place

  /**
   * The middle of a rehash: `was` are the keys still in old buckets, `now` the keys already
   * in new buckets.  Old and new buckets share the key and value arrays but never overlap.
   */
  ghost predicate Rehashing<K, V>(
    hash: K -> nat, old_: seq<Flag>, new_: seq<Flag>, keys: seq<K>, vals: seq<V>,
    was: map<K, nat>, now: map<K, nat>, e: nat, goal: map<K, V>)
  {
    && |old_| <= |keys| == |vals|
    && Located(old_, keys, was)
    && InOrder(hash, new_, keys, now, e)
    && (forall b :: 0 <= b < |new_| ==> new_[b] != Deleted)
    && (forall b :: 0 <= b < |old_| && b < |new_| ==> old_[b] != Live || new_[b] != Live)
    && (forall k :: k in was ==> k !in now)
    && (forall k :: k in was ==> k in goal && vals[was[k]] == goal[k])
    && (forall k :: k in now ==> k in goal && vals[now[k]] == goal[k])
  }

  /** Taking the entry of an old bucket in hand. */
  lemma TakeStep<K, V>(
    hash: K -> nat, old_: seq<Flag>, new_: seq<Flag>, keys: seq<K>, vals: seq<V>,
    was: map<K, nat>, now: map<K, nat>, e: nat, goal: map<K, V>, j: nat)
    requires Rehashing(hash, old_, new_, keys, vals, was, now, e, goal)
    requires j < |old_| && old_[j] == Live
    ensures keys[j] in was && was[keys[j]] == j && keys[j] !in now && keys[j] in goal && vals[j] == goal[keys[j]]
    ensures Rehashing(hash, old_[j := Deleted], new_, keys, vals, was - {keys[j]}, now, e, goal)
  {
  }

  /** Putting the entry in hand into a free new bucket that no old entry occupies. */
  lemma PlaceStep<K, V>(
    hash: K -> nat, old_: seq<Flag>, new_: seq<Flag>, keys: seq<K>, vals: seq<V>,
    was: map<K, nat>, now: map<K, nat>, e: nat, goal: map<K, V>, key: K, val: V, t: nat)
    requires Rehashing(hash, old_, new_, keys, vals, was, now, e, goal) && t < Pow2(e)
    requires key !in was && key !in now && key in goal && goal[key] == val
    requires forall s :: 0 <= s < t ==> new_[Probe(hash(key), s, Pow2(e))] != Vacant
    requires var i := Probe(hash(key), t, Pow2(e)); new_[i] == Vacant && (i < |old_| ==> old_[i] != Live)
    ensures var i := Probe(hash(key), t, Pow2(e));
      Rehashing(hash, old_, new_[i := Live], keys[i := key], vals[i := val], was, now[key := i], e, goal)
  {
    InsertKeepsTable(hash, new_, keys, now, e, key, t);
  }

  /** Fewer placed keys than new buckets leave a new bucket vacant. */
  lemma RoomLeft<K, V>(
    hash: K -> nat, old_: seq<Flag>, new_: seq<Flag>, keys: seq<K>, vals: seq<V>,
    was: map<K, nat>, now: map<K, nat>, e: nat, goal: map<K, V>, key: K) returns (b: nat)
    requires Rehashing(hash, old_, new_, keys, vals, was, now, e, goal)
    requires key in goal && key !in now && |goal| < |new_|
    ensures b < |new_| && new_[b] == Vacant
  {
    SmallerSet(now.Keys, goal.Keys, key);
    KeysFit(new_, keys, now);
    b :| 0 <= b < |new_| && new_[b] == Vacant;
  }

  /** The inner probe of a rehash: the first vacant bucket in the sequence of a hash. */
  method FindVacant(flags: array<Flag>, h: nat, ghost e: nat, ghost room: nat) returns (i: nat, ghost t: nat)
    requires flags.Length == Pow2(e) && room < flags.Length && flags[room] == Vacant
    ensures t < Pow2(e) && i == Probe(h, t, Pow2(e)) && flags[i] == Vacant
    ensures forall s :: 0 <= s < t ==> flags[Probe(h, s, Pow2(e))] != Vacant
  {
    ghost var last := Position(h, room, e);
    var step := 0;
    i := h % flags.Length;
    while flags[i] != Vacant
      invariant 0 <= step <= last && i == Probe(h, step, Pow2(e))
      invariant forall s :: 0 <= s < step ==> flags[Probe(h, s, Pow2(e))] != Vacant
      decreases last - step
    {
      ProbeStep(h, step, Pow2(e));
      step := step + 1;
      i := (i + step) % flags.Length;
    }
    t := step;
  }

  ghost predicate Apart<K, V>(flags: array<Flag>, newFlags: array<Flag>, keys: array<K>, vals: array<V>) {
    && flags != newFlags && keys as object !in {flags as object, newFlags as object}
    && vals as object !in {flags as object, newFlags as object, keys as object}
  }

  lemma Distinct<K, V>(flags: array<Flag>, newFlags: array<Flag>, keys: array<K>, vals: array<V>)
    requires flags != newFlags && keys as object != vals as object
    requires flags as object != keys as object && flags as object != vals as object
    requires newFlags as object != keys as object && newFlags as object != vals as object
    ensures Apart(flags, newFlags, keys, vals)
  {
  }

  /** Every entry is in one of the two tables. */
  ghost predicate AllPlaced<K, V>(was: map<K, nat>, now: map<K, nat>, goal: map<K, V>) {
    forall k :: k in goal ==> k in was || k in now
  }

  /** Every entry but the one in hand is in one of the two tables. */
  ghost predicate InHand<K, V>(was: map<K, nat>, now: map<K, nat>, key: K, val: V, goal: map<K, V>) {
    && key in goal && goal[key] == val && key !in was && key !in now
    && forall k :: k in goal ==> k in was || k in now || k == key
  }

  /**
   * One round of the kick-out loop: the entry in hand goes to the first vacant new bucket of
   * its sequence, and an old entry found in that bucket is taken in hand instead.
   */
  method KickOnce<K(==), V>(
    hash: K -> nat, flags: array<Flag>, newFlags: array<Flag>, keys: array<K>, vals: array<V>, key: K, val: V,
    ghost was: map<K, nat>, ghost now: map<K, nat>, ghost e: nat, ghost goal: map<K, V>)
    returns (done: bool, key': K, val': V, ghost was': map<K, nat>, ghost now': map<K, nat>)
    requires Apart(flags, newFlags, keys, vals)
    requires flags.Length <= keys.Length == vals.Length && newFlags.Length <= keys.Length
    requires Rehashing(hash, flags[..], newFlags[..], keys[..], vals[..], was, now, e, goal)
    requires InHand(was, now, key, val, goal)
    requires |goal| < newFlags.Length && newFlags.Length == Pow2(e)
    modifies flags, newFlags, keys, vals
    ensures Rehashing(hash, flags[..], newFlags[..], keys[..], vals[..], was', now', e, goal)
    ensures done ==> AllPlaced(was', now', goal)
    ensures !done ==> InHand(was', now', key', val', goal) && was'.Keys < was.Keys
    ensures forall b :: 0 <= b < flags.Length && old(flags[b]) != Live ==> flags[b] != Live
  {
    hide Rehashing, Probe;
    ghost var f, g, ks, vs := flags[..], newFlags[..], keys[..], vals[..];
    ghost var room := RoomLeft(hash, f, g, ks, vs, was, now, e, goal, key);
    var i, t := FindVacant(newFlags, hash(key), e, room);
    key', val', done, was' := key, val, true, was;
    if i < flags.Length && flags[i] == Live {
      key', val', done := keys[i], vals[i], false;
      TakeStep(hash, f, g, ks, vs, was, now, e, goal, i);
      flags[i] := Deleted;
      was' := was - {key'};
      f := f[i := Deleted];
    }
    PlaceStep(hash, f, g, ks, vs, was', now, e, goal, key, val, t);
    newFlags[i], keys[i], vals[i] := Live, key, val;
    now' := now[key := i];
    assert flags[..] == f && newFlags[..] == g[i := Live];
    assert keys[..] == ks[i := key] && vals[..] == vs[i := val];
  }

  /** The kick-out loop for the live old bucket j. */
  method KickOut<K(==), V>(
    hash: K -> nat, flags: array<Flag>, newFlags: array<Flag>, keys: array<K>, vals: array<V>, j: nat,
    ghost was: map<K, nat>, ghost now: map<K, nat>, ghost e: nat, ghost goal: map<K, V>)
    returns (ghost was': map<K, nat>, ghost now': map<K, nat>)
    requires Apart(flags, newFlags, keys, vals)
    requires flags.Length <= keys.Length == vals.Length && newFlags.Length <= keys.Length
    requires Rehashing(hash, flags[..], newFlags[..], keys[..], vals[..], was, now, e, goal)
    requires AllPlaced(was, now, goal) && |goal| < newFlags.Length && newFlags.Length == Pow2(e)
    requires j < flags.Length && flags[j] == Live
    modifies flags, newFlags, keys, vals
    ensures Rehashing(hash, flags[..], newFlags[..], keys[..], vals[..], was', now', e, goal)
    ensures AllPlaced(was', now', goal)
    ensures flags[j] != Live && forall b :: 0 <= b < flags.Length && old(flags[b]) != Live ==> flags[b] != Live
  {
    hide Rehashing;
    var key, val := keys[j], vals[j];
    ghost var f := flags[..];
    TakeStep(hash, f, newFlags[..], keys[..], vals[..], was, now, e, goal, j);
    flags[j] := Deleted;
    was', now' := was - {key}, now;
    assert flags[..] == f[j := Deleted];
    var done := false;
    while !done
      invariant Rehashing(hash, flags[..], newFlags[..], keys[..], vals[..], was', now', e, goal)
      invariant if done then AllPlaced(was', now', goal) else InHand(was', now', key, val, goal)
      invariant flags[j] != Live && forall b :: 0 <= b < flags.Length && old(flags[b]) != Live ==> flags[b] != Live
      decreases !done, was'.Keys
    {
      done, key, val, was', now' := KickOnce(hash, flags, newFlags, keys, vals, key, val, was', now', e, goal);
    }
  }

  lemma SmallerSet<T>(a: set<T>, b: set<T>, x: T)
    requires a <= b && x in b && x !in a
    ensures |a| < |b|
  {
    assert b == a + (b - a) && x in b - a;
  }

  method Realloc<T(0)>(a: array<T>, n: nat) returns (b: array<T>)
    ensures fresh(b) && b.Length == n && forall i :: 0 <= i < n && i < a.Length ==> b[i] == a[i]
  {
    b := new T[n];
    forall i | 0 <= i < n && i < a.Length {
      b[i] := a[i];
    }
  }

  lemma RehashStart<K, V>(
    hash: K -> nat, old_: seq<Flag>, new_: seq<Flag>, keys: seq<K>, vals: seq<V>, at: map<K, nat>, e: nat, goal: map<K, V>)
    requires |new_| == Pow2(e) <= |keys| == |vals| && |old_| <= |keys| && Located(old_, keys, at)
    requires forall b :: 0 <= b < |new_| ==> new_[b] == Vacant
    requires goal == Contents(vals, at)
    ensures Rehashing(hash, old_, new_, keys, vals, at, map[], e, goal) && AllPlaced(at, map[], goal)
    ensures |goal| == |at|
  {
    assert goal.Keys == at.Keys;
  }

  lemma RehashDone<K, V>(
    hash: K -> nat, old_: seq<Flag>, new_: seq<Flag>, keys: seq<K>, vals: seq<V>,
    was: map<K, nat>, now: map<K, nat>, e: nat, goal: map<K, V>)
    requires Rehashing(hash, old_, new_, keys, vals, was, now, e, goal) && AllPlaced(was, now, goal)
    requires forall b :: 0 <= b < |old_| ==> old_[b] != Live
    ensures InOrder(hash, new_, keys, now, e) && Contents(vals, now) == goal
    ensures |now| == |goal| == Occupied(new_)
    ensures forall b :: 0 <= b < |new_| ==> new_[b] != Deleted
  {
    KeysFit(new_, keys, now);
    assert now.Keys == goal.Keys;
  }

  /** The rehash proper, over key and value arrays large enough for the old and the new table. */
  method RehashAll<K(==), V>(
    hash: K -> nat, flags: array<Flag>, newFlags: array<Flag>, keys: array<K>, vals: array<V>,
    ghost at: map<K, nat>, ghost e: nat, ghost goal: map<K, V>) returns (ghost now: map<K, nat>)
    requires Apart(flags, newFlags, keys, vals)
    requires flags.Length <= keys.Length == vals.Length && newFlags.Length == Pow2(e) <= keys.Length
    requires Located(flags[..], keys[..], at) && goal == Contents(vals[..], at) && |at| < newFlags.Length
    requires forall b :: 0 <= b < newFlags.Length ==> newFlags[b] == Vacant
    modifies flags, newFlags, keys, vals
    ensures InOrder(hash, newFlags[..], keys[..], now, e)
    ensures Contents(vals[..], now) == goal
    ensures |now| == |at| == Occupied(newFlags[..])
    ensures forall b :: 0 <= b < newFlags.Length ==> newFlags[b] != Deleted
  {
    hide *;
    RehashStart(hash, flags[..], newFlags[..], keys[..], vals[..], at, e, goal);
    ghost var was := at;
    now := map[];
    for j := 0 to flags.Length
      invariant Rehashing(hash, flags[..], newFlags[..], keys[..], vals[..], was, now, e, goal)
      invariant AllPlaced(was, now, goal)
      invariant forall b :: 0 <= b < j ==> flags[b] != Live
    {
      if flags[j] == Live {
        was, now := KickOut(hash, flags, newFlags, keys, vals, j, was, now, e, goal);
      }
    }
    RehashDone(hash, flags[..], newFlags[..], keys[..], vals[..], was, now, e, goal);
  }

  /** Cutting off, or adding, array elements past every bucket in use. */
  lemma SameBuckets<K, V>(hash: K -> nat, flags: seq<Flag>, keys: seq<K>, keys': seq<K>, vals: seq<V>, vals': seq<V>, at: map<K, nat>, e: nat)
    requires InOrder(hash, flags, keys, at, e) && |flags| <= |keys'| && |flags| <= |vals| && |flags| <= |vals'|
    requires forall b :: 0 <= b < |flags| ==> keys[b] == keys'[b] && vals[b] == vals'[b]
    ensures InOrder(hash, flags, keys', at, e) && Contents(vals, at) == Contents(vals', at)
  {
  }

  /** The load limit, 77% of the buckets rounded to nearest. */
  function UpperBound(n: nat): nat {
    (77 * n + 50) / 100
  }

  /** The smallest power of two that is at least x and at least p. */
  function Grow(p: nat, x: nat, ghost e: nat): (r: nat)
    requires p == Pow2(e)
    ensures p <= r && x <= r && (r == p || r < 2 * x)
    ensures exists d :: d >= e && r == Pow2(d)
    decreases x - p
  {
    if p >= x then p else Grow(2 * p, x, e + 1)
  }

  function Capacity(x: nat): (r: nat)
    ensures 4 <= r && x <= r && (r == 4 || r < 2 * x)
    ensures exists d :: d >= 2 && r == Pow2(d)
  {
    Grow(4, x, 2)
  }

  lemma SameSizeFits(n: nat, size: nat)
    requires n > 2 * size
    ensures size < UpperBound(Capacity(n - 1))
  {
  }

  lemma GrowthFits(n: nat, size: nat)
    requires n % 2 == 0 && size <= UpperBound(n)
    ensures size < UpperBound(Capacity(n + 1))
  {
    var r := Capacity(n + 1);
    var d :| d >= 2 && r == Pow2(d);
    assert r == 2 * Pow2(d - 1);
    assert r >= n + 2;
  }

  /** The first vacant bucket on the path of hash h is its u-th. */
  ghost predicate FirstVacant(flags: seq<Flag>, h: nat, u: nat) {
    && u < |flags| && flags[Probe(h, u, |flags|)] == Vacant
    && forall s :: 0 <= s < u ==> flags[Probe(h, s, |flags|)] != Vacant
  }

  /** The t-th bucket on the path is the last tombstone before the first vacant bucket, or else that bucket. */
  ghost predicate Chosen(flags: seq<Flag>, h: nat, t: nat, u: nat) {
    && FirstVacant(flags, h, u) && t <= u
    && (t < u ==> flags[Probe(h, t, |flags|)] == Deleted)
    && (forall s :: 0 <= s < u && (t < s || t == u) ==> flags[Probe(h, s, |flags|)] != Deleted)
  }

  /** There is a tombstone before the first vacant bucket. */
  ghost predicate Grave(flags: seq<Flag>, h: nat) {
    exists s: nat, u: nat :: FirstVacant(flags, h, u) && s < u && flags[Probe(h, s, |flags|)] == Deleted
  }

  lemma ChosenGrave(flags: seq<Flag>, h: nat, t: nat, u: nat)
    requires Chosen(flags, h, t, u)
    ensures t < |flags| && flags[Probe(h, t, |flags|)] != Live
    ensures forall s :: 0 <= s < t ==> flags[Probe(h, s, |flags|)] != Vacant
    ensures Grave(flags, h) <==> flags[Probe(h, t, |flags|)] == Deleted
  {
    forall v | FirstVacant(flags, h, v) ensures v == u { }
  }

  /** The first `step` buckets on the path of a key are in use and do not hold it. */
  ghost predicate Passed<K>(flags: seq<Flag>, keys: seq<K>, h: nat, key: K, step: nat) {
    && |flags| == |keys| > 0
    && forall s :: 0 <= s < step ==>
      var b := Probe(h, s, |flags|); flags[b] != Vacant && (flags[b] != Live || keys[b] != key)
  }

  /** The t-th of them is the last tombstone, if there is any. */
  ghost predicate Latest(flags: seq<Flag>, h: nat, step: nat, any: bool, t: nat) {
    && |flags| > 0 && (any ==> t < step && flags[Probe(h, t, |flags|)] == Deleted)
    && forall s :: 0 <= s < step && (!any || t < s) ==> flags[Probe(h, s, |flags|)] != Deleted
  }

  lemma PassedStart<K>(flags: seq<Flag>, keys: seq<K>, h: nat, key: K)
    requires |flags| == |keys| > 0
    ensures Passed(flags, keys, h, key, 0) && Latest(flags, h, 0, false, 0)
  {
  }

  lemma PassedStep<K>(flags: seq<Flag>, keys: seq<K>, h: nat, key: K, step: nat, any: bool, t: nat)
    requires Passed(flags, keys, h, key, step) && Latest(flags, h, step, any, t)
    requires var b := Probe(h, step, |flags|); flags[b] != Vacant && (flags[b] == Deleted || keys[b] != key)
    ensures Passed(flags, keys, h, key, step + 1)
    ensures if flags[Probe(h, step, |flags|)] == Deleted then Latest(flags, h, step + 1, true, step)
            else Latest(flags, h, step + 1, any, t)
  {
  }

  lemma PassedAll<K>(hash: K -> nat, flags: seq<Flag>, keys: seq<K>, at: map<K, nat>, e: nat, key: K, step: nat, any: bool, t: nat)
    requires InOrder(hash, flags, keys, at, e) && |flags| == |keys| == Pow2(e) && step < |flags|
    requires Passed(flags, keys, hash(key), key, step) && Latest(flags, hash(key), step, any, t)
    requires flags[Probe(hash(key), step, |flags|)] == Vacant
    ensures key !in at && Chosen(flags, hash(key), if any then t else step, step)
  {
    SearchExhausted(hash, flags, keys, at, e, key, step);
  }

  lemma NoGrave(flags: seq<Flag>, h: nat)
    requires forall b :: 0 <= b < |flags| ==> flags[b] != Deleted
    ensures !Grave(flags, h)
  {
  }

  class HashTable<K(==, 0), V(0)> {
    const hash: K -> nat
    var nBuckets: nat
    var size: nat
    var nOccupied: nat
    var upperBound: nat
    var flags: array<Flag>
    var keys: array<K>
    var vals: array<V>
    ghost var at: map<K, nat>
    ghost var e: nat

    ghost predicate Valid()
      reads this, flags, keys, vals
    {
      && flags as object != keys as object && flags as object != vals as object && keys as object != vals as object
      && flags.Length == keys.Length == vals.Length == nBuckets
      && size == |at| && nOccupied == Occupied(flags[..]) && size <= nOccupied <= upperBound
      && upperBound == UpperBound(nBuckets)
      && (if nBuckets == 0 then at == map[]
          else nBuckets == Pow2(e) && 2 <= e && InOrder(hash, flags[..], keys[..], at, e))
    }

    ghost function Value(): map<K, V>
      requires Valid()
      reads this, flags, keys, vals
    {
      Contents(vals[..], at)
    }

    constructor (hash: K -> nat)
      ensures Valid() && Value() == map[] && this.hash == hash
      ensures fresh(flags) && fresh(keys) && fresh(vals)
    {
      this.hash := hash;
      nBuckets, size, nOccupied, upperBound, at, e := 0, 0, 0, 0, map[], 0;
      flags, keys, vals := new Flag[0], new K[0], new V[0];
      new;
      assert flags[..] == [];
    }

    /** The bucket of a key, or the number of buckets. */
    method Lookup(key: K) returns (x: nat)
      requires Valid()
      ensures x == if key in at then at[key] else nBuckets
    {
      hide Occupied, Reachable, UpperBound;
      if nBuckets == 0 {
        return 0;
      }
      var step, h := 0, hash(key);
      var i := h % nBuckets;
      var last := i;
      while flags[i] != Vacant && (flags[i] == Deleted || keys[i] != key)
        invariant 0 <= step < 2 * nBuckets && i == Probe(h, step, nBuckets)
        invariant forall s :: 0 <= s < step ==> var b := Probe(h, s, nBuckets); flags[b] != Live || keys[b] != key
        invariant step == 2 * nBuckets - 1 ==> i == last
        invariant step > 0 ==> i != last
        decreases 2 * nBuckets - step
      {
        ProbeStep(h, step, nBuckets);
        step := step + 1;
        i := (i + step) % nBuckets;
        ProbeReturns(h, step, e);
        if i == last {
          SearchExhausted(hash, flags[..], keys[..], at, e, key, step);
          return nBuckets;
        }
      }
      if flags[i] != Live {
        SearchExhausted(hash, flags[..], keys[..], at, e, key, step);
        return nBuckets;
      }
      return i;
    }

    /** Key and value arrays with room for n buckets. */
    method Enlarged(n: nat) returns (ks: array<K>, vs: array<V>)
      requires Valid()
      ensures Located(flags[..], ks[..], at) && Contents(vs[..], at) == Value()
      ensures size == |at| && flags.Length == nBuckets
      ensures ks == keys || fresh(ks)
      ensures vs == vals || fresh(vs)
      ensures ks.Length == vs.Length == (if nBuckets < n then n else nBuckets)
      ensures flags as object != ks as object && flags as object != vs as object && ks as object != vs as object
    {
      hide Occupied, UpperBound;
      ks, vs := keys, vals;
      if nBuckets < n {
        ks := Realloc(keys, n);
        vs := Realloc(vals, n);
      }
      if nBuckets == 0 {
        assert flags[..] == [];
      } else {
        SameBuckets(hash, flags[..], keys[..], ks[..], vals[..], vs[..], at, e);
      }
    }

    /** Switching to the new arrays. */
    method Install(n: nat, newFlags: array<Flag>, newKeys: array<K>, newVals: array<V>, ghost now: map<K, nat>, ghost d: nat)
      requires 2 <= d && n == Pow2(d) && size < UpperBound(n)
      requires newFlags.Length == newKeys.Length == newVals.Length == n
      requires newFlags as object != newKeys as object && newFlags as object != newVals as object
      requires newKeys as object != newVals as object
      requires InOrder(hash, newFlags[..], newKeys[..], now, d) && size == |now| == Occupied(newFlags[..])
      modifies this
      ensures Valid() && Value() == Contents(newVals[..], now)
      ensures flags == newFlags && keys == newKeys && vals == newVals
      ensures nBuckets == n && nOccupied == size == old(size) && upperBound == UpperBound(n)
    {
      hide Occupied, UpperBound, Located, Contents;
      flags, keys, vals, at, e := newFlags, newKeys, newVals, now, d;
      nBuckets, nOccupied, upperBound := n, size, UpperBound(n);
    }

    method RehashTo(n: nat, ghost d: nat)
      requires Valid() && 2 <= d && n == Pow2(d) && size < UpperBound(n) < n
      modifies this, flags, keys, vals
      ensures Valid() && Value() == old(Value()) && size == old(size)
      ensures nBuckets == n && nOccupied == size && upperBound == UpperBound(n)
      ensures forall b :: 0 <= b < n ==> flags[b] != Deleted
      ensures fresh(flags) && (keys == old(keys) || fresh(keys)) && (vals == old(vals) || fresh(vals))
    {
      hide *;
      var newKeys, newVals := Enlarged(n);
      var newFlags := new Flag[n](_ => Vacant);
      Distinct(flags, newFlags, newKeys, newVals);
      ghost var now := RehashAll(hash, flags, newFlags, newKeys, newVals, at, d, Value());
      if n < nBuckets {
        ghost var ks, vs := newKeys[..], newVals[..];
        newKeys := Realloc(newKeys, n);
        newVals := Realloc(newVals, n);
        SameBuckets(hash, newFlags[..], ks, newKeys[..], vs, newVals[..], now, d);
      }
      Install(n, newFlags, newKeys, newVals, now, d);
    }

    /**
     * Rehash in place into Capacity(requested) buckets, growing, shrinking or at the same size;
     * a request the entries do not fit in changes nothing.
     */
    method Resize(requested: nat)
      requires Valid()
      modifies this, flags, keys, vals
      ensures Valid() && Value() == old(Value()) && size == old(size)
      ensures var n := Capacity(requested);
        if old(size) < UpperBound(n) then
          nBuckets == n && nOccupied == size && (forall b :: 0 <= b < n ==> flags[b] != Deleted)
        else
          nBuckets == old(nBuckets) && nOccupied == old(nOccupied)
      ensures upperBound == UpperBound(nBuckets)
      ensures flags == old(flags) || fresh(flags)
      ensures keys == old(keys) || fresh(keys)
      ensures vals == old(vals) || fresh(vals)
    {
      var n := Capacity(requested);
      ghost var d :| d >= 2 && n == Pow2(d);
      assert UpperBound(n) < n && upperBound == UpperBound(nBuckets);
      hide *;
      if size < UpperBound(n) {
        RehashTo(n, d);
      }
    }

    lemma Load()
      requires Valid()
      ensures size <= nOccupied <= upperBound == UpperBound(nBuckets) && nBuckets % 2 == 0
      ensures flags.Length == nBuckets
    {
      hide Occupied, InOrder, UpperBound;
    }

    lemma Room() returns (b: nat)
      requires Valid() && nOccupied < upperBound
      ensures b < flags.Length && flags[b] == Vacant
    {
      hide InOrder;
      assert flags[..][..] == flags[..];
      var c :| 0 <= c < nBuckets && flags[..][c] == Vacant;
      b := c;
    }

    lemma SameKeys(key: K)
      requires Valid()
      ensures key in at <==> key in Value()
    {
      hide Occupied, UpperBound, Reachable;
    }

    /**
     * Where a key goes: its own bucket if it is present; otherwise the last tombstone on its
     * path before the first vacant bucket, or that bucket if there is none.
     */
    method FindSite(key: K) returns (x: nat, ghost t: nat, ghost u: nat)
      requires Valid() && nOccupied < upperBound
      ensures nBuckets != 0 && x < nBuckets == flags.Length == keys.Length
      ensures key in at <==> flags[x] == Live
      ensures key in at ==> x == at[key]
      ensures key !in at ==> t < nBuckets && x == Probe(hash(key), t, nBuckets)
      ensures key !in at ==> Chosen(flags[..], hash(key), t, u)
    {
      ghost var room := Room();
      hide Reachable, Occupied, UpperBound, Passed, Latest, Chosen;
      ghost var f, ks := flags[..], keys[..];
      ghost var end := Position(hash(key), room, e);
      var h, step := hash(key), 0;
      var site: nat := nBuckets;
      var i := h % nBuckets;
      x, t, u := nBuckets, 0, 0;
      PassedStart(f, ks, h, key);
      if flags[i] == Vacant {
        PassedAll(hash, f, ks, at, e, key, 0, false, 0);
        return i, 0, 0;
      }
      var last := i;
      while flags[i] != Vacant && (flags[i] == Deleted || keys[i] != key)
        invariant 0 <= step <= end && i == Probe(h, step, nBuckets) && x == nBuckets
        invariant Passed(f, ks, h, key, step) && Latest(f, h, step, site != nBuckets, t)
        invariant site == nBuckets || (t < step && site == Probe(h, t, nBuckets))
        decreases end - step
      {
        PassedStep(f, ks, h, key, step, site != nBuckets, t);
        if flags[i] == Deleted {
          site, t := i, step;
        }
        ProbeStep(h, step, nBuckets);
        step := step + 1;
        i := (i + step) % nBuckets;
        ProbeReturns(h, step, e);
        if i == last {
          x := site;
          break;
        }
      }
      u := step;
      if flags[i] == Vacant {
        PassedAll(hash, f, ks, at, e, key, step, site != nBuckets, t);
      }
      if x == nBuckets {
        if flags[i] == Vacant && site != nBuckets {
          x := site;
        } else {
          x, t := i, step;
        }
      }
    }

    /** Making room: clear tombstones while under half of the buckets are live, else grow. */
    method Reserve()
      requires Valid()
      modifies this, flags, keys, vals
      ensures Valid() && Value() == old(Value()) && nOccupied < upperBound
      ensures if old(nOccupied < upperBound) then flags == old(flags) && flags[..] == old(flags[..])
              else forall b :: 0 <= b < flags.Length ==> flags[b] != Deleted
      ensures flags == old(flags) || fresh(flags)
      ensures keys == old(keys) || fresh(keys)
      ensures vals == old(vals) || fresh(vals)
    {
      hide *;
      Load();
      if nOccupied >= upperBound {
        if nBuckets > 2 * size {
          SameSizeFits(nBuckets, size);
          Resize(nBuckets - 1);
        } else {
          GrowthFits(nBuckets, size);
          Resize(nBuckets + 1);
        }
        Load();
      }
    }

    /** A new entry in the bucket that FindSite chose. */
    method Fill(key: K, x: nat, ghost t: nat) returns (ret: int)
      requires Valid() && nOccupied < upperBound && nBuckets != 0 && key !in at
      requires t < nBuckets && x == Probe(hash(key), t, nBuckets) && x < flags.Length && flags[x] != Live
      requires forall s :: 0 <= s < t ==> flags[..][Probe(hash(key), s, nBuckets)] != Vacant
      modifies this, flags, keys
      ensures Valid() && nBuckets == old(nBuckets) && key in at && at[key] == x && x < vals.Length
      ensures Value() == old(Value())[key := vals[x]]
      ensures flags == old(flags) && keys == old(keys) && vals == old(vals)
      ensures ret == if old(flags[x]) == Vacant then 1 else 2
    {
      hide Occupied, UpperBound, Reachable, Located, Probe;
      ghost var f, ks := flags[..], keys[..];
      InsertKeepsTable(hash, f, ks, at, e, key, t);
      OccupiedUpdate(f, x, Live);
      if flags[x] == Vacant {
        nOccupied := nOccupied + 1;
        ret := 1;
      } else {
        ret := 2;
      }
      keys[x], flags[x] := key, Live;
      size := size + 1;
      at := at[key := x];
      assert flags[..] == f[x := Live] && keys[..] == ks[x := key];
      KeysFit(flags[..], keys[..], at);
    }

    /** The key of a live bucket replaced by an equal one. */
    method Refresh(key: K, x: nat)
      requires Valid() && key in at && at[key] == x && x < keys.Length
      modifies keys
      ensures Valid() && Value() == old(Value()) && x < vals.Length && key in Value() && Value()[key] == vals[x]
    {
      hide Occupied, UpperBound, Reachable;
      ghost var ks := keys[..];
      keys[x] := key;
      assert keys[..] == ks;
    }

    /**
     * The bucket for a key, made live.  The code is 0 for a key that was present, 2 for a
     * new key that takes a tombstone, which happens when there is one before the first vacant
     * bucket of its path and the table need not be rehashed first, and 1 for any other.
     */
    method Put(key: K) returns (x: nat, ret: int)
      requires Valid()
      modifies this, flags, keys, vals
      ensures Valid() && x < vals.Length && key in at && at[key] == x
      ensures Value() == old(Value())[key := vals[x]]
      ensures ret in {0, 1, 2} && (ret == 0 <==> key in old(Value()))
      ensures ret == 0 ==> Value() == old(Value())
      ensures ret == 2 <==> key !in old(Value()) && old(nOccupied < upperBound && Grave(flags[..], hash(key)))
      ensures flags == old(flags) || fresh(flags)
      ensures keys == old(keys) || fresh(keys)
      ensures vals == old(vals) || fresh(vals)
    {
      hide *;
      Reserve();
      ghost var f, h := flags[..], hash(key);
      if old(nOccupied >= upperBound) {
        NoGrave(f, h);
      }
      ghost var t, u;
      x, t, u := FindSite(key);
      SameKeys(key);
      if flags[x] == Live {
        Refresh(key, x);
        ret := 0;
      } else {
        ChosenGrave(f, h, t, u);
        ret := Fill(key, x, t);
      }
    }

    method Set(key: K, value: V)
      requires Valid()
      modifies this, flags, keys, vals
      ensures Valid() && Value() == old(Value())[key := value]
      ensures flags == old(flags) || fresh(flags)
      ensures keys == old(keys) || fresh(keys)
      ensures vals == old(vals) || fresh(vals)
    {
      hide *;
      var x, ret := Put(key);
      Store(key, x, value);
    }

    /** A value written to the bucket of a key. */
    method Store(key: K, x: nat, value: V)
      requires Valid() && key in at && at[key] == x && x < vals.Length
      modifies vals
      ensures Valid() && Value() == old(Value())[key := value]
    {
      hide Occupied, UpperBound, Reachable;
      vals[x] := value;
    }

    method Get(key: K) returns (r: Option<V>)
      requires Valid()
      ensures r == if key in Value() then Some(Value()[key]) else None
    {
      hide Occupied, UpperBound, Reachable;
      var k := Lookup(key);
      if k == nBuckets || flags[k] != Live {
        return None;
      }
      return Some(vals[k]);
    }

    method Has(key: K) returns (r: bool)
      requires Valid()
      ensures r <==> key in Value()
    {
      hide Occupied, UpperBound, Reachable;
      var k := Lookup(key);
      if k == nBuckets || flags[k] != Live {
        return false;
      }
      return true;
    }

    /** A tombstone put on a live bucket. */
    method Bury(x: nat)
      requires Valid() && x < flags.Length == keys.Length && flags[x] == Live
      modifies this, flags
      ensures Valid() && flags == old(flags) && keys == old(keys) && vals == old(vals)
      ensures at == old(at) - {keys[x]}
    {
      hide Occupied, UpperBound, Reachable, Contents;
      ghost var key, f := keys[x], flags[..];
      DeleteKeepsTable(hash, f, keys[..], at, e, key);
      OccupiedUpdate(f, x, Deleted);
      assert |(at - {key}).Keys| == |at.Keys| - 1 by { assert (at - {key}).Keys == at.Keys - {key}; }
      flags[x] := Deleted;
      size := size - 1;
      at := at - {key};
      assert flags[..] == f[x := Deleted];
    }

    method Delete(x: nat)
      requires Valid() && x <= nBuckets
      modifies this, flags
      ensures Valid() && flags == old(flags) && keys == old(keys) && vals == old(vals)
      ensures Value() == old(if x < nBuckets && flags[x] == Live then Value() - {keys[x]} else Value())
    {
      hide Occupied, UpperBound, InOrder;
      if x != nBuckets && flags[x] == Live {
        Bury(x);
      }
    }

    method Del(key: K) returns (r: bool)
      requires Valid()
      modifies this, flags
      ensures Valid() && flags == old(flags) && keys == old(keys) && vals == old(vals)
      ensures r <==> key in old(Value())
      ensures Value() == old(Value()) - {key}
    {
      var k := Lookup(key);
      hide Occupied, UpperBound, Reachable;
      if k == nBuckets || flags[k] != Live {
        return false;
      }
      Delete(k);
      return true;
    }

    method Reset()
      requires Valid()
      modifies this, flags
      ensures Valid() && Value() == map[] && nBuckets == old(nBuckets) && nOccupied == 0
      ensures flags == old(flags) && keys == old(keys) && vals == old(vals)
    {
      hide UpperBound, Occupied;
      forall b | 0 <= b < nBuckets {
        flags[b] := Vacant;
      }
      OccupiedVacant(flags[..]);
      size, nOccupied, at := 0, 0, map[];
    }
  }
}
