/** Names written through one compression map, by their labels (src/dns.c). */
module DnsCompress {
  import opened Bytes
  import opened DnsName

  /** Where the suffixes written so far stand; zero counts as nowhere. */
  type Offsets = map<Bytes, nat>

  function Lookup(cmp: Offsets, key: Bytes): nat {
    if key in cmp then cmp[key] else 0
  }

  /** cmp with a suffix that starts at o, if a pointer can reach it. */
  function Noted(cmp: Offsets, key: Bytes, o: nat): Offsets {
    if o < MAX_OFFSET then cmp[key := o] else cmp
  }

  function Pointer(p: nat): (s: Bytes)
    requires p < MAX_OFFSET
    ensures |s| == 2
  {
    [0xc0 + p / 256, p % 256]
  }

  function LabelBytes(l: Bytes): Bytes
    requires |l| < 256
  {
    [|l|] + WireOf(l)
  }

  predicate Small(cmp: Offsets) {
    forall k :: k in cmp ==> cmp[k] < MAX_OFFSET
  }

  /** The message with a name at its end, and the map with its new suffixes. */
  function Emit(m: Bytes, cmp: Offsets, ls: seq<Bytes>): (r: (Bytes, Offsets))
    requires Labels(ls) && Small(cmp)
    ensures Small(r.1) && |m| <= |r.0| && r.0[..|m|] == m
    decreases |ls|
  {
    if ls == [] then (m + [0], cmp)
    else
      var p := Lookup(cmp, Dotted(ls));
      if p != 0 then (m + Pointer(p), cmp)
      else Emit(m + LabelBytes(ls[0]), Noted(cmp, Dotted(ls), |m|), ls[1..])
  }

  /** The octets of a name without compression. */
  function Plain(ls: seq<Bytes>): Bytes
    requires Labels(ls)
  {
    if ls == [] then [0] else LabelBytes(ls[0]) + Plain(ls[1..])
  }

  lemma {:induction false} PlainSize(ls: seq<Bytes>)
    requires Labels(ls)
    ensures |Plain(ls)| == |Dotted(ls)| + 1
  {
    if ls != [] { PlainSize(ls[1..]); }
  }

  /** Compression never makes a name longer. */
  lemma {:induction false} EmitSize(m: Bytes, cmp: Offsets, ls: seq<Bytes>)
    requires Labels(ls) && Small(cmp)
    ensures |m| < |Emit(m, cmp, ls).0| <= |m| + |Plain(ls)|
    decreases |ls|
  {
    hide Lookup, Noted, Small;
    if ls != [] {
      PlainSize(ls[1..]);
      if Lookup(cmp, Dotted(ls)) == 0 {
        NotedSmall(cmp, Dotted(ls), |m|);
        EmitSize(m + LabelBytes(ls[0]), Noted(cmp, Dotted(ls), |m|), ls[1..]);
      }
    }
  }

  lemma NotedSmall(cmp: Offsets, key: Bytes, o: nat)
    requires Small(cmp)
    ensures Small(Noted(cmp, key, o))
  {
  }

  // ----- What the map knows

  /** Zero or more labels, each with its dot. */
  ghost predicate IsDotted(s: Bytes) {
    exists ls :: Labels(ls) && s == Dotted(ls)
  }

  lemma DottedIs(ls: seq<Bytes>)
    requires Labels(ls)
    ensures IsDotted(Dotted(ls))
  {
  }

  ghost predicate KnownAs(m: Bytes, key: Bytes, o: nat, ls: seq<Bytes>, d: nat) {
    Labels(ls) && ls != [] && Dotted(ls) == key && Spells(m, o, WireLabels(ls), d)
  }

  ghost predicate Known(m: Bytes, key: Bytes, o: nat) {
    exists ls, d :: KnownAs(m, key, o, ls, d)
  }

  /** Every entry for labels of at most n octets leads to a place that spells them; other texts do not matter. */
  ghost predicate SoundTo(m: Bytes, cmp: Offsets, n: nat) {
    forall k :: k in cmp && cmp[k] != 0 && |k| <= n && IsDotted(k) ==> Known(m, k, cmp[k])
  }

  /** The two maps hold the same for texts longer than n. */
  ghost predicate SameAbove(a: Offsets, b: Offsets, n: nat) {
    forall k :: |k| > n ==> (k in a <==> k in b) && (k in b ==> a[k] == b[k])
  }

  lemma KnownGrows(m: Bytes, x: Bytes, key: Bytes, o: nat)
    requires Known(m, key, o)
    ensures Known(m + x, key, o)
  {
    var ls, d :| KnownAs(m, key, o, ls, d);
    SpellsGrows(m, x, o, WireLabels(ls), d);
    assert KnownAs(m + x, key, o, ls, d);
  }

  lemma SoundGrows(m: Bytes, x: Bytes, cmp: Offsets, n: nat)
    requires SoundTo(m, cmp, n)
    ensures SoundTo(m + x, cmp, n)
  {
    hide Known, IsDotted;
    forall k | k in cmp && cmp[k] != 0 && |k| <= n && IsDotted(k) ensures Known(m + x, k, cmp[k]) {
      KnownGrows(m, x, k, cmp[k]);
    }
  }

  lemma SpellsEnd(m: Bytes)
    ensures Spells(m + [0], |m|, [], 0)
  {
  }

  lemma SpellsPointer(m: Bytes, p: nat, labels: seq<Bytes>, d: nat)
    requires p < MAX_OFFSET && Spells(m, p, labels, d)
    ensures Spells(m + Pointer(p), |m|, labels, d + 1)
  {
    SpellsGrows(m, Pointer(p), p, labels, d);
    var n := m + Pointer(p);
    assert n[|m|] == 0xc0 + p / 256 && n[|m| + 1] == p % 256;
    assert (n[|m|] as int - 0xc0) * 256 + n[|m| + 1] as int == p;
  }

  lemma SpellsLabel(n: Bytes, m: Bytes, ls: seq<Bytes>, d: nat)
    requires Labels(ls) && ls != [] && m + LabelBytes(ls[0]) <= n
    requires Spells(n, |m| + 1 + |ls[0]|, WireLabels(ls[1..]), d)
    ensures Spells(n, |m|, WireLabels(ls), d)
  {
    var c := |ls[0]|;
    var k := m + LabelBytes(ls[0]);
    assert n[|m|] == k[|m|] == c;
    assert n[|m| + 1..|m| + 1 + c] == k[|m| + 1..] == WireOf(ls[0]);
    assert WireLabels(ls)[0] == WireOf(ls[0]) && WireLabels(ls)[1..] == WireLabels(ls[1..]);
  }

  /** A written name is spelled where it was written, and so is every suffix the map holds of it. */
  lemma {:induction false} EmitSpells(m: Bytes, cmp: Offsets, ls: seq<Bytes>) returns (d: nat)
    requires Labels(ls) && Small(cmp) && SoundTo(m, cmp, |Dotted(ls)|)
    ensures var r := Emit(m, cmp, ls);
      && Spells(r.0, |m|, WireLabels(ls), d) && SoundTo(r.0, r.1, |Dotted(ls)|)
      && SameAbove(r.1, cmp, |Dotted(ls)|)
    decreases |ls|
  {
    hide Spells, Known, LabelBytes, IsDotted;
    if ls == [] {
      SpellsEnd(m);
      SoundGrows(m, [0], cmp, 0);
      d := 0;
    } else {
      var key := Dotted(ls);
      var p := Lookup(cmp, key);
      if p != 0 {
        DottedIs(ls);
        d := KnownDepth(m, key, p, ls);
        SpellsPointer(m, p, WireLabels(ls), d);
        SoundGrows(m, Pointer(p), cmp, |key|);
        d := d + 1;
      } else {
        d := EmitLabel(m, cmp, ls);
      }
    }
  }

  /** The entry for a text spells the labels of that text. */
  lemma KnownDepth(m: Bytes, key: Bytes, o: nat, ls: seq<Bytes>) returns (d: nat)
    requires Labels(ls) && key == Dotted(ls) && Known(m, key, o)
    ensures Spells(m, o, WireLabels(ls), d)
  {
    var xs, n :| KnownAs(m, key, o, xs, n);
    DottedInjective(xs, ls);
    d := n;
  }

  lemma EmitLabel(m: Bytes, cmp: Offsets, ls: seq<Bytes>) returns (d: nat)
    requires Labels(ls) && ls != [] && Small(cmp) && SoundTo(m, cmp, |Dotted(ls)|) && Lookup(cmp, Dotted(ls)) == 0
    ensures var r := Emit(m, cmp, ls);
      && Spells(r.0, |m|, WireLabels(ls), d) && SoundTo(r.0, r.1, |Dotted(ls)|)
      && SameAbove(r.1, cmp, |Dotted(ls)|)
    decreases |ls|, 0
  {
    hide Spells, Known, LabelBytes, SoundTo, SameAbove, Noted, IsDotted;
    NotedSmall(cmp, Dotted(ls), |m|);
    var key, n, noted := Dotted(ls), m + LabelBytes(ls[0]), Noted(cmp, Dotted(ls), |m|);
    SoundGrows(m, LabelBytes(ls[0]), cmp, |key|);
    SoundShorter(n, cmp, key, |m|, |Dotted(ls[1..])|);
    d := EmitSpells(n, noted, ls[1..]);
    var r := Emit(n, noted, ls[1..]);
    LabelSize(ls[0]);
    SpellsLabel(r.0, m, ls, d);
    NowKnown(r.0, key, |m|, ls, d);
    var x := r.0[|n|..];
    assert r.0 == n + x;
    SoundJoin(n, x, cmp, r.1, key, |m|, |Dotted(ls[1..])|);
    SameLonger(r.1, cmp, key, |m|, |Dotted(ls[1..])|);
  }

  lemma SameLonger(after: Offsets, cmp: Offsets, key: Bytes, o: nat, size: nat)
    requires SameAbove(after, Noted(cmp, key, o), size) && size < |key|
    ensures SameAbove(after, cmp, |key|)
  {
  }

  lemma SoundShorter(n: Bytes, cmp: Offsets, key: Bytes, o: nat, size: nat)
    requires SoundTo(n, cmp, |key|) && size < |key|
    ensures SoundTo(n, Noted(cmp, key, o), size)
  {
  }

  /** The new entry is known, the shorter ones are, and the others were. */
  lemma SoundJoin(n: Bytes, x: Bytes, cmp: Offsets, after: Offsets, key: Bytes, o: nat, size: nat)
    requires SoundTo(n, cmp, |key|) && SoundTo(n + x, after, size) && Known(n + x, key, o)
    requires SameAbove(after, Noted(cmp, key, o), size)
    ensures SoundTo(n + x, after, |key|)
  {
    hide Known, IsDotted;
    forall k | k in after && after[k] != 0 && |k| <= |key| && IsDotted(k) ensures Known(n + x, k, after[k]) {
      if |k| > size && (k != key || o >= MAX_OFFSET) {
        KnownGrows(n, x, k, cmp[k]);
      }
    }
  }

  lemma LabelSize(l: Bytes)
    requires |l| < 256
    ensures |LabelBytes(l)| == 1 + |l|
  {
  }

  lemma NowKnown(m: Bytes, key: Bytes, o: nat, ls: seq<Bytes>, d: nat)
    requires Labels(ls) && ls != [] && Dotted(ls) == key && Spells(m, o, WireLabels(ls), d)
    ensures Known(m, key, o)
  {
    assert KnownAs(m, key, o, ls, d);
  }

  /** A name ends where the message ended after it was written. */
  lemma {:induction false} EmitExtent(m: Bytes, cmp: Offsets, ls: seq<Bytes>, x: Bytes)
    requires Labels(ls) && Small(cmp)
    ensures Extent(Emit(m, cmp, ls).0 + x, |m|) == |Emit(m, cmp, ls).0|
    decreases |ls|
  {
    hide Lookup, Noted, Small;
    var r := Emit(m, cmp, ls).0 + x;
    if ls == [] {
      assert r[|m|] == 0;
    } else if Lookup(cmp, Dotted(ls)) != 0 {
      assert r[|m|] as int == 0xc0 + Lookup(cmp, Dotted(ls)) / 256;
    } else {
      NotedSmall(cmp, Dotted(ls), |m|);
      var n := m + LabelBytes(ls[0]);
      EmitExtent(n, Noted(cmp, Dotted(ls), |m|), ls[1..], x);
      assert Emit(n, Noted(cmp, Dotted(ls), |m|), ls[1..]).0[..|n|] == n;
      assert r[|m|] == n[|m|] == |ls[0]|;
    }
  }

  // ----- Labels in a text

  /** At the first dot from `begin` on, the text splits into its first label and the rest. */
  lemma AtDot(name: Bytes, begin: nat, i: nat, ls: seq<Bytes>)
    requires begin <= i < |name| && Labels(ls) && name[begin..] == Dotted(ls)
    requires name[i] == DOT && forall j :: begin <= j < i ==> name[j] != DOT
    ensures ls != [] && ls[0] == name[begin..i] && name[i + 1..] == Dotted(ls[1..])
  {
    hide Dotted, FirstDot;
    DottedFirst(ls);
    FirstDotIs(name[begin..i], name[i + 1..]);
    assert name[begin..] == name[begin..i] + [DOT] + name[i + 1..];
    FirstDotIs(ls[0], Dotted(ls[1..]));
    var s := name[begin..];
    assert ls[0] == s[..|ls[0]|] && Dotted(ls[1..]) == s[|ls[0]| + 1..];
  }

  lemma DottedFirst(ls: seq<Bytes>)
    ensures ls != [] ==> Dotted(ls) == ls[0] + [DOT] + Dotted(ls[1..])
  {
  }

  lemma EmitFirst(m: Bytes, cmp: Offsets, ls: seq<Bytes>)
    requires Labels(ls) && ls != [] && Small(cmp)
    ensures Small(Noted(cmp, Dotted(ls), |m|))
    ensures var p := Lookup(cmp, Dotted(ls));
      Emit(m, cmp, ls) == if p != 0 then (m + Pointer(p), cmp)
                          else Emit(m + LabelBytes(ls[0]), Noted(cmp, Dotted(ls), |m|), ls[1..])
  {
  }

  lemma FirstLabel(ls: seq<Bytes>)
    requires Labels(ls) && ls != []
    ensures Labels(ls[1..]) && 0 < |ls[0]| <= MAX_LABEL && Dotted(ls) != [DOT]
  {
  }

  lemma LookupSmall(cmp: Offsets, key: Bytes)
    requires Small(cmp)
    ensures Lookup(cmp, key) < MAX_OFFSET
  {
  }

  lemma EmitEnd(m: Bytes, cmp: Offsets)
    requires Small(cmp)
    ensures Labels([]) && Emit(m, cmp, []) == (m + [0], cmp)
  {
  }

  lemma {:induction false} DottedEnds(ls: seq<Bytes>)
    requires Labels(ls) && ls != []
    ensures |Dotted(ls)| >= 2 && Dotted(ls)[|Dotted(ls)| - 1] == DOT
  {
    if |ls| > 1 {
      DottedEnds(ls[1..]);
    }
  }

  lemma HasDot(ls: seq<Bytes>)
    ensures ls != [] ==> |ls[0]| < |Dotted(ls)| && Dotted(ls)[|ls[0]|] == DOT
  {
  }
}
