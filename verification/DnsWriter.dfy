/** A message with a compression map, to which names and other octets are written (src/dns.c). */
module DnsWriter {
  import opened Bytes
  import opened DnsCompress
  import opened DnsName
  import opened DnsText

  ghost predicate Spelled(m: Bytes, o: nat, ls: seq<Bytes>) {
    Name(ls) && o < |m| && exists d :: Spells(m, o, WireLabels(ls), d)
  }

  lemma SpelledGrows(m: Bytes, x: Bytes, o: nat, ls: seq<Bytes>)
    requires Spelled(m, o, ls)
    ensures Spelled(m + x, o, ls)
  {
    var d :| Spells(m, o, WireLabels(ls), d);
    SpellsGrows(m, x, o, WireLabels(ls), d);
  }

  ghost predicate Sound(m: Bytes, cmp: Offsets) {
    forall k :: k in cmp && cmp[k] != 0 && IsDotted(k) ==> Known(m, k, cmp[k])
  }

  lemma SoundExtends(m: Bytes, x: Bytes, cmp: Offsets)
    requires Sound(m, cmp)
    ensures Sound(m + x, cmp)
  {
    hide Known, IsDotted;
    forall k | k in cmp && cmp[k] != 0 && IsDotted(k) ensures Known(m + x, k, cmp[k]) {
      KnownGrows(m, x, k, cmp[k]);
    }
  }

  /** Writing a name keeps the map sound and spells the name. */
  lemma EmitKeeps(m: Bytes, cmp: Offsets, ls: seq<Bytes>)
    requires Labels(ls) && Small(cmp) && Sound(m, cmp)
    ensures var r := Emit(m, cmp, ls); Sound(r.0, r.1) && |m| < |r.0| && exists d :: Spells(r.0, |m|, WireLabels(ls), d)
  {
    hide Known, Emit, Dotted, Small, Spells, IsDotted;
    var d := EmitSpells(m, cmp, ls);
    var r := Emit(m, cmp, ls);
    EmitSize(m, cmp, ls);
    var x := r.0[|m|..];
    assert r.0 == m + x;
    forall k | k in r.1 && r.1[k] != 0 && IsDotted(k) ensures Known(r.0, k, r.1[k]) {
      if |k| > |Dotted(ls)| {
        KnownGrows(m, x, k, cmp[k]);
      }
    }
  }

  // ----- Names through the writer

  /** For labels, the walk writes what the specification of names says. */
  lemma {:induction false} WalkEmits(name: Bytes, begin: nat, base: nat, cmp: Offsets, m: Bytes, ls: seq<Bytes>)
    requires begin <= |name| <= MAX_NAME && Labels(ls) && name[begin..] == Dotted(ls) && |m| == base + begin && Small(cmp)
    ensures var w := Walk(name, begin, base, cmp);
      && Small(w.after) && !Stuck(name, w.at)
      && Emit(m, cmp, ls) == (m + w.out + EndTail(name, w.at, w.after), w.after)
    decreases |name| - begin
  {
    hide Dotted, Emit, Small, LabelBytes, Pointer, Lookup, Noted, Filed, Labels, NextDot, Walk;
    WalkSmall(name, begin, base, cmp);
    if ls == [] {
      EmitEnd(m, cmp);
      NothingLeft(name, begin, ls);
      NextDotIs(name, begin, |name|);
      WalkStops(name, begin, base, cmp);
      assert m + [] + [0] == m + [0];
    } else {
      HasDot(ls);
      assert name[begin..][|ls[0]|] == name[begin + |ls[0]|];
      var i := NextDot(name, begin);
      DotAhead(name, begin, begin + |ls[0]|);
      AtDot(name, begin, i, ls);
      FirstLabel(ls);
      EmitFirst(m, cmp, ls);
      assert i > begin && name[i - 1] != DOT && !Bad(name, begin, i);
      if Repeats(name[begin..], cmp) {
        WalkStops(name, begin, base, cmp);
        assert m + [] == m;
      } else {
        WalkGoes(name, begin, base, cmp);
        FiledIs(cmp, name[begin..], base + begin);
        LabelSize(name[begin..i]);
        var n := m + LabelBytes(name[begin..i]);
        WalkEmits(name, i + 1, base, Filed(cmp, name[begin..], base + begin), n, ls[1..]);
        var w := Walk(name, i + 1, base, Filed(cmp, name[begin..], base + begin));
        assert n + w.out == m + (LabelBytes(name[begin..i]) + w.out);
      }
    }
  }

  lemma DotAhead(name: Bytes, begin: nat, j: nat)
    requires begin <= j < |name| && name[j] == DOT
    ensures NextDot(name, begin) <= j
  {
  }

  lemma NothingLeft(name: Bytes, begin: nat, ls: seq<Bytes>)
    requires begin <= |name| && name[begin..] == Dotted(ls) && ls == []
    ensures begin == |name|
  {
  }

  /** The tail that the writer puts behind the labels. */
  ghost predicate Closes(x: Bytes, name: Bytes, at: nat, after: Offsets)
    requires at <= |name| && Small(after)
  {
    Ended(name) && name != [DOT] && !Stuck(name, at) ==> x == EndTail(name, at, after)
  }

  /** Any text of at most 255 octets, accepted or refused, keeps the map sound for names. */
  lemma {:induction false} WalkSound(name: Bytes, begin: nat, base: nat, cmp: Offsets, m: Bytes, x: Bytes)
    requires begin <= |name| <= MAX_NAME && NoNul(name) && Small(cmp) && Sound(m, cmp) && |m| == base + begin
    requires var w := Walk(name, begin, base, cmp); Small(w.after) && Closes(x, name, w.at, w.after)
    ensures var w := Walk(name, begin, base, cmp); Sound(m + w.out + x, w.after)
    decreases |name| - begin
  {
    hide Small, LabelBytes, NextDot, Walk, IsDotted, Sound, EndTail, Filed, NoNul, Bad;
    var i, sub := NextDot(name, begin), name[begin..];
    if sub != [] && IsDotted(sub) {
      DottedSound(name, begin, base, cmp, m, x);
    } else if i == |name| || Bad(name, begin, i) || Repeats(sub, cmp) {
      WalkStops(name, begin, base, cmp);
      SoundExtends(m, x, cmp);
      assert m + [] + x == m + x;
    } else {
      WalkGoes(name, begin, base, cmp);
      LabelSize(name[begin..i]);
      var l, next := LabelBytes(name[begin..i]), Filed(cmp, sub, base + begin);
      FiledSmall(cmp, sub, base + begin);
      SoundExtends(m, l, cmp);
      OtherFiled(m + l, cmp, sub, base + begin);
      WalkSound(name, i + 1, base, next, m + l, x);
      var w := Walk(name, i + 1, base, next);
      assert (m + l) + w.out + x == m + (l + w.out) + x;
    }
  }

  lemma FiledSmall(cmp: Offsets, key: Bytes, o: nat)
    requires Small(cmp)
    ensures Small(Filed(cmp, key, o))
  {
  }

  /** A key that is not made of labels does not matter. */
  lemma OtherFiled(m: Bytes, cmp: Offsets, key: Bytes, o: nat)
    requires Sound(m, cmp) && !IsDotted(key)
    ensures Sound(m, Filed(cmp, key, o))
  {
    hide Known, IsDotted;
  }

  lemma DottedSound(name: Bytes, begin: nat, base: nat, cmp: Offsets, m: Bytes, x: Bytes)
    requires begin < |name| <= MAX_NAME && NoNul(name) && Small(cmp) && Sound(m, cmp) && |m| == base + begin
    requires IsDotted(name[begin..])
    requires var w := Walk(name, begin, base, cmp); Small(w.after) && Closes(x, name, w.at, w.after)
    ensures var w := Walk(name, begin, base, cmp); Sound(m + w.out + x, w.after)
  {
    hide Small, LabelBytes, NextDot, Walk, Sound, EndTail, Dotted, Emit, NoNul, Labels, Spells;
    var ls :| Labels(ls) && name[begin..] == Dotted(ls);
    WalkEmits(name, begin, base, cmp, m, ls);
    EmitKeeps(m, cmp, ls);
    DottedEnds(ls);
    assert name[begin..][|name| - begin - 1] == name[|name| - 1];
    OneDot(name, begin);
    NoLeadingDot(name[begin..]);
  }

  lemma OneDot(name: Bytes, begin: nat)
    requires begin < |name|
    ensures name == [DOT] ==> name[begin..][0] == DOT
  {
  }

  /** Labels that are cut off before the root spell nothing. */
  lemma {:induction false} CutShort(name: Bytes, begin: nat, base: nat, cmp: Offsets, m: Bytes, labels: seq<Bytes>, d: nat)
    requires begin <= |name| && NoNul(name) && IsDotted(name[begin..])
    ensures !Spells(m + Walk(name, begin, base, cmp).out, |m|, labels, d)
    decreases |name| - begin
  {
    hide NextDot, Dotted, IsDotted, NoNul, Walk, Spells, Bad;
    var i := NextDot(name, begin);
    if i == |name| || Bad(name, begin, i) || Repeats(name[begin..], cmp) {
      WalkStops(name, begin, base, cmp);
      SpellsInside(m + [], |m|, labels, d);
    } else {
      WalkGoes(name, begin, base, cmp);
      var l, next := LabelBytes(name[begin..i]), Filed(cmp, name[begin..], base + begin);
      var w := Walk(name, i + 1, base, next);
      FirstOfDotted(name, begin, i);
      var n := m + (l + w.out);
      assert n == (m + l) + w.out && n[|m|] == i - begin;
      if labels != [] {
        CutShort(name, i + 1, base, next, m + l, labels[1..], d);
      }
      SpellsNext(n, |m|, labels, d);
    }
  }

  lemma SpellsInside(m: Bytes, o: nat, labels: seq<Bytes>, d: nat)
    ensures Spells(m, o, labels, d) ==> o < |m|
  {
  }

  lemma SpellsNext(m: Bytes, o: nat, labels: seq<Bytes>, d: nat)
    requires o < |m| && 0 < m[o] <= MAX_LABEL
    ensures Spells(m, o, labels, d) ==> labels != [] && Spells(m, o + 1 + m[o] as int, labels[1..], d)
  {
  }

  lemma FirstOfDotted(name: Bytes, begin: nat, i: nat)
    requires begin <= i < |name| && NoNul(name) && IsDotted(name[begin..])
    requires name[i] == DOT && forall j :: begin <= j < i ==> name[j] != DOT
    ensures 0 < i - begin <= MAX_LABEL && IsDotted(name[i + 1..])
  {
    var sub := name[begin..];
    assert sub[i - begin] == DOT;
    DottedUncons(sub, i - begin);
    assert sub[i - begin + 1..] == name[i + 1..];
  }

  /** A suffix of labels is filed at a place that a pointer can reach. */
  ghost predicate FilesLabels(name: Bytes, base: nat, cmp: Offsets, b: nat) {
    && b < Walk(name, 0, base, cmp).at && Start(name, b) && 0 < base + b < MAX_OFFSET && IsDotted(name[b..])
  }

  lemma FilesNew(name: Bytes, base: nat, cmp: Offsets, k: Bytes)
    requires IsDotted(k)
    ensures NewKey(name, 0, Walk(name, 0, base, cmp).at, k) && 0 < base + |name| - |k| < MAX_OFFSET ==>
      FilesLabels(name, base, cmp, |name| - |k|)
  {
    hide Walk, IsDotted;
  }

  lemma {:induction false} CutAt(name: Bytes, begin: nat, base: nat, cmp: Offsets, m: Bytes, b: nat, labels: seq<Bytes>, d: nat)
    requires Start(name, begin) && begin <= |name| && NoNul(name) && |m| == base + begin && Start(name, b)
    requires begin <= b < Walk(name, begin, base, cmp).at && IsDotted(name[b..])
    ensures !Spells(m + Walk(name, begin, base, cmp).out, base + b, labels, d)
    decreases |name| - begin
  {
    hide NextDot, IsDotted, Spells, NoNul, LabelBytes, Walk, Filed, Bad, Repeats, Start;
    if b == begin {
      CutShort(name, begin, base, cmp, m, labels, d);
    } else {
      var i := NextDot(name, begin);
      NoStart(name, begin, b);
      if i == |name| || Bad(name, begin, i) || Repeats(name[begin..], cmp) {
        WalkStops(name, begin, base, cmp);
      } else {
        WalkGoes(name, begin, base, cmp);
        var l, next := LabelBytes(name[begin..i]), Filed(cmp, name[begin..], base + begin);
        LabelSize(name[begin..i]);
        StartNext(name, i);
        CutAt(name, i + 1, base, next, m + l, b, labels, d);
        assert (m + l) + Walk(name, i + 1, base, next).out == m + (l + Walk(name, i + 1, base, next).out);
      }
    }
  }

  /**
   * A text of more than 255 octets is refused, and then the map stays sound for names exactly when
   * none of the suffixes that it left there is made of labels.
   */
  lemma LongSound(name: Bytes, cmp: Offsets, m: Bytes)
    requires |name| > MAX_NAME && NoNul(name) && Sound(m, cmp)
    ensures var w := Walk(name, 0, |m|, cmp);
      Sound(m + w.out, w.after) <==> !exists b: nat :: FilesLabels(name, |m|, cmp, b)
  {
    hide Walk, Spells, NoNul, IsDotted, Labels, Dotted;
    var w := Walk(name, 0, |m|, cmp);
    if b: nat :| FilesLabels(name, |m|, cmp, b) {
      var k, o := name[b..], |m| + b;
      WalkFiles(name, 0, |m|, cmp, k);
      NoLeadingDot(k);
      forall labels: seq<Bytes>, d: nat ensures !Spells(m + w.out, o, labels, d) {
        CutAt(name, 0, |m|, cmp, m, b, labels, d);
      }
      assert !Known(m + w.out, k, o);
      assert k in w.after && w.after[k] == o;
    } else {
      forall k | k in w.after && w.after[k] != 0 && IsDotted(k) ensures Known(m + w.out, k, w.after[k]) {
        WalkFiles(name, 0, |m|, cmp, k);
        FilesNew(name, |m|, cmp, k);
        KnownGrows(m, w.out, k, cmp[k]);
      }
    }
  }

  /** So every list of labels that is too long for a name, and not known before, breaks it. */
  lemma LongLabels(ls: seq<Bytes>, cmp: Offsets, m: Bytes)
    requires Labels(ls) && |Dotted(ls)| > MAX_NAME && 0 < |m| < MAX_OFFSET && Sound(m, cmp) && Lookup(cmp, Dotted(ls)) == 0
    ensures var w := Walk(Dotted(ls), 0, |m|, cmp); !Sound(m + w.out, w.after)
  {
    hide Spells, Dotted, LabelBytes, Sound, Labels, NextDot;
    var name := Dotted(ls);
    assert name[0..] == name;
    HasDot(ls);
    var i := NextDot(name, 0);
    AtDot(name, 0, i, ls);
    FirstLabel(ls);
    DottedNoNul(ls);
    DottedIs(ls);
    assert i > 0 && name[i - 1] != DOT;
    WalkGoes(name, 0, |m|, cmp);
    assert FilesLabels(name, |m|, cmp, 0);
    LongSound(name, cmp, m);
  }

  lemma {:induction false} DottedNoNul(ls: seq<Bytes>)
    requires Labels(ls)
    ensures NoNul(Dotted(ls))
  {
    if ls != [] {
      DottedNoNul(ls[1..]);
      assert Label(ls[0]);
    }
  }

  /** The labels of a text, if it is the text of a name. */
  ghost function NameOf(name: Bytes): (r: Option<seq<Bytes>>)
    ensures r.Some? ==> Name(r.value) && Text(r.value) == name
    ensures r.None? ==> forall ls :: Name(ls) ==> Text(ls) != name
  {
    if exists ls :: Name(ls) && Text(ls) == name then
      var ls :| Name(ls) && Text(ls) == name;
      Some(ls)
    else None
  }

  /** A name is accepted, and written as the specification of names says. */
  lemma SerializesName(name: Bytes, cmp: Offsets, m: Bytes, ls: seq<Bytes>)
    requires Name(ls) && Text(ls) == name && Small(cmp)
    ensures Accepts(name, cmp) && NoNul(name)
    ensures var w := Walk(name, 0, |m|, cmp);
      && Small(w.after)
      && Emit(m, cmp, ls) == (m + (w.out + if name != [DOT] then EndTail(name, w.at, w.after) else []), w.after)
  {
    hide Dotted, Emit, Small, LabelBytes, Pointer, Lookup, Noted, Labels, NextDot, Walk, Scans, Bad, NoNul;
    NameEnds(ls);
    NameNoNul(ls);
    SameNow(cmp, |name|);
    WalkScans(name, 0, |m|, cmp, cmp, 0);
    assert name[0..] == name;
    var w := Walk(name, 0, |m|, cmp);
    if ls == [] {
      RootWalk(|m|, cmp);
      EmitEnd(m, cmp);
      assert m + ([0] + []) == m + [0];
    } else {
      WalkEmits(name, 0, |m|, cmp, m, ls);
      assert m + (w.out + EndTail(name, w.at, w.after)) == m + w.out + EndTail(name, w.at, w.after);
    }
  }

  lemma NameEnds(ls: seq<Bytes>)
    requires Name(ls)
    ensures 0 < |Text(ls)| <= MAX_NAME && Text(ls)[|Text(ls)| - 1] == DOT && (ls != [] ==> Text(ls) != [DOT])
  {
    if ls != [] {
      DottedEnds(ls);
    }
  }

  lemma NameNoNul(ls: seq<Bytes>)
    requires Name(ls)
    ensures NoNul(Text(ls))
  {
    DottedNoNul(ls);
  }

  lemma RootWalk(base: nat, cmp: Offsets)
    ensures var w := Walk([DOT], 0, base, cmp); w == Walked([0], 1, cmp) && !Stuck([DOT], 1)
  {
    var name: Bytes := [DOT];
    assert name[0..] == name;
    NextDotIs(name, 0, 0);
    NextDotIs(name, 1, 1);
    WalkStops(name, 1, base, cmp);
  }

  class Writer {
    var msg: Bytes
    var offsets: Offsets
    /** Where each name was written. */
    ghost var written: seq<(nat, seq<Bytes>)>

    ghost predicate Valid()
      reads this
    {
      && Small(offsets) && Sound(msg, offsets)
      && forall i :: 0 <= i < |written| ==> Spelled(msg, written[i].0, written[i].1)
    }

    constructor ()
      ensures Valid() && msg == [] && offsets == map[] && written == []
    {
      msg, offsets, written := [], map[], [];
    }

    lemma SpelledStill(x: Bytes)
      requires Valid()
      ensures forall i :: 0 <= i < |written| ==> Spelled(msg + x, written[i].0, written[i].1)
    {
      hide Spelled, Sound, Small;
      forall i | 0 <= i < |written| ensures Spelled(msg + x, written[i].0, written[i].1) {
        SpelledGrows(msg, x, written[i].0, written[i].1);
      }
    }

    /** Appends octets other than a name. */
    method Append(x: Bytes)
      requires Valid()
      modifies this
      ensures Valid() && msg == old(msg) + x && written == old(written) && offsets == old(offsets)
    {
      hide Spelled, Sound, Small;
      SpelledStill(x);
      SoundExtends(msg, x, offsets);
      msg := msg + x;
    }

    /**
     * hsk_dns_name_write: appends what becomes of a text, accepted or not. Names are compressed and
     * remembered. Whatever the text, names written before are still spelled; and the map goes on
     * serving names unless the text is too long and leaves suffixes made of labels.
     */
    method WriteName(name: Bytes)
      requires Valid() && NoNul(name)
      modifies this
      ensures old(msg) <= msg && offsets == Walk(name, 0, |old(msg)|, old(offsets)).after
      ensures written == old(written) + match NameOf(name) case Some(ls) => [(|old(msg)|, ls)] case None => []
      ensures Valid() <==> |name| <= MAX_NAME || !exists b: nat :: FilesLabels(name, |old(msg)|, old(offsets), b)
      ensures NameOf(name).Some? ==>
        && |old(msg)| < |msg| <= |old(msg)| + |Plain(NameOf(name).value)|
        && forall x :: Extent(msg + x, |old(msg)|) == |msg|
    {
      hide Emit, Spelled, Sound, Small, Walk, Accepts, FilesLabels, EndTail, NoNul, Name, Text, Extent, Plain;
      ghost var m, cmp, n := msg, offsets, NameOf(name);
      var ok, out, after := Serialize(name, |msg|, offsets);
      SpelledStill(out);
      TextKeeps(name, cmp, m, ok, out);
      msg, offsets := msg + out, after;
      if n.Some? {
        SerializesName(name, cmp, m, n.value);
        NameWritten(m, cmp, n.value);
        written := written + [(|m|, n.value)];
      }
    }
  }

  /** What the map is worth after any text. */
  lemma TextKeeps(name: Bytes, cmp: Offsets, m: Bytes, ok: bool, out: Bytes)
    requires Small(cmp) && Sound(m, cmp) && NoNul(name) && (ok <==> Accepts(name, cmp))
    requires var w := Walk(name, 0, |m|, cmp);
      Small(w.after) && out == w.out + if ok && name != [DOT] then EndTail(name, w.at, w.after) else []
    ensures Sound(m + out, Walk(name, 0, |m|, cmp).after)
      <==> |name| <= MAX_NAME || !exists b: nat :: FilesLabels(name, |m|, cmp, b)
  {
    hide Small, Walk, FilesLabels, EndTail, NoNul, Sound, Scans, Stuck;
    var w := Walk(name, 0, |m|, cmp);
    if |name| <= MAX_NAME {
      SameNow(cmp, |name|);
      WalkScans(name, 0, |m|, cmp, cmp, 0);
      var x := if ok && name != [DOT] then EndTail(name, w.at, w.after) else [];
      WalkSound(name, 0, |m|, cmp, m, x);
      assert m + w.out + x == m + out;
    } else {
      LongSound(name, cmp, m);
      assert w.out + [] == w.out;
    }
  }

  lemma NameWritten(m: Bytes, cmp: Offsets, ls: seq<Bytes>)
    requires Name(ls) && Small(cmp) && Sound(m, cmp)
    ensures var r := Emit(m, cmp, ls).0;
      && Labels(ls) && |m| < |r| <= |m| + |Plain(ls)| && Spelled(r, |m|, ls) && forall x :: Extent(r + x, |m|) == |r|
  {
    hide Emit, Spells, Sound, Small, Extent, Plain, Labels;
    EmitKeeps(m, cmp, ls);
    EmitSize(m, cmp, ls);
    forall x ensures Extent(Emit(m, cmp, ls).0 + x, |m|) == |Emit(m, cmp, ls).0| {
      EmitExtent(m, cmp, ls, x);
    }
  }

  /**
   * Whatever names and other octets went through one writer, each name parses back where it was
   * written, unless more than ten pointers are on the way from there.
   */
  lemma WrittenParses(w: Writer, i: nat) returns (d: nat)
    requires w.Valid() && i < |w.written|
    ensures Spells(w.msg, w.written[i].0, WireLabels(w.written[i].1), d)
    ensures var o := w.written[i].0;
      Parsed(w.msg, o, |w.msg|, true)
        == if d <= MAX_POINTERS then Some((Text(w.written[i].1), Extent(w.msg, o))) else None
  {
    hide Spells, Parsed;
    var o, ls := w.written[i].0, w.written[i].1;
    assert Spelled(w.msg, o, ls);
    d :| Spells(w.msg, o, WireLabels(ls), d);
    ParsedSpells(w.msg, o, ls, d);
  }

  // ----- The reader's limit is in reach

  /** A name of n labels, each an "a". */
  function Nested(n: nat): (ls: seq<Bytes>)
    ensures |ls| == n && Labels(ls)
  {
    seq(n, _ => [0x61])
  }

  /** A message and its map after the names of 1 to n such labels. */
  ghost function Nest(m: Bytes, n: nat): (r: (Bytes, Offsets))
    ensures Small(r.1)
  {
    if n == 0 then (m, map[]) else Emit(Nest(m, n - 1).0, Nest(m, n - 1).1, Nested(n))
  }

  lemma {:induction false} NestedSize(n: nat)
    ensures |Dotted(Nested(n))| == 2 * n
  {
    if n > 0 {
      assert Nested(n)[1..] == Nested(n - 1);
      NestedSize(n - 1);
    }
  }

  /** Such a name is written as a label and a pointer to the one before it. */
  lemma NestStep(p: Bytes, cmp: Offsets, n: nat, o: nat)
    requires n >= 2 && Small(cmp) && 0 < o < MAX_OFFSET && Lookup(cmp, Dotted(Nested(n - 1))) == o
    requires forall k :: k in cmp ==> |k| <= 2 * (n - 1)
    ensures Emit(p, cmp, Nested(n)) == (p + LabelBytes(Nested(n)[0]) + Pointer(o), Noted(cmp, Dotted(Nested(n)), |p|))
  {
    hide Dotted, Emit, LabelBytes, Nested, Small, Pointer;
    NestedSize(n);
    NestedSize(n - 1);
    NestedTail(n);
    EmitFirst(p, cmp, Nested(n));
    EmitFirst(p + LabelBytes(Nested(n)[0]), Noted(cmp, Dotted(Nested(n)), |p|), Nested(n - 1));
  }

  lemma NestFirst(p: Bytes)
    ensures Emit(p, map[], Nested(1)) == (p + LabelBytes(Nested(1)[0]) + [0], Noted(map[], Dotted(Nested(1)), |p|))
  {
    hide Dotted, Emit, LabelBytes, Nested;
    NestedTail(1);
    EmitFirst(p, map[], Nested(1));
    EmitEnd(p + LabelBytes(Nested(1)[0]), Noted(map[], Dotted(Nested(1)), |p|));
  }

  /** What the map and the message hold after n of them. */
  ghost predicate NestHolds(m: Bytes, n: nat) {
    && |m| <= |Nest(m, n).0| <= |m| + 4 * n && (forall k :: k in Nest(m, n).1 ==> |k| <= 2 * n)
    && (n > 0 ==> Lookup(Nest(m, n).1, Dotted(Nested(n))) == |Nest(m, n - 1).0|)
    && (n > 0 ==> Spells(Nest(m, n).0, |Nest(m, n - 1).0|, WireLabels(Nested(n)), n - 1))
  }

  lemma NestBase(m: Bytes)
    requires 0 < |m| && |m| + 8 < MAX_OFFSET
    ensures NestHolds(m, 1)
  {
    hide Spells, Dotted, Emit, LabelBytes, Nested;
    assert Nest(m, 0) == (m, map[]) && Nest(m, 1) == Emit(m, map[], Nested(1));
    NestedSize(1);
    NestedTail(1);
    LabelSize(Nested(1)[0]);
    var q := m + LabelBytes(Nested(1)[0]);
    NestFirst(m);
    SpellsEnd(q);
    assert WireLabels(Nested(0)) == [];
    SpellsLabel(q + [0], m, Nested(1), 0);
  }

  lemma NestNext(m: Bytes, n: nat)
    requires 0 < |m| && |m| + 4 * n + 4 < MAX_OFFSET && n >= 2 && NestHolds(m, n - 1) && 0 < |Nest(m, n - 2).0| < MAX_OFFSET
    ensures NestHolds(m, n)
  {
    hide Spells, Dotted, Emit, LabelBytes, Nested, Pointer, Nest, WireLabels;
    var p, cmp, o := Nest(m, n - 1).0, Nest(m, n - 1).1, |Nest(m, n - 2).0|;
    NestIsEmit(m, n);
    NestedSize(n);
    NestedTail(n);
    LabelSize(Nested(n)[0]);
    var q := p + LabelBytes(Nested(n)[0]);
    NestStep(p, cmp, n, o);
    SpellsGrows(p, LabelBytes(Nested(n)[0]), o, WireLabels(Nested(n - 1)), n - 2);
    SpellsPointer(q, o, WireLabels(Nested(n - 1)), n - 2);
    SpellsLabel(q + Pointer(o), p, Nested(n), n - 1);
  }

  lemma NestIsEmit(m: Bytes, n: nat)
    requires n > 0
    ensures Nest(m, n) == Emit(Nest(m, n - 1).0, Nest(m, n - 1).1, Nested(n))
  {
  }

  lemma {:induction false} NestIs(m: Bytes, n: nat)
    requires 0 < |m| && |m| + 4 * n + 4 < MAX_OFFSET
    ensures NestHolds(m, n)
  {
    hide NestHolds, Nest;
    if n == 0 {
      NestNone(m);
    } else if n == 1 {
      NestBase(m);
    } else {
      NestIs(m, n - 1);
      NestIs(m, n - 2);
      NestSize(m, n - 2);
      NestNext(m, n);
    }
  }

  lemma NestNone(m: Bytes)
    ensures NestHolds(m, 0)
  {
  }

  lemma NestSize(m: Bytes, n: nat)
    requires NestHolds(m, n)
    ensures |m| <= |Nest(m, n).0| <= |m| + 4 * n
  {
  }

  lemma NestedTail(n: nat)
    requires n > 0
    ensures Nested(n)[1..] == Nested(n - 1) && |Nested(n)[0]| == 1 && (n == 1 ==> Nested(n - 1) == [])
  {
  }

  /** The twelfth of these names, written through one map, cannot be read back. */
  lemma TooDeep(m: Bytes)
    requires 0 < |m| < 1000
    ensures Name(Nested(12))
    ensures Parsed(Nest(m, 12).0, |Nest(m, 11).0|, |Nest(m, 12).0|, true) == None
  {
    hide Spells, Dotted, Emit, Parsed, Nested;
    NestedSize(12);
    NestIs(m, 12);
    ParsedSpells(Nest(m, 12).0, |Nest(m, 11).0|, Nested(12), 11);
  }

  /** The number of pointers on the way is determined by the message. */
  lemma {:induction false} SpellsUnique(m: Bytes, o: nat, labels: seq<Bytes>, c: nat, d: nat)
    requires Spells(m, o, labels, c) && Spells(m, o, labels, d)
    ensures c == d
    decreases |labels| + c
  {
    var b := m[o] as int;
    if 0 < b <= MAX_LABEL {
      SpellsUnique(m, o + 1 + b, labels[1..], c, d);
    } else if b >= 0xc0 {
      SpellsUnique(m, (b - 0xc0) * 256 + m[o + 1] as int, labels, c - 1, d - 1);
    }
  }
}
