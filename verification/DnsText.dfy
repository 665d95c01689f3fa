/** What hsk_dns_name_serialize does with any text, and which texts it accepts (src/dns.c). */
module DnsText {
  import opened Bytes
  import opened DnsCompress
  import opened DnsName

  // ----- Any text

  ghost function NextDot(name: Bytes, begin: nat): (r: nat)
    requires begin <= |name|
    ensures begin <= r <= |name| && (r < |name| ==> name[r] == DOT)
    ensures forall j :: begin <= j < r ==> name[j] != DOT
    decreases |name| - begin
  {
    if begin == |name| || name[begin] == DOT then begin else NextDot(name, begin + 1)
  }

  ghost predicate Repeats(sub: Bytes, cmp: Offsets) {
    sub != [DOT] && Lookup(cmp, sub) != 0
  }

  /** A label starts at b. */
  predicate Start(name: Bytes, b: nat) {
    b <= |name| && (b == 0 || name[b - 1] == DOT)
  }

  /** The label from begin to the dot at i is refused: after a dot, too long, or past the room for a name. */
  predicate Bad(name: Bytes, begin: nat, i: nat)
    requires begin <= i < |name|
  {
    (i > 0 && name[i - 1] == DOT) || i - begin > MAX_LABEL || i + 1 > 256
  }

  function Filed(cmp: Offsets, key: Bytes, o: nat): Offsets {
    if key == [DOT] then cmp else Noted(cmp, key, o)
  }

  datatype Walked = Walked(out: Bytes, at: nat, after: Offsets)

  /** What is written from the label at begin on, where that ends, and the map then. */
  ghost function Walk(name: Bytes, begin: nat, base: nat, cmp: Offsets): (w: Walked)
    requires begin <= |name|
    ensures begin <= w.at <= |name| && |w.out| == w.at - begin
    decreases |name| - begin
  {
    var i := NextDot(name, begin);
    if i == |name| || Bad(name, begin, i) || Repeats(name[begin..], cmp) then Walked([], begin, cmp)
    else
      var w := Walk(name, i + 1, base, Filed(cmp, name[begin..], base + begin));
      w.(out := LabelBytes(name[begin..i]) + w.out)
  }

  /** The walk ended at a label that is refused. */
  ghost predicate Stuck(name: Bytes, at: nat)
    requires at <= |name|
  {
    var i := NextDot(name, at);
    i < |name| && Bad(name, at, i)
  }

  lemma NextDotIs(name: Bytes, begin: nat, i: nat)
    requires begin <= i <= |name| && (i < |name| ==> name[i] == DOT) && forall j :: begin <= j < i ==> name[j] != DOT
    ensures NextDot(name, begin) == i
  {
  }

  /** No label starts between the start of one and its dot. */
  lemma NoStart(name: Bytes, begin: nat, b: nat)
    requires begin <= |name|
    ensures begin < b <= NextDot(name, begin) ==> !Start(name, b)
  {
  }

  lemma WalkStops(name: Bytes, begin: nat, base: nat, cmp: Offsets)
    requires begin <= |name|
    requires var i := NextDot(name, begin); i == |name| || Bad(name, begin, i) || Repeats(name[begin..], cmp)
    ensures Walk(name, begin, base, cmp) == Walked([], begin, cmp)
  {
  }

  lemma WalkGoes(name: Bytes, begin: nat, base: nat, cmp: Offsets)
    requires begin <= |name| && NextDot(name, begin) < |name|
    requires !Bad(name, begin, NextDot(name, begin)) && !Repeats(name[begin..], cmp)
    ensures var i := NextDot(name, begin);
      var w := Walk(name, i + 1, base, Filed(cmp, name[begin..], base + begin));
      |name[begin..i]| < 256 && Walk(name, begin, base, cmp) == w.(out := LabelBytes(name[begin..i]) + w.out)
  {
  }

  /** The loop over the text; `ptr` is the place of a suffix that was written before. */
  method WriteLabels(name: Bytes, base: nat, cmp: Offsets) returns (ok: bool, out: Bytes, after: Offsets, ptr: nat)
    ensures Walk(name, 0, base, cmp) == Walked(out, |out|, after)
    ensures |out| <= |name| && ok == !Stuck(name, |out|)
    ensures ptr == if ok && NextDot(name, |out|) < |name| then Lookup(after, name[|out|..]) else 0
  {
    hide Walk, Lookup, Noted, LabelBytes, NextDot, Filed;
    ghost var goal := Walk(name, 0, base, cmp);
    out, after, ptr := [], cmp, 0;
    var begin, i := 0, 0;
    assert [] + goal.out == goal.out;
    while i < |name|
      invariant begin <= i <= |name| && |out| == begin
      invariant forall j :: begin <= j < i ==> name[j] != DOT
      invariant var w := Walk(name, begin, base, after); goal == w.(out := out + w.out)
    {
      if name[i] == DOT {
        NextDotIs(name, begin, i);
        ghost var w := Walk(name, begin, base, after);
        if Bad(name, begin, i) || Repeats(name[begin..], after) {
          WalkStops(name, begin, base, after);
          assert out + [] == out;
        } else {
          WalkGoes(name, begin, base, after);
        }
        if i > 0 && name[i - 1] == DOT {
          return false, out, after, 0;
        }
        var size := i - begin;
        if size > MAX_LABEL {
          return false, out, after, 0;
        }
        if |out| + 1 + size > 256 {
          return false, out, after, 0;
        }
        var sub := name[begin..];
        if sub != [DOT] {
          ptr := Lookup(after, sub);
          if ptr != 0 {
            return true, out, after, ptr;
          }
        }
        FiledIs(after, sub, base + begin);
        if sub != [DOT] {
          after := Noted(after, sub, base + |out|);
        }
        LabelSize(name[begin..i]);
        ghost var next := Walk(name, i + 1, base, after);
        assert out + (LabelBytes(name[begin..i]) + next.out) == (out + LabelBytes(name[begin..i])) + next.out;
        out := out + LabelBytes(name[begin..i]);
        begin := i + 1;
        ptr := 0;
      }
      i := i + 1;
    }
    NextDotIs(name, begin, |name|);
    WalkStops(name, begin, base, after);
    assert out + [] == out;
    return true, out, after, 0;
  }

  lemma FiledIs(cmp: Offsets, key: Bytes, o: nat)
    ensures Filed(cmp, key, o) == if key == [DOT] then cmp else Noted(cmp, key, o)
  {
  }

  // ----- What a text leaves in the map

  /** k is the part of name from a label start between lo and hi on. */
  ghost predicate NewKey(name: Bytes, lo: nat, hi: nat, k: Bytes) {
    lo <= |name| - |k| < hi && Start(name, |name| - |k|) && k == name[|name| - |k|..] && k != [DOT]
  }

  /** Accepted or refused, a text leaves exactly those of its suffixes whose first label was written. */
  lemma {:induction false} WalkFiles(name: Bytes, begin: nat, base: nat, cmp: Offsets, k: Bytes)
    requires Start(name, begin)
    ensures var w := Walk(name, begin, base, cmp); var o := base + |name| - |k|;
      Lookup(w.after, k) == if NewKey(name, begin, w.at, k) && o < MAX_OFFSET then o else Lookup(cmp, k)
    decreases |name| - begin
  {
    hide LabelBytes, NextDot, Walk, Bad, Repeats, Filed, Lookup, NewKey;
    var i, key := NextDot(name, begin), name[begin..];
    if i == |name| || Bad(name, begin, i) || Repeats(key, cmp) {
      WalkStops(name, begin, base, cmp);
      NoNewKey(name, begin, k);
    } else {
      WalkGoes(name, begin, base, cmp);
      var next := Filed(cmp, key, base + begin);
      WalkFiles(name, i + 1, base, next, k);
      FiledLookup(cmp, key, base + begin, k);
      NewKeySplit(name, begin, Walk(name, i + 1, base, next).at, k);
    }
  }

  lemma NoNewKey(name: Bytes, begin: nat, k: Bytes)
    ensures !NewKey(name, begin, begin, k)
  {
  }

  lemma FiledLookup(cmp: Offsets, key: Bytes, o: nat, k: Bytes)
    ensures Lookup(Filed(cmp, key, o), k) == if k == key && key != [DOT] && o < MAX_OFFSET then o else Lookup(cmp, k)
  {
  }

  lemma NewKeySplit(name: Bytes, begin: nat, at: nat, k: Bytes)
    requires Start(name, begin) && NextDot(name, begin) < at <= |name|
    ensures var i, key := NextDot(name, begin), name[begin..];
      && (NewKey(name, begin, at, k) <==> (k == key && k != [DOT]) || NewKey(name, i + 1, at, k))
      && (k == key ==> |k| == |name| - begin && !NewKey(name, i + 1, at, k))
  {
    hide NextDot;
    NoStart(name, begin, if |k| <= |name| then |name| - |k| else 0);
  }

  // ----- Which texts are accepted

  /** From begin on no label is too long or doubled, up to a suffix that the map knows. */
  ghost predicate Scans(name: Bytes, begin: nat, cmp: Offsets)
    requires begin <= |name|
    decreases |name| - begin
  {
    var i := NextDot(name, begin);
    i < |name| ==>
      && (i == 0 || name[i - 1] != DOT) && i - begin <= MAX_LABEL
      && (Repeats(name[begin..], cmp) || Scans(name, i + 1, cmp))
  }

  lemma ScanStep(name: Bytes, begin: nat, i: nat, cmp: Offsets)
    requires begin <= i < |name| && name[i] == DOT && forall j :: begin <= j < i ==> name[j] != DOT
    ensures Scans(name, begin, cmp) <==>
      && (i == 0 || name[i - 1] != DOT) && i - begin <= MAX_LABEL
      && (Repeats(name[begin..], cmp) || Scans(name, i + 1, cmp))
  {
    assert NextDot(name, begin) == i;
  }

  lemma ScanEnd(name: Bytes, begin: nat, cmp: Offsets)
    requires begin <= |name| && forall j :: begin <= j < |name| ==> name[j] != DOT
    ensures Scans(name, begin, cmp)
  {
  }

  /** Keys of up to n octets are as they were. */
  ghost predicate SameUpTo(after: Offsets, cmp: Offsets, n: int) {
    forall k :: |k| <= n ==> Lookup(after, k) == Lookup(cmp, k)
  }

  lemma FiledLonger(after: Offsets, cmp: Offsets, key: Bytes, o: nat, n: int)
    requires SameUpTo(after, cmp, |key|) && n < |key|
    ensures SameUpTo(Filed(after, key, o), cmp, n)
  {
  }

  lemma RepeatsSame(after: Offsets, cmp: Offsets, key: Bytes)
    requires SameUpTo(after, cmp, |key|)
    ensures Repeats(key, after) == Repeats(key, cmp)
  {
  }

  /** The walk gets past a label start b exactly when the labels up to there pass, and then only the rest counts. */
  lemma {:induction false} WalkScans(name: Bytes, begin: nat, base: nat, after: Offsets, cmp: Offsets, b: nat)
    requires Start(name, begin) && begin <= |name| <= MAX_NAME && SameUpTo(after, cmp, |name| - begin)
    ensures var w := Walk(name, begin, base, after);
      && (Scans(name, begin, cmp) <==> !Stuck(name, w.at))
      && (begin <= b <= w.at && Start(name, b) ==> Scans(name, begin, cmp) == Scans(name, b, cmp))
    decreases |name| - begin
  {
    hide LabelBytes, NextDot, Filed, SameUpTo, Repeats, Scans, Walk, Start;
    var i, key := NextDot(name, begin), name[begin..];
    RepeatsSame(after, cmp, key);
    NoStart(name, begin, b);
    if i == |name| {
      ScanEnd(name, begin, cmp);
      WalkStops(name, begin, base, after);
    } else {
      ScanStep(name, begin, i, cmp);
      if Bad(name, begin, i) || Repeats(key, after) {
        WalkStops(name, begin, base, after);
      } else {
        WalkGoes(name, begin, base, after);
        FiledLonger(after, cmp, key, base + begin, |name| - i - 1);
        StartNext(name, i);
        WalkScans(name, i + 1, base, Filed(after, key, base + begin), cmp, b);
      }
    }
  }

  lemma StartNext(name: Bytes, i: nat)
    requires i < |name| && name[i] == DOT
    ensures Start(name, i + 1)
  {
  }

  /** What hsk_dns_name_serialize accepts. */
  ghost predicate Accepts(name: Bytes, cmp: Offsets) {
    0 < |name| <= MAX_NAME && name[|name| - 1] == DOT && Scans(name, 0, cmp)
  }

  /** What follows the labels of an accepted text: a pointer to a suffix, or the root. */
  ghost function EndTail(name: Bytes, at: nat, after: Offsets): Bytes
    requires at <= |name| && Small(after)
  {
    LookupSmall(after, name[at..]);
    if at < |name| then Pointer(Lookup(after, name[at..])) else [0]
  }

  /**
   * The octets of a text that goes to offset `base`, and the map with its suffixes. A refused text
   * leaves behind what was written before the refusal. An accepted text always fits the 256 octets
   * of the output, so the checks for room at the end are not repeated here.
   */
  method Serialize(name: Bytes, base: nat, cmp: Offsets) returns (ok: bool, out: Bytes, after: Offsets)
    requires Small(cmp)
    ensures Small(after) && after == Walk(name, 0, base, cmp).after
    ensures ok <==> Accepts(name, cmp)
    ensures var w := Walk(name, 0, base, cmp);
      out == w.out + if ok && name != [DOT] then EndTail(name, w.at, after) else []
  {
    hide Small, LabelBytes, Pointer, Noted, Lookup, Scans, NextDot, Walk, SameUpTo, Bad;
    WalkSmall(name, 0, base, cmp);
    var ptr;
    ok, out, after, ptr := WriteLabels(name, base, cmp);
    ghost var w := Walk(name, 0, base, cmp);
    assert w.out + [] == w.out;
    if |name| <= MAX_NAME {
      SameNow(cmp, |name|);
      WalkScans(name, 0, base, cmp, cmp, 0);
    }
    WalkEnd(name, 0, base, cmp);
    if !ok || |name| > MAX_NAME || |name| == 0 || name[|name| - 1] != DOT {
      return false, out, after;
    }
    if |name| == 1 && name[0] == DOT {
      return true, out, after;
    }
    LookupSmall(after, name[|out|..]);
    if ptr != 0 {
      return true, out + Pointer(ptr), after;
    }
    return true, out + [0], after;
  }

  lemma SameNow(cmp: Offsets, n: int)
    ensures SameUpTo(cmp, cmp, n)
  {
  }

  lemma {:induction false} WalkSmall(name: Bytes, begin: nat, base: nat, cmp: Offsets)
    requires begin <= |name| && Small(cmp)
    ensures Small(Walk(name, begin, base, cmp).after)
    decreases |name| - begin
  {
    hide LabelBytes, NextDot;
    var i := NextDot(name, begin);
    if i < |name| && !Bad(name, begin, i) && !Repeats(name[begin..], cmp) {
      WalkSmall(name, i + 1, base, Filed(cmp, name[begin..], base + begin));
    }
  }

  /** A walk that is not stuck ends behind the last dot or at a suffix that the map knows. */
  lemma {:induction false} WalkEnd(name: Bytes, begin: nat, base: nat, cmp: Offsets)
    requires Start(name, begin)
    ensures var w := Walk(name, begin, base, cmp);
      && Start(name, w.at)
      && (!Stuck(name, w.at) ==> NextDot(name, w.at) == |name| || Repeats(name[w.at..], w.after))
      && (NextDot(name, w.at) == |name| && name != [] && name[|name| - 1] == DOT ==> w.at == |name|)
    decreases |name| - begin
  {
    hide LabelBytes, NextDot, Walk, Repeats, Filed, Bad;
    var i := NextDot(name, begin);
    if i == |name| || Bad(name, begin, i) || Repeats(name[begin..], cmp) {
      WalkStops(name, begin, base, cmp);
    } else {
      WalkGoes(name, begin, base, cmp);
      WalkEnd(name, i + 1, base, Filed(cmp, name[begin..], base + begin));
    }
  }

  /** A text without zero octets that ends in a dot. */
  ghost predicate Ended(name: Bytes) {
    name != [] && name[|name| - 1] == DOT && NoNul(name)
  }

  ghost predicate NoNul(name: Bytes) {
    forall i :: 0 <= i < |name| ==> name[i] != 0
  }

  /** Labels with their dots, and perhaps one more dot in front. */
  ghost predicate Loose(s: Bytes) {
    IsDotted(s) || (s != [] && s[0] == DOT && IsDotted(s[1..]))
  }

  /** Every suffix with an offset is such a text; see SuffixesKept. */
  ghost predicate Suffixes(cmp: Offsets) {
    forall k :: Lookup(cmp, k) != 0 ==> Loose(k)
  }

  lemma DottedCons(l: Bytes, s: Bytes)
    ensures Label(l) && IsDotted(s) ==> IsDotted(l + [DOT] + s)
  {
    if Label(l) && IsDotted(s) {
      var ls :| Labels(ls) && s == Dotted(ls);
      assert ([l] + ls)[1..] == ls;
      assert Labels([l] + ls) && l + [DOT] + s == Dotted([l] + ls);
    }
  }

  lemma DottedUncons(s: Bytes, i: nat)
    requires IsDotted(s) && i < |s| && s[i] == DOT && forall j :: 0 <= j < i ==> s[j] != DOT
    ensures Label(s[..i]) && IsDotted(s[i + 1..])
  {
    var ls :| Labels(ls) && s == Dotted(ls);
    assert s[0..] == s;
    AtDot(s, 0, i, ls);
    assert s[0..i] == s[..i];
    assert Labels(ls[1..]);
  }

  lemma Nothing()
    ensures IsDotted([])
  {
    assert Labels([]) && Dotted([]) == [];
  }

  lemma LabelIs(name: Bytes, begin: nat, i: nat)
    requires begin <= i < |name| && Ended(name) && name[i] == DOT && forall j :: begin <= j < i ==> name[j] != DOT
    ensures Label(name[begin..i]) <==> begin < i && i - begin <= MAX_LABEL
  {
  }

  lemma NoLeadingDot(s: Bytes)
    ensures s != [] && s[0] == DOT ==> !IsDotted(s)
  {
    forall ls | Labels(ls) && ls != [] ensures Dotted(ls)[0] != DOT {
      assert Label(ls[0]) && Dotted(ls)[0] == ls[0][0];
    }
  }

  /** The first label of a text from begin on, taken off it. */
  lemma DottedFrom(name: Bytes, begin: nat, i: nat, n: nat)
    requires begin <= i < n <= |name| && Ended(name) && name[i] == DOT && forall j :: begin <= j < i ==> name[j] != DOT
    ensures IsDotted(name[begin..n]) <==> begin < i && i - begin <= MAX_LABEL && IsDotted(name[i + 1..n])
  {
    hide Labels, Label, Dotted, IsDotted;
    var sub := name[begin..n];
    LabelIs(name, begin, i);
    assert sub == name[begin..i] + [DOT] + name[i + 1..n];
    assert sub[..i - begin] == name[begin..i] && sub[i - begin + 1..] == name[i + 1..n];
    DottedCons(name[begin..i], name[i + 1..n]);
    if IsDotted(sub) {
      DottedUncons(sub, i - begin);
    }
  }

  /** n cuts the text into labels and a suffix that the map knows and that starts with a label. */
  ghost predicate Cuts(name: Bytes, begin: nat, n: nat, cmp: Offsets) {
    && begin <= n <= |name| && IsDotted(name[begin..n])
    && (n < |name| ==> Repeats(name[n..], cmp) && 0 < NextDot(name, n) - n <= MAX_LABEL)
  }

  /** With any map, the labels from begin on pass exactly when some n cuts them off from a known suffix, or takes all. */
  lemma {:induction false} ScansCut(name: Bytes, begin: nat, cmp: Offsets)
    requires begin <= |name| && Ended(name)
    requires if begin == 0 then name[0] != DOT else name[begin - 1] == DOT
    ensures Scans(name, begin, cmp) <==> exists n :: Cuts(name, begin, n, cmp)
    decreases |name| - begin
  {
    hide NextDot, Scans, IsDotted;
    Nothing();
    assert name[begin..begin] == [];
    if begin == |name| {
      ScanEnd(name, begin, cmp);
      assert Cuts(name, begin, begin, cmp);
    } else {
      var i := NextDot(name, begin);
      ScanStep(name, begin, i, cmp);
      ScansCut(name, i + 1, cmp);
      if Scans(name, begin, cmp) {
        if Repeats(name[begin..], cmp) {
          assert Cuts(name, begin, begin, cmp);
        } else {
          var n :| Cuts(name, i + 1, n, cmp);
          DottedFrom(name, begin, i, n);
          assert Cuts(name, begin, n, cmp);
        }
      }
      forall n | Cuts(name, begin, n, cmp) && n != begin ensures Scans(name, begin, cmp) {
        CutBehind(name, begin, i, n);
        DottedFrom(name, begin, i, n);
        assert Cuts(name, i + 1, n, cmp);
      }
    }
  }

  /** Labels with dots end behind a dot. */
  lemma CutBehind(name: Bytes, begin: nat, i: nat, n: nat)
    requires begin < n <= |name| && IsDotted(name[begin..n]) && begin <= i < |name|
    requires forall j :: begin <= j < i ==> name[j] != DOT
    ensures i < n && name[n - 1] == DOT
  {
    var sub := name[begin..n];
    var ls :| Labels(ls) && sub == Dotted(ls);
    DottedEnds(ls);
    assert sub[n - 1 - begin] == name[n - 1];
  }

  /** Whatever the map holds, these texts are accepted. */
  lemma AcceptedAnyMap(name: Bytes, cmp: Offsets)
    requires Ended(name)
    ensures var begin := if name[0] == DOT then 1 else 0;
      Scans(name, 0, cmp) <==> (exists n :: Cuts(name, begin, n, cmp)) || (name[0] == DOT && Repeats(name, cmp))
  {
    hide NextDot, Scans, Cuts;
    assert name[0..] == name;
    if name[0] == DOT {
      ScanStep(name, 0, 0, cmp);
      ScansCut(name, 1, cmp);
    } else {
      ScansCut(name, 0, cmp);
    }
  }

  lemma {:induction false} ScansDotted(name: Bytes, begin: nat, cmp: Offsets)
    requires begin <= |name| && Suffixes(cmp) && Ended(name)
    requires if begin == 0 then name[0] != DOT else name[begin - 1] == DOT
    ensures Scans(name, begin, cmp) <==> IsDotted(name[begin..])
    decreases |name| - begin
  {
    hide NextDot, Scans, Suffixes, IsDotted, Repeats;
    assert name[begin..|name|] == name[begin..];
    if begin == |name| {
      ScanEnd(name, begin, cmp);
      Nothing();
    } else {
      var i := NextDot(name, begin);
      ScanStep(name, begin, i, cmp);
      ScansDotted(name, i + 1, cmp);
      DottedFrom(name, begin, i, |name|);
      assert name[i + 1..|name|] == name[i + 1..];
      RepeatsLoose(name[begin..], cmp);
      if begin < i {
        assert name[begin..][0] != DOT;
      }
    }
  }

  lemma RepeatsLoose(sub: Bytes, cmp: Offsets)
    requires Suffixes(cmp)
    ensures Repeats(sub, cmp) ==> Loose(sub)
  {
  }

  /**
   * When the map holds only such suffixes, a text is accepted exactly when it is a dot, or labels of 1 to
   * 63 octets each with its dot, or such labels after one more dot: an empty label in front passes the
   * check for doubled dots.
   */
  lemma AcceptedTexts(name: Bytes, cmp: Offsets)
    requires Suffixes(cmp) && Ended(name)
    ensures Scans(name, 0, cmp) <==> Loose(name)
  {
    hide NextDot, Scans, Suffixes, IsDotted, Repeats;
    assert name[0..] == name;
    if name[0] == DOT {
      ScanStep(name, 0, 0, cmp);
      ScansDotted(name, 1, cmp);
      RepeatsLoose(name, cmp);
      NoLeadingDot(name);
    } else {
      ScansDotted(name, 0, cmp);
    }
  }

  /** So ".a." is accepted although it is the text of no name. */
  lemma LeadingDot()
    ensures var name := [DOT, 0x61, DOT]; Scans(name, 0, map[]) && forall ls :: Labels(ls) ==> Text(ls) != name
  {
    var name: Bytes := [DOT, 0x61, DOT];
    assert name[1..] == [0x61] + [DOT] + [];
    Nothing();
    DottedCons([0x61], []);
    AcceptedTexts(name, map[]);
    NoLeadingDot(name);
  }

  /** A suffix that was filed from a text of at most 255 octets is made of labels only if the text is accepted. */
  lemma FiledLoose(name: Bytes, base: nat, cmp: Offsets, b: nat)
    requires |name| <= MAX_NAME && NoNul(name) && Suffixes(cmp)
    requires b < Walk(name, 0, base, cmp).at && Start(name, b)
    ensures Loose(name[b..]) <==> Accepts(name, cmp)
  {
    hide NextDot, Scans, Suffixes, IsDotted, Walk, Repeats;
    SameNow(cmp, |name|);
    WalkScans(name, 0, base, cmp, cmp, b);
    var k := name[b..];
    assert name[0..] == name && k[|k| - 1] == name[|name| - 1];
    LooseEnds(k);
    if k[|k| - 1] == DOT {
      if b == 0 {
        AcceptedTexts(name, cmp);
      } else {
        WalkPasses(name, 0, base, cmp, b);
        ScansDotted(name, b, cmp);
      }
    }
  }

  lemma LooseEnds(k: Bytes)
    requires k != []
    ensures Loose(k) ==> k[|k| - 1] == DOT
  {
    if IsDotted(k) {
      var ls :| Labels(ls) && k == Dotted(ls);
      DottedEnds(ls);
    } else if k[0] == DOT && IsDotted(k[1..]) && |k| > 1 {
      var ls :| Labels(ls) && k[1..] == Dotted(ls);
      DottedEnds(ls);
      assert k[1..][|k| - 2] == k[|k| - 1];
    }
  }

  /** Only the very first label that is written can be empty. */
  lemma {:induction false} WalkPasses(name: Bytes, begin: nat, base: nat, cmp: Offsets, b: nat)
    requires Start(name, begin) && begin <= b < Walk(name, begin, base, cmp).at && Start(name, b) && b > 0
    ensures name[b] != DOT
    decreases |name| - begin
  {
    hide LabelBytes, NextDot, Filed;
    var i := NextDot(name, begin);
    if i < |name| && !Bad(name, begin, i) && !Repeats(name[begin..], cmp) {
      NoStart(name, begin, b);
      if b > i {
        WalkPasses(name, i + 1, base, Filed(cmp, name[begin..], base + begin), b);
      }
    }
  }

  /** The map keeps holding only such suffixes exactly when the text is accepted or leaves no trace. */
  lemma SuffixesKept(name: Bytes, base: nat, cmp: Offsets)
    requires |name| <= MAX_NAME && NoNul(name) && Suffixes(cmp)
    ensures var after := Walk(name, 0, base, cmp).after;
      Suffixes(after) <==> Accepts(name, cmp) || forall k :: Lookup(after, k) == Lookup(cmp, k)
  {
    hide Lookup, Walk, Loose, Accepts, NoNul;
    var w := Walk(name, 0, base, cmp);
    forall k ensures Lookup(w.after, k) != 0 && Lookup(w.after, k) != Lookup(cmp, k) ==>
      (Loose(k) <==> Accepts(name, cmp))
    {
      WalkFiles(name, 0, base, cmp, k);
      if Lookup(w.after, k) != Lookup(cmp, k) {
        FiledLoose(name, base, cmp, |name| - |k|);
      }
    }
    forall k ensures Lookup(w.after, k) == 0 ==> Lookup(cmp, k) == 0 {
      WalkFiles(name, 0, base, cmp, k);
      WalkKeeps(name, 0, base, cmp, k);
    }
  }

  /** An entry is never replaced. */
  lemma {:induction false} WalkKeeps(name: Bytes, begin: nat, base: nat, cmp: Offsets, k: Bytes)
    requires begin <= |name|
    ensures Lookup(cmp, k) != 0 ==> Lookup(Walk(name, begin, base, cmp).after, k) == Lookup(cmp, k)
    decreases |name| - begin
  {
    hide LabelBytes, NextDot;
    var i := NextDot(name, begin);
    if i < |name| && !Bad(name, begin, i) && !Repeats(name[begin..], cmp) {
      WalkKeeps(name, i + 1, base, Filed(cmp, name[begin..], base + begin), k);
    }
  }

  /** "a.." is refused, but what it leaves in the map makes it accepted the next time. */
  lemma SecondTry(base: nat)
    requires 0 < base < MAX_OFFSET
    ensures var name := [0x61, DOT, DOT]; var after := Walk(name, 0, base, map[]).after;
      !Accepts(name, map[]) && Accepts(name, after) && !Loose(name)
  {
    var name: Bytes := [0x61, DOT, DOT];
    var after := Walk(name, 0, base, map[]).after;
    assert name[0..] == name;
    NextDotIs(name, 0, 1);
    NextDotIs(name, 2, 2);
    ScanStep(name, 0, 1, map[]);
    ScanStep(name, 2, 2, map[]);
    WalkGoes(name, 0, base, map[]);
    WalkStops(name, 2, base, Filed(map[], name, base));
    assert Lookup(after, name) == base;
    ScanStep(name, 0, 1, after);
    AcceptedTexts(name, map[]);
  }
}
