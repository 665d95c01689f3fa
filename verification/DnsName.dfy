/** DNS names on the wire, with compression (src/dns.c, section 4.1.4 of RFC 1035). */
module DnsName {
  import opened Bytes

  const MAX_NAME: nat := 255
  const MAX_LABEL: nat := 63
  const MAX_POINTERS: nat := 10
  /** Pointers have fourteen bits. */
  const MAX_OFFSET: nat := 16384
  const DOT: byte := 0x2e

  // ----- Names as text

  /** An octet of a label as it appears in text, and back. */
  function ToText(b: byte): byte {
    if b == 0 then 0xff else if b == DOT then 0xfe else b
  }

  function ToWire(b: byte): byte {
    if b == 0xff then 0 else if b == 0xfe then DOT else b
  }

  function TextOf(s: Bytes): (r: Bytes)
    ensures |r| == |s|
  {
    seq(|s|, i requires 0 <= i < |s| => ToText(s[i]))
  }

  function WireOf(s: Bytes): (r: Bytes)
    ensures |r| == |s|
  {
    seq(|s|, i requires 0 <= i < |s| => ToWire(s[i]))
  }

  /** A label in text: 1 to 63 octets, no zero and no dot among them. */
  predicate Label(s: Bytes) {
    0 < |s| <= MAX_LABEL && forall i :: 0 <= i < |s| ==> s[i] != 0 && s[i] != DOT
  }

  predicate Labels(ls: seq<Bytes>) {
    forall i :: 0 <= i < |ls| ==> Label(ls[i])
  }

  /** Labels, each with its dot. */
  function Dotted(ls: seq<Bytes>): (r: Bytes)
    ensures ls == [] <==> r == []
  {
    if ls == [] then [] else ls[0] + [DOT] + Dotted(ls[1..])
  }

  /** The text of a name; the root is a dot. */
  function Text(ls: seq<Bytes>): Bytes {
    if ls == [] then [DOT] else Dotted(ls)
  }

  predicate Name(ls: seq<Bytes>) {
    Labels(ls) && |Dotted(ls)| <= MAX_NAME
  }

  lemma TextRoundTrip(s: Bytes)
    requires Label(s)
    ensures TextOf(WireOf(s)) == s
  {
  }

  function FirstDot(s: Bytes): nat {
    if s == [] || s[0] == DOT then 0 else 1 + FirstDot(s[1..])
  }

  lemma {:induction false} FirstDotIs(l: Bytes, rest: Bytes)
    requires forall i :: 0 <= i < |l| ==> l[i] != DOT
    ensures FirstDot(l + [DOT] + rest) == |l|
  {
    if l != [] {
      assert (l + [DOT] + rest)[1..] == l[1..] + [DOT] + rest;
      FirstDotIs(l[1..], rest);
    }
  }

  /** Different names have different texts. */
  lemma {:induction false} DottedInjective(a: seq<Bytes>, b: seq<Bytes>)
    requires Labels(a) && Labels(b) && Dotted(a) == Dotted(b)
    ensures a == b
    decreases |a|
  {
    if a != [] {
      var s := Dotted(a);
      FirstDotIs(a[0], Dotted(a[1..]));
      FirstDotIs(b[0], Dotted(b[1..]));
      assert a[0] == s[..|a[0]|] == b[0];
      assert Dotted(a[1..]) == s[|a[0]| + 1..] == Dotted(b[1..]);
      DottedInjective(a[1..], b[1..]);
      assert a == [a[0]] + a[1..] && b == [b[0]] + b[1..];
    }
  }

  // ----- Names on the wire

  /** Following lengths and pointers from o on spells exactly these labels, by way of `pointers` pointers. */
  predicate Spells(m: Bytes, o: nat, labels: seq<Bytes>, pointers: nat)
    decreases |labels| + pointers
  {
    o < |m| &&
    var c := m[o] as int;
    if c == 0 then labels == [] && pointers == 0
    else if c <= MAX_LABEL then
      && labels != [] && |labels[0]| == c && o + 1 + c <= |m| && m[o + 1..o + 1 + c] == labels[0]
      && Spells(m, o + 1 + c, labels[1..], pointers)
    else if c >= 0xc0 then
      pointers > 0 && o + 1 < |m| && Spells(m, (c - 0xc0) * 256 + m[o + 1] as int, labels, pointers - 1)
    else false
  }

  /** What is spelled stays spelled when the message grows. */
  lemma {:induction false} SpellsGrows(m: Bytes, x: Bytes, o: nat, labels: seq<Bytes>, pointers: nat)
    requires Spells(m, o, labels, pointers)
    ensures Spells(m + x, o, labels, pointers)
    decreases |labels| + pointers
  {
    var n := m + x;
    assert n[o] == m[o];
    var c := m[o] as int;
    if c == 0 {
    } else if c <= MAX_LABEL {
      assert n[o + 1..o + 1 + c] == m[o + 1..o + 1 + c];
      SpellsGrows(m, x, o + 1 + c, labels[1..], pointers);
    } else {
      assert n[o + 1] == m[o + 1];
      SpellsGrows(m, x, (c - 0xc0) * 256 + m[o + 1] as int, labels, pointers - 1);
    }
  }

  function WireLabels(ls: seq<Bytes>): (r: seq<Bytes>)
    ensures |r| == |ls|
  {
    seq(|ls|, i requires 0 <= i < |ls| => WireOf(ls[i]))
  }

  function TextLabels(ws: seq<Bytes>): (r: seq<Bytes>)
    ensures |r| == |ws|
  {
    seq(|ws|, i requires 0 <= i < |ws| => TextOf(ws[i]))
  }

  lemma LabelsRoundTrip(ls: seq<Bytes>)
    requires Labels(ls)
    ensures TextLabels(WireLabels(ls)) == ls
  {
    forall i | 0 <= i < |ls| ensures TextLabels(WireLabels(ls))[i] == ls[i] {
      TextRoundTrip(ls[i]);
    }
  }

  // ----- Reading

  function WithLabel(l: Bytes, rest: Option<(Bytes, nat)>): Option<(Bytes, nat)> {
    if rest.None? then None else Some((l + [DOT] + rest.value.0, rest.value.1))
  }

  function EndingAt(o: nat, rest: Option<(Bytes, nat)>): Option<(Bytes, nat)> {
    if rest.None? then None else Some((rest.value.0, o))
  }

  /**
   * The text read from o on, and where the name ends at the place it started from; `length` is the
   * text read before, `pointers` the pointers followed before, and `end` the end of the window.
   */
  function Read(m: Bytes, o: nat, end: nat, follow: bool, length: nat, pointers: nat): (r: Option<(Bytes, nat)>)
    requires end <= |m| && length <= MAX_NAME && pointers <= MAX_POINTERS
    decreases MAX_POINTERS - pointers, MAX_NAME - length
  {
    if o >= end then None
    else
      var c := m[o] as int;
      if c == 0 then Some(([], o + 1))
      else if c <= MAX_LABEL then
        if o + 1 + c > end || length + c + 1 > MAX_NAME then None
        else
          WithLabel(TextOf(m[o + 1..o + 1 + c]), Read(m, o + 1 + c, end, follow, length + c + 1, pointers))
      else if c >= 0xc0 then
        if !follow || o + 1 >= end || pointers + 1 > MAX_POINTERS then None
        else
          EndingAt(o + 2, Read(m, (c - 0xc0) * 256 + m[o + 1] as int, |m|, follow, length, pointers + 1))
      else None
  }

  /** The name at a place in a message and the octets it takes there, if there is one. */
  function Parsed(m: Bytes, start: nat, end: nat, follow: bool): Option<(Bytes, nat)>
    requires end <= |m|
  {
    match Read(m, start, end, follow, 0, 0)
    case None => None
    case Some(r) => Some((if r.0 == [] then [DOT] else r.0, r.1))
  }

  /** A spelled name is read exactly when no more than ten pointers are on the way. */
  lemma {:induction false} ReadSpells(m: Bytes, o: nat, ws: seq<Bytes>, d: nat, length: nat, pointers: nat)
    requires Spells(m, o, ws, d) && length + |Dotted(TextLabels(ws))| <= MAX_NAME && pointers <= MAX_POINTERS
    ensures Read(m, o, |m|, true, length, pointers).Some? <==> pointers + d <= MAX_POINTERS
    ensures Read(m, o, |m|, true, length, pointers).Some? ==>
      Read(m, o, |m|, true, length, pointers).value.0 == Dotted(TextLabels(ws))
    decreases |ws| + d
  {
    var c := m[o] as int;
    if c == 0 {
    } else if c <= MAX_LABEL {
      assert TextLabels(ws)[1..] == TextLabels(ws[1..]);
      ReadSpells(m, o + 1 + c, ws[1..], d, length + c + 1, pointers);
    } else if pointers < MAX_POINTERS {
      ReadSpells(m, (c - 0xc0) * 256 + m[o + 1] as int, ws, d - 1, length, pointers + 1);
    }
  }

  /** What reading does at an octet. */
  lemma ReadAt(m: Bytes, o: nat, end: nat, follow: bool, length: nat, pointers: nat)
    requires end <= |m| && length <= MAX_NAME && pointers <= MAX_POINTERS
    ensures o >= end ==> Read(m, o, end, follow, length, pointers) == None
    ensures o < end && m[o] == 0 ==> Read(m, o, end, follow, length, pointers) == Some(([], o + 1))
    ensures o < end && MAX_LABEL < m[o] < 0xc0 ==> Read(m, o, end, follow, length, pointers) == None
  {
  }

  lemma ReadLabel(m: Bytes, o: nat, end: nat, follow: bool, length: nat, pointers: nat, c: nat)
    requires o < end <= |m| && length <= MAX_NAME && pointers <= MAX_POINTERS && c == m[o] && 0 < c <= MAX_LABEL
    ensures Read(m, o, end, follow, length, pointers) ==
      if o + 1 + c > end || length + c + 1 > MAX_NAME then None
      else WithLabel(TextOf(m[o + 1..o + 1 + c]), Read(m, o + 1 + c, end, follow, length + c + 1, pointers))
  {
  }

  lemma ReadPointer(m: Bytes, o: nat, end: nat, follow: bool, length: nat, pointers: nat, c: nat)
    requires o < end <= |m| && length <= MAX_NAME && pointers <= MAX_POINTERS && c == m[o] && c >= 0xc0
    ensures Read(m, o, end, follow, length, pointers) ==
      if !follow || o + 1 >= end || pointers + 1 > MAX_POINTERS then None
      else EndingAt(o + 2, Read(m, (c - 0xc0) * 256 + m[o + 1] as int, |m|, follow, length, pointers + 1))
  {
  }

  /** The name at `start` in a message, following lengths and pointers. */
  method Parse(m: Bytes, start: nat, end: nat, follow: bool) returns (r: Option<(Bytes, nat)>)
    requires end <= |m|
    ensures r == Parsed(m, start, end, follow)
  {
    hide TextOf, Read;
    var o: nat, limit: nat, name: Bytes, res: nat, pointers: nat := start, end, [], 0, 0;
    ResumedStart(Read(m, start, end, follow, 0, 0));
    while true
      invariant limit <= |m| && |name| <= MAX_NAME && pointers <= MAX_POINTERS
      invariant Read(m, start, end, follow, 0, 0) == Resumed(name, pointers, res, Read(m, o, limit, follow, |name|, pointers))
      decreases MAX_POINTERS - pointers, MAX_NAME - |name|
    {
      ReadAt(m, o, limit, follow, |name|, pointers);
      if o >= limit {
        return None;
      }
      var c := m[o] as int;
      if c == 0 {
        if pointers == 0 {
          res := o + 1;
        }
        assert name + [] == name;
        return Some((if name == [] then [DOT] else name, res));
      } else if c <= MAX_LABEL {
        ReadLabel(m, o, limit, follow, |name|, pointers, c);
        if o + 1 + c > limit || |name| + c + 1 > MAX_NAME {
          return None;
        }
        ghost var was := name;
        name := name + TextOf(m[o + 1..o + 1 + c]) + [DOT];
        ResumedLabel(was, TextOf(m[o + 1..o + 1 + c]), pointers, res, Read(m, o + 1 + c, limit, follow, |name|, pointers));
        o := o + 1 + c;
      } else if c >= 0xc0 {
        ReadPointer(m, o, limit, follow, |name|, pointers, c);
        if !follow || o + 1 >= limit {
          return None;
        }
        if pointers == 0 {
          res := o + 2;
        }
        if pointers + 1 > MAX_POINTERS {
          return None;
        }
        pointers := pointers + 1;
        o, limit := (c - 0xc0) * 256 + m[o + 1] as int, |m|;
      } else {
        return None;
      }
    }
  }

  /** A read that goes on after some text; past the first pointer, the end is known. */
  function Resumed(name: Bytes, pointers: nat, res: nat, rest: Option<(Bytes, nat)>): Option<(Bytes, nat)> {
    if rest.None? then None else Some((name + rest.value.0, if pointers == 0 then rest.value.1 else res))
  }

  lemma ResumedStart(rest: Option<(Bytes, nat)>)
    ensures Resumed([], 0, 0, rest) == rest
  {
    if rest.Some? {
      assert [] + rest.value.0 == rest.value.0;
    }
  }

  lemma ResumedLabel(name: Bytes, l: Bytes, pointers: nat, res: nat, rest: Option<(Bytes, nat)>)
    ensures Resumed(name + l + [DOT], pointers, res, rest) == Resumed(name, pointers, res, WithLabel(l, rest))
  {
    if rest.Some? {
      assert name + l + [DOT] + rest.value.0 == name + (l + [DOT] + rest.value.0);
    }
  }

  /** Where the octets of a name end: after its zero, or after its first pointer. */
  function Extent(m: Bytes, o: nat): nat
    decreases |m| - o
  {
    if o >= |m| then o
    else
      var c := m[o] as int;
      if c == 0 then o + 1 else if c <= MAX_LABEL then Extent(m, o + 1 + c) else o + 2
  }

  lemma {:induction false} ReadExtent(m: Bytes, o: nat, follow: bool, length: nat, pointers: nat)
    requires length <= MAX_NAME && pointers <= MAX_POINTERS && Read(m, o, |m|, follow, length, pointers).Some?
    ensures Read(m, o, |m|, follow, length, pointers).value.1 == Extent(m, o)
    decreases MAX_NAME - length
  {
    hide TextOf;
    var c := m[o] as int;
    if 0 < c <= MAX_LABEL {
      ReadExtent(m, o + 1 + c, follow, length + c + 1, pointers);
    }
  }

  /** A name that is read ends within its window, after where it started. */
  lemma {:induction false} ReadEnds(m: Bytes, o: nat, end: nat, follow: bool, length: nat, pointers: nat)
    requires end <= |m| && length <= MAX_NAME && pointers <= MAX_POINTERS && Read(m, o, end, follow, length, pointers).Some?
    ensures o < Read(m, o, end, follow, length, pointers).value.1 <= end
    decreases MAX_NAME - length
  {
    hide TextOf;
    var c := m[o] as int;
    if 0 < c <= MAX_LABEL {
      ReadEnds(m, o + 1 + c, end, follow, length + c + 1, pointers);
    }
  }

  /** A spelled name parses back, to its text and its extent, exactly when no more than ten pointers are on the way. */
  lemma ParsedSpells(m: Bytes, o: nat, ls: seq<Bytes>, d: nat)
    requires Name(ls) && Spells(m, o, WireLabels(ls), d)
    ensures Parsed(m, o, |m|, true) == if d <= MAX_POINTERS then Some((Text(ls), Extent(m, o))) else None
  {
    hide Read, Spells, TextLabels, WireLabels;
    LabelsRoundTrip(ls);
    ReadSpells(m, o, WireLabels(ls), d, 0, 0);
    if Read(m, o, |m|, true, 0, 0).Some? {
      ReadExtent(m, o, true, 0, 0);
    }
  }
}
