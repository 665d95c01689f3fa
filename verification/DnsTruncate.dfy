/** Cutting a DNS message down to a size (src/dns.c). */
module DnsTruncate {
  import opened Bytes
  import opened DnsName

  function U16(m: Bytes, o: nat): nat
    requires o + 2 <= |m|
  {
    m[o] as int * 256 + m[o + 1] as int
  }

  /** Where the record at o ends, unless it is malformed. */
  function RecordEnd(m: Bytes, o: nat, question: bool): (r: Option<nat>)
    ensures r.Some? ==> o < r.value <= |m|
  {
    var name := Read(m, o, |m|, true, 0, 0);
    if name.None? then None
    else
      ReadEnds(m, o, |m|, true, 0, 0);
      var p := name.value.1;
      if question then (if |m| - p < 4 then None else Some(p + 4))
      else if |m| - p < 10 then None
      else
        var q := p + 10 + U16(m, p + 8);
        if q > |m| then None else Some(q)
  }

  /** How many records section s announces: questions, answers, authorities, additionals. */
  function Count(m: Bytes, s: nat): nat
    requires |m| >= 12 && s < 4
  {
    U16(m, 4 + 2 * s)
  }

  /** How many records stand before section s. */
  function Prefix(m: Bytes, s: nat): nat
    requires |m| >= 12 && s <= 4
  {
    if s == 0 then 0 else Prefix(m, s - 1) + Count(m, s - 1)
  }

  /** Where the first k records end, unless one of them is malformed. */
  function Boundary(m: Bytes, k: nat): (r: Option<nat>)
    requires |m| >= 12
    ensures r.Some? ==> 12 <= r.value <= |m|
  {
    if k == 0 then Some(12)
    else
      match Boundary(m, k - 1)
      case None => None
      case Some(o) => RecordEnd(m, o, k - 1 < Count(m, 0))
  }

  lemma {:induction false} BoundaryGrows(m: Bytes, j: nat, k: nat)
    requires |m| >= 12 && j < k && Boundary(m, k).Some?
    ensures Boundary(m, j).Some? && Boundary(m, j).value < Boundary(m, k).value
    decreases k
  {
    hide RecordEnd;
    if j < k - 1 {
      BoundaryGrows(m, j, k - 1);
    }
  }

  /** How many of the first k records are in section s. */
  function Kept(m: Bytes, k: nat, s: nat): nat
    requires |m| >= 12 && s < 4
  {
    var before := Prefix(m, s);
    if k <= before then 0 else if k - before <= Count(m, s) then k - before else Count(m, s)
  }

  /**
   * k is the number of whole records that fit: the first k end within max, and if there is
   * another one it does not.
   */
  predicate Fits(m: Bytes, max: nat, k: nat)
    requires |m| >= 12
  {
    && k <= Prefix(m, 4) && Boundary(m, k).Some? && Boundary(m, k).value <= max
    && (k < Prefix(m, 4) && Boundary(m, k + 1).Some? ==> Boundary(m, k + 1).value > max)
  }

  /** No longer run of whole records fits. */
  lemma FitsLongest(m: Bytes, max: nat, k: nat, j: nat)
    requires |m| >= 12 && Fits(m, max, k) && k < j <= Prefix(m, 4) && Boundary(m, j).Some?
    ensures Boundary(m, j).value > max
  {
    hide Prefix, Boundary;
    if j > k + 1 {
      BoundaryGrows(m, k + 1, j);
    }
  }

  method ReadRecord(m: Bytes, o: nat, question: bool) returns (r: Option<nat>)
    ensures r == RecordEnd(m, o, question)
  {
    hide Read;
    var name := Parse(m, o, |m|, true);
    if name.None? {
      return None;
    }
    ReadEnds(m, o, |m|, true, 0, 0);
    var p := name.value.1;
    if question {
      if |m| - p < 4 {
        return None;
      }
      return Some(p + 4);
    }
    if |m| - p < 8 {
      return None;
    }
    p := p + 8;
    if |m| - p < 2 {
      return None;
    }
    var rdlen := U16(m, p);
    p := p + 2;
    if |m| - p < rdlen {
      return None;
    }
    return Some(p + rdlen);
  }

  /**
   * The records of one section, from o on: how many of them end within max, where the last of these ends,
   * and where the cursor stands. It stops at the first record that ends beyond max or is malformed.
   */
  method Section(m: Bytes, o: nat, first: nat, count: nat, max: nat, question: bool)
    returns (ok: bool, data: nat, last: nat, j: nat)
    requires |m| >= 12 && Boundary(m, first) == Some(o) && o <= max
    requires if question then first + count <= Count(m, 0) else Count(m, 0) <= first
    ensures j <= count && Boundary(m, first + j) == Some(last) && last <= max
    ensures !ok ==> j < count && Boundary(m, first + j + 1).None?
    ensures ok && j == count ==> data == last
    ensures ok && j < count ==> Boundary(m, first + j + 1) == Some(data) && data > max
  {
    hide RecordEnd, U16, Read;
    data, last, j := o, o, 0;
    var i := 0;
    while data <= max
      invariant 0 <= i <= count && j <= i && last <= max && Boundary(m, first + j) == Some(last)
      invariant Boundary(m, first + i) == Some(data)
      invariant data <= max ==> (i == 0 ==> last == data && j == 0)
      invariant data > max ==> i == j + 1
      decreases count - i, if data <= max then 1 else 0
    {
      last := data;
      j := i;
      if i == count {
        return true, data, last, j;
      }
      i := i + 1;
      var r := ReadRecord(m, data, question);
      if r.None? {
        return false, data, last, j;
      }
      data := r.value;
    }
    ok := true;
  }

  /** Counts what fits, section by section; the cursor goes past max once a record does not fit. */
  method Scan(m: Bytes, max: nat) returns (ok: bool, last: nat, counts: seq<nat>, ghost k: nat)
    requires |m| >= 12 && max >= 12
    ensures Fits(m, max, k) && Boundary(m, k) == Some(last)
    ensures ok <==> k == Prefix(m, 4) || Boundary(m, k + 1).Some?
    ensures ok ==> |counts| == 4 && forall s :: 0 <= s < 4 ==> counts[s] == Kept(m, k, s)
  {
    hide Boundary, U16, Prefix, Kept;
    PrefixZero(m);
    BoundaryZero(m);
    var data: nat := 12;
    last, counts, k := 12, [], 0;
    for s := 0 to 4
      invariant |counts| == s && Boundary(m, k) == Some(last) && last <= max
      invariant data <= max ==> k == Prefix(m, s) && data == last
      invariant data > max ==> k < Prefix(m, s) && Boundary(m, k + 1) == Some(data)
      invariant k <= Prefix(m, s) && forall t :: 0 <= t < s ==> counts[t] == Kept(m, k, t)
    {
      PrefixNext(m, s);
      ghost var before := k;
      var j := 0;
      if data <= max {
        ok, data, last, j := Section(m, data, Prefix(m, s), Count(m, s), max, s == 0);
        k := k + j;
        if !ok {
          PrefixGrows(m, s + 1, 4);
          return;
        }
      }
      KeptHere(m, before, k, s, j);
      counts := counts + [j];
    }
    ok := true;
  }

  lemma PrefixZero(m: Bytes)
    requires |m| >= 12
    ensures Prefix(m, 0) == 0
  {
  }

  lemma BoundaryZero(m: Bytes)
    requires |m| >= 12
    ensures Boundary(m, 0) == Some(12)
  {
  }

  lemma PrefixNext(m: Bytes, s: nat)
    requires |m| >= 12 && s < 4
    ensures Prefix(m, s + 1) == Prefix(m, s) + Count(m, s) && (s == 0 || Count(m, 0) <= Prefix(m, s))
    ensures Prefix(m, 0) == 0
  {
    hide U16;
    if s > 0 {
      PrefixGrows(m, 1, s);
      assert Prefix(m, 1) == Prefix(m, 0) + Count(m, 0);
    }
  }

  lemma {:induction false} PrefixGrows(m: Bytes, s: nat, t: nat)
    requires |m| >= 12 && s <= t <= 4
    ensures Prefix(m, s) <= Prefix(m, t)
    decreases t
  {
    hide U16;
    if s < t {
      PrefixGrows(m, s, t - 1);
    }
  }

  /** A section that was counted adds its records and changes nothing for those before it. */
  lemma KeptHere(m: Bytes, before: nat, k: nat, s: nat, j: nat)
    requires |m| >= 12 && s < 4 && j <= Count(m, s)
    requires (before == Prefix(m, s) && k == before + j) || (before < Prefix(m, s) && k == before && j == 0)
    ensures j == Kept(m, k, s) && forall t :: 0 <= t < s ==> Kept(m, k, t) == Kept(m, before, t)
  {
    hide U16, Prefix;
    forall t | 0 <= t < s ensures Kept(m, k, t) == Kept(m, before, t) {
      PrefixNext(m, t);
      PrefixGrows(m, t + 1, s);
    }
  }

  /** Writes the four counts of the header. */
  method PutCounts(msg: array<byte>, counts: seq<nat>)
    requires msg.Length >= 12 && |counts| == 4 && forall s :: 0 <= s < 4 ==> counts[s] < 65536
    modifies msg
    ensures msg[..4] == old(msg[..4]) && msg[12..] == old(msg[12..])
    ensures forall s :: 0 <= s < 4 ==> Count(msg[..], s) == counts[s]
  {
    for s := 0 to 4
      invariant msg[..4] == old(msg[..4]) && msg[12..] == old(msg[12..])
      invariant forall t :: 0 <= t < s ==> msg[4 + 2 * t] as int * 256 + msg[5 + 2 * t] as int == counts[t]
    {
      msg[4 + 2 * s] := counts[s] / 256 % 256;
      msg[5 + 2 * s] := counts[s] % 256;
    }
  }

  lemma KeptSmall(m: Bytes, k: nat, s: nat)
    requires |m| >= 12 && s < 4
    ensures Kept(m, k, s) <= Count(m, s) < 65536
  {
    hide Prefix;
  }

  /**
   * A message longer than max is cut after the last whole record that ends within max, and each count is
   * that of the whole records kept in its section. It fails only on a malformed record that it meets
   * on the way, that is, no later than the first record that does not fit.
   */
  method Truncate(msg: array<byte>, max: nat) returns (ok: bool, len: nat, ghost k: nat)
    modifies msg
    ensures msg.Length < 12 || max < 12 ==> !ok
    ensures !ok || msg.Length <= max ==> msg[..] == old(msg[..])
    ensures 12 <= msg.Length <= max ==> ok && len == msg.Length
    ensures msg.Length > max >= 12 ==>
      Fits(old(msg[..]), max, k) && (ok <==> k == Prefix(old(msg[..]), 4) || Boundary(old(msg[..]), k + 1).Some?)
    ensures msg.Length > max >= 12 && ok ==>
      len == Boundary(old(msg[..]), k).value && msg[..4] == old(msg[..4]) && msg[12..] == old(msg[12..])
    ensures msg.Length > max >= 12 && ok ==>
      forall s :: 0 <= s < 4 ==> Count(msg[..], s) == Kept(old(msg[..]), k, s)
  {
    hide Boundary, Prefix, U16, Kept;
    len, k := 0, 0;
    if msg.Length < 12 {
      return false, len, k;
    }
    if max < 12 {
      return false, len, k;
    }
    if msg.Length <= max {
      return true, msg.Length, k;
    }
    ghost var m := msg[..];
    var counts;
    ok, len, counts, k := Scan(msg[..], max);
    if ok {
      forall s | 0 <= s < 4 ensures counts[s] < 65536 {
        KeptSmall(m, k, s);
      }
      PutCounts(msg, counts);
    }
  }

  /** On a message whose records are all well formed, truncation succeeds. */
  lemma WellFormedFits(m: Bytes, max: nat, k: nat)
    requires |m| >= 12 && Boundary(m, Prefix(m, 4)).Some? && Fits(m, max, k)
    ensures k == Prefix(m, 4) || Boundary(m, k + 1).Some?
  {
    hide Boundary, Prefix;
    if k + 1 < Prefix(m, 4) {
      BoundaryGrows(m, k + 1, Prefix(m, 4));
    }
  }

  /** At most one run of whole records fits in this sense. */
  lemma FitsUnique(m: Bytes, max: nat, j: nat, k: nat)
    requires |m| >= 12 && Fits(m, max, j) && Fits(m, max, k)
    ensures j == k
  {
    hide Boundary, Prefix;
    if j < k {
      FitsLongest(m, max, j, k);
    } else if k < j {
      FitsLongest(m, max, k, j);
    }
  }

  // ----- Reading what is left

  /** Every octet that reading the name at o looks at lies before len. */
  predicate Below(m: Bytes, o: nat, len: nat, length: nat, pointers: nat)
    requires length <= MAX_NAME && pointers <= MAX_POINTERS
    decreases MAX_POINTERS - pointers, MAX_NAME - length
  {
    o < len && (o < |m| ==>
      var c := m[o] as int;
      if c == 0 then true
      else if c <= MAX_LABEL then
        o + c < len && (length + c + 1 <= MAX_NAME ==> Below(m, o + 1 + c, len, length + c + 1, pointers))
      else if c >= 0xc0 then
        o + 1 < len && (o + 1 < |m| && pointers < MAX_POINTERS ==>
          Below(m, (c - 0xc0) * 256 + m[o + 1] as int, len, length, pointers + 1))
      else true)
  }

  /** None of them is one of the eight octets of the counts. */
  predicate Avoids(m: Bytes, o: nat, length: nat, pointers: nat)
    requires length <= MAX_NAME && pointers <= MAX_POINTERS
    decreases MAX_POINTERS - pointers, MAX_NAME - length
  {
    !(4 <= o < 12) && (o < |m| ==>
      var c := m[o] as int;
      if c == 0 then true
      else if c <= MAX_LABEL then
        (o + c < 4 || o >= 12) && (length + c + 1 <= MAX_NAME ==> Avoids(m, o + 1 + c, length + c + 1, pointers))
      else if c >= 0xc0 then
        o + 1 != 4 && (o + 1 < |m| && pointers < MAX_POINTERS ==>
          Avoids(m, (c - 0xc0) * 256 + m[o + 1] as int, length, pointers + 1))
      else true)
  }

  /** In a message that is cut off at len a name can be read exactly when it could before, from octets before len. */
  lemma {:induction false} ReadCut(m: Bytes, o: nat, len: nat, length: nat, pointers: nat)
    requires len <= |m| && length <= MAX_NAME && pointers <= MAX_POINTERS
    ensures var r := Read(m[..len], o, len, true, length, pointers); var q := Read(m, o, |m|, true, length, pointers);
      (r.Some? <==> q.Some? && Below(m, o, len, length, pointers)) && (r.Some? ==> r == q)
    decreases MAX_POINTERS - pointers, MAX_NAME - length
  {
    hide TextOf, Read;
    var n := m[..len];
    ReadAt(n, o, len, true, length, pointers);
    ReadAt(m, o, |m|, true, length, pointers);
    if o < len {
      var c := m[o] as int;
      assert n[o] == m[o];
      if 0 < c <= MAX_LABEL {
        ReadLabel(n, o, len, true, length, pointers, c);
        ReadLabel(m, o, |m|, true, length, pointers, c);
        if o + 1 + c <= len && length + c + 1 <= MAX_NAME {
          assert n[o + 1..o + 1 + c] == m[o + 1..o + 1 + c];
          ReadCut(m, o + 1 + c, len, length + c + 1, pointers);
        }
      } else if c >= 0xc0 {
        ReadPointer(n, o, len, true, length, pointers, c);
        ReadPointer(m, o, |m|, true, length, pointers, c);
        if o + 1 < len && pointers < MAX_POINTERS {
          assert n[o + 1] == m[o + 1];
          ReadCut(m, (c - 0xc0) * 256 + m[o + 1] as int, len, length, pointers + 1);
        }
      }
    }
  }

  /** m and n differ at most in their counts. */
  predicate SameButCounts(m: Bytes, n: Bytes) {
    |m| == |n| >= 12 && m[..4] == n[..4] && m[12..] == n[12..]
  }

  lemma SameOctet(m: Bytes, n: Bytes, o: nat)
    requires SameButCounts(m, n) && o < |m| && !(4 <= o < 12)
    ensures m[o] == n[o]
  {
    if o < 4 {
      assert m[..4][o] == n[..4][o];
    } else {
      assert m[12..][o - 12] == n[12..][o - 12];
    }
  }

  /** A name that stays away from the counts reads the same whatever they are. */
  lemma {:induction false} ReadCounts(m: Bytes, n: Bytes, o: nat, len: nat, length: nat, pointers: nat)
    requires SameButCounts(m, n) && length <= MAX_NAME && pointers <= MAX_POINTERS && Avoids(m, o, length, pointers)
    ensures Read(m, o, |m|, true, length, pointers) == Read(n, o, |n|, true, length, pointers)
    ensures Below(m, o, len, length, pointers) == Below(n, o, len, length, pointers)
    decreases MAX_POINTERS - pointers, MAX_NAME - length
  {
    hide TextOf, SameButCounts, Read;
    SameSize(m, n);
    ReadAt(m, o, |m|, true, length, pointers);
    ReadAt(n, o, |n|, true, length, pointers);
    if o < |m| {
      SameOctet(m, n, o);
      var c := m[o] as int;
      if 0 < c <= MAX_LABEL {
        ReadLabel(m, o, |m|, true, length, pointers, c);
        ReadLabel(n, o, |n|, true, length, pointers, c);
        if length + c + 1 <= MAX_NAME {
          if o + 1 + c <= |m| {
            SameLabel(m, n, o + 1, c);
          }
          ReadCounts(m, n, o + 1 + c, len, length + c + 1, pointers);
        }
      } else if c >= 0xc0 {
        ReadPointer(m, o, |m|, true, length, pointers, c);
        ReadPointer(n, o, |n|, true, length, pointers, c);
        if o + 1 < |m| {
          SameOctet(m, n, o + 1);
          if pointers < MAX_POINTERS {
            ReadCounts(m, n, (c - 0xc0) * 256 + m[o + 1] as int, len, length, pointers + 1);
          }
        }
      }
    }
  }

  lemma SameLabel(m: Bytes, n: Bytes, o: nat, c: nat)
    requires SameButCounts(m, n) && o + c <= |m| && (o + c <= 4 || o >= 12)
    ensures m[o..o + c] == n[o..o + c]
  {
    hide SameButCounts;
    SameSize(m, n);
    forall i | o <= i < o + c ensures m[i] == n[i] {
      SameOctet(m, n, i);
    }
  }

  lemma SameSize(m: Bytes, n: Bytes)
    requires SameButCounts(m, n)
    ensures |m| == |n|
  {
  }

  /** The name at o can still be read from the first len octets. */
  predicate Stays(m: Bytes, o: nat, len: nat) {
    Read(m, o, |m|, true, 0, 0).Some? && Below(m, o, len, 0, 0)
  }

  /** A whole record before the cut is read in what is left exactly when its name stays before the cut. */
  lemma RecordCut(m: Bytes, n: Bytes, o: nat, question: bool, len: nat)
    requires SameButCounts(m, n) && 12 <= o && len <= |m|
    requires RecordEnd(m, o, question).Some? && RecordEnd(m, o, question).value <= len
    ensures var r := RecordEnd(n[..len], o, question);
      (r.Some? <==> Stays(n, o, len)) && (r.Some? ==> r == RecordEnd(m, o, question))
  {
    hide Read, Below;
    ReadCut(n, o, len, 0, 0);
    ReadEnds(m, o, |m|, true, 0, 0);
    ReadExtent(m, o, true, 0, 0);
    SameExtent(m, n, o);
    if Stays(n, o, len) {
      ReadExtent(n, o, true, 0, 0);
      var p := Extent(m, o);
      if !question {
        SameOctet(m, n, p + 8);
        SameOctet(m, n, p + 9);
      }
    }
  }

  lemma {:induction false} SameExtent(m: Bytes, n: Bytes, o: nat)
    requires SameButCounts(m, n) && o >= 12
    ensures Extent(m, o) == Extent(n, o)
    decreases |m| - o
  {
    if o < |m| {
      SameOctet(m, n, o);
      var c := m[o] as int;
      if 0 < c <= MAX_LABEL {
        SameExtent(m, n, o + 1 + c);
      }
    }
  }

  lemma KeptQuestion(m: Bytes, k: nat, j: nat)
    requires |m| >= 12 && j < k
    ensures j < Kept(m, k, 0) <==> j < Count(m, 0)
  {
  }

  /**
   * The buffer n after a truncation to the first k records, which end at len: they can be read again
   * from what is left exactly when the way of each of their names stays before the cut.
   */
  lemma {:induction false} CutReads(m: Bytes, n: Bytes, k: nat, len: nat, j: nat)
    requires SameButCounts(m, n) && Boundary(m, k) == Some(len) && Count(n, 0) == Kept(m, k, 0) && j <= k
    ensures Boundary(m, j).Some? && len <= |n|
    ensures Boundary(n[..len], j) == Boundary(m, j)
      <==> forall i :: 0 <= i < j ==> Boundary(m, i).Some? && Stays(n, Boundary(m, i).value, len)
    ensures Boundary(n[..len], j).Some? ==> Boundary(n[..len], j) == Boundary(m, j)
    decreases j
  {
    hide RecordEnd, Stays, Kept, U16, SameButCounts;
    SameSize(m, n);
    if j < k {
      BoundaryGrows(m, j, k);
    }
    CountCut(n, len);
    if j > 0 {
      CutReads(m, n, k, len, j - 1);
      KeptQuestion(m, k, j - 1);
      RecordCut(m, n, Boundary(m, j - 1).value, j - 1 < Count(m, 0), len);
    }
  }

  lemma CountCut(n: Bytes, len: nat)
    requires 12 <= len <= |n|
    ensures Count(n[..len], 0) == Count(n, 0)
  {
  }

  /** For names that stay away from the counts, this can be seen in the message before it is cut. */
  lemma StaysBefore(m: Bytes, n: Bytes, o: nat, len: nat)
    requires SameButCounts(m, n) && Avoids(m, o, 0, 0)
    ensures Stays(n, o, len) <==> Stays(m, o, len)
  {
    ReadCounts(m, n, o, len, 0, 0);
  }

  /** Two answers, the first with its name in the second: after the cut the first cannot be read. */
  const FORWARD: Bytes :=
    [0, 0, 0, 0, 0, 0, 0, 2, 0, 0, 0, 0,
     0xc0, 24, 0, 0, 0, 0, 0, 0, 0, 0, 0, 0,
     0, 0, 0, 0, 0, 0, 0, 0, 0, 0, 0]

  lemma PrefixSum(m: Bytes)
    requires |m| >= 12
    ensures Prefix(m, 4) == Count(m, 0) + Count(m, 1) + Count(m, 2) + Count(m, 3)
  {
    hide U16;
    assert Prefix(m, 1) == Prefix(m, 0) + Count(m, 0);
    assert Prefix(m, 2) == Prefix(m, 1) + Count(m, 1);
    assert Prefix(m, 3) == Prefix(m, 2) + Count(m, 2);
  }

  lemma ForwardCounts()
    ensures |FORWARD| == 35 && Count(FORWARD, 0) == 0 && Prefix(FORWARD, 4) == 2
  {
    hide Prefix;
    var m := FORWARD;
    assert m[4] == m[5] == m[6] == m[8] == m[9] == m[10] == m[11] == 0 && m[7] == 2;
    PrefixSum(m);
  }

  lemma NoneKept(m: Bytes, k: nat)
    requires |m| >= 12 && Count(m, 0) == 0
    ensures Kept(m, k, 0) == 0
  {
  }

  lemma ForwardRecords()
    ensures RecordEnd(FORWARD, 12, false) == Some(24) && RecordEnd(FORWARD, 24, false) == Some(35)
  {
    hide Read;
    var m := FORWARD;
    assert m[12] == 0xc0 && m[13] == 24 && m[24] == 0 && m[22] == m[23] == m[33] == m[34] == 0;
    ReadPointer(m, 12, 35, true, 0, 0, 0xc0);
    ReadAt(m, 24, 35, true, 0, 1);
    ReadAt(m, 24, 35, true, 0, 0);
  }

  lemma ForwardPath()
    ensures Avoids(FORWARD, 12, 0, 0) && !Below(FORWARD, 12, 24, 0, 0)
  {
    var m := FORWARD;
    assert m[12] == 0xc0 && m[13] == 24 && m[24] == 0;
    assert Avoids(m, 24, 0, 1) && !Below(m, 24, 24, 0, 1);
  }

  lemma ForwardPointer()
    ensures Fits(FORWARD, 24, 1) && Boundary(FORWARD, 1) == Some(24) && !Stays(FORWARD, 12, 24)
    ensures forall n :: SameButCounts(FORWARD, n) && Count(n, 0) == 0 ==> Boundary(n[..24], 1) == None
  {
    hide Read, Below, Avoids, RecordEnd, Prefix, Kept, U16;
    var m := FORWARD;
    ForwardCounts();
    ForwardRecords();
    ForwardPath();
    assert Boundary(m, 0) == Some(12);
    assert Boundary(m, 1) == Some(24);
    assert Boundary(m, 2) == Some(35);
    forall n | SameButCounts(m, n) && Count(n, 0) == 0 ensures Boundary(n[..24], 1) == None {
      NoneKept(m, 1);
      ForwardCut(m, n);
    }
  }

  lemma ForwardCut(m: Bytes, n: Bytes)
    requires SameButCounts(m, n) && Boundary(m, 0) == Some(12) && Boundary(m, 1) == Some(24)
    requires Avoids(m, 12, 0, 0) && !Below(m, 12, 24, 0, 0) && Count(n, 0) == Kept(m, 1, 0)
    ensures Boundary(n[..24], 1) == None
  {
    hide Read, Below, Avoids, RecordEnd, Boundary, Kept, U16;
    StaysBefore(m, n, 12, 24);
    CutReads(m, n, 1, 24, 1);
  }
}
