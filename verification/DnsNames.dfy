// The domain-name codec of evdns: names as length-prefixed labels, compressed with
// pointers to earlier positions of the packet (section 4.1.4 of RFC 1035).
//
// A name is a byte string with no NUL, its labels separated by '.'.
module DnsNames {
  import opened Bytes
  import opened Wrappers

  const DOT: byte := 46
  const MAX_LABELS: nat := 128
  const MAX_LABEL: nat := 63
  const MAX_NAME: nat := 255
  const POINTER_RANGE: nat := 0x4000

  // What a walk over an encoded name finds: its labels, and the index behind the encoding.
  datatype Walked = Walked(labels: seq<seq<byte>>, end: nat)

  // struct dnslabel_entry
  datatype Entry = Entry(v: seq<byte>, pos: nat)

  // ---- Names -------------------------------------------------------------------

  predicate NulFree(s: seq<byte>)
  {
    forall i :: 0 <= i < |s| ==> s[i] != 0
  }

  // Index of the first dot, or |s|.
  function FirstDot(s: seq<byte>): (d: nat)
    ensures d <= |s|
    ensures d < |s| ==> s[d] == DOT
    ensures forall i :: 0 <= i < d ==> s[i] != DOT
  {
    if s == [] then 0 else if s[0] == DOT then 0 else FirstDot(s[1..]) + 1
  }

  // The labels of a name up to its first empty one.
  function Labels(name: seq<byte>): seq<seq<byte>>
    decreases |name|
  {
    var d := FirstDot(name);
    if d == 0 then []
    else if d == |name| then [name]
    else [name[..d]] + Labels(name[d + 1..])
  }

  // Labels with dots between them.
  function Join(labels: seq<seq<byte>>): seq<byte>
  {
    if labels == [] then []
    else if |labels| == 1 then labels[0]
    else labels[0] + [DOT] + Join(labels[1..])
  }

  // Every label is non-empty (the empty name has none).
  predicate Proper(name: seq<byte>)
    decreases |name|
  {
    var d := FirstDot(name);
    name == [] || (d > 0 && (d == |name| || (d + 1 < |name| && Proper(name[d + 1..]))))
  }

  lemma {:induction false} JoinLabels(name: seq<byte>)
    ensures |Join(Labels(name))| <= |name|
    ensures Join(Labels(name)) == name <==> Proper(name)
    decreases |name|
  {
    var d := FirstDot(name);
    if 0 < d < |name| {
      var rest := name[d + 1..];
      JoinLabels(rest);
      assert name == name[..d] + [DOT] + rest;
      if rest != [] && FirstDot(rest) > 0 {
        assert Join(Labels(name)) == name[..d] + [DOT] + Join(Labels(rest));
        assert Join(Labels(name))[d + 1..] == Join(Labels(rest));
      } else {
        assert Labels(name) == [name[..d]];
      }
    }
  }

  // ---- The decoder ---------------------------------------------------------------

  // A length byte with one of its two top bits set starts a pointer.
  predicate IsPointer(b: byte)
  {
    b >= 64
  }

  function Target(hi: byte, lo: byte): nat
  {
    (hi as int % 64) * 256 + lo as int
  }

  // Reading the name at index j of the first length bytes of p, following at most jumps
  // pointers.
  function Walk(p: seq<byte>, length: nat, j: nat, jumps: nat): Option<Walked>
    requires length <= |p|
    decreases jumps, length - j
  {
    if j >= length then None
    else if p[j] == 0 then Some(Walked([], j + 1))
    else if IsPointer(p[j]) then
      if j + 1 >= length then None
      else
        var t := Target(p[j], p[j + 1]);
        if t >= length || jumps == 0 then None
        else match Walk(p, length, t, jumps - 1)
             case None => None
             case Some(w) => Some(Walked(w.labels, j + 2))
    else
      var k := j + 1 + p[j] as int;
      if k >= length then None
      else match Walk(p, length, k, jumps)
           case None => None
           case Some(w) => Some(Walked([p[j + 1..k]] + w.labels, w.end))
  }

  // More jumps allowed, or more bytes behind, change nothing.
  lemma {:induction false} WalkMore(p: seq<byte>, length: nat, j: nat, jumps: nat, p': seq<byte>, length': nat,
                                    jumps': nat)
    requires length <= |p| && length <= length' <= |p'| && jumps <= jumps'
    requires p[..length] == p'[..length]
    requires Walk(p, length, j, jumps).Some?
    ensures Walk(p', length', j, jumps') == Walk(p, length, j, jumps)
    decreases jumps, length - j
  {
    assert p[j] == p[..length][j] == p'[j];
    if p[j] == 0 {
    } else if IsPointer(p[j]) {
      assert p[j + 1] == p[..length][j + 1] == p'[j + 1];
      WalkMore(p, length, Target(p[j], p[j + 1]), jumps - 1, p', length', jumps' - 1);
    } else {
      var k := j + 1 + p[j] as int;
      assert p[j + 1..k] == p[..length][j + 1..k] == p'[..length][j + 1..k] == p'[j + 1..k];
      WalkMore(p, length, k, jumps, p', length', jumps');
    }
  }

  // What the walk from j, after the labels already done, says about the whole walk.
  function Continue(done: seq<seq<byte>>, end: int, w: Option<Walked>): Option<Walked>
  {
    match w
    case None => None
    case Some(w) => Some(Walked(done + w.labels, if end < 0 then w.end else end))
  }

  lemma {:induction false} JoinSnoc(done: seq<seq<byte>>, l: seq<byte>)
    ensures Join(done + [l]) == if done == [] then l else Join(done) + [DOT] + l
  {
    if |done| > 1 {
      JoinSnoc(done[1..], l);
      assert (done + [l])[1..] == done[1..] + [l];
    } else if |done| == 1 {
      assert (done + [l])[1..] == [l];
    }
  }

  lemma {:induction false} JoinMore(done: seq<seq<byte>>, more: seq<seq<byte>>)
    ensures |Join(done)| <= |Join(done + more)|
    decreases |more|
  {
    if more == [] {
      assert done + more == done;
    } else {
      JoinSnoc(done, more[0]);
      JoinMore(done + [more[0]], more[1..]);
      assert done + [more[0]] + more[1..] == done + more;
    }
  }

  // One label read.
  lemma LabelRead(p: seq<byte>, length: nat, j: nat, jumps: nat, done: seq<seq<byte>>, end: int)
    requires length + MAX_LABEL <= |p| && j < length && p[j] != 0 && !IsPointer(p[j])
    ensures var k, l := j + 1 + p[j] as int, p[j + 1..j + 1 + p[j] as int];
      var goal := Continue(done, end, Walk(p, length, j, jumps));
      && goal == Continue(done + [l], end, Walk(p, length, k, jumps))
      && (goal.Some? ==> |Join(goal.value.labels)| >= |Join(done + [l])|)
      && |Join(done + [l])| == (if done == [] then |l| else |Join(done)| + 1 + |l|)
      && (done != [] ==> Join(done + [l]) == Join(done) + [DOT] + l)
      && (done == [] ==> Join(done + [l]) == l)
  {
    hide Join;
    var k, l := j + 1 + p[j] as int, p[j + 1..j + 1 + p[j] as int];
    JoinSnoc(done, l);
    var next := Walk(p, length, k, jumps);
    if next.Some? {
      assert done + ([l] + next.value.labels) == done + [l] + next.value.labels;
      JoinMore(done + [l], next.value.labels);
    }
  }

  // name_parse. The copy of a label is not checked against length, so up to 63 bytes
  // behind the packet are read: packet has that much slack.
  method NameParse(packet: seq<byte>, length: nat, idx: nat, out: array<byte>)
    returns (ok: bool, idx': nat, ghost name: seq<byte>)
    requires length + MAX_LABEL <= |packet|
    modifies out
    ensures var w := Walk(packet, length, idx, length);
      && ok == (w.Some? && |Join(w.value.labels)| < out.Length)
      && (ok ==> idx' == w.value.end && name == Join(w.value.labels)
                 && out[..|name|] == name && out[|name|] == 0)
      && (!ok ==> idx' == idx)
  {
    hide Join, Walk;
    var nameEnd: int := -1;
    var j: nat, ptrCount: nat, cp: nat := idx, 0, 0;
    ghost var done: seq<seq<byte>> := [];
    ghost var goal := Walk(packet, length, idx, length);
    idx', name := idx, [];
    JoinNone();
    ContinueFrom(goal);
    while true
      invariant ptrCount <= length && cp <= out.Length && nameEnd >= -1
      invariant goal == Continue(done, nameEnd, Walk(packet, length, j, length - ptrCount))
      invariant cp == |Join(done)| && out[..cp] == Join(done)
      invariant cp == 0 <==> done == []
      decreases (length - ptrCount) + (out.Length - cp)
    {
      WalkStep(packet, length, j, length - ptrCount);
      if j >= length {
        return false, idx, [];
      }
      var labelLen := packet[j];
      j := j + 1;
      if labelLen == 0 {
        break;
      }
      if IsPointer(labelLen) {
        PointerRead(packet, length, j - 1, length - ptrCount, done, nameEnd);
        if j >= length {
          return false, idx, [];
        }
        var ptrLow := packet[j];
        j := j + 1;
        if nameEnd < 0 {
          nameEnd := j;
        }
        j := Target(labelLen, ptrLow);
        if j >= length {
          return false, idx, [];
        }
        ptrCount := ptrCount + 1;
        if ptrCount > length {
          return false, idx, [];
        }
      } else {
        LabelRead(packet, length, j - 1, length - ptrCount, done, nameEnd);
        var len := labelLen as int;
        var text := packet[j..j + len];
        var fits;
        fits, cp := AppendLabel(out, cp, text, done);
        if !fits {
          return false, idx, [];
        }
        j := j + len;
        done := done + [text];
      }
    }
    assert done + [] == done;
    if cp >= out.Length {
      return false, idx, [];
    }
    out[cp] := 0;
    idx' := if nameEnd < 0 then j else nameEnd;
    ok, name := true, Join(done);
  }

  // One label more in the text so far, with room for a NUL behind it.
  method AppendLabel(out: array<byte>, cp: nat, text: seq<byte>, ghost done: seq<seq<byte>>)
    returns (ok: bool, cp': nat)
    requires cp == |Join(done)| <= out.Length && out[..cp] == Join(done) && (cp == 0 <==> done == [])
    requires text != []
    modifies out
    ensures ok == (|Join(done + [text])| < out.Length)
    ensures ok ==> cp' == |Join(done + [text])| && out[..cp'] == Join(done + [text])
    ensures ok ==> cp < cp'
  {
    hide Join;
    JoinSnoc(done, text);
    cp' := cp;
    if cp' != 0 {
      if cp' + 1 >= out.Length {
        return false, cp;
      }
      out[cp'] := DOT;
      cp' := cp' + 1;
    }
    if cp' + |text| >= out.Length {
      return false, cp;
    }
    ghost var before := out[..cp'];
    CopyInto(out, cp', text);
    cp' := cp' + |text|;
    assert out[..cp'] == before + text;
    ok := true;
  }

  lemma JoinNone()
    ensures Join([]) == []
  {
  }

  // What the first byte of an encoding decides.
  lemma WalkStep(p: seq<byte>, length: nat, j: nat, jumps: nat)
    requires length <= |p|
    ensures j >= length ==> Walk(p, length, j, jumps).None?
    ensures j < length && p[j] == 0 ==> Walk(p, length, j, jumps) == Some(Walked([], j + 1))
  {
  }

  // One pointer followed.
  lemma PointerRead(p: seq<byte>, length: nat, j: nat, jumps: nat, done: seq<seq<byte>>, end: int)
    requires length <= |p| && j < length && IsPointer(p[j])
    ensures var goal := Continue(done, end, Walk(p, length, j, jumps));
      if j + 1 < length && Target(p[j], p[j + 1]) < length && jumps > 0 then
        goal == Continue(done, if end < 0 then j + 2 else end, Walk(p, length, Target(p[j], p[j + 1]), jumps - 1))
      else
        goal.None?
  {
  }

  lemma ContinueFrom(w: Option<Walked>)
    ensures Continue([], -1, w) == w
  {
    if w.Some? {
      assert [] + w.value.labels == w.value.labels;
    }
  }

  // ---- The encoder -----------------------------------------------------------------

  // entries[i] is the first entry for s.
  ghost predicate FirstFor(entries: seq<Entry>, s: seq<byte>, i: int)
  {
    0 <= i < |entries| && entries[i].v == s && forall k :: 0 <= k < i ==> entries[k].v != s
  }

  ghost predicate Known(entries: seq<Entry>, s: seq<byte>)
  {
    exists i :: 0 <= i < |entries| && entries[i].v == s
  }

  // The position remembered for a suffix, or -1.
  function Find(entries: seq<Entry>, s: seq<byte>): (pos: int)
    ensures pos >= -1
  {
    if entries == [] then -1
    else if entries[0].v == s then entries[0].pos
    else Find(entries[1..], s)
  }

  // That is -1 exactly for what has no entry, and otherwise what the first entry says.
  lemma {:induction false} FindFirst(entries: seq<Entry>, s: seq<byte>)
    ensures Find(entries, s) == -1 <==> !Known(entries, s)
    ensures Find(entries, s) != -1 ==> exists i :: FirstFor(entries, s, i) && entries[i].pos == Find(entries, s)
  {
    if entries != [] && entries[0].v != s {
      var rest := entries[1..];
      FindFirst(rest, s);
      if Known(entries, s) {
        var i :| 0 <= i < |entries| && entries[i].v == s;
        assert rest[i - 1].v == s;
      }
      if Find(rest, s) != -1 {
        var i :| FirstFor(rest, s, i) && rest[i].pos == Find(rest, s);
        assert FirstFor(entries, s, i + 1);
      }
    } else if entries != [] {
      assert FirstFor(entries, s, 0);
    }
  }

  // As many entries as the table has room for.
  function Truncated(entries: seq<Entry>): seq<Entry>
  {
    if |entries| <= MAX_LABELS then entries else entries[..MAX_LABELS]
  }

  // struct dnslabel_table
  class LabelTable {
    var entries: seq<Entry>

    // dnslabel_table_init
    constructor ()
      ensures entries == []
    {
      entries := [];
    }

    // dnslabel_table_get_pos
    method GetPos(s: seq<byte>) returns (pos: int)
      ensures pos == Find(entries, s)
      ensures pos == -1 <==> !Known(entries, s)
      ensures pos != -1 ==> exists i :: FirstFor(entries, s, i) && pos == entries[i].pos
    {
      FindFirst(entries, s);
      var i := 0;
      while i < |entries|
        invariant 0 <= i <= |entries| && Find(entries, s) == Find(entries[i..], s)
      {
        if entries[i].v == s {
          return entries[i].pos;
        }
        i := i + 1;
      }
      pos := -1;
    }

    // dnslabel_table_add: a full table forgets the label.
    method Add(s: seq<byte>, pos: nat)
      requires |entries| <= MAX_LABELS
      modifies this
      ensures entries == Truncated(old(entries) + [Entry(s, pos)])
    {
      if |entries| == MAX_LABELS {
        return;
      }
      entries := entries + [Entry(s, pos)];
    }
  }

  // 128 entries fill a table.
  lemma FullTable(entries: seq<Entry>, x: Entry)
    requires |entries| <= 128
    ensures Truncated(entries + [x]) == if |entries| < 128 then entries + [x] else entries
  {
  }

  // The two bytes of ref | 0xc000, cut to 16 bits.
  function PointerBytes(ref: nat): (byte, byte)
  {
    ((0xc0 + ref % POINTER_RANGE / 256) as byte, (ref % 256) as byte)
  }

  // A pointer leads back to the position it was made from exactly if that is below 2^14.
  lemma PointerExact(ref: nat)
    ensures IsPointer(PointerBytes(ref).0)
    ensures Target(PointerBytes(ref).0, PointerBytes(ref).1) == ref <==> ref < 0x4000
  {
    assert ref % POINTER_RANGE % 256 == ref % 256;
  }

  // The first label of name stands at p[j], behind its length.
  ghost predicate Segment(p: seq<byte>, j: nat, name: seq<byte>)
  {
    var d := FirstDot(name);
    d <= MAX_LABEL && j + 1 + d <= |p| && p[j] as int == d && p[j + 1..j + 1 + d] == name[..d]
  }

  // p[j..e] is the encoding of name against the entries: labels up to the first suffix
  // that is remembered, then a pointer to it; or all labels, then a zero.
  ghost predicate Encoded(p: seq<byte>, j: nat, name: seq<byte>, entries: seq<Entry>, e: nat)
    decreases |name|
  {
    var d, ref := FirstDot(name), Find(entries, name);
    if ref >= 0 then e == j + 2 <= |p| && (p[j], p[j + 1]) == PointerBytes(ref)
    else
      && Segment(p, j, name)
      && (if d < |name| then Encoded(p, j + 1 + d, name[d + 1..], entries, e)
          else if d == 0 then e == j + 1
          else e == j + 2 + d <= |p| && p[j + 1 + d] == 0)
  }

  // What encoding name at j adds to the table.
  function NewEntries(name: seq<byte>, j: nat, entries: seq<Entry>): seq<Entry>
    decreases |name|
  {
    var d := FirstDot(name);
    if Find(entries, name) >= 0 then []
    else [Entry(name, j)] + (if d < |name| then NewEntries(name[d + 1..], j + 1 + d, entries) else [])
  }

  // The return value: the index behind the encoding; -1 for a label that is too long;
  // -2 for one that does not fit.
  function Outcome(name: seq<byte>, j: nat, bufLen: nat, entries: seq<Entry>): int
    decreases |name|
  {
    var d := FirstDot(name);
    if Find(entries, name) >= 0 then (if j + 2 > bufLen then -2 else j + 2)
    else if d > MAX_LABEL then -1
    else if j + d + 1 > bufLen then -2
    else if d < |name| then Outcome(name[d + 1..], j + 1 + d, bufLen, entries)
    else if d == 0 then j + 1
    else j + 2 + d
  }

  // The labels of name0 in front of the suffix name have been written, from j0 up to j.
  ghost predicate Started(p: seq<byte>, j0: nat, name0: seq<byte>, j: nat, name: seq<byte>, entries: seq<Entry>)
    decreases |name0|
  {
    var d := FirstDot(name0);
    (j0 == j && name0 == name) ||
    (Find(entries, name0) < 0 && d < |name0| && Segment(p, j0, name0)
     && j0 + 1 + d <= j && |name| < |name0|
     && Started(p, j0 + 1 + d, name0[d + 1..], j, name, entries))
  }

  lemma SegmentKept(p: seq<byte>, p': seq<byte>, j0: nat, name: seq<byte>, j: nat)
    requires Segment(p, j0, name) && j0 + 1 + FirstDot(name) <= j <= |p| && j <= |p'| && p[..j] == p'[..j]
    ensures Segment(p', j0, name)
  {
    var d := FirstDot(name);
    assert p'[j0] == p'[..j][j0] && p[j0] == p[..j][j0];
    PrefixSlice(p, j, j0 + 1, j0 + 1 + d);
    PrefixSlice(p', j, j0 + 1, j0 + 1 + d);
  }

  lemma PrefixSlice(p: seq<byte>, j: nat, lo: nat, hi: nat)
    requires lo <= hi <= j <= |p|
    ensures p[..j][lo..hi] == p[lo..hi]
  {
  }

  lemma StartedBound(p: seq<byte>, j0: nat, name0: seq<byte>, j: nat, name: seq<byte>, entries: seq<Entry>)
    requires Started(p, j0, name0, j, name, entries)
    ensures j0 <= j && |name| <= |name0|
  {
  }

  lemma {:induction false} StartedStep(p: seq<byte>, p': seq<byte>, j0: nat, name0: seq<byte>, j: nat,
                                       name: seq<byte>, entries: seq<Entry>)
    requires Started(p, j0, name0, j, name, entries)
    requires j <= |p| && j <= |p'| && p[..j] == p'[..j]
    requires Find(entries, name) < 0 && FirstDot(name) < |name| && Segment(p', j, name)
    ensures Started(p', j0, name0, j + 1 + FirstDot(name), name[FirstDot(name) + 1..], entries)
    decreases |name0|
  {
    hide Segment, Find, FirstDot;
    if name0 != name || j0 != j {
      var d := FirstDot(name0);
      StartedBound(p, j0 + 1 + d, name0[d + 1..], j, name, entries);
      SegmentKept(p, p', j0, name0, j);
      StartedStep(p, p', j0 + 1 + d, name0[d + 1..], j, name, entries);
    }
  }

  lemma {:induction false} StartedDone(p: seq<byte>, j0: nat, name0: seq<byte>, j: nat, name: seq<byte>,
                                       entries: seq<Entry>, e: nat)
    requires Started(p, j0, name0, j, name, entries) && Encoded(p, j, name, entries, e)
    ensures Encoded(p, j0, name0, entries, e)
    decreases |name0|
  {
    if name0 == name && j0 == j {
    } else {
      var d := FirstDot(name0);
      StartedDone(p, j0 + 1 + d, name0[d + 1..], j, name, entries, e);
    }
  }

  lemma {:induction false} StartedSame(p: seq<byte>, p': seq<byte>, j0: nat, name0: seq<byte>, j: nat,
                                       name: seq<byte>, entries: seq<Entry>)
    requires Started(p, j0, name0, j, name, entries)
    requires j <= |p| && j <= |p'| && p[..j] == p'[..j]
    ensures Started(p', j0, name0, j, name, entries)
    decreases |name0|
  {
    hide Segment, Find, FirstDot;
    if name0 != name || j0 != j {
      var d := FirstDot(name0);
      StartedBound(p, j0 + 1 + d, name0[d + 1..], j, name, entries);
      SegmentKept(p, p', j0, name0, j);
      StartedSame(p, p', j0 + 1 + d, name0[d + 1..], j, name, entries);
    }
  }

  // Entries for longer strings do not change what a lookup finds.
  lemma {:induction false} FindAmong(entries: seq<Entry>, added: seq<Entry>, s: seq<byte>)
    requires forall i :: 0 <= i < |added| ==> added[i].v != s
    ensures Find(entries + added, s) == Find(entries, s)
    decreases |entries| + |added|
  {
    if entries != [] {
      assert (entries + added)[1..] == entries[1..] + added;
      FindAmong(entries[1..], added, s);
    } else if added != [] {
      assert entries + added == added;
      FindAmong([], added[1..], s);
      assert [] + added[1..] == added[1..];
    }
  }

  ghost function EntriesOf(table: LabelTable?): seq<Entry>
    reads table
  {
    if table == null then [] else table.entries
  }

  // dnsname_to_labels: write name0 at j0, pointing back at suffixes the table remembers.
  // The closing zero is not checked against bufLen, so buf has one byte more than that.
  method DnsnameToLabels(buf: array<byte>, bufLen: nat, j0: nat, name0: seq<byte>, table: LabelTable?)
    returns (r: int)
    requires bufLen < buf.Length && NulFree(name0)
    requires |EntriesOf(table)| <= MAX_LABELS
    modifies buf, table
    ensures r == if |name0| > 255 then -2 else Outcome(name0, j0, bufLen, old(EntriesOf(table)))
    ensures forall k :: 0 <= k < buf.Length && (k < j0 || k >= r >= 0) ==> buf[k] == old(buf[k])
    ensures r >= 0 ==> j0 < r <= buf.Length && Encoded(buf[..], j0, name0, old(EntriesOf(table)), r)
    ensures |EntriesOf(table)| <= MAX_LABELS
    ensures r >= 0 && table != null ==>
      EntriesOf(table) == Truncated(old(EntriesOf(table)) + NewEntries(name0, j0, old(EntriesOf(table))))
  {
    hide Started, Encoded, Segment, Find, FirstDot, NewEntries, Outcome, Truncated;
    ghost var entries, added: seq<Entry> := EntriesOf(table), [];
    if |name0| > MAX_NAME {
      return -2;
    }
    var name, j := name0, j0;
    StartedNone(buf[..], j0, name0, entries);
    TruncatedNone(entries);
    while true
      invariant |name| <= |name0| && NulFree(name) && j0 <= j && (j == j0 || j <= bufLen)
      invariant Outcome(name0, j0, bufLen, entries) == Outcome(name, j, bufLen, entries)
      invariant Started(buf[..], j0, name0, j, name, entries)
      invariant NewEntries(name0, j0, entries) == added + NewEntries(name, j, entries)
      invariant table != null ==> table.entries == Truncated(entries + added)
      invariant table == null ==> entries == []
      invariant forall i :: 0 <= i < |added| ==> |added[i].v| > |name|
      invariant forall k :: 0 <= k < buf.Length && (k < j0 || k >= j) ==> buf[k] == old(buf[k])
      decreases |name|
    {
      FindNothing(name);
      NameStep(name, j, bufLen, entries);
      FindTruncated(entries, added, name);
      TruncatedMore(entries, added, Entry(name, j));
      if table != null {
        var ref := table.GetPos(name);
        if ref >= 0 {
          if j + 2 > bufLen {
            return -2;
          }
          PutPointer(buf, j0, name0, j, name, entries, ref);
          assert added + [] == added;
          return j + 2;
        }
      }
      var dot := FirstDot(name);
      if dot > MAX_LABEL {
        return -1;
      }
      if j + dot + 1 > bufLen {
        return -2;
      }
      if table != null {
        table.Add(name, j);
      }
      added := added + [Entry(name, j)];
      r := PutLabel(buf, j0, name0, j, name, entries);
      if dot == |name| {
        return;
      }
      j := r;
      name := name[dot + 1..];
    }
  }

  // The pointer to ref, which ends the encoding.
  method PutPointer(buf: array<byte>, ghost j0: nat, ghost name0: seq<byte>, j: nat, ghost name: seq<byte>,
                    ghost entries: seq<Entry>, ref: nat)
    requires Started(buf[..], j0, name0, j, name, entries) && j + 2 <= buf.Length
    requires ref == Find(entries, name)
    modifies buf
    ensures Encoded(buf[..], j0, name0, entries, j + 2)
    ensures forall k :: 0 <= k < buf.Length && (k < j || k >= j + 2) ==> buf[k] == old(buf[k])
  {
    hide Started, Encoded, Find;
    ghost var before := buf[..];
    buf[j], buf[j + 1] := PointerBytes(ref).0, PointerBytes(ref).1;
    assert buf[..][..j] == before[..j];
    PointerWritten(before, buf[..], j0, name0, j, name, entries);
  }

  // The first label of name, and the closing zero behind the last one.
  method PutLabel(buf: array<byte>, ghost j0: nat, ghost name0: seq<byte>, j: nat, name: seq<byte>,
                  ghost entries: seq<Entry>)
    returns (r: nat)
    requires Started(buf[..], j0, name0, j, name, entries) && Find(entries, name) < 0 && NulFree(name)
    requires FirstDot(name) <= MAX_LABEL && j + 1 + FirstDot(name) < buf.Length
    modifies buf
    ensures j < r <= buf.Length
    ensures var d := FirstDot(name);
      if d < |name| then r == j + 1 + d && Started(buf[..], j0, name0, r, name[d + 1..], entries)
      else r == (if d == 0 then j + 1 else j + 2 + d) && Encoded(buf[..], j0, name0, entries, r)
    ensures forall k :: 0 <= k < buf.Length && (k < j || k >= r) ==> buf[k] == old(buf[k])
  {
    hide Started, Encoded, Segment, Find, FirstDot;
    ghost var before := buf[..];
    var dot := FirstDot(name);
    WriteLabel(buf, j, name);
    StartedSame(before, buf[..], j0, name0, j, name, entries);
    if dot == |name| {
      r := Terminate(buf, j, name);
      LastWritten(before, buf[..], j0, name0, j, name, entries, r);
    } else {
      StartedStep(before, buf[..], j0, name0, j, name, entries);
      r := j + 1 + dot;
    }
  }

  // Length and bytes of the first label of name, at j.
  method WriteLabel(buf: array<byte>, j: nat, name: seq<byte>)
    requires FirstDot(name) <= MAX_LABEL && j + 1 + FirstDot(name) <= buf.Length
    modifies buf
    ensures Segment(buf[..], j, name) && buf[..][..j] == old(buf[..])[..j]
    ensures forall k :: 0 <= k < buf.Length && (k < j || k >= j + 1 + FirstDot(name)) ==> buf[k] == old(buf[k])
  {
    var dot := FirstDot(name);
    buf[j] := dot as byte;
    MemCpy(buf, j + 1, name[..dot]);
    assert buf[..][j + 1..j + 1 + dot] == name[..dot];
  }

  // The closing zero behind the last label, unless an empty label has just written one.
  method Terminate(buf: array<byte>, at: nat, name: seq<byte>) returns (j: nat)
    requires Segment(buf[..], at, name) && FirstDot(name) == |name| && NulFree(name)
    requires at + 1 + |name| < buf.Length
    modifies buf
    ensures Segment(buf[..], at, name) && buf[..][..at] == old(buf[..])[..at]
    ensures forall k :: 0 <= k < buf.Length && (k < at || k >= j) ==> buf[k] == old(buf[k])
    ensures if |name| == 0 then j == at + 1 else j == at + 2 + |name| <= buf.Length && buf[at + 1 + |name|] == 0
  {
    ghost var p := buf[..];
    j := at + 1 + |name|;
    assert |name| > 0 ==> p[at + 1..at + 1 + |name|][|name| - 1] == name[|name| - 1];
    if j == 0 || buf[j - 1] != 0 {
      buf[j] := 0;
      j := j + 1;
    }
    assert buf[..][at + 1..at + 1 + |name|] == p[at + 1..at + 1 + |name|];
  }

  lemma StartedNone(p: seq<byte>, j: nat, name: seq<byte>, entries: seq<Entry>)
    ensures Started(p, j, name, j, name, entries)
    ensures [] + NewEntries(name, j, entries) == NewEntries(name, j, entries)
  {
  }

  lemma TruncatedNone(entries: seq<Entry>)
    requires |entries| <= MAX_LABELS
    ensures entries == Truncated(entries + [])
  {
    assert entries + [] == entries;
  }

  lemma TruncatedMore(entries: seq<Entry>, added: seq<Entry>, x: Entry)
    ensures |Truncated(entries + added)| <= MAX_LABELS
    ensures Truncated(Truncated(entries + added) + [x]) == Truncated(entries + (added + [x]))
    ensures |Truncated(entries + (added + [x]))| <= MAX_LABELS
  {
    assert entries + added + [x] == entries + (added + [x]);
  }

  // Truncation only forgets entries for longer strings.
  lemma FindTruncated(entries: seq<Entry>, added: seq<Entry>, s: seq<byte>)
    requires |entries| <= MAX_LABELS && forall i :: 0 <= i < |added| ==> |added[i].v| > |s|
    ensures Find(Truncated(entries + added), s) == Find(entries, s)
  {
    var kept := Truncated(entries + added)[|entries|..];
    assert Truncated(entries + added) == entries + kept;
    FindAmong(entries, kept, s);
  }

  // What encoding the first label of a name means for the rest.
  lemma NameStep(name: seq<byte>, j: nat, bufLen: nat, entries: seq<Entry>)
    ensures var d, ref := FirstDot(name), Find(entries, name);
      && d <= |name|
      && (ref >= 0 ==> NewEntries(name, j, entries) == []
                       && Outcome(name, j, bufLen, entries) == if j + 2 > bufLen then -2 else j + 2)
      && (ref < 0 && d > MAX_LABEL ==> Outcome(name, j, bufLen, entries) == -1)
      && (ref < 0 && d <= MAX_LABEL && j + d + 1 > bufLen ==> Outcome(name, j, bufLen, entries) == -2)
      && (ref < 0 && d <= MAX_LABEL && j + d + 1 <= bufLen && d < |name| ==>
            && NewEntries(name, j, entries) == [Entry(name, j)] + NewEntries(name[d + 1..], j + 1 + d, entries)
            && Outcome(name, j, bufLen, entries) == Outcome(name[d + 1..], j + 1 + d, bufLen, entries))
      && (ref < 0 && d <= MAX_LABEL && j + d + 1 <= bufLen && d == |name| ==>
            && NewEntries(name, j, entries) == [Entry(name, j)]
            && Outcome(name, j, bufLen, entries) == if d == 0 then j + 1 else j + 2 + d)
  {
    hide FirstDot, Find;
  }

  lemma FindNothing(s: seq<byte>)
    ensures Find([], s) < 0
  {
  }

  lemma PointerWritten(p: seq<byte>, p': seq<byte>, j0: nat, name0: seq<byte>, j: nat, name: seq<byte>,
                       entries: seq<Entry>)
    requires Started(p, j0, name0, j, name, entries) && j <= |p| && j + 2 <= |p'| && p[..j] == p'[..j]
    requires Find(entries, name) >= 0 && (p'[j], p'[j + 1]) == PointerBytes(Find(entries, name))
    ensures Encoded(p', j0, name0, entries, j + 2)
  {
    StartedSame(p, p', j0, name0, j, name, entries);
    StartedDone(p', j0, name0, j, name, entries, j + 2);
  }

  lemma LastWritten(p: seq<byte>, p': seq<byte>, j0: nat, name0: seq<byte>, j: nat, name: seq<byte>,
                    entries: seq<Entry>, e: nat)
    requires Started(p, j0, name0, j, name, entries) && j <= |p| && j <= |p'| && p[..j] == p'[..j]
    requires Find(entries, name) < 0 && FirstDot(name) == |name| && Segment(p', j, name)
    requires if |name| == 0 then e == j + 1 else e == j + 2 + |name| <= |p'| && p'[j + 1 + |name|] == 0
    ensures Encoded(p', j0, name0, entries, e)
  {
    LastEncoded(p', j, name, entries, e);
    hide Segment, Find, FirstDot, Encoded, Started;
    StartedSame(p, p', j0, name0, j, name, entries);
    StartedDone(p', j0, name0, j, name, entries, e);
  }

  lemma LastEncoded(p: seq<byte>, j: nat, name: seq<byte>, entries: seq<Entry>, e: nat)
    requires Find(entries, name) < 0 && FirstDot(name) == |name| && Segment(p, j, name)
    requires if |name| == 0 then e == j + 1 else e == j + 2 + |name| <= |p| && p[j + 1 + |name|] == 0
    ensures Encoded(p, j, name, entries, e)
  {
    hide Segment, Find, FirstDot;
  }

  // ---- Encoding, then decoding --------------------------------------------------------

  // Decoding at position pos of a packet of the given length, spending at most pos jumps,
  // reads the labels of v.
  ghost predicate Decodes(p: seq<byte>, length: nat, pos: nat, v: seq<byte>)
  {
    && pos < length <= |p|
    && Walk(p, length, pos, pos).Some?
    && Walk(p, length, pos, pos).value.labels == Labels(v)
  }

  // Every remembered suffix decodes from its position, and a pointer can hold that.
  ghost predicate Sound(p: seq<byte>, length: nat, entries: seq<Entry>)
  {
    forall i :: 0 <= i < |entries| ==>
      entries[i].pos < POINTER_RANGE && Decodes(p, length, entries[i].pos, entries[i].v)
  }

  lemma {:induction false} FindSound(p: seq<byte>, length: nat, entries: seq<Entry>, s: seq<byte>)
    requires Sound(p, length, entries) && Find(entries, s) >= 0
    ensures Find(entries, s) < POINTER_RANGE && Decodes(p, length, Find(entries, s), s)
  {
    if entries[0].v != s {
      FindSound(p, length, entries[1..], s);
    }
  }

  // An encoding whose pointers lead below floor decodes to its name with any budget of
  // jumps from floor on; for a proper name it ends where the encoding ends.
  lemma {:induction false} EncodedDecodes(p: seq<byte>, length: nat, j: nat, name: seq<byte>, entries: seq<Entry>,
                                          e: nat, floor: nat, jumps: nat)
    requires Encoded(p, j, name, entries, e) && e <= length <= |p|
    requires floor <= j && floor <= length && floor <= jumps && Sound(p, floor, entries)
    ensures j < e && Walk(p, length, j, jumps).Some?
    ensures Walk(p, length, j, jumps).value.labels == Labels(name)
    ensures Proper(name) ==> Walk(p, length, j, jumps).value.end == e
    decreases |name|
  {
    hide Walk;
    var d, ref := FirstDot(name), Find(entries, name);
    if ref >= 0 {
      PointerDecodes(p, length, j, name, entries, e, floor, jumps);
    } else if d == 0 {
      EncodedForward(p, j, name, entries, e);
      WalkStep(p, length, j, jumps);
    } else {
      var k := j + 1 + d;
      if d < |name| {
        EncodedDecodes(p, length, k, name[d + 1..], entries, e, floor, jumps);
      } else {
        WalkStep(p, length, k, jumps);
        LastLabel(name);
      }
      LabelWalk(p, length, j, jumps);
      assert p[j + 1..k] == name[..d];
    }
  }

  lemma LastLabel(name: seq<byte>)
    requires FirstDot(name) == |name| > 0
    ensures Labels(name) == [name[..|name|]] + []
  {
    assert name[..|name|] == name;
  }

  lemma {:induction false} EncodedForward(p: seq<byte>, j: nat, name: seq<byte>, entries: seq<Entry>, e: nat)
    requires Encoded(p, j, name, entries, e)
    ensures j < e
    decreases |name|
  {
    var d := FirstDot(name);
    if Find(entries, name) < 0 && d < |name| {
      EncodedForward(p, j + 1 + d, name[d + 1..], entries, e);
    }
  }

  lemma LabelWalk(p: seq<byte>, length: nat, j: nat, jumps: nat)
    requires j < length <= |p| && p[j] != 0 && !IsPointer(p[j])
    requires var k := j + 1 + p[j] as int; k < length && Walk(p, length, k, jumps).Some?
    ensures var k := j + 1 + p[j] as int;
      Walk(p, length, j, jumps) ==
        Some(Walked([p[j + 1..k]] + Walk(p, length, k, jumps).value.labels, Walk(p, length, k, jumps).value.end))
  {
  }

  lemma PointerDecodes(p: seq<byte>, length: nat, j: nat, name: seq<byte>, entries: seq<Entry>,
                       e: nat, floor: nat, jumps: nat)
    requires Encoded(p, j, name, entries, e) && e <= length <= |p| && Find(entries, name) >= 0
    requires floor <= j && floor <= length && floor <= jumps && Sound(p, floor, entries)
    ensures j < e && Walk(p, length, j, jumps).Some?
    ensures Walk(p, length, j, jumps).value.labels == Labels(name)
    ensures Walk(p, length, j, jumps).value.end == e
  {
    hide Walk;
    var ref := Find(entries, name);
    FindSound(p, floor, entries, name);
    PointerExact(ref);
    WalkMore(p, floor, ref, ref, p, length, jumps - 1);
    PointerRead(p, length, j, jumps, [], -1);
    ContinueFrom(Walk(p, length, j, jumps));
    assert [] + Labels(name) == Labels(name);
  }

  // The start of an encoding decodes to the whole name.
  lemma StartDecodes(p: seq<byte>, length: nat, j: nat, name: seq<byte>, entries: seq<Entry>, e: nat, floor: nat)
    requires Encoded(p, j, name, entries, e) && e <= length <= |p|
    requires floor <= j && floor <= length && Sound(p, floor, entries)
    ensures j < length && Decodes(p, length, j, name)
  {
    hide Walk, Labels, Encoded, Sound;
    EncodedDecodes(p, length, j, name, entries, e, floor, j);
  }

  lemma SoundCons(p: seq<byte>, length: nat, x: Entry, more: seq<Entry>)
    requires x.pos < POINTER_RANGE && Decodes(p, length, x.pos, x.v) && Sound(p, length, more)
    ensures Sound(p, length, [x] + more)
  {
    hide Decodes;
  }

  lemma {:induction false} NewEntriesSound(p: seq<byte>, length: nat, j: nat, name: seq<byte>, entries: seq<Entry>,
                                           e: nat, floor: nat)
    requires Encoded(p, j, name, entries, e) && e <= length <= |p| && length <= POINTER_RANGE
    requires floor <= j && floor <= length && Sound(p, floor, entries)
    ensures Sound(p, length, NewEntries(name, j, entries))
    decreases |name|
  {
    hide Sound, Decodes, Segment, FirstDot, Find, NewEntries;
    var d := FirstDot(name);
    SoundNone(p, length);
    NewEntriesStep(name, j, entries);
    if Find(entries, name) < 0 {
      StartDecodes(p, length, j, name, entries, e, floor);
      if d < |name| {
        NewEntriesSound(p, length, j + 1 + d, name[d + 1..], entries, e, floor);
        SoundCons(p, length, Entry(name, j), NewEntries(name[d + 1..], j + 1 + d, entries));
      } else {
        SoundCons(p, length, Entry(name, j), []);
        assert [Entry(name, j)] + [] == [Entry(name, j)];
      }
    }
  }

  // What decodes in a packet still does when bytes are put behind it.
  lemma SoundLater(p: seq<byte>, length: nat, p': seq<byte>, length': nat, entries: seq<Entry>)
    requires Sound(p, length, entries) && length <= |p| && length <= length' <= |p'| && p[..length] == p'[..length]
    ensures Sound(p', length', entries)
  {
    forall i | 0 <= i < |entries|
      ensures entries[i].pos < POINTER_RANGE && Decodes(p', length', entries[i].pos, entries[i].v)
    {
      WalkMore(p, length, entries[i].pos, entries[i].pos, p', length', entries[i].pos);
    }
  }

  // One more name written behind a packet with a sound table.
  lemma NameAppended(p: seq<byte>, j: nat, p': seq<byte>, e: nat, name: seq<byte>, entries: seq<Entry>)
    requires Sound(p, j, entries) && j <= |p| && e <= |p'| && e <= POINTER_RANGE
    requires j < e && p[..j] == p'[..j] && Encoded(p', j, name, entries, e)
    ensures Sound(p', e, Truncated(entries + NewEntries(name, j, entries)))
    ensures Decodes(p', e, j, name)
    ensures Proper(name) ==> Walk(p', e, j, j).value.end == e
  {
    hide Walk, Encoded, NewEntries;
    SoundLater(p, j, p', j, entries);
    EncodedDecodes(p', e, j, name, entries, e, j, j);
    NewEntriesSound(p', e, j, name, entries, e, j);
    SoundLater(p, j, p', e, entries);
  }

  // ---- What compression writes ---------------------------------------------------------

  // A label of name begins at b.
  predicate Boundary(name: seq<byte>, b: int)
  {
    0 <= b <= |name| && (b == 0 || name[b - 1] == DOT)
  }

  // A label begins at b, and what follows is in the table.
  ghost predicate KnownAt(name: seq<byte>, entries: seq<Entry>, b: int)
  {
    Boundary(name, b) && Known(entries, name[b..])
  }

  ghost predicate NoneBefore(name: seq<byte>, entries: seq<Entry>, c: int)
  {
    forall b :: 0 <= b < c ==> !KnownAt(name, entries, b)
  }

  // The longest suffix in the table begins at c.
  ghost predicate LongestKnown(name: seq<byte>, entries: seq<Entry>, c: int)
  {
    KnownAt(name, entries, c) && NoneBefore(name, entries, c)
  }

  // Byte i of name with its labels written out: the length of a label in place of the dot
  // in front of it, and its bytes one later.
  ghost predicate SpelledAt(p: seq<byte>, j: nat, name: seq<byte>, i: int)
  {
    && 0 <= i <= |name| && j + i < |p|
    && p[j + i] as int == if Boundary(name, i) then FirstDot(name[i..]) else name[i - 1] as int
  }

  ghost predicate Spelled(p: seq<byte>, j: nat, name: seq<byte>, n: nat)
  {
    forall i :: 0 <= i < n ==> SpelledAt(p, j, name, i)
  }

  // A pointer to where the table first has s.
  ghost predicate PointsTo(p: seq<byte>, at: nat, entries: seq<Entry>, s: seq<byte>)
  {
    && at + 2 <= |p|
    && exists k :: FirstFor(entries, s, k) && 256 * p[at] as int + p[at + 1] as int == 0xC000 + entries[k].pos % 0x4000
  }

  // The labels before the longest known suffix, then a pointer; or all labels, with a zero
  // behind the last one unless that is empty.
  ghost predicate Compressed(p: seq<byte>, j: nat, name: seq<byte>, entries: seq<Entry>, e: nat)
  {
    var n := |name|;
    && (forall c: nat :: LongestKnown(name, entries, c) ==>
          Spelled(p, j, name, c) && e == j + c + 2 && PointsTo(p, j + c, entries, name[c..]))
    && (NoneBefore(name, entries, n + 1) ==>
          && Spelled(p, j, name, n + 1)
          && (if Boundary(name, n) then e == j + n + 1 else e == j + n + 2 <= |p| && p[j + n + 1] == 0))
  }

  // Boundaries behind the first label.
  lemma NextBoundary(name: seq<byte>, b: int)
    ensures var d := FirstDot(name);
      && (0 < b <= d ==> !Boundary(name, b))
      && (d < |name| && d < b ==> (Boundary(name, b) <==> Boundary(name[d + 1..], b - d - 1)))
  {
    hide FirstDot;
    var d := FirstDot(name);
    if d < |name| && d + 1 < b <= |name| {
      assert name[d + 1..][b - d - 2] == name[b - 1];
    }
  }

  lemma DropTwice(s: seq<byte>, a: nat, b: nat)
    requires a <= b <= |s|
    ensures s[a..][b - a..] == s[b..]
  {
  }

  lemma Inside(name: seq<byte>, b: int)
    ensures Boundary(name, b) ==> 0 <= b <= |name|
  {
  }

  lemma NextKnown(name: seq<byte>, entries: seq<Entry>, b: int)
    requires !Known(entries, name)
    ensures var d := FirstDot(name);
      if b <= d then !KnownAt(name, entries, b)
      else if d < |name| then KnownAt(name, entries, b) <==> KnownAt(name[d + 1..], entries, b - d - 1)
      else !KnownAt(name, entries, b)
  {
    hide Known, FirstDot, Boundary;
    NextBoundary(name, b);
    assert name[0..] == name;
    if FirstDot(name) < b <= |name| {
      DropTwice(name, FirstDot(name) + 1, b);
    }
    Inside(name, b);
  }

  lemma NextNone(name: seq<byte>, entries: seq<Entry>, c: int)
    requires !Known(entries, name) && FirstDot(name) < |name| && c > FirstDot(name)
    ensures NoneBefore(name, entries, c) <==> NoneBefore(name[FirstDot(name) + 1..], entries, c - FirstDot(name) - 1)
  {
    hide Known, FirstDot, KnownAt;
    var d := FirstDot(name);
    var rest := name[d + 1..];
    forall b
      ensures b <= d ==> !KnownAt(name, entries, b)
      ensures b > d ==> (KnownAt(name, entries, b) <==> KnownAt(rest, entries, b - d - 1))
    {
      NextKnown(name, entries, b);
    }
    forall b | 0 <= b < c - d - 1 && KnownAt(rest, entries, b)
      ensures KnownAt(name, entries, b + d + 1)
    {
    }
  }

  lemma NextLongest(name: seq<byte>, entries: seq<Entry>, c: int)
    requires !Known(entries, name) && LongestKnown(name, entries, c)
    ensures var d := FirstDot(name); d < |name| && c > d && LongestKnown(name[d + 1..], entries, c - d - 1)
  {
    hide Known, FirstDot, KnownAt, NoneBefore;
    NextKnown(name, entries, c);
    NextNone(name, entries, c);
  }

  // The labels of a name behind its first one, written out.
  lemma NextSpelled(p: seq<byte>, j: nat, name: seq<byte>, n: nat)
    requires Segment(p, j, name) && FirstDot(name) < |name| && n > FirstDot(name)
    requires Spelled(p, j + 1 + FirstDot(name), name[FirstDot(name) + 1..], n - FirstDot(name) - 1)
    ensures Spelled(p, j, name, n)
  {
    hide FirstDot, SpelledAt, Segment;
    var d := FirstDot(name);
    forall i | 0 <= i < n
      ensures SpelledAt(p, j, name, i)
    {
      if i <= d {
        FirstSpelled(p, j, name, i);
      } else {
        LaterSpelled(p, j, name, i, i - d - 1);
      }
    }
  }

  lemma LaterSpelled(p: seq<byte>, j: nat, name: seq<byte>, i: nat, k: nat)
    requires i == k + FirstDot(name) + 1 && FirstDot(name) < |name|
    requires SpelledAt(p, j + 1 + FirstDot(name), name[FirstDot(name) + 1..], k)
    ensures SpelledAt(p, j, name, i)
  {
    hide FirstDot, Boundary;
    var d := FirstDot(name);
    NextBoundary(name, i);
    DropTwice(name, d + 1, i);
    if k > 0 {
      assert name[d + 1..][k - 1] == name[i - 1];
    } else {
      DotBoundary(name);
    }
  }

  lemma DotBoundary(name: seq<byte>)
    requires FirstDot(name) < |name|
    ensures Boundary(name, FirstDot(name) + 1)
  {
  }

  lemma FirstSpelled(p: seq<byte>, j: nat, name: seq<byte>, i: nat)
    requires Segment(p, j, name) && i <= FirstDot(name)
    ensures SpelledAt(p, j, name, i)
  {
    var d := FirstDot(name);
    assert name[0..] == name;
    if i > 0 {
      assert p[j + 1..j + 1 + d][i - 1] == name[..d][i - 1];
    }
  }

  lemma PointerCompressed(p: seq<byte>, j: nat, name: seq<byte>, entries: seq<Entry>)
    requires Find(entries, name) >= 0 && j + 2 <= |p| && (p[j], p[j + 1]) == PointerBytes(Find(entries, name))
    ensures Compressed(p, j, name, entries, j + 2)
  {
    hide Find, FirstFor, Known, FirstDot;
    FindFirst(entries, name);
    assert name[0..] == name;
    assert KnownAt(name, entries, 0);
    PointerWord(Find(entries, name));
  }

  lemma PointerWord(ref: nat)
    ensures 256 * PointerBytes(ref).0 as int + PointerBytes(ref).1 as int == 0xC000 + ref % 0x4000
  {
    assert ref % POINTER_RANGE % 256 == ref % 256;
  }

  lemma NextCompressed(p: seq<byte>, j: nat, name: seq<byte>, entries: seq<Entry>, e: nat)
    requires !Known(entries, name) && FirstDot(name) < |name| && Segment(p, j, name)
    requires Compressed(p, j + 1 + FirstDot(name), name[FirstDot(name) + 1..], entries, e)
    ensures Compressed(p, j, name, entries, e)
  {
    hide FirstDot, Boundary, KnownAt, NoneBefore, LongestKnown, Known, Segment, PointsTo, Spelled;
    var d, n := FirstDot(name), |name|;
    var rest := name[d + 1..];
    forall c: nat | LongestKnown(name, entries, c)
      ensures c <= |name|
    {
      LongestInside(name, entries, c);
    }
    forall c: nat | c <= |name| && LongestKnown(name, entries, c)
      ensures Spelled(p, j, name, c) && e == j + c + 2 && PointsTo(p, j + c, entries, name[c..])
    {
      NextLongest(name, entries, c);
      DropTwice(name, d + 1, c);
      NextSpelled(p, j, name, c);
    }
    if NoneBefore(name, entries, n + 1) {
      NextNone(name, entries, n + 1);
      NextSpelled(p, j, name, n + 1);
      NextBoundary(name, n);
    }
  }

  lemma LongestInside(name: seq<byte>, entries: seq<Entry>, c: int)
    requires LongestKnown(name, entries, c)
    ensures 0 <= c <= |name|
  {
  }

  lemma LastCompressed(p: seq<byte>, j: nat, name: seq<byte>, entries: seq<Entry>, e: nat)
    requires !Known(entries, name) && FirstDot(name) == |name| && Segment(p, j, name)
    requires if name == [] then e == j + 1 else e == j + 2 + |name| <= |p| && p[j + 1 + |name|] == 0
    ensures Compressed(p, j, name, entries, e)
  {
    hide FirstDot, Known, Segment, PointsTo, SpelledAt, NoneBefore, KnownAt;
    forall i | 0 <= i <= |name|
      ensures SpelledAt(p, j, name, i)
    {
      FirstSpelled(p, j, name, i);
    }
    forall c: nat
      ensures !LongestKnown(name, entries, c)
    {
      NextKnown(name, entries, c);
    }
    NextBoundary(name, |name|);
  }

  // An encoding puts a pointer in place of the longest suffix that is known, and spells out
  // what is in front of it.
  lemma {:induction false} EncodedCompressed(p: seq<byte>, j: nat, name: seq<byte>, entries: seq<Entry>, e: nat)
    requires Encoded(p, j, name, entries, e)
    ensures Compressed(p, j, name, entries, e)
    decreases |name|
  {
    hide FirstDot, Compressed, Known, Segment, Find;
    var d := FirstDot(name);
    FindFirst(entries, name);
    if Find(entries, name) >= 0 {
      PointerCompressed(p, j, name, entries);
    } else if d < |name| {
      EncodedCompressed(p, j + 1 + d, name[d + 1..], entries, e);
      NextCompressed(p, j, name, entries, e);
    } else {
      DotInside(name);
      LastCompressed(p, j, name, entries, e);
    }
  }

  lemma DotInside(name: seq<byte>)
    ensures FirstDot(name) <= |name| && (FirstDot(name) == 0 == |name| <==> name == [])
  {
  }

  // x is what the table gets for a suffix of the name written at j that is spelled out.
  ghost predicate SuffixOf(x: Entry, name: seq<byte>, j: nat, entries: seq<Entry>)
  {
    var b := x.pos - j;
    Boundary(name, b) && NoneBefore(name, entries, b + 1) && x.v == name[b..]
  }

  // Exactly the suffixes that are spelled out are remembered, each where it stands.
  lemma {:induction false} NewEntriesAre(name: seq<byte>, j: nat, entries: seq<Entry>, x: Entry)
    ensures x in NewEntries(name, j, entries) <==> SuffixOf(x, name, j, entries)
    decreases |name|
  {
    hide FirstDot, SuffixOf, Find, Known, NewEntries;
    var d := FirstDot(name);
    FindFirst(entries, name);
    NextSuffix(x, name, j, entries);
    NewEntriesStep(name, j, entries);
    if Find(entries, name) < 0 && d < |name| {
      NewEntriesAre(name[d + 1..], j + 1 + d, entries, x);
      InCons(x, Entry(name, j), NewEntries(name[d + 1..], j + 1 + d, entries));
    }
  }

  lemma InCons(x: Entry, e: Entry, s: seq<Entry>)
    ensures x in [e] + s <==> x == e || x in s
  {
  }

  lemma NewEntriesStep(name: seq<byte>, j: nat, entries: seq<Entry>)
    ensures var d, s := FirstDot(name), NewEntries(name, j, entries);
      if Find(entries, name) >= 0 then s == []
      else if d < |name| then s == [Entry(name, j)] + NewEntries(name[d + 1..], j + 1 + d, entries)
      else s == [Entry(name, j)]
  {
    hide FirstDot, Find;
  }

  ghost predicate InOrder(s: seq<Entry>, j: nat)
  {
    && (forall n :: 0 <= n < |s| ==> j <= s[n].pos)
    && (forall m, n :: 0 <= m < n < |s| ==> s[m].pos < s[n].pos)
  }

  // The table gets longer ones first.
  lemma {:induction false} NewEntriesOrder(name: seq<byte>, j: nat, entries: seq<Entry>)
    ensures InOrder(NewEntries(name, j, entries), j)
    decreases |name|
  {
    hide FirstDot, Find, NewEntries;
    var d := FirstDot(name);
    NewEntriesStep(name, j, entries);
    if Find(entries, name) < 0 && d < |name| {
      NewEntriesOrder(name[d + 1..], j + 1 + d, entries);
      OrderCons(name, j, NewEntries(name[d + 1..], j + 1 + d, entries), j + 1 + d);
    }
  }

  lemma OrderCons(name: seq<byte>, j: nat, s: seq<Entry>, k: nat)
    requires InOrder(s, k) && j < k
    ensures InOrder([Entry(name, j)] + s, j)
  {
  }

  lemma NextSuffix(x: Entry, name: seq<byte>, j: nat, entries: seq<Entry>)
    ensures var d := FirstDot(name);
      SuffixOf(x, name, j, entries) <==>
        !Known(entries, name) && (x == Entry(name, j) || (d < |name| && SuffixOf(x, name[d + 1..], j + 1 + d, entries)))
  {
    hide FirstDot, Known, KnownAt, Boundary;
    var d, b := FirstDot(name), x.pos - j;
    assert name[0..] == name;
    FirstKnown(name, entries);
    NextBoundary(name, b);
    Inside(name, b);
    if !Known(entries, name) {
      NextKnown(name, entries, 0);
      if d < b && d < |name| {
        NextNone(name, entries, b + 1);
        Inside(name[d + 1..], b - d - 1);
        if b <= |name| {
          DropTwice(name, d + 1, b);
        }
      }
      if d < |name| {
        Inside(name[d + 1..], b - d - 1);
      }
    }
  }

  lemma FirstKnown(name: seq<byte>, entries: seq<Entry>)
    ensures Boundary(name, 0) && (KnownAt(name, entries, 0) <==> Known(entries, name))
  {
    assert name[0..] == name;
  }

  ghost predicate ShortAt(name: seq<byte>, b: int)
  {
    Boundary(name, b) ==> FirstDot(name[b..]) <= 63
  }

  // Every label of name that begins before c has at most 63 bytes.
  ghost predicate ShortLabels(name: seq<byte>, c: int)
  {
    forall b :: 0 <= b < c ==> ShortAt(name, b)
  }

  // The bytes of name that are spelled out fit, up to its part at c, with more bytes behind.
  ghost predicate Written(name: seq<byte>, j: nat, bufLen: nat, c: int, more: nat, result: int, end: nat)
  {
    if ShortLabels(name, c) && j + c + more <= bufLen then result == end
    else
      || (result == -1 && !ShortLabels(name, c))
      || (result == -2 && j + c + more > bufLen)
  }

  lemma NextShortAt(name: seq<byte>, b: int)
    requires FirstDot(name) < |name|
    ensures var d := FirstDot(name);
      && (b == 0 ==> (ShortAt(name, b) <==> d <= 63))
      && (0 < b <= d ==> ShortAt(name, b))
      && (d < b ==> (ShortAt(name, b) <==> ShortAt(name[d + 1..], b - d - 1)))
  {
    hide FirstDot, Boundary;
    NextBoundary(name, b);
    Inside(name, b);
    FirstKnown(name, []);
    assert name[0..] == name;
    if FirstDot(name) < b <= |name| {
      DropTwice(name, FirstDot(name) + 1, b);
    }
  }

  lemma NextShort(name: seq<byte>, c: int)
    requires FirstDot(name) < |name| && c > FirstDot(name)
    ensures ShortLabels(name, c) <==>
      FirstDot(name) <= 63 && ShortLabels(name[FirstDot(name) + 1..], c - FirstDot(name) - 1)
  {
    hide FirstDot, ShortAt;
    var d := FirstDot(name);
    var rest := name[d + 1..];
    forall b
      ensures b == 0 ==> (ShortAt(name, b) <==> d <= 63)
      ensures 0 < b <= d ==> ShortAt(name, b)
      ensures d < b ==> (ShortAt(name, b) <==> ShortAt(rest, b - d - 1))
    {
      NextShortAt(name, b);
    }
    assert ShortLabels(name, c) ==> ShortAt(name, 0);
    forall b | 0 <= b < c - d - 1 && ShortLabels(name, c)
      ensures ShortAt(rest, b)
    {
      assert ShortAt(name, b + d + 1);
    }
  }

  lemma OutcomeStep(name: seq<byte>, j: nat, bufLen: nat, entries: seq<Entry>, c: int, more: nat, end: nat)
    requires Find(entries, name) < 0 && FirstDot(name) < |name| && c > FirstDot(name)
    requires var d := FirstDot(name);
      var r := Outcome(name[d + 1..], j + 1 + d, bufLen, entries);
      Written(name[d + 1..], j + 1 + d, bufLen, c - d - 1, more, r, end)
    ensures Written(name, j, bufLen, c, more, Outcome(name, j, bufLen, entries), end)
  {
    hide FirstDot, ShortLabels, Find;
    NextShort(name, c);
  }

  lemma OutcomeLast(name: seq<byte>, j: nat, bufLen: nat, entries: seq<Entry>)
    requires Find(entries, name) < 0 && FirstDot(name) == |name|
    ensures var n := |name|;
      Written(name, j, bufLen, n, 1, Outcome(name, j, bufLen, entries), j + n + if Boundary(name, n) then 1 else 2)
  {
    hide FirstDot, Find;
    var n := |name|;
    NextBoundary(name, n);
    FirstKnown(name, []);
    assert name[0..] == name;
    assert n > 0 ==> (ShortAt(name, 0) <==> n <= 63);
    forall b | 0 < b < n
      ensures ShortAt(name, b)
    {
      NextBoundary(name, b);
    }
  }

  // The result: the index behind the encoding, if its labels are short enough and it fits.
  // The zero behind the last label may stand at bufLen.
  lemma {:induction false} OutcomeIs(name: seq<byte>, j: nat, bufLen: nat, entries: seq<Entry>)
    ensures forall c: nat :: LongestKnown(name, entries, c) ==>
      Written(name, j, bufLen, c, 2, Outcome(name, j, bufLen, entries), j + c + 2)
    ensures var n := |name|; NoneBefore(name, entries, n + 1) ==>
      Written(name, j, bufLen, n, 1, Outcome(name, j, bufLen, entries), j + n + if Boundary(name, n) then 1 else 2)
    decreases |name|
  {
    hide FirstDot, KnownAt, NoneBefore, LongestKnown, Known, Find, Written, Outcome;
    var d := FirstDot(name);
    FindFirst(entries, name);
    if Find(entries, name) >= 0 {
      OutcomeKnown(name, j, bufLen, entries);
    } else {
      forall c: nat | LongestKnown(name, entries, c)
        ensures d < |name| && c > d && LongestKnown(name[d + 1..], entries, c - d - 1)
      {
        NextLongest(name, entries, c);
      }
      if d < |name| {
        OutcomeIs(name[d + 1..], j + 1 + d, bufLen, entries);
        forall c: nat | LongestKnown(name, entries, c)
          ensures Written(name, j, bufLen, c, 2, Outcome(name, j, bufLen, entries), j + c + 2)
        {
          OutcomeStep(name, j, bufLen, entries, c, 2, j + c + 2);
        }
        var n := |name|;
        if NoneBefore(name, entries, n + 1) {
          NextNone(name, entries, n + 1);
          NextBoundary(name, n);
          OutcomeStep(name, j, bufLen, entries, n, 1, j + n + if Boundary(name, n) then 1 else 2);
        }
      } else {
        OutcomeLast(name, j, bufLen, entries);
      }
    }
  }

  lemma OutcomeKnown(name: seq<byte>, j: nat, bufLen: nat, entries: seq<Entry>)
    requires Find(entries, name) >= 0
    ensures forall c: nat :: LongestKnown(name, entries, c) ==>
      Written(name, j, bufLen, c, 2, Outcome(name, j, bufLen, entries), j + c + 2)
    ensures !NoneBefore(name, entries, |name| + 1)
  {
    hide FirstDot, Find, KnownAt, Known;
    FindFirst(entries, name);
    FirstKnown(name, entries);
    assert KnownAt(name, entries, 0);
  }

  // ---- A whole packet --------------------------------------------------------------------

  // What a packet is built from: names, and other bytes in between.
  datatype Item = Name(name: seq<byte>) | Raw(bytes: seq<byte>)

  // The item of a packet of length r between start and end: a name that reads back from
  // its start, or the bytes given.
  ghost predicate ReadsBack(p: seq<byte>, r: nat, item: Item, start: nat, end: nat)
  {
    match item
    case Name(name) =>
      && start < end <= r && Decodes(p, r, start, name)
      && (Proper(name) ==> Walk(p, r, start, start).value.end == end)
    case Raw(bytes) => start <= end <= r <= |p| && p[start..end] == bytes
  }

  // Pieces of a packet of length r, each beginning where the one before it ends.
  // A name of a packet of length r is compressed against the table there was before it.
  ghost predicate Packed(p: seq<byte>, r: nat, item: Item, entries: seq<Entry>, start: nat, end: nat)
  {
    item.Name? ==> end <= r <= |p| && Compressed(p, start, item.name, entries, end)
  }

  lemma PackedLater(p: seq<byte>, r: nat, p': seq<byte>, r': nat, item: Item, entries: seq<Entry>,
                    start: nat, end: nat)
    requires Packed(p, r, item, entries, start, end) && r <= |p| && r <= r' <= |p'| && p[..r] == p'[..r]
    ensures Packed(p', r', item, entries, start, end)
  {
    if item.Name? {
      CompressedLater(p, r, p', item.name, entries, start, end);
    }
  }

  lemma CompressedLater(p: seq<byte>, r: nat, p': seq<byte>, name: seq<byte>, entries: seq<Entry>, j: nat, e: nat)
    requires Compressed(p, j, name, entries, e) && e <= r <= |p| && r <= |p'| && p[..r] == p'[..r]
    ensures Compressed(p', j, name, entries, e)
  {
    hide FirstDot, Boundary, KnownAt, NoneBefore, FirstFor;
    var n := |name|;
    forall i | 0 <= i < r
      ensures p'[i] == p[i]
    {
      assert p'[i] == p'[..r][i] && p[i] == p[..r][i];
    }
    forall c: nat | LongestKnown(name, entries, c)
      ensures c <= |name| && PointsTo(p', j + c, entries, name[c..])
      ensures Spelled(p', j, name, c)
    {
      LongestInside(name, entries, c);
      assert PointsTo(p, j + c, entries, name[c..]);
      SpelledLater(p, r, p', j, name, c);
    }
    if NoneBefore(name, entries, n + 1) {
      SpelledLater(p, r, p', j, name, n + 1);
    }
  }

  lemma SpelledLater(p: seq<byte>, r: nat, p': seq<byte>, j: nat, name: seq<byte>, n: nat)
    requires Spelled(p, j, name, n) && j + n <= r <= |p| && r <= |p'| && p[..r] == p'[..r]
    ensures Spelled(p', j, name, n)
  {
    hide FirstDot, Boundary;
    forall i | 0 <= i < n
      ensures SpelledAt(p', j, name, i)
    {
      assert SpelledAt(p, j, name, i) && p'[j + i] == p'[..r][j + i] && p[j + i] == p[..r][j + i];
    }
  }

  // The table before each item of a packet, and behind the last one.
  ghost predicate Tables(items: seq<Item>, starts: seq<nat>, tables: seq<seq<Entry>>)
  {
    && |starts| == |items| && |tables| == |items| + 1 && tables[0] == []
    && forall i :: 0 <= i < |items| ==> tables[i + 1] == ItemEntries(items[i], starts[i], tables[i])
  }

  predicate InARow(starts: seq<nat>, ends: seq<nat>, r: nat)
  {
    && |starts| == |ends|
    && (forall i :: 0 <= i < |starts| ==> starts[i] == if i == 0 then 0 else ends[i - 1])
    && r == if ends == [] then 0 else ends[|ends| - 1]
  }

  lemma ReadsBackLater(p: seq<byte>, r: nat, p': seq<byte>, r': nat, item: Item, start: nat, end: nat)
    requires ReadsBack(p, r, item, start, end) && r <= |p| && r <= r' <= |p'| && p[..r] == p'[..r]
    ensures ReadsBack(p', r', item, start, end)
  {
    match item {
      case Name(_) => WalkMore(p, r, start, start, p', r', start);
      case Raw(_) => PrefixSlice(p, r, start, end); PrefixSlice(p', r, start, end);
    }
  }

  // The index behind an item put at r0, or the error that stops it.
  function ItemEnd(item: Item, r0: nat, bufLen: nat, entries: seq<Entry>): int
  {
    match item
    case Name(name) => if |name| > MAX_NAME then -2 else Outcome(name, r0, bufLen, entries)
    case Raw(bytes) => if r0 + |bytes| > bufLen then -2 else r0 + |bytes|
  }

  // The table behind an item put at r0.
  function ItemEntries(item: Item, r0: nat, entries: seq<Entry>): seq<Entry>
  {
    match item
    case Name(name) => Truncated(entries + NewEntries(name, r0, entries))
    case Raw(_) => entries
  }

  // The length of the packet, or the error of the first item that cannot be written.
  function PacketEnd(items: seq<Item>, r0: nat, bufLen: nat, entries: seq<Entry>): int
  {
    if items == [] then r0
    else
      var r := ItemEnd(items[0], r0, bufLen, entries);
      if r < 0 then r else PacketEnd(items[1..], r, bufLen, ItemEntries(items[0], r0, entries))
  }

  // One item after the others; -1 or -2 if it cannot be written.
  method WriteItem(buf: array<byte>, bufLen: nat, r0: nat, item: Item, table: LabelTable) returns (r: int)
    requires bufLen < buf.Length && bufLen < POINTER_RANGE && r0 <= buf.Length && r0 <= POINTER_RANGE
    requires item.Name? ==> NulFree(item.name)
    requires |table.entries| <= MAX_LABELS && Sound(buf[..], r0, table.entries)
    modifies buf, table
    ensures r == ItemEnd(item, r0, bufLen, old(table.entries))
    ensures r >= 0 ==> r0 <= r <= buf.Length && r <= POINTER_RANGE && buf[..][..r0] == old(buf[..][..r0])
    ensures r >= 0 ==> |table.entries| <= MAX_LABELS && Sound(buf[..], r, table.entries)
    ensures r >= 0 ==> table.entries == ItemEntries(item, r0, old(table.entries))
    ensures r >= 0 ==> ReadsBack(buf[..], r, item, r0, r) && Packed(buf[..], r, item, old(table.entries), r0, r)
  {
    hide Compressed, ReadsBack, Sound, Encoded, Outcome, NewEntries, Decodes;
    ghost var p, entries := buf[..], table.entries;
    match item {
      case Name(name) =>
        r := DnsnameToLabels(buf, bufLen, r0, name, table);
        if r < 0 {
          return;
        }
        OutcomeBound(name, r0, bufLen, entries);
        assert buf[..][..r0] == p[..r0];
        NameAppended(p, r0, buf[..], r, name, entries);
        NameReadsBack(buf[..], r, item, r0);
        EncodedCompressed(buf[..], r0, name, entries, r);
      case Raw(bytes) =>
        if r0 + |bytes| > bufLen {
          return -2;
        }
        MemCpy(buf, r0, bytes);
        r := r0 + |bytes|;
        assert buf[..][..r0] == p[..r0];
        SoundLater(p, r0, buf[..], r, entries);
        assert buf[..][r0..r] == bytes;
        RawReadsBack(buf[..], r, item, r0);
    }
  }

  // Writing any list of names and other bytes into one packet with a shared table: the
  // items lie one behind the other from 0 to r; the decoder reads each name from its start
  // and stops where its encoding stopped, and other bytes stand as they were given. Each
  // name is compressed against the suffixes spelled out before it. The result is negative
  // exactly if an item does not fit or is no name.
  method WritePacket(buf: array<byte>, bufLen: nat, items: seq<Item>)
    returns (r: int, starts: seq<nat>, ends: seq<nat>, ghost tables: seq<seq<Entry>>)
    requires bufLen < buf.Length && bufLen < POINTER_RANGE
    requires forall i :: 0 <= i < |items| && items[i].Name? ==> NulFree(items[i].name)
    modifies buf
    ensures r == PacketEnd(items, 0, bufLen, [])
    ensures r >= 0 ==> r <= buf.Length && |starts| == |ends| == |items|
    ensures r >= 0 ==> InARow(starts, ends, r)
    ensures r >= 0 ==> forall i :: 0 <= i < |items| ==> ReadsBack(buf[..], r, items[i], starts[i], ends[i])
    ensures r >= 0 ==> Tables(items, starts, tables)
    ensures r >= 0 ==> forall i :: 0 <= i < |items| ==> Packed(buf[..], r, items[i], tables[i], starts[i], ends[i])
  {
    hide ReadsBack, Packed, Sound, ItemEnd, ItemEntries;
    var table := new LabelTable();
    r, starts, ends, tables := 0, [], [], [[]];
    assert items[..0] == [];
    SoundNone(buf[..], 0);
    for n := 0 to |items|
      invariant 0 <= r <= buf.Length && r <= POINTER_RANGE && |starts| == |ends| == n
      invariant fresh(table) && |table.entries| <= MAX_LABELS && Sound(buf[..], r, table.entries)
      invariant PacketEnd(items, 0, bufLen, []) == PacketEnd(items[n..], r, bufLen, table.entries)
      invariant InARow(starts, ends, r)
      invariant AllBack(buf[..], r, items[..n], starts, ends, tables)
      invariant Tables(items[..n], starts, tables) && tables[n] == table.entries
    {
      ghost var p := buf[..];
      var r0: nat := r;
      assert items[n..][0] == items[n] && items[n..][1..] == items[n + 1..];
      r := WriteItem(buf, bufLen, r0, items[n], table);
      if r < 0 {
        return;
      }
      AllLater(p, r0, buf[..], r, items[..n], starts, ends, tables);
      AllMore(buf[..], r, items[..n], starts, ends, tables, items[n], r0, table.entries);
      assert items[..n] + [items[n]] == items[..n + 1];
      starts, ends, tables := starts + [r0], ends + [r], tables + [table.entries];
    }
    assert items[..|items|] == items;
  }

  // Every item so far, in a packet of length r.
  ghost predicate AllBack(p: seq<byte>, r: nat, items: seq<Item>, starts: seq<nat>, ends: seq<nat>,
                          tables: seq<seq<Entry>>)
  {
    && |starts| == |ends| == |items| && |tables| == |items| + 1
    && (forall i :: 0 <= i < |items| ==> ReadsBack(p, r, items[i], starts[i], ends[i]))
    && (forall i :: 0 <= i < |items| ==> Packed(p, r, items[i], tables[i], starts[i], ends[i]))
  }

  lemma AllMore(p: seq<byte>, r: nat, items: seq<Item>, starts: seq<nat>, ends: seq<nat>, tables: seq<seq<Entry>>,
                item: Item, start: nat, table: seq<Entry>)
    requires AllBack(p, r, items, starts, ends, tables) && Tables(items, starts, tables)
    requires ReadsBack(p, r, item, start, r) && Packed(p, r, item, tables[|items|], start, r)
    requires table == ItemEntries(item, start, tables[|items|])
    ensures AllBack(p, r, items + [item], starts + [start], ends + [r], tables + [table])
    ensures Tables(items + [item], starts + [start], tables + [table])
  {
    hide ReadsBack, Packed, ItemEntries;
  }

  lemma AllLater(p: seq<byte>, r: nat, p': seq<byte>, r': nat, items: seq<Item>, starts: seq<nat>, ends: seq<nat>,
                 tables: seq<seq<Entry>>)
    requires AllBack(p, r, items, starts, ends, tables) && r <= |p| && r <= r' <= |p'| && p[..r] == p'[..r]
    ensures AllBack(p', r', items, starts, ends, tables)
  {
    hide ReadsBack, Packed;
    forall i | 0 <= i < |items|
      ensures ReadsBack(p', r', items[i], starts[i], ends[i])
      ensures Packed(p', r', items[i], tables[i], starts[i], ends[i])
    {
      ReadsBackLater(p, r, p', r', items[i], starts[i], ends[i]);
      PackedLater(p, r, p', r', items[i], tables[i], starts[i], ends[i]);
    }
  }

  lemma SoundNone(p: seq<byte>, length: nat)
    ensures Sound(p, length, [])
  {
  }

  lemma {:induction false} OutcomeBound(name: seq<byte>, j: nat, bufLen: nat, entries: seq<Entry>)
    ensures Outcome(name, j, bufLen, entries) <= bufLen + 1
    decreases |name|
  {
    var d := FirstDot(name);
    if d < |name| {
      OutcomeBound(name[d + 1..], j + 1 + d, bufLen, entries);
    }
  }

  lemma NameReadsBack(p: seq<byte>, r: nat, item: Item, start: nat)
    requires item.Name? && Decodes(p, r, start, item.name)
    requires Proper(item.name) ==> Walk(p, r, start, start).value.end == r
    requires start < r
    ensures ReadsBack(p, r, item, start, r)
  {
  }

  lemma RawReadsBack(p: seq<byte>, r: nat, item: Item, start: nat)
    requires item.Raw? && start <= r <= |p| && p[start..r] == item.bytes
    ensures ReadsBack(p, r, item, start, r)
  {
  }

  // name_parse on a packet written that way returns the very name, for exactly the
  // proper names, and the index behind its encoding.
  method ReadName(packet: seq<byte>, r: nat, name: seq<byte>, start: nat, end: nat, out: array<byte>)
    returns (ok: bool, idx: nat, ghost read: seq<byte>)
    requires r + MAX_LABEL <= |packet| && ReadsBack(packet, r, Name(name), start, end)
    requires out.Length > |name|
    modifies out
    ensures ok && |read| < out.Length && out[..|read|] == read && out[|read|] == 0
    ensures read == name <==> Proper(name)
    ensures Proper(name) ==> idx == end
  {
    JoinLabels(name);
    WalkMore(packet, r, start, start, packet, r, r);
    ok, idx, read := NameParse(packet, r, start, out);
  }
}
