// Positions, searching and line reading over a chained buffer (evbuffer_ptr,
// evbuffer_search_range, evbuffer_search_eol, evbuffer_readln).
//
// Every result is stated on Contents() alone: how the bytes are cut into chains makes
// no difference.
module EvBufferSearch {
  import opened Bytes
  import opened Wrappers
  import opened EvBuffers

  // struct evbuffer_ptr
  datatype EvPtr = EvPtr(pos: int, chain: Addr, posInChain: nat)

  // p points into (or just behind) chain i.
  ghost predicate At(m: Memory, cs: seq<Addr>, p: EvPtr, i: nat)
  {
    && i < |cs|
    && p.chain == cs[i] && p.chain in m
    && p.posInChain <= m[p.chain].off
    && p.pos == |Joined(m, cs[..i])| + p.posInChain
  }

  ghost predicate ValidPtr(buf: EvBuffer, p: EvPtr)
    reads buf, buf.arena
  {
    exists i :: At(buf.arena.mem, buf.chains, p, i)
  }

  // What a chain holds, seen in the whole.
  lemma ChainWindow(m: Memory, cs: seq<Addr>, first: Addr, last: Addr, total: nat, i: nat)
    requires Queue(m, cs, first, last, total) && i < |cs|
    ensures cs[i] in m && m[cs[i]].Ok() && m[cs[i]].next == ChainAt(cs, i + 1, NULL) && cs[i] != NULL
    ensures var start, c := |Joined(m, cs[..i])|, m[cs[i]];
      && |Joined(m, cs[..i + 1])| == start + c.off <= |Joined(m, cs)|
      && Joined(m, cs)[start..start + c.off] == c.Data()
      && (i + 1 < |cs| ==> cs[i + 1] in m)
      && (i + 1 == |cs| ==> start + c.off == |Joined(m, cs)|)
  {
    CopyStep(m, cs, first, last, total, i);
  }

  // What a position sees: the rest of its chain, and the position behind that chain.
  lemma PtrWindow(m: Memory, cs: seq<Addr>, first: Addr, last: Addr, total: nat, p: EvPtr, i: nat)
    requires Queue(m, cs, first, last, total) && At(m, cs, p, i)
    ensures i < |cs| && p.chain != NULL && p.chain in m && m[p.chain].Ok() && p.posInChain <= m[p.chain].off
    ensures var n, s := m[p.chain].off - p.posInChain, Joined(m, cs);
      && 0 <= p.pos <= p.pos + n <= |s|
      && s[p.pos..p.pos + n] == m[p.chain].Data()[p.posInChain..]
      && (if m[p.chain].next == NULL then p.pos + n == |s|
          else i + 1 < |cs| && At(m, cs, EvPtr(p.pos + n, m[p.chain].next, 0), i + 1))
  {
    hide Joined, Queue;
    ChainWindow(m, cs, first, last, total, i);
    var s, start, c := Joined(m, cs), |Joined(m, cs[..i])|, m[cs[i]];
    assert s[p.pos..start + c.off] == s[start..start + c.off][p.posInChain..];
    if i + 1 < |cs| {
      ChainWindow(m, cs, first, last, total, i + 1);
    }
  }

  // Where a position stands, and the position behind its chain.
  lemma PtrReach(m: Memory, cs: seq<Addr>, first: Addr, last: Addr, total: nat, p: EvPtr, i: nat)
    requires Queue(m, cs, first, last, total) && At(m, cs, p, i)
    ensures i < |cs| && p.chain != NULL && p.chain in m && p.posInChain <= m[p.chain].off
    ensures var n, len := m[p.chain].off - p.posInChain, |Joined(m, cs)|;
      && 0 <= p.pos <= p.pos + n <= len
      && (if m[p.chain].next == NULL then p.pos + n == len
          else
            && i + 1 < |cs| && At(m, cs, EvPtr(p.pos + n, m[p.chain].next, 0), i + 1)
            && m[p.chain].next in m)
  {
    hide Joined, Queue;
    PtrWindow(m, cs, first, last, total, p, i);
    assert m[p.chain].next != NULL ==> m[p.chain].next == cs[i + 1];
  }

  // Moving a position within its chain.
  lemma PtrForward(m: Memory, cs: seq<Addr>, p: EvPtr, i: nat, n: nat)
    requires At(m, cs, p, i) && p.posInChain + n <= m[p.chain].off
    ensures At(m, cs, EvPtr(p.pos + n, p.chain, p.posInChain + n), i)
  {
  }

  // Comparing a first piece, then the remainder.
  lemma CompareStep(s: seq<byte>, at: nat, what: seq<byte>, piece: seq<byte>)
    requires |piece| <= |what| && at + |what| <= |s| && s[at..at + |piece|] == piece
    ensures var n, c := |piece|, MemCmp(piece, what[..|piece|]);
      MemCmp(s[at..at + |what|], what) == if c != 0 then c else MemCmp(s[at + n..at + |what|], what[n..])
  {
    SliceParts(s, at, |piece|, |what|);
    MemCmpSplit(s[at..at + |what|], what, |piece|);
  }

  lemma SliceParts(s: seq<byte>, at: nat, n: nat, m: nat)
    requires n <= m && at + m <= |s|
    ensures |s[at..at + m]| == m && s[at..at + m][..n] == s[at..at + n] && s[at..at + m][n..] == s[at + n..at + m]
  {
  }

  lemma MemCmpSplit(a: seq<byte>, b: seq<byte>, n: nat)
    requires n <= |a| == |b|
    ensures MemCmp(a, b) == if MemCmp(a[..n], b[..n]) != 0 then MemCmp(a[..n], b[..n]) else MemCmp(a[n..], b[n..])
  {
    MemCmpConcat(a[..n], b[..n], a[n..], b[n..]);
    assert a[..n] + a[n..] == a && b[..n] + b[n..] == b;
  }

  // Comparing what the chain of p holds, then the remainder in the chains behind it.
  lemma ComparePiece(m: Memory, cs: seq<Addr>, first: Addr, last: Addr, total: nat, p: EvPtr, i: nat, what: seq<byte>)
    requires Queue(m, cs, first, last, total) && At(m, cs, p, i) && p.pos + |what| <= |Joined(m, cs)|
    ensures i < |cs| && p.chain in m && m[p.chain].Ok() && p.posInChain <= m[p.chain].off && 0 <= p.pos
    ensures var c, s := m[p.chain], Joined(m, cs);
      var n := if |what| + p.posInChain > c.off then c.off - p.posInChain else |what|;
      var r := MemCmp(c.Data()[p.posInChain..][..n], what[..n]);
      && MemCmp(s[p.pos..p.pos + |what|], what) ==
           (if r != 0 then r else MemCmp(s[p.pos + n..p.pos + |what|], what[n..]))
      && (n < |what| ==> c.next != NULL && i + 1 < |cs| && At(m, cs, EvPtr(p.pos + n, c.next, 0), i + 1))
  {
    hide Queue, Joined, At, MemCmp;
    PtrWindow(m, cs, first, last, total, p, i);
    var c, s := m[p.chain], Joined(m, cs);
    var n := if |what| + p.posInChain > c.off then c.off - p.posInChain else |what|;
    var rest := c.Data()[p.posInChain..];
    assert s[p.pos..p.pos + n] == s[p.pos..p.pos + |rest|][..n];
    CompareStep(s, p.pos, what, rest[..n]);
  }

  // evbuffer_ptr_memcmp: compare what with the bytes at p.
  method PtrMemcmp(buf: EvBuffer, p: EvPtr, what: seq<byte>) returns (r: int)
    requires buf.Valid() && ValidPtr(buf, p)
    ensures p.pos + |what| > |buf.Contents()| ==> r == -1
    ensures p.pos + |what| <= |buf.Contents()| ==>
      var part := buf.Contents()[p.pos..p.pos + |what|];
      r == MemCmp(part, what) && (r < 0 <==> Below(part, what)) && (r > 0 <==> Below(what, part))
  {
    hide Queue, Joined, At, MemCmp, Below;
    ghost var m, cs := buf.arena.mem, buf.chains;
    ghost var i: nat :| At(m, cs, p, i);
    PtrWindow(m, cs, buf.first, buf.last, buf.totalLen, p, i);
    QueueEnds(m, cs, buf.first, buf.last, buf.totalLen);
    if p.pos < 0 || SIZE_MAX - |what| < p.pos || p.pos + |what| > buf.totalLen {
      return -1;
    }
    var chain, mem := p.chain, what;
    var position: nat := p.posInChain;
    ghost var at := p.pos;
    ghost var s := buf.Contents();
    ghost var goal := MemCmp(s[p.pos..p.pos + |what|], what);
    MemCmpSign(s[p.pos..p.pos + |what|], what);
    while mem != [] && chain != NULL
      invariant at + |mem| == p.pos + |what| && p.pos <= at
      invariant mem != [] ==> chain != NULL && At(m, cs, EvPtr(at, chain, position), i)
      invariant goal == MemCmp(s[at..at + |mem|], mem)
      decreases |mem|, if mem == [] then 0 else |cs| - i
    {
      ComparePiece(m, cs, buf.first, buf.last, buf.totalLen, EvPtr(at, chain, position), i, mem);
      var c := buf.arena.mem[chain];
      var n := if |mem| + position > c.off then c.off - position else |mem|;
      r := MemCmp(c.Data()[position..][..n], mem[..n]);
      if r != 0 {
        return;
      }
      mem := mem[n..];
      at := at + n;
      position := 0;
      chain := c.next;
      i := i + 1;
    }
    MemCmpZero(s[at..at + |mem|], mem);
    r := 0;
  }

  ghost predicate OccursAt(s: seq<byte>, what: seq<byte>, p: int)
  {
    0 <= p && p + |what| <= |s| && s[p..p + |what|] == what
  }

  // No occurrence of what starts in [from, to).
  ghost predicate AbsentFrom(s: seq<byte>, what: seq<byte>, from: int, to: int)
  {
    forall p :: from <= p < to ==> !OccursAt(s, what, p)
  }

  const NotFound := EvPtr(-1, NULL, 0)

  // The match branch of the search loop: what's first byte is p bytes ahead of pos in
  // its chain. Stop there if all of what is, or else step one byte past it.
  method TryMatch(buf: EvBuffer, what: seq<byte>, pos: EvPtr, p: nat, ghost from: int, ghost i: nat)
    returns (found: bool, next: EvPtr, ghost i': nat)
    requires buf.Valid() && At(buf.arena.mem, buf.chains, pos, i) && what != []
    requires buf.arena.mem[pos.chain].Ok() && pos.posInChain + p < buf.arena.mem[pos.chain].off
    requires what[0] !in buf.arena.mem[pos.chain].Data()[pos.posInChain..][..p]
    requires AbsentFrom(buf.Contents(), what, from, pos.pos)
    ensures pos.pos + p <= next.pos <= |buf.Contents()|
    ensures AbsentFrom(buf.Contents(), what, from, next.pos)
    ensures found ==> next.pos + |what| <= |buf.Contents()|
    ensures found ==> OccursAt(buf.Contents(), what, next.pos) && At(buf.arena.mem, buf.chains, next, i')
    ensures !found ==> next.pos == pos.pos + p + 1
    ensures !found && next.chain != NULL ==> At(buf.arena.mem, buf.chains, next, i')
    ensures next.chain == NULL ==> next.pos == |buf.Contents()|
    ensures i' == i || (i' == i + 1 && !found)
    ensures i' == i ==> next.chain == pos.chain
  {
    hide Queue, Joined, At, OccursAt, AbsentFrom, Below;
    ghost var m, cs, s := buf.arena.mem, buf.chains, buf.Contents();
    PtrWindow(m, cs, buf.first, buf.last, buf.totalLen, pos, i);
    var c := buf.arena.mem[pos.chain];
    ghost var rest := c.Data()[pos.posInChain..];
    assert s[pos.pos..pos.pos + p] == s[pos.pos..pos.pos + |rest|][..p];
    AbsentBefore(s, what, from, pos.pos, rest[..p]);
    OccursBounds(s, what);
    PtrForward(m, cs, pos, i, p);
    next, i' := EvPtr(pos.pos + p, pos.chain, pos.posInChain + p), i;
    var cmp := PtrMemcmp(buf, next, what);
    OccursIff(s, what, from, next.pos, cmp);
    if cmp == 0 {
      return true, next, i;
    }
    PtrForward(m, cs, next, i, 1);
    next := EvPtr(next.pos + 1, next.chain, next.posInChain + 1);
    if next.posInChain == c.off {
      PtrWindow(m, cs, buf.first, buf.last, buf.totalLen, next, i);
      next, i' := EvPtr(next.pos, c.next, 0), i + 1;
    }
    found := false;
  }

  // No occurrence of what starts at from or later and ends by limit.
  ghost predicate AbsentBetween(s: seq<byte>, what: seq<byte>, from: int, limit: int)
  {
    forall p :: from <= p && p + |what| <= limit ==> !OccursAt(s, what, p)
  }

  // pos is where what first starts at or after from and ends by limit, -1 if nowhere.
  ghost predicate FirstIn(s: seq<byte>, what: seq<byte>, from: int, limit: int, pos: int)
  {
    if pos == -1 then AbsentBetween(s, what, from, limit)
    else from <= pos && pos + |what| <= limit && OccursAt(s, what, pos) && AbsentFrom(s, what, from, pos)
  }

  // evbuffer_search_range: the first occurrence of what at or after start; with an end,
  // only if it lies before it.
  method SearchRange(buf: EvBuffer, what: seq<byte>, start: Option<EvPtr>, end: Option<EvPtr>)
    returns (r: EvPtr)
    requires buf.Valid()
    requires start.Some? ==> start.value.chain == NULL || ValidPtr(buf, start.value)
    requires end.Some? ==> end.value.chain == NULL || ValidPtr(buf, end.value)
    ensures what == [] || |what| > SSIZE_MAX ==> r == if start.Some? then start.value else EvPtr(0, buf.first, 0)
    ensures start.Some? && start.value.chain == NULL && 0 < |what| <= SSIZE_MAX ==> r == NotFound
    ensures 0 < |what| <= SSIZE_MAX && !(start.Some? && start.value.chain == NULL) ==>
      && FirstIn(buf.Contents(), what, if start.Some? then start.value.pos else 0,
                 if end.Some? then end.value.pos else |buf.Contents()|, r.pos)
      && (if r.pos == -1 then r == NotFound else ValidPtr(buf, r))
  {
    hide Queue, Joined, At, FirstIn;
    var pos := if start.Some? then start.value else EvPtr(0, buf.first, 0);
    if what == [] || |what| > SSIZE_MAX {
      return pos;
    }
    if start.Some? && start.value.chain == NULL {
      return NotFound;
    }
    ghost var i: nat := 0;
    if start.Some? {
      i :| At(buf.arena.mem, buf.chains, pos, i);
    } else {
      StartPtr(buf.arena.mem, buf.chains, buf.first, buf.last, buf.totalLen);
    }
    r := SearchFrom(buf, what, pos, end, i);
  }

  // The search loop
  method SearchFrom(buf: EvBuffer, what: seq<byte>, start: EvPtr, end: Option<EvPtr>, ghost i0: nat)
    returns (r: EvPtr)
    requires buf.Valid() && 0 < |what|
    requires if start.chain == NULL then start.pos == |buf.Contents()| else At(buf.arena.mem, buf.chains, start, i0)
    requires end.Some? ==> end.value.chain == NULL || ValidPtr(buf, end.value)
    ensures FirstIn(buf.Contents(), what, start.pos, if end.Some? then end.value.pos else |buf.Contents()|, r.pos)
    ensures if r.pos == -1 then r == NotFound else ValidPtr(buf, r)
  {
    hide Queue, Joined, At, OccursAt, AbsentFrom, AbsentBetween;
    ghost var m, cs, s := buf.arena.mem, buf.chains, buf.Contents();
    ghost var from, limit := start.pos, if end.Some? then end.value.pos else |s|;
    var lastChain := if end.Some? then end.value.chain else NULL;
    EndInside(buf, end);
    var pos := start;
    ghost var i: nat := i0;
    AbsentNone(s, what, from);
    while pos.chain != NULL
      invariant if pos.chain == NULL then pos.pos == |s| else At(m, cs, pos, i)
      invariant AbsentFrom(s, what, from, pos.pos) && from <= pos.pos
      decreases if pos.chain == NULL then 0 else |cs| - i, |s| - pos.pos
    {
      PtrWindow(m, cs, buf.first, buf.last, buf.totalLen, pos, i);
      var c := buf.arena.mem[pos.chain];
      var rest := c.Data()[pos.posInChain..];
      var p := MemChr(rest, what[0]);
      if p >= 0 {
        var found;
        found, pos, i := TryMatch(buf, what, pos, p, from, i);
        if found {
          if end.Some? && pos.pos + |what| > end.value.pos {
            AbsentWithin(s, what, from, pos.pos, limit);
            return NotFound;
          }
          return pos;
        }
      } else {
        AbsentBefore(s, what, from, pos.pos, rest);
        if pos.chain == lastChain {
          EndOfChain(m, cs, buf.first, buf.last, buf.totalLen, pos, i, end.value);
          AbsentWithin(s, what, from, pos.pos + |rest|, limit);
          return NotFound;
        }
        pos := EvPtr(pos.pos + |rest|, c.next, 0);
        i := i + 1;
      }
    }
    AbsentToEnd(s, what, from, limit);
    r := NotFound;
  }

  // What does not start before the end of the bytes does not start at all.
  lemma AbsentToEnd(s: seq<byte>, what: seq<byte>, from: int, limit: int)
    requires AbsentFrom(s, what, from, |s|) && what != []
    ensures AbsentBetween(s, what, from, limit)
  {
  }

  lemma EndInside(buf: EvBuffer, end: Option<EvPtr>)
    requires buf.Valid() && (end.Some? ==> end.value.chain == NULL || ValidPtr(buf, end.value))
    ensures end.Some? && end.value.chain != NULL ==> 0 <= end.value.pos <= |buf.Contents()|
  {
    hide Queue, Joined, At;
    if end.Some? && end.value.chain != NULL {
      var j: nat :| At(buf.arena.mem, buf.chains, end.value, j);
      PtrWindow(buf.arena.mem, buf.chains, buf.first, buf.last, buf.totalLen, end.value, j);
    }
  }

  lemma OccursBounds(s: seq<byte>, what: seq<byte>)
    ensures forall p {:trigger OccursAt(s, what, p)} :: OccursAt(s, what, p) ==> 0 <= p && p + |what| <= |s|
  {
  }

  lemma StartPtr(m: Memory, cs: seq<Addr>, first: Addr, last: Addr, total: nat)
    requires Queue(m, cs, first, last, total)
    ensures first != NULL ==> At(m, cs, EvPtr(0, first, 0), 0)
    ensures first == NULL ==> Joined(m, cs) == []
  {
    EmptyPrefix(m, cs);
  }

  lemma AbsentNone(s: seq<byte>, what: seq<byte>, from: int)
    ensures AbsentFrom(s, what, from, from)
  {
  }

  // Nothing starts in [from, to), so nothing starts at or after from and ends by limit.
  lemma AbsentWithin(s: seq<byte>, what: seq<byte>, from: int, to: int, limit: int)
    requires AbsentFrom(s, what, from, to) && to + |what| > limit
    ensures AbsentBetween(s, what, from, limit)
  {
  }

  // A position in the chain of another ends no later than that chain does.
  lemma EndOfChain(m: Memory, cs: seq<Addr>, first: Addr, last: Addr, total: nat, p: EvPtr, i: nat, end: EvPtr)
    requires Queue(m, cs, first, last, total) && At(m, cs, p, i) && end.chain == p.chain
    requires exists j :: At(m, cs, end, j)
    ensures end.pos <= p.pos + m[p.chain].off - p.posInChain
  {
    var j: nat :| At(m, cs, end, j);
    assert i < j ==> Differ(cs, i, j);
    assert j < i ==> Differ(cs, j, i);
  }

  // Bytes that do not contain what's first byte start no occurrence.
  lemma AbsentBefore(s: seq<byte>, what: seq<byte>, from: int, at: int, skipped: seq<byte>)
    requires what != [] && 0 <= at && at + |skipped| <= |s| && s[at..at + |skipped|] == skipped
    requires what[0] !in skipped && AbsentFrom(s, what, from, at)
    ensures AbsentFrom(s, what, from, at + |skipped|)
  {
    forall p | at <= p < at + |skipped|
      ensures !OccursAt(s, what, p)
    {
      assert s[p] == skipped[p - at];
      OccursFirst(s, what, p);
    }
  }

  lemma OccursFirst(s: seq<byte>, what: seq<byte>, p: nat)
    requires p < |s|
    ensures what != [] && OccursAt(s, what, p) ==> s[p] == what[0]
  {
    if what != [] && OccursAt(s, what, p) {
      assert s[p] == s[p..p + |what|][0];
    }
  }

  lemma OccursIff(s: seq<byte>, what: seq<byte>, from: int, p: int, cmp: int)
    requires 0 <= p && AbsentFrom(s, what, from, p)
    requires p + |what| > |s| ==> cmp == -1
    requires p + |what| <= |s| ==> cmp == MemCmp(s[p..p + |what|], what)
    ensures cmp == 0 <==> OccursAt(s, what, p)
    ensures cmp != 0 ==> AbsentFrom(s, what, from, p + 1)
  {
    OccursCmp(s, what, p, cmp);
    hide OccursAt, MemCmp;
  }

  lemma OccursCmp(s: seq<byte>, what: seq<byte>, p: nat, cmp: int)
    requires p + |what| > |s| ==> cmp == -1
    requires p + |what| <= |s| ==> cmp == MemCmp(s[p..p + |what|], what)
    ensures cmp == 0 <==> OccursAt(s, what, p)
  {
    hide MemCmp;
    if p + |what| <= |s| {
      MemCmpZero(s[p..p + |what|], what);
    }
  }

  // ---- Positions ---------------------------------------------------------------

  datatype How = PtrSet | PtrAdd

  // evbuffer_ptr_set: go to an absolute position, or step forward from p.
  method SetPtr(buf: EvBuffer, p: EvPtr, position: nat, how: How) returns (ok: bool, r: EvPtr)
    requires buf.Valid() && position <= SIZE_MAX
    requires how == PtrAdd ==> ValidPtr(buf, p)
    ensures var target := if how == PtrSet then position else p.pos + position;
      && ok == (target < |buf.Contents()|)
      && (ok ==> r.pos == target && ValidPtr(buf, r) && r.chain != NULL && r.chain in buf.arena.mem
                 && r.posInChain < buf.arena.mem[r.chain].off)
      && (!ok ==> r.pos == -1 || r == p)
  {
    hide Queue, Joined, At;
    ghost var m, cs, s := buf.arena.mem, buf.chains, buf.Contents();
    QueueEnds(m, cs, buf.first, buf.last, buf.totalLen);
    var left, at, chain := position, 0, buf.first;
    ghost var i: nat := 0;
    if how == PtrAdd {
      i :| At(m, cs, p, i);
      PtrReach(m, cs, buf.first, buf.last, buf.totalLen, p, i);
      if p.pos < 0 || SIZE_MAX - position < p.pos {
        return false, p;
      }
      chain, at := p.chain, p.posInChain;
    } else {
      StartPtr(m, cs, buf.first, buf.last, buf.totalLen);
    }
    var target := if how == PtrSet then position else p.pos + position;
    while chain != NULL && at + left >= buf.arena.mem[chain].off
      invariant at >= 0 && left >= 0
      invariant chain != NULL ==> At(m, cs, EvPtr(target - left, chain, at), i) && chain in m
      invariant chain == NULL ==> target >= |s|
      decreases if chain == NULL then 0 else |cs| - i
    {
      PtrReach(m, cs, buf.first, buf.last, buf.totalLen, EvPtr(target - left, chain, at), i);
      left := left - (buf.arena.mem[chain].off - at);
      chain := buf.arena.mem[chain].next;
      at := 0;
      i := i + 1;
    }
    if chain == NULL {
      return false, NotFound;
    }
    PtrReach(m, cs, buf.first, buf.last, buf.totalLen, EvPtr(target - left, chain, at), i);
    PtrForward(m, cs, EvPtr(target - left, chain, at), i, left);
    ok, r := true, EvPtr(target, chain, at + left);
  }

  // ---- Lines -------------------------------------------------------------------

  const CR: byte := 13
  const LF: byte := 10
  const CRLF: seq<byte> := [CR, LF]
  const CHUNK: nat := 128

  datatype EolStyle = EolAny | EolCrlf | EolCrlfStrict | EolLf

  predicate IsEolByte(c: byte)
  {
    c == CR || c == LF
  }

  // An end of line of the given style lies at p and is n bytes long.
  ghost predicate EolAt(s: seq<byte>, style: EolStyle, p: int, n: int)
  {
    && 0 <= p && 0 < n && p + n <= |s|
    && match style
       case EolAny =>
         && (forall k :: p <= k < p + n ==> IsEolByte(s[k]))
         && (p + n < |s| ==> !IsEolByte(s[p + n]))
       case EolCrlf => (s[p] == LF && n == 1) || (n == 2 && s[p] == CR && s[p + 1] == LF)
       case EolCrlfStrict => n == 2 && s[p] == CR && s[p + 1] == LF
       case EolLf => n == 1 && s[p] == LF
  }

  ghost predicate NoEolIn(s: seq<byte>, style: EolStyle, from: int, to: int)
  {
    forall p, n :: from <= p < to ==> !EolAt(s, style, p, n)
  }

  // The byte a scan stops at: any end-of-line byte, or just LF.
  predicate Stops(any: bool, c: byte)
  {
    c == LF || (any && c == CR)
  }

  ghost predicate NoStop(any: bool, s: seq<byte>)
  {
    forall k :: 0 <= k < |s| ==> !Stops(any, s[k])
  }

  // find_eol_char: the first CR or LF, looking for both in chunks.
  method FindEolChar(s: seq<byte>) returns (r: int)
    ensures -1 <= r < |s|
    ensures r >= 0 ==> Stops(true, s[r]) && NoStop(true, s[..r])
    ensures r < 0 ==> NoStop(true, s)
  {
    var at := 0;
    while at < |s|
      invariant 0 <= at && NoStop(true, s[..if at < |s| then at else |s|])
    {
      var n := if at + CHUNK < |s| then CHUNK else |s| - at;
      var cr := MemChr(s[at..at + n], CR);
      var lf := MemChr(s[at..at + n], LF);
      ghost var found := if cr < 0 then lf else if 0 <= lf < cr then lf else cr;
      assert forall k :: at <= k < at + (if found < 0 then n else found) ==> s[k] == s[at..at + n][k - at];
      if cr >= 0 {
        if 0 <= lf < cr {
          return at + lf;
        }
        return at + cr;
      } else if lf >= 0 {
        return at + lf;
      }
      at := at + CHUNK;
    }
    r := -1;
  }

  method FindStop(s: seq<byte>, any: bool) returns (p: int)
    ensures -1 <= p < |s|
    ensures p >= 0 ==> Stops(any, s[p]) && NoStop(any, s[..p])
    ensures p < 0 ==> NoStop(any, s)
  {
    hide Stops, NoStop;
    if any {
      p := FindEolChar(s);
    } else {
      p := MemChr(s, LF);
      StopsAtLf(s, p);
    }
  }

  // evbuffer_find_eol_char (any) and evbuffer_strchr of LF: the first byte to stop at
  // from it on.
  method ScanFor(buf: EvBuffer, it: EvPtr, any: bool) returns (found: bool, r: EvPtr)
    requires buf.Valid() && (it.chain == NULL || ValidPtr(buf, it))
    ensures it.chain == NULL ==> !found
    ensures it.chain != NULL ==> 0 <= it.pos <= |buf.Contents()|
    ensures !found && it.chain != NULL ==> NoStop(any, buf.Contents()[it.pos..])
    ensures found ==>
      && it.pos <= r.pos < |buf.Contents()| && ValidPtr(buf, r)
      && r.chain != NULL && r.chain in buf.arena.mem && r.posInChain < buf.arena.mem[r.chain].off
      && Stops(any, buf.Contents()[r.pos]) && NoStop(any, buf.Contents()[it.pos..r.pos])
  {
    hide Queue, Joined, At, Stops, NoStop;
    ghost var m, cs, s := buf.arena.mem, buf.chains, buf.Contents();
    r := it;
    if it.chain == NULL {
      return false, it;
    }
    ghost var i: nat :| At(m, cs, it, i);
    PtrWindow(m, cs, buf.first, buf.last, buf.totalLen, it, i);
    ScanNone(any, s, it.pos);
    while r.chain != NULL
      invariant r.chain != NULL ==> At(m, cs, r, i)
      invariant 0 <= it.pos <= r.pos <= |s| && NoStop(any, s[it.pos..r.pos])
      invariant r.chain == NULL ==> NoStop(any, s[it.pos..])
      decreases if r.chain == NULL then 0 else |cs| - i
    {
      PtrWindow(m, cs, buf.first, buf.last, buf.totalLen, r, i);
      var c := buf.arena.mem[r.chain];
      var rest := c.Data()[r.posInChain..];
      assert rest[..|rest|] == rest;
      var p := FindStop(rest, any);
      if p >= 0 {
        ScanJoin(any, s, it.pos, r.pos, rest, p);
        PtrForward(m, cs, r, i, p);
        return true, EvPtr(r.pos + p, r.chain, r.posInChain + p);
      }
      ScanJoin(any, s, it.pos, r.pos, rest, |rest|);
      r := EvPtr(r.pos + |rest|, c.next, 0);
      i := i + 1;
    }
    found := false;
  }

  lemma StopsAtLf(s: seq<byte>, p: int)
    requires -1 <= p < |s| && (p >= 0 ==> s[p] == LF && LF !in s[..p]) && (p < 0 ==> LF !in s)
    ensures p >= 0 ==> Stops(false, s[p]) && NoStop(false, s[..p])
    ensures p < 0 ==> NoStop(false, s)
  {
  }

  lemma ScanNone(any: bool, s: seq<byte>, at: nat)
    requires at <= |s|
    ensures NoStop(any, s[at..at])
  {
  }

  lemma ScanJoin(any: bool, s: seq<byte>, from: nat, at: nat, rest: seq<byte>, p: nat)
    requires from <= at && at + |rest| <= |s| && s[at..at + |rest|] == rest && p <= |rest|
    requires NoStop(any, s[from..at]) && NoStop(any, rest[..p])
    ensures NoStop(any, s[from..at + p])
    ensures at + p == |s| ==> NoStop(any, s[from..])
    ensures p < |rest| ==> s[at + p] == rest[p]
  {
    hide NoStop;
    SlicePrefix(s, at, |rest|, p);
    assert s[from..at + p] == s[from..at] + s[at..at + p];
    assert at + p == |s| ==> s[from..] == s[from..at + p];
    NoStopJoin(any, s[from..at], rest[..p]);
    assert p < |rest| ==> s[at + p] == s[at..at + |rest|][p];
  }

  lemma SlicePrefix(s: seq<byte>, at: nat, n: nat, p: nat)
    requires at + n <= |s| && p <= n
    ensures s[at..at + n][..p] == s[at..at + p]
  {
  }

  lemma NoStopJoin(any: bool, a: seq<byte>, b: seq<byte>)
    requires NoStop(any, a) && NoStop(any, b)
    ensures NoStop(any, a + b)
  {
  }

  ghost predicate AllEol(s: seq<byte>)
  {
    forall k :: 0 <= k < |s| ==> IsEolByte(s[k])
  }

  // evbuffer_strspn with the set "\r\n": how many end-of-line bytes start at p.
  method SpanEol(buf: EvBuffer, p: EvPtr) returns (count: nat)
    requires buf.Valid() && ValidPtr(buf, p)
    ensures 0 <= p.pos && p.pos + count <= |buf.Contents()|
    ensures AllEol(buf.Contents()[p.pos..p.pos + count])
    ensures p.pos + count < |buf.Contents()| ==> !IsEolByte(buf.Contents()[p.pos + count])
  {
    hide Queue, Joined, At;
    ghost var m, cs, s := buf.arena.mem, buf.chains, buf.Contents();
    var it := p;
    ghost var i: nat :| At(m, cs, p, i);
    PtrWindow(m, cs, buf.first, buf.last, buf.totalLen, p, i);
    count := 0;
    while true
      invariant At(m, cs, it, i) && 0 <= p.pos && it.pos == p.pos + count <= |s|
      invariant AllEol(s[p.pos..it.pos])
      decreases |cs| - i
    {
      PtrWindow(m, cs, buf.first, buf.last, buf.totalLen, it, i);
      var c := buf.arena.mem[it.chain];
      var rest := c.Data()[it.posInChain..];
      var n := SpanIn(rest);
      EolJoin(s, p.pos, it.pos, rest, n);
      count := count + n;
      if n < |rest| {
        return;
      }
      if c.next == NULL {
        return;
      }
      it := EvPtr(it.pos + n, c.next, 0);
      i := i + 1;
    }
  }

  method SpanIn(s: seq<byte>) returns (n: nat)
    ensures n <= |s| && AllEol(s[..n]) && (n < |s| ==> !IsEolByte(s[n]))
  {
    n := 0;
    while n < |s| && IsEolByte(s[n])
      invariant n <= |s| && AllEol(s[..n])
    {
      n := n + 1;
    }
  }

  lemma EolJoin(s: seq<byte>, from: nat, at: nat, rest: seq<byte>, n: nat)
    requires from <= at && at + |rest| <= |s| && s[at..at + |rest|] == rest && n <= |rest|
    requires AllEol(s[from..at]) && AllEol(rest[..n])
    ensures AllEol(s[from..at + n])
    ensures n < |rest| ==> s[at + n] == rest[n]
  {
    assert s[from..at + n] == s[from..at] + rest[..n];
  }

  // evbuffer_search_eol: the first end of line at or after start, and its length; from a
  // position without a chain there is none.
  method SearchEol(buf: EvBuffer, start: Option<EvPtr>, style: EolStyle) returns (it: EvPtr, eolLen: nat)
    requires buf.Valid() && (start.Some? ==> start.value.chain == NULL || ValidPtr(buf, start.value))
    ensures start.Some? && start.value.chain == NULL ==> it == NotFound
    ensures it.pos == -1 ==> it == NotFound && eolLen == 0
    ensures !(start.Some? && start.value.chain == NULL) ==>
      var from := if start.Some? then start.value.pos else 0;
      if it.pos == -1 then NoEolIn(buf.Contents(), style, from, |buf.Contents()|)
      else
        && from <= it.pos && EolAt(buf.Contents(), style, it.pos, eolLen) && ValidPtr(buf, it)
        && NoEolIn(buf.Contents(), style, from, it.pos)
  {
    hide Queue, Joined, At, EolAt, NoEolIn, Stops, NoStop, OccursAt, AbsentFrom;
    ghost var m, cs, s := buf.arena.mem, buf.chains, buf.Contents();
    StartPtr(m, cs, buf.first, buf.last, buf.totalLen);
    QueueEnds(m, cs, buf.first, buf.last, buf.totalLen);
    it, eolLen := if start.Some? then start.value else EvPtr(0, buf.first, 0), 0;
    ghost var from, nowhere := it.pos, start.Some? && start.value.chain == NULL;
    NoEolNone(s, style, |s|);
    if start.Some? && start.value.chain != NULL {
      ghost var i: nat :| At(m, cs, it, i);
      PtrWindow(m, cs, buf.first, buf.last, buf.totalLen, it, i);
    }
    match style {
      case EolAny =>
        var found, r := ScanFor(buf, it, true);
        if !found {
          NothingScanned(s, EolAny, from, nowhere);
          return NotFound, 0;
        }
        var n := SpanEol(buf, r);
        ScanNoEol(s, EolAny, from, r.pos);
        SpanIsEol(s, r.pos, n);
        return r, n;
      case EolCrlfStrict =>
        var r := SearchRange(buf, CRLF, Some(it), None);
        OccursIsEol(s, from, r.pos);
        if r.pos < 0 {
          return NotFound, 0;
        }
        return r, 2;
      case EolCrlf =>
        it, eolLen := SearchCrlf(buf, it);
      case EolLf =>
        var found, r := ScanFor(buf, it, false);
        if !found {
          NothingScanned(s, EolLf, from, nowhere);
          return NotFound, 0;
        }
        ScanNoEol(s, EolLf, from, r.pos);
        LfIsEol(s, r.pos);
        return r, 1;
    }
  }

  lemma NothingScanned(s: seq<byte>, style: EolStyle, from: int, nowhere: bool)
    requires style == EolAny || style == EolLf
    requires !nowhere ==> 0 <= from <= |s| && (s == [] || NoStop(style == EolAny, s[from..]))
    ensures !nowhere ==> NoEolIn(s, style, from, |s|)
  {
    hide NoEolIn, NoStop;
    if !nowhere {
      assert s[from..|s|] == s[from..];
      ScanNone(style == EolAny, s, |s|);
      ScanNoEol(s, style, from, |s|);
    }
  }

  lemma ScanNoEol(s: seq<byte>, style: EolStyle, from: nat, to: nat)
    requires style == EolAny || style == EolLf
    requires from <= to <= |s| && NoStop(style == EolAny, s[from..to])
    ensures NoEolIn(s, style, from, to)
  {
    forall p, n | from <= p < to
      ensures !EolAt(s, style, p, n)
    {
      assert !Stops(style == EolAny, s[from..to][p - from]);
    }
  }

  lemma SpanIsEol(s: seq<byte>, p: nat, n: nat)
    requires p + n <= |s| && p < |s| && Stops(true, s[p]) && AllEol(s[p..p + n])
    requires p + n < |s| ==> !IsEolByte(s[p + n])
    ensures EolAt(s, EolAny, p, n)
  {
    forall k | p <= k < p + n
      ensures IsEolByte(s[k])
    {
      assert IsEolByte(s[p..p + n][k - p]);
    }
  }

  lemma LfIsEol(s: seq<byte>, p: nat)
    requires p < |s| && Stops(false, s[p])
    ensures EolAt(s, EolLf, p, 1)
  {
  }

  // A strict end of line is exactly an occurrence of CR LF.
  lemma OccursIsEol(s: seq<byte>, from: int, at: int)
    ensures OccursAt(s, CRLF, at) <==> EolAt(s, EolCrlfStrict, at, 2)
    ensures AbsentFrom(s, CRLF, from, at) ==> NoEolIn(s, EolCrlfStrict, from, at)
    ensures (forall p :: from <= p && p + 2 <= |s| ==> !OccursAt(s, CRLF, p)) ==> NoEolIn(s, EolCrlfStrict, from, |s|)
  {
    forall p {:trigger OccursAt(s, CRLF, p)}
      ensures OccursAt(s, CRLF, p) <==> EolAt(s, EolCrlfStrict, p, 2)
    {
      if 0 <= p && p + 2 <= |s| {
        assert s[p..p + 2] == [s[p], s[p + 1]];
      }
    }
    assert forall p, n :: EolAt(s, EolCrlfStrict, p, n) ==> OccursAt(s, CRLF, p);
  }

  // The loop of the EVBUFFER_EOL_CRLF case: stop at LF or CR LF, step over a lone CR.
  method SearchCrlf(buf: EvBuffer, start: EvPtr) returns (r: EvPtr, eolLen: nat)
    requires buf.Valid() && (start.chain == NULL || ValidPtr(buf, start))
    ensures start.chain == NULL ==> r == NotFound
    ensures r.pos == -1 ==> r == NotFound && eolLen == 0
    ensures start.chain != NULL ==>
      if r.pos == -1 then NoEolIn(buf.Contents(), EolCrlf, start.pos, |buf.Contents()|)
      else
        && start.pos <= r.pos && EolAt(buf.Contents(), EolCrlf, r.pos, eolLen) && ValidPtr(buf, r)
        && NoEolIn(buf.Contents(), EolCrlf, start.pos, r.pos)
  {
    hide Queue, Joined, At, EolAt, NoEolIn, Stops, NoStop, MemCmp;
    ghost var s := buf.Contents();
    var it := start;
    NoEolNone(s, EolCrlf, start.pos);
    while true
      invariant it.chain == NULL || ValidPtr(buf, it)
      invariant it.chain == NULL || start.chain == NULL ==> it == start
      invariant start.pos <= it.pos && NoEolIn(s, EolCrlf, start.pos, it.pos)
      decreases |s| - it.pos
    {
      var found, at := ScanFor(buf, it, true);
      if !found {
        if it.chain != NULL {
          NoEolRest(s, start.pos, it.pos);
        }
        return NotFound, 0;
      }
      NoEolSkip(s, start.pos, it.pos, at.pos);
      var c := GetChr(buf, at);
      if c == LF {
        return at, 1;
      }
      var cmp := PtrMemcmp(buf, at, CRLF);
      CrlfIff(s, start.pos, at.pos, cmp);
      if cmp == 0 {
        return at, 2;
      }
      var ok, next := SetPtr(buf, at, 1, PtrAdd);
      if !ok {
        return NotFound, 0;
      }
      it := next;
    }
  }

  // evbuffer_getchr
  method GetChr(buf: EvBuffer, p: EvPtr) returns (c: byte)
    requires buf.Valid() && ValidPtr(buf, p) && p.chain in buf.arena.mem
    requires p.posInChain < buf.arena.mem[p.chain].off
    ensures 0 <= p.pos < |buf.Contents()| && c == buf.Contents()[p.pos]
  {
    hide Queue, Joined, At;
    ghost var m, cs, s := buf.arena.mem, buf.chains, buf.Contents();
    ghost var i: nat :| At(m, cs, p, i);
    PtrWindow(m, cs, buf.first, buf.last, buf.totalLen, p, i);
    var ch := buf.arena.mem[p.chain];
    assert s[p.pos] == s[p.pos..p.pos + (ch.off - p.posInChain)][0] == ch.Data()[p.posInChain..][0];
    c := ch.buffer[ch.misalign + p.posInChain];
  }

  lemma NoEolNone(s: seq<byte>, style: EolStyle, at: int)
    ensures NoEolIn(s, style, at, at)
  {
  }

  // Bytes that are neither CR nor LF start no end of line.
  lemma NoEolSkip(s: seq<byte>, from: int, at: int, to: int)
    requires NoEolIn(s, EolCrlf, from, at) && 0 <= at <= to < |s|
    requires NoStop(true, s[at..to]) && Stops(true, s[to])
    ensures NoEolIn(s, EolCrlf, from, to)
    ensures s[to] == LF || s[to] == CR
    ensures s[to] == LF ==> EolAt(s, EolCrlf, to, 1)
  {
    forall p, n | from <= p < to
      ensures !EolAt(s, EolCrlf, p, n)
    {
      if p >= at {
        assert !Stops(true, s[at..to][p - at]);
      } else {
        assert !EolAt(s, EolCrlf, p, n);
      }
    }
  }

  lemma NoEolRest(s: seq<byte>, from: int, at: int)
    requires NoEolIn(s, EolCrlf, from, at) && (0 <= at <= |s|) && NoStop(true, s[at..])
    ensures NoEolIn(s, EolCrlf, from, |s|)
  {
    forall p, n | from <= p < |s|
      ensures !EolAt(s, EolCrlf, p, n)
    {
      if p >= at {
        assert !Stops(true, s[at..][p - at]);
      } else {
        assert !EolAt(s, EolCrlf, p, n);
      }
    }
  }

  // A CR is an end of line of this style exactly if the comparison with CR LF says so.
  lemma CrlfIff(s: seq<byte>, from: int, p: int, cmp: int)
    requires 0 <= p < |s| && s[p] == CR && NoEolIn(s, EolCrlf, from, p)
    requires p + 2 > |s| ==> cmp == -1
    requires p + 2 <= |s| ==> cmp == MemCmp(s[p..p + 2], CRLF)
    ensures cmp == 0 ==> EolAt(s, EolCrlf, p, 2)
    ensures cmp != 0 ==> NoEolIn(s, EolCrlf, from, p + 1)
  {
    if p + 2 <= |s| {
      MemCmpZero(s[p..p + 2], CRLF);
      assert s[p..p + 2] == [s[p], s[p + 1]];
    }
    if cmp != 0 {
      forall n
        ensures !EolAt(s, EolCrlf, p, n)
      {
      }
    }
  }

  // evbuffer_readln: take the first line and its terminator off the front.
  method Readln(buf: EvBuffer, style: EolStyle) returns (line: Option<seq<byte>>, nRead: nat, ghost eolLen: nat)
    requires buf.Valid()
    modifies buf, buf.arena
    ensures buf.Valid() && Rest(buf.arena.mem, buf.chains) == old(Rest(buf.arena.mem, buf.chains))
    ensures buf.freezeStart == old(buf.freezeStart) && buf.freezeEnd == old(buf.freezeEnd)
    ensures buf.freezeStart ==> line.None?
    ensures line.None? ==> buf.Contents() == old(buf.Contents()) && nRead == eolLen == 0
    ensures buf.nAddForCb == old(buf.nAddForCb) && buf.nDelForCb == old(buf.nDelForCb) + nRead + eolLen
    ensures line.None? && !buf.freezeStart ==>
      NoEolIn(old(buf.Contents()), style, 0, |old(buf.Contents())|)
    ensures line.Some? ==>
      && nRead == |line.value|
      && EolAt(old(buf.Contents()), style, nRead, eolLen)
      && NoEolIn(old(buf.Contents()), style, 0, nRead)
      && old(buf.Contents()) == line.value + old(buf.Contents())[nRead..nRead + eolLen] + buf.Contents()
  {
    hide Queue, Joined, Rest, NoEolIn, EolAt;
    ghost var s := buf.Contents();
    QueueEnds(buf.arena.mem, buf.chains, buf.first, buf.last, buf.totalLen);
    if buf.freezeStart {
      return None, 0, 0;
    }
    var it, extra := SearchEol(buf, None, style);
    if it.pos < 0 {
      return None, 0, 0;
    }
    EolBounds(s, style, it.pos, extra);
    line := TakeLine(buf, it.pos, extra);
    nRead, eolLen := it.pos, extra;
  }

  // The removal half of evbuffer_readln.
  method TakeLine(buf: EvBuffer, n: nat, extra: nat) returns (line: Option<seq<byte>>)
    requires buf.Valid() && !buf.freezeStart && n + extra <= |buf.Contents()|
    modifies buf, buf.arena
    ensures buf.Valid() && Rest(buf.arena.mem, buf.chains) == old(Rest(buf.arena.mem, buf.chains))
    ensures buf.freezeStart == old(buf.freezeStart) && buf.freezeEnd == old(buf.freezeEnd)
    ensures line.Some? && |line.value| == n
    ensures buf.nAddForCb == old(buf.nAddForCb) && buf.nDelForCb == old(buf.nDelForCb) + n + extra
    ensures old(buf.Contents()) == line.value + old(buf.Contents())[n..n + extra] + buf.Contents()
  {
    hide Queue, Joined, Rest;
    ghost var s := buf.Contents();
    QueueEnds(buf.arena.mem, buf.chains, buf.first, buf.last, buf.totalLen);
    var data := new byte[n];
    var r := buf.Remove(data, n);
    assert data[..] == s[..n];
    QueueEnds(buf.arena.mem, buf.chains, buf.first, buf.last, buf.totalLen);
    var d := buf.Drain(extra);
    ReadlnSplit(s, n, extra);
    line := Some(data[..]);
  }

  lemma EolBounds(s: seq<byte>, style: EolStyle, p: int, n: int)
    requires EolAt(s, style, p, n)
    ensures 0 <= p && 0 < n && p + n <= |s|
  {
  }

  lemma ReadlnSplit(s: seq<byte>, p: nat, n: nat)
    requires p + n <= |s|
    ensures s == s[..p] + s[p..p + n] + s[p..][n..]
  {
  }
}
