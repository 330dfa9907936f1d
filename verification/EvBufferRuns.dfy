// Whole runs of evbuffer operations over two buffers that share one memory, against the
// same runs over a pair of plain byte sequences.
module EvBufferRuns {
  import opened Bytes
  import opened Wrappers
  import opened EvBuffers
  import EvBufferSearch

  // An operation on one buffer, or from the other buffer to it.
  datatype Op =
    | Add(data: seq<byte>)
    | Prepend(data: seq<byte>)
    | Drain(n: nat)
    | Remove(n: nat)
    | Copyout(n: nat)
    | Search(what: seq<byte>)
    | Readln(style: EvBufferSearch.EolStyle)
    | Pullup(size: int)
    | AddBuffer
    | PrependBuffer
    | MoveTo(n: nat)

  // The operation, and whether it is called on the first of the two buffers.
  datatype Call = Call(op: Op, onFirst: bool)

  // What an operation gives its caller: the value returned, bytes copied out together with
  // that value, the bytes at the pointer returned, the position found, or a line and the
  // length of its terminator.
  datatype Reply =
    | Code(code: int)
    | Block(code: int, b: seq<byte>)
    | Front(bytes: Option<seq<byte>>)
    | FoundAt(pos: int)
    | Line(line: Option<seq<byte>>, eolLen: nat)

  datatype Pair = Pair(mine: seq<byte>, other: seq<byte>)

  function Flip(p: Pair): Pair
  {
    Pair(p.other, p.mine)
  }

  // The reply tells the truth about the bytes of the queue.
  ghost predicate Answers(p: Pair, op: Op, r: Reply)
  {
    match op
    case Remove(n) => var k := Min(n, |p.mine|); r == Block(AsInt32(k), p.mine[..k])
    case Copyout(n) => var k := Min(n, |p.mine|); r == Block(k, p.mine[..k])
    case Pullup(size) =>
      var n := if size < 0 then |p.mine| else size;
      r == Front(if 0 < n <= |p.mine| then Some(p.mine[..n]) else None)
    case MoveTo(n) => r == Code(AsInt32(Min(n, |p.mine|)))
    case Search(what) =>
      r.FoundAt? &&
      (if what == [] || |what| > SSIZE_MAX then r.pos == 0
       else EvBufferSearch.FirstIn(p.mine, what, 0, |p.mine|, r.pos))
    case Readln(style) =>
      r.Line? &&
      (match r.line
       case None => EvBufferSearch.NoEolIn(p.mine, style, 0, |p.mine|)
       case Some(l) =>
         && l <= p.mine && EvBufferSearch.EolAt(p.mine, style, |l|, r.eolLen)
         && EvBufferSearch.NoEolIn(p.mine, style, 0, |l|))
    case _ => r == Code(0)
  }

  // The bytes an operation brings in, and how many it takes off the front.
  function Incoming(op: Op): seq<byte>
  {
    match op
    case Add(d) => d
    case Prepend(d) => d
    case _ => []
  }

  function TakenOff(p: Pair, op: Op, r: Reply): (k: nat)
    ensures k <= |p.mine|
  {
    match op
    case Drain(n) => Min(n, |p.mine|)
    case Remove(n) => Min(n, |p.mine|)
    case Readln(_) => if r.Line? && r.line.Some? then Min(|r.line.value| + r.eolLen, |p.mine|) else 0
    case _ => 0
  }

  // What an operation does to the queues.
  function Effect(p: Pair, op: Op, r: Reply): Pair
  {
    match op
    case Add(d) => p.(mine := p.mine + d)
    case Prepend(d) => p.(mine := d + p.mine)
    case AddBuffer => Pair(p.mine + p.other, [])
    case PrependBuffer => Pair(p.other + p.mine, [])
    case MoveTo(n) =>
      var k := Min(n, |p.mine|);
      Pair(p.mine[k..], p.other + p.mine[..k])
    case _ => p.(mine := p.mine[TakenOff(p, op, r)..])
  }

  ghost predicate CallAnswers(p: Pair, c: Call, r: Reply)
  {
    if c.onFirst then Answers(p, c.op, r) else Answers(Flip(p), c.op, r)
  }

  function CallEffect(p: Pair, c: Call, r: Reply): Pair
  {
    if c.onFirst then Effect(p, c.op, r) else Flip(Effect(Flip(p), c.op, r))
  }

  function CallOutput(p: Pair, c: Call, r: Reply): seq<byte>
  {
    var q := if c.onFirst then p else Flip(p);
    q.mine[..TakenOff(q, c.op, r)]
  }

  // The queues after the first n calls of a run, given the replies.
  function After(p: Pair, calls: seq<Call>, rs: seq<Reply>, n: nat): Pair
    requires n <= |calls| && n <= |rs|
  {
    if n == 0 then p else CallEffect(After(p, calls, rs, n - 1), calls[n - 1], rs[n - 1])
  }

  // Every reply of a run is right at its time.
  ghost predicate RunAnswers(p: Pair, calls: seq<Call>, rs: seq<Reply>)
    requires |rs| <= |calls|
  {
    forall i :: 0 <= i < |rs| ==> CallAnswers(After(p, calls, rs, i), calls[i], rs[i])
  }

  // Everything the first n calls take off the front of a queue, and everything they bring
  // in.
  function Taken(p: Pair, calls: seq<Call>, rs: seq<Reply>, n: nat): seq<byte>
    requires n <= |calls| && n <= |rs|
  {
    if n == 0 then []
    else Taken(p, calls, rs, n - 1) + CallOutput(After(p, calls, rs, n - 1), calls[n - 1], rs[n - 1])
  }

  function Brought(calls: seq<Call>, n: nat): seq<byte>
    requires n <= |calls|
  {
    if n == 0 then [] else Brought(calls, n - 1) + Incoming(calls[n - 1].op)
  }

  lemma {:induction false} AfterMore(p: Pair, calls: seq<Call>, rs: seq<Reply>, r: Reply, n: nat)
    requires n <= |calls| && n <= |rs|
    ensures After(p, calls, rs + [r], n) == After(p, calls, rs, n)
  {
    hide CallEffect;
    if n > 0 {
      AfterMore(p, calls, rs, r, n - 1);
    }
  }

  lemma AnswersMore(p: Pair, calls: seq<Call>, rs: seq<Reply>, r: Reply)
    requires |rs| < |calls| && RunAnswers(p, calls, rs) && CallAnswers(After(p, calls, rs, |rs|), calls[|rs|], r)
    ensures RunAnswers(p, calls, rs + [r])
    ensures After(p, calls, rs + [r], |rs| + 1) == CallEffect(After(p, calls, rs, |rs|), calls[|rs|], r)
  {
    hide CallAnswers, CallEffect;
    AfterMore(p, calls, rs, r, |rs|);
    forall i | 0 <= i < |rs| + 1
      ensures CallAnswers(After(p, calls, rs + [r], i), calls[i], (rs + [r])[i])
    {
      AfterMore(p, calls, rs, r, i);
    }
  }

  lemma {:induction false} BroughtGrows(calls: seq<Call>, n: nat, m: nat)
    requires n <= m <= |calls|
    ensures |Brought(calls, n)| <= |Brought(calls, m)|
  {
    if n < m {
      BroughtGrows(calls, n, m - 1);
    }
  }

  function Volume(p: Pair): nat
  {
    |p.mine| + |p.other|
  }

  lemma VolumeStep(p: Pair, c: Call, r: Reply)
    ensures Volume(CallEffect(p, c, r)) <= Volume(p) + |Incoming(c.op)|
  {
  }

  // A pipe: bytes enter at the end of the first buffer, move to the end of the second, and
  // leave from its front, as blocks or as lines. They may be looked at anywhere.
  predicate IsPipe(c: Call)
  {
    match c.op
    case Add(_) => c.onFirst
    case MoveTo(_) => c.onFirst
    case AddBuffer => !c.onFirst
    case Remove(_) => !c.onFirst
    case Readln(_) => !c.onFirst
    case Pullup(_) => true
    case Copyout(_) => true
    case Search(_) => true
    case _ => false
  }

  // Bytes leave a pipe in the order they entered, and none is lost.
  lemma {:induction false} PipeKeepsOrder(p: Pair, calls: seq<Call>, rs: seq<Reply>, n: nat)
    requires n <= |calls| && n <= |rs| && forall c <- calls :: IsPipe(c)
    ensures var q := After(p, calls, rs, n);
      Taken(p, calls, rs, n) + q.other + q.mine == p.other + p.mine + Brought(calls, n)
  {
    hide CallEffect, CallOutput, Incoming, IsPipe;
    if n > 0 {
      PipeKeepsOrder(p, calls, rs, n - 1);
      var was, c, r := After(p, calls, rs, n - 1), calls[n - 1], rs[n - 1];
      PipeStep(was, c, r);
      var q := CallEffect(was, c, r);
      Regroup(Taken(p, calls, rs, n - 1), CallOutput(was, c, r), q.other, q.mine, was.other, was.mine, Incoming(c.op),
              p.other + p.mine, Brought(calls, n - 1));
    }
  }

  lemma Regroup(taken: seq<byte>, out: seq<byte>, o: seq<byte>, m: seq<byte>, o': seq<byte>, m': seq<byte>,
                i: seq<byte>, start: seq<byte>, brought: seq<byte>)
    requires out + o + m == o' + m' + i && taken + o' + m' == start + brought
    ensures taken + out + o + m == start + (brought + i)
  {
    assert taken + out + o + m == taken + (out + o + m);
    assert taken + (o' + m' + i) == (taken + o' + m') + i;
    assert start + brought + i == start + (brought + i);
  }

  lemma PipeStep(p: Pair, c: Call, r: Reply)
    requires IsPipe(c)
    ensures var q := CallEffect(p, c, r);
      CallOutput(p, c, r) + q.other + q.mine == p.other + p.mine + Incoming(c.op)
  {
    hide TakenOff, Effect, Incoming, CallEffect, CallOutput;
    if c.op.Add? || c.op.MoveTo? || c.op.AddBuffer? {
      StepIn(p, c, r);
    } else if c.op.Remove? || c.op.Readln? {
      StepOut(p, c, r);
    } else {
      StepBeside(p, c, r);
    }
  }

  lemma StepIn(p: Pair, c: Call, r: Reply)
    requires IsPipe(c) && (c.op.Add? || c.op.MoveTo? || c.op.AddBuffer?)
    ensures var q := CallEffect(p, c, r);
      CallOutput(p, c, r) + q.other + q.mine == p.other + p.mine + Incoming(c.op)
  {
    if c.op.MoveTo? {
      var k := Min(c.op.n, |p.mine|);
      assert p.mine == p.mine[..k] + p.mine[k..];
    }
  }

  lemma StepOut(p: Pair, c: Call, r: Reply)
    requires IsPipe(c) && (c.op.Remove? || c.op.Readln?)
    ensures var q := CallEffect(p, c, r);
      CallOutput(p, c, r) + q.other + q.mine == p.other + p.mine + Incoming(c.op)
  {
    hide TakenOff;
    TakeFront(p.other, TakenOff(Flip(p), c.op, r), p.mine);
  }

  lemma StepBeside(p: Pair, c: Call, r: Reply)
    requires IsPipe(c) && (c.op.Pullup? || c.op.Copyout? || c.op.Search?)
    ensures var q := CallEffect(p, c, r);
      CallOutput(p, c, r) + q.other + q.mine == p.other + p.mine + Incoming(c.op)
  {
    assert p.mine[0..] == p.mine && p.other[0..] == p.other;
  }

  lemma TakeFront(s: seq<byte>, k: nat, t: seq<byte>)
    requires k <= |s|
    ensures s[..k] + s[k..] + t == s + t + []
  {
  }

  // ---- Runs on the real buffers --------------------------------------------------------

  // Two buffers that hold these queues and nothing of each other's.
  ghost predicate Hold(a: EvBuffer, b: EvBuffer, p: Pair)
    reads a, b, a.arena, b.arena
  {
    && a.Valid() && b.Valid() && a.Apart(b)
    && !a.freezeStart && !a.freezeEnd && !b.freezeStart && !b.freezeEnd
    && a.Contents() == p.mine && b.Contents() == p.other
    && a.totalLen == |p.mine| && b.totalLen == |p.other|
  }

  // The memory that belongs to neither.
  ghost function Outside(a: EvBuffer, b: EvBuffer): Memory
    reads a, b, a.arena
  {
    Rest(a.arena.mem, a.chains + b.chains)
  }

  lemma HoldFlip(a: EvBuffer, b: EvBuffer, p: Pair)
    requires Hold(a, b, p)
    ensures a.arena == b.arena && Hold(b, a, Flip(p)) && Outside(b, a) == Outside(a, b)
  {
    RestSwap(a.arena.mem, a.chains, b.chains);
  }

  // An operation on a alone leaves b as it was.
  lemma BesideKept(m: Memory, cs: seq<Addr>, m': Memory, cs': seq<Addr>,
                   ds: seq<Addr>, first: Addr, last: Addr, total: nat)
    requires Rest(m, cs) == Rest(m', cs') && forall a <- cs :: a !in ds
    requires Queue(m, ds, first, last, total)
    ensures Queue(m', ds, first, last, total) && Joined(m', ds) == Joined(m, ds)
    ensures forall a <- cs' :: a !in ds
    ensures Rest(m', cs' + ds) == Rest(m, cs + ds)
  {
    hide Joined;
    QueueList(m, ds, first, last, total);
    assert forall a <- ds :: a in m && a !in cs;
    OtherKept(m, cs, m', cs', ds);
    hide Rest, Queue;
    RestSwap(m, cs, ds);
    RestSwap(m', cs', ds);
    QueueSame(m, m', ds, first, last, total);
  }

  // evbuffer_remove into a block of the caller's
  method TakeOut(a: EvBuffer, n: nat) returns (r: Reply)
    requires a.Valid() && !a.freezeStart
    modifies a, a.arena
    ensures a.Valid()
    ensures var k := Min(n, old(a.totalLen));
      k <= |old(a.Contents())| && a.Contents() == old(a.Contents())[k..]
      && r == Block(AsInt32(k), old(a.Contents())[..k])
    ensures Rest(a.arena.mem, a.chains) == old(Rest(a.arena.mem, a.chains))
    ensures a.freezeStart == old(a.freezeStart) && a.freezeEnd == old(a.freezeEnd)
  {
    hide Queue, Joined, Rest;
    QueueEnds(a.arena.mem, a.chains, a.first, a.last, a.totalLen);
    var data, len := new byte[n], Min(n, a.totalLen);
    var code := a.Remove(data, n);
    r := Block(code, data[..len]);
  }

  // evbuffer_copyout into a block of the caller's
  method CopyOf(a: EvBuffer, n: nat) returns (r: Reply)
    requires a.Valid() && !a.freezeStart
    ensures var k := Min(n, a.totalLen); k <= |a.Contents()| && r == Block(k, a.Contents()[..k])
  {
    hide Queue, Joined, Rest;
    QueueEnds(a.arena.mem, a.chains, a.first, a.last, a.totalLen);
    var data, len := new byte[n], Min(n, a.totalLen);
    var code := a.Copyout(data, n);
    r := Block(code, data[..len]);
  }

  // evbuffer_search over the whole buffer
  method Find(a: EvBuffer, what: seq<byte>, ghost p: Pair) returns (r: Reply)
    requires a.Valid() && a.Contents() == p.mine
    ensures Answers(p, Search(what), r)
  {
    hide Queue, Joined, Rest, EvBufferSearch.FirstIn;
    var at := EvBufferSearch.SearchRange(a, what, None, None);
    r := FoundAt(at.pos);
  }

  // evbuffer_readln
  method TakeLine(a: EvBuffer, style: EvBufferSearch.EolStyle, ghost p: Pair) returns (r: Reply)
    requires a.Valid() && !a.freezeStart && a.Contents() == p.mine
    modifies a, a.arena
    ensures a.Valid() && Answers(p, Readln(style), r) && a.Contents() == Effect(p, Readln(style), r).mine
    ensures Rest(a.arena.mem, a.chains) == old(Rest(a.arena.mem, a.chains))
    ensures a.freezeStart == old(a.freezeStart) && a.freezeEnd == old(a.freezeEnd)
  {
    hide Queue, Joined, Rest, EvBufferSearch.NoEolIn, EvBufferSearch.EolAt;
    QueueEnds(a.arena.mem, a.chains, a.first, a.last, a.totalLen);
    var before := a.totalLen;
    var line, n, eolLen := EvBufferSearch.Readln(a, style);
    if line.None? {
      assert a.Contents()[0..] == a.Contents();
      return Line(None, 0);
    }
    EvBufferSearch.EolBounds(p.mine, style, n, eolLen);
    LineTaken(p.mine, line.value, eolLen, a.Contents());
    QueueEnds(a.arena.mem, a.chains, a.first, a.last, a.totalLen);
    r := Line(line, before - a.totalLen - n);
  }

  lemma LineTaken(s: seq<byte>, line: seq<byte>, eolLen: nat, rest: seq<byte>)
    requires |line| + eolLen <= |s| && s == line + s[|line|..|line| + eolLen] + rest
    ensures line <= s && rest == s[|line| + eolLen..] && |s| == |line| + eolLen + |rest|
  {
  }

  // The operations that touch one buffer.
  method ApplyAlone(a: EvBuffer, b: EvBuffer, op: Op, ghost p: Pair) returns (r: Reply)
    requires Hold(a, b, p) && Volume(p) + |Incoming(op)| <= MAX_CAPACITY
    requires !op.AddBuffer? && !op.PrependBuffer? && !op.MoveTo?
    modifies a, a.arena
    ensures Answers(p, op, r) && Hold(a, b, Effect(p, op, r)) && Outside(a, b) == old(Outside(a, b))
  {
    hide Queue, Joined, Rest;
    ghost var m, cs := a.arena.mem, a.chains;
    r := Alone(a, op, p);
    QueueLength(a.arena.mem, a.chains, a.first, a.last, a.totalLen);
    BesideKept(m, cs, a.arena.mem, a.chains, b.chains, b.first, b.last, b.totalLen);
  }

  method Alone(a: EvBuffer, op: Op, ghost p: Pair) returns (r: Reply)
    requires a.Valid() && !a.freezeStart && !a.freezeEnd && a.Contents() == p.mine
    requires Volume(p) + |Incoming(op)| <= MAX_CAPACITY
    requires !op.AddBuffer? && !op.PrependBuffer? && !op.MoveTo?
    modifies a, a.arena
    ensures a.Valid() && !a.freezeStart && !a.freezeEnd
    ensures Answers(p, op, r) && a.Contents() == Effect(p, op, r).mine && Effect(p, op, r).other == p.other
    ensures Rest(a.arena.mem, a.chains) == old(Rest(a.arena.mem, a.chains))
  {
    hide Queue, Joined, Rest, EvBufferSearch.FirstIn, EvBufferSearch.NoEolIn, EvBufferSearch.EolAt;
    if op.Add? || op.Prepend? || op.Drain? {
      r := Change(a, op, p);
    } else {
      r := Ask(a, op, p);
    }
  }

  method Change(a: EvBuffer, op: Op, ghost p: Pair) returns (r: Reply)
    requires a.Valid() && !a.freezeStart && !a.freezeEnd && a.Contents() == p.mine
    requires Volume(p) + |Incoming(op)| <= MAX_CAPACITY
    requires op.Add? || op.Prepend? || op.Drain?
    modifies a, a.arena
    ensures a.Valid() && !a.freezeStart && !a.freezeEnd
    ensures Answers(p, op, r) && a.Contents() == Effect(p, op, r).mine
    ensures Rest(a.arena.mem, a.chains) == old(Rest(a.arena.mem, a.chains))
  {
    hide Queue, Joined, Rest;
    QueueLength(a.arena.mem, a.chains, a.first, a.last, a.totalLen);
    var code;
    match op {
      case Add(d) =>
        code := a.Add(d);
      case Prepend(d) =>
        code := a.Prepend(d);
      case Drain(n) =>
        code := a.Drain(n);
    }
    r := Code(code);
  }

  // evbuffer_pullup, and what its caller finds at the pointer
  method Pull(a: EvBuffer, size: int, ghost p: Pair) returns (r: Reply)
    requires a.Valid() && a.Contents() == p.mine && |p.mine| <= MAX_CAPACITY
    modifies a, a.arena
    ensures a.Valid() && a.Contents() == p.mine && Answers(p, Pullup(size), r)
    ensures a.freezeStart == old(a.freezeStart) && a.freezeEnd == old(a.freezeEnd)
    ensures Rest(a.arena.mem, a.chains) == old(Rest(a.arena.mem, a.chains))
  {
    hide Queue, Joined, Rest;
    QueueLength(a.arena.mem, a.chains, a.first, a.last, a.totalLen);
    var n := if size < 0 then a.totalLen else size;
    var chain := a.Pullup(size);
    r := Front(if chain == NULL then None else Some(a.arena.mem[chain].Data()[..n]));
  }

  method Ask(a: EvBuffer, op: Op, ghost p: Pair) returns (r: Reply)
    requires a.Valid() && !a.freezeStart && !a.freezeEnd && a.Contents() == p.mine
    requires op.Remove? || op.Copyout? || op.Search? || op.Readln? || (op.Pullup? && |p.mine| <= MAX_CAPACITY)
    modifies a, a.arena
    ensures a.Valid() && !a.freezeStart && !a.freezeEnd
    ensures Answers(p, op, r) && a.Contents() == Effect(p, op, r).mine
    ensures Rest(a.arena.mem, a.chains) == old(Rest(a.arena.mem, a.chains))
  {
    hide Queue, Joined, Rest, EvBufferSearch.FirstIn, EvBufferSearch.NoEolIn, EvBufferSearch.EolAt;
    QueueLength(a.arena.mem, a.chains, a.first, a.last, a.totalLen);
    match op {
      case Remove(n) =>
        r := TakeOut(a, n);
      case Copyout(n) =>
        r := CopyOf(a, n);
      case Search(what) =>
        r := Find(a, what, p);
      case Readln(style) =>
        r := TakeLine(a, style, p);
      case Pullup(size) =>
        r := Pull(a, size, p);
    }
  }

  // The operations that move bytes between the buffers.
  method ApplyBoth(a: EvBuffer, b: EvBuffer, op: Op, ghost p: Pair) returns (r: Reply)
    requires Hold(a, b, p) && Volume(p) <= MAX_CAPACITY
    requires op.AddBuffer? || op.PrependBuffer? || op.MoveTo?
    modifies a, b, a.arena
    ensures Answers(p, op, r) && Hold(a, b, Effect(p, op, r)) && Outside(a, b) == old(Outside(a, b))
  {
    hide Queue, Joined, Rest;
    var code;
    match op {
      case AddBuffer =>
        code := a.AddBuffer(b);
      case PrependBuffer =>
        code := a.PrependBuffer(b);
      case MoveTo(n) =>
        code := a.RemoveBuffer(b, n);
    }
    r := Code(code);
    QueueEnds(a.arena.mem, a.chains, a.first, a.last, a.totalLen);
    QueueEnds(a.arena.mem, b.chains, b.first, b.last, b.totalLen);
    assert [] + p.other == p.other;
  }

  // One call on either of the buffers.
  method Apply(a: EvBuffer, b: EvBuffer, op: Op, ghost p: Pair) returns (r: Reply)
    requires Hold(a, b, p) && Volume(p) + |Incoming(op)| <= MAX_CAPACITY
    modifies a, b, a.arena
    ensures Answers(p, op, r) && Hold(a, b, Effect(p, op, r)) && Outside(a, b) == old(Outside(a, b))
  {
    hide Hold, Effect, Outside;
    if op.AddBuffer? || op.PrependBuffer? || op.MoveTo? {
      r := ApplyBoth(a, b, op, p);
    } else {
      r := ApplyAlone(a, b, op, p);
    }
  }

  // Every run of calls on two buffers does to their bytes what it does to two plain
  // sequences, and answers as these do; nothing outside the buffers is touched, and no
  // chain is left behind.
  method RunCalls(a: EvBuffer, b: EvBuffer, calls: seq<Call>, ghost p: Pair) returns (rs: seq<Reply>)
    requires Hold(a, b, p) && Volume(p) + |Brought(calls, |calls|)| <= MAX_CAPACITY
    modifies a, b, a.arena
    ensures |rs| == |calls| && RunAnswers(p, calls, rs)
    ensures Hold(a, b, After(p, calls, rs, |calls|)) && Outside(a, b) == old(Outside(a, b))
  {
    hide Hold, Effect, Outside, Answers, RunAnswers, Incoming;
    rs := [];
    NoAnswers(p, calls);
    for i := 0 to |calls|
      invariant |rs| == i && RunAnswers(p, calls, rs)
      invariant Hold(a, b, After(p, calls, rs, i)) && Outside(a, b) == old(Outside(a, b))
      invariant Volume(After(p, calls, rs, i)) <= Volume(p) + |Brought(calls, i)|
    {
      var c := calls[i];
      ghost var q := After(p, calls, rs, i);
      BroughtGrows(calls, i + 1, |calls|);
      var r := ApplyCall(a, b, c, q);
      VolumeStep(q, c, r);
      AnswersMore(p, calls, rs, r);
      rs := rs + [r];
    }
  }

  lemma NoAnswers(p: Pair, calls: seq<Call>)
    ensures RunAnswers(p, calls, [])
  {
  }

  method ApplyCall(a: EvBuffer, b: EvBuffer, c: Call, ghost q: Pair) returns (r: Reply)
    requires Hold(a, b, q) && Volume(q) + |Incoming(c.op)| <= MAX_CAPACITY
    modifies a, b, a.arena
    ensures CallAnswers(q, c, r) && Hold(a, b, CallEffect(q, c, r)) && Outside(a, b) == old(Outside(a, b))
  {
    hide Hold, Effect, Outside, Answers, Incoming;
    if c.onFirst {
      r := Apply(a, b, c.op, q);
    } else {
      HoldFlip(a, b, q);
      SameVolume(q);
      r := Apply(b, a, c.op, Flip(q));
      HoldFlip(b, a, Effect(Flip(q), c.op, r));
    }
  }

  lemma SameVolume(p: Pair)
    ensures Volume(Flip(p)) == Volume(p)
  {
  }
}
