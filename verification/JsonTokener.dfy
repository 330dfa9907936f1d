// json_tokener_parse_ex as it is written: a loop over the switch whose cases for white
// space, comments, strings, escapes and numbers run ahead by themselves and hand whole
// runs of bytes to the print buffer. It is proved to compute JsonMachine.Run.
module JsonTokener {
  import opened Bytes
  import opened Wrappers
  import opened Json
  import opened Int64Parse
  import opened JsonMachine
  import opened PrintBufs

  // What a case of the switch does next: goto redo_char, break, or goto out.
  datatype Ctl = Redone | Advance | Leave

  // What a text ends as, seen from position i, when the switch has done n on text[i].
  function Settled(conf: Conf, n: Next, text: seq<byte>, i: nat): Result
    requires i < |text| && !n.Again? && Fine(conf, n)
  {
    match Settle(n, text[i])
    case Stop(t, err, used) => Out(t, err, if used then i + 1 else i)
    case More(t) => Run(conf, t, text, i + 1)
  }

  // The same, when the switch is still to be entered with value obj.
  function RunOn(conf: Conf, t: Tok, obj: Json, text: seq<byte>, i: nat): Result
    requires WF(conf, t) && (t.pend.NoHi? || t.pend.HiU?) && i < |text|
  {
    Settled(conf, Redo(conf, t, obj, text[i]), text, i)
  }

  // The code after the label out, c being the last byte read.
  function Left(t: Tok, err: Error, c: byte, i: nat): Result
  {
    Out(t, if c == 0 then AtNul(t, err) else err, i)
  }

  lemma LeftNow(t: Tok, err: Error, c: byte, i: nat)
    requires c != 0
    ensures Left(t, err, c, i) == Out(t, err, i)
  {
  }

  // The result of a case, t' and i' being the new state and position.
  datatype Move = Move(ctl: Ctl, obj: Json, err: Error, c: byte, i: nat)

  ghost predicate Done(conf: Conf, t: Tok, obj: Json, text: seq<byte>, i: nat, t': Tok, m: Move)
    requires WF(conf, t) && t.pend.NoHi? && i < |text|
  {
    var r := RunOn(conf, t, obj, text, i);
    && i <= m.i <= |text| && t'.pend.NoHi?
    && (m.ctl != Leave ==> m.i < |text| && m.c == text[m.i] && WF(conf, t'))
    && (match m.ctl
        case Redone => RunOn(conf, t', m.obj, text, m.i) == r && (m.i == i ==> Rank(t') < Rank(t))
        case Advance => !Adding(t') && Settled(conf, More(t'), text, m.i) == r
        case Leave => Left(t', m.err, m.c, m.i) == r)
  }

  // A case that does exactly what Micro says.
  predicate Mirrors(n: Next, t': Tok, m: Move)
  {
    match n
    case Again(t) => m.ctl == Redone && t' == t
    case More(t) => m.ctl == Advance && t' == t
    case Stop(t, err, _) => m.ctl == Leave && t' == t && m.err == err
  }

  lemma MirrorsDone(conf: Conf, t: Tok, obj: Json, text: seq<byte>, i: nat, t': Tok, m: Move)
    requires WF(conf, t) && t.pend.NoHi? && i < |text|
    requires m.i == i && m.c == text[i]
    requires Mirrors(Micro(conf, t, obj, text[i]), t', m) && t'.pend.NoHi? && m.obj == NextObj(t, obj)
    ensures Done(conf, t, obj, text, i, t', m)
  {
    hide WF, Micro, Run;
    MicroKeeps(conf, t, obj, text[i]);
  }

  // From t0 at position start the machine gets to t at position i, in an escape.
  ghost predicate At(conf: Conf, t0: Tok, obj: Json, text: seq<byte>, start: nat, t: Tok, i: nat)
    requires WF(conf, t0) && (t0.pend.NoHi? || t0.pend.HiU?) && start <= i < |text|
  {
    && (t.pend.NoHi? || t.pend.HiU?) && WF(conf, t) && t.top.state == EscapeUnicode
    && RunOn(conf, t, obj, text, i) == RunOn(conf, t0, obj, text, start)
  }

  lemma LeaveDone(conf: Conf, t0: Tok, obj: Json, text: seq<byte>, start: nat, t: Tok, m: Move)
    requires WF(conf, t0) && t0.pend.NoHi? && start <= m.i <= |text| && start < |text| && t.pend.NoHi?
    requires m.ctl == Leave && Left(t, m.err, m.c, m.i) == RunOn(conf, t0, obj, text, start)
    ensures Done(conf, t0, obj, text, start, t, m)
  {
    hide WF, RunOn;
  }

  // What the fourth digit leads to, seen from the start of the escapes.
  lemma FourthDone(conf: Conf, t0: Tok, obj: Json, text: seq<byte>, start: nat, i: nat, t: Tok, t': Tok, m: Move,
                   pair: bool)
    requires WF(conf, t0) && t0.pend.NoHi? && start <= i < |text| && At(conf, t0, obj, text, start, t, i)
    requires t'.pend.NoHi?
    requires !pair ==> m.ctl != Redone && i <= m.i <= |text|
    requires !pair && m.ctl == Advance ==>
      && m.i == i && m.c == text[i] && WF(conf, t') && !Adding(t')
      && Settled(conf, More(t'), text, i) == RunOn(conf, t, obj, text, i)
    requires !pair && m.ctl == Leave ==> Left(t', m.err, m.c, m.i) == RunOn(conf, t, obj, text, i)
    ensures !pair ==> Done(conf, t0, obj, text, start, t', m)
  {
    hide WF, RunOn;
  }

  // Only a value finished on the same byte is ever added to a container.
  lemma {:induction false} ObjIrrelevant(conf: Conf, t: Tok, obj: Json, obj': Json, c: byte)
    requires WF(conf, t) && (t.pend.NoHi? || t.pend.HiU?) && !Adding(t)
    ensures Redo(conf, t, obj, c) == Redo(conf, t, obj', c)
    decreases Rank(t)
  {
    hide WF, Micro;
    MicroKeeps(conf, t, obj, c);
    SameMicro(conf, t, obj, obj', c);
    var n := Micro(conf, t, obj, c);
    if n.Again? && t.top.state != Finish {
      ObjIrrelevant(conf, n.tok, obj, obj', c);
    }
  }

  lemma SameMicro(conf: Conf, t: Tok, obj: Json, obj': Json, c: byte)
    requires WF(conf, t) && !Adding(t)
    ensures Micro(conf, t, obj, c) == Micro(conf, t, obj', c)
  {
    hide MicroStart, MicroComment, MicroText, MicroEscape, MicroUnicode, MicroNull, MicroBool, MicroNumber, MicroFinish;
  }

  // A byte consumed in place: the next one, or the end of the text, decides.
  lemma MoreOn(conf: Conf, t: Tok, obj: Json, text: seq<byte>, i: nat)
    requires WF(conf, t) && (t.pend.NoHi? || t.pend.HiU?) && i < |text| && text[i] != 0
    requires var n := Micro(conf, t, obj, text[i]);
      n.More? && (n.tok.pend.NoHi? || n.tok.pend.HiU?) && !Adding(n.tok)
    ensures var t' := Micro(conf, t, obj, text[i]).tok;
      && WF(conf, t')
      && RunOn(conf, t, obj, text, i) ==
         if i + 1 < |text| then RunOn(conf, t', obj, text, i + 1)
         else Out(EndPending(t'), if AtEnd(EndPending(t')) then Success else Continue, i + 1)
  {
    hide WF, Micro;
    MicroKeeps(conf, t, obj, text[i]);
    var t' := Micro(conf, t, obj, text[i]).tok;
    if i + 1 < |text| {
      ObjIrrelevant(conf, t', obj, Null, text[i + 1]);
    }
  }

  // The last byte of a C string: the case breaks off there.
  lemma NulOn(conf: Conf, t: Tok, obj: Json, text: seq<byte>, i: nat)
    requires WF(conf, t) && (t.pend.NoHi? || t.pend.HiU?) && i < |text| && text[i] == 0
    requires Micro(conf, t, obj, text[i]).More?
    ensures RunOn(conf, t, obj, text, i) == Left(Micro(conf, t, obj, text[i]).tok, Success, 0, i + 1)
  {
    hide WF, Micro;
    MicroKeeps(conf, t, obj, text[i]);
  }

  function Waiting(hi: nat): Pending
  {
    if hi == 0 then NoHi else HiU(hi)
  }

  lemma UnicodeOk(conf: Conf, t: Tok)
    requires WF(conf, t) && t.top.state == EscapeUnicode
    ensures t.stPos < 4 && DigitsOk(t.ucs, t.stPos) && (t.top.saved == InString || t.top.saved == Field)
  {
  }

  lemma NumberCase(conf: Conf, t: Tok, obj: Json, c: byte)
    requires WF(conf, t) && t.top.state == Number
    ensures Micro(conf, t, obj, c) == MicroNumber(conf, t, c) && NextObj(t, obj) == obj
  {
  }

  lemma NumberMicro(conf: Conf, t: Tok, obj: Json, c: byte)
    requires WF(conf, t) && t.top.state == Number && IsNumberChar(c)
    ensures Micro(conf, t, obj, c) ==
      More(Grow(t, [c]).(isDouble := t.isDouble || c == 46 || c == LETTER_E || c == 69)) && c != 0
  {
  }

  // The state escape_unicode but for the fourth digit.
  lemma UnicodeMicro(conf: Conf, t: Tok, obj: Json, c: byte)
    requires WF(conf, t) && (t.pend.NoHi? || t.pend.HiU?) && t.top.state == EscapeUnicode
    ensures t.stPos < 4 && DigitsOk(t.ucs, t.stPos)
    ensures !IsHex(c) && c != 0 ==> Micro(conf, t, obj, c) == Stop(t, BadString, false)
    ensures c == 0 ==> !IsHex(c) && Micro(conf, t, obj, c) == More(if t.pend.HiU? then Flush(t) else t)
    ensures IsHex(c) && t.stPos < 3 ==>
      Micro(conf, t, obj, c) == More(t.(ucs := AddDigit(t.ucs, t.stPos, HexDigit(c)), stPos := t.stPos + 1))
  {
    hide StackOk, Emit;
  }

  lemma StopOn(conf: Conf, t: Tok, obj: Json, text: seq<byte>, i: nat)
    requires WF(conf, t) && (t.pend.NoHi? || t.pend.HiU?) && i < |text|
    requires Micro(conf, t, obj, text[i]).Stop?
    ensures var n := Micro(conf, t, obj, text[i]);
      RunOn(conf, t, obj, text, i) == Left(n.tok, n.err, text[i], i)
  {
    hide WF, Micro;
    MicroKeeps(conf, t, obj, text[i]);
  }

  lemma AdvanceOn(conf: Conf, t: Tok, obj: Json, text: seq<byte>, i: nat, t': Tok)
    requires WF(conf, t) && (t.pend.NoHi? || t.pend.HiU?) && i < |text|
    requires Micro(conf, t, obj, text[i]) == More(t')
    ensures WF(conf, t') && RunOn(conf, t, obj, text, i) == Settled(conf, More(t'), text, i)
  {
    hide WF, Micro;
    MicroKeeps(conf, t, obj, text[i]);
  }

  // A high surrogate not followed by a backslash and u may be given up at once.
  lemma NoPair(conf: Conf, t: Tok, text: seq<byte>, i: nat)
    requires WF(conf, t) && t.pend.Hi? && i <= |text|
    requires !(i + 1 < |text| && text[i] == BACKSLASH && text[i + 1] == LETTER_U)
    ensures WF(conf, Flush(t)) && Run(conf, t, text, i) == Run(conf, Flush(t), text, i)
  {
  }

  // One that is continues with the digits of the next escape.
  lemma Pair(conf: Conf, t: Tok, text: seq<byte>, i: nat)
    requires WF(conf, t) && t.pend.Hi?
    requires i + 1 < |text| && text[i] == BACKSLASH && text[i + 1] == LETTER_U
    ensures var t' := t.(pend := HiU(t.pend.u), ucs := 0, stPos := 0,
                         top := t.top.(state := EscapeUnicode, saved := t.top.state));
      WF(conf, t') && Run(conf, t, text, i) == Run(conf, t', text, i + 2)
  {
    hide Plain;
    var t1 := t.(pend := HiBackslash(t.pend.u));
    assert Step(conf, t, text[i]) == More(t1);
    assert Run(conf, t, text, i) == Run(conf, t1, text, i + 1);
  }

  predicate EscapeFollows(text: seq<byte>, i: nat)
  {
    i + 2 < |text| && text[i + 1] == BACKSLASH && text[i + 2] == LETTER_U
  }

  lemma DigitsBound(ucs: nat, u: nat)
    requires DigitsOk(ucs, 3) && exists d: nat | d < 16 :: u == AddDigit(ucs, 3, d)
    ensures u < 0x10000
  {
  }

  // What the last digit of an escape leads to.
  lemma FourthOn(conf: Conf, t: Tok, obj: Json, text: seq<byte>, i: nat, u: nat)
    requires WF(conf, t) && (t.pend.NoHi? || t.pend.HiU?) && t.top.state == EscapeUnicode && t.stPos == 3
    requires i < |text| && IsHex(text[i]) && DigitsOk(t.ucs, 3) && u == AddDigit(t.ucs, 3, HexDigit(text[i]))
    ensures var e, r := Emit(t, u), RunOn(conf, t, obj, text, i);
      var e' := e.(pend := HiU(e.ucs), ucs := 0, stPos := 0, top := t.top);
      && WF(conf, e)
      && e.top == t.top.(state := t.top.saved) && (e.pend.NoHi? || (e.pend == Hi(e.ucs) && e.ucs > 0))
      && (e.pend.NoHi? ==> Settled(conf, More(e), text, i) == r)
      && (e.pend.Hi? && !EscapeFollows(text, i) ==>
            WF(conf, Flush(e)) && Settled(conf, More(Flush(e)), text, i) == r)
      && (e.pend.Hi? && EscapeFollows(text, i) ==>
            && WF(conf, e')
            && (i + 3 == |text| ==> Out(Flush(e).(top := t.top), Continue, i + 3) == r)
            && (i + 3 < |text| ==> RunOn(conf, e', obj, text, i + 3) == r))
  {
    hide WF, Emit, HexDigit, DigitsOk, AddDigit, Redo, Step;
    assert Micro(conf, t, obj, text[i]) == More(Emit(t, u)) by { FourthMicro(conf, t, obj, text[i], u); }
    var e := Emit(t, u);
    EmitShape(t, u);
    AdvanceOn(conf, t, obj, text, i, e);
    assert text[i] != 0;
    if e.pend.Hi? {
      if EscapeFollows(text, i) {
        Pair(conf, e, text, i + 1);
        var e' := e.(pend := HiU(e.ucs), ucs := 0, stPos := 0, top := t.top);
        if i + 3 < |text| {
          RunOnNull(conf, e', obj, text, i + 3);
        }
      } else {
        NoPair(conf, e, text, i + 1);
      }
    }
  }

  lemma FourthMicro(conf: Conf, t: Tok, obj: Json, c: byte, u: nat)
    requires WF(conf, t) && (t.pend.NoHi? || t.pend.HiU?) && t.top.state == EscapeUnicode && t.stPos == 3
    requires IsHex(c) && DigitsOk(t.ucs, 3) && u == AddDigit(t.ucs, 3, HexDigit(c))
    ensures u < 0x10000 && Micro(conf, t, obj, c) == More(Emit(t, u))
  {
    hide WF, Emit;
    assert c != 0;
    DigitsBound(t.ucs, u);
  }

  lemma RunOnNull(conf: Conf, t: Tok, obj: Json, text: seq<byte>, i: nat)
    requires WF(conf, t) && (t.pend.NoHi? || t.pend.HiU?) && !Adding(t) && i < |text|
    ensures Run(conf, t, text, i) == RunOn(conf, t, obj, text, i)
  {
    hide WF, Redo;
    ObjIrrelevant(conf, t, obj, Null, text[i]);
  }

  lemma RunAtEnd(conf: Conf, t: Tok, text: seq<byte>)
    requires WF(conf, t) && t.pend.NoHi?
    ensures Run(conf, t, text, |text|) == Out(t, if AtEnd(t) then Success else Continue, |text|)
  {
  }

  lemma SettledMore(conf: Conf, t: Tok, text: seq<byte>, i: nat)
    requires WF(conf, t) && i < |text|
    ensures Settled(conf, More(t), text, i) ==
      if text[i] == 0 then Left(t, Success, 0, i + 1) else Run(conf, t, text, i + 1)
  {
    hide WF, Run;
  }

  // The bytes that end the copying loops of the comment, string and field name cases.
  predicate StopsAt(state: State, quote: byte, c: byte)
    requires state in {Comment, CommentEol, InString, Field}
  {
    match state
    case Comment => c == STAR
    case CommentEol => c == NEWLINE
    case _ => c == quote || c == BACKSLASH
  }

  lemma CopyMicro(conf: Conf, t: Tok, obj: Json, c: byte)
    requires WF(conf, t) && t.top.state in {Comment, CommentEol, InString, Field}
    requires !StopsAt(t.top.state, t.quote, c)
    ensures Micro(conf, t, obj, c) == More(Grow(t, [c]))
  {
  }

  // Those loops, which are alike: they run ahead to such a byte, or out of the text, or to
  // a NUL.
  method CopyRun(conf: Conf, text: seq<byte>, i0: nat, obj: Json, state: State, quote: byte, ghost t: Tok)
    returns (i: nat, c: byte, out: bool)
    requires WF(conf, t) && t.pend.NoHi? && i0 < |text| && quote == t.quote
    requires state == t.top.state && state in {Comment, CommentEol, InString, Field}
    ensures i0 <= i <= |text|
    ensures !out ==>
      && i < |text| && c == text[i] && StopsAt(state, quote, c) && WF(conf, Grow(t, text[i0..i]))
      && RunOn(conf, Grow(t, text[i0..i]), obj, text, i) == RunOn(conf, t, obj, text, i0)
    ensures out ==>
      Left(Grow(t, text[i0..i]), if c == 0 then Success else Continue, c, i) == RunOn(conf, t, obj, text, i0)
  {
    hide WF, RunOn, StopsAt, Micro;
    i, c, out := i0, text[i0], false;
    GrowNone(t);
    assert text[i0..i] == [];
    while !StopsAt(state, quote, c)
      invariant !out && i0 <= i < |text| && c == text[i]
      invariant WF(conf, Grow(t, text[i0..i]))
      invariant RunOn(conf, Grow(t, text[i0..i]), obj, text, i) == RunOn(conf, t, obj, text, i0)
      decreases |text| - i
    {
      ghost var u := Grow(t, text[i0..i]);
      GrowMore(t, text, i0, i);
      CopyMicro(conf, u, obj, c);
      if c == 0 {
        NulOn(conf, u, obj, text, i);
        return i + 1, c, true;
      }
      MoreOn(conf, u, obj, text, i);
      i := i + 1;
      if i == |text| {
        out := true;
        LeftIs(Grow(t, text[i0..i]), Continue, c, i);
        return;
      }
      c := text[i];
    }
  }

  // A case that has copied text[i0..i] and then does what Micro says on the next byte.
  lemma EdgeDone(conf: Conf, t: Tok, obj: Json, text: seq<byte>, i0: nat, i: nat, t': Tok, m: Move)
    requires WF(conf, t) && t.pend.NoHi? && i0 <= i < |text|
    requires WF(conf, Grow(t, text[i0..i])) && t.top.state != Finish
    requires RunOn(conf, Grow(t, text[i0..i]), obj, text, i) == RunOn(conf, t, obj, text, i0)
    requires m == Move(Advance, obj, Success, text[i], i) && t'.pend.NoHi?
    requires Micro(conf, Grow(t, text[i0..i]), obj, text[i]) == More(t')
    ensures Done(conf, t, obj, text, i0, t', m)
  {
    hide WF, Micro, RunOn;
    MirrorsDone(conf, Grow(t, text[i0..i]), obj, text, i, t', m);
  }

  lemma TextStops(t: Tok, c: byte)
    requires t.top.state in {InString, Field} && StopsAt(t.top.state, t.quote, c)
    ensures c == t.quote || c == BACKSLASH
  {
  }

  // ---- The tokener object ------------------------------------------------------------

  class Tokener {
    const conf: Conf
    const stack: array<Level>
    const pb: PrintBuf
    var depth: nat
    var stPos: nat
    var ucs: nat
    var quote: byte
    var isDouble: bool
    var err: Error
    var charOffset: nat

    ghost function Repr(): set<object>
      reads pb
    {
      {this, stack, pb, pb.buf}
    }

    ghost predicate Valid()
      reads this`depth, pb
    {
      && depth < stack.Length == conf.maxDepth
      && pb.Valid() && (stack as object) != pb.buf
    }

    // The state of the machine this tokener is in.
    ghost function Abs(): (t: Tok)
      requires Valid()
      reads this`depth, this`stPos, this`ucs, this`quote, this`isDouble, stack, pb, pb.buf
      ensures t.pend.NoHi? && |t.below| == depth
    {
      Tok(stack[..depth], stack[depth], pb.Contents(), stPos, ucs, quote, isDouble, NoHi)
    }

    // json_tokener_new_ex
    constructor (conf: Conf)
      requires conf.maxDepth > 0
      ensures Valid() && this.conf == conf && Abs() == NewTok() && WF(conf, Abs())
      ensures fresh(Repr() - {this}) && err == Success && charOffset == 0
    {
      this.conf := conf;
      stack := new Level[conf.maxDepth](_ => FRESH);
      pb := new PrintBuf();
      depth, stPos, ucs, quote, isDouble := 0, 0, 0, 0, false;
      err, charOffset := Success, 0;
    }

    function Top(): (l: Level)
      requires Valid()
      reads this`depth, this`stPos, this`ucs, this`quote, this`isDouble, stack, pb, pb.buf
      ensures l == Abs().top
    {
      stack[depth]
    }

    method SetTop(l: Level)
      requires Valid()
      modifies stack
      ensures Valid() && Abs() == old(Abs()).(top := l)
    {
      stack[depth] := l;
    }

    method Append(s: seq<byte>)
      requires Valid()
      modifies pb, pb.buf
      ensures Valid() && Abs() == Grow(old(Abs()), s)
      ensures pb.buf == old(pb.buf) || fresh(pb.buf)
    {
      pb.MemAppend(s);
    }

    method ResetPb()
      requires Valid()
      modifies pb, pb.buf
      ensures Valid() && Abs() == old(Abs()).(pb := [])
      ensures pb.buf == old(pb.buf)
    {
      pb.Reset();
    }

    method SetQuote(c: byte)
      requires Valid()
      modifies this`quote
      ensures Valid() && Abs() == old(Abs()).(quote := c)
    {
      quote := c;
    }

    method SetDigits(u: nat, n: nat)
      requires Valid()
      modifies this`ucs, this`stPos
      ensures Valid() && Abs() == old(Abs()).(ucs := u, stPos := n)
    {
      ucs, stPos := u, n;
    }

    method SetDouble(b: bool)
      requires Valid()
      modifies this`isDouble
      ensures Valid() && Abs() == old(Abs()).(isDouble := b)
    {
      isDouble := b;
    }

    // depth++ and json_tokener_reset_level, the present level going on in state s
    method PushLevel(s: State)
      requires Valid() && depth + 1 < conf.maxDepth
      modifies this`depth, stack
      ensures Valid() && Abs() == Push(old(Abs()), s)
    {
      stack[depth] := stack[depth].(state := s);
      depth := depth + 1;
      stack[depth] := FRESH;
      assert stack[..depth] == old(stack[..depth]) + [stack[depth - 1]];
    }

    // json_tokener_reset_level and depth--, the value going to the caller
    method PopLevel() returns (obj: Json)
      requires Valid() && depth > 0
      modifies this`depth, stack
      ensures Valid() && var t := old(Abs());
        && obj == t.top.current
        && Abs() == t.(below := t.below[..|t.below| - 1], top := t.below[|t.below| - 1])
    {
      obj := stack[depth].current;
      stack[depth] := FRESH;
      depth := depth - 1;
      assert stack[..depth] == old(stack[..depth])[..depth];
    }

    // The test of PEEK_CHAR at the end of the text.
    function EndOfText(): (e: Error)
      requires Valid()
      reads this`depth, this`stPos, this`ucs, this`quote, this`isDouble, stack, pb, pb.buf
      ensures e == if AtEnd(Abs()) then Success else Continue
    {
      if depth == 0 && stack[depth].state == EatWs && stack[depth].saved == Finish then Success else Continue
    }

    // ---- The cases that run ahead ------------------------------------------------------

    method EatSpace(text: seq<byte>, i0: nat, obj: Json) returns (m: Move)
      requires Valid() && WF(conf, Abs()) && i0 < |text| && Abs().top.state == EatWs
      modifies Repr()
      ensures Valid() && fresh(Repr() - old(Repr()))
      ensures Done(conf, old(Abs()), obj, text, i0, Abs(), m)
    {
      hide Abs, WF, RunOn;
      ghost var t := Abs();
      var i, c := i0, text[i0];
      while IsSpace(c)
        invariant i0 <= i < |text| && c == text[i]
        invariant RunOn(conf, t, obj, text, i) == RunOn(conf, t, obj, text, i0)
        invariant Valid() && Abs() == t && Repr() == old(Repr())
        decreases |text| - i
      {
        MoreOn(conf, t, obj, text, i);
        i := i + 1;
        if i == |text| {
          LeftIs(t, EndOfText(), c, i);
          return Move(Leave, obj, EndOfText(), c, i);
        }
        c := text[i];
      }
      MicroKeeps(conf, t, obj, c);
      if c == SLASH {
        ResetPb();
        Append([c]);
        SetTop(Top().(state := CommentStart));
        m := Move(Advance, obj, Success, c, i);
        assert Abs() == Goto(t, CommentStart).(pb := [c]);
      } else {
        SetTop(Top().(state := Top().saved));
        m := Move(Redone, obj, Success, c, i);
      }
      MirrorsDone(conf, t, obj, text, i, Abs(), m);
    }

    method BlockComment(text: seq<byte>, i0: nat, obj: Json) returns (m: Move)
      requires Valid() && WF(conf, Abs()) && i0 < |text| && Abs().top.state == Comment
      modifies Repr()
      ensures Valid() && fresh(Repr() - old(Repr()))
      ensures Done(conf, old(Abs()), obj, text, i0, Abs(), m)
    {
      hide Abs, WF, RunOn;
      ghost var t := Abs();
      var i, c, out := CopyRun(conf, text, i0, obj, Comment, Quote(), t);
      if out {
        Append(text[i0..i]);
        return Move(Leave, obj, if c == 0 then Success else EndOfText(), c, i);
      }
      GrowMore(t, text, i0, i);
      Append(text[i0..i + 1]);
      SetTop(Top().(state := CommentEnd));
      m := Move(Advance, obj, Success, c, i);
      EdgeDone(conf, t, obj, text, i0, i, Abs(), m);
    }

    method LineComment(text: seq<byte>, i0: nat, obj: Json) returns (m: Move)
      requires Valid() && WF(conf, Abs()) && i0 < |text| && Abs().top.state == CommentEol
      modifies Repr()
      ensures Valid() && fresh(Repr() - old(Repr()))
      ensures Done(conf, old(Abs()), obj, text, i0, Abs(), m)
    {
      hide Abs, WF, RunOn;
      ghost var t := Abs();
      var i, c, out := CopyRun(conf, text, i0, obj, CommentEol, Quote(), t);
      Append(text[i0..i]);
      if out {
        return Move(Leave, obj, if c == 0 then Success else EndOfText(), c, i);
      }
      SetTop(Top().(state := EatWs));
      m := Move(Advance, obj, Success, c, i);
      EdgeDone(conf, t, obj, text, i0, i, Abs(), m);
    }

    // The states string and object_field.
    method Text(text: seq<byte>, i0: nat, obj: Json) returns (m: Move)
      requires Valid() && WF(conf, Abs()) && i0 < |text| && Abs().top.state in {InString, Field}
      modifies Repr()
      ensures Valid() && fresh(Repr() - old(Repr()))
      ensures Done(conf, old(Abs()), obj, text, i0, Abs(), m)
    {
      hide Abs, WF, RunOn, StopsAt;
      ghost var t := Abs();
      var i, c, out := CopyRun(conf, text, i0, obj, Top().state, Quote(), t);
      Append(text[i0..i]);
      if out {
        return Move(Leave, obj, if c == 0 then Success else EndOfText(), c, i);
      }
      TextStops(t, c);
      TextEdge(c);
      m := Move(Advance, obj, Success, c, i);
      EdgeDone(conf, t, obj, text, i0, i, Abs(), m);
    }

    // The byte that stops the copying of a text.
    method TextEdge(c: byte)
      requires Valid() && Abs().top.state in {InString, Field} && (c == Abs().quote || c == BACKSLASH)
      modifies stack
      ensures Valid() && MicroText(old(Abs()), c) == More(Abs())
    {
      hide Abs, CString;
      var l := Top();
      if c == Quote() {
        var s := PbText();
        if l.state == InString {
          SetTop(l.(state := EatWs, saved := Finish, current := Str(s)));
        } else {
          SetTop(l.(state := EatWs, saved := FieldEnd, field := Some(CString(s))));
        }
      } else {
        SetTop(l.(state := StringEscape, saved := l.state));
      }
    }

    method NumberText(text: seq<byte>, i0: nat, obj: Json) returns (m: Move)
      requires Valid() && WF(conf, Abs()) && i0 < |text| && Abs().top.state == Number
      modifies Repr()
      ensures Valid() && fresh(Repr() - old(Repr()))
      ensures Done(conf, old(Abs()), obj, text, i0, Abs(), m)
    {
      hide Abs, WF, RunOn, ParsedNumber, Micro;
      var i, c, out := NumberRun(text, i0, obj);
      if out {
        Append(text[i0..i]);
        return Move(Leave, obj, EndOfText(), c, i);
      }
      ghost var t := Grow(Abs(), text[i0..i]);
      MicroKeeps(conf, t, obj, c);
      if i > i0 {
        Append(text[i0..i]);
      } else {
        assert text[i0..i] == [];
        GrowNone(Abs());
      }
      m := NumberEnd(c, i, obj);
      NumberCase(conf, t, obj, c);
      MirrorsDone(conf, t, obj, text, i, Abs(), m);
    }

    // The loop over the bytes of a number, which notes the signs of a double.
    method NumberRun(text: seq<byte>, i0: nat, obj: Json) returns (i: nat, c: byte, out: bool)
      requires Valid() && WF(conf, Abs()) && i0 < |text| && Abs().top.state == Number
      modifies this`isDouble
      ensures Valid() && i0 <= i <= |text| && Abs() == old(Abs()).(isDouble := Abs().isDouble)
      ensures !out ==>
        && i < |text| && c == text[i] && !IsNumberChar(c) && WF(conf, Grow(Abs(), text[i0..i]))
        && RunOn(conf, Grow(Abs(), text[i0..i]), obj, text, i) == RunOn(conf, old(Abs()), obj, text, i0)
      ensures out ==>
        Left(Grow(Abs(), text[i0..i]), Continue, c, i) == RunOn(conf, old(Abs()), obj, text, i0) && i > i0
    {
      hide Abs, WF, RunOn, ParsedNumber, Micro;
      ghost var t0 := Abs();
      i, c, out := i0, text[i0], false;
      GrowNone(t0);
      assert text[i0..i] == [];
      while IsNumberChar(c)
        invariant !out && i0 <= i < |text| && c == text[i]
        invariant Valid() && Abs() == t0.(isDouble := Abs().isDouble)
        invariant WF(conf, Grow(Abs(), text[i0..i]))
        invariant RunOn(conf, Grow(Abs(), text[i0..i]), obj, text, i) == RunOn(conf, t0, obj, text, i0)
        decreases |text| - i
      {
        ghost var u := Grow(Abs(), text[i0..i]);
        GrowMore(Abs(), text, i0, i);
        NumberMicro(conf, u, obj, c);
        SetDouble(DoubleSeen() || c == 46 || c == LETTER_E || c == 69);
        MoreOn(conf, u, obj, text, i);
        i := i + 1;
        if i == |text| {
          out := true;
          LeftIs(Grow(Abs(), text[i0..i]), Continue, c, i);
          return;
        }
        c := text[i];
      }
    }

    // The conversion of the digits collected.
    method NumberEnd(c: byte, i: nat, obj: Json) returns (m: Move)
      requires Valid() && Abs().top.state == Number && !IsNumberChar(c)
      modifies stack
      ensures Valid() && m.obj == obj && m.c == c && m.i == i && Mirrors(MicroNumber(conf, old(Abs()), c), Abs(), m)
    {
      hide Abs, ParsedNumber;
      var j := ReadNumber();
      match j {
        case Some(v) =>
          SetTop(Top().(state := EatWs, saved := Finish, current := v));
          m := Move(Redone, obj, Success, c, i);
        case None =>
          m := Move(Leave, obj, NumberExpected, c, i);
      }
    }

    // The state escape_unicode. gotHi is the high surrogate waiting for its partner.
    method Unicode(text: seq<byte>, i0: nat, obj: Json) returns (m: Move)
      requires Valid() && WF(conf, Abs()) && i0 < |text| && Abs().top.state == EscapeUnicode
      modifies Repr()
      ensures Valid() && fresh(Repr() - old(Repr()))
      ensures Done(conf, old(Abs()), obj, text, i0, Abs(), m)
    {
      hide Abs, WF, RunOn, Done;
      ghost var t0 := Abs();
      var i: nat, gotHi: nat, going := i0, 0, true;
      m := Move(Leave, obj, Success, text[i0], i0);
      while going
        invariant Valid() && fresh(Repr() - old(Repr()))
        invariant going ==> i0 <= i < |text| && At(conf, t0, obj, text, i0, Abs().(pend := Waiting(gotHi)), i)
        invariant !going ==> Done(conf, t0, obj, text, i0, Abs(), m)
        decreases going, |text| - i
      {
        going, i, gotHi, m := Digit(text, i, obj, gotHi, t0, i0);
      }
    }

    // One byte of an escape; the loop goes on at i with hi, or the case is over.
    method Digit(text: seq<byte>, i0: nat, obj: Json, gotHi: nat, ghost t0: Tok, ghost start: nat)
      returns (going: bool, i: nat, hi: nat, m: Move)
      requires Valid() && start <= i0 < |text| && WF(conf, t0) && t0.pend.NoHi?
      requires At(conf, t0, obj, text, start, Abs().(pend := Waiting(gotHi)), i0)
      modifies Repr()
      ensures Valid() && fresh(Repr() - old(Repr()))
      ensures going ==> i0 < i < |text| && At(conf, t0, obj, text, start, Abs().(pend := Waiting(hi)), i)
      ensures !going ==> Done(conf, t0, obj, text, start, Abs(), m)
    {
      hide Abs, WF, RunOn, Emit, IsHex, HexDigit, DigitsOk, AddDigit, Micro, Done;
      ghost var t := Abs().(pend := Waiting(gotHi));
      going, i, hi := false, i0, gotHi;
      var c := text[i0];
      UnicodeOk(conf, t);
      UnicodeMicro(conf, t, obj, c);
      if !IsHex(c) {
        if c != 0 {
          StopOn(conf, t, obj, text, i);
          m := Move(Leave, obj, BadString, c, i);
        } else {
          NulOn(conf, t, obj, text, i);
          GiveUp(gotHi);
          m := Move(Leave, obj, Success, c, i + 1);
        }
        LeaveDone(conf, t0, obj, text, start, Abs(), m);
        return;
      }
      var u, n := AddDigit(Ucs(), StPos(), HexDigit(c)), StPos() + 1;
      SetDigits(u, n);
      if n == 4 {
        var pair: bool;
        pair, hi, m := FourthDigit(text, i, obj, u, gotHi, t);
        going, i := pair, m.i;
        FourthDone(conf, t0, obj, text, start, i0, t, Abs(), m, pair);
      } else {
        going, i, m := NextDigit(text, i, obj, gotHi, t, t0, start);
      }
    }

    // The step to the next digit, which may be past the end of the text.
    method NextDigit(text: seq<byte>, i0: nat, obj: Json, gotHi: nat, ghost t: Tok, ghost t0: Tok, ghost start: nat)
      returns (going: bool, i: nat, m: Move)
      requires Valid() && start <= i0 < |text| && WF(conf, t0) && t0.pend.NoHi? && text[i0] != 0
      requires At(conf, t0, obj, text, start, t, i0) && t.pend == Waiting(gotHi)
      requires Micro(conf, t, obj, text[i0]) == More(Abs().(pend := Waiting(gotHi)))
      requires Abs().top.state == EscapeUnicode && Abs().stPos > 0
      modifies pb, pb.buf
      ensures Valid() && (pb.buf == old(pb.buf) || fresh(pb.buf))
      ensures going ==> i0 < i < |text| && At(conf, t0, obj, text, start, Abs().(pend := Waiting(gotHi)), i)
      ensures !going ==> Done(conf, t0, obj, text, start, Abs(), m)
    {
      hide Abs, WF, RunOn, Micro, Done;
      MoreOn(conf, t, obj, text, i0);
      i := i0 + 1;
      if i == |text| {
        GiveUp(gotHi);
        going, m := false, Move(Leave, obj, EndOfText(), text[i0], i);
        LeaveDone(conf, t0, obj, text, start, Abs(), m);
      } else {
        going, m := true, Move(Advance, obj, Success, text[i], i);
      }
    }

    // A high surrogate still waiting when the text ends is replaced.
    method GiveUp(gotHi: nat)
      requires Valid()
      modifies pb, pb.buf
      ensures Valid() && (pb.buf == old(pb.buf) || fresh(pb.buf))
      ensures Abs() == if gotHi != 0 then Grow(old(Abs()), REPLACEMENT) else old(Abs())
    {
      hide Abs;
      if gotHi != 0 {
        Append(REPLACEMENT);
      }
    }

    // The last digit of an escape: after a high surrogate followed by another escape the
    // loop goes on with the digits of that.
    method FourthDigit(text: seq<byte>, i: nat, obj: Json, u: nat, gotHi: nat, ghost t: Tok)
      returns (pair: bool, hi: nat, m: Move)
      requires Valid() && WF(conf, t) && t.pend == Waiting(gotHi) && t.top.state == EscapeUnicode && t.stPos == 3
      requires i < |text| && IsHex(text[i]) && DigitsOk(t.ucs, 3) && u == AddDigit(t.ucs, 3, HexDigit(text[i]))
      requires Abs() == t.(pend := NoHi, ucs := u, stPos := 4)
      modifies Repr()
      ensures Valid() && fresh(Repr() - old(Repr()))
      ensures !pair ==> m.ctl != Redone && i <= m.i <= |text|
      ensures !pair && m.ctl == Advance ==>
        && m.i == i && m.c == text[i] && WF(conf, Abs()) && !Adding(Abs())
        && Settled(conf, More(Abs()), text, i) == RunOn(conf, t, obj, text, i)
      ensures !pair && m.ctl == Leave ==> Left(Abs(), m.err, m.c, m.i) == RunOn(conf, t, obj, text, i)
      ensures pair ==>
        && i < m.i < |text| && m.c == text[m.i] && Abs().top.state == EscapeUnicode
        && WF(conf, Abs().(pend := Waiting(hi)))
        && RunOn(conf, Abs().(pend := Waiting(hi)), obj, text, m.i) == RunOn(conf, t, obj, text, i)
    {
      hide Abs, WF, RunOn, Emit, IsHex, HexDigit, DigitsOk, AddDigit, Settled, Left, Out;
      UnicodeOk(conf, t);
      DigitsBound(t.ucs, u);
      FourthOn(conf, t, obj, text, i, u);
      EmitIgnores(t, u, u, 4);
      hi := Emitted(u, gotHi);
      pair, m := false, Move(Advance, obj, Success, text[i], i);
      if hi == 0 {
        SetTop(Top().(state := Top().saved));
      } else if i + 1 != |text| && i + 2 != |text| && text[i + 1] == BACKSLASH && text[i + 2] == LETTER_U {
        if i + 3 == |text| {
          Append(REPLACEMENT);
          m := Move(Leave, obj, EndOfText(), LETTER_U, i + 3);
          LeftNow(Abs(), m.err, LETTER_U, i + 3);
        } else {
          SetDigits(0, 0);
          pair, m := true, Move(Advance, obj, Success, text[i + 3], i + 3);
        }
      } else {
        Append(REPLACEMENT);
        SetTop(Top().(state := Top().saved));
      }
    }

    // The bytes of an escape with value u: its UTF-8 form or the replacement character,
    // after one for a high surrogate left alone. The result is a new high surrogate or 0.
    method Emitted(u0: nat, gotHi: nat) returns (hi: nat)
      requires Valid() && u0 < 0x10000
      modifies Repr()
      ensures Valid() && fresh(Repr() - old(Repr()))
      ensures var t := Emit(old(Abs()).(pend := Waiting(gotHi)), u0);
        && t.pend == (if hi == 0 then NoHi else Hi(hi))
        && Abs() == t.(pend := NoHi, top := old(Abs()).top)
    {
      hide Abs;
      ghost var t := Abs();
      var u := u0;
      if gotHi != 0 {
        if IsLow(u) {
          u := DecodePair(gotHi, u);
        } else {
          Append(REPLACEMENT);
        }
      }
      assert gotHi == 0 || IsLow(u0) ==> Grow(t, []) == t by { GrowNone(t); }
      SetDigits(u, 4);
      hi := 0;
      if u < 0x80 || (u < 0x800) {
        Append(Utf8(u));
      } else if IsHigh(u) {
        hi := u;
      } else if IsLow(u) {
        Append(REPLACEMENT);
      } else {
        Append(Utf8(u));
      }
    }

    function DoubleSeen(): (b: bool)
      requires Valid()
      reads this`depth, this`stPos, this`ucs, this`quote, this`isDouble, stack, pb, pb.buf
      ensures b == Abs().isDouble
    {
      isDouble
    }

    function Ucs(): (u: nat)
      requires Valid()
      reads this`depth, this`stPos, this`ucs, this`quote, this`isDouble, stack, pb, pb.buf
      ensures u == Abs().ucs
    {
      ucs
    }

    function StPos(): (n: nat)
      requires Valid()
      reads this`depth, this`stPos, this`ucs, this`quote, this`isDouble, stack, pb, pb.buf
      ensures n == Abs().stPos
    {
      stPos
    }

    // ---- The other cases ----------------------------------------------------------------

    method StartValue(c: byte, i: nat, obj: Json) returns (m: Move)
      requires Valid() && Abs().top.state == Start
      modifies Repr()
      ensures Valid() && fresh(Repr() - old(Repr()))
      ensures m.obj == obj && m.c == c && m.i == i && Mirrors(MicroStart(old(Abs()), c), Abs(), m)
    {
      hide Abs;
      m := Move(Advance, obj, Success, c, i);
      var l := Top();
      if c == LBRACE {
        SetTop(l.(state := EatWs, saved := FieldStart, current := Obj([])));
      } else if c == LBRACKET {
        SetTop(l.(state := EatWs, saved := Array, current := Arr([])));
      } else if c == 78 || c == LETTER_N {
        SetTop(l.(state := NullWord));
        ResetPb();
        SetStPos(0);
        m := m.(ctl := Redone);
      } else if c == DQUOTE || c == SQUOTE {
        SetTop(l.(state := InString));
        ResetPb();
        SetQuote(c);
      } else if c == 84 || c == LETTER_T || c == 70 || c == LETTER_F {
        SetTop(l.(state := BoolWord));
        ResetPb();
        SetStPos(0);
        m := m.(ctl := Redone);
      } else if IsDigit(c) || c == MINUS {
        SetTop(l.(state := Number));
        ResetPb();
        SetDouble(false);
        m := m.(ctl := Redone);
      } else {
        m := m.(ctl := Leave, err := Unexpected);
      }
    }

    method Word(c: byte, i: nat, obj: Json) returns (m: Move)
      requires Valid() && WF(conf, Abs()) && Abs().top.state in {NullWord, BoolWord}
      modifies Repr()
      ensures Valid() && fresh(Repr() - old(Repr()))
      ensures m.obj == obj && m.c == c && m.i == i && Mirrors(Micro(conf, old(Abs()), obj, c), Abs(), m)
    {
      hide Abs, StackOk, SameWord;
      var l, n := Top(), StPos();
      Append([c]);
      var s := PbText();
      m := Move(Redone, obj, Success, c, i);
      if l.state == NullWord {
        if !SameWord(NULL_WORD, s, if n < 4 then n + 1 else 4) {
          return m.(ctl := Leave, err := NullExpected);
        }
        if n == 4 {
          SetTop(l.(state := EatWs, saved := Finish, current := Null));
          return;
        }
      } else if SameWord(TRUE_WORD, s, if n < 4 then n + 1 else 4) {
        if n == 4 {
          SetTop(l.(state := EatWs, saved := Finish, current := Bool(true)));
          return;
        }
      } else if SameWord(FALSE_WORD, s, if n < 5 then n + 1 else 5) {
        if n == 5 {
          SetTop(l.(state := EatWs, saved := Finish, current := Bool(false)));
          return;
        }
      } else {
        return m.(ctl := Leave, err := BooleanExpected);
      }
      SetStPos(n + 1);
      m := m.(ctl := Advance);
    }

    method CommentEdge(c: byte, i: nat, obj: Json) returns (m: Move)
      requires Valid() && Abs().top.state in {CommentStart, CommentEnd}
      modifies Repr()
      ensures Valid() && fresh(Repr() - old(Repr()))
      ensures m.obj == obj && m.c == c && m.i == i && Mirrors(MicroComment(old(Abs()), c), Abs(), m)
    {
      hide Abs;
      var l := Top();
      m := Move(Advance, obj, Success, c, i);
      if l.state == CommentEnd {
        Append([c]);
        SetTop(l.(state := if c == SLASH then EatWs else Comment));
      } else if c == STAR || c == SLASH {
        SetTop(l.(state := if c == STAR then Comment else CommentEol));
        Append([c]);
      } else {
        m := m.(ctl := Leave, err := BadComment);
      }
    }

    method EscapeLetter(c: byte, i: nat, obj: Json) returns (m: Move)
      requires Valid() && Abs().top.state == StringEscape
      modifies Repr()
      ensures Valid() && fresh(Repr() - old(Repr()))
      ensures m.obj == obj && m.c == c && m.i == i && Mirrors(MicroEscape(old(Abs()), c), Abs(), m)
    {
      hide Abs;
      var l := Top();
      m := Move(Advance, obj, Success, c, i);
      if c == DQUOTE || c == BACKSLASH || c == SLASH {
        Append([c]);
        SetTop(l.(state := l.saved));
      } else if c == LETTER_B || c == LETTER_N || c == LETTER_R || c == LETTER_T || c == LETTER_F {
        Append([if c == LETTER_B then 8 else if c == LETTER_N then 10 else if c == LETTER_R then 13
                else if c == LETTER_T then 9 else 12]);
        SetTop(l.(state := l.saved));
      } else if c == LETTER_U {
        SetDigits(0, 0);
        SetTop(l.(state := EscapeUnicode));
      } else {
        m := m.(ctl := Leave, err := BadString);
      }
    }

    method FinishValue(c: byte, i: nat, obj: Json) returns (m: Move)
      requires Valid() && Abs().top.state == Finish
      modifies Repr()
      ensures Valid() && fresh(Repr() - old(Repr()))
      ensures m.obj == NextObj(old(Abs()), obj) && m.c == c && m.i == i
      ensures Mirrors(MicroFinish(old(Abs())), Abs(), m)
    {
      hide Abs;
      if depth == 0 {
        return Move(Leave, Top().current, Success, c, i);
      }
      var v := PopLevel();
      m := Move(Redone, v, Success, c, i);
    }

    method ArrayCase(c: byte, i: nat, obj: Json) returns (m: Move)
      requires Valid() && WF(conf, Abs()) && Abs().top.state in {Array, ArrayAfterSep, ArrayAdd, ArraySep}
      modifies Repr()
      ensures Valid() && fresh(Repr() - old(Repr()))
      ensures m.obj == obj && m.c == c && m.i == i && Mirrors(MicroArray(conf, old(Abs()), obj, c), Abs(), m)
    {
      hide Abs, StackOk;
      var l := Top();
      m := Move(Advance, obj, Success, c, i);
      if l.state == ArrayAdd {
        SetTop(l.(state := EatWs, saved := ArraySep, current := Arr(l.current.items + [obj])));
        m := m.(ctl := Redone);
      } else if l.state == ArraySep {
        if c == RBRACKET {
          SetTop(l.(state := EatWs, saved := Finish));
        } else if c == COMMA {
          SetTop(l.(state := EatWs, saved := ArrayAfterSep));
        } else {
          m := m.(ctl := Leave, err := ArraySepExpected);
        }
      } else if c == RBRACKET {
        if l.state == ArrayAfterSep && conf.strict {
          m := m.(ctl := Leave, err := Unexpected);
        } else {
          SetTop(l.(state := EatWs, saved := Finish));
        }
      } else if depth >= conf.maxDepth - 1 {
        m := m.(ctl := Leave, err := DepthExceeded);
      } else {
        PushLevel(ArrayAdd);
        m := m.(ctl := Redone);
      }
    }

    method ObjectCase(c: byte, i: nat, obj: Json) returns (m: Move)
      requires Valid() && WF(conf, Abs())
      requires Abs().top.state in {FieldStart, FieldStartAfterSep, FieldEnd, FieldValue, ValueAdd, ObjectSep}
      modifies Repr()
      ensures Valid() && fresh(Repr() - old(Repr()))
      ensures m.obj == obj && m.c == c && m.i == i && Mirrors(MicroObject(conf, old(Abs()), obj, c), Abs(), m)
    {
      hide Abs, StackOk, WithMember;
      var l := Top();
      m := Move(Advance, obj, Success, c, i);
      match l.state {
        case FieldEnd =>
          if c == COLON {
            SetTop(l.(state := EatWs, saved := FieldValue));
          } else {
            m := m.(ctl := Leave, err := KeySepExpected);
          }
        case FieldValue =>
          if depth >= conf.maxDepth - 1 {
            m := m.(ctl := Leave, err := DepthExceeded);
          } else {
            PushLevel(ValueAdd);
            m := m.(ctl := Redone);
          }
        case ValueAdd =>
          SetTop(Level(EatWs, ObjectSep, Obj(WithMember(l.current.members, l.field.value, obj)), None));
          m := m.(ctl := Redone);
        case ObjectSep =>
          if c == RBRACE {
            SetTop(l.(state := EatWs, saved := Finish));
          } else if c == COMMA {
            SetTop(l.(state := EatWs, saved := FieldStartAfterSep));
          } else {
            m := m.(ctl := Leave, err := ValueSepExpected);
          }
        case FieldStart | FieldStartAfterSep =>
          if c == RBRACE {
            if l.state == FieldStartAfterSep && conf.strict {
              m := m.(ctl := Leave, err := Unexpected);
            } else {
              SetTop(l.(state := EatWs, saved := Finish));
            }
          } else if c == DQUOTE || c == SQUOTE {
            SetQuote(c);
            ResetPb();
            SetTop(l.(state := Field));
          } else {
            m := m.(ctl := Leave, err := KeyNameExpected);
          }
      }
    }

    method SetStPos(n: nat)
      requires Valid()
      modifies this`stPos
      ensures Valid() && Abs() == old(Abs()).(stPos := n)
    {
      stPos := n;
    }

    // ---- The loop -----------------------------------------------------------------------

    // One execution of the switch.
    method Switch(text: seq<byte>, i: nat, obj: Json) returns (m: Move)
      requires Valid() && WF(conf, Abs()) && i < |text|
      modifies Repr()
      ensures Valid() && fresh(Repr() - old(Repr()))
      ensures Done(conf, old(Abs()), obj, text, i, Abs(), m)
    {
      hide Abs, WF, Done, Mirrors, MicroStart, MicroComment, MicroEscape, MicroFinish, MicroArray, MicroObject;
      var c := text[i];
      match Top().state {
        case EatWs => m := EatSpace(text, i, obj); return;
        case Comment => m := BlockComment(text, i, obj); return;
        case CommentEol => m := LineComment(text, i, obj); return;
        case InString | Field => m := Text(text, i, obj); return;
        case EscapeUnicode => m := Unicode(text, i, obj); return;
        case Number => m := NumberText(text, i, obj); return;
        case Start => m := StartValue(c, i, obj);
        case Finish => m := FinishValue(c, i, obj);
        case NullWord | BoolWord => m := Word(c, i, obj);
        case CommentStart | CommentEnd => m := CommentEdge(c, i, obj);
        case StringEscape => m := EscapeLetter(c, i, obj);
        case Array | ArrayAfterSep | ArrayAdd | ArraySep => m := ArrayCase(c, i, obj);
        case _ => m := ObjectCase(c, i, obj);
      }
      MirrorsDone(conf, old(Abs()), obj, text, i, Abs(), m);
    }

    // The switch on one byte, as often as it asks for it.
    method Consume(text: seq<byte>, i: nat, obj: Json, ghost r: Result) returns (m: Move)
      requires Valid() && i < |text| && WF(conf, Abs()) && !Adding(Abs()) && Run(conf, Abs(), text, i) == r
      modifies Repr()
      ensures Valid() && fresh(Repr() - old(Repr())) && i <= m.i <= |text| && m.ctl != Redone
      ensures m.ctl == Advance ==> m.i < |text| && m.c == text[m.i] && WF(conf, Abs())
      ensures m.ctl == Advance ==> !Adding(Abs()) && Settled(conf, More(Abs()), text, m.i) == r
      ensures m.ctl == Leave ==> Left(Abs(), m.err, m.c, m.i) == r
    {
      hide Abs, WF, Run, Rank;
      m := Move(Redone, obj, Success, text[i], i);
      RunOnNull(conf, Abs(), obj, text, i);
      while m.ctl == Redone
        invariant Valid() && fresh(Repr() - old(Repr()))
        invariant i <= m.i <= |text|
        invariant m.ctl != Leave ==> m.i < |text| && m.c == text[m.i] && WF(conf, Abs())
        invariant m.ctl == Redone ==> RunOn(conf, Abs(), m.obj, text, m.i) == r
        invariant m.ctl == Advance ==> !Adding(Abs()) && Settled(conf, More(Abs()), text, m.i) == r
        invariant m.ctl == Leave ==> Left(Abs(), m.err, m.c, m.i) == r
        decreases |text| - m.i, if m.ctl == Redone then 1 else 0, Rank(Abs())
      {
        m := Switch(text, m.i, m.obj);
      }
    }

    // The label out: the error, the offset and, after a success, the value.
    method Deliver(e0: Error, c: byte, i: nat, ghost r: Result) returns (ret: Json)
      requires Valid() && Left(Abs(), e0, c, i) == r
      modifies Repr()
      ensures Valid() && fresh(Repr() - old(Repr()))
      ensures ret == r.obj && err == r.err && charOffset == r.offset && Abs() == r.tok
    {
      var e := e0;
      if c == 0 && Top().state != Finish && Top().saved != Finish {
        e := ParseEof;
      }
      err, charOffset, ret := e, i, Null;
      if err == Success {
        ret := Top().current;
        ResetLevels();
      }
    }

    // json_tokener_parse_ex. char_offset lives in i until the call returns, and a C string
    // without a length is a text that ends in a NUL.
    method ParseEx(text: seq<byte>) returns (ret: Json)
      requires Valid() && WF(conf, Abs()) && !Adding(Abs())
      modifies Repr()
      ensures Valid() && fresh(Repr() - old(Repr()))
      ensures var r := Run(conf, old(Abs()), text, 0);
        ret == r.obj && err == r.err && charOffset == r.offset && Abs() == r.tok
    {
      hide Abs, WF, Run, Rank;
      ghost var r := Run(conf, Abs(), text, 0);
      var obj, e, going := Null, Success, true;
      var c: byte, i: nat := 1, 0;
      while going
        invariant Valid() && fresh(Repr() - old(Repr()))
        invariant going ==> e == Success && i <= |text| && c != 0
        invariant going ==> WF(conf, Abs()) && !Adding(Abs()) && Run(conf, Abs(), text, i) == r
        invariant !going ==> i <= |text| && Left(Abs(), e, c, i) == r
        decreases going, |text| - i
      {
        if i == |text| {
          e, going := EndOfText(), false;
          RunAtEnd(conf, Abs(), text);
        } else {
          var m := Consume(text, i, obj, r);
          obj, c, i := m.obj, m.c, m.i;
          if m.ctl == Leave {
            e, going := m.err, false;
          } else {
            SettledMore(conf, Abs(), text, i);
            i, going := i + 1, c != 0;
          }
        }
      }
      ret := Deliver(e, c, i, r);
    }

    // json_tokener_reset_level for every level in use
    method ResetLevels()
      requires Valid()
      modifies stack
      ensures Valid()
      ensures var t := old(Abs()); Abs() == t.(below := seq(|t.below|, _ => FRESH), top := FRESH)
    {
      var k := depth + 1;
      while k > 0
        invariant 0 <= k <= depth + 1
        invariant forall n :: k <= n <= depth ==> stack[n] == FRESH
      {
        k := k - 1;
        stack[k] := FRESH;
      }
      assert stack[..depth] == seq(depth, _ => FRESH);
    }

    // json_tokener_reset
    method Reset()
      requires Valid()
      modifies this, stack
      ensures Valid() && Abs() == old(Abs()).(below := [], top := FRESH) && WF(conf, Abs())
      ensures err == Success && charOffset == old(charOffset)
    {
      ResetLevels();
      depth := 0;
      err := Success;
    }

    function Quote(): (q: byte)
      requires Valid()
      reads this`depth, this`stPos, this`ucs, this`quote, this`isDouble, stack, pb, pb.buf
      ensures q == Abs().quote
    {
      quote
    }

    method PbText() returns (s: seq<byte>)
      requires Valid()
      ensures s == Abs().pb
    {
      s := pb.buf[..pb.bpos];
    }

    method ReadNumber() returns (j: Option<Json>)
      requires Valid()
      ensures j == ParsedNumber(conf, Abs())
    {
      var s := PbText();
      if !isDouble {
        var n := ParseInt(s);
        j := if n.Some? then Some(Int(n.value)) else None;
      } else {
        var d := conf.parseDouble(s);
        j := if d.Some? then Some(Double(d.value)) else None;
      }
    }
  }

  lemma GrowNone(t: Tok)
    ensures Grow(t, []) == t
  {
    assert t.pb + [] == t.pb;
  }

  lemma GrowMore(t: Tok, text: seq<byte>, i: nat, k: nat)
    requires i <= k < |text|
    ensures Grow(Grow(t, text[i..k]), [text[k]]) == Grow(t, text[i..k + 1])
  {
    assert text[i..k] + [text[k]] == text[i..k + 1];
    assert t.pb + text[i..k] + [text[k]] == t.pb + text[i..k + 1];
  }

  lemma LeftIs(t: Tok, err: Error, c: byte, i: nat)
    ensures c != 0 ==> Left(t, err, c, i) == Out(t, err, i)
    ensures t.pend.NoHi? ==> EndPending(t) == t
  {
  }
}
