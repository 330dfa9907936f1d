// Where a text may be broken: exactly when the calls on the two pieces give what one call
// on the whole text gives.
module JsonSplits {
  import opened Bytes
  import opened Json
  import opened JsonMachine
  import opened JsonEscapes
  import JsonChunks

  // The first n digits of an escape can still become those of a low surrogate.
  predicate MayBeLow(ucs: nat, n: nat)
  {
    n == 0 || (ucs / 4096 == 13 && (n >= 2 ==> ucs / 1024 == 55))
  }

  // The state in which a piece ends does not wait for the second half of a pair, or will
  // not get it.
  predicate Harmless(t: Tok)
  {
    t.pend.NoHi? || (t.pend.HiU? && !MayBeLow(t.ucs, t.stPos))
  }

  // The same error, value and offset, and unless an error was found the same tokener. An
  // error may leave other bytes in the scratch buffer.
  predicate SameOutcome(r: Result, q: Result)
  {
    && r.err == q.err && r.obj == q.obj && r.offset == q.offset
    && (r.err == Success || r.err == Continue ==> r.tok == q.tok)
  }

  // Whatever follows piece a, the tokener that a leaves goes on as if there were no break.
  ghost predicate NoBreak(conf: Conf, t: Tok, a: seq<byte>)
    requires WF(conf, t)
  {
    var q := Run(conf, t, a, 0).tok;
    WF(conf, q) && forall b :: Run(conf, t, a + b, 0) == Shift(Run(conf, q, b, 0), |a|)
  }

  ghost predicate NoVisibleBreak(conf: Conf, t: Tok, a: seq<byte>)
    requires WF(conf, t)
  {
    var q := Run(conf, t, a, 0).tok;
    WF(conf, q) && forall b :: SameOutcome(Run(conf, t, a + b, 0), Shift(Run(conf, q, b, 0), |a|))
  }

  // ---- One state and the same at the end of a text -------------------------------------------

  ghost predicate Alike(conf: Conf, p: Tok)
    requires WF(conf, p)
  {
    WF(conf, EndPending(p)) && forall b :: Run(conf, p, b, 0) == Run(conf, EndPending(p), b, 0)
  }

  ghost predicate VisiblyAlike(conf: Conf, p: Tok)
    requires WF(conf, p)
  {
    WF(conf, EndPending(p)) && forall b :: SameOutcome(Run(conf, p, b, 0), Run(conf, EndPending(p), b, 0))
  }

  // The state a continued piece leaves, and the whole text seen from there.
  lemma Continued(conf: Conf, t: Tok, a: seq<byte>)
    requires WF(conf, t) && Run(conf, t, a, 0).err == Continue
    ensures Feed(conf, t, a).More? && WF(conf, Feed(conf, t, a).tok)
    ensures Run(conf, t, a, 0).tok == EndPending(Feed(conf, t, a).tok)
    ensures forall b :: Run(conf, t, a + b, 0) == Shift(Run(conf, Feed(conf, t, a).tok, b, 0), |a|)
  {
    hide Step;
    JsonChunks.ContinueIff(conf, t, a);
    assert a[0..] == a && a + [] == a;
    RunFeed(conf, t, a, [], 0);
    forall b
      ensures Run(conf, t, a + b, 0) == Shift(Run(conf, Feed(conf, t, a).tok, b, 0), |a|)
    {
      RunFeed(conf, t, a, b, 0);
      RunFrom(conf, Feed(conf, t, a).tok, a, b, 0);
    }
  }

  // A piece may be broken off, with everything left the same, exactly if it does not end
  // within a surrogate pair; and with the same outcome exactly if it does not, or if the
  // digits after the first half already rule out a second.
  lemma SplitExactly(conf: Conf, t: Tok, a: seq<byte>)
    requires WF(conf, t) && Run(conf, t, a, 0).err == Continue
    ensures Feed(conf, t, a).More?
    ensures NoBreak(conf, t, a) <==> Feed(conf, t, a).tok.pend.NoHi?
    ensures NoVisibleBreak(conf, t, a) <==> Harmless(Feed(conf, t, a).tok)
  {
    hide WF, Run, Feed, Harmless;
    Continued(conf, t, a);
    var p := Feed(conf, t, a).tok;
    BreakAlike(conf, t, a, p);
    AlikeIff(conf, p);
  }

  lemma BreakAlike(conf: Conf, t: Tok, a: seq<byte>, p: Tok)
    requires WF(conf, t) && WF(conf, p) && Run(conf, t, a, 0).tok == EndPending(p)
    requires forall b :: Run(conf, t, a + b, 0) == Shift(Run(conf, p, b, 0), |a|)
    ensures NoBreak(conf, t, a) <==> Alike(conf, p)
    ensures NoVisibleBreak(conf, t, a) <==> VisiblyAlike(conf, p)
  {
    hide WF, Run, EndPending;
    if WF(conf, EndPending(p)) {
      forall b
        ensures Run(conf, t, a + b, 0) == Shift(Run(conf, EndPending(p), b, 0), |a|) <==>
          Run(conf, p, b, 0) == Run(conf, EndPending(p), b, 0)
        ensures SameOutcome(Run(conf, t, a + b, 0), Shift(Run(conf, EndPending(p), b, 0), |a|)) <==>
          SameOutcome(Run(conf, p, b, 0), Run(conf, EndPending(p), b, 0))
      {
        ShiftBoth(Run(conf, p, b, 0), Run(conf, EndPending(p), b, 0), |a|);
      }
    }
  }

  lemma ShiftBoth(r: Result, q: Result, k: nat)
    ensures Shift(r, k) == Shift(q, k) <==> r == q
    ensures SameOutcome(Shift(r, k), Shift(q, k)) <==> SameOutcome(r, q)
  {
    assert Shift(r, k) == Shift(q, k) ==> r.offset == q.offset && r == q.(offset := r.offset);
  }

  lemma AlikeIff(conf: Conf, p: Tok)
    requires WF(conf, p)
    ensures Alike(conf, p) <==> p.pend.NoHi?
    ensures VisiblyAlike(conf, p) <==> Harmless(p)
  {
    hide WF, Run, Feed;
    match p.pend
    case NoHi =>
    case Hi(_) => HiDiffers(conf, p);
    case HiBackslash(_) => HiBackslashDiffers(conf, p);
    case HiU(_) =>
      if p.stPos == 0 {
        NoDigitYet(conf, p);
      } else if MayBeLow(p.ucs, p.stPos) {
        DigitsDiffer(conf, p);
      } else {
        NeverLow(conf, p);
        BadDigitDiffers(conf, p);
      }
  }

  // ---- Breaks that show ----------------------------------------------------------------------

  // The text of the escape of U+DC00, without its backslash and u.
  const LOW_DIGITS: seq<byte> := [100, 99, 48, 48]

  lemma LowDigits()
    ensures FourHex(LOW_DIGITS) && IsLow(HexValue(LOW_DIGITS))
  {
  }

  // A low surrogate completes a pair in p1, and is replaced where the first half is.
  lemma LowDiffers(conf: Conf, p1: Tok, u: nat)
    requires WF(conf, p1) && p1.pend.HiU? && u < 0x10000 && IsLow(u)
    ensures var e, e' := Emit(p1, u), Emit(Flush(p1), u);
      && e.top.state != EatWs && e'.top.state != EatWs
      && (e.pend.NoHi? || e.pend.Hi?) && e'.pend.NoHi?
      && |EndPending(e).pb| <= |p1.pb| + 4 && |e'.pb| == |p1.pb| + 6
  {
    hide StackOk;
    MaskedHigh(u);
    assert (Flush(p1).pb + []) == Flush(p1).pb;
  }

  // The call on a text that is used up within a string.
  lemma RunUsedUp(conf: Conf, t: Tok, b: seq<byte>, e: Tok)
    requires WF(conf, t) && Feed(conf, t, b) == More(e) && e.top.state != EatWs && (e.pend.NoHi? || e.pend.Hi?)
    ensures WF(conf, e) && Run(conf, t, b, 0).err == Continue && Run(conf, t, b, 0).tok == EndPending(e)
  {
    hide Step, StackOk;
    assert b[0..] == b && b + [] == b;
    RunFeed(conf, t, b, [], 0);
  }

  // Such a text, once from p and once from what p leaves.
  lemma BreakShows(conf: Conf, p: Tok, b: seq<byte>, p1: Tok, u: nat)
    requires WF(conf, p) && WF(conf, EndPending(p)) && WF(conf, p1) && p1.pend.HiU? && u < 0x10000 && IsLow(u)
    requires Feed(conf, p, b) == More(Emit(p1, u)) && Feed(conf, EndPending(p), b) == More(Emit(Flush(p1), u))
    ensures !Alike(conf, p) && !VisiblyAlike(conf, p)
  {
    hide WF, Run, Feed, Emit;
    LowDiffers(conf, p1, u);
    RunUsedUp(conf, p, b, Emit(p1, u));
    RunUsedUp(conf, EndPending(p), b, Emit(Flush(p1), u));
    assert !SameOutcome(Run(conf, p, b, 0), Run(conf, EndPending(p), b, 0));
  }

  // From a pending surrogate and from its replacement, the same escape.
  lemma BothEscapes(conf: Conf, p: Tok)
    requires WF(conf, p) && p.pend.Hi?
    ensures WF(conf, Flush(p)) && WF(conf, PairOpened(p)) && PairOpened(p).pend.HiU?
    ensures HexValue(LOW_DIGITS) < 0x10000 && IsLow(HexValue(LOW_DIGITS))
    ensures Feed(conf, p, BACKSLASH_U + LOW_DIGITS) == More(Emit(PairOpened(p), HexValue(LOW_DIGITS)))
    ensures Feed(conf, Flush(p), BACKSLASH_U + LOW_DIGITS) == More(Emit(Flush(PairOpened(p)), HexValue(LOW_DIGITS)))
  {
    hide WF, Feed, Emit, HexValue, FourHex;
    LowDigits();
    OpenPair(conf, p);
    SecondEscape(conf, p, LOW_DIGITS);
    EndKeeps(conf, p);
    OpenEscape(conf, Flush(p));
    FeedConcat(conf, Flush(p), BACKSLASH_U, LOW_DIGITS);
    assert Opened(Flush(p)) == Flush(PairOpened(p));
    FourDigits(conf, Opened(Flush(p)), LOW_DIGITS);
  }

  lemma HiDiffers(conf: Conf, p: Tok)
    requires WF(conf, p) && p.pend.Hi?
    ensures !Alike(conf, p) && !VisiblyAlike(conf, p)
  {
    hide WF, Run, Feed, Emit, HexValue, Alike, VisiblyAlike;
    BothEscapes(conf, p);
    BreakShows(conf, p, BACKSLASH_U + LOW_DIGITS, PairOpened(p), HexValue(LOW_DIGITS));
  }

  // With the backslash already read.
  lemma HiBackslashDiffers(conf: Conf, p: Tok)
    requires WF(conf, p) && p.pend.HiBackslash?
    ensures !Alike(conf, p) && !VisiblyAlike(conf, p)
  {
    hide WF, Run, Feed, Emit, HexValue, Alike, VisiblyAlike;
    var h := p.(pend := Hi(p.pend.u));
    BeforeBackslash(conf, p);
    BothEscapes(conf, h);
    var s := BACKSLASH_U + LOW_DIGITS;
    assert s[0] == BACKSLASH && s[1..] == [LETTER_U] + LOW_DIGITS;
    FeedOne(conf, h, s);
    FeedOne(conf, Flush(h), s);
    BreakShows(conf, p, [LETTER_U] + LOW_DIGITS, PairOpened(h), HexValue(LOW_DIGITS));
  }

  lemma BeforeBackslash(conf: Conf, p: Tok)
    requires WF(conf, p) && p.pend.HiBackslash?
    ensures var h := p.(pend := Hi(p.pend.u));
      && WF(conf, h) && Step(conf, h, BACKSLASH) == More(p)
      && WF(conf, Flush(h)) && Step(conf, Flush(h), BACKSLASH) == More(EndPending(p)) && WF(conf, EndPending(p))
  {
    hide StackOk;
    PendingKeeps(conf, p);
    var h := p.(pend := Hi(p.pend.u));
    assert Micro(conf, Flush(h), Null, BACKSLASH) == MicroText(Flush(h), BACKSLASH);
  }

  // Just before the digits the state left is not one that can go on.
  lemma NoDigitYet(conf: Conf, p: Tok)
    requires WF(conf, p) && p.pend.HiU? && p.stPos == 0
    ensures !WF(conf, EndPending(p))
  {
    hide StackOk;
  }

  lemma UnicodeStep(conf: Conf, t: Tok, c: byte)
    requires WF(conf, t) && t.top.state == EscapeUnicode
    ensures t.stPos < 4 && DigitsOk(t.ucs, t.stPos) && Step(conf, t, c) == Settle(MicroUnicode(t, c), c)
    ensures t.top.saved == InString || t.top.saved == Field
  {
    hide StackOk;
    assert t.pend.NoHi? || t.pend.HiU?;
    assert Micro(conf, t, Null, c) == MicroUnicode(t, c);
  }

  function Zeros(n: nat): (s: seq<byte>)
    ensures |s| == n
  {
    if n == 0 then [] else [48] + Zeros(n - 1)
  }

  lemma {:induction false} FeedZeros(conf: Conf, t: Tok)
    requires WF(conf, t) && t.top.state == EscapeUnicode && t.stPos > 0
    ensures t.stPos < 4 && t.ucs < 0x10000
    ensures Feed(conf, t, Zeros(4 - t.stPos)) == More(Emit(t, t.ucs))
    decreases 4 - t.stPos
  {
    hide WF, Step, Feed, Emit, TopOk;
    DigitStep(conf, t, 48);
    NextZero(t.ucs, t.stPos);
    var s := Zeros(4 - t.stPos);
    FeedOne(conf, t, s);
    if t.stPos < 3 {
      var t1 := t.(stPos := t.stPos + 1);
      FeedZeros(conf, t1);
      EmitIgnores(t, t.ucs, t.ucs, t.stPos + 1);
    }
  }

  lemma NextZero(ucs: nat, n: nat)
    requires n < 4 && DigitsOk(ucs, n)
    ensures AddDigit(ucs, n, HexDigit(48)) == ucs && ucs < 0x10000 && IsHex(48)
  {
  }

  // Digits after which p has read a low surrogate.
  function Completion(t: Tok): seq<byte>
    requires 0 < t.stPos < 4
  {
    if t.stPos == 1 then [99] + Zeros(2) else Zeros(4 - t.stPos)
  }

  function Completed(t: Tok): nat
  {
    if t.stPos == 1 then 0xDC00 else t.ucs
  }

  lemma FeedCompletion(conf: Conf, t: Tok)
    requires WF(conf, t) && t.top.state == EscapeUnicode && t.stPos > 0 && MayBeLow(t.ucs, t.stPos)
    ensures t.stPos < 4 && Completed(t) < 0x10000 && IsLow(Completed(t))
    ensures Feed(conf, t, Completion(t)) == More(Emit(t, Completed(t)))
  {
    hide WF, Step, Feed, Emit, TopOk;
    if t.stPos == 1 {
      DigitStep(conf, t, 99);
      FirstDigitD(t.ucs);
      var t1 := t.(ucs := 0xDC00, stPos := 2);
      var s := Completion(t);
      assert s[0] == 99 && s[1..] == Zeros(2);
      FeedOne(conf, t, s);
      FeedZeros(conf, t1);
      EmitIgnores(t, 0xDC00, 0xDC00, 2);
    } else {
      FeedZeros(conf, t);
    }
  }

  lemma FirstDigitD(ucs: nat)
    requires DigitsOk(ucs, 1) && ucs / 4096 == 13
    ensures AddDigit(ucs, 1, HexDigit(99)) == 0xDC00 && IsHex(99) && IsLow(0xDC00)
  {
  }

  lemma DigitsDiffer(conf: Conf, p: Tok)
    requires WF(conf, p) && p.pend.HiU? && p.stPos > 0 && MayBeLow(p.ucs, p.stPos)
    ensures !Alike(conf, p) && !VisiblyAlike(conf, p)
  {
    hide WF, Run, Feed, Emit, Alike, VisiblyAlike;
    FlushedEscape(conf, p);
    FeedCompletion(conf, p);
    FeedCompletion(conf, Flush(p));
    BreakShows(conf, p, Completion(p), p, Completed(p));
  }

  lemma FlushedEscape(conf: Conf, p: Tok)
    requires WF(conf, p) && p.pend.HiU?
    ensures p.top.state == EscapeUnicode && WF(conf, Flush(p)) && (p.stPos > 0 ==> EndPending(p) == Flush(p))
  {
    hide StackOk;
  }

  // A byte that is no digit ends both calls with the same error, but not the same scratch
  // bytes.
  lemma BadDigitDiffers(conf: Conf, p: Tok)
    requires WF(conf, p) && p.pend.HiU? && p.stPos > 0
    ensures !Alike(conf, p)
  {
    hide WF, Step;
    FlushedEscape(conf, p);
    UnicodeStep(conf, p, 122);
    UnicodeStep(conf, Flush(p), 122);
    var b: seq<byte> := [122];
    assert Run(conf, p, b, 0).tok.pb == p.pb && Run(conf, Flush(p), b, 0).tok.pb == p.pb + REPLACEMENT;
    assert |p.pb + REPLACEMENT| == |p.pb| + 3;
    assert Run(conf, p, b, 0) != Run(conf, EndPending(p), b, 0);
  }

  // ---- Breaks that do not show -----------------------------------------------------------------

  lemma NeverLow(conf: Conf, p: Tok)
    requires WF(conf, p) && p.pend.HiU? && !MayBeLow(p.ucs, p.stPos)
    ensures VisiblyAlike(conf, p)
  {
    hide WF, Run;
    FlushedEscape(conf, p);
    forall b
      ensures SameOutcome(Run(conf, p, b, 0), Run(conf, EndPending(p), b, 0))
    {
      NeverLowFrom(conf, p, b, 0);
    }
  }

  // What a byte does to the escape and to the escape after the replacement.
  lemma BothStep(conf: Conf, p: Tok, c: byte)
    requires WF(conf, p) && p.pend.HiU? && !MayBeLow(p.ucs, p.stPos) && WF(conf, Flush(p))
    ensures var n, m := Step(conf, p, c), Step(conf, Flush(p), c);
      if n.Stop? then m.Stop? && n.err == m.err && n.used == m.used && n.err != Success && n.err != Continue
      else
        && m.More? && WF(conf, n.tok) && WF(conf, m.tok)
        && (n.tok == m.tok ||
            (n.tok.pend.HiU? && !MayBeLow(n.tok.ucs, n.tok.stPos) && m.tok == Flush(n.tok)))
  {
    hide WF, Step, TopOk, Emit;
    FlushedEscape(conf, p);
    UnicodeStep(conf, p, c);
    UnicodeStep(conf, Flush(p), c);
    if IsHex(c) {
      StillNotLow(p.ucs, p.stPos, HexDigit(c));
      EmitAlone(p, AddDigit(p.ucs, p.stPos, HexDigit(c)));
    }
  }

  // A further digit does not make a low surrogate of what cannot become one.
  lemma StillNotLow(ucs: nat, n: nat, d: nat)
    requires n < 4 && DigitsOk(ucs, n) && d < 16 && !MayBeLow(ucs, n)
    ensures var u := AddDigit(ucs, n, d); u < 0x10000 && (if n < 3 then !MayBeLow(u, n + 1) else !IsLow(u))
  {
    TopDigits(ucs, n, d);
    var u := AddDigit(ucs, n, d);
    assert u / 1024 == u / 256 / 4 && ucs / 1024 == ucs / 256 / 4;
    assert u / 4096 == u / 1024 / 4 && ucs / 4096 == ucs / 1024 / 4;
  }

  lemma EmitAlone(p: Tok, u: nat)
    requires u < 0x10000 && p.pend.HiU?
    ensures !IsLow(u) ==> Emit(p, u) == Emit(Flush(p), u)
  {
    assert Flush(p).pb + [] == Flush(p).pb;
  }

  lemma {:induction false} NeverLowFrom(conf: Conf, p: Tok, b: seq<byte>, i: nat)
    requires WF(conf, p) && p.pend.HiU? && !MayBeLow(p.ucs, p.stPos) && i <= |b|
    ensures WF(conf, Flush(p)) && SameOutcome(Run(conf, p, b, i), Run(conf, Flush(p), b, i))
    decreases |b| - i
  {
    hide WF, Step, MayBeLow;
    FlushedEscape(conf, p);
    if i < |b| {
      BothStep(conf, p, b[i]);
      var n := Step(conf, p, b[i]);
      if n.More? && n.tok != Step(conf, Flush(p), b[i]).tok {
        NeverLowFrom(conf, n.tok, b, i + 1);
      }
    } else {
      assert !MayBeLow(p.ucs, p.stPos) ==> p.stPos > 0 by { ZeroMay(p.ucs); }
    }
  }

  lemma ZeroMay(ucs: nat)
    ensures MayBeLow(ucs, 0)
  {
  }
}
