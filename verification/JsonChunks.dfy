// Feeding the tokener a text in pieces: the result is that of the whole text, unless a
// break falls inside the escapes of a surrogate pair.
module JsonChunks {
  import opened Bytes
  import opened Json
  import opened JsonMachine
  import opened JsonTokener

  // A call reports Continue exactly when it used up its text within a value.
  lemma ContinueIff(conf: Conf, t: Tok, text: seq<byte>)
    requires WF(conf, t)
    ensures var n := Feed(conf, t, text);
      Run(conf, t, text, 0).err == Continue <==> n.More? && !AtEnd(EndPending(n.tok))
  {
    ContinueFrom(conf, t, text, 0);
    assert text[0..] == text;
  }

  lemma {:induction false} ContinueFrom(conf: Conf, t: Tok, text: seq<byte>, i: nat)
    requires WF(conf, t) && i <= |text|
    ensures var n := Feed(conf, t, text[i..]);
      Run(conf, t, text, i).err == Continue <==> n.More? && !AtEnd(EndPending(n.tok))
    decreases |text| - i
  {
    hide Step;
    if i < |text| {
      var n := Step(conf, t, text[i]);
      assert text[i..][1..] == text[i + 1..];
      if n.More? {
        ContinueFrom(conf, n.tok, text, i + 1);
      }
    }
  }

  // A piece that is continued says so, and nothing is lost or counted twice: parsing a
  // then b is parsing a + b.
  lemma TwoPieces(conf: Conf, t: Tok, a: seq<byte>, b: seq<byte>)
    requires WF(conf, t) && Run(conf, t, a, 0).err == Continue && Feed(conf, t, a).tok.pend.NoHi?
    ensures Run(conf, t, a, 0).tok == Feed(conf, t, a).tok && WF(conf, Feed(conf, t, a).tok)
    ensures Run(conf, t, a + b, 0) == Shift(Run(conf, Run(conf, t, a, 0).tok, b, 0), |a|)
  {
    hide Step;
    ContinueIff(conf, t, a);
    var n := Feed(conf, t, a);
    assert a[0..] == a && a + [] == a;
    RunFeed(conf, t, a, [], 0);
    RunFeed(conf, t, a, b, 0);
    RunFrom(conf, n.tok, a, b, 0);
  }

  // ---- Any number of pieces ----------------------------------------------------------

  function Concat(pieces: seq<seq<byte>>): seq<byte>
  {
    if pieces == [] then [] else pieces[0] + Concat(pieces[1..])
  }

  // One call per piece for as long as the calls report Continue; offsets are counted
  // from the start of the first piece.
  function RunPieces(conf: Conf, t: Tok, pieces: seq<seq<byte>>): Result
    requires WF(conf, t) && pieces != [] && Unsplit(conf, t, pieces)
    decreases |pieces|
  {
    var r := Run(conf, t, pieces[0], 0);
    if |pieces| == 1 || r.err != Continue then r
    else
      ContinueIff(conf, t, pieces[0]);
      TwoPieces(conf, t, pieces[0], []);
      Shift(RunPieces(conf, r.tok, pieces[1..]), |pieces[0]|)
  }

  // No piece but the last leaves the tokener within a surrogate pair.
  ghost predicate Unsplit(conf: Conf, t: Tok, pieces: seq<seq<byte>>)
    requires WF(conf, t)
    decreases |pieces|
  {
    |pieces| <= 1 ||
    (var n := Feed(conf, t, pieces[0]);
     n.More? ==> n.tok.pend.NoHi? && Unsplit(conf, n.tok, pieces[1..]))
  }

  // The pieces continued up to the last give the tokener, error, value and offset of the
  // whole text.
  lemma {:induction false} AllPieces(conf: Conf, t: Tok, pieces: seq<seq<byte>>)
    requires WF(conf, t) && pieces != [] && Unsplit(conf, t, pieces)
    requires EarlierContinue(conf, t, pieces)
    ensures RunPieces(conf, t, pieces) == Run(conf, t, Concat(pieces), 0)
    decreases |pieces|
  {
    if |pieces| == 1 {
      assert Concat(pieces) == pieces[0] + Concat(pieces[1..]) == pieces[0];
    } else {
      ContinueIff(conf, t, pieces[0]);
      TwoPieces(conf, t, pieces[0], Concat(pieces[1..]));
      AllPieces(conf, Feed(conf, t, pieces[0]).tok, pieces[1..]);
    }
  }

  // Every piece but the last is reported as Continue.
  ghost predicate EarlierContinue(conf: Conf, t: Tok, pieces: seq<seq<byte>>)
    requires WF(conf, t)
    decreases |pieces|
  {
    |pieces| <= 1 ||
    (Run(conf, t, pieces[0], 0).err == Continue && Feed(conf, t, pieces[0]).More? &&
     EarlierContinue(conf, Feed(conf, t, pieces[0]).tok, pieces[1..]))
  }

  // ---- What success and continuation leave behind -----------------------------------------

  lemma {:induction false} RedoSuccess(conf: Conf, t: Tok, obj: Json, c: byte)
    requires WF(conf, t) && (t.pend.NoHi? || t.pend.HiU?)
    ensures var n := Settle(Redo(conf, t, obj, c), c);
      n.Stop? && n.err == Success ==> n.tok.below == [] || (c == 0 && InTrailingComment(t) && n.used)
    decreases Rank(t)
  {
    hide WF, Micro;
    MicroKeeps(conf, t, obj, c);
    var n := Micro(conf, t, obj, c);
    if n.Again? {
      RedoSuccess(conf, n.tok, NextObj(t, obj), c);
    }
  }

  // Before index e the text is fed up to a comment that follows a value inside a
  // container, and there a NUL stands.
  ghost predicate InnerAtNul(conf: Conf, t: Tok, text: seq<byte>, i: nat, e: nat)
    requires WF(conf, t)
  {
    && i <= e < |text| && text[e] == 0
    && var n := Feed(conf, t, text[i..e]); n.More? && InTrailingComment(n.tok) && n.tok.below != []
  }

  ghost predicate SomeInner(conf: Conf, t: Tok, text: seq<byte>, i: nat)
    requires WF(conf, t)
  {
    exists e: nat :: InnerAtNul(conf, t, text, i, e)
  }

  // A NUL in a comment after a complete value succeeds at that value's own level.
  lemma NulInTrailing(conf: Conf, t: Tok)
    requires WF(conf, t) && InTrailingComment(t)
    ensures var n := Step(conf, t, 0); n.Stop? && n.err == Success && n.used && n.tok.below == t.below
  {
    hide StackOk;
    assert t.pend == NoHi;
    assert Micro(conf, t, Null, 0) == MicroComment(t, 0);
  }

  // A call that succeeds has read a whole value, or, exactly if it met the NUL of an open
  // comment after a value inside a container, returns that inner value.
  lemma {:induction false} SuccessIsWhole(conf: Conf, t: Tok, text: seq<byte>, i: nat)
    requires WF(conf, t) && i <= |text|
    ensures var r := Run(conf, t, text, i);
      r.err == Success && r.tok.below != [] <==> SomeInner(conf, t, text, i)
    decreases |text| - i
  {
    hide WF, Step, SomeInner;
    if i == |text| {
      NoneLeft(conf, t, text);
    } else {
      var n := Step(conf, t, text[i]);
      if n.More? {
        SuccessIsWhole(conf, n.tok, text, i + 1);
        InnerShift(conf, t, text, i, i + 1);
      } else {
        StopsInner(conf, t, text, i);
      }
    }
  }

  lemma NoneLeft(conf: Conf, t: Tok, text: seq<byte>)
    requires WF(conf, t)
    ensures !SomeInner(conf, t, text, |text|)
  {
  }

  lemma InnerLater(conf: Conf, t: Tok, text: seq<byte>, i: nat, e: nat)
    requires WF(conf, t) && i < |text| && Step(conf, t, text[i]).More?
    ensures InnerAtNul(conf, t, text, i, e) <==> InnerAtNul(conf, Step(conf, t, text[i]).tok, text, i + 1, e)
  {
    hide WF, Step;
    if i < e < |text| {
      assert text[i..e][0] == text[i] && text[i..e][1..] == text[i + 1..e];
    }
  }

  lemma InnerShift(conf: Conf, t: Tok, text: seq<byte>, i: nat, k: nat)
    requires WF(conf, t) && i < |text| && Step(conf, t, text[i]).More? && k == i + 1
    ensures SomeInner(conf, t, text, i) <==> SomeInner(conf, Step(conf, t, text[i]).tok, text, k)
  {
    hide WF, Step, InnerAtNul;
    var t' := Step(conf, t, text[i]).tok;
    if e: nat :| InnerAtNul(conf, t, text, i, e) {
      InnerLater(conf, t, text, i, e);
      assert InnerAtNul(conf, t', text, k, e);
    }
    if e: nat :| InnerAtNul(conf, t', text, k, e) {
      InnerLater(conf, t, text, i, e);
      assert InnerAtNul(conf, t, text, i, e);
    }
  }

  lemma StopsInner(conf: Conf, t: Tok, text: seq<byte>, i: nat)
    requires WF(conf, t) && i < |text| && Step(conf, t, text[i]).Stop?
    ensures var n := Step(conf, t, text[i]);
      n.err == Success && n.tok.below != [] <==> SomeInner(conf, t, text, i)
  {
    hide WF, Step;
    forall e: nat
      ensures InnerAtNul(conf, t, text, i, e) ==> e == i
    {
      if i < e < |text| {
        assert text[i..e][0] == text[i];
      }
    }
    assert text[i..i] == [];
    var n := Step(conf, t, text[i]);
    if n.err == Success {
      StepSuccess(conf, t, text[i]);
    }
    if InTrailingComment(t) {
      NulInTrailing(conf, t);
    }
    assert InnerAtNul(conf, t, text, i, i) <==> text[i] == 0 && InTrailingComment(t) && t.below != [];
  }

  // A text without NUL that succeeds returns a whole value.
  lemma WholeWithoutNul(conf: Conf, t: Tok, text: seq<byte>)
    requires WF(conf, t) && 0 !in text && Run(conf, t, text, 0).err == Success
    ensures Run(conf, t, text, 0).tok.below == []
  {
    hide WF, Step;
    SuccessIsWhole(conf, t, text, 0);
  }

  lemma StepSuccess(conf: Conf, t: Tok, c: byte)
    requires WF(conf, t) && Step(conf, t, c).Stop? && Step(conf, t, c).err == Success
    ensures var n := Step(conf, t, c); n.tok.below == [] || (c == 0 && InTrailingComment(t) && n.used)
  {
    hide StackOk, Redo;
    match t.pend
    case NoHi | HiU(_) => RedoSuccess(conf, t, Null, c);
    case Hi(_) => RedoSuccess(conf, Flush(t), Null, c);
    case HiBackslash(_) => RedoSuccess(conf, Escape(Flush(t)), Null, c);
  }

  // A call that reports Continue leaves a tokener that can go on, unless its text ended
  // just before the digits of the second half of a surrogate pair.
  lemma ContinueGoesOn(conf: Conf, t: Tok, text: seq<byte>)
    requires WF(conf, t) && !Adding(t) && Run(conf, t, text, 0).err == Continue
    ensures var r, n := Run(conf, t, text, 0), Feed(conf, t, text);
      WF(conf, r.tok) && !Adding(r.tok) <==> !(n.tok.pend.HiU? && n.tok.stPos == 0)
  {
    hide Step;
    ContinueIff(conf, t, text);
    FeedRests(conf, t, text);
    assert text[0..] == text && text + [] == text;
    RunFeed(conf, t, text, [], 0);
    EndPendingKeeps(conf, Feed(conf, t, text).tok);
  }

  lemma EndPendingKeeps(conf: Conf, t: Tok)
    requires WF(conf, t) && !Adding(t)
    ensures WF(conf, EndPending(t)) <==> !(t.pend.HiU? && t.stPos == 0)
    ensures EndPending(t).pend.NoHi? && !Adding(EndPending(t))
  {
    hide StackOk;
  }

  lemma {:induction false} RedoRests(conf: Conf, t: Tok, obj: Json, c: byte)
    requires WF(conf, t) && (t.pend.NoHi? || t.pend.HiU?)
    ensures var n := Redo(conf, t, obj, c); n.More? ==> !Adding(n.tok)
    decreases Rank(t)
  {
    hide WF, Micro;
    MicroKeeps(conf, t, obj, c);
    var n := Micro(conf, t, obj, c);
    if n.Again? {
      RedoRests(conf, n.tok, NextObj(t, obj), c);
    }
  }

  lemma StepRests(conf: Conf, t: Tok, c: byte)
    requires WF(conf, t)
    ensures var n := Step(conf, t, c); n.More? ==> !Adding(n.tok)
  {
    hide StackOk, Redo;
    match t.pend
    case NoHi | HiU(_) => RedoRests(conf, t, Null, c);
    case Hi(_) => RedoRests(conf, Flush(t), Null, c);
    case HiBackslash(_) => RedoRests(conf, Escape(Flush(t)), Null, c);
  }

  lemma {:induction false} FeedRests(conf: Conf, t: Tok, text: seq<byte>)
    requires WF(conf, t) && !Adding(t)
    ensures var n := Feed(conf, t, text); n.More? ==> !Adding(n.tok)
    decreases |text|
  {
    hide WF, Step;
    if text != [] {
      StepRests(conf, t, text[0]);
      if Step(conf, t, text[0]).More? {
        FeedRests(conf, Step(conf, t, text[0]).tok, text[1..]);
      }
    }
  }

  // The loop of the header's example: one call per piece while the tokener says Continue.
  method ParsePieces(tok: Tokener, pieces: seq<seq<byte>>) returns (ret: Json)
    requires tok.Valid() && WF(tok.conf, tok.Abs()) && !Adding(tok.Abs())
    requires pieces != [] && Unsplit(tok.conf, tok.Abs(), pieces)
    modifies tok.Repr()
    ensures tok.Valid()
    ensures var r := RunPieces(tok.conf, old(tok.Abs()), pieces); ret == r.obj && tok.err == r.err && tok.Abs() == r.tok
  {
    hide WF, Run, Feed, Tokener.Abs;
    var conf := tok.conf;
    ghost var r := RunPieces(conf, tok.Abs(), pieces);
    ret := tok.ParseEx(pieces[0]);
    var k := 1;
    ghost var t := old(tok.Abs());
    assert pieces[0..] == pieces;
    while k < |pieces| && tok.err == Continue
      invariant 1 <= k <= |pieces| && tok.Valid() && fresh(tok.Repr() - old(tok.Repr()))
      invariant WF(conf, t) && !Adding(t) && Unsplit(conf, t, pieces[k - 1..])
      invariant var q := Run(conf, t, pieces[k - 1], 0); ret == q.obj && tok.err == q.err && tok.Abs() == q.tok
      invariant var q := RunPieces(conf, t, pieces[k - 1..]); q.obj == r.obj && q.err == r.err && q.tok == r.tok
    {
      NextPiece(conf, t, pieces[k - 1..]);
      t := tok.Abs();
      assert pieces[k - 1..][1..] == pieces[k..];
      ret := tok.ParseEx(pieces[k]);
      k := k + 1;
    }
    assert pieces[k - 1..][0] == pieces[k - 1];
  }

  lemma NextPiece(conf: Conf, t: Tok, pieces: seq<seq<byte>>)
    requires WF(conf, t) && !Adding(t) && |pieces| > 1 && Unsplit(conf, t, pieces)
    requires Run(conf, t, pieces[0], 0).err == Continue
    ensures var t' := Run(conf, t, pieces[0], 0).tok;
      && WF(conf, t') && !Adding(t') && Unsplit(conf, t', pieces[1..])
      && RunPieces(conf, t, pieces) == Shift(RunPieces(conf, t', pieces[1..]), |pieces[0]|)
  {
    hide Step;
    ContinueIff(conf, t, pieces[0]);
    TwoPieces(conf, t, pieces[0], []);
    FeedRests(conf, t, pieces[0]);
  }
}
