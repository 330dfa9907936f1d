// Steps of the tokener over the parts of a text: quoted text, words, numbers, blanks,
// brackets and separators, each in any context.
module JsonReading {
  import opened Bytes
  import opened Wrappers
  import opened Json
  import opened Int64Parse
  import opened JsonMachine
  import opened JsonBlanks

  // ---- Quoted text -------------------------------------------------------------------

  // t' is t, inside a string or field name, with s added to the text.
  ghost predicate Added(conf: Conf, t: Tok, t': Tok, s: seq<byte>)
  {
    && WF(conf, t') && t'.pend.NoHi? && t'.quote == t.quote && t'.below == t.below && t'.pb == t.pb + s
    && t'.top == t.top.(saved := t'.top.saved)
  }

  ghost predicate InText(conf: Conf, t: Tok)
  {
    WF(conf, t) && t.pend.NoHi? && (t.top.state == InString || t.top.state == Field) &&
    (t.quote == DQUOTE || t.quote == SQUOTE)
  }

  lemma PlainText(conf: Conf, t: Tok, c: byte)
    requires InText(conf, t) && c != 0
    ensures c != t.quote && c != BACKSLASH ==>
      Step(conf, t, c) == More(Grow(t, [c])) && Added(conf, t, Grow(t, [c]), [c])
    ensures c == BACKSLASH ==> Step(conf, t, c) == More(Escape(t)) && WF(conf, Escape(t))
  {
    hide StackOk;
    assert Micro(conf, t, Null, c) == MicroText(t, c);
  }

  lemma EscapeStep(conf: Conf, t: Tok, c: byte)
    requires WF(conf, t) && t.pend.NoHi? && t.top.state == StringEscape && Escaped(c).Some? && c != 0
    ensures var t' := Grow(Goto(t, t.top.saved), [Escaped(c).value]);
      Step(conf, t, c) == More(t') && WF(conf, t')
  {
    hide StackOk;
    assert Micro(conf, t, Null, c) == MicroEscape(t, c);
  }

  lemma AddedTrans(conf: Conf, t: Tok, a: Tok, b: Tok, s: seq<byte>, r: seq<byte>)
    requires Added(conf, t, a, s) && Added(conf, a, b, r)
    ensures Added(conf, t, b, s + r)
  {
    hide WF;
    assert t.pb + s + r == t.pb + (s + r);
  }

  lemma StillText(conf: Conf, t: Tok, t': Tok, s: seq<byte>)
    requires InText(conf, t) && Added(conf, t, t', s)
    ensures InText(conf, t')
  {
  }

  lemma TextWF(conf: Conf, t: Tok)
    requires InText(conf, t)
    ensures WF(conf, t) && t.pend.NoHi?
  {
  }

  // ---- Ends of values ------------------------------------------------------------------

  const NULL_READ: Level := FRESH.(state := NullWord)
  const BOOL_READ: Level := FRESH.(state := BoolWord)
  const NUMBER_READ: Level := FRESH.(state := Number)

  function DoneLevel(j: Json): Level
  {
    Level(EatWs, Finish, j, None)
  }

  // The word w, in letters of either case.
  predicate IsWord(w: seq<byte>, s: seq<byte>)
  {
    |s| == |w| && forall k :: 0 <= k < |w| ==> Lower(s[k]) == w[k]
  }

  // The words themselves.
  lemma WordsAre(s: seq<byte>)
    ensures IsWord(NULL_WORD, s) <==> |s| == 4 && forall k :: 0 <= k < 4 ==> s[k] as char in ["nN", "uU", "lL", "lL"][k]
    ensures IsWord(TRUE_WORD, s) <==> |s| == 4 && forall k :: 0 <= k < 4 ==> s[k] as char in ["tT", "rR", "uU", "eE"][k]
    ensures IsWord(FALSE_WORD, s) <==>
      |s| == 5 && forall k :: 0 <= k < 5 ==> s[k] as char in ["fF", "aA", "lL", "sS", "eE"][k]
  {
  }

  // The text of the value j is read. Words and numbers only notice with the next byte.
  predicate Ends(conf: Conf, t: Tok, j: Json)
  {
    || t.top == DoneLevel(j)
    || (t.top == NULL_READ && j == Null && t.stPos == 4 && IsWord(NULL_WORD, t.pb))
    || (t.top == BOOL_READ && j == Bool(true) && t.stPos == 4 && IsWord(TRUE_WORD, t.pb))
    || (t.top == BOOL_READ && j == Bool(false) && t.stPos == 5 && IsWord(FALSE_WORD, t.pb))
    || (t.top == NUMBER_READ && ParsedNumber(conf, t) == Some(j))
  }

  // The same with the end noticed on byte c.
  function Closed(t: Tok, j: Json, c: byte): Tok
  {
    var t1 := if t.top.state == NullWord || t.top.state == BoolWord then Grow(t, [c]) else t;
    t1.(top := DoneLevel(j))
  }

  lemma CloseMicro(conf: Conf, t: Tok, j: Json, obj: Json, c: byte)
    requires WF(conf, t) && t.pend.NoHi? && Ends(conf, t, j) && !IsNumberChar(c)
    ensures WF(conf, Closed(t, j, c))
    ensures t.top == DoneLevel(j) || Micro(conf, t, obj, c) == Again(Closed(t, j, c))
  {
    hide StackOk, ParseInt;
    var b := Grow(t, [c]).pb;
    assert forall k :: 0 <= k < |t.pb| ==> b[k] == t.pb[k];
    assert IsWord(FALSE_WORD, t.pb) ==> Lower(b[0]) != TRUE_WORD[0];
  }

  lemma Close(conf: Conf, t: Tok, j: Json, obj: Json, c: byte)
    requires WF(conf, t) && t.pend.NoHi? && Ends(conf, t, j) && !IsNumberChar(c)
    ensures WF(conf, Closed(t, j, c)) && Ends(conf, Closed(t, j, c), j)
    ensures Redo(conf, t, obj, c) == Redo(conf, Closed(t, j, c), obj, c)
  {
    hide WF, Micro, ParsedNumber;
    CloseMicro(conf, t, j, obj, c);
    if t.top == DoneLevel(j) {
      assert Closed(t, j, c) == t;
    } else {
      MicroKeeps(conf, t, obj, c);
    }
  }

  // Starting over on the same byte, a text of at least one byte.
  lemma Restart(conf: Conf, t: Tok, t': Tok, s: seq<byte>)
    requires WF(conf, t) && WF(conf, t') && t.pend.NoHi? && t'.pend.NoHi? && s != []
    requires Redo(conf, t, Null, s[0]) == Redo(conf, t', Null, s[0])
    ensures Feed(conf, t, s) == Feed(conf, t', s)
  {
    hide WF, Redo;
  }

  // Blanks after a value.
  lemma FeedSpaces(conf: Conf, t: Tok, j: Json, s: seq<byte>)
    requires WF(conf, t) && t.pend.NoHi? && Ends(conf, t, j) && Blank(s)
    ensures var n := Feed(conf, t, s);
      n.More? && WF(conf, n.tok) && n.tok.pend.NoHi? && n.tok.below == t.below && Ends(conf, n.tok, j)
  {
    hide WF, ParsedNumber, Blank, Feed, Redo, IsWord;
    if s == [] {
      FeedNothing(conf, t);
    } else {
      BlankBegins(s);
      BlankNoNumber(s[0]);
      Close(conf, t, j, Null, s[0]);
      var t' := Closed(t, j, s[0]);
      Restart(conf, t, t', s);
      FeedBlank(conf, t', s);
    }
  }

  lemma BlankNoNumber(c: byte)
    requires IsSpace(c) || c == SLASH
    ensures !IsNumberChar(c)
  {
  }

  // A byte that is not skipped enters the state that waits.
  lemma Enter(conf: Conf, t: Tok, obj: Json, c: byte)
    requires WF(conf, t) && t.pend.NoHi? && t.top.state == EatWs && !IsSpace(c) && c != SLASH
    ensures var t' := Goto(t, t.top.saved);
      && WF(conf, t')
      && Micro(conf, t, obj, c) == Again(t')
      && Redo(conf, t, obj, c) == Redo(conf, t', obj, c)
  {
    hide WF;
    MicroKeeps(conf, t, obj, c);
  }

  // A bracket or comma after a value hands it to the level below.
  function Popped(t: Tok): Tok
    requires t.below != []
  {
    var n := |t.below| - 1;
    t.(below := t.below[..n], top := t.below[n])
  }

  // A byte that cannot belong to a value before it.
  predicate Parting(c: byte)
  {
    !IsSpace(c) && c != SLASH && !IsNumberChar(c)
  }

  lemma PopInto(conf: Conf, t: Tok, j: Json, obj: Json, c: byte)
    requires WF(conf, t) && t.pend.NoHi? && Ends(conf, t, j) && Parting(c) && t.below != []
    ensures var t' := Popped(Closed(t, j, c));
      WF(conf, t') && Redo(conf, t, obj, c) == Redo(conf, t', j, c)
  {
    hide WF, ParsedNumber;
    Close(conf, t, j, obj, c);
    var t1 := Closed(t, j, c);
    Enter(conf, t1, obj, c);
    var t2 := Goto(t1, Finish);
    assert Micro(conf, t2, obj, c) == MicroFinish(t2) == Again(Popped(t1));
    MicroKeeps(conf, t2, obj, c);
  }

  // ---- Words and numbers -----------------------------------------------------------------

  ghost predicate Fresh(conf: Conf, t: Tok)
  {
    WF(conf, t) && t.pend.NoHi? && t.top == FRESH
  }

  // n is t after the text of j.
  ghost predicate Got(conf: Conf, t: Tok, n: Next, j: Json)
  {
    n.More? && WF(conf, n.tok) && n.tok.pend.NoHi? && n.tok.below == t.below && Ends(conf, n.tok, j)
  }

  lemma BeginValue(conf: Conf, t: Tok, c: byte)
    requires Fresh(conf, t) && !IsSpace(c) && c != SLASH
    ensures var t' := Goto(t, Start);
      && WF(conf, t') && Redo(conf, t, Null, c) == Redo(conf, t', Null, c)
      && Micro(conf, t', Null, c) == MicroStart(t', c)
  {
    hide StackOk;
    Enter(conf, t, Null, c);
  }

  // The first letter of a word or digit of a number.
  lemma BeginWord(conf: Conf, t: Tok, c: byte)
    requires Fresh(conf, t) && (Lower(c) in {LETTER_N, LETTER_T, LETTER_F} || IsDigit(c) || c == MINUS)
    ensures var s :=
        if Lower(c) == LETTER_N then NullWord else if Lower(c) in {LETTER_T, LETTER_F} then BoolWord else Number;
      var t0 := Goto(t, s).(pb := []);
      var t' := if s == Number then t0.(isDouble := false) else t0.(stPos := 0);
      WF(conf, t') && Redo(conf, t, Null, c) == Redo(conf, t', Null, c)
  {
    hide StackOk;
    BeginValue(conf, t, c);
    MicroKeeps(conf, Goto(t, Start), Null, c);
  }

  lemma NullStep(conf: Conf, t: Tok, w: seq<byte>, k: nat)
    requires IsWord(NULL_WORD, w)
    requires WF(conf, t) && t.pend.NoHi? && t.top == NULL_READ && k < 4 && t.stPos == k && t.pb == w[..k]
    ensures var t' := t.(pb := w[..k + 1], stPos := k + 1);
      Redo(conf, t, Null, w[k]) == More(t') && WF(conf, t')
  {
    hide StackOk;
    var c := w[k];
    assert t.pb + [c] == w[..k + 1];
    assert forall i :: 0 <= i < k + 1 ==> (t.pb + [c])[i] == w[i];
    assert Micro(conf, t, Null, c) == MicroNull(t, c);
  }

  lemma BoolStep(conf: Conf, t: Tok, b: bool, w: seq<byte>, k: nat)
    requires IsWord(if b then TRUE_WORD else FALSE_WORD, w)
    requires WF(conf, t) && t.pend.NoHi? && t.top == BOOL_READ && k < |w| && t.stPos == k && t.pb == w[..k]
    ensures var t' := t.(pb := w[..k + 1], stPos := k + 1);
      Redo(conf, t, Null, w[k]) == More(t') && WF(conf, t')
  {
    hide StackOk;
    var c := w[k];
    assert t.pb + [c] == w[..k + 1];
    assert forall i :: 0 <= i < k + 1 ==> (t.pb + [c])[i] == w[i];
    assert !b ==> Lower((t.pb + [c])[0]) != TRUE_WORD[0];
    assert Micro(conf, t, Null, c) == MicroBool(t, c);
  }

  lemma {:induction false} FeedNull(conf: Conf, t: Tok, w: seq<byte>, k: nat)
    requires IsWord(NULL_WORD, w)
    requires WF(conf, t) && t.pend.NoHi? && t.top == NULL_READ && k <= 4 && t.stPos == k && t.pb == w[..k]
    ensures Got(conf, t, Feed(conf, t, w[k..]), Null)
    decreases 4 - k
  {
    hide WF, Redo, ParsedNumber;
    if k < 4 {
      NullStep(conf, t, w, k);
      assert w[k..][1..] == w[k + 1..];
      FeedNull(conf, t.(pb := w[..k + 1], stPos := k + 1), w, k + 1);
    } else {
      assert w[..k] == w;
    }
  }

  lemma {:induction false} FeedBool(conf: Conf, t: Tok, b: bool, w: seq<byte>, k: nat)
    requires IsWord(if b then TRUE_WORD else FALSE_WORD, w)
    requires WF(conf, t) && t.pend.NoHi? && t.top == BOOL_READ && k <= |w| && t.stPos == k && t.pb == w[..k]
    ensures Got(conf, t, Feed(conf, t, w[k..]), Bool(b))
    decreases 5 - k
  {
    hide WF, Redo, ParsedNumber;
    if k < |w| {
      BoolStep(conf, t, b, w, k);
      assert w[k..][1..] == w[k + 1..];
      FeedBool(conf, t.(pb := w[..k + 1], stPos := k + 1), b, w, k + 1);
    } else {
      assert w[..k] == w;
    }
  }

  // A byte that makes a number a double.
  predicate IsPoint(c: byte)
  {
    c == 46 || c == 101 || c == 69
  }

  predicate HasPoint(s: seq<byte>)
  {
    exists k :: 0 <= k < |s| && IsPoint(s[k])
  }

  lemma NumberStep(conf: Conf, t: Tok, c: byte)
    requires WF(conf, t) && t.pend.NoHi? && t.top == NUMBER_READ && IsNumberChar(c)
    ensures var t' := Grow(t, [c]).(isDouble := t.isDouble || IsPoint(c));
      Redo(conf, t, Null, c) == More(t') && WF(conf, t')
  {
    hide StackOk;
    assert Micro(conf, t, Null, c) == MicroNumber(conf, t, c);
  }

  lemma {:induction false} FeedNumber(conf: Conf, t: Tok, s: seq<byte>)
    requires WF(conf, t) && t.pend.NoHi? && t.top == NUMBER_READ && forall k :: 0 <= k < |s| ==> IsNumberChar(s[k])
    ensures var t' := Grow(t, s).(isDouble := t.isDouble || HasPoint(s));
      Feed(conf, t, s) == More(t') && WF(conf, t')
    decreases |s|
  {
    hide WF, Redo, IsPoint, HasPoint;
    if s == [] {
      assert t.pb + [] == t.pb && !HasPoint(s) by { NoPoint(s); }
      assert Grow(t, s).(isDouble := t.isDouble || HasPoint(s)) == t;
    } else {
      NumberStep(conf, t, s[0]);
      var r, t1 := s[1..], Grow(t, [s[0]]).(isDouble := t.isDouble || IsPoint(s[0]));
      FeedNumber(conf, t1, r);
      PointFirst(s);
      assert t.pb + [s[0]] + r == t.pb + s;
      assert Grow(t1, r).(isDouble := t1.isDouble || HasPoint(r)) ==
        Grow(t, s).(isDouble := t.isDouble || HasPoint(s));
      FeedOne(conf, t, s);
      if |s| == 1 {
        assert r == [] && Feed(conf, t1, r) == More(t1);
      }
    }
  }

  lemma NoPoint(s: seq<byte>)
    requires s == []
    ensures !HasPoint(s)
  {
  }

  lemma PointFirst(s: seq<byte>)
    requires s != []
    ensures HasPoint(s) <==> IsPoint(s[0]) || HasPoint(s[1..])
  {
    if HasPoint(s) {
      var k :| 0 <= k < |s| && IsPoint(s[k]);
      assert k > 0 ==> IsPoint(s[1..][k - 1]);
    }
    if HasPoint(s[1..]) {
      var k :| 0 <= k < |s[1..]| && IsPoint(s[1..][k]);
      assert IsPoint(s[k + 1]);
    }
  }

  // ---- Strings and keys ---------------------------------------------------------------

  lemma QuoteEnds(conf: Conf, t: Tok)
    requires InText(conf, t)
    ensures var t' := if t.top.state == InString then Complete(t, Str(t.pb))
                      else t.(top := t.top.(state := EatWs, saved := FieldEnd, field := Some(CString(t.pb))));
      WF(conf, t') && Step(conf, t, t.quote) == More(t')
  {
    hide StackOk, CString;
    assert Micro(conf, t, Null, t.quote) == MicroText(t, t.quote);
  }

  // A bracket or brace that ends its container.
  predicate EndsContainer(s: State, c: byte)
  {
    if c == RBRACKET then s in {Array, ArraySep} else c == RBRACE && s in {FieldStart, ObjectSep}
  }

  lemma Finishes(conf: Conf, t: Tok, obj: Json, c: byte)
    requires WF(conf, t) && t.pend.NoHi? && EndsContainer(t.top.state, c)
    ensures Redo(conf, t, obj, c) == More(Park(t, Finish)) && WF(conf, Park(t, Finish))
  {
    hide StackOk;
    MicroKeeps(conf, t, obj, c);
    assert Micro(conf, t, obj, c) == More(Park(t, Finish));
  }

  // A value added to its container, and the separator or end behind it.
  lemma ThenSep(conf: Conf, t: Tok, obj: Json, c: byte, t': Tok)
    requires WF(conf, t) && t.pend.NoHi? && t.top.state != Finish
    requires t'.top.state == EatWs && t'.pend.NoHi? && Micro(conf, t, obj, c) == Again(t') && !IsSpace(c) && c != SLASH
    ensures var t2 := Goto(t', t'.top.saved);
      WF(conf, t2) && Redo(conf, t, obj, c) == Redo(conf, t2, obj, c)
  {
    hide WF, Micro;
    MicroKeeps(conf, t, obj, c);
    Enter(conf, t', obj, c);
  }

  lemma ItemAdded(conf: Conf, t: Tok, items: seq<Json>, j: Json, c: byte)
    requires WF(conf, t) && t.top.state == ArrayAdd && t.top.current == Arr(items) && t.top.field.None?
    ensures Micro(conf, t, j, c) == Again(t.(top := Level(EatWs, ArraySep, Arr(items + [j]), None)))
  {
    hide StackOk;
  }

  lemma MemberAdded(conf: Conf, t: Tok, members: seq<Member>, key: seq<byte>, j: Json, c: byte)
    requires WF(conf, t) && t.top.state == ValueAdd && t.top.current == Obj(members) && t.top.field == Some(key)
    ensures Micro(conf, t, j, c) == Again(t.(top := Level(EatWs, ObjectSep, Obj(WithMember(members, key, j)), None)))
  {
    hide StackOk, WithMember;
  }

  // ---- Arrays ---------------------------------------------------------------------------

  // The elements read so far; the last one still waits for the byte after it.
  ghost predicate ItemsDone(conf: Conf, t0: Tok, t: Tok, items: seq<Json>)
  {
    && WF(conf, t) && t.pend.NoHi?
    && (if items == [] then t.below == t0.below && t.top == Level(EatWs, Array, Arr([]), None)
        else
          var n, k := |t0.below|, |items| - 1;
          && |t.below| == n + 1 && t.below[..n] == t0.below && Ends(conf, t, items[k])
          && t.below[n] == Level(ArrayAdd, t.below[n].saved, Arr(items[..k]), None))
  }

  // Before the next element.
  ghost predicate AtItem(conf: Conf, t0: Tok, t: Tok, items: seq<Json>)
  {
    && WF(conf, t) && t.pend.NoHi? && t.below == t0.below
    && t.top == Level(EatWs, t.top.saved, Arr(items), None)
    && (t.top.saved == Array || t.top.saved == ArrayAfterSep)
  }

  lemma AddItem(conf: Conf, t0: Tok, t: Tok, items: seq<Json>, c: byte)
    requires items != [] && ItemsDone(conf, t0, t, items) && Parting(c)
    ensures var j := items[|items| - 1];
      var t' := Popped(Closed(t, j, c)).(top := Level(ArraySep, ArraySep, Arr(items), None));
      && WF(conf, t') && t'.below == t0.below
      && Redo(conf, t, Null, c) == Redo(conf, t', j, c)
  {
    hide WF, Ends, Redo, Micro;
    var k := |items| - 1;
    var j := items[k];
    PopInto(conf, t, j, Null, c);
    var t1 := Popped(Closed(t, j, c));
    var t2 := t1.(top := Level(EatWs, ArraySep, Arr(items), None));
    assert items[..k] + [j] == items;
    ItemAdded(conf, t1, items[..k], j, c);
    ThenSep(conf, t1, j, c, t2);
  }

  lemma CommaItem(conf: Conf, t0: Tok, t: Tok, items: seq<Json>)
    requires items != [] && ItemsDone(conf, t0, t, items)
    ensures var n := Step(conf, t, COMMA);
      n.More? && AtItem(conf, t0, n.tok, items) && n.tok.top.saved == ArrayAfterSep
  {
    hide WF, Ends;
    AddItem(conf, t0, t, items, COMMA);
    var j := items[|items| - 1];
    var t' := Popped(Closed(t, j, COMMA)).(top := Level(ArraySep, ArraySep, Arr(items), None));
    MicroKeeps(conf, t', j, COMMA);
    assert Micro(conf, t', j, COMMA) == More(Park(t', ArrayAfterSep));
  }

  lemma BracketItem(conf: Conf, t0: Tok, t: Tok, items: seq<Json>)
    requires ItemsDone(conf, t0, t, items)
    ensures var n := Step(conf, t, RBRACKET);
      n.More? && WF(conf, n.tok) && n.tok.pend.NoHi? && n.tok.below == t0.below && n.tok.top == DoneLevel(Arr(items))
  {
    hide WF, Ends, Redo, Micro;
    if items == [] {
      Enter(conf, t, Null, RBRACKET);
      Finishes(conf, Goto(t, Array), Null, RBRACKET);
    } else {
      AddItem(conf, t0, t, items, RBRACKET);
      var j := items[|items| - 1];
      var t' := Popped(Closed(t, j, RBRACKET)).(top := Level(ArraySep, ArraySep, Arr(items), None));
      Finishes(conf, t', j, RBRACKET);
    }
  }

  function Inner(t: Tok, s: State): Tok
  {
    t.(below := t.below + [t.top.(state := s)], top := FRESH)
  }

  // The first byte of a value opens a new level, if there is one left.
  lemma PushItem(conf: Conf, t0: Tok, t: Tok, items: seq<Json>, c: byte)
    requires AtItem(conf, t0, t, items) && !IsSpace(c) && c != SLASH && c != RBRACKET
    ensures if |t.below| >= conf.maxDepth - 1 then
              c != 0 ==> Step(conf, t, c).Stop? && Step(conf, t, c).err == DepthExceeded
            else Fresh(conf, Inner(t, ArrayAdd)) && Redo(conf, t, Null, c) == Redo(conf, Inner(t, ArrayAdd), Null, c)
  {
    hide WF;
    Enter(conf, t, Null, c);
    var t' := Goto(t, t.top.saved);
    MicroKeeps(conf, t', Null, c);
    assert Micro(conf, t', Null, c) == MicroArray(conf, t', Null, c);
  }

  predicate ValueStart(c: byte)
  {
    !IsSpace(c) && c != SLASH && c != RBRACKET && c != RBRACE && c != 0
  }

  lemma NextItem(conf: Conf, t0: Tok, t: Tok, items: seq<Json>, item: Json, n: Next)
    requires AtItem(conf, t0, t, items) && Got(conf, Inner(t, ArrayAdd), n, item)
    ensures ItemsDone(conf, t0, n.tok, items + [item])
  {
    hide WF, Ends;
    assert (items + [item])[..|items|] == items;
  }

  // ---- Objects --------------------------------------------------------------------------

  // The members read so far; the last one still waits for the byte after it.
  ghost predicate MembersDone(conf: Conf, t0: Tok, t: Tok, members: seq<Member>, last: Option<Member>)
  {
    && WF(conf, t) && t.pend.NoHi?
    && (match last
        case None => members == [] && t.below == t0.below && t.top == Level(EatWs, FieldStart, Obj([]), None)
        case Some(m) =>
          var n := |t0.below|;
          && |t.below| == n + 1 && t.below[..n] == t0.below && Ends(conf, t, m.value)
          && t.below[n] == Level(ValueAdd, t.below[n].saved, Obj(members), Some(m.key)))
  }

  // With that last one.
  function AllMembers(members: seq<Member>, last: Option<Member>): seq<Member>
  {
    match last case None => members case Some(m) => WithMember(members, m.key, m.value)
  }

  ghost predicate AtMember(conf: Conf, t0: Tok, t: Tok, members: seq<Member>)
  {
    && WF(conf, t) && t.pend.NoHi? && t.below == t0.below
    && t.top == Level(EatWs, t.top.saved, Obj(members), None)
    && (t.top.saved == FieldStart || t.top.saved == FieldStartAfterSep)
  }

  // After a key and its colon.
  ghost predicate AtMemberValue(conf: Conf, t0: Tok, t: Tok, members: seq<Member>, key: seq<byte>)
  {
    && WF(conf, t) && t.pend.NoHi? && t.below == t0.below
    && t.top == Level(EatWs, FieldValue, Obj(members), Some(key))
  }

  lemma AddMember(conf: Conf, t0: Tok, t: Tok, members: seq<Member>, m: Member, c: byte)
    requires MembersDone(conf, t0, t, members, Some(m)) && Parting(c)
    ensures var all := WithMember(members, m.key, m.value);
      var t' := Popped(Closed(t, m.value, c)).(top := Level(ObjectSep, ObjectSep, Obj(all), None));
      && WF(conf, t') && t'.below == t0.below
      && Redo(conf, t, Null, c) == Redo(conf, t', m.value, c)
  {
    hide WF, Ends, WithMember, Redo, Micro;
    PopInto(conf, t, m.value, Null, c);
    var t1 := Popped(Closed(t, m.value, c));
    var t2 := t1.(top := Level(EatWs, ObjectSep, Obj(WithMember(members, m.key, m.value)), None));
    MemberAdded(conf, t1, members, m.key, m.value, c);
    ThenSep(conf, t1, m.value, c, t2);
  }

  lemma CommaMember(conf: Conf, t0: Tok, t: Tok, members: seq<Member>, m: Member)
    requires MembersDone(conf, t0, t, members, Some(m))
    ensures var n := Step(conf, t, COMMA);
      && n.More? && AtMember(conf, t0, n.tok, WithMember(members, m.key, m.value))
      && n.tok.top.saved == FieldStartAfterSep
  {
    hide WF, Ends, WithMember;
    AddMember(conf, t0, t, members, m, COMMA);
    var all := WithMember(members, m.key, m.value);
    var t' := Popped(Closed(t, m.value, COMMA)).(top := Level(ObjectSep, ObjectSep, Obj(all), None));
    MicroKeeps(conf, t', m.value, COMMA);
    assert Micro(conf, t', m.value, COMMA) == More(Park(t', FieldStartAfterSep));
  }

  lemma BraceMember(conf: Conf, t0: Tok, t: Tok, members: seq<Member>, last: Option<Member>)
    requires MembersDone(conf, t0, t, members, last)
    ensures var n := Step(conf, t, RBRACE);
      && n.More? && WF(conf, n.tok) && n.tok.pend.NoHi? && n.tok.below == t0.below
      && n.tok.top == DoneLevel(Obj(AllMembers(members, last)))
  {
    hide WF, Ends, Redo, Micro, WithMember;
    match last {
      case None =>
        Enter(conf, t, Null, RBRACE);
        Finishes(conf, Goto(t, FieldStart), Null, RBRACE);
      case Some(m) =>
        AddMember(conf, t0, t, members, m, RBRACE);
        var all := WithMember(members, m.key, m.value);
        var t' := Popped(Closed(t, m.value, RBRACE)).(top := Level(ObjectSep, ObjectSep, Obj(all), None));
        Finishes(conf, t', m.value, RBRACE);
    }
  }

  lemma OpenKey(conf: Conf, t0: Tok, t: Tok, members: seq<Member>, q: byte)
    requires AtMember(conf, t0, t, members) && (q == DQUOTE || q == SQUOTE)
    ensures var t' := t.(top := Level(Field, t.top.saved, Obj(members), None), quote := q, pb := []);
      Step(conf, t, q) == More(t') && InText(conf, t')
  {
    hide StackOk;
    Enter(conf, t, Null, q);
    var t1 := Goto(t, t.top.saved);
    var t' := t.(top := Level(Field, t.top.saved, Obj(members), None), quote := q, pb := []);
    assert Micro(conf, t1, Null, q) == MicroObject(conf, t1, Null, q) == More(t');
    OneMore(conf, t1, q, t');
  }

  lemma ColonStep(conf: Conf, t: Tok)
    requires WF(conf, t) && t.pend.NoHi? && t.top.state == EatWs && t.top.saved == FieldEnd
    ensures var t' := t.(top := t.top.(saved := FieldValue)); Step(conf, t, COLON) == More(t') && WF(conf, t')
  {
    hide StackOk;
    Enter(conf, t, Null, COLON);
    var t1 := Goto(t, FieldEnd);
    assert Micro(conf, t1, Null, COLON) == MicroObject(conf, t1, Null, COLON) == More(Park(t1, FieldValue));
    OneMore(conf, t1, COLON, Park(t1, FieldValue));
  }

  lemma PushMember(conf: Conf, t0: Tok, t: Tok, members: seq<Member>, key: seq<byte>, c: byte)
    requires AtMemberValue(conf, t0, t, members, key) && !IsSpace(c) && c != SLASH
    ensures if |t.below| >= conf.maxDepth - 1 then
              c != 0 ==> Step(conf, t, c).Stop? && Step(conf, t, c).err == DepthExceeded
            else Fresh(conf, Inner(t, ValueAdd)) && Redo(conf, t, Null, c) == Redo(conf, Inner(t, ValueAdd), Null, c)
  {
    hide WF;
    Enter(conf, t, Null, c);
    var t' := Goto(t, t.top.saved);
    MicroKeeps(conf, t', Null, c);
    assert Micro(conf, t', Null, c) == MicroObject(conf, t', Null, c);
  }

  lemma NextMember(conf: Conf, t0: Tok, t: Tok, members: seq<Member>, m: Member, n: Next)
    requires AtMemberValue(conf, t0, t, members, m.key) && Got(conf, Inner(t, ValueAdd), n, m.value)
    ensures MembersDone(conf, t0, n.tok, members, Some(m))
  {
    hide WF, Ends;
  }

  // ---- Values ------------------------------------------------------------------------------

  // A level for every container that holds something.
  predicate Fits(conf: Conf, t: Tok, depth: nat)
  {
    |t.below| + depth <= conf.maxDepth - 1
  }

  predicate TooDeep(n: Next)
  {
    n.Stop? && n.err == DepthExceeded
  }

  lemma TokFits(conf: Conf, t: Tok)
    requires WF(conf, t)
    ensures Fits(conf, t, 0)
  {
  }

  lemma OpenArray(conf: Conf, t: Tok)
    requires Fresh(conf, t)
    ensures var t' := t.(top := Level(EatWs, Array, Arr([]), None));
      Step(conf, t, LBRACKET) == More(t') && ItemsDone(conf, t, t', [])
  {
    hide StackOk;
    BeginValue(conf, t, LBRACKET);
    OneMore(conf, Goto(t, Start), LBRACKET, t.(top := Level(EatWs, Array, Arr([]), None)));
  }

  lemma OpenObject(conf: Conf, t: Tok)
    requires Fresh(conf, t)
    ensures var t' := t.(top := Level(EatWs, FieldStart, Obj([]), None));
      Step(conf, t, LBRACE) == More(t') && MembersDone(conf, t, t', [], None)
  {
    hide StackOk;
    BeginValue(conf, t, LBRACE);
    OneMore(conf, Goto(t, Start), LBRACE, t.(top := Level(EatWs, FieldStart, Obj([]), None)));
  }
}
