// The same inside a word, a number or quoted text: which bytes go on with it, and which
// error any other gives, in any context.
module JsonBroken {
  import opened Bytes
  import opened Wrappers
  import opened Json
  import opened Int64Parse
  import opened JsonMachine
  import opened JsonBlanks
  import opened JsonEscapes
  import opened JsonReading
  import opened JsonGrammar
  import opened JsonErrors

  // The first letters of a word; characters that do not make a number; quoted text and a
  // backslash; the same with u and less than four digits.
  datatype Begun =
    | Letters(w: seq<byte>)
    | NoNumber(s: seq<byte>)
    | Slashed(q: byte, parts: seq<Part>)
    | Unfinished(q: byte, parts: seq<Part>, d: seq<byte>)

  // s, in letters of either case, begins the word w.
  predicate Starts(w: seq<byte>, s: seq<byte>)
  {
    |s| <= |w| && forall k :: 0 <= k < |s| ==> Lower(s[k]) == w[k]
  }

  predicate StartsOne(s: seq<byte>)
  {
    Starts(NULL_WORD, s) || Starts(TRUE_WORD, s) || Starts(FALSE_WORD, s)
  }

  // What a correct sscanf would not take for a number.
  predicate Rejected(conf: Conf, s: seq<byte>)
    requires s != []
  {
    if HasPoint(s) then conf.parseDouble(s).None? else s[0] == 45 && (|s| == 1 || !IsDigit(s[1]))
  }

  ghost predicate GoodBegun(conf: Conf, b: Begun)
  {
    match b
    case Letters(w) =>
      w != [] && StartsOne(w) && !IsWord(NULL_WORD, w) && !IsWord(TRUE_WORD, w) && !IsWord(FALSE_WORD, w)
    case NoNumber(s) =>
      && s != [] && (IsDigit(s[0]) || s[0] == 45) && Rejected(conf, s)
      && forall k :: 0 <= k < |s| ==> IsNumberChar(s[k])
    case Slashed(q, parts) => GoodText(parts, q)
    case Unfinished(q, parts, d) => GoodText(parts, q) && |d| < 4 && forall k :: 0 <= k < |d| ==> IsHex(d[k])
  }

  ghost function BegunText(conf: Conf, b: Begun): (s: seq<byte>)
    requires GoodBegun(conf, b)
  {
    match b
    case Letters(w) => w
    case NoNumber(s) => s
    case Slashed(q, parts) => PartsSmall(parts, q); [q] + PartsText(parts) + [92]
    case Unfinished(q, parts, d) => PartsSmall(parts, q); [q] + PartsText(parts) + [92] + ([117] + d)
  }

  predicate GoesOn(b: Begun, c: byte)
  {
    match b
    case Letters(w) => StartsOne(w + [c])
    case NoNumber(_) => IsNumberChar(c)
    case Slashed(_, _) => c == 117 || exists k :: 0 <= k < 8 && c == NAMES[k] as byte
    case Unfinished(_, _, _) => IsHex(c)
  }

  function Fault(b: Begun): Error
  {
    match b
    case Letters(w) => if w != [] && Lower(w[0]) == 110 then NullExpected else BooleanExpected
    case NoNumber(_) => NumberExpected
    case _ => BadString
  }

  // What becomes of c in t, where b was read.
  ghost predicate Decided(conf: Conf, b: Begun, c: byte, t: Tok)
  {
    && WF(conf, t) && t.pend.NoHi? && t.top.saved != Finish
    && var n := Redo(conf, t, Null, c);
       if GoesOn(b, c) then n.More?
       else if c == 0 && b.Unfinished? then n.More? && n.tok.top.saved != Finish && n.tok.top.state != Finish
       else n.Stop? && n.err == Fault(b) && !n.used && n.tok.top.state != Finish && n.tok.top.saved != Finish
  }

  // ---- Words -------------------------------------------------------------------------------

  lemma {:induction false} FeedNullPart(conf: Conf, t: Tok, w: seq<byte>, k: nat, m: nat)
    requires IsWord(NULL_WORD, w)
    requires WF(conf, t) && t.pend.NoHi? && t.top == NULL_READ && k <= m <= 4 && t.stPos == k && t.pb == w[..k]
    ensures var t' := t.(pb := w[..m], stPos := m); Feed(conf, t, w[k..m]) == More(t') && WF(conf, t')
    decreases m - k
  {
    hide WF, Redo;
    if k < m {
      NullStep(conf, t, w, k);
      assert w[k..m][1..] == w[k + 1..m];
      FeedNullPart(conf, t.(pb := w[..k + 1], stPos := k + 1), w, k + 1, m);
    } else {
      assert t.(pb := w[..m], stPos := m) == t;
    }
  }

  lemma {:induction false} FeedBoolPart(conf: Conf, t: Tok, b: bool, w: seq<byte>, k: nat, m: nat)
    requires IsWord(if b then TRUE_WORD else FALSE_WORD, w)
    requires WF(conf, t) && t.pend.NoHi? && t.top == BOOL_READ && k <= m <= |w| && t.stPos == k && t.pb == w[..k]
    ensures var t' := t.(pb := w[..m], stPos := m); Feed(conf, t, w[k..m]) == More(t') && WF(conf, t')
    decreases m - k
  {
    hide WF, Redo;
    if k < m {
      BoolStep(conf, t, b, w, k);
      assert w[k..m][1..] == w[k + 1..m];
      FeedBoolPart(conf, t.(pb := w[..k + 1], stPos := k + 1), b, w, k + 1, m);
    } else {
      assert t.(pb := w[..m], stPos := m) == t;
    }
  }

  // A word that begins with s.
  lemma Completed(w: seq<byte>, s: seq<byte>) returns (full: seq<byte>)
    requires Starts(w, s) && (w == NULL_WORD || w == TRUE_WORD || w == FALSE_WORD)
    ensures IsWord(w, full) && full[..|s|] == s
  {
    full := s + w[|s|..];
  }

  lemma NextOfNull(conf: Conf, t: Tok, w: seq<byte>, c: byte)
    requires WF(conf, t) && t.pend.NoHi? && t.top == NULL_READ && t.pb == w && t.stPos == |w| && 0 < |w| < 4
    requires Starts(NULL_WORD, w)
    ensures Decided(conf, Letters(w), c, t)
  {
    hide StackOk;
    assert Micro(conf, t, Null, c) == MicroNull(t, c);
    var s := w + [c];
    assert forall k :: 0 <= k < |w| ==> s[k] == w[k];
    assert s[0] == w[0] && Lower(s[0]) == NULL_WORD[0];
    assert SameWord(NULL_WORD, s, |s|) <==> Starts(NULL_WORD, s);
    assert StartsOne(s) <==> Starts(NULL_WORD, s);
  }

  lemma NextOfBool(conf: Conf, t: Tok, w: seq<byte>, c: byte)
    requires WF(conf, t) && t.pend.NoHi? && t.top == BOOL_READ && t.pb == w && t.stPos == |w| > 0
    requires (Starts(TRUE_WORD, w) && |w| < 4) || (Starts(FALSE_WORD, w) && |w| < 5)
    ensures Decided(conf, Letters(w), c, t)
  {
    hide StackOk;
    assert Micro(conf, t, Null, c) == MicroBool(t, c);
    var s := w + [c];
    assert forall k :: 0 <= k < |w| ==> s[k] == w[k];
    assert s[0] == w[0] && Lower(s[0]) in {TRUE_WORD[0], FALSE_WORD[0]};
    assert |s| <= 4 ==> (SameWord(TRUE_WORD, s, |s|) <==> Starts(TRUE_WORD, s));
    assert SameWord(FALSE_WORD, s, |s|) <==> Starts(FALSE_WORD, s);
    assert StartsOne(s) <==> Starts(TRUE_WORD, s) || Starts(FALSE_WORD, s);
  }

  lemma ReadLetters(conf: Conf, u: Tok, w: seq<byte>, c: byte)
    requires Fresh(conf, u) && GoodBegun(conf, Letters(w))
    ensures var n := Feed(conf, u, w); n.More? && Decided(conf, Letters(w), c, n.tok)
  {
    hide WF, Redo, Feed, Decided;
    BeginWord(conf, u, w[0]);
    if Starts(NULL_WORD, w) {
      var t := Goto(u, NullWord).(pb := [], stPos := 0);
      var full := Completed(NULL_WORD, w);
      Restart(conf, u, t, w);
      FeedNullPart(conf, t, full, 0, |w|);
      assert full[0..|w|] == w;
      NextOfNull(conf, t.(pb := w, stPos := |w|), w, c);
    } else {
      var b := Starts(TRUE_WORD, w);
      var t := Goto(u, BoolWord).(pb := [], stPos := 0);
      var full := Completed(if b then TRUE_WORD else FALSE_WORD, w);
      Restart(conf, u, t, w);
      FeedBoolPart(conf, t, b, full, 0, |w|);
      assert full[0..|w|] == w;
      NextOfBool(conf, t.(pb := w, stPos := |w|), w, c);
    }
  }

  // ---- Numbers -------------------------------------------------------------------------------

  lemma ReadNoNumber(conf: Conf, u: Tok, s: seq<byte>, c: byte)
    requires Fresh(conf, u) && GoodBegun(conf, NoNumber(s))
    ensures var n := Feed(conf, u, s); n.More? && Decided(conf, NoNumber(s), c, n.tok)
  {
    hide WF, Redo, Feed, Decided, HasPoint, ParsedNumber;
    BeginWord(conf, u, s[0]);
    DigitNoLetter(s[0]);
    var t := Goto(u, Number).(pb := [], isDouble := false);
    Restart(conf, u, t, s);
    FeedNumber(conf, t, s);
    assert t.pb + s == s;
    NextOfNumber(conf, t.(pb := s, isDouble := HasPoint(s)), s, c);
  }

  lemma NextOfNumber(conf: Conf, t: Tok, s: seq<byte>, c: byte)
    requires WF(conf, t) && t.pend.NoHi? && t.top == NUMBER_READ && t.pb == s != [] && t.isDouble == HasPoint(s)
    requires Rejected(conf, s)
    ensures Decided(conf, NoNumber(s), c, t)
  {
    hide StackOk, HasPoint;
    assert !HasPoint(s) ==> s[0] == 45;
    assert Micro(conf, t, Null, c) == MicroNumber(conf, t, c);
  }

  // ---- Escapes -------------------------------------------------------------------------------

  // Quoted text and a backslash.
  lemma ReadSlash(conf: Conf, u: Tok, q: byte, parts: seq<Part>) returns (t: Tok)
    requires Fresh(conf, u) && GoodText(parts, q)
    ensures Bounded(parts) && Feed(conf, u, [q] + PartsText(parts) + [92]) == More(t)
    ensures WF(conf, t) && t.pend.NoHi? && t.top.state == StringEscape && t.top.saved == InString
  {
    PartsSmall(parts, q);
    hide StackOk, Redo, Feed, PartsText, PartsBytes, GoodPart;
    BeginValue(conf, u, q);
    var t1 := u.(top := FRESH.(state := InString), pb := [], quote := q);
    assert Redo(conf, u, Null, q) == More(t1) by { OneMore(conf, Goto(u, Start), q, t1); }
    FeedTwo(conf, u, q, q);
    FeedParts(conf, t1, parts);
    var t2 := Feed(conf, t1, PartsText(parts)).tok;
    StillText(conf, t1, t2, PartsBytes(parts));
    PlainText(conf, t2, BACKSLASH);
    FeedTwo(conf, t2, BACKSLASH, BACKSLASH);
    FeedConcat(conf, u, [q], PartsText(parts));
    FeedConcat(conf, u, [q] + PartsText(parts), [92]);
    t := Escape(t2);
  }

  lemma NamesOnly(c: byte)
    ensures Escaped(c).Some? <==> exists k :: 0 <= k < 8 && c == NAMES[k] as byte
  {
    if Escaped(c).Some? {
      assert c == NAMES[0] as byte || c == NAMES[1] as byte || c == NAMES[2] as byte || c == NAMES[3] as byte
        || c == NAMES[4] as byte || c == NAMES[5] as byte || c == NAMES[6] as byte || c == NAMES[7] as byte;
    }
    if exists k :: 0 <= k < 8 && c == NAMES[k] as byte {
      var k :| 0 <= k < 8 && c == NAMES[k] as byte;
      NamedEscape(k);
    }
  }

  lemma NextOfSlash(conf: Conf, t: Tok, q: byte, parts: seq<Part>, c: byte)
    requires WF(conf, t) && t.pend.NoHi? && t.top.state == StringEscape && t.top.saved == InString
    ensures Decided(conf, Slashed(q, parts), c, t)
  {
    hide StackOk, Escaped;
    NamesOnly(c);
    assert Micro(conf, t, Null, c) == MicroEscape(t, c);
  }

  lemma LetterU(conf: Conf, t: Tok)
    requires WF(conf, t) && t.pend.NoHi? && t.top.state == StringEscape
    ensures var t' := Goto(t, EscapeUnicode).(ucs := 0, stPos := 0); Step(conf, t, 117) == More(t') && WF(conf, t')
  {
    hide StackOk;
    OneMore(conf, t, 117, Goto(t, EscapeUnicode).(ucs := 0, stPos := 0));
  }

  lemma {:induction false} FeedSomeDigits(conf: Conf, t: Tok, d: seq<byte>)
    requires WF(conf, t) && t.pend.NoHi? && t.top.state == EscapeUnicode && t.stPos + |d| < 4
    requires forall k :: 0 <= k < |d| ==> IsHex(d[k])
    ensures var n := Feed(conf, t, d); n.More? && WF(conf, n.tok) && n.tok.pend.NoHi? && n.tok.top == t.top
    decreases |d|
  {
    hide WF, Step, HexDigit, IsHex, AddDigit;
    if d != [] {
      DigitStep(conf, t, d[0]);
      FeedSomeDigits(conf, Step(conf, t, d[0]).tok, d[1..]);
    }
  }

  lemma NextOfDigits(conf: Conf, t: Tok, b: Begun, c: byte)
    requires WF(conf, t) && t.pend.NoHi? && t.top.state == EscapeUnicode && t.top.saved == InString && b.Unfinished?
    ensures Decided(conf, b, c, t)
  {
    hide StackOk, HexDigit, AddDigit;
    assert Micro(conf, t, Null, c) == MicroUnicode(t, c);
    if IsHex(c) && t.stPos == 3 {
      EmitShape(t, AddDigit(t.ucs, 3, HexDigit(c)));
    }
  }

  lemma ReadQuoted(conf: Conf, u: Tok, b: Begun, c: byte)
    requires Fresh(conf, u) && GoodBegun(conf, b) && (b.Slashed? || b.Unfinished?)
    ensures var n := Feed(conf, u, BegunText(conf, b)); n.More? && Decided(conf, b, c, n.tok)
  {
    PartsSmall(b.parts, b.q);
    hide WF, Feed, Step, Decided, GoodText, PartsText, Bounded, IsHex;
    var open := [b.q] + PartsText(b.parts) + [92];
    var t := ReadSlash(conf, u, b.q, b.parts);
    match b {
      case Slashed(q, parts) => NextOfSlash(conf, t, q, parts, c);
      case Unfinished(_, _, d) =>
        LetterU(conf, t);
        FeedTwo(conf, t, 117, 117);
        var t1 := Step(conf, t, 117).tok;
        FeedSomeDigits(conf, t1, d);
        FeedConcat(conf, t, [117], d);
        FeedConcat(conf, u, open, [117] + d);
        NextOfDigits(conf, Feed(conf, t1, d).tok, b, c);
    }
  }

  // ---- In any context -------------------------------------------------------------------------

  lemma ReadBegun(conf: Conf, u: Tok, b: Begun, c: byte)
    requires Fresh(conf, u) && GoodBegun(conf, b)
    ensures var n := Feed(conf, u, BegunText(conf, b)); n.More? && Decided(conf, b, c, n.tok)
  {
    hide Fresh, Feed, Decided, StartsOne, Rejected, GoodText;
    match b {
      case Letters(w) => ReadLetters(conf, u, w, c);
      case NoNumber(s) => ReadNoNumber(conf, u, s, c);
      case _ => ReadQuoted(conf, u, b, c);
    }
  }

  lemma BegunBegins(conf: Conf, b: Begun)
    requires GoodBegun(conf, b)
    ensures var s := BegunText(conf, b); s != [] && !IsSpace(s[0]) && s[0] != SLASH && s[0] != RBRACKET
  {
    hide PartsText, HasPoint;
    match b {
      case Letters(w) =>
        assert Lower(w[0]) == NULL_WORD[0] || Lower(w[0]) == TRUE_WORD[0] || Lower(w[0]) == FALSE_WORD[0];
      case _ =>
    }
  }

  lemma DecidedStep(conf: Conf, b: Begun, c: byte, t: Tok)
    requires Decided(conf, b, c, t)
    ensures WF(conf, t)
    ensures var n := Step(conf, t, c);
      if GoesOn(b, c) && c != 0 then n.More?
      else n.Stop? && n.err == (if c == 0 then ParseEof else Fault(b)) && n.used == (c == 0 && b.Unfinished?)
  {
    hide WF, Redo, GoesOn;
    ZeroStops(b);
  }

  lemma ZeroStops(b: Begun)
    ensures !GoesOn(b, 0)
  {
    match b {
      case Letters(w) =>
        var s := w + [0];
        assert s[|w|] == 0 && forall k :: 0 <= k < 4 ==> NULL_WORD[k] != 0 && TRUE_WORD[k] != 0;
        assert forall k :: 0 <= k < 5 ==> FALSE_WORD[k] != 0;
      case _ =>
    }
  }

  // Inside a value that can still become one exactly the bytes that go on with it are
  // consumed. Any other one is an error at its place, and so is the end of the text, which
  // is taken for consumed among the digits of an escape.
  lemma BrokenValue(conf: Conf, before: seq<byte>, path: seq<Frame>, b: Begun, c: byte, rest: seq<byte>)
    requires conf.maxDepth > 0 && Blank(before) && GoodPath(conf, 0, path) && GoodBegun(conf, b)
    ensures var text := before + (PathText(conf, 0, path) + BegunText(conf, b));
      if GoesOn(b, c) then Feed(conf, NewTok(), text + [c]).More?
      else
        var r := Run(conf, NewTok(), text + ([c] + rest), 0);
        && r.err == (if c == 0 then ParseEof else Fault(b)) && r.obj == Null
        && r.offset == |text| + if c == 0 && b.Unfinished? then 1 else 0
  {
    hide WF, Step, Feed, Redo, GoodBegun, BegunText, PathText, GoodPath, Blank, IsSpace, Decided, GoesOn;
    NewFresh(conf);
    var u, s, e := NewTok(), PathText(conf, 0, path), BegunText(conf, b);
    var text := before + (s + e);
    FeedBlank(conf, u, before);
    var u1 := Feed(conf, u, before).tok;
    var t1, u' := ReadPath(conf, u1, path);
    BegunBegins(conf, b);
    Restart(conf, t1, u', e);
    ReadBegun(conf, u', b, c);
    FeedConcat(conf, u1, s, e);
    FeedConcat(conf, u, before, s + e);
    var t := Feed(conf, u', e).tok;
    DecidedStep(conf, b, c, t);
    ZeroStops(b);
    if GoesOn(b, c) {
      FeedConcat(conf, u, text, [c]);
      FeedTwo(conf, t, c, c);
    } else {
      assert text[0..] == text;
      RunFeed(conf, u, text, [c] + rest, 0);
      assert (text + ([c] + rest))[|text|] == c;
    }
  }
}
