// The tokener of json-c as a machine over single bytes. Micro is one execution of the
// switch in json_tokener_parse_ex, Step repeats it until the byte is consumed, and Run
// feeds a whole text. The original works in tighter loops that look ahead and copy
// whole runs of bytes; JsonTokener proves that it computes Run.
//
// The one thing that is not byte by byte in the original is a \u escape of a high
// surrogate: it looks two bytes ahead for another \u. Here the surrogate stays pending
// (Pending) until the bytes after it decide.
module JsonMachine {
  import opened Bytes
  import opened Wrappers
  import opened Json
  import opened Int64Parse

  datatype State =
    | EatWs | Start | Finish | NullWord
    | CommentStart | Comment | CommentEol | CommentEnd
    | InString | StringEscape | EscapeUnicode
    | BoolWord | Number
    | Array | ArrayAfterSep | ArrayAdd | ArraySep
    | FieldStart | FieldStartAfterSep | Field | FieldEnd | FieldValue | ValueAdd | ObjectSep

  datatype Error =
    | Success | Continue | DepthExceeded | ParseEof | Unexpected
    | NullExpected | BooleanExpected | NumberExpected | ArraySepExpected
    | KeyNameExpected | KeySepExpected | ValueSepExpected
    | BadString | BadComment

  // parseDouble is what sscanf makes of a text with %lf, as the bits of a double.
  datatype Conf = Conf(maxDepth: nat, strict: bool, parseDouble: seq<byte> -> Option<nat>)

  // One entry of tok->stack.
  datatype Level = Level(state: State, saved: State, current: Json, field: Option<seq<byte>>)

  const FRESH: Level := Level(EatWs, Start, Null, None)

  // A high surrogate u whose escape was read; then also a backslash; then also the u.
  datatype Pending = NoHi | Hi(u: nat) | HiBackslash(u: nat) | HiU(u: nat)

  // The tokener: the stack below the top level, the top level, and the scratch fields.
  datatype Tok = Tok(below: seq<Level>, top: Level, pb: seq<byte>, stPos: nat, ucs: nat,
                     quote: byte, isDouble: bool, pend: Pending)

  function NewTok(): Tok
  {
    Tok([], FRESH, [], 0, 0, 0, false, NoHi)
  }

  // ---- Bytes ----------------------------------------------------------------------

  const BACKSLASH: byte := 92
  const DQUOTE: byte := 34
  const SQUOTE: byte := 39
  const SLASH: byte := 47
  const STAR: byte := 42
  const NEWLINE: byte := 10
  const COMMA: byte := 44
  const COLON: byte := 58
  const LBRACKET: byte := 91
  const RBRACKET: byte := 93
  const LBRACE: byte := 123
  const RBRACE: byte := 125
  const LETTER_B: byte := 98
  const LETTER_E: byte := 101
  const LETTER_F: byte := 102
  const LETTER_N: byte := 110
  const LETTER_R: byte := 114
  const LETTER_T: byte := 116
  const LETTER_U: byte := 117

  const NULL_WORD: seq<byte> := [110, 117, 108, 108]
  const TRUE_WORD: seq<byte> := [116, 114, 117, 101]
  const FALSE_WORD: seq<byte> := [102, 97, 108, 115, 101]

  // The UTF-8 form of U+FFFD.
  const REPLACEMENT: seq<byte> := [0xEF, 0xBF, 0xBD]

  // isspace in the C locale
  predicate IsSpace(c: byte)
  {
    c == 32 || 9 <= c <= 13
  }

  // "0123456789.+-eE"
  predicate IsNumberChar(c: byte)
  {
    IsDigit(c) || c == 46 || c == 43 || c == MINUS || c == LETTER_E || c == 69
  }

  lemma SpacesAre(c: byte)
    ensures IsSpace(c) <==> c as char in " \t\n\r" || c == 11 || c == 12
  {
    assert " \t\n\r"[0] == 32 as char && " \t\n\r"[1] == 9 as char;
    assert " \t\n\r"[2] == 10 as char && " \t\n\r"[3] == 13 as char;
  }

  lemma NumberCharsAre(c: byte)
    ensures IsNumberChar(c) <==> c as char in "0123456789.+-eE"
  {
    var s := "0123456789.+-eE";
    assert s[10] == 46 as char && s[11] == 43 as char && s[12] == 45 as char;
    assert s[13] == 101 as char && s[14] == 69 as char;
    assert IsDigit(c) ==> s[c - 48] == c as char;
  }

  predicate IsHex(c: byte)
  {
    IsDigit(c) || 97 <= c <= 102 || 65 <= c <= 70
  }

  function HexDigit(c: byte): (d: nat)
    requires IsHex(c)
    ensures d < 16
  {
    if c <= 57 then c as nat - 48 else c as nat % 8 + 9
  }

  function Lower(c: byte): byte
  {
    if 65 <= c <= 90 then c + 32 else c
  }

  // strncasecmp(word, s, n) == 0, for a word without capitals and no NUL in its first n.
  predicate SameWord(word: seq<byte>, s: seq<byte>, n: nat)
    requires n <= |word| && n <= |s|
  {
    forall k :: 0 <= k < n ==> Lower(s[k]) == word[k]
  }

  // What a C string function sees of s.
  function CString(s: seq<byte>): (r: seq<byte>)
    ensures 0 !in s ==> r == s
  {
    if s == [] || s[0] == 0 then [] else [s[0]] + CString(s[1..])
  }

  function DigitPrefix(s: seq<byte>): (d: seq<byte>)
    ensures AllDigits(d)
  {
    if s == [] || !IsDigit(s[0]) then [] else [s[0]] + DigitPrefix(s[1..])
  }

  // json_parse_int64 on a text of number characters: the longest decimal prefix,
  // clamped; None if there is none.
  function ParseInt(s: seq<byte>): Option<int>
  {
    var neg := s != [] && s[0] == MINUS;
    var d := DigitPrefix(if s != [] && (neg || s[0] == 43) then s[1..] else s);
    if d == [] then None
    else
      var v: int := Value(d);
      Some(Clamp(if neg then -v else v))
  }

  function Pow16(n: nat): nat
  {
    match n case 0 => 1 case 1 => 16 case 2 => 256 case 3 => 4096 case _ => 65536
  }

  // The first n of four hex digits have been added up.
  predicate DigitsOk(ucs: nat, n: nat)
    requires n <= 4
  {
    ucs < 0x10000 && ucs % Pow16(4 - n) == 0
  }

  function AddDigit(ucs: nat, n: nat, d: nat): (u: nat)
    requires n < 4 && DigitsOk(ucs, n) && d < 16
    ensures DigitsOk(u, n + 1)
  {
    ucs + d * Pow16(3 - n)
  }

  // IS_HIGH_SURROGATE and IS_LOW_SURROGATE, masks of bits 10 to 15 only
  predicate IsHigh(u: nat)
  {
    u / 1024 % 64 == 54
  }

  predicate IsLow(u: nat)
  {
    u / 1024 % 64 == 55
  }

  function DecodePair(hi: nat, lo: nat): nat
  {
    hi % 1024 * 1024 + lo % 1024 + 0x10000
  }

  function Utf8(u: nat): seq<byte>
    requires u < 0x110000
  {
    if u < 0x80 then [u as byte]
    else if u < 0x800 then [(0xC0 + u / 64) as byte, (0x80 + u % 64) as byte]
    else if u < 0x10000 then
      [(0xE0 + u / 4096) as byte, (0x80 + u / 64 % 64) as byte, (0x80 + u % 64) as byte]
    else
      [(0xF0 + u / 262144) as byte, (0x80 + u / 4096 % 64) as byte,
       (0x80 + u / 64 % 64) as byte, (0x80 + u % 64) as byte]
  }

  // ---- Well-formed states -----------------------------------------------------------

  // What state s needs of its level.
  predicate Needs(s: State, l: Level)
  {
    match s
    case Array | ArrayAfterSep | ArraySep | ArrayAdd => l.current.Arr?
    case FieldStart | FieldStartAfterSep | Field | ObjectSep => l.current.Obj?
    case FieldEnd | FieldValue | ValueAdd => l.current.Obj? && l.field.Some?
    case _ => true
  }

  // The states that wait behind white space.
  predicate Parked(s: State)
  {
    s in {Start, Finish, Array, ArrayAfterSep, ArraySep, FieldStart, FieldStartAfterSep,
          FieldEnd, FieldValue, ObjectSep}
  }

  // What the state of the top level needs, as one fact.
  predicate TopOk(t: Tok)
  {
    var l := t.top;
    var ok :=
      match l.state
      case EatWs | CommentStart | Comment | CommentEol | CommentEnd =>
        Parked(l.saved) && Needs(l.saved, l)
      case StringEscape | EscapeUnicode =>
        l.saved in {InString, Field} && Needs(l.saved, l) && t.quote in {DQUOTE, SQUOTE} &&
        (l.state == EscapeUnicode ==> t.stPos < 4 && DigitsOk(t.ucs, t.stPos))
      case InString => t.quote in {DQUOTE, SQUOTE} && l.saved != Finish
      case Field => Needs(Field, l) && t.quote in {DQUOTE, SQUOTE} && l.saved != Finish
      case Start => l.saved != Finish
      case FieldStart | FieldStartAfterSep => Needs(l.state, l) && l.saved != Finish
      case NullWord => t.stPos <= 4 && |t.pb| == t.stPos && l.saved != Finish
      case BoolWord =>
        |t.pb| == t.stPos && l.saved != Finish && ((t.stPos <= 4 && SameWord(TRUE_WORD, t.pb, t.stPos)) ||
         (t.stPos <= 5 && SameWord(FALSE_WORD, t.pb, t.stPos)))
      case s => Needs(s, l);
    ok
  }

  // A level below the top waits to add the value being read to its container.
  predicate BelowOk(l: Level)
  {
    l.state in {ArrayAdd, ValueAdd} && Needs(l.state, l)
  }

  ghost predicate StackOk(conf: Conf, below: seq<Level>)
  {
    |below| < conf.maxDepth && forall k :: 0 <= k < |below| ==> BelowOk(below[k])
  }

  predicate PendOk(t: Tok)
  {
    match t.pend
    case NoHi => true
    case Hi(_) | HiBackslash(_) => t.top.state == InString || t.top.state == Field
    case HiU(_) => t.top.state == EscapeUnicode
  }

  ghost predicate WF(conf: Conf, t: Tok)
  {
    StackOk(conf, t.below) && TopOk(t) && PendOk(t)
  }

  // ---- One execution of the switch --------------------------------------------------

  // Again: goto redo_char. More: the byte is consumed. Stop: goto out.
  datatype Next = Again(tok: Tok) | More(tok: Tok) | Stop(tok: Tok, err: Error, used: bool)

  function Goto(t: Tok, s: State): Tok
  {
    t.(top := t.top.(state := s))
  }

  // The state that reads white space and then enters s.
  function Park(t: Tok, s: State): Tok
  {
    t.(top := t.top.(state := EatWs, saved := s))
  }

  // A complete value at this level.
  function Complete(t: Tok, j: Json): Tok
  {
    t.(top := t.top.(state := EatWs, saved := Finish, current := j))
  }

  function Grow(t: Tok, s: seq<byte>): Tok
  {
    t.(pb := t.pb + s)
  }

  // Open a new level; the present one will go on in state s.
  function Push(t: Tok, s: State): Tok
  {
    t.(below := t.below + [t.top.(state := s)], top := FRESH)
  }

  function MicroStart(t: Tok, c: byte): Next
  {
    if c == LBRACE then More(t.(top := t.top.(state := EatWs, saved := FieldStart, current := Obj([]))))
    else if c == LBRACKET then More(t.(top := t.top.(state := EatWs, saved := Array, current := Arr([]))))
    else if Lower(c) == LETTER_N then Again(Goto(t, NullWord).(pb := [], stPos := 0))
    else if c == DQUOTE || c == SQUOTE then More(Goto(t, InString).(pb := [], quote := c))
    else if Lower(c) == LETTER_T || Lower(c) == LETTER_F then Again(Goto(t, BoolWord).(pb := [], stPos := 0))
    else if IsDigit(c) || c == MINUS then Again(Goto(t, Number).(pb := [], isDouble := false))
    else Stop(t, Unexpected, false)
  }

  function MicroComment(t: Tok, c: byte): Next
    requires t.top.state in {CommentStart, Comment, CommentEol, CommentEnd}
  {
    match t.top.state
    case CommentStart =>
      if c == STAR then More(Grow(Goto(t, Comment), [c]))
      else if c == SLASH then More(Grow(Goto(t, CommentEol), [c]))
      else Stop(t, BadComment, false)
    case Comment => More(Grow(if c == STAR then Goto(t, CommentEnd) else t, [c]))
    case CommentEol => More(if c == NEWLINE then Goto(t, EatWs) else Grow(t, [c]))
    case CommentEnd => More(Grow(Goto(t, if c == SLASH then EatWs else Comment), [c]))
  }

  function Escaped(c: byte): Option<byte>
  {
    if c in {DQUOTE, BACKSLASH, SLASH} then Some(c)
    else if c == LETTER_B then Some(8)
    else if c == LETTER_N then Some(10)
    else if c == LETTER_R then Some(13)
    else if c == LETTER_T then Some(9)
    else if c == LETTER_F then Some(12)
    else None
  }

  function MicroEscape(t: Tok, c: byte): Next
  {
    if Escaped(c).Some? then More(Grow(Goto(t, t.top.saved), [Escaped(c).value]))
    else if c == LETTER_U then More(Goto(t, EscapeUnicode).(ucs := 0, stPos := 0))
    else Stop(t, BadString, false)
  }

  // The four digits of an escape are complete, with value u.
  function Emit(t: Tok, u: nat): (t': Tok)
    requires u < 0x10000
  {
    var paired := t.pend.HiU? && IsLow(u);
    var lost := if t.pend.HiU? && !paired then REPLACEMENT else [];
    var v := if paired then DecodePair(t.pend.u, u) else u;
    var t1 := Goto(Grow(t, lost), t.top.saved).(ucs := v, stPos := 4);
    if v >= 0x800 && IsHigh(v) then t1.(pend := Hi(v))
    else Grow(t1, if v >= 0x800 && IsLow(v) then REPLACEMENT else Utf8(v)).(pend := NoHi)
  }

  // The pending surrogate stays alone.
  function Flush(t: Tok): Tok
  {
    Grow(t, REPLACEMENT).(pend := NoHi)
  }

  lemma EmitIgnores(t: Tok, u: nat, ucs: nat, stPos: nat)
    requires u < 0x10000
    ensures Emit(t.(ucs := ucs, stPos := stPos), u) == Emit(t, u)
  {
  }

  lemma EmitShape(t: Tok, u: nat)
    requires u < 0x10000
    ensures var e := Emit(t, u);
      && e.top == t.top.(state := t.top.saved) && e.below == t.below && e.quote == t.quote
      && e.stPos == 4 && (e.pend.NoHi? || (e.pend == Hi(e.ucs) && e.ucs > 0))
  {
  }

  function MicroUnicode(t: Tok, c: byte): Next
    requires t.stPos < 4 && DigitsOk(t.ucs, t.stPos)
  {
    if c == 0 then More(if t.pend.HiU? then Flush(t) else t)
    else if !IsHex(c) then Stop(t, BadString, false)
    else
      var u := AddDigit(t.ucs, t.stPos, HexDigit(c));
      if t.stPos < 3 then More(t.(ucs := u, stPos := t.stPos + 1))
      else More(Emit(t, u))
  }

  function MicroNull(t: Tok, c: byte): Next
    requires t.stPos <= 4 && |t.pb| == t.stPos
  {
    var t1 := Grow(t, [c]);
    if !SameWord(NULL_WORD, t1.pb, if t.stPos < 4 then t.stPos + 1 else 4) then Stop(t1, NullExpected, false)
    else if t.stPos == 4 then Again(Complete(t1, Null))
    else More(t1.(stPos := t.stPos + 1))
  }

  function MicroBool(t: Tok, c: byte): Next
    requires t.stPos <= 5 && |t.pb| == t.stPos
  {
    var t1 := Grow(t, [c]);
    if SameWord(TRUE_WORD, t1.pb, if t.stPos < 4 then t.stPos + 1 else 4) then
      if t.stPos == 4 then Again(Complete(t1, Bool(true))) else More(t1.(stPos := t.stPos + 1))
    else if SameWord(FALSE_WORD, t1.pb, if t.stPos < 5 then t.stPos + 1 else 5) then
      if t.stPos == 5 then Again(Complete(t1, Bool(false))) else More(t1.(stPos := t.stPos + 1))
    else Stop(t1, BooleanExpected, false)
  }

  function ParsedNumber(conf: Conf, t: Tok): Option<Json>
  {
    if t.isDouble then
      match conf.parseDouble(t.pb) case Some(d) => Some(Double(d)) case None => None
    else
      match ParseInt(t.pb) case Some(n) => Some(Int(n)) case None => None
  }

  function MicroNumber(conf: Conf, t: Tok, c: byte): Next
  {
    if IsNumberChar(c) then
      More(Grow(t, [c]).(isDouble := t.isDouble || c == 46 || c == LETTER_E || c == 69))
    else
      match ParsedNumber(conf, t)
      case Some(j) => Again(Complete(t, j))
      case None => Stop(t, NumberExpected, false)
  }

  function MicroArray(conf: Conf, t: Tok, obj: Json, c: byte): Next
    requires t.top.state in {Array, ArrayAfterSep, ArrayAdd, ArraySep} && Needs(t.top.state, t.top)
  {
    match t.top.state
    case ArrayAdd =>
      Again(t.(top := t.top.(state := EatWs, saved := ArraySep, current := Arr(t.top.current.items + [obj]))))
    case ArraySep =>
      if c == RBRACKET then More(Park(t, Finish))
      else if c == COMMA then More(Park(t, ArrayAfterSep))
      else Stop(t, ArraySepExpected, false)
    case _ =>
      if c == RBRACKET then
        if t.top.state == ArrayAfterSep && conf.strict then Stop(t, Unexpected, false) else More(Park(t, Finish))
      else if |t.below| >= conf.maxDepth - 1 then Stop(t, DepthExceeded, false)
      else Again(Push(t, ArrayAdd))
  }

  function MicroObject(conf: Conf, t: Tok, obj: Json, c: byte): Next
    requires t.top.state in {FieldStart, FieldStartAfterSep, FieldEnd, FieldValue, ValueAdd, ObjectSep}
    requires Needs(t.top.state, t.top)
  {
    match t.top.state
    case FieldEnd => if c == COLON then More(Park(t, FieldValue)) else Stop(t, KeySepExpected, false)
    case FieldValue =>
      if |t.below| >= conf.maxDepth - 1 then Stop(t, DepthExceeded, false) else Again(Push(t, ValueAdd))
    case ValueAdd =>
      Again(t.(top := Level(EatWs, ObjectSep,
                            Obj(WithMember(t.top.current.members, t.top.field.value, obj)), None)))
    case ObjectSep =>
      if c == RBRACE then More(Park(t, Finish))
      else if c == COMMA then More(Park(t, FieldStartAfterSep))
      else Stop(t, ValueSepExpected, false)
    case _ =>
      if c == RBRACE then
        if t.top.state == FieldStartAfterSep && conf.strict then Stop(t, Unexpected, false) else More(Park(t, Finish))
      else if c == DQUOTE || c == SQUOTE then More(Goto(t, Field).(quote := c, pb := []))
      else Stop(t, KeyNameExpected, false)
  }

  function MicroText(t: Tok, c: byte): Next
    requires t.top.state in {InString, Field}
  {
    if c == t.quote then
      if t.top.state == InString then More(Complete(t, Str(t.pb)))
      else More(t.(top := t.top.(state := EatWs, saved := FieldEnd, field := Some(CString(t.pb)))))
    else if c == BACKSLASH then
      More(t.(top := t.top.(state := StringEscape, saved := t.top.state)))
    else More(Grow(t, [c]))
  }

  function MicroFinish(t: Tok): Next
  {
    if t.below == [] then Stop(t, Success, false)
    else
      var n := |t.below| - 1;
      Again(t.(below := t.below[..n], top := t.below[n]))
  }

  function Micro(conf: Conf, t: Tok, obj: Json, c: byte): Next
    requires WF(conf, t)
  {
    match t.top.state
    case EatWs =>
      if IsSpace(c) then More(t)
      else if c == SLASH then More(Goto(t, CommentStart).(pb := [c]))
      else Again(Goto(t, t.top.saved))
    case Start => MicroStart(t, c)
    case Finish => MicroFinish(t)
    case NullWord => MicroNull(t, c)
    case CommentStart | Comment | CommentEol | CommentEnd => MicroComment(t, c)
    case InString | Field => MicroText(t, c)
    case StringEscape => MicroEscape(t, c)
    case EscapeUnicode => MicroUnicode(t, c)
    case BoolWord => MicroBool(t, c)
    case Number => MicroNumber(conf, t, c)
    case Array | ArrayAfterSep | ArrayAdd | ArraySep => MicroArray(conf, t, obj, c)
    case _ => MicroObject(conf, t, obj, c)
  }

  // ---- One byte --------------------------------------------------------------------

  // How many times the switch may still be repeated on one byte.
  function StateRank(s: State): nat
  {
    match s
    case Number | NullWord | BoolWord => 7
    case Finish => 5
    case ArrayAdd | ValueAdd => 4
    case ArraySep | ObjectSep | FieldStart | FieldStartAfterSep | FieldEnd => 2
    case Array | ArrayAfterSep | FieldValue => 11
    case Start => 9
    case _ => 0
  }

  function Rank(t: Tok): nat
  {
    if t.top.state == EatWs then StateRank(t.top.saved) + 1 else StateRank(t.top.state)
  }

  ghost predicate Fine(conf: Conf, n: Next)
  {
    (n.Stop? ==> n.err != Continue) && ((n.Stop? && n.err != Success) || WF(conf, n.tok))
  }

  // Only these states use the value just finished.
  predicate Adding(t: Tok)
  {
    t.top.state == ArrayAdd || t.top.state == ValueAdd
  }

  // A NUL byte ends the text wherever it stands.
  function AtNul(t: Tok, err: Error): Error
  {
    if t.top.state != Finish && t.top.saved != Finish then ParseEof else err
  }

  // A comment after a value that is complete at its level.
  predicate InTrailingComment(t: Tok)
  {
    (t.top.state == Comment || t.top.state == CommentEol || t.top.state == CommentEnd) && t.top.saved == Finish
  }

  // Success is reported at the top, and a NUL is taken for the end of a value only there
  // or in a comment.
  predicate EndsWell(t: Tok, c: byte, n: Next)
  {
    match n
    case Again(t') => !InTrailingComment(t')
    case More(t') => c == 0 && AtNul(t', Success) == Success ==> InTrailingComment(t)
    case Stop(t', err, _) => err == Success ==> t'.below == []
  }

  // Unless an error is found the state stays well formed, and an execution that is to be
  // repeated makes progress.
  ghost predicate Keeps(conf: Conf, t: Tok, c: byte, n: Next)
  {
    && Fine(conf, n)
    && (n.Stop? ==> !n.used) && (n.More? ==> !Adding(n.tok))
    && EndsWell(t, c, n)
    && (n.Again? ==> Rank(n.tok) < Rank(t) && n.tok.pend == NoHi && (t.top.state != Finish ==> !Adding(n.tok)))
  }

  lemma KeepsStart(conf: Conf, t: Tok, c: byte)
    requires WF(conf, t) && t.top.state == Start
    ensures Keeps(conf, t, c, MicroStart(t, c))
  {
    hide StackOk;
  }

  lemma KeepsComment(conf: Conf, t: Tok, c: byte)
    requires WF(conf, t) && t.top.state in {CommentStart, Comment, CommentEol, CommentEnd}
    ensures Keeps(conf, t, c, MicroComment(t, c))
  {
    hide StackOk;
  }

  lemma KeepsText(conf: Conf, t: Tok, c: byte)
    requires WF(conf, t) && t.pend == NoHi && t.top.state in {InString, Field}
    ensures Keeps(conf, t, c, MicroText(t, c))
  {
    hide StackOk;
  }

  lemma KeepsEscape(conf: Conf, t: Tok, c: byte)
    requires WF(conf, t) && t.top.state == StringEscape
    ensures Keeps(conf, t, c, MicroEscape(t, c))
  {
    hide StackOk;
  }

  lemma KeepsUnicode(conf: Conf, t: Tok, c: byte)
    requires WF(conf, t) && t.top.state == EscapeUnicode
    ensures Keeps(conf, t, c, MicroUnicode(t, c))
  {
    hide StackOk, Utf8;
  }

  lemma KeepsValue(conf: Conf, t: Tok, c: byte)
    requires WF(conf, t) && t.top.state in {NullWord, BoolWord, Number}
    ensures t.top.state == NullWord ==> Keeps(conf, t, c, MicroNull(t, c))
    ensures t.top.state == BoolWord ==> Keeps(conf, t, c, MicroBool(t, c))
    ensures t.top.state == Number ==> Keeps(conf, t, c, MicroNumber(conf, t, c))
  {
    hide StackOk, ParsedNumber;
    if t.top.state == BoolWord && t.pb != [] {
      var b := Grow(t, [c]).pb;
      assert Lower(b[0]) == Lower(t.pb[0]);
      assert TRUE_WORD[0] != FALSE_WORD[0];
    }
  }

  lemma KeepsArray(conf: Conf, t: Tok, obj: Json, c: byte)
    requires WF(conf, t) && t.top.state in {Array, ArrayAfterSep, ArrayAdd, ArraySep}
    ensures Keeps(conf, t, c, MicroArray(conf, t, obj, c))
  {
  }

  lemma KeepsObject(conf: Conf, t: Tok, obj: Json, c: byte)
    requires WF(conf, t)
    requires t.top.state in {FieldStart, FieldStartAfterSep, FieldEnd, FieldValue, ValueAdd, ObjectSep}
    ensures Keeps(conf, t, c, MicroObject(conf, t, obj, c))
  {
    hide WithMember;
  }

  lemma KeepsRest(conf: Conf, t: Tok, c: byte)
    requires WF(conf, t) && t.pend == NoHi
    ensures t.top.state == Finish ==> Keeps(conf, t, c, MicroFinish(t))
    ensures t.top.state == EatWs ==> WF(conf, Goto(t, CommentStart).(pb := [c]))
    ensures t.top.state == EatWs ==> Keeps(conf, t, c, Again(Goto(t, t.top.saved)))
  {
  }

  lemma MicroKeeps(conf: Conf, t: Tok, obj: Json, c: byte)
    requires WF(conf, t) && (t.pend.NoHi? || t.pend.HiU?)
    ensures Keeps(conf, t, c, Micro(conf, t, obj, c))
  {
    hide MicroStart, MicroComment, MicroText, MicroEscape, MicroUnicode, MicroNull, MicroBool, MicroNumber,
      MicroArray, MicroObject, MicroFinish;
    match t.top.state
    case EatWs | Finish => KeepsRest(conf, t, c);
    case Start => KeepsStart(conf, t, c);
    case CommentStart | Comment | CommentEol | CommentEnd => KeepsComment(conf, t, c);
    case InString | Field => KeepsText(conf, t, c);
    case StringEscape => KeepsEscape(conf, t, c);
    case EscapeUnicode => KeepsUnicode(conf, t, c);
    case NullWord | BoolWord | Number => KeepsValue(conf, t, c);
    case Array | ArrayAfterSep | ArrayAdd | ArraySep => KeepsArray(conf, t, obj, c);
    case _ => KeepsObject(conf, t, obj, c);
  }

  // The local variable obj after one execution: a finished value replaces it.
  function NextObj(t: Tok, obj: Json): Json
  {
    if t.top.state == Finish then t.top.current else obj
  }

  // The switch repeated until the byte is consumed or the loop is left.
  function Redo(conf: Conf, t: Tok, obj: Json, c: byte): (n: Next)
    requires WF(conf, t) && (t.pend.NoHi? || t.pend.HiU?)
    ensures !n.Again? && Fine(conf, n)
    decreases Rank(t)
  {
    MicroKeeps(conf, t, obj, c);
    match Micro(conf, t, obj, c)
    case Again(t') => Redo(conf, t', NextObj(t, obj), c)
    case n => n
  }

  function Settle(n: Next, c: byte): Next
  {
    if c != 0 then n
    else
      match n
      case More(t) => Stop(t, AtNul(t, Success), true)
      case Stop(t, err, used) => Stop(t, AtNul(t, err), used)
      case _ => n
  }

  function Plain(conf: Conf, t: Tok, c: byte): (n: Next)
    requires WF(conf, t) && (t.pend.NoHi? || t.pend.HiU?)
    ensures !n.Again? && Fine(conf, n)
    ensures n.More? ==> c != 0
  {
    Settle(Redo(conf, t, Null, c), c)
  }

  // What a pending surrogate may become.
  lemma PendingKeeps(conf: Conf, t: Tok)
    requires WF(conf, t) && (t.pend.Hi? || t.pend.HiBackslash?)
    ensures WF(conf, Flush(t)) && WF(conf, Escape(Flush(t)))
    ensures WF(conf, t.(pend := HiBackslash(t.pend.u)))
    ensures WF(conf, t.(pend := HiU(t.pend.u), top := t.top.(state := EscapeUnicode, saved := t.top.state),
                   ucs := 0, stPos := 0))
  {
    hide StackOk;
  }

  // The machine on one byte.
  function Step(conf: Conf, t: Tok, c: byte): (n: Next)
    requires WF(conf, t)
    ensures !n.Again? && Fine(conf, n)
    ensures n.More? ==> c != 0
  {
    match t.pend
    case NoHi => Plain(conf, t, c)
    case HiU(_) => Plain(conf, t, c)
    case Hi(u) =>
      PendingKeeps(conf, t);
      if c == BACKSLASH then More(t.(pend := HiBackslash(u))) else Plain(conf, Flush(t), c)
    case HiBackslash(u) =>
      PendingKeeps(conf, t);
      if c == LETTER_U then
        More(t.(pend := HiU(u), top := t.top.(state := EscapeUnicode, saved := t.top.state), ucs := 0, stPos := 0))
      else
        Plain(conf, Escape(Flush(t)), c)
  }

  // What a backslash does inside a string or a field name.
  function Escape(t: Tok): Tok
  {
    t.(top := t.top.(state := StringEscape, saved := t.top.state))
  }

  // ---- A whole text ------------------------------------------------------------------

  // What json_tokener_parse_ex leaves behind: the tokener, its error, the object it
  // returns and char_offset.
  datatype Result = Result(tok: Tok, err: Error, obj: Json, offset: nat)

  // A successful call hands its value over and resets every level, not the depth.
  function Out(t: Tok, err: Error, offset: nat): Result
  {
    if err == Success then
      Result(t.(below := seq(|t.below|, _ => FRESH), top := FRESH, pend := NoHi), Success, t.top.current, offset)
    else Result(t.(pend := NoHi), err, Null, offset)
  }

  // The end of a text does not wait for the rest of a surrogate pair. Just after a
  // high surrogate and \u it leaves the digit count at four.
  function EndPending(t: Tok): Tok
  {
    match t.pend
    case NoHi => t
    case Hi(_) => Flush(t)
    case HiBackslash(_) => Escape(Flush(t))
    case HiU(u) => if t.stPos == 0 then Flush(t).(ucs := u, stPos := 4) else Flush(t)
  }

  predicate AtEnd(t: Tok)
  {
    t.below == [] && t.top.state == EatWs && t.top.saved == Finish
  }

  function Run(conf: Conf, t: Tok, text: seq<byte>, i: nat): Result
    requires WF(conf, t) && i <= |text|
    decreases |text| - i
  {
    if i == |text| then
      var t' := EndPending(t);
      Out(t', if AtEnd(t') then Success else Continue, i)
    else
      match Step(conf, t, text[i])
      case Stop(t', err, used) => Out(t', err, if used then i + 1 else i)
      case More(t') => Run(conf, t', text, i + 1)
  }

  // ---- Parts of a text ----------------------------------------------------------------

  // The machine on a text that does not end it.
  function Feed(conf: Conf, t: Tok, text: seq<byte>): (n: Next)
    requires WF(conf, t)
    ensures !n.Again? && Fine(conf, n)
    decreases |text|
  {
    if text == [] then More(t)
    else
      match Step(conf, t, text[0])
      case More(t') => Feed(conf, t', text[1..])
      case n => n
  }

  lemma FeedOne(conf: Conf, t: Tok, d: seq<byte>)
    requires WF(conf, t) && d != [] && Step(conf, t, d[0]).More?
    ensures Feed(conf, t, d) == if |d| == 1 then Step(conf, t, d[0]) else Feed(conf, Step(conf, t, d[0]).tok, d[1..])
  {
  }

  lemma {:induction false} FeedConcat(conf: Conf, t: Tok, a: seq<byte>, b: seq<byte>)
    requires WF(conf, t)
    ensures Feed(conf, t, a + b) ==
      if Feed(conf, t, a).More? then Feed(conf, Feed(conf, t, a).tok, b) else Feed(conf, t, a)
    decreases |a|
  {
    if a == [] {
      assert a + b == b;
    } else {
      assert (a + b)[1..] == a[1..] + b;
      var n := Step(conf, t, a[0]);
      if n.More? {
        FeedConcat(conf, n.tok, a[1..], b);
      }
    }
  }

  // A result, seen from further left in the text.
  function Shift(r: Result, k: nat): Result
  {
    r.(offset := r.offset + k)
  }

  lemma {:induction false} RunFrom(conf: Conf, t: Tok, a: seq<byte>, b: seq<byte>, i: nat)
    requires WF(conf, t) && i <= |b|
    ensures Run(conf, t, a + b, |a| + i) == Shift(Run(conf, t, b, i), |a|)
    decreases |b| - i
  {
    hide WF, Step, EndPending;
    if i < |b| {
      assert (a + b)[|a| + i] == b[i];
      var n := Step(conf, t, b[i]);
      if n.More? {
        RunFrom(conf, n.tok, a, b, i + 1);
      }
    }
  }

  // Feeding a, then what follows.
  lemma {:induction false} RunFeed(conf: Conf, t: Tok, a: seq<byte>, b: seq<byte>, i: nat)
    requires WF(conf, t) && i <= |a| && Feed(conf, t, a[i..]).More?
    ensures Run(conf, t, a + b, i) == Run(conf, Feed(conf, t, a[i..]).tok, a + b, |a|)
    decreases |a| - i
  {
    if i < |a| {
      assert a[i..][1..] == a[i + 1..];
      RunFeed(conf, Step(conf, t, a[i]).tok, a, b, i + 1);
    }
  }
}
