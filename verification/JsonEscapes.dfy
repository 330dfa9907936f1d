// The \u escapes of the tokener: what they append, which surrogate pairs come out right,
// and why breaking a text within a pair loses it.
module JsonEscapes {
  import opened Bytes
  import opened Json
  import opened JsonMachine
  import JsonChunks

  predicate FourHex(d: seq<byte>)
  {
    |d| == 4 && forall k :: 0 <= k < 4 ==> IsHex(d[k])
  }

  function HexValue(d: seq<byte>): (u: nat)
    requires FourHex(d)
    ensures u < 0x10000
  {
    4096 * HexDigit(d[0]) + 256 * HexDigit(d[1]) + 16 * HexDigit(d[2]) + HexDigit(d[3])
  }

  // The tokener just after the letter u of an escape.
  predicate InEscape(t: Tok)
  {
    t.top.state == EscapeUnicode && t.ucs == 0 && t.stPos == 0
  }

  lemma DigitStep(conf: Conf, t: Tok, c: byte)
    requires WF(conf, t) && t.top.state == EscapeUnicode && IsHex(c)
    ensures t.stPos < 4 && DigitsOk(t.ucs, t.stPos)
    ensures Step(conf, t, c) ==
      var u := AddDigit(t.ucs, t.stPos, HexDigit(c));
      More(if t.stPos < 3 then t.(ucs := u, stPos := t.stPos + 1) else Emit(t, u))
    ensures WF(conf, Step(conf, t, c).tok)
  {
    assert t.pend.NoHi? || t.pend.HiU?;
    assert Micro(conf, t, Null, c) == MicroUnicode(t, c);
  }

  // The number after the remaining digits d of an escape, n digits having given ucs.
  function Accumulated(ucs: nat, n: nat, d: seq<byte>): (u: nat)
    requires n + |d| <= 4 && DigitsOk(ucs, n) && forall k :: 0 <= k < |d| ==> IsHex(d[k])
    ensures DigitsOk(u, n + |d|)
    decreases |d|
  {
    if d == [] then ucs else Accumulated(AddDigit(ucs, n, HexDigit(d[0])), n + 1, d[1..])
  }

  lemma {:induction false} FeedDigits(conf: Conf, t: Tok, d: seq<byte>)
    requires WF(conf, t) && t.top.state == EscapeUnicode && d != [] && forall k :: 0 <= k < |d| ==> IsHex(d[k])
    requires t.stPos + |d| == 4 && DigitsOk(t.ucs, t.stPos)
    ensures Feed(conf, t, d) == More(Emit(t, Accumulated(t.ucs, t.stPos, d)))
    decreases |d|
  {
    hide WF, Step, Feed, Emit, TopOk, HexDigit, IsHex, AddDigit, DigitsOk;
    DigitStep(conf, t, d[0]);
    FeedOne(conf, t, d);
    var u := AddDigit(t.ucs, t.stPos, HexDigit(d[0]));
    if t.stPos < 3 {
      FeedDigits(conf, t.(ucs := u, stPos := t.stPos + 1), d[1..]);
      SmallDigits(Accumulated(u, t.stPos + 1, d[1..]));
      EmitIgnores(t, Accumulated(u, t.stPos + 1, d[1..]), u, t.stPos + 1);
    }
  }

  lemma SmallDigits(u: nat)
    ensures DigitsOk(u, 4) ==> u < 0x10000
  {
  }

  // Four hex digits act as their number.
  lemma FourDigits(conf: Conf, t: Tok, d: seq<byte>)
    requires WF(conf, t) && InEscape(t) && FourHex(d)
    ensures Feed(conf, t, d) == More(Emit(t, HexValue(d)))
  {
    hide WF, Feed, Emit, IsHex, HexDigit, AddDigit;
    FeedDigits(conf, t, d);
    FourAccumulated(d);
  }

  lemma FourAccumulated(d: seq<byte>)
    requires FourHex(d)
    ensures Accumulated(0, 0, d) == HexValue(d)
  {
    hide HexDigit, IsHex;
    var u1 := AddDigit(0, 0, HexDigit(d[0]));
    var u2 := AddDigit(u1, 1, HexDigit(d[1]));
    var u3 := AddDigit(u2, 2, HexDigit(d[2]));
    assert Accumulated(0, 0, d) == Accumulated(u1, 1, d[1..]);
    assert Accumulated(u1, 1, d[1..]) == Accumulated(u2, 2, d[1..][1..]);
    assert Accumulated(u2, 2, d[1..][1..]) == Accumulated(u3, 3, d[1..][1..][1..]);
    assert Accumulated(u3, 3, d[1..][1..][1..]) == AddDigit(u3, 3, HexDigit(d[3]));
  }

  // ---- Digits as they are spelled -------------------------------------------------------

  // json_hex_chars
  const HEX_CHARS := "0123456789abcdefABCDEF"

  // c is a hex digit of the value n, small or capital.
  predicate Spells(c: byte, n: nat)
  {
    n < 16 && (c as char == HEX_CHARS[n] || (n >= 10 && c as char == HEX_CHARS[n + 6]))
  }

  lemma HexSpelled(c: byte, n: nat)
    requires Spells(c, n)
    ensures IsHex(c) && HexDigit(c) == n
  {
  }

  // The hex digits are those bytes and no others.
  lemma HexExactly(c: byte)
    ensures IsHex(c) <==> exists n :: Spells(c, n)
    ensures forall n :: Spells(c, n) ==> IsHex(c) && HexDigit(c) == n
  {
    if IsHex(c) {
      assert Spells(c, HexDigit(c));
    }
    forall n | Spells(c, n)
      ensures IsHex(c) && HexDigit(c) == n
    {
      HexSpelled(c, n);
    }
  }

  // Four hex digits, each in either case, for the number u.
  predicate Spelling(d: seq<byte>, u: nat)
  {
    && |d| == 4 && u < 0x10000
    && Spells(d[0], u / 4096) && Spells(d[1], u / 256 % 16) && Spells(d[2], u / 16 % 16) && Spells(d[3], u % 16)
  }

  lemma SpellingValue(d: seq<byte>, u: nat)
    requires Spelling(d, u)
    ensures FourHex(d) && HexValue(d) == u < 0x10000
  {
    hide Spells, IsHex, HexDigit;
    HexSpelled(d[0], u / 4096);
    HexSpelled(d[1], u / 256 % 16);
    HexSpelled(d[2], u / 16 % 16);
    HexSpelled(d[3], u % 16);
    Nibbles(u);
  }

  lemma Nibbles(u: nat)
    ensures u == 4096 * (u / 4096) + 256 * (u / 256 % 16) + 16 * (u / 16 % 16) + u % 16
  {
    var a, b := u / 16, u / 256;
    assert b == a / 16 && u / 4096 == b / 16;
  }

  // The digits of an escape act as the number they spell.
  lemma EscapeReads(conf: Conf, t: Tok, d: seq<byte>, u: nat)
    requires WF(conf, t) && InEscape(t) && Spelling(d, u)
    ensures Feed(conf, t, d) == More(Emit(t, u))
  {
    hide WF, Feed, Emit, Spelling, FourHex, HexValue;
    SpellingValue(d, u);
    FourDigits(conf, t, d);
  }

  // ---- Surrogate pairs --------------------------------------------------------------

  const BACKSLASH_U: seq<byte> := [BACKSLASH, LETTER_U]

  // The tokener in the second escape of a pair.
  function PairOpened(t: Tok): Tok
    requires t.pend.Hi?
  {
    t.(pend := HiU(t.pend.u), ucs := 0, stPos := 0, top := t.top.(state := EscapeUnicode, saved := t.top.state))
  }

  lemma OpenPair(conf: Conf, t: Tok)
    requires WF(conf, t) && t.pend.Hi?
    ensures WF(conf, PairOpened(t)) && Feed(conf, t, BACKSLASH_U) == More(PairOpened(t))
  {
    hide Plain;
    PendingKeeps(conf, t);
    var t1 := t.(pend := HiBackslash(t.pend.u));
    assert Step(conf, t, BACKSLASH) == More(t1);
    assert Step(conf, t1, LETTER_U) == More(PairOpened(t));
    hide WF, Step;
    FeedOne(conf, t, BACKSLASH_U);
    FeedOne(conf, t1, BACKSLASH_U[1..]);
  }

  // An escape that follows a pending high surrogate completes the pair.
  lemma SecondEscape(conf: Conf, t: Tok, d: seq<byte>)
    requires WF(conf, t) && t.pend.Hi? && FourHex(d)
    ensures Feed(conf, t, BACKSLASH_U + d) == More(Emit(PairOpened(t), HexValue(d)))
  {
    hide WF, Feed, Emit, HexValue;
    OpenPair(conf, t);
    FeedConcat(conf, t, BACKSLASH_U, d);
    FourDigits(conf, PairOpened(t), d);
  }

  // A pair comes out as the UTF-8 form of its code point exactly if the low sixteen bits
  // of the code point do not look like a surrogate themselves: the tests for surrogates
  // mask off everything above them.
  lemma PairDecoded(conf: Conf, t: Tok, d: seq<byte>)
    requires WF(conf, t) && t.pend.Hi? && FourHex(d) && IsLow(HexValue(d))
    ensures var n, v := Feed(conf, t, BACKSLASH_U + d), DecodePair(t.pend.u, HexValue(d));
      && n.More? && 0x10000 <= v < 0x110000
      && (n.tok.pb == t.pb + Utf8(v) && n.tok.pend.NoHi? <==> !(0xD800 <= v % 0x10000 < 0xE000))
  {
    SecondEscape(conf, t, d);
    var v := DecodePair(t.pend.u, HexValue(d));
    assert IsHigh(v) <==> 0xD800 <= v % 0x10000 < 0xDC00 by { MaskedHigh(v); }
    assert IsLow(v) <==> 0xDC00 <= v % 0x10000 < 0xE000 by { MaskedHigh(v); }
    assert t.pb + [] == t.pb;
    assert |t.pb + Utf8(v)| == |t.pb| + 4 && |t.pb + REPLACEMENT| == |t.pb| + 3;
  }

  lemma MaskedHigh(v: nat)
    ensures IsHigh(v) <==> 0xD800 <= v % 0x10000 < 0xDC00
    ensures IsLow(v) <==> 0xDC00 <= v % 0x10000 < 0xE000
  {
    assert v / 1024 % 64 == v % 0x10000 / 1024;
  }

  // The same pair with a break between its halves always ends as two replacements.
  lemma SplitPair(conf: Conf, t: Tok, d: seq<byte>)
    requires WF(conf, t) && t.pend.Hi? && FourHex(d) && IsLow(HexValue(d))
    ensures WF(conf, EndPending(t))
    ensures var n := Feed(conf, EndPending(t), BACKSLASH_U + d);
      n.More? && n.tok.pb == t.pb + REPLACEMENT + REPLACEMENT && n.tok.pend.NoHi?
  {
    hide WF, Step, Feed, FromUtf8;
    var t0, u := EndPending(t), HexValue(d);
    EndKeeps(conf, t);
    OpenEscape(conf, t0);
    var t2 := Opened(t0);
    FeedConcat(conf, t0, BACKSLASH_U, d);
    FourDigits(conf, t2, d);
    MaskedHigh(u);
    assert t0.pb + [] + REPLACEMENT == t.pb + REPLACEMENT + REPLACEMENT;
  }

  lemma EndKeeps(conf: Conf, t: Tok)
    requires WF(conf, t) && t.pend.Hi?
    ensures WF(conf, EndPending(t)) && WF(conf, Opened(EndPending(t)))
    ensures EndPending(t) == Flush(t) && (Flush(t).top.state in {InString, Field})
  {
    hide StackOk;
  }

  // The tokener after a backslash and u in a string or field name.
  function Opened(t: Tok): Tok
  {
    t.(top := t.top.(state := EscapeUnicode, saved := t.top.state), ucs := 0, stPos := 0)
  }

  lemma OpenEscape(conf: Conf, t: Tok)
    requires WF(conf, t) && t.pend.NoHi? && t.top.state in {InString, Field}
    ensures Feed(conf, t, BACKSLASH_U) == More(Opened(t))
  {
    hide StackOk;
    var t1 := Escape(t);
    assert Micro(conf, t, Null, BACKSLASH) == MicroText(t, BACKSLASH);
    assert Step(conf, t, BACKSLASH) == More(t1);
    assert Micro(conf, t1, Null, LETTER_U) == MicroEscape(t1, LETTER_U);
    assert Step(conf, t1, LETTER_U) == More(Opened(t));
    FeedOne(conf, t, BACKSLASH_U);
    FeedOne(conf, t1, BACKSLASH_U[1..]);
  }

  // ---- UTF-8 ------------------------------------------------------------------------

  // The code point of a UTF-8 sequence (section 3 of RFC 3629).
  function FromUtf8(s: seq<byte>): nat
  {
    if |s| == 1 then s[0] as nat
    else if |s| == 2 then s[0] as nat % 32 * 64 + s[1] as nat % 64
    else if |s| == 3 then s[0] as nat % 16 * 4096 + s[1] as nat % 64 * 64 + s[2] as nat % 64
    else if |s| == 4 then
      s[0] as nat % 8 * 262144 + s[1] as nat % 64 * 4096 + s[2] as nat % 64 * 64 + s[3] as nat % 64
    else 0
  }

  // The lead byte gives the length, the others are continuation bytes, no value is
  // written longer than needed, and reading the sequence gives the value back.
  lemma Utf8Reads(u: nat)
    requires u < 0x110000
    ensures FromUtf8(Utf8(u)) == u && WellFormed(Utf8(u))
    ensures |Utf8(u)| == if u < 0x80 then 1 else if u < 0x800 then 2 else if u < 0x10000 then 3 else 4
  {
    hide WellFormed;
    Utf8Shape(u);
    if u < 0x80 {
    } else if u < 0x800 {
      Lead(u / 64, 0xC0, 32);
      Tail(u);
    } else if u < 0x10000 {
      Lead(u / 4096, 0xE0, 16);
      Tail(u / 64);
      Tail(u);
      assert u / 64 / 64 == u / 4096;
    } else {
      Lead(u / 262144, 0xF0, 8);
      Tail(u / 4096);
      Tail(u / 64);
      Tail(u);
      Quotients(u);
    }
  }

  predicate WellFormed(s: seq<byte>)
  {
    && s != [] && (forall k :: 1 <= k < |s| ==> 0x80 <= s[k] < 0xC0)
    && (|s| == 1 <==> s[0] < 0x80) && (|s| == 2 <==> 0xC0 <= s[0] < 0xE0)
    && (|s| == 3 <==> 0xE0 <= s[0] < 0xF0) && (|s| == 4 <==> 0xF0 <= s[0] < 0xF8)
  }

  lemma Utf8Shape(u: nat)
    requires u < 0x110000
    ensures WellFormed(Utf8(u))
  {
  }

  lemma Lead(q: nat, base: nat, m: nat)
    requires (m == 32 || m == 16 || m == 8) && base == 256 - 2 * m && q < m
    ensures (base + q) % m == q
  {
  }

  lemma Tail(q: nat)
    ensures (0x80 + q % 64) % 64 == q % 64
  {
  }

  lemma Quotients(u: nat)
    requires u < 0x200000
    ensures u == u / 262144 * 262144 + u / 4096 % 64 * 4096 + u / 64 % 64 * 64 + u % 64
    ensures u / 262144 < 8
  {
    var a, b := u / 64, u / 4096;
    assert b == a / 64 && u / 262144 == b / 64;
  }

  // ---- Texts without high surrogates ---------------------------------------------------

  // The escape of a high surrogate starts with u, D and one of 8, 9, A, B.
  predicate HighEscapeAt(text: seq<byte>, k: nat)
    requires k + 2 < |text|
  {
    text[k] == LETTER_U && (text[k + 1] == 68 || text[k + 1] == 100) &&
    (text[k + 2] == 56 || text[k + 2] == 57 || Lower(text[k + 2]) == 97 || Lower(text[k + 2]) == 98)
  }

  ghost predicate NoHighEscape(text: seq<byte>)
  {
    forall k {:trigger HighEscapeAt(text, k)} :: 0 <= k && k + 2 < |text| ==> !HighEscapeAt(text, k)
  }

  // After the text done: if an escape is open, its digits are the last bytes of done.
  ghost predicate Tracks(t: Tok, done: seq<byte>)
  {
    t.pend.NoHi? &&
    (t.top.state == EscapeUnicode && t.stPos < 4 ==>
       var n, p := |done|, t.stPos;
       && p < n && done[n - p - 1] == LETTER_U
       && (p >= 1 ==> IsHex(done[n - p]) && t.ucs / 4096 == HexDigit(done[n - p]))
       && (p >= 2 ==> IsHex(done[n - p + 1]) && t.ucs / 256 % 16 == HexDigit(done[n - p + 1])))
  }

  // Outside an escape only the letter u opens one.
  ghost predicate OpensOnU(n: Next, c: byte)
  {
    && n.tok.pend.NoHi?
    && (n.tok.top.state == EscapeUnicode ==> n.More? && c == LETTER_U && n.tok.stPos == 0 && n.tok.ucs == 0)
  }

  lemma TextOpens(conf: Conf, t: Tok, c: byte)
    requires WF(conf, t) && t.pend.NoHi?
    ensures t.top.state in {InString, Field} ==> OpensOnU(MicroText(t, c), c)
    ensures t.top.state == StringEscape ==> OpensOnU(MicroEscape(t, c), c)
  {
    hide StackOk, CString;
  }

  lemma ValueOpens(conf: Conf, t: Tok, c: byte)
    requires WF(conf, t) && t.pend.NoHi?
    ensures t.top.state == Start ==> OpensOnU(MicroStart(t, c), c)
    ensures t.top.state == NullWord ==> OpensOnU(MicroNull(t, c), c)
    ensures t.top.state == BoolWord ==> OpensOnU(MicroBool(t, c), c)
    ensures t.top.state == Number ==> OpensOnU(MicroNumber(conf, t, c), c)
  {
    hide StackOk, SameWord, ParsedNumber;
  }

  lemma ContainerOpens(conf: Conf, t: Tok, obj: Json, c: byte)
    requires WF(conf, t) && t.pend.NoHi?
    ensures t.top.state in {Array, ArrayAfterSep, ArrayAdd, ArraySep} ==> OpensOnU(MicroArray(conf, t, obj, c), c)
    ensures t.top.state in {FieldStart, FieldStartAfterSep, FieldEnd, FieldValue, ValueAdd, ObjectSep} ==>
      OpensOnU(MicroObject(conf, t, obj, c), c)
  {
    hide StackOk, WithMember;
  }

  lemma MicroTracks(conf: Conf, t: Tok, obj: Json, c: byte)
    requires WF(conf, t) && t.pend.NoHi? && t.top.state != EscapeUnicode
    ensures OpensOnU(Micro(conf, t, obj, c), c)
  {
    hide MicroStart, MicroText, MicroEscape, MicroNull, MicroBool, MicroNumber, MicroArray, MicroObject;
    match t.top.state
    case InString | Field | StringEscape => TextOpens(conf, t, c);
    case Start | NullWord | BoolWord | Number => ValueOpens(conf, t, c);
    case EatWs | Finish | CommentStart | Comment | CommentEol | CommentEnd =>
    case _ => ContainerOpens(conf, t, obj, c);
  }

  lemma {:induction false} RedoTracks(conf: Conf, t: Tok, obj: Json, c: byte)
    requires WF(conf, t) && t.pend.NoHi? && t.top.state != EscapeUnicode
    ensures OpensOnU(Redo(conf, t, obj, c), c)
    decreases Rank(t)
  {
    hide WF, Micro;
    MicroKeeps(conf, t, obj, c);
    MicroTracks(conf, t, obj, c);
    var n := Micro(conf, t, obj, c);
    if n.Again? {
      RedoTracks(conf, n.tok, NextObj(t, obj), c);
    }
  }

  lemma DigitAt(a: nat, w: nat, d: nat)
    requires (w == 4096 || w == 256 || w == 16 || w == 1) && d < 16
    ensures (16 * w * a + d * w) / w == 16 * a + d && (16 * w * a + d * w) / (16 * w) == a
  {
  }

  lemma TopDigits(ucs: nat, p: nat, d: nat)
    requires p < 4 && DigitsOk(ucs, p) && d < 16
    ensures var u := AddDigit(ucs, p, d);
      && u / 4096 == (if p == 0 then d else ucs / 4096)
      && (p >= 1 ==> u / 256 == if p == 1 then ucs / 256 + d else ucs / 256)
      && (p == 1 ==> ucs / 256 % 16 == 0)
  {
    var w := Pow16(3 - p);
    assert Pow16(4 - p) == 16 * w;
    var a := ucs / (16 * w);
    assert ucs == 16 * w * a;
    DigitAt(a, w, d);
    match p
    case 0 => assert a == 0;
    case 1 => assert ucs / 256 == 16 * a;
    case 2 => Shorter(AddDigit(ucs, p, d), ucs);
    case _ => Shorter(AddDigit(ucs, p, d), ucs); assert AddDigit(ucs, p, d) / 16 / 16 == ucs / 16 / 16;
  }

  lemma Shorter(u: nat, v: nat)
    ensures u / 16 / 16 == u / 256 && u / 256 / 16 == u / 4096
    ensures v / 16 / 16 == v / 256 && v / 256 / 16 == v / 4096
  {
  }

  lemma StepTracks(conf: Conf, t: Tok, done: seq<byte>, c: byte)
    requires WF(conf, t) && Tracks(t, done) && NoHighEscape(done + [c]) && Step(conf, t, c).More?
    ensures Tracks(Step(conf, t, c).tok, done + [c])
  {
    hide WF, TopOk, Redo;
    if t.top.state != EscapeUnicode {
      RedoTracks(conf, t, Null, c);
    } else {
      EscapeTracks(conf, t, done, c);
    }
  }

  lemma EscapeTracks(conf: Conf, t: Tok, done: seq<byte>, c: byte)
    requires WF(conf, t) && t.top.state == EscapeUnicode
    requires Tracks(t, done) && NoHighEscape(done + [c]) && Step(conf, t, c).More?
    ensures Tracks(Step(conf, t, c).tok, done + [c])
  {
    hide StackOk, TopOk, Step, AddDigit, IsHigh, HighEscapeAt, HexDigit;
    HexIfMore(conf, t, c);
    DigitStep(conf, t, c);
    TopDigits(t.ucs, t.stPos, HexDigit(c));
    if t.stPos == 3 {
      var u, n := AddDigit(t.ucs, 3, HexDigit(c)), |done|;
      assert !HighEscapeAt(done + [c], n - 4);
      NotHigh(done + [c], n - 4, u);
    }
  }

  lemma HexDigitLetters(c: byte)
    requires IsHex(c)
    ensures HexDigit(c) == 13 <==> c == 68 || c == 100
    ensures 8 <= HexDigit(c) < 12 <==> c == 56 || c == 57 || Lower(c) == 97 || Lower(c) == 98
  {
  }

  lemma NotHighNibbles(u: nat, a: nat, b: nat)
    requires u < 0x10000 && a == u / 256 && b == a / 16
    ensures IsHigh(u) <==> b == 13 && 8 <= a % 16 < 12
  {
    assert u / 1024 == a / 4;
    assert a == 16 * b + a % 16;
  }

  lemma NotHigh(text: seq<byte>, k: nat, u: nat)
    requires k + 2 < |text| && text[k] == LETTER_U && IsHex(text[k + 1]) && IsHex(text[k + 2])
    requires u / 4096 == HexDigit(text[k + 1]) && u / 256 % 16 == HexDigit(text[k + 2]) && u < 0x10000
    ensures IsHigh(u) <==> HighEscapeAt(text, k)
  {
    var a, b := u / 256, u / 4096;
    assert b == a / 16 && u / 1024 == a / 4;
    HexDigitLetters(text[k + 1]);
    HexDigitLetters(text[k + 2]);
    NotHighNibbles(u, a, b);
  }

  lemma HexIfMore(conf: Conf, t: Tok, c: byte)
    requires WF(conf, t) && t.top.state == EscapeUnicode && Step(conf, t, c).More?
    ensures IsHex(c)
  {
    assert Micro(conf, t, Null, c) == MicroUnicode(t, c);
  }

  // A text with no escape of a high surrogate may be broken anywhere.
  lemma {:induction false} NeverSplit(conf: Conf, t: Tok, done: seq<byte>, text: seq<byte>)
    requires WF(conf, t) && Tracks(t, done) && NoHighEscape(done + text)
    ensures var n := Feed(conf, t, text); n.More? ==> Tracks(n.tok, done + text)
    decreases |text|
  {
    hide Step;
    if text == [] {
      assert done + text == done;
    } else {
      assert done + text == done + [text[0]] + text[1..];
      PartNoHigh(done + [text[0]], text[1..]);
      if Step(conf, t, text[0]).More? {
        StepTracks(conf, t, done, text[0]);
        NeverSplit(conf, Step(conf, t, text[0]).tok, done + [text[0]], text[1..]);
      }
    }
  }

  lemma PartNoHigh(a: seq<byte>, b: seq<byte>)
    requires NoHighEscape(a + b)
    ensures NoHighEscape(a)
  {
    forall k: nat | k + 2 < |a|
      ensures !HighEscapeAt(a, k)
    {
      assert !HighEscapeAt(a + b, k);
    }
  }

  lemma {:induction false} UnsplitPieces(conf: Conf, t: Tok, done: seq<byte>, pieces: seq<seq<byte>>)
    requires WF(conf, t) && Tracks(t, done) && NoHighEscape(done + JsonChunks.Concat(pieces))
    ensures JsonChunks.Unsplit(conf, t, pieces)
    decreases |pieces|
  {
    if |pieces| > 1 {
      var rest := JsonChunks.Concat(pieces[1..]);
      assert done + JsonChunks.Concat(pieces) == done + pieces[0] + rest;
      PartNoHigh(done + pieces[0], rest);
      NeverSplit(conf, t, done, pieces[0]);
      var n := Feed(conf, t, pieces[0]);
      if n.More? {
        UnsplitPieces(conf, n.tok, done + pieces[0], pieces[1..]);
      }
    }
  }

  // Feeding a new tokener a text without escapes of high surrogates in any pieces, each
  // but the last reported as Continue, is feeding it the whole text.
  lemma AnyPieces(conf: Conf, pieces: seq<seq<byte>>)
    requires conf.maxDepth > 0 && pieces != [] && NoHighEscape(JsonChunks.Concat(pieces))
    requires JsonChunks.EarlierContinue(conf, NewTok(), pieces)
    ensures JsonChunks.Unsplit(conf, NewTok(), pieces)
    ensures JsonChunks.RunPieces(conf, NewTok(), pieces) == Run(conf, NewTok(), JsonChunks.Concat(pieces), 0)
  {
    assert [] + JsonChunks.Concat(pieces) == JsonChunks.Concat(pieces);
    UnsplitPieces(conf, NewTok(), [], pieces);
    JsonChunks.AllPieces(conf, NewTok(), pieces);
  }
}
