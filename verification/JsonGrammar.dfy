// JSON texts: a syntax with every white space, escape, letter case and number a text may
// have, what it means, and that the tokener reads every text as what it means, or finds it
// too deep.
module JsonGrammar {
  import opened Bytes
  import opened Wrappers
  import opened Json
  import opened Int64Parse
  import opened JsonMachine
  import opened JsonBlanks
  import opened JsonEscapes
  import opened JsonReading

  // ---- Syntax ---------------------------------------------------------------------------

  // A piece of quoted text: a byte, a named escape, an escape of four digits, or a pair of
  // them for a code point from 0x10000 on.
  datatype Part = Byte(c: byte) | Named(k: nat) | Hex(d: seq<byte>, u: nat) | Pair(d: seq<byte>, d': seq<byte>, v: nat)

  // Values with the blanks around them. A container without elements has blanks, too.
  datatype Syntax =
    | Word(w: seq<byte>, j: Json)
    | Integer(s: seq<byte>)
    | Real(s: seq<byte>, bits: nat)
    | Text(q: byte, parts: seq<Part>)
    | List(pad: seq<byte>, elems: seq<Elem>, close: seq<byte>)
    | Fields(pad: seq<byte>, fields: seq<Entry>, close: seq<byte>)

  datatype Elem = Elem(before: seq<byte>, value: Syntax, after: seq<byte>)

  // A quoted name, its colon, and the blanks around that.
  datatype Key = Key(q: byte, parts: seq<Part>, mid: seq<byte>, gap: seq<byte>)

  datatype Entry = Entry(before: seq<byte>, key: Key, value: Syntax, after: seq<byte>)

  // The letters of the named escapes, and the bytes they stand for.
  const NAMES := "\"\\/bfnrt"
  const NAMED: seq<byte> := [34, 92, 47, 8, 12, 10, 13, 9]

  predicate GoodPart(p: Part, q: byte)
  {
    match p
    case Byte(c) => c != q && c != 92 && c != 0
    case Named(k) => k < 8
    case Hex(d, u) => Spelling(d, u) && !(0xD800 <= u < 0xE000)
    case Pair(d, d', v) =>
      && 0x10000 <= v < 0x110000 && !(0xD800 <= v % 0x10000 < 0xE000)
      && Spelling(d, 0xD800 + (v - 0x10000) / 0x400) && Spelling(d', 0xDC00 + (v - 0x10000) % 0x400)
  }

  ghost predicate GoodText(parts: seq<Part>, q: byte)
  {
    (q == 34 || q == 39) && forall i :: 0 <= i < |parts| ==> GoodPart(parts[i], q)
  }

  predicate InBounds(p: Part)
  {
    (p.Named? ==> p.k < 8) && (p.Hex? ==> p.u < 0x10000) && (p.Pair? ==> p.v < 0x110000)
  }

  predicate Bounded(parts: seq<Part>)
  {
    forall i :: 0 <= i < |parts| ==> InBounds(parts[i])
  }

  function PartText(p: Part): seq<byte>
    requires InBounds(p)
  {
    match p
    case Byte(c) => [c]
    case Named(k) => [92, NAMES[k] as byte]
    case Hex(d, _) => [92, 117] + d
    case Pair(d, d', _) => [92, 117] + d + [92, 117] + d'
  }

  function PartBytes(p: Part): seq<byte>
    requires InBounds(p)
  {
    match p
    case Byte(c) => [c]
    case Named(k) => [NAMED[k]]
    case Hex(_, u) => Utf8(u)
    case Pair(_, _, v) => Utf8(v)
  }

  function PartsText(parts: seq<Part>): seq<byte>
    requires Bounded(parts)
  {
    if parts == [] then [] else PartText(parts[0]) + PartsText(parts[1..])
  }

  function PartsBytes(parts: seq<Part>): seq<byte>
    requires Bounded(parts)
  {
    if parts == [] then [] else PartBytes(parts[0]) + PartsBytes(parts[1..])
  }

  // ---- Quoted text ---------------------------------------------------------------------

  lemma NamedEscape(k: nat)
    requires k < 8
    ensures (NAMES[k] as byte) != 0 && (NAMES[k] as byte) != 117 && Escaped(NAMES[k] as byte) == Some(NAMED[k])
  {
  }

  lemma FeedNamed(conf: Conf, t: Tok, k: nat)
    requires InText(conf, t) && k < 8
    ensures var n := Feed(conf, t, [92, NAMES[k] as byte]); n.More? && Added(conf, t, n.tok, [NAMED[k]])
  {
    hide Step, Feed, WF;
    var c := NAMES[k] as byte;
    NamedEscape(k);
    QuoteNot(conf, t);
    PlainText(conf, t, BACKSLASH);
    EscapeStep(conf, Escape(t), c);
    FeedTwo(conf, t, BACKSLASH, c);
  }

  lemma QuoteNot(conf: Conf, t: Tok)
    requires InText(conf, t)
    ensures WF(conf, t) && t.quote != BACKSLASH && t.quote != 0 && t.pend.NoHi?
    ensures t.top.state == InString || t.top.state == Field
  {
  }

  lemma FeedHex(conf: Conf, t: Tok, d: seq<byte>, u: nat)
    requires InText(conf, t) && Spelling(d, u) && !(0xD800 <= u < 0xE000)
    ensures var n := Feed(conf, t, [92, 117] + d); n.More? && Added(conf, t, n.tok, Utf8(u))
  {
    hide Step, Feed, WF, Spelling, Utf8, Emit;
    SpellingSmall(d, u);
    QuoteNot(conf, t);
    OpenEscape(conf, t);
    FeedConcat(conf, t, BACKSLASH_U, d);
    OpenedIn(t);
    EscapeReads(conf, Opened(t), d, u);
    EmitAdds(conf, t, d, u);
  }

  lemma OpenedIn(t: Tok)
    ensures InEscape(Opened(t))
  {
  }

  lemma SpellingSmall(d: seq<byte>, u: nat)
    requires Spelling(d, u)
    ensures u < 0x10000
  {
  }

  lemma EmitAdds(conf: Conf, t: Tok, d: seq<byte>, u: nat)
    requires InText(conf, t) && u < 0x10000 && !(0xD800 <= u < 0xE000)
    requires Feed(conf, t, [92, 117] + d) == More(Emit(Opened(t), u))
    ensures Added(conf, t, Emit(Opened(t), u), Utf8(u))
  {
    hide WF, Feed, Utf8;
    MaskedHigh(u);
    assert t.pb + [] == t.pb;
  }

  lemma FeedPair(conf: Conf, t: Tok, d: seq<byte>, d': seq<byte>, v: nat)
    requires InText(conf, t) && GoodPart(Pair(d, d', v), t.quote)
    ensures var n := Feed(conf, t, [92, 117] + d + [92, 117] + d'); n.More? && Added(conf, t, n.tok, Utf8(v))
  {
    hide Step, Feed, WF, Spelling, Utf8, Emit, FourHex, HexValue;
    var hi, lo := 0xD800 + (v - 0x10000) / 0x400, 0xDC00 + (v - 0x10000) % 0x400;
    QuoteNot(conf, t);
    PairNumbers(v);
    OpenEscape(conf, t);
    FeedConcat(conf, t, BACKSLASH_U, d);
    OpenedIn(t);
    EscapeReads(conf, Opened(t), d, hi);
    var t1 := Emit(Opened(t), hi);
    HighEmitted(t, hi);
    assert Feed(conf, t, BACKSLASH_U + d) == More(t1);
    SpellingValue(d', lo);
    SecondEscape(conf, t1, d');
    FeedConcat(conf, t, BACKSLASH_U + d, BACKSLASH_U + d');
    assert [92, 117] + d + [92, 117] + d' == BACKSLASH_U + d + (BACKSLASH_U + d');
    PairAdds(conf, t, t1, v);
  }

  lemma PairNumbers(v: nat)
    requires 0x10000 <= v < 0x110000
    ensures var hi, lo := 0xD800 + (v - 0x10000) / 0x400, 0xDC00 + (v - 0x10000) % 0x400;
      IsHigh(hi) && IsLow(lo) && 0x800 <= hi < 0x10000 && lo < 0x10000 && DecodePair(hi, lo) == v
  {
    var w := v - 0x10000;
    assert (0xD800 + w / 0x400) / 1024 == 54 && (0xDC00 + w % 0x400) / 1024 == 55;
    assert (0xD800 + w / 0x400) % 1024 == w / 0x400 && (0xDC00 + w % 0x400) % 1024 == w % 0x400;
  }

  lemma HighEmitted(t: Tok, hi: nat)
    requires t.pend.NoHi? && IsHigh(hi) && 0x800 <= hi < 0x10000
    ensures Emit(Opened(t), hi) ==
      t.(top := t.top.(saved := t.top.state), ucs := hi, stPos := 4, pend := Hi(hi))
  {
    assert t.pb + [] == t.pb;
  }

  lemma PairAdds(conf: Conf, t: Tok, t1: Tok, v: nat)
    requires InText(conf, t) && 0x10000 <= v < 0x110000 && !(0xD800 <= v % 0x10000 < 0xE000)
    requires var hi := 0xD800 + (v - 0x10000) / 0x400;
      t1 == t.(top := t.top.(saved := t.top.state), ucs := hi, stPos := 4, pend := Hi(hi))
    requires WF(conf, Emit(PairOpened(t1), 0xDC00 + (v - 0x10000) % 0x400))
    ensures Added(conf, t, Emit(PairOpened(t1), 0xDC00 + (v - 0x10000) % 0x400), Utf8(v))
  {
    hide WF, Utf8;
    PairNumbers(v);
    MaskedHigh(v);
    assert t.pb + [] == t.pb;
  }

  lemma FeedPart(conf: Conf, t: Tok, p: Part)
    requires InText(conf, t) && GoodPart(p, t.quote)
    ensures InBounds(p)
    ensures var n := Feed(conf, t, PartText(p)); n.More? && Added(conf, t, n.tok, PartBytes(p))
  {
    hide Step, Feed, WF, InText, Added, Spelling, Utf8;
    match p {
      case Byte(c) =>
        QuoteNot(conf, t);
        PlainText(conf, t, c);
        FeedTwo(conf, t, c, c);
      case Named(k) => FeedNamed(conf, t, k);
      case Hex(d, u) =>
        SpellingSmall(d, u);
        FeedHex(conf, t, d, u);
      case Pair(d, d', v) => FeedPair(conf, t, d, d', v);
    }
  }

  lemma PartsSmall(parts: seq<Part>, q: byte)
    requires GoodText(parts, q)
    ensures Bounded(parts)
  {
    hide Spells;
    forall i | 0 <= i < |parts|
      ensures InBounds(parts[i])
    {
      assert GoodPart(parts[i], q);
    }
  }

  lemma {:induction false} FeedParts(conf: Conf, t: Tok, parts: seq<Part>)
    requires InText(conf, t) && GoodText(parts, t.quote)
    ensures Bounded(parts)
    ensures var n := Feed(conf, t, PartsText(parts)); n.More? && Added(conf, t, n.tok, PartsBytes(parts))
    decreases |parts|
  {
    PartsSmall(parts, t.quote);
    hide WF, Step, InText, GoodPart, PartText, PartBytes;
    QuoteNot(conf, t);
    if parts == [] {
      assert t.pb + [] == t.pb;
    } else {
      var p, r := parts[0], parts[1..];
      FeedPart(conf, t, p);
      var t1 := Feed(conf, t, PartText(p)).tok;
      StillText(conf, t, t1, PartBytes(p));
      FeedConcat(conf, t, PartText(p), PartsText(r));
      FeedParts(conf, t1, r);
      AddedTrans(conf, t, t1, Feed(conf, t1, PartsText(r)).tok, PartBytes(p), PartsBytes(r));
    }
  }

  lemma FeedQuoted(conf: Conf, t: Tok, q: byte, parts: seq<Part>)
    requires Fresh(conf, t) && GoodText(parts, q)
    ensures Bounded(parts)
    ensures Got(conf, t, Feed(conf, t, [q] + PartsText(parts) + [q]), Str(PartsBytes(parts)))
  {
    PartsSmall(parts, q);
    hide StackOk, Redo, Feed, PartsText, PartsBytes, GoodPart, ParsedNumber;
    BeginValue(conf, t, q);
    var t1 := t.(top := FRESH.(state := InString), pb := [], quote := q);
    assert Redo(conf, t, Null, q) == More(t1) by { OneMore(conf, Goto(t, Start), q, t1); }
    FeedTwo(conf, t, q, q);
    FeedParts(conf, t1, parts);
    var t2 := Feed(conf, t1, PartsText(parts)).tok;
    StillText(conf, t1, t2, PartsBytes(parts));
    QuoteEnds(conf, t2);
    FeedTwo(conf, t2, q, q);
    FeedConcat(conf, t, [q], PartsText(parts));
    FeedConcat(conf, t, [q] + PartsText(parts), [q]);
    assert t1.pb + PartsBytes(parts) == PartsBytes(parts);
  }

  // ---- Texts and what they mean ----------------------------------------------------------

  // A value, blanks and all.
  ghost predicate Good(conf: Conf, s: Syntax)
    decreases s, 1
  {
    match s
    case Word(w, j) =>
      || (j == Null && IsWord(NULL_WORD, w)) || (j == Bool(true) && IsWord(TRUE_WORD, w))
      || (j == Bool(false) && IsWord(FALSE_WORD, w))
    case Integer(n) => IsInteger(n)
    case Real(r, bits) =>
      && r != [] && (IsDigit(r[0]) || r[0] == 45) && HasPoint(r) && conf.parseDouble(r) == Some(bits)
      && forall k :: 0 <= k < |r| ==> IsNumberChar(r[k])
    case Text(q, parts) => GoodText(parts, q)
    case List(pad, elems, close) => Blank(pad) && Blank(close) && GoodElems(conf, elems)
    case Fields(pad, fields, close) => Blank(pad) && Blank(close) && GoodFields(conf, fields)
  }

  ghost predicate GoodElems(conf: Conf, elems: seq<Elem>)
    decreases elems, 0
  {
    forall i :: 0 <= i < |elems| ==>
      Blank(elems[i].before) && Blank(elems[i].after) && Good(conf, elems[i].value)
  }

  ghost predicate GoodFields(conf: Conf, fields: seq<Entry>)
    decreases fields, 0
  {
    forall i :: 0 <= i < |fields| ==>
      Blank(fields[i].before) && GoodKey(fields[i].key) && Good(conf, fields[i].value) && Blank(fields[i].after)
  }

  ghost predicate GoodKey(k: Key)
  {
    GoodText(k.parts, k.q) && Blank(k.mid) && Blank(k.gap)
  }

  // A string of digits with an optional minus, as an int64.
  function IntegerOf(s: seq<byte>): int
    requires IsInteger(s)
  {
    var v: int := if s[0] == 45 then 0 - Value(s[1..]) else Value(s);
    Clamp(v)
  }

  ghost function Written(conf: Conf, s: Syntax): seq<byte>
    requires Good(conf, s)
    decreases s, 1
  {
    match s
    case Word(w, _) => w
    case Integer(n) => n
    case Real(r, _) => r
    case Text(q, parts) => PartsSmall(parts, q); [q] + PartsText(parts) + [q]
    case List(pad, elems, close) => [91] + pad + WrittenElems(conf, elems) + close + [93]
    case Fields(pad, fields, close) => [123] + pad + WrittenFields(conf, fields) + close + [125]
  }

  ghost function WrittenElems(conf: Conf, elems: seq<Elem>): seq<byte>
    requires GoodElems(conf, elems)
    decreases elems, 0
  {
    if elems == [] then []
    else
      var k := |elems| - 1;
      var e := elems[k];
      WrittenElems(conf, elems[..k]) + (if k > 0 then [44] else []) + e.before + Written(conf, e.value) + e.after
  }

  // The name in its quotes.
  ghost function Name(k: Key): seq<byte>
    requires GoodKey(k)
  {
    PartsSmall(k.parts, k.q);
    [k.q] + PartsText(k.parts) + [k.q]
  }

  ghost function WrittenKey(k: Key): seq<byte>
    requires GoodKey(k)
  {
    Name(k) + k.mid + ([58] + k.gap)
  }

  ghost function WrittenFields(conf: Conf, fields: seq<Entry>): seq<byte>
    requires GoodFields(conf, fields)
    decreases fields, 0
  {
    if fields == [] then []
    else
      var k := |fields| - 1;
      var e := fields[k];
      WrittenFields(conf, fields[..k]) + (if k > 0 then [44] else []) + e.before + WrittenKey(e.key) +
      Written(conf, e.value) + e.after
  }

  ghost function Meaning(conf: Conf, s: Syntax): Json
    requires Good(conf, s)
    decreases s, 1
  {
    match s
    case Word(_, j) => j
    case Integer(n) => Int(IntegerOf(n))
    case Real(_, bits) => Double(bits)
    case Text(q, parts) => PartsSmall(parts, q); Str(PartsBytes(parts))
    case List(_, elems, _) => Arr(Items(conf, elems))
    case Fields(_, fields, _) => Obj(Members(conf, fields))
  }

  ghost function Items(conf: Conf, elems: seq<Elem>): (items: seq<Json>)
    requires GoodElems(conf, elems)
    ensures |items| == |elems|
    decreases elems, 0
  {
    if elems == [] then []
    else
      var k := |elems| - 1;
      Items(conf, elems[..k]) + [Meaning(conf, elems[k].value)]
  }

  // A key is a C string; one that comes again gives its value to the first place.
  ghost function KeyOf(k: Key): seq<byte>
    requires GoodKey(k)
  {
    PartsSmall(k.parts, k.q);
    CString(PartsBytes(k.parts))
  }

  ghost function Members(conf: Conf, fields: seq<Entry>): seq<Member>
    requires GoodFields(conf, fields)
    decreases fields, 0
  {
    if fields == [] then []
    else
      var k := |fields| - 1;
      WithMember(Members(conf, fields[..k]), KeyOf(fields[k].key), Meaning(conf, fields[k].value))
  }

  // How deep containers nest that hold something.
  function Nesting(s: Syntax): nat
    decreases s, 1
  {
    match s
    case List(_, elems, _) => if elems == [] then 0 else 1 + NestingElems(elems)
    case Fields(_, fields, _) => if fields == [] then 0 else 1 + NestingFields(fields)
    case _ => 0
  }

  function NestingElems(elems: seq<Elem>): nat
    decreases elems, 0
  {
    if elems == [] then 0
    else
      var k := |elems| - 1;
      Larger(NestingElems(elems[..k]), Nesting(elems[k].value))
  }

  function NestingFields(fields: seq<Entry>): nat
    decreases fields, 0
  {
    if fields == [] then 0
    else
      var k := |fields| - 1;
      Larger(NestingFields(fields[..k]), Nesting(fields[k].value))
  }

  function Larger(a: nat, b: nat): nat
  {
    if a < b then b else a
  }

  // ---- Reading a text --------------------------------------------------------------------

  lemma FeedWord(conf: Conf, t: Tok, w: seq<byte>, j: Json)
    requires Fresh(conf, t) && Good(conf, Word(w, j))
    ensures Got(conf, t, Feed(conf, t, w), j)
  {
    hide WF, Redo, Feed, ParsedNumber;
    BeginWord(conf, t, w[0]);
    assert w[0..] == w;
    if j == Null {
      var n := Goto(t, NullWord).(pb := [], stPos := 0);
      Restart(conf, t, n, w);
      FeedNull(conf, n, w, 0);
    } else {
      var n := Goto(t, BoolWord).(pb := [], stPos := 0);
      Restart(conf, t, n, w);
      FeedBool(conf, n, j.b, w, 0);
    }
  }

  lemma FeedDigits(conf: Conf, t: Tok, s: seq<byte>, j: Json)
    requires Fresh(conf, t) && s != [] && (IsDigit(s[0]) || s[0] == MINUS)
    requires forall k :: 0 <= k < |s| ==> IsNumberChar(s[k])
    requires var t' := Goto(t, Number).(pb := s, isDouble := HasPoint(s)); ParsedNumber(conf, t') == Some(j)
    ensures Got(conf, t, Feed(conf, t, s), j)
  {
    hide WF, Redo, Feed, ParsedNumber, IsNumberChar, HasPoint;
    BeginWord(conf, t, s[0]);
    DigitNoLetter(s[0]);
    var d := Goto(t, Number).(pb := [], isDouble := false);
    Restart(conf, t, d, s);
    FeedNumber(conf, d, s);
    assert d.pb + s == s;
  }

  lemma DigitNoLetter(c: byte)
    requires IsDigit(c) || c == MINUS
    ensures Lower(c) !in {LETTER_N, LETTER_T, LETTER_F}
  {
  }

  lemma {:induction false} AllPrefix(s: seq<byte>)
    requires AllDigits(s)
    ensures DigitPrefix(s) == s
  {
    if s != [] {
      AllPrefix(s[1..]);
    }
  }

  lemma IntegerParsed(conf: Conf, t: Tok, s: seq<byte>)
    requires IsInteger(s)
    ensures !HasPoint(s) && (forall k :: 0 <= k < |s| ==> IsNumberChar(s[k])) && (IsDigit(s[0]) || s[0] == MINUS)
    ensures ParsedNumber(conf, t.(pb := s, isDouble := HasPoint(s))) == Some(Int(IntegerOf(s)))
  {
    hide DigitPrefix, Value;
    var body := if s[0] == MINUS then s[1..] else s;
    AllPrefix(body);
    forall k | 0 <= k < |s|
      ensures IsDigit(s[k]) || (k == 0 && s[k] == MINUS)
    {
      assert k > 0 && s[0] == MINUS ==> body[k - 1] == s[k];
      assert s[0] != MINUS ==> body[k] == s[k];
    }
  }

  lemma FeedScalar(conf: Conf, t: Tok, s: Syntax)
    requires Fresh(conf, t) && Good(conf, s) && !s.List? && !s.Fields?
    ensures Got(conf, t, Feed(conf, t, Written(conf, s)), Meaning(conf, s))
  {
    hide Fresh, Got, Feed, ParsedNumber, HasPoint;
    match s {
      case Word(w, j) => FeedWord(conf, t, w, j);
      case Integer(n) =>
        IntegerParsed(conf, Goto(t, Number), n);
        FeedDigits(conf, t, n, Int(IntegerOf(n)));
      case Real(r, bits) =>
        RealParsed(conf, Goto(t, Number), r, bits);
        FeedDigits(conf, t, r, Double(bits));
      case Text(q, parts) => FeedQuoted(conf, t, q, parts);
    }
  }

  lemma RealParsed(conf: Conf, t: Tok, r: seq<byte>, bits: nat)
    requires HasPoint(r) && conf.parseDouble(r) == Some(bits)
    ensures ParsedNumber(conf, t.(pb := r, isDouble := HasPoint(r))) == Some(Double(bits))
  {
  }

  // The first byte of a value opens a new level.
  lemma FirstByte(conf: Conf, s: Syntax)
    requires Good(conf, s)
    ensures Written(conf, s) != [] && ValueStart(Written(conf, s)[0])
  {
    hide WrittenElems, WrittenFields, PartsText, Value;
    match s {
      case Word(w, j) =>
        assert Lower(w[0]) == NULL_WORD[0] || Lower(w[0]) == TRUE_WORD[0] || Lower(w[0]) == FALSE_WORD[0];
      case Integer(n) => IntegerParsed(conf, NewTok(), n);
      case _ =>
    }
  }

  // A value, in any context, is read as what it means or found too deep.
  lemma {:induction false} ReadSyntax(conf: Conf, t: Tok, s: Syntax)
    requires Fresh(conf, t) && Good(conf, s)
    ensures var n := Feed(conf, t, Written(conf, s));
      if Fits(conf, t, Nesting(s)) then Got(conf, t, n, Meaning(conf, s)) else TooDeep(n)
    decreases s, 2
  {
    hide WF, Feed, Fresh, Got, Good;
    match s {
      case List(_, _, _) => ReadList(conf, t, s);
      case Fields(_, _, _) => ReadFields(conf, t, s);
      case _ =>
        FreshFits(conf, t);
        FeedScalar(conf, t, s);
    }
  }

  lemma FreshFits(conf: Conf, t: Tok)
    requires Fresh(conf, t)
    ensures Fits(conf, t, 0)
  {
    TokFits(conf, t);
  }

  lemma {:induction false} ReadList(conf: Conf, t: Tok, s: Syntax)
    requires Fresh(conf, t) && s.List? && Good(conf, s)
    ensures var n := Feed(conf, t, Written(conf, s));
      if Fits(conf, t, Nesting(s)) then Got(conf, t, n, Meaning(conf, s)) else TooDeep(n)
    decreases s, 1
  {
    hide WF, Step, Feed, WrittenElems, Blank, NestingElems, GoodElems;
    var pad, elems, close := s.pad, s.elems, s.close;
    var body := WrittenElems(conf, elems);
    OpenArray(conf, t);
    var open := t.(top := Level(EatWs, Array, Arr([]), None));
    FeedTwo(conf, t, LBRACKET, LBRACKET);
    FeedBlank(conf, open, pad);
    FeedConcat(conf, t, [LBRACKET], pad);
    var t1 := Feed(conf, open, pad).tok;
    assert Feed(conf, t, [LBRACKET] + pad) == More(t1);
    ReadElems(conf, t, t1, elems);
    FeedConcat(conf, t, [LBRACKET] + pad, body + (close + [RBRACKET]));
    FeedConcat(conf, t1, body, close + [RBRACKET]);
    assert Written(conf, s) == [LBRACKET] + pad + (body + (close + [RBRACKET]));
    TokFits(conf, t);
    if Fits(conf, t, Nesting(s)) {
      CloseArray(conf, t, Feed(conf, t1, body).tok, Items(conf, elems), close);
    }
  }

  lemma CloseArray(conf: Conf, t0: Tok, t: Tok, items: seq<Json>, after: seq<byte>)
    requires ItemsDone(conf, t0, t, items) && Blank(after)
    ensures Got(conf, t0, Feed(conf, t, after + [RBRACKET]), Arr(items))
  {
    hide WF, Blank, Step, ParsedNumber;
    FeedConcat(conf, t, after, [RBRACKET]);
    if items == [] {
      FeedBlank(conf, t, after);
    } else {
      FeedSpaces(conf, t, items[|items| - 1], after);
    }
    var t' := Feed(conf, t, after).tok;
    BracketItem(conf, t0, t', items);
    FeedTwo(conf, t', RBRACKET, RBRACKET);
  }

  // The comma, if it is not the first, and the blanks before an element.
  lemma OpenItem(conf: Conf, t0: Tok, t: Tok, items: seq<Json>, before: seq<byte>)
    requires ItemsDone(conf, t0, t, items) && Blank(before)
    ensures var n := Feed(conf, t, (if |items| > 0 then [COMMA] else []) + before);
      && n.More? && AtItem(conf, t0, n.tok, items)
      && n.tok.top.saved == if items == [] then Array else ArrayAfterSep
  {
    hide WF, Ends, Blank, Step;
    if items == [] {
      assert [] + before == before;
      FeedBlank(conf, t, before);
    } else {
      CommaItem(conf, t0, t, items);
      var t1 := Step(conf, t, COMMA).tok;
      FeedTwo(conf, t, COMMA, COMMA);
      FeedConcat(conf, t, [COMMA], before);
      FeedBlank(conf, t1, before);
    }
  }

  // The blanks behind an element.
  lemma BlankItem(conf: Conf, t0: Tok, t: Tok, items: seq<Json>, after: seq<byte>)
    requires ItemsDone(conf, t0, t, items) && items != [] && Blank(after)
    ensures var n := Feed(conf, t, after); n.More? && ItemsDone(conf, t0, n.tok, items)
  {
    hide Ends, Blank, Step, ParsedNumber;
    FeedSpaces(conf, t, items[|items| - 1], after);
  }

  // One more element, after those of pre.
  lemma {:induction false} ReadElem(conf: Conf, t0: Tok, t: Tok, pre: seq<Json>, e: Elem)
    requires ItemsDone(conf, t0, t, pre) && Blank(e.before) && Blank(e.after) && Good(conf, e.value)
    ensures var comma := if |pre| > 0 then [COMMA] else [];
      var n := Feed(conf, t, comma + e.before + (Written(conf, e.value) + e.after));
      if Fits(conf, t0, 1 + Nesting(e.value)) then
        n.More? && ItemsDone(conf, t0, n.tok, pre + [Meaning(conf, e.value)])
      else TooDeep(n)
    decreases e.value, 3
  {
    hide WF, Step, Ends, Written, Good, Nesting, Blank, Meaning;
    var before, text := (if |pre| > 0 then [COMMA] else []) + e.before, Written(conf, e.value);
    var item := Meaning(conf, e.value);
    OpenItem(conf, t0, t, pre, e.before);
    FeedConcat(conf, t, before, text + e.after);
    var t2 := Feed(conf, t, before).tok;
    FirstByte(conf, e.value);
    PushItem(conf, t0, t2, pre, text[0]);
    FeedConcat(conf, t2, text, e.after);
    if |t2.below| < conf.maxDepth - 1 {
      Restart(conf, t2, Inner(t2, ArrayAdd), text);
      ReadSyntax(conf, Inner(t2, ArrayAdd), e.value);
      if Fits(conf, t0, 1 + Nesting(e.value)) {
        NextItem(conf, t0, t2, pre, item, Feed(conf, t2, text));
        BlankItem(conf, t0, Feed(conf, t2, text).tok, pre + [item], e.after);
      }
    }
  }

  lemma LastElem(conf: Conf, elems: seq<Elem>)
    requires elems != [] && GoodElems(conf, elems)
    ensures var k := |elems| - 1;
      var e, comma := elems[k], if k > 0 then [COMMA] else [];
      WrittenElems(conf, elems) ==
        WrittenElems(conf, elems[..k]) + (comma + e.before + (Written(conf, e.value) + e.after))
  {
    hide Written, Good, Blank;
  }

  // The elements of an array, t being the state after the bracket that t0 opened.
  lemma {:induction false} ReadElems(conf: Conf, t0: Tok, t: Tok, elems: seq<Elem>)
    requires ItemsDone(conf, t0, t, []) && GoodElems(conf, elems)
    ensures var n := Feed(conf, t, WrittenElems(conf, elems));
      if elems == [] || Fits(conf, t0, 1 + NestingElems(elems)) then
        n.More? && ItemsDone(conf, t0, n.tok, Items(conf, elems))
      else TooDeep(n)
    decreases elems, 0
  {
    hide WF, Step, Ends, Written, Good, Nesting, Blank, Meaning;
    if elems != [] {
      var k := |elems| - 1;
      var pre, e := elems[..k], elems[k];
      var done, comma := WrittenElems(conf, pre), if k > 0 then [COMMA] else [];
      var more := comma + e.before + (Written(conf, e.value) + e.after);
      ReadElems(conf, t0, t, pre);
      FeedConcat(conf, t, done, more);
      LastElem(conf, elems);
      if Feed(conf, t, done).More? {
        ReadElem(conf, t0, Feed(conf, t, done).tok, Items(conf, pre), e);
      }
    }
  }

  lemma {:induction false} ReadFields(conf: Conf, t: Tok, s: Syntax)
    requires Fresh(conf, t) && s.Fields? && Good(conf, s)
    ensures var n := Feed(conf, t, Written(conf, s));
      if Fits(conf, t, Nesting(s)) then Got(conf, t, n, Meaning(conf, s)) else TooDeep(n)
    decreases s, 1
  {
    hide WF, Step, Feed, WrittenFields, Blank, NestingFields, GoodFields;
    var pad, fields, close := s.pad, s.fields, s.close;
    var body := WrittenFields(conf, fields);
    OpenObject(conf, t);
    var open := t.(top := Level(EatWs, FieldStart, Obj([]), None));
    FeedTwo(conf, t, LBRACE, LBRACE);
    FeedBlank(conf, open, pad);
    FeedConcat(conf, t, [LBRACE], pad);
    var t1 := Feed(conf, open, pad).tok;
    assert Feed(conf, t, [LBRACE] + pad) == More(t1);
    var last := ReadEntries(conf, t, t1, fields);
    FeedConcat(conf, t, [LBRACE] + pad, body + (close + [RBRACE]));
    FeedConcat(conf, t1, body, close + [RBRACE]);
    assert Written(conf, s) == [LBRACE] + pad + (body + (close + [RBRACE]));
    TokFits(conf, t);
    if Fits(conf, t, Nesting(s)) {
      CloseObject(conf, t, Feed(conf, t1, body).tok, BeforeLast(conf, fields), last, close);
    }
  }

  // The members but the one of the last field, which waits for the byte behind it.
  ghost function BeforeLast(conf: Conf, fields: seq<Entry>): seq<Member>
    requires GoodFields(conf, fields)
  {
    if fields == [] then [] else Members(conf, fields[..|fields| - 1])
  }

  lemma CloseObject(conf: Conf, t0: Tok, t: Tok, members: seq<Member>, last: Option<Member>, after: seq<byte>)
    requires MembersDone(conf, t0, t, members, last) && Blank(after)
    ensures Got(conf, t0, Feed(conf, t, after + [RBRACE]), Obj(AllMembers(members, last)))
  {
    hide WF, Blank, Step, ParsedNumber, WithMember;
    FeedConcat(conf, t, after, [RBRACE]);
    match last {
      case None => FeedBlank(conf, t, after);
      case Some(m) => FeedSpaces(conf, t, m.value, after);
    }
    var t' := Feed(conf, t, after).tok;
    BraceMember(conf, t0, t', members, last);
    FeedTwo(conf, t', RBRACE, RBRACE);
  }

  lemma OpenMember(conf: Conf, t0: Tok, t: Tok, members: seq<Member>, last: Option<Member>, before: seq<byte>)
    requires MembersDone(conf, t0, t, members, last) && Blank(before)
    ensures var n := Feed(conf, t, (if last.Some? then [COMMA] else []) + before);
      && n.More? && AtMember(conf, t0, n.tok, AllMembers(members, last))
      && n.tok.top.saved == if last.None? then FieldStart else FieldStartAfterSep
  {
    hide WF, Ends, Blank, Step, WithMember;
    match last {
      case None =>
        assert [] + before == before;
        FeedBlank(conf, t, before);
      case Some(m) =>
        CommaMember(conf, t0, t, members, m);
        var t1 := Step(conf, t, COMMA).tok;
        FeedTwo(conf, t, COMMA, COMMA);
        FeedConcat(conf, t, [COMMA], before);
        FeedBlank(conf, t1, before);
    }
  }

  // A name has been read, and its colon has not.
  ghost predicate NameRead(conf: Conf, t0: Tok, t: Tok, members: seq<Member>, key: seq<byte>)
  {
    && WF(conf, t) && t.pend.NoHi? && t.below == t0.below
    && t.top == Level(EatWs, FieldEnd, Obj(members), Some(key))
  }

  lemma FeedName(conf: Conf, t0: Tok, t: Tok, members: seq<Member>, k: Key)
    requires AtMember(conf, t0, t, members) && GoodKey(k)
    ensures var n := Feed(conf, t, Name(k) + k.mid); n.More? && NameRead(conf, t0, n.tok, members, KeyOf(k))
  {
    PartsSmall(k.parts, k.q);
    hide WF, Step, Feed, PartsText, PartsBytes, CString, Blank, InText, GoodText, Bounded;
    var q, text, bytes := k.q, PartsText(k.parts), PartsBytes(k.parts);
    QuoteOk(k);
    OpenKey(conf, t0, t, members, q);
    var t1 := t.(top := Level(Field, t.top.saved, Obj(members), None), quote := q, pb := []);
    FeedTwo(conf, t, q, q);
    TextWF(conf, t1);
    FeedParts(conf, t1, k.parts);
    var t2 := Feed(conf, t1, text).tok;
    StillText(conf, t1, t2, bytes);
    QuoteEnds(conf, t2);
    assert t1.pb + bytes == bytes;
    var t3 := t2.(top := t2.top.(state := EatWs, saved := FieldEnd, field := Some(CString(bytes))));
    assert Step(conf, t2, q) == More(t3);
    FeedTwo(conf, t2, q, q);
    FeedBlank(conf, t3, k.mid);
    FeedConcat(conf, t, [q], text);
    FeedConcat(conf, t, [q] + text, [q]);
    FeedConcat(conf, t, [q] + text + [q], k.mid);
  }

  lemma QuoteOk(k: Key)
    requires GoodKey(k)
    ensures k.q == DQUOTE || k.q == SQUOTE
  {
  }

  lemma FeedKey(conf: Conf, t0: Tok, t: Tok, members: seq<Member>, k: Key)
    requires AtMember(conf, t0, t, members) && GoodKey(k)
    ensures var n := Feed(conf, t, WrittenKey(k)); n.More? && AtMemberValue(conf, t0, n.tok, members, KeyOf(k))
  {
    hide WF, Step, Feed, Name, KeyOf, GoodText, Blank;
    FeedName(conf, t0, t, members, k);
    var t3 := Feed(conf, t, Name(k) + k.mid).tok;
    ColonStep(conf, t3);
    FeedTwo(conf, t3, COLON, COLON);
    var t4 := t3.(top := t3.top.(saved := FieldValue));
    FeedBlank(conf, t4, k.gap);
    FeedConcat(conf, t3, [58], k.gap);
    FeedConcat(conf, t, Name(k) + k.mid, [58] + k.gap);
  }

  lemma BlankMember(conf: Conf, t0: Tok, t: Tok, members: seq<Member>, m: Member, after: seq<byte>)
    requires MembersDone(conf, t0, t, members, Some(m)) && Blank(after)
    ensures var n := Feed(conf, t, after); n.More? && MembersDone(conf, t0, n.tok, members, Some(m))
  {
    hide Ends, Blank, Step, ParsedNumber;
    FeedSpaces(conf, t, m.value, after);
  }

  // One more member.
  lemma {:induction false} ReadEntry(conf: Conf, t0: Tok, t: Tok, members: seq<Member>, last: Option<Member>, e: Entry)
    requires MembersDone(conf, t0, t, members, last) && GoodKey(e.key) && Good(conf, e.value)
    requires Blank(e.before) && Blank(e.after)
    ensures var comma := if last.Some? then [COMMA] else [];
      var n := Feed(conf, t, comma + e.before + (WrittenKey(e.key) + (Written(conf, e.value) + e.after)));
      if Fits(conf, t0, 1 + Nesting(e.value)) then
        var m := Member(KeyOf(e.key), Meaning(conf, e.value));
        n.More? && MembersDone(conf, t0, n.tok, AllMembers(members, last), Some(m))
      else TooDeep(n)
    decreases e.value, 3
  {
    hide WF, Step, Ends, Written, WrittenKey, KeyOf, Good, GoodKey, Nesting, Blank, Meaning, AllMembers;
    var before, key, text := (if last.Some? then [COMMA] else []) + e.before, WrittenKey(e.key), Written(conf, e.value);
    var all, m := AllMembers(members, last), Member(KeyOf(e.key), Meaning(conf, e.value));
    OpenMember(conf, t0, t, members, last, e.before);
    FeedConcat(conf, t, before, key + (text + e.after));
    var t2 := Feed(conf, t, before).tok;
    FeedKey(conf, t0, t2, all, e.key);
    FeedConcat(conf, t2, key, text + e.after);
    var t3 := Feed(conf, t2, key).tok;
    FirstByte(conf, e.value);
    PushMember(conf, t0, t3, all, m.key, text[0]);
    FeedConcat(conf, t3, text, e.after);
    if |t3.below| < conf.maxDepth - 1 {
      Restart(conf, t3, Inner(t3, ValueAdd), text);
      ReadSyntax(conf, Inner(t3, ValueAdd), e.value);
      if Fits(conf, t0, 1 + Nesting(e.value)) {
        NextMember(conf, t0, t3, all, m, Feed(conf, t3, text));
        BlankMember(conf, t0, Feed(conf, t3, text).tok, all, m, e.after);
      }
    }
  }

  lemma LastEntry(conf: Conf, fields: seq<Entry>)
    requires fields != [] && GoodFields(conf, fields)
    ensures var k := |fields| - 1;
      var e, comma := fields[k], if k > 0 then [COMMA] else [];
      WrittenFields(conf, fields) == WrittenFields(conf, fields[..k]) +
        (comma + e.before + (WrittenKey(e.key) + (Written(conf, e.value) + e.after)))
  {
    hide Written, WrittenKey, Good, GoodKey, Blank;
  }

  // The members of an object, t being the state after the brace that t0 opened.
  lemma {:induction false} ReadEntries(conf: Conf, t0: Tok, t: Tok, fields: seq<Entry>) returns (last: Option<Member>)
    requires MembersDone(conf, t0, t, [], None) && GoodFields(conf, fields)
    ensures last.Some? <==> fields != []
    ensures AllMembers(BeforeLast(conf, fields), last) == Members(conf, fields)
    ensures var n := Feed(conf, t, WrittenFields(conf, fields));
      if fields == [] || Fits(conf, t0, 1 + NestingFields(fields)) then
        n.More? && MembersDone(conf, t0, n.tok, BeforeLast(conf, fields), last)
      else TooDeep(n)
    decreases fields, 0
  {
    hide WF, Step, Ends, Written, WrittenKey, KeyOf, Good, GoodKey, Nesting, Blank, Meaning, WithMember;
    if fields == [] {
      last := None;
    } else {
      var k := |fields| - 1;
      var pre, e := fields[..k], fields[k];
      var done, comma := WrittenFields(conf, pre), if k > 0 then [COMMA] else [];
      var more := comma + e.before + (WrittenKey(e.key) + (Written(conf, e.value) + e.after));
      var prior := ReadEntries(conf, t0, t, pre);
      last := Some(Member(KeyOf(e.key), Meaning(conf, e.value)));
      FeedConcat(conf, t, done, more);
      LastEntry(conf, fields);
      if Feed(conf, t, done).More? {
        ReadEntry(conf, t0, Feed(conf, t, done).tok, BeforeLast(conf, pre), prior, e);
      }
    }
  }

  // ---- Whole texts ------------------------------------------------------------------------

  lemma {:induction false} RunStops(conf: Conf, t: Tok, a: seq<byte>, b: seq<byte>, i: nat)
    requires WF(conf, t) && i <= |a|
    requires Feed(conf, t, a[i..]).Stop? && Feed(conf, t, a[i..]).err != Success
    ensures Run(conf, t, a + b, i).err == Feed(conf, t, a[i..]).err && Run(conf, t, a + b, i).obj == Null
    decreases |a| - i
  {
    hide WF, Step;
    var n := Step(conf, t, (a + b)[i]);
    assert a[i..][1..] == a[i + 1..];
    if n.More? {
      RunStops(conf, n.tok, a, b, i + 1);
    }
  }

  // The NUL that ends the text ends a value at the top.
  lemma NulEnds(conf: Conf, t: Tok, j: Json)
    requires WF(conf, t) && t.pend.NoHi? && t.below == [] && Ends(conf, t, j)
    ensures var n := Step(conf, t, 0);
      n.Stop? && n.err == Success && !n.used && n.tok.top.current == j && n.tok.below == []
  {
    hide WF, ParsedNumber;
    Close(conf, t, j, Null, 0);
    var t1 := Closed(t, j, 0);
    Enter(conf, t1, Null, 0);
  }

  lemma NewFresh(conf: Conf)
    requires conf.maxDepth > 0
    ensures Fresh(conf, NewTok())
  {
  }

  // Every text of the syntax, as a C string, is read as what it means if it fits the depth
  // of the tokener, and refused as too deep if it does not.
  lemma Accepts(conf: Conf, before: seq<byte>, s: Syntax, after: seq<byte>)
    requires conf.maxDepth > 0 && Good(conf, s) && Blank(before) && Blank(after)
    ensures var text := before + Written(conf, s) + after; var r := Run(conf, NewTok(), text + [0], 0);
      if Nesting(s) < conf.maxDepth then r.err == Success && r.obj == Meaning(conf, s) && r.offset == |text|
      else r.err == DepthExceeded && r.obj == Null
  {
    hide Step, Written, Ends, Blank, Good, Meaning, WF, Feed;
    NewFresh(conf);
    var u, text := NewTok(), before + Written(conf, s) + after;
    assert text[0..] == text;
    FeedBlank(conf, u, before);
    var t := Feed(conf, u, before).tok;
    ReadSyntax(conf, t, s);
    FeedConcat(conf, u, before, Written(conf, s));
    FeedConcat(conf, u, before + Written(conf, s), after);
    if Nesting(s) < conf.maxDepth {
      var t1 := Feed(conf, t, Written(conf, s)).tok;
      FeedSpaces(conf, t1, Meaning(conf, s), after);
      var t' := Feed(conf, t1, after).tok;
      RunFeed(conf, u, text, [0], 0);
      NulEnds(conf, t', Meaning(conf, s));
      assert (text + [0])[|text|] == 0;
    } else {
      RunStops(conf, u, text, [0], 0);
    }
  }
}
