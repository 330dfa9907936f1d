// Parsing what was printed gives the value back, for every format, exactly when the
// value does not nest deeper than the tokener allows.
module JsonRoundTrip {
  import opened Bytes
  import opened Wrappers
  import opened Json
  import opened Int64Parse
  import opened PrintBufs
  import opened JsonMachine
  import opened JsonBlanks
  import opened JsonEscapes
  import opened JsonPrint
  import opened JsonSplits
  import opened JsonTokener
  import opened JsonReading
  import opened JsonGrammar

  // No doubles, integers of 64 bits, and keys that are distinct C strings.
  ghost predicate Printable(j: Json)
    decreases j
  {
    match j
    case Int(n) => InRange(n)
    case Double(_) => false
    case Arr(items) => forall k :: 0 <= k < |items| ==> Printable(items[k])
    case Obj(members) =>
      DistinctKeys(members) && forall k :: 0 <= k < |members| ==> 0 !in members[k].key && Printable(members[k].value)
    case _ => true
  }

  ghost predicate DistinctKeys(members: seq<Member>)
  {
    forall a, b :: 0 <= a < b < |members| ==> members[a].key != members[b].key
  }

  // ---- Printed values are texts of the syntax ---------------------------------------------

  // What stands for a byte in quoted text.
  function PartOf(c: byte): Part
  {
    match EscapeLetter(c)
    case Some(_) => Named(NameOf(c))
    case None => if c < SPACE then Hex([48, 48, HexChar(c as nat / 16), HexChar(c as nat % 16)], c as nat) else Byte(c)
  }

  // Its place among the bytes that have a name.
  function NameOf(c: byte): nat
  {
    if c == 34 then 0 else if c == 92 then 1 else if c == 47 then 2 else if c == 8 then 3
    else if c == 12 then 4 else if c == 10 then 5 else if c == 13 then 6 else 7
  }

  function PartsOf(s: seq<byte>): seq<Part>
  {
    if s == [] then [] else [PartOf(s[0])] + PartsOf(s[1..])
  }

  lemma HexCharSpelled(d: nat)
    requires d < 16
    ensures HexChar(d) as char == HEX_CHARS[d] && Spells(HexChar(d), d)
  {
  }

  // Eight bytes are printed as a backslash and a letter, the other control bytes with four
  // small hex digits, and the rest as they are.
  lemma EscapesAre(c: byte)
    ensures forall k :: 0 <= k < 8 && c == NAMED[k] ==> EscapeText([c]) == [92, NAMES[k] as byte]
    ensures c !in NAMED && c < 32 ==>
      EscapeText([c]) == [92, 117, 48, 48, HEX_CHARS[c as nat / 16] as byte, HEX_CHARS[c as nat % 16] as byte]
    ensures c !in NAMED && c >= 32 ==> EscapeText([c]) == [c]
  {
    hide HexChar;
    var s := EscapeByte(c);
    assert EscapeText([c][1..]) == [] && s + [] == s;
    if c < 32 {
      HexCharSpelled(c as nat / 16);
      HexCharSpelled(c as nat % 16);
    }
    forall k | 0 <= k < 8 && c == NAMED[k]
      ensures s == [92, NAMES[k] as byte]
    {
      NamedEscape(k);
    }
    NamedOnly(c);
  }

  lemma NamedOnly(c: byte)
    ensures EscapeLetter(c).Some? <==> c in NAMED
  {
    if EscapeLetter(c).Some? {
      assert NAMED[NameOf(c)] == c;
    }
  }

  lemma PartOfText(c: byte)
    ensures GoodPart(PartOf(c), DQUOTE)
    ensures PartText(PartOf(c)) == EscapeByte(c) && PartBytes(PartOf(c)) == [c]
  {
    if EscapeLetter(c).None? && c < SPACE {
      var u := c as nat;
      HexCharSpelled(0);
      HexCharSpelled(u / 16);
      HexCharSpelled(u % 16);
      assert HexChar(0) == 48;
      assert u / 4096 == 0 && u / 256 % 16 == 0 && u / 16 % 16 == u / 16;
      hide Spells;
      assert Spelling([48, 48, HexChar(u / 16), HexChar(u % 16)], u);
    }
  }

  lemma {:induction false} PartsOfText(s: seq<byte>)
    ensures GoodText(PartsOf(s), DQUOTE) && Bounded(PartsOf(s))
    ensures PartsText(PartsOf(s)) == EscapeText(s) && PartsBytes(PartsOf(s)) == s
  {
    hide GoodPart, PartOf, PartText, PartBytes, EscapeByte, InBounds;
    if s != [] {
      PartOfText(s[0]);
      PartsOfText(s[1..]);
      PartsSmall(PartsOf(s), DQUOTE);
      assert PartsOf(s)[1..] == PartsOf(s[1..]);
    }
  }

  // Reading an escaped text gives back its bytes.
  lemma FeedText(conf: Conf, t: Tok, s: seq<byte>)
    requires InText(conf, t) && t.quote == DQUOTE
    ensures var n := Feed(conf, t, EscapeText(s)); n.More? && Added(conf, t, n.tok, s)
  {
    hide Feed, InText;
    PartsOfText(s);
    FeedParts(conf, t, PartsOf(s));
  }

  lemma DecimalReads(n: int)
    requires InRange(n)
    ensures IsInteger(Decimal(n)) && IntegerOf(Decimal(n)) == n
  {
    hide Digits, Value;
    var d := Digits(if n < 0 then -n else n);
    ValueDigits(if n < 0 then -n else n);
    assert n < 0 ==> Decimal(n)[1..] == d;
    assert IsDigit(d[0]);
  }

  // A printed value as a text of the syntax.
  function SyntaxOf(f: Format, j: Json, level: nat): Syntax
    decreases j, 1
  {
    match j
    case Null => Word(NULL_WORD, j)
    case Bool(b) => Word(if b then TRUE_WORD else FALSE_WORD, j)
    case Int(n) => Integer(Decimal(n))
    case Double(d) => Integer(f.printDouble(d))
    case Str(s) => Text(DQUOTE, PartsOf(s))
    case Arr(items) => List(Line(f), ElemsOf(f, items, level), After(f, level, |items|))
    case Obj(members) => Fields(Line(f), EntriesOf(f, members, level), After(f, level, |members|))
  }

  // The blanks before element k.
  function Lead(f: Format, level: nat, k: nat): seq<byte>
  {
    (if k > 0 then Line(f) else []) + Gap(f) + Indent(f, level + 1)
  }

  function ElemsOf(f: Format, items: seq<Json>, level: nat): (es: seq<Elem>)
    ensures |es| == |items|
    decreases items
  {
    if items == [] then []
    else
      var k := |items| - 1;
      ElemsOf(f, items[..k], level) + [Elem(Lead(f, level, k), SyntaxOf(f, items[k], level + 1), [])]
  }

  function KeyText(f: Format, key: seq<byte>): Key
  {
    Key(DQUOTE, PartsOf(CString(key)), [], Gap(f))
  }

  function EntriesOf(f: Format, members: seq<Member>, level: nat): (es: seq<JsonGrammar.Entry>)
    ensures |es| == |members|
    decreases members
  {
    if members == [] then []
    else
      var k := |members| - 1;
      var m := members[k];
      EntriesOf(f, members[..k], level) +
      [JsonGrammar.Entry(Lead(f, level, k), KeyText(f, m.key), SyntaxOf(f, m.value, level + 1), [])]
  }

  lemma BlankParts(f: Format, level: nat, n: nat)
    ensures Blank(Line(f)) && Blank(Gap(f)) && Blank(Lead(f, level, n)) && Blank(After(f, level, n)) && Blank([])
    ensures (if n > 0 then [COMMA] else []) + Lead(f, level, n) == Before(f, level, n)
  {
    hide Blank;
    SpacesBlank([]);
    SpacesBlank(Line(f));
    SpacesBlank(Gap(f));
    SpacesBlank(Lead(f, level, n));
    SpacesBlank(After(f, level, n));
  }

  // j, printed, is a text of the syntax, with j for its meaning.
  ghost predicate IsPrint(conf: Conf, f: Format, j: Json, level: nat)
  {
    var s := SyntaxOf(f, j, level);
    Good(conf, s) && Written(conf, s) == Print(f, j, level) && Meaning(conf, s) == j && Nesting(s) == Depth(j)
  }

  lemma {:induction false} PrintedText(conf: Conf, f: Format, j: Json, level: nat)
    requires Printable(j)
    ensures IsPrint(conf, f, j, level)
    decreases j, 1
  {
    hide IsPrint;
    match j {
      case Str(s) => TextPrinted(conf, f, s, level);
      case Arr(items) =>
        PrintedItems(conf, f, items, level);
        ListPrinted(conf, f, items, level);
      case Obj(members) =>
        PrintedMembers(conf, f, members, level);
        FieldsPrinted(conf, f, members, level);
      case _ => ScalarPrinted(conf, f, j, level);
    }
  }

  lemma ScalarPrinted(conf: Conf, f: Format, j: Json, level: nat)
    requires Printable(j) && (j.Null? || j.Bool? || j.Int?)
    ensures IsPrint(conf, f, j, level)
  {
    hide Decimal;
    if j.Int? {
      DecimalReads(j.n);
    }
  }

  lemma TextPrinted(conf: Conf, f: Format, s: seq<byte>, level: nat)
    ensures IsPrint(conf, f, Str(s), level)
  {
    hide PartsOf, EscapeText, GoodText, PartsText, PartsBytes;
    PartsOfText(s);
  }

  lemma ListPrinted(conf: Conf, f: Format, items: seq<Json>, level: nat)
    requires var es := ElemsOf(f, items, level);
      && GoodElems(conf, es) && WrittenElems(conf, es) == PrintItems(f, items, level)
      && Items(conf, es) == items && NestingElems(es) == MaxDepth(items)
    ensures IsPrint(conf, f, Arr(items), level)
  {
    hide ElemsOf, GoodElems, WrittenElems, PrintItems, Items, NestingElems, MaxDepth, Blank, Line, After;
    BlankParts(f, level, |items|);
  }

  lemma FieldsPrinted(conf: Conf, f: Format, members: seq<Member>, level: nat)
    requires var es := EntriesOf(f, members, level);
      && GoodFields(conf, es) && WrittenFields(conf, es) == PrintMembers(f, members, level)
      && Members(conf, es) == members && NestingFields(es) == MaxMemberDepth(members)
    ensures IsPrint(conf, f, Obj(members), level)
  {
    hide EntriesOf, GoodFields, WrittenFields, PrintMembers, Members, NestingFields, MaxMemberDepth, Blank, Line,
      After;
    BlankParts(f, level, |members|);
  }

  lemma {:induction false} PrintedItems(conf: Conf, f: Format, items: seq<Json>, level: nat)
    requires forall k :: 0 <= k < |items| ==> Printable(items[k])
    ensures var es := ElemsOf(f, items, level);
      && GoodElems(conf, es) && WrittenElems(conf, es) == PrintItems(f, items, level)
      && Items(conf, es) == items && NestingElems(es) == MaxDepth(items)
    decreases items, 0
  {
    hide Lead, Before, SyntaxOf, Good, Written, Meaning, Nesting, Depth, Print, Blank, Printable;
    if items != [] {
      var k := |items| - 1;
      var es := ElemsOf(f, items, level);
      PrintedItems(conf, f, items[..k], level);
      PrintedText(conf, f, items[k], level + 1);
      BlankParts(f, level, k);
      assert es[..k] == ElemsOf(f, items[..k], level);
      ItemWritten(conf, f, es, items, level);
    }
  }

  lemma NothingBehind(a: seq<byte>, b: seq<byte>, c: seq<byte>)
    ensures a + (b + (c + [])) == a + b + c
  {
  }

  lemma GoodElemsMore(conf: Conf, es: seq<Elem>)
    requires es != [] && GoodElems(conf, es[..|es| - 1])
    requires var e := es[|es| - 1]; Blank(e.before) && Blank(e.after) && Good(conf, e.value)
    ensures GoodElems(conf, es)
  {
    hide Blank, Good;
    var k := |es| - 1;
    forall i | 0 <= i < k
      ensures es[i] == es[..k][i]
    {
    }
  }

  lemma ItemWritten(conf: Conf, f: Format, es: seq<Elem>, items: seq<Json>, level: nat)
    requires items != [] && |es| == |items|
    requires var k := |items| - 1;
      && GoodElems(conf, es[..k]) && WrittenElems(conf, es[..k]) == PrintItems(f, items[..k], level)
      && es[k] == Elem(Lead(f, level, k), SyntaxOf(f, items[k], level + 1), []) && IsPrint(conf, f, items[k], level + 1)
    ensures GoodElems(conf, es) && WrittenElems(conf, es) == PrintItems(f, items, level)
  {
    hide Lead, Before, SyntaxOf, Good, GoodElems, Written, WrittenElems, PrintItems, Meaning, Nesting, Depth, Print,
      Blank;
    var k := |items| - 1;
    BlankParts(f, level, k);
    GoodElemsMore(conf, es);
    ItemsNext(f, items, k, level);
    assert items[..k + 1] == items;
    LastElem(conf, es);
    NothingBehind(WrittenElems(conf, es[..k]), Before(f, level, k), Written(conf, es[k].value));
  }

  lemma {:induction false} PrintedMembers(conf: Conf, f: Format, members: seq<Member>, level: nat)
    requires PrintableMembers(members)
    ensures var es := EntriesOf(f, members, level);
      && GoodFields(conf, es) && WrittenFields(conf, es) == PrintMembers(f, members, level)
      && Members(conf, es) == members && NestingFields(es) == MaxMemberDepth(members)
    decreases members, 0
  {
    hide Lead, Before, SyntaxOf, Good, GoodKey, KeyText, Written, WrittenKey, KeyOf, Meaning, Nesting, Depth, Print,
      KeyPart, Blank, Printable, PartsOf, WithMember;
    if members != [] {
      var k := |members| - 1;
      var es := EntriesOf(f, members, level);
      PrintedMembers(conf, f, members[..k], level);
      PrintedText(conf, f, members[k].value, level + 1);
      assert es[..k] == EntriesOf(f, members[..k], level);
      MemberWritten(conf, f, es, members, level);
      NewKeyLast(members);
    }
  }

  lemma KeyWritten(f: Format, key: seq<byte>)
    requires 0 !in key
    ensures var k := KeyText(f, key); GoodKey(k) && WrittenKey(k) == KeyPart(f, key) && KeyOf(k) == key
  {
    hide PartsOf, GoodText, PartsText, PartsBytes, EscapeText, Gap, CString, Blank;
    PartsOfText(CString(key));
    BlankParts(f, 0, 0);
    var text := [DQUOTE] + EscapeText(CString(key)) + [DQUOTE];
    assert text + [] + ([58] + Gap(f)) == text + [COLON] + Gap(f);
  }

  lemma GoodFieldsMore(conf: Conf, es: seq<JsonGrammar.Entry>)
    requires es != [] && GoodFields(conf, es[..|es| - 1])
    requires var e := es[|es| - 1];
      Blank(e.before) && GoodKey(e.key) && Good(conf, e.value) && Blank(e.after)
    ensures GoodFields(conf, es)
  {
    hide Blank, Good, GoodKey;
    var k := |es| - 1;
    forall i | 0 <= i < k
      ensures es[i] == es[..k][i]
    {
    }
  }

  lemma MemberWritten(conf: Conf, f: Format, es: seq<JsonGrammar.Entry>, members: seq<Member>, level: nat)
    requires members != [] && |es| == |members| && 0 !in members[|members| - 1].key
    requires var k := |members| - 1; var m := members[k];
      && GoodFields(conf, es[..k]) && WrittenFields(conf, es[..k]) == PrintMembers(f, members[..k], level)
      && es[k] == JsonGrammar.Entry(Lead(f, level, k), KeyText(f, m.key), SyntaxOf(f, m.value, level + 1), [])
      && IsPrint(conf, f, m.value, level + 1)
    ensures GoodFields(conf, es) && WrittenFields(conf, es) == PrintMembers(f, members, level)
    ensures GoodKey(es[|es| - 1].key) && KeyOf(es[|es| - 1].key) == members[|es| - 1].key
  {
    hide Lead, Before, SyntaxOf, Good, GoodKey, KeyText, GoodFields, Written, WrittenKey, WrittenFields, PrintMembers,
      KeyOf, Meaning, Nesting, Depth, Print, KeyPart, Blank, PartsOf, Gap;
    var k := |members| - 1;
    BlankParts(f, level, k);
    KeyWritten(f, members[k].key);
    GoodFieldsMore(conf, es);
    MembersNext(f, members, k, level);
    assert members[..k + 1] == members;
    LastEntry(conf, es);
    NothingBehind(WrittenFields(conf, es[..k]) + Before(f, level, k), KeyPart(f, members[k].key),
                  Written(conf, es[k].value));
    assert WrittenFields(conf, es[..k]) +
      (Before(f, level, k) + (KeyPart(f, members[k].key) + (Written(conf, es[k].value) + []))) ==
      WrittenFields(conf, es[..k]) + Before(f, level, k) + (KeyPart(f, members[k].key) +
                                                           (Written(conf, es[k].value) + []));
  }

  lemma NewKeyLast(members: seq<Member>)
    requires members != [] && DistinctKeys(members)
    ensures var k := |members| - 1; WithMember(members[..k], members[k].key, members[k].value) == members
  {
    var k := |members| - 1;
    assert Find(members[..k], members[k].key) == k;
    assert members == members[..k] + [members[k]];
  }

  ghost predicate PrintableMembers(members: seq<Member>)
  {
    DistinctKeys(members) && forall k :: 0 <= k < |members| ==> 0 !in members[k].key && Printable(members[k].value)
  }

  // The text of a value, entered in a new level, is read as that value or found too deep.
  lemma ParseValue(conf: Conf, f: Format, t: Tok, j: Json, level: nat)
    requires Fresh(conf, t) && Printable(j)
    ensures var n := Feed(conf, t, Print(f, j, level));
      if Fits(conf, t, Depth(j)) then Got(conf, t, n, j) else TooDeep(n)
  {
    hide Feed, Fresh, Got, Printable, SyntaxOf, Good, Written, Meaning, Nesting, Depth, Print;
    PrintedText(conf, f, j, level);
    ReadSyntax(conf, t, SyntaxOf(f, j, level));
  }

  // ---- The round trip ------------------------------------------------------------------

  // A printed value, as a C string, parses back to itself if it fits the depth of the
  // tokener, and is refused as too deep if it does not.
  lemma RoundTrip(conf: Conf, f: Format, j: Json)
    requires conf.maxDepth > 0 && Printable(j)
    ensures var text := Print(f, j, 0); var r := Run(conf, NewTok(), text + [0], 0);
      if Depth(j) < conf.maxDepth then r.err == Success && r.obj == j && r.offset == |text|
      else r.err == DepthExceeded && r.obj == Null
  {
    hide Printable, SyntaxOf, Good, Written, Meaning, Nesting, Depth, Print, Run;
    PrintedText(conf, f, j, 0);
    BlankParts(f, 0, 0);
    var text := Print(f, j, 0);
    assert [] + text + [] == text;
    Accepts(conf, [], SyntaxOf(f, j, 0), []);
  }

  // The same for the functions themselves: json_object_to_json_string_ext, then
  // json_tokener_parse_ex on a new tokener.
  method PrintAndParse(f: Format, conf: Conf, j: Json) returns (ret: Json, err: Error)
    requires conf.maxDepth > 0 && Printable(j)
    ensures Depth(j) < conf.maxDepth ==> err == Success && ret == j
    ensures Depth(j) >= conf.maxDepth ==> err == DepthExceeded
  {
    var pb := new PrintBuf();
    var text := ToJsonString(f, pb, j);
    RoundTrip(conf, f, j);
    var tok := new Tokener(conf);
    ret := tok.ParseEx(text + [0]);
    err := tok.err;
  }

  // ---- Two places where the tokener departs from what it is for ------------------------------

  // The C string "[1/*" is accepted, with the value 1.
  lemma InnerValueAccepted(conf: Conf)
    requires conf.maxDepth >= 2
    ensures var r := Run(conf, NewTok(), [LBRACKET, 49, SLASH, STAR, 0], 0);
      r.err == Success && r.obj == Int(1) && r.tok.below != []
  {
    hide Step, Feed, Run, ParsedNumber;
    var t := NewTok();
    OpenArray(conf, t);
    var t1 := t.(top := Level(EatWs, Array, Arr([]), None));
    PushItem(conf, t, t1, [], 49);
    OneDigit(conf, t1);
    var t3 := Step(conf, t1, 49).tok;
    OpenComment(conf, t3, Int(1));
    var t4 := Closed(t3, Int(1), SLASH).(top := DoneLevel(Int(1)).(state := CommentStart), pb := [SLASH]);
    CommentMore(conf, t4, STAR);
    var t5 := Step(conf, t4, STAR).tok;
    NulInComment(conf, t5);
    RunFive(conf, t, t1, t3, t4, t5);
  }

  lemma OneDigit(conf: Conf, t: Tok)
    requires Fresh(conf, Inner(t, ArrayAdd)) && t.pend.NoHi? && WF(conf, t)
    requires Redo(conf, t, Null, 49) == Redo(conf, Inner(t, ArrayAdd), Null, 49)
    ensures Step(conf, t, 49).More? && Got(conf, Inner(t, ArrayAdd), Step(conf, t, 49), Int(1))
  {
    hide WF, ParsedNumber, Redo, IsInteger, IntegerOf;
    var p := Inner(t, ArrayAdd);
    BeginWord(conf, p, 49);
    var d := Goto(p, Number).(pb := [], isDouble := false);
    NumberStep(conf, d, 49);
    assert d.pb + [49] == [49];
    OneIs();
    IntegerParsed(conf, Goto(p, Number), [49]);
  }

  lemma OneIs()
    ensures IsInteger([49]) && IntegerOf([49]) == 1
  {
    assert [49 as byte][..0] == [];
  }

  lemma OpenComment(conf: Conf, t: Tok, j: Json)
    requires WF(conf, t) && t.pend.NoHi? && Ends(conf, t, j)
    ensures var t' := Closed(t, j, SLASH).(top := DoneLevel(j).(state := CommentStart), pb := [SLASH]);
      Step(conf, t, SLASH) == More(t') && WF(conf, t')
  {
    hide StackOk, ParsedNumber, Redo;
    Close(conf, t, j, Null, SLASH);
    OneMore(conf, Closed(t, j, SLASH), SLASH, Goto(Closed(t, j, SLASH), CommentStart).(pb := [SLASH]));
  }

  lemma NulInComment(conf: Conf, t: Tok)
    requires WF(conf, t) && t.pend.NoHi? && t.top.state == Comment && t.top.saved == Finish
    ensures var n := Step(conf, t, 0);
      n.Stop? && n.err == Success && n.tok.top.current == t.top.current && n.tok.below == t.below
  {
    hide StackOk;
    assert Micro(conf, t, Null, 0) == MicroComment(t, 0);
  }

  lemma RunFive(conf: Conf, t: Tok, t1: Tok, t3: Tok, t4: Tok, t5: Tok)
    requires WF(conf, t) && WF(conf, t1) && WF(conf, t3) && WF(conf, t4) && WF(conf, t5)
    requires Step(conf, t, LBRACKET) == More(t1) && Step(conf, t1, 49) == More(t3)
    requires Step(conf, t3, SLASH) == More(t4) && Step(conf, t4, STAR) == More(t5) && Step(conf, t5, 0).Stop?
    ensures var n := Step(conf, t5, 0);
      Run(conf, t, [LBRACKET, 49, SLASH, STAR, 0], 0) == Out(n.tok, n.err, if n.used then 5 else 4)
  {
    hide WF, Step;
    var s := [LBRACKET, 49, SLASH, STAR, 0];
    assert Run(conf, t5, s, 4) ==
      Out(Step(conf, t5, 0).tok, Step(conf, t5, 0).err, if Step(conf, t5, 0).used then 5 else 4);
    assert Run(conf, t4, s, 3) == Run(conf, t5, s, 4);
    assert Run(conf, t3, s, 2) == Run(conf, t4, s, 3);
    assert Run(conf, t1, s, 1) == Run(conf, t3, s, 2);
  }

  // ---- Surrogate pairs that do not come out ----------------------------------------------------

  // The tokener within a string at the top, with pb read.
  function AtString(pb: seq<byte>): Tok
  {
    NewTok().(top := FRESH.(state := InString), quote := DQUOTE, pb := pb)
  }

  lemma OpenString(conf: Conf)
    requires conf.maxDepth > 0
    ensures WF(conf, NewTok()) && WF(conf, AtString([])) && Feed(conf, NewTok(), [DQUOTE]) == More(AtString([]))
  {
    BeginValue(conf, NewTok(), DQUOTE);
    OneMore(conf, Goto(NewTok(), Start), DQUOTE, AtString([]));
    FeedTwo(conf, NewTok(), DQUOTE, DQUOTE);
  }

  // The first escape of a pair, at the start of a string.
  function AfterHigh(u: nat): Tok
  {
    AtString([]).(top := FRESH.(state := InString, saved := InString), ucs := u, stPos := 4, pend := Hi(u))
  }

  function HighText(d: seq<byte>): seq<byte>
  {
    [DQUOTE] + BACKSLASH_U + d
  }

  lemma FeedHigh(conf: Conf, d: seq<byte>)
    requires conf.maxDepth > 0 && FourHex(d) && IsHigh(HexValue(d))
    ensures WF(conf, NewTok())
    ensures Feed(conf, NewTok(), HighText(d)) == More(AfterHigh(HexValue(d))) && WF(conf, AfterHigh(HexValue(d)))
  {
    hide WF, Feed, HexValue, FourHex;
    OpenString(conf);
    OpenEscape(conf, AtString([]));
    FourDigits(conf, Opened(AtString([])), d);
    FeedConcat(conf, NewTok(), [DQUOTE], BACKSLASH_U);
    FeedConcat(conf, NewTok(), [DQUOTE] + BACKSLASH_U, d);
    assert HexValue(d) / 1024 == 54;
  }

  // A quote that ends the string and the text.
  lemma EndString(conf: Conf, t: Tok, text: seq<byte>)
    requires WF(conf, t) && Feed(conf, t, text).More?
    requires var e := Feed(conf, t, text).tok;
      (e.pend.NoHi? || e.pend.Hi?) && e.below == [] && e.top.state == InString && e.quote == DQUOTE
    ensures var r := Run(conf, t, text + [DQUOTE], 0);
      r.err == Success && r.obj == Str(EndPending(Feed(conf, t, text).tok).pb)
  {
    hide StackOk, Step, Feed;
    var e := Feed(conf, t, text).tok;
    var f := EndPending(e);
    QuoteStep(conf, e);
    assert text[0..] == text;
    RunFeed(conf, t, text, [DQUOTE], 0);
    assert (text + [DQUOTE])[|text|] == DQUOTE;
    assert Run(conf, Complete(f, Str(f.pb)), text + [DQUOTE], |text| + 1).obj == Str(f.pb);
  }

  lemma QuoteStep(conf: Conf, e: Tok)
    requires WF(conf, e) && (e.pend.NoHi? || e.pend.Hi?) && e.top.state == InString && e.quote == DQUOTE
    ensures var f := EndPending(e);
      Step(conf, e, DQUOTE) == More(Complete(f, Str(f.pb))) && WF(conf, Complete(f, Str(f.pb)))
  {
    hide StackOk, Plain;
    var f := EndPending(e);
    assert WF(conf, f);
    QuoteEnds(conf, f);
    assert Step(conf, e, DQUOTE) == Plain(conf, f, DQUOTE) == Step(conf, f, DQUOTE);
  }

  // A pair of escapes as the only string of a text.
  lemma PairRead(conf: Conf, hi: seq<byte>, lo: seq<byte>)
    requires conf.maxDepth > 0 && FourHex(hi) && IsHigh(HexValue(hi)) && FourHex(lo)
    ensures var r := Run(conf, NewTok(), HighText(hi) + (BACKSLASH_U + lo) + [DQUOTE], 0);
      r.err == Success && r.obj == Str(EndPending(Emit(PairOpened(AfterHigh(HexValue(hi))), HexValue(lo))).pb)
  {
    hide WF, Feed, Run, HexValue, FourHex, Emit, HighText;
    FeedHigh(conf, hi);
    var h := AfterHigh(HexValue(hi));
    SecondEscape(conf, h, lo);
    FeedConcat(conf, NewTok(), HighText(hi), BACKSLASH_U + lo);
    EmitShape(PairOpened(h), HexValue(lo));
    EndString(conf, NewTok(), HighText(hi) + (BACKSLASH_U + lo));
  }

  // The same with a break between the escapes.
  lemma HalvesRead(conf: Conf, hi: seq<byte>, lo: seq<byte>)
    requires conf.maxDepth > 0 && FourHex(hi) && IsHigh(HexValue(hi)) && FourHex(lo) && IsLow(HexValue(lo))
    ensures var q := Run(conf, NewTok(), HighText(hi), 0);
      && q.err == Continue && WF(conf, q.tok)
      && Run(conf, q.tok, BACKSLASH_U + lo + [DQUOTE], 0).err == Success
      && Run(conf, q.tok, BACKSLASH_U + lo + [DQUOTE], 0).obj == Str(REPLACEMENT + REPLACEMENT)
  {
    hide WF, Feed, Run, HexValue, FourHex, Emit, HighText;
    FeedHigh(conf, hi);
    var h := AfterHigh(HexValue(hi));
    RunUsedUp(conf, NewTok(), HighText(hi), h);
    SplitPair(conf, h, lo);
    SplitShape(conf, h, lo);
    EndString(conf, EndPending(h), BACKSLASH_U + lo);
    assert [] + REPLACEMENT + REPLACEMENT == REPLACEMENT + REPLACEMENT;
  }

  lemma SplitShape(conf: Conf, h: Tok, d: seq<byte>)
    requires WF(conf, h) && h.pend.Hi? && h.top.state == InString && FourHex(d)
    ensures WF(conf, EndPending(h))
    ensures var n := Feed(conf, EndPending(h), BACKSLASH_U + d);
      n.More? && n.tok.below == h.below && n.tok.top.state == InString && n.tok.quote == h.quote
  {
    hide WF, Step, Feed, HexValue, FourHex;
    EndKeeps(conf, h);
    OpenEscape(conf, EndPending(h));
    FeedConcat(conf, EndPending(h), BACKSLASH_U, d);
    FourDigits(conf, Opened(EndPending(h)), d);
    EmitShape(Opened(EndPending(h)), HexValue(d));
  }

  // "\ud834\udd1e" is U+1D11E; cut between its escapes it becomes two replacements.
  lemma BrokenPair(conf: Conf)
    requires conf.maxDepth > 0
    ensures var a, b := HighText([100, 56, 51, 52]), BACKSLASH_U + [100, 100, 49, 101] + [DQUOTE];
      var q := Run(conf, NewTok(), a, 0);
      && q.err == Continue && WF(conf, q.tok)
      && Run(conf, NewTok(), a + b, 0).err == Success && Run(conf, NewTok(), a + b, 0).obj == Str(Utf8(0x1D11E))
      && Run(conf, q.tok, b, 0).err == Success && Run(conf, q.tok, b, 0).obj == Str(REPLACEMENT + REPLACEMENT)
  {
    hide WF, Run, HighText;
    var hi, lo: seq<byte> := [100, 56, 51, 52], [100, 100, 49, 101];
    assert FourHex(hi) && HexValue(hi) == 0xD834 && FourHex(lo) && HexValue(lo) == 0xDD1E;
    hide FourHex, HexValue;
    PairRead(conf, hi, lo);
    HalvesRead(conf, hi, lo);
    assert HighText(hi) + (BACKSLASH_U + lo + [DQUOTE]) == HighText(hi) + (BACKSLASH_U + lo) + [DQUOTE];
    var e := Emit(PairOpened(AfterHigh(0xD834)), 0xDD1E);
    assert e.pb == [] + [] + Utf8(0x1D11E) == Utf8(0x1D11E) && e.pend.NoHi?;
  }

  // "\ud836\udc00" stands for U+1D800 and is read as one replacement.
  lemma MaskedPair(conf: Conf)
    requires conf.maxDepth > 0
    ensures var text := HighText([100, 56, 51, 54]) + (BACKSLASH_U + [100, 99, 48, 48]) + [DQUOTE];
      var r := Run(conf, NewTok(), text, 0);
      DecodePair(0xD836, 0xDC00) == 0x1D800 && r.err == Success && r.obj == Str(REPLACEMENT) != Str(Utf8(0x1D800))
  {
    hide WF, Run, HighText;
    var hi, lo: seq<byte> := [100, 56, 51, 54], [100, 99, 48, 48];
    assert FourHex(hi) && HexValue(hi) == 0xD836 && FourHex(lo) && HexValue(lo) == 0xDC00;
    hide FourHex, HexValue;
    PairRead(conf, hi, lo);
    var e := Emit(PairOpened(AfterHigh(0xD836)), 0xDC00);
    assert e.pend == Hi(0x1D800) && e.pb == [] + [] == [];
    assert [] + REPLACEMENT == REPLACEMENT;
    assert |Utf8(0x1D800)| == 4 && |REPLACEMENT| == 3;
  }
}
