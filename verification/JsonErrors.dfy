// Where a JSON text stops being one: after every text that can still become one, which
// bytes are accepted, and which error any other gives, at its very place.
module JsonErrors {
  import opened Bytes
  import opened Wrappers
  import opened Json
  import opened Int64Parse
  import opened JsonMachine
  import opened JsonBlanks
  import opened JsonEscapes
  import opened JsonReading
  import opened JsonGrammar

  // ---- Single bytes ----------------------------------------------------------------------

  // The first byte of a value: a bracket, a quote, a digit or minus, or one of n, t and f.
  predicate Begins(c: byte)
  {
    c in {91, 123, 34, 39, 45, 110, 78, 116, 84, 102, 70} || 48 <= c <= 57
  }

  lemma BeginsOr(conf: Conf, t: Tok, c: byte)
    requires Fresh(conf, t) && !IsSpace(c) && c != SLASH
    ensures if Begins(c) then Redo(conf, t, Null, c).More?
            else Redo(conf, t, Null, c) == Stop(Goto(t, Start), Unexpected, false)
  {
    hide WF, Redo, Micro;
    BeginValue(conf, t, c);
    if IsDigit(c) || c == MINUS {
      DigitNoLetter(c);
      BeginWord(conf, t, c);
      NumberChar(c);
      NumberStep(conf, Goto(t, Number).(pb := [], isDouble := false), c);
    } else if Lower(c) == LETTER_N {
      BeginWord(conf, t, c);
      FirstOfNull(conf, Goto(t, NullWord).(pb := [], stPos := 0), c);
    } else if Lower(c) in {LETTER_T, LETTER_F} {
      BeginWord(conf, t, c);
      FirstOfBool(conf, Goto(t, BoolWord).(pb := [], stPos := 0), c);
    } else {
      AtStart(conf, Goto(t, Start), c);
    }
  }

  lemma NumberChar(c: byte)
    requires IsDigit(c) || c == MINUS
    ensures IsNumberChar(c)
  {
  }

  lemma AtStart(conf: Conf, t: Tok, c: byte)
    requires WF(conf, t) && t.pend.NoHi? && t.top.state == Start && Micro(conf, t, Null, c) == MicroStart(t, c)
    requires Lower(c) !in {LETTER_N, LETTER_T, LETTER_F} && !IsDigit(c) && c != MINUS
    ensures if Begins(c) then Redo(conf, t, Null, c).More? else Redo(conf, t, Null, c) == Stop(t, Unexpected, false)
  {
    hide WF, Micro;
    MicroKeeps(conf, t, Null, c);
  }

  lemma FirstOfNull(conf: Conf, t: Tok, c: byte)
    requires WF(conf, t) && t.pend.NoHi? && t.top == NULL_READ && t.stPos == 0 && t.pb == [] && Lower(c) == LETTER_N
    ensures Redo(conf, t, Null, c).More?
  {
    hide WF;
    assert t.pb + [c] == [c];
    assert Micro(conf, t, Null, c) == MicroNull(t, c);
  }

  lemma FirstOfBool(conf: Conf, t: Tok, c: byte)
    requires WF(conf, t) && t.pend.NoHi? && t.top == BOOL_READ && t.stPos == 0 && t.pb == []
    requires Lower(c) in {LETTER_T, LETTER_F}
    ensures Redo(conf, t, Null, c).More?
  {
    hide WF;
    assert t.pb + [c] == [c];
    assert Micro(conf, t, Null, c) == MicroBool(t, c);
  }

  // Behind an element: a comma or the closing bracket.
  lemma ItemOr(conf: Conf, t0: Tok, t: Tok, items: seq<Json>, c: byte)
    requires items != [] && ItemsDone(conf, t0, t, items) && Parting(c)
    ensures var n := Redo(conf, t, Null, c);
      if c == 44 || c == 93 then n.More?
      else n.Stop? && n.err == ArraySepExpected && !n.used && n.tok.top.state == ArraySep && n.tok.top.saved == ArraySep
  {
    hide WF, Ends, Redo, Micro;
    AddItem(conf, t0, t, items, c);
    var j := items[|items| - 1];
    var t' := Popped(Closed(t, j, c)).(top := Level(ArraySep, ArraySep, Arr(items), None));
    AtArraySep(conf, t', j, c);
  }

  lemma AtArraySep(conf: Conf, t: Tok, obj: Json, c: byte)
    requires WF(conf, t) && t.pend.NoHi? && t.top.state == ArraySep
    ensures var n := Redo(conf, t, obj, c);
      if c == 44 || c == 93 then n.More? else n == Stop(t, ArraySepExpected, false)
  {
    hide StackOk;
    assert Micro(conf, t, obj, c) == MicroArray(conf, t, obj, c);
  }

  // Behind a member: a comma or the closing brace.
  lemma MemberOr(conf: Conf, t0: Tok, t: Tok, members: seq<Member>, m: Member, c: byte)
    requires MembersDone(conf, t0, t, members, Some(m)) && Parting(c)
    ensures var n := Redo(conf, t, Null, c);
      if c == 44 || c == 125 then n.More?
      else
        && n.Stop? && n.err == ValueSepExpected && !n.used
        && n.tok.top.state == ObjectSep && n.tok.top.saved == ObjectSep
  {
    hide WF, Ends, Redo, Micro, WithMember;
    AddMember(conf, t0, t, members, m, c);
    var all := WithMember(members, m.key, m.value);
    var t' := Popped(Closed(t, m.value, c)).(top := Level(ObjectSep, ObjectSep, Obj(all), None));
    AtObjectSep(conf, t', m.value, c);
  }

  lemma AtObjectSep(conf: Conf, t: Tok, obj: Json, c: byte)
    requires WF(conf, t) && t.pend.NoHi? && t.top.state == ObjectSep
    ensures var n := Redo(conf, t, obj, c);
      if c == 44 || c == 125 then n.More? else n == Stop(t, ValueSepExpected, false)
  {
    hide StackOk;
    assert Micro(conf, t, obj, c) == MicroObject(conf, t, obj, c);
  }

  // Behind a name: its colon.
  lemma ColonOr(conf: Conf, t0: Tok, t: Tok, members: seq<Member>, key: seq<byte>, c: byte)
    requires NameRead(conf, t0, t, members, key) && !IsSpace(c) && c != SLASH
    ensures var n := Redo(conf, t, Null, c);
      if c == 58 then n.More? else n == Stop(Goto(t, FieldEnd), KeySepExpected, false)
  {
    hide StackOk;
    Enter(conf, t, Null, c);
    var t' := Goto(t, FieldEnd);
    assert Micro(conf, t', Null, c) == MicroObject(conf, t', Null, c);
  }

  // Before a name: a quote, or the closing brace, which strict tokeners refuse behind a comma.
  lemma NameOr(conf: Conf, t0: Tok, t: Tok, members: seq<Member>, c: byte)
    requires AtMember(conf, t0, t, members) && !IsSpace(c) && c != SLASH
    ensures var n := Redo(conf, t, Null, c);
      var refused := conf.strict && t.top.saved == FieldStartAfterSep;
      if c == 34 || c == 39 || (c == 125 && !refused) then n.More?
      else n == Stop(Goto(t, t.top.saved), if c == 125 then Unexpected else KeyNameExpected, false)
  {
    hide StackOk;
    Enter(conf, t, Null, c);
    var t' := Goto(t, t.top.saved);
    assert Micro(conf, t', Null, c) == MicroObject(conf, t', Null, c);
  }

  // A closing bracket where an element may stand: refused behind a comma if strict.
  lemma BracketOr(conf: Conf, t0: Tok, t: Tok, items: seq<Json>)
    requires AtItem(conf, t0, t, items)
    ensures var n := Redo(conf, t, Null, 93);
      if conf.strict && t.top.saved == ArrayAfterSep then n == Stop(Goto(t, t.top.saved), Unexpected, false)
      else n.More?
  {
    hide StackOk;
    Enter(conf, t, Null, RBRACKET);
    var t' := Goto(t, t.top.saved);
    assert Micro(conf, t', Null, RBRACKET) == MicroArray(conf, t', Null, RBRACKET);
  }

  // ---- Texts that can still become a value -------------------------------------------------

  // An open container, as far as the value that is due next: an element, or the value of a
  // member.
  datatype Frame =
    | InList(pad: seq<byte>, elems: seq<Elem>, lead: seq<byte>)
    | InFields(pad: seq<byte>, fields: seq<Entry>, lead: seq<byte>, key: Key)

  // What follows the open containers: nothing, when a value is due; a list or object, up to
  // and behind an element or member; the same with a comma; or up to and behind a name.
  datatype Tail =
    | Nothing
    | Elements(pad: seq<byte>, elems: seq<Elem>)
    | NextElement(pad: seq<byte>, elems: seq<Elem>, lead: seq<byte>)
    | Entries(pad: seq<byte>, fields: seq<Entry>)
    | NextEntry(pad: seq<byte>, fields: seq<Entry>, lead: seq<byte>)
    | Name(pad: seq<byte>, fields: seq<Entry>, lead: seq<byte>, key: Key)

  function Comma(n: nat): seq<byte>
  {
    if n > 0 then [44] else []
  }

  ghost predicate GoodFrame(conf: Conf, n: nat, f: Frame)
  {
    match f
    case InList(pad, elems, lead) =>
      && Blank(pad) && GoodElems(conf, elems) && Blank(lead) && n + 1 + NestingElems(elems) <= conf.maxDepth - 1
    case InFields(pad, fields, lead, key) =>
      && Blank(pad) && GoodFields(conf, fields) && Blank(lead) && GoodKey(key)
      && n + 1 + NestingFields(fields) <= conf.maxDepth - 1
  }

  // n levels are open; one more is there for the value that is due.
  ghost predicate GoodTail(conf: Conf, n: nat, t: Tail)
  {
    match t
    case Nothing => true
    case Elements(pad, elems) =>
      Blank(pad) && GoodElems(conf, elems) && n + 1 + NestingElems(elems) <= conf.maxDepth - 1
    case NextElement(pad, elems, lead) =>
      && Blank(pad) && elems != [] && GoodElems(conf, elems) && Blank(lead)
      && n + 1 + NestingElems(elems) <= conf.maxDepth - 1
    case Entries(pad, fields) =>
      Blank(pad) && GoodFields(conf, fields) && n + 1 + NestingFields(fields) <= conf.maxDepth - 1
    case NextEntry(pad, fields, lead) =>
      && Blank(pad) && fields != [] && GoodFields(conf, fields) && Blank(lead)
      && n + 1 + NestingFields(fields) <= conf.maxDepth - 1
    case Name(pad, fields, lead, key) =>
      && Blank(pad) && GoodFields(conf, fields) && Blank(lead) && GoodKey(key)
      && n + 1 + NestingFields(fields) <= conf.maxDepth - 1
  }

  ghost function FrameText(conf: Conf, n: nat, f: Frame): (s: seq<byte>)
    requires GoodFrame(conf, n, f)
  {
    match f
    case InList(pad, elems, lead) => [91] + pad + WrittenElems(conf, elems) + (Comma(|elems|) + lead)
    case InFields(pad, fields, lead, key) =>
      [123] + pad + WrittenFields(conf, fields) + (Comma(|fields|) + lead) + WrittenKey(key)
  }

  ghost function TailText(conf: Conf, n: nat, t: Tail): (s: seq<byte>)
    requires GoodTail(conf, n, t)
  {
    match t
    case Nothing => []
    case Elements(pad, elems) => [91] + pad + WrittenElems(conf, elems)
    case NextElement(pad, elems, lead) => [91] + pad + WrittenElems(conf, elems) + ([44] + lead)
    case Entries(pad, fields) => [123] + pad + WrittenFields(conf, fields)
    case NextEntry(pad, fields, lead) => [123] + pad + WrittenFields(conf, fields) + ([44] + lead)
    case Name(pad, fields, lead, key) =>
      [123] + pad + WrittenFields(conf, fields) + (Comma(|fields|) + lead) + (JsonGrammar.Name(key) + key.mid)
  }

  // The bytes that may follow, blanks, comments and what a value before still takes aside.
  predicate Allowed(strict: bool, t: Tail, c: byte)
  {
    match t
    case Nothing => Begins(c)
    case Elements(_, elems) => if elems == [] then Begins(c) || c == 93 else c == 44 || c == 93
    case NextElement(_, _, _) => Begins(c) || (c == 93 && !strict)
    case Entries(_, fields) => if fields == [] then c == 34 || c == 39 || c == 125 else c == 44 || c == 125
    case NextEntry(_, _, _) => c == 34 || c == 39 || (c == 125 && !strict)
    case Name(_, _, _, _) => c == 58
  }

  // The error that any other byte gives.
  function Complaint(t: Tail, c: byte): Error
  {
    match t
    case Nothing => Unexpected
    case Elements(_, elems) => if elems == [] then Unexpected else ArraySepExpected
    case NextElement(_, _, _) => Unexpected
    case Entries(_, fields) => if fields == [] then KeyNameExpected else ValueSepExpected
    case NextEntry(_, _, _) => if c == 125 then Unexpected else KeyNameExpected
    case Name(_, _, _, _) => KeySepExpected
  }

  // c goes on after a value if that is a number.
  predicate MayExtend(t: Tail, c: byte)
  {
    IsNumberChar(c) && ((t.Elements? && t.elems != []) || (t.Entries? && t.fields != []))
  }

  // ---- Reading up to there ---------------------------------------------------------------

  lemma OpenList(conf: Conf, u: Tok, pad: seq<byte>, elems: seq<Elem>)
    requires Fresh(conf, u) && Blank(pad) && GoodElems(conf, elems) && Fits(conf, u, 1 + NestingElems(elems))
    ensures var n := Feed(conf, u, [91] + pad + WrittenElems(conf, elems));
      n.More? && ItemsDone(conf, u, n.tok, Items(conf, elems))
  {
    hide WF, Step, WrittenElems, Blank, NestingElems, GoodElems;
    OpenArray(conf, u);
    var open := u.(top := Level(EatWs, Array, Arr([]), None));
    FeedTwo(conf, u, LBRACKET, LBRACKET);
    FeedBlank(conf, open, pad);
    var t1 := Feed(conf, open, pad).tok;
    FeedConcat(conf, u, [LBRACKET], pad);
    ReadElems(conf, u, t1, elems);
    FeedConcat(conf, u, [LBRACKET] + pad, WrittenElems(conf, elems));
  }

  lemma OpenFields(conf: Conf, u: Tok, pad: seq<byte>, fields: seq<Entry>) returns (last: Option<Member>)
    requires Fresh(conf, u) && Blank(pad) && GoodFields(conf, fields) && Fits(conf, u, 1 + NestingFields(fields))
    ensures last.Some? <==> fields != []
    ensures var n := Feed(conf, u, [123] + pad + WrittenFields(conf, fields));
      n.More? && MembersDone(conf, u, n.tok, BeforeLast(conf, fields), last)
  {
    hide WF, Step, WrittenFields, Blank, NestingFields, GoodFields, WithMember;
    OpenObject(conf, u);
    var open := u.(top := Level(EatWs, FieldStart, Obj([]), None));
    FeedTwo(conf, u, LBRACE, LBRACE);
    FeedBlank(conf, open, pad);
    var t1 := Feed(conf, open, pad).tok;
    FeedConcat(conf, u, [LBRACE], pad);
    last := ReadEntries(conf, u, t1, fields);
    FeedConcat(conf, u, [LBRACE] + pad, WrittenFields(conf, fields));
  }

  // In t a value is due, which is read as from u: after a name on every byte, and in a list
  // on every byte but the closing bracket.
  ghost predicate Due(conf: Conf, t: Tok, u: Tok, every: bool)
  {
    && WF(conf, t) && t.pend.NoHi? && Fresh(conf, u)
    && forall c ::
         !IsSpace(c) && c != SLASH && (every || c != RBRACKET) ==> Redo(conf, t, Null, c) == Redo(conf, u, Null, c)
  }

  lemma ReadFrame(conf: Conf, u: Tok, f: Frame) returns (t: Tok, u': Tok)
    requires Fresh(conf, u) && GoodFrame(conf, |u.below|, f)
    ensures Feed(conf, u, FrameText(conf, |u.below|, f)) == More(t)
    ensures Due(conf, t, u', f.InFields?) && |u'.below| == |u.below| + 1
  {
    hide WF, Step, Feed, Redo, WrittenElems, WrittenFields, WrittenKey, KeyOf, GoodKey, Blank, GoodElems, GoodFields,
      NestingElems, NestingFields, IsSpace;
    match f {
      case InList(pad, elems, lead) =>
        OpenList(conf, u, pad, elems);
        var open := [91] + pad + WrittenElems(conf, elems);
        var t1 := Feed(conf, u, open).tok;
        OpenItem(conf, u, t1, Items(conf, elems), lead);
        FeedConcat(conf, u, open, Comma(|elems|) + lead);
        t := Feed(conf, t1, Comma(|elems|) + lead).tok;
        u' := Inner(t, ArrayAdd);
        PushItem(conf, u, t, Items(conf, elems), DQUOTE) by { QuoteNoSpace(); }
        forall c | !IsSpace(c) && c != SLASH && c != RBRACKET
          ensures Redo(conf, t, Null, c) == Redo(conf, u', Null, c)
        {
          PushItem(conf, u, t, Items(conf, elems), c);
        }
      case InFields(pad, fields, lead, key) =>
        var last := OpenFields(conf, u, pad, fields);
        var open := [123] + pad + WrittenFields(conf, fields);
        var t1 := Feed(conf, u, open).tok;
        OpenMember(conf, u, t1, BeforeLast(conf, fields), last, lead);
        FeedConcat(conf, u, open, Comma(|fields|) + lead);
        var t2 := Feed(conf, t1, Comma(|fields|) + lead).tok;
        var all := AllMembers(BeforeLast(conf, fields), last);
        FeedKey(conf, u, t2, all, key);
        FeedConcat(conf, u, open + (Comma(|fields|) + lead), WrittenKey(key));
        t := Feed(conf, t2, WrittenKey(key)).tok;
        u' := Inner(t, ValueAdd);
        PushMember(conf, u, t, all, KeyOf(key), DQUOTE) by { QuoteNoSpace(); }
        forall c | !IsSpace(c) && c != SLASH
          ensures Redo(conf, t, Null, c) == Redo(conf, u', Null, c)
        {
          PushMember(conf, u, t, all, KeyOf(key), c);
        }
    }
  }

  lemma QuoteNoSpace()
    ensures !IsSpace(DQUOTE)
  {
  }

  // Open containers, each inside the one before.
  ghost predicate GoodPath(conf: Conf, n: nat, path: seq<Frame>)
    decreases |path|
  {
    path == [] || (GoodFrame(conf, n, path[0]) && GoodPath(conf, n + 1, path[1..]))
  }

  ghost function PathText(conf: Conf, n: nat, path: seq<Frame>): (s: seq<byte>)
    requires GoodPath(conf, n, path)
    ensures path != [] ==> s != [] && (s[0] == LBRACKET || s[0] == LBRACE)
    decreases |path|
  {
    if path == [] then [] else FrameText(conf, n, path[0]) + PathText(conf, n + 1, path[1..])
  }

  // Behind the last open container a value is due, and not a closing bracket.
  predicate AfterName(path: seq<Frame>)
  {
    path == [] || path[|path| - 1].InFields?
  }

  lemma DueRestart(conf: Conf, t: Tok, u: Tok, every: bool, s: seq<byte>)
    requires Due(conf, t, u, every) && (s != [] ==> s[0] == LBRACKET || s[0] == LBRACE) && (s == [] ==> t == u)
    ensures Feed(conf, t, s) == Feed(conf, u, s)
  {
    hide WF, Feed, Redo;
    if s != [] {
      BracketNoSpace();
      Restart(conf, t, u, s);
    }
  }

  lemma BracketNoSpace()
    ensures !IsSpace(LBRACKET) && !IsSpace(LBRACE)
  {
  }

  lemma {:induction false} ReadPath(conf: Conf, u: Tok, path: seq<Frame>) returns (t: Tok, u': Tok)
    requires Fresh(conf, u) && GoodPath(conf, |u.below|, path)
    ensures Feed(conf, u, PathText(conf, |u.below|, path)) == More(t)
    ensures Due(conf, t, u', AfterName(path)) && |u'.below| == |u.below| + |path|
    decreases |path|
  {
    hide WF, Step, Redo, GoodFrame, FrameText;
    if path == [] {
      t, u' := u, u;
    } else {
      var n, r := |u.below|, path[1..];
      var t1, u1 := ReadFrame(conf, u, path[0]);
      t, u' := ReadPath(conf, u1, r);
      var s := PathText(conf, n + 1, r);
      FeedConcat(conf, u, FrameText(conf, n, path[0]), s);
      if r != [] {
        DueRestart(conf, t1, u1, path[0].InFields?, s);
      } else {
        t, u' := t1, u1;
      }
    }
  }

  // ---- The byte behind it -------------------------------------------------------------------

  // n is what becomes of c behind the tail.
  predicate Verdict(strict: bool, tail: Tail, c: byte, n: Next)
  {
    if Allowed(strict, tail, c) then n.More?
    else
      && n.Stop? && n.err == Complaint(tail, c) && !n.used
      && n.tok.top.state != Finish && n.tok.top.saved != Finish
  }

  ghost predicate Judged(conf: Conf, tail: Tail, c: byte, t: Tok)
  {
    WF(conf, t) && t.pend.NoHi? && Verdict(conf.strict, tail, c, Redo(conf, t, Null, c))
  }

  lemma JudgeItem(conf: Conf, u: Tok, t: Tok, items: seq<Json>, tail: Tail, c: byte)
    requires AtItem(conf, u, t, items) && !IsSpace(c) && c != SLASH && |u.below| < conf.maxDepth - 1
    requires if t.top.saved == Array then tail.Elements? && tail.elems == [] else tail.NextElement?
    ensures Judged(conf, tail, c, t)
  {
    hide WF, Redo;
    if c == RBRACKET {
      BracketOr(conf, u, t, items);
    } else {
      PushItem(conf, u, t, items, c);
      BeginsOr(conf, Inner(t, ArrayAdd), c);
    }
  }

  lemma JudgeElements(conf: Conf, u: Tok, tail: Tail, c: byte)
    requires Fresh(conf, u) && GoodTail(conf, |u.below|, tail) && (tail.Elements? || tail.NextElement?)
    requires !IsSpace(c) && c != SLASH && !MayExtend(tail, c)
    ensures var n := Feed(conf, u, TailText(conf, |u.below|, tail)); n.More? && Judged(conf, tail, c, n.tok)
  {
    hide WF, Step, Feed, Redo, WrittenElems, Blank, GoodElems, NestingElems, IsSpace, Ends;
    var pad, elems := tail.pad, tail.elems;
    var items, open := Items(conf, elems), [91] + pad + WrittenElems(conf, elems);
    OpenList(conf, u, pad, elems);
    var t1 := Feed(conf, u, open).tok;
    if tail.NextElement? {
      OpenItem(conf, u, t1, items, tail.lead);
      FeedConcat(conf, u, open, [44] + tail.lead);
      JudgeItem(conf, u, Feed(conf, t1, [44] + tail.lead).tok, items, tail, c);
    } else if elems == [] {
      JudgeItem(conf, u, t1, items, tail, c);
    } else {
      ItemOr(conf, u, t1, items, c);
    }
  }

  lemma JudgeName(conf: Conf, u: Tok, t: Tok, members: seq<Member>, last: Option<Member>, tail: Tail, c: byte)
    requires MembersDone(conf, u, t, members, last) && !IsSpace(c) && c != SLASH
    requires tail.Name? && Blank(tail.lead) && GoodKey(tail.key)
    ensures var comma, name := (if last.Some? then [44] else []) + tail.lead, JsonGrammar.Name(tail.key) + tail.key.mid;
      var n := Feed(conf, t, comma);
      n.More? && Feed(conf, n.tok, name).More? && Judged(conf, tail, c, Feed(conf, n.tok, name).tok)
  {
    hide WF, Step, Feed, Redo, GoodKey, KeyOf, Blank, IsSpace, Ends, WithMember;
    OpenMember(conf, u, t, members, last, tail.lead);
    var t2 := Feed(conf, t, (if last.Some? then [44] else []) + tail.lead).tok;
    var all := AllMembers(members, last);
    FeedName(conf, u, t2, all, tail.key);
    ColonOr(conf, u, Feed(conf, t2, JsonGrammar.Name(tail.key) + tail.key.mid).tok, all, KeyOf(tail.key), c);
  }

  lemma JudgeEntries(conf: Conf, u: Tok, tail: Tail, c: byte)
    requires Fresh(conf, u) && GoodTail(conf, |u.below|, tail) && (tail.Entries? || tail.NextEntry? || tail.Name?)
    requires !IsSpace(c) && c != SLASH && !MayExtend(tail, c)
    ensures var n := Feed(conf, u, TailText(conf, |u.below|, tail)); n.More? && Judged(conf, tail, c, n.tok)
  {
    hide WF, Step, Feed, Redo, WrittenFields, Blank, GoodFields, NestingFields, GoodKey, IsSpace, Ends, WithMember;
    var pad, fields := tail.pad, tail.fields;
    var open := [123] + pad + WrittenFields(conf, fields);
    var last := OpenFields(conf, u, pad, fields);
    var t1 := Feed(conf, u, open).tok;
    var before := BeforeLast(conf, fields);
    match tail {
      case Entries(_, _) =>
        if fields == [] {
          NameOr(conf, u, t1, [], c);
        } else {
          MemberOr(conf, u, t1, before, last.value, c);
        }
      case NextEntry(_, _, lead) =>
        OpenMember(conf, u, t1, before, last, lead);
        FeedConcat(conf, u, open, [44] + lead);
        NameOr(conf, u, Feed(conf, t1, [44] + lead).tok, AllMembers(before, last), c);
      case Name(_, _, lead, key) =>
        var comma, name := Comma(|fields|) + lead, JsonGrammar.Name(key) + key.mid;
        JudgeName(conf, u, t1, before, last, tail, c);
        FeedConcat(conf, u, open, comma);
        FeedConcat(conf, u, open + comma, name);
    }
  }

  // The state behind a text that can still become a value, and its judgement of c.
  lemma ReadViable(conf: Conf, u: Tok, path: seq<Frame>, tail: Tail, c: byte) returns (t: Tok)
    requires Fresh(conf, u) && GoodPath(conf, |u.below|, path) && GoodTail(conf, |u.below| + |path|, tail)
    requires tail.Nothing? ==> AfterName(path)
    requires !IsSpace(c) && c != SLASH && !MayExtend(tail, c)
    ensures var n := |u.below|;
      Feed(conf, u, PathText(conf, n, path) + TailText(conf, n + |path|, tail)) == More(t)
    ensures Judged(conf, tail, c, t)
  {
    hide WF, Step, Feed, Redo, GoodTail, TailText, GoodPath, PathText, IsSpace, Blank, Begins;
    var n := |u.below|;
    var s, e := PathText(conf, n, path), TailText(conf, n + |path|, tail);
    var t1, u' := ReadPath(conf, u, path);
    FeedConcat(conf, u, s, e);
    TailBegins(conf, n + |path|, tail);
    if tail.Nothing? {
      BeginsOr(conf, u', c);
      assert s + [] == s;
      t := t1;
    } else {
      DueRestart(conf, t1, u', AfterName(path), e);
      t := Feed(conf, u', e).tok;
      if tail.Elements? || tail.NextElement? {
        JudgeElements(conf, u', tail, c);
      } else {
        JudgeEntries(conf, u', tail, c);
      }
    }
  }

  lemma TailBegins(conf: Conf, n: nat, tail: Tail)
    requires GoodTail(conf, n, tail)
    ensures var s := TailText(conf, n, tail);
      if tail.Nothing? then s == [] else s != [] && (s[0] == LBRACKET || s[0] == LBRACE)
  {
    hide WrittenElems, WrittenFields, Blank, GoodElems, GoodFields, NestingElems, NestingFields, GoodKey;
  }

  // Behind every text that can still become a JSON text, exactly the bytes that can go on
  // with it are consumed. Any other one, and the end of the text, is an error at its place.
  lemma ViablePrefix(conf: Conf, before: seq<byte>, path: seq<Frame>, tail: Tail, c: byte, rest: seq<byte>)
    requires conf.maxDepth > 0 && Blank(before) && GoodPath(conf, 0, path) && GoodTail(conf, |path|, tail)
    requires tail.Nothing? ==> AfterName(path)
    requires !IsSpace(c) && c != SLASH && !MayExtend(tail, c)
    ensures var text := before + (PathText(conf, 0, path) + TailText(conf, |path|, tail));
      if Allowed(conf.strict, tail, c) then Feed(conf, NewTok(), text + [c]).More?
      else
        var r := Run(conf, NewTok(), text + ([c] + rest), 0);
        r.err == (if c == 0 then ParseEof else Complaint(tail, c)) && r.obj == Null && r.offset == |text|
  {
    hide WF, Step, Feed, Redo, GoodTail, TailText, PathText, GoodPath, Blank, IsSpace, Judged;
    NewFresh(conf);
    var u, s := NewTok(), PathText(conf, 0, path) + TailText(conf, |path|, tail);
    var text := before + s;
    FeedBlank(conf, u, before);
    var u1 := Feed(conf, u, before).tok;
    var t := ReadViable(conf, u1, path, tail, c);
    FeedConcat(conf, u, before, s);
    JudgedStep(conf, tail, c, t);
    if Allowed(conf.strict, tail, c) {
      FeedConcat(conf, u, text, [c]);
      FeedTwo(conf, t, c, c);
    } else {
      assert text[0..] == text;
      RunFeed(conf, u, text, [c] + rest, 0);
      assert (text + ([c] + rest))[|text|] == c;
    }
  }

  lemma JudgedStep(conf: Conf, tail: Tail, c: byte, t: Tok)
    requires Judged(conf, tail, c, t)
    ensures WF(conf, t)
    ensures var n := Step(conf, t, c);
      if Allowed(conf.strict, tail, c) then n.More?
      else n.Stop? && n.err == (if c == 0 then ParseEof else Complaint(tail, c)) && !n.used
  {
    hide WF, Redo;
  }
}
