// The layout of printed values, told from the text alone: a scan over the bytes keeps how
// many brackets are open and what was last, and says which blanks stand where.
module JsonLayout {
  import opened Bytes
  import opened Json
  import opened Int64Parse
  import opened PrintBufs
  import opened JsonMachine
  import opened JsonPrint

  datatype Quote = Outside | Inside | Skipping

  // What was last, blanks aside: something behind which an element begins, the colon of a
  // member, or anything else.
  datatype Mark = Opened | Colon | Other

  // How many brackets are open, what was last, and the blanks since.
  datatype View = View(depth: int, mark: Mark, blanks: seq<byte>, quote: Quote)

  const START := View(0, Other, [], Outside)

  predicate IsClosing(c: byte)
  {
    c == RBRACKET || c == RBRACE
  }

  function Next(s: View, c: byte): View
  {
    match s.quote
    case Inside => s.(quote := if c == DQUOTE then Outside else if c == BACKSLASH then Skipping else Inside)
    case Skipping => s.(quote := Inside)
    case Outside =>
      if IsSpace(c) then s.(blanks := s.blanks + [c])
      else if c == DQUOTE then View(s.depth, Other, [], Inside)
      else if c == LBRACKET || c == LBRACE then View(s.depth + 1, Opened, [], Outside)
      else if IsClosing(c) then View(s.depth - 1, Other, [], Outside)
      else if c == COMMA then View(s.depth, Opened, [], Outside)
      else if c == COLON then View(s.depth, Colon, [], Outside)
      else View(s.depth, Other, [], Outside)
  }

  function ScanFrom(s: View, t: seq<byte>): View
    decreases |t|
  {
    if t == [] then s else ScanFrom(Next(s, t[0]), t[1..])
  }

  // t without the blanks outside quoted text.
  function Strip(s: View, t: seq<byte>): seq<byte>
    decreases |t|
  {
    if t == [] then []
    else (if s.quote.Outside? && IsSpace(t[0]) then [] else [t[0]]) + Strip(Next(s, t[0]), t[1..])
  }

  // A new line and two spaces for each open bracket, if lines are wanted, and one more
  // space, if spaces are.
  function OwnLine(f: Format, depth: int): seq<byte>
  {
    (if f.pretty && depth >= 0 then [10] + Fill(32, 2 * depth) else []) + if f.spaced then [32] else []
  }

  // The blanks in front of c: a line of its own for elements and closing brackets, a space
  // behind a colon, and nothing elsewhere.
  function Due(f: Format, s: View, c: byte): seq<byte>
  {
    if IsClosing(c) then OwnLine(f, s.depth - 1)
    else if s.mark.Opened? then OwnLine(f, s.depth)
    else if s.mark.Colon? && f.spaced then [32]
    else []
  }

  predicate LaidAt(f: Format, s: View, c: byte)
  {
    s.quote.Outside? && !IsSpace(c) ==> s.blanks == Due(f, s, c)
  }

  predicate Laid(f: Format, s: View, t: seq<byte>)
    decreases |t|
  {
    t == [] || (LaidAt(f, s, t[0]) && Laid(f, Next(s, t[0]), t[1..]))
  }

  // From s on, t is laid out, ends in s', and is r without its blanks.
  predicate Reads(f: Format, s: View, t: seq<byte>, s': View, r: seq<byte>)
  {
    Laid(f, s, t) && ScanFrom(s, t) == s' && Strip(s, t) == r
  }

  lemma {:induction false} ReadsConcat(f: Format, s: View, a: seq<byte>, s1: View, r: seq<byte>, b: seq<byte>,
                                       s2: View, q: seq<byte>)
    requires Reads(f, s, a, s1, r) && Reads(f, s1, b, s2, q)
    ensures Reads(f, s, a + b, s2, r + q)
    decreases |a|
  {
    hide Next, LaidAt, IsSpace;
    if a == [] {
      assert a + b == b && r + q == q;
    } else {
      var n := Next(s, a[0]);
      ReadsConcat(f, n, a[1..], s1, Strip(n, a[1..]), b, s2, q);
      assert (a + b)[1..] == a[1..] + b && (a + b)[0] == a[0];
      var head := if s.quote.Outside? && IsSpace(a[0]) then [] else [a[0]];
      assert head + Strip(n, a[1..]) + q == head + (Strip(n, a[1..]) + q);
    }
  }

  lemma ReadsOne(f: Format, s: View, c: byte)
    requires LaidAt(f, s, c) && !(s.quote.Outside? && IsSpace(c))
    ensures Reads(f, s, [c], Next(s, c), [c])
  {
    assert [c][1..] == [];
  }

  lemma {:induction false} ReadsBlanks(f: Format, s: View, w: seq<byte>)
    requires s.quote.Outside? && forall k :: 0 <= k < |w| ==> IsSpace(w[k])
    ensures Reads(f, s, w, s.(blanks := s.blanks + w), [])
    decreases |w|
  {
    hide IsSpace;
    if w == [] {
      assert s.blanks + w == s.blanks;
    } else {
      var s1 := s.(blanks := s.blanks + [w[0]]);
      ReadsBlanks(f, s1, w[1..]);
      assert s1.blanks + w[1..] == s.blanks + w;
    }
  }

  // ---- Single values ------------------------------------------------------------------

  // A byte that ends nothing, opens nothing and is no blank.
  predicate IsPlain(c: byte)
  {
    !IsSpace(c) && !IsClosing(c) && c !in {DQUOTE, LBRACKET, LBRACE, COMMA, COLON}
  }

  // Behind a value at the given depth.
  function Behind(depth: int): View
  {
    View(depth, Other, [], Outside)
  }

  // The blanks are those due in front of a value.
  predicate Ready(f: Format, s: View)
  {
    s.quote.Outside? && s.blanks == Due(f, s, DQUOTE)
  }

  lemma {:induction false} ReadsPlain(f: Format, s: View, w: seq<byte>)
    requires Ready(f, s) && w != [] && forall k :: 0 <= k < |w| ==> IsPlain(w[k])
    ensures Reads(f, s, w, Behind(s.depth), w)
    decreases |w|
  {
    hide OwnLine;
    ReadsOne(f, s, w[0]);
    assert w == [w[0]] + w[1..];
    if |w| > 1 {
      ReadsPlain(f, Behind(s.depth), w[1..]);
      ReadsConcat(f, s, [w[0]], Behind(s.depth), [w[0]], w[1..], Behind(s.depth), w[1..]);
    } else {
      assert w == [w[0]];
    }
  }

  lemma ReadsEscape(f: Format, s: View, c: byte)
    requires s.quote.Inside?
    ensures Reads(f, s, EscapeByte(c), s, EscapeByte(c))
  {
    hide IsSpace, HexChar;
    var e := EscapeByte(c);
    if |e| == 1 {
      ReadsOne(f, s, c);
    } else {
      ReadsOne(f, s, BACKSLASH);
      ReadsOne(f, s.(quote := Skipping), e[1]);
      ReadsConcat(f, s, [BACKSLASH], s.(quote := Skipping), [BACKSLASH], [e[1]], s, [e[1]]);
      if |e| == 6 {
        assert e == [BACKSLASH] + [e[1]] + e[2..];
        ReadsInside(f, s, e[2..]);
        ReadsConcat(f, s, [BACKSLASH] + [e[1]], s, [BACKSLASH] + [e[1]], e[2..], s, e[2..]);
      } else {
        assert e == [BACKSLASH] + [e[1]];
      }
    }
  }

  lemma {:induction false} ReadsInside(f: Format, s: View, w: seq<byte>)
    requires s.quote.Inside? && forall k :: 0 <= k < |w| ==> w[k] != DQUOTE && w[k] != BACKSLASH
    ensures Reads(f, s, w, s, w)
  {
    hide IsSpace;
    if w != [] {
      ReadsOne(f, s, w[0]);
      ReadsInside(f, s, w[1..]);
      ReadsConcat(f, s, [w[0]], s, [w[0]], w[1..], s, w[1..]);
      assert w == [w[0]] + w[1..];
    }
  }

  lemma {:induction false} ReadsEscaped(f: Format, s: View, text: seq<byte>)
    requires s.quote.Inside?
    ensures Reads(f, s, EscapeText(text), s, EscapeText(text))
  {
    hide EscapeByte, Next, LaidAt, IsSpace;
    if text != [] {
      ReadsEscape(f, s, text[0]);
      ReadsEscaped(f, s, text[1..]);
      ReadsConcat(f, s, EscapeByte(text[0]), s, EscapeByte(text[0]), EscapeText(text[1..]), s, EscapeText(text[1..]));
    }
  }

  lemma ReadsQuoted(f: Format, s: View, text: seq<byte>)
    requires Ready(f, s)
    ensures Reads(f, s, Quoted(text), Behind(s.depth), Quoted(text))
  {
    hide EscapeText, OwnLine, Reads;
    var s1, e := View(s.depth, Other, [], Inside), EscapeText(text);
    ReadsOne(f, s, DQUOTE);
    ReadsEscaped(f, s1, text);
    ReadsOne(f, s1, DQUOTE);
    ReadsConcat(f, s, [DQUOTE], s1, [DQUOTE], e, s1, e);
    ReadsConcat(f, s, [DQUOTE] + e, s1, [DQUOTE] + e, [DQUOTE], Behind(s.depth), [DQUOTE]);
  }

  // ---- Containers -----------------------------------------------------------------------

  predicate NoDoubles(j: Json)
    decreases j
  {
    match j
    case Double(_) => false
    case Arr(items) => forall k :: 0 <= k < |items| ==> NoDoubles(items[k])
    case Obj(members) => forall k :: 0 <= k < |members| ==> NoDoubles(members[k].value)
    case _ => true
  }

  // Neither lines nor spaces.
  function Plainly(f: Format): Format
  {
    f.(spaced := false, pretty := false)
  }

  // Behind the opening bracket of a container at the given depth, and its line.
  function Entered(f: Format, level: nat): View
  {
    View(level + 1, Opened, Line(f), Outside)
  }

  // In front of the closing bracket, blanks aside.
  function Within(f: Format, level: nat, n: nat): View
  {
    if n == 0 then Entered(f, level) else Behind(level + 1)
  }

  lemma AllSpaces(n: nat)
    ensures forall k :: 0 <= k < |Fill(SPACE, n)| ==> IsSpace(Fill(SPACE, n)[k])
  {
  }

  // The blanks in front of an element make a line of its own.
  lemma ElementLine(f: Format, level: nat)
    ensures Line(f) + Gap(f) + Indent(f, level + 1) == OwnLine(f, level + 1)
    ensures Line(f) + Indent(f, level) + Gap(f) == OwnLine(f, level)
  {
    if f.pretty && f.spaced {
      assert [SPACE] + Fill(SPACE, 2 * (level + 1)) == Fill(SPACE, 2 * (level + 1)) + [SPACE];
      assert [NEWLINE] + [SPACE] + Fill(SPACE, 2 * (level + 1)) == [NEWLINE] + ([SPACE] + Fill(SPACE, 2 * (level + 1)));
    }
  }

  lemma BlankParts(f: Format, level: nat)
    ensures var w := Gap(f) + Indent(f, level); forall k :: 0 <= k < |w| ==> IsSpace(w[k])
    ensures var w := Indent(f, level) + Gap(f); forall k :: 0 <= k < |w| ==> IsSpace(w[k])
    ensures forall k :: 0 <= k < |Line(f)| ==> IsSpace(Line(f)[k])
    ensures forall k :: 0 <= k < |Gap(f)| ==> IsSpace(Gap(f)[k])
  {
    AllSpaces(level * 2);
  }

  lemma ReadsOpening(f: Format, s: View, bracket: byte)
    requires Ready(f, s) && s.depth >= 0 && (bracket == LBRACKET || bracket == LBRACE)
    ensures Reads(f, s, [bracket] + Line(f), Entered(f, s.depth), [bracket])
  {
    hide OwnLine, Line, Reads;
    var s1 := View(s.depth + 1, Opened, [], Outside);
    ReadsOne(f, s, bracket);
    BlankParts(f, 0);
    ReadsBlanks(f, s1, Line(f));
    assert [] + Line(f) == Line(f) && [bracket] + [] == [bracket];
    ReadsConcat(f, s, [bracket], s1, [bracket], Line(f), Entered(f, s.depth), []);
  }

  lemma ReadsBefore(f: Format, level: nat, k: nat)
    ensures var s := View(level + 1, Opened, OwnLine(f, level + 1), Outside);
      Reads(f, Within(f, level, k), Before(f, level, k), s, if k > 0 then [COMMA] else []) && Ready(f, s)
  {
    hide OwnLine, Line, Gap, Indent, Reads, IsSpace;
    ElementLine(f, level);
    BlankParts(f, level + 1);
    var s := View(level + 1, Opened, OwnLine(f, level + 1), Outside);
    var w := Gap(f) + Indent(f, level + 1);
    var s0 := View(level + 1, Opened, Line(f), Outside);
    ReadsBlanks(f, s0, w);
    assert Line(f) + w == OwnLine(f, level + 1);
    if k > 0 {
      ReadsComma(f, level);
      ReadsConcat(f, Behind(level + 1), [COMMA] + Line(f), s0, [COMMA], w, s, []);
      assert [COMMA] + [] == [COMMA];
      assert Before(f, level, k) == [COMMA] + Line(f) + w;
    } else {
      assert Before(f, level, k) == w;
    }
  }

  lemma ReadsComma(f: Format, level: nat)
    ensures Reads(f, Behind(level + 1), [COMMA] + Line(f), View(level + 1, Opened, Line(f), Outside), [COMMA])
  {
    hide OwnLine, Line, Reads;
    var s1 := View(level + 1, Opened, [], Outside);
    ReadsOne(f, Behind(level + 1), COMMA);
    BlankParts(f, 0);
    ReadsBlanks(f, s1, Line(f));
    assert [] + Line(f) == Line(f) && [COMMA] + [] == [COMMA];
    ReadsConcat(f, Behind(level + 1), [COMMA], s1, [COMMA], Line(f), View(level + 1, Opened, Line(f), Outside), []);
  }

  lemma ReadsAfter(f: Format, level: nat, n: nat, bracket: byte)
    requires IsClosing(bracket)
    ensures Reads(f, Within(f, level, n), After(f, level, n) + [bracket], Behind(level), [bracket])
  {
    hide OwnLine, Line, Gap, Indent, Reads, IsSpace;
    ElementLine(f, level);
    BlankParts(f, level);
    var s := Within(f, level, n);
    var w := Indent(f, level) + Gap(f);
    var a := After(f, level, n);
    assert a == if n > 0 then Line(f) + w else w;
    ReadsBlanks(f, s, a);
    assert Line(f) + w == OwnLine(f, level);
    assert s.blanks + a == OwnLine(f, level);
    Bracket(bracket);
    ReadsOne(f, s.(blanks := OwnLine(f, level)), bracket);
    ReadsConcat(f, s, a, s.(blanks := OwnLine(f, level)), [], [bracket], Behind(level), [bracket]);
    assert [] + [bracket] == [bracket];
  }

  lemma Bracket(c: byte)
    ensures IsClosing(c) ==> !IsSpace(c) && c != DQUOTE && c != LBRACKET && c != LBRACE
  {
  }

  // ---- Values -----------------------------------------------------------------------------

  // A printed value is laid out, and without its blanks it is the plain form.
  lemma {:induction false} ReadsValue(f: Format, s: View, j: Json, level: nat)
    requires Ready(f, s) && s.depth == level && NoDoubles(j)
    ensures Reads(f, s, Print(f, j, level), Behind(level), Print(Plainly(f), j, level))
    decreases j, 1
  {
    hide Ready, Reads, Quoted, Decimal, OwnLine, PrintItems, PrintMembers;
    match j {
      case Null => ReadsPlain(f, s, NULL_WORD);
      case Bool(b) => ReadsPlain(f, s, if b then TRUE_WORD else FALSE_WORD);
      case Int(n) =>
        DecimalPlain(n);
        ReadsPlain(f, s, Decimal(n));
      case Str(text) => ReadsQuoted(f, s, text);
      case Arr(items) =>
        ReadsOpening(f, s, LBRACKET);
        ReadsItems(f, items, level);
        ReadsAfter(f, level, |items|, RBRACKET);
        ReadsWhole(f, s, LBRACKET, PrintItems(f, items, level), level, |items|, RBRACKET,
                   PrintItems(Plainly(f), items, level));
      case Obj(members) =>
        ReadsOpening(f, s, LBRACE);
        ReadsMembers(f, members, level);
        ReadsAfter(f, level, |members|, RBRACE);
        ReadsWhole(f, s, LBRACE, PrintMembers(f, members, level), level, |members|, RBRACE,
                   PrintMembers(Plainly(f), members, level));
    }
  }

  lemma DecimalPlain(n: int)
    ensures forall k :: 0 <= k < |Decimal(n)| ==> IsPlain(Decimal(n)[k]) && Decimal(n)[k] >= 32
  {
    var d := Digits(if n < 0 then -n else n);
    assert forall k :: 0 <= k < |d| ==> IsDigit(d[k]);
  }

  // The parts of a container, put together.
  lemma ReadsWhole(f: Format, s: View, open: byte, inner: seq<byte>, level: nat, n: nat, close: byte, plain: seq<byte>)
    requires s.depth == level
    requires Reads(f, s, [open] + Line(f), Entered(f, level), [open])
    requires Reads(f, Entered(f, level), inner, Within(f, level, n), plain)
    requires Reads(f, Within(f, level, n), After(f, level, n) + [close], Behind(level), [close])
    ensures Reads(f, s, [open] + Line(f) + inner + After(f, level, n) + [close], Behind(level),
                  [open] + Line(Plainly(f)) + plain + After(Plainly(f), level, n) + [close])
  {
    hide Reads, Line, After;
    NoBlanks(f, level, n);
    ReadsConcat(f, s, [open] + Line(f), Entered(f, level), [open], inner, Within(f, level, n), plain);
    ReadsConcat(f, s, [open] + Line(f) + inner, Within(f, level, n), [open] + plain,
                After(f, level, n) + [close], Behind(level), [close]);
    var front := [open] + Line(f) + inner;
    assert front + (After(f, level, n) + [close]) == front + After(f, level, n) + [close];
    assert [open] + [] + plain + [] + [close] == [open] + plain + [close];
  }

  lemma NoBlanks(f: Format, level: nat, n: nat)
    ensures var p := Plainly(f);
      && Line(p) == Gap(p) == Indent(p, level) == After(p, level, n) == []
      && Before(p, level, n) == if n > 0 then [COMMA] else []
  {
  }

  lemma {:induction false} ReadsItems(f: Format, items: seq<Json>, level: nat)
    requires forall k :: 0 <= k < |items| ==> NoDoubles(items[k])
    ensures Reads(f, Entered(f, level), PrintItems(f, items, level), Within(f, level, |items|),
                  PrintItems(Plainly(f), items, level))
    decreases items, 0
  {
    hide Ready, Reads, Before, Print, Line, OwnLine, NoDoubles;
    if items == [] {
      ReadsNothing(f, Entered(f, level));
    } else {
      var k := |items| - 1;
      var s := View(level + 1, Opened, OwnLine(f, level + 1), Outside);
      var p := Plainly(f);
      ReadsItems(f, items[..k], level);
      ReadsBefore(f, level, k);
      ReadsValue(f, s, items[k], level + 1);
      NoBlanks(f, level, k);
      ReadsConcat(f, Entered(f, level), PrintItems(f, items[..k], level), Within(f, level, k),
                  PrintItems(p, items[..k], level), Before(f, level, k), s, Before(p, level, k));
      ReadsConcat(f, Entered(f, level), PrintItems(f, items[..k], level) + Before(f, level, k), s,
                  PrintItems(p, items[..k], level) + Before(p, level, k),
                  Print(f, items[k], level + 1), Behind(level + 1), Print(p, items[k], level + 1));
    }
  }

  lemma ReadsNothing(f: Format, s: View)
    ensures Reads(f, s, [], s, [])
  {
  }

  lemma {:induction false} ReadsMembers(f: Format, members: seq<Member>, level: nat)
    requires forall k :: 0 <= k < |members| ==> NoDoubles(members[k].value)
    ensures Reads(f, Entered(f, level), PrintMembers(f, members, level), Within(f, level, |members|),
                  PrintMembers(Plainly(f), members, level))
    decreases members, 0
  {
    hide Ready, Reads, Before, Print, Line, OwnLine, NoDoubles, KeyPart;
    if members == [] {
      ReadsNothing(f, Entered(f, level));
    } else {
      var k := |members| - 1;
      var s := View(level + 1, Opened, OwnLine(f, level + 1), Outside);
      var s1 := View(level + 1, Colon, Gap(f), Outside);
      var p, m := Plainly(f), members[k];
      ReadsMembers(f, members[..k], level);
      ReadsBefore(f, level, k);
      ReadsKey(f, s, m.key);
      ReadsValue(f, s1, m.value, level + 1);
      NoBlanks(f, level, k);
      ReadsConcat(f, Entered(f, level), PrintMembers(f, members[..k], level), Within(f, level, k),
                  PrintMembers(p, members[..k], level), Before(f, level, k), s, Before(p, level, k));
      ReadsConcat(f, Entered(f, level), PrintMembers(f, members[..k], level) + Before(f, level, k), s,
                  PrintMembers(p, members[..k], level) + Before(p, level, k),
                  KeyPart(f, m.key), s1, KeyPart(p, m.key));
      ReadsConcat(f, Entered(f, level),
                  PrintMembers(f, members[..k], level) + Before(f, level, k) + KeyPart(f, m.key), s1,
                  PrintMembers(p, members[..k], level) + Before(p, level, k) + KeyPart(p, m.key),
                  Print(f, m.value, level + 1), Behind(level + 1), Print(p, m.value, level + 1));
    }
  }

  lemma ReadsKey(f: Format, s: View, key: seq<byte>)
    requires Ready(f, s)
    ensures var s1 := View(s.depth, Colon, Gap(f), Outside);
      Reads(f, s, KeyPart(f, key), s1, KeyPart(Plainly(f), key)) && Ready(f, s1)
  {
    hide Reads, Quoted, CString, OwnLine;
    var q, s1 := Quoted(CString(key)), View(s.depth, Colon, [], Outside);
    ReadsQuoted(f, s, CString(key));
    ReadsOne(f, Behind(s.depth), COLON);
    ReadsConcat(f, s, q, Behind(s.depth), q, [COLON], s1, [COLON]);
    BlankParts(f, 0);
    ReadsBlanks(f, s1, Gap(f));
    assert [] + Gap(f) == Gap(f) && q + [COLON] + [] == q + [COLON];
    ReadsConcat(f, s, q + [COLON], s1, q + [COLON], Gap(f), View(s.depth, Colon, Gap(f), Outside), []);
  }

  // ---- What a reader sees ---------------------------------------------------------------

  lemma {:induction false} LaidEverywhere(f: Format, s: View, t: seq<byte>, k: nat)
    requires Laid(f, s, t) && k < |t|
    ensures LaidAt(f, ScanFrom(s, t[..k]), t[k])
    decreases |t|
  {
    hide LaidAt, Next;
    if k > 0 {
      LaidEverywhere(f, Next(s, t[0]), t[1..], k - 1);
      assert t[..k][1..] == t[1..][..k - 1];
    } else {
      assert t[..k] == [];
    }
  }

  // In front of every byte outside quoted text stand exactly these blanks: with lines
  // wanted, elements and closing brackets have a line of their own, indented by twice the
  // number of open brackets; with spaces wanted, one space more, and one behind a colon.
  lemma Layout(f: Format, j: Json, k: nat)
    requires NoDoubles(j) && k < |Print(f, j, 0)|
    ensures var text := Print(f, j, 0); var s, c := ScanFrom(START, text[..k]), text[k];
      var line := IsClosing(c) || s.mark.Opened?;
      var depth := if IsClosing(c) then s.depth - 1 else s.depth;
      s.quote.Outside? && !IsSpace(c) ==>
        s.blanks ==
          (if f.pretty && line && depth >= 0 then [10] + Fill(32, 2 * depth) else []) +
          (if f.spaced && (line || s.mark.Colon?) then [32] else [])
  {
    hide Print;
    ReadsValue(f, START, j, 0);
    LaidEverywhere(f, START, Print(f, j, 0), k);
  }

  // Without the blanks outside quoted text it is the plain form, no blank ends it, and
  // every bracket is closed.
  lemma Stripped(f: Format, j: Json)
    requires NoDoubles(j)
    ensures Strip(START, Print(f, j, 0)) == Print(Plainly(f), j, 0)
    ensures ScanFrom(START, Print(f, j, 0)) == Behind(0)
  {
    hide Print;
    ReadsValue(f, START, j, 0);
  }

  // The plain form has no blanks outside quoted text.
  lemma Compact(f: Format, j: Json, k: nat)
    requires !f.spaced && !f.pretty && NoDoubles(j) && k < |Print(f, j, 0)|
    ensures ScanFrom(START, Print(f, j, 0)[..k]).quote.Outside? ==> !IsSpace(Print(f, j, 0)[k])
  {
    hide Print;
    Stripped(f, j);
    assert Plainly(f) == f;
    StripNothing(START, Print(f, j, 0), k);
  }

  lemma {:induction false} StripNothing(s: View, t: seq<byte>, k: nat)
    requires |Strip(s, t)| == |t| && k < |t|
    ensures ScanFrom(s, t[..k]).quote.Outside? ==> !IsSpace(t[k])
    decreases |t|
  {
    hide Next, IsSpace;
    StripShorter(Next(s, t[0]), t[1..]);
    if k > 0 {
      StripNothing(Next(s, t[0]), t[1..], k - 1);
      assert t[..k][1..] == t[1..][..k - 1];
      assert ScanFrom(s, t[..k]) == ScanFrom(Next(s, t[0]), t[1..][..k - 1]);
    } else {
      assert t[..k] == [] && ScanFrom(s, []) == s;
    }
  }

  lemma {:induction false} StripShorter(s: View, t: seq<byte>)
    ensures |Strip(s, t)| <= |t|
    decreases |t|
  {
    if t != [] {
      StripShorter(Next(s, t[0]), t[1..]);
    }
  }

  // Nothing below a space but new lines, and those only if lines are wanted.
  predicate Clean(f: Format, t: seq<byte>)
  {
    forall k :: 0 <= k < |t| ==> t[k] >= 32 || (f.pretty && t[k] == 10)
  }

  lemma CleanConcat(f: Format, a: seq<byte>, b: seq<byte>)
    ensures Clean(f, a) && Clean(f, b) ==> Clean(f, a + b)
  {
  }

  lemma CleanBlanks(f: Format, level: nat, n: nat)
    ensures Clean(f, Line(f)) && Clean(f, Before(f, level, n)) && Clean(f, After(f, level, n)) && Clean(f, Gap(f))
  {
  }

  lemma {:induction false} NoControls(f: Format, j: Json, level: nat)
    requires NoDoubles(j)
    ensures Clean(f, Print(f, j, level))
    decreases j, 1
  {
    hide Decimal, PrintItems, PrintMembers, Quoted, Line, After, Clean;
    match j {
      case Null => WordClean(f, NULL_WORD);
      case Bool(b) => WordClean(f, if b then TRUE_WORD else FALSE_WORD);
      case Int(n) =>
        DecimalPlain(n);
        WordClean(f, Decimal(n));
      case Str(text) => QuotedClean(f, text);
      case Arr(items) =>
        ItemsClean(f, items, level);
        WholeClean(f, LBRACKET, PrintItems(f, items, level), level, |items|, RBRACKET);
      case Obj(members) =>
        MembersClean(f, members, level);
        WholeClean(f, LBRACE, PrintMembers(f, members, level), level, |members|, RBRACE);
    }
  }

  lemma WordClean(f: Format, w: seq<byte>)
    requires forall k :: 0 <= k < |w| ==> w[k] >= 32
    ensures Clean(f, w)
  {
  }

  lemma WholeClean(f: Format, open: byte, inner: seq<byte>, level: nat, n: nat, close: byte)
    requires Clean(f, inner) && open >= 32 && close >= 32
    ensures Clean(f, [open] + Line(f) + inner + After(f, level, n) + [close])
  {
    hide Line, After, Clean;
    CleanBlanks(f, level, n);
    WordClean(f, [open]);
    WordClean(f, [close]);
    CleanConcat(f, [open], Line(f));
    CleanConcat(f, [open] + Line(f), inner);
    CleanConcat(f, [open] + Line(f) + inner, After(f, level, n));
    CleanConcat(f, [open] + Line(f) + inner + After(f, level, n), [close]);
  }

  lemma QuotedClean(f: Format, text: seq<byte>)
    ensures Clean(f, Quoted(text))
  {
    hide EscapeText;
    TextClean(f, text);
  }

  lemma {:induction false} TextClean(f: Format, text: seq<byte>)
    ensures Clean(f, EscapeText(text))
  {
    if text != [] {
      TextClean(f, text[1..]);
      ByteClean(f, text[0]);
      CleanConcat(f, EscapeByte(text[0]), EscapeText(text[1..]));
    }
  }

  lemma ByteClean(f: Format, c: byte)
    ensures Clean(f, EscapeByte(c))
  {
  }

  lemma {:induction false} ItemsClean(f: Format, items: seq<Json>, level: nat)
    requires forall k :: 0 <= k < |items| ==> NoDoubles(items[k])
    ensures Clean(f, PrintItems(f, items, level))
    decreases items, 0
  {
    hide Print, Before, Clean, NoDoubles;
    if items == [] {
      WordClean(f, []);
    } else {
      var k := |items| - 1;
      ItemsClean(f, items[..k], level);
      CleanBlanks(f, level, k);
      NoControls(f, items[k], level + 1);
      CleanConcat(f, PrintItems(f, items[..k], level), Before(f, level, k));
      CleanConcat(f, PrintItems(f, items[..k], level) + Before(f, level, k), Print(f, items[k], level + 1));
    }
  }

  lemma {:induction false} MembersClean(f: Format, members: seq<Member>, level: nat)
    requires forall k :: 0 <= k < |members| ==> NoDoubles(members[k].value)
    ensures Clean(f, PrintMembers(f, members, level))
    decreases members, 0
  {
    hide Print, Before, KeyPart, Clean, NoDoubles;
    if members == [] {
      WordClean(f, []);
    } else {
      var k := |members| - 1;
      MembersClean(f, members[..k], level);
      CleanBlanks(f, level, k);
      KeyClean(f, members[k].key);
      NoControls(f, members[k].value, level + 1);
      var done := PrintMembers(f, members[..k], level);
      CleanConcat(f, done, Before(f, level, k));
      CleanConcat(f, done + Before(f, level, k), KeyPart(f, members[k].key));
      CleanConcat(f, done + Before(f, level, k) + KeyPart(f, members[k].key), Print(f, members[k].value, level + 1));
    }
  }

  lemma KeyClean(f: Format, key: seq<byte>)
    ensures Clean(f, KeyPart(f, key))
  {
    hide Quoted, CString, Gap, Clean;
    QuotedClean(f, CString(key));
    WordClean(f, [COLON]);
    CleanBlanks(f, 0, 0);
    CleanConcat(f, Quoted(CString(key)), [COLON]);
    CleanConcat(f, Quoted(CString(key)) + [COLON], Gap(f));
  }
}
