// Printing of JSON values: what the to_json_string functions of json_object.c write, as
// a function, and the functions themselves writing into a print buffer.
module JsonPrint {
  import opened Bytes
  import opened Wrappers
  import opened Json
  import opened Int64Parse
  import opened PrintBufs
  import opened JsonMachine

  // JSON_C_TO_STRING_SPACED and _PRETTY, and what is made of a double.
  datatype Format = Format(spaced: bool, pretty: bool, printDouble: nat -> seq<byte>)

  const SPACE: byte := 32

  function HexChar(d: nat): (c: byte)
    requires d < 16
    ensures IsHex(c) && HexDigit(c) == d
  {
    if d < 10 then (48 + d) as byte else (87 + d) as byte
  }

  // The letter after the backslash in a two-byte escape.
  function EscapeLetter(c: byte): Option<byte>
  {
    if c == 8 then Some(LETTER_B)
    else if c == 10 then Some(LETTER_N)
    else if c == 13 then Some(LETTER_R)
    else if c == 9 then Some(LETTER_T)
    else if c == 12 then Some(LETTER_F)
    else if c == DQUOTE || c == BACKSLASH || c == SLASH then Some(c)
    else None
  }

  predicate PlainByte(c: byte)
  {
    EscapeLetter(c).None? && c >= SPACE
  }

  function EscapeByte(c: byte): (r: seq<byte>)
    ensures PlainByte(c) <==> r == [c]
  {
    if EscapeLetter(c).Some? then [BACKSLASH, EscapeLetter(c).value]
    else if c < SPACE then [BACKSLASH, LETTER_U, 48, 48, HexChar(c as nat / 16), HexChar(c as nat % 16)]
    else [c]
  }

  function EscapeText(s: seq<byte>): seq<byte>
  {
    if s == [] then [] else EscapeByte(s[0]) + EscapeText(s[1..])
  }

  function Quoted(s: seq<byte>): seq<byte>
  {
    [DQUOTE] + EscapeText(s) + [DQUOTE]
  }

  function Line(f: Format): seq<byte>
  {
    if f.pretty then [NEWLINE] else []
  }

  function Gap(f: Format): seq<byte>
  {
    if f.spaced then [SPACE] else []
  }

  function Indent(f: Format, level: nat): seq<byte>
  {
    if f.pretty then Fill(SPACE, level * 2) else []
  }

  // What stands before element k of a container at the given level.
  function Before(f: Format, level: nat, k: nat): seq<byte>
  {
    (if k > 0 then [COMMA] + Line(f) else []) + Gap(f) + Indent(f, level + 1)
  }

  // What stands after the last of n elements, before the closing bracket.
  function After(f: Format, level: nat, n: nat): seq<byte>
  {
    (if n > 0 then Line(f) else []) + Indent(f, level) + Gap(f)
  }

  function Print(f: Format, j: Json, level: nat): seq<byte>
    decreases j, 1
  {
    match j
    case Null => NULL_WORD
    case Bool(b) => if b then TRUE_WORD else FALSE_WORD
    case Int(n) => Decimal(n)
    case Double(d) => f.printDouble(d)
    case Str(s) => Quoted(s)
    case Arr(items) =>
      [LBRACKET] + Line(f) + PrintItems(f, items, level) + After(f, level, |items|) + [RBRACKET]
    case Obj(members) =>
      [LBRACE] + Line(f) + PrintMembers(f, members, level) + After(f, level, |members|) + [RBRACE]
  }

  function PrintItems(f: Format, items: seq<Json>, level: nat): seq<byte>
    decreases items
  {
    if items == [] then []
    else
      var k := |items| - 1;
      PrintItems(f, items[..k], level) + Before(f, level, k) + Print(f, items[k], level + 1)
  }

  // A key is a C string.
  function KeyPart(f: Format, key: seq<byte>): seq<byte>
  {
    Quoted(CString(key)) + [COLON] + Gap(f)
  }

  function PrintMembers(f: Format, members: seq<Member>, level: nat): seq<byte>
    decreases members
  {
    if members == [] then []
    else
      var k := |members| - 1;
      PrintMembers(f, members[..k], level) + Before(f, level, k) + KeyPart(f, members[k].key) +
      Print(f, members[k].value, level + 1)
  }

  // ---- The printers -------------------------------------------------------------------

  lemma {:induction false} EscapeConcat(a: seq<byte>, b: seq<byte>)
    ensures EscapeText(a + b) == EscapeText(a) + EscapeText(b)
  {
    hide EscapeByte;
    if a == [] {
      assert a + b == b;
    } else {
      EscapeConcat(a[1..], b);
      assert (a + b)[1..] == a[1..] + b && (a + b)[0] == a[0];
    }
  }

  lemma {:induction false} EscapePlain(s: seq<byte>)
    requires forall k :: 0 <= k < |s| ==> PlainByte(s[k])
    ensures EscapeText(s) == s
  {
    if s != [] {
      EscapePlain(s[1..]);
      assert EscapeByte(s[0]) == [s[0]];
    }
  }

  // One more byte: the text so far, what was held back, and the escape.
  lemma EscapeNext(s: seq<byte>, start: nat, pos: nat)
    requires start <= pos < |s| && forall k :: start <= k < pos ==> PlainByte(s[k])
    ensures EscapeText(s[..pos + 1]) == EscapeText(s[..start]) + s[start..pos] + EscapeByte(s[pos])
  {
    assert s[..pos + 1] == s[..start] + s[start..pos] + [s[pos]];
    EscapeConcat(s[..start] + s[start..pos], [s[pos]]);
    EscapeConcat(s[..start], s[start..pos]);
    EscapePlain(s[start..pos]);
    assert EscapeText([s[pos]]) == EscapeByte(s[pos]) + EscapeText([]);
  }

  // Bytes held back are copied in one go.
  method CopyHeld(pb: PrintBuf, s: seq<byte>, start: nat, pos: nat)
    requires pb.Valid() && start <= pos <= |s|
    modifies pb, pb.buf
    ensures pb.Valid() && pb.Contents() == old(pb.Contents()) + s[start..pos]
    ensures pb.buf == old(pb.buf) || fresh(pb.buf)
  {
    hide PrintBuf.Contents;
    if pos - start > 0 {
      pb.MemAppend(s[start..pos]);
    } else {
      assert pb.Contents() + s[start..pos] == pb.Contents();
    }
  }

  // json_escape_str: bytes that need no escape are held back.
  method EscapeStr(pb: PrintBuf, s: seq<byte>)
    requires pb.Valid()
    modifies pb, pb.buf
    ensures pb.Valid() && pb.Contents() == old(pb.Contents()) + EscapeText(s)
    ensures pb.buf == old(pb.buf) || fresh(pb.buf)
  {
    hide PrintBuf.Contents, EscapeText, PlainByte;
    ghost var was := pb.Contents();
    var pos, start := 0, 0;
    assert s[..0] == [] && was + [] == was;
    EscapeEmpty();
    while pos < |s|
      invariant start <= pos <= |s| && forall k :: start <= k < pos ==> PlainByte(s[k])
      invariant pb.Valid() && pb.Contents() == was + EscapeText(s[..start])
      invariant pb.buf == old(pb.buf) || fresh(pb.buf)
    {
      var c := s[pos];
      if EscapeLetter(c).Some? || c < SPACE {
        EscapeNext(s, start, pos);
        Joined(was, EscapeText(s[..start]), s[start..pos], EscapeByte(c), []);
        CopyHeld(pb, s, start, pos);
        if EscapeLetter(c).Some? {
          pb.MemAppend([BACKSLASH, EscapeLetter(c).value]);
        } else {
          pb.MemAppend([BACKSLASH, LETTER_U, 48, 48, HexChar(c as nat / 16), HexChar(c as nat % 16)]);
        }
        pos := pos + 1;
        start := pos;
      } else {
        IsPlain(c);
        pos := pos + 1;
      }
    }
    EscapeRest(s, start);
    assert was + EscapeText(s[..start]) + s[start..] == was + (EscapeText(s[..start]) + s[start..]);
    CopyHeld(pb, s, start, pos);
  }

  lemma EscapeEmpty()
    ensures EscapeText([]) == []
  {
  }

  lemma IsPlain(c: byte)
    ensures PlainByte(c) <==> EscapeLetter(c).None? && c >= SPACE
  {
  }

  lemma EscapeRest(s: seq<byte>, start: nat)
    requires start <= |s| && forall k :: start <= k < |s| ==> PlainByte(s[k])
    ensures EscapeText(s) == EscapeText(s[..start]) + s[start..]
  {
    assert s == s[..start] + s[start..];
    EscapeConcat(s[..start], s[start..]);
    EscapePlain(s[start..]);
  }

  // indent
  method PrintIndent(f: Format, pb: PrintBuf, level: nat)
    requires pb.Valid()
    modifies pb, pb.buf
    ensures pb.Valid() && pb.Contents() == old(pb.Contents()) + Indent(f, level)
    ensures pb.buf == old(pb.buf) || fresh(pb.buf)
  {
    if f.pretty {
      pb.MemSet(-1, SPACE, level * 2);
    }
  }

  // The comma and line, gap and indentation before element k.
  method PrintBefore(f: Format, pb: PrintBuf, level: nat, k: nat)
    requires pb.Valid()
    modifies pb, pb.buf
    ensures pb.Valid() && pb.Contents() == old(pb.Contents()) + Before(f, level, k)
    ensures pb.buf == old(pb.buf) || fresh(pb.buf)
  {
    hide Fill;
    if k > 0 {
      pb.MemAppend([COMMA]);
      if f.pretty {
        pb.MemAppend([NEWLINE]);
      }
    }
    if f.spaced {
      pb.MemAppend([SPACE]);
    }
    PrintIndent(f, pb, level + 1);
  }

  // The end of a container of n elements.
  method PrintAfter(f: Format, pb: PrintBuf, level: nat, n: nat, bracket: byte)
    requires pb.Valid()
    modifies pb, pb.buf
    ensures pb.Valid() && pb.Contents() == old(pb.Contents()) + After(f, level, n) + [bracket]
    ensures pb.buf == old(pb.buf) || fresh(pb.buf)
  {
    hide Fill;
    if f.pretty {
      if n > 0 {
        pb.MemAppend([NEWLINE]);
      }
      PrintIndent(f, pb, level);
    }
    if f.spaced {
      pb.MemAppend([SPACE, bracket]);
    } else {
      pb.MemAppend([bracket]);
    }
  }

  // json_object_string_to_json_string
  method PrintStr(pb: PrintBuf, s: seq<byte>)
    requires pb.Valid()
    modifies pb, pb.buf
    ensures pb.Valid() && pb.Contents() == old(pb.Contents()) + ([DQUOTE] + EscapeText(s) + [DQUOTE])
    ensures pb.buf == old(pb.buf) || fresh(pb.buf)
  {
    hide PrintBuf.Contents, EscapeText;
    pb.MemAppend([DQUOTE]);
    EscapeStr(pb, s);
    pb.MemAppend([DQUOTE]);
  }

  // The to_json_string function of the type of j.
  method PrintJson(f: Format, pb: PrintBuf, j: Json, level: nat)
    requires pb.Valid()
    modifies pb, pb.buf
    ensures pb.Valid() && pb.Contents() == old(pb.Contents()) + Print(f, j, level)
    ensures pb.buf == old(pb.buf) || fresh(pb.buf)
    decreases j, 1
  {
    hide PrintBuf.Contents, EscapeText, CString, Decimal, PrintItems, PrintMembers;
    match j {
      case Null => pb.MemAppend(NULL_WORD);
      case Bool(b) => pb.MemAppend(if b then TRUE_WORD else FALSE_WORD);
      case Int(n) => pb.MemAppend(Decimal(n));
      case Double(d) => pb.MemAppend(f.printDouble(d));
      case Str(s) => PrintStr(pb, s);
      case Arr(items) => PrintArray(f, pb, items, level, j);
      case Obj(members) => PrintObject(f, pb, members, level, j);
    }
  }

  lemma ItemsNext(f: Format, items: seq<Json>, k: nat, level: nat)
    requires k < |items|
    ensures PrintItems(f, items[..k + 1], level) ==
      PrintItems(f, items[..k], level) + Before(f, level, k) + Print(f, items[k], level + 1)
  {
    assert items[..k + 1][..k] == items[..k];
  }

  lemma MembersNext(f: Format, members: seq<Member>, k: nat, level: nat)
    requires k < |members|
    ensures PrintMembers(f, members[..k + 1], level) ==
      PrintMembers(f, members[..k], level) + Before(f, level, k) + KeyPart(f, members[k].key) +
      Print(f, members[k].value, level + 1)
  {
    assert members[..k + 1][..k] == members[..k];
  }

  lemma Whole(f: Format, items: seq<Json>, members: seq<Member>, level: nat)
    ensures items[..0] == [] && items[..|items|] == items && PrintItems(f, [], level) == []
    ensures members[..0] == [] && members[..|members|] == members && PrintMembers(f, [], level) == []
    ensures Print(f, Arr(items), level) ==
      [LBRACKET] + Line(f) + PrintItems(f, items, level) + (After(f, level, |items|) + [RBRACKET])
    ensures Print(f, Obj(members), level) ==
      [LBRACE] + Line(f) + PrintMembers(f, members, level) + (After(f, level, |members|) + [RBRACE])
  {
    hide Line, After, Before, Gap, KeyPart;
    var o, b := [LBRACKET] + Line(f), [LBRACE] + Line(f);
    assert PrintItems(f, [], level) == [] && PrintMembers(f, [], level) == [];
    Joined(o, PrintItems(f, items, level), After(f, level, |items|), [RBRACKET], []);
    Joined(b, PrintMembers(f, members, level), After(f, level, |members|), [RBRACE], []);
  }

  lemma Joined(a: seq<byte>, b: seq<byte>, c: seq<byte>, d: seq<byte>, e: seq<byte>)
    ensures a + b + c + d + e == a + b + (c + d + e)
    ensures a + b + c + d == a + b + (c + d) == a + (b + c + d)
  {
  }

  // The opening of a container.
  method PrintOpen(f: Format, pb: PrintBuf, bracket: byte)
    requires pb.Valid()
    modifies pb, pb.buf
    ensures pb.Valid() && pb.Contents() == old(pb.Contents()) + ([bracket] + Line(f))
    ensures pb.buf == old(pb.buf) || fresh(pb.buf)
  {
    pb.MemAppend([bracket]);
    if f.pretty {
      pb.MemAppend([NEWLINE]);
    }
  }

  method PrintKey(f: Format, pb: PrintBuf, key: seq<byte>)
    requires pb.Valid()
    modifies pb, pb.buf
    ensures pb.Valid() && pb.Contents() == old(pb.Contents()) + KeyPart(f, key)
    ensures pb.buf == old(pb.buf) || fresh(pb.buf)
  {
    hide EscapeText, CString;
    pb.MemAppend([DQUOTE]);
    EscapeStr(pb, CString(key));
    if f.spaced {
      pb.MemAppend([DQUOTE, COLON, SPACE]);
    } else {
      pb.MemAppend([DQUOTE, COLON]);
    }
  }

  method PrintArray(f: Format, pb: PrintBuf, items: seq<Json>, level: nat, ghost j: Json)
    requires pb.Valid() && j == Arr(items)
    modifies pb, pb.buf
    ensures pb.Valid() && pb.Contents() == old(pb.Contents()) + Print(f, j, level)
    ensures pb.buf == old(pb.buf) || fresh(pb.buf)
    decreases j, 0
  {
    hide PrintBuf.Contents, Print, PrintItems, Before, After, Line;
    ghost var was, open := pb.Contents(), [LBRACKET] + Line(f);
    PrintOpen(f, pb, LBRACKET);
    Whole(f, items, [], level);
    assert was + open + [] == was + open;
    for k := 0 to |items|
      invariant pb.Valid() && (pb.buf == old(pb.buf) || fresh(pb.buf))
      invariant pb.Contents() == was + open + PrintItems(f, items[..k], level)
    {
      PrintBefore(f, pb, level, k);
      PrintJson(f, pb, items[k], level + 1);
      ItemsNext(f, items, k, level);
      Joined(was, open, PrintItems(f, items[..k], level), Before(f, level, k), Print(f, items[k], level + 1));
    }
    PrintAfter(f, pb, level, |items|, RBRACKET);
    Joined(was, open, PrintItems(f, items, level), After(f, level, |items|), [RBRACKET]);
    Joined(was, open, PrintItems(f, items, level), After(f, level, |items|) + [RBRACKET], []);
  }

  method PrintObject(f: Format, pb: PrintBuf, members: seq<Member>, level: nat, ghost j: Json)
    requires pb.Valid() && j == Obj(members)
    modifies pb, pb.buf
    ensures pb.Valid() && pb.Contents() == old(pb.Contents()) + Print(f, j, level)
    ensures pb.buf == old(pb.buf) || fresh(pb.buf)
    decreases j, 0
  {
    hide PrintBuf.Contents, Print, PrintMembers, Before, After, Line, KeyPart;
    ghost var was, open := pb.Contents(), [LBRACE] + Line(f);
    PrintOpen(f, pb, LBRACE);
    Whole(f, [], members, level);
    assert was + open + [] == was + open;
    for k := 0 to |members|
      invariant pb.Valid() && (pb.buf == old(pb.buf) || fresh(pb.buf))
      invariant pb.Contents() == was + open + PrintMembers(f, members[..k], level)
    {
      ghost var done, b, key := PrintMembers(f, members[..k], level), Before(f, level, k), KeyPart(f, members[k].key);
      PrintBefore(f, pb, level, k);
      PrintKey(f, pb, members[k].key);
      PrintJson(f, pb, members[k].value, level + 1);
      MembersNext(f, members, k, level);
      Joined(was, open, done, b, key);
      Joined(was, open, done + b + key, Print(f, members[k].value, level + 1), []);
    }
    PrintAfter(f, pb, level, |members|, RBRACE);
    Joined(was, open, PrintMembers(f, members, level), After(f, level, |members|), [RBRACE]);
    Joined(was, open, PrintMembers(f, members, level), After(f, level, |members|) + [RBRACE], []);
  }

  // json_object_to_json_string_ext
  method ToJsonString(f: Format, pb: PrintBuf, j: Json) returns (s: seq<byte>)
    requires pb.Valid()
    modifies pb, pb.buf
    ensures s == Print(f, j, 0)
  {
    pb.Reset();
    PrintJson(f, pb, j, 0);
    s := pb.buf[..pb.bpos];
  }
}
