// What may stand between the parts of a JSON text: white space, and comments of both
// kinds. The tokener comes out of it as it went in.
module JsonBlanks {
  import opened Bytes
  import opened Json
  import opened PrintBufs
  import opened JsonMachine

  // ---- Feeding a byte or two -----------------------------------------------------------

  lemma FeedTwo(conf: Conf, t: Tok, a: byte, b: byte)
    requires WF(conf, t) && Step(conf, t, a).More?
    ensures Feed(conf, t, [a, b]) == Step(conf, Step(conf, t, a).tok, b)
    ensures Feed(conf, t, [a]) == Step(conf, t, a)
  {
    assert [a, b][1..] == [b];
    FeedOne(conf, t, [a, b]);
    FeedOne(conf, t, [a]);
    var t' := Step(conf, t, a).tok;
    if Step(conf, t', b).More? {
      FeedOne(conf, t', [b]);
    }
  }

  lemma FeedNothing(conf: Conf, t: Tok)
    requires WF(conf, t)
    ensures Feed(conf, t, []) == More(t)
  {
  }

  // A byte consumed at once.
  lemma OneMore(conf: Conf, t: Tok, c: byte, t': Tok)
    requires WF(conf, t) && t.pend.NoHi? && c != 0 && Micro(conf, t, Null, c) == More(t')
    ensures Redo(conf, t, Null, c) == More(t') && WF(conf, t')
  {
    hide WF, Micro;
    MicroKeeps(conf, t, Null, c);
  }

  // ---- Comments --------------------------------------------------------------------------

  lemma CommentMore(conf: Conf, t: Tok, c: byte)
    requires WF(conf, t) && t.pend.NoHi? && t.top.state in {CommentStart, Comment, CommentEnd, CommentEol} && c != 0
    requires MicroComment(t, c).More?
    ensures Step(conf, t, c) == MicroComment(t, c) && WF(conf, MicroComment(t, c).tok)
  {
    hide StackOk, MicroComment;
    assert Micro(conf, t, Null, c) == MicroComment(t, c);
    OneMore(conf, t, c, MicroComment(t, c).tok);
  }

  // The length of the longest run of stars that ends in front of p.
  function StarsBefore(s: seq<byte>, p: nat): (n: nat)
    requires p <= |s|
    ensures n <= p && (forall k :: p - n <= k < p ==> s[k] == STAR) && (n < p ==> s[p - n - 1] != STAR)
  {
    if p > 0 && s[p - 1] == STAR then 1 + StarsBefore(s, p - 1) else 0
  }

  // A slash behind an odd run of stars.
  predicate Closes(s: seq<byte>, p: nat)
    requires p < |s|
  {
    s[p] == SLASH && StarsBefore(s, p) % 2 == 1
  }

  // What a comment with the text s leaves behind if nothing before the last byte closes it.
  function AfterComment(t: Tok, s: seq<byte>): Tok
  {
    var state :=
      if s != [] && Closes(s, |s| - 1) then EatWs
      else if StarsBefore(s, |s|) % 2 == 1 then CommentEnd
      else Comment;
    t.(pb := t.pb + s, top := t.top.(state := state))
  }

  // A block comment is closed by the first slash behind an odd run of stars and by nothing
  // before it.
  lemma {:induction false} CommentEnds(conf: Conf, t: Tok, s: seq<byte>)
    requires WF(conf, t) && t.pend.NoHi? && t.top.state == Comment
    requires 0 !in s && forall q :: 0 <= q < |s| - 1 ==> !Closes(s, q)
    ensures Feed(conf, t, s) == More(AfterComment(t, s)) && WF(conf, AfterComment(t, s))
  {
    hide WF, Step, Feed, Closes, StarsBefore, MicroComment;
    if s == [] {
      FeedNothing(conf, t);
      assert t.pb + s == t.pb;
    } else {
      var r, c := s[..|s| - 1], s[|s| - 1];
      assert s == r + [c];
      StarsPrefix(s, |s| - 1);
      CommentEnds(conf, t, r);
      CommentByte(t, r, c);
      var t' := AfterComment(t, r);
      FeedConcat(conf, t, r, [c]);
      CommentMore(conf, t', c);
      FeedTwo(conf, t', c, c);
    }
  }

  // One more byte of a comment that is still open.
  lemma CommentByte(t: Tok, r: seq<byte>, c: byte)
    requires t.top.state == Comment && (r != [] ==> !Closes(r, |r| - 1))
    ensures var t' := AfterComment(t, r);
      t'.top.state in {Comment, CommentEnd} && MicroComment(t', c) == More(AfterComment(t, r + [c]))
  {
    hide StarsBefore, Closes;
    StarsByte(r, c);
    assert t.pb + r + [c] == t.pb + (r + [c]);
  }

  lemma StarsByte(r: seq<byte>, c: byte)
    ensures StarsBefore(r + [c], |r| + 1) == if c == STAR then 1 + StarsBefore(r, |r|) else 0
    ensures Closes(r + [c], |r|) == (c == SLASH && StarsBefore(r, |r|) % 2 == 1)
  {
    StarsPrefix(r + [c], |r|);
    assert (r + [c])[..|r|] == r;
  }

  // What closes a comment is decided by the bytes up to there.
  lemma StarsPrefix(s: seq<byte>, n: nat)
    requires n <= |s|
    ensures forall p :: 0 <= p <= n ==> StarsBefore(s[..n], p) == StarsBefore(s, p)
    ensures forall p :: 0 <= p < n ==> Closes(s[..n], p) == Closes(s, p)
  {
  }

  // A comment that ends in an even number of stars is not closed by the slash after them.
  lemma StarsStaySilent(conf: Conf, t: Tok, k: nat)
    requires WF(conf, t) && t.pend.NoHi? && t.top.state == Comment
    ensures var n := Feed(conf, t, Fill(STAR, k) + [SLASH]);
      && n.More? && n.tok.top.state == (if k % 2 == 1 then EatWs else Comment)
  {
    hide WF, Feed;
    CommentEnds(conf, t, Fill(STAR, k) + [SLASH]);
  }

  // A line comment is closed by the first newline.
  lemma {:induction false} LineEnds(conf: Conf, t: Tok, s: seq<byte>)
    requires WF(conf, t) && t.pend.NoHi? && t.top.state == CommentEol && 0 !in s && NEWLINE !in s
    ensures var t' := t.(pb := t.pb + s);
      Feed(conf, t, s) == More(t') && Feed(conf, t, s + [NEWLINE]) == More(Goto(t', EatWs)) && WF(conf, Goto(t', EatWs))
    decreases |s|
  {
    hide WF, Step, Feed, MicroComment;
    var c := if s == [] then NEWLINE else s[0];
    LineByte(t, c);
    CommentMore(conf, t, c);
    FeedTwo(conf, t, c, c);
    if s == [] {
      FeedNothing(conf, t);
      assert t.pb + s == t.pb && s + [NEWLINE] == [NEWLINE];
      assert t.(pb := t.pb) == t;
    } else {
      var r, t1 := s[1..], Grow(t, [c]);
      LineEnds(conf, t1, r);
      FeedConcat(conf, t, [c], r);
      FeedConcat(conf, t, [c], r + [NEWLINE]);
      assert s == [c] + r && s + [NEWLINE] == [c] + (r + [NEWLINE]);
      assert t.pb + [c] + r == t.pb + s;
    }
  }

  lemma LineByte(t: Tok, c: byte)
    requires t.top.state == CommentEol
    ensures MicroComment(t, c) == More(if c == NEWLINE then Goto(t, EatWs) else Grow(t, [c]))
  {
  }

  // ---- Blanks ------------------------------------------------------------------------------

  // White space, the rest of a block comment behind its first two bytes, or the text of a
  // line comment.
  datatype Filler = White(c: byte) | Block(body: seq<byte>) | Eol(text: seq<byte>)

  ghost predicate GoodFiller(b: Filler)
  {
    match b
    case White(c) => IsSpace(c)
    case Block(body) =>
      && 0 !in body && body != [] && Closes(body, |body| - 1)
      && forall q :: 0 <= q < |body| - 1 ==> !Closes(body, q)
    case Eol(text) => 0 !in text && NEWLINE !in text
  }

  function FillerText(b: Filler): (s: seq<byte>)
    ensures s != []
  {
    match b
    case White(c) => [c]
    case Block(body) => [47, 42] + body
    case Eol(text) => [47, 47] + (text + [10])
  }

  ghost predicate GoodFillers(bs: seq<Filler>)
  {
    forall i :: 0 <= i < |bs| ==> GoodFiller(bs[i])
  }

  function FillersText(bs: seq<Filler>): seq<byte>
  {
    if bs == [] then [] else FillerText(bs[0]) + FillersText(bs[1..])
  }

  ghost predicate Blank(s: seq<byte>)
  {
    exists bs :: GoodFillers(bs) && FillersText(bs) == s
  }

  // t' is t but for the scratch text.
  predicate Unmoved(t: Tok, t': Tok)
  {
    t' == t.(pb := t'.pb)
  }

  ghost predicate Skipped(conf: Conf, t: Tok, n: Next)
  {
    n.More? && Unmoved(t, n.tok) && WF(conf, n.tok)
  }

  lemma FeedWhite(conf: Conf, t: Tok, c: byte)
    requires WF(conf, t) && t.pend.NoHi? && t.top.state == EatWs && IsSpace(c)
    ensures Skipped(conf, t, Feed(conf, t, [c]))
  {
    hide StackOk;
    assert Micro(conf, t, Null, c) == More(t);
    assert Step(conf, t, c) == More(t);
    FeedTwo(conf, t, c, c);
  }

  // The two bytes that begin a comment.
  lemma OpenComment(conf: Conf, t: Tok, c: byte)
    requires WF(conf, t) && t.pend.NoHi? && t.top.state == EatWs && (c == STAR || c == SLASH)
    ensures var t' := Goto(t, if c == STAR then Comment else CommentEol).(pb := [SLASH, c]);
      Feed(conf, t, [SLASH, c]) == More(t') && WF(conf, t')
  {
    hide StackOk;
    var t1 := Goto(t, CommentStart).(pb := [SLASH]);
    OneMore(conf, t, SLASH, t1);
    CommentMore(conf, t1, c);
    FeedTwo(conf, t, SLASH, c);
    assert [SLASH] + [c] == [SLASH, c];
  }

  lemma FeedFiller(conf: Conf, t: Tok, b: Filler)
    requires WF(conf, t) && t.pend.NoHi? && t.top.state == EatWs && GoodFiller(b)
    ensures Skipped(conf, t, Feed(conf, t, FillerText(b)))
  {
    hide WF, Feed, Closes;
    match b {
      case White(c) => FeedWhite(conf, t, c);
      case Block(body) =>
        OpenComment(conf, t, STAR);
        var t1 := Feed(conf, t, [47, 42]).tok;
        FeedConcat(conf, t, [47, 42], body);
        CommentEnds(conf, t1, body);
      case Eol(text) =>
        OpenComment(conf, t, SLASH);
        var t1 := Feed(conf, t, [47, 47]).tok;
        FeedConcat(conf, t, [47, 47], text + [10]);
        LineEnds(conf, t1, text);
    }
  }

  lemma {:induction false} FeedFillers(conf: Conf, t: Tok, bs: seq<Filler>)
    requires WF(conf, t) && t.pend.NoHi? && t.top.state == EatWs && GoodFillers(bs)
    ensures Skipped(conf, t, Feed(conf, t, FillersText(bs)))
    decreases |bs|
  {
    hide WF, Feed, GoodFiller;
    if bs == [] {
      FeedNothing(conf, t);
    } else {
      FeedFiller(conf, t, bs[0]);
      var t1 := Feed(conf, t, FillerText(bs[0])).tok;
      FeedConcat(conf, t, FillerText(bs[0]), FillersText(bs[1..]));
      FeedFillers(conf, t1, bs[1..]);
    }
  }

  // Blanks before a value, name or bracket change nothing.
  lemma FeedBlank(conf: Conf, t: Tok, s: seq<byte>)
    requires WF(conf, t) && t.pend.NoHi? && t.top.state == EatWs && Blank(s)
    ensures Skipped(conf, t, Feed(conf, t, s))
  {
    hide WF, Feed, GoodFillers;
    var bs :| GoodFillers(bs) && FillersText(bs) == s;
    FeedFillers(conf, t, bs);
  }

  lemma BlankBegins(s: seq<byte>)
    requires Blank(s) && s != []
    ensures IsSpace(s[0]) || s[0] == SLASH
  {
    hide Closes, IsSpace;
    var bs :| GoodFillers(bs) && FillersText(bs) == s;
    assert GoodFiller(bs[0]) && s[0] == FillerText(bs[0])[0];
  }

  lemma SpacesBlank(s: seq<byte>)
    requires forall k :: 0 <= k < |s| ==> IsSpace(s[k])
    ensures Blank(s)
  {
    var bs := WhiteOf(s);
  }

  lemma {:induction false} WhiteOf(s: seq<byte>) returns (bs: seq<Filler>)
    requires forall k :: 0 <= k < |s| ==> IsSpace(s[k])
    ensures GoodFillers(bs) && FillersText(bs) == s
  {
    hide IsSpace;
    if s == [] {
      bs := [];
    } else {
      var r := WhiteOf(s[1..]);
      bs := [White(s[0])] + r;
      assert bs[1..] == r;
    }
  }
}
