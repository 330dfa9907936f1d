// What the escapes of code points stand for, as whole texts: one escape, its digits in
// either case, and the pairs of UTF-16.
module JsonSpelling {
  import opened Bytes
  import opened Json
  import opened JsonMachine
  import opened JsonEscapes
  import opened JsonGrammar
  import opened JsonRoundTrip

  // The string of one escape, as far as its closing quote.
  lemma OneEscape(conf: Conf, d: seq<byte>, u: nat)
    requires conf.maxDepth > 0 && Spelling(d, u)
    ensures WF(conf, NewTok()) && Feed(conf, NewTok(), HighText(d)) == More(Emit(Opened(AtString([])), u))
  {
    hide WF, Feed, Emit, Spelling;
    OpenString(conf);
    OpenEscape(conf, AtString([]));
    EscapeReads(conf, Opened(AtString([])), d, u);
    FeedConcat(conf, NewTok(), [DQUOTE], BACKSLASH_U);
    FeedConcat(conf, NewTok(), [DQUOTE] + BACKSLASH_U, d);
  }

  lemma EmitPlain(t: Tok, u: nat)
    requires t.pend.NoHi? && u < 0x10000 && !(0xD800 <= u < 0xE000)
    ensures Emit(t, u).pend.NoHi? && Emit(t, u).pb == t.pb + Utf8(u)
  {
    hide Utf8;
    MaskedHigh(u);
    assert t.pb + [] == t.pb;
  }

  // A string of one escape, for a number that is no surrogate, is the well-formed UTF-8 of
  // that number.
  lemma EscapedChar(conf: Conf, d: seq<byte>, u: nat)
    requires conf.maxDepth > 0 && Spelling(d, u) && !(0xD800 <= u < 0xE000)
    ensures var r := Run(conf, NewTok(), [34, 92, 117] + d + [34], 0);
      r.err == Success && r.obj.Str? && WellFormed(r.obj.text) && FromUtf8(r.obj.text) == u
  {
    hide WF, Feed, Run, Spelling, Emit, FromUtf8, WellFormed, Utf8, HexValue, FourHex;
    SpellingValue(d, u);
    OneEscape(conf, d, u);
    EmitShape(Opened(AtString([])), u);
    EmitPlain(Opened(AtString([])), u);
    EndString(conf, NewTok(), HighText(d));
    Utf8Reads(u);
    assert HighText(d) == [34, 92, 117] + d;
    assert [] + Utf8(u) == Utf8(u);
  }

  // The two escapes of UTF-16 for a code point from 0x10000 on give its UTF-8, exactly if
  // its low sixteen bits do not look like a surrogate.
  lemma EscapedPair(conf: Conf, d: seq<byte>, d': seq<byte>, v: nat)
    requires conf.maxDepth > 0 && 0x10000 <= v < 0x110000
    requires Spelling(d, 0xD800 + (v - 0x10000) / 0x400) && Spelling(d', 0xDC00 + (v - 0x10000) % 0x400)
    ensures var r := Run(conf, NewTok(), [34, 92, 117] + d + [92, 117] + d' + [34], 0);
      && r.err == Success && r.obj.Str?
      && (WellFormed(r.obj.text) && FromUtf8(r.obj.text) == v <==> !(0xD800 <= v % 0x10000 < 0xE000))
  {
    hide WF, Feed, Run, Spelling, Emit, FromUtf8, WellFormed, Utf8, HexValue, FourHex;
    var hi, lo := 0xD800 + (v - 0x10000) / 0x400, 0xDC00 + (v - 0x10000) % 0x400;
    SpellingValue(d, hi);
    SpellingValue(d', lo);
    PairNumbers(v);
    PairRead(conf, d, d');
    PairEmitted(PairOpened(AfterHigh(hi)), v);
    Utf8Reads(v);
    assert HighText(d) + (BACKSLASH_U + d') + [DQUOTE] == [34, 92, 117] + d + [92, 117] + d' + [34];
  }

  // What a completed pair leaves behind, once no other half follows.
  lemma PairEmitted(t: Tok, v: nat)
    requires t.pend.HiU? && 0x10000 <= v < 0x110000 && t.pb == []
    requires t.pend.u == 0xD800 + (v - 0x10000) / 0x400
    ensures var text := EndPending(Emit(t, 0xDC00 + (v - 0x10000) % 0x400)).pb;
      if 0xD800 <= v % 0x10000 < 0xE000 then text == REPLACEMENT && !(WellFormed(text) && FromUtf8(text) == v)
      else text == Utf8(v)
  {
    hide Utf8;
    PairNumbers(v);
    MaskedHigh(v);
    assert t.pb + [] == [] && t.pb + [] + Utf8(v) == Utf8(v) && t.pb + REPLACEMENT == REPLACEMENT;
    assert FromUtf8(REPLACEMENT) == 0xFFFD;
  }
}
