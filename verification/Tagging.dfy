// The wire format of event_tagging.c. An evbuffer is its bytes here; EvBuffers relates
// the chains of a real one to them. Shifts and masks are written as arithmetic.
module Tagging {
  import opened Bytes

  // What a decoder finds: a number and the bytes it takes.
  datatype Decoded = Failed | Got(value: nat, size: nat)

  // ---- Nibbles -----------------------------------------------------------------------

  // Nibble k of b: the high half of a byte comes first.
  function Nibble(b: seq<byte>, k: nat): (n: nat)
    requires k / 2 < |b|
    ensures n < 16
  {
    if k % 2 == 1 then b[k / 2] as nat % 16 else b[k / 2] as nat / 16
  }

  // How many nibbles the digits of n take.
  function NibbleCount(n: nat): (c: nat)
  {
    if n == 0 then 0 else 1 + NibbleCount(n / 16)
  }

  // Nibbles k to c of b as a number, the lowest first.
  function NibbleValue(b: seq<byte>, k: nat, c: nat): nat
    requires c / 2 < |b|
    decreases c + 1 - k
  {
    if k > c then 0 else Nibble(b, k) + 16 * NibbleValue(b, k + 1, c)
  }

  function Power(b: nat, k: nat): (p: nat)
    requires b > 0
    ensures p > 0
  {
    if k == 0 then 1 else b * Power(b, k - 1)
  }

  lemma {:induction false} NibbleBound(n: nat, c: nat)
    requires n < Power(16, c)
    ensures NibbleCount(n) <= c
  {
    if n > 0 {
      NibbleBound(n / 16, c - 1);
    }
  }

  lemma Powers()
    ensures Power(16, 8) == TWO32 && Power(16, 16) == TWO64
  {
    assert Power(16, 4) == 0x1_0000;
    assert Power(16, 8) == TWO32;
    assert Power(16, 12) == 0x1_0000_0000_0000;
  }

  // ---- Integers ------------------------------------------------------------------------

  // b is the encoding of n: the count of its nibbles less one, its nibbles from the
  // lowest up, and a zero nibble if one is left over.
  predicate EncodesInt(b: seq<byte>, n: nat)
  {
    var c := NibbleCount(n);
    && |b| == (if c == 0 then 1 else c / 2 + 1)
    && Nibble(b, 0) == (if c == 0 then 0 else c - 1)
    && (forall k :: 1 <= k < 2 * |b| ==> Nibble(b, k) == NibbleOf(n, k - 1))
  }

  // The number n without its k lowest nibbles.
  function Shifted(n: nat, k: nat): nat
  {
    if k == 0 then n else Shifted(n, k - 1) / 16
  }

  // Nibble k of the number n.
  function NibbleOf(n: nat, k: nat): nat
  {
    Shifted(n, k) % 16
  }

  lemma {:induction false} ShiftFirst(n: nat, k: nat)
    ensures Shifted(n / 16, k) == Shifted(n, k + 1)
  {
    if k > 0 {
      ShiftFirst(n, k - 1);
    }
  }

  lemma {:induction false} ShiftedZero(n: nat, k: nat, j: nat)
    requires Shifted(n, k) == 0 && k <= j
    ensures Shifted(n, j) == 0
  {
    if k < j {
      ShiftedZero(n, k, j - 1);
    }
  }

  // ---- The bytes of an encoded integer -------------------------------------------------

  lemma DivideTwice(n: nat, a: nat, b: nat)
    requires a > 0 && b > 0
    ensures n / a / b == n / (a * b)
  {
    var q, r := n / a, n % a;
    var q', r' := q / b, q % b;
    Parts(n, a);
    Parts(q, b);
    Recompose(a, b, q', r', r);
    QuotientIs(n, a * b, q', a * r' + r);
  }

  lemma Parts(n: nat, d: nat)
    requires d > 0
    ensures n == d * (n / d) + n % d
  {
  }

  lemma Recompose(a: nat, b: nat, q: nat, r': nat, r: nat)
    requires r' < b && r < a
    ensures a * (b * q + r') + r == a * b * q + (a * r' + r) && a * r' + r < a * b
  {
    assert a * (b * q) == a * b * q;
    assert a * b == a * r' + a * (b - r');
    AtLeastOnce(a, b - r');
  }

  lemma AtLeastOnce(a: nat, k: nat)
    requires k > 0
    ensures a <= a * k
  {
  }

  lemma QuotientIs(n: nat, d: nat, q: nat, r: nat)
    requires d > 0 && n == d * q + r && r < d
    ensures n / d == q
  {
    Parts(n, d);
    var e := n / d - q;
    assert d * e == d * (n / d) - d * q;
    NoMultiple(d, e);
  }

  lemma NoMultiple(d: int, e: int)
    requires -d < d * e < d
    ensures e == 0
  {
  }

  lemma {:induction false} ShiftedIs(n: nat, k: nat)
    ensures Shifted(n, k) == n / Power(16, k)
  {
    if k > 0 {
      ShiftedIs(n, k - 1);
      DivideTwice(n, Power(16, k - 1), 16);
    }
  }

  // As many nibbles as n has hexadecimal digits.
  lemma {:induction false} CountIs(n: nat)
    requires n > 0
    ensures var c := NibbleCount(n); c > 0 && Power(16, c - 1) <= n < Power(16, c)
  {
    if n >= 16 {
      CountIs(n / 16);
    } else {
      assert NibbleCount(n / 16) == 0;
      assert Power(16, 1) == 16 * Power(16, 0);
    }
  }

  // The encoding of n, which has c hexadecimal digits: c - 1 and the lowest digit in the
  // first byte, then two digits a byte, the lower one in the high half.
  lemma IntBytes(b: seq<byte>, n: nat)
    requires EncodesInt(b, n)
    ensures n == 0 ==> b == [0]
    ensures n > 0 ==>
      var c := NibbleCount(n);
      && c > 0 && Power(16, c - 1) <= n < Power(16, c)
      && |b| == c / 2 + 1 && b[0] as nat == 16 * (c - 1) + n % 16
      && forall k :: 1 <= k < |b| ==>
           var x := n / Power(16, 2 * k - 1);
           b[k] as nat == 16 * (x % 16) + x / 16 % 16
  {
    hide NibbleOf, NibbleCount, Power;
    CountSome(n);
    assert Nibble(b, 1) == NibbleOf(n, 0);
    FirstNibble(n);
    if n > 0 {
      CountIs(n);
      forall k | 1 <= k < |b|
        ensures var x := n / Power(16, 2 * k - 1); b[k] as nat == 16 * (x % 16) + x / 16 % 16
      {
        ByteIs(b, n, k);
      }
    }
  }

  lemma ByteIs(b: seq<byte>, n: nat, k: nat)
    requires EncodesInt(b, n) && 1 <= k < |b|
    ensures var x := n / Power(16, 2 * k - 1); b[k] as nat == 16 * (x % 16) + x / 16 % 16
  {
    hide NibbleOf, NibbleCount, Power;
    var j := 2 * k;
    assert Nibble(b, j) == NibbleOf(n, j - 1) && Nibble(b, j + 1) == NibbleOf(n, j);
    TwoNibbles(n, j - 1);
  }

  lemma FirstNibble(n: nat)
    ensures NibbleOf(n, 0) == n % 16
  {
  }

  lemma TwoNibbles(n: nat, k: nat)
    ensures var x := n / Power(16, k); NibbleOf(n, k) == x % 16 && NibbleOf(n, k + 1) == x / 16 % 16
  {
    ShiftedIs(n, k);
  }

  // Stores a nibble, leaving the other half of its byte.
  method PutNibble(data: array<byte>, k: nat, n: nat)
    requires k / 2 < data.Length && n < 16
    modifies data
    ensures Half(data, k) == n
    ensures forall j: nat :: j / 2 < data.Length && j != k ==> Half(data, j) == old(Half(data, j))
  {
    if k % 2 == 1 {
      data[k / 2] := (data[k / 2] as nat / 16 * 16 + n) as byte;
    } else {
      data[k / 2] := (data[k / 2] as nat % 16 + n * 16) as byte;
    }
    forall j: nat | j / 2 < data.Length && j != k
      ensures Half(data, j) == old(Half(data, j))
    {
      if j / 2 == k / 2 {
        assert j % 2 != k % 2;
      }
    }
  }

  // ENCODE_INT_INTERNAL for numbers of up to width bytes; the result is data[..len].
  method EncodeInt(number0: nat, width: nat) returns (b: seq<byte>)
    requires number0 < Power(16, 2 * width) && 0 < width <= 8
    ensures EncodesInt(b, number0) && |b| <= width + 1
  {
    hide Half;
    var number, off: nat := number0, 1;
    var data := new byte[width + 1](_ => 0);
    AllZero(data);
    NibbleBound(number0, 2 * width);
    ghost var c := NibbleCount(number0);
    while number != 0
      invariant off >= 1 && off - 1 + NibbleCount(number) == c <= 2 * width
      invariant number == Shifted(number0, off - 1)
      invariant forall k :: 1 <= k < off ==> Half(data, k) == NibbleOf(number0, k - 1)
      invariant Half(data, 0) == 0 && forall k :: off <= k < 2 * data.Length ==> Half(data, k) == 0
      decreases number
    {
      PutNibble(data, off, number % 16);
      number := number / 16;
      off := off + 1;
    }
    PutNibble(data, 0, if off > 2 then off - 2 else 0);
    b := data[..(off + 1) / 2];
    Halves(data, b);
    forall j | off - 1 <= j < 2 * |b| - 1
      ensures NibbleOf(number0, j) == 0
    {
      ShiftedZero(number0, off - 1, j);
    }
  }

  function Half(data: array<byte>, k: nat): (n: nat)
    requires k / 2 < data.Length
    reads data
  {
    if k % 2 == 1 then data[k / 2] as nat % 16 else data[k / 2] as nat / 16
  }

  lemma AllZero(data: array<byte>)
    requires forall k :: 0 <= k < data.Length ==> data[k] == 0
    ensures forall k :: 0 <= k < 2 * data.Length ==> Half(data, k) == 0
  {
  }

  lemma Halves(data: array<byte>, b: seq<byte>)
    requires b <= data[..]
    ensures forall k :: 0 <= k < 2 * |b| ==> Nibble(b, k) == Half(data, k)
  {
  }

  // What DECODE_INT_INTERNAL reads at an offset.
  function IntAt(b: seq<byte>, offset: nat, maxNibbles: nat): Decoded
  {
    if |b| <= offset then Failed
    else
      var d := b[offset..];
      var c := Nibble(d, 0) + 1;
      if c > maxNibbles || c / 2 + 1 > |d| then Failed else Got(NibbleValue(d, 1, c), c / 2 + 1)
  }

  // DECODE_INT_INTERNAL
  method DecodeInt(b: seq<byte>, offset: nat, maxNibbles: nat) returns (r: Decoded)
    ensures r == IntAt(b, offset, maxNibbles)
  {
    if |b| <= offset {
      return Failed;
    }
    var data := b[offset..];
    var nibbles: nat := data[0] as nat / 16 + 1;
    if nibbles > maxNibbles || nibbles / 2 + 1 > |data| {
      return Failed;
    }
    var len := nibbles / 2 + 1;
    ghost var c := nibbles;
    var number: nat := 0;
    while nibbles > 0
      invariant nibbles <= c && number == NibbleValue(data, nibbles + 1, c)
    {
      number := number * 16;
      if nibbles % 2 == 1 {
        number := number + data[nibbles / 2] as nat % 16;
      } else {
        number := number + data[nibbles / 2] as nat / 16;
      }
      nibbles := nibbles - 1;
    }
    r := Got(number, len);
  }

  // The nibbles of n, read back from the top, are n.
  lemma {:induction false} ReadBack(d: seq<byte>, m: nat, k: nat, c: nat)
    requires c / 2 < |d| && 1 <= k <= c + 1
    requires forall j :: k <= j <= c ==> Nibble(d, j) == NibbleOf(m, j - k)
    requires NibbleCount(m) <= c + 1 - k
    ensures NibbleValue(d, k, c) == m
    decreases c + 1 - k
  {
    if k <= c {
      assert Nibble(d, k) == NibbleOf(m, 0) == m % 16;
      forall j | k + 1 <= j <= c
        ensures Nibble(d, j) == NibbleOf(m / 16, j - (k + 1))
      {
        assert Nibble(d, j) == NibbleOf(m, j - k);
        ShiftFirst(m, j - (k + 1));
      }
      ReadBack(d, m / 16, k + 1, c);
    }
  }

  lemma NibblesKept(b: seq<byte>, rest: seq<byte>)
    ensures forall j :: 0 <= j < 2 * |b| ==> Nibble(b + rest, j) == Nibble(b, j)
  {
  }

  lemma EncodedNibbles(b: seq<byte>, rest: seq<byte>, n: nat)
    requires EncodesInt(b, n)
    ensures var c := if n == 0 then 1 else NibbleCount(n);
      && c > 0 && NibbleCount(n) <= c && |b| == c / 2 + 1
      && Nibble(b + rest, 0) == c - 1
      && forall j :: 1 <= j <= c ==> Nibble(b + rest, j) == NibbleOf(n, j - 1)
  {
    hide Nibble, NibbleOf;
    NibblesKept(b, rest);
  }

  // An encoded integer, with anything before and after it, decodes to itself.
  lemma IntRoundTrip(a: seq<byte>, b: seq<byte>, rest: seq<byte>, n: nat, maxNibbles: nat)
    requires EncodesInt(b, n) && NibbleCount(n) <= maxNibbles && maxNibbles > 0
    ensures IntAt(a + b + rest, |a|, maxNibbles) == Got(n, |b|)
  {
    hide Nibble, NibbleOf, EncodesInt, NibbleValue, IntAt;
    var c := if n == 0 then 1 else NibbleCount(n);
    assert (a + b + rest)[|a|..] == b + rest;
    EncodedNibbles(b, rest, n);
    ReadBack(b + rest, n, 1, c);
    CountSome(n);
    IntIs(a + b + rest, |a|, b + rest, c, maxNibbles);
  }

  lemma IntIs(b: seq<byte>, offset: nat, d: seq<byte>, c: nat, maxNibbles: nat)
    requires offset < |b| && b[offset..] == d && Nibble(d, 0) == c - 1 && c <= maxNibbles && c / 2 + 1 <= |d|
    ensures IntAt(b, offset, maxNibbles) == Got(NibbleValue(d, 1, c), c / 2 + 1)
  {
    hide Nibble, NibbleValue;
  }

  lemma CountSome(n: nat)
    ensures NibbleCount(n) == 0 <==> n == 0
  {
  }

  // ---- Tags ----------------------------------------------------------------------------

  // The encoding of a tag: seven bits a byte, the lowest first, and the high bit on all
  // but the last.
  function TagBytes(tag: nat): (b: seq<byte>)
    ensures b != []
  {
    if tag < 128 then [tag as byte] else [(tag % 128 + 128) as byte] + TagBytes(tag / 128)
  }

  // Byte k of an encoded tag holds bits 7 k to 7 k + 6, and the high bit says that more
  // follow, as long as anything is left.
  lemma {:induction false} TagBytesAre(tag: nat)
    ensures var b := TagBytes(tag);
      && tag < Power(128, |b|) && (|b| > 1 ==> Power(128, |b| - 1) <= tag)
      && forall k :: 0 <= k < |b| ==>
           b[k] as nat == tag / Power(128, k) % 128 + if k + 1 < |b| then 128 else 0
    decreases tag
  {
    var b := TagBytes(tag);
    if tag < 128 {
      assert Power(128, 1) == 128 * Power(128, 0);
    } else {
      TagBytesAre(tag / 128);
      forall k | 0 <= k < |b|
        ensures b[k] as nat == tag / Power(128, k) % 128 + if k + 1 < |b| then 128 else 0
      {
        if k > 0 {
          assert b[k] == TagBytes(tag / 128)[k - 1];
          DivideTwice(tag, 128, Power(128, k - 1));
        }
      }
    }
  }

  // evtag_encode_tag
  method EncodeTag(tag0: nat) returns (data: seq<byte>)
    requires tag0 < TWO32
    ensures data == TagBytes(tag0)
  {
    var tag, lower := tag0, tag0 % 128;
    data := [];
    while tag >= 128
      invariant tag >= 0 && TagBytes(tag0) == data + TagBytes(tag)
      decreases tag
    {
      lower := tag % 128 + 128;
      data := data + [lower as byte];
      tag := tag / 128;
    }
    data := data + [tag as byte];
  }

  lemma TagShort(tag: nat)
    requires tag < TWO32
    ensures |TagBytes(tag)| <= 5
  {
    var t1 := tag / 128;
    var t2 := t1 / 128;
    var t3 := t2 / 128;
    var t4 := t3 / 128;
    assert t4 < 16;
    assert tag >= 128 ==> |TagBytes(tag)| == 1 + |TagBytes(t1)|;
    assert t1 >= 128 ==> |TagBytes(t1)| == 1 + |TagBytes(t2)|;
    assert t2 >= 128 ==> |TagBytes(t2)| == 1 + |TagBytes(t3)|;
    assert t3 >= 128 ==> |TagBytes(t3)| == 1 + |TagBytes(t4)|;
  }

  // The tag at the start of b.
  function TagAt(b: seq<byte>): (r: Decoded)
    ensures r.Got? ==> 0 < r.size <= |b|
  {
    if b == [] then Failed
    else if b[0] < 128 then Got(b[0] as nat, 1)
    else
      match TagAt(b[1..])
      case Failed => Failed
      case Got(v, n) => Got(b[0] as nat % 128 + 128 * v, n + 1)
  }

  lemma {:induction false} TagRoundTrip(tag: nat, rest: seq<byte>)
    ensures TagAt(TagBytes(tag) + rest) == Got(tag, |TagBytes(tag)|)
    decreases tag
  {
    var b := TagBytes(tag);
    if tag >= 128 {
      TagRoundTrip(tag / 128, rest);
      assert (b + rest)[1..] == TagBytes(tag / 128) + rest;
    }
  }

  // The tag whose first count bytes gave number, the others r, each worth weight times
  // as much.
  function Combined(number: nat, weight: nat, count: nat, r: Decoded): Decoded
  {
    match r
    case Failed => Failed
    case Got(v, n) => Got(number + weight * v, count + n)
  }

  lemma NextByte(b: seq<byte>, number: nat, weight: nat, count: nat)
    requires count < |b|
    ensures Combined(number, weight, count, TagAt(b[count..])) ==
            if b[count] < 128 then Got(number + b[count] as nat * weight, count + 1)
            else Combined(number + b[count] as nat % 128 * weight, weight * 128, count + 1, TagAt(b[count + 1..]))
  {
    var x := b[count] as nat;
    assert b[count..][1..] == b[count + 1..];
    match TagAt(b[count + 1..])
    case Failed =>
    case Got(v, n) => Spread(weight, x % 128, v);
  }

  lemma Spread(w: nat, x: nat, v: nat)
    ensures w * (x + 128 * v) == x * w + w * 128 * v
  {
  }

  // decode_tag_internal, where the five bytes it makes contiguous are all it reads. The
  // number is a 32-bit word.
  method DecodeTag(b: seq<byte>) returns (r: Decoded)
    requires if TagAt(b).Failed? then |b| <= 5 else TagAt(b).size <= 5
    ensures r == if TagAt(b).Failed? then Failed else Got(TagAt(b).value % TWO32, TagAt(b).size)
  {
    hide TagAt;
    var number: nat, count: nat, weight: nat := 0, 0, 1;
    assert b[0..] == b;
    while count < |b|
      invariant count <= |b| && TagAt(b) == Combined(number, weight, count, TagAt(b[count..]))
    {
      NextByte(b, number, weight, count);
      var lower := b[count] as nat;
      number := number + lower % 128 * weight;
      count := count + 1;
      if lower < 128 {
        return Got(number % TWO32, count);
      }
      weight := weight * 128;
    }
    NoBytes(b);
    r := Failed;
  }

  lemma NoBytes(b: seq<byte>)
    ensures TagAt(b[|b|..]) == Failed
  {
  }

  // ---- Records ---------------------------------------------------------------------------

  datatype Record =
    | Data(tag: nat, payload: seq<byte>)
    | Int32(tag: nat, n: nat)
    | Int64(tag: nat, n: nat)
    | Time(tag: nat, sec: nat, usec: nat)

  // What the functions can write: 32-bit tags, payloads shorter than 2^31 bytes, and
  // seconds that fit 32 bits.
  predicate Writable(r: Record)
  {
    r.tag < TWO32 &&
    match r
    case Data(_, p) => |p| <= INT_MAX
    case Int32(_, n) => n < TWO32
    case Int64(_, n) => n < TWO64
    case Time(_, s, u) => s < TWO32 && u < TWO32
  }

  ghost predicate IsPayload(p: seq<byte>, r: Record)
  {
    match r
    case Data(_, q) => p == q
    case Int32(_, n) => EncodesInt(p, n)
    case Int64(_, n) => EncodesInt(p, n)
    case Time(_, s, u) => exists a, b :: EncodesInt(a, s) && EncodesInt(b, u) && p == a + b
  }

  // b is a record on the wire, with payload p whose length is encoded as l.
  ghost predicate Wire(b: seq<byte>, r: Record, l: seq<byte>, p: seq<byte>)
  {
    EncodesInt(l, |p|) && IsPayload(p, r) && b == TagBytes(r.tag) + l + p
  }

  ghost predicate Encodes(b: seq<byte>, r: Record)
  {
    exists l, p :: Wire(b, r, l, p)
  }

  // The tag and payload length at the start of a stream, and where the payload starts.
  datatype Header = NoHeader | Header(tag: nat, len: nat, start: nat)

  function HeaderAt(b: seq<byte>): (h: Header)
    ensures h.Header? ==> h.start <= |b|
  {
    match TagAt(b)
    case Failed => NoHeader
    case Got(tag, n) =>
      match IntAt(b, n, 8)
      case Failed => NoHeader
      case Got(len, m) => Header(tag, len, n + m)
  }

  // A stream the decoders can be given: at most five bytes of tag, with a 32-bit value,
  // and a length that is not negative as an int.
  predicate Readable(b: seq<byte>)
  {
    if TagAt(b).Failed? then |b| <= 5
    else TagAt(b).size <= 5 && TagAt(b).value < TWO32 && (HeaderAt(b).Header? ==> HeaderAt(b).len <= INT_MAX)
  }

  // What is left of a stream whose header has been drained as far as it is there.
  function HeaderRest(b: seq<byte>): seq<byte>
  {
    match TagAt(b)
    case Failed => b
    case Got(_, n) =>
      match IntAt(b, n, 8)
      case Failed => b[n..]
      case Got(_, m) => b[n + m..]
  }

  // The same where only one tag is wanted: another one is all that is drained.
  function ExpectedRest(b: seq<byte>, needTag: nat): seq<byte>
  {
    match TagAt(b)
    case Failed => b
    case Got(tag, n) => if tag == needTag then HeaderRest(b) else b[n..]
  }

  // A length decoded where the tag has been drained.
  lemma DrainedTag(b: seq<byte>, n: nat)
    requires n <= |b|
    ensures IntAt(b[n..], 0, 8) == IntAt(b, n, 8)
    ensures forall m: nat :: n + m <= |b| ==> b[n..][m..] == b[n + m..]
  {
    assert b[n..][0..] == b[n..];
  }

  lemma HeaderOf(b: seq<byte>, r: Record, l: seq<byte>, p: seq<byte>, rest: seq<byte>)
    requires Wire(b, r, l, p) && r.tag < TWO32 && |p| <= INT_MAX
    ensures Readable(b + rest)
    ensures TagAt(b + rest).Got? && TagAt(b + rest).value == r.tag
    ensures HeaderAt(b + rest) == Header(r.tag, |p|, |TagBytes(r.tag)| + |l|)
    ensures |b| < TWO32 && |b| == |TagBytes(r.tag)| + |l| + |p| && (b + rest)[|b| - |p|..] == p + rest
  {
    hide TagBytes, TagAt, IntAt, EncodesInt, IsPayload;
    var t := TagBytes(r.tag);
    WireParts(t, l, p, rest);
    TagRoundTrip(r.tag, l + p + rest);
    TagShort(r.tag);
    LengthShort(l, |p|);
    IntRoundTrip(t, l, p + rest, |p|, 8);
  }

  lemma WireParts(t: seq<byte>, l: seq<byte>, p: seq<byte>, rest: seq<byte>)
    ensures t + l + p + rest == t + (l + p + rest) && t + l + p + rest == t + l + (p + rest)
    ensures (t + l + p + rest)[|t| + |l|..] == p + rest
  {
  }

  lemma LengthShort(l: seq<byte>, n: nat)
    requires EncodesInt(l, n) && n <= INT_MAX
    ensures |l| <= 5 && NibbleCount(n) <= 8
  {
    hide Nibble, NibbleOf;
    Powers();
    NibbleBound(n, 8);
  }

  lemma PayloadShort(p: seq<byte>, r: Record)
    requires IsPayload(p, r) && Writable(r)
    ensures |p| <= INT_MAX
  {
    Powers();
    match r
    case Data(_, q) =>
    case Int32(_, n) => NibbleBound(n, 8);
    case Int64(_, n) => NibbleBound(n, 16);
    case Time(_, s, u) => NibbleBound(s, 8); NibbleBound(u, 8);
  }

  // Where the header ends, the payload of an integer or timeval record decodes to it.
  lemma PayloadOf(b: seq<byte>, r: Record, l: seq<byte>, p: seq<byte>, rest: seq<byte>)
    requires Wire(b, r, l, p) && Writable(r)
    ensures match r
            case Data(_, q) => (b + rest)[|b| - |p|..|b|] == q
            case Int32(_, n) => IntAt(b + rest, |b| - |p|, 8) == Got(n, |p|)
            case Int64(_, n) => IntAt(b + rest, |b| - |p|, 16) == Got(n, |p|)
            case Time(_, s, u) =>
              var d := IntAt(b + rest, |b| - |p|, 8);
              d.Got? && d.value == s && IntAt(b + rest, |b| - |p| + d.size, 8) == Got(u, |p| - d.size)
  {
    hide EncodesInt, TagBytes, IntAt;
    Powers();
    var h := TagBytes(r.tag) + l;
    assert |h| == |b| - |p| && b + rest == h + p + rest;
    match r
    case Data(_, q) =>
    case Int32(_, n) =>
      NibbleBound(n, 8);
      IntRoundTrip(h, p, rest, n, 8);
    case Int64(_, n) =>
      NibbleBound(n, 16);
      IntRoundTrip(h, p, rest, n, 16);
    case Time(_, s, u) =>
      var a, c :| EncodesInt(a, s) && EncodesInt(c, u) && p == a + c;
      NibbleBound(s, 8);
      NibbleBound(u, 8);
      assert b + rest == h + a + (c + rest) && b + rest == (h + a) + c + rest;
      IntRoundTrip(h, a, c + rest, s, 8);
      IntRoundTrip(h + a, c, rest, u, 8);
  }

  // Part i is record i on the wire.
  ghost predicate EncodesAll(parts: seq<seq<byte>>, rs: seq<Record>)
  {
    |parts| == |rs| && forall i :: 0 <= i < |rs| ==> Encodes(parts[i], rs[i])
  }

  ghost function Joined(parts: seq<seq<byte>>): seq<byte>
  {
    if parts == [] then [] else parts[0] + Joined(parts[1..])
  }

  lemma {:induction false} JoinedMore(parts: seq<seq<byte>>, c: seq<byte>)
    ensures Joined(parts + [c]) == Joined(parts) + c
  {
    if parts == [] {
      assert (parts + [c])[1..] == [];
    } else {
      JoinedMore(parts[1..], c);
      assert (parts + [c])[1..] == parts[1..] + [c];
    }
  }

  // What a reader expects next: the kind of the record, and its tag.
  datatype Kind = DataKind | Int32Kind | Int64Kind | TimeKind

  function KindOf(r: Record): Kind
  {
    match r
    case Data(_, _) => DataKind
    case Int32(_, _) => Int32Kind
    case Int64(_, _) => Int64Kind
    case Time(_, _, _) => TimeKind
  }

  // An evbuffer with a stream of records.
  class Stream {
    var bytes: seq<byte>

    constructor ()
      ensures bytes == []
    {
      bytes := [];
    }

    // evtag_encode_int and evtag_encode_int64
    method AddInt(n: nat, width: nat) returns (b: seq<byte>)
      requires n < Power(16, 2 * width) && 0 < width <= 8
      modifies this
      ensures EncodesInt(b, n) && bytes == old(bytes) + b
    {
      b := EncodeInt(n, width);
      bytes := bytes + b;
    }

    // evtag_marshal, and evtag_marshal_buffer for the bytes of another buffer
    method Marshal(tag: nat, data: seq<byte>) returns (ghost b: seq<byte>, ghost l: seq<byte>)
      requires tag < TWO32 && |data| < TWO32
      modifies this
      ensures bytes == old(bytes) + b && EncodesInt(l, |data|) && b == TagBytes(tag) + l + data
    {
      var t := EncodeTag(tag);
      bytes := bytes + t;
      Powers();
      l := AddInt(|data|, 4);
      bytes := bytes + data;
      b := t + l + data;
    }

    // evtag_marshal, evtag_marshal_int, evtag_marshal_int64 and evtag_marshal_timeval
    method Write(r: Record) returns (ghost b: seq<byte>)
      requires Writable(r)
      modifies this
      ensures bytes == old(bytes) + b && Encodes(b, r)
    {
      Powers();
      var data: seq<byte>;
      match r {
        case Data(_, p) => data := p;
        case Int32(_, n) => data := EncodeInt(n, 4);
        case Int64(_, n) => data := EncodeInt(n, 8);
        case Time(_, s, u) =>
          var a := EncodeInt(s, 4);
          var c := EncodeInt(u, 4);
          data := a + c;
      }
      ghost var l;
      b, l := Marshal(r.tag, data);
      assert Wire(b, r, l, data);
    }

    // evtag_peek
    method Peek() returns (r: Decoded)
      requires Readable(bytes)
      ensures r == TagAt(bytes)
    {
      r := DecodeTag(bytes);
    }

    // evtag_payload_length
    method PayloadLength() returns (r: Decoded)
      requires Readable(bytes)
      ensures var h := HeaderAt(bytes);
        if h.NoHeader? then r == Failed else r.Got? && r.value == h.len && r.size == h.start
    {
      var t := DecodeTag(bytes);
      if t.Failed? {
        return Failed;
      }
      var n := DecodeInt(bytes, t.size, 8);
      r := if n.Failed? then Failed else Got(n.value, t.size + n.size);
    }

    // evtag_peek_length: the length of the whole record, as a 32-bit word
    method PeekLength() returns (r: Decoded)
      requires Readable(bytes)
      ensures var h := HeaderAt(bytes);
        if h.NoHeader? then r == Failed else r.Got? && r.value == (h.len + h.start) % TWO32
    {
      r := PayloadLength();
      if r.Got? {
        r := Got((r.value + r.size) % TWO32, r.size);
      }
    }

    // Decodes a payload length and drains it; the result is -1 or the length, which the
    // bytes behind it must cover.
    method TakeLength() returns (len: int)
      modifies this
      ensures match IntAt(old(bytes), 0, 8)
              case Failed => len == -1 && bytes == old(bytes)
              case Got(v, m) => bytes == old(bytes)[m..] && len == if |bytes| < v then -1 else v
    {
      var n := DecodeInt(bytes, 0, 8);
      if n.Failed? {
        return -1;
      }
      bytes := bytes[n.size..];
      len := if |bytes| < n.value then -1 else n.value;
    }

    // evtag_unmarshal_header: drains the header as far as it is there, also when the
    // payload is not; the result is -1 or the payload length.
    method UnmarshalHeader() returns (len: int, tag: nat)
      requires Readable(bytes)
      modifies this
      ensures bytes == HeaderRest(old(bytes))
      ensures TagAt(old(bytes)).Got? ==> tag == TagAt(old(bytes)).value
      ensures var h := HeaderAt(old(bytes));
        if h.Header? && h.start + h.len <= |old(bytes)| then
          len == h.len && tag == h.tag && bytes == old(bytes)[h.start..]
        else len == -1
    {
      hide TagAt, IntAt;
      len, tag := -1, 0;
      var t := DecodeTag(bytes);
      if t.Failed? {
        return;
      }
      tag := t.value;
      DrainedTag(bytes, t.size);
      bytes := bytes[t.size..];
      len := TakeLength();
    }

    // evtag_unmarshal: the payload goes to the end of another buffer.
    method Unmarshal(dst: Stream) returns (len: int, tag: nat)
      requires Readable(bytes) && dst != this
      modifies this, dst
      ensures var h := HeaderAt(old(bytes));
        if h.Header? && h.start + h.len <= |old(bytes)| then
          && len == h.len && tag == h.tag && bytes == old(bytes)[h.start + h.len..]
          && dst.bytes == old(dst.bytes) + old(bytes)[h.start..h.start + h.len]
        else len == -1 && dst.bytes == old(dst.bytes) && bytes == HeaderRest(old(bytes))
    {
      hide TagAt, IntAt, HeaderRest;
      len, tag := UnmarshalHeader();
      if len == -1 {
        return;
      }
      dst.bytes := dst.bytes + bytes[..len];
      bytes := bytes[len..];
    }

    // The steps evtag_unmarshal_int and evtag_unmarshal_int64 begin with: as above, but a
    // tag that is not wanted is all that is drained.
    method ExpectHeader(needTag: nat) returns (len: int)
      requires Readable(bytes)
      modifies this
      ensures bytes == ExpectedRest(old(bytes), needTag)
      ensures var h := HeaderAt(old(bytes));
        if h.Header? && h.tag == needTag && h.start + h.len <= |old(bytes)| then
          len == h.len && bytes == old(bytes)[h.start..]
        else len == -1
    {
      hide TagAt, IntAt;
      len := -1;
      var t := DecodeTag(bytes);
      if t.Failed? {
        return;
      }
      DrainedTag(bytes, t.size);
      bytes := bytes[t.size..];
      if t.value != needTag {
        return;
      }
      len := TakeLength();
    }

    // evtag_unmarshal_int and evtag_unmarshal_int64. An integer longer than its payload
    // is an error, a shorter one is not.
    method UnmarshalInt(needTag: nat, maxNibbles: nat) returns (result: int, n: nat)
      requires Readable(bytes)
      modifies this
      ensures var h := HeaderAt(old(bytes));
        if h.Header? && h.tag == needTag && h.start + h.len <= |old(bytes)| then
          var d := IntAt(old(bytes), h.start, maxNibbles);
          && bytes == old(bytes)[h.start + h.len..]
          && (if d.Got? && d.size <= h.len then result == d.size && n == d.value else result == -1)
        else result == -1 && bytes == ExpectedRest(old(bytes), needTag)
    {
      hide HeaderAt, ExpectedRest;
      result, n := -1, 0;
      ghost var b := bytes;
      var len := ExpectHeader(needTag);
      if len == -1 {
        return;
      }
      var d := DecodeInt(bytes, 0, maxNibbles);
      assert bytes[0..] == b[HeaderAt(b).start..];
      bytes := bytes[len..];
      if d.Got? && d.size <= len {
        result, n := d.size, d.value;
      }
    }

    // evtag_unmarshal_timeval
    method UnmarshalTimeval(needTag: nat) returns (result: int, sec: nat, usec: nat)
      requires Readable(bytes)
      modifies this
      ensures var h := HeaderAt(old(bytes));
        if h.Header? && h.start + h.len <= |old(bytes)| then
          var d := IntAt(old(bytes), h.start, 8);
          var d' := if d.Got? then IntAt(old(bytes), h.start + d.size, 8) else Failed;
          && bytes == old(bytes)[h.start + h.len..]
          && (if h.tag == needTag && d.Got? && d'.Got? && d.size + d'.size <= h.len then
                result == 0 && sec == d.value && usec == d'.value
              else result == -1)
        else result == -1 && bytes == HeaderRest(old(bytes))
    {
      hide HeaderAt, HeaderRest, TagAt;
      result, sec, usec := -1, 0, 0;
      ghost var b := bytes;
      var len, tag := UnmarshalHeader();
      if len == -1 {
        return;
      }
      ghost var start := HeaderAt(b).start;
      var d := DecodeInt(bytes, 0, 8);
      assert bytes[0..] == b[start..];
      if tag == needTag && d.Got? {
        var d' := DecodeInt(bytes, d.size, 8);
        assert bytes[d.size..] == b[start + d.size..];
        if d'.Got? && d.size + d'.size <= len {
          result, sec, usec := 0, d.value, d'.value;
        }
      }
      bytes := bytes[len..];
    }

    // Writes a list of records.
    method WriteAll(rs: seq<Record>) returns (ghost parts: seq<seq<byte>>)
      requires forall r <- rs :: Writable(r)
      modifies this
      ensures EncodesAll(parts, rs) && bytes == old(bytes) + Joined(parts)
    {
      hide Encodes, Writable;
      parts := [];
      for i := 0 to |rs|
        invariant EncodesAll(parts, rs[..i]) && bytes == old(bytes) + Joined(parts)
      {
        ghost var c := Write(rs[i]);
        JoinedMore(parts, c);
        parts := parts + [c];
      }
    }

    // Reads the next record, and nothing after it; peeking at it first tells its tag and
    // its whole length.
    method ReadOne(kind: Kind, ghost r: Record, ghost b: seq<byte>, ghost rest: seq<byte>)
      returns (out: Record, tag: Decoded, length: Decoded)
      requires bytes == b + rest && Encodes(b, r) && Writable(r) && kind == KindOf(r)
      modifies this
      ensures out == r && bytes == rest
      ensures tag.Got? && tag.value == r.tag && length.Got? && length.value == |b|
    {
      hide HeaderAt, IntAt, TagAt, TagBytes, EncodesInt, IsPayload, Readable;
      ghost var l, p :| Wire(b, r, l, p);
      PayloadShort(p, r);
      PayloadOf(b, r, l, p, rest);
      HeaderOf(b, r, l, p, rest);
      tag := Peek();
      length := PeekLength();
      assert bytes[|b|..] == rest;
      match kind {
        case DataKind =>
          var dst := new Stream();
          var len, t := Unmarshal(dst);
          out := Data(t, dst.bytes);
        case Int32Kind =>
          var len, n := UnmarshalInt(tag.value, 8);
          out := Int32(tag.value, n);
        case Int64Kind =>
          var len, n := UnmarshalInt(tag.value, 16);
          out := Int64(tag.value, n);
        case TimeKind =>
          var ok, s, u := UnmarshalTimeval(tag.value);
          out := Time(tag.value, s, u);
      }
    }

    // A list of records followed by anything reads back as the same list, and exactly
    // its bytes are gone.
    method ReadAll(kinds: seq<Kind>, ghost rs: seq<Record>, ghost parts: seq<seq<byte>>, ghost rest: seq<byte>)
      returns (out: seq<Record>)
      requires EncodesAll(parts, rs) && bytes == Joined(parts) + rest && forall r <- rs :: Writable(r)
      requires |kinds| == |rs| && forall i :: 0 <= i < |rs| ==> kinds[i] == KindOf(rs[i])
      modifies this
      ensures out == rs && bytes == rest
    {
      hide Encodes, Writable, KindOf;
      out := [];
      for i := 0 to |kinds|
        invariant out == rs[..i] && bytes == Joined(parts[i..]) + rest
      {
        assert parts[i..][1..] == parts[i + 1..];
        assert bytes == parts[i] + (Joined(parts[i + 1..]) + rest);
        var r, t, length := ReadOne(kinds[i], rs[i], parts[i], Joined(parts[i + 1..]) + rest);
        out := out + [r];
      }
    }
  }
}
