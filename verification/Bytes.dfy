// Bytes, the machine sizes of a 64-bit build, and the memory primitives
// (memcpy, memmove, memchr, memcmp) that the C code calls.
module Bytes {
  newtype byte = x: int | 0 <= x < 256

  const SIZE_MAX: nat := 0xFFFF_FFFF_FFFF_FFFF
  const SSIZE_MAX: nat := 0x7FFF_FFFF_FFFF_FFFF
  const INT_MAX: nat := 0x7FFF_FFFF
  const TWO32: nat := 0x1_0000_0000
  const TWO64: nat := 0x1_0000_0000_0000_0000

  // Copies caller data, given by value, into a buffer (memcpy).
  method MemCpy(dst: array<byte>, d: nat, data: seq<byte>)
    requires d + |data| <= dst.Length
    modifies dst
    ensures forall k :: 0 <= k < dst.Length ==>
      dst[k] == if d <= k < d + |data| then data[k - d] else old(dst[k])
  {
    forall k | 0 <= k < |data| {
      dst[d + k] := data[k];
    }
  }

  method CopyInto(dst: array<byte>, d: nat, data: seq<byte>)
    requires d + |data| <= dst.Length
    modifies dst
    ensures dst[..] == old(dst[..d]) + data + old(dst[d + |data|..])
  {
    MemCpy(dst, d, data);
  }

  // The index of the first c in s; -1 stands for NULL.
  method MemChr(s: seq<byte>, c: byte) returns (r: int)
    ensures -1 <= r < |s|
    ensures r >= 0 ==> s[r] == c && c !in s[..r]
    ensures r < 0 ==> c !in s
  {
    r := 0;
    while r < |s|
      invariant 0 <= r <= |s| && c !in s[..r]
    {
      if s[r] == c {
        return;
      }
      r := r + 1;
    }
    r := -1;
  }

  // Negative, zero or positive as the first differing byte of a is below, absent or
  // above that of b.
  function MemCmp(a: seq<byte>, b: seq<byte>): int
    requires |a| == |b|
  {
    if a == [] then 0
    else if a[0] == b[0] then MemCmp(a[1..], b[1..])
    else a[0] as int - b[0] as int
  }

  // The first byte in which they differ is smaller in a.
  ghost predicate Below(a: seq<byte>, b: seq<byte>)
    requires |a| == |b|
  {
    exists k :: 0 <= k < |a| && a[..k] == b[..k] && a[k] < b[k]
  }

  lemma {:induction false} MemCmpSign(a: seq<byte>, b: seq<byte>)
    requires |a| == |b|
    ensures (MemCmp(a, b) < 0 <==> Below(a, b)) && (MemCmp(a, b) > 0 <==> Below(b, a))
  {
    if a != [] {
      MemCmpSign(a[1..], b[1..]);
      BelowNext(a, b);
      BelowNext(b, a);
    }
  }

  lemma BelowNext(a: seq<byte>, b: seq<byte>)
    requires |a| == |b| > 0
    ensures Below(a, b) <==> a[0] < b[0] || (a[0] == b[0] && Below(a[1..], b[1..]))
  {
    if Below(a, b) {
      var k :| 0 <= k < |a| && a[..k] == b[..k] && a[k] < b[k];
      if k > 0 {
        assert a[..k][0] == b[..k][0];
        assert a[1..][..k - 1] == a[..k][1..] && b[1..][..k - 1] == b[..k][1..];
        assert a[1..][k - 1] < b[1..][k - 1];
      }
    }
    if a[0] == b[0] && Below(a[1..], b[1..]) {
      var k :| 0 <= k < |a[1..]| && a[1..][..k] == b[1..][..k] && a[1..][k] < b[1..][k];
      assert a[..k + 1] == [a[0]] + a[1..][..k] && b[..k + 1] == [b[0]] + b[1..][..k];
      assert a[k + 1] < b[k + 1];
    } else if a[0] < b[0] {
      assert a[..0] == b[..0];
    }
  }

  lemma {:induction false} MemCmpZero(a: seq<byte>, b: seq<byte>)
    requires |a| == |b|
    ensures MemCmp(a, b) == 0 <==> a == b
  {
    if a != [] {
      MemCmpZero(a[1..], b[1..]);
      assert a == [a[0]] + a[1..] && b == [b[0]] + b[1..];
    }
  }

  // Comparing piece by piece is comparing the whole.
  lemma {:induction false} MemCmpConcat(a: seq<byte>, b: seq<byte>, a': seq<byte>, b': seq<byte>)
    requires |a| == |b| && |a'| == |b'|
    ensures MemCmp(a + a', b + b') == if MemCmp(a, b) != 0 then MemCmp(a, b) else MemCmp(a', b')
  {
    if a == [] {
      assert a + a' == a' && b + b' == b';
    } else {
      assert (a + a')[1..] == a[1..] + a' && (b + b')[1..] == b[1..] + b';
      MemCmpConcat(a[1..], b[1..], a', b');
    }
  }
}
