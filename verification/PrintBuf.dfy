// printbuf.c: a byte buffer that grows as it is written. Sizes are unbounded here; the
// C code keeps them in an int.
module PrintBufs {
  import opened Bytes

  function Fill(c: byte, n: nat): (s: seq<byte>)
    ensures |s| == n && forall k :: 0 <= k < n ==> s[k] == c
  {
    seq(n, _ => c)
  }

  // s with d written over it from start on.
  function Overlaid(s: seq<byte>, start: nat, d: seq<byte>): seq<byte>
    requires start <= |s|
  {
    s[..start] + d + s[if start + |d| < |s| then start + |d| else |s|..]
  }

  class PrintBuf {
    var buf: array<byte>
    var bpos: nat

    ghost predicate Valid()
      reads this
    {
      bpos <= buf.Length && buf.Length > 0
    }

    ghost function Contents(): (s: seq<byte>)
      requires Valid()
      reads this, buf
      ensures |s| == bpos
    {
      buf[..bpos]
    }

    // What lets buf be read as a C string.
    ghost predicate Terminated()
      requires Valid()
      reads this, buf
    {
      bpos < buf.Length && buf[bpos] == 0
    }

    constructor ()
      ensures Valid() && fresh(buf) && Contents() == []
    {
      buf := new byte[32];
      bpos := 0;
    }

    // At least minSize bytes of room; the room doubles so that writing n bytes one by
    // one copies O(n) bytes in all.
    method Extend(minSize: nat)
      requires Valid()
      modifies this`buf
      ensures Valid() && Contents() == old(Contents())
      ensures buf.Length >= minSize
      ensures buf == old(buf) || fresh(buf)
      ensures var was := old(buf.Length);
        && (minSize <= was ==> buf == old(buf))
        && (minSize > was ==> buf.Length >= 2 * was && buf.Length >= minSize + 8)
        && (minSize > was ==> buf.Length == 2 * was || buf.Length == minSize + 8)
    {
      if buf.Length >= minSize {
        return;
      }
      var newSize := if buf.Length * 2 > minSize + 8 then buf.Length * 2 else minSize + 8;
      var t := new byte[newSize];
      forall k | 0 <= k < buf.Length {
        t[k] := buf[k];
      }
      buf := t;
    }

    // Both printbuf_memappend and printbuf_memappend_fast.
    method MemAppend(data: seq<byte>)
      requires Valid()
      modifies this, buf
      ensures Valid() && Contents() == old(Contents()) + data && Terminated()
      ensures buf == old(buf) || fresh(buf)
    {
      if buf.Length <= bpos + |data| + 1 {
        Extend(bpos + |data| + 1);
      }
      ghost var was := buf[..bpos];
      MemCpy(buf, bpos, data);
      bpos := bpos + |data|;
      buf[bpos] := 0;
      assert buf[..bpos] == was + data;
    }

    // Writes len bytes c from offset on, -1 standing for the end. Bytes between the
    // contents and a later offset are left as they happen to be.
    method MemSet(offset: int, c: byte, len: nat)
      requires Valid() && offset >= -1
      modifies this, buf
      ensures Valid() && (buf == old(buf) || fresh(buf))
      ensures var was := old(Contents()); var start := if offset == -1 then |was| else offset;
        && bpos == (if start + len < |was| then |was| else start + len)
        && (start <= |was| ==> Contents() == Overlaid(was, start, Fill(c, len)))
        && (start > |was| ==> Contents()[..|was|] == was && Contents()[start..] == Fill(c, len))
    {
      hide Fill;
      ghost var was := Contents();
      var start: nat := if offset == -1 then bpos else offset;
      SetRange(start, c, len);
      assert Contents()[start..start + len] == Fill(c, len);
      if start <= |was| {
        assert Contents() == Overlaid(was, start, Fill(c, len));
      }
    }

    method SetRange(start: nat, c: byte, len: nat)
      requires Valid()
      modifies this, buf
      ensures Valid() && (buf == old(buf) || fresh(buf))
      ensures bpos == if start + len < old(bpos) then old(bpos) else start + len
      ensures forall k :: start <= k < start + len ==> Contents()[k] == c
      ensures forall k :: 0 <= k < old(bpos) && !(start <= k < start + len) ==> Contents()[k] == old(Contents())[k]
    {
      var needed := start + len;
      if buf.Length < needed {
        Extend(needed);
      }
      forall k | start <= k < needed {
        buf[k] := c;
      }
      if bpos < needed {
        bpos := needed;
      }
    }

    method Reset()
      requires Valid()
      modifies this`bpos, buf
      ensures Valid() && Contents() == [] && Terminated()
    {
      buf[0] := 0;
      bpos := 0;
    }
  }
}
