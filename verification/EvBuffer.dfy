// The byte queue of libevent: a singly linked list of chains, each holding a run of
// bytes with slack on both sides, addressed through three pointers (first, last and
// the pointer-to-next-pointer lastWithDatap).
//
// Chains live in an Arena, the part of the C heap that holds them: an address is in
// arena.mem exactly while its chain is allocated, so reading or freeing a chain that
// was already freed does not verify, and a chain that is dropped without being freed
// breaks the "no leak" clause of every contract.
//
// The abstract value of a buffer is Contents(): the concatenation of the runs.
module EvBuffers {
  import opened Bytes
  import opened Wrappers

  const MIN_BUFFER_SIZE: nat := 1024
  const CHAIN_SIZE: nat := 48
  const CHAIN_MAX: nat := SSIZE_MAX
  const MAX_CAPACITY: nat := CHAIN_MAX - CHAIN_SIZE
  const CHAIN_MAX_AUTO_SIZE: nat := 4096
  const MAX_TO_REALIGN: nat := 2048

  type Addr = nat
  const NULL: Addr := 0

  // struct evbuffer_chain: the allocated bytes and the part of them in use.
  datatype Chain = Chain(next: Addr, buffer: seq<byte>, misalign: nat, off: nat) {
    predicate Ok() {
      misalign + off <= |buffer| <= MAX_CAPACITY && |buffer| > 0
    }

    function Data(): seq<byte>
      requires Ok()
    {
      buffer[misalign..misalign + off]
    }

    function Space(): nat
      requires Ok()
    {
      |buffer| - misalign - off
    }
  }

  type Memory = map<Addr, Chain>

  function Doubled(n: nat, k: nat): nat
  {
    if k == 0 then n else 2 * Doubled(n, k - 1)
  }

  // The smallest doubling of 1024 from need on, short of half the limit; need itself above.
  ghost predicate SizedFor(total: nat, need: nat)
  {
    if need < CHAIN_MAX / 2 then
      exists k: nat :: total == Doubled(1024, k) >= need && (k == 0 || Doubled(1024, k - 1) < need)
    else
      total == need
  }

  class Arena {
    var mem: Memory
    var brk: Addr

    constructor ()
      ensures Valid() && mem == map[]
    {
      mem, brk := map[], 1;
    }

    ghost predicate Valid()
      reads this
    {
      0 < brk && forall a <- mem :: 0 < a < brk && mem[a].Ok()
    }

    // evbuffer_chain_new: null exactly when the request is too large to size.
    method ChainNew(size: nat) returns (chain: Addr)
      requires Valid()
      modifies this
      ensures Valid()
      ensures chain == NULL <==> size > MAX_CAPACITY
      ensures chain == NULL ==> mem == old(mem)
      ensures chain != NULL ==> chain !in old(mem) && chain in mem && mem == old(mem)[chain := mem[chain]]
      ensures chain != NULL ==>
        && mem[chain].next == NULL && mem[chain].misalign == 0 && mem[chain].off == 0
        && size <= |mem[chain].buffer| && MIN_BUFFER_SIZE <= |mem[chain].buffer| + CHAIN_SIZE
        && (MIN_BUFFER_SIZE < size + CHAIN_SIZE ==>
              |mem[chain].buffer| + CHAIN_SIZE < 2 * (size + CHAIN_SIZE))
      ensures chain != NULL ==> SizedFor(|mem[chain].buffer| + CHAIN_SIZE, size + CHAIN_SIZE)
    {
      if size > CHAIN_MAX - CHAIN_SIZE {
        return NULL;
      }
      var need := size + CHAIN_SIZE;
      var toAlloc := need;
      if need < CHAIN_MAX / 2 {
        ghost var k: nat := 0;
        toAlloc := MIN_BUFFER_SIZE;
        while toAlloc < need
          invariant MIN_BUFFER_SIZE <= toAlloc
          invariant toAlloc == MIN_BUFFER_SIZE || toAlloc < 2 * need
          invariant toAlloc == Doubled(1024, k) && (k == 0 || Doubled(1024, k - 1) < need)
          decreases need - toAlloc
        {
          toAlloc, k := toAlloc * 2, k + 1;
        }
      }
      chain := brk;
      var block := Chain(NULL, seq(toAlloc - CHAIN_SIZE, _ => 0), 0, 0);
      assert block.Ok();
      mem := mem[chain := block];
      brk := brk + 1;
    }

    // p->next = next
    method SetNext(p: Addr, next: Addr)
      requires Valid() && p in mem
      modifies this
      ensures Valid() && mem == old(mem)[p := old(mem)[p].(next := next)]
    {
      mem := mem[p := mem[p].(next := next)];
    }

    // Copy data behind the bytes in use: memcpy to CHAIN_SPACE_PTR, then off += |data|.
    method AppendBytes(p: Addr, data: seq<byte>)
      requires Valid() && p in mem && |data| <= mem[p].Space()
      modifies this
      ensures Valid() && p in mem && mem == old(mem)[p := mem[p]]
      ensures mem[p].Data() == old(mem)[p].Data() + data
      ensures mem[p].next == old(mem)[p].next && mem[p].misalign == old(mem)[p].misalign
      ensures mem[p].off == old(mem)[p].off + |data| && |mem[p].buffer| == |old(mem)[p].buffer|
    {
      var c := mem[p];
      var at := c.misalign + c.off;
      SpliceBehind(c.buffer, c.misalign, at, data);
      mem := mem[p := c.(buffer := c.buffer[..at] + data + c.buffer[at + |data|..], off := c.off + |data|)];
    }

    // Copy data in front of the bytes in use.
    method PrependBytes(p: Addr, data: seq<byte>)
      requires Valid() && p in mem && |data| <= mem[p].misalign
      modifies this
      ensures Valid() && p in mem && mem == old(mem)[p := mem[p]]
      ensures mem[p].Data() == data + old(mem)[p].Data()
      ensures mem[p].next == old(mem)[p].next && mem[p].misalign == old(mem)[p].misalign - |data|
      ensures mem[p].off == old(mem)[p].off + |data| && |mem[p].buffer| == |old(mem)[p].buffer|
    {
      var c := mem[p];
      var at := c.misalign - |data|;
      SpliceFront(c.buffer, c.misalign, c.misalign + c.off, data);
      mem := mem[p := c.(buffer := c.buffer[..at] + data + c.buffer[c.misalign..],
                         misalign := at, off := c.off + |data|)];
    }

    // evbuffer_chain_align: move the bytes in use to the start of the block.
    method ChainAlign(p: Addr)
      requires Valid() && p in mem
      modifies this
      ensures Valid() && p in mem && mem == old(mem)[p := mem[p]]
      ensures mem[p].Data() == old(mem)[p].Data() && mem[p].misalign == 0
      ensures mem[p].next == old(mem)[p].next && mem[p].off == old(mem)[p].off
      ensures |mem[p].buffer| == |old(mem)[p].buffer|
    {
      var c := mem[p];
      mem := mem[p := c.(buffer := c.Data() + c.buffer[c.off..], misalign := 0)];
    }

    // An empty chain is treated as empty at the beginning rather than at the end.
    method EmptyAtStart(p: Addr)
      requires Valid() && p in mem && mem[p].off == 0
      modifies this
      ensures Valid() && mem == old(mem)[p := old(mem)[p].(misalign := |old(mem)[p].buffer|)]
    {
      mem := mem[p := mem[p].(misalign := |mem[p].buffer|)];
    }

    // Fill an empty chain so that the data ends at the end of the block.
    method FillBack(p: Addr, data: seq<byte>)
      requires Valid() && p in mem && |data| <= |mem[p].buffer|
      modifies this
      ensures Valid() && p in mem && mem == old(mem)[p := mem[p]]
      ensures mem[p].Data() == data && mem[p].off == |data| && mem[p].next == old(mem)[p].next
    {
      var c := mem[p];
      var at := |c.buffer| - |data|;
      mem := mem[p := c.(buffer := c.buffer[..at] + data, misalign := at, off := |data|)];
    }

    // chain->misalign += n; chain->off -= n
    method DropBytes(p: Addr, n: nat)
      requires Valid() && p in mem && n <= mem[p].off
      modifies this
      ensures Valid() && p in mem && mem == old(mem)[p := mem[p]]
      ensures mem[p].Data() == old(mem)[p].Data()[n..]
      ensures mem[p].next == old(mem)[p].next && mem[p].off == old(mem)[p].off - n
      ensures mem[p].misalign == old(mem)[p].misalign + n && mem[p].buffer == old(mem)[p].buffer
    {
      var c := mem[p];
      mem := mem[p := c.(misalign := c.misalign + n, off := c.off - n)];
    }

    // evbuffer_chain_free
    method ChainFree(chain: Addr)
      requires Valid() && chain in mem
      modifies this
      ensures Valid() && mem == old(mem) - {chain}
    {
      mem := mem - {chain};
    }
  }

  // Bytes written behind and in front of a range.
  lemma SpliceBehind(b: seq<byte>, lo: nat, hi: nat, d: seq<byte>)
    requires lo <= hi && hi + |d| <= |b|
    ensures (b[..hi] + d + b[hi + |d|..])[lo..hi + |d|] == b[lo..hi] + d
  {
  }

  lemma SpliceFront(b: seq<byte>, lo: nat, hi: nat, d: seq<byte>)
    requires |d| <= lo <= hi <= |b|
    ensures (b[..lo - |d|] + d + b[lo..])[lo - |d|..hi] == d + b[lo..hi]
  {
  }

  // Conversion of a size to a 32-bit int.
  function AsInt32(n: int): int
  {
    var low := n % 0x1_0000_0000;
    if low < 0x8000_0000 then low else low - 0x1_0000_0000
  }

  // It is the number of 32 bits with a sign that differs by a multiple of 2^32.
  lemma AsInt32Is(n: int, r: int)
    ensures r == AsInt32(n) <==> -0x8000_0000 <= r < 0x8000_0000 && (n - r) % 0x1_0000_0000 == 0
  {
  }

  // An address that holds a chain pointer: &buf->first or &chain->next.
  datatype Link = NullLink | FirstOf(buf: EvBuffer) | NextOf(chain: Addr)

  // ---- Lists of chains -------------------------------------------------------

  ghost predicate Differ(cs: seq<Addr>, i: nat, j: nat)
    requires i < |cs| && j < |cs|
  {
    cs[i] != cs[j]
  }

  ghost predicate Distinct(cs: seq<Addr>)
  {
    forall i, j :: 0 <= i < j < |cs| ==> Differ(cs, i, j)
  }

  ghost function ChainAt(cs: seq<Addr>, i: nat, end: Addr): Addr
  {
    if i < |cs| then cs[i] else end
  }

  // cs is allocated, free of repetition and linked in order; its last chain points at end.
  ghost predicate List(m: Memory, cs: seq<Addr>, end: Addr)
  {
    && Distinct(cs)
    && (forall i :: 0 <= i < |cs| ==> cs[i] != NULL && cs[i] in m && m[cs[i]].Ok())
    && (forall i {:trigger m[cs[i]].next} :: 0 <= i < |cs| ==> m[cs[i]].next == ChainAt(cs, i + 1, end))
  }

  // The bytes held at an address; none if no chain lives there.
  ghost function Piece(m: Memory, a: Addr): seq<byte>
  {
    if a in m && m[a].Ok() then m[a].Data() else []
  }

  // The bytes of the chains of cs, in order.
  ghost function Joined(m: Memory, cs: seq<Addr>): seq<byte>
  {
    if cs == [] then [] else Piece(m, cs[0]) + Joined(m, cs[1..])
  }

  // The memory that does not belong to cs.
  ghost function Rest(m: Memory, cs: seq<Addr>): Memory
  {
    map a | a in m && a !in cs :: m[a]
  }

  lemma JoinedFirst(m: Memory, cs: seq<Addr>)
    ensures Joined(m, cs) == if cs == [] then [] else Piece(m, cs[0]) + Joined(m, cs[1..])
  {
  }

  lemma {:induction false} JoinedConcat(m: Memory, cs: seq<Addr>, ds: seq<Addr>)
    ensures Joined(m, cs + ds) == Joined(m, cs) + Joined(m, ds)
  {
    hide Joined, Piece;
    JoinedFirst(m, cs);
    if cs == [] {
      assert cs + ds == ds;
    } else {
      JoinedConcat(m, cs[1..], ds);
      JoinedFirst(m, cs + ds);
      assert (cs + ds)[1..] == cs[1..] + ds;
    }
  }

  lemma JoinedOne(m: Memory, c: Addr)
    ensures Joined(m, [c]) == Piece(m, c)
  {
    assert [c][1..] == [];
  }

  lemma {:induction false} JoinedSame(m: Memory, m': Memory, cs: seq<Addr>)
    requires forall i :: 0 <= i < |cs| ==> Piece(m', cs[i]) == Piece(m, cs[i])
    ensures Joined(m', cs) == Joined(m, cs)
  {
    if cs != [] {
      JoinedSame(m, m', cs[1..]);
    }
  }

  lemma JoinedCut(m: Memory, cs: seq<Addr>, i: nat)
    requires i <= |cs|
    ensures Joined(m, cs) == Joined(m, cs[..i]) + Joined(m, cs[i..])
  {
    assert cs == cs[..i] + cs[i..];
    JoinedConcat(m, cs[..i], cs[i..]);
  }

  lemma DistinctCut(cs: seq<Addr>, i: nat)
    requires Distinct(cs) && i <= |cs|
    ensures Distinct(cs[..i]) && Distinct(cs[i..])
    ensures forall a <- cs[..i] :: a !in cs[i..]
  {
    forall j, k | 0 <= j < k < i
      ensures Differ(cs[..i], j, k)
    {
      assert Differ(cs, j, k);
    }
    forall j, k | 0 <= j < k < |cs| - i
      ensures Differ(cs[i..], j, k)
    {
      assert Differ(cs, j + i, k + i);
    }
    forall j, k | 0 <= j < i <= k < |cs|
      ensures cs[j] != cs[k]
    {
      assert Differ(cs, j, k);
    }
  }

  lemma ListCut(m: Memory, cs: seq<Addr>, i: nat, end: Addr)
    requires List(m, cs, end) && i <= |cs|
    ensures List(m, cs[..i], ChainAt(cs, i, end)) && List(m, cs[i..], end)
    ensures forall a <- cs[..i] :: a !in cs[i..]
  {
    DistinctCut(cs, i);
  }

  lemma ListConcat(m: Memory, cs: seq<Addr>, ds: seq<Addr>, end: Addr)
    requires List(m, cs, ChainAt(ds, 0, end)) && List(m, ds, end)
    requires forall a <- cs :: a !in ds
    ensures List(m, cs + ds, end)
  {
    forall i, j | 0 <= i < j < |cs + ds|
      ensures Differ(cs + ds, i, j)
    {
      if j < |cs| {
        assert Differ(cs, i, j);
      } else if i >= |cs| {
        assert Differ(ds, i - |cs|, j - |cs|);
      } else {
        assert cs[i] in cs;
      }
    }
  }

  // A list survives any change to memory it does not own.
  lemma ListSame(m: Memory, m': Memory, cs: seq<Addr>, end: Addr)
    requires List(m, cs, end)
    requires forall i :: 0 <= i < |cs| ==> cs[i] in m' && m'[cs[i]] == m[cs[i]]
    ensures List(m', cs, end) && Joined(m', cs) == Joined(m, cs)
  {
    JoinedSame(m, m', cs);
  }

  ghost function LastOf(cs: seq<Addr>): Addr
  {
    if cs == [] then NULL else cs[|cs| - 1]
  }

  lemma EmptyPrefix(m: Memory, cs: seq<Addr>)
    ensures cs[..0] == [] && Joined(m, cs[..0]) == [] && Rest(m, cs[..0]) == m
  {
  }

  // Storing a new pointer in the last chain moves the end of the list.
  lemma ListRelink(m: Memory, cs: seq<Addr>, was: Addr, end: Addr)
    requires List(m, cs, was) && cs != []
    ensures var m' := m[LastOf(cs) := m[LastOf(cs)].(next := end)];
      List(m', cs, end) && Joined(m', cs) == Joined(m, cs)
  {
    hide Joined, Piece;
    RelinkPieces(m, LastOf(cs), end);
    var m' := m[LastOf(cs) := m[LastOf(cs)].(next := end)];
    forall i | 0 <= i < |cs| - 1
      ensures cs[i] != LastOf(cs)
    {
      assert Differ(cs, i, |cs| - 1);
    }
    JoinedSame(m, m', cs);
  }

  lemma RelinkPieces(m: Memory, a: Addr, end: Addr)
    requires a in m
    ensures forall x :: Piece(m[a := m[a].(next := end)], x) == Piece(m, x)
  {
  }

  // The list cs under the three summaries a buffer keeps of it: its ends and its length.
  // No chain is empty unless it is the only one.
  ghost predicate Queue(m: Memory, cs: seq<Addr>, first: Addr, last: Addr, total: nat)
  {
    && List(m, cs, NULL)
    && first == ChainAt(cs, 0, NULL)
    && last == LastOf(cs)
    && (|cs| > 1 ==> forall i :: 0 <= i < |cs| ==> m[cs[i]].off > 0)
    && total == |Joined(m, cs)| <= SIZE_MAX
  }

  lemma QueueLength(m: Memory, cs: seq<Addr>, first: Addr, last: Addr, total: nat)
    requires Queue(m, cs, first, last, total)
    ensures total == |Joined(m, cs)|
  {
  }

  // What the ends of a queue say about its list.
  lemma QueueEnds(m: Memory, cs: seq<Addr>, first: Addr, last: Addr, total: nat)
    requires Queue(m, cs, first, last, total)
    ensures cs == [] <==> first == NULL
    ensures cs == [] <==> last == NULL
    ensures cs == [] ==> total == 0
    ensures cs != [] ==>
      && first in m && m[first].Ok() && first in cs && first == cs[0]
      && last in m && m[last].Ok() && last in cs && last == cs[|cs| - 1] && m[last].next == NULL
    ensures |cs| > 1 ==> m[first].off > 0 && m[last].off > 0
    ensures |cs| == 1 ==> total == m[first].off
    ensures |cs| > 1 ==> total > m[first].off
    ensures total == |Joined(m, cs)| <= SIZE_MAX
  {
    if |cs| == 1 {
      JoinedOne(m, cs[0]);
      assert cs == [cs[0]];
    } else if |cs| > 1 {
      assert Joined(m, cs) == Piece(m, cs[0]) + (Piece(m, cs[1]) + Joined(m, cs[1..][1..]));
    }
  }

  lemma QueueList(m: Memory, cs: seq<Addr>, first: Addr, last: Addr, total: nat)
    requires Queue(m, cs, first, last, total)
    ensures List(m, cs, NULL) && first == ChainAt(cs, 0, NULL)
  {
  }

  // A queue with more than one chain, or with data, has no empty chain.
  lemma QueueFull(m: Memory, cs: seq<Addr>, first: Addr, last: Addr, total: nat)
    requires Queue(m, cs, first, last, total) && total > 0
    ensures List(m, cs, NULL) && first == ChainAt(cs, 0, NULL) && cs != []
    ensures forall i :: 0 <= i < |cs| ==> m[cs[i]].off > 0
  {
    QueueEnds(m, cs, first, last, total);
  }

  lemma AppendQueue(m: Memory, cs: seq<Addr>, first: Addr, last: Addr, total: nat, c: Addr)
    requires Queue(m, cs, first, last, total) && cs != [] && m[last].off > 0
    requires c != NULL && c in m && c !in cs && m[c].Ok() && m[c].next == NULL && m[c].off > 0
    requires total + m[c].off <= SIZE_MAX
    ensures var m' := m[last := m[last].(next := c)];
      && Queue(m', cs + [c], first, c, total + m[c].off)
      && Joined(m', cs + [c]) == Joined(m, cs) + m[c].Data()
      && Rest(m', cs + [c]) == Rest(m, cs + [c])
  {
    var m' := m[last := m[last].(next := c)];
    ListRelink(m, cs, NULL, c);
    JoinedConcat(m', cs, [c]);
    JoinedOne(m', c);
    ListConcat(m', cs, [c], NULL);
  }

  lemma JoinedAround(m: Memory, xs: seq<Addr>, a: Addr, ys: seq<Addr>)
    ensures Joined(m, xs + [a] + ys) == Joined(m, xs) + Piece(m, a) + Joined(m, ys)
  {
    JoinedConcat(m, xs + [a], ys);
    JoinedConcat(m, xs, [a]);
    JoinedOne(m, a);
  }

  // Changing the bytes of one chain changes just its piece of the contents.
  lemma JoinedUpdate(m: Memory, xs: seq<Addr>, a: Addr, ys: seq<Addr>, c: Chain)
    requires a !in xs && a !in ys
    ensures Joined(m[a := c], xs + [a] + ys) == Joined(m, xs) + Piece(m[a := c], a) + Joined(m, ys)
  {
    JoinedAround(m[a := c], xs, a, ys);
    JoinedSame(m, m[a := c], xs);
    JoinedSame(m, m[a := c], ys);
  }

  lemma ListUpdate(m: Memory, cs: seq<Addr>, end: Addr, i: nat, c: Chain)
    requires List(m, cs, end) && i < |cs| && c.Ok() && c.next == m[cs[i]].next
    ensures List(m[cs[i] := c], cs, end)
    ensures Rest(m[cs[i] := c], cs) == Rest(m, cs)
    ensures cs[i] !in cs[..i] && cs[i] !in cs[i + 1..]
  {
    forall k | 0 <= k < |cs| && k != i
      ensures cs[k] != cs[i]
    {
      assert if k < i then Differ(cs, k, i) else Differ(cs, i, k);
    }
  }

  lemma GrowLastQueue(m: Memory, cs: seq<Addr>, first: Addr, last: Addr, total: nat, c: Chain, data: seq<byte>)
    requires Queue(m, cs, first, last, total) && cs != []
    requires c.Ok() && c.next == m[last].next && c.Data() == m[last].Data() + data
    requires total + |data| <= SIZE_MAX
    ensures Queue(m[last := c], cs, first, last, total + |data|)
    ensures Joined(m[last := c], cs) == Joined(m, cs) + data
    ensures Rest(m[last := c], cs) == Rest(m, cs)
  {
    hide Distinct, Joined, Rest;
    var k := |cs| - 1;
    ListUpdate(m, cs, NULL, k, c);
    assert cs == cs[..k] + [last] + [];
    GrowLastJoined(m, cs[..k], last, c, data);
  }

  lemma GrowLastJoined(m: Memory, xs: seq<Addr>, last: Addr, c: Chain, data: seq<byte>)
    requires last !in xs && last in m && m[last].Ok() && c.Ok() && c.Data() == m[last].Data() + data
    ensures Joined(m[last := c], xs + [last] + []) == Joined(m, xs + [last] + []) + data
  {
    hide Joined;
    JoinedAround(m, xs, last, []);
    JoinedUpdate(m, xs, last, [], c);
    NothingJoined(m);
    AddedBehind(Joined(m, xs), Piece(m, last), data);
  }

  lemma AddedBehind(a: seq<byte>, b: seq<byte>, data: seq<byte>)
    ensures a + (b + data) + [] == a + b + [] + data
  {
  }

  lemma NothingJoined(m: Memory)
    ensures Joined(m, []) == []
  {
  }

  lemma GrowFirstQueue(m: Memory, cs: seq<Addr>, first: Addr, last: Addr, total: nat, c: Chain, data: seq<byte>)
    requires Queue(m, cs, first, last, total) && cs != []
    requires c.Ok() && c.next == m[first].next && c.Data() == data + m[first].Data()
    requires total + |data| <= SIZE_MAX
    ensures Queue(m[first := c], cs, first, last, total + |data|)
    ensures Joined(m[first := c], cs) == data + Joined(m, cs)
    ensures Rest(m[first := c], cs) == Rest(m, cs)
  {
    hide Joined, Distinct;
    EmptyPrefix(m, cs);
    EmptyPrefix(m[first := c], cs);
    var ys := cs[1..];
    assert cs == [] + [first] + ys;
    ListUpdate(m, cs, NULL, 0, c);
    JoinedAround(m, [], first, ys);
    JoinedUpdate(m, [], first, ys, c);
  }

  // Dropping bytes from the first chain, but not all of them.
  lemma TrimQueue(m: Memory, cs: seq<Addr>, first: Addr, last: Addr, total: nat, c: Chain, n: nat)
    requires Queue(m, cs, first, last, total) && cs != []
    requires n < m[first].off && c.Ok() && c.next == m[first].next && c.Data() == m[first].Data()[n..]
    ensures Queue(m[first := c], cs, first, last, total - n)
    ensures Joined(m[first := c], cs) == Joined(m, cs)[n..]
    ensures Rest(m[first := c], cs) == Rest(m, cs)
  {
    hide Joined, Distinct;
    EmptyPrefix(m, cs);
    EmptyPrefix(m[first := c], cs);
    var ys := cs[1..];
    assert cs == [] + [first] + ys;
    ListUpdate(m, cs, NULL, 0, c);
    JoinedAround(m, [], first, ys);
    JoinedUpdate(m, [], first, ys, c);
  }

  // A new chain in front.
  lemma PushFrontQueue(m: Memory, cs: seq<Addr>, first: Addr, last: Addr, total: nat, c: Addr)
    requires Queue(m, cs, first, last, total) && cs != [] && m[first].off > 0
    requires c != NULL && c in m && c !in cs && m[c].Ok() && m[c].next == first && m[c].off > 0
    requires total + m[c].off <= SIZE_MAX
    ensures Queue(m, [c] + cs, c, last, total + m[c].off)
    ensures Joined(m, [c] + cs) == m[c].Data() + Joined(m, cs)
  {
    JoinedConcat(m, [c], cs);
    JoinedOne(m, c);
    ListConcat(m, [c], cs, NULL);
  }

  // Freeing the first k chains of a queue, but not all of them.
  lemma FreeFrontQueue(m: Memory, cs: seq<Addr>, first: Addr, last: Addr, total: nat, k: nat)
    requires Queue(m, cs, first, last, total) && k < |cs|
    ensures |Joined(m, cs[..k])| <= total
    ensures Queue(Rest(m, cs[..k]), cs[k..], cs[k], last, total - |Joined(m, cs[..k])|)
    ensures Joined(m, cs) == Joined(m, cs[..k]) + Joined(Rest(m, cs[..k]), cs[k..])
    ensures Rest(Rest(m, cs[..k]), cs[k..]) == Rest(m, cs)
  {
    hide Joined, Distinct;
    var m' := Rest(m, cs[..k]);
    ListCut(m, cs, k, NULL);
    JoinedCut(m, cs, k);
    ListSame(m, m', cs[k..], NULL);
    RestParts(m, cs, k);
  }

  lemma RestParts(m: Memory, cs: seq<Addr>, k: nat)
    requires k <= |cs|
    ensures Rest(Rest(m, cs[..k]), cs[k..]) == Rest(m, cs)
  {
    assert cs == cs[..k] + cs[k..];
  }

  // A newly allocated chain is not part of any queue yet.
  lemma FreshQueue(m: Memory, cs: seq<Addr>, first: Addr, last: Addr, total: nat, p: Addr, c: Chain)
    requires Queue(m, cs, first, last, total) && p !in m
    ensures Queue(m[p := c], cs, first, last, total) && p !in cs
    ensures Joined(m[p := c], cs) == Joined(m, cs)
    ensures Rest(m[p := c], cs + [p]) == Rest(m, cs)
  {
    ListSame(m, m[p := c], cs, NULL);
  }

  lemma QueueSame(m: Memory, m': Memory, cs: seq<Addr>, first: Addr, last: Addr, total: nat)
    requires Queue(m, cs, first, last, total)
    requires forall a <- cs :: a in m ==> a in m' && m'[a] == m[a]
    ensures Queue(m', cs, first, last, total) && Joined(m', cs) == Joined(m, cs)
  {
    ListSame(m, m', cs, NULL);
  }

  lemma DropFrom(x: seq<byte>, y: seq<byte>, n: nat)
    requires n <= |y|
    ensures (x + y)[|x| + n..] == y[n..]
  {
  }

  // Copying d behind what was copied of c.
  method CopyPiece(out: array<byte>, at: nat, d: seq<byte>, ghost c: seq<byte>, ghost was: seq<byte>)
    requires at + |d| <= |was| && at + |d| <= |c| && c[..at] + d == c[..at + |d|]
    requires out[..] == c[..at] + was[at..]
    modifies out
    ensures out[..] == c[..at + |d|] + was[at + |d|..]
  {
    ghost var o := out[..];
    CopyInto(out, at, d);
    assert o[..at] == c[..at] && o[at + |d|..] == was[at + |d|..];
  }

  lemma RestMore(m: Memory, m': Memory, cs: seq<Addr>, a: Addr)
    requires Rest(m, cs) == Rest(m', cs)
    ensures Rest(m', cs + [a]) == Rest(m, cs + [a])
  {
    assert Rest(m, cs + [a]) == Rest(m, cs) - {a};
    assert Rest(m', cs + [a]) == Rest(m', cs) - {a};
  }

  lemma RestTouched(m: Memory, m': Memory, cs: seq<Addr>, a: Addr)
    requires forall x :: x != a ==> (x in m <==> x in m') && (x in m ==> m'[x] == m[x])
    ensures Rest(m', cs + [a]) == Rest(m, cs + [a])
  {
  }

  // A chain that was not part of the list goes in front of it.
  lemma RestInFront(m: Memory, m': Memory, cs: seq<Addr>, a: Addr)
    requires forall x :: x != a ==> (x in m <==> x in m') && (x in m ==> m'[x] == m[x])
    ensures Rest(m', [a] + cs) == Rest(m, cs + [a])
  {
  }

  lemma MovedBytes(s: seq<byte>, n: nat, l: nat, t: seq<byte>)
    requires n + l <= |s|
    ensures s[n..][l..] == s[n + l..] && t + s[..n] + s[n..][..l] == t + s[..n + l]
  {
  }

  // One step of a drain that stops short of the end: chain k can go, and is not the last.
  lemma DrainStep(m: Memory, cs: seq<Addr>, first: Addr, last: Addr, total: nat, k: nat, len: nat)
    requires Queue(m, cs, first, last, total) && k < |cs| && len < total
    requires |Joined(m, cs[..k])| + m[cs[k]].off <= len
    ensures k + 1 < |cs| && m[cs[k]].next == cs[k + 1]
    ensures |Joined(m, cs[..k + 1])| == |Joined(m, cs[..k])| + m[cs[k]].off
    ensures Rest(m, cs[..k + 1]) == Rest(m, cs[..k]) - {cs[k]}
    ensures cs[k + 1] in m && cs[k + 1] in Rest(m, cs[..k + 1])
    ensures Rest(m, cs[..k + 1])[cs[k + 1]] == m[cs[k + 1]]
    ensures forall i :: k < i < |cs| ==> cs[i] != cs[k]
    ensures var p := cs[|cs| - 2]; p in Rest(m, cs[..k]) && Rest(m, cs[..k])[p].next == cs[|cs| - 1]
  {
    hide Joined, Distinct;
    assert cs[..k + 1] == cs[..k] + [cs[k]];
    JoinedConcat(m, cs[..k], [cs[k]]);
    JoinedOne(m, cs[k]);
    RestNext(m, cs, k);
    assert cs[..|cs|] == cs;
    ListCut(m, cs, k + 1, NULL);
    assert cs[k + 1..][0] == cs[k + 1];
    ListCut(m, cs, k, NULL);
    assert cs[k..][|cs| - 2 - k] == cs[|cs| - 2];
    DistinctFrom(cs, k);
  }

  lemma DistinctFrom(cs: seq<Addr>, k: nat)
    requires Distinct(cs) && k < |cs|
    ensures forall i :: k < i < |cs| ==> cs[i] != cs[k]
  {
    forall i | k < i < |cs|
      ensures cs[i] != cs[k]
    {
      assert Differ(cs, k, i);
    }
  }

  lemma EmptyQueue(m: Memory, cs: seq<Addr>)
    ensures Queue(m, [], NULL, NULL, 0) && Joined(m, []) == []
    ensures Rest(m, cs + []) == Rest(m, cs)
  {
    assert cs + [] == cs;
  }

  lemma RestSwap(m: Memory, cs: seq<Addr>, ds: seq<Addr>)
    ensures Rest(m, cs + ds) == Rest(m, ds + cs)
  {
  }

  // Freeing every chain of one list leaves a queue that shares none of them.
  lemma FreeOtherQueue(m: Memory, cs: seq<Addr>, ds: seq<Addr>, first: Addr, last: Addr, total: nat)
    requires Queue(m, ds, first, last, total) && forall a <- cs :: a !in ds
    ensures Queue(Rest(m, cs), ds, first, last, total) && Joined(Rest(m, cs), ds) == Joined(m, ds)
    ensures Rest(Rest(m, cs), ds) == Rest(m, cs + ds)
    ensures forall a <- ds :: a in m && a in Rest(m, cs) && Rest(m, cs)[a] == m[a]
    ensures forall k :: 0 <= k <= |ds| ==> Joined(Rest(m, cs), ds[..k]) == Joined(m, ds[..k])
  {
    hide Queue, Joined, Piece;
    QueueMembers(m, ds, first, last, total);
    OtherPieces(m, cs, ds);
    QueueSame(m, Rest(m, cs), ds, first, last, total);
    assert Rest(Rest(m, cs), ds) == Rest(m, cs + ds);
    forall k | 0 <= k <= |ds|
      ensures Joined(Rest(m, cs), ds[..k]) == Joined(m, ds[..k])
    {
      JoinedSame(m, Rest(m, cs), ds[..k]);
    }
  }

  lemma QueueMembers(m: Memory, cs: seq<Addr>, first: Addr, last: Addr, total: nat)
    requires Queue(m, cs, first, last, total)
    ensures forall a <- cs :: a in m && m[a].Ok()
  {
  }

  lemma OtherPieces(m: Memory, cs: seq<Addr>, ds: seq<Addr>)
    requires forall a <- cs :: a !in ds
    ensures forall a <- ds :: Piece(Rest(m, cs), a) == Piece(m, a)
    ensures forall a <- ds :: a in m ==> a in Rest(m, cs) && Rest(m, cs)[a] == m[a]
  {
  }

  lemma FirstPart(m: Memory, cs: seq<Addr>, k: nat)
    requires 0 < k <= |cs|
    ensures |Joined(m, cs[..k])| >= |Piece(m, cs[0])|
  {
  }

  // Where chain k - 1 is made the last one, two lists remain.
  lemma SplitLists(m: Memory, cs: seq<Addr>, k: nat)
    requires List(m, cs, NULL) && 0 < k < |cs|
    ensures cs[k - 1] in m && cs[k] in m
    ensures var m' := m[cs[k - 1] := m[cs[k - 1]].(next := NULL)];
      && List(m', cs[..k], NULL) && List(m', cs[k..], NULL) && m'[cs[k]] == m[cs[k]]
      && Joined(m', cs[..k]) == Joined(m, cs[..k]) && Joined(m', cs[k..]) == Joined(m, cs[k..])
      && Rest(m', cs) == Rest(m, cs)
    ensures forall a <- cs[..k] :: a !in cs[k..]
  {
    hide Joined, Distinct;
    var m' := m[cs[k - 1] := m[cs[k - 1]].(next := NULL)];
    ListCut(m, cs, k, NULL);
    ListRelink(m, cs[..k], cs[k], NULL);
    assert cs[k - 1] in cs[..k] by { assert cs[..k][k - 1] == cs[k - 1]; }
    ListSame(m, m', cs[k..], NULL);
  }

  // Cutting a queue in two before chain k.
  lemma SplitQueue(m: Memory, cs: seq<Addr>, first: Addr, last: Addr, total: nat, k: nat)
    requires Queue(m, cs, first, last, total) && 0 < k < |cs|
    ensures cs[k - 1] in m && m[first].off > 0
    ensures var n, m' := |Joined(m, cs[..k])|, m[cs[k - 1] := m[cs[k - 1]].(next := NULL)];
      && 0 < n <= total
      && Queue(m', cs[..k], first, cs[k - 1], n) && Queue(m', cs[k..], cs[k], last, total - n)
      && Joined(m', cs[..k]) == Joined(m, cs)[..n] && Joined(m', cs[k..]) == Joined(m, cs)[n..]
      && Rest(m', cs) == Rest(m, cs)
      && cs[k] in m && m'[cs[k]] == m[cs[k]]
    ensures forall a <- cs[..k] :: a !in cs[k..]
  {
    hide Joined, List, Rest;
    QueueEnds(m, cs, first, last, total);
    SplitLists(m, cs, k);
    JoinedCut(m, cs, k);
    FirstPart(m, cs, k);
    assert cs[..k][0] == cs[0];
    OtherOffs(m, cs, k);
  }

  lemma OtherOffs(m: Memory, cs: seq<Addr>, k: nat)
    requires List(m, cs, NULL) && 0 < k < |cs|
    ensures var m' := m[cs[k - 1] := m[cs[k - 1]].(next := NULL)];
      forall i :: 0 <= i < |cs| ==> cs[i] in m && m'[cs[i]].off == m[cs[i]].off
  {
  }

  // Moving the first k chains of one queue behind another queue that holds data.
  lemma MoveQueue(m: Memory, cs: seq<Addr>, first: Addr, last: Addr, total: nat, k: nat,
                  es: seq<Addr>, first': Addr, last': Addr, total': nat, n: nat)
    requires Queue(m, cs, first, last, total) && 0 < k < |cs| && n == |Joined(m, cs[..k])|
    requires Queue(m, es, first', last', total') && total' > 0
    requires total + total' <= SIZE_MAX && forall a <- cs :: a !in es
    ensures last' in m && cs[k - 1] in m && last' != cs[k - 1]
    ensures var m2 := m[last' := m[last'].(next := first)][cs[k - 1] := m[cs[k - 1]].(next := NULL)];
      && 0 < n <= total
      && Queue(m2, es + cs[..k], first', cs[k - 1], total' + n)
      && Queue(m2, cs[k..], cs[k], last, total - n)
      && Joined(m2, es + cs[..k]) == Joined(m, es) + Joined(m, cs)[..n]
      && Joined(m2, cs[k..]) == Joined(m, cs)[n..]
      && Rest(m2, cs[k..] + (es + cs[..k])) == Rest(m, cs + es)
      && cs[k] in m && m2[cs[k]] == m[cs[k]]
    ensures forall a <- cs[k..] :: a !in es + cs[..k]
  {
    hide Queue, Rest, Joined;
    SplitQueue(m, cs, first, last, total, k);
    QueueEnds(m, es, first', last', total');
    QueueEnds(m, cs, first, last, total);
    var m1 := m[cs[k - 1] := m[cs[k - 1]].(next := NULL)];
    var m2 := m1[last' := m1[last'].(next := first)];
    assert cs[k - 1] in cs && forall a <- cs[..k] :: a in cs;
    QueueSame(m, m1, es, first', last', total');
    QueueEnds(m1, cs[..k], first, cs[k - 1], n);
    ConcatQueue(m1, es, first', last', total', cs[..k], first, cs[k - 1], n);
    QueueSame(m1, m2, cs[k..], cs[k], last, total - n);
    MovedRest(m, m2, cs, k, es);
    assert m2 == m[last' := m[last'].(next := first)][cs[k - 1] := m[cs[k - 1]].(next := NULL)];
  }

  lemma MovedRest(m: Memory, m': Memory, cs: seq<Addr>, k: nat, es: seq<Addr>)
    requires k <= |cs|
    requires forall a :: a !in cs && a !in es ==> (a in m <==> a in m') && (a in m ==> m'[a] == m[a])
    ensures Rest(m', cs[k..] + (es + cs[..k])) == Rest(m, cs + es)
  {
    assert cs == cs[..k] + cs[k..];
    assert forall a :: a in cs <==> a in cs[..k] || a in cs[k..];
  }

  // What freeing the trailing empty chains of the destination leaves.
  lemma TrimmedDst(m: Memory, es: seq<Addr>, cs: seq<Addr>, first: Addr, last: Addr, total: nat,
                   m': Memory, es': seq<Addr>, first': Addr, last': Addr, total': nat)
    requires Queue(m, cs, first, last, total) && Queue(m, es, ChainAt(es, 0, NULL), last', total')
    requires forall a <- cs :: a !in es
    requires es' == (if total' == 0 then [] else es) && first' == ChainAt(es', 0, NULL)
    requires m' == if total' == 0 then Rest(m, es) else m
    ensures Queue(m', cs, first, last, total) && Joined(m', cs) == Joined(m, cs)
    ensures Queue(m', es', first', if total' == 0 then NULL else last', total') && Joined(m', es') == Joined(m, es)
    ensures Rest(m', cs + es') == Rest(m, cs + es)
    ensures forall k :: 0 <= k <= |cs| ==> Joined(m', cs[..k]) == Joined(m, cs[..k])
    ensures forall a <- cs :: a in m && a in m' && m'[a] == m[a] && a !in es'
  {
    hide Queue, Joined, Rest;
    QueueEnds(m, es, ChainAt(es, 0, NULL), last', total');
    QueueMembers(m, cs, first, last, total);
    if total' == 0 {
      FreeOtherQueue(m, es, cs, first, last, total);
      EmptyQueue(m', cs);
      RestSwap(m, es, cs);
    }
  }

  // The same for any destination, which may be empty.
  lemma RelinkQueues(m: Memory, cs: seq<Addr>, first: Addr, last: Addr, total: nat, k: nat,
                     es: seq<Addr>, first': Addr, last': Addr, total': nat, n: nat)
    requires Queue(m, cs, first, last, total) && 0 < k < |cs| && n == |Joined(m, cs[..k])|
    requires Queue(m, es, first', last', total') && (es != [] ==> total' > 0)
    requires total + total' <= SIZE_MAX && forall a <- cs :: a !in es
    ensures cs[k - 1] in m && (es != [] ==> last' in m && last' != cs[k - 1])
    ensures var m1 := if es == [] then m else m[last' := m[last'].(next := first)];
      var m2 := m1[cs[k - 1] := m1[cs[k - 1]].(next := NULL)];
      && 0 < n <= total
      && Queue(m2, es + cs[..k], if es == [] then first else first', cs[k - 1], total' + n)
      && Queue(m2, cs[k..], cs[k], last, total - n)
      && Joined(m2, es + cs[..k]) == Joined(m, es) + Joined(m, cs)[..n]
      && Joined(m2, cs[k..]) == Joined(m, cs)[n..]
      && Rest(m2, cs[k..] + (es + cs[..k])) == Rest(m, cs + es)
      && cs[k] in m && cs[k] in m2 && m2[cs[k]] == m[cs[k]]
    ensures forall a <- cs[k..] :: a !in es + cs[..k]
  {
    hide Queue, Joined, Rest;
    QueueEnds(m, es, first', last', total');
    if es == [] {
      SplitQueue(m, cs, first, last, total, k);
      MovedRest(m, m[cs[k - 1] := m[cs[k - 1]].(next := NULL)], cs, k, []);
      EmptyQueue(m, cs);
      assert [] + cs[..k] == cs[..k];
    } else {
      MoveQueue(m, cs, first, last, total, k, es, first', last', total', n);
    }
  }

  // What one queue's operation leaves alone: a list of chains disjoint from it.
  lemma OtherKept(m: Memory, cs: seq<Addr>, m': Memory, cs': seq<Addr>, ds: seq<Addr>)
    requires Rest(m, cs) == Rest(m', cs') && forall a <- ds :: a in m && a !in cs
    ensures forall a <- ds :: a in m' && m'[a] == m[a] && a !in cs'
    ensures Rest(m', ds + cs') == Rest(m, ds + cs)
  {
    forall a <- ds
      ensures a in m' && m'[a] == m[a] && a !in cs'
    {
      assert a in Rest(m, cs) && Rest(m, cs)[a] == m[a];
    }
    assert Rest(m', ds + cs') == Rest(Rest(m', cs'), ds);
    assert Rest(m, ds + cs) == Rest(Rest(m, cs), ds);
  }

  lemma RestUpdate(m: Memory, a: Addr, c: Chain, cs: seq<Addr>)
    requires a in cs
    ensures Rest(m[a := c], cs) == Rest(m, cs)
  {
  }

  lemma FirstPiece(m: Memory, cs: seq<Addr>, first: Addr, last: Addr, total: nat, n: nat)
    requires Queue(m, cs, first, last, total) && cs != [] && n < m[first].off
    ensures n < total && Joined(m, cs)[..n] == m[first].Data()[..n]
    ensures forall a <- cs :: a in m
  {
  }

  // A pull-up in progress on the list cs of memory m: tmp, which is the first chain or a
  // new one, holds the bytes of the first j chains; those but tmp are free.
  ghost predicate Pulling(m: Memory, cs: seq<Addr>, mem: Memory, tmp: Addr, j: nat)
  {
    && j <= |cs|
    && tmp != NULL && tmp in mem && mem[tmp].Ok()
    && (tmp !in m || (tmp in cs && tmp == cs[0] && j > 0))
    && mem[tmp].Data() == Joined(m, cs[..j])
    && Rest(mem, [tmp]) == Rest(m, cs[..j] + [tmp])
  }

  lemma PullFacts(m: Memory, cs: seq<Addr>, last: Addr, total: nat, mem: Memory, tmp: Addr, k: nat)
    requires Queue(m, cs, ChainAt(cs, 0, NULL), last, total) && |cs| > 1
    requires Pulling(m, cs, mem, tmp, k)
    ensures tmp !in cs[k..] && ChainAt(cs, k, NULL) != tmp
    ensures forall i :: k <= i < |cs| ==>
      cs[i] in mem && cs[i] in m && mem[cs[i]] == m[cs[i]] && cs[i] != NULL && cs[i] != tmp
    ensures k < |cs| ==> mem[cs[k]].next == ChainAt(cs, k + 1, NULL)
    ensures last == cs[|cs| - 1]
    ensures forall i, l :: 0 <= i < l < |cs| ==> cs[i] != cs[l]
    ensures |Joined(m, cs[..k])| <= total
    ensures k == |cs| ==> Joined(m, cs[..k]) == Joined(m, cs) && |Joined(m, cs)| == total
  {
    ListCut(m, cs, k, NULL);
    JoinedCut(m, cs, k);
    if k == |cs| {
      assert cs[..k] == cs;
    }
    forall i, l | 0 <= i < l < |cs|
      ensures cs[i] != cs[l]
    {
      assert Differ(cs, i, l);
    }
    forall i | k <= i < |cs|
      ensures cs[i] in mem && cs[i] in m && mem[cs[i]] == m[cs[i]] && cs[i] != NULL && cs[i] != tmp
    {
      assert cs[k..][i - k] == cs[i];
      assert cs[i] in Rest(m, cs[..k] + [tmp]);
      assert Rest(mem, [tmp])[cs[i]] == m[cs[i]];
    }
  }

  lemma PullStep(m: Memory, cs: seq<Addr>, last: Addr, total: nat, mem: Memory, tmp: Addr, k: nat, mem': Memory)
    requires Queue(m, cs, ChainAt(cs, 0, NULL), last, total) && |cs| > 1
    requires Pulling(m, cs, mem, tmp, k) && k < |cs|
    requires tmp in mem' && mem'[tmp].Ok() && cs[k] in m && m[cs[k]].Ok()
    requires mem'[tmp].Data() == mem[tmp].Data() + m[cs[k]].Data()
    requires mem' == mem[tmp := mem'[tmp]] - {cs[k]}
    ensures Pulling(m, cs, mem', tmp, k + 1)
    ensures |Joined(m, cs[..k + 1])| == |Joined(m, cs[..k])| + m[cs[k]].off
  {
    hide Joined, Queue;
    PullFacts(m, cs, last, total, mem, tmp, k);
    assert cs[..k + 1] == cs[..k] + [cs[k]];
    JoinedConcat(m, cs[..k], [cs[k]]);
    JoinedOne(m, cs[k]);
    assert Rest(mem', [tmp]) == Rest(mem, [tmp]) - {cs[k]};
    RestNextBut(m, cs, k, tmp);
  }

  lemma RestNextBut(m: Memory, cs: seq<Addr>, k: nat, a: Addr)
    requires k < |cs|
    ensures Rest(m, cs[..k + 1] + [a]) == Rest(m, cs[..k] + [a]) - {cs[k]}
  {
    assert cs[..k + 1] == cs[..k] + [cs[k]];
  }

  // What a pull-up leaves of the old list: chain j without its first n bytes, then the rest.
  lemma PulledTail(m: Memory, ds: seq<Addr>, n: nat, m': Memory)
    requires List(m, ds, NULL) && ds != [] && n <= m[ds[0]].off
    requires ds[0] in m' && m'[ds[0]].Ok() && m'[ds[0]].next == m[ds[0]].next
    requires m'[ds[0]].Data() == m[ds[0]].Data()[n..]
    requires forall i :: 0 < i < |ds| ==> ds[i] in m' && m'[ds[i]] == m[ds[i]]
    ensures List(m', ds, NULL) && Joined(m, ds) == m[ds[0]].Data()[..n] + Joined(m', ds)
  {
    JoinedTrim(m, ds[0], ds[1..], n, m');
    assert ds == [ds[0]] + ds[1..];
  }

  lemma JoinedTrim(m: Memory, a: Addr, ys: seq<Addr>, n: nat, m': Memory)
    requires n <= |Piece(m, a)| && Piece(m', a) == Piece(m, a)[n..]
    requires forall i :: 0 <= i < |ys| ==> Piece(m', ys[i]) == Piece(m, ys[i])
    ensures Joined(m, [a] + ys) == Piece(m, a)[..n] + Joined(m', [a] + ys)
  {
    hide Joined, Piece;
    JoinedSame(m, m', ys);
    JoinedConcat(m, [a], ys);
    JoinedConcat(m', [a], ys);
    JoinedOne(m, a);
    JoinedOne(m', a);
    CutAssoc(Piece(m, a), n, Joined(m, ys));
  }

  lemma CutAssoc(x: seq<byte>, n: nat, y: seq<byte>)
    requires n <= |x|
    ensures x + y == x[..n] + (x[n..] + y)
  {
  }

  // The list after a pull-up: tmp, then what is left of chain j, then the rest.
  lemma PulledQueue(m: Memory, cs: seq<Addr>, last: Addr, total: nat, j: nat, n: nat, m': Memory, tmp: Addr)
    requires Queue(m, cs, ChainAt(cs, 0, NULL), last, total) && j <= |cs| && |cs| > 1
    requires tmp != NULL && tmp in m' && tmp !in cs[j..] && m'[tmp].Ok() && m'[tmp].off > 0
    requires m'[tmp].next == ChainAt(cs, j, NULL)
    requires j == |cs| ==> m'[tmp].Data() == Joined(m, cs)
    requires j < |cs| ==>
      && cs[j] in m && cs[j] in m' && m[cs[j]].Ok() && m'[cs[j]].Ok()
      && m'[cs[j]].next == m[cs[j]].next && n < m[cs[j]].off
      && m'[tmp].Data() == Joined(m, cs[..j]) + m[cs[j]].Data()[..n]
      && m'[cs[j]].Data() == m[cs[j]].Data()[n..]
    requires forall i :: j < i < |cs| ==> cs[i] in m && cs[i] in m' && m'[cs[i]] == m[cs[i]]
    ensures Queue(m', [tmp] + cs[j..], tmp, if j < |cs| then last else tmp, total)
    ensures Joined(m', [tmp] + cs[j..]) == Joined(m, cs)
  {
    hide Joined, List, Queue;
    QueueList(m, cs, ChainAt(cs, 0, NULL), last, total);
    QueueEnds(m, cs, ChainAt(cs, 0, NULL), last, total);
    PulledOffs(m, cs, last, total, j, n, m', tmp);
    var ds := cs[j..];
    ListCut(m, cs, j, NULL);
    JoinedConcat(m', [tmp], ds);
    JoinedOne(m', tmp);
    OneList(m', tmp, ChainAt(ds, 0, NULL));
    if j < |cs| {
      PulledTail(m, ds, n, m');
      JoinedCut(m, cs, j);
    } else {
      EmptyQueue(m', cs);
      assert ds == [];
    }
    ListConcat(m', [tmp], ds, NULL);
    assert LastOf([tmp] + ds) == if j < |cs| then LastOf(cs) else tmp;
    assert Joined(m', [tmp] + ds) == Joined(m, cs);
    MakeQueue(m', [tmp] + ds, total);
  }

  lemma MakeQueue(m: Memory, cs: seq<Addr>, total: nat)
    requires List(m, cs, NULL) && total == |Joined(m, cs)| <= SIZE_MAX
    requires forall i :: 0 <= i < |cs| ==> cs[i] in m && m[cs[i]].off > 0
    ensures Queue(m, cs, ChainAt(cs, 0, NULL), LastOf(cs), total)
  {
    hide List, Joined;
  }

  lemma OneList(m: Memory, a: Addr, end: Addr)
    requires a != NULL && a in m && m[a].Ok() && m[a].next == end
    ensures List(m, [a], end)
  {
  }

  // No chain of a list that was pulled up is empty.
  lemma PulledOffs(m: Memory, cs: seq<Addr>, last: Addr, total: nat, j: nat, n: nat, m': Memory, tmp: Addr)
    requires Queue(m, cs, ChainAt(cs, 0, NULL), last, total) && j <= |cs| && |cs| > 1
    requires tmp in m' && m'[tmp].off > 0
    requires j < |cs| ==>
      && cs[j] in m && cs[j] in m' && m[cs[j]].Ok() && m'[cs[j]].Ok() && n < m[cs[j]].off
      && m'[cs[j]].Data() == m[cs[j]].Data()[n..]
    requires forall i :: j < i < |cs| ==> cs[i] in m && cs[i] in m' && m'[cs[i]] == m[cs[i]]
    ensures forall i :: 0 <= i < |[tmp] + cs[j..]| ==>
      ([tmp] + cs[j..])[i] in m' && m'[([tmp] + cs[j..])[i]].off > 0
  {
    hide Joined;
    assert j < |cs| ==> |m'[cs[j]].Data()| == m[cs[j]].off - n;
    forall i | 0 <= i < |cs| - j
      ensures cs[j..][i] == cs[j + i] && cs[j + i] in m' && m'[cs[j + i]].off > 0
    {
    }
  }

  // The end of a pull-up: left bytes of chain k (if any) moved as well, tmp linked in.
  lemma PullFinish(m: Memory, cs: seq<Addr>, last: Addr, total: nat, mem: Memory, tmp: Addr, k: nat, left: nat,
                   m': Memory)
    requires Queue(m, cs, ChainAt(cs, 0, NULL), last, total) && |cs| > 1
    requires Pulling(m, cs, mem, tmp, k)
    requires |Joined(m, cs[..k])| + left <= total
    requires tmp in m' && m'[tmp].Ok() && m'[tmp].next == ChainAt(cs, k, NULL) && m'[tmp].off > 0
    requires k == |cs| ==> m' == mem[tmp := m'[tmp]] && m'[tmp].Data() == mem[tmp].Data()
    requires k < |cs| ==>
      && cs[k] in mem && cs[k] in m' && mem[cs[k]].Ok() && m'[cs[k]].Ok()
      && m' == mem[tmp := m'[tmp]][cs[k] := m'[cs[k]]]
      && left < mem[cs[k]].off && m'[cs[k]].next == mem[cs[k]].next
      && m'[tmp].Data() == mem[tmp].Data() + mem[cs[k]].Data()[..left]
      && m'[cs[k]].Data() == mem[cs[k]].Data()[left..]
    ensures Queue(m', [tmp] + cs[k..], tmp, if k < |cs| then last else tmp, total)
    ensures Joined(m', [tmp] + cs[k..]) == Joined(m, cs) && m'[tmp].Data() <= Joined(m, cs)
    ensures Rest(m', [tmp] + cs[k..]) == Rest(m, cs)
    ensures k == |cs| ==> left == 0
  {
    PullFacts(m, cs, last, total, mem, tmp, k);
    PulledQueue(m, cs, last, total, k, left, m', tmp);
    JoinedConcat(m', [tmp], cs[k..]);
    JoinedOne(m', tmp);
    PulledRest(m, cs, mem, tmp, k, m');
  }

  lemma PulledRest(m: Memory, cs: seq<Addr>, mem: Memory, tmp: Addr, k: nat, m': Memory)
    requires k <= |cs| && (tmp !in m || tmp in cs) && Rest(mem, [tmp]) == Rest(m, cs[..k] + [tmp])
    requires forall a :: a != tmp && a !in cs[k..] ==> (a in m' <==> a in mem) && (a in m' ==> m'[a] == mem[a])
    ensures Rest(m', [tmp] + cs[k..]) == Rest(m, cs)
  {
    assert cs == cs[..k] + cs[k..];
    assert Rest(m', [tmp] + cs[k..]) == Rest(Rest(mem, [tmp]), cs[k..]);
    forall a
      ensures a in m && a !in cs <==> a in m && a !in cs[..k] + [tmp] && a !in cs[k..]
    {
    }
    assert Rest(Rest(m, cs[..k] + [tmp]), cs[k..]) == Rest(m, cs);
  }

  lemma FirstPieceAll(m: Memory, cs: seq<Addr>, first: Addr, last: Addr, total: nat)
    requires Queue(m, cs, first, last, total) && total > 0
    ensures cs != [] && first in m && m[first].Ok()
    ensures m[first].Data() <= Joined(m, cs) && m[first].off <= total
    ensures |cs| == 1 ==> m[first].off == total
  {
    QueueEnds(m, cs, first, last, total);
  }

  lemma PullStart(m: Memory, cs: seq<Addr>, first: Addr, last: Addr, total: nat)
    requires Queue(m, cs, first, last, total) && |cs| > 1
    ensures Pulling(m, cs, m, first, 1) && Joined(m, cs[..1]) == m[first].Data()
    ensures m[first].next == cs[1] && first == ChainAt(cs, 0, NULL)
    ensures cs[|cs| - 2] in m && m[cs[|cs| - 2]].next == cs[|cs| - 1] == last
  {
    assert cs[..1] == [first];
    JoinedOne(m, first);
  }

  lemma PullStartNew(m: Memory, cs: seq<Addr>, first: Addr, last: Addr, total: nat, tmp: Addr, mem: Memory)
    requires Queue(m, cs, first, last, total) && |cs| > 1
    requires tmp != NULL && tmp !in m && tmp in mem && mem[tmp].Ok() && mem[tmp].off == 0 && mem == m[tmp := mem[tmp]]
    ensures Pulling(m, cs, mem, tmp, 0) && Joined(m, cs[..0]) == []
    ensures cs[|cs| - 2] in mem && mem[cs[|cs| - 2]].next == cs[|cs| - 1] == last
    ensures cs[0] == first == ChainAt(cs, 0, NULL)
  {
    EmptyPrefix(m, cs);
  }

  // One step of a copy: chain k follows the bytes of the chains before it.
  lemma CopyStep(m: Memory, cs: seq<Addr>, first: Addr, last: Addr, total: nat, k: nat)
    requires Queue(m, cs, first, last, total) && k < |cs|
    ensures cs[k] in m && m[cs[k]].Ok() && m[cs[k]].next == ChainAt(cs, k + 1, NULL)
    ensures Joined(m, cs[..k + 1]) == Joined(m, cs[..k]) + m[cs[k]].Data()
    ensures Joined(m, cs[..k + 1]) <= Joined(m, cs)
    ensures k + 1 == |cs| ==> |Joined(m, cs[..k + 1])| == total
    ensures k + 1 < |cs| ==> cs[k + 1] in m
  {
    assert cs[..k + 1] == cs[..k] + [cs[k]];
    JoinedConcat(m, cs[..k], [cs[k]]);
    JoinedOne(m, cs[k]);
    JoinedCut(m, cs, k + 1);
    if k + 1 == |cs| {
      assert cs[..k + 1] == cs;
    }
  }

  // The same, seen in the contents.
  lemma CopyNext(m: Memory, cs: seq<Addr>, first: Addr, last: Addr, total: nat, k: nat, at: nat)
    requires Queue(m, cs, first, last, total) && k < |cs| && at <= total
    requires Joined(m, cs[..k]) == Joined(m, cs)[..at]
    ensures cs[k] in m && m[cs[k]].Ok() && m[cs[k]].next == ChainAt(cs, k + 1, NULL)
    ensures total == |Joined(m, cs)| && at + m[cs[k]].off <= total
    ensures Joined(m, cs[..k + 1]) == Joined(m, cs)[..at + m[cs[k]].off]
    ensures Joined(m, cs)[..at] + m[cs[k]].Data() == Joined(m, cs)[..at + m[cs[k]].off]
    ensures k + 1 == |cs| ==> at + m[cs[k]].off == total
    ensures k + 1 < |cs| ==> cs[k + 1] in m
  {
    hide Queue, Joined;
    QueueEnds(m, cs, first, last, total);
    CopyStep(m, cs, first, last, total, k);
    var c, d := Joined(m, cs), m[cs[k]].Data();
    assert c[..at + |d|] == c[..at] + d;
  }

  lemma CopyPart(c: seq<byte>, at: nat, d: seq<byte>, n: nat)
    requires at + |d| <= |c| && n <= |d| && c[..at] + d == c[..at + |d|]
    ensures c[..at] + d[..n] == c[..at + n]
  {
    assert c[..at + n] == c[..at + |d|][..at + n];
  }

  // Two queues, the second linked behind the first.
  lemma ConcatQueue(m: Memory, cs: seq<Addr>, first: Addr, last: Addr, total: nat,
                    ds: seq<Addr>, first': Addr, last': Addr, total': nat)
    requires Queue(m, cs, first, last, total) && Queue(m, ds, first', last', total')
    requires total > 0 && total' > 0 && total + total' <= SIZE_MAX
    requires forall a <- cs :: a !in ds
    ensures var m' := m[last := m[last].(next := first')];
      && Queue(m', cs + ds, first, last', total + total')
      && Joined(m', cs + ds) == Joined(m, cs) + Joined(m, ds)
      && Rest(m', cs + ds) == Rest(m, cs + ds)
  {
    hide Joined, Distinct;
    QueueEnds(m, cs, first, last, total);
    QueueEnds(m, ds, first', last', total');
    var m' := m[last := m[last].(next := first')];
    ListRelink(m, cs, NULL, first');
    assert last in cs;
    ListSame(m, m', ds, NULL);
    JoinedConcat(m', cs, ds);
    ListConcat(m', cs, ds, NULL);
  }

  // evbuffer_chain_should_realign
  predicate ShouldRealign(c: Chain, datlen: nat)
  {
    && |c.buffer| - c.off >= datlen
    && c.off < |c.buffer| / 2
    && c.off <= MAX_TO_REALIGN
  }

  lemma RestNext(m: Memory, cs: seq<Addr>, i: nat)
    requires i < |cs|
    ensures Rest(m, cs[..i + 1]) == Rest(m, cs[..i]) - {cs[i]}
  {
    assert cs[..i + 1] == cs[..i] + [cs[i]];
  }

  // evbuffer_free_all_chains
  method FreeAllChains(arena: Arena, chain: Addr, ghost cs: seq<Addr>)
    requires arena.Valid() && List(arena.mem, cs, NULL) && chain == ChainAt(cs, 0, NULL)
    modifies arena
    ensures arena.Valid() && arena.mem == Rest(old(arena.mem), cs)
  {
    var c := chain;
    ghost var i := 0;
    while c != NULL
      invariant 0 <= i <= |cs| && c == ChainAt(cs, i, NULL)
      invariant arena.Valid() && arena.mem == Rest(old(arena.mem), cs[..i])
      decreases |cs| - i
    {
      ListCut(old(arena.mem), cs, i, NULL);
      RestNext(old(arena.mem), cs, i);
      assert c in cs[i..] by { assert cs[i..][0] == c; }
      var next := arena.mem[c].next;
      arena.ChainFree(c);
      c := next;
      i := i + 1;
    }
    assert cs[..i] == cs;
  }

  class EvBuffer {
    const arena: Arena
    var first: Addr
    var last: Addr
    var lastWithDatap: Link
    var totalLen: nat
    var nAddForCb: nat
    var nDelForCb: nat
    var freezeStart: bool
    var freezeEnd: bool
    ghost var chains: seq<Addr>

    // The address whose content is chains[i].
    ghost function LinkTo(i: nat): Link
      reads this
      requires i <= |chains|
    {
      if i == 0 then FirstOf(this) else NextOf(chains[i - 1])
    }

    ghost predicate Valid()
      reads this, arena
    {
      && arena.Valid()
      && Queue(arena.mem, chains, first, last, totalLen)
      && lastWithDatap == LinkTo(if chains == [] then 0 else |chains| - 1)
    }

    // The byte queue this buffer stands for.
    ghost function Contents(): seq<byte>
      reads this, arena
    {
      Joined(arena.mem, chains)
    }

    // evbuffer_new
    constructor (arena: Arena)
      requires arena.Valid()
      ensures Valid() && Contents() == [] && chains == [] && this.arena == arena
      ensures nAddForCb == 0 && nDelForCb == 0 && !freezeStart && !freezeEnd
    {
      this.arena := arena;
      first, last, lastWithDatap, totalLen := NULL, NULL, NullLink, 0;
      nAddForCb, nDelForCb, freezeStart, freezeEnd := 0, 0, false, false;
      chains := [];
      new;
      lastWithDatap := FirstOf(this);
    }

    // The pointer stored at an address of this buffer.
    function Deref(l: Link): Addr
      reads this, arena
      requires l == FirstOf(this) || (l.NextOf? && l.chain in arena.mem)
    {
      match l
      case FirstOf(_) => first
      case NextOf(c) => arena.mem[c].next
    }

    // The first address from lastWithDatap on that holds NULL or an empty chain.
    method FindVictim() returns (ch: Link)
      requires Valid()
      ensures ch == LinkTo(if last != NULL && arena.mem[last].off == 0 then 0 else |chains|)
      ensures ch == FirstOf(this) || (ch.NextOf? && ch.chain in arena.mem)
      ensures Deref(ch) == if last != NULL && arena.mem[last].off == 0 then last else NULL
    {
      ch := lastWithDatap;
      ghost var i := if chains == [] then 0 else |chains| - 1;
      while Deref(ch) != NULL && arena.mem[Deref(ch)].off != 0
        invariant |chains| - 1 <= i <= |chains| && ch == LinkTo(i)
        invariant Deref(ch) == ChainAt(chains, i, NULL)
        invariant i == |chains| ==> last == NULL || arena.mem[last].off != 0
        decreases |chains| - i
      {
        ch := NextOf(Deref(ch));
        i := i + 1;
      }
    }

    // Link a chain with data behind the last one.
    method Append(chain: Addr)
      requires Valid() && chain in arena.mem && chain !in chains
      requires arena.mem[chain].next == NULL && arena.mem[chain].off > 0
      requires last != NULL && arena.mem[last].off > 0
      requires totalLen + arena.mem[chain].off <= SIZE_MAX
      modifies this, arena
      ensures Valid() && last == chain
      ensures Contents() == old(Contents()) + old(arena.mem[chain].Data())
      ensures chains == old(chains) + [chain] && totalLen == old(totalLen) + old(arena.mem[chain].off)
      ensures arena.mem[chain] == old(arena.mem[chain])
      ensures nAddForCb == old(nAddForCb) && nDelForCb == old(nDelForCb)
      ensures Rest(arena.mem, chains) == Rest(old(arena.mem), chains)
      ensures freezeStart == old(freezeStart) && freezeEnd == old(freezeEnd)
    {
      AppendQueue(arena.mem, chains, first, last, totalLen, chain);
      arena.SetNext(last, chain);
      lastWithDatap := NextOf(last);
      last := chain;
      totalLen := totalLen + arena.mem[chain].off;
      chains := chains + [chain];
    }

    // Put a chain in place of whatever the buffer holds, none of which has data.
    method ReplaceAll(chain: Addr)
      requires Valid() && |chains| <= 1 && totalLen == 0
      requires chain in arena.mem && chain !in chains && arena.mem[chain].next == NULL
      requires arena.mem[chain].off <= SIZE_MAX
      modifies this, arena
      ensures Valid() && last == chain
      ensures Contents() == old(arena.mem[chain].Data())
      ensures chains == [chain] && totalLen == old(arena.mem[chain].off)
      ensures Rest(arena.mem, chains) == Rest(old(arena.mem), old(chains) + [chain])
      ensures chain in arena.mem && arena.mem[chain] == old(arena.mem[chain])
      ensures nAddForCb == old(nAddForCb) && nDelForCb == old(nDelForCb)
      ensures freezeStart == old(freezeStart) && freezeEnd == old(freezeEnd)
    {
      JoinedOne(arena.mem, chain);
      FreeAllChains(arena, first, chains);
      JoinedOne(arena.mem, chain);
      first, last := chain, chain;
      totalLen := totalLen + arena.mem[chain].off;
      chains := [chain];
    }

    // evbuffer_chain_insert: put a chain that is not yet in the buffer at its end, in
    // place of the trailing empty chains.
    method ChainInsert(chain: Addr)
      requires Valid()
      requires chain in arena.mem && chain !in chains && arena.mem[chain].next == NULL
      requires arena.mem[chain].off > 0 || first == NULL
      requires totalLen + arena.mem[chain].off <= SIZE_MAX
      modifies this, arena
      ensures Valid() && last == chain
      ensures Contents() == old(Contents()) + old(arena.mem[chain].Data())
      ensures totalLen == old(totalLen) + old(arena.mem[chain].off)
      ensures Rest(arena.mem, chains) == Rest(old(arena.mem), old(chains) + [chain])
      ensures chain in arena.mem && arena.mem[chain] == old(arena.mem[chain])
      ensures nAddForCb == old(nAddForCb) && nDelForCb == old(nDelForCb)
      ensures freezeStart == old(freezeStart) && freezeEnd == old(freezeEnd)
    {
      if Deref(lastWithDatap) == NULL {
        ReplaceAll(chain);
      } else {
        var ch := FindVictim();
        if Deref(ch) == NULL {
          Append(chain);
        } else {
          assert chains == [last];
          JoinedOne(arena.mem, last);
          ReplaceAll(chain);
        }
      }
    }

    // Allocate a chain for this buffer, not linked yet.
    method NewChain(size: nat) returns (chain: Addr)
      requires Valid()
      modifies arena
      ensures Valid() && Contents() == old(Contents())
      ensures chain == NULL <==> size > MAX_CAPACITY
      ensures chain == NULL ==> arena.mem == old(arena.mem)
      ensures last != NULL ==> last in arena.mem && arena.mem[last] == old(arena.mem)[last]
      ensures first != NULL ==> first in arena.mem && arena.mem[first] == old(arena.mem)[first]
      ensures chain != NULL ==>
        && chain in arena.mem && chain !in chains
        && arena.mem[chain].next == NULL && arena.mem[chain].misalign == 0 && arena.mem[chain].off == 0
        && arena.mem[chain].Ok() && size <= |arena.mem[chain].buffer|
        && MIN_BUFFER_SIZE <= |arena.mem[chain].buffer| + CHAIN_SIZE
        && Rest(arena.mem, chains + [chain]) == old(Rest(arena.mem, chains))
    {
      ghost var m := arena.mem;
      chain := arena.ChainNew(size);
      if chain != NULL {
        FreshQueue(m, chains, first, last, totalLen, chain, arena.mem[chain]);
      }
    }

    // Fill a chain that is not linked yet.
    method FillNew(chain: Addr, data: seq<byte>)
      requires Valid() && chain in arena.mem && chain !in chains
      requires arena.mem[chain].off == 0 && arena.mem[chain].next == NULL
      requires |data| <= arena.mem[chain].Space()
      modifies arena
      ensures Valid() && Contents() == old(Contents())
      ensures chain in arena.mem && arena.mem[chain].next == NULL && arena.mem[chain].Data() == data
      ensures arena.mem[chain].off == |data|
      ensures Rest(arena.mem, chains + [chain]) == old(Rest(arena.mem, chains + [chain]))
    {
      ghost var m := arena.mem;
      arena.AppendBytes(chain, data);
      ListSame(m, arena.mem, chains, NULL);
    }

    // The part of evbuffer_add that copies into the last chain.
    method GrowLast(data: seq<byte>)
      requires Valid() && last != NULL && |data| <= arena.mem[last].Space()
      requires totalLen + |data| <= SIZE_MAX
      modifies this, arena
      ensures Valid() && chains == old(chains)
      ensures Contents() == old(Contents()) + data
      ensures arena.mem == old(arena.mem)[last := arena.mem[last]]
      ensures arena.mem[last].off == old(arena.mem[last].off) + |data|
      ensures totalLen == old(totalLen) + |data| && last == old(last)
      ensures nAddForCb == old(nAddForCb) + |data| && nDelForCb == old(nDelForCb)
      ensures Rest(arena.mem, chains) == old(Rest(arena.mem, chains))
      ensures freezeStart == old(freezeStart) && freezeEnd == old(freezeEnd)
    {
      hide Queue, Joined, Rest;
      QueueEnds(arena.mem, chains, first, last, totalLen);
      ghost var m := arena.mem;
      arena.AppendBytes(last, data);
      GrowLastQueue(m, chains, first, last, totalLen, arena.mem[last], data);
      totalLen := totalLen + |data|;
      nAddForCb := nAddForCb + |data|;
    }

    method AlignLast()
      requires Valid() && last != NULL
      modifies arena
      ensures Valid() && arena.mem[last].misalign == 0
      ensures Contents() == old(Contents())
      ensures arena.mem[last].off == old(arena.mem[last].off)
      ensures |arena.mem[last].buffer| == old(|arena.mem[last].buffer|)
      ensures Rest(arena.mem, chains) == old(Rest(arena.mem, chains))
    {
      ghost var m := arena.mem;
      arena.ChainAlign(last);
      assert m[last].Data() == m[last].Data() + [];
      GrowLastQueue(m, chains, first, last, totalLen, arena.mem[last], []);
    }

    // The part of evbuffer_add that needs another chain.
    method AddChain(data: seq<byte>, toAlloc: nat) returns (result: int)
      requires Valid() && last != NULL && arena.mem[last].Space() < |data| <= toAlloc
      requires |data| <= SIZE_MAX - totalLen
      modifies this, arena
      ensures Valid() && result == (if toAlloc <= MAX_CAPACITY then 0 else -1)
      ensures Contents() == if result == 0 then old(Contents()) + data else old(Contents())
      ensures nAddForCb == if result == 0 then old(nAddForCb) + |data| else old(nAddForCb)
      ensures nDelForCb == old(nDelForCb)
      ensures Rest(arena.mem, chains) == old(Rest(arena.mem, chains))
      ensures freezeStart == old(freezeStart) && freezeEnd == old(freezeEnd)
    {
      hide Queue, Joined, Rest;
      QueueEnds(arena.mem, chains, first, last, totalLen);
      var tmp := NewChain(toAlloc);
      if tmp == NULL {
        return -1;
      }
      var remain := arena.mem[last].Space();
      ghost var m := arena.mem;
      GrowLast(data[..remain]);
      RestMore(m, arena.mem, chains, tmp);
      var rest := data[remain..];
      assert data == data[..remain] + rest;
      InsertFilled(tmp, rest);
      result := 0;
    }

    // A new chain with the rest of what is added.
    method InsertFilled(tmp: Addr, rest: seq<byte>)
      requires Valid() && tmp in arena.mem && tmp !in chains && rest != []
      requires arena.mem[tmp].off == 0 && arena.mem[tmp].next == NULL && |rest| <= arena.mem[tmp].Space()
      requires totalLen + |rest| <= SIZE_MAX
      modifies this, arena
      ensures Valid() && Contents() == old(Contents()) + rest
      ensures nAddForCb == old(nAddForCb) + |rest| && nDelForCb == old(nDelForCb)
      ensures Rest(arena.mem, chains) == old(Rest(arena.mem, chains + [tmp]))
      ensures freezeStart == old(freezeStart) && freezeEnd == old(freezeEnd)
    {
      hide Queue, Joined, Rest;
      FillNew(tmp, rest);
      ChainInsert(tmp);
      nAddForCb := nAddForCb + |rest|;
    }

    // evbuffer_add: 0 and the data appended, or -1 and nothing changed.
    method Add(data: seq<byte>) returns (result: int)
      requires Valid()
      modifies this, arena
      ensures Valid()
      ensures result == 0 || result == -1
      ensures result == 0 <==> !freezeEnd && |data| <= SIZE_MAX - old(totalLen) && |data| <= MAX_CAPACITY
      ensures Contents() == if result == 0 then old(Contents()) + data else old(Contents())
      ensures nAddForCb == if result == 0 then old(nAddForCb) + |data| else old(nAddForCb)
      ensures nDelForCb == old(nDelForCb)
      ensures Rest(arena.mem, chains) == old(Rest(arena.mem, chains))
      ensures freezeStart == old(freezeStart) && freezeEnd == old(freezeEnd)
    {
      hide Queue, Rest, Joined;
      if freezeEnd {
        return -1;
      }
      if |data| > SIZE_MAX - totalLen {
        return -1;
      }
      var chain := last;
      QueueEnds(arena.mem, chains, first, last, totalLen);
      if chain == NULL {
        chain := NewChain(|data|);
        if chain == NULL {
          return -1;
        }
        ChainInsert(chain);
        QueueEnds(arena.mem, chains, first, last, totalLen);
      }
      var c := arena.mem[chain];
      var remain := |c.buffer| - c.misalign - c.off;
      if remain >= |data| {
        GrowLast(data);
      } else if ShouldRealign(c, |data|) {
        AlignLast();
        GrowLast(data);
      } else {
        var toAlloc := |c.buffer|;
        if toAlloc <= CHAIN_MAX_AUTO_SIZE / 2 {
          toAlloc := toAlloc * 2;
        }
        if |data| > toAlloc {
          toAlloc := |data|;
        }
        result := AddChain(data, toAlloc);
        return;
      }
      result := 0;
    }

    // How many bytes fit in front of the first chain's data.
    ghost function FrontRoom(): nat
      requires Valid()
      reads this, arena
    {
      QueueEnds(arena.mem, chains, first, last, totalLen);
      if first == NULL then MAX_CAPACITY
      else if arena.mem[first].off == 0 then |arena.mem[first].buffer|
      else arena.mem[first].misalign
    }

    // The part of evbuffer_prepend that copies into the first chain.
    method GrowFirst(data: seq<byte>)
      requires Valid() && first != NULL && first in arena.mem && |data| <= arena.mem[first].misalign
      requires totalLen + |data| <= SIZE_MAX
      modifies this, arena
      ensures Valid() && chains == old(chains) && first == old(first)
      ensures Contents() == data + old(Contents())
      ensures first in arena.mem && arena.mem == old(arena.mem)[first := arena.mem[first]]
      ensures arena.mem[first].off == old(arena.mem[first].off) + |data|
      ensures arena.mem[first].misalign == old(arena.mem[first].misalign) - |data|
      ensures totalLen == old(totalLen) + |data|
      ensures nAddForCb == old(nAddForCb) + |data| && nDelForCb == old(nDelForCb)
      ensures Rest(arena.mem, chains) == old(Rest(arena.mem, chains))
      ensures freezeStart == old(freezeStart) && freezeEnd == old(freezeEnd)
    {
      hide Queue, Joined;
      QueueEnds(arena.mem, chains, first, last, totalLen);
      ghost var m := arena.mem;
      arena.PrependBytes(first, data);
      GrowFirstQueue(m, chains, first, last, totalLen, arena.mem[first], data);
      totalLen := totalLen + |data|;
      nAddForCb := nAddForCb + |data|;
    }

    method EmptyFirstAtStart()
      requires Valid() && first != NULL && first in arena.mem && arena.mem[first].off == 0
      modifies arena
      ensures Valid() && Contents() == old(Contents())
      ensures first in arena.mem && arena.mem[first].off == 0
      ensures arena.mem[first].misalign == |arena.mem[first].buffer| == old(|arena.mem[first].buffer|)
      ensures Rest(arena.mem, chains) == old(Rest(arena.mem, chains))
    {
      hide Queue, Joined;
      ghost var m := arena.mem;
      QueueEnds(m, chains, first, last, totalLen);
      arena.EmptyAtStart(first);
      GrowFirstQueue(m, chains, first, last, totalLen, arena.mem[first], []);
    }

    // The part of evbuffer_prepend that needs another chain. It adds the first chain's
    // misalign, zero by then, to nAddForCb instead of the length of the data.
    method PushFront(data: seq<byte>) returns (result: int)
      requires Valid() && first != NULL && first in arena.mem
      requires arena.mem[first].off > 0 && arena.mem[first].misalign == 0
      requires data != [] && |data| <= SIZE_MAX - totalLen
      modifies this, arena
      ensures Valid() && result == (if |data| <= MAX_CAPACITY then 0 else -1)
      ensures Contents() == if result == 0 then data + old(Contents()) else old(Contents())
      ensures nAddForCb == old(nAddForCb) && nDelForCb == old(nDelForCb)
      ensures Rest(arena.mem, chains) == old(Rest(arena.mem, chains))
      ensures freezeStart == old(freezeStart) && freezeEnd == old(freezeEnd)
    {
      hide Queue, Joined, Rest;
      QueueEnds(arena.mem, chains, first, last, totalLen);
      var tmp := NewChain(|data|);
      if tmp == NULL {
        return -1;
      }
      ghost var m := arena.mem;
      arena.FillBack(tmp, data);
      QueueSame(m, arena.mem, chains, first, last, totalLen);
      RestTouched(m, arena.mem, chains, tmp);
      nAddForCb := nAddForCb + arena.mem[first].misalign;
      LinkFront(tmp);
      result := 0;
    }

    // A filled chain becomes the first.
    method LinkFront(tmp: Addr)
      requires Valid() && first != NULL && first in arena.mem && arena.mem[first].off > 0
      requires tmp != NULL && tmp in arena.mem && tmp !in chains && arena.mem[tmp].Ok() && arena.mem[tmp].off > 0
      requires totalLen + arena.mem[tmp].off <= SIZE_MAX
      modifies `first, `chains, `lastWithDatap, `totalLen, arena
      ensures Valid() && Contents() == old(arena.mem)[tmp].Data() + old(Contents())
      ensures Rest(arena.mem, chains) == old(Rest(arena.mem, chains + [tmp]))
    {
      hide Queue, Joined, Rest;
      QueueEnds(arena.mem, chains, first, last, totalLen);
      ghost var m := arena.mem;
      arena.SetNext(tmp, first);
      QueueSame(m, arena.mem, chains, first, last, totalLen);
      PushFrontQueue(arena.mem, chains, first, last, totalLen, tmp);
      RestInFront(m, arena.mem, chains, tmp);
      first := tmp;
      lastWithDatap := if lastWithDatap == FirstOf(this) then NextOf(tmp) else lastWithDatap;
      totalLen := totalLen + arena.mem[tmp].off;
      chains := [tmp] + chains;
    }

    // evbuffer_prepend. When the data does not fit in front of the first chain, two
    // things a caller may not expect happen: nAddForCb counts only the part that did
    // fit, and a request too large to allocate fails with that part already added.
    method Prepend(data: seq<byte>) returns (result: int)
      requires Valid()
      modifies this, arena
      ensures Valid()
      ensures result == 0 <==>
        && !freezeStart && |data| <= SIZE_MAX - old(totalLen)
        && |data| <= MAX_CAPACITY + (if old(first) == NULL then 0 else old(FrontRoom()))
      ensures result == 0 ==> Contents() == data + old(Contents())
      ensures result == 0 ==>
        nAddForCb == old(nAddForCb) + Min(|data|, old(FrontRoom()))
      ensures result != 0 ==> result == -1 && nAddForCb == old(nAddForCb) + |Contents()| - |old(Contents())|
      ensures result != 0 ==>
        Contents() == data[|data| - (if freezeStart || |data| > SIZE_MAX - old(totalLen) || old(first) == NULL
                                     then 0 else old(FrontRoom()))..] + old(Contents())
      ensures nDelForCb == old(nDelForCb)
      ensures result == 0 && old(first) == NULL && data != [] ==>
        first != NULL && MIN_BUFFER_SIZE <= FrontRoom() + |data| + CHAIN_SIZE
      ensures Rest(arena.mem, chains) == old(Rest(arena.mem, chains))
      ensures freezeStart == old(freezeStart) && freezeEnd == old(freezeEnd)
    {
      hide Queue, Joined, Rest;
      QueueEnds(arena.mem, chains, first, last, totalLen);
      if freezeStart {
        return -1;
      }
      if |data| > SIZE_MAX - totalLen {
        return -1;
      }
      if first == NULL {
        var chain := NewChain(|data|);
        if chain == NULL {
          return -1;
        }
        ChainInsert(chain);
        QueueEnds(arena.mem, chains, first, last, totalLen);
      }
      result := PrependData(data);
    }

    // A prepend that fails and still leaves bytes behind.
    static method FailedPrependAdds(arena: Arena) returns (buf: EvBuffer, result: int)
      requires arena.Valid()
      modifies arena
      ensures fresh(buf) && buf.Valid() && result == -1 && |buf.Contents()| > 1
    {
      hide Queue, Joined, Rest;
      buf := new EvBuffer(arena);
      QueueEnds(buf.arena.mem, buf.chains, buf.first, buf.last, buf.totalLen);
      result := buf.Prepend([1]);
      QueueEnds(buf.arena.mem, buf.chains, buf.first, buf.last, buf.totalLen);
      ghost var room, had := buf.FrontRoom(), buf.Contents();
      var data := seq(SIZE_MAX - 1, _ => 0);
      result := buf.Prepend(data);
      assert room > 0 && buf.Contents() == data[|data| - room..] + had;
    }

    // evbuffer_prepend from the point on where there is a first chain.
    method PrependData(data: seq<byte>) returns (result: int)
      requires Valid() && first != NULL && |data| <= SIZE_MAX - totalLen
      modifies this, arena
      ensures Valid() && (result == 0 || result == -1)
      ensures result == 0 <==> |data| <= MAX_CAPACITY + old(FrontRoom())
      ensures result == 0 ==> Contents() == data + old(Contents())
      ensures result != 0 ==> Contents() == data[|data| - old(FrontRoom())..] + old(Contents())
      ensures nAddForCb == old(nAddForCb) + Min(|data|, old(FrontRoom()))
      ensures 0 < |data| <= old(FrontRoom()) ==> FrontRoom() == old(FrontRoom()) - |data|
      ensures nDelForCb == old(nDelForCb)
      ensures Rest(arena.mem, chains) == old(Rest(arena.mem, chains))
      ensures freezeStart == old(freezeStart) && freezeEnd == old(freezeEnd)
    {
      hide Queue, Joined, Rest;
      QueueEnds(arena.mem, chains, first, last, totalLen);
      if arena.mem[first].off == 0 {
        EmptyFirstAtStart();
      }
      var room := arena.mem[first].misalign;
      if room >= |data| {
        GrowFirst(data);
        return 0;
      }
      var head, tail := data[..|data| - room], data[|data| - room..];
      if room != 0 {
        GrowFirst(tail);
      }
      assert data == head + tail;
      result := PushFront(head);
    }

    // evbuffer_drain
    method Drain(len: nat) returns (result: int)
      requires Valid()
      modifies this, arena
      ensures Valid()
      ensures result == if old(totalLen) != 0 && freezeStart then -1 else 0
      ensures Contents() == if result == 0 then old(Contents())[Min(len, old(totalLen))..] else old(Contents())
      ensures nDelForCb == if result == 0 then old(nDelForCb) + Min(len, old(totalLen)) else old(nDelForCb)
      ensures nAddForCb == old(nAddForCb)
      ensures Rest(arena.mem, chains) == old(Rest(arena.mem, chains))
      ensures freezeStart == old(freezeStart) && freezeEnd == old(freezeEnd)
    {
      hide Queue, Joined;
      QueueEnds(arena.mem, chains, first, last, totalLen);
      if totalLen == 0 {
        return 0;
      }
      if freezeStart {
        return -1;
      }
      if len >= totalLen {
        nDelForCb := nDelForCb + totalLen;
        DrainAll();
      } else {
        nDelForCb := nDelForCb + len;
        DrainSome(len);
      }
      result := 0;
    }

    // Free every chain, then ZERO_CHAIN.
    method DrainAll()
      requires Valid()
      modifies this, arena
      ensures Valid() && Contents() == []
      ensures nAddForCb == old(nAddForCb) && nDelForCb == old(nDelForCb)
      ensures Rest(arena.mem, chains) == old(Rest(arena.mem, chains))
      ensures freezeStart == old(freezeStart) && freezeEnd == old(freezeEnd)
    {
      FreeAllChains(arena, first, chains);
      first, last, lastWithDatap, totalLen := NULL, NULL, FirstOf(this), 0;
      chains := [];
    }

    // The loop of a drain that stops short of the end: free the chains that go
    // entirely, keeping lastWithDatap off them.
    method FreeDrained(len: nat) returns (chain: Addr, remaining: nat, ghost k: nat)
      requires Valid() && len < totalLen
      modifies `lastWithDatap, arena
      ensures arena.Valid() && k < |chains| && chain == chains[k]
      ensures arena.mem == Rest(old(arena.mem), chains[..k]) && chain in arena.mem
      ensures remaining < arena.mem[chain].off
      ensures |Joined(old(arena.mem), chains[..k])| + remaining == len
      ensures lastWithDatap == if k < |chains| - 1 then LinkTo(|chains| - 1) else FirstOf(this)
    {
      hide Queue, Joined, Rest;
      chain, remaining, k := first, len, 0;
      ghost var m := arena.mem;
      EmptyPrefix(m, chains);
      QueueEnds(m, chains, chain, last, totalLen);
      while remaining >= arena.mem[chain].off
        invariant k < |chains| && chain == chains[k]
        invariant arena.Valid() && arena.mem == Rest(m, chains[..k])
        invariant chain in arena.mem && chain in m && arena.mem[chain] == m[chain]
        invariant |Joined(m, chains[..k])| + remaining == len
        invariant lastWithDatap == if k < |chains| - 1 then LinkTo(|chains| - 1) else FirstOf(this)
        decreases |chains| - k
      {
        DrainStep(m, chains, first, last, totalLen, k, len);
        var next := arena.mem[chain].next;
        remaining := remaining - arena.mem[chain].off;
        lastWithDatap := if chain == Deref(lastWithDatap) then FirstOf(this) else lastWithDatap;
        if NextOf(chain) == lastWithDatap {
          lastWithDatap := FirstOf(this);
        }
        arena.ChainFree(chain);
        chain := next;
        k := k + 1;
      }
    }

    method DrainSome(len: nat)
      requires Valid() && len < totalLen
      modifies this, arena
      ensures Valid() && Contents() == old(Contents())[len..]
      ensures nAddForCb == old(nAddForCb) && nDelForCb == old(nDelForCb)
      ensures Rest(arena.mem, chains) == old(Rest(arena.mem, chains))
      ensures freezeStart == old(freezeStart) && freezeEnd == old(freezeEnd)
    {
      hide Queue, Joined, Rest;
      ghost var m, cs := arena.mem, chains;
      var chain, remaining, k := FreeDrained(len);
      FreeFrontQueue(m, cs, first, last, totalLen, k);
      ghost var m1 := arena.mem;
      arena.DropBytes(chain, remaining);
      TrimQueue(m1, cs[k..], chain, last, totalLen - (len - remaining), arena.mem[chain], remaining);
      QueueEnds(m1, cs[k..], chain, last, totalLen - (len - remaining));
      DropFrom(Joined(m, cs[..k]), Joined(m1, cs[k..]), remaining);
      totalLen := totalLen - len;
      first := chain;
      chains := cs[k..];
    }

    // evbuffer_copyout: copy up to datlen bytes from the front, removing nothing.
    method Copyout(out: array<byte>, datlen: nat) returns (result: int)
      requires Valid() && datlen <= out.Length
      modifies out
      ensures result == if Min(datlen, totalLen) > 0 && freezeStart then -1 else Min(datlen, totalLen)
      ensures result < 0 ==> out[..] == old(out[..])
      ensures result >= 0 ==> out[..] == Contents()[..result] + old(out[result..])
    {
      hide Queue, Joined, Rest;
      QueueEnds(arena.mem, chains, first, last, totalLen);
      var len := Min(datlen, totalLen);
      if len == 0 {
        return 0;
      }
      if freezeStart {
        return -1;
      }
      CopyFront(out, len);
      result := len;
    }

    method CopyFront(out: array<byte>, len: nat)
      requires Valid() && 0 < len <= out.Length && len <= totalLen
      modifies out
      ensures len <= |Contents()| && out[..] == Contents()[..len] + old(out[len..])
    {
      hide Queue, Joined, Rest;
      ghost var m, was, c := arena.mem, out[..], Contents();
      QueueEnds(m, chains, first, last, totalLen);
      var left, chain, at := len, first, 0;
      ghost var k := 0;
      EmptyPrefix(m, chains);
      while left != 0 && left >= arena.mem[chain].off
        invariant 0 <= k <= |chains| && chain == ChainAt(chains, k, NULL)
        invariant 0 <= at <= len && at + left == len
        invariant left != 0 ==> k < |chains| && chain in m
        invariant Joined(m, chains[..k]) == c[..at]
        invariant out[..] == c[..at] + was[at..]
        decreases |chains| - k
      {
        CopyNext(m, chains, first, last, totalLen, k, at);
        CopyPiece(out, at, arena.mem[chain].Data(), c, was);
        at := at + arena.mem[chain].off;
        left := left - arena.mem[chain].off;
        chain := arena.mem[chain].next;
        k := k + 1;
      }
      if left != 0 {
        CopyNext(m, chains, first, last, totalLen, k, at);
        CopyPart(c, at, arena.mem[chain].Data(), left);
        CopyPiece(out, at, arena.mem[chain].Data()[..left], c, was);
      }
    }

    // evbuffer_remove. The count is returned through an int.
    method Remove(out: array<byte>, datlen: nat) returns (result: int)
      requires Valid() && datlen <= out.Length
      modifies this, arena, out
      ensures Valid()
      ensures var n := Min(datlen, old(totalLen));
        if n > 0 && freezeStart then
          result == -1 && Contents() == old(Contents()) && out[..] == old(out[..])
        else
          result == AsInt32(n) && Contents() == old(Contents())[n..]
          && out[..] == old(Contents())[..n] + old(out[n..])
      ensures nAddForCb == old(nAddForCb)
      ensures nDelForCb == old(nDelForCb) + old(totalLen) - totalLen
      ensures Rest(arena.mem, chains) == old(Rest(arena.mem, chains))
      ensures freezeStart == old(freezeStart) && freezeEnd == old(freezeEnd)
    {
      hide Queue, Joined, Rest;
      QueueEnds(arena.mem, chains, first, last, totalLen);
      var n := Copyout(out, datlen);
      if n > 0 {
        var r := Drain(n);
        if r < 0 {
          n := -1;
        }
      }
      QueueEnds(arena.mem, chains, first, last, totalLen);
      result := AsInt32(n);
    }

    // Two buffers in one arena that share no chain.
    ghost predicate Apart(that: EvBuffer)
      reads this, that
    {
      this != that && arena == that.arena && forall a <- chains :: a !in that.chains
    }

    // COPY_CHAIN after freeing what the destination held, then ZERO_CHAIN of the source.
    method TakeAll(that: EvBuffer)
      requires Valid() && that.Valid() && Apart(that) && totalLen == 0
      modifies this, that, arena
      ensures Valid() && that.Valid() && (that == this || Apart(that))
      ensures Rest(arena.mem, chains + that.chains) == old(Rest(arena.mem, chains + that.chains))
      ensures freezeStart == old(freezeStart) && freezeEnd == old(freezeEnd)
      ensures that.freezeStart == old(that.freezeStart) && that.freezeEnd == old(that.freezeEnd)
      ensures Contents() == old(that.Contents()) && that.Contents() == []
      ensures totalLen == old(that.totalLen) && that.totalLen == 0
      ensures nAddForCb == old(nAddForCb) && nDelForCb == old(nDelForCb)
      ensures that.nAddForCb == old(that.nAddForCb) && that.nDelForCb == old(that.nDelForCb)
    {
      hide Queue, Joined, Rest;
      ghost var m, cs, ds := arena.mem, chains, that.chains;
      QueueList(m, cs, first, last, totalLen);
      FreeAllChains(arena, first, chains);
      FreeOtherQueue(m, cs, ds, that.first, that.last, that.totalLen);
      first := that.first;
      lastWithDatap := if that.lastWithDatap == FirstOf(that) then FirstOf(this) else that.lastWithDatap;
      last, totalLen := that.last, that.totalLen;
      chains := ds;
      that.ZeroChain();
      EmptyQueue(arena.mem, ds);
    }

    // ZERO_CHAIN: forget the list, which now belongs to another buffer.
    method ZeroChain()
      modifies `first, `last, `lastWithDatap, `totalLen, `chains
      ensures first == last == NULL && lastWithDatap == FirstOf(this) && totalLen == 0 && chains == []
    {
      first, last, lastWithDatap, totalLen := NULL, NULL, FirstOf(this), 0;
      chains := [];
    }

    // APPEND_CHAIN, then ZERO_CHAIN of the source.
    method LinkBehind(that: EvBuffer)
      requires Valid() && that.Valid() && Apart(that) && totalLen > 0 && that.totalLen > 0
      requires totalLen + that.totalLen <= SIZE_MAX
      modifies this, that, arena
      ensures Valid() && that.Valid() && (that == this || Apart(that))
      ensures Rest(arena.mem, chains + that.chains) == old(Rest(arena.mem, chains + that.chains))
      ensures freezeStart == old(freezeStart) && freezeEnd == old(freezeEnd)
      ensures that.freezeStart == old(that.freezeStart) && that.freezeEnd == old(that.freezeEnd)
      ensures Contents() == old(Contents()) + old(that.Contents()) && that.Contents() == []
      ensures totalLen == old(totalLen) + old(that.totalLen) && that.totalLen == 0
      ensures nAddForCb == old(nAddForCb) && nDelForCb == old(nDelForCb)
      ensures that.nAddForCb == old(that.nAddForCb) && that.nDelForCb == old(that.nDelForCb)
    {
      hide Queue, Joined, Rest;
      ghost var cs, ds := chains, that.chains;
      QueueEnds(arena.mem, cs, first, last, totalLen);
      QueueEnds(arena.mem, ds, that.first, that.last, that.totalLen);
      ConcatQueue(arena.mem, cs, first, last, totalLen, ds, that.first, that.last, that.totalLen);
      arena.SetNext(last, that.first);
      lastWithDatap := if that.lastWithDatap == FirstOf(that) then NextOf(last) else that.lastWithDatap;
      last, totalLen := that.last, totalLen + that.totalLen;
      chains := cs + ds;
      that.ZeroChain();
      EmptyQueue(arena.mem, chains);
    }

    // PREPEND_CHAIN, then ZERO_CHAIN of the source.
    method LinkBefore(that: EvBuffer)
      requires Valid() && that.Valid() && Apart(that) && totalLen > 0 && that.totalLen > 0
      requires totalLen + that.totalLen <= SIZE_MAX
      modifies this, that, arena
      ensures Valid() && that.Valid() && (that == this || Apart(that))
      ensures Rest(arena.mem, chains + that.chains) == old(Rest(arena.mem, chains + that.chains))
      ensures freezeStart == old(freezeStart) && freezeEnd == old(freezeEnd)
      ensures that.freezeStart == old(that.freezeStart) && that.freezeEnd == old(that.freezeEnd)
      ensures Contents() == old(that.Contents()) + old(Contents()) && that.Contents() == []
      ensures totalLen == old(totalLen) + old(that.totalLen) && that.totalLen == 0
      ensures nAddForCb == old(nAddForCb) && nDelForCb == old(nDelForCb)
      ensures that.nAddForCb == old(that.nAddForCb) && that.nDelForCb == old(that.nDelForCb)
    {
      hide Queue, Joined, Rest;
      ghost var cs, ds, m := chains, that.chains, arena.mem;
      QueueEnds(arena.mem, cs, first, last, totalLen);
      QueueEnds(arena.mem, ds, that.first, that.last, that.totalLen);
      ConcatQueue(arena.mem, ds, that.first, that.last, that.totalLen, cs, first, last, totalLen);
      RestSwap(m, cs, ds);
      arena.SetNext(that.last, first);
      first := that.first;
      totalLen := totalLen + that.totalLen;
      if lastWithDatap == FirstOf(this) {
        lastWithDatap := NextOf(that.last);
      }
      chains := ds + cs;
      that.ZeroChain();
      EmptyQueue(arena.mem, chains);
    }

    // evbuffer_add_buffer: move everything that holds to the end of this buffer.
    method AddBuffer(that: EvBuffer) returns (result: int)
      requires Valid() && that.Valid() && (that == this || Apart(that))
      requires that != this ==> totalLen + that.totalLen <= SIZE_MAX
      modifies this, that, arena
      ensures Valid() && that.Valid() && (that == this || Apart(that))
      ensures Rest(arena.mem, chains + that.chains) == old(Rest(arena.mem, chains + that.chains))
      ensures freezeStart == old(freezeStart) && freezeEnd == old(freezeEnd)
      ensures that.freezeStart == old(that.freezeStart) && that.freezeEnd == old(that.freezeEnd)
      ensures result == if that != this && old(that.totalLen) > 0 && (freezeEnd || that.freezeStart) then -1 else 0
      ensures that == this || result == -1 ==>
        Contents() == old(Contents()) && that.Contents() == old(that.Contents())
      ensures that != this && result == 0 ==>
        Contents() == old(Contents()) + old(that.Contents()) && that.Contents() == []
      ensures nAddForCb == old(nAddForCb) + totalLen - old(totalLen) && nDelForCb == old(nDelForCb)
      ensures that != this ==>
        && that.nAddForCb == old(that.nAddForCb)
        && that.nDelForCb == old(that.nDelForCb) + old(that.totalLen) - that.totalLen
    {
      hide Queue, Joined, Rest;
      QueueEnds(arena.mem, chains, first, last, totalLen);
      QueueEnds(arena.mem, that.chains, that.first, that.last, that.totalLen);
      if that.totalLen == 0 || that == this {
        return 0;
      }
      if freezeEnd || that.freezeStart {
        return -1;
      }
      var n := that.totalLen;
      if totalLen == 0 {
        TakeAll(that);
      } else {
        LinkBehind(that);
      }
      that.nDelForCb := that.nDelForCb + n;
      nAddForCb := nAddForCb + n;
      result := 0;
    }

    // evbuffer_prepend_buffer: move everything that holds to the front of this buffer.
    method PrependBuffer(that: EvBuffer) returns (result: int)
      requires Valid() && that.Valid() && (that == this || Apart(that))
      requires that != this ==> totalLen + that.totalLen <= SIZE_MAX
      modifies this, that, arena
      ensures Valid() && that.Valid() && (that == this || Apart(that))
      ensures Rest(arena.mem, chains + that.chains) == old(Rest(arena.mem, chains + that.chains))
      ensures freezeStart == old(freezeStart) && freezeEnd == old(freezeEnd)
      ensures that.freezeStart == old(that.freezeStart) && that.freezeEnd == old(that.freezeEnd)
      ensures result == if that != this && old(that.totalLen) > 0 && (freezeStart || that.freezeStart) then -1 else 0
      ensures that == this || result == -1 ==>
        Contents() == old(Contents()) && that.Contents() == old(that.Contents())
      ensures that != this && result == 0 ==>
        Contents() == old(that.Contents()) + old(Contents()) && that.Contents() == []
      ensures nAddForCb == old(nAddForCb) + totalLen - old(totalLen) && nDelForCb == old(nDelForCb)
      ensures that != this ==>
        && that.nAddForCb == old(that.nAddForCb)
        && that.nDelForCb == old(that.nDelForCb) + old(that.totalLen) - that.totalLen
    {
      hide Queue, Joined, Rest;
      QueueEnds(arena.mem, chains, first, last, totalLen);
      QueueEnds(arena.mem, that.chains, that.first, that.last, that.totalLen);
      if that.totalLen == 0 || that == this {
        return 0;
      }
      if freezeStart || that.freezeStart {
        return -1;
      }
      var n := that.totalLen;
      if totalLen == 0 {
        TakeAll(that);
      } else {
        LinkBefore(that);
      }
      that.nDelForCb := that.nDelForCb + n;
      nAddForCb := nAddForCb + n;
      result := 0;
    }

    // evbuffer_free_trailing_empty_chains: the caller must fix up last.
    method FreeTrailingEmpty() returns (ch: Link)
      requires Valid()
      modifies `first, `chains, arena
      ensures arena.Valid()
      ensures chains == if old(totalLen) == 0 then [] else old(chains)
      ensures arena.mem == if old(totalLen) == 0 then Rest(old(arena.mem), old(chains)) else old(arena.mem)
      ensures first == ChainAt(chains, 0, NULL) && ch == LinkTo(|chains|)
    {
      hide Queue, Joined, Rest;
      QueueEnds(arena.mem, chains, first, last, totalLen);
      QueueList(arena.mem, chains, first, last, totalLen);
      ch := FindVictim();
      var victim := Deref(ch);
      EmptyPrefix(arena.mem, chains);
      if victim != NULL {
        FreeAllChains(arena, victim, chains);
        first := NULL;
        chains := [];
      }
    }

    // advance_last_with_data
    method AdvanceLastWithData(ghost j: nat)
      requires List(arena.mem, chains, NULL) && first == ChainAt(chains, 0, NULL)
      requires forall i :: 0 <= i < |chains| ==> arena.mem[chains[i]].off > 0
      requires j < |chains| && lastWithDatap == LinkTo(j)
      modifies `lastWithDatap
      ensures lastWithDatap == LinkTo(|chains| - 1)
    {
      ghost var i := j;
      while arena.mem[Deref(lastWithDatap)].next != NULL
            && arena.mem[arena.mem[Deref(lastWithDatap)].next].off != 0
        invariant j <= i < |chains| && lastWithDatap == LinkTo(i)
        invariant Deref(lastWithDatap) == chains[i]
        decreases |chains| - i
      {
        lastWithDatap := NextOf(Deref(lastWithDatap));
        i := i + 1;
      }
    }

    // The first loop of evbuffer_remove_buffer: find the chains that move as they are.
    method FindSplit(datlen: nat) returns (chain: Addr, previous: Addr, nread: nat, left: nat, ghost k: nat)
      requires Valid() && datlen < totalLen
      modifies `lastWithDatap
      ensures k < |chains| && chain == chains[k] && chain in arena.mem && left < arena.mem[chain].off
      ensures nread == |Joined(arena.mem, chains[..k])| && nread + left == datlen
      ensures k > 0 ==> previous == chains[k - 1]
      ensures nread == 0 <==> k == 0
      ensures lastWithDatap == if k < |chains| - 1 then LinkTo(|chains| - 1) else FirstOf(this)
    {
      hide Queue, Joined, Rest;
      chain, previous, nread, left, k := first, first, 0, datlen, 0;
      EmptyPrefix(arena.mem, chains);
      QueueEnds(arena.mem, chains, first, last, totalLen);
      while arena.mem[chain].off <= left
        invariant k < |chains| && chain == chains[k] && chain in arena.mem
        invariant nread == |Joined(arena.mem, chains[..k])| && nread + left == datlen
        invariant k > 0 ==> previous == chains[k - 1]
        invariant nread == 0 <==> k == 0
        invariant lastWithDatap == if k < |chains| - 1 then LinkTo(|chains| - 1) else FirstOf(this)
        decreases |chains| - k
      {
        DrainStep(arena.mem, chains, first, last, totalLen, k, datlen);
        nread := nread + arena.mem[chain].off;
        left := left - arena.mem[chain].off;
        previous := chain;
        if lastWithDatap == NextOf(chain) {
          lastWithDatap := FirstOf(this);
        }
        chain := arena.mem[chain].next;
        k := k + 1;
      }
    }

    // The relinking of evbuffer_remove_buffer: the first k chains move to dst, whose
    // list ends at the address chp. Both totalLen fields are settled by the caller.
    method Relink(dst: EvBuffer, chp: Link, chain: Addr, previous: Addr, nread: nat, ghost k: nat,
                  ghost last': Addr, ghost total': nat)
      requires arena.Valid() && Queue(arena.mem, chains, first, last, totalLen) && Apart(dst)
      requires 0 < k < |chains| && chain == chains[k] && previous == chains[k - 1]
      requires nread == |Joined(arena.mem, chains[..k])| && chain in arena.mem
      requires Queue(arena.mem, dst.chains, dst.first, last', total') && total' + totalLen <= SIZE_MAX
      requires dst.first == NULL <==> dst.chains == []
      requires dst.chains != [] ==> total' > 0 && dst.last == last'
      requires chp == dst.LinkTo(|dst.chains|)
      modifies `first, `chains, dst`first, dst`last, dst`chains, arena
      ensures arena.Valid() && Apart(dst)
      ensures 0 < nread <= totalLen && Queue(arena.mem, chains, chain, last, totalLen - nread)
      ensures chain in arena.mem && arena.mem[chain].off == old(arena.mem[chain].off)
      ensures first == chain && chains == old(chains)[k..] && dst.chains == old(dst.chains) + old(chains)[..k]
      ensures Queue(arena.mem, dst.chains, dst.first, dst.last, total' + nread)
      ensures Contents() == old(Contents())[nread..]
      ensures dst.Contents() == old(dst.Contents()) + old(Contents())[..nread]
      ensures Rest(arena.mem, chains + dst.chains) == old(Rest(arena.mem, chains + dst.chains))
    {
      hide Queue, Joined, Rest;
      ghost var cs, es, m := chains, dst.chains, arena.mem;
      QueueEnds(m, es, dst.first, last', total');
      RelinkQueues(m, cs, first, last, totalLen, k, es, dst.first, last', total', nread);
      if dst.first == NULL {
        dst.first := first;
      } else {
        match chp {
          case NextOf(c) => arena.SetNext(c, first);
          case FirstOf(b) => assert false;
          case NullLink => assert false;
        }
      }
      dst.last := previous;
      arena.SetNext(previous, NULL);
      first := chain;
      chains := cs[k..];
      dst.chains := es + cs[..k];
    }

    // The relinking of evbuffer_remove_buffer: the first k chains move to the end of
    // dst. The source's totalLen is settled by the caller.
    method MoveFront(dst: EvBuffer, chain: Addr, previous: Addr, nread: nat, ghost k: nat)
      requires arena.Valid() && Queue(arena.mem, chains, first, last, totalLen)
      requires dst.Valid() && Apart(dst) && totalLen + dst.totalLen <= SIZE_MAX
      requires 0 < k < |chains| && chain == chains[k] && previous == chains[k - 1]
      requires nread == |Joined(arena.mem, chains[..k])| && chain in arena.mem
      modifies `first, `chains, dst, arena
      ensures arena.Valid() && dst.Valid() && Apart(dst)
      ensures nread <= totalLen && Queue(arena.mem, chains, chain, last, totalLen - nread)
      ensures first == chain && chains == old(chains)[k..]
      ensures chain in arena.mem && arena.mem[chain].off == old(arena.mem[chain].off)
      ensures Contents() == old(Contents())[nread..]
      ensures dst.Contents() == old(dst.Contents()) + old(Contents())[..nread]
      ensures dst.totalLen == old(dst.totalLen) + nread
      ensures dst.nAddForCb == old(dst.nAddForCb) + nread && dst.nDelForCb == old(dst.nDelForCb)
      ensures dst.freezeStart == old(dst.freezeStart) && dst.freezeEnd == old(dst.freezeEnd)
      ensures Rest(arena.mem, chains + dst.chains) == old(Rest(arena.mem, chains + dst.chains))
    {
      hide Queue, Joined, Rest;
      ghost var cs, es, m := chains, dst.chains, arena.mem;
      QueueEnds(m, es, dst.first, dst.last, dst.totalLen);
      QueueEnds(m, cs, first, last, totalLen);
      ghost var last', total' := if dst.totalLen == 0 then NULL else dst.last, dst.totalLen;
      var chp := dst.FreeTrailingEmpty();
      TrimmedDst(m, es, cs, first, last, totalLen, arena.mem, dst.chains, dst.first, dst.last, total');
      ghost var j := if dst.chains == [] then 0 else |dst.chains| - 1;
      Relink(dst, chp, chain, previous, nread, k, last', total');
      dst.Settle(nread, j);
    }

    // The destination's counters and lastWithDatap after a relinking.
    method Settle(nread: nat, ghost j: nat)
      requires arena.Valid() && Queue(arena.mem, chains, first, last, totalLen + nread) && nread > 0
      requires j < |chains| && lastWithDatap == LinkTo(j)
      modifies `totalLen, `nAddForCb, `lastWithDatap
      ensures Valid() && totalLen == old(totalLen) + nread && nAddForCb == old(nAddForCb) + nread
    {
      hide Queue;
      totalLen := totalLen + nread;
      nAddForCb := nAddForCb + nread;
      QueueFull(arena.mem, chains, first, last, totalLen);
      AdvanceLastWithData(j);
    }

    // The tail of evbuffer_remove_buffer: copy the n bytes still wanted out of the first
    // chain, which keeps some.
    method CopyRest(dst: EvBuffer, n: nat, total: nat)
      requires arena.Valid() && Queue(arena.mem, chains, first, last, total)
      requires dst.Valid() && Apart(dst) && !dst.freezeEnd
      requires chains != [] && first in arena.mem && n < arena.mem[first].off
      requires total + dst.totalLen <= SIZE_MAX
      modifies dst, arena
      ensures arena.Valid() && dst.Valid() && Apart(dst)
      ensures n <= total && Queue(arena.mem, chains, first, last, total - n)
      ensures Contents() == old(Contents())[n..]
      ensures dst.Contents() == old(dst.Contents()) + old(Contents())[..n]
      ensures dst.nAddForCb == old(dst.nAddForCb) + n && dst.nDelForCb == old(dst.nDelForCb)
      ensures dst.freezeStart == old(dst.freezeStart) && dst.freezeEnd == old(dst.freezeEnd)
      ensures Rest(arena.mem, chains + dst.chains) == old(Rest(arena.mem, chains + dst.chains))
    {
      hide Queue, Joined, Rest;
      ghost var m, es := arena.mem, dst.chains;
      QueueEnds(m, chains, first, last, total);
      FirstPiece(m, chains, first, last, total, n);
      var r := dst.Add(arena.mem[first].Data()[..n]);
      OtherKept(m, es, arena.mem, dst.chains, chains);
      QueueSame(m, arena.mem, chains, first, last, total);
      ghost var m1 := arena.mem;
      arena.DropBytes(first, n);
      TrimQueue(m1, chains, first, last, total, arena.mem[first], n);
      QueueSame(m1, arena.mem, dst.chains, dst.first, dst.last, dst.totalLen);
      RestUpdate(m1, first, arena.mem[first], chains + dst.chains);
    }

    // evbuffer_remove_buffer: move the first datlen bytes of this buffer to the end of
    // that one. The count is returned through an int.
    method RemoveBuffer(that: EvBuffer, datlen: nat) returns (result: int)
      requires Valid() && that.Valid() && (that == this || Apart(that))
      requires that != this ==> totalLen + that.totalLen <= SIZE_MAX
      modifies this, that, arena
      ensures Valid() && that.Valid() && (that == this || Apart(that))
      ensures Rest(arena.mem, chains + that.chains) == old(Rest(arena.mem, chains + that.chains))
      ensures freezeStart == old(freezeStart) && freezeEnd == old(freezeEnd)
      ensures that.freezeStart == old(that.freezeStart) && that.freezeEnd == old(that.freezeEnd)
      ensures var n := Min(datlen, old(totalLen));
        if datlen == 0 || that == this then
          result == 0 && Contents() == old(Contents()) && that.Contents() == old(that.Contents())
        else if that.freezeEnd || freezeStart then
          result == -1 && Contents() == old(Contents()) && that.Contents() == old(that.Contents())
        else
          result == AsInt32(n) && Contents() == old(Contents())[n..]
          && that.Contents() == old(that.Contents()) + old(Contents())[..n]
      ensures nDelForCb == old(nDelForCb) + old(totalLen) - totalLen
      ensures that != this ==> nAddForCb == old(nAddForCb)
      ensures that.nAddForCb == old(that.nAddForCb) + that.totalLen - old(that.totalLen)
      ensures that != this ==> that.nDelForCb == old(that.nDelForCb)
    {
      hide Queue, Joined, Rest;
      ghost var m, cs, es := arena.mem, chains, that.chains;
      QueueEnds(m, cs, first, last, totalLen);
      QueueEnds(m, es, that.first, that.last, that.totalLen);
      if datlen == 0 || that == this {
        return 0;
      }
      if that.freezeEnd || freezeStart {
        return -1;
      }
      if datlen >= totalLen {
        var n := totalLen;
        RestSwap(m, cs, es);
        var r := that.AddBuffer(this);
        RestSwap(arena.mem, chains, that.chains);
        QueueEnds(arena.mem, that.chains, that.first, that.last, that.totalLen);
        return AsInt32(n);
      }
      MovePart(that, datlen);
      result := AsInt32(datlen);
    }

    // Less than the whole content: whole chains are relinked, the rest is copied.
    method MovePart(that: EvBuffer, datlen: nat)
      requires Valid() && that.Valid() && Apart(that) && 0 < datlen < totalLen && totalLen + that.totalLen <= SIZE_MAX
      requires !that.freezeEnd && !freezeStart
      modifies this, that, arena
      ensures Valid() && that.Valid() && Apart(that)
      ensures Rest(arena.mem, chains + that.chains) == old(Rest(arena.mem, chains + that.chains))
      ensures freezeStart == old(freezeStart) && freezeEnd == old(freezeEnd)
      ensures that.freezeStart == old(that.freezeStart) && that.freezeEnd == old(that.freezeEnd)
      ensures Contents() == old(Contents())[datlen..]
      ensures that.Contents() == old(that.Contents()) + old(Contents())[..datlen]
      ensures totalLen == old(totalLen) - datlen && that.totalLen == old(that.totalLen) + datlen
      ensures nDelForCb == old(nDelForCb) + datlen && nAddForCb == old(nAddForCb)
      ensures that.nAddForCb == old(that.nAddForCb) + datlen && that.nDelForCb == old(that.nDelForCb)
    {
      hide Queue, Joined, Rest;
      QueueLength(arena.mem, chains, first, last, totalLen);
      QueueLength(arena.mem, that.chains, that.first, that.last, that.totalLen);
      var chain, previous, nread, left, k := FindSplit(datlen);
      MoveChains(that, chain, previous, nread, k);
      CopyRest(that, left, totalLen - nread);
      MovedBytes(old(Contents()), nread, left, old(that.Contents()));
      Deduct(nread + left);
      QueueLength(arena.mem, that.chains, that.first, that.last, that.totalLen);
    }

    // Counts the bytes that have left the list.
    method Deduct(n: nat)
      requires arena.Valid() && n <= totalLen && Queue(arena.mem, chains, first, last, totalLen - n)
      requires lastWithDatap == LinkTo(if chains == [] then 0 else |chains| - 1)
      modifies `totalLen, `nDelForCb
      ensures Valid() && totalLen == old(totalLen) - n && nDelForCb == old(nDelForCb) + n
    {
      hide Queue;
      totalLen := totalLen - n;
      nDelForCb := nDelForCb + n;
    }

    // The first k chains, if any.
    method MoveChains(dst: EvBuffer, chain: Addr, previous: Addr, nread: nat, ghost k: nat)
      requires arena.Valid() && Queue(arena.mem, chains, first, last, totalLen)
      requires dst.Valid() && Apart(dst) && totalLen + dst.totalLen <= SIZE_MAX
      requires k < |chains| && chain == chains[k] && (k > 0 ==> previous == chains[k - 1]) && (nread == 0 <==> k == 0)
      requires lastWithDatap == if k < |chains| - 1 then LinkTo(|chains| - 1) else FirstOf(this)
      requires nread == |Joined(arena.mem, chains[..k])| && chain in arena.mem
      modifies `first, `chains, dst, arena
      ensures arena.Valid() && dst.Valid() && Apart(dst)
      ensures nread <= totalLen && Queue(arena.mem, chains, chain, last, totalLen - nread)
      ensures lastWithDatap == LinkTo(|chains| - 1)
      ensures first == chain && chains == old(chains)[k..]
      ensures chain in arena.mem && arena.mem[chain].off == old(arena.mem[chain].off)
      ensures Contents() == old(Contents())[nread..]
      ensures dst.Contents() == old(dst.Contents()) + old(Contents())[..nread]
      ensures dst.totalLen == old(dst.totalLen) + nread
      ensures dst.nAddForCb == old(dst.nAddForCb) + nread && dst.nDelForCb == old(dst.nDelForCb)
      ensures dst.freezeStart == old(dst.freezeStart) && dst.freezeEnd == old(dst.freezeEnd)
      ensures Rest(arena.mem, chains + dst.chains) == old(Rest(arena.mem, chains + dst.chains))
    {
      hide Queue, Joined, Rest;
      QueueEnds(arena.mem, chains, first, last, totalLen);
      if nread != 0 {
        MoveFront(dst, chain, previous, nread, k);
        assert |chains| > 1 ==> chains[|chains| - 2] == old(chains)[|old(chains)| - 2];
      }
    }

    // The copying loop of evbuffer_pullup: append to tmp, then free, every chain that
    // fits entirely into the bytes still wanted. (off grows with each copy here; the
    // source sets it to its final value before the loop.)
    method PullChains(tmp: Addr, chain0: Addr, left0: nat, lastWithData: Addr,
                      ghost m: Memory, ghost j: nat)
      returns (chain: Addr, left: nat, removedLast: bool, removedLastp: bool, ghost k: nat)
      requires arena.Valid() && Queue(m, chains, ChainAt(chains, 0, NULL), last, totalLen) && |chains| > 1
      requires j < |chains| && Pulling(m, chains, arena.mem, tmp, j)
      requires chain0 == chains[j] && lastWithData == last && lastWithDatap == LinkTo(|chains| - 1)
      requires left0 <= arena.mem[tmp].Space() && |Joined(m, chains[..j])| + left0 <= totalLen
      modifies arena
      ensures arena.Valid() && j <= k <= |chains| && chain == ChainAt(chains, k, NULL)
      ensures Pulling(m, chains, arena.mem, tmp, k)
      ensures |Joined(m, chains[..k])| + left == |Joined(m, chains[..j])| + left0
      ensures k < |chains| ==> chain in arena.mem && left < arena.mem[chain].off
      ensures left <= arena.mem[tmp].Space()
      ensures removedLast <==> k == |chains|
      ensures removedLastp <==> j < |chains| - 1 <= k
    {
      hide Queue, Joined, Rest;
      chain, left, removedLast, removedLastp, k := chain0, left0, false, false, j;
      PullFacts(m, chains, last, totalLen, arena.mem, tmp, k);
      while chain != NULL && left >= arena.mem[chain].off
        invariant arena.Valid() && j <= k <= |chains| && chain == ChainAt(chains, k, NULL)
        invariant Pulling(m, chains, arena.mem, tmp, k)
        invariant |Joined(m, chains[..k])| + left == |Joined(m, chains[..j])| + left0
        invariant left <= arena.mem[tmp].Space()
        invariant removedLast <==> k == |chains|
        invariant removedLastp <==> j < |chains| - 1 <= k
        invariant chain == NULL <==> k == |chains|
        invariant k < |chains| ==> chain in arena.mem
        decreases |chains| - k
      {
        var size := arena.mem[chain].off;
        removedLast := removedLast || chain == lastWithData;
        removedLastp := removedLastp || NextOf(chain) == lastWithDatap;
        chain := PullOne(tmp, chain, m, k);
        left := left - size;
        k := k + 1;
      }
    }

    // One chain is copied behind tmp and freed.
    method PullOne(tmp: Addr, chain: Addr, ghost m: Memory, ghost k: nat) returns (next: Addr)
      requires arena.Valid() && Queue(m, chains, ChainAt(chains, 0, NULL), last, totalLen) && |chains| > 1
      requires k < |chains| && Pulling(m, chains, arena.mem, tmp, k) && chain == chains[k] && chain in arena.mem
      requires arena.mem[chain].off <= arena.mem[tmp].Space()
      modifies arena
      ensures arena.Valid() && Pulling(m, chains, arena.mem, tmp, k + 1) && next == ChainAt(chains, k + 1, NULL)
      ensures |Joined(m, chains[..k + 1])| == |Joined(m, chains[..k])| + old(arena.mem)[chain].off
      ensures arena.mem[tmp].Space() == old(arena.mem)[tmp].Space() - old(arena.mem)[chain].off
      ensures k + 1 < |chains| ==> next in arena.mem
      ensures next == NULL <==> k + 1 == |chains|
      ensures chain == last <==> k + 1 == |chains|
      ensures forall j :: 0 <= j < |chains| && j != k ==> chains[j] != chain
    {
      hide Queue, Joined, Rest;
      PullFacts(m, chains, last, totalLen, arena.mem, tmp, k);
      next := arena.mem[chain].next;
      ghost var m1 := arena.mem;
      arena.AppendBytes(tmp, arena.mem[chain].Data());
      arena.ChainFree(chain);
      PullStep(m, chains, last, totalLen, m1, tmp, k, arena.mem);
      PullFacts(m, chains, last, totalLen, arena.mem, tmp, k + 1);
    }

    // evbuffer_pullup: make the first size bytes (all of them for a negative size) lie in
    // one chain, and return that chain; NULL if there are not that many.
    method Pullup(size: int) returns (result: Addr)
      requires Valid()
      modifies this, arena
      ensures Valid() && Contents() == old(Contents()) && totalLen == old(totalLen)
      ensures var n := if size < 0 then totalLen else size;
        && (result != NULL <==> 0 < n <= totalLen && n <= MAX_CAPACITY)
        && (result != NULL ==>
              && result == first && result in arena.mem && n <= arena.mem[result].off
              && arena.mem[result].Data()[..n] == Contents()[..n])
      ensures nAddForCb == old(nAddForCb) && nDelForCb == old(nDelForCb)
      ensures Rest(arena.mem, chains) == old(Rest(arena.mem, chains))
      ensures freezeStart == old(freezeStart) && freezeEnd == old(freezeEnd)
    {
      hide Queue, Joined, Rest;
      QueueEnds(arena.mem, chains, first, last, totalLen);
      var n := if size < 0 then totalLen else size;
      if n == 0 || n > totalLen {
        return NULL;
      }
      FirstPieceAll(arena.mem, chains, first, last, totalLen);
      if arena.mem[first].off >= n {
        return first;
      }
      var c := arena.mem[first];
      if |c.buffer| - c.misalign >= n {
        PullInto(n);
        result := first;
      } else {
        result := PullIntoNew(n);
      }
    }

    // The case where the first chain has room for all n bytes.
    method PullInto(n: nat)
      requires Valid() && |chains| > 1 && first in arena.mem && n <= totalLen
      requires arena.mem[first].off < n <= |arena.mem[first].buffer| - arena.mem[first].misalign
      modifies this, arena
      ensures Valid() && Contents() == old(Contents()) && totalLen == old(totalLen)
      ensures first in arena.mem && arena.mem[first].Ok()
      ensures n <= arena.mem[first].off && arena.mem[first].Data()[..n] == Contents()[..n]
      ensures nAddForCb == old(nAddForCb) && nDelForCb == old(nDelForCb)
      ensures Rest(arena.mem, chains) == old(Rest(arena.mem, chains))
      ensures freezeStart == old(freezeStart) && freezeEnd == old(freezeEnd)
    {
      hide Queue, Joined, Rest;
      ghost var m, cs := arena.mem, chains;
      var tmp := first;
      var chain, left := arena.mem[first].next, n - arena.mem[first].off;
      PullStart(m, cs, first, last, totalLen);
      var lastWithData := Deref(lastWithDatap);
      PullRest(tmp, chain, left, lastWithData, n, m, 1);
    }

    // The case where a new chain is needed.
    method PullIntoNew(n: nat) returns (result: Addr)
      requires Valid() && |chains| > 1 && 0 < n <= totalLen
      modifies this, arena
      ensures Valid() && Contents() == old(Contents()) && totalLen == old(totalLen)
      ensures result != NULL <==> n <= MAX_CAPACITY
      ensures result != NULL ==>
        && result == first && first in arena.mem && arena.mem[first].Ok()
        && n <= arena.mem[first].off && arena.mem[first].Data()[..n] == Contents()[..n]
      ensures nAddForCb == old(nAddForCb) && nDelForCb == old(nDelForCb)
      ensures Rest(arena.mem, chains) == old(Rest(arena.mem, chains))
      ensures freezeStart == old(freezeStart) && freezeEnd == old(freezeEnd)
    {
      hide Queue, Joined, Rest;
      ghost var m, cs := arena.mem, chains;
      var chain := first;
      PullStart(m, cs, first, last, totalLen);
      var tmp := arena.ChainNew(n);
      if tmp == NULL {
        return NULL;
      }
      PullStartNew(m, cs, first, last, totalLen, tmp, arena.mem);
      first := tmp;
      var lastWithData := Deref(lastWithDatap);
      PullRest(tmp, chain, n, lastWithData, n, m, 0);
      result := tmp;
    }

    // The end of the copying: the bytes still wanted from the next chain, and tmp at the
    // head of what is left.
    method PullLink(tmp: Addr, chain: Addr, left: nat, ghost m: Memory, ghost k: nat)
      requires arena.Valid() && Queue(m, chains, ChainAt(chains, 0, NULL), last, totalLen) && |chains| > 1
      requires Pulling(m, chains, arena.mem, tmp, k) && chain == ChainAt(chains, k, NULL)
      requires left <= arena.mem[tmp].Space() && 0 < |Joined(m, chains[..k])| + left <= totalLen
      requires k < |chains| ==> chain in arena.mem && left < arena.mem[chain].off
      requires k == |chains| ==> left == 0
      modifies `last, `chains, arena
      ensures arena.Valid() && chains == [tmp] + old(chains)[k..]
      ensures Queue(arena.mem, chains, tmp, last, totalLen) && Joined(arena.mem, chains) == Joined(m, old(chains))
      ensures Rest(arena.mem, chains) == Rest(m, old(chains))
      ensures last == if k < |old(chains)| then old(last) else tmp
      ensures tmp in arena.mem && arena.mem[tmp].Ok() && arena.mem[tmp].next == chain
      ensures arena.mem[tmp].off == |Joined(m, old(chains)[..k])| + left
      ensures arena.mem[tmp].Data() <= Joined(m, old(chains))
      ensures k < |old(chains)| ==> chain in arena.mem && arena.mem[chain].off > 0
    {
      hide Queue, Joined, Rest;
      ghost var cs, m1 := chains, arena.mem;
      PullFacts(m, cs, last, totalLen, arena.mem, tmp, k);
      if chain != NULL {
        arena.AppendBytes(tmp, arena.mem[chain].Data()[..left]);
        arena.DropBytes(chain, left);
      } else {
        last := tmp;
      }
      arena.SetNext(tmp, chain);
      PullFinish(m, cs, old(last), totalLen, m1, tmp, k, left, arena.mem);
      chains := [tmp] + cs[k..];
    }

    // evbuffer_pullup from its copying loop on: pull left more bytes into tmp, then put
    // tmp in front of what remains and repair last and lastWithDatap.
    method PullRest(tmp: Addr, chain0: Addr, left0: nat, lastWithData: Addr, n: nat, ghost m: Memory, ghost j: nat)
      requires arena.Valid() && Queue(m, chains, ChainAt(chains, 0, NULL), last, totalLen) && |chains| > 1
      requires j < |chains| && Pulling(m, chains, arena.mem, tmp, j) && first == tmp
      requires chain0 == chains[j] && lastWithData == last && lastWithDatap == LinkTo(|chains| - 1)
      requires left0 <= arena.mem[tmp].Space() && |Joined(m, chains[..j])| + left0 == n <= totalLen
      requires j == (if tmp in m then 1 else 0) && n > 0
      modifies this, arena
      ensures Valid() && Contents() == Joined(m, old(chains)) && totalLen == old(totalLen)
      ensures first == tmp && tmp in arena.mem && arena.mem[tmp].Ok()
      ensures n <= arena.mem[tmp].off && arena.mem[tmp].Data()[..n] == Contents()[..n]
      ensures nAddForCb == old(nAddForCb) && nDelForCb == old(nDelForCb)
      ensures Rest(arena.mem, chains) == Rest(m, old(chains))
      ensures freezeStart == old(freezeStart) && freezeEnd == old(freezeEnd)
    {
      hide Queue, Joined, Rest;
      ghost var cs := chains;
      var chain, left, removedLast, removedLastp, k := PullChains(tmp, chain0, left0, lastWithData, m, j);
      PullFacts(m, cs, last, totalLen, arena.mem, tmp, k);
      PullLink(tmp, chain, left, m, k);
      if removedLast {
        lastWithDatap := FirstOf(this);
      } else if removedLastp {
        var next := arena.mem[first].next;
        if next != NULL && arena.mem[next].off != 0 {
          lastWithDatap := NextOf(first);
        } else {
          lastWithDatap := FirstOf(this);
        }
      }
    }
  }
}
