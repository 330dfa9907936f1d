// The RC4 generator of arc4random.c and its bounded draw. The platform's entropy, the
// process id and the number of tries a draw is given are inputs.
module Arc4 {
  import opened Bytes

  const WORDS: nat := TWO32

  // struct arc4_stream
  datatype Cipher = Cipher(i: byte, j: byte, s: seq<byte>)

  function Wrap(x: int): byte
  {
    (x % 256) as byte
  }

  lemma WrapSum(x: int, y: int)
    ensures Wrap(Wrap(x) as int + y) == Wrap(x + y)
  {
    var q := x / 256;
    assert Wrap(x) as int == x - 256 * q;
  }

  lemma WrapUndo(x: byte, y: int)
    ensures Wrap(Wrap(x as int + y) as int - y) == x
  {
    WrapSum(x as int + y, -y);
  }

  lemma WrapLap(x: int)
    ensures Wrap(x + 256) == Wrap(x)
  {
  }

  function Swap(s: seq<byte>, i: byte, j: byte): (s': seq<byte>)
    requires |s| == 256
    ensures |s'| == 256
  {
    s[i := s[j]][j := s[i]]
  }

  predicate IsPermutation(s: seq<byte>)
  {
    |s| == 256 && Distinct(s)
  }

  predicate Distinct(s: seq<byte>)
  {
    forall a, b :: 0 <= a < b < |s| ==> s[a] != s[b]
  }

  lemma {:induction false} DistinctCount(s: seq<byte>)
    requires Distinct(s)
    ensures |set x | x in s| == |s|
  {
    if s != [] {
      var n := |s| - 1;
      DistinctCount(s[..n]);
      assert s == s[..n] + [s[n]];
      assert (set x | x in s) == (set x | x in s[..n]) + {s[n]};
    }
  }

  function AllBytes(n: nat): (r: set<byte>)
    requires n <= 256
    ensures |r| == n && forall x: byte :: x in r <==> (x as nat) < n
  {
    if n == 0 then {} else AllBytes(n - 1) + {(n - 1) as byte}
  }

  lemma {:induction false} SubsetSize(a: set<byte>, b: set<byte>)
    requires a <= b && |a| == |b|
    ensures a == b
  {
    if a != {} {
      var x :| x in a;
      SubsetSize(a - {x}, b - {x});
    }
  }

  // A permutation reaches every byte.
  lemma Onto(s: seq<byte>, v: byte)
    requires IsPermutation(s)
    ensures v in s
  {
    DistinctCount(s);
    var all := set x | x in s;
    SubsetSize(all, AllBytes(256));
    assert v in all;
  }

  // One round of the cipher, with d mixed into j.
  function Advance(c: Cipher, d: byte): (c': Cipher)
    requires |c.s| == 256
    ensures |c'.s| == 256
  {
    var i := Wrap(c.i as int + 1);
    var j := Wrap(c.j as int + (c.s[i] as int + d as int));
    Cipher(i, j, Swap(c.s, i, j))
  }

  // The round undone.
  function Retreat(c: Cipher, d: byte): (c': Cipher)
    requires |c.s| == 256
    ensures |c'.s| == 256
  {
    var s := Swap(c.s, c.i, c.j);
    Cipher(Wrap(c.i as int - 1), Wrap(c.j as int - (s[c.i] as int + d as int)), s)
  }

  lemma AdvanceKeeps(c: Cipher, d: byte)
    requires IsPermutation(c.s)
    ensures IsPermutation(Advance(c, d).s)
  {
    hide Wrap;
    var s' := Advance(c, d);
    var i, j := s'.i as int, s'.j as int;
    assert forall k :: 0 <= k < 256 ==> s'.s[k] == c.s[if k == j then i else if k == i then j else k];
  }

  // Every round is a bijection of cipher states.
  lemma Reversible(c: Cipher, d: byte)
    requires |c.s| == 256
    ensures Retreat(Advance(c, d), d) == c
    ensures Advance(Retreat(c, d), d) == c
  {
    hide Wrap;
    var a := Advance(c, d);
    assert Swap(a.s, a.i, a.j) == c.s;
    WrapUndo(c.i, 1);
    WrapUndo(c.j, c.s[a.i] as int + d as int);
    var r := Retreat(c, d);
    WrapUndo(c.i, -1);
    WrapUndo(c.j, -(r.s[c.i] as int + d as int));
    assert Swap(r.s, c.i, c.j) == c.s;
  }

  // The byte arc4_getbyte returns after its round.
  function Output(c: Cipher): byte
    requires |c.s| == 256
  {
    c.s[Wrap(c.s[c.i] as int + c.s[c.j] as int)]
  }

  // One round: i goes on by one, j by the entry at i and the byte mixed in, these two entries
  // change places, and the output stands at their sum.
  lemma RoundIs(c: Cipher, d: byte)
    requires |c.s| == 256
    ensures var i := (c.i as int + 1) % 256; var j := (c.j as int + c.s[i] as int + d as int) % 256;
      var c' := Advance(c, d);
      && c'.i as int == i && c'.j as int == j && c'.s[i] == c.s[j] && c'.s[j] == c.s[i]
      && (forall k :: 0 <= k < 256 && k != i && k != j ==> c'.s[k] == c.s[k])
      && Output(c') == c'.s[(c.s[i] as int + c.s[j] as int) % 256]
  {
  }

  // ---- Runs ---------------------------------------------------------------------------

  function Forward(c: Cipher, n: nat): (c': Cipher)
    requires |c.s| == 256
    ensures |c'.s| == 256
  {
    if n == 0 then c else Advance(Forward(c, n - 1), 0)
  }

  // Different states never fall together, however many bytes are drawn.
  lemma {:induction false} NeverMerge(a: Cipher, b: Cipher, n: nat)
    requires |a.s| == |b.s| == 256 && Forward(a, n) == Forward(b, n)
    ensures a == b
  {
    if n > 0 {
      Reversible(Forward(a, n - 1), 0);
      Reversible(Forward(b, n - 1), 0);
      NeverMerge(a, b, n - 1);
    }
  }

  // n rounds of arc4_addrandom.
  function Rounds(c: Cipher, dat: seq<byte>, n: nat): (c': Cipher)
    requires |c.s| == 256 && dat != []
    ensures |c'.s| == 256
  {
    if n == 0 then c else Advance(Rounds(c, dat, n - 1), dat[(n - 1) % |dat|])
  }

  function Mixed(c: Cipher, dat: seq<byte>): (c': Cipher)
    requires |c.s| == 256 && dat != []
    ensures |c'.s| == 256
  {
    var c' := Rounds(c.(i := Wrap(c.i as int - 1)), dat, 256);
    c'.(j := c'.i)
  }

  lemma {:induction false} RoundsKeep(c: Cipher, dat: seq<byte>, n: nat)
    requires IsPermutation(c.s) && dat != []
    ensures IsPermutation(Rounds(c, dat, n).s)
    ensures Rounds(c, dat, n).i == Wrap(c.i as int + n)
  {
    hide Wrap, Distinct;
    if n == 0 {
      WrapUndo(c.i, 0);
      WrapSum(c.i as int, 0);
    } else {
      RoundsKeep(c, dat, n - 1);
      WrapSum(c.i as int + n - 1, 1);
      AdvanceKeeps(Rounds(c, dat, n - 1), dat[(n - 1) % |dat|]);
    }
  }

  lemma MixKeeps(c: Cipher, dat: seq<byte>)
    requires IsPermutation(c.s) && dat != []
    ensures IsPermutation(Mixed(c, dat).s) && Mixed(c, dat).i == Wrap(c.i as int - 1)
  {
    hide Wrap, Distinct;
    var i := Wrap(c.i as int - 1);
    RoundsKeep(c.(i := i), dat, 256);
    WrapLap(i as int);
    WrapUndo(i, 0);
    WrapSum(i as int, 0);
  }

  // What can be done to an initialised generator.
  datatype Op = GetByte | AddRandom(dat: seq<byte>)

  predicate Sensible(ops: seq<Op>)
  {
    forall o <- ops :: o.AddRandom? ==> o.dat != []
  }

  function Run(c: Cipher, ops: seq<Op>): (c': Cipher)
    requires |c.s| == 256 && Sensible(ops)
    ensures |c'.s| == 256
    decreases |ops|
  {
    if ops == [] then c
    else
      var n := |ops| - 1;
      var c' := Run(c, ops[..n]);
      if ops[n].GetByte? then Advance(c', 0) else Mixed(c', ops[n].dat)
  }

  function Initial(): (c: Cipher)
    ensures IsPermutation(c.s) && c.i == 0
  {
    Cipher(0, 0, seq(256, n requires 0 <= n < 256 => n as byte))
  }

  // Whatever is drawn and mixed in, the table is a permutation, and i tells how many
  // bytes were drawn less how often data was mixed in.
  lemma {:induction false} RunKeeps(ops: seq<Op>)
    requires Sensible(ops)
    ensures IsPermutation(Run(Initial(), ops).s)
    ensures Run(Initial(), ops).i == Wrap(2 * Drawn(ops) - |ops|)
    decreases |ops|
  {
    hide Wrap, Distinct, Mixed, Initial;
    WrapUndo(0, 0);
    WrapSum(0, 0);
    var c := Initial();
    if ops != [] {
      var n := |ops| - 1;
      RunKeeps(ops[..n]);
      OneMore(Run(c, ops[..n]), ops[n], 2 * Drawn(ops[..n]) - n);
    }
  }

  lemma OneMore(c: Cipher, op: Op, x: int)
    requires IsPermutation(c.s) && c.i == Wrap(x) && (op.AddRandom? ==> op.dat != [])
    ensures var c' := if op.GetByte? then Advance(c, 0) else Mixed(c, op.dat);
      IsPermutation(c'.s) && c'.i == Wrap(x + if op.GetByte? then 1 else -1)
  {
    hide Wrap, Distinct, Mixed;
    if op.GetByte? {
      AdvanceKeeps(c, 0);
      WrapSum(x, 1);
    } else {
      MixKeeps(c, op.dat);
      WrapSum(x, -1);
    }
  }

  function Drawn(ops: seq<Op>): (n: nat)
    ensures n <= |ops|
  {
    if ops == [] then 0 else Drawn(ops[..|ops| - 1]) + if ops[|ops| - 1].GetByte? then 1 else 0
  }

  // ---- The generator -------------------------------------------------------------------

  class Stream {
    var i: byte
    var j: byte
    const s: array<byte>
    var initialized: bool
    var seededOk: bool
    var count: int
    var stirPid: int

    ghost predicate Valid()
      reads this, s
    {
      s.Length == 256 && (initialized ==> IsPermutation(s[..]))
    }

    ghost function Abs(): Cipher
      reads this, s
    {
      Cipher(i, j, s[..])
    }

    ghost function State(): Generator
      reads this, s
    {
      Generator(Abs(), initialized, seededOk, count, stirPid)
    }

    constructor ()
      ensures Valid() && !initialized && !seededOk && fresh(s)
    {
      s := new byte[256](_ => 0);
      i, j, initialized, seededOk, count, stirPid := 0, 0, false, false, 0, 0;
    }

    // arc4_init
    method Init()
      requires s.Length == 256
      modifies this`i, this`j, s
      ensures Abs() == Initial()
    {
      for n := 0 to 256
        invariant forall k :: 0 <= k < n ==> s[k] == k as byte
      {
        s[n] := n as byte;
      }
      i, j := 0, 0;
    }

    // arc4_addrandom
    method AddRandom(dat: seq<byte>)
      requires s.Length == 256 && dat != []
      modifies this`i, this`j, s
      ensures Abs() == Mixed(old(Abs()), dat)
    {
      hide Wrap;
      i := Wrap(i as int - 1);
      ghost var c := Abs();
      for n := 0 to 256
        invariant Abs() == Rounds(c, dat, n)
      {
        ghost var was := Abs();
        i := Wrap(i as int + 1);
        var si := s[i];
        j := Wrap(j as int + (si as int + dat[n % |dat|] as int));
        s[i] := s[j];
        s[j] := si;
        assert s[..] == Swap(was.s, i, j);
      }
      j := i;
    }

    // arc4_getbyte
    method GetByte() returns (b: byte)
      requires s.Length == 256
      modifies this`i, this`j, s
      ensures Abs() == Advance(old(Abs()), 0) && b == Output(Abs())
    {
      i := Wrap(i as int + 1);
      var si := s[i];
      j := Wrap(j as int + si as int);
      var sj := s[j];
      s[i] := sj;
      s[j] := si;
      b := s[Wrap(si as int + sj as int)];
      assert Abs() == Advance(old(Abs()), 0);
    }

    // arc4_getword
    method GetWord() returns (w: nat)
      requires s.Length == 256
      modifies this`i, this`j, s
      ensures Abs() == Forward(old(Abs()), 4) && w == WordAt(old(Abs())) < WORDS
    {
      ghost var c := Abs();
      var a := GetByte();
      assert Abs() == Forward(c, 1);
      var b := GetByte();
      assert Abs() == Forward(c, 2);
      var d := GetByte();
      assert Abs() == Forward(c, 3);
      var e := GetByte();
      w := a as nat * 0x100_0000 + b as nat * 0x1_0000 + d as nat * 0x100 + e as nat;
    }

    // arc4_stir, where seeds is what the platform's sources mix in, and good tells whether
    // one of them succeeded.
    method Stir(seeds: seq<seq<byte>>, good: bool) returns (ok: bool)
      requires Valid() && Pieces(seeds)
      modifies this, s
      ensures Valid() && initialized && seededOk == (old(seededOk) || good) && ok == seededOk
      ensures var c := Seeded(if old(initialized) then old(Abs()) else Initial(), seeds);
        Abs() == if ok then Forward(c, 12 * 256) else c
      ensures count == (if ok then 1600000 else old(count)) && stirPid == old(stirPid)
    {
      if !initialized {
        Init();
        initialized := true;
      }
      ghost var c := Abs();
      for n := 0 to |seeds|
        invariant Abs() == Seeded(c, seeds[..n]) && Valid() && initialized
        invariant count == old(count) && stirPid == old(stirPid) && seededOk == old(seededOk)
      {
        ghost var was := Abs();
        AddRandom(seeds[n]);
        MixKeeps(was, seeds[n]);
        assert seeds[..n + 1][..n] == seeds[..n];
      }
      assert seeds[..|seeds|] == seeds;
      seededOk := seededOk || good;
      if !seededOk {
        return false;
      }
      ghost var d := Abs();
      for n := 0 to 12 * 256
        invariant Abs() == Forward(d, n) && Valid() && initialized && seededOk
        invariant count == old(count) && stirPid == old(stirPid)
      {
        AdvanceKeeps(Abs(), 0);
        var b := GetByte();
      }
      count := 1600000;
      ok := true;
    }

    // arc4random: stirred first when the count runs out, before the first use, and in a
    // new process.
    method Random(pid: int, seeds: seq<seq<byte>>, good: bool) returns (w: nat)
      requires Valid() && Pieces(seeds)
      modifies this, s
      ensures Valid() && initialized && stirPid == pid
      ensures State() == NextState(old(State()), pid, seeds, good)
      ensures w == NextWord(old(State()), pid, seeds, good) < WORDS
      ensures old(initialized) && old(stirPid) == pid && old(count) > 4 ==>
                count == old(count) - 4 && Abs() == Forward(old(Abs()), 4) && w == WordAt(old(Abs()))
    {
      hide Advance, Output, Wrap, Forward, WordAt, IsPermutation;
      count := count - 4;
      if count <= 0 || !initialized || stirPid != pid {
        stirPid := pid;
        var ok := Stir(seeds, good);
      }
      ghost var c := Abs();
      w := GetWord();
      ForwardKeeps(c, 4);
    }

    // arc4random_uniform, given up after some tries: of the words it draws, which are the
    // generator's next ones, only the last can be accepted, and that one decides the
    // result.
    method Uniform(bound: nat, pid: int, seeds: seq<seq<byte>>, good: bool, tries: nat)
      returns (r: int, ghost drawn: seq<nat>)
      requires Valid() && bound < WORDS && Pieces(seeds)
      modifies this, s
      ensures Valid()
      ensures drawn == Words(old(State()), pid, seeds, good, |drawn|)
      ensures State() == StateAfter(old(State()), pid, seeds, good, |drawn|)
      ensures bound < 2 ==> r == 0 && drawn == []
      ensures bound >= 2 && r == -1 ==> |drawn| == tries && forall k :: 0 <= k < tries ==> drawn[k] < WORDS % bound
      ensures bound >= 2 && r != -1 ==>
        && 0 <= r < bound && drawn != [] && Accepted(bound, r, drawn[|drawn| - 1])
        && forall k :: 0 <= k < |drawn| - 1 ==> drawn[k] < WORDS % bound
    {
      hide NextState, NextWord;
      drawn := [];
      if bound < 2 {
        return 0, drawn;
      }
      var min := RejectBelow(bound);
      for n := 0 to tries
        invariant Valid() && |drawn| == n && forall k :: 0 <= k < n ==> drawn[k] < min
        invariant drawn == Words(old(State()), pid, seeds, good, n)
        invariant State() == StateAfter(old(State()), pid, seeds, good, n)
      {
        var w := Random(pid, seeds, good);
        drawn := drawn + [w];
        if w >= min {
          return w % bound, drawn;
        }
      }
      r := -1;
    }
  }

  // ---- The generator's words ---------------------------------------------------------------

  // What a stream holds.
  datatype Generator = Generator(cipher: Cipher, initialized: bool, seededOk: bool, count: int, stirPid: int)

  predicate Wide(g: Generator)
  {
    |g.cipher.s| == 256
  }

  // arc4_stir
  function Stirred(g: Generator, seeds: seq<seq<byte>>, good: bool): (g': Generator)
    requires Wide(g) && Pieces(seeds)
    ensures Wide(g')
  {
    var c, ok := Seeded(if g.initialized then g.cipher else Initial(), seeds), g.seededOk || good;
    Generator(if ok then Forward(c, 12 * 256) else c, true, ok, if ok then 1600000 else g.count, g.stirPid)
  }

  // Before a word is taken: stirred, if that is needed.
  function Ready(g: Generator, pid: int, seeds: seq<seq<byte>>, good: bool): (g': Generator)
    requires Wide(g) && Pieces(seeds)
    ensures Wide(g')
  {
    var h := g.(count := g.count - 4);
    if h.count <= 0 || !h.initialized || h.stirPid != pid then Stirred(h.(stirPid := pid), seeds, good) else h
  }

  function NextWord(g: Generator, pid: int, seeds: seq<seq<byte>>, good: bool): nat
    requires Wide(g) && Pieces(seeds)
  {
    WordAt(Ready(g, pid, seeds, good).cipher)
  }

  function NextState(g: Generator, pid: int, seeds: seq<seq<byte>>, good: bool): (g': Generator)
    requires Wide(g) && Pieces(seeds)
    ensures Wide(g')
  {
    var r := Ready(g, pid, seeds, good);
    r.(cipher := Forward(r.cipher, 4))
  }

  // The generator after n words, and these words.
  function StateAfter(g: Generator, pid: int, seeds: seq<seq<byte>>, good: bool, n: nat): (g': Generator)
    requires Wide(g) && Pieces(seeds)
    ensures Wide(g')
  {
    if n == 0 then g else NextState(StateAfter(g, pid, seeds, good, n - 1), pid, seeds, good)
  }

  function Words(g: Generator, pid: int, seeds: seq<seq<byte>>, good: bool, n: nat): (ws: seq<nat>)
    requires Wide(g) && Pieces(seeds)
    ensures |ws| == n
  {
    if n == 0 then []
    else Words(g, pid, seeds, good, n - 1) + [NextWord(StateAfter(g, pid, seeds, good, n - 1), pid, seeds, good)]
  }

  // In the process that stirred it, and as long as its count lasts, a generator gives
  // nothing but its keystream, word after word.
  lemma {:induction false} WordsAreKeystream(g: Generator, pid: int, seeds: seq<seq<byte>>, good: bool, n: nat)
    requires Wide(g) && Pieces(seeds) && g.initialized && g.stirPid == pid && g.count > 4 * n
    ensures StateAfter(g, pid, seeds, good, n) == g.(cipher := Forward(g.cipher, 4 * n), count := g.count - 4 * n)
    ensures forall k :: 0 <= k < n ==> Words(g, pid, seeds, good, n)[k] == WordAt(Forward(g.cipher, 4 * k))
  {
    hide Forward, WordAt, Stirred;
    ForwardMore(g.cipher, 0, 0);
    if n > 0 {
      WordsAreKeystream(g, pid, seeds, good, n - 1);
      ForwardMore(g.cipher, 4 * (n - 1), 4);
      assert 4 * (n - 1) + 4 == 4 * n;
    }
  }

  lemma {:induction false} ForwardMore(c: Cipher, a: nat, b: nat)
    requires |c.s| == 256
    ensures Forward(c, 0) == c && Forward(Forward(c, a), b) == Forward(c, a + b)
    decreases b
  {
    hide Advance;
    if b > 0 {
      ForwardMore(c, a, b - 1);
    }
  }

  // Four bytes of keystream, the first in front.
  function WordAt(c: Cipher): nat
    requires |c.s| == 256
  {
    Output(Forward(c, 1)) as nat * 0x100_0000 + Output(Forward(c, 2)) as nat * 0x1_0000
    + Output(Forward(c, 3)) as nat * 0x100 + Output(Forward(c, 4)) as nat
  }

  // The first word of a table just initialised: the bytes 2, 5, 7 and 13.
  lemma FirstWord()
    ensures WordAt(Initial()) == 0x0205_070D
  {
    hide Advance, Output, Initial, Forward;
    var c := Initial();
    InitialIs();
    ForwardStep(c, 0);
    RoundAt(c, 1, 1);
    var c1 := Forward(c, 1);
    assert forall k :: 0 <= k < 256 ==> c1.s[k] as int == k;
    ForwardStep(c, 1);
    RoundAt(c1, 2, 3);
    var c2 := Forward(c, 2);
    assert c2.s[3] == 2 && forall k :: 3 < k < 256 ==> c2.s[k] as int == k;
    ForwardStep(c, 2);
    RoundAt(c2, 3, 5);
    var c3 := Forward(c, 3);
    assert c3.s[4] == 4 && forall k :: 5 < k < 256 ==> c3.s[k] as int == k;
    ForwardStep(c, 3);
    RoundAt(c3, 4, 9);
    var c4 := Forward(c, 4);
    assert c4.s[13] == 13;
    assert Output(c1) == 2 && Output(c2) == 5 && Output(c3) == 7 && Output(c4) == 13;
  }

  lemma RoundAt(c: Cipher, i: nat, j: nat)
    requires |c.s| == 256 && c.i as int + 1 == i < 256 && c.j as int + c.s[i] as int == j < 256
    requires c.s[i] as int + c.s[j] as int < 256
    ensures var c' := Advance(c, 0);
      && c'.i as int == i && c'.j as int == j && c'.s[i] == c.s[j] && c'.s[j] == c.s[i]
      && (forall k :: 0 <= k < 256 && k != i && k != j ==> c'.s[k] == c.s[k])
      && Output(c') == c'.s[c.s[i] as int + c.s[j] as int]
  {
    hide Advance, Output;
    RoundIs(c, 0);
  }

  lemma ForwardStep(c: Cipher, n: nat)
    requires |c.s| == 256
    ensures Forward(c, 0) == c && Forward(c, n + 1) == Advance(Forward(c, n), 0)
  {
  }

  lemma InitialIs()
    ensures var c := Initial(); c.i == 0 && c.j == 0 && forall k :: 0 <= k < 256 ==> c.s[k] as int == k
  {
  }

  predicate Pieces(seeds: seq<seq<byte>>)
  {
    forall k :: 0 <= k < |seeds| ==> seeds[k] != []
  }

  function Seeded(c: Cipher, seeds: seq<seq<byte>>): (c': Cipher)
    requires |c.s| == 256 && Pieces(seeds)
    ensures |c'.s| == 256
  {
    if seeds == [] then c else Mixed(Seeded(c, seeds[..|seeds| - 1]), seeds[|seeds| - 1])
  }

  lemma {:induction false} ForwardKeeps(c: Cipher, n: nat)
    requires IsPermutation(c.s)
    ensures IsPermutation(Forward(c, n).s)
  {
    if n > 0 {
      ForwardKeeps(c, n - 1);
      AdvanceKeeps(Forward(c, n - 1), 0);
    }
  }

  // ---- The bounded draw ------------------------------------------------------------------

  // The branch without 64-bit arithmetic: every operation wraps at 2^32.
  method RejectBelow(bound: nat) returns (min: nat)
    requires 2 <= bound < WORDS
    ensures min == WORDS % bound && min < bound && min < 0x8000_0000
  {
    if bound > 0x8000_0000 {
      NoWrap(WORDS - bound);
      min := (1 + (0xFFFF_FFFF - bound)) % WORDS;
      OneLap(bound);
    } else {
      var twice := bound * 2 % WORDS;
      min := (0xFFFF_FFFF - twice + 1) % WORDS % bound;
      LessTwoLaps(bound);
      if bound < 0x8000_0000 {
        NoWrap(bound * 2);
        NoWrap(WORDS - bound * 2);
      }
    }
  }

  lemma NoWrap(x: nat)
    requires x < WORDS
    ensures x % WORDS == x
  {
  }

  lemma OneLap(bound: nat)
    requires 0x8000_0000 < bound < WORDS
    ensures WORDS % bound == WORDS - bound
  {
    Remainder(WORDS, bound, 1, WORDS - bound);
  }

  lemma LessTwoLaps(bound: nat)
    requires 2 <= bound <= 0x8000_0000
    ensures (WORDS - 2 * bound) % bound == WORDS % bound
    ensures bound == 0x8000_0000 ==> WORDS % bound == 0
  {
    var q, r := WORDS / bound, WORDS % bound;
    assert WORDS == q * bound + r;
    assert (q - 2) * bound == q * bound - 2 * bound;
    Multiples(q - 2, bound);
    Remainder(WORDS - 2 * bound, bound, q - 2, r);
  }

  lemma Multiples(d: int, b: nat)
    ensures d >= 1 ==> d * b >= b
    ensures d <= -1 ==> d * b <= -(b as int)
  {
  }

  lemma Remainder(n: nat, b: nat, q: nat, r: nat)
    requires n == q * b + r && r < b
    ensures n % b == r
  {
    var d := n / b - q;
    assert n == (q + d) * b + n % b;
    assert (q + d) * b == q * b + d * b;
    Multiples(d, b);
  }

  // A word that is not rejected, and the result it gives.
  predicate Accepted(bound: nat, r: nat, w: nat)
    requires bound > 0
  {
    WORDS % bound <= w < WORDS && w % bound == r
  }

  ghost function Hits(lo: nat, hi: nat, bound: nat, r: nat): set<nat>
    requires bound > 0
  {
    set w: nat | lo <= w < hi && w % bound == r
  }

  // Any bound consecutive words hit a result once.
  lemma OneEach(lo: nat, bound: nat, r: nat) returns (w: nat)
    requires r < bound
    ensures Hits(lo, lo + bound, bound, r) == {w} && lo <= w < lo + bound
  {
    hide Hits;
    var q, m := lo / bound, lo % bound;
    w := if m <= r then lo + (r - m) else lo + (r + bound - m);
    assert lo == q * bound + m;
    if m <= r {
      Remainder(w, bound, q, r);
    } else {
      assert (q + 1) * bound == q * bound + bound;
      Remainder(w, bound, q + 1, r);
    }
    OnlyHit(lo, bound, r, w);
  }

  lemma OnlyHit(lo: nat, bound: nat, r: nat, w: nat)
    requires lo <= w < lo + bound && w % bound == r
    ensures Hits(lo, lo + bound, bound, r) == {w}
  {
    forall x: nat | lo <= x < lo + bound && x % bound == r
      ensures x == w
    {
      Apart(x, w, bound);
    }
  }

  lemma Apart(x: nat, y: nat, b: nat)
    requires b > 0 && x % b == y % b && x - y < b && y - x < b
    ensures x == y
  {
    var d := x / b - y / b;
    assert x - y == x / b * b - y / b * b == d * b;
    Multiples(d, b);
  }

  lemma {:induction false} LapsHit(lo: nat, bound: nat, r: nat, laps: nat)
    requires r < bound
    ensures |Hits(lo, lo + laps * bound, bound, r)| == laps
  {
    if laps == 0 {
      assert Hits(lo, lo + laps * bound, bound, r) == {};
    } else {
      var mid := lo + (laps - 1) * bound;
      assert lo + laps * bound == mid + bound;
      LapsHit(lo, bound, r, laps - 1);
      var w := OneEach(mid, bound, r);
      assert Hits(lo, mid + bound, bound, r) == Hits(lo, mid, bound, r) + Hits(mid, mid + bound, bound, r);
    }
  }

  // The draw is exactly uniform: every result has as many accepted words as any other,
  // and more than half of all words are accepted.
  lemma ExactlyUniform(bound: nat, r: nat)
    requires 2 <= bound < WORDS && r < bound
    ensures |set w: nat | w < WORDS && Accepted(bound, r, w)| == WORDS / bound
    ensures 2 * (WORDS / bound * bound) > WORDS
  {
    var q, min := WORDS / bound, WORDS % bound;
    assert min + q * bound == WORDS;
    LapsHit(min, bound, r, q);
    assert (set w: nat | w < WORDS && Accepted(bound, r, w)) == Hits(min, WORDS, bound, r);
    if bound > 0x8000_0000 {
      OneLap(bound);
    }
  }
}
