// Who owns what while a text is parsed. json_object_get, json_object_put and the
// functions that fill containers work on an explicit heap of reference-counted cells, and
// the tokener, reduced to what it does to that heap, is driven by JsonMachine.
module JsonOwnership {
  import opened Bytes
  import opened Json

  type Addr = nat

  const NULL: Addr := 0

  // An entry of an object or, without a name, an element of an array.
  datatype Entry = Entry(name: Addr, value: Addr)

  // What is allocated: objects of the scalar types, containers with the table or list
  // behind them, and copies of field names, which are not counted.
  datatype Kind =
    | Scalar(value: Json)
    | Container(isObject: bool, entries: seq<Entry>)
    | Name(text: seq<byte>)

  datatype Cell = Cell(refs: nat, kind: Kind)

  type Heap = map<Addr, Cell>

  // ---- Trees in the heap ---------------------------------------------------------------

  // A value together with the addresses of its cells.
  datatype Tree =
    | Nil
    | Leaf(at: Addr, value: Json)
    | Node(at: Addr, isObject: bool, kids: seq<Kid>)

  datatype Kid = Kid(name: Addr, key: seq<byte>, tree: Tree)

  function Root(t: Tree): Addr
  {
    if t.Nil? then NULL else t.at
  }

  function EntriesOf(kids: seq<Kid>): (es: seq<Entry>)
    ensures |es| == |kids| && forall k :: 0 <= k < |kids| ==> es[k] == Entry(kids[k].name, Root(kids[k].tree))
  {
    seq(|kids|, k requires 0 <= k < |kids| => Entry(kids[k].name, Root(kids[k].tree)))
  }

  // The JSON value a tree stands for.
  function ToJson(t: Tree): Json
    decreases t
  {
    match t
    case Nil => Null
    case Leaf(_, v) => v
    case Node(_, false, kids) => Arr(seq(|kids|, k requires 0 <= k < |kids| => ToJson(kids[k].tree)))
    case Node(_, true, kids) =>
      Obj(seq(|kids|, k requires 0 <= k < |kids| => Member(kids[k].key, ToJson(kids[k].tree))))
  }

  predicate IsScalar(j: Json)
  {
    !j.Null? && !j.Arr? && !j.Obj?
  }

  function One(a: Addr): multiset<Addr>
  {
    if a == NULL then multiset{} else multiset{a}
  }

  // The cells of a tree; a shared cell would be there twice.
  function Foot(t: Tree): multiset<Addr>
    decreases t
  {
    match t
    case Nil => multiset{}
    case Leaf(a, _) => multiset{a}
    case Node(a, _, kids) => multiset{a} + KidsFoot(kids)
  }

  function KidsFoot(kids: seq<Kid>): multiset<Addr>
    decreases kids
  {
    if kids == [] then multiset{}
    else KidsFoot(kids[..|kids| - 1]) + KidFoot(kids[|kids| - 1])
  }

  function KidFoot(k: Kid): multiset<Addr>
    decreases k
  {
    One(k.name) + Foot(k.tree)
  }

  // The heap has the tree, and every cell of it is referred to once.
  ghost predicate Holds(h: Heap, t: Tree)
    decreases t
  {
    match t
    case Nil => true
    case Leaf(a, v) => a != NULL && a in h && h[a] == Cell(1, Scalar(v)) && IsScalar(v)
    case Node(a, o, kids) =>
      && a != NULL && a in h && h[a] == Cell(1, Container(o, EntriesOf(kids)))
      && forall k :: 0 <= k < |kids| ==> NameHolds(h, o, kids[k]) && Holds(h, kids[k].tree)
  }

  ghost predicate NameHolds(h: Heap, isObject: bool, k: Kid)
  {
    if isObject then IsName(h, k.name, k.key) else k.name == NULL
  }

  ghost predicate IsName(h: Heap, a: Addr, text: seq<byte>)
  {
    a != NULL && a in h && h[a] == Cell(1, Name(text))
  }

  function Live(h: Heap): multiset<Addr>
  {
    multiset(h.Keys)
  }

  function Freed(h: Heap, m: multiset<Addr>): Heap
  {
    map a | a in h && a !in m :: h[a]
  }

  lemma FreedLive(h: Heap, m: multiset<Addr>)
    requires m <= Live(h)
    ensures Live(Freed(h, m)) == Live(h) - m
  {
    forall a
      ensures Live(Freed(h, m))[a] == (Live(h) - m)[a]
    {
      assert m[a] <= Live(h)[a];
    }
  }

  ghost predicate Agree(h: Heap, h': Heap, m: multiset<Addr>)
  {
    forall a :: a in m && a in h ==> a in h' && h'[a] == h[a]
  }

  // A tree does not notice what happens outside its cells.
  lemma {:induction false} HoldsFrame(h: Heap, h': Heap, t: Tree)
    requires Holds(h, t) && Agree(h, h', Foot(t))
    ensures Holds(h', t)
    decreases t, 1
  {
    match t
    case Nil =>
    case Leaf(_, _) =>
    case Node(a, o, kids) =>
      KidsFrame(h, h', o, kids);
  }

  lemma {:induction false} KidsFrame(h: Heap, h': Heap, o: bool, kids: seq<Kid>)
    requires forall k :: 0 <= k < |kids| ==> NameHolds(h, o, kids[k]) && Holds(h, kids[k].tree)
    requires Agree(h, h', KidsFoot(kids))
    ensures forall k :: 0 <= k < |kids| ==> NameHolds(h', o, kids[k]) && Holds(h', kids[k].tree)
    decreases kids, 0
  {
    if kids != [] {
      var n := |kids| - 1;
      assert KidFoot(kids[n]) == One(kids[n].name) + Foot(kids[n].tree);
      KidsFrame(h, h', o, kids[..n]);
      HoldsFrame(h, h', kids[n].tree);
      forall k | 0 <= k < |kids|
        ensures NameHolds(h', o, kids[k]) && Holds(h', kids[k].tree)
      {
        if k < n {
          assert kids[..n][k] == kids[k];
        }
      }
    }
  }

  lemma {:induction false} KidsConcat(ks: seq<Kid>, more: seq<Kid>)
    ensures KidsFoot(ks + more) == KidsFoot(ks) + KidsFoot(more)
    decreases |more|
  {
    hide KidFoot;
    if more == [] {
      assert ks + more == ks;
    } else {
      var n, all := |more| - 1, ks + more;
      assert all[..|all| - 1] == ks + more[..n] && all[|all| - 1] == more[n];
      KidsConcat(ks, more[..n]);
    }
  }

  lemma KidsSplit(kids: seq<Kid>, i: nat)
    requires i < |kids|
    ensures KidsFoot(kids) == KidsFoot(kids[..i]) + KidFoot(kids[i]) + KidsFoot(kids[i + 1..])
  {
    hide KidFoot, KidsFoot;
    assert kids == (kids[..i] + [kids[i]]) + kids[i + 1..];
    KidsConcat(kids[..i] + [kids[i]], kids[i + 1..]);
    KidsMore(kids[..i], kids[i]);
  }

  lemma KidsUpdate(kids: seq<Kid>, i: nat, k: Kid)
    requires i < |kids|
    ensures KidsFoot(kids[i := k]) + KidFoot(kids[i]) == KidsFoot(kids) + KidFoot(k)
    ensures KidFoot(kids[i]) <= KidsFoot(kids)
  {
    KidsSplit(kids, i);
    var ks := kids[i := k];
    KidsSplit(ks, i);
    assert ks[..i] == kids[..i] && ks[i + 1..] == kids[i + 1..];
  }

  lemma KidsMore(kids: seq<Kid>, k: Kid)
    ensures KidsFoot(kids + [k]) == KidsFoot(kids) + KidFoot(k)
  {
    assert (kids + [k])[..|kids|] == kids;
  }

  // ---- The operations --------------------------------------------------------------------

  class Objects {
    var heap: Heap
    var brk: Addr

    ghost predicate Sound()
      reads this`heap, this`brk
    {
      brk > 0 && NULL !in heap && forall a <- heap :: a < brk
    }

    constructor ()
      ensures heap == map[] && Sound()
    {
      heap, brk := map[], 1;
    }

    // json_object_new and strdup
    method New(kind: Kind) returns (a: Addr)
      requires Sound()
      modifies this
      ensures Sound() && a != NULL && a !in old(heap) && heap == old(heap)[a := Cell(1, kind)]
      ensures Live(heap) == Live(old(heap)) + multiset{a}
    {
      a := brk;
      heap, brk := heap[a := Cell(1, kind)], brk + 1;
    }

    // free of a name
    method Free(a: Addr)
      requires Sound() && (a != NULL ==> a in heap)
      modifies this`heap
      ensures Sound() && heap == Freed(old(heap), One(a))
    {
      if a != NULL {
        heap := heap - {a};
      }
      assert heap == Freed(old(heap), One(a));
    }

    // A container's table or list gets these entries.
    method SetEntries(a: Addr, entries: seq<Entry>)
      requires Sound() && a in heap && heap[a].kind.Container?
      modifies this`heap
      ensures Sound() && Live(heap) == Live(old(heap))
      ensures heap == old(heap)[a := Cell(old(heap)[a].refs, Container(old(heap)[a].kind.isObject, entries))]
    {
      heap := heap[a := Cell(heap[a].refs, Container(heap[a].kind.isObject, entries))];
      assert heap.Keys == old(heap).Keys;
    }

    // Entry i of a container gets another value, and the one it had is released.
    method SwapValue(a: Addr, i: nat, value: Addr, ghost t: Tree)
      requires Sound() && a in heap && heap[a].kind.Container? && i < |heap[a].kind.entries|
      requires heap[a].kind.entries[i].value == Root(t) && Holds(heap, t) && Foot(t) <= Live(heap) && a !in Foot(t)
      modifies this`heap
      ensures Sound()
      ensures var c := old(heap)[a]; var es := c.kind.entries;
        var kind := Container(c.kind.isObject, es[i := es[i].(value := value)]);
        heap == Freed(old(heap), Foot(t))[a := Cell(c.refs, kind)]
    {
      hide Holds, Foot;
      RootHeld(heap, t);
      var entries := heap[a].kind.entries;
      Put(entries[i].value, t);
      SetEntries(a, entries[i := entries[i].(value := value)]);
    }

    // lh_table_lookup_entry, as LinkHash proves it: the position of a name, or the number
    // of entries
    method Lookup(a: Addr, key: seq<byte>, ghost t: Tree) returns (i: nat)
      requires t.Node? && t.isObject && Holds(heap, t) && t.at == a
      ensures i == Find(ToJson(t).members, key) <= |t.kids|
    {
      var entries := heap[a].kind.entries;
      ghost var ms := ToJson(t).members;
      i := 0;
      while i < |entries|
        invariant i <= |entries| == |t.kids| == |ms|
        invariant forall k :: 0 <= k < i ==> ms[k].key != key
      {
        assert NameHolds(heap, true, t.kids[i]) && ms[i].key == t.kids[i].key;
        if heap[entries[i].name].kind.text == key {
          return;
        }
        i := i + 1;
      }
    }

    // json_object_get
    method Get(a: Addr)
      requires Sound() && (a != NULL ==> a in heap)
      modifies this`heap
      ensures Sound() && Live(heap) == Live(old(heap))
      ensures heap == if a == NULL then old(heap) else old(heap)[a := old(heap)[a].(refs := old(heap)[a].refs + 1)]
    {
      if a != NULL {
        heap := heap[a := heap[a].(refs := heap[a].refs + 1)];
        assert heap.Keys == old(heap).Keys;
      }
    }

    // json_object_put: the last reference to a tree frees every cell of it, and nothing else.
    method Put(a: Addr, ghost t: Tree)
      requires Sound() && a == Root(t)
      requires a != NULL ==> a in heap && heap[a].refs > 0
      requires a == NULL || heap[a].refs == 1 ==> Holds(heap, t) && Foot(t) <= Live(heap)
      modifies this`heap
      ensures Sound()
      ensures heap == if a != NULL && old(heap)[a].refs > 1
                      then old(heap)[a := old(heap)[a].(refs := old(heap)[a].refs - 1)]
                      else Freed(old(heap), Foot(t))
      decreases t, 1
    {
      hide Holds, Foot, KidsFoot, Freed;
      if a == NULL {
        NothingFreed(heap, t);
        return;
      }
      ghost var h := heap;
      var c := heap[a];
      heap := heap[a := c.(refs := c.refs - 1)];
      if c.refs == 1 {
        CellOf(h, t);
        match c.kind {
          case Container(_, entries) =>
            DeleteEntries(entries, h, t);
          case _ =>
        }
        RootGone(h, t, heap);
        heap := heap - {a};
      }
    }

    // lh_table_free and array_list_free, for a container cell whose count has just gone to 0
    method DeleteEntries(entries: seq<Entry>, ghost h: Heap, ghost t: Tree)
      requires Sound() && t.Node? && Holds(h, t) && Foot(t) <= Live(h) && entries == EntriesOf(t.kids)
      requires heap == h[t.at := h[t.at].(refs := 0)]
      modifies this`heap
      ensures Sound() && heap == Freed(old(heap), KidsFoot(t.kids))
      decreases t, 0
    {
      hide Holds, Foot, Freed;
      ghost var h0, kids := heap, t.kids;
      assert kids[..0] == [];
      FreedNone(heap);
      for i := 0 to |entries|
        invariant Sound() && heap == Freed(h0, KidsFoot(kids[..i]))
      {
        EntryReady(h, t, i, heap);
        Free(entries[i].name);
        FreedTwice(h0, KidsFoot(kids[..i]), One(kids[i].name), Foot(kids[i].tree));
        Put(entries[i].value, kids[i].tree);
        assert kids[..i + 1] == kids[..i] + [kids[i]];
        KidsMore(kids[..i], kids[i]);
      }
      assert kids[..|entries|] == kids;
    }
  }

  lemma NothingFreed(h: Heap, t: Tree)
    requires Holds(h, t) && Root(t) == NULL
    ensures h == Freed(h, Foot(t))
  {
  }

  lemma CellOf(h: Heap, t: Tree)
    requires Holds(h, t) && Root(t) != NULL
    ensures !t.Nil? && t.at in h
    ensures h[t.at].kind.Container? <==> t.Node?
    ensures t.Node? ==> h[t.at].kind.entries == EntriesOf(t.kids)
  {
  }

  // The root's own cell goes last.
  lemma RootGone(h: Heap, t: Tree, now: Heap)
    requires Holds(h, t) && !t.Nil?
    requires var h0 := h[t.at := h[t.at].(refs := 0)];
      now == if t.Node? then Freed(h0, KidsFoot(t.kids)) else h0
    ensures now - {t.at} == Freed(h, Foot(t))
    ensures forall a :: a in now - {t.at} ==> a in h
  {
    hide KidsFoot;
  }

  lemma FreedNone(h: Heap)
    ensures Freed(h, multiset{}) == h
  {
  }

  lemma FreedTwice(h: Heap, m: multiset<Addr>, n: multiset<Addr>, p: multiset<Addr>)
    ensures Freed(Freed(Freed(h, m), n), p) == Freed(h, m + (n + p))
  {
  }

  // Before entry i of a dying container is released, its own cells are still all there.
  lemma EntryReady(h: Heap, t: Tree, i: nat, now: Heap)
    requires t.Node? && Holds(h, t) && Foot(t) <= Live(h) && i < |t.kids|
    requires now == Freed(h[t.at := h[t.at].(refs := 0)], KidsFoot(t.kids[..i]))
    ensures var k := t.kids[i]; var later := Freed(now, One(k.name));
      && (k.name != NULL ==> k.name in now)
      && Holds(later, k.tree) && Foot(k.tree) <= Live(later)
      && (Root(k.tree) != NULL ==> Root(k.tree) in later && later[Root(k.tree)].refs == 1)
  {
    hide Holds, Foot, KidsFoot;
    var k := t.kids[i];
    var later := Freed(now, One(k.name));
    EntryHeld(h, t, i);
    EntryOnce(h, t, i);
    assert KidFoot(k) == One(k.name) + Foot(k.tree);
    hide KidFoot;
    forall a | a in Foot(k.tree)
      ensures a in later && later[a] == h[a] && Foot(k.tree)[a] <= 1
    {
      assert a in KidFoot(k) && KidFoot(k)[a] == 1;
    }
    HoldsFrame(h, later, k.tree);
    RootHeld(later, k.tree);
    FootLive(later, Foot(k.tree));
  }

  lemma FootLive(h: Heap, m: multiset<Addr>)
    requires forall a :: a in m ==> a in h && m[a] <= 1
    ensures m <= Live(h)
  {
  }

  lemma EntryHeld(h: Heap, t: Tree, i: nat)
    requires t.Node? && Holds(h, t) && i < |t.kids|
    ensures Holds(h, t.kids[i].tree) && NameHolds(h, t.isObject, t.kids[i])
  {
  }

  lemma RootHeld(h: Heap, t: Tree)
    requires Holds(h, t)
    ensures Root(t) != NULL ==> Root(t) in h && h[Root(t)].refs == 1 && Root(t) in Foot(t)
    ensures Root(t) == NULL ==> t == Nil
  {
  }

  // The cells of an entry are not those of its container or of the entries before it.
  lemma EntryOnce(h: Heap, t: Tree, i: nat)
    requires t.Node? && Foot(t) <= Live(h) && i < |t.kids|
    ensures var m := KidFoot(t.kids[i]);
      forall a :: a in m ==> a in h && a != t.at && a !in KidsFoot(t.kids[..i]) && m[a] == 1
  {
    var m, before, after := KidFoot(t.kids[i]), KidsFoot(t.kids[..i]), KidsFoot(t.kids[i + 1..]);
    KidsSplit(t.kids, i);
    assert Foot(t) == multiset{t.at} + (before + m + after);
    hide Foot, KidsFoot, KidFoot;
    forall a | a in m
      ensures a in h && a != t.at && a !in before && m[a] == 1
    {
      assert Foot(t)[a] <= Live(h)[a] <= 1;
    }
  }
}
