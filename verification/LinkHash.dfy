// The hash table of json-c: open addressing with tombstones, whose live slots are also
// threaded on a doubly linked list in insertion order. Slots are named by their index;
// NIL stands for a null entry pointer.
//
// The abstract value of a table is Entries(): the key/value pairs in insertion order.
module LinkHash {
  import opened Wrappers

  // The key field of a slot: LH_EMPTY, LH_FREED or a real key.
  datatype Key<+K> = Empty | Freed | Live(key: K)

  datatype Slot<+K, +V> = Slot(k: Key<K>, v: Option<V>, next: int, prev: int)

  const NIL: int := -1

  type Table<K, V> = seq<Slot<K, V>>

  // The slot s steps after slot h, wrapping around.
  function Wrap(h: nat, s: nat, size: nat): (n: nat)
    requires h < size && s <= size
    ensures n < size
  {
    if h + s < size then h + s else h + s - size
  }

  // How many steps slot n is after slot h.
  function Steps(h: nat, n: nat, size: nat): (s: nat)
    requires h < size && n < size
    ensures s < size && Wrap(h, s, size) == n
  {
    if h <= n then n - h else n + size - h
  }

  function Home<K>(hash: K -> nat, k: K, size: nat): (n: nat)
    requires size > 0
    ensures n < size
  {
    hash(k) % size
  }

  // ---- Probing -----------------------------------------------------------------

  predicate Taken<K, V>(t: Table<K, V>, h: nat, s: nat)
    requires h < |t| && s < |t|
  {
    t[Wrap(h, s, |t|)].k != Empty
  }

  // Every slot a search passes on its way from home slot h to slot n has been used.
  ghost predicate PathTaken<K, V>(t: Table<K, V>, h: nat, n: nat)
    requires h < |t| && n < |t|
  {
    forall s :: 0 <= s < Steps(h, n, |t|) ==> Taken(t, h, s)
  }

  ghost predicate Reachable<K, V>(t: Table<K, V>, hash: K -> nat)
    requires |t| > 0
  {
    forall n :: 0 <= n < |t| && t[n].k.Live? ==> PathTaken(t, Home(hash, t[n].k.key, |t|), n)
  }

  // Slot n holds key k.
  predicate Holds<K(==), V>(t: Table<K, V>, n: nat, k: K)
    requires n < |t|
  {
    t[n].k == Live(k)
  }

  // A search from the home slot that has made s unsuccessful steps rules out the first s
  // slots of the path.
  ghost predicate Passed<K, V>(t: Table<K, V>, h: nat, s: nat, k: K)
    requires h < |t| && s <= |t|
  {
    forall j :: 0 <= j < s ==> Taken(t, h, j) && !Holds(t, Wrap(h, j, |t|), k)
  }

  // The search may stop at an empty slot or after a full turn: the key is nowhere.
  lemma SearchEnds<K, V>(t: Table<K, V>, hash: K -> nat, k: K, s: nat)
    requires |t| > 0 && s <= |t| && Reachable(t, hash)
    requires Passed(t, Home(hash, k, |t|), s, k)
    requires s == |t| || !Taken(t, Home(hash, k, |t|), s)
    ensures forall n :: 0 <= n < |t| ==> !Holds(t, n, k)
  {
    var h := Home(hash, k, |t|);
    forall n | 0 <= n < |t|
      ensures !Holds(t, n, k)
    {
      var d := Steps(h, n, |t|);
      assert Holds(t, n, k) ==> PathTaken(t, h, n);
      assert Holds(t, n, k) ==> d < s;
      assert d < s ==> !Holds(t, Wrap(h, d, |t|), k);
    }
  }

  // A slot that gets a key, or whose key is replaced by a tombstone, blocks no path.
  lemma ReachableAfter<K, V>(t: Table<K, V>, t': Table<K, V>, hash: K -> nat, n: nat)
    requires |t| == |t'| > 0 && n < |t| && Reachable(t, hash)
    requires forall m :: 0 <= m < |t| && m != n ==> t'[m].k == t[m].k
    requires t'[n].k != Empty
    requires t'[n].k.Live? ==> PathTaken(t, Home(hash, t'[n].k.key, |t|), n)
    ensures Reachable(t', hash)
  {
    forall m | 0 <= m < |t| && t'[m].k.Live?
      ensures PathTaken(t', Home(hash, t'[m].k.key, |t|), m)
    {
      var h := Home(hash, t'[m].k.key, |t|);
      assert PathTaken(t, h, m);
      forall s | 0 <= s < Steps(h, m, |t|)
        ensures Taken(t', h, s)
      {
        assert Taken(t, h, s);
      }
    }
  }

  // ---- The insertion-order list --------------------------------------------------

  predicate Differ(order: seq<nat>, i: nat, j: nat)
    requires i < |order| && j < |order|
  {
    order[i] != order[j]
  }

  ghost predicate Distinct(order: seq<nat>)
  {
    forall i, j :: 0 <= i < j < |order| ==> Differ(order, i, j)
  }

  lemma SamePlace(order: seq<nat>, i: nat, j: nat)
    requires Distinct(order) && i < |order| && j < |order|
    ensures order[i] == order[j] ==> i == j
  {
    if i < j {
      assert Differ(order, i, j);
    } else if j < i {
      assert Differ(order, j, i);
    }
  }

  function IndexAt(order: seq<nat>, i: int): int
  {
    if 0 <= i < |order| then order[i] else NIL
  }

  // Slot order[i] holds a key and is linked to its neighbours in order.
  ghost predicate SlotOk<K, V>(t: Table<K, V>, order: seq<nat>, i: nat)
    requires i < |order|
  {
    && order[i] < |t|
    && t[order[i]].k.Live?
    && t[order[i]].next == IndexAt(order, i + 1)
    && t[order[i]].prev == IndexAt(order, i - 1)
  }

  ghost predicate Covered(order: seq<nat>, n: nat)
  {
    n in order
  }

  // The list that starts at the first slot of order visits exactly the live slots, in
  // order, and back again through prev.
  ghost predicate Threaded<K, V>(t: Table<K, V>, order: seq<nat>)
  {
    && Distinct(order)
    && (forall i :: 0 <= i < |order| ==> SlotOk(t, order, i))
    && (forall n {:trigger Covered(order, n)} :: 0 <= n < |t| && t[n].k.Live? ==> Covered(order, n))
  }

  // The keys and values along a list of slots.
  ghost function Pairs<K, V>(t: Table<K, V>, order: seq<nat>): (r: seq<(Key<K>, Option<V>)>)
    ensures |r| == |order|
  {
    seq(|order|, i requires 0 <= i < |order| => PairAt(t, order[i]))
  }

  ghost function PairAt<K, V>(t: Table<K, V>, n: nat): (Key<K>, Option<V>)
  {
    if n < |t| then (t[n].k, t[n].v) else (Empty, None)
  }

  predicate KeysDiffer<K(==), V>(es: seq<(Key<K>, Option<V>)>, i: nat, j: nat)
    requires i < |es| && j < |es|
  {
    es[i].0 != es[j].0
  }

  ghost predicate UniqueKeys<K, V>(es: seq<(Key<K>, Option<V>)>)
  {
    forall i, j :: 0 <= i < j < |es| ==> KeysDiffer(es, i, j)
  }

  ghost predicate HasKey<K, V>(es: seq<(Key<K>, Option<V>)>, k: K)
  {
    exists i :: 0 <= i < |es| && es[i].0 == Live(k)
  }

  lemma HoldsIffHasKey<K, V>(t: Table<K, V>, order: seq<nat>, k: K)
    requires Threaded(t, order)
    ensures HasKey(Pairs(t, order), k) <==> exists n :: 0 <= n < |t| && Holds(t, n, k)
  {
    var es := Pairs(t, order);
    if HasKey(es, k) {
      var i :| 0 <= i < |es| && es[i].0 == Live(k);
      assert SlotOk(t, order, i);
      assert Holds(t, order[i], k);
    }
    if n :| 0 <= n < |t| && Holds(t, n, k) {
      assert Covered(order, n);
      var i :| 0 <= i < |order| && order[i] == n;
      assert es[i].0 == Live(k);
    }
  }

  // Linking slot n, which held no key, behind the last one.
  lemma LinkLast<K, V>(t: Table<K, V>, order: seq<nat>, n: nat, k: K, v: Option<V>, t': Table<K, V>)
    requires Threaded(t, order) && n < |t| && !t[n].k.Live?
    requires |t'| == |t| && t'[n] == Slot(Live(k), v, NIL, IndexAt(order, |order| - 1))
    requires forall m :: 0 <= m < |t| && m != n ==>
      t'[m] == if order != [] && m == order[|order| - 1] then t[m].(next := n) else t[m]
    ensures Threaded(t', order + [n])
    ensures Pairs(t', order + [n]) == Pairs(t, order) + [(Live(k), v)]
  {
    hide Pairs, PairAt, Distinct, SlotOk;
    AppendDistinct(t, order, n);
    LinkedSlots(t, order, n, k, v, t');
    LinkedCovered(t, order, n, t');
    PairsMore(t, order, n, k, v, t');
  }

  lemma LinkedCovered<K, V>(t: Table<K, V>, order: seq<nat>, n: nat, t': Table<K, V>)
    requires Threaded(t, order) && |t'| == |t|
    requires forall m :: 0 <= m < |t| && m != n ==> t'[m].k == t[m].k
    ensures forall m {:trigger Covered(order + [n], m)} :: 0 <= m < |t'| && t'[m].k.Live? ==> Covered(order + [n], m)
  {
    hide SlotOk, Distinct;
    forall m | 0 <= m < |t'| && t'[m].k.Live?
      ensures Covered(order + [n], m)
    {
      assert m != n ==> Covered(order, m);
    }
  }

  lemma PairsMore<K, V>(t: Table<K, V>, order: seq<nat>, n: nat, k: K, v: Option<V>, t': Table<K, V>)
    requires forall i :: 0 <= i < |order| ==> PairAt(t', order[i]) == PairAt(t, order[i])
    requires n < |t'| && t'[n].k == Live(k) && t'[n].v == v
    ensures Pairs(t', order + [n]) == Pairs(t, order) + [(Live(k), v)]
  {
    assert PairAt(t', n) == (Live(k), v);
    hide PairAt;
    var order' := order + [n];
    assert forall i :: 0 <= i < |order| ==> order'[i] == order[i];
  }

  lemma AppendDistinct<K, V>(t: Table<K, V>, order: seq<nat>, n: nat)
    requires Threaded(t, order) && n < |t| && !t[n].k.Live?
    ensures Distinct(order + [n])
  {
    var order' := order + [n];
    forall i, j | 0 <= i < j < |order'|
      ensures Differ(order', i, j)
    {
      assert SlotOk(t, order, i);
      assert j < |order| ==> Differ(order, i, j);
    }
  }

  lemma LinkedSlots<K, V>(t: Table<K, V>, order: seq<nat>, n: nat, k: K, v: Option<V>, t': Table<K, V>)
    requires Threaded(t, order) && n < |t| && !t[n].k.Live?
    requires |t'| == |t| && t'[n] == Slot(Live(k), v, NIL, IndexAt(order, |order| - 1))
    requires forall m :: 0 <= m < |t| && m != n ==>
      t'[m] == if order != [] && m == order[|order| - 1] then t[m].(next := n) else t[m]
    ensures forall i :: 0 <= i < |order| ==> SlotOk(t', order + [n], i) && PairAt(t', order[i]) == PairAt(t, order[i])
    ensures SlotOk(t', order + [n], |order|)
  {
    var order' := order + [n];
    forall i | 0 <= i < |order|
      ensures SlotOk(t', order', i) && PairAt(t', order[i]) == PairAt(t, order[i])
    {
      assert SlotOk(t, order, i);
      SamePlace(order, i, |order| - 1);
      assert IndexAt(order', i - 1) == IndexAt(order, i - 1);
      assert IndexAt(order', i + 1) == if i + 1 == |order| then n else IndexAt(order, i + 1);
    }
    assert order'[|order|] == n && IndexAt(order', |order| - 1) == IndexAt(order, |order| - 1);
  }

  function Without<T>(s: seq<T>, i: nat): seq<T>
    requires i < |s|
  {
    s[..i] + s[i + 1..]
  }

  // Unlinking the i-th slot of the list.
  lemma Unlink<K, V>(t: Table<K, V>, order: seq<nat>, i: nat, t': Table<K, V>)
    requires Threaded(t, order) && i < |order| && |t'| == |t|
    requires order[i] < |t| && !t'[order[i]].k.Live?
    requires forall m :: 0 <= m < |t| && m != order[i] ==>
      && t'[m].k == t[m].k && t'[m].v == t[m].v
      && t'[m].next == (if i > 0 && m == order[i - 1] then IndexAt(order, i + 1) else t[m].next)
      && t'[m].prev == (if i + 1 < |order| && m == order[i + 1] then IndexAt(order, i - 1) else t[m].prev)
    ensures Threaded(t', Without(order, i))
    ensures Pairs(t', Without(order, i)) == Without(Pairs(t, order), i)
  {
    hide Distinct, SlotOk, Pairs, PairAt, Without;
    WithoutDistinct(t, order, i);
    UnlinkedSlots(t, order, i, t');
    UnlinkedCovered(t, order, i, t');
  }

  lemma WithoutAt<T>(s: seq<T>, i: nat, j: nat)
    requires i < |s| && j + 1 < |s|
    ensures |Without(s, i)| == |s| - 1 && Without(s, i)[j] == s[if j < i then j else j + 1]
  {
  }

  lemma WithoutDistinct<K, V>(t: Table<K, V>, order: seq<nat>, i: nat)
    requires Threaded(t, order) && i < |order|
    ensures Distinct(Without(order, i))
  {
    var order' := Without(order, i);
    forall j, l | 0 <= j < l < |order'|
      ensures Differ(order', j, l)
    {
      SamePlace(order, if j < i then j else j + 1, if l < i then l else l + 1);
    }
  }

  lemma UnlinkedSlots<K, V>(t: Table<K, V>, order: seq<nat>, i: nat, t': Table<K, V>)
    requires Threaded(t, order) && i < |order| && |t'| == |t|
    requires forall m :: 0 <= m < |t| && m != order[i] ==>
      && t'[m].k == t[m].k && t'[m].v == t[m].v
      && t'[m].next == (if i > 0 && m == order[i - 1] then IndexAt(order, i + 1) else t[m].next)
      && t'[m].prev == (if i + 1 < |order| && m == order[i + 1] then IndexAt(order, i - 1) else t[m].prev)
    ensures forall j :: 0 <= j < |Without(order, i)| ==> SlotOk(t', Without(order, i), j)
    ensures Pairs(t', Without(order, i)) == Without(Pairs(t, order), i)
  {
    hide Distinct, Threaded;
    var order' := Without(order, i);
    forall j | 0 <= j < |order'|
      ensures SlotOk(t', order', j) && PairAt(t', order'[j]) == Without(Pairs(t, order), i)[j]
    {
      UnlinkAt(t, order, i, t', if j < i then j else j + 1);
    }
  }

  lemma UnlinkedCovered<K, V>(t: Table<K, V>, order: seq<nat>, i: nat, t': Table<K, V>)
    requires Threaded(t, order) && i < |order| && |t'| == |t|
    requires order[i] < |t| && !t'[order[i]].k.Live?
    requires forall m :: 0 <= m < |t| && m != order[i] ==> t'[m].k == t[m].k
    ensures forall n {:trigger Covered(Without(order, i), n)} ::
      0 <= n < |t'| && t'[n].k.Live? ==> Covered(Without(order, i), n)
  {
    hide Distinct, SlotOk, Without;
    var order' := Without(order, i);
    forall n | 0 <= n < |t'| && t'[n].k.Live?
      ensures Covered(order', n)
    {
      assert Covered(order, n);
      var l :| 0 <= l < |order| && order[l] == n;
      WithoutAt(order, i, if l < i then l else l - 1);
    }
  }

  // What unlinking the i-th slot does to the l-th.
  lemma UnlinkAt<K, V>(t: Table<K, V>, order: seq<nat>, i: nat, t': Table<K, V>, l: nat)
    requires Threaded(t, order) && i < |order| && |t'| == |t| && l < |order| && l != i
    requires forall m :: 0 <= m < |t| && m != order[i] ==>
      && t'[m].k == t[m].k && t'[m].v == t[m].v
      && t'[m].next == (if i > 0 && m == order[i - 1] then IndexAt(order, i + 1) else t[m].next)
      && t'[m].prev == (if i + 1 < |order| && m == order[i + 1] then IndexAt(order, i - 1) else t[m].prev)
    ensures order[l] < |t| && t[order[l]].k.Live?
    ensures t'[order[l]].k == t[order[l]].k && t'[order[l]].v == t[order[l]].v
    ensures t'[order[l]].next == IndexAt(order, if l + 1 == i then l + 2 else l + 1)
    ensures t'[order[l]].prev == IndexAt(order, if l == i + 1 then l - 2 else l - 1)
  {
    assert SlotOk(t, order, l) && SlotOk(t, order, i);
    SamePlace(order, l, i);
    if i > 0 {
      SamePlace(order, l, i - 1);
    }
    if i + 1 < |order| {
      SamePlace(order, l, i + 1);
    }
  }

  // ---- A full table --------------------------------------------------------------

  ghost function Range(n: nat): set<nat>
  {
    if n == 0 then {} else Range(n - 1) + {n - 1}
  }

  lemma {:induction false} RangeElements(n: nat)
    ensures |Range(n)| == n && forall m :: m in Range(n) <==> 0 <= m < n
  {
    if n > 0 {
      RangeElements(n - 1);
    }
  }

  ghost function Elements(s: seq<nat>): set<nat>
  {
    set n: nat | n in s
  }

  lemma {:induction false} CardinalityOfSeq(s: seq<nat>)
    ensures |Elements(s)| <= |s|
  {
    if s != [] {
      CardinalityOfSeq(s[1..]);
      assert Elements(s) == Elements(s[1..]) + {s[0]};
    }
  }

  // Fewer keys than slots leave a slot without a key.
  lemma SomeSlotFree<K, V>(t: Table<K, V>, order: seq<nat>)
    requires Threaded(t, order) && |order| < |t|
    ensures exists n :: 0 <= n < |t| && !t[n].k.Live?
  {
    if forall n :: 0 <= n < |t| ==> t[n].k.Live? {
      forall n: nat | n < |t|
        ensures n in Elements(order)
      {
        assert t[n].k.Live?;
        assert Covered(order, n);
      }
      RangeElements(|t|);
      CardinalitySubset(Range(|t|), Elements(order));
      CardinalityOfSeq(order);
      assert false;
    }
  }

  lemma CardinalitySubset(a: set<nat>, b: set<nat>)
    requires a <= b
    ensures |a| <= |b|
  {
    assert b == a + (b - a);
  }

  // ---- The ordered map -------------------------------------------------------------

  type Entries<K, V> = seq<(Key<K>, Option<V>)>

  // Where key k stands in es; |es| if nowhere.
  function Position<K(==), V>(es: Entries<K, V>, k: K): (i: nat)
    ensures i <= |es|
    ensures i < |es| ==> es[i].0 == Live(k)
    ensures forall j :: 0 <= j < i ==> es[j].0 != Live(k)
  {
    if es == [] then 0
    else if es[0].0 == Live(k) then 0
    else Position(es[1..], k) + 1
  }

  lemma PositionIff<K, V>(es: Entries<K, V>, k: K)
    ensures Position(es, k) < |es| <==> HasKey(es, k)
  {
  }

  lemma PairsAt<K, V>(t: Table<K, V>, order: seq<nat>, i: nat)
    requires i < |order| && order[i] < |t|
    ensures Pairs(t, order)[i] == (t[order[i]].k, t[order[i]].v)
  {
  }

  lemma PositionUnique<K, V>(es: Entries<K, V>, k: K, i: nat)
    requires UniqueKeys(es) && i < |es| && es[i].0 == Live(k)
    ensures Position(es, k) == i
  {
    var j := Position(es, k);
    assert j < i ==> KeysDiffer(es, j, i);
  }

  lemma UniqueAppend<K, V>(es: Entries<K, V>, e: (Key<K>, Option<V>))
    requires UniqueKeys(es) && e.0.Live? && !HasKey(es, e.0.key)
    ensures UniqueKeys(es + [e])
  {
    forall i, j | 0 <= i < j < |es + [e]|
      ensures KeysDiffer(es + [e], i, j)
    {
      if j < |es| {
        assert KeysDiffer(es, i, j);
      }
    }
  }

  lemma UniqueWithout<K, V>(es: Entries<K, V>, i: nat)
    requires UniqueKeys(es) && i < |es|
    ensures UniqueKeys(Without(es, i))
  {
    forall j, l | 0 <= j < l < |es| - 1
      ensures KeysDiffer(Without(es, i), j, l)
    {
      assert KeysDiffer(es, if j < i then j else j + 1, if l < i then l else l + 1);
    }
  }

  // Where slot n stands in the list; |order| if nowhere.
  ghost function PlaceOf(order: seq<nat>, n: nat): (i: nat)
    ensures i <= |order|
    ensures i < |order| ==> order[i] == n
    ensures n in order ==> i < |order|
  {
    if order == [] then 0 else if order[0] == n then 0 else PlaceOf(order[1..], n) + 1
  }

  // The table with slot n unlinked and made a tombstone.
  ghost function Cut<K, V>(t: Table<K, V>, n: nat): (r: Table<K, V>)
    requires n < |t|
    ensures |r| == |t|
  {
    seq(|t|, m requires 0 <= m < |t| =>
      if m == n then Slot(Freed, None, NIL, NIL)
      else t[m].(next := if m == t[n].prev then t[n].next else t[m].next,
                 prev := if m == t[n].next then t[n].prev else t[m].prev))
  }

  // The neighbours of a live slot in the list.
  lemma Neighbours<K, V>(t: Table<K, V>, order: seq<nat>, n: nat)
    requires Threaded(t, order) && n < |t| && t[n].k.Live?
    ensures var i := PlaceOf(order, n);
      && i < |order| && order[i] == n
      && t[n].next == IndexAt(order, i + 1) && t[n].prev == IndexAt(order, i - 1)
      && (i + 1 < |order| ==> order[i + 1] < |t| && order[i + 1] != n)
      && (i > 0 ==> order[i - 1] < |t| && order[i - 1] != n)
      && (0 < i && i + 1 < |order| ==> order[i - 1] != order[i + 1])
      && (i > 0 ==> order[0] != n) && (i + 1 < |order| ==> order[|order| - 1] != n)
  {
    assert Covered(order, n);
    var i := PlaceOf(order, n);
    assert SlotOk(t, order, i);
    SamePlace(order, 0, i);
    SamePlace(order, i, |order| - 1);
    if i + 1 < |order| {
      assert SlotOk(t, order, i + 1);
      SamePlace(order, i, i + 1);
    }
    if i > 0 {
      assert SlotOk(t, order, i - 1);
      SamePlace(order, i, i - 1);
      if i + 1 < |order| {
        SamePlace(order, i - 1, i + 1);
      }
    }
  }

  // What unlinking slot n makes of the table.
  lemma CutOut<K, V>(t: Table<K, V>, order: seq<nat>, hash: K -> nat, n: nat)
    requires Threaded(t, order) && n < |t| && t[n].k.Live?
    requires Reachable(t, hash) && UniqueKeys(Pairs(t, order))
    ensures var i, t' := PlaceOf(order, n), Cut(t, n);
      && i < |order|
      && Threaded(t', Without(order, i)) && Reachable(t', hash)
      && Pairs(t', Without(order, i)) == Without(Pairs(t, order), i)
      && UniqueKeys(Pairs(t', Without(order, i)))
      && (t[n].k, t[n].v) == Pairs(t, order)[i]
  {
    hide Threaded, Reachable, UniqueKeys, SlotOk;
    Neighbours(t, order, n);
    var i := PlaceOf(order, n);
    Unlink(t, order, i, Cut(t, n));
    ReachableAfter(t, Cut(t, n), hash, n);
    UniqueWithout(Pairs(t, order), i);
  }

  // Changing the i-th value changes nothing else.
  lemma Revalue<K, V>(t: Table<K, V>, order: seq<nat>, hash: K -> nat, i: nat, v: Option<V>)
    requires Threaded(t, order) && |t| > 0 && Reachable(t, hash) && UniqueKeys(Pairs(t, order)) && i < |order|
    ensures order[i] < |t| && t[order[i]].k.Live?
    ensures var t' := t[order[i] := t[order[i]].(v := v)];
      && Threaded(t', order) && Reachable(t', hash)
      && Pairs(t', order) == Pairs(t, order)[i := (t[order[i]].k, v)] && UniqueKeys(Pairs(t', order))
  {
    RevalueThreaded(t, order, i, v);
    var n := order[i];
    var t' := t[n := t[n].(v := v)];
    assert PathTaken(t, Home(hash, t[n].k.key, |t|), n);
    ReachableAfter(t, t', hash, n);
    SameKeys(Pairs(t, order), i, v);
  }

  lemma RevalueThreaded<K, V>(t: Table<K, V>, order: seq<nat>, i: nat, v: Option<V>)
    requires Threaded(t, order) && i < |order|
    ensures order[i] < |t| && t[order[i]].k.Live?
    ensures var t' := t[order[i] := t[order[i]].(v := v)];
      && Threaded(t', order)
      && Pairs(t', order) == Pairs(t, order)[i := (t[order[i]].k, v)] && Pairs(t, order)[i].0 == t[order[i]].k
  {
    assert SlotOk(t, order, i);
    var n := order[i];
    var t' := t[n := t[n].(v := v)];
    forall j | 0 <= j < |order|
      ensures SlotOk(t', order, j) && PairAt(t', order[j]) == if j == i then (t[n].k, v) else PairAt(t, order[j])
    {
      assert SlotOk(t, order, j);
      SamePlace(order, i, j);
    }
    forall m | 0 <= m < |t'| && t'[m].k.Live?
      ensures Covered(order, m)
    {
      assert Covered(order, m);
    }
  }

  lemma SameKeys<K, V>(es: Entries<K, V>, i: nat, v: Option<V>)
    requires UniqueKeys(es) && i < |es|
    ensures UniqueKeys(es[i := (es[i].0, v)])
  {
    var es' := es[i := (es[i].0, v)];
    forall j, l | 0 <= j < l < |es'|
      ensures KeysDiffer(es', j, l)
    {
      assert KeysDiffer(es, j, l);
    }
  }

  // ---- struct lh_table ---------------------------------------------------------------

  class LhTable<K(==), V> {
    const hash: K -> nat
    var size: nat
    var count: nat
    var head: int
    var tail: int
    var table: Table<K, V>
    ghost var order: seq<nat>

    ghost predicate Valid()
      reads this
    {
      && |table| == size > 0
      && count == |order| <= size
      && Reachable(table, hash)
      && Threaded(table, order)
      && head == IndexAt(order, 0)
      && tail == IndexAt(order, |order| - 1)
      && UniqueKeys(Entries())
    }

    // The key/value pairs in insertion order.
    ghost function Entries(): Entries<K, V>
      reads this
    {
      Pairs(table, order)
    }

    // lh_table_new
    constructor (size: nat, hash: K -> nat)
      requires size > 0
      ensures Valid() && Entries() == [] && this.size == size && this.hash == hash
    {
      this.size, this.hash, count, head, tail := size, hash, 0, NIL, NIL;
      table := seq(size, _ => Slot(Empty, None, NIL, NIL));
      order := [];
    }

    // lh_table_lookup_entry: the slot that holds k, or NIL.
    method LookupEntry(k: K) returns (n: int)
      requires Valid()
      ensures n == NIL <==> !HasKey(Entries(), k)
      ensures n != NIL ==> 0 <= n < size && Holds(table, n, k)
    {
      HoldsIffHasKey(table, order, k);
      var h := Home(hash, k, size);
      n := h;
      var steps := 0;
      while steps < size
        invariant 0 <= steps <= size && (steps < size ==> n == Wrap(h, steps, size))
        invariant Passed(table, h, steps, k)
      {
        if table[n].k == Empty {
          SearchEnds(table, hash, k, steps);
          return NIL;
        }
        if table[n].k != Freed && table[n].k.key == k {
          assert Holds(table, n, k);
          return;
        }
        n := n + 1;
        if n == size {
          n := 0;
        }
        steps := steps + 1;
      }
      SearchEnds(table, hash, k, steps);
      n := NIL;
    }

    // lh_table_lookup_ex: whether k is present, and its value.
    method Lookup(k: K) returns (found: bool, v: Option<V>)
      requires Valid()
      ensures found == HasKey(Entries(), k)
      ensures v == if found then Entries()[Position(Entries(), k)].1 else None
    {
      var n := LookupEntry(k);
      if n == NIL {
        return false, None;
      }
      AtPosition(n, k);
      found, v := true, table[n].v;
    }

    // The slot that holds k is the one at k's position in the order.
    lemma AtPosition(n: nat, k: K)
      requires Valid() && n < size && Holds(table, n, k)
      ensures HasKey(Entries(), k) && Position(Entries(), k) < |order| && order[Position(Entries(), k)] == n
    {
      assert Covered(order, n);
      var i :| 0 <= i < |order| && order[i] == n;
      assert Entries()[i].0 == Live(k);
      PositionUnique(Entries(), k, i);
    }

    // The part of lh_table_insert after the load check: take the first slot on k's path
    // that holds no key and link it behind the last one.
    method Place(k: K, v: Option<V>)
      requires Valid() && count < size && !HasKey(Entries(), k)
      modifies this
      ensures Valid() && size == old(size)
      ensures Entries() == old(Entries()) + [(Live(k), v)]
    {
      hide Threaded, Reachable, UniqueKeys, Pairs, HasKey;
      var n := FindFree(k);
      LinkedHash(n, k, v);
      var t := table[n := table[n].(k := Live(k), v := v)];
      count := count + 1;
      if head == NIL {
        head := n;
        t := t[n := t[n].(next := NIL, prev := NIL)];
      } else {
        t := t[tail := t[tail].(next := n)];
        t := t[n := t[n].(prev := tail, next := NIL)];
      }
      assert t == if tail == NIL then table[n := Slot(Live(k), v, NIL, tail)]
                  else table[n := Slot(Live(k), v, NIL, tail)][tail := table[tail].(next := n)];
      tail, table := n, t;
      order := order + [n];
    }

    // The probing loop of lh_table_insert.
    method FindFree(k: K) returns (n: nat)
      requires Valid() && count < size
      ensures n < size && !table[n].k.Live? && PathTaken(table, Home(hash, k, size), n)
    {
      SomeSlotFree(table, order);
      var h := Home(hash, k, size);
      n := h;
      ghost var steps := 0;
      ghost var m: nat :| 0 <= m < size && !table[m].k.Live?;
      while table[n].k.Live?
        invariant 0 <= steps <= Steps(h, m, size) && n == Wrap(h, steps, size)
        invariant forall s :: 0 <= s < steps ==> Taken(table, h, s)
        decreases size - steps
      {
        assert Taken(table, h, steps);
        n := n + 1;
        if n == size {
          n := 0;
        }
        steps := steps + 1;
      }
    }

    // What linking k into slot n makes of the table.
    lemma LinkedHash(n: nat, k: K, v: Option<V>)
      requires Valid() && !HasKey(Entries(), k)
      requires n < size && !table[n].k.Live? && PathTaken(table, Home(hash, k, size), n)
      ensures tail == NIL || (0 <= tail < size && tail != n)
      ensures var t1 := table[n := Slot(Live(k), v, NIL, tail)];
        var t' := if tail == NIL then t1 else t1[tail := t1[tail].(next := n)];
        && Threaded(t', order + [n]) && Reachable(t', hash)
        && Pairs(t', order + [n]) == Entries() + [(Live(k), v)]
        && UniqueKeys(Pairs(t', order + [n]))
    {
      if order != [] {
        assert SlotOk(table, order, |order| - 1);
      }
      var t1 := table[n := Slot(Live(k), v, NIL, tail)];
      var t' := if tail == NIL then t1 else t1[tail := t1[tail].(next := n)];
      LinkLast(table, order, n, k, v, t');
      ReachableAfter(table, t', hash, n);
      UniqueAppend(Entries(), (Live(k), v));
    }

    // The load check: count >= size * 0.66.
    predicate Overloaded()
      reads this
    {
      count as real >= size as real * 0.66
    }

    // A table of newSize slots takes n entries without a resize on the way.
    static predicate Fits(n: nat, newSize: nat)
    {
      n > 0 ==> (n - 1) as real < newSize as real * 0.66
    }

    // lh_table_resize: insert every entry, in list order, into a table of another size. The
    // result is a sound table exactly if none of these insertions resizes that table again,
    // since size is set to the size asked for.
    method Resize(newSize: nat)
      requires Valid() && newSize > 0
      modifies this
      ensures size == newSize && Entries() == old(Entries()) && count == old(count)
      ensures |table| == size <==> Fits(old(count), newSize)
      ensures Valid() <==> Fits(old(count), newSize)
      decreases if Fits(count, newSize) then 1 else 3
    {
      hide Threaded, Reachable, UniqueKeys, Pairs, HasKey;
      var t := new LhTable<K, V>(newSize, hash);
      CountIsLength();
      var ent := head;
      ghost var i := 0;
      while ent != NIL
        invariant 0 <= i <= |order| && ent == IndexAt(order, i)
        invariant unchanged(this)
        invariant t.Valid() && fresh(t) && t.hash == hash
        invariant t.Entries() == Entries()[..i]
        invariant if Fits(i, newSize) then t.size == newSize else t.size > newSize
        decreases |order| - i
      {
        NextEntry(i);
        t.CountIsLength();
        t.Insert(table[ent].k.key, table[ent].v);
        ent := table[ent].next;
        i := i + 1;
      }
      t.CountIsLength();
      table, size, head, tail := t.table, newSize, t.head, t.tail;
      order := t.order;
    }

    lemma CountIsLength()
      requires |table| == size && count == |order|
      ensures |Entries()| == |order| == count
    {
    }

    // The i-th entry of the list: what it holds and what follows it.
    lemma NextEntry(i: nat)
      requires Valid() && i < |order|
      ensures var n := order[i]; n < size && table[n].k.Live? && table[n].next == IndexAt(order, i + 1)
      ensures Entries()[..i + 1] == Entries()[..i] + [(Live(table[order[i]].k.key), table[order[i]].v)]
      ensures !HasKey(Entries()[..i], table[order[i]].k.key)
      ensures |Entries()[..i]| == i
    {
      assert SlotOk(table, order, i);
      forall j | 0 <= j < i
        ensures Entries()[j].0 != table[order[i]].k
      {
        assert KeysDiffer(Entries(), j, i);
      }
    }

    // lh_table_insert of a key that is not present.
    method Insert(k: K, v: Option<V>)
      requires Valid() && !HasKey(Entries(), k)
      modifies this
      ensures Valid() && Entries() == old(Entries()) + [(Live(k), v)]
      ensures size == if 100 * old(count) >= 66 * old(size) then 2 * old(size) else old(size)
      decreases if Overloaded() then 2 else 0
    {
      if Overloaded() {
        Resize(2 * size);
      }
      Place(k, v);
    }

    // lh_table_delete_entry: -2 for a pointer in front of the table, -1 for a slot without
    // an entry, else the entry is gone and has been passed to free_fn.
    method DeleteEntry(n: int) returns (result: int, freed: Option<(Key<K>, Option<V>)>)
      requires Valid() && n < size
      modifies this
      ensures Valid() && size == old(size)
      ensures result == if n < 0 then -2 else if old(table)[n].k.Live? then 0 else -1
      ensures result != 0 ==> freed == None && table == old(table) && Entries() == old(Entries())
      ensures result == 0 ==>
        && PlaceOf(old(order), n) < |old(order)|
        && freed == Some(old(Entries())[PlaceOf(old(order), n)])
        && Entries() == Without(old(Entries()), PlaceOf(old(order), n))
    {
      hide Threaded, Reachable, UniqueKeys, Pairs, SlotOk, PlaceOf;
      if n < 0 {
        return -2, None;
      }
      if !table[n].k.Live? {
        return -1, None;
      }
      var e := DropEntry(n);
      result, freed := 0, Some(e);
    }

    // The same for a slot with an entry.
    method DropEntry(n: nat) returns (freed: (Key<K>, Option<V>))
      requires Valid() && n < size && table[n].k.Live?
      modifies this
      ensures Valid() && size == old(size)
      ensures PlaceOf(old(order), n) < |old(order)|
      ensures freed == old(Entries())[PlaceOf(old(order), n)]
      ensures Entries() == Without(old(Entries()), PlaceOf(old(order), n))
    {
      hide Threaded, Reachable, UniqueKeys, Pairs, SlotOk, PlaceOf;
      ghost var i := PlaceOf(order, n);
      Neighbours(table, order, n);
      CutOut(table, order, hash, n);
      freed := (table[n].k, table[n].v);
      count := count - 1;
      var t := table[n := table[n].(v := None, k := Freed)];
      if tail == n && head == n {
        head, tail := NIL, NIL;
      } else if head == n {
        t := t[t[n].next := t[t[n].next].(prev := NIL)];
        head := t[n].next;
      } else if tail == n {
        t := t[t[n].prev := t[t[n].prev].(next := NIL)];
        tail := t[n].prev;
      } else {
        t := t[t[n].prev := t[t[n].prev].(next := t[n].next)];
        t := t[t[n].next := t[t[n].next].(prev := t[n].prev)];
      }
      t := t[n := t[n].(next := NIL, prev := NIL)];
      assert t == Cut(table, n);
      table := t;
      order := Without(order, i);
    }

    // lh_table_delete
    method Delete(k: K) returns (result: int)
      requires Valid()
      modifies this
      ensures Valid() && size == old(size)
      ensures result == if HasKey(old(Entries()), k) then 0 else -1
      ensures Entries() == Removed(old(Entries()), k)
    {
      var n := LookupEntry(k);
      if n == NIL {
        return -1;
      }
      AtPosition(n, k);
      ghost var i := Position(Entries(), k);
      SlotPlace(n, i);
      var freed;
      result, freed := DeleteEntry(n);
    }

    lemma SlotPlace(n: nat, i: nat)
      requires Valid() && i < |order| && order[i] == n
      ensures PlaceOf(order, n) == i
    {
      SamePlace(order, i, PlaceOf(order, n));
    }

    // json_object_object_add: replace the value of a key that is present, in place, or
    // insert it at the end. The displaced value is the one that loses a reference.
    method ObjectAdd(k: K, v: Option<V>) returns (displaced: Option<V>)
      requires Valid()
      modifies this
      ensures Valid() && Entries() == Added(old(Entries()), k, v)
      ensures displaced == Found(old(Entries()), k)
    {
      hide Threaded, Reachable, UniqueKeys, Pairs;
      var n := LookupEntry(k);
      PositionIff(Entries(), k);
      if n == NIL {
        Insert(k, v);
        return None;
      }
      AtPosition(n, k);
      displaced := table[n].v;
      PairsAt(table, order, Position(Entries(), k));
      Revalue(table, order, hash, Position(Entries(), k), v);
      table := table[n := table[n].(v := v)];
    }

    // lh_foreach: the entries met by following the list from its head.
    method Traverse() returns (es: Entries<K, V>)
      requires Valid()
      ensures es == Entries()
    {
      hide Threaded, Reachable, UniqueKeys, Pairs;
      es := [];
      var ent := head;
      ghost var i := 0;
      CountIsLength();
      while ent != NIL
        invariant 0 <= i <= |order| && ent == IndexAt(order, i)
        invariant es == Entries()[..i]
        decreases |order| - i
      {
        NextEntry(i);
        es := es + [(table[ent].k, table[ent].v)];
        ent := table[ent].next;
        i := i + 1;
      }
    }
  }

  // ---- The ordered map that a table stands for -------------------------------------

  function Found<K(==), V>(es: Entries<K, V>, k: K): Option<V>
  {
    var i := Position(es, k);
    if i < |es| then es[i].1 else None
  }

  function Added<K(==), V>(es: Entries<K, V>, k: K, v: Option<V>): Entries<K, V>
  {
    var i := Position(es, k);
    if i < |es| then es[i := (Live(k), v)] else es + [(Live(k), v)]
  }

  function Removed<K(==), V>(es: Entries<K, V>, k: K): Entries<K, V>
  {
    var i := Position(es, k);
    if i < |es| then Without(es, i) else es
  }

  // The map answers as a map must: a key has the value last given to it.
  lemma FoundAfterAdded<K, V>(es: Entries<K, V>, k: K, v: Option<V>, k': K)
    requires UniqueKeys(es)
    ensures UniqueKeys(Added(es, k, v))
    ensures Found(Added(es, k, v), k') == if k' == k then v else Found(es, k')
    ensures HasKey(Added(es, k, v), k') <==> k' == k || HasKey(es, k')
  {
    var es', i, j := Added(es, k, v), Position(es, k), Position(es, k');
    PositionIff(es, k);
    forall a, b | 0 <= a < b < |es'|
      ensures KeysDiffer(es', a, b)
    {
      if b < |es| {
        assert KeysDiffer(es, a, b);
      }
    }
    assert es'[i].0 == Live(k);
    PositionUnique(es', k, i);
    if j < |es| {
      assert es'[j].0 == Live(k');
      PositionUnique(es', k', j);
    } else if k' != k {
      assert forall a :: 0 <= a < |es'| ==> es'[a].0 != Live(k');
    }
    PositionIff(es, k');
    PositionIff(es', k');
  }

  // Adding keeps the order of the keys; a new key comes last.
  lemma AddedOrder<K, V>(es: Entries<K, V>, k: K, v: Option<V>)
    ensures Keys(Added(es, k, v)) == if HasKey(es, k) then Keys(es) else Keys(es) + [Live(k)]
  {
    PositionIff(es, k);
  }

  function Keys<K, V>(es: Entries<K, V>): seq<Key<K>>
  {
    seq(|es|, i requires 0 <= i < |es| => es[i].0)
  }

  lemma FoundAfterRemoved<K, V>(es: Entries<K, V>, k: K, k': K)
    requires UniqueKeys(es)
    ensures UniqueKeys(Removed(es, k)) && !HasKey(Removed(es, k), k)
    ensures k' != k ==>
      Found(Removed(es, k), k') == Found(es, k') && (HasKey(Removed(es, k), k') <==> HasKey(es, k'))
  {
    var es', i, j := Removed(es, k), Position(es, k), Position(es, k');
    PositionIff(es, k);
    PositionIff(es, k');
    PositionIff(es', k');
    if i < |es| {
      UniqueWithout(es, i);
      forall a | 0 <= a < |es'|
        ensures es'[a].0 != Live(k)
      {
        var b := if a < i then a else a + 1;
        assert es'[a] == es[b];
        assert KeysDiffer(es, if b < i then b else i, if b < i then i else b);
      }
      if k' != k {
        if j < |es| {
          PositionUnique(es', k', if j < i then j else j - 1);
        } else {
          assert forall a :: 0 <= a < |es'| ==> es'[a] == es[if a < i then a else a + 1];
        }
      }
    }
  }

  // ---- Whole runs ----------------------------------------------------------------------

  datatype Op<+K, +V> = Put(k: K, v: Option<V>) | Drop(k: K) | Get(k: K)

  function Apply<K(==), V>(es: Entries<K, V>, op: Op<K, V>): Entries<K, V>
  {
    match op
    case Put(k, v) => Added(es, k, v)
    case Drop(k) => Removed(es, k)
    case Get(_) => es
  }

  function ApplyAll<K(==), V>(es: Entries<K, V>, ops: seq<Op<K, V>>): Entries<K, V>
  {
    if ops == [] then es else Apply(ApplyAll(es, ops[..|ops| - 1]), ops[|ops| - 1])
  }

  // What a call tells its caller: the value an addition displaced, whether a deletion
  // found the key, and for a lookup whether the key is there and with what value, NULL
  // being a value too.
  datatype Answer<+V> = Displaced(v: Option<V>) | Dropped(present: bool) | Got(present: bool, v: Option<V>)

  function AnswerTo<K(==), V>(es: Entries<K, V>, op: Op<K, V>): Answer<V>
  {
    match op
    case Put(k, _) => Displaced(Found(es, k))
    case Drop(k) => Dropped(Position(es, k) < |es|)
    case Get(k) => Got(Position(es, k) < |es|, Found(es, k))
  }

  // One call, and what it answers.
  method RunOne<K(==), V>(t: LhTable<K, V>, op: Op<K, V>) returns (answer: Answer<V>)
    requires t.Valid()
    modifies t
    ensures t.Valid() && t.Entries() == Apply(old(t.Entries()), op) && answer == AnswerTo(old(t.Entries()), op)
  {
    hide Threaded, Reachable, UniqueKeys, Pairs;
    PositionIff(t.Entries(), op.k);
    match op {
      case Put(k, v) =>
        var displaced := t.ObjectAdd(k, v);
        answer := Displaced(displaced);
      case Drop(k) =>
        var r := t.Delete(k);
        answer := Dropped(r == 0);
      case Get(k) =>
        var found, v := t.Lookup(k);
        answer := Got(found, v);
    }
  }

  // Any run of additions, deletions and lookups on a new table: the table stands for the
  // ordered map throughout, and every call answers as that map does.
  method Run<K(==), V>(size: nat, hash: K -> nat, ops: seq<Op<K, V>>)
    returns (t: LhTable<K, V>, answers: seq<Answer<V>>)
    requires size > 0
    ensures fresh(t) && t.Valid() && t.Entries() == ApplyAll([], ops)
    ensures |answers| == |ops|
    ensures forall i :: 0 <= i < |ops| ==> answers[i] == AnswerTo(ApplyAll([], ops[..i]), ops[i])
  {
    hide LhTable.Valid, LhTable.Entries, AnswerTo, Apply;
    t := new LhTable<K, V>(size, hash);
    answers := [];
    for n := 0 to |ops|
      invariant |answers| == n
      invariant fresh(t) && t.Valid() && t.Entries() == ApplyAll([], ops[..n])
      invariant forall i :: 0 <= i < n ==> answers[i] == AnswerTo(ApplyAll([], ops[..i]), ops[i])
    {
      assert ops[..n + 1][..n] == ops[..n];
      var answer := RunOne(t, ops[n]);
      answers := answers + [answer];
    }
    assert ops[..|ops|] == ops;
  }
}
