// The ownership side of json_tokener_parse_ex: what the cases of its switch allocate,
// share and free, driven by JsonMachine.
module JsonOwnedParse {
  import opened Bytes
  import opened Wrappers
  import opened Json
  import opened JsonMachine
  import opened JsonOwnership
  import JsonTokener

  // What a level of the tokener's stack owns: the object it has begun and a field name.
  datatype Val = Val(current: Json, field: Option<seq<byte>>)

  const NOTHING: Val := Val(Null, None)

  ghost predicate LevelHolds(h: Heap, k: Kid, v: Val)
  {
    && Holds(h, k.tree) && ToJson(k.tree) == v.current
    && (match v.field case None => k.name == NULL case Some(f) => IsName(h, k.name, f))
  }

  // The levels and the local variable obj own every live cell, each exactly once.
  ghost predicate Owned(h: Heap, stack: seq<Kid>, vals: seq<Val>, tree: Tree, value: Json)
  {
    && |stack| == |vals|
    && (forall k :: 0 <= k < |vals| ==> LevelHolds(h, stack[k], vals[k]))
    && Holds(h, tree) && ToJson(tree) == value
    && Live(h) == KidsFoot(stack) + Foot(tree)
  }

  lemma NullNil(h: Heap, t: Tree)
    requires Holds(h, t) && ToJson(t) == Null
    ensures t == Nil
  {
  }

  lemma TwoKids(kids: seq<Kid>, i: nat, j: nat)
    requires i < |kids| && j < |kids| && i != j
    ensures KidFoot(kids[i]) + KidFoot(kids[j]) <= KidsFoot(kids)
  {
    hide KidFoot, KidsFoot;
    KidsSplit(kids, i);
    if j < i {
      KidsUpdate(kids[..i], j, kids[..i][j]);
    } else {
      KidsUpdate(kids[i + 1..], j - i - 1, kids[i + 1..][j - i - 1]);
    }
  }

  lemma LevelFrame(h: Heap, h': Heap, k: Kid, v: Val)
    requires LevelHolds(h, k, v) && Agree(h, h', KidFoot(k))
    ensures LevelHolds(h', k, v)
  {
    hide Holds, ToJson;
    assert KidFoot(k) == One(k.name) + Foot(k.tree);
    HoldsFrame(h, h', k.tree);
  }

  lemma Balance(live: multiset<Addr>, b: multiset<Addr>, t: multiset<Addr>, b': multiset<Addr>, t': multiset<Addr>,
                s: multiset<Addr>, s': multiset<Addr>)
    requires live + (b + t) == s + t + (b' + t') && s' + b == s + b'
    ensures live == s' + t'
  {
    forall a
      ensures live[a] == (s' + t')[a]
    {
      assert (live + (b + t))[a] == (s + t + (b' + t'))[a] && (s' + b)[a] == (s + b')[a];
    }
  }

  // What is neither on level i nor on its way there is not level j's business.
  lemma OtherLevel(h: Heap, h': Heap, stack: seq<Kid>, tree: Tree, i: nat, j: nat)
    requires i < |stack| && j < |stack| && i != j && Live(h) == KidsFoot(stack) + Foot(tree)
    requires forall a :: a in h && a !in KidFoot(stack[i]) && a !in Foot(tree) ==> a in h' && h'[a] == h[a]
    ensures Agree(h, h', KidFoot(stack[j]))
  {
    hide KidFoot, Foot, KidsFoot;
    TwoKids(stack, i, j);
    forall a | a in KidFoot(stack[j]) && a in h
      ensures a in h' && h'[a] == h[a]
    {
      assert Live(h)[a] <= 1;
      assert KidsFoot(stack)[a] >= KidFoot(stack[i])[a] + KidFoot(stack[j])[a];
    }
  }

  // One level and obj change hands; the other levels do not notice.
  lemma Replaced(h: Heap, h': Heap, stack: seq<Kid>, vals: seq<Val>, tree: Tree, value: Json,
                 i: nat, k': Kid, v': Val, tree': Tree, value': Json)
    requires Owned(h, stack, vals, tree, value) && i < |stack|
    requires LevelHolds(h', k', v') && Holds(h', tree') && ToJson(tree') == value'
    requires Live(h') + (KidFoot(stack[i]) + Foot(tree)) == Live(h) + (KidFoot(k') + Foot(tree'))
    requires forall a :: a in h && a !in KidFoot(stack[i]) && a !in Foot(tree) ==> a in h' && h'[a] == h[a]
    ensures Owned(h', stack[i := k'], vals[i := v'], tree', value')
  {
    hide Holds, ToJson, KidFoot, Foot, KidsFoot, LevelHolds;
    KidsUpdate(stack, i, k');
    Balance(Live(h'), KidFoot(stack[i]), Foot(tree), KidFoot(k'), Foot(tree'),
            KidsFoot(stack), KidsFoot(stack[i := k']));
    forall j | 0 <= j < |vals| && j != i
      ensures LevelHolds(h', stack[j], vals[j])
    {
      OtherLevel(h, h', stack, tree, i, j);
      LevelFrame(h, h', stack[j], vals[j]);
    }
  }

  // One level changes; obj does not notice either.
  lemma ReplacedAlone(h: Heap, h': Heap, stack: seq<Kid>, vals: seq<Val>, tree: Tree, value: Json,
                      i: nat, k': Kid, v': Val)
    requires Owned(h, stack, vals, tree, value) && i < |stack| && LevelHolds(h', k', v')
    requires Live(h') + KidFoot(stack[i]) == Live(h) + KidFoot(k')
    requires forall a :: a in h && a !in KidFoot(stack[i]) ==> a in h' && h'[a] == h[a]
    ensures Owned(h', stack[i := k'], vals[i := v'], tree, value)
  {
    hide Holds, ToJson, KidFoot, Foot, KidsFoot, LevelHolds;
    KidsUpdate(stack, i, stack[i]);
    forall a | a in Foot(tree) && a in h
      ensures a in h' && h'[a] == h[a]
    {
      assert Live(h)[a] <= 1;
    }
    HoldsFrame(h, h', tree);
    assert Live(h') + (KidFoot(stack[i]) + Foot(tree)) == Live(h') + KidFoot(stack[i]) + Foot(tree);
    assert Live(h) + (KidFoot(k') + Foot(tree)) == Live(h) + KidFoot(k') + Foot(tree);
    Replaced(h, h', stack, vals, tree, value, i, k', v', tree, value);
  }

  // A value that a new cell begins.
  ghost predicate Begins(kind: Kind, j: Json)
  {
    match kind
    case Scalar(v) => IsScalar(v) && j == v
    case Container(o, es) => es == [] && j == if o then Obj([]) else Arr([])
    case Name(_) => false
  }

  lemma BeginsTree(h: Heap, a: Addr, kind: Kind, j: Json) returns (t: Tree)
    requires Begins(kind, j) && a != NULL && a in h && h[a] == Cell(1, kind)
    ensures Holds(h, t) && ToJson(t) == j && Foot(t) == multiset{a} && Root(t) == a
  {
    match kind
    case Scalar(v) => t := Leaf(a, v);
    case Container(o, _) =>
      t := Node(a, o, []);
      assert EntriesOf([]) == [];
  }

  // A level that owns no field name gets one.
  lemma Named(h: Heap, h': Heap, k: Kid, v: Val, a: Addr, text: seq<byte>)
    requires LevelHolds(h, k, v) && v.field == None && a != NULL && a !in h
    requires h' == h[a := Cell(1, Name(text))]
    ensures LevelHolds(h', k.(name := a), v.(field := Some(text)))
    ensures Live(h') + KidFoot(k) == Live(h) + KidFoot(k.(name := a))
  {
    hide Holds, ToJson, Foot;
    HoldsFrame(h, h', k.tree);
    assert Live(h') == Live(h) + multiset{a};
    assert KidFoot(k) == Foot(k.tree) && KidFoot(k.(name := a)) == multiset{a} + Foot(k.tree);
  }

  lemma EntriesUpdate(kids: seq<Kid>, i: nat, k: Kid)
    requires i < |kids|
    ensures EntriesOf(kids[i := k]) == EntriesOf(kids)[i := Entry(k.name, Root(k.tree))]
  {
  }

  lemma EntriesMore(kids: seq<Kid>, k: Kid)
    ensures EntriesOf(kids + [k]) == EntriesOf(kids) + [Entry(k.name, Root(k.tree))]
  {
  }

  lemma OwnedTop(h: Heap, stack: seq<Kid>, vals: seq<Val>, tree: Tree, value: Json)
    requires Owned(h, stack, vals, tree, value)
    ensures |stack| == |vals|
    ensures forall i :: 0 <= i < |stack| ==> LevelHolds(h, stack[i], vals[i])
    ensures Holds(h, tree) && ToJson(tree) == value
    ensures Live(h) == KidsFoot(stack) + Foot(tree)
  {
  }

  const EMPTY: Kid := Kid(NULL, [], Nil)

  lemma PushedOwned(h: Heap, stack: seq<Kid>, vals: seq<Val>, tree: Tree, value: Json)
    requires Owned(h, stack, vals, tree, value)
    ensures Owned(h, stack + [EMPTY], vals + [NOTHING], tree, value)
  {
    hide Holds, ToJson, KidsFoot;
    KidsMore(stack, EMPTY);
    EmptyLevel(h);
    hide LevelHolds, KidFoot;
  }

  lemma EmptyLevel(h: Heap)
    ensures LevelHolds(h, EMPTY, NOTHING) && KidFoot(EMPTY) == multiset{}
  {
  }

  class Owner {
    const objs: Objects
    var slots: seq<Entry>
    var obj: Addr
    ghost var stack: seq<Kid>
    ghost var tree: Tree
    ghost var vals: seq<Val>
    ghost var value: Json

    ghost predicate Valid()
      reads this, objs
    {
      && objs.Sound() && vals != []
      && slots == EntriesOf(stack) && obj == Root(tree)
      && Owned(objs.heap, stack, vals, tree, value)
    }

    // json_tokener_new
    constructor ()
      ensures Valid() && vals == [NOTHING] && value == Null && fresh(objs)
    {
      objs := new Objects();
      stack, tree, vals, value := [EMPTY], Nil, [NOTHING], Null;
      slots, obj := [Entry(NULL, NULL)], NULL;
      new;
      assert slots == EntriesOf(stack);
      KidsMore([], EMPTY);
      assert [] + stack == stack;
    }

    // current = json_object_new_...
    method NewCurrent(kind: Kind, ghost j: Json)
      requires Valid() && Begins(kind, j) && vals[|vals| - 1] == NOTHING
      modifies this, objs
      ensures Valid() && value == old(value) && tree == old(tree)
      ensures vals == old(vals)[|old(vals)| - 1 := Val(j, None)]
    {
      hide Holds, ToJson, Begins, Owned, KidFoot, KidsFoot, LevelHolds, EntriesOf;
      OwnedTop(objs.heap, stack, vals, tree, value);
      var n := |slots| - 1;
      ghost var h := objs.heap;
      var a := objs.New(kind);
      ghost var k := Begun(h, objs.heap, stack, vals, tree, value, n, a, kind, j);
      EntriesUpdate(stack, n, k);
      slots := slots[n := Entry(NULL, a)];
      stack, vals := stack[n := k], vals[n := Val(j, None)];
    }

    // obj_field_name = strdup(...)
    method SetField(text: seq<byte>)
      requires Valid() && vals[|vals| - 1].field == None
      modifies this, objs
      ensures Valid() && value == old(value) && tree == old(tree)
      ensures var n := |old(vals)| - 1; vals == old(vals)[n := old(vals)[n].(field := Some(text))]
    {
      hide Holds, ToJson, KidFoot, LevelHolds, Owned;
      OwnedTop(objs.heap, stack, vals, tree, value);
      var n := |slots| - 1;
      ghost var h := objs.heap;
      var a := objs.New(Name(text));
      ghost var k, v := stack[n].(name := a), vals[n].(field := Some(text));
      Named(h, objs.heap, stack[n], vals[n], a, text);
      ReplacedAlone(h, objs.heap, stack, vals, tree, value, n, k, v);
      EntriesUpdate(stack, n, k);
      slots := slots[n := slots[n].(name := a)];
      stack, vals := stack[n := k], vals[n := v];
    }

    // tok->depth++ and json_tokener_reset_level, on a level that owns nothing
    method Push()
      requires Valid()
      modifies this
      ensures Valid() && value == old(value) && tree == old(tree) && vals == old(vals) + [NOTHING]
    {
      hide Owned, EntriesOf;
      PushedOwned(objs.heap, stack, vals, tree, value);
      EntriesMore(stack, EMPTY);
      slots := slots + [Entry(NULL, NULL)];
      stack, vals := stack + [EMPTY], vals + [NOTHING];
    }

    // json_tokener_reset_level. The object goes unless something else still refers to it.
    method ResetLevel(i: nat)
      requires objs.Sound() && slots == EntriesOf(stack) && i < |stack| && KidFoot(stack[i]) <= Live(objs.heap)
      requires slots[i].value != NULL ==> slots[i].value in objs.heap && objs.heap[slots[i].value].refs > 0
      requires slots[i].value == NULL || objs.heap[slots[i].value].refs == 1 ==> Holds(objs.heap, stack[i].tree)
      modifies this`slots, this`stack, objs`heap
      ensures objs.Sound() && slots == EntriesOf(stack) && stack == old(stack)[i := EMPTY]
      ensures var a, h := old(slots)[i].value, old(objs.heap);
        objs.heap == if a != NULL && h[a].refs > 1
                     then Freed(h[a := h[a].(refs := h[a].refs - 1)], One(old(slots)[i].name))
                     else Freed(h, KidFoot(old(stack)[i]))
    {
      hide Holds, Foot, EntriesOf;
      ghost var k, h := stack[i], objs.heap;
      assert KidFoot(k) == One(k.name) + Foot(k.tree);
      NameApart(h, k);
      FreedBoth(h, One(k.name), Foot(k.tree));
      objs.Put(slots[i].value, k.tree);
      objs.Free(slots[i].name);
      EntriesUpdate(stack, i, EMPTY);
      slots, stack := slots[i := Entry(NULL, NULL)], stack[i := EMPTY];
    }

    // A level gives up all it owns.
    method ClearLevel(i: nat)
      requires Valid() && i < |slots|
      modifies this, objs`heap
      ensures Valid() && vals == old(vals)[i := NOTHING] && value == old(value) && tree == old(tree) && obj == old(obj)
    {
      hide Holds, ToJson, KidFoot, KidsFoot, Foot, LevelHolds, Owned, EntriesOf;
      ghost var h := objs.heap;
      OwnedTop(h, stack, vals, tree, value);
      KidsUpdate(stack, i, EMPTY);
      LevelRoot(h, stack[i], vals[i]);
      EmptyLevel(h);
      ResetLevel(i);
      EmptyLevel(objs.heap);
      FreedLive(h, KidFoot(old(stack)[i]));
      ReplacedAlone(h, objs.heap, old(stack), vals, tree, value, i, EMPTY, NOTHING);
      vals := vals[i := NOTHING];
    }

    // obj = json_object_get(current), then json_tokener_reset_level
    method ShareTop()
      requires Valid() && tree == Nil
      modifies this, objs`heap
      ensures Valid() && value == old(vals)[|old(vals)| - 1].current
      ensures vals == old(vals)[|old(vals)| - 1 := NOTHING]
    {
      hide Holds, ToJson, KidFoot, KidsFoot, LevelHolds, Owned, EntriesOf;
      ghost var h := objs.heap;
      var n := |slots| - 1;
      OwnedTop(h, stack, vals, tree, value);
      KidsUpdate(stack, n, EMPTY);
      ghost var k, v := stack[n], vals[n];
      LevelRoot(h, k, v);
      obj := slots[n].value;
      objs.Get(obj);
      ghost var h1 := objs.heap;
      ResetLevel(n);
      TopShared(h, old(stack), vals, value, h1, objs.heap);
      tree, value, vals := k.tree, v.current, vals[n := NOTHING];
    }

    // json_object_array_add(current, obj), after which current owns obj
    method AddElement()
      requires Valid() && vals[|vals| - 1].current.Arr?
      modifies this, objs`heap
      ensures Valid() && value == Null && tree == Nil
      ensures var n := |old(vals)| - 1; var v := old(vals)[n];
        vals == old(vals)[n := Val(Arr(v.current.items + [old(value)]), v.field)]
    {
      hide Holds, ToJson, KidFoot, KidsFoot, Foot, LevelHolds, Owned, EntriesOf;
      ghost var h, m := objs.heap, |stack| - 1;
      OwnedTop(h, stack, vals, tree, value);
      LevelNode(h, stack[m], vals[m]);
      var n := |slots| - 1;
      var a := slots[n].value;
      objs.SetEntries(a, objs.heap[a].kind.entries + [Entry(NULL, obj)]);
      ghost var k' := Elemented(h, objs.heap, stack, vals, tree, value);
      EntriesUpdate(stack, n, k');
      EntrySame(slots, n);
      vals := vals[n := Val(Arr(vals[n].current.items + [value]), vals[n].field)];
      obj, tree, value, stack := NULL, Nil, Null, stack[n := k'];
    }

    // The half of json_object_object_add for a key that is not there yet
    method InsertMember(key: seq<byte>)
      requires Valid()
      requires var v := vals[|vals| - 1]; v.current.Obj? && Find(v.current.members, key) == |v.current.members|
      modifies this, objs
      ensures Valid() && value == Null && tree == Nil
      ensures var n := |old(vals)| - 1; var v := old(vals)[n];
        vals == old(vals)[n := v.(current := Obj(WithMember(v.current.members, key, old(value))))]
    {
      hide Holds, ToJson, KidFoot, KidsFoot, Foot, LevelHolds, Owned, EntriesOf, WithMember, Find;
      ghost var h, m := objs.heap, |stack| - 1;
      OwnedTop(h, stack, vals, tree, value);
      LevelNode(h, stack[m], vals[m]);
      var n := |slots| - 1;
      var name := objs.New(Name(key));
      var a := slots[n].value;
      objs.SetEntries(a, objs.heap[a].kind.entries + [Entry(name, obj)]);
      ghost var k' := Inserted(h, objs.heap, stack, vals, tree, value, name, key);
      EntriesUpdate(stack, n, k');
      EntrySame(slots, n);
      vals := vals[n := vals[n].(current := Obj(WithMember(vals[n].current.members, key, value)))];
      obj, tree, value, stack := NULL, Nil, Null, stack[n := k'];
    }

    // The half for a key that is there: its value is released, and the entry keeps its place.
    method ReplaceMember(i: nat, key: seq<byte>)
      requires Valid() && var v := vals[|vals| - 1];
        v.current.Obj? && Find(v.current.members, key) == i < |v.current.members|
      modifies this, objs`heap
      ensures Valid() && value == Null && tree == Nil
      ensures var n := |old(vals)| - 1; var v := old(vals)[n];
        vals == old(vals)[n := v.(current := Obj(WithMember(v.current.members, key, old(value))))]
    {
      hide Holds, ToJson, KidFoot, KidsFoot, Foot, LevelHolds, Owned, EntriesOf, WithMember, Find;
      ghost var h, m := objs.heap, |stack| - 1;
      var n := |slots| - 1;
      ReplaceReady(h, stack, vals, tree, value, i);
      objs.SwapValue(slots[n].value, i, obj, stack[n].tree.kids[i].tree);
      ghost var k' := Exchanged(h, objs.heap, stack, vals, tree, value, i, key);
      EntriesUpdate(stack, n, k');
      EntrySame(slots, n);
      vals := vals[n := vals[n].(current := Obj(WithMember(vals[n].current.members, key, value)))];
      obj, tree, value, stack := NULL, Nil, Null, stack[n := k'];
    }

    // free(obj_field_name)
    method DropField()
      requires Valid()
      modifies this, objs`heap
      ensures Valid() && value == old(value) && tree == old(tree)
      ensures var n := |old(vals)| - 1; vals == old(vals)[n := old(vals)[n].(field := None)]
    {
      hide Holds, ToJson, KidFoot, KidsFoot, Foot, LevelHolds, Owned, EntriesOf, Freed;
      var n := |slots| - 1;
      OwnedTop(objs.heap, stack, vals, tree, value);
      ghost var k' := Dropped(objs.heap, stack, vals, tree, value, n);
      objs.Free(slots[n].name);
      EntriesUpdate(stack, n, k');
      slots := slots[n := slots[n].(name := NULL)];
      stack, vals := stack[n := k'], vals[n := vals[n].(field := None)];
    }

    // json_object_object_add(current, obj_field_name, obj) and free(obj_field_name)
    method AddMember()
      requires Valid() && vals[|vals| - 1].current.Obj? && vals[|vals| - 1].field.Some?
      modifies this, objs
      ensures Valid() && value == Null && tree == Nil
      ensures var n := |old(vals)| - 1; var v := old(vals)[n];
        vals == old(vals)[n := Val(Obj(WithMember(v.current.members, v.field.value, old(value))), None)]
    {
      hide Holds, ToJson, KidFoot, KidsFoot, Foot, Owned, EntriesOf, WithMember;
      var n := |slots| - 1;
      OwnedTop(objs.heap, stack, vals, tree, value);
      LevelNode(objs.heap, stack[n], vals[n]);
      var a := slots[n].value;
      var key := objs.heap[slots[n].name].kind.text;
      var i := objs.Lookup(a, key, stack[n].tree);
      if i == |objs.heap[a].kind.entries| {
        InsertMember(key);
      } else {
        ReplaceMember(i, key);
      }
      DropField();
    }

    // tok->depth--
    method Pop()
      requires Valid() && |vals| > 1 && vals[|vals| - 1] == NOTHING
      modifies this`slots, this`stack, this`vals
      ensures Valid() && vals == old(vals)[..|old(vals)| - 1]
    {
      hide Owned;
      OwnedTop(objs.heap, stack, vals, tree, value);
      PoppedOwned(objs.heap, stack, vals, tree, value);
      var n := |slots| - 1;
      slots := slots[..n];
      stack, vals := stack[..n], vals[..n];
      assert slots == EntriesOf(stack);
    }
  }

  function Rekid(k: Kid, kids: seq<Kid>): Kid
    requires k.tree.Node?
  {
    k.(tree := k.tree.(kids := kids))
  }

  // The container of a level gets other entries, and some cells go.
  lemma SetKids(h: Heap, h': Heap, k: Kid, v: Val, kids: seq<Kid>, gone: multiset<Addr>)
    requires LevelHolds(h, k, v) && k.tree.Node?
    requires forall n :: 0 <= n < |kids| ==> NameHolds(h, k.tree.isObject, kids[n]) && Holds(h, kids[n].tree)
    requires KidFoot(Rekid(k, kids)) + gone <= Live(h)
    requires h' == Freed(h, gone)[k.tree.at := Cell(1, Container(k.tree.isObject, EntriesOf(kids)))]
    ensures LevelHolds(h', Rekid(k, kids), v.(current := ToJson(Rekid(k, kids).tree)))
    ensures Live(h') == Live(h) - gone
    ensures forall x :: x in h && x !in gone && x != k.tree.at ==> x in h' && h'[x] == h[x]
  {
    hide ToJson, Holds, KidsFoot;
    var a := k.tree.at;
    RootHeld(h, k.tree);
    var m := KidsFoot(kids);
    assert KidFoot(Rekid(k, kids)) == One(k.name) + (multiset{a} + m);
    forall x
      ensures (x in m ==> x != a && x !in gone) && (x in One(k.name) ==> x != a && x !in gone) && a !in gone
    {
      assert (KidFoot(Rekid(k, kids)) + gone)[x] <= Live(h)[x] <= 1;
      assert (KidFoot(Rekid(k, kids)) + gone)[a] <= Live(h)[a] <= 1;
    }
    FreedLive(h, gone);
    assert h'.Keys == Freed(h, gone).Keys;
    KidsFrame(h, h', k.tree.isObject, kids);
    NodeHolds(h', a, k.tree.isObject, kids);
  }

  lemma NodeHolds(h: Heap, a: Addr, o: bool, kids: seq<Kid>)
    requires a != NULL && a in h && h[a] == Cell(1, Container(o, EntriesOf(kids)))
    requires forall k :: 0 <= k < |kids| ==> NameHolds(h, o, kids[k]) && Holds(h, kids[k].tree)
    ensures Holds(h, Node(a, o, kids))
  {
  }

  lemma LevelNode(h: Heap, k: Kid, v: Val)
    requires LevelHolds(h, k, v) && (v.current.Arr? || v.current.Obj?)
    ensures k.tree.Node? && k.tree.isObject == v.current.Obj? && k.tree.at != NULL
    ensures k.tree.at in h && h[k.tree.at] == Cell(1, Container(k.tree.isObject, EntriesOf(k.tree.kids)))
    ensures forall n :: 0 <= n < |k.tree.kids| ==>
      NameHolds(h, k.tree.isObject, k.tree.kids[n]) && Holds(h, k.tree.kids[n].tree)
    ensures KidFoot(k) == One(k.name) + (multiset{k.tree.at} + KidsFoot(k.tree.kids))
    ensures Holds(h, k.tree) && ToJson(k.tree) == v.current
    ensures v.current.Obj? ==> |v.current.members| == |k.tree.kids|
  {
  }

  lemma ArrayMore(a: Addr, kids: seq<Kid>, e: Kid)
    ensures ToJson(Node(a, false, kids + [e])) == Arr(ToJson(Node(a, false, kids)).items + [ToJson(e.tree)])
  {
  }

  lemma AppendFoot(k: Kid, e: Kid)
    requires k.tree.Node?
    ensures KidFoot(Rekid(k, k.tree.kids + [e])) == KidFoot(k) + KidFoot(e)
  {
    var kids := k.tree.kids + [e];
    KidsMore(k.tree.kids, e);
    assert KidFoot(Rekid(k, kids)) == One(k.name) + (multiset{k.tree.at} + KidsFoot(kids));
    assert KidFoot(k) == One(k.name) + (multiset{k.tree.at} + KidsFoot(k.tree.kids));
  }

  // The value obj moves into the array of a level.
  lemma Appended(h: Heap, h': Heap, k: Kid, v: Val, e: Kid)
    requires LevelHolds(h, k, v) && (v.current.Arr? || v.current.Obj?)
    requires NameHolds(h, v.current.Obj?, e) && Holds(h, e.tree) && KidFoot(k) + KidFoot(e) <= Live(h)
    requires k.tree.Node?
    requires h' ==
      h[k.tree.at := Cell(1, Container(k.tree.isObject, EntriesOf(k.tree.kids) + [Entry(e.name, Root(e.tree))]))]
    ensures var k' := Rekid(k, k.tree.kids + [e]);
      && LevelHolds(h', k', v.(current := ToJson(k'.tree)))
      && Live(h') == Live(h) && KidFoot(k') == KidFoot(k) + KidFoot(e)
  {
    hide Holds, ToJson, LevelHolds, NameHolds;
    LevelNode(h, k, v);
    AppendFoot(k, e);
    hide KidFoot, KidsFoot;
    var kids := k.tree.kids + [e];
    EntriesMore(k.tree.kids, e);
    FreedNone(h);
    assert KidFoot(Rekid(k, kids)) + multiset{} == KidFoot(Rekid(k, kids));
    SetKids(h, h', k, v, kids, multiset{});
  }

  lemma AppendRoom(h: Heap, stack: seq<Kid>, n: nat, tree: Tree, e: Kid)
    requires Live(h) == KidsFoot(stack) + Foot(tree) && n < |stack| && e == Kid(NULL, [], tree)
    ensures KidFoot(e) == Foot(tree) && KidFoot(stack[n]) + KidFoot(e) <= Live(h)
  {
    KidsUpdate(stack, n, stack[n]);
  }

  lemma MovedIn(h: Heap, h': Heap, k: Kid, e: Kid, k': Kid, tree: Tree)
    requires Live(h') == Live(h) && KidFoot(k') == KidFoot(k) + KidFoot(e) && KidFoot(e) == Foot(tree)
    ensures Live(h') + (KidFoot(k) + Foot(tree)) == Live(h) + (KidFoot(k') + Foot(Nil))
    ensures Holds(h', Nil) && ToJson(Nil) == Null
  {
  }

  lemma EntrySame(slots: seq<Entry>, n: nat)
    requires n < |slots|
    ensures slots[n := slots[n]] == slots
  {
  }

  lemma ObjectMore(a: Addr, kids: seq<Kid>, e: Kid)
    requires Find(ToJson(Node(a, true, kids)).members, e.key) == |kids|
    ensures ToJson(Node(a, true, kids + [e])) ==
      Obj(WithMember(ToJson(Node(a, true, kids)).members, e.key, ToJson(e.tree)))
  {
  }

  lemma ObjectChange(a: Addr, kids: seq<Kid>, i: nat, key: seq<byte>, tree: Tree)
    requires i < |kids| && Find(ToJson(Node(a, true, kids)).members, key) == i
    ensures ToJson(Node(a, true, kids[i := kids[i].(tree := tree)])) ==
      Obj(WithMember(ToJson(Node(a, true, kids)).members, key, ToJson(tree)))
  {
  }

  // Before an entry is added: its name is new, and nothing else has changed.
  lemma NamedEntry(h: Heap, h1: Heap, stack: seq<Kid>, n: nat, k: Kid, v: Val, tree: Tree, e: Kid)
    requires Live(h) == KidsFoot(stack) + Foot(tree) && n < |stack| && k == stack[n] && LevelHolds(h, k, v)
    requires e == Kid(e.name, e.key, tree) && e.name != NULL && e.name !in h && h1 == h[e.name := Cell(1, Name(e.key))]
    requires Holds(h, tree)
    ensures LevelHolds(h1, k, v) && NameHolds(h1, true, e) && Holds(h1, tree)
    ensures KidFoot(e) == multiset{e.name} + Foot(tree)
    ensures Live(h1) == Live(h) + multiset{e.name} && KidFoot(k) + KidFoot(e) <= Live(h1)
  {
    hide Holds, LevelHolds, Foot, KidFoot, KidsFoot;
    KidsUpdate(stack, n, k);
    LevelFrame(h, h1, k, v);
    HoldsFrame(h, h1, tree);
    NamedFoot(e);
    assert Live(h1) == Live(h) + multiset{e.name};
  }

  lemma NamedFoot(e: Kid)
    requires e.name != NULL
    ensures KidFoot(e) == multiset{e.name} + Foot(e.tree)
  {
  }

  lemma MovedInNamed(h: Heap, h1: Heap, h': Heap, k: Kid, e: Kid, k': Kid, tree: Tree)
    requires Live(h1) == Live(h) + multiset{e.name} && KidFoot(e) == multiset{e.name} + Foot(tree)
    requires Live(h') == Live(h1) && KidFoot(k') == KidFoot(k) + KidFoot(e)
    ensures Live(h') + (KidFoot(k) + Foot(tree)) == Live(h) + (KidFoot(k') + Foot(Nil))
    ensures Holds(h', Nil) && ToJson(Nil) == Null
  {
  }

  // Before a value is replaced.
  lemma ReplaceRoom(h: Heap, stack: seq<Kid>, n: nat, k: Kid, i: nat, tree: Tree)
    requires Live(h) == KidsFoot(stack) + Foot(tree) && n < |stack| && k == stack[n]
    requires k.tree.Node? && i < |k.tree.kids|
    requires KidFoot(k) == One(k.name) + (multiset{k.tree.at} + KidsFoot(k.tree.kids))
    ensures var gone, k' := Foot(k.tree.kids[i].tree), Rekid(k, k.tree.kids[i := k.tree.kids[i].(tree := tree)]);
      && KidFoot(k') + gone == KidFoot(k) + Foot(tree)
      && KidFoot(k') + gone <= Live(h)
      && gone <= Live(h) && k.tree.at !in gone && k.tree.at in h
      && gone <= KidFoot(k)
  {
    hide Foot, KidFoot, KidsFoot;
    var kid, a := k.tree.kids[i], k.tree.at;
    var e := kid.(tree := tree);
    var k' := Rekid(k, k.tree.kids[i := e]);
    KidsUpdate(stack, n, k);
    KidsUpdate(k.tree.kids, i, e);
    NodeFoot(kid, e, tree, k');
    Exchange(One(k.name) + multiset{a}, One(kid.name), KidsFoot(k.tree.kids), KidsFoot(k'.tree.kids),
             Foot(kid.tree), Foot(tree));
    assert KidFoot(k') == One(k.name) + multiset{a} + KidsFoot(k'.tree.kids);
    assert KidFoot(k) == One(k.name) + multiset{a} + KidsFoot(k.tree.kids);
    assert KidFoot(k)[a] <= Live(h)[a] <= 1;
  }

  lemma NodeFoot(kid: Kid, e: Kid, tree: Tree, k': Kid)
    requires e == kid.(tree := tree) && k'.tree.Node?
    ensures KidFoot(kid) == One(kid.name) + Foot(kid.tree) && KidFoot(e) == One(kid.name) + Foot(tree)
    ensures KidFoot(k') == One(k'.name) + (multiset{k'.tree.at} + KidsFoot(k'.tree.kids))
  {
  }

  lemma Exchange(base: multiset<Addr>, name: multiset<Addr>, before: multiset<Addr>, after: multiset<Addr>,
                 gone: multiset<Addr>, new': multiset<Addr>)
    requires after + (name + gone) == before + (name + new')
    ensures base + after + gone == base + before + new'
  {
    forall x
      ensures (base + after + gone)[x] == (base + before + new')[x]
    {
      assert (after + (name + gone))[x] == (before + (name + new'))[x];
    }
  }

  lemma FreedSum(h: Heap, h': Heap, k: Kid, k': Kid, tree: Tree, gone: multiset<Addr>)
    requires Live(h') == Live(h) - gone && gone <= Live(h) && KidFoot(k') + gone == KidFoot(k) + Foot(tree)
    ensures Live(h') + (KidFoot(k) + Foot(tree)) == Live(h) + (KidFoot(k') + Foot(Nil))
    ensures Holds(h', Nil) && ToJson(Nil) == Null
  {
    SumBack(Live(h), Live(h'), KidFoot(k), KidFoot(k'), Foot(tree), gone);
    assert Live(h) + (KidFoot(k') + Foot(Nil)) == Live(h) + KidFoot(k');
  }

  lemma SumBack(live: multiset<Addr>, live': multiset<Addr>, k: multiset<Addr>, k': multiset<Addr>, t: multiset<Addr>,
                gone: multiset<Addr>)
    requires live' == live - gone && gone <= live && k' + gone == k + t
    ensures live' + (k + t) == live + k'
  {
    assert live' + gone == live;
    assert live' + (k' + gone) == (live' + gone) + k';
  }

  // The top level begins a value in a new cell.
  lemma Begun(h: Heap, h': Heap, stack: seq<Kid>, vals: seq<Val>, tree: Tree, value: Json, n: nat,
              a: Addr, kind: Kind, j: Json) returns (k: Kid)
    requires Owned(h, stack, vals, tree, value) && n < |stack| == |vals| && vals[n] == NOTHING
    requires Begins(kind, j) && a != NULL && a !in h && h' == h[a := Cell(1, kind)]
    ensures k.name == NULL && Root(k.tree) == a
    ensures Owned(h', stack[n := k], vals[n := Val(j, None)], tree, value)
  {
    hide Holds, ToJson, Begins, Owned, KidFoot, KidsFoot, Foot, LevelHolds;
    OwnedTop(h, stack, vals, tree, value);
    NothingHeld(h, stack[n]);
    var t := BeginsTree(h', a, kind, j);
    k := Kid(NULL, [], t);
    BegunLevel(h', k, j);
    assert Live(h') == Live(h) + multiset{a};
    ReplacedAlone(h, h', stack, vals, tree, value, n, k, Val(j, None));
  }

  lemma BegunLevel(h: Heap, k: Kid, j: Json)
    requires Holds(h, k.tree) && ToJson(k.tree) == j && k.name == NULL
    ensures LevelHolds(h, k, Val(j, None)) && KidFoot(k) == Foot(k.tree)
  {
  }

  // The top level's array gets the value of obj.
  lemma Elemented(h: Heap, h': Heap, stack: seq<Kid>, vals: seq<Val>, tree: Tree, value: Json) returns (k': Kid)
    requires Owned(h, stack, vals, tree, value) && vals != [] && |stack| == |vals| && vals[|vals| - 1].current.Arr?
    requires var a := Root(stack[|stack| - 1].tree);
      && a in h && h[a].kind.Container?
      && h' == h[a := Cell(h[a].refs, Container(h[a].kind.isObject, h[a].kind.entries + [Entry(NULL, Root(tree))]))]
    ensures var n := |stack| - 1; var v := vals[n];
      && k'.name == stack[n].name && Root(k'.tree) == Root(stack[n].tree)
      && Owned(h', stack[n := k'], vals[n := Val(Arr(v.current.items + [value]), v.field)], Nil, Null)
  {
    hide Holds, ToJson, KidFoot, KidsFoot, Foot, LevelHolds, Owned, EntriesOf;
    OwnedTop(h, stack, vals, tree, value);
    var n := |stack| - 1;
    var k, v, e := stack[n], vals[n], Kid(NULL, [], tree);
    LevelNode(h, k, v);
    AppendRoom(h, stack, n, tree, e);
    Appended(h, h', k, v, e);
    ArrayMore(k.tree.at, k.tree.kids, e);
    k' := Rekid(k, k.tree.kids + [e]);
    MovedIn(h, h', k, e, k', tree);
    Replaced(h, h', stack, vals, tree, value, n, k', Val(Arr(v.current.items + [value]), v.field), Nil, Null);
  }

  // The field name of a level goes.
  lemma Dropped(h: Heap, stack: seq<Kid>, vals: seq<Val>, tree: Tree, value: Json, n: nat) returns (k': Kid)
    requires Owned(h, stack, vals, tree, value) && n < |stack| == |vals|
    ensures k' == stack[n].(name := NULL) && (stack[n].name != NULL ==> stack[n].name in h)
    ensures Owned(Freed(h, One(stack[n].name)), stack[n := k'], vals[n := vals[n].(field := None)], tree, value)
  {
    hide Holds, ToJson, KidFoot, KidsFoot, Foot, LevelHolds, Owned;
    OwnedTop(h, stack, vals, tree, value);
    KidsUpdate(stack, n, EMPTY);
    k' := stack[n].(name := NULL);
    Unnamed(h, stack[n], vals[n]);
    ReplacedAlone(h, Freed(h, One(stack[n].name)), stack, vals, tree, value, n, k', vals[n].(field := None));
  }

  // The top level's object gets a new member with the value of obj.
  lemma Inserted(h: Heap, h': Heap, stack: seq<Kid>, vals: seq<Val>, tree: Tree, value: Json,
                 name: Addr, key: seq<byte>) returns (k': Kid)
    requires Owned(h, stack, vals, tree, value) && vals != []
    requires var n := |stack| - 1; var k, v := stack[n], vals[n];
      && v.current.Obj? && Find(v.current.members, key) == |v.current.members|
      && name != NULL && name !in h && Root(k.tree) in h && h[Root(k.tree)].kind.Container?
      && var c := h[Root(k.tree)];
      h' == h[name := Cell(1, Name(key))]
             [Root(k.tree) := Cell(c.refs, Container(c.kind.isObject, c.kind.entries + [Entry(name, Root(tree))]))]
    ensures var n := |stack| - 1; var v := vals[n];
      && k'.name == stack[n].name && Root(k'.tree) == Root(stack[n].tree)
      && Owned(h', stack[n := k'], vals[n := v.(current := Obj(WithMember(v.current.members, key, value)))], Nil, Null)
  {
    hide Holds, ToJson, KidFoot, KidsFoot, Foot, LevelHolds, Owned, EntriesOf, WithMember, Find;
    OwnedTop(h, stack, vals, tree, value);
    var n := |stack| - 1;
    var k, v, e := stack[n], vals[n], Kid(name, key, tree);
    LevelNode(h, k, v);
    var h1 := h[name := Cell(1, Name(key))];
    NamedEntry(h, h1, stack, n, k, v, tree, e);
    Appended(h1, h', k, v, e);
    ObjectMore(k.tree.at, k.tree.kids, e);
    k' := Rekid(k, k.tree.kids + [e]);
    MovedInNamed(h, h1, h', k, e, k', tree);
    Replaced(h, h', stack, vals, tree, value, n, k',
             v.(current := Obj(WithMember(v.current.members, key, value))), Nil, Null);
  }

  lemma ReplaceReady(h: Heap, stack: seq<Kid>, vals: seq<Val>, tree: Tree, value: Json, i: nat)
    requires Owned(h, stack, vals, tree, value) && vals != []
    requires var v := vals[|vals| - 1]; v.current.Obj? && i < |v.current.members|
    ensures |stack| == |vals|
    ensures var t := stack[|stack| - 1].tree;
      && t.Node? && t.isObject && i < |t.kids| && t.at in h && h[t.at] == Cell(1, Container(true, EntriesOf(t.kids)))
      && Holds(h, t.kids[i].tree) && Foot(t.kids[i].tree) <= Live(h) && t.at !in Foot(t.kids[i].tree)
  {
    hide Holds, ToJson, KidFoot, KidsFoot, Foot, LevelHolds, Owned, EntriesOf;
    OwnedTop(h, stack, vals, tree, value);
    var n := |stack| - 1;
    LevelNode(h, stack[n], vals[n]);
    ReplaceRoom(h, stack, n, stack[n], i, tree);
  }

  // A member of the top level's object gets the value of obj.
  lemma Exchanged(h: Heap, h': Heap, stack: seq<Kid>, vals: seq<Val>, tree: Tree, value: Json,
                  i: nat, key: seq<byte>) returns (k': Kid)
    requires Owned(h, stack, vals, tree, value) && vals != []
    requires var v := vals[|vals| - 1]; v.current.Obj? && Find(v.current.members, key) == i < |v.current.members|
    requires |stack| == |vals|
    requires var t := stack[|stack| - 1].tree;
      && t.Node? && i < |t.kids|
      && h' == Freed(h, Foot(t.kids[i].tree))
                 [t.at := Cell(1, Container(true, EntriesOf(t.kids)[i := Entry(t.kids[i].name, Root(tree))]))]
    ensures var n := |stack| - 1; var v := vals[n];
      && k'.name == stack[n].name && Root(k'.tree) == Root(stack[n].tree)
      && Owned(h', stack[n := k'], vals[n := v.(current := Obj(WithMember(v.current.members, key, value)))], Nil, Null)
  {
    hide Holds, ToJson, KidFoot, KidsFoot, Foot, LevelHolds, Owned, EntriesOf, WithMember, Find, Freed;
    OwnedTop(h, stack, vals, tree, value);
    var n := |stack| - 1;
    var k, v := stack[n], vals[n];
    LevelNode(h, k, v);
    ObjectChange(k.tree.at, k.tree.kids, i, key, tree);
    ReplaceRoom(h, stack, n, k, i, tree);
    var gone, kids := Foot(k.tree.kids[i].tree), k.tree.kids[i := k.tree.kids[i].(tree := tree)];
    EntriesUpdate(k.tree.kids, i, kids[i]);
    SetKids(h, h', k, v, kids, gone);
    k' := Rekid(k, kids);
    FreedSum(h, h', k, k', tree, gone);
    Replaced(h, h', stack, vals, tree, value, n, k',
             v.(current := Obj(WithMember(v.current.members, key, value))), Nil, Null);
  }

  lemma Unnamed(h: Heap, k: Kid, v: Val)
    requires LevelHolds(h, k, v) && KidFoot(k) <= Live(h)
    ensures var h' := Freed(h, One(k.name));
      && LevelHolds(h', k.(name := NULL), v.(field := None))
      && Live(h') + KidFoot(k) == Live(h) + KidFoot(k.(name := NULL))
      && (k.name != NULL ==> k.name in h) && One(k.name) <= KidFoot(k)
  {
    NameApart(h, k);
    HoldsFrame(h, Freed(h, One(k.name)), k.tree);
    hide Holds, ToJson;
    FreedLive(h, One(k.name));
    assert KidFoot(k) == One(k.name) + Foot(k.tree);
    assert KidFoot(k.(name := NULL)) == Foot(k.tree);
    hide Foot;
  }

  lemma NameApart(h: Heap, k: Kid)
    requires KidFoot(k) <= Live(h)
    ensures forall a :: a in One(k.name) ==> a in h && a !in Foot(k.tree)
    ensures Foot(k.tree) <= Live(h)
  {
    hide Foot;
    forall a | a in One(k.name)
      ensures a in h && a !in Foot(k.tree)
    {
      assert KidFoot(k)[a] <= Live(h)[a] <= 1;
    }
  }

  lemma FreedBoth(h: Heap, m: multiset<Addr>, n: multiset<Addr>)
    ensures Freed(Freed(h, n), m) == Freed(h, m + n)
  {
  }

  lemma LevelRoot(h: Heap, k: Kid, v: Val)
    requires LevelHolds(h, k, v)
    ensures Holds(h, k.tree)
    ensures Root(k.tree) != NULL ==> Root(k.tree) in h && h[Root(k.tree)].refs == 1
    ensures Root(k.tree) == NULL ==> KidFoot(k) == One(k.name)
  {
    RootHeld(h, k.tree);
  }

  // A level's object with one more reference outlives the level.
  lemma TopShared(h: Heap, stack: seq<Kid>, vals: seq<Val>, value: Json, h1: Heap, h2: Heap)
    requires stack != [] && Owned(h, stack, vals, Nil, value)
    requires var a := Root(stack[|stack| - 1].tree); a != NULL ==> a in h && h[a].refs > 0
    requires var a := Root(stack[|stack| - 1].tree);
      h1 == if a == NULL then h else h[a := h[a].(refs := h[a].refs + 1)]
    requires var k := stack[|stack| - 1]; var a := Root(k.tree);
      h2 == if a != NULL && h1[a].refs > 1 then Freed(h1[a := h1[a].(refs := h1[a].refs - 1)], One(k.name))
            else Freed(h1, KidFoot(k))
    ensures var n := |stack| - 1;
      n < |vals| && Owned(h2, stack[n := EMPTY], vals[n := NOTHING], stack[n].tree, vals[n].current)
  {
    hide Holds, ToJson, KidFoot, KidsFoot, LevelHolds, Owned, Freed;
    var n := |stack| - 1;
    OwnedTop(h, stack, vals, Nil, value);
    KidsUpdate(stack, n, EMPTY);
    var k, v := stack[n], vals[n];
    LevelRoot(h, k, v);
    var a := Root(k.tree);
    assert a != NULL ==> h1[a := h1[a].(refs := h1[a].refs - 1)] == h;
    Shared(h, k, v, h2);
    Replaced(h, h2, stack, vals, Nil, value, n, EMPTY, NOTHING, k.tree, v.current);
  }

  // A level's object outlives the level when obj refers to it.
  lemma Shared(h: Heap, k: Kid, v: Val, h': Heap)
    requires LevelHolds(h, k, v) && KidFoot(k) <= Live(h)
    requires h' == Freed(h, One(k.name))
    ensures Holds(h', k.tree) && ToJson(k.tree) == v.current && LevelHolds(h', EMPTY, NOTHING)
    ensures Live(h') + (KidFoot(k) + Foot(Nil)) == Live(h) + (KidFoot(EMPTY) + Foot(k.tree))
    ensures forall a :: a in h && a !in KidFoot(k) ==> a in h' && h'[a] == h[a]
  {
    EmptyLevel(h');
    NameApart(h, k);
    HoldsFrame(h, h', k.tree);
    hide Holds, ToJson;
    assert KidFoot(k) == One(k.name) + Foot(k.tree);
    FreedLive(h, One(k.name));
    hide Foot;
    assert Live(h') + One(k.name) == Live(h);
  }

  lemma PoppedOwned(h: Heap, stack: seq<Kid>, vals: seq<Val>, tree: Tree, value: Json)
    requires Owned(h, stack, vals, tree, value) && vals != [] && vals[|vals| - 1] == NOTHING
    ensures Owned(h, stack[..|stack| - 1], vals[..|vals| - 1], tree, value)
  {
    hide LevelHolds, KidsFoot, KidFoot, Holds, ToJson;
    var n := |stack| - 1;
    NothingHeld(h, stack[n]);
    assert stack == stack[..n] + [stack[n]];
    KidsMore(stack[..n], stack[n]);
  }

  lemma NothingHeld(h: Heap, k: Kid)
    requires LevelHolds(h, k, NOTHING)
    ensures k.name == NULL && k.tree == Nil && KidFoot(k) == multiset{}
  {
    NullNil(h, k.tree);
  }

  // ---- The parse ----------------------------------------------------------------------------

  function ValOf(l: Level): Val
  {
    Val(l.current, l.field)
  }

  function ValsOf(ls: seq<Level>): (vs: seq<Val>)
    ensures |vs| == |ls| && forall k :: 0 <= k < |ls| ==> vs[k] == ValOf(ls[k])
  {
    seq(|ls|, k requires 0 <= k < |ls| => ValOf(ls[k]))
  }

  function Vals(t: Tok): (vs: seq<Val>)
    ensures |vs| == |t.below| + 1
  {
    ValsOf(t.below) + [ValOf(t.top)]
  }

  // The state a level is in, seen through white space, comments and escapes.
  function Phase(l: Level): State
  {
    if l.state in {EatWs, CommentStart, Comment, CommentEol, CommentEnd, StringEscape, EscapeUnicode} then l.saved
    else l.state
  }

  // A level owns nothing before its value begins, and a field name only while one is due.
  predicate Tidy(l: Level)
  {
    match Phase(l)
    case Start | InString | NullWord | BoolWord | Number => ValOf(l) == NOTHING
    case FieldEnd | FieldValue | ValueAdd => true
    case _ => l.field == None
  }

  ghost predicate AllTidy(t: Tok)
  {
    Tidy(t.top) && forall k :: 0 <= k < |t.below| ==> Tidy(t.below[k])
  }

  // What one execution of the switch does to the values the levels own.
  function Effect(t: Tok, value: Json, c: byte, n: Next): seq<Val>
    requires t.top.state == ValueAdd ==> t.top.current.Obj? && t.top.field.Some?
    requires t.top.state == ArrayAdd ==> t.top.current.Arr?
  {
    var vs, k, v := Vals(t), |t.below|, ValOf(t.top);
    match t.top.state
    case Start =>
      if c == LBRACE then vs[k := Val(Obj([]), None)] else if c == LBRACKET then vs[k := Val(Arr([]), None)] else vs
    case InString => if c == t.quote then vs[k := Val(Str(t.pb), None)] else vs
    case BoolWord | Number => if n.Again? then vs[k := Val(n.tok.top.current, None)] else vs
    case Field => if c == t.quote then vs[k := v.(field := Some(CString(t.pb)))] else vs
    case ArrayAdd => vs[k := Val(Arr(v.current.items + [value]), v.field)]
    case ValueAdd => vs[k := Val(Obj(WithMember(v.current.members, v.field.value, value)), None)]
    case Array | ArrayAfterSep | FieldValue => if n.Again? then vs + [NOTHING] else vs
    case Finish => if n.Again? then vs[..k] else vs
    case _ => vs
  }

  // The switch has exactly this effect, and leaves the levels tidy.
  ghost predicate Effective(t: Tok, value: Json, c: byte, n: Next)
    requires t.top.state == ValueAdd ==> t.top.current.Obj? && t.top.field.Some?
    requires t.top.state == ArrayAdd ==> t.top.current.Arr?
  {
    && Vals(n.tok) == Effect(t, value, c, n) && AllTidy(n.tok)
    && (t.top.state in {BoolWord, Number} && n.Again? ==> IsScalar(n.tok.top.current))
  }

  lemma SameBelow(t: Tok, t': Tok)
    requires t'.below == t.below && Tidy(t'.top) && AllTidy(t)
    ensures AllTidy(t') && Vals(t') == Vals(t)[|t.below| := ValOf(t'.top)]
  {
  }

  lemma EffectStart(t: Tok, value: Json, c: byte)
    requires t.top.state == Start && AllTidy(t)
    ensures Effective(t, value, c, MicroStart(t, c))
  {
    hide AllTidy, Vals;
    TidyTop(t);
    SameBelow(t, MicroStart(t, c).tok);
  }

  lemma TidyTop(t: Tok)
    requires AllTidy(t)
    ensures Tidy(t.top) && |Vals(t)| == |t.below| + 1 && Vals(t)[|t.below|] == ValOf(t.top)
    ensures Vals(t)[|t.below| := ValOf(t.top)] == Vals(t)
  {
  }

  lemma EffectText(t: Tok, value: Json, c: byte)
    requires t.top.state in {InString, Field} && AllTidy(t)
    ensures Effective(t, value, c, MicroText(t, c))
  {
    hide AllTidy, Vals, CString;
    TidyTop(t);
    SameBelow(t, MicroText(t, c).tok);
  }

  lemma EffectWord(conf: Conf, t: Tok, value: Json, c: byte)
    requires WF(conf, t) && t.top.state in {NullWord, BoolWord, Number} && AllTidy(t)
    ensures Effective(t, value, c, Micro(conf, t, value, c))
  {
    hide AllTidy, Vals, SameWord, StackOk, ParseInt, IsNumberChar;
    TidyTop(t);
    SameBelow(t, Micro(conf, t, value, c).tok);
  }

  lemma EffectComment(conf: Conf, t: Tok, value: Json, c: byte)
    requires WF(conf, t) && AllTidy(t) && t.top.state in {CommentStart, Comment, CommentEol, CommentEnd}
    ensures Effective(t, value, c, MicroComment(t, c))
  {
    hide AllTidy, Vals, WF;
    TidyTop(t);
    SameBelow(t, MicroComment(t, c).tok);
  }

  lemma EffectSpace(conf: Conf, t: Tok, value: Json, c: byte)
    requires WF(conf, t) && AllTidy(t) && t.top.state == EatWs
    ensures Effective(t, value, c, Micro(conf, t, value, c))
  {
    hide AllTidy, Vals, StackOk;
    TidyTop(t);
    SameBelow(t, Micro(conf, t, value, c).tok);
  }

  lemma EffectEscape(conf: Conf, t: Tok, value: Json, c: byte)
    requires WF(conf, t) && AllTidy(t) && t.top.state == StringEscape
    ensures Effective(t, value, c, MicroEscape(t, c))
  {
    hide AllTidy, Vals, StackOk;
    TidyTop(t);
    SameBelow(t, MicroEscape(t, c).tok);
  }

  lemma EffectUnicode(conf: Conf, t: Tok, value: Json, c: byte)
    requires WF(conf, t) && AllTidy(t) && t.top.state == EscapeUnicode
    ensures Effective(t, value, c, MicroUnicode(t, c))
  {
    hide AllTidy, Vals, StackOk, Utf8, DecodePair, IsHigh, IsLow;
    TidyTop(t);
    SameBelow(t, MicroUnicode(t, c).tok);
  }

  lemma EffectArray(conf: Conf, t: Tok, value: Json, c: byte)
    requires WF(conf, t) && AllTidy(t) && t.top.state in {Array, ArrayAfterSep, ArrayAdd, ArraySep}
    ensures Effective(t, value, c, MicroArray(conf, t, value, c))
  {
    hide WF, Effective, MicroArray, AllTidy;
    if t.top.state == ArrayAdd || t.top.state == ArraySep {
      EffectElement(conf, t, value, c);
    } else {
      EffectNext(conf, t, value, c);
    }
  }

  lemma EffectElement(conf: Conf, t: Tok, value: Json, c: byte)
    requires WF(conf, t) && AllTidy(t) && t.top.state in {ArrayAdd, ArraySep}
    ensures Effective(t, value, c, MicroArray(conf, t, value, c))
  {
    hide AllTidy, Vals, StackOk;
    TidyTop(t);
    SameBelow(t, MicroArray(conf, t, value, c).tok);
  }

  lemma EffectNext(conf: Conf, t: Tok, value: Json, c: byte)
    requires WF(conf, t) && AllTidy(t) && t.top.state in {Array, ArrayAfterSep}
    ensures Effective(t, value, c, MicroArray(conf, t, value, c))
  {
    var n := MicroArray(conf, t, value, c);
    if n.tok.below == t.below {
      hide AllTidy, Vals, StackOk;
      TidyTop(t);
      SameBelow(t, n.tok);
    } else {
      assert ValsOf(n.tok.below) == Vals(t);
    }
  }

  lemma EffectMember(conf: Conf, t: Tok, value: Json, c: byte)
    requires WF(conf, t) && AllTidy(t) && t.top.state in {FieldValue, ValueAdd}
    ensures Effective(t, value, c, MicroObject(conf, t, value, c))
  {
    hide WithMember;
    var n := MicroObject(conf, t, value, c);
    if n.tok.below == t.below {
      hide AllTidy, Vals, StackOk;
      TidyTop(t);
      SameBelow(t, n.tok);
    } else {
      assert ValsOf(n.tok.below) == Vals(t);
    }
  }

  lemma EffectObject(conf: Conf, t: Tok, value: Json, c: byte)
    requires WF(conf, t) && AllTidy(t) && t.top.state in {FieldStart, FieldStartAfterSep, FieldEnd, ObjectSep}
    ensures Effective(t, value, c, MicroObject(conf, t, value, c))
  {
    hide AllTidy, Vals, StackOk;
    TidyTop(t);
    SameBelow(t, MicroObject(conf, t, value, c).tok);
  }

  lemma EffectFinish(conf: Conf, t: Tok, value: Json, c: byte)
    requires WF(conf, t) && AllTidy(t) && t.top.state == Finish
    ensures Effective(t, value, c, MicroFinish(t))
  {
    if t.below != [] {
      var n := |t.below| - 1;
      assert Vals(t)[..|t.below|] == ValsOf(t.below[..n]) + [ValOf(t.below[n])];
    }
  }

  lemma EffectOf(conf: Conf, t: Tok, value: Json, c: byte)
    requires WF(conf, t) && AllTidy(t)
    ensures t.top.state == ValueAdd ==> t.top.current.Obj? && t.top.field.Some?
    ensures t.top.state == ArrayAdd ==> t.top.current.Arr?
    ensures Effective(t, value, c, Micro(conf, t, value, c))
  {
    hide AllTidy, Effective;
    match t.top.state
    case Start => EffectStart(t, value, c);
    case InString | Field => EffectText(t, value, c);
    case NullWord | BoolWord | Number => EffectWord(conf, t, value, c);
    case Array | ArrayAfterSep | ArrayAdd | ArraySep => EffectArray(conf, t, value, c);
    case FieldStart | FieldStartAfterSep | FieldEnd | ObjectSep => EffectObject(conf, t, value, c);
    case FieldValue | ValueAdd => EffectMember(conf, t, value, c);
    case Finish => EffectFinish(conf, t, value, c);
    case StringEscape => EffectEscape(conf, t, value, c);
    case EscapeUnicode => EffectUnicode(conf, t, value, c);
    case EatWs => EffectSpace(conf, t, value, c);
    case _ => EffectComment(conf, t, value, c);
  }

  // The levels below, and what happens outside the switch, move no object.
  lemma SameVals(t: Tok, t': Tok)
    requires AllTidy(t) && t'.below == t.below
    requires ValOf(t'.top) == ValOf(t.top) && (Phase(t'.top) == Phase(t.top) || t'.top == t.top)
    ensures AllTidy(t') && Vals(t') == Vals(t)
  {
  }

  lemma PendingVals(conf: Conf, t: Tok)
    requires WF(conf, t) && AllTidy(t)
    ensures AllTidy(EndPending(t)) && Vals(EndPending(t)) == Vals(t)
    ensures t.pend.Hi? || t.pend.HiBackslash? ==>
      && AllTidy(Flush(t)) && Vals(Flush(t)) == Vals(t)
      && AllTidy(Escape(t)) && Vals(Escape(t)) == Vals(t)
      && AllTidy(Escape(Flush(t))) && Vals(Escape(Flush(t))) == Vals(t)
  {
    hide AllTidy, Vals, StackOk;
    var top := t.top;
    SameVals(t, EndPending(t));
    if t.pend.Hi? || t.pend.HiBackslash? {
      SameVals(t, Flush(t));
      SameVals(t, Escape(t));
      SameVals(t, Escape(Flush(t)));
    }
  }

  // Where Redo is after one more execution, obj being what the heap says.
  lemma RedoOn(conf: Conf, t: Tok, value: Json, c: byte)
    requires WF(conf, t) && (t.pend.NoHi? || t.pend.HiU?)
    requires !Adding(t) ==> value == Null
    ensures var n := Micro(conf, t, value, c);
      && Keeps(conf, t, c, n)
      && Redo(conf, t, value, c) ==
         (if n.Again? then Redo(conf, n.tok, if Adding(n.tok) then t.top.current else Null, c) else n)
      && (n.Again? ==> (Adding(n.tok) <==> t.top.state == Finish))
  {
    MicroKeeps(conf, t, value, c);
    var n := Micro(conf, t, value, c);
    if n.Again? && !Adding(n.tok) {
      JsonTokener.ObjIrrelevant(conf, n.tok, NextObj(t, value), Null, c);
    }
  }

  // The tokener reduced to what it owns. The control state is the machine's.
  class Parser {
    const conf: Conf
    const owner: Owner
    var t: Tok

    ghost predicate Valid()
      reads this, owner, owner.objs
    {
      owner.Valid() && owner.vals == Vals(t) && AllTidy(t)
    }

    // obj owns something only while it is on its way into a container.
    ghost predicate Idle()
      reads this, owner, owner.objs
    {
      Valid() && owner.tree == Nil && owner.value == Null
    }

    constructor (conf: Conf)
      requires conf.maxDepth > 0
      ensures Idle() && this.conf == conf && t == NewTok() && WF(conf, t) && fresh(owner) && fresh(owner.objs)
    {
      this.conf := conf;
      owner := new Owner();
      t := NewTok();
    }

    // One execution of the switch; value is what obj stands for.
    method Execute(c: byte, value: Json) returns (n: Next)
      requires value == owner.value && Valid() && WF(conf, t) && (t.pend.NoHi? || t.pend.HiU?) && (Adding(t) || Idle())
      modifies this, owner, owner.objs
      ensures Valid() && n == Micro(conf, old(t), value, c) && t == n.tok
      ensures if old(t).top.state == Finish && n.Again? then owner.value == old(t).top.current else Idle()
    {
      hide AllTidy, Vals, WF, Owner.Valid, WithMember, Micro;
      EffectOf(conf, t, value, c);
      TidyTop(t);
      n := Micro(conf, t, value, c);
      match t.top.state {
        case Start =>
          if c == LBRACE {
            owner.NewCurrent(Container(true, []), Obj([]));
          } else if c == LBRACKET {
            owner.NewCurrent(Container(false, []), Arr([]));
          }
        case InString =>
          if c == t.quote {
            owner.NewCurrent(Scalar(Str(t.pb)), Str(t.pb));
          }
        case BoolWord | Number =>
          if n.Again? {
            owner.NewCurrent(Scalar(n.tok.top.current), n.tok.top.current);
          }
        case Field =>
          if c == t.quote {
            owner.SetField(CString(t.pb));
          }
        case ArrayAdd => owner.AddElement();
        case ValueAdd => owner.AddMember();
        case Array | ArrayAfterSep | FieldValue =>
          if n.Again? {
            owner.Push();
          }
        case Finish =>
          if n.Again? {
            owner.ShareTop();
            owner.Pop();
          }
        case _ =>
      }
      t := n.tok;
    }

    // The switch repeated until it no longer says goto redo_char.
    method Redone(c: byte) returns (n: Next)
      requires Idle() && WF(conf, t) && (t.pend.NoHi? || t.pend.HiU?) && !Adding(t)
      modifies this, owner, owner.objs
      ensures Idle() && n == Redo(conf, old(t), Null, c) && t == n.tok && (n.More? ==> !Adding(t))
    {
      hide WF, Valid, Micro, Redo;
      ghost var r := Redo(conf, t, Null, c);
      var value := Null;
      n := Again(t);
      while n.Again?
        invariant Valid() && t == n.tok
        invariant n.Again? ==> WF(conf, t) && (t.pend.NoHi? || t.pend.HiU?) && Redo(conf, t, value, c) == r
        invariant n.Again? ==> owner.value == value && (Adding(t) || (Idle() && value == Null))
        invariant !n.Again? ==> n == r && Idle() && (n.More? ==> !Adding(t))
        decreases if n.Again? then 1 else 0, Rank(t)
      {
        var current := t.top.current;
        RedoOn(conf, t, value, c);
        n := Execute(c, value);
        value := if n.Again? && Adding(t) then current else Null;
      }
    }

    // One byte of text. The bytes that decide whether a surrogate has a partner move no
    // object.
    method Byte(c: byte) returns (n: Next)
      requires Idle() && WF(conf, t) && !Adding(t)
      modifies this, owner, owner.objs
      ensures Idle() && n == Step(conf, old(t), c) && t == n.tok && (n.More? ==> !Adding(t))
    {
      hide WF, Redo, AllTidy, Vals, Owner.Valid;
      PendingVals(conf, t);
      PendingOk(conf, t);
      if t.pend.Hi? && c == BACKSLASH {
        SameTop(t, t.(pend := HiBackslash(t.pend.u)));
        t := t.(pend := HiBackslash(t.pend.u));
        return More(t);
      }
      if t.pend.HiBackslash? && c == LETTER_U {
        ghost var e := Escape(t);
        t := t.(pend := HiU(t.pend.u), top := t.top.(state := EscapeUnicode, saved := t.top.state),
                ucs := 0, stPos := 0);
        SameTop(e, t);
        return More(t);
      }
      if t.pend.Hi? {
        t := Flush(t);
      } else if t.pend.HiBackslash? {
        t := Escape(Flush(t));
      }
      n := Redone(c);
      n := Settle(n, c);
    }

    // The end of a successful call: the value gets a second reference, then every level is
    // reset.
    method HandOver()
      requires Idle()
      modifies this, owner, owner.objs
      ensures Valid() && owner.value == old(t).top.current
      ensures t == old(t).(below := seq(|old(t).below|, _ => FRESH), top := FRESH, pend := NoHi)
      ensures Live(owner.objs.heap) == Foot(owner.tree)
    {
      hide Owned, ToJson, Holds, Foot, KidsFoot;
      owner.ShareTop();
      var ii := |t.below|;
      while ii > 0
        invariant 0 <= ii <= |t.below| && owner.Valid() && owner.value == t.top.current && t == old(t)
        invariant |owner.vals| == |t.below| + 1
        invariant forall k :: ii <= k <= |t.below| ==> owner.vals[k] == NOTHING
      {
        ii := ii - 1;
        EntriesLength(owner);
        owner.ClearLevel(ii);
      }
      t := t.(below := seq(|t.below|, _ => FRESH), top := FRESH, pend := NoHi);
      EmptyStack(owner.objs.heap, owner.stack, owner.vals, owner.tree, owner.value);
    }

    // json_tokener_parse_ex. After success the live cells are exactly those of the value
    // handed over, each referred to once; after an error the levels own whatever is live.
    method ParseEx(text: seq<byte>) returns (ret: Addr, err: Error, offset: nat)
      requires Idle() && WF(conf, t) && !Adding(t)
      modifies this, owner, owner.objs
      ensures Valid()
      ensures var r := Run(conf, old(t), text, 0);
        && t == r.tok && err == r.err && offset == r.offset
        && (err == Success ==> ToJson(owner.tree) == r.obj)
      ensures err == Success ==>
        && ret == Root(owner.tree) && Holds(owner.objs.heap, owner.tree)
        && Live(owner.objs.heap) == Foot(owner.tree)
      ensures err != Success ==> ret == NULL && Idle()
    {
      hide WF, AllTidy, Vals, Owned, ToJson, Holds, Foot, KidsFoot, Step;
      offset := 0;
      var n := More(t);
      while offset < |text| && n.More?
        invariant offset <= |text| && Idle() && t == n.tok && !n.Again?
        invariant n.More? ==> WF(conf, t) && !Adding(t) && Run(conf, t, text, offset) == Run(conf, old(t), text, 0)
        invariant n.Stop? ==>
          offset < |text| && Run(conf, old(t), text, 0) == Out(t, n.err, if n.used then offset + 1 else offset)
        decreases if n.More? then 1 else 0, |text| - offset
      {
        n := Byte(text[offset]);
        offset := if n.More? then offset + 1 else offset;
      }
      if n.Stop? {
        offset := if n.used then offset + 1 else offset;
        err := n.err;
      } else {
        PendingVals(conf, t);
        t := EndPending(t);
        err := if AtEnd(t) then Success else Continue;
      }
      ret := NULL;
      if err == Success {
        HandOver();
        OwnedTop(owner.objs.heap, owner.stack, owner.vals, owner.tree, owner.value);
        ret := owner.obj;
      } else {
        SameTop(t, t.(pend := NoHi));
        t := t.(pend := NoHi);
      }
    }

    // json_tokener_reset, and what json_tokener_free does first: nothing a level owned
    // stays, neither an object nor a field name.
    method Reset()
      requires Valid()
      modifies this, owner, owner.objs
      ensures Valid() && owner.tree == old(owner.tree) && t == old(t).(below := [], top := FRESH)
      ensures Live(owner.objs.heap) == Foot(owner.tree)
      ensures owner.tree == Nil ==> owner.objs.heap == map[]
    {
      hide Owned, ToJson, Holds, Foot, KidsFoot;
      var i := |t.below|;
      EntriesLength(owner);
      owner.ClearLevel(i);
      while i > 0
        invariant owner.Valid() && i + 1 == |owner.vals| && owner.tree == old(owner.tree) && t == old(t)
        invariant owner.vals[i] == NOTHING
        decreases i
      {
        owner.Pop();
        i := i - 1;
        EntriesLength(owner);
        owner.ClearLevel(i);
      }
      t := t.(below := [], top := FRESH);
      EmptyStack(owner.objs.heap, owner.stack, owner.vals, owner.tree, owner.value);
      NothingLive(owner.objs.heap, owner.tree);
    }

    // The caller's json_object_put of the value it was given: nothing at all is left.
    method Release()
      requires Valid() && Live(owner.objs.heap) == Foot(owner.tree)
      modifies owner.objs`heap
      ensures owner.objs.heap == map[]
    {
      hide ToJson, KidsFoot;
      RootHeld(owner.objs.heap, owner.tree);
      owner.objs.Put(owner.obj, owner.tree);
      FreedLive(old(owner.objs.heap), Foot(owner.tree));
      NothingLive(owner.objs.heap, Nil);
    }
  }

  lemma EntriesLength(o: Owner)
    requires o.Valid()
    ensures |o.slots| == |o.vals|
  {
    OwnedTop(o.objs.heap, o.stack, o.vals, o.tree, o.value);
  }

  lemma NothingLive(h: Heap, t: Tree)
    requires Live(h) == Foot(t)
    ensures t == Nil ==> h == map[]
  {
    assert forall a :: a in h ==> a in Live(h);
    assert t == Nil ==> Live(h) == multiset{};
  }

  // Levels without anything own no cell.
  lemma EmptyStack(h: Heap, stack: seq<Kid>, vals: seq<Val>, tree: Tree, value: Json)
    requires Owned(h, stack, vals, tree, value) && forall k :: 0 <= k < |vals| ==> vals[k] == NOTHING
    ensures Live(h) == Foot(tree)
  {
    forall k | 0 <= k < |stack|
      ensures stack[k].name == NULL && stack[k].tree == Nil
    {
      assert LevelHolds(h, stack[k], vals[k]);
      NullNil(h, stack[k].tree);
    }
    NoFoot(stack);
  }

  lemma {:induction false} NoFoot(stack: seq<Kid>)
    requires forall k :: 0 <= k < |stack| ==> stack[k].name == NULL && stack[k].tree == Nil
    ensures KidsFoot(stack) == multiset{}
    decreases |stack|
  {
    if stack != [] {
      NoFoot(stack[..|stack| - 1]);
      assert KidFoot(stack[|stack| - 1]) == One(NULL) + Foot(Nil);
    }
  }

  lemma PendingOk(conf: Conf, t: Tok)
    requires WF(conf, t)
    ensures t.pend.Hi? ==> WF(conf, Flush(t)) && !Adding(Flush(t)) && !Adding(t)
    ensures t.pend.HiBackslash? ==>
      WF(conf, Escape(Flush(t))) && !Adding(Escape(Flush(t))) && t.top.state in {InString, Field}
  {
  }

  lemma SameTop(t: Tok, t': Tok)
    requires AllTidy(t) && t'.below == t.below && ValOf(t'.top) == ValOf(t.top) && Phase(t'.top) == Phase(t.top)
    ensures AllTidy(t') && Vals(t') == Vals(t)
  {
  }
}
