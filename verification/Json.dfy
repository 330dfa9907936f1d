// JSON values as json-c builds them: json_object trees seen as values. Null is the null
// pointer, which is how json-c represents null everywhere.
module Json {
  import opened Bytes
  import opened Wrappers
  import LinkHash

  datatype Json =
    | Null
    | Bool(b: bool)
    | Int(n: int)
    | Double(bits: nat)
    | Str(text: seq<byte>)
    | Arr(items: seq<Json>)
    | Obj(members: seq<Member>)

  datatype Member = Member(key: seq<byte>, value: Json)

  // The position of a key in an object, |ms| if it has none.
  function Find(ms: seq<Member>, key: seq<byte>): (i: nat)
    ensures i <= |ms|
    ensures i < |ms| ==> ms[i].key == key
    ensures forall k :: 0 <= k < i ==> ms[k].key != key
  {
    if ms == [] then 0 else if ms[0].key == key then 0 else 1 + Find(ms[1..], key)
  }

  // json_object_object_add: a known key keeps its place and gets the new value.
  function WithMember(ms: seq<Member>, key: seq<byte>, value: Json): seq<Member>
  {
    var i := Find(ms, key);
    if i < |ms| then ms[i := Member(key, value)] else ms + [Member(key, value)]
  }

  // The entries of the hash table behind an object.
  function Entries(ms: seq<Member>): (es: LinkHash.Entries<seq<byte>, Json>)
    ensures |es| == |ms|
    ensures forall i :: 0 <= i < |ms| ==> es[i] == (LinkHash.Live(ms[i].key), Some(ms[i].value))
  {
    seq(|ms|, i requires 0 <= i < |ms| => (LinkHash.Live(ms[i].key), Some(ms[i].value)))
  }

  // An object behaves as the hash table does.
  lemma EntriesAdd(ms: seq<Member>, key: seq<byte>, value: Json)
    ensures Entries(WithMember(ms, key, value)) == LinkHash.Added(Entries(ms), key, Some(value))
  {
    var i, j := Find(ms, key), LinkHash.Position(Entries(ms), key);
    if i < |ms| {
      assert Entries(ms)[i].0 == LinkHash.Live(key);
    }
    if j < |ms| {
      assert Entries(ms)[j].0 == LinkHash.Live(key);
    }
    assert i == j;
  }

  // How deep containers nest; a container without elements does not count.
  function Depth(j: Json): (d: nat)
    decreases j
  {
    match j
    case Arr(items) => if items == [] then 0 else 1 + MaxDepth(items)
    case Obj(members) => if members == [] then 0 else 1 + MaxMemberDepth(members)
    case _ => 0
  }

  function MaxDepth(items: seq<Json>): (d: nat)
    ensures forall k :: 0 <= k < |items| ==> Depth(items[k]) <= d
    decreases items
  {
    if items == [] then 0
    else
      var last := items[|items| - 1];
      var rest := MaxDepth(items[..|items| - 1]);
      if Depth(last) > rest then Depth(last) else rest
  }

  function MaxMemberDepth(members: seq<Member>): (d: nat)
    ensures forall k :: 0 <= k < |members| ==> Depth(members[k].value) <= d
    decreases members
  {
    if members == [] then 0
    else
      var last := members[|members| - 1].value;
      var rest := MaxMemberDepth(members[..|members| - 1]);
      if Depth(last) > rest then Depth(last) else rest
  }
}
