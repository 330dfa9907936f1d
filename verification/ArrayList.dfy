// arraylist.c: the growing array of pointers behind a JSON array. NULL is 0; sizes are
// unbounded here, an int in the C code.
module ArrayLists {
  const NULL: nat := 0

  // The contents after a store at idx: a store past the end leaves NULLs between.
  function Stored(s: seq<nat>, idx: nat, data: nat): (r: seq<nat>)
    ensures |r| == if idx < |s| then |s| else idx + 1
  {
    if idx < |s| then s[idx := data] else s + seq(idx - |s|, _ => NULL) + [data]
  }

  class ArrayList {
    var arr: array<nat>
    var length: nat

    // Room that is not in use holds NULLs, so that a store past the end exposes nothing
    // else.
    ghost predicate Valid()
      reads this, arr
    {
      length <= arr.Length && arr.Length > 0 && forall k :: length <= k < arr.Length ==> arr[k] == NULL
    }

    ghost function Contents(): (s: seq<nat>)
      requires Valid()
      reads this, arr
    {
      arr[..length]
    }

    // array_list_new
    constructor ()
      ensures Valid() && Contents() == [] && fresh(arr)
    {
      arr, length := new nat[32](_ => NULL), 0;
    }

    // array_list_get_idx
    method GetIdx(i: nat) returns (r: nat)
      requires Valid()
      ensures r == if i < |Contents()| then Contents()[i] else NULL
    {
      r := if i >= length then NULL else arr[i];
    }

    // array_list_expand_internal: index max - 1 exists afterwards. A list that is exactly
    // full is grown too.
    method Expand(max: nat)
      requires Valid()
      modifies this`arr
      ensures Valid() && Contents() == old(Contents()) && arr.Length >= max
      ensures arr == old(arr) || fresh(arr)
      ensures var was := old(arr.Length);
        && (max < was ==> arr == old(arr))
        && (max >= was ==> arr.Length >= 2 * was && (arr.Length == 2 * was || arr.Length == max))
    {
      if max < arr.Length {
        return;
      }
      var newSize := if arr.Length * 2 > max then arr.Length * 2 else max;
      var t := new nat[newSize](_ => NULL);
      forall k | 0 <= k < arr.Length {
        t[k] := arr[k];
      }
      arr := t;
    }

    // array_list_put_idx; freed is the element whose free function is called, if any.
    method PutIdx(idx: nat, data: nat) returns (freed: nat)
      requires Valid()
      modifies this, arr
      ensures Valid() && (arr == old(arr) || fresh(arr))
      ensures Contents() == Stored(old(Contents()), idx, data)
      ensures freed == if idx < old(length) then old(Contents())[idx] else NULL
    {
      ghost var was := Contents();
      Expand(idx + 1);
      freed := arr[idx];
      arr[idx] := data;
      if length <= idx {
        length := idx + 1;
      }
      assert forall k :: 0 <= k < |was| && k != idx ==> Contents()[k] == was[k];
    }

    // array_list_add
    method Add(data: nat) returns (freed: nat)
      requires Valid()
      modifies this, arr
      ensures Valid() && (arr == old(arr) || fresh(arr))
      ensures Contents() == old(Contents()) + [data] && freed == NULL
    {
      freed := PutIdx(length, data);
    }
  }
}
