// What the reader of compressed names makes of any packet, well formed or not: it goes
// along labels and pointers to a zero, and its limit on pointers is met only by pointers
// that go round for ever.
module DnsTrails {
  import opened Bytes
  import opened Wrappers
  import opened DnsNames

  // From index j to the next one: over a label, or along a pointer.
  predicate Leads(p: seq<byte>, length: nat, j: nat, k: nat)
    requires length <= |p|
  {
    && j < length && k < length && p[j] != 0
    && if p[j] < 64 then k == j + 1 + p[j] as int
       else j + 1 < length && k == p[j] as int % 64 * 256 + p[j + 1] as int
  }

  // The indices of a name, from its first byte to the zero that ends it.
  predicate Trail(p: seq<byte>, length: nat, ps: seq<nat>)
    requires length <= |p|
  {
    && ps != [] && ps[0] < length
    && if |ps| == 1 then p[ps[0]] == 0 else Leads(p, length, ps[0], ps[1]) && Trail(p, length, ps[1..])
  }

  // The labels on the way.
  function Passed(p: seq<byte>, length: nat, ps: seq<nat>): seq<seq<byte>>
    requires length <= |p| && Trail(p, length, ps)
  {
    if |ps| == 1 then []
    else
      var rest := Passed(p, length, ps[1..]);
      if p[ps[0]] < 64 then [p[ps[0] + 1..ps[1]]] + rest else rest
  }

  // The index behind the first pointer, or behind the zero if there is none.
  function Behind(p: seq<byte>, length: nat, ps: seq<nat>): nat
    requires length <= |p| && Trail(p, length, ps)
  {
    if |ps| == 1 then ps[0] + 1
    else if p[ps[0]] < 64 then Behind(p, length, ps[1..])
    else ps[0] + 2
  }

  function Pointers(p: seq<byte>, length: nat, ps: seq<nat>): (n: nat)
    requires length <= |p| && Trail(p, length, ps)
    ensures n < |ps|
  {
    if |ps| == 1 then 0 else Pointers(p, length, ps[1..]) + if p[ps[0]] < 64 then 0 else 1
  }

  // ---- Trails and the walk ---------------------------------------------------------------

  lemma {:induction false} WalkLeavesTrail(p: seq<byte>, length: nat, j: nat, jumps: nat) returns (ps: seq<nat>)
    requires length <= |p| && Walk(p, length, j, jumps).Some?
    ensures Trail(p, length, ps) && ps[0] == j
    decreases jumps, length - j
  {
    if p[j] == 0 {
      ps := [j];
    } else {
      var rest;
      if IsPointer(p[j]) {
        rest := WalkLeavesTrail(p, length, Target(p[j], p[j + 1]), jumps - 1);
      } else {
        rest := WalkLeavesTrail(p, length, j + 1 + p[j] as int, jumps);
      }
      ps := [j] + rest;
      assert ps[1..] == rest;
    }
  }

  lemma {:induction false} TrailIsWalked(p: seq<byte>, length: nat, ps: seq<nat>, jumps: nat)
    requires length <= |p| && Trail(p, length, ps) && Pointers(p, length, ps) <= jumps
    ensures Walk(p, length, ps[0], jumps) == Some(Walked(Passed(p, length, ps), Behind(p, length, ps)))
    decreases |ps|
  {
    if |ps| > 1 {
      TrailIsWalked(p, length, ps[1..], if p[ps[0]] < 64 then jumps else jumps - 1);
    }
  }

  // ---- No index comes twice ----------------------------------------------------------------

  lemma {:induction false} OneTrail(p: seq<byte>, length: nat, a: seq<nat>, b: seq<nat>)
    requires length <= |p| && Trail(p, length, a) && Trail(p, length, b) && a[0] == b[0]
    ensures a == b
    decreases |a|
  {
    if |a| > 1 && |b| > 1 {
      OneTrail(p, length, a[1..], b[1..]);
      assert a == [a[0]] + a[1..] && b == [b[0]] + b[1..];
    }
  }

  lemma {:induction false} RestOfTrail(p: seq<byte>, length: nat, ps: seq<nat>, k: nat)
    requires length <= |p| && Trail(p, length, ps) && k < |ps|
    ensures Trail(p, length, ps[k..]) && ps[k] < length
    decreases k
  {
    if k > 0 {
      RestOfTrail(p, length, ps[1..], k - 1);
      assert ps[1..][k - 1..] == ps[k..];
    } else {
      assert ps[0..] == ps;
    }
  }

  lemma NeverTwice(p: seq<byte>, length: nat, ps: seq<nat>, a: nat, b: nat)
    requires length <= |p| && Trail(p, length, ps) && a < b < |ps|
    ensures ps[a] != ps[b]
  {
    RestOfTrail(p, length, ps, a);
    RestOfTrail(p, length, ps, b);
    if ps[a] == ps[b] {
      OneTrail(p, length, ps[a..], ps[b..]);
      assert false;
    }
  }

  // Different numbers below n are at most n.
  lemma {:induction false} FewBelow(s: seq<nat>, n: nat)
    requires forall a, b :: 0 <= a < b < |s| ==> s[a] != s[b]
    requires forall a :: 0 <= a < |s| ==> s[a] < n
    ensures |s| <= n
    decreases n
  {
    assert s == [] || s[0] < n;
    if exists a :: 0 <= a < |s| && s[a] == n - 1 {
      var a :| 0 <= a < |s| && s[a] == n - 1;
      var rest := s[..a] + s[a + 1..];
      FewBelow(rest, n - 1);
    } else if n > 0 {
      FewBelow(s, n - 1);
    }
  }

  lemma TrailIsShort(p: seq<byte>, length: nat, ps: seq<nat>)
    requires length <= |p| && Trail(p, length, ps)
    ensures |ps| <= length
  {
    hide Trail;
    forall a | 0 <= a < |ps|
      ensures ps[a] < length
    {
      RestOfTrail(p, length, ps, a);
    }
    forall a, b | 0 <= a < b < |ps|
      ensures ps[a] != ps[b]
    {
      NeverTwice(p, length, ps, a, b);
    }
    FewBelow(ps, length);
  }

  // What name_parse reads, with length for the limit of pointers, is what stands along the
  // way from j, however long that is; it reads nothing exactly if the way leaves the packet
  // or does not end.
  lemma ReadsTrail(p: seq<byte>, length: nat, j: nat)
    requires length <= |p|
    ensures Walk(p, length, j, length).Some? <==> exists ps :: Trail(p, length, ps) && ps != [] && ps[0] == j
    ensures forall ps :: Trail(p, length, ps) && ps != [] && ps[0] == j ==>
      Walk(p, length, j, length) == Some(Walked(Passed(p, length, ps), Behind(p, length, ps)))
  {
    hide Trail, Walk, Passed, Behind, Pointers;
    if Walk(p, length, j, length).Some? {
      var ps := WalkLeavesTrail(p, length, j, length);
    }
    forall ps | Trail(p, length, ps) && ps != [] && ps[0] == j
      ensures Walk(p, length, j, length) == Some(Walked(Passed(p, length, ps), Behind(p, length, ps)))
    {
      TrailIsShort(p, length, ps);
      TrailIsWalked(p, length, ps, length);
    }
  }
}
