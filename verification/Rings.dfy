// The circular doubly linked lists of evdns.c: requests and nameservers. Nodes are named
// by numbers, 0 is the null pointer, and a map holds the next and prev fields.
module Rings {
  datatype Link = Link(next: nat, prev: nat)

  type Links = map<nat, Link>

  const NULL: nat := 0

  function Head(s: seq<nat>): nat
  {
    if s == [] then NULL else s[0]
  }

  function After(s: seq<nat>, k: nat): nat
    requires k < |s|
  {
    if k + 1 == |s| then s[0] else s[k + 1]
  }

  function Before(s: seq<nat>, k: nat): nat
    requires k < |s|
  {
    if k == 0 then s[|s| - 1] else s[k - 1]
  }

  ghost predicate Distinct(s: seq<nat>)
  {
    forall a, b :: 0 <= a < b < |s| ==> s[a] != s[b]
  }

  // Node k of the ring points to its neighbours.
  predicate Linked(links: Links, s: seq<nat>, k: nat)
    requires k < |s|
  {
    s[k] in links && links[s[k]] == Link(After(s, k), Before(s, k))
  }

  // The nodes s, from the head on, are linked into a ring.
  ghost predicate Ring(links: Links, s: seq<nat>)
  {
    && Distinct(s) && NULL !in s
    && (forall k {:trigger Linked(links, s, k)} {:trigger s[k]} :: 0 <= k < |s| ==> Linked(links, s, k))
  }

  // A ring does not change with nodes outside it.
  lemma RingElsewhere(links: Links, links': Links, s: seq<nat>)
    requires Ring(links, s) && forall x :: x in s ==> x in links' && links'[x] == links[x]
    ensures Ring(links', s)
  {
    forall k | 0 <= k < |s|
      ensures Linked(links', s, k)
    {
      assert Linked(links, s, k);
    }
  }

  // ---- evdns_request_insert ----------------------------------------------------------

  function Inserted(links: Links, head: nat, r: nat): Links
    requires head != NULL ==> head in links && links[head].prev in links
  {
    if head == NULL then links[r := Link(r, r)]
    else
      var p := links[head].prev;
      var l1 := links[r := Link(head, p)];
      var l2 := l1[p := l1[p].(next := r)];
      l2[head := l2[head].(prev := r)]
  }

  // The new node becomes the last one.
  lemma InsertTail(links: Links, s: seq<nat>, r: nat)
    requires Ring(links, s) && r != NULL && r !in s
    ensures s != [] ==> s[0] in links && links[s[0]].prev in links
    ensures Ring(Inserted(links, Head(s), r), s + [r])
    ensures Head(s + [r]) == if s == [] then r else Head(s)
    ensures forall x :: x in links && x !in s && x != r ==>
      x in Inserted(links, Head(s), r) && Inserted(links, Head(s), r)[x] == links[x]
    ensures Inserted(links, Head(s), r).Keys == links.Keys + {r}
  {
    hide Linked, Inserted;
    InsertedOutside(links, s, r);
    forall k | 0 <= k < |s + [r]|
      ensures Linked(Inserted(links, Head(s), r), s + [r], k)
    {
      InsertedLinked(links, s, r, k);
    }
    AppendedDistinct(s, r);
  }

  lemma AppendedDistinct(s: seq<nat>, r: nat)
    requires Distinct(s) && r !in s
    ensures Distinct(s + [r])
  {
  }

  lemma InsertedOutside(links: Links, s: seq<nat>, r: nat)
    requires Ring(links, s) && r != NULL && r !in s
    ensures s != [] ==> s[0] in links && links[s[0]].prev in links
    ensures forall x :: x in links && x !in s && x != r ==>
      x in Inserted(links, Head(s), r) && Inserted(links, Head(s), r)[x] == links[x]
    ensures Inserted(links, Head(s), r).Keys == links.Keys + {r}
  {
    if s != [] {
      assert Linked(links, s, 0) && Linked(links, s, |s| - 1);
    }
  }

  lemma InsertedLinked(links: Links, s: seq<nat>, r: nat, k: nat)
    requires Ring(links, s) && r != NULL && r !in s && k <= |s|
    ensures s != [] ==> s[0] in links && links[s[0]].prev in links
    ensures Linked(Inserted(links, Head(s), r), s + [r], k)
  {
    if s != [] {
      assert Linked(links, s, 0) && Linked(links, s, |s| - 1);
    }
    if k < |s| {
      assert Linked(links, s, k);
      assert s[k] != r;
    }
  }

  // ---- evdns_request_remove ------------------------------------------------------------

  function Removed(links: Links, r: nat): Links
    requires r in links && links[r].next in links && links[r].prev in links
  {
    var l := links[r];
    if l.next == r then links[r := Link(NULL, NULL)]
    else
      var l1 := links[l.next := links[l.next].(prev := l.prev)];
      var l2 := l1[l.prev := l1[l.prev].(next := l.next)];
      l2[r := Link(NULL, NULL)]
  }

  // The new head: the one after r, if r was the head.
  function HeadWithout(links: Links, head: nat, r: nat): nat
    requires r in links
  {
    if links[r].next == r then NULL else if head == r then links[r].next else head
  }

  function Without(s: seq<nat>, k: nat): (t: seq<nat>)
    requires k < |s|
    ensures |t| == |s| - 1
  {
    s[..k] + s[k + 1..]
  }

  lemma RemoveNode(links: Links, s: seq<nat>, k: nat)
    requires Ring(links, s) && k < |s|
    ensures s[k] in links && links[s[k]].next in links && links[s[k]].prev in links
    ensures Ring(Removed(links, s[k]), Without(s, k))
    ensures HeadWithout(links, s[0], s[k]) == Head(Without(s, k))
    ensures forall x :: x in Without(s, k) <==> x in s && x != s[k]
    ensures forall x :: x in links && x !in s ==> x in Removed(links, s[k]) && Removed(links, s[k])[x] == links[x]
    ensures Removed(links, s[k]).Keys == links.Keys
  {
    hide Linked, After, Before;
    WithoutElements(s, k);
    NodeLinked(links, s, k);
    NodeLinked(links, s, if k == 0 then |s| - 1 else k - 1);
    NodeLinked(links, s, if k + 1 == |s| then 0 else k + 1);
    RemovedOutside(links, s, k);
    var links', s' := Removed(links, s[k]), Without(s, k);
    forall j | 0 <= j < |s'|
      ensures Linked(links', s', j)
    {
      RemovedLinked(links, s, k, j);
    }
  }

  lemma NodeLinked(links: Links, s: seq<nat>, k: nat)
    requires Ring(links, s) && k < |s|
    ensures Linked(links, s, k) && s[k] in links && links[s[k]] == Link(After(s, k), Before(s, k))
    ensures After(s, k) == s[if k + 1 == |s| then 0 else k + 1]
    ensures Before(s, k) == s[if k == 0 then |s| - 1 else k - 1]
  {
  }

  lemma RemovedOutside(links: Links, s: seq<nat>, k: nat)
    requires Ring(links, s) && k < |s|
    requires s[k] in links && links[s[k]].next in links && links[s[k]].prev in links
    ensures forall x :: x in links && x !in s ==> x in Removed(links, s[k]) && Removed(links, s[k])[x] == links[x]
    ensures Removed(links, s[k]).Keys == links.Keys
    ensures HeadWithout(links, s[0], s[k]) == Head(Without(s, k))
  {
    NodeLinked(links, s, k);
  }

  lemma RemovedLinked(links: Links, s: seq<nat>, k: nat, j: nat)
    requires Ring(links, s) && k < |s| && j < |s| - 1
    requires s[k] in links && links[s[k]].next in links && links[s[k]].prev in links
    ensures Linked(Removed(links, s[k]), Without(s, k), j)
  {
    hide Removed, After, Before, Without;
    var i := if j < k then j else j + 1;
    NodeLinked(links, s, k);
    NodeLinked(links, s, i);
    WithoutAt(s, k, j);
    RemovedAt(links, s[k], s[i]);
    NeighboursWithout(s, k, j);
  }

  lemma WithoutAt(s: seq<nat>, k: nat, j: nat)
    requires Distinct(s) && k < |s| && j < |s| - 1
    ensures var i := if j < k then j else j + 1; Without(s, k)[j] == s[i] && s[i] != s[k]
    ensures |s| > 1 ==> After(s, k) != s[k]
  {
  }

  lemma RemovedAt(links: Links, r: nat, x: nat)
    requires r in links && links[r].next in links && links[r].prev in links
    requires x in links && x != r && links[r].next != r
    ensures x in Removed(links, r) && Removed(links, r)[x] ==
      Link(if links[r].prev == x then links[r].next else links[x].next,
           if links[r].next == x then links[r].prev else links[x].prev)
  {
  }

  // In the ring without node k, the neighbours are as before, skipping it.
  lemma NeighboursWithout(s: seq<nat>, k: nat, j: nat)
    requires Distinct(s) && k < |s| && j < |s| - 1
    ensures var i := if j < k then j else j + 1;
      && After(Without(s, k), j) == (if After(s, i) == s[k] then After(s, k) else After(s, i))
      && Before(Without(s, k), j) == (if Before(s, i) == s[k] then Before(s, k) else Before(s, i))
      && (After(s, k) == s[i] <==> Before(s, i) == s[k]) && (Before(s, k) == s[i] <==> After(s, i) == s[k])
  {
  }

  lemma WithoutElements(s: seq<nat>, k: nat)
    requires Distinct(s) && k < |s|
    ensures Distinct(Without(s, k))
    ensures forall x :: x in Without(s, k) <==> x in s && x != s[k]
  {
    var t := Without(s, k);
    assert forall j :: 0 <= j < |t| ==> t[j] == s[if j < k then j else j + 1];
    assert s == s[..k] + [s[k]] + s[k + 1..];
    assert s[k] !in s[..k] && s[k] !in s[k + 1..];
  }

  // ---- Moving the head -------------------------------------------------------------------

  function Rotated(s: seq<nat>): (t: seq<nat>)
    ensures |t| == |s|
  {
    if s == [] then [] else s[1..] + [s[0]]
  }

  function RotatedBack(s: seq<nat>): (t: seq<nat>)
    ensures |t| == |s|
  {
    if s == [] then [] else [s[|s| - 1]] + s[..|s| - 1]
  }

  // The same ring, entered one node further on.
  lemma RotateRing(links: Links, s: seq<nat>)
    requires Ring(links, s) && s != []
    ensures Ring(links, Rotated(s)) && s[0] in links && links[s[0]].next == Head(Rotated(s))
    ensures forall x :: x in Rotated(s) <==> x in s
  {
    hide Linked, After, Before;
    var n, t := |s|, Rotated(s);
    assert s == [s[0]] + s[1..];
    forall k | 0 <= k < n
      ensures Linked(links, t, k)
    {
      NodeLinked(links, s, if k + 1 == n then 0 else k + 1);
      RotatedLinked(links, s, k);
    }
    NodeLinked(links, s, 0);
  }

  lemma RotatedLinked(links: Links, s: seq<nat>, k: nat)
    requires k < |s| && Linked(links, s, if k + 1 == |s| then 0 else k + 1)
    ensures Linked(links, Rotated(s), k)
  {
  }

  // The same ring, entered one node back.
  lemma RotateBackRing(links: Links, s: seq<nat>)
    requires Ring(links, s) && s != []
    ensures Ring(links, RotatedBack(s)) && s[0] in links && links[s[0]].prev == Head(RotatedBack(s))
    ensures forall x :: x in RotatedBack(s) <==> x in s
  {
    hide Linked, After, Before;
    var n, t := |s|, RotatedBack(s);
    assert s == s[..n - 1] + [s[n - 1]];
    forall k | 0 <= k < n
      ensures Linked(links, t, k)
    {
      NodeLinked(links, s, if k == 0 then n - 1 else k - 1);
      RotatedBackLinked(links, s, k);
    }
    NodeLinked(links, s, 0);
  }

  lemma RotatedBackLinked(links: Links, s: seq<nat>, k: nat)
    requires k < |s| && Linked(links, s, if k == 0 then |s| - 1 else k - 1)
    ensures Linked(links, RotatedBack(s), k)
  {
  }
}
