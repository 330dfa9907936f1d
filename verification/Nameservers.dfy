// The ring of nameservers of evdns.c and the round-robin choice among those that are up.
module Nameservers {
  import opened Rings

  datatype Server = Server(up: bool, failedTimes: nat, timedout: nat)

  type Servers = map<nat, Server>

  // The servers of s that are up, in order.
  function Goods(servers: Servers, s: seq<nat>): (g: seq<nat>)
    requires forall x :: x in s ==> x in servers
    ensures forall x :: x in g <==> x in s && servers[x].up
    ensures |g| <= |s|
  {
    if s == [] then []
    else (if servers[s[0]].up then [s[0]] else []) + Goods(servers, s[1..])
  }

  lemma {:induction false} GoodsConcat(servers: Servers, a: seq<nat>, b: seq<nat>)
    requires forall x :: x in a + b ==> x in servers
    ensures (forall x :: x in a ==> x in servers) && (forall x :: x in b ==> x in servers)
    ensures Goods(servers, a + b) == Goods(servers, a) + Goods(servers, b)
  {
    if a == [] {
      assert a + b == b;
    } else {
      ConcatTail(a, b);
      GoodsConcat(servers, a[1..], b);
      assert a[0] in a + b;
      assert a == [a[0]] + a[1..];
      assert [a[0]] + (Goods(servers, a[1..]) + Goods(servers, b)) ==
        [a[0]] + Goods(servers, a[1..]) + Goods(servers, b);
    }
  }

  lemma ConcatTail(a: seq<nat>, b: seq<nat>)
    requires a != []
    ensures (a + b)[1..] == a[1..] + b && (a + b)[0] == a[0]
    ensures forall x :: x in a[1..] + b ==> x in a + b
  {
    assert a + b == [a[0]] + (a[1..] + b);
  }

  lemma {:induction false} GoodsDistinct(servers: Servers, s: seq<nat>)
    requires Distinct(s) && forall x :: x in s ==> x in servers
    ensures Distinct(Goods(servers, s))
  {
    if s != [] {
      GoodsDistinct(servers, s[1..]);
    }
  }

  // The ring s entered at its place k.
  function Entered(s: seq<nat>, k: nat): (t: seq<nat>)
    requires k <= |s|
    ensures |t| == |s|
  {
    s[k..] + s[..k]
  }

  predicate NoneBefore(servers: Servers, s: seq<nat>, k: nat)
    requires k <= |s| && forall x :: x in s ==> x in servers
  {
    forall j :: 0 <= j < k ==> !servers[s[j]].up
  }

  lemma EnteredStart(servers: Servers, s: seq<nat>)
    requires forall x :: x in s ==> x in servers
    ensures Entered(s, 0) == s && NoneBefore(servers, s, 0)
  {
  }

  // One place further on: while some server is up, the search does not come around.
  lemma EnteredNext(servers: Servers, s: seq<nat>, k: nat)
    requires k < |s| && (forall x :: x in s ==> x in servers) && NoneBefore(servers, s, k)
    ensures Rotated(Entered(s, k)) == Entered(s, k + 1)
    ensures !servers[s[k]].up && Goods(servers, s) != [] ==> k + 1 < |s| && NoneBefore(servers, s, k + 1)
    ensures k + 1 < |s| ==> Head(Entered(s, k + 1)) == s[k + 1]
  {
    RotatedEntered(s, k);
    hide Rotated, Entered, Head;
    if k + 1 == |s| && !servers[s[k]].up {
      NoGoods(servers, s);
    }
  }

  lemma RotatedEntered(s: seq<nat>, k: nat)
    requires k < |s|
    ensures Rotated(Entered(s, k)) == Entered(s, k + 1)
    ensures k + 1 < |s| ==> Head(Entered(s, k + 1)) == s[k + 1]
  {
    assert s[k..] == [s[k]] + s[k + 1..] && s[..k + 1] == s[..k] + [s[k]];
  }

  // The first server that is up comes after k that are down.
  lemma FirstGood(servers: Servers, s: seq<nat>, k: nat)
    requires k < |s| && (forall x :: x in s ==> x in servers)
    requires NoneBefore(servers, s, k) && servers[s[k]].up
    ensures Goods(servers, s) != [] && Goods(servers, s)[0] == s[k]
    ensures forall x :: x in Entered(s, k + 1) ==> x in servers
    ensures Goods(servers, Entered(s, k + 1)) == Rotated(Goods(servers, s))
  {
    hide Goods;
    var a, b := s[..k], s[k + 1..];
    assert s == (a + [s[k]]) + b && s[..k + 1] == a + [s[k]];
    NoGoods(servers, a);
    GoodsConcat(servers, a + [s[k]], b);
    GoodsConcat(servers, a, [s[k]]);
    GoodsConcat(servers, b, a + [s[k]]);
    OneGood(servers, s[k]);
  }

  lemma OneGood(servers: Servers, x: nat)
    requires x in servers && servers[x].up
    ensures Goods(servers, [x]) == [x]
  {
  }

  lemma NoGoods(servers: Servers, s: seq<nat>)
    requires forall x :: x in s ==> x in servers && !servers[x].up
    ensures Goods(servers, s) == []
  {
  }

  // Changing the state of one server of a ring changes the number of good ones by one.
  lemma {:induction false} GoodsChange(servers: Servers, s: seq<nat>, x: nat, v: Server)
    requires Distinct(s) && (forall y :: y in s ==> y in servers) && x in servers
    ensures |Goods(servers[x := v], s)| ==
      |Goods(servers, s)| + if x in s then B(v.up) - B(servers[x].up) else 0
  {
    if s != [] {
      GoodsChange(servers, s[1..], x, v);
      assert x in s <==> x == s[0] || x in s[1..];
    }
  }

  function B(b: bool): int
  {
    if b then 1 else 0
  }

  lemma RingFacts(links: Links, s: seq<nat>)
    requires Ring(links, s)
    ensures Distinct(s) && NULL !in s
  {
  }

  lemma EmptyRing(links: Links, s: seq<nat>)
    requires Ring(links, s) && Head(s) == NULL
    ensures s == []
  {
  }

  // What one pick does to the ring: it turns by one server, or by one good server if there
  // is any.
  ghost predicate PickedOnce(servers: Servers, good: int, was: seq<nat>, now: seq<nat>)
    requires forall x :: x in was ==> x in servers
  {
    && |now| == |was| && (forall x :: x in now <==> x in was)
    && (good == 0 ==> now == Rotated(was))
    && (good > 0 ==> Goods(servers, now) == Rotated(Goods(servers, was)))
  }

  // The server that pick k gives, from the ring on: the good ones in turn, or all of them if
  // none is good, starting with the second.
  ghost function PickAt(servers: Servers, good: int, ring: seq<nat>, k: nat): nat
    requires forall x :: x in ring ==> x in servers
    requires ring != [] && (good > 0 ==> Goods(servers, ring) != [])
  {
    if good > 0 then
      var g := Goods(servers, ring);
      g[k % |g|]
    else ring[(k + 1) % |ring|]
  }

  // picked is what a pick gives that takes the ring from was to now.
  ghost predicate PickedBy(servers: Servers, good: int, was: seq<nat>, now: seq<nat>, picked: nat)
  {
    && (forall x :: x in was ==> x in servers) && PickedOnce(servers, good, was, now)
    && (good <= 0 ==> now != [] && picked == now[0])
    && (good > 0 ==> Goods(servers, was) != [] && picked == Goods(servers, was)[0])
  }

  // What n picks do to the ring.
  ghost predicate PickedTimes(servers: Servers, good: int, was: seq<nat>, now: seq<nat>, n: nat)
    requires forall x :: x in was ==> x in servers
  {
    && |now| == |was| && (forall x :: x in now <==> x in was)
    && (good <= 0 ==> now == Turned(was, n))
    && (good > 0 ==> Goods(servers, now) == Turned(Goods(servers, was), n))
  }

  lemma PickedNone(servers: Servers, good: int, ring: seq<nat>)
    requires forall x :: x in ring ==> x in servers
    ensures PickedTimes(servers, good, ring, ring, 0)
  {
    hide Goods;
    var g := Goods(servers, ring);
    if ring != [] {
      TurnedStart(ring);
    }
    if g != [] {
      TurnedStart(g);
    }
  }

  lemma PickedNext(servers: Servers, good: int, was: seq<nat>, ring: seq<nat>, now: seq<nat>, n: nat, picked: nat)
    requires good >= 0 && was != [] && forall x :: x in was ==> x in servers
    requires PickedTimes(servers, good, was, ring, n) && PickedBy(servers, good, ring, now, picked)
    ensures PickedTimes(servers, good, was, now, n + 1)
    ensures (good > 0 ==> Goods(servers, was) != []) && picked == PickAt(servers, good, was, n)
  {
    hide Goods, Turned;
    if good == 0 {
      TurnedNext(was, n);
      TurnedNext(was, n + 1);
    } else {
      TurnedNext(Goods(servers, was), n);
    }
  }

  class ServerRing {
    var links: Links
    var servers: Servers
    var head: nat
    var good: int
    ghost var ring: seq<nat>

    ghost predicate Valid()
      reads this
    {
      && Ring(links, ring) && head == Head(ring)
      && (forall x :: x in ring <==> x in servers)
      && good == |Goods(servers, ring)|
    }

    constructor ()
      ensures Valid() && ring == []
    {
      links, servers, head, good, ring := map[], map[], NULL, 0, [];
    }

    // nameserver_pick
    method Pick() returns (picked: nat)
      requires Valid()
      modifies this`head, this`ring
      ensures Valid() && (forall x :: x in ring <==> x in old(ring)) && |ring| == |old(ring)|
      ensures (picked == NULL <==> ring == []) && (picked != NULL ==> picked in servers)
      ensures good == 0 && ring != [] ==> picked == ring[0]
      ensures good > 0 ==>
        Goods(servers, old(ring)) != [] && picked == Goods(servers, old(ring))[0] && servers[picked].up
      ensures PickedOnce(servers, good, old(ring), ring)
      ensures picked != NULL ==> PickedBy(servers, good, old(ring), ring, picked) && good >= 0
    {
      hide Valid, Goods;
      RingKnown();
      if head == NULL {
        return NULL;
      }
      if good == 0 {
        Advance();
        RingKnown();
        return head;
      }
      picked := PickGood();
    }

    // base->server_head = base->server_head->next
    method Advance()
      requires Valid() && ring != []
      modifies this`head, this`ring
      ensures Valid() && ring == Rotated(old(ring)) && forall x :: x in ring <==> x in old(ring)
    {
      hide Ring;
      RotateRing(links, ring);
      GoodsRotated(servers, ring);
      head := links[head].next;
      ring := Rotated(ring);
    }

    method PickGood() returns (picked: nat)
      requires Valid() && good > 0
      modifies this`head, this`ring
      ensures Valid() && (forall x :: x in ring <==> x in old(ring)) && |ring| == |old(ring)|
      ensures picked != NULL && picked in servers && servers[picked].up
      ensures Goods(servers, old(ring)) != [] && picked == Goods(servers, old(ring))[0]
      ensures Goods(servers, ring) == Rotated(Goods(servers, old(ring)))
    {
      hide Valid, Goods, Entered, Rotated, NoneBefore;
      RingKnown();
      ghost var k, s := 0, ring;
      EnteredStart(servers, s);
      var startedAt := head;
      while !servers[head].up
        invariant Valid() && k < |s| && ring == Entered(s, k) && NoneBefore(servers, s, k)
        invariant (forall x :: x in ring <==> x in s) && forall x :: x in s ==> x in servers
        invariant Distinct(s) && s[0] == startedAt && head == s[k] && head in servers
        decreases |s| - k
      {
        Advance();
        RingKnown();
        EnteredNext(servers, s, k);
        k := k + 1;
        // Back at the start all servers would be down.
        assert head != startedAt;
      }
      picked := head;
      FirstGood(servers, s, k);
      Advance();
      EnteredNext(servers, s, k);
    }

    lemma RingKnown()
      requires Valid()
      ensures Distinct(ring) && NULL !in ring && (forall x :: x in ring ==> x in servers) && head == Head(ring)
      ensures good >= 0 && (good > 0 ==> Goods(servers, ring) != [] && ring != [])
    {
    }

    // Any number of picks while no server changes its state: they go around.
    method Picks(n: nat) returns (ps: seq<nat>)
      requires Valid() && good > 0
      modifies this`head, this`ring
      ensures Valid() && |ps| == n
      ensures var g := Goods(servers, old(ring));
        g != [] && Distinct(g) && forall j :: 0 <= j < n ==> ps[j] == g[j % |g|]
    {
      hide Valid, Goods, Turned;
      RingKnown();
      ghost var g := Goods(servers, ring);
      GoodsDistinct(servers, ring);
      TurnedStart(g);
      ps := [];
      while |ps| < n
        invariant Valid() && good > 0 && |ps| <= n && forall x :: x in ring ==> x in servers
        invariant Goods(servers, ring) == Turned(g, |ps|)
        invariant forall j :: 0 <= j < |ps| ==> ps[j] == g[j % |g|]
      {
        TurnedNext(g, |ps|);
        var p := Pick();
        RingKnown();
        ps := ps + [p];
      }
    }

    // _evdns_nameserver_add_impl, for an address not in the ring yet
    method Add(ns: nat)
      requires Valid() && ns != NULL && ns !in servers
      modifies this`links, this`servers, this`ring, this`good, this`head
      ensures Valid() && servers == old(servers)[ns := Server(true, 0, 0)] && good == old(good) + 1
      ensures ring == if old(ring) == [] then [ns] else [old(ring)[0], ns] + old(ring)[1..]
    {
      hide Ring, Goods;
      RingFacts(links, ring);
      ghost var s := ring;
      if head == NULL {
        EmptyRing(links, s);
        InsertTail(links, [], ns);
        links := links[ns := Link(ns, ns)];
        head := ns;
        ring := [ns];
        assert [] + [ns] == [ns];
      } else {
        RotateRing(links, s);
        InsertTail(links, Rotated(s), ns);
        var next := links[head].next;
        links := Inserted(links, next, ns);
        ring := [s[0], ns] + s[1..];
        AddedRing(links, s, ns);
      }
      GoodsAdded(servers, s, ns, ring);
      servers := servers[ns := Server(true, 0, 0)];
      good := good + 1;
    }

    // nameserver_failed, as far as the server itself goes
    method Failed(ns: nat)
      requires Valid() && ns in servers
      modifies this`servers, this`good
      ensures Valid() && good >= 0
      ensures !old(servers)[ns].up ==> servers == old(servers) && good == old(good)
      ensures old(servers)[ns].up ==>
        servers == old(servers)[ns := old(servers)[ns].(up := false, failedTimes := 1)] && good == old(good) - 1
    {
      hide Ring, Goods;
      RingFacts(links, ring);
      if !servers[ns].up {
        return;
      }
      GoodsChange(servers, ring, ns, servers[ns].(up := false, failedTimes := 1));
      good := good - 1;
      servers := servers[ns := servers[ns].(up := false, failedTimes := 1)];
    }

    // nameserver_up
    method Up(ns: nat)
      requires Valid() && ns in servers
      modifies this`servers, this`good
      ensures Valid()
      ensures old(servers)[ns].up ==> servers == old(servers) && good == old(good)
      ensures !old(servers)[ns].up ==> servers == old(servers)[ns := Server(true, 0, 0)] && good == old(good) + 1
    {
      hide Ring, Goods;
      RingFacts(links, ring);
      if servers[ns].up {
        return;
      }
      GoodsChange(servers, ring, ns, Server(true, 0, 0));
      servers := servers[ns := Server(true, 0, 0)];
      good := good + 1;
    }

    // The part of evdns_base_clear_nameservers_and_suspend that frees the servers
    method Clear()
      requires Valid()
      modifies this
      ensures Valid() && ring == [] && good == 0 && servers == map[]
    {
      links, servers, head, good, ring := map[], map[], NULL, 0, [];
    }
  }

  lemma GoodsRotated(servers: Servers, s: seq<nat>)
    requires s != [] && forall x :: x in s ==> x in servers
    ensures forall x :: x in Rotated(s) ==> x in servers
    ensures |Goods(servers, Rotated(s))| == |Goods(servers, s)|
  {
    assert s == [s[0]] + s[1..];
    GoodsConcat(servers, [s[0]], s[1..]);
    GoodsConcat(servers, s[1..], [s[0]]);
  }

  lemma AddedRing(links: Links, s: seq<nat>, ns: nat)
    requires s != [] && Ring(links, Rotated(s) + [ns])
    ensures Ring(links, [s[0], ns] + s[1..])
  {
    hide Ring;
    var t := Rotated(s) + [ns];
    RotateBackRing(links, t);
    var u := RotatedBack(t);
    assert u == [ns] + s[1..] + [s[0]];
    RotateBackRing(links, u);
    assert RotatedBack(u) == [s[0], ns] + s[1..];
  }

  lemma GoodsAdded(servers: Servers, s: seq<nat>, ns: nat, ring: seq<nat>)
    requires ns !in servers && (forall x :: x in s <==> x in servers)
    requires ring == if s == [] then [ns] else [s[0], ns] + s[1..]
    ensures var servers' := servers[ns := Server(true, 0, 0)];
      && (forall x :: x in ring <==> x in servers')
      && |Goods(servers', ring)| == |Goods(servers, s)| + 1
  {
    var servers' := servers[ns := Server(true, 0, 0)];
    if s != [] {
      assert s == [s[0]] + s[1..] && ring == [s[0]] + ([ns] + s[1..]);
      GoodsConcat(servers', [s[0]], [ns] + s[1..]);
      GoodsConcat(servers', [ns], s[1..]);
      GoodsConcat(servers, [s[0]], s[1..]);
      GoodsElsewhere(servers, servers', s[1..]);
    }
  }

  lemma {:induction false} GoodsElsewhere(servers: Servers, servers': Servers, s: seq<nat>)
    requires forall x :: x in s ==> x in servers && x in servers' && servers'[x] == servers[x]
    ensures Goods(servers', s) == Goods(servers, s)
  {
    if s != [] {
      GoodsElsewhere(servers, servers', s[1..]);
    }
  }

  // ---- Fair shares --------------------------------------------------------------------------

  // g entered j places further on.
  function Turned(g: seq<nat>, j: nat): (t: seq<nat>)
    ensures |t| == |g|
  {
    if g == [] then []
    else
      var k := j % |g|;
      g[k..] + g[..k]
  }

  lemma TurnedStart(g: seq<nat>)
    requires g != []
    ensures Turned(g, 0) == g
  {
  }

  lemma TurnedNext(g: seq<nat>, j: nat)
    requires g != []
    ensures Turned(g, j)[0] == g[j % |g|] && Rotated(Turned(g, j)) == Turned(g, j + 1)
  {
    var n := |g|;
    if j % n + 1 == n {
      NextIsZero(j, n);
    } else {
      NextIsMore(j, n);
    }
    TurnOnce(g, j % n);
  }

  lemma TurnOnce(g: seq<nat>, k: nat)
    requires k < |g|
    ensures (g[k..] + g[..k])[0] == g[k]
    ensures Rotated(g[k..] + g[..k]) == if k + 1 == |g| then g[0..] + g[..0] else g[k + 1..] + g[..k + 1]
  {
    var t := g[k..] + g[..k];
    var u := if k + 1 == |g| then g[0..] + g[..0] else g[k + 1..] + g[..k + 1];
    assert t[0] == g[k];
    assert |Rotated(t)| == |u|;
    assert forall i :: 0 <= i < |u| ==> Rotated(t)[i] == u[i];
  }

  lemma NextIsZero(j: nat, n: nat)
    requires n > 0 && j % n + 1 == n
    ensures (j + 1) % n == 0 && (j + 1) / n == j / n + 1
  {
    assert j + 1 == n * (j / n + 1);
    MultipleOf(j / n + 1, n);
  }

  lemma MultipleOf(q: nat, n: nat)
    requires n > 0
    ensures (n * q) % n == 0 && (n * q) / n == q
  {
    QuotientUnique(n * q, n, q, 0);
  }

  lemma NextIsMore(j: nat, n: nat)
    requires n > 0 && j % n + 1 < n
    ensures (j + 1) % n == j % n + 1 && (j + 1) / n == j / n
  {
    QuotientUnique(j + 1, n, j / n, j % n + 1);
  }

  lemma QuotientUnique(a: nat, n: nat, q: nat, r: nat)
    requires n > 0 && r < n && a == n * q + r
    ensures a / n == q && a % n == r
  {
    var q', r' := a / n, a % n;
    assert n * q + r == n * q' + r';
    if q > q' {
      AtLeastOne(n, q, q');
    } else if q < q' {
      AtLeastOne(n, q', q);
    }
  }

  lemma AtLeastOne(n: nat, a: nat, b: nat)
    requires a > b
    ensures n * a >= n * b + n
  {
    var d := a - b - 1;
    assert a == b + 1 + d;
    assert n * (b + 1 + d) == n * b + n + n * d;
  }

  function Count(ps: seq<nat>, x: nat): nat
  {
    if ps == [] then 0 else Count(ps[..|ps| - 1], x) + if ps[|ps| - 1] == x then 1 else 0
  }

  // In a run of picks going around g, place a gets a turn for every full lap, and one more
  // if the last lap reached it.
  lemma {:induction false} Shares(g: seq<nat>, ps: seq<nat>, a: nat)
    requires Distinct(g) && a < |g| && forall j :: 0 <= j < |ps| ==> ps[j] == g[j % |g|]
    ensures Count(ps, g[a]) == Turns(|ps|, |g|, a)
    decreases |ps|
  {
    hide Turns, Distinct;
    FirstTurn(|g|, a);
    if ps != [] {
      var j := |ps| - 1;
      Shares(g, ps[..j], a);
      NextTurn(j, |g|, a);
      OnePlace(g, j % |g|, a);
    }
  }

  // How often place a of n has had its turn in k.
  function Turns(k: nat, n: nat, a: nat): nat
    requires n > 0
  {
    k / n + if a < k % n then 1 else 0
  }

  lemma OnePlace(g: seq<nat>, i: nat, a: nat)
    requires Distinct(g) && i < |g| && a < |g|
    ensures g[i] == g[a] <==> i == a
  {
  }

  lemma FirstTurn(n: nat, a: nat)
    requires n > 0
    ensures Turns(0, n, a) == 0
  {
    QuotientUnique(0, n, 0, 0);
  }

  lemma NextTurn(k: nat, n: nat, a: nat)
    requires a < n
    ensures Turns(k + 1, n, a) == Turns(k, n, a) + if k % n == a then 1 else 0
  {
    if k % n + 1 == n {
      NextIsZero(k, n);
    } else {
      NextIsMore(k, n);
    }
  }

  // Over any number of consecutive picks, no good server is ahead of another by more than
  // one.
  lemma FairShares(g: seq<nat>, ps: seq<nat>, x: nat, y: nat)
    requires Distinct(g) && g != [] && x in g && y in g
    requires forall j :: 0 <= j < |ps| ==> ps[j] == g[j % |g|]
    ensures Count(ps, x) <= Count(ps, y) + 1
  {
    var a :| 0 <= a < |g| && g[a] == x;
    var b :| 0 <= b < |g| && g[b] == y;
    Shares(g, ps, a);
    Shares(g, ps, b);
  }
}
