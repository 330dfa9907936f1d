// The request queues of evdns.c: inflight requests hang in buckets by transaction id,
// the others wait in one queue. All are circular lists through the requests themselves.
//
// Sending packets is not part of the model; a failed transmission shows as
// NameserverFailed. Transaction ids are handed in, as the random generator picked them.
module DnsRequests {
  import opened Rings
  import opened Nameservers

  // ---- Several disjoint rings over the same nodes ---------------------------------------

  // own says in which of the rings ls a node hangs.
  ghost predicate AllRings(links: Links, own: map<nat, nat>, ls: seq<seq<nat>>, hd: seq<nat>)
  {
    && |hd| == |ls|
    && (forall i :: 0 <= i < |ls| ==> Ring(links, ls[i]) && hd[i] == Head(ls[i]))
    && (forall i, r :: 0 <= i < |ls| ==> (r in ls[i] <==> r in own && own[r] == i))
  }

  lemma AddNode(links: Links, own: map<nat, nat>, ls: seq<seq<nat>>, hd: seq<nat>, r: nat, i: nat)
    requires AllRings(links, own, ls, hd) && i < |ls| && r != NULL && r !in own
    ensures hd[i] != NULL ==> hd[i] in links && links[hd[i]].prev in links
    ensures var s := ls[i] + [r];
      AllRings(Inserted(links, hd[i], r), own[r := i], ls[i := s], hd[i := if hd[i] == NULL then r else hd[i]])
    ensures forall x :: x in links && x !in own && x != r ==>
      x in Inserted(links, hd[i], r) && Inserted(links, hd[i], r)[x] == links[x]
  {
    hide Ring, Inserted;
    assert Ring(links, ls[i]) && r !in ls[i];
    HeadFacts(links, ls[i]);
    InsertTail(links, ls[i], r);
    var links', ls' := Inserted(links, hd[i], r), ls[i := ls[i] + [r]];
    forall j | 0 <= j < |ls| && j != i
      ensures Ring(links', ls[j])
    {
      NodesKnown(links, ls[j]);
      forall x | x in ls[j]
        ensures x !in ls[i] && x != r
      {
        assert own[x] == j;
      }
      RingElsewhere(links, links', ls[j]);
    }
  }

  lemma HeadFacts(links: Links, s: seq<nat>)
    requires Ring(links, s)
    ensures Head(s) == NULL <==> s == []
  {
  }

  lemma NodesKnown(links: Links, s: seq<nat>)
    requires Ring(links, s)
    ensures forall x :: x in s ==> x in links
  {
    forall x | x in s
      ensures x in links
    {
      var k :| 0 <= k < |s| && s[k] == x;
      assert Linked(links, s, k);
    }
  }

  lemma DropNode(links: Links, own: map<nat, nat>, ls: seq<seq<nat>>, hd: seq<nat>, i: nat, k: nat)
    requires AllRings(links, own, ls, hd) && i < |ls| && k < |ls[i]|
    ensures var r := ls[i][k];
      && r in links && links[r].next in links && links[r].prev in links && r in own && own[r] == i
      && AllRings(Removed(links, r), own - {r}, ls[i := Without(ls[i], k)], hd[i := HeadWithout(links, hd[i], r)])
  {
    hide Ring, Removed, HeadWithout, Without;
    var r := ls[i][k];
    assert Ring(links, ls[i]) && r in ls[i];
    RemoveNode(links, ls[i], k);
    var links', ls' := Removed(links, r), ls[i := Without(ls[i], k)];
    forall j | 0 <= j < |ls| && j != i
      ensures Ring(links', ls[j])
    {
      NodesKnown(links, ls[j]);
      forall x | x in ls[j]
        ensures x !in ls[i]
      {
        assert own[x] == j;
      }
      RingElsewhere(links, links', ls[j]);
    }
  }

  // How many nodes hang in the rings.
  function Total(ls: seq<seq<nat>>): nat
  {
    if ls == [] then 0 else |ls[0]| + Total(ls[1..])
  }

  lemma {:induction false} TotalChange(ls: seq<seq<nat>>, i: nat, s: seq<nat>)
    requires i < |ls|
    ensures Total(ls[i := s]) == Total(ls) - |ls[i]| + |s|
  {
    var ls' := ls[i := s];
    if i > 0 {
      TotalChange(ls[1..], i - 1, s);
      assert ls'[1..] == ls[1..][i - 1 := s];
    } else {
      assert ls'[1..] == ls[1..];
    }
  }

  // ---- Requests -----------------------------------------------------------------------------

  datatype Request = Request(ns: nat, transId: nat, txCount: nat, reissueCount: nat, transmitMe: bool, timerOn: bool)

  type Requests = map<nat, Request>

  const NO_ID: nat := 0xFFFF

  // The bucket of an inflight request; n, the number of buckets, for a waiting one.
  function Place(q: Request, n: nat): (i: nat)
    requires n > 0
    ensures i <= n
  {
    if q.ns != NULL then q.transId % n else n
  }

  ghost function Own(reqs: Requests, n: nat): map<nat, nat>
    requires n > 0
  {
    map r | r in reqs :: Place(reqs[r], n)
  }

  // ns is what pick k from the ring on gives.
  ghost predicate PickIs(servers: Servers, good: int, ring: seq<nat>, k: nat, ns: nat)
  {
    && ring != [] && (forall x :: x in ring ==> x in servers) && (good > 0 ==> Goods(servers, ring) != [])
    && ns == PickAt(servers, good, ring, k)
  }

  // The first p requests of the queue w have gone out, each with an id and a server of its
  // own and otherwise as it was.
  ghost predicate GoneOut(was: Requests, reqs: Requests, w: seq<nat>, p: nat, tids: seq<nat>,
                          servers: Servers, good: int, ring: seq<nat>)
  {
    && p <= |w| && p <= |tids|
    && forall k :: 0 <= k < p ==>
         && w[k] in was && w[k] in reqs && PickIs(servers, good, ring, k, reqs[w[k]].ns)
         && reqs[w[k]] == was[w[k]].(ns := reqs[w[k]].ns, transId := tids[k])
  }

  lemma NoneOut(reqs: Requests, w: seq<nat>, tids: seq<nat>, servers: Servers, good: int, ring: seq<nat>)
    ensures GoneOut(reqs, reqs, w, 0, tids, servers, good, ring)
  {
  }

  lemma OneMoreOut(was: Requests, reqs: Requests, w: seq<nat>, p: nat, tids: seq<nat>, servers: Servers, good: int,
                   ring: seq<nat>, ns: nat)
    requires GoneOut(was, reqs, w, p, tids, servers, good, ring) && p < |w| && p < |tids|
    requires (forall i, j :: 0 <= i < j < |w| ==> w[i] != w[j]) && w[p] in was && w[p] in reqs
    requires reqs[w[p]] == was[w[p]] && PickIs(servers, good, ring, p, ns)
    ensures GoneOut(was, reqs[w[p] := reqs[w[p]].(ns := ns, transId := tids[p])], w, p + 1, tids, servers, good, ring)
  {
    hide PickIs;
  }

  lemma NotBefore(w: seq<nat>, p: nat)
    requires p < |w| && forall i, j :: 0 <= i < j < |w| ==> w[i] != w[j]
    ensures w[p] !in w[..p]
  {
  }

  lemma NextPick(servers: Servers, good: int, was: seq<nat>, ring: seq<nat>, now: seq<nat>, n: nat, ns: nat)
    requires good >= 0 && was != [] && forall x :: x in was ==> x in servers
    requires PickedTimes(servers, good, was, ring, n) && PickedBy(servers, good, ring, now, ns)
    ensures PickedTimes(servers, good, was, now, n + 1) && PickIs(servers, good, was, n, ns)
  {
    PickedNext(servers, good, was, ring, now, n, ns);
  }

  lemma OutBefore(was: Requests, before: Requests, reqs: Requests, w: seq<nat>, p: nat, tids: seq<nat>,
                  servers: Servers, good: int, ring: seq<nat>)
    requires GoneOut(was, reqs, w, p, tids, servers, good, ring)
    requires forall x :: x in was ==> x in before && before[x] == was[x]
    ensures GoneOut(before, reqs, w, p, tids, servers, good, ring)
  {
    hide PickIs;
  }

  lemma FirstPick(servers: Servers, good: int, was: seq<nat>, now: seq<nat>, ns: nat)
    requires forall x :: x in was ==> x in servers
    ensures good >= 0 && was != [] && PickedBy(servers, good, was, now, ns) ==> PickIs(servers, good, was, 0, ns)
  {
    PickedNone(servers, good, was);
    if good >= 0 && was != [] && PickedBy(servers, good, was, now, ns) {
      NextPick(servers, good, was, was, now, 0, ns);
    }
  }

  class RequestQueues {
    const servers: ServerRing
    var links: Links
    var reqs: Requests
    var heads: seq<nat>
    var waitingHead: nat
    var inflight: int
    var waitingCount: int
    var maxInflight: nat
    ghost var buckets: seq<seq<nat>>
    ghost var waiting: seq<nat>

    // Every request hangs in the bucket of its id or in the waiting queue, by whether it
    // has a nameserver, and the counters are the lengths of the queues.
    ghost predicate Queued()
      reads this`links, this`reqs, this`heads, this`waitingHead
      reads this`buckets, this`waiting, this`inflight, this`waitingCount
    {
      && |heads| == |buckets| > 0
      && AllRings(links, Own(reqs, |heads|), buckets + [waiting], heads + [waitingHead])
      && inflight == Total(buckets) && waitingCount == |waiting|
    }

    ghost predicate Valid()
      reads this, servers
    {
      && Queued() && servers.Valid() && maxInflight > 0
      && forall r :: r in reqs && reqs[r].ns != NULL ==> reqs[r].ns in servers.servers
    }

    // What Queued says request by request.
    lemma Accounting()
      requires Queued()
      ensures forall i, r :: 0 <= i < |buckets| ==>
        (r in buckets[i] <==> r in reqs && reqs[r].ns != NULL && reqs[r].transId % |buckets| == i)
      ensures forall r :: r in waiting <==> r in reqs && reqs[r].ns == NULL
      ensures waitingHead == Head(waiting) && Ring(links, waiting)
      ensures forall i :: 0 <= i < |buckets| ==> heads[i] == Head(buckets[i]) && Ring(links, buckets[i])
    {
      hide Ring, AllRings, Queued;
      WaitingFacts();
      forall i | 0 <= i < |buckets|
        ensures forall r :: r in buckets[i] <==> r in reqs && reqs[r].ns != NULL && reqs[r].transId % |buckets| == i
        ensures |heads| == |buckets| && heads[i] == Head(buckets[i]) && Ring(links, buckets[i])
      {
        BucketFacts(i);
      }
    }

    lemma WaitingFacts()
      requires Queued()
      ensures forall r :: r in waiting <==> r in reqs && reqs[r].ns == NULL
      ensures waitingHead == Head(waiting) && Ring(links, waiting) && |heads| == |buckets| > 0
    {
      hide Ring;
      var own, ls, n := Own(reqs, |heads|), buckets + [waiting], |buckets|;
      assert ls[n] == waiting && (heads + [waitingHead])[n] == waitingHead;
      assert forall r :: r in ls[n] <==> r in own && own[r] == n;
    }

    lemma BucketFacts(i: nat)
      requires Queued() && i < |buckets|
      ensures |heads| == |buckets|
      ensures forall r :: r in buckets[i] <==> r in reqs && reqs[r].ns != NULL && reqs[r].transId % |buckets| == i
      ensures heads[i] == Head(buckets[i]) && Ring(links, buckets[i])
    {
      hide Ring;
      var own, ls := Own(reqs, |heads|), buckets + [waiting];
      assert ls[i] == buckets[i] && (heads + [waitingHead])[i] == heads[i];
      assert forall r :: r in ls[i] <==> r in own && own[r] == i;
    }

    constructor ()
      ensures Valid() && reqs == map[] && waiting == [] && maxInflight == 64 && |heads| == 13
      ensures fresh(servers)
    {
      servers := new ServerRing();
      links, reqs := map[], map[];
      heads, waitingHead := seq(13, _ => NULL), NULL;
      inflight, waitingCount, maxInflight := 0, 0, 64;
      buckets, waiting := Empties(13), [];
      new;
      NoneTotal(13);
    }

    // evdns_request_insert for a request with fields q, and the counter that goes with it
    method Insert(r: nat, q: Request)
      requires Queued() && r != NULL && r !in reqs
      modifies this`links, this`reqs, this`heads, this`waitingHead
      modifies this`buckets, this`waiting, this`inflight, this`waitingCount
      ensures Queued() && reqs == old(reqs)[r := q] && |heads| == |old(heads)|
      ensures q.ns == NULL ==> waiting == old(waiting) + [r] && buckets == old(buckets)
      ensures q.ns == NULL ==> waitingCount == old(waitingCount) + 1 && inflight == old(inflight)
      ensures q.ns != NULL ==>
        var i := q.transId % |heads|;
        waiting == old(waiting) && buckets == old(buckets)[i := old(buckets)[i] + [r]]
      ensures q.ns != NULL ==> waitingCount == old(waitingCount) && inflight == old(inflight) + 1
    {
      hide AllRings, Inserted;
      ghost var n, ls, hd := |heads|, buckets + [waiting], heads + [waitingHead];
      var i := Place(q, |heads|);
      OwnAdd(reqs, n, r, q);
      AddNode(links, Own(reqs, n), ls, hd, r, i);
      if q.ns == NULL {
        links := Inserted(links, waitingHead, r);
        waitingHead := if waitingHead == NULL then r else waitingHead;
        waiting := waiting + [r];
        waitingCount := waitingCount + 1;
        assert buckets + [waiting] == ls[n := waiting] && heads + [waitingHead] == hd[n := waitingHead];
      } else {
        TotalChange(buckets, i, buckets[i] + [r]);
        links := Inserted(links, heads[i], r);
        heads := heads[i := if heads[i] == NULL then r else heads[i]];
        buckets := buckets[i := buckets[i] + [r]];
        inflight := inflight + 1;
        assert buckets + [waiting] == ls[i := buckets[i]] && heads + [waitingHead] == hd[i := heads[i]];
      }
      reqs := reqs[r := q];
    }

    // evdns_request_remove, and the counter that goes with it
    method Remove(r: nat)
      requires Queued() && r in reqs
      modifies this`links, this`reqs, this`heads, this`waitingHead
      modifies this`buckets, this`waiting, this`inflight, this`waitingCount
      ensures Queued() && reqs == old(reqs) - {r} && |heads| == |old(heads)|
      ensures old(reqs)[r].ns == NULL ==> buckets == old(buckets) && inflight == old(inflight)
      ensures old(reqs)[r].ns == NULL ==> waitingCount == old(waitingCount) - 1
      ensures old(reqs)[r].ns == NULL ==>
        exists k :: 0 <= k < |old(waiting)| && old(waiting)[k] == r && waiting == Without(old(waiting), k)
      ensures old(reqs)[r].ns != NULL ==> waiting == old(waiting) && waitingCount == old(waitingCount)
      ensures old(reqs)[r].ns != NULL ==> inflight == old(inflight) - 1
      ensures old(reqs)[r].ns != NULL ==>
        var i := old(reqs)[r].transId % |old(heads)|;
        exists k :: 0 <= k < |old(buckets)[i]| && old(buckets)[i][k] == r &&
          buckets == old(buckets)[i := Without(old(buckets)[i], k)]
    {
      hide AllRings, Removed, HeadWithout, Without;
      ghost var n, ls, hd := |heads|, buckets + [waiting], heads + [waitingHead];
      var i := Place(reqs[r], |heads|);
      ghost var k := Whereabouts(links, Own(reqs, n), ls, hd, r);
      DropNode(links, Own(reqs, n), ls, hd, i, k);
      OwnDrop(reqs, n, r);
      var head := if reqs[r].ns == NULL then waitingHead else heads[i];
      head := HeadWithout(links, head, r);
      links := Removed(links, r);
      if reqs[r].ns == NULL {
        waitingHead := head;
        waiting := Without(waiting, k);
        waitingCount := waitingCount - 1;
        assert buckets + [waiting] == ls[n := waiting] && heads + [waitingHead] == hd[n := waitingHead];
      } else {
        TotalChange(buckets, i, Without(buckets[i], k));
        heads := heads[i := head];
        buckets := buckets[i := Without(buckets[i], k)];
        inflight := inflight - 1;
        assert buckets + [waiting] == ls[i := buckets[i]] && heads + [waitingHead] == hd[i := heads[i]];
      }
      reqs := reqs - {r};
    }

    // Fields that do not decide where a request hangs.
    method Update(r: nat, q: Request)
      requires Queued() && r in reqs && Place(q, |heads|) == Place(reqs[r], |heads|)
      modifies this`reqs
      ensures Queued() && reqs == old(reqs)[r := q]
    {
      hide AllRings;
      assert Own(reqs[r := q], |heads|) == Own(reqs, |heads|);
      reqs := reqs[r := q];
    }

    // request_new and request_submit: with room and a nameserver the request goes out at
    // once, else it waits. tid is what transaction_id_pick gives.
    method Submit(r: nat, tid: nat)
      requires Valid() && r != NULL && r !in reqs && tid < NO_ID
      modifies this`links, this`reqs, this`heads, this`waitingHead
      modifies this`buckets, this`waiting, this`inflight, this`waitingCount
      modifies servers
      ensures Valid() && reqs.Keys == old(reqs).Keys + {r}
      ensures forall x :: x in old(reqs) ==> reqs[x] == old(reqs)[x]
      ensures reqs[r].ns != NULL <==> old(inflight) < maxInflight && old(servers.ring) != []
      ensures reqs[r].ns == NULL ==> waiting == old(waiting) + [r] && inflight == old(inflight)
      ensures reqs[r].ns != NULL ==> waiting == old(waiting) && inflight == old(inflight) + 1 <= maxInflight
      ensures servers.servers == old(servers.servers) && Turned(old(servers.ring), old(inflight))
      ensures reqs[r] ==
        Request(reqs[r].ns, if old(inflight) < maxInflight then tid else 0xFFFF, 0, 0, false, false)
      ensures reqs[r].ns != NULL ==>
        PickIs(servers.servers, servers.good, old(servers.ring), 0, reqs[r].ns)
    {
      hide AllRings, ServerRing.Valid, PickedBy, PickedOnce, PickIs;
      var issuing := inflight < maxInflight;
      var ns := NULL;
      PickedKnown(servers);
      if issuing {
        ns := servers.Pick();
        PickedKnown(servers);
        FirstPick(servers.servers, servers.good, old(servers.ring), servers.ring, ns);
      }
      Insert(r, Request(ns, if issuing then tid else NO_ID, 0, 0, false, false));
    }

    // request_new picks a server exactly if there is room.
    ghost predicate Turned(was: seq<nat>, inflight0: nat)
      reads this`maxInflight, servers
    {
      && (forall x :: x in was ==> x in servers.servers)
      && (if inflight0 < maxInflight then PickedOnce(servers.servers, servers.good, was, servers.ring)
          else servers.ring == was)
    }

    // nameserver_send_probe: a probe is inflight whatever the limit. With room request_new
    // picks a server for it, which then makes way for the one to be probed.
    method SubmitProbe(r: nat, ns: nat, tid: nat)
      requires Valid() && r != NULL && r !in reqs && tid < NO_ID && ns != NULL && ns in servers.servers
      modifies this`links, this`reqs, this`heads, this`waitingHead
      modifies this`buckets, this`waiting, this`inflight, this`waitingCount
      modifies servers
      ensures Valid() && reqs == old(reqs)[r := Request(ns, tid, 0, 0, false, false)]
      ensures waiting == old(waiting) && inflight == old(inflight) + 1
      ensures servers.servers == old(servers.servers) && Turned(old(servers.ring), old(inflight))
    {
      hide AllRings, ServerRing.Valid, PickedOnce, PickedBy, Goods;
      PickedKnown(servers);
      if inflight < maxInflight {
        var picked := servers.Pick();
        PickedKnown(servers);
      }
      Insert(r, Request(ns, tid, 0, 0, false, false));
    }

    // evdns_requests_pump_waiting_queue: requests leave the waiting queue in order, for as
    // long as there is room and a nameserver. tids are the ids transaction_id_pick gives.
    method Pump(tids: seq<nat>) returns (p: nat)
      requires Valid() && |tids| >= |waiting| && forall k :: 0 <= k < |tids| ==> tids[k] < NO_ID
      modifies this`links, this`reqs, this`heads, this`waitingHead
      modifies this`buckets, this`waiting, this`inflight, this`waitingCount
      modifies servers
      ensures Valid() && reqs.Keys == old(reqs).Keys && servers.servers == old(servers.servers)
      ensures p <= |old(waiting)| && waiting == old(waiting)[p..] && inflight == old(inflight) + p
      ensures forall x :: x in reqs && x !in old(waiting)[..p] ==> reqs[x] == old(reqs)[x]
      ensures waiting == [] || inflight >= maxInflight || servers.ring == []
      ensures p > 0 ==> inflight <= maxInflight
      ensures (servers.ring == [] <==> old(servers.ring) == []) && (servers.ring == [] ==> p == 0)
      ensures GoneOut(old(reqs), reqs, old(waiting), p, tids, servers.servers, servers.good, old(servers.ring))
    {
      hide AllRings, Queued, Ring, ServerRing.Valid, GoneOut, PickedTimes, PickedBy, PickedOnce, PickIs, PickAt;
      p := 0;
      Counters();
      PickedKnown(servers);
      PickedNone(servers.servers, servers.good, servers.ring);
      NoneOut(reqs, waiting, tids, servers.servers, servers.good, servers.ring);
      QueueDistinct();
      assert waiting[0..] == waiting;
      while inflight < maxInflight && waitingCount != 0
        invariant Valid() && reqs.Keys == old(reqs).Keys && servers.servers == old(servers.servers)
        invariant p <= |old(waiting)| && waiting == old(waiting)[p..] && inflight == old(inflight) + p
        invariant waitingCount == |waiting| && (p > 0 ==> inflight <= maxInflight)
        invariant forall x :: x in reqs && x !in old(waiting)[..p] ==> reqs[x] == old(reqs)[x]
        invariant (servers.ring == [] <==> old(servers.ring) == []) && (servers.ring == [] ==> p == 0)
        invariant servers.good == old(servers.good)
        invariant PickedTimes(servers.servers, servers.good, old(servers.ring), servers.ring, p)
        invariant GoneOut(old(reqs), reqs, old(waiting), p, tids, servers.servers, servers.good, old(servers.ring))
        decreases |waiting|
      {
        ghost var ring, rs := servers.ring, reqs;
        var ns := PumpOne(tids[p]);
        if ns == NULL {
          return;
        }
        NotBefore(old(waiting), p);
        NextPick(servers.servers, servers.good, old(servers.ring), ring, servers.ring, p, ns);
        OneMoreOut(old(reqs), rs, old(waiting), p, tids, servers.servers, servers.good, old(servers.ring), ns);
        assert old(waiting)[p..][1..] == old(waiting)[p + 1..];
        assert old(waiting)[..p + 1] == old(waiting)[..p] + [old(waiting)[p]];
        p := p + 1;
      }
    }

    // The loop body: the first waiting request goes out, if there is a nameserver.
    method PumpOne(tid: nat) returns (ns: nat)
      requires Valid() && waiting != [] && tid < NO_ID
      modifies this`links, this`reqs, this`heads, this`waitingHead
      modifies this`buckets, this`waiting, this`inflight, this`waitingCount
      modifies servers
      ensures Valid() && servers.servers == old(servers.servers) && servers.good == old(servers.good)
      ensures waitingCount == |waiting| && (servers.ring == [] <==> old(servers.ring) == [])
      ensures ns == NULL ==> servers.ring == [] && reqs == old(reqs) && waiting == old(waiting)
      ensures ns == NULL ==> inflight == old(inflight)
      ensures ns != NULL ==>
        servers.ring != [] && PickedBy(servers.servers, servers.good, old(servers.ring), servers.ring, ns)
      ensures ns != NULL ==>
        var r := old(waiting)[0];
        && r in old(reqs) && reqs == old(reqs)[r := old(reqs)[r].(ns := ns, transId := tid)]
        && waiting == old(waiting)[1..] && inflight == old(inflight) + 1 && servers.good >= 0
    {
      hide AllRings, Queued, Ring, ServerRing.Valid, PickedBy, PickedOnce;
      WaitingFacts();
      PickedKnown(servers);
      Counters();
      var r := waitingHead;
      ns := servers.Pick();
      PickedKnown(servers);
      if ns == NULL {
        return;
      }
      Promote(r, ns, tid);
      Counters();
    }

    lemma QueueDistinct()
      requires Queued()
      ensures forall i, j :: 0 <= i < j < |waiting| ==> waiting[i] != waiting[j]
      ensures forall i :: 0 <= i < |waiting| ==> waiting[i] in reqs
    {
      hide AllRings, Queued, Ring;
      WaitingFacts();
      RingFacts(links, waiting);
    }

    lemma Counters()
      requires Queued()
      ensures waitingCount == |waiting| && inflight == Total(buckets) && |heads| == |buckets| > 0
    {
    }

    // The head of the waiting queue gets a nameserver and an id and goes out.
    method Promote(r: nat, ns: nat, tid: nat)
      requires Valid() && waiting != [] && r == waiting[0] && ns != NULL && ns in servers.servers && tid < NO_ID
      modifies this`links, this`reqs, this`heads, this`waitingHead
      modifies this`buckets, this`waiting, this`inflight, this`waitingCount
      ensures Valid() && r in old(reqs) && reqs == old(reqs)[r := old(reqs)[r].(ns := ns, transId := tid)]
      ensures waiting == old(waiting)[1..] && inflight == old(inflight) + 1
    {
      hide AllRings, Queued, Ring, Without, ServerRing.Valid;
      WaitingFacts();
      NotNull(links, waiting, 0);
      RingFacts(links, waiting);
      var q := reqs[r];
      ghost var w := waiting;
      Remove(r);
      FirstOut(w, waiting);
      Insert(r, q.(ns := ns, transId := tid));
      assert reqs == old(reqs)[r := q.(ns := ns, transId := tid)];
    }

    // request_finished: the request is gone and the next ones may go out.
    method Finish(r: nat, tids: seq<nat>) returns (p: nat)
      requires Valid() && r in reqs && |tids| >= |waiting| && forall k :: 0 <= k < |tids| ==> tids[k] < NO_ID
      modifies this`links, this`reqs, this`heads, this`waitingHead
      modifies this`buckets, this`waiting, this`inflight, this`waitingCount
      modifies servers
      ensures Valid() && reqs.Keys == old(reqs).Keys - {r} && servers.servers == old(servers.servers)
      ensures var w := Others(old(waiting), r);
        && p <= |w| && waiting == w[p..]
        && (forall x :: x in reqs && x !in w[..p] ==> reqs[x] == old(reqs)[x])
        && GoneOut(old(reqs), reqs, w, p, tids, servers.servers, servers.good, old(servers.ring))
      ensures waiting == [] || inflight >= maxInflight || servers.ring == []
      ensures inflight == old(inflight) + p - if old(reqs)[r].ns == NULL then 0 else 1
      ensures p > 0 ==> inflight <= maxInflight
    {
      hide AllRings, Queued, Ring, Without, ServerRing.Valid, GoneOut;
      ghost var w := waiting;
      WaitingFacts();
      OthersLeft(links, w, r);
      Remove(r);
      ShorterQueue(w, waiting);
      assert waiting == Others(w, r);
      ghost var waiting0 := waiting;
      ghost var was := reqs;
      p := Pump(tids);
      OutBefore(was, old(reqs), reqs, waiting0, p, tids, servers.servers, servers.good, old(servers.ring));
    }

    // request_find_from_trans_id
    method FindFromTransId(tid: nat) returns (r: nat)
      requires Valid()
      ensures r == NULL || (r in reqs && reqs[r].ns != NULL && reqs[r].transId == tid)
      ensures r == NULL ==> forall x :: x in reqs && reqs[x].ns != NULL ==> reqs[x].transId != tid
    {
      hide AllRings, Queued, Ring;
      Counters();
      var i := tid % |heads|;
      BucketFacts(i);
      ghost var s := buckets[i];
      r := heads[i];
      HeadFacts(links, s);
      if r == NULL {
        NoneInBucket(tid);
        return;
      }
      ghost var k := 0;
      var startedAt := r;
      while true
        invariant 0 <= k < |s| && r == s[k]
        invariant forall j :: 0 <= j < k ==> s[j] in reqs && reqs[s[j]].transId != tid
        decreases |s| - k
      {
        if reqs[r].transId == tid {
          NotNull(links, s, k);
          return;
        }
        NextInRing(links, s, k);
        r := links[r].next;
        k := k + 1;
        if r == startedAt {
          AroundOnce(links, s, k);
          NoneInBucket(tid);
          return NULL;
        }
      }
    }

    lemma NoneInBucket(tid: nat)
      requires Queued() && |heads| > 0
      requires forall j :: 0 <= j < |buckets[tid % |heads|]| ==>
        var x := buckets[tid % |heads|][j]; x in reqs && reqs[x].transId != tid
      ensures forall x :: x in reqs && reqs[x].ns != NULL ==> reqs[x].transId != tid
    {
      hide AllRings;
      BucketFacts(tid % |heads|);
    }

    // nameserver_failed: requests that were not sent yet go to other servers, if any is
    // left.
    method NameserverFailed(ns: nat)
      requires Valid() && ns in servers.servers && ns != NULL
      modifies this`reqs, servers
      ensures Valid() && ns in servers.servers && !servers.servers[ns].up
      ensures Moved(old(reqs), reqs, servers.servers, ns)
      ensures old(servers.servers)[ns].up && servers.good > 0 ==>
        forall r :: r in reqs && reqs[r].txCount == 0 ==> reqs[r].ns != ns
    {
      hide AllRings, Queued, Ring, ServerRing.Valid;
      Counters();
      if !servers.servers[ns].up {
        return;
      }
      servers.Failed(ns);
      if servers.good == 0 {
        return;
      }
      var i := 0;
      while i < |heads|
        invariant 0 <= i <= |heads| && Valid() && Moved(old(reqs), reqs, servers.servers, ns)
        invariant servers.good > 0 && ns in servers.servers && !servers.servers[ns].up
        invariant forall r :: r in reqs && reqs[r].ns != NULL && reqs[r].transId % |heads| < i ==>
          !(reqs[r].txCount == 0 && reqs[r].ns == ns)
        invariant |heads| > 0
      {
        MoveBucket(i, ns);
        i := i + 1;
      }
    }

    // A request that was not sent yet goes to the next good server.
    method MoveRequest(r: nat, ns: nat)
      requires Valid() && r in reqs && servers.good > 0 && ns in servers.servers
      requires ns != NULL && !servers.servers[ns].up
      modifies this`reqs, servers
      ensures Valid() && servers.good == old(servers.good) && servers.servers == old(servers.servers)
      ensures r in reqs && reqs == old(reqs)[r := old(reqs)[r].(ns := reqs[r].ns)]
      ensures !(reqs[r].txCount == 0 && reqs[r].ns == ns)
      ensures reqs[r].ns == old(reqs)[r].ns || (old(reqs)[r].ns == ns && reqs[r].txCount == 0 && reqs[r].ns != NULL &&
        reqs[r].ns in servers.servers && servers.servers[reqs[r].ns].up)
    {
      hide AllRings, Queued, Ring, ServerRing.Valid, PickedBy, PickedOnce;
      Counters();
      if reqs[r].txCount == 0 && reqs[r].ns == ns {
        var picked := servers.Pick();
        Update(r, reqs[r].(ns := picked));
      } else {
        assert reqs == reqs[r := reqs[r]];
      }
    }

    // The walk along one bucket.
    method MoveBucket(i: nat, ns: nat)
      requires Valid() && i < |heads| && servers.good > 0
      requires ns in servers.servers && ns != NULL && !servers.servers[ns].up
      modifies this`reqs, servers
      ensures Valid() && servers.good == old(servers.good) && servers.servers == old(servers.servers)
      ensures Moved(old(reqs), reqs, servers.servers, ns)
      ensures forall r :: r in reqs && reqs[r].ns != NULL && reqs[r].transId % |heads| == i ==>
        !(reqs[r].txCount == 0 && reqs[r].ns == ns)
      ensures forall r :: r in reqs && reqs[r].transId % |heads| != i ==> reqs[r] == old(reqs)[r]
    {
      hide AllRings, Queued, Ring, ServerRing.Valid, Moved;
      NoneMoved(reqs, servers.servers, ns);
      Counters();
      BucketFacts(i);
      ghost var s := buckets[i];
      HeadFacts(links, s);
      var r := heads[i];
      if r == NULL {
        return;
      }
      ghost var k := 0;
      var startedAt := r;
      while true
        invariant 0 <= k < |s| && r == s[k] && Valid() && s == buckets[i] && Ring(links, s)
        invariant servers.good == old(servers.good) && servers.servers == old(servers.servers)
        invariant Moved(old(reqs), reqs, servers.servers, ns)
        invariant forall j :: 0 <= j < |s| ==>
          s[j] in reqs && reqs[s[j]].ns != NULL && reqs[s[j]].transId % |heads| == i
        invariant forall j :: 0 <= j < k ==> !(reqs[s[j]].txCount == 0 && reqs[s[j]].ns == ns)
        invariant reqs.Keys == old(reqs).Keys
        invariant forall x :: x in reqs && reqs[x].transId % |heads| != i ==> reqs[x] == old(reqs)[x]
        decreases |s| - k
      {
        NextInRing(links, s, k);
        DistinctUpTo(links, s, k);
        ghost var was := reqs;
        MoveRequest(r, ns);
        MovedMore(old(reqs), was, reqs, servers.servers, ns, r);
        r := links[r].next;
        k := k + 1;
        if r == startedAt {
          AroundOnce(links, s, k);
          BucketFacts(i);
          return;
        }
      }
    }

    // evdns_base_set_max_requests_inflight: every inflight request moves to its bucket in
    // a table of the new size.
    method SetMaxInflight(maxInflight': int)
      requires Valid()
      modifies this`links, this`heads, this`buckets, this`maxInflight
      ensures Valid() && waiting == old(waiting) && inflight == old(inflight)
      ensures maxInflight == if maxInflight' < 1 then 1 else maxInflight'
      ensures |heads| == (maxInflight + 4) / 5
    {
      hide AllRings, Ring, Inserted, Removed, HeadWithout, Without, Between, ServerRing.Valid;
      var max: nat := if maxInflight' < 1 then 1 else maxInflight';
      var n0, n1 := |heads|, (max + 4) / 5;
      var oldHeads: seq<nat>, newHeads: seq<nat> := heads, seq(n1, _ => NULL);
      ghost var olds: seq<seq<nat>>, news: seq<seq<nat>> := buckets, Empties(n1);
      ghost var own: map<nat, nat> := SplitOwn(reqs, n0, n1);
      SplitStart(links, reqs, buckets, waiting, heads, waitingHead, newHeads, n1);
      NoneTotal(n1);
      var i := 0;
      while i < n0
        invariant 0 <= i <= n0 == |olds| == |oldHeads| && |news| == |newHeads| == n1
        invariant AllRings(links, own, olds + news + [waiting], oldHeads + newHeads + [waitingHead])
        invariant Between(reqs, own, n0, n1) && Total(olds) + Total(news) == inflight
        invariant forall j :: 0 <= j < i ==> olds[j] == []
      {
        while oldHeads[i] != NULL
          invariant n0 == |olds| == |oldHeads| && |news| == |newHeads| == n1
          invariant AllRings(links, own, olds + news + [waiting], oldHeads + newHeads + [waitingHead])
          invariant Between(reqs, own, n0, n1) && Total(olds) + Total(news) == inflight
          invariant forall j :: 0 <= j < i ==> olds[j] == []
          decreases |olds[i]|
        {
          var r := oldHeads[i];
          FirstOfOld(links, own, olds, news, waiting, oldHeads, newHeads, waitingHead, i);
          InflightOld(reqs, own, n0, n1, r);
          var j := reqs[r].transId % n1;
          MoveNode(links, own, olds, news, waiting, oldHeads, newHeads, waitingHead, i, j);
          TotalChange(olds, i, Without(olds[i], 0));
          TotalChange(news, j, news[j] + [r]);
          var rest := HeadWithout(links, oldHeads[i], r);
          links := Removed(links, r);
          oldHeads := oldHeads[i := rest];
          olds := olds[i := Without(olds[i], 0)];
          links := Inserted(links, newHeads[j], r);
          newHeads := newHeads[j := if newHeads[j] == NULL then r else newHeads[j]];
          news := news[j := news[j] + [r]];
          MovedBetween(reqs, own, n0, n1, r);
          own := own[r := n0 + j];
        }
        EmptyOld(links, own, olds, news, waiting, oldHeads, newHeads, waitingHead, i);
        i := i + 1;
      }
      SplitEnd(links, reqs, own, olds, news, waiting, oldHeads, newHeads, waitingHead);
      AllEmpty(olds);
      heads, buckets := newHeads, news;
      maxInflight := max;
    }

    // evdns_base_clear_nameservers_and_suspend, when no server has a probe outstanding:
    // all servers are dropped, and what was inflight waits ahead of what waited before,
    // in reverse order.
    method Suspend()
      requires Valid()
      modifies this`links, this`reqs, this`heads, this`waitingHead
      modifies this`buckets, this`waiting, this`inflight, this`waitingCount
      modifies servers
      ensures Valid() && reqs.Keys == old(reqs).Keys && servers.ring == []
      ensures old(servers.ring) == [] ==> reqs == old(reqs) && waiting == old(waiting) && inflight == old(inflight)
      ensures old(servers.ring) != [] ==> inflight == 0 && waiting == Reversed(Flat(old(buckets))) + old(waiting)
      ensures old(servers.ring) != [] ==> forall r :: r in reqs ==>
        reqs[r] ==
          if old(reqs)[r].ns == NULL then old(reqs)[r]
          else Request(ns := NULL, transId := 0, txCount := 0, reissueCount := 0, transmitMe := false, timerOn := false)
    {
      hide AllRings, Queued, Ring, SuspendedUpTo, ServerRing.Valid;
      ServersHead(servers);
      Counters();
      if servers.head == NULL {
        return;
      }
      servers.Clear();
      ghost var was := Before(buckets, heads, links, reqs, waiting);
      BeginSuspend(was);
      var i := 0;
      while i < |heads|
        invariant 0 <= i <= |heads| == |was.all| && SuspendedUpTo(was, i)
        invariant servers.Valid() && servers.ring == []
      {
        SuspendOne(was, i);
        i := i + 1;
      }
      EndSuspend(was);
      buckets := Empties(|heads|);
      inflight := 0;
      NoneTotal(|heads|);
      Requeue();
    }

    // The state before, and how far the suspension has come.
    ghost predicate SuspendedUpTo(was: BeforeSuspend, i: nat)
      reads this`links, this`reqs, this`heads, this`waitingHead, this`waiting, this`waitingCount
      requires i <= |was.all|
    {
      && KnownBefore(was) && |heads| == |was.all|
      && (forall j :: i <= j < |heads| ==> heads[j] == was.heads[j]) && (forall j :: 0 <= j < i ==> heads[j] == NULL)
      && waiting == Reversed(Flat(was.all[..i])) + was.waiting && waitingCount == |waiting|
      && Ring(links, waiting) && waitingHead == Head(waiting) && Untouched(was.links, links, was.reqs, waiting)
      && reqs.Keys == was.reqs.Keys
      && forall r :: r in reqs ==>
        reqs[r] == if was.reqs[r].ns != NULL && was.reqs[r].transId % |was.all| < i then Suspended() else was.reqs[r]
    }

    lemma BeginSuspend(was: BeforeSuspend)
      requires Queued() && was == Before(buckets, heads, links, reqs, waiting)
      ensures |heads| == |was.all| && SuspendedUpTo(was, 0)
    {
      hide AllRings, Ring, Queued;
      Accounting();
      Counters();
      Spread();
      assert was.all[..0] == [] && [] + waiting == waiting;
    }

    method SuspendOne(ghost was: BeforeSuspend, i: nat)
      requires i < |heads| == |was.all| && SuspendedUpTo(was, i)
      modifies this`links, this`reqs, this`heads, this`waitingHead, this`waiting, this`waitingCount
      ensures |heads| == |was.all| && SuspendedUpTo(was, i + 1)
    {
      hide Ring, KnownBefore;
      NotYet(was, i);
      SuspendBucket(i, was.all[i], was.links, was.reqs, waiting);
      FlatNext(was.all, i, was.waiting);
      heads := heads[i := NULL];
    }

    lemma NotYet(was: BeforeSuspend, i: nat)
      requires i < |was.all| && SuspendedUpTo(was, i)
      ensures Ring(was.links, was.all[i]) && was.heads[i] == Head(was.all[i])
      ensures forall x :: x in was.all[i] ==> x !in waiting && x in reqs
      ensures forall x :: x in was.all[i] <==>
        x in was.reqs && was.reqs[x].ns != NULL && was.reqs[x].transId % |was.all| == i
    {
      hide Ring;
      forall x | x in was.all[i]
        ensures x !in waiting
      {
        NotWaiting(was.all, i, was.waiting, x);
      }
    }

    lemma EndSuspend(was: BeforeSuspend)
      requires 0 < |heads| == |was.all| && SuspendedUpTo(was, |was.all|)
      ensures AllRings(links, Own(reqs, |heads|), Empties(|heads|) + [waiting], heads + [waitingHead])
      ensures waiting == Reversed(Flat(was.all)) + was.waiting
      ensures waitingCount == |waiting| && reqs.Keys == was.reqs.Keys
      ensures forall r :: r in reqs ==> reqs[r] == if was.reqs[r].ns == NULL then was.reqs[r] else Suspended()
    {
      hide Ring;
      assert was.all[..|was.all|] == was.all;
      AllWaiting(links, reqs, waiting, |heads|, heads, waitingHead, was.reqs, was.all, was.waiting);
    }

    // The requests s of bucket i go to the front of the waiting queue, one by one.
    method SuspendBucket(i: nat, ghost s: seq<nat>, ghost links0: Links, ghost reqs0: Requests, ghost w: seq<nat>)
      requires i < |heads| && Ring(links0, s) && heads[i] == Head(s)
      requires Ring(links, waiting) && waitingHead == Head(waiting) && w == waiting && waitingCount == |waiting|
      requires Untouched(links0, links, reqs0, waiting) && reqs.Keys == reqs0.Keys
      requires forall x :: x in s ==> x !in waiting && x in reqs
      modifies this`links, this`reqs, this`waitingHead, this`waiting, this`waitingCount
      ensures Ring(links, waiting) && waitingHead == Head(waiting) && waitingCount == |waiting|
      ensures waiting == Reversed(s) + w && Untouched(links0, links, reqs0, waiting)
      ensures reqs.Keys == reqs0.Keys
      ensures forall r :: r in reqs ==> reqs[r] == if r in s then Suspended() else old(reqs)[r]
    {
      hide Ring, Reversed, Untouched;
      HeadFacts(links0, s);
      var r := heads[i];
      NoneReversed(w);
      if r == NULL {
        return;
      }
      var startedAt := r;
      ghost var j := 0;
      assert s[..0] == [];
      while true
        invariant 0 <= j < |s| && r == s[j] && Ring(links, waiting)
        invariant waitingHead == Head(waiting) && waitingCount == |waiting|
        invariant waiting == Reversed(s[..j]) + w && Untouched(links0, links, reqs0, waiting)
        invariant reqs.Keys == reqs0.Keys
        invariant forall x :: x in reqs ==> reqs[x] == if x in s[..j] then Suspended() else old(reqs)[x]
        decreases |s| - j
      {
        SuspendNext(links0, s, w, j);
        StillThere(links0, links, reqs0, waiting, r);
        var next := links[r].next;
        reqs := reqs[r := Suspended()];
        PushFront(r, links0, reqs0);
        j := j + 1;
        if next == startedAt {
          AroundOnce(links0, s, j);
          assert s[..j] == s;
          return;
        }
        r := next;
      }
    }

    // evdns_request_insert into the waiting queue, and the head one step back
    method PushFront(r: nat, ghost links0: Links, ghost reqs0: Requests)
      requires Ring(links, waiting) && waitingHead == Head(waiting) && r != NULL && r !in waiting
      requires waitingCount == |waiting| && Untouched(links0, links, reqs0, waiting)
      modifies this`links, this`waitingHead, this`waiting, this`waitingCount
      ensures waiting == [r] + old(waiting) && Ring(links, waiting) && waitingHead == Head(waiting)
      ensures waitingCount == |waiting| && Untouched(links0, links, reqs0, waiting)
    {
      hide Ring, Inserted;
      ghost var w := waiting;
      HeadFacts(links, w);
      InsertTail(links, w, r);
      waitingCount := waitingCount + 1;
      links := Inserted(links, waitingHead, r);
      waitingHead := if waitingHead == NULL then r else waitingHead;
      RotateBackRing(links, w + [r]);
      waitingHead := links[waitingHead].prev;
      waiting := [r] + w;
      assert RotatedBack(w + [r]) == waiting;
    }

    lemma Spread()
      requires Queued()
      ensures Untouched(links, links, reqs, waiting)
    {
      hide AllRings, Ring, Queued;
      Accounting();
      Counters();
      forall r | r in reqs && r !in waiting
        ensures r in links
      {
        var i := reqs[r].transId % |buckets|;
        NodesKnown(links, buckets[i]);
      }
    }

    lemma Requeue()
      requires |heads| == |buckets| > 0
      requires AllRings(links, Own(reqs, |heads|), buckets + [waiting], heads + [waitingHead])
      requires inflight == Total(buckets) && waitingCount == |waiting|
      ensures Queued()
    {
    }
  }

  datatype BeforeSuspend = Before(all: seq<seq<nat>>, heads: seq<nat>, links: Links, reqs: Requests, waiting: seq<nat>)

  // Each request was in one place.
  ghost predicate KnownBefore(was: BeforeSuspend)
  {
    && |was.heads| == |was.all| > 0
    && (forall i :: 0 <= i < |was.all| ==> Ring(was.links, was.all[i]) && was.heads[i] == Head(was.all[i]))
    && (forall i, r :: 0 <= i < |was.all| ==>
          (r in was.all[i] <==> r in was.reqs && was.reqs[r].ns != NULL && was.reqs[r].transId % |was.all| == i))
    && (forall r :: r in was.waiting <==> r in was.reqs && was.reqs[r].ns == NULL)
  }

  // An inflight request after suspension.
  function Suspended(): Request
  {
    Request(NULL, 0, 0, 0, false, false)
  }

  function Flat(ls: seq<seq<nat>>): seq<nat>
  {
    if ls == [] then [] else Flat(ls[..|ls| - 1]) + ls[|ls| - 1]
  }

  function Reversed(s: seq<nat>): (t: seq<nat>)
    ensures |t| == |s| && forall x :: x in t <==> x in s
  {
    if s == [] then [] else [s[|s| - 1]] + Reversed(s[..|s| - 1])
  }

  lemma {:induction false} ReversedConcat(a: seq<nat>, b: seq<nat>)
    ensures Reversed(a + b) == Reversed(b) + Reversed(a)
  {
    if b == [] {
      assert a + b == a;
    } else {
      var n := |b| - 1;
      assert (a + b)[..|a + b| - 1] == a + b[..n];
      ReversedConcat(a, b[..n]);
    }
  }

  // The links of requests not in the waiting queue are as they were.
  ghost predicate Untouched(links0: Links, links: Links, reqs: Requests, waiting: seq<nat>)
  {
    forall x :: x in reqs && x !in waiting ==> x in links0 && x in links && links[x] == links0[x]
  }

  lemma StillThere(links0: Links, links: Links, reqs: Requests, waiting: seq<nat>, r: nat)
    requires Untouched(links0, links, reqs, waiting) && r in reqs && r !in waiting
    ensures r in links0 && r in links && links[r] == links0[r]
  {
  }

  lemma NoneReversed(w: seq<nat>)
    ensures Reversed([]) + w == w
  {
  }

  lemma SuspendNext(links0: Links, s: seq<nat>, w: seq<nat>, j: nat)
    requires Ring(links0, s) && j < |s| && forall x :: x in s ==> x !in w
    ensures s[j] != NULL && s[j] !in Reversed(s[..j]) + w && s[..j + 1] == s[..j] + [s[j]]
    ensures s[j] in links0 && links0[s[j]].next == if j + 1 == |s| then s[0] else s[j + 1]
    ensures Reversed(s[..j + 1]) + w == [s[j]] + (Reversed(s[..j]) + w)
  {
    NextInRing(links0, s, j);
    RingNode(links0, s, j);
    ReversedMore(s, j);
    hide Ring, Reversed;
    var t := Reversed(s[..j]);
    assert [s[j]] + t + w == [s[j]] + (t + w);
  }

  lemma RingNode(links: Links, s: seq<nat>, j: nat)
    requires Ring(links, s) && j < |s|
    ensures s[j] != NULL && s[j] !in s[..j]
  {
  }

  lemma ReversedMore(s: seq<nat>, j: nat)
    requires j < |s|
    ensures s[..j + 1] == s[..j] + [s[j]] && Reversed(s[..j + 1]) == [s[j]] + Reversed(s[..j])
  {
    assert s[..j + 1][..j] == s[..j];
  }

  lemma FlatNext(all: seq<seq<nat>>, i: nat, w: seq<nat>)
    requires i < |all|
    ensures Reversed(all[i]) + (Reversed(Flat(all[..i])) + w) == Reversed(Flat(all[..i + 1])) + w
  {
    assert all[..i + 1][..i] == all[..i];
    ReversedConcat(Flat(all[..i]), all[i]);
  }

  lemma ServersHead(servers: ServerRing)
    requires servers.Valid()
    ensures servers.head == NULL <==> servers.ring == []
  {
    HeadFacts(servers.links, servers.ring);
  }

  lemma {:induction false} FlatMembers(all: seq<seq<nat>>, x: nat)
    ensures x in Flat(all) <==> exists i :: 0 <= i < |all| && x in all[i]
  {
    if all != [] {
      var n := |all| - 1;
      FlatMembers(all[..n], x);
      assert all == all[..n] + [all[n]];
    }
  }

  lemma NotWaiting(all: seq<seq<nat>>, i: nat, w: seq<nat>, x: nat)
    requires i <= |all| && x !in w && forall k :: 0 <= k < i ==> x !in all[k]
    ensures x !in Reversed(Flat(all[..i])) + w
  {
    FlatMembers(all[..i], x);
  }

  // In the end every request waits.
  lemma AllWaiting(links: Links, reqs: Requests, waiting: seq<nat>, n: nat, heads: seq<nat>, waitingHead: nat,
                   reqs0: Requests, all: seq<seq<nat>>, w: seq<nat>)
    requires n == |heads| == |all| > 0 && Ring(links, waiting) && waitingHead == Head(waiting)
    requires waiting == Reversed(Flat(all)) + w && reqs.Keys == reqs0.Keys
    requires forall j :: 0 <= j < n ==> heads[j] == NULL
    requires forall i, r :: 0 <= i < n ==>
      (r in all[i] <==> r in reqs0 && reqs0[r].ns != NULL && reqs0[r].transId % n == i)
    requires forall r :: r in w <==> r in reqs0 && reqs0[r].ns == NULL
    requires forall r :: r in reqs ==>
      reqs[r] == if reqs0[r].ns != NULL && reqs0[r].transId % n < n then Suspended() else reqs0[r]
    ensures AllRings(links, Own(reqs, n), Empties(n) + [waiting], heads + [waitingHead])
    ensures forall r :: r in reqs ==> reqs[r] == if reqs0[r].ns == NULL then reqs0[r] else Suspended()
  {
    hide Ring;
    forall r
      ensures r in waiting <==> r in reqs
    {
      FlatMembers(all, r);
      if r in reqs0 && reqs0[r].ns != NULL {
        assert r in all[reqs0[r].transId % n];
      }
    }
    var own, ls, hd := Own(reqs, n), Empties(n) + [waiting], heads + [waitingHead];
    forall i | 0 <= i < |ls|
      ensures Ring(links, ls[i]) && hd[i] == Head(ls[i])
      ensures forall r :: r in ls[i] <==> r in own && own[r] == i
    {
      if i < n {
        EmptyIsRing(links);
        assert ls[i] == [];
      } else {
        assert ls[i] == waiting;
      }
    }
  }

  // While the table is resized, the rings are the old buckets, the new ones, and the
  // waiting queue.
  ghost function SplitOwn(reqs: Requests, n0: nat, n1: nat): map<nat, nat>
    requires n0 > 0
  {
    map r | r in reqs :: if reqs[r].ns != NULL then reqs[r].transId % n0 else n0 + n1
  }

  ghost predicate Between(reqs: Requests, own: map<nat, nat>, n0: nat, n1: nat)
    requires n0 > 0 && n1 > 0
  {
    && own.Keys == reqs.Keys
    && forall r :: r in reqs ==>
      if reqs[r].ns == NULL then own[r] == n0 + n1
      else own[r] == reqs[r].transId % n0 || own[r] == n0 + reqs[r].transId % n1
  }

  lemma InflightOld(reqs: Requests, own: map<nat, nat>, n0: nat, n1: nat, r: nat)
    requires n0 > 0 && n1 > 0 && Between(reqs, own, n0, n1) && r in own && own[r] < n0
    ensures r in reqs && reqs[r].ns != NULL
  {
  }

  lemma MovedBetween(reqs: Requests, own: map<nat, nat>, n0: nat, n1: nat, r: nat)
    requires n0 > 0 && n1 > 0 && Between(reqs, own, n0, n1) && r in reqs && reqs[r].ns != NULL
    ensures Between(reqs, own[r := n0 + reqs[r].transId % n1], n0, n1)
  {
  }

  lemma SplitStart(links: Links, reqs: Requests, buckets: seq<seq<nat>>, waiting: seq<nat>, heads: seq<nat>,
                   waitingHead: nat, newHeads: seq<nat>, n1: nat)
    requires |heads| == |buckets| > 0 && n1 > 0
    requires AllRings(links, Own(reqs, |heads|), buckets + [waiting], heads + [waitingHead])
    requires |newHeads| == n1 && forall j :: 0 <= j < n1 ==> newHeads[j] == NULL
    ensures var own := SplitOwn(reqs, |heads|, n1);
      && AllRings(links, own, buckets + Empties(n1) + [waiting], heads + newHeads + [waitingHead])
      && Between(reqs, own, |heads|, n1)
  {
    hide Ring;
    var n0, own, own' := |heads|, Own(reqs, |heads|), SplitOwn(reqs, |heads|, n1);
    var ls, ls' := buckets + [waiting], buckets + Empties(n1) + [waiting];
    var hd, hd' := heads + [waitingHead], heads + newHeads + [waitingHead];
    forall i | 0 <= i < |ls'|
      ensures Ring(links, ls'[i]) && hd'[i] == Head(ls'[i])
      ensures forall r :: r in ls'[i] <==> r in own' && own'[r] == i
    {
      if n0 <= i < n0 + n1 {
        EmptyIsRing(links);
        assert ls'[i] == [];
      } else {
        var j := if i < n0 then i else n0;
        assert ls'[i] == ls[j] && hd'[i] == hd[j];
        assert forall r :: r in ls[j] <==> r in own && own[r] == j;
      }
    }
  }

  lemma EmptyIsRing(links: Links)
    ensures Ring(links, [])
  {
  }

  lemma FirstOfOld(links: Links, own: map<nat, nat>, olds: seq<seq<nat>>, news: seq<seq<nat>>, w: seq<nat>,
                   oldHeads: seq<nat>, newHeads: seq<nat>, wHead: nat, i: nat)
    requires AllRings(links, own, olds + news + [w], oldHeads + newHeads + [wHead])
    requires i < |olds| == |oldHeads| && |news| == |newHeads| && oldHeads[i] != NULL
    ensures olds[i] != [] && oldHeads[i] == olds[i][0] && oldHeads[i] in own && own[oldHeads[i]] == i
  {
    hide Ring;
    var ls, hd := olds + news + [w], oldHeads + newHeads + [wHead];
    assert ls[i] == olds[i] && hd[i] == oldHeads[i] && hd[i] == Head(ls[i]);
    assert olds[i][0] in ls[i];
  }

  lemma EmptyOld(links: Links, own: map<nat, nat>, olds: seq<seq<nat>>, news: seq<seq<nat>>, w: seq<nat>,
                 oldHeads: seq<nat>, newHeads: seq<nat>, wHead: nat, i: nat)
    requires AllRings(links, own, olds + news + [w], oldHeads + newHeads + [wHead])
    requires i < |olds| == |oldHeads| && |news| == |newHeads| && oldHeads[i] == NULL
    ensures olds[i] == []
  {
    hide Ring;
    var ls, hd := olds + news + [w], oldHeads + newHeads + [wHead];
    assert ls[i] == olds[i] && hd[i] == oldHeads[i] && hd[i] == Head(ls[i]) && Ring(links, ls[i]);
    HeadFacts(links, olds[i]);
  }

  // The first node of old bucket i goes to new bucket j.
  lemma MoveNode(links: Links, own: map<nat, nat>, olds: seq<seq<nat>>, news: seq<seq<nat>>, w: seq<nat>,
                 oldHeads: seq<nat>, newHeads: seq<nat>, wHead: nat, i: nat, j: nat)
    requires AllRings(links, own, olds + news + [w], oldHeads + newHeads + [wHead])
    requires i < |olds| == |oldHeads| && j < |news| == |newHeads| && olds[i] != []
    ensures var r := olds[i][0];
      && r in links && links[r].next in links && links[r].prev in links && r in own && own[r] == i
      && (newHeads[j] != NULL ==>
            newHeads[j] in Removed(links, r) && Removed(links, r)[newHeads[j]].prev in Removed(links, r))
      && AllRings(Inserted(Removed(links, r), newHeads[j], r), own[r := |olds| + j],
                  olds[i := Without(olds[i], 0)] + news[j := news[j] + [r]] + [w],
                  oldHeads[i := HeadWithout(links, oldHeads[i], r)] +
                  newHeads[j := if newHeads[j] == NULL then r else newHeads[j]] + [wHead])
  {
    hide AllRings, Ring, Removed, Inserted, HeadWithout, Without;
    var n0, r := |olds|, olds[i][0];
    var ls, hd := olds + news + [w], oldHeads + newHeads + [wHead];
    assert ls[i] == olds[i] && hd[i] == oldHeads[i];
    DropNode(links, own, ls, hd, i, 0);
    var rest := Without(olds[i], 0);
    NodeGone(links, ls, hd, own, r);
    var ls1, hd1 := ls[i := rest], hd[i := HeadWithout(links, hd[i], r)];
    assert ls1[n0 + j] == news[j] && hd1[n0 + j] == newHeads[j];
    AddNode(Removed(links, r), own - {r}, ls1, hd1, r, n0 + j);
    assert ls1[n0 + j := news[j] + [r]] == olds[i := rest] + news[j := news[j] + [r]] + [w];
    assert hd1[n0 + j := if newHeads[j] == NULL then r else newHeads[j]] ==
      oldHeads[i := HeadWithout(links, oldHeads[i], r)] +
      newHeads[j := if newHeads[j] == NULL then r else newHeads[j]] + [wHead];
    assert (own - {r})[r := n0 + j] == own[r := n0 + j];
  }

  lemma NodeGone(links: Links, ls: seq<seq<nat>>, hd: seq<nat>, own: map<nat, nat>, r: nat)
    requires AllRings(links, own, ls, hd) && r in own && own[r] < |ls|
    ensures r != NULL
  {
    assert r in ls[own[r]] && Ring(links, ls[own[r]]);
  }

  lemma SplitEnd(links: Links, reqs: Requests, own: map<nat, nat>, olds: seq<seq<nat>>, news: seq<seq<nat>>,
                 w: seq<nat>, oldHeads: seq<nat>, newHeads: seq<nat>, wHead: nat)
    requires AllRings(links, own, olds + news + [w], oldHeads + newHeads + [wHead])
    requires |oldHeads| == |olds| > 0 && |newHeads| == |news| > 0 && Between(reqs, own, |olds|, |news|)
    requires forall j :: 0 <= j < |olds| ==> olds[j] == []
    ensures AllRings(links, Own(reqs, |news|), news + [w], newHeads + [wHead])
  {
    hide Ring;
    var n0, n1, own' := |olds|, |news|, Own(reqs, |news|);
    var ls, ls' := olds + news + [w], news + [w];
    var hd, hd' := oldHeads + newHeads + [wHead], newHeads + [wHead];
    assert forall j :: 0 <= j < n0 ==> ls[j] == olds[j];
    forall r | r in own
      ensures r in own' && own[r] == n0 + own'[r]
    {
      assert r in ls[own[r]];
    }
    forall i | 0 <= i < |ls'|
      ensures Ring(links, ls'[i]) && hd'[i] == Head(ls'[i])
      ensures forall r :: r in ls'[i] <==> r in own' && own'[r] == i
    {
      assert ls'[i] == ls[n0 + i] && hd'[i] == hd[n0 + i];
      assert forall r :: r in ls[n0 + i] <==> r in own && own[r] == n0 + i;
    }
  }

  lemma {:induction false} AllEmpty(ls: seq<seq<nat>>)
    requires forall j :: 0 <= j < |ls| ==> ls[j] == []
    ensures Total(ls) == 0
  {
    if ls != [] {
      AllEmpty(ls[1..]);
    }
  }

  // Some requests that were not sent have moved from ns to servers that are up.
  ghost predicate Moved(reqs: Requests, reqs': Requests, servers: Servers, ns: nat)
  {
    && reqs'.Keys == reqs.Keys
    && (forall r :: r in reqs ==> reqs'[r] == reqs[r].(ns := reqs'[r].ns))
    && (forall r :: r in reqs && reqs'[r].ns != reqs[r].ns ==>
          && reqs[r].ns == ns && reqs[r].txCount == 0
          && reqs'[r].ns in servers && servers[reqs'[r].ns].up && reqs'[r].ns != NULL)
  }

  lemma NoneMoved(reqs: Requests, servers: Servers, ns: nat)
    ensures Moved(reqs, reqs, servers, ns)
  {
  }

  lemma MovedMore(reqs: Requests, was: Requests, now: Requests, servers: Servers, ns: nat, r: nat)
    requires Moved(reqs, was, servers, ns) && r in was && ns in servers && !servers[ns].up
    requires r in now && now == was[r := was[r].(ns := now[r].ns)]
    requires now[r].ns == was[r].ns || (was[r].ns == ns && was[r].txCount == 0 && now[r].ns != NULL &&
      now[r].ns in servers && servers[now[r].ns].up)
    ensures Moved(reqs, now, servers, ns)
  {
  }

  lemma DistinctUpTo(links: Links, s: seq<nat>, k: nat)
    requires Ring(links, s) && k < |s|
    ensures forall j :: 0 <= j < |s| && j != k ==> s[j] != s[k]
  {
  }

  lemma NotNull(links: Links, s: seq<nat>, k: nat)
    requires Ring(links, s) && k < |s|
    ensures s[k] != NULL
  {
  }

  lemma NextInRing(links: Links, s: seq<nat>, k: nat)
    requires Ring(links, s) && k < |s|
    ensures s[k] in links && links[s[k]].next == if k + 1 == |s| then s[0] else s[k + 1]
  {
    NodeLinked(links, s, k);
  }

  // A walk is back at the start only at the end.
  lemma AroundOnce(links: Links, s: seq<nat>, k: nat)
    requires Ring(links, s) && 0 < k <= |s| && (if k == |s| then s[0] else s[k]) == s[0]
    ensures k == |s|
  {
  }

  lemma FirstOut(w: seq<nat>, w': seq<nat>)
    requires w != [] && Distinct(w) && exists k :: 0 <= k < |w| && w[k] == w[0] && w' == Without(w, k)
    ensures w' == w[1..]
  {
  }

  // A queue without one request.
  function Others(s: seq<nat>, r: nat): seq<nat>
  {
    if s == [] then [] else (if s[0] == r then [] else [s[0]]) + Others(s[1..], r)
  }

  lemma OthersLeft(links: Links, s: seq<nat>, r: nat)
    requires Ring(links, s)
    ensures r !in s ==> Others(s, r) == s
    ensures forall k :: 0 <= k < |s| && s[k] == r ==> Others(s, r) == Without(s, k)
  {
    if r !in s {
      OthersSame(s, r);
    }
    forall k | 0 <= k < |s| && s[k] == r
      ensures Others(s, r) == Without(s, k)
    {
      DistinctUpTo(links, s, k);
      OthersWithout(s, k);
    }
  }

  lemma {:induction false} OthersSame(s: seq<nat>, r: nat)
    requires r !in s
    ensures Others(s, r) == s
  {
    if s != [] {
      OthersSame(s[1..], r);
    }
  }

  lemma {:induction false} OthersWithout(s: seq<nat>, k: nat)
    requires k < |s| && forall j :: 0 <= j < |s| && j != k ==> s[j] != s[k]
    ensures Others(s, s[k]) == Without(s, k)
  {
    if k == 0 {
      OthersSame(s[1..], s[0]);
    } else {
      OthersWithout(s[1..], k - 1);
      assert Without(s, k) == [s[0]] + Without(s[1..], k - 1);
    }
  }

  lemma ShorterQueue(w: seq<nat>, w': seq<nat>)
    requires w' == w || exists k :: 0 <= k < |w| && w' == Without(w, k)
    ensures |w'| <= |w|
  {
  }

  function Empties(n: nat): (s: seq<seq<nat>>)
    ensures |s| == n && forall i :: 0 <= i < n ==> s[i] == []
  {
    if n == 0 then [] else [[]] + Empties(n - 1)
  }

  lemma {:induction false} NoneTotal(n: nat)
    ensures Total(Empties(n)) == 0
  {
    if n > 0 {
      NoneTotal(n - 1);
      assert Empties(n)[1..] == Empties(n - 1);
    }
  }

  lemma OwnAdd(reqs: Requests, n: nat, r: nat, q: Request)
    requires n > 0 && r !in reqs
    ensures Own(reqs[r := q], n) == Own(reqs, n)[r := Place(q, n)] && r !in Own(reqs, n)
  {
  }

  lemma OwnDrop(reqs: Requests, n: nat, r: nat)
    requires n > 0 && r in reqs
    ensures Own(reqs - {r}, n) == Own(reqs, n) - {r}
  {
  }

  lemma Whereabouts(links: Links, own: map<nat, nat>, ls: seq<seq<nat>>, hd: seq<nat>, r: nat) returns (k: nat)
    requires AllRings(links, own, ls, hd) && r in own && own[r] < |ls|
    ensures k < |ls[own[r]]| && ls[own[r]][k] == r
  {
    assert r in ls[own[r]];
    k :| 0 <= k < |ls[own[r]]| && ls[own[r]][k] == r;
  }

  lemma PickedKnown(servers: ServerRing)
    requires servers.Valid()
    ensures forall x :: x in servers.ring <==> x in servers.servers
    ensures servers.ring == [] || servers.ring[0] in servers.servers
  {
  }
}
