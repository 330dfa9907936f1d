// Timeouts of event.c: common timeouts kept in one sorted list per duration, each list
// driven by one internal timer, and all other timeouts in a heap.
//
// Events are named by numbers; mem holds their fields. The heap is a set here, whose top
// is some event of the least deadline; the order within the active and inserted queues is
// not modelled.
module Timeouts {
  import opened Wrappers

  const MILLION: nat := 1000000
  const BIT20: nat := 0x10_0000

  // struct timeval
  datatype Tv = Tv(sec: int, usec: nat)

  datatype Event = Event(timeout: Tv, inTimeout: bool, inserted: bool, active: bool, byTimeout: bool,
                         internal: bool, hasIo: bool, persist: bool, ioTimeout: Tv)

  // struct common_timeout_list
  datatype Ctl = Ctl(duration: Tv, timer: nat, events: seq<nat>)

  // ---- Magic bits --------------------------------------------------------------------

  // tv_usec & MICROSECONDS_MASK
  function Usec(tv: Tv): nat
  {
    tv.usec % BIT20
  }

  // tv_usec & ~MICROSECONDS_MASK, shifted down
  function Tag(tv: Tv): nat
  {
    tv.usec / BIT20
  }

  // COMMON_TIMEOUT_IDX
  function Idx(tv: Tv): nat
  {
    Tag(tv) % 256
  }

  // is_common_timeout, n being n_common_timeouts
  predicate IsCommon(tv: Tv, n: nat)
  {
    Tag(tv) / 256 == 5 && Idx(tv) < n
  }

  // A time or duration without magic.
  predicate Normal(tv: Tv)
  {
    tv.usec < MILLION
  }

  // A time or duration marked as one of list i.
  predicate Packed(tv: Tv, i: nat)
  {
    i < 256 && Tag(tv) == 0x500 + i && Usec(tv) < MILLION
  }

  function Pack(tv: Tv, i: nat): (r: Tv)
    requires tv.usec <= MILLION && i < 256
    ensures Tag(r) == 0x500 + i && Micros(r) == Micros(tv) && Usec(r) == tv.usec
  {
    Tv(tv.sec, tv.usec + (0x500 + i) * BIT20)
  }

  function Unpack(tv: Tv): (r: Tv)
  {
    Tv(tv.sec, Usec(tv))
  }

  // The number of microseconds a time stands for.
  function Micros(tv: Tv): int
  {
    tv.sec * MILLION + Usec(tv)
  }

  lemma PackedIsCommon(tv: Tv, i: nat, n: nat)
    requires Packed(tv, i) && i < n
    ensures IsCommon(tv, n) && Idx(tv) == i
  {
  }

  lemma NormalNotCommon(tv: Tv, n: nat)
    requires Normal(tv)
    ensures !IsCommon(tv, n) && Usec(tv) == tv.usec && Tag(tv) == 0
  {
  }

  lemma SmallUsec(tv: Tv)
    ensures Normal(tv) ==> Usec(tv) < MILLION
  {
  }

  lemma NormalOrCommon(tv: Tv, n: nat)
    ensures Normal(tv) ==> !IsCommon(tv, n)
  {
  }

  // evutil_timercmp with >=, on the packed words
  predicate AtLeast(a: Tv, b: Tv)
  {
    if a.sec == b.sec then a.usec >= b.usec else a.sec >= b.sec
  }

  // The comparison of packed words is that of the times, if their magic agrees.
  lemma AtLeastMicros(a: Tv, b: Tv)
    requires Tag(a) == Tag(b) && Usec(a) < MILLION && Usec(b) < MILLION
    ensures AtLeast(a, b) <==> Micros(a) >= Micros(b)
  {
  }

  // An interval, as a caller may write it: up to a million microseconds.
  predicate Interval(tv: Tv)
  {
    tv.usec <= MILLION
  }

  // timeradd and timersub of times without magic
  function TimerAdd(a: Tv, b: Tv): (r: Tv)
    requires Normal(a) && Interval(b)
    ensures Normal(r) && Micros(r) == Micros(a) + Micros(b)
  {
    if a.usec + b.usec >= MILLION then Tv(a.sec + b.sec + 1, a.usec + b.usec - MILLION)
    else Tv(a.sec + b.sec, a.usec + b.usec)
  }

  function TimerSub(a: Tv, b: Tv): (r: Tv)
    requires Normal(a) && Normal(b)
    ensures Normal(r) && Micros(r) == Micros(a) - Micros(b)
  {
    if a.usec < b.usec then Tv(a.sec - b.sec - 1, a.usec + MILLION - b.usec)
    else Tv(a.sec - b.sec, a.usec - b.usec)
  }

  // ---- Invariant ------------------------------------------------------------------------

  type Memory = map<nat, Event>

  function Due(mem: Memory, e: nat): int
    requires e in mem
  {
    Micros(mem[e].timeout)
  }

  ghost predicate Distinct(s: seq<nat>)
  {
    forall a, b :: 0 <= a < b < |s| ==> s[a] != s[b]
  }

  ghost predicate InOrder(mem: Memory, s: seq<nat>)
    requires forall e :: e in s ==> e in mem
  {
    forall a, b :: 0 <= a < b < |s| ==> Due(mem, s[a]) <= Due(mem, s[b])
  }

  // List i holds distinct waiting events of its duration, the earliest first.
  ghost predicate ListOk(mem: Memory, s: seq<nat>, i: nat)
  {
    && Distinct(s)
    && (forall e :: e in s ==> e in mem && mem[e].inTimeout && !mem[e].internal && Packed(mem[e].timeout, i))
    && InOrder(mem, s)
  }

  ghost predicate HeapOk(mem: Memory, heap: set<nat>)
  {
    forall e :: e in heap ==> e in mem && mem[e].inTimeout && Normal(mem[e].timeout)
  }

  // Where an event waits.
  ghost predicate Waits(mem: Memory, heap: set<nat>, lists: seq<Ctl>, e: nat)
    requires e in mem
  {
    var tv := mem[e].timeout;
    if IsCommon(tv, |lists|) then e in lists[Idx(tv)].events else e in heap
  }

  ghost predicate ListsOk(mem: Memory, lists: seq<Ctl>)
  {
    |lists| <= 256 && forall i :: 0 <= i < |lists| ==> ListOk(mem, lists[i].events, i)
  }

  // The timers of the lists are internal events of their own.
  ghost predicate TimersOk(mem: Memory, lists: seq<Ctl>)
  {
    && (forall i :: 0 <= i < |lists| ==>
          && Tag(lists[i].duration) == 0x500 + i && Usec(lists[i].duration) <= MILLION && lists[i].timer in mem
          && var t := mem[lists[i].timer]; t.internal && !t.hasIo && !t.persist && (t.inTimeout ==> Normal(t.timeout)))
    && (forall i, j :: 0 <= i < j < |lists| ==> lists[i].timer != lists[j].timer)
  }

  // A list with events has its timer active, running, or set no later than its head.
  ghost predicate Armed(mem: Memory, ctl: Ctl, running: Option<nat>)
  {
    ctl.events == [] ||
    (ctl.timer in mem && ctl.events[0] in mem &&
     (mem[ctl.timer].active || running == Some(ctl.timer) ||
      (mem[ctl.timer].inTimeout && Due(mem, ctl.timer) <= Due(mem, ctl.events[0]))))
  }

  ghost predicate QueuesOk(mem: Memory, heap: set<nat>, lists: seq<Ctl>, active: set<nat>, inserted: set<nat>)
  {
    && HeapOk(mem, heap) && ListsOk(mem, lists) && TimersOk(mem, lists)
    && (forall e :: e in mem && mem[e].inTimeout ==> Waits(mem, heap, lists, e))
    && (forall e :: e in active <==> e in mem && mem[e].active)
    && (forall e :: e in inserted <==> e in mem && mem[e].inserted)
  }

  ghost function TimeoutSet(mem: Memory): set<nat>
  {
    set e | e in mem && !mem[e].internal && mem[e].inTimeout
  }

  ghost function ActiveSet(mem: Memory): set<nat>
  {
    set e | e in mem && !mem[e].internal && mem[e].active
  }

  ghost function InsertedSet(mem: Memory): set<nat>
  {
    set e | e in mem && !mem[e].internal && mem[e].inserted
  }

  // The memberships that event_count counts: those of events that are not internal.
  ghost function Counted(mem: Memory): (n: nat)
  {
    |TimeoutSet(mem)| + |ActiveSet(mem)| + |InsertedSet(mem)|
  }

  // The waiting events of the user and when they are due.
  ghost function Pending(mem: Memory): map<nat, int>
  {
    map e | e in mem && !mem[e].internal && mem[e].inTimeout :: Due(mem, e)
  }

  function B(b: bool): nat
  {
    if b then 1 else 0
  }

  // What one event adds to event_count.
  function Weight(ev: Event): nat
  {
    if ev.internal then 0 else B(ev.inTimeout) + B(ev.active) + B(ev.inserted)
  }

  lemma SetChange(s: set<nat>, s': set<nat>, e: nat)
    requires s - {e} == s' - {e}
    ensures |s'| - B(e in s') == |s| - B(e in s)
  {
    assert s == (s - {e}) + if e in s then {e} else {};
    assert s' == (s' - {e}) + if e in s' then {e} else {};
  }

  // Changing one event changes the count by the change of its weight.
  lemma CountedChange(mem: Memory, e: nat, ev: Event)
    requires e in mem && mem[e].internal == ev.internal
    ensures Counted(mem[e := ev]) == Counted(mem) - Weight(mem[e]) + Weight(ev)
  {
    var m := mem[e := ev];
    SetChange(TimeoutSet(mem), TimeoutSet(m), e);
    SetChange(ActiveSet(mem), ActiveSet(m), e);
    SetChange(InsertedSet(mem), InsertedSet(m), e);
  }

  // ---- Lists ---------------------------------------------------------------------------

  // Events other than e keep their lists.
  lemma OtherLists(mem: Memory, lists: seq<Ctl>, e: nat, ev: Event)
    requires ListsOk(mem, lists) && e in mem
    ensures forall i :: 0 <= i < |lists| && e !in lists[i].events ==> ListOk(mem[e := ev], lists[i].events, i)
  {
    forall i | 0 <= i < |lists| && e !in lists[i].events
      ensures ListOk(mem[e := ev], lists[i].events, i)
    {
      assert ListOk(mem, lists[i].events, i);
    }
  }

  lemma OneList(mem: Memory, lists: seq<Ctl>, e: nat, i: nat)
    requires ListsOk(mem, lists) && i < |lists| && e in lists[i].events
    ensures e in mem && mem[e].inTimeout && Packed(mem[e].timeout, i)
    ensures ListOk(mem, lists[i].events, i) && Distinct(lists[i].events)
    ensures forall j :: 0 <= j < |lists| && j != i ==> e !in lists[j].events
  {
    assert ListOk(mem, lists[i].events, i);
    forall j | 0 <= j < |lists| && j != i
      ensures e !in lists[j].events
    {
      assert ListOk(mem, lists[j].events, j);
    }
  }

  // Insertion keeps a list in order if everything before is due no later and everything
  // after no earlier.
  lemma InsertInOrder(mem: Memory, s: seq<nat>, i: nat, e: nat, k: nat)
    requires ListOk(mem, s, i) && k <= |s| && e !in s
    requires e in mem && mem[e].inTimeout && !mem[e].internal && Packed(mem[e].timeout, i)
    requires forall a :: 0 <= a < k ==> Due(mem, s[a]) <= Due(mem, e)
    requires k < |s| ==> Due(mem, e) <= Due(mem, s[k])
    ensures ListOk(mem, s[..k] + [e] + s[k..], i)
  {
    hide Packed, Due;
    InsertedElements(s, k, e);
    InsertDistinct(s, k, e);
    InsertOrdered(mem, s, e, k);
  }

  lemma InsertedAt(s: seq<nat>, k: nat, e: nat, a: nat)
    requires k <= |s| && a <= |s|
    ensures (s[..k] + [e] + s[k..])[a] == if a < k then s[a] else if a == k then e else s[a - 1]
  {
  }

  lemma InsertDistinct(s: seq<nat>, k: nat, e: nat)
    requires Distinct(s) && k <= |s| && e !in s
    ensures Distinct(s[..k] + [e] + s[k..])
  {
    var r := s[..k] + [e] + s[k..];
    forall a, b | 0 <= a < b < |r|
      ensures r[a] != r[b]
    {
      InsertedAt(s, k, e, a);
      InsertedAt(s, k, e, b);
    }
  }

  lemma InsertOrdered(mem: Memory, s: seq<nat>, e: nat, k: nat)
    requires (forall x :: x in s ==> x in mem) && InOrder(mem, s) && k <= |s| && e in mem
    requires forall a :: 0 <= a < k ==> Due(mem, s[a]) <= Due(mem, e)
    requires k < |s| ==> Due(mem, e) <= Due(mem, s[k])
    ensures var r := s[..k] + [e] + s[k..]; (forall x :: x in r ==> x in mem) && InOrder(mem, r)
  {
    hide Due;
    var r := s[..k] + [e] + s[k..];
    InsertedElements(s, k, e);
    forall a, b | 0 <= a < b < |r|
      ensures Due(mem, r[a]) <= Due(mem, r[b])
    {
      InsertedAt(s, k, e, a);
      InsertedAt(s, k, e, b);
    }
  }

  lemma InsertedElements(s: seq<nat>, k: nat, e: nat)
    requires k <= |s|
    ensures forall x :: x in s[..k] + [e] + s[k..] <==> x == e || x in s
  {
    assert s == s[..k] + s[k..];
  }

  lemma RemoveInOrder(mem: Memory, s: seq<nat>, i: nat, k: nat)
    requires ListOk(mem, s, i) && k < |s|
    ensures ListOk(mem, s[..k] + s[k + 1..], i)
  {
    var r := s[..k] + s[k + 1..];
    RemovedElements(s, k);
    assert forall a :: 0 <= a < |r| ==> r[a] == if a < k then s[a] else s[a + 1];
  }

  lemma RemovedElements(s: seq<nat>, k: nat)
    requires Distinct(s) && k < |s|
    ensures forall x :: x in s[..k] + s[k + 1..] <==> x in s && x != s[k]
  {
    assert s == s[..k] + [s[k]] + s[k + 1..];
    assert s[k] !in s[..k] && s[k] !in s[k + 1..];
  }

  // An event leaves its list, and may then change.
  lemma RemoveFromList(mem: Memory, lists: seq<Ctl>, e: nat, i: nat, k: nat, ev: Event)
    requires ListsOk(mem, lists) && i < |lists| && k < |lists[i].events| && lists[i].events[k] == e
    requires ev.timeout == mem[e].timeout
    ensures var s := lists[i].events; var r := s[..k] + s[k + 1..];
      && (forall x :: x in r <==> x in s && x != e)
      && (r != [] ==> s[0] in mem && r[0] in mem && Due(mem[e := ev], s[0]) <= Due(mem[e := ev], r[0]))
      && ListOk(mem[e := ev], r, i)
      && forall j :: 0 <= j < |lists| && j != i ==> ListOk(mem[e := ev], lists[j].events, j)
  {
    hide ListsOk, ListOk;
    var s := lists[i].events;
    OneList(mem, lists, e, i);
    OtherLists(mem, lists, e, ev);
    RemoveInOrder(mem, s, i, k);
    RemovedElements(s, k);
    ListElsewhere(mem, s[..k] + s[k + 1..], i, e, ev);
    HeadLater(mem, s, i, k);
  }

  // A list does not change with the fields of an event that is not on it.
  lemma ListElsewhere(mem: Memory, s: seq<nat>, i: nat, e: nat, ev: Event)
    requires ListOk(mem, s, i) && e !in s
    ensures ListOk(mem[e := ev], s, i)
  {
  }

  lemma NotWaiting(mem: Memory, heap: set<nat>, lists: seq<Ctl>, e: nat)
    requires HeapOk(mem, heap) && ListsOk(mem, lists) && e in mem && !mem[e].inTimeout
    ensures e !in heap && forall i :: 0 <= i < |lists| ==> e !in lists[i].events
  {
    forall i | 0 <= i < |lists|
      ensures e !in lists[i].events
    {
      assert ListOk(mem, lists[i].events, i);
    }
  }

  // The new fields of an event suit a timer, if it is one.
  ghost predicate SuitsTimer(ev: Event)
  {
    ev.internal && !ev.hasIo && !ev.persist && (ev.inTimeout ==> Normal(ev.timeout))
  }

  // Changing the fields of one event, and the list it belongs to.
  lemma QueuesChange(mem: Memory, heap: set<nat>, lists: seq<Ctl>, active: set<nat>, inserted: set<nat>, e: nat,
                     ev: Event, heap': set<nat>, lists': seq<Ctl>, active': set<nat>, inserted': set<nat>)
    requires QueuesOk(mem, heap, lists, active, inserted) && e in mem
    requires |lists'| == |lists|
    requires forall i :: 0 <= i < |lists| ==>
      && lists'[i].timer == lists[i].timer && lists'[i].duration == lists[i].duration
      && ListOk(mem[e := ev], lists'[i].events, i)
      && forall x :: x != e ==> (x in lists'[i].events <==> x in lists[i].events)
    requires heap' - {e} == heap - {e} && active' - {e} == active - {e} && inserted' - {e} == inserted - {e}
    requires e in heap' ==> ev.inTimeout && Normal(ev.timeout)
    requires ev.inTimeout ==> Waits(mem[e := ev], heap', lists', e)
    requires (e in active' <==> ev.active) && (e in inserted' <==> ev.inserted)
    requires SuitsTimer(mem[e]) ==> SuitsTimer(ev)
    ensures QueuesOk(mem[e := ev], heap', lists', active', inserted')
  {
    hide ListOk, Packed, IsCommon, Idx, Normal;
    var m := mem[e := ev];
    forall x | x != e
      ensures x in heap' <==> x in heap
      ensures x in active' <==> x in active
      ensures x in inserted' <==> x in inserted
    {
      assert x in heap' - {e} <==> x in heap - {e};
      assert x in active' - {e} <==> x in active - {e};
      assert x in inserted' - {e} <==> x in inserted - {e};
    }
    forall x | x in m && m[x].inTimeout
      ensures Waits(m, heap', lists', x)
    {
      if x != e {
        assert Waits(mem, heap, lists, x);
        WaitsIndex(mem, heap, lists, x);
      }
    }
    assert TimersOk(m, lists') by {
      forall i | 0 <= i < |lists'|
        ensures lists'[i].timer in m && SuitsTimer(m[lists'[i].timer])
      {
        assert SuitsTimer(mem[lists[i].timer]);
      }
    }
  }

  lemma WaitsIndex(mem: Memory, heap: set<nat>, lists: seq<Ctl>, e: nat)
    requires e in mem
    ensures IsCommon(mem[e].timeout, |lists|) ==> Idx(mem[e].timeout) < |lists|
  {
  }

  // ---- Arming ------------------------------------------------------------------------------

  // All lists but one, -1 for none, are armed.
  ghost predicate ArmedBut(mem: Memory, lists: seq<Ctl>, running: Option<nat>, skip: int)
  {
    forall i :: 0 <= i < |lists| && i != skip ==> Armed(mem, lists[i], running)
  }

  // List by list, the head is the same or due later, or the list is empty.
  ghost predicate HeadLaterOrNone(mem: Memory, ctl: Ctl, mem': Memory, ctl': Ctl)
  {
    && ctl'.timer == ctl.timer && ctl'.duration == ctl.duration
    && (ctl'.events == [] ||
        (ctl.events != [] && ctl.events[0] in mem && ctl'.events[0] in mem' &&
         Due(mem, ctl.events[0]) <= Due(mem', ctl'.events[0])))
  }

  ghost predicate HeadsLater(mem: Memory, lists: seq<Ctl>, mem': Memory, lists': seq<Ctl>)
  {
    |lists'| == |lists| && forall i :: 0 <= i < |lists| ==> HeadLaterOrNone(mem, lists[i], mem', lists'[i])
  }

  // Later heads do no harm, if the timers stay as they are.
  lemma StillArmed(mem: Memory, lists: seq<Ctl>, mem': Memory, lists': seq<Ctl>, running: Option<nat>, skip: int)
    requires ArmedBut(mem, lists, running, skip) && HeadsLater(mem, lists, mem', lists')
    requires forall i :: 0 <= i < |lists| && i != skip ==>
      lists[i].timer in mem && lists[i].timer in mem' && mem'[lists[i].timer] == mem[lists[i].timer]
    ensures ArmedBut(mem', lists', running, skip)
  {
    forall i | 0 <= i < |lists'| && i != skip
      ensures Armed(mem', lists'[i], running)
    {
      assert Armed(mem, lists[i], running);
      assert HeadLaterOrNone(mem, lists[i], mem', lists'[i]);
    }
  }

  // An event on no list can change without moving a head.
  lemma HeadsSame(mem: Memory, lists: seq<Ctl>, e: nat, ev: Event)
    requires ListsOk(mem, lists) && e in mem
    requires ev.timeout == mem[e].timeout || forall i :: 0 <= i < |lists| ==> e !in lists[i].events
    ensures HeadsLater(mem, lists, mem[e := ev], lists)
  {
    forall i | 0 <= i < |lists|
      ensures HeadLaterOrNone(mem, lists[i], mem[e := ev], lists[i])
    {
      assert ListOk(mem, lists[i].events, i);
      if lists[i].events != [] {
        assert lists[i].events[0] in lists[i].events;
      }
    }
  }

  // A user's event drives no list.
  lemma NotATimer(mem: Memory, lists: seq<Ctl>, e: nat)
    requires TimersOk(mem, lists) && e in mem && !mem[e].internal
    ensures forall i :: 0 <= i < |lists| ==> lists[i].timer != e && lists[i].timer in mem
  {
  }

  lemma PendingChange(mem: Memory, e: nat, ev: Event)
    requires e in mem && mem[e].internal == ev.internal
    ensures Pending(mem[e := ev]) ==
      if ev.internal then Pending(mem)
      else if ev.inTimeout then Pending(mem)[e := Micros(ev.timeout)] else Pending(mem) - {e}
  {
  }

  // Some event of the heap is due first.
  lemma {:induction false} SomeFirst(mem: Memory, heap: set<nat>) returns (e: nat)
    requires heap != {} && forall x :: x in heap ==> x in mem
    ensures e in heap && forall x :: x in heap ==> Due(mem, e) <= Due(mem, x)
    decreases |heap|
  {
    e :| e in heap;
    if heap != {e} {
      var rest := heap - {e};
      var r := SomeFirst(mem, rest);
      assert heap == rest + {e};
      if Due(mem, r) < Due(mem, e) {
        e := r;
      }
    }
  }

  lemma PendingSame(mem: Memory, e: nat)
    requires e in mem && !mem[e].internal
    ensures Pending(mem) == if mem[e].inTimeout then Pending(mem)[e := Micros(mem[e].timeout)] else Pending(mem) - {e}
  {
  }

  // The timer of list i is set to its head.
  lemma StillArmedTimer(mem: Memory, lists: seq<Ctl>, mem': Memory, running: Option<nat>, i: nat)
    requires ArmedBut(mem, lists, running, i) && i < |lists| && lists[i].events != []
    requires lists[i].timer in mem && lists[i].timer in mem' && mem' == mem[lists[i].timer := mem'[lists[i].timer]]
    requires forall j :: 0 <= j < |lists| && j != i ==> lists[j].timer != lists[i].timer && lists[j].timer in mem
    requires forall j :: 0 <= j < |lists| && lists[j].events != [] ==>
      lists[j].events[0] in mem && lists[j].events[0] != lists[i].timer
    requires mem'[lists[i].timer].inTimeout && Due(mem', lists[i].timer) <= Due(mem, lists[i].events[0])
    ensures ArmedBut(mem', lists, running, -1)
  {
    forall j | 0 <= j < |lists|
      ensures Armed(mem', lists[j], running)
    {
      if j != i {
        assert Armed(mem, lists[j], running);
      }
    }
  }

  lemma StillArmedBut(mem: Memory, lists: seq<Ctl>, mem': Memory, lists': seq<Ctl>, running: Option<nat>, i: nat,
                      e: nat)
    requires ArmedBut(mem, lists, running, -1) && HeadsLaterBut(mem, lists, mem', lists', i, e)
    requires forall j :: 0 <= j < |lists| ==>
      lists[j].timer in mem && lists[j].timer in mem' && mem'[lists[j].timer] == mem[lists[j].timer]
    ensures ArmedBut(mem', lists', running, i) && i < |lists'| == |lists| && lists'[i].events != []
    ensures lists'[i].timer == lists[i].timer
    ensures lists'[i].events[0] != e ==> Armed(mem', lists'[i], running)
  {
    forall j | 0 <= j < |lists'| && (j != i || lists'[i].events[0] != e)
      ensures Armed(mem', lists'[j], running)
    {
      assert Armed(mem, lists[j], running);
      assert HeadLaterOrNone(mem, lists[j], mem', lists'[j]);
    }
  }

  lemma ArmedList(mem: Memory, lists: seq<Ctl>, running: Option<nat>, i: nat)
    requires ArmedBut(mem, lists, running, i) && (i < |lists| ==> Armed(mem, lists[i], running))
    ensures ArmedBut(mem, lists, running, -1)
  {
  }

  // What event_add_internal can be given: a time or interval without magic, or one with
  // the magic of a list that exists.
  predicate Addable(tv: Tv, absolute: bool, n: nat)
  {
    && (Interval(tv) || IsCommon(tv, n)) && Usec(tv) <= MILLION
    && (absolute ==> Usec(tv) < MILLION)
  }

  lemma AddableUsec(tv: Tv, absolute: bool, n: nat)
    requires Addable(tv, absolute, n)
    ensures Usec(tv) <= MILLION
  {
  }

  // The new ev_timeout of event_add_internal.
  function WaitUntil(tv: Tv, absolute: bool, now: Tv, n: nat): (r: Tv)
    requires Normal(now) && Addable(tv, absolute, n)
    ensures IsCommon(tv, n) ==> IsCommon(r, n) && Idx(r) == Idx(tv) && Usec(r) < MILLION
    ensures !IsCommon(tv, n) ==> Normal(r)
    ensures Micros(r) == Micros(tv) + (if absolute then 0 else Micros(now)) && Tag(r) == Tag(tv)
  {
    if absolute then tv
    else if IsCommon(tv, n) then
      var sum := TimerAdd(now, Unpack(tv));
      Tv(sum.sec, sum.usec + Tag(tv) * BIT20)
    else
      TimerAdd(now, tv)
  }

  lemma FirstExists(mem: Memory, heap: set<nat>)
    requires heap != {} && forall x :: x in heap ==> x in mem
    ensures exists e :: e in heap && forall x :: x in heap ==> Due(mem, e) <= Due(mem, x)
  {
    var e := SomeFirst(mem, heap);
  }

  lemma SameTimers(mem: Memory, lists: seq<Ctl>, mem': Memory, lists': seq<Ctl>)
    requires HeadsLater(mem, lists, mem', lists')
    ensures |lists'| == |lists| && forall i :: 0 <= i < |lists| ==> lists'[i].timer == lists[i].timer
  {
    forall i | 0 <= i < |lists|
      ensures lists'[i].timer == lists[i].timer
    {
      assert HeadLaterOrNone(mem, lists[i], mem', lists'[i]);
    }
  }

  // An event that is taken out and made active arms its list, if it drives one.
  lemma StillArmedActive(mem: Memory, lists: seq<Ctl>, m: Memory, ls: seq<Ctl>, mem': Memory, running: Option<nat>,
                         e: nat, ev: Event, ev': Event)
    requires ArmedBut(mem, lists, running, -1) && HeadsLater(mem, lists, m, ls)
    requires e in mem && m == mem[e := ev] && mem' == m[e := ev'] && ev'.active && ev'.timeout == ev.timeout
    requires forall i :: 0 <= i < |lists| ==> lists[i].timer in mem
    ensures ArmedBut(mem', ls, running, -1)
  {
    forall i | 0 <= i < |ls|
      ensures Armed(mem', ls[i], running)
    {
      assert Armed(mem, lists[i], running);
      assert HeadLaterOrNone(mem, lists[i], m, ls[i]);
    }
  }

  lemma ActivatedArmed(mem: Memory, lists: seq<Ctl>, running: Option<nat>, e: nat, byTimeout: bool, skip: int)
    requires e in mem
    ensures var ev := mem[e].(active := true, byTimeout := byTimeout || (mem[e].active && mem[e].byTimeout));
      && Pending(mem[e := ev]) == Pending(mem)
      && (ArmedBut(mem, lists, running, skip) ==> ArmedBut(mem[e := ev], lists, running, skip))
  {
    hide Pending;
    var ev := mem[e].(active := true, byTimeout := byTimeout || (mem[e].active && mem[e].byTimeout));
    PendingChange(mem, e, ev);
    PendingChange(mem, e, mem[e]);
    assert mem[e := mem[e]] == mem;
    if ArmedBut(mem, lists, running, skip) {
      forall i | 0 <= i < |lists| && i != skip
        ensures Armed(mem[e := ev], lists[i], running)
      {
        assert Armed(mem, lists[i], running);
      }
    }
  }

  lemma StillArmedRunning(mem: Memory, lists: seq<Ctl>, mem': Memory, lists': seq<Ctl>, e: nat, ev: Event)
    requires ArmedBut(mem, lists, None, -1) && HeadsLater(mem, lists, mem', lists')
    requires e in mem && mem' == mem[e := ev] && forall i :: 0 <= i < |lists| ==> lists[i].timer in mem
    ensures ArmedBut(mem', lists', Some(e), -1)
  {
    forall i | 0 <= i < |lists'|
      ensures Armed(mem', lists'[i], Some(e))
    {
      assert Armed(mem, lists[i], None);
      assert HeadLaterOrNone(mem, lists[i], mem', lists'[i]);
    }
  }

  lemma StillArmedIdle(mem: Memory, lists: seq<Ctl>, running: Option<nat>)
    requires ArmedBut(mem, lists, running, -1)
    requires running.Some? && forall i :: 0 <= i < |lists| ==> lists[i].timer != running.value
    ensures ArmedBut(mem, lists, None, -1)
  {
    forall i | 0 <= i < |lists|
      ensures Armed(mem, lists[i], None)
    {
      assert Armed(mem, lists[i], running);
    }
  }

  lemma ArmedExcept(mem: Memory, lists: seq<Ctl>, running: Option<nat>, i: nat)
    requires ArmedBut(mem, lists, running, -1)
    ensures ArmedBut(mem, lists, running, i)
  {
  }

  // The callback of the timer of list i is over, and the list does not need it.
  lemma DropRunning(mem: Memory, lists: seq<Ctl>, i: nat)
    requires i < |lists| && ArmedBut(mem, lists, Some(lists[i].timer), -1)
    requires forall j :: 0 <= j < |lists| && j != i ==> lists[j].timer != lists[i].timer
    requires lists[i].events == [] ||
      (lists[i].timer in mem && lists[i].events[0] in mem && mem[lists[i].timer].inTimeout &&
       Due(mem, lists[i].timer) <= Due(mem, lists[i].events[0]))
    ensures ArmedBut(mem, lists, None, -1)
  {
    forall j | 0 <= j < |lists|
      ensures Armed(mem, lists[j], None)
    {
      assert Armed(mem, lists[j], Some(lists[i].timer));
    }
  }

  lemma LaterThan(tv: Tv, now: Tv)
    requires Usec(tv) < MILLION && Normal(now)
    ensures Micros(tv) > Micros(now) <==> tv.sec > now.sec || (tv.sec == now.sec && Usec(tv) > now.usec)
  {
  }

  // In order, nothing is due before the head.
  lemma RestLater(mem: Memory, s: seq<nat>, now: int)
    requires (forall e :: e in s ==> e in mem) && InOrder(mem, s) && (s == [] || Due(mem, s[0]) > now)
    ensures forall e :: e in s ==> Due(mem, e) > now
  {
    forall e | e in s
      ensures Due(mem, e) > now
    {
      var k :| 0 <= k < |s| && s[k] == e;
      assert k > 0 ==> Due(mem, s[0]) <= Due(mem, s[k]);
    }
  }

  // An event that has been deleted and activated because its time has come.
  function Fired(ev: Event): Event
  {
    ev.(inTimeout := false, inserted := false, active := true, byTimeout := true)
  }

  // Of the events heap0 of the heap all but those left are due and have fired.
  ghost predicate Handled(was: Memory, heap0: set<nat>, now: Tv, mem: Memory, heap: set<nat>)
  {
    && mem.Keys == was.Keys && heap <= heap0 && (forall e :: e in heap0 ==> e in was)
    && (forall e :: e in mem && (e in heap || e !in heap0) ==> mem[e] == was[e])
    && (forall e :: e in heap0 && e !in heap ==> Due(was, e) <= Micros(now) && e in mem && mem[e] == Fired(was[e]))
  }

  lemma HandledNone(mem: Memory, heap: set<nat>, now: Tv)
    requires forall e :: e in heap ==> e in mem
    ensures Handled(mem, heap, now, mem, heap)
  {
  }

  lemma HandledNext(was: Memory, heap0: set<nat>, now: Tv, mem: Memory, heap: set<nat>, e: nat)
    requires Handled(was, heap0, now, mem, heap) && e in heap && e in mem && Due(mem, e) <= Micros(now)
    ensures Handled(was, heap0, now, mem[e := Fired(mem[e])], heap - {e})
  {
    hide Micros, Fired;
  }

  lemma HandledAll(was: Memory, heap0: set<nat>, now: Tv, mem: Memory, heap: set<nat>)
    requires Handled(was, heap0, now, mem, heap)
    requires forall e :: e in heap ==> e in mem && Due(mem, e) > Micros(now)
    ensures mem.Keys == was.Keys
    ensures forall e :: e in mem ==>
      mem[e] == if e in heap0 && Due(was, e) <= Micros(now) then Fired(was[e]) else was[e]
  {
    hide Micros, Fired;
  }

  // Of the events s of a list all but those left are due and have fired.
  ghost predicate Served(was: Memory, s: seq<nat>, now: Tv, mem: Memory, left: seq<nat>)
  {
    && mem.Keys == was.Keys
    && (forall e :: e in left ==> e in s)
    && (forall e :: e in s ==> e in was && !was[e].internal)
    && (forall e :: e in mem && !was[e].internal && (e in left || e !in s) ==> mem[e] == was[e])
    && (forall e :: e in s && e !in left ==> Due(was, e) <= Micros(now) && mem[e] == Fired(was[e]))
  }

  lemma ServedNone(mem: Memory, s: seq<nat>, now: Tv)
    requires forall e :: e in s ==> e in mem && !mem[e].internal
    ensures Served(mem, s, now, mem, s)
  {
  }

  lemma ServedNext(was: Memory, s: seq<nat>, now: Tv, mem: Memory, left: seq<nat>, e: nat, mem': Memory,
                   left': seq<nat>)
    requires Served(was, s, now, mem, left) && e in left && e in mem && !mem[e].internal
    requires mem' == mem[e := Fired(mem[e])] && Due(mem, e) <= Micros(now)
    requires forall x :: x in left' <==> x in left && x != e
    ensures Served(was, s, now, mem', left')
  {
    hide Micros;
  }

  lemma ServedAll(was: Memory, s: seq<nat>, now: Tv, mem: Memory, left: seq<nat>, timer: nat, mem': Memory)
    requires Served(was, s, now, mem, left) && (forall e :: e in left ==> e in mem && Due(mem, e) > Micros(now))
    requires timer in mem && timer in mem' && mem' == mem[timer := mem'[timer]] && timer in was && was[timer].internal
    ensures mem'.Keys == was.Keys
    ensures forall e :: e in mem' && !was[e].internal ==>
      mem'[e] == if e in s && Due(was, e) <= Micros(now) then Fired(was[e]) else was[e]
  {
    hide Micros;
  }

  lemma TagCommon(a: Tv, b: Tv, n: nat)
    requires Tag(a) == Tag(b)
    ensures (IsCommon(a, n) <==> IsCommon(b, n)) && Idx(a) == Idx(b)
  {
  }

  lemma Retagged(tv: Tv, tag: nat, n: nat)
    requires Normal(tv) && (tag == 0 || (tag / 256 == 5 && tag % 256 < n))
    ensures var r := Tv(tv.sec, tv.usec + tag * BIT20);
      Addable(r, true, n) && Micros(r) == Micros(tv) && Tag(r) == tag
  {
    var r := Tv(tv.sec, tv.usec + tag * BIT20);
    assert Tag(r) == tag && Usec(r) == tv.usec;
  }

  // When event_persist_closure runs a persistent event again.
  function NextRun(ev: Event, now: Tv): Tv
    requires Normal(now) && Usec(ev.timeout) < MILLION && Usec(ev.ioTimeout) <= MILLION
  {
    var delay := Unpack(ev.ioTimeout);
    var runAt := TimerAdd(if ev.byTimeout then Unpack(ev.timeout) else now, delay);
    var late := if AtLeast(runAt, now) then runAt else TimerAdd(now, delay);
    Tv(late.sec, late.usec + Tag(ev.ioTimeout) * BIT20)
  }

  // One interval after it was due, or after now if that is past or it fired for another
  // reason.
  lemma NextRunIs(ev: Event, now: Tv)
    requires Normal(now) && Usec(ev.timeout) < MILLION && Usec(ev.ioTimeout) <= MILLION
    ensures var next := (if ev.byTimeout then Micros(ev.timeout) else Micros(now)) + Micros(ev.ioTimeout);
      Micros(NextRun(ev, now)) == if next < Micros(now) then Micros(now) + Micros(ev.ioTimeout) else next
  {
    UnpackMicros(ev.ioTimeout);
    UnpackMicros(ev.timeout);
    hide Micros, Usec, Tag, AtLeast;
    var delay := Unpack(ev.ioTimeout);
    var runAt := TimerAdd(if ev.byTimeout then Unpack(ev.timeout) else now, delay);
    NormalNotCommon(runAt, 0);
    NormalNotCommon(now, 0);
    AtLeastMicros(runAt, now);
    var late := if AtLeast(runAt, now) then runAt else TimerAdd(now, delay);
    TagAdded(late, Tag(ev.ioTimeout));
  }

  lemma UnpackMicros(tv: Tv)
    ensures Micros(Unpack(tv)) == Micros(tv)
  {
  }

  lemma TagAdded(tv: Tv, tag: nat)
    requires Normal(tv)
    ensures var r := Tv(tv.sec, tv.usec + tag * BIT20); Micros(r) == Micros(tv) && Tag(r) == tag && Usec(r) == tv.usec
  {
  }

  lemma NextAddable(ev: Event, now: Tv, n: nat)
    requires Normal(now) && Usec(ev.timeout) < MILLION && Addable(ev.ioTimeout, false, n)
    requires Tag(ev.timeout) == Tag(ev.ioTimeout)
    ensures Addable(NextRun(ev, now), true, n) && Usec(ev.ioTimeout) <= MILLION
    ensures Tag(NextRun(ev, now)) == Tag(ev.ioTimeout)
  {
    var delay := Unpack(ev.ioTimeout);
    var runAt := TimerAdd(if ev.byTimeout then Unpack(ev.timeout) else now, delay);
    Retagged(if AtLeast(runAt, now) then runAt else TimerAdd(now, delay), Tag(ev.ioTimeout), n);
  }

  lemma IsPending(mem: Memory, e: nat)
    requires e in mem && !mem[e].internal
    ensures e in Pending(mem) <==> mem[e].inTimeout
    ensures e in Pending(mem) ==> Pending(mem)[e] == Due(mem, e)
  {
  }

  lemma NewCounted(mem: Memory, e: nat, ev: Event)
    requires e !in mem && !ev.inTimeout && !ev.active && !ev.inserted
    ensures Counted(mem[e := ev]) == Counted(mem) && Pending(mem[e := ev]) == Pending(mem)
  {
    var m := mem[e := ev];
    assert TimeoutSet(m) == TimeoutSet(mem) && ActiveSet(m) == ActiveSet(mem) && InsertedSet(m) == InsertedSet(mem);
  }

  lemma NewListOk(mem: Memory, ctl: Ctl, running: Option<nat>, i: nat, e: nat, ev: Event)
    requires ListOk(mem, ctl.events, i) && Armed(mem, ctl, running) && e !in mem
    ensures ListOk(mem[e := ev], ctl.events, i) && Armed(mem[e := ev], ctl, running)
  {
    assert ctl.events != [] ==> ctl.events[0] in ctl.events;
  }

  lemma NewList(mem: Memory, m: Memory, heap: set<nat>, lists: seq<Ctl>, active: set<nat>, inserted: set<nat>,
                running: Option<nat>, ctl: Ctl)
    requires TimersOk(mem, lists) && ctl.timer !in mem
    requires QueuesOk(m, heap, lists, active, inserted) && ArmedBut(m, lists, running, -1) && |lists| < 256
    requires ctl.timer in m && SuitsTimer(m[ctl.timer]) && ctl.events == []
    requires Tag(ctl.duration) == 0x500 + |lists| && Usec(ctl.duration) <= MILLION
    ensures QueuesOk(m, heap, lists + [ctl], active, inserted) && ArmedBut(m, lists + [ctl], running, -1)
  {
    hide Armed, ListOk, IsCommon, Idx;
    forall e | e in m && m[e].inTimeout
      ensures Waits(m, heap, lists + [ctl], e)
    {
      MoreLists(m, heap, lists, ctl, e);
    }
    assert Armed(m, ctl, running) by { NoEvents(m, ctl, running); }
    assert ListOk(m, ctl.events, |lists|) by { NoEvents(m, ctl, running); }
  }

  lemma NoEvents(mem: Memory, ctl: Ctl, running: Option<nat>)
    requires ctl.events == []
    ensures Armed(mem, ctl, running) && forall i :: ListOk(mem, ctl.events, i)
  {
  }

  lemma MoreLists(mem: Memory, heap: set<nat>, lists: seq<Ctl>, ctl: Ctl, e: nat)
    requires HeapOk(mem, heap) && e in mem && Waits(mem, heap, lists, e)
    ensures Waits(mem, heap, lists + [ctl], e)
  {
    if !IsCommon(mem[e].timeout, |lists|) {
      NormalNotCommon(mem[e].timeout, |lists| + 1);
    }
  }

  // A waiting event after the clock went back by off; the magic of its list stays.
  function Shifted(ev: Event, off: Tv): Event
    requires Normal(off) && Usec(ev.timeout) < MILLION
  {
    var tv := TimerSub(Unpack(ev.timeout), off);
    ev.(timeout := Tv(tv.sec, tv.usec + Tag(ev.timeout) * BIT20))
  }

  lemma ShiftedFacts(ev: Event, off: Tv)
    requires Normal(off) && Usec(ev.timeout) < MILLION
    ensures var r := Shifted(ev, off);
      && Tag(r.timeout) == Tag(ev.timeout) && Usec(r.timeout) < MILLION
      && Micros(r.timeout) == Micros(ev.timeout) - Micros(off)
  {
    UnpackMicros(ev.timeout);
    TagAdded(TimerSub(Unpack(ev.timeout), off), Tag(ev.timeout));
  }

  // Every waiting event is due off microseconds earlier, and nothing else changed.
  ghost predicate MovedBack(mem: Memory, mem': Memory, off: int)
  {
    && mem'.Keys == mem.Keys
    && (forall e :: e in mem ==> mem'[e] == mem[e].(timeout := mem'[e].timeout))
    && (forall e :: e in mem && mem[e].inTimeout ==> Due(mem', e) == Due(mem, e) - off)
    && (forall e :: e in mem && !mem[e].inTimeout ==> mem'[e] == mem[e])
  }

  lemma ClockBack(tv: Tv, was: Tv)
    requires Normal(tv) && Normal(was)
    ensures AtLeast(tv, was) <==> Micros(tv) >= Micros(was)
    ensures Micros(TimerSub(was, tv)) == Micros(was) - Micros(tv)
  {
    NormalNotCommon(tv, 0);
    NormalNotCommon(was, 0);
    AtLeastMicros(tv, was);
  }

  // The events that the heap and the first i lists hold.
  ghost predicate Reached(mem: Memory, heap: set<nat>, n: nat, i: nat, e: nat)
    requires e in mem
  {
    e in heap || (mem[e].inTimeout && IsCommon(mem[e].timeout, n) && Idx(mem[e].timeout) < i)
  }

  lemma ReachedNext(mem: Memory, heap: set<nat>, lists: seq<Ctl>, active: set<nat>, inserted: set<nat>, i: nat)
    requires QueuesOk(mem, heap, lists, active, inserted) && i < |lists|
    ensures Distinct(lists[i].events)
    ensures forall e :: e in lists[i].events ==>
      e in mem && !Reached(mem, heap, |lists|, i, e) && Usec(mem[e].timeout) < MILLION
    ensures forall e :: e in mem ==>
      (Reached(mem, heap, |lists|, i + 1, e) <==> Reached(mem, heap, |lists|, i, e) || e in lists[i].events)
  {
    assert ListOk(mem, lists[i].events, i);
    forall e | e in lists[i].events
      ensures e in mem && !Reached(mem, heap, |lists|, i, e) && Reached(mem, heap, |lists|, i + 1, e)
    {
      OneList(mem, lists, e, i);
      PackedIsCommon(mem[e].timeout, i, |lists|);
      NormalOrCommon(mem[e].timeout, |lists|);
    }
    forall e | e in mem && Reached(mem, heap, |lists|, i + 1, e) && !Reached(mem, heap, |lists|, i, e)
      ensures e in lists[i].events
    {
      assert Waits(mem, heap, lists, e);
    }
  }

  lemma NoneReached(mem: Memory, heap: set<nat>, n: nat)
    ensures forall e :: e in mem ==> (Reached(mem, heap, n, 0, e) <==> e in heap)
  {
  }

  lemma AllReached(mem: Memory, heap: set<nat>, lists: seq<Ctl>, active: set<nat>, inserted: set<nat>)
    requires QueuesOk(mem, heap, lists, active, inserted)
    ensures forall e :: e in mem ==> (Reached(mem, heap, |lists|, |lists|, e) <==> mem[e].inTimeout)
    ensures forall e :: e in mem && mem[e].inTimeout ==> Usec(mem[e].timeout) < MILLION
    ensures forall e, i :: e in mem && Reached(mem, heap, |lists|, i, e) ==> mem[e].inTimeout
  {
    forall e | e in mem && mem[e].inTimeout
      ensures Reached(mem, heap, |lists|, |lists|, e) && Usec(mem[e].timeout) < MILLION
    {
      assert Waits(mem, heap, lists, e);
      WaitsIndex(mem, heap, lists, e);
      if IsCommon(mem[e].timeout, |lists|) {
        OneList(mem, lists, e, Idx(mem[e].timeout));
      } else {
        NormalNotCommon(mem[e].timeout, |lists|);
      }
    }
  }

  // Moving every waiting event by the same amount keeps all orders.
  lemma ShiftAll(mem: Memory, mem': Memory, heap: set<nat>, lists: seq<Ctl>, active: set<nat>, inserted: set<nat>,
                 running: Option<nat>, off: Tv)
    requires QueuesOk(mem, heap, lists, active, inserted) && ArmedBut(mem, lists, running, -1) && Normal(off)
    requires mem'.Keys == mem.Keys
    requires forall e :: e in mem && mem[e].inTimeout ==> Usec(mem[e].timeout) < MILLION
    requires forall e :: e in mem ==> mem'[e] == if mem[e].inTimeout then Shifted(mem[e], off) else mem[e]
    ensures QueuesOk(mem', heap, lists, active, inserted) && ArmedBut(mem', lists, running, -1)
    ensures Counted(mem') == Counted(mem) && MovedBack(mem, mem', Micros(off))
  {
    hide QueuesOk, ArmedBut, Shifted, Micros, Usec, Tag, Idx;
    forall e | e in mem && mem[e].inTimeout
      ensures mem'[e] == mem[e].(timeout := mem'[e].timeout)
      ensures Tag(mem'[e].timeout) == Tag(mem[e].timeout) && Usec(mem'[e].timeout) < MILLION
      ensures Micros(mem'[e].timeout) == Micros(mem[e].timeout) - Micros(off)
    {
      ShiftedFacts(mem[e], off);
      ShiftedOnly(mem[e], off);
    }
    assert MovedBack(mem, mem', Micros(off));
    ShiftQueues(mem, mem', heap, lists, active, inserted, off);
    ShiftArmed(mem, mem', heap, lists, active, inserted, running, off);
    assert TimeoutSet(mem') == TimeoutSet(mem) && ActiveSet(mem') == ActiveSet(mem);
    assert InsertedSet(mem') == InsertedSet(mem);
  }

  lemma ShiftedOnly(ev: Event, off: Tv)
    requires Normal(off) && Usec(ev.timeout) < MILLION
    ensures Shifted(ev, off) == ev.(timeout := Shifted(ev, off).timeout)
  {
  }

  lemma ShiftQueues(mem: Memory, mem': Memory, heap: set<nat>, lists: seq<Ctl>, active: set<nat>, inserted: set<nat>,
                    off: Tv)
    requires QueuesOk(mem, heap, lists, active, inserted) && MovedBack(mem, mem', Micros(off))
    requires forall e :: e in mem && mem[e].inTimeout ==>
      Tag(mem'[e].timeout) == Tag(mem[e].timeout) && Usec(mem'[e].timeout) < MILLION
    requires forall e :: e in mem && mem[e].inTimeout ==> Usec(mem[e].timeout) < MILLION
    ensures QueuesOk(mem', heap, lists, active, inserted)
  {
    hide Micros, Tag, Usec, ListOk, Normal, IsCommon, Idx;
    forall i | 0 <= i < |lists|
      ensures ListOk(mem', lists[i].events, i)
    {
      ShiftListOk(mem, mem', lists[i].events, i, off);
    }
    forall e | e in mem && mem[e].inTimeout && Normal(mem[e].timeout)
      ensures Normal(mem'[e].timeout)
    {
      NormalTag(mem[e].timeout);
      NormalTag(mem'[e].timeout);
    }
    forall e | e in mem' && mem'[e].inTimeout
      ensures Waits(mem', heap, lists, e)
    {
      assert Waits(mem, heap, lists, e);
      WaitsIndex(mem, heap, lists, e);
      TagCommon(mem[e].timeout, mem'[e].timeout, |lists|);
    }
  }

  lemma ShiftListOk(mem: Memory, mem': Memory, s: seq<nat>, i: nat, off: Tv)
    requires ListOk(mem, s, i) && MovedBack(mem, mem', Micros(off))
    requires forall e :: e in mem && mem[e].inTimeout ==>
      Tag(mem'[e].timeout) == Tag(mem[e].timeout) && Usec(mem'[e].timeout) < MILLION
    ensures ListOk(mem', s, i)
  {
    hide Micros, Tag, Usec;
  }

  lemma NormalTag(tv: Tv)
    requires Usec(tv) < MILLION
    ensures Normal(tv) <==> Tag(tv) == 0
  {
  }

  lemma ShiftArmed(mem: Memory, mem': Memory, heap: set<nat>, lists: seq<Ctl>, active: set<nat>, inserted: set<nat>,
                   running: Option<nat>, off: Tv)
    requires QueuesOk(mem, heap, lists, active, inserted)
    requires ArmedBut(mem, lists, running, -1) && MovedBack(mem, mem', Micros(off))
    ensures ArmedBut(mem', lists, running, -1)
  {
    hide Micros;
    forall i | 0 <= i < |lists|
      ensures Armed(mem', lists[i], running)
    {
      assert Armed(mem, lists[i], running) && ListOk(mem, lists[i].events, i);
      assert lists[i].events != [] ==> lists[i].events[0] in lists[i].events;
    }
  }

  // ---- The event base --------------------------------------------------------------------

  class EventBase {
    var mem: Memory
    var heap: set<nat>
    var lists: seq<Ctl>
    var active: set<nat>
    var inserted: set<nat>
    var running: Option<nat>
    var eventCount: int
    var activeCount: int
    var eventTv: Tv

    // Everything but the arming of the timers.
    ghost predicate Core()
      reads this`mem, this`heap, this`lists, this`active, this`inserted, this`eventCount, this`activeCount
    {
      && QueuesOk(mem, heap, lists, active, inserted)
      && eventCount == Counted(mem) && activeCount == |active|
    }

    ghost predicate Valid()
      reads this
    {
      Core() && ArmedBut(mem, lists, running, -1)
    }

    constructor ()
      ensures Valid() && mem == map[] && running == None && Normal(eventTv)
    {
      mem, heap, lists, active, inserted := map[], {}, [], {}, {};
      running, eventCount, activeCount, eventTv := None, 0, 0, Tv(0, 0);
    }

    // insert_common_timeout_inorder: the place for an event of list i.
    method PlaceFor(i: nat, e: nat) returns (k: nat)
      requires ListsOk(mem, lists) && i < |lists| && e in mem && Packed(mem[e].timeout, i)
      ensures k <= |lists[i].events|
      ensures forall x :: x in lists[i].events ==> x in mem
      ensures forall a :: 0 <= a < k ==> Due(mem, lists[i].events[a]) <= Due(mem, e)
      ensures k < |lists[i].events| ==> Due(mem, e) < Due(mem, lists[i].events[k])
    {
      var s := lists[i].events;
      assert ListOk(mem, s, i);
      k := |s|;
      while k > 0
        invariant k <= |s|
        invariant k < |s| ==> Due(mem, e) < Due(mem, s[k])
      {
        AtLeastMicros(mem[e].timeout, mem[s[k - 1]].timeout);
        if AtLeast(mem[e].timeout, mem[s[k - 1]].timeout) {
          return;
        }
        k := k - 1;
      }
    }

    // event_queue_insert(base, ev, EVLIST_TIMEOUT)
    method InsertTimeout(e: nat)
      requires Core() && e in mem && !mem[e].inTimeout
      requires Normal(mem[e].timeout) ||
        (IsCommon(mem[e].timeout, |lists|) && Usec(mem[e].timeout) < MILLION && !mem[e].internal)
      modifies this`mem, this`heap, this`lists, this`eventCount
      ensures Core() && mem == old(mem)[e := old(mem)[e].(inTimeout := true)]
      ensures Normal(mem[e].timeout) ==> lists == old(lists) && heap == old(heap) + {e}
      ensures !Normal(mem[e].timeout) ==>
        var i := Idx(mem[e].timeout);
        && heap == old(heap) && i < |lists| == |old(lists)| && lists[i].events != []
        && lists == old(lists)[i := old(lists)[i].(events := lists[i].events)]
        && (lists[i].events[0] == e || (old(lists)[i].events != [] && lists[i].events[0] == old(lists)[i].events[0]))
        && (forall x :: x in lists[i].events <==> x in old(lists)[i].events || x == e)
    {
      hide ListOk, Counted;
      var ev := mem[e];
      CountedChange(mem, e, ev.(inTimeout := true));
      NotWaiting(mem, heap, lists, e);
      OtherLists(mem, lists, e, ev.(inTimeout := true));
      ghost var m, h, ls := mem, heap, lists;
      eventCount := if ev.internal then eventCount else eventCount + 1;
      mem := mem[e := ev.(inTimeout := true)];
      if IsCommon(ev.timeout, |lists|) {
        var i := Idx(ev.timeout);
        var k := PlaceFor(i, e);
        var s := lists[i].events;
        InsertInOrder(mem, s, i, e, k);
        InsertedElements(s, k, e);
        lists := lists[i := lists[i].(events := s[..k] + [e] + s[k..])];
      } else {
        heap := heap + {e};
      }
      QueuesChange(m, h, ls, active, inserted, e, mem[e], heap, lists, active, inserted);
    }

    // The position of an event on its list.
    method Position(s: seq<nat>, e: nat) returns (k: nat)
      requires e in s
      ensures k < |s| && s[k] == e
    {
      k := 0;
      while s[k] != e
        invariant k < |s| && e in s[k..]
        decreases |s| - k
      {
        k := k + 1;
      }
    }

    // event_queue_remove(base, ev, EVLIST_TIMEOUT)
    method RemoveTimeout(e: nat)
      requires Core() && e in mem && mem[e].inTimeout
      modifies this`mem, this`heap, this`lists, this`eventCount
      ensures Core() && mem == old(mem)[e := old(mem)[e].(inTimeout := false)]
      ensures !IsCommon(mem[e].timeout, |lists|) ==> lists == old(lists) && heap == old(heap) - {e}
      ensures IsCommon(mem[e].timeout, |lists|) ==>
        var i := Idx(mem[e].timeout);
        && heap == old(heap) && i < |lists| == |old(lists)|
        && lists == old(lists)[i := old(lists)[i].(events := lists[i].events)]
        && (forall x :: x in lists[i].events <==> x in old(lists)[i].events && x != e)
        && |lists[i].events| < |old(lists)[i].events|
        && (lists[i].events != [] ==>
              && old(lists)[i].events != [] && old(lists)[i].events[0] in mem && lists[i].events[0] in mem
              && Due(mem, old(lists)[i].events[0]) <= Due(mem, lists[i].events[0]))
    {
      hide HeapOk, ListsOk, TimersOk, Waits, Counted, IsCommon, ListOk;
      var ev := mem[e];
      WaitsIndex(mem, heap, lists, e);
      OnItsList(mem, heap, lists, e);
      CountedChange(mem, e, ev.(inTimeout := false));
      ghost var m, h, ls := mem, heap, lists;
      eventCount := if ev.internal then eventCount else eventCount - 1;
      mem := mem[e := ev.(inTimeout := false)];
      if IsCommon(ev.timeout, |lists|) {
        var i := Idx(ev.timeout);
        var s := lists[i].events;
        var k := Position(s, e);
        RemoveFromList(m, lists, e, i, k, mem[e]);
        lists := lists[i := lists[i].(events := s[..k] + s[k + 1..])];
      } else {
        NotListed(m, lists, e);
        OtherLists(m, lists, e, mem[e]);
        heap := heap - {e};
      }
      HeapNormal(m, heap, h, ls, e);
      QueuesChange(m, h, ls, active, inserted, e, mem[e], heap, lists, active, inserted);
    }

    // event_queue_insert(base, ev, EVLIST_ACTIVE), with the result bits set before
    method InsertActive(e: nat, byTimeout: bool)
      requires Core() && e in mem && !mem[e].active
      modifies this`mem, this`active, this`eventCount, this`activeCount
      ensures Core() && mem == old(mem)[e := old(mem)[e].(active := true, byTimeout := byTimeout)]
      ensures active == old(active) + {e}
    {
      hide ListOk, Counted, HeapOk, ListsOk, TimersOk, Waits, IsCommon;
      ghost var m := mem;
      var ev := mem[e].(active := true, byTimeout := byTimeout);
      CountedChange(mem, e, ev);
      SameTimeout(mem, heap, lists, e, ev);
      eventCount := if ev.internal then eventCount else eventCount + 1;
      activeCount := activeCount + 1;
      mem := mem[e := ev];
      ghost var was := active;
      active := active + {e};
      QueuesChange(m, heap, lists, was, inserted, e, ev, heap, lists, active, inserted);
    }

    // event_queue_remove(base, ev, EVLIST_ACTIVE)
    method RemoveActive(e: nat)
      requires Core() && e in mem && mem[e].active
      modifies this`mem, this`active, this`eventCount, this`activeCount
      ensures Core() && mem == old(mem)[e := old(mem)[e].(active := false)] && active == old(active) - {e}
    {
      hide ListOk, Counted, HeapOk, ListsOk, TimersOk, Waits, IsCommon;
      ghost var m := mem;
      var ev := mem[e].(active := false);
      CountedChange(mem, e, ev);
      SameTimeout(mem, heap, lists, e, ev);
      eventCount := if ev.internal then eventCount else eventCount - 1;
      activeCount := activeCount - 1;
      mem := mem[e := ev];
      ghost var was := active;
      active := active - {e};
      QueuesChange(m, heap, lists, was, inserted, e, ev, heap, lists, active, inserted);
    }

    // event_queue_insert and event_queue_remove with EVLIST_INSERTED
    method SetInserted(e: nat, on: bool)
      requires Core() && e in mem && mem[e].inserted != on
      modifies this`mem, this`inserted, this`eventCount
      ensures Core() && mem == old(mem)[e := old(mem)[e].(inserted := on)]
    {
      hide ListOk, Counted, HeapOk, ListsOk, TimersOk, Waits, IsCommon;
      ghost var m := mem;
      var ev := mem[e].(inserted := on);
      CountedChange(mem, e, ev);
      SameTimeout(mem, heap, lists, e, ev);
      eventCount := if ev.internal then eventCount else if on then eventCount + 1 else eventCount - 1;
      mem := mem[e := ev];
      ghost var was := inserted;
      inserted := if on then inserted + {e} else inserted - {e};
      QueuesChange(m, heap, lists, active, was, e, ev, heap, lists, active, inserted);
    }

    // A field that no queue depends on, of an event that does not wait.
    method SetTimes(e: nat, timeout: Tv, ioTimeout: Tv)
      requires Core() && e in mem && !mem[e].inTimeout
      modifies this`mem
      ensures Core() && mem == old(mem)[e := old(mem)[e].(timeout := timeout, ioTimeout := ioTimeout)]
    {
      hide ListOk, Counted;
      ghost var m := mem;
      var ev := mem[e].(timeout := timeout, ioTimeout := ioTimeout);
      CountedChange(mem, e, ev);
      NotWaiting(mem, heap, lists, e);
      OtherLists(mem, lists, e, ev);
      mem := mem[e := ev];
      QueuesChange(m, heap, lists, active, inserted, e, ev, heap, lists, active, inserted);
    }

    // ---- Operations ---------------------------------------------------------------------

    // event_del_internal, whatever the event.
    method Remove(e: nat)
      requires Core() && e in mem
      modifies this`mem, this`heap, this`lists, this`active, this`inserted, this`eventCount, this`activeCount
      ensures Core() && mem == old(mem)[e := old(mem)[e].(inTimeout := false, active := false, inserted := false)]
      ensures HeadsLater(old(mem), old(lists), mem, lists) && heap == old(heap) - {e}
      ensures !old(mem)[e].inTimeout || Normal(mem[e].timeout) ==> lists == old(lists)
      ensures forall i, x :: 0 <= i < |lists| ==> (x in lists[i].events <==> x in old(lists)[i].events && x != e)
      ensures forall i :: 0 <= i < |lists| && e in old(lists)[i].events ==> |lists[i].events| < |old(lists)[i].events|
    {
      hide Core, HeadsLater;
      RemoveIfWaiting(e);
      RemoveIfListed(e);
      SameHeads(old(mem), old(lists), e, mem[e], lists);
    }

    method RemoveIfListed(e: nat)
      requires Core() && e in mem
      modifies this`mem, this`active, this`inserted, this`eventCount, this`activeCount
      ensures Core() && mem == old(mem)[e := old(mem)[e].(active := false, inserted := false)]
    {
      hide Core;
      if mem[e].active {
        RemoveActive(e);
      }
      if mem[e].inserted {
        SetInserted(e, false);
      }
    }

    method RemoveIfWaiting(e: nat)
      requires Core() && e in mem
      modifies this`mem, this`heap, this`lists, this`eventCount
      ensures Core() && mem == old(mem)[e := old(mem)[e].(inTimeout := false)]
      ensures HeadsLater(old(mem), old(lists), mem, lists) && heap == old(heap) - {e}
      ensures !old(mem)[e].inTimeout || Normal(mem[e].timeout) ==> lists == old(lists)
      ensures forall i, x :: 0 <= i < |lists| ==> (x in lists[i].events <==> x in old(lists)[i].events && x != e)
      ensures forall i :: 0 <= i < |lists| && e in old(lists)[i].events ==> |lists[i].events| < |old(lists)[i].events|
    {
      hide HeapOk, ListsOk, TimersOk, Waits, Counted, IsCommon;
      NormalOrCommon(mem[e].timeout, |lists|);
      HeadsSame(mem, lists, e, mem[e].(inTimeout := false));
      if mem[e].inTimeout {
        WaitsIndex(mem, heap, lists, e);
        if IsCommon(mem[e].timeout, |lists|) {
          var i := Idx(mem[e].timeout);
          OnItsList(mem, heap, lists, e);
          OneList(mem, lists, e, i);
          HeapNormal(mem, heap, heap, lists, e);
        } else {
          NotListed(mem, lists, e);
        }
        RemoveTimeout(e);
      } else {
        NotWaiting(mem, heap, lists, e);
        assert mem == mem[e := mem[e].(inTimeout := false)];
      }
    }

    // The end of event_add_internal: the event waits for a new time. Being active because
    // of the old one ends.
    method Rewait(e: nat, timeout: Tv, ioTimeout: Tv)
      requires Core() && e in mem
      requires Normal(timeout) || (IsCommon(timeout, |lists|) && Usec(timeout) < MILLION && !mem[e].internal)
      modifies this`mem, this`heap, this`lists, this`active, this`eventCount, this`activeCount
      ensures Core()
      ensures mem == old(mem)[e := old(mem)[e].(inTimeout := true, timeout := timeout, ioTimeout := ioTimeout,
          active := old(mem)[e].active && !old(mem)[e].byTimeout)]
      ensures Normal(timeout) ==> HeadsLater(old(mem), old(lists), mem, lists)
      ensures Normal(timeout) && (!old(mem)[e].inTimeout || Normal(old(mem)[e].timeout)) ==> lists == old(lists)
      ensures !Normal(timeout) ==> HeadsLaterBut(old(mem), old(lists), mem, lists, Idx(timeout), e)
    {
      hide Core, HeadsLater, HeadsLaterBut, Normal, IsCommon, Idx, Usec;
      Detach(e);
      ghost var m1, l1 := mem, lists;
      SetTimes(e, timeout, ioTimeout);
      NowhereListed(e);
      assert lists == l1;
      HeadsSameTimes(old(mem), old(lists), m1, l1, e, mem[e]);
      ghost var m2, l2 := mem, lists;
      InsertTimeout(e);
      HeadsInserted(old(mem), old(lists), m2, l2, mem, lists, e, timeout);
    }

    // The old timeout, and being active because of it, are gone.
    method Detach(e: nat)
      requires Core() && e in mem
      modifies this`mem, this`heap, this`lists, this`active, this`eventCount, this`activeCount
      ensures Core()
      ensures mem == old(mem)[e :=
        old(mem)[e].(inTimeout := false, active := old(mem)[e].active && !old(mem)[e].byTimeout)]
      ensures HeadsLater(old(mem), old(lists), mem, lists) && |lists| == |old(lists)|
      ensures !old(mem)[e].inTimeout || Normal(old(mem)[e].timeout) ==> lists == old(lists)
    {
      hide Core, HeadsLater, Normal;
      RemoveIfWaiting(e);
      if mem[e].active && mem[e].byTimeout {
        RemoveActive(e);
      }
      ghost var ev := old(mem)[e].(inTimeout := false, active := old(mem)[e].active && !old(mem)[e].byTimeout);
      assert mem == old(mem)[e := ev];
      SameHeads(old(mem), old(lists), e, ev, lists);
      SameTimers(old(mem), old(lists), mem, lists);
    }

    // common_timeout_schedule
    method Schedule(i: nat)
      requires Core() && i < |lists| && lists[i].events != [] && ArmedBut(mem, lists, running, i)
      modifies this`mem, this`heap, this`lists, this`active, this`eventCount, this`activeCount
      ensures Valid() && lists == old(lists) && lists[i].timer in mem
      ensures mem == old(mem)[lists[i].timer := mem[lists[i].timer]] && mem[lists[i].timer].internal
      ensures mem[lists[i].timer].inTimeout && lists[i].events[0] in mem
      ensures Due(mem, lists[i].timer) <= Due(mem, lists[i].events[0])
      ensures Pending(mem) == Pending(old(mem))
    {
      hide Core, HeadsLater, HeadsLaterBut, Pending, Armed;
      TimerFacts(i);
      var t, head := lists[i].timer, lists[i].events[0];
      var tv := Unpack(mem[head].timeout);
      Rewait(t, tv, mem[t].ioTimeout);
      PendingChange(old(mem), t, mem[t]);
      StillArmedTimer(old(mem), lists, mem, running, i);
    }

    lemma TimerFacts(i: nat)
      requires Core() && i < |lists|
      ensures var t := lists[i].timer; t in mem && SuitsTimer(mem[t])
      ensures forall j :: 0 <= j < |lists| && j != i ==> lists[j].timer != lists[i].timer && lists[j].timer in mem
      ensures lists[i].events != [] ==>
        var h := lists[i].events[0]; h in mem && h != lists[i].timer && Packed(mem[h].timeout, i) && mem[h].inTimeout
      ensures forall j :: 0 <= j < |lists| && lists[j].events != [] ==>
        lists[j].events[0] in mem && lists[j].events[0] != lists[i].timer
    {
      forall j | 0 <= j < |lists| && lists[j].events != []
        ensures lists[j].events[0] in mem && lists[j].events[0] != lists[i].timer
      {
        assert ListOk(mem, lists[j].events, j) && lists[j].events[0] in lists[j].events;
      }
    }

    // event_add_internal for an event of the user. ioOk is what evmap_io_add returns.
    method Add(e: nat, tv: Option<Tv>, absolute: bool, ioOk: bool, now: Tv) returns (res: int)
      requires Valid() && e in mem && !mem[e].internal && Normal(now)
      requires tv.Some? ==> Addable(tv.value, absolute, |lists|)
      modifies this`mem, this`heap, this`lists, this`active, this`inserted, this`eventCount, this`activeCount
      ensures Valid() && mem.Keys == old(mem).Keys && |lists| == |old(lists)|
      ensures res == if old(mem)[e].hasIo && !old(mem)[e].inserted && !old(mem)[e].active && !ioOk then -1 else 0
      ensures res == -1 ==> mem == old(mem) && lists == old(lists)
      ensures res == 0 && tv.None? ==> Pending(mem) == Pending(old(mem))
      ensures res == 0 && tv.Some? ==>
        Pending(mem) == Pending(old(mem))[e := Micros(tv.value) + if absolute then 0 else Micros(now)]
      ensures res == 0 ==> var was := old(mem)[e];
        mem[e] == was.(inserted := was.inserted || (was.hasIo && !was.active),
          inTimeout := was.inTimeout || tv.Some?,
          active := was.active && !(tv.Some? && was.byTimeout),
          timeout := if tv.Some? then mem[e].timeout else was.timeout,
          ioTimeout := if tv.Some? && was.persist && !absolute then tv.value else was.ioTimeout)
      ensures res == 0 && tv.Some? ==> Tag(mem[e].timeout) == Tag(tv.value) && Usec(mem[e].timeout) < MILLION
      ensures forall x :: x in mem && x != e && !mem[x].internal ==> mem[x] == old(mem)[x]
    {
      hide Core, HeadsLater, HeadsLaterBut, Pending, Armed, IsCommon, Usec, Normal, Idx, Tag, Addable;
      res := 0;
      if mem[e].hasIo && !mem[e].inserted && !mem[e].active {
        if !ioOk {
          return -1;
        }
        AddInserted(e);
      }
      if tv.Some? {
        var io := if mem[e].persist && !absolute then tv.value else mem[e].ioTimeout;
        var timeout := WaitUntil(tv.value, absolute, now, |lists|);
        SmallUsec(timeout);
        AddTimeout(e, timeout, io);
      }
    }

    method AddInserted(e: nat)
      requires Valid() && e in mem && !mem[e].internal && !mem[e].inserted
      modifies this`mem, this`inserted, this`eventCount
      ensures Valid() && mem == old(mem)[e := old(mem)[e].(inserted := true)]
      ensures Pending(mem) == Pending(old(mem))
    {
      hide Core, HeadsLater, Pending, Armed, ArmedBut;
      UserFacts(e, mem[e].(inserted := true));
      SetInserted(e, true);
      PendingChange(old(mem), e, mem[e]);
      PendingSame(old(mem), e);
      StillArmed(old(mem), lists, mem, lists, running, -1);
    }

    // What a change of the user's event e leaves alone.
    lemma UserFacts(e: nat, ev: Event)
      requires Core() && e in mem && !mem[e].internal
      ensures forall i :: 0 <= i < |lists| ==> lists[i].timer != e && lists[i].timer in mem
      ensures ev.timeout == mem[e].timeout ==> HeadsLater(mem, lists, mem[e := ev], lists)
    {
      NotATimer(mem, lists, e);
      if ev.timeout == mem[e].timeout {
        HeadsSame(mem, lists, e, ev);
      }
    }

    method AddTimeout(e: nat, timeout: Tv, io: Tv)
      requires Valid() && e in mem && !mem[e].internal
      requires Normal(timeout) || (IsCommon(timeout, |lists|) && Usec(timeout) < MILLION)
      modifies this`mem, this`heap, this`lists, this`active, this`eventCount, this`activeCount
      ensures Valid() && mem.Keys == old(mem).Keys && |lists| == |old(lists)|
      ensures Pending(mem) == Pending(old(mem))[e := Micros(timeout)]
      ensures mem[e] == old(mem)[e].(inTimeout := true, timeout := timeout, ioTimeout := io,
          active := old(mem)[e].active && !old(mem)[e].byTimeout)
      ensures forall x :: x in mem && x != e && !mem[x].internal ==> mem[x] == old(mem)[x]
    {
      hide Core, HeadsLater, HeadsLaterBut, Pending, Armed, Normal, IsCommon, Usec, Idx;
      UserFacts(e, mem[e]);
      var common := IsCommon(timeout, |lists|);
      NormalOrCommon(timeout, |lists|);
      Rewait(e, timeout, io);
      PendingChange(old(mem), e, mem[e]);
      if common {
        var i := Idx(timeout);
        StillArmedBut(old(mem), old(lists), mem, lists, running, i, e);
        if lists[i].events[0] == e {
          ghost var m, t := mem, old(lists)[i].timer;
          assert t != e && t in old(mem) && lists[i].timer == t;
          Schedule(i);
          assert mem == m[t := mem[t]];
        } else {
          ArmedList(mem, lists, running, i);
        }
      } else {
        SameTimers(old(mem), old(lists), mem, lists);
        StillArmed(old(mem), old(lists), mem, lists, running, -1);
      }
    }

    // event_del_internal for an event of the user
    method Del(e: nat)
      requires Valid() && e in mem && !mem[e].internal
      modifies this`mem, this`heap, this`lists, this`active, this`inserted, this`eventCount, this`activeCount
      ensures Valid() && mem == old(mem)[e := old(mem)[e].(inTimeout := false, active := false, inserted := false)]
      ensures Pending(mem) == Pending(old(mem)) - {e} && heap == old(heap) - {e}
      ensures |lists| == |old(lists)| && forall i :: 0 <= i < |lists| ==> lists[i].timer == old(lists)[i].timer
      ensures forall i, x :: 0 <= i < |lists| ==> (x in lists[i].events <==> x in old(lists)[i].events && x != e)
      ensures forall i :: 0 <= i < |lists| && e in old(lists)[i].events ==> |lists[i].events| < |old(lists)[i].events|
    {
      hide Core, HeadsLater, Pending, Armed, ArmedBut;
      UserFacts(e, mem[e]);
      Remove(e);
      PendingChange(old(mem), e, mem[e]);
      StillArmed(old(mem), old(lists), mem, lists, running, -1);
      SameTimers(old(mem), old(lists), mem, lists);
    }

    // event_active_nolock
    method Activate(e: nat, byTimeout: bool, ghost skip: int)
      requires Core() && e in mem
      modifies this`mem, this`active, this`eventCount, this`activeCount
      ensures Core() && active == old(active) + {e}
      ensures mem == old(mem)[e := old(mem)[e].(active := true,
          byTimeout := byTimeout || (old(mem)[e].active && old(mem)[e].byTimeout))]
      ensures Pending(mem) == Pending(old(mem))
      ensures ArmedBut(old(mem), lists, running, skip) ==> ArmedBut(mem, lists, running, skip)
    {
      hide Core, Pending, ArmedBut;
      ActivatedArmed(mem, lists, running, e, byTimeout, skip);
      if mem[e].active {
        ActiveListed(e);
        SetResult(e, byTimeout || mem[e].byTimeout);
      } else {
        InsertActive(e, byTimeout);
      }
      assert mem == old(mem)[e := mem[e]];
    }

    lemma ActiveListed(e: nat)
      requires Core() && e in mem && mem[e].active
      ensures e in active && active + {e} == active
    {
    }

    method SetResult(e: nat, byTimeout: bool)
      requires Core() && e in mem && mem[e].active
      modifies this`mem
      ensures Core() && mem == old(mem)[e := old(mem)[e].(byTimeout := byTimeout)]
    {
      hide ListOk, Counted;
      var ev := mem[e].(byTimeout := byTimeout);
      CountedChange(mem, e, ev);
      SameTimeout(mem, heap, lists, e, ev);
      ghost var m := mem;
      mem := mem[e := ev];
      QueuesChange(m, heap, lists, active, inserted, e, ev, heap, lists, active, inserted);
    }

    // The loop body of timeout_process: the event at the top of the heap is due.
    method Expire(e: nat)
      requires Valid() && e in heap
      modifies this`mem, this`heap, this`lists, this`active, this`inserted, this`eventCount, this`activeCount
      ensures Valid() && heap == old(heap) - {e} && e in old(mem) && lists == old(lists)
      ensures mem == old(mem)[e := Fired(old(mem)[e])]
    {
      hide Core, HeadsLater, Armed, ArmedBut, Pending;
      InHeap(e);
      TimersApart(e);
      ghost var ev := mem[e].(inTimeout := false, active := false, inserted := false);
      Remove(e);
      ghost var m, ls := mem, lists;
      Activate(e, true, -1);
      StillArmedActive(old(mem), old(lists), m, ls, mem, running, e, ev, ev.(active := true, byTimeout := true));
    }

    lemma InHeap(e: nat)
      requires Core() && e in heap
      ensures e in mem && mem[e].inTimeout && Normal(mem[e].timeout)
    {
    }

    lemma TimersApart(e: nat)
      requires Core()
      ensures forall i :: 0 <= i < |lists| ==> lists[i].timer in mem
    {
    }

    // timeout_process
    method TimeoutProcess(now: Tv)
      requires Valid() && Normal(now)
      modifies this`mem, this`heap, this`lists, this`active, this`inserted, this`eventCount, this`activeCount
      ensures Valid() && mem.Keys == old(mem).Keys && lists == old(lists)
      ensures forall e :: e in heap ==> e in mem && Due(mem, e) > Micros(now)
      ensures forall e :: e in mem ==>
        mem[e] == if e in old(heap) && Due(old(mem), e) <= Micros(now) then Fired(old(mem)[e]) else old(mem)[e]
    {
      hide Core, ArmedBut, Micros, Fired, Normal, Handled;
      AllInHeap();
      HandledNone(mem, heap, now);
      while heap != {}
        invariant Valid() && heap <= old(heap) && mem.Keys == old(mem).Keys && lists == old(lists)
        invariant Handled(old(mem), old(heap), now, mem, heap)
        decreases |heap|
      {
        AllInHeap();
        FirstExists(mem, heap);
        var e :| e in heap && forall x :: x in heap ==> Due(mem, e) <= Due(mem, x);
        InHeap(e);
        if Micros(mem[e].timeout) > Micros(now) {
          break;
        }
        HandledNext(old(mem), old(heap), now, mem, heap, e);
        Expire(e);
      }
      AllInHeap();
      HandledAll(old(mem), old(heap), now, mem, heap);
    }

    lemma AllInHeap()
      requires Core()
      ensures forall e :: e in heap ==> e in mem
    {
    }

    // The start of event_process_active_single_queue for the first event: its callback is
    // about to run.
    method BeginCallback(e: nat)
      requires Valid() && e in active && running == None
      modifies this`mem, this`heap, this`lists, this`active
      modifies this`inserted, this`eventCount, this`activeCount, this`running
      ensures Valid() && running == Some(e) && e in old(mem)
      ensures mem == old(mem)[e := if old(mem)[e].persist then old(mem)[e].(active := false)
          else old(mem)[e].(inTimeout := false, active := false, inserted := false)]
      ensures old(mem)[e].persist || !old(mem)[e].inTimeout || Normal(old(mem)[e].timeout) ==> lists == old(lists)
    {
      hide Core, HeadsLater, Armed, ArmedBut, Pending, HeadLaterOrNone;
      ActiveKnown(e);
      TimersApart(e);
      ghost var ev := if mem[e].persist then mem[e].(active := false)
        else mem[e].(inTimeout := false, active := false, inserted := false);
      HeadsKept(e, ev);
      if mem[e].persist {
        RemoveActive(e);
      } else {
        Remove(e);
      }
      running := Some(e);
      StillArmedRunning(old(mem), old(lists), mem, lists, e, ev);
    }

    lemma ActiveKnown(e: nat)
      requires Core() && e in active
      ensures e in mem && mem[e].active
    {
    }

    lemma HeadsKept(e: nat, ev: Event)
      requires Core() && e in mem && ev.timeout == mem[e].timeout
      ensures HeadsLater(mem, lists, mem[e := ev], lists)
    {
      HeadsSame(mem, lists, e, ev);
    }

    // The callback of an event of the user is over.
    method EndCallback()
      requires Valid() && running.Some? && running.value in mem && !mem[running.value].internal
      modifies this`running
      ensures Valid() && running == None
    {
      hide Core, Armed;
      TimersNotUser(running.value);
      StillArmedIdle(mem, lists, running);
      running := None;
    }

    lemma TimersNotUser(e: nat)
      requires Core() && e in mem && !mem[e].internal
      ensures forall i :: 0 <= i < |lists| ==> lists[i].timer != e
    {
    }

    // A due event of a list is deleted and activated.
    method Fire(e: nat)
      requires Valid() && e in mem && !mem[e].internal
      modifies this`mem, this`heap, this`lists, this`active, this`inserted, this`eventCount, this`activeCount
      ensures Valid()
      ensures mem == old(mem)[e := Fired(old(mem)[e])]
      ensures |lists| == |old(lists)| && forall i :: 0 <= i < |lists| ==> lists[i].timer == old(lists)[i].timer
      ensures forall i, x :: 0 <= i < |lists| ==> (x in lists[i].events <==> x in old(lists)[i].events && x != e)
      ensures forall i :: 0 <= i < |lists| && e in old(lists)[i].events ==> |lists[i].events| < |old(lists)[i].events|
    {
      hide Core, ArmedBut, Pending;
      Del(e);
      Activate(e, true, -1);
    }

    // common_timeout_callback, the callback of the timer of list i: everything due is
    // activated, and the timer is set for the rest.
    method CommonCallback(i: nat, now: Tv)
      requires Valid() && i < |lists| && running == Some(lists[i].timer) && Normal(now)
      modifies this`mem, this`heap, this`lists, this`active
      modifies this`inserted, this`eventCount, this`activeCount, this`running
      ensures Valid() && running == None && mem.Keys == old(mem).Keys && |lists| == |old(lists)|
      ensures forall e :: e in mem && !old(mem)[e].internal ==>
        mem[e] == if e in old(lists)[i].events && Due(old(mem), e) <= Micros(now)
                  then Fired(old(mem)[e]) else old(mem)[e]
    {
      hide Core, Armed, ArmedBut, Pending, InOrder, Distinct, Micros, Normal, Served;
      ListFacts(i);
      ServedNone(mem, lists[i].events, now);
      ghost var timer, s := lists[i].timer, lists[i].events;
      while lists[i].events != []
        invariant Valid() && i < |lists| == |old(lists)| && lists[i].timer == timer && running == Some(timer)
        invariant Served(old(mem), s, now, mem, lists[i].events)
        decreases |lists[i].events|
      {
        ListFacts(i);
        var e := lists[i].events[0];
        LaterThan(mem[e].timeout, now);
        if mem[e].timeout.sec > now.sec || (mem[e].timeout.sec == now.sec && Usec(mem[e].timeout) > now.usec) {
          break;
        }
        ghost var m, es := mem, lists[i].events;
        Fire(e);
        ServedNext(old(mem), s, now, m, es, e, mem, lists[i].events);
      }
      ListFacts(i);
      RestLater(mem, lists[i].events, Micros(now));
      ghost var m, es := mem, lists[i].events;
      Rearm(i);
      ServedAll(old(mem), s, now, m, es, timer, mem);
    }

    method Rearm(i: nat)
      requires Valid() && i < |lists| && running == Some(lists[i].timer)
      modifies this`mem, this`heap, this`lists, this`active, this`eventCount, this`activeCount, this`running
      ensures Valid() && running == None && lists == old(lists) && lists[i].timer in mem
      ensures mem == old(mem)[lists[i].timer := mem[lists[i].timer]] && mem[lists[i].timer].internal
    {
      hide Core, Armed, ArmedBut, Pending, Micros;
      ListFacts(i);
      if lists[i].events != [] {
        ArmedExcept(mem, lists, running, i);
        Schedule(i);
      }
      TimersDiffer(i);
      DropRunning(mem, lists, i);
      running := None;
    }

    lemma TimersDiffer(i: nat)
      requires Core() && i < |lists|
      ensures forall j :: 0 <= j < |lists| && j != i ==> lists[j].timer != lists[i].timer
    {
    }

    // An event of a list of the user, and its timer.
    lemma ListFacts(i: nat)
      requires Core() && i < |lists|
      ensures Distinct(lists[i].events) && lists[i].timer in mem && mem[lists[i].timer].internal
      ensures forall e :: e in lists[i].events ==> e in mem && mem[e].inTimeout && Packed(mem[e].timeout, i)
      ensures forall e :: e in lists[i].events ==> !mem[e].internal
      ensures InOrder(mem, lists[i].events)
    {
      assert ListOk(mem, lists[i].events, i);
    }

    // event_persist_closure. ioOk is what evmap_io_add returns, if it is called.
    method PersistClosure(e: nat, now: Tv, ioOk: bool)
      requires Valid() && e in mem && !mem[e].internal && Normal(now)
      requires Tag(mem[e].timeout) == Tag(mem[e].ioTimeout)
      requires Usec(mem[e].timeout) < MILLION && Addable(mem[e].ioTimeout, false, |lists|)
      modifies this`mem, this`heap, this`lists, this`active, this`inserted, this`eventCount, this`activeCount
      ensures Valid() && mem.Keys == old(mem).Keys
      ensures var was := old(mem)[e];
        if was.ioTimeout != Tv(0, 0) && (ioOk || !was.hasIo || was.inserted || was.active) then
          && Usec(was.ioTimeout) <= MILLION
          && Pending(mem) == Pending(old(mem))[e := Micros(NextRun(was, now))]
          && mem[e] == was.(inserted := was.inserted || (was.hasIo && !was.active), inTimeout := true,
               active := was.active && !was.byTimeout, timeout := mem[e].timeout)
          && Tag(mem[e].timeout) == Tag(was.ioTimeout)
        else mem == old(mem) && lists == old(lists)
      ensures forall x :: x in mem && x != e && !mem[x].internal ==> mem[x] == old(mem)[x]
    {
      hide Core, ArmedBut, Pending, Addable, NextRun, Usec, Tag, Micros;
      var ev := mem[e];
      if ev.ioTimeout.sec != 0 || ev.ioTimeout.usec != 0 {
        NextAddable(ev, now, |lists|);
        var res := Add(e, Some(NextRun(ev, now)), true, ioOk, now);
      }
    }

    lemma WhereWaiting(e: nat)
      requires Core() && e in mem && mem[e].inTimeout
      ensures var tv := mem[e].timeout;
        if IsCommon(tv, |lists|) then Idx(tv) < |lists| && e in lists[Idx(tv)].events && e !in heap else e in heap
    {
      assert Waits(mem, heap, lists, e);
      if e in heap {
        NormalNotCommon(mem[e].timeout, |lists|);
      }
    }

    lemma ActiveIs(e: nat)
      requires Core() && e in mem
      ensures e in active <==> mem[e].active
    {
    }

    // The event loop makes a due event of the user active: directly if it waits in the heap,
    // and otherwise by running the callback of the timer of its list.
    method LetFire(e: nat, now: Tv)
      requires Valid() && running == None && Normal(now)
      requires e in mem && !mem[e].internal && mem[e].inTimeout && Due(mem, e) <= Micros(now)
      modifies this`mem, this`heap, this`lists, this`active
      modifies this`inserted, this`eventCount, this`activeCount, this`running
      ensures Valid() && running == None && e in mem && mem[e] == Fired(old(mem)[e]) && |lists| == |old(lists)|
    {
      hide Core, Armed, ArmedBut, Pending, IsCommon, Idx, Micros, Normal;
      WhereWaiting(e);
      TimeoutProcess(now);
      if IsCommon(mem[e].timeout, |lists|) {
        RunTimer(Idx(mem[e].timeout), e, now);
      }
    }

    // The timer of list i is active, or due events of the list would not be served.
    method RunTimer(i: nat, e: nat, now: Tv)
      requires Valid() && running == None && Normal(now) && i < |lists|
      requires e in lists[i].events && e in mem && !mem[e].internal && Due(mem, e) <= Micros(now)
      requires forall x :: x in heap ==> x in mem && Due(mem, x) > Micros(now)
      modifies this`mem, this`heap, this`lists, this`active
      modifies this`inserted, this`eventCount, this`activeCount, this`running
      ensures Valid() && running == None && e in mem && mem[e] == Fired(old(mem)[e]) && |lists| == |old(lists)|
    {
      hide Core, Armed, ArmedBut, Pending, IsCommon, Idx, Micros, Normal;
      DueIsServed(i, e, now);
      var timer := lists[i].timer;
      ActiveIs(timer);
      TimerFacts(i);
      TimerPlain(mem[timer]);
      BeginCallback(timer);
      CommonCallback(i, now);
    }

    lemma TimerPlain(ev: Event)
      requires SuitsTimer(ev)
      ensures ev.internal && (!ev.inTimeout || Normal(ev.timeout))
    {
    }

    // A persistent event of the user, added with an interval, fires and is scheduled again:
    // one interval after its first deadline, or after now if that is past.
    method PersistRound(e: nat, tv: Tv, start: Tv, fired: Tv, now: Tv, ioOk: bool)
      requires Valid() && running == None && e in mem && !mem[e].internal && mem[e].persist
      requires Addable(tv, false, |lists|) && tv != Tv(0, 0) && Normal(start) && Normal(fired) && Normal(now)
      requires Micros(start) + Micros(tv) <= Micros(fired)
      modifies this`mem, this`heap, this`lists, this`active
      modifies this`inserted, this`eventCount, this`activeCount, this`running
      ensures Valid() && e in mem
      ensures ioOk || !old(mem)[e].hasIo ==>
        var next := Micros(start) + 2 * Micros(tv);
        && running == Some(e) && mem[e].inTimeout
        && Due(mem, e) == if next < Micros(now) then Micros(now) + Micros(tv) else next
    {
      hide Core, Armed, ArmedBut, IsCommon, Idx, Micros, Normal, Usec, Tag, NextRun, Pending, Addable;
      AddableUsec(tv, false, |lists|);
      var res := Add(e, Some(tv), false, ioOk, start);
      if res != 0 {
        return;
      }
      IsPending(mem, e);
      LetFire(e, fired);
      ActiveIs(e);
      BeginCallback(e);
      NextRunIs(mem[e], now);
      PersistClosure(e, now, ioOk);
      IsPending(mem, e);
    }

    // event_base_init_common_timeout; timer is the event allocated for a new list. A list
    // for the same duration is used again; otherwise there is a new one behind the others.
    method InitCommon(duration: Tv, timer: nat) returns (result: Option<Tv>)
      requires Valid() && timer !in mem
      modifies this`mem, this`lists
      ensures Valid() && Pending(mem) == Pending(old(mem))
      ensures var n := |old(lists)|; var d := Normalised(duration, n);
        if exists i :: 0 <= i < n && ForDuration(old(lists)[i], d) then
          && lists == old(lists) && mem == old(mem)
          && exists i :: 0 <= i < n && ForDuration(lists[i], d) && result == Some(lists[i].duration)
        else if n == 256 then
          result == None && lists == old(lists) && mem == old(mem)
        else
          && result == Some(Pack(d, n)) && lists == old(lists) + [Ctl(result.value, timer, [])]
          && mem.Keys == old(mem).Keys + {timer} && forall e :: e in old(mem) ==> mem[e] == old(mem)[e]
      ensures result.Some? ==> IsCommon(result.value, |lists|) && Usec(result.value) <= MILLION
      ensures result.Some? && IsCommon(duration, |old(lists)|) ==> Micros(result.value) == Micros(duration)
      ensures result.Some? && !IsCommon(duration, |old(lists)|) ==>
        Micros(result.value) == duration.sec * MILLION + duration.usec
      ensures result.Some? ==>
        exists i :: 0 <= i < |lists| && lists[i].duration == result.value && Idx(result.value) == i
      ensures old(OneEach(lists)) ==> OneEach(lists)
    {
      hide Core, ArmedBut, Pending, OneEach, Micros, Usec;
      NormalisedMicros(duration, |lists|);
      var d := duration;
      if d.usec > MILLION {
        if IsCommon(d, |lists|) {
          d := Unpack(d);
        }
        d := Tv(d.sec + d.usec / MILLION, d.usec % MILLION);
      }
      assert d == Normalised(duration, |lists|);
      hide Normalised, ForDuration, IsCommon, Idx;
      ListCount();
      var i := ListFor(d);
      if i < |lists| {
        DurationFacts(i);
        SameDuration(lists[i], d, i, |lists|);
        return Some(lists[i].duration);
      }
      if |lists| == 256 {
        return None;
      }
      var ctl := Ctl(Pack(d, |lists|), timer, []);
      OneMore(lists, ctl, d);
      PackedAs(d, |lists|);
      AddList(timer, ctl);
      result := Some(ctl.duration);
      assert lists[|lists| - 1].duration == result.value;
    }

    // The first list for the duration, or the number of lists.
    method ListFor(d: Tv) returns (i: nat)
      ensures i <= |lists| && forall j :: 0 <= j < i ==> !ForDuration(lists[j], d)
      ensures i < |lists| ==> ForDuration(lists[i], d)
    {
      i := 0;
      while i < |lists|
        invariant i <= |lists| && forall j :: 0 <= j < i ==> !ForDuration(lists[j], d)
      {
        if d.sec == lists[i].duration.sec && d.usec == Usec(lists[i].duration) {
          return;
        }
        i := i + 1;
      }
    }

    // A list with a timer of its own that does not wait yet.
    method AddList(timer: nat, ctl: Ctl)
      requires Valid() && timer !in mem && |lists| < 256
      requires ctl.timer == timer && ctl.events == []
      requires Tag(ctl.duration) == 0x500 + |lists| && Usec(ctl.duration) <= MILLION
      modifies this`mem, this`lists
      ensures Valid() && Pending(mem) == Pending(old(mem)) && lists == old(lists) + [ctl]
      ensures mem.Keys == old(mem).Keys + {timer} && forall e :: e in old(mem) ==> mem[e] == old(mem)[e]
    {
      hide Core, ArmedBut, Pending;
      var ev := Event(Tv(0, 0), false, false, false, false, true, false, false, Tv(0, 0));
      NewTimer(timer, ev, ctl);
      NewCore(timer, ev, ctl);
    }

    method NewCore(timer: nat, ev: Event, ctl: Ctl)
      requires QueuesOk(mem[timer := ev], heap, lists + [ctl], active, inserted)
      requires eventCount == Counted(mem[timer := ev]) && activeCount == |active|
      modifies this`mem, this`lists
      ensures Core() && mem == old(mem)[timer := ev] && lists == old(lists) + [ctl]
    {
      mem := mem[timer := ev];
      lists := lists + [ctl];
    }

    lemma ListCount()
      requires Core()
      ensures |lists| <= 256
    {
    }

    lemma DurationFacts(i: nat)
      requires Core() && i < |lists|
      ensures Tag(lists[i].duration) == 0x500 + i && Usec(lists[i].duration) <= MILLION
    {
    }

    // A new timer and an empty list disturb nothing.
    lemma NewTimer(timer: nat, ev: Event, ctl: Ctl)
      requires Valid() && timer !in mem && |lists| < 256 && SuitsTimer(ev)
      requires !ev.inTimeout && !ev.active && !ev.inserted
      requires ctl.timer == timer && ctl.events == []
      requires Tag(ctl.duration) == 0x500 + |lists| && Usec(ctl.duration) <= MILLION
      ensures QueuesOk(mem[timer := ev], heap, lists + [ctl], active, inserted)
      ensures eventCount == Counted(mem[timer := ev]) && activeCount == |active|
      ensures Pending(mem[timer := ev]) == Pending(mem)
      ensures ArmedBut(mem[timer := ev], lists + [ctl], running, -1)
    {
      AddedEvent(timer, ev);
      hide Counted, Pending;
      NewList(mem, mem[timer := ev], heap, lists, active, inserted, running, ctl);
    }

    // event_assign and event_new for the user
    method NewEvent(e: nat, hasIo: bool, persist: bool)
      requires Valid() && e !in mem
      modifies this`mem
      ensures Valid() && Pending(mem) == Pending(old(mem))
      ensures mem == old(mem)[e := Event(Tv(0, 0), false, false, false, false, false, hasIo, persist, Tv(0, 0))]
    {
      var ev := Event(Tv(0, 0), false, false, false, false, false, hasIo, persist, Tv(0, 0));
      AddedEvent(e, ev);
      hide QueuesOk, ArmedBut, Pending, Counted;
      mem := mem[e := ev];
    }

    lemma AddedEvent(e: nat, ev: Event)
      requires Valid() && e !in mem && !ev.inTimeout && !ev.active && !ev.inserted
      ensures QueuesOk(mem[e := ev], heap, lists, active, inserted)
      ensures Counted(mem[e := ev]) == Counted(mem) && Pending(mem[e := ev]) == Pending(mem)
      ensures ArmedBut(mem[e := ev], lists, running, -1)
    {
      hide ListOk, Armed, IsCommon, Idx;
      NewCounted(mem, e, ev);
      forall i | 0 <= i < |lists|
        ensures ListOk(mem[e := ev], lists[i].events, i) && Armed(mem[e := ev], lists[i], running)
      {
        NewListOk(mem, lists[i], running, i, e, ev);
      }
      var m := mem[e := ev];
      forall x | x in m && m[x].inTimeout
        ensures Waits(m, heap, lists, x)
      {
        WaitsIndex(mem, heap, lists, x);
        assert Waits(mem, heap, lists, x);
      }
    }

    // timeout_correct: when the clock runs backwards, every waiting event is moved back by
    // as much.
    method Correct(tv: Tv)
      requires Valid() && Normal(tv) && Normal(eventTv)
      modifies this`mem, this`eventTv
      ensures Valid() && eventTv == tv
      ensures Micros(tv) >= Micros(old(eventTv)) ==> mem == old(mem)
      ensures Micros(tv) < Micros(old(eventTv)) ==> MovedBack(old(mem), mem, Micros(old(eventTv)) - Micros(tv))
    {
      hide Core, ArmedBut, QueuesOk, MovedBack, AtLeast, Micros, IsCommon, Idx;
      ClockBack(tv, eventTv);
      if AtLeast(tv, eventTv) {
        eventTv := tv;
        return;
      }
      var off := TimerSub(eventTv, tv);
      ghost var m := mem;
      OpenCore();
      ShiftHeap(off);
      NoneReached(m, heap, |lists|);
      AllReached(m, heap, lists, active, inserted);
      var i := 0;
      while i < |lists|
        invariant 0 <= i <= |lists| && mem.Keys == m.Keys && QueuesOk(m, heap, lists, active, inserted)
        invariant forall e :: e in m ==> mem[e] == if Reached(m, heap, |lists|, i, e) then Shifted(m[e], off) else m[e]
      {
        ReachedNext(m, heap, lists, active, inserted, i);
        ShiftList(i, off);
        i := i + 1;
      }
      ShiftAll(m, mem, heap, lists, active, inserted, running, off);
      CloseCore();
      eventTv := tv;
    }

    lemma OpenCore()
      requires Core()
      ensures QueuesOk(mem, heap, lists, active, inserted) && eventCount == Counted(mem) && activeCount == |active|
      ensures forall e :: e in heap ==> e in mem && Usec(mem[e].timeout) < MILLION
      ensures forall i :: 0 <= i < |lists| ==> Distinct(lists[i].events)
      ensures forall i, e :: 0 <= i < |lists| && e in lists[i].events ==> e in mem && Usec(mem[e].timeout) < MILLION
    {
      forall i | 0 <= i < |lists|
        ensures ListOk(mem, lists[i].events, i)
      {
      }
    }

    lemma CloseCore()
      requires QueuesOk(mem, heap, lists, active, inserted) && eventCount == Counted(mem) && activeCount == |active|
      ensures Core()
    {
    }

    method ShiftHeap(off: Tv)
      requires Normal(off) && forall e :: e in heap ==> e in mem && Usec(mem[e].timeout) < MILLION
      modifies this`mem
      ensures mem.Keys == old(mem).Keys
      ensures forall e :: e in mem ==> mem[e] == if e in heap then Shifted(old(mem)[e], off) else old(mem)[e]
    {
      var rest := heap;
      while rest != {}
        invariant rest <= heap && mem.Keys == old(mem).Keys
        invariant forall e :: e in mem ==> mem[e] == if e in heap - rest then Shifted(old(mem)[e], off) else old(mem)[e]
        decreases |rest|
      {
        var e :| e in rest;
        mem := mem[e := Shifted(mem[e], off)];
        rest := rest - {e};
      }
    }

    method ShiftList(i: nat, off: Tv)
      requires Normal(off) && i < |lists| && Distinct(lists[i].events)
      requires forall e :: e in lists[i].events ==> e in mem && Usec(mem[e].timeout) < MILLION
      modifies this`mem
      ensures mem.Keys == old(mem).Keys
      ensures forall e :: e in mem ==> mem[e] == if e in lists[i].events then Shifted(old(mem)[e], off) else old(mem)[e]
    {
      var s := lists[i].events;
      var k := 0;
      while k < |s|
        invariant 0 <= k <= |s| && mem.Keys == old(mem).Keys
        invariant forall e :: e in mem ==> mem[e] == if e in s[..k] then Shifted(old(mem)[e], off) else old(mem)[e]
      {
        assert s[k] !in s[..k];
        assert s[..k + 1] == s[..k] + [s[k]];
        mem := mem[s[k] := Shifted(mem[s[k]], off)];
        k := k + 1;
      }
      assert s[..k] == s;
    }

    // No event of a list is forgotten: from the time it is due, the timer of its list is
    // active or running, or will be found due by timeout_process.
    lemma DueIsServed(i: nat, e: nat, now: Tv)
      requires Valid() && i < |lists| && e in lists[i].events && e in mem && Due(mem, e) <= Micros(now)
      ensures var t := lists[i].timer;
        t in mem && (mem[t].active || running == Some(t) || (t in heap && Due(mem, t) <= Micros(now)))
    {
      assert ListOk(mem, lists[i].events, i) && Armed(mem, lists[i], running);
      RestLater(mem, lists[i].events, if lists[i].events[0] in mem then Due(mem, lists[i].events[0]) - 1 else 0);
      var t := lists[i].timer;
      if mem[t].inTimeout {
        assert Waits(mem, heap, lists, t);
        NormalNotCommon(mem[t].timeout, |lists|);
      }
    }

    lemma NowhereListed(e: nat)
      requires Core() && e in mem && !mem[e].inTimeout
      ensures forall i :: 0 <= i < |lists| ==> e !in lists[i].events
    {
      NotWaiting(mem, heap, lists, e);
    }
  }

  // As HeadsLater, but list i is not empty, and its head may be the event e.
  ghost predicate HeadsLaterBut(mem: Memory, lists: seq<Ctl>, mem': Memory, lists': seq<Ctl>, i: nat, e: nat)
  {
    && i < |lists| == |lists'|
    && (forall j :: 0 <= j < |lists| && j != i ==> HeadLaterOrNone(mem, lists[j], mem', lists'[j]))
    && lists'[i].timer == lists[i].timer && lists'[i].duration == lists[i].duration && lists'[i].events != []
    && (lists'[i].events[0] == e || HeadLaterOrNone(mem, lists[i], mem', lists'[i]))
  }

  lemma HeadsSameTimes(mem: Memory, lists: seq<Ctl>, mem': Memory, lists': seq<Ctl>, e: nat, ev: Event)
    requires HeadsLater(mem, lists, mem', lists')
    requires e in mem' && forall i :: 0 <= i < |lists'| ==> e !in lists'[i].events
    ensures HeadsLater(mem, lists, mem'[e := ev], lists')
  {
    forall i | 0 <= i < |lists|
      ensures HeadLaterOrNone(mem, lists[i], mem'[e := ev], lists'[i])
    {
      assert HeadLaterOrNone(mem, lists[i], mem', lists'[i]);
      if lists'[i].events != [] {
        assert lists'[i].events[0] in lists'[i].events;
      }
    }
  }

  lemma HeadsInserted(mem: Memory, lists: seq<Ctl>, m: Memory, ls: seq<Ctl>, mem': Memory, lists': seq<Ctl>, e: nat,
                      tv: Tv)
    requires HeadsLater(mem, lists, m, ls) && e in m && mem' == m[e := m[e].(inTimeout := true)] && m[e].timeout == tv
    requires Normal(tv) ==> lists' == ls
    requires !Normal(tv) ==>
      var i := Idx(tv);
      && i < |lists'| == |ls| && lists'[i].events != []
      && lists' == ls[i := ls[i].(events := lists'[i].events)]
      && (lists'[i].events[0] == e || (ls[i].events != [] && lists'[i].events[0] == ls[i].events[0]))
    ensures Normal(tv) ==> HeadsLater(mem, lists, mem', lists')
    ensures !Normal(tv) ==> HeadsLaterBut(mem, lists, mem', lists', Idx(tv), e)
  {
    forall i | 0 <= i < |lists| && lists'[i].events == ls[i].events
      ensures HeadLaterOrNone(mem, lists[i], mem', lists'[i])
    {
      assert HeadLaterOrNone(mem, lists[i], m, ls[i]);
    }
    if !Normal(tv) {
      assert HeadLaterOrNone(mem, lists[Idx(tv)], m, ls[Idx(tv)]);
    }
  }

  lemma OnItsList(mem: Memory, heap: set<nat>, lists: seq<Ctl>, e: nat)
    requires e in mem && Waits(mem, heap, lists, e)
    ensures IsCommon(mem[e].timeout, |lists|) ==>
      Idx(mem[e].timeout) < |lists| && e in lists[Idx(mem[e].timeout)].events
    ensures !IsCommon(mem[e].timeout, |lists|) ==> e in heap
  {
  }

  lemma SameHeads(mem: Memory, lists: seq<Ctl>, e: nat, ev: Event, lists': seq<Ctl>)
    requires e in mem && HeadsLater(mem, lists, mem[e := mem[e].(inTimeout := false)], lists')
    requires ev.timeout == mem[e].timeout
    ensures HeadsLater(mem, lists, mem[e := ev], lists')
  {
    forall i | 0 <= i < |lists|
      ensures HeadLaterOrNone(mem, lists[i], mem[e := ev], lists'[i])
    {
      assert HeadLaterOrNone(mem, lists[i], mem[e := mem[e].(inTimeout := false)], lists'[i]);
    }
  }

  lemma HeadLater(mem: Memory, s: seq<nat>, i: nat, k: nat)
    requires ListOk(mem, s, i) && k < |s|
    ensures var r := s[..k] + s[k + 1..];
      r != [] ==> r[0] in mem && s[0] in mem && r[0] in s && Due(mem, s[0]) <= Due(mem, r[0])
  {
    var r := s[..k] + s[k + 1..];
    if r != [] {
      assert r[0] == if k > 0 then s[0] else s[1];
    }
  }

  lemma NotListed(mem: Memory, lists: seq<Ctl>, e: nat)
    requires ListsOk(mem, lists) && e in mem && !IsCommon(mem[e].timeout, |lists|)
    ensures forall i :: 0 <= i < |lists| ==> e !in lists[i].events
  {
    forall i | 0 <= i < |lists|
      ensures e !in lists[i].events
    {
      assert ListOk(mem, lists[i].events, i);
      if e in lists[i].events {
        PackedIsCommon(mem[e].timeout, i, |lists|);
      }
    }
  }

  // No event of a list is in the heap.
  lemma HeapNormal(mem: Memory, heap': set<nat>, heap: set<nat>, lists: seq<Ctl>, e: nat)
    requires HeapOk(mem, heap) && heap' <= heap && e in mem
    requires heap' == heap - {e} || IsCommon(mem[e].timeout, |lists|)
    ensures e !in heap'
  {
    NormalOrCommon(mem[e].timeout, |lists|);
  }

  // The duration a caller of event_base_init_common_timeout asks for, its magic removed
  // and its microseconds carried over, when there are more than a million of them.
  function Normalised(duration: Tv, n: nat): (d: Tv)
    ensures d.usec <= MILLION
  {
    if duration.usec > MILLION then
      var usec := if IsCommon(duration, n) then Usec(duration) else duration.usec;
      Tv(duration.sec + usec / MILLION, usec % MILLION)
    else duration
  }

  lemma NormalisedMicros(duration: Tv, n: nat)
    ensures var d := Normalised(duration, n);
      && Usec(d) == d.usec
      && Micros(d) == if IsCommon(duration, n) then Micros(duration) else duration.sec * MILLION + duration.usec
  {
  }

  predicate ForDuration(ctl: Ctl, d: Tv)
  {
    ctl.duration.sec == d.sec && Usec(ctl.duration) == d.usec
  }

  lemma SameDuration(ctl: Ctl, d: Tv, i: nat, n: nat)
    requires ForDuration(ctl, d) && Usec(d) == d.usec && Tag(ctl.duration) == 0x500 + i && i < n <= 256
    ensures Micros(ctl.duration) == Micros(d) && IsCommon(ctl.duration, n) && Idx(ctl.duration) == i
  {
  }

  lemma PackedAs(d: Tv, n: nat)
    requires d.usec <= MILLION && n < 256
    ensures var p := Pack(d, n); IsCommon(p, n + 1) && Idx(p) == n
  {
  }

  // No two lists are for one duration.
  predicate OneEach(lists: seq<Ctl>)
  {
    forall i, j :: 0 <= i < j < |lists| ==> !ForDuration(lists[i], Unpack(lists[j].duration))
  }

  lemma OneMore(lists: seq<Ctl>, ctl: Ctl, d: Tv)
    requires forall j :: 0 <= j < |lists| ==> !ForDuration(lists[j], d)
    requires d == Unpack(ctl.duration)
    ensures OneEach(lists) ==> OneEach(lists + [ctl])
  {
  }

  // Fields that do not matter for waiting.
  lemma SameTimeout(mem: Memory, heap: set<nat>, lists: seq<Ctl>, e: nat, ev: Event)
    requires HeapOk(mem, heap) && ListsOk(mem, lists) && e in mem
    requires ev.timeout == mem[e].timeout && ev.inTimeout == mem[e].inTimeout && ev.internal == mem[e].internal
    requires mem[e].inTimeout ==> Waits(mem, heap, lists, e)
    ensures forall i :: 0 <= i < |lists| ==> ListOk(mem[e := ev], lists[i].events, i)
    ensures ev.inTimeout ==> Waits(mem[e := ev], heap, lists, e)
    ensures e in heap ==> ev.inTimeout && Normal(ev.timeout)
  {
    forall i | 0 <= i < |lists|
      ensures ListOk(mem[e := ev], lists[i].events, i)
    {
      assert ListOk(mem, lists[i].events, i);
    }
  }
}
