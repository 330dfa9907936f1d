// Suspension of bufferevents (bufferevent.c) and the rate limiter that drives it
// (bufferevent_ratelim.c). The two copies of the code for reading and writing are one
// here, with the direction as a parameter. The clock is a parameter, the tick number.
module RateLimits {
  import opened Bytes
  import opened Wrappers
  import opened TokenBucket

  // The bits of read_suspended and write_suspended.
  datatype Reason = Watermark | Bw | BwGroup | Lookup | FiltRead

  // One direction of a bufferevent: what the user asked for, the reasons it is
  // suspended for, and what the backend was last told.
  datatype Half = Half(enabled: bool, suspended: set<Reason>, running: bool)

  // The backend runs exactly what is enabled and not suspended.
  predicate InStep(h: Half)
  {
    h.running <==> h.enabled && h.suspended == {}
  }

  function Suspended(h: Half, what: Reason): (r: Half)
    ensures InStep(h) ==> InStep(r)
  {
    h.(running := if h.suspended == {} then false else h.running, suspended := h.suspended + {what})
  }

  function Unsuspended(h: Half, what: Reason): (r: Half)
    ensures InStep(h) ==> InStep(r)
  {
    var left := h.suspended - {what};
    h.(suspended := left, running := if left == {} && h.enabled then true else h.running)
  }

  // Nothing but the reason what changed.
  predicate OnlyFlag(h: Half, h': Half, what: Reason)
  {
    h'.enabled == h.enabled && h'.suspended - {what} == h.suspended - {what}
  }

  lemma OtherFlags(h: Half, what: Reason)
    ensures OnlyFlag(h, Suspended(h, what), what) && OnlyFlag(h, Unsuspended(h, what), what)
  {
    assert h.suspended + {what} - {what} == h.suspended - {what};
    assert h.suspended - {what} - {what} == h.suspended - {what};
  }

  lemma SameFlags(h: Half, what: Reason)
    ensures OnlyFlag(h, h, what)
  {
  }

  lemma FlagKept(h: Half, h': Half, what: Reason, other: Reason)
    requires OnlyFlag(h, h', what) && other != what
    ensures other in h'.suspended <==> other in h.suspended
  {
    assert other in h.suspended - {what} <==> other in h.suspended;
    assert other in h'.suspended - {what} <==> other in h'.suspended;
  }

  function LimitOf(b: Bucket, d: Dir): int
  {
    if d == Read then b.read else b.write
  }

  function LimitsOf(c: Cfg, d: Dir): Limits
  {
    if d == Read then c.read else c.write
  }

  function WithLimit(b: Bucket, d: Dir, n: int): Bucket
  {
    if d == Read then b.(read := n) else b.(write := n)
  }

  predicate NotOver(b: Bucket, c: Cfg)
  {
    b.read <= c.read.maximum && b.write <= c.write.maximum
  }

  // An update that takes the last token of a direction with some.
  predicate UpdateSinks(b: Bucket, c: Cfg, tick: nat, d: Dir)
  {
    var n := Minus32(tick, b.lastUpdated);
    0 < n <= INT_MAX && Sinks(LimitOf(b, d), LimitsOf(c, d), n)
  }

  lemma UpdatePositive(b: Bucket, c: Cfg, tick: nat, d: Dir)
    requires ValidBucket(b) && ValidCfg(c) && tick < TWO32 && LimitOf(b, d) > 0
    ensures LimitOf(Updated(b, c, tick), d) > 0 <==> !UpdateSinks(b, c, tick, d)
  {
    hide Refilled, Minus32, Sinks;
    var n := Minus32(tick, b.lastUpdated);
    if 0 < n <= INT_MAX {
      StaysPositive(LimitOf(b, d), LimitsOf(c, d), n);
    }
  }

  lemma SameTick(b: Bucket, c: Cfg)
    requires ValidBucket(b) && ValidCfg(c)
    ensures Updated(b, c, b.lastUpdated) == b
  {
  }

  lemma UpdateKeeps(b: Bucket, c: Cfg, tick: nat)
    requires ValidBucket(b) && ValidCfg(c) && NotOver(b, c) && tick < TWO32
    ensures var u := Updated(b, c, tick); NotOver(u, c) && b.read <= u.read && b.write <= u.write
    ensures forall d :: !UpdateSinks(b, c, tick, d)
  {
    hide Refilled, Minus32;
    var n := Minus32(tick, b.lastUpdated);
    if n != 0 && n <= INT_MAX {
      RefillBetween(b.read, c.read, n);
      RefillBetween(b.write, c.write, n);
    }
  }

  lemma RefillBetween(limit: int, l: Limits, n: nat)
    requires 0 < n <= INT_MAX && InSsize(limit) && ValidLimits(l) && limit <= l.maximum
    ensures limit <= Refilled(limit, l, n) <= l.maximum
  {
    hide Refilled;
    RefillExact(limit, l, n);
    assert n * l.rate >= 0;
  }

  // The refill timer is pending exactly while something waits for tokens.
  ghost predicate LimitsOk(r: Half, w: Half, rateLimiting: bool, cfg: Option<Cfg>, limit: Bucket, refillPending: bool)
  {
    && ValidBucket(limit)
    && (match cfg
        case None => !refillPending && Bw !in r.suspended && Bw !in w.suspended
        case Some(c) => rateLimiting && ValidCfg(c) && (refillPending <==> Bw in r.suspended || Bw in w.suspended))
  }

  // The states a bufferevent can be in.
  ghost predicate BevOk(r: Half, w: Half, rateLimiting: bool, cfg: Option<Cfg>, limit: Bucket, refillPending: bool,
                        grouped: bool)
  {
    && InStep(r) && InStep(w) && LimitsOk(r, w, rateLimiting, cfg, limit, refillPending)
    && (grouped ==> rateLimiting)
    && (!grouped ==> BwGroup !in r.suspended && BwGroup !in w.suspended)
  }

  lemma GroupFlagKeeps(r: Half, w: Half, r': Half, w': Half, rateLimiting: bool, cfg: Option<Cfg>, limit: Bucket,
                       refillPending: bool)
    requires BevOk(r, w, rateLimiting, cfg, limit, refillPending, true)
    requires OnlyFlag(r, r', BwGroup) && OnlyFlag(w, w', BwGroup) && InStep(r') && InStep(w')
    ensures BevOk(r', w', rateLimiting, cfg, limit, refillPending, true)
  {
    FlagKept(r, r', BwGroup, Bw);
    FlagKept(w, w', BwGroup, Bw);
  }

  lemma JoinOk(r: Half, w: Half, rateLimiting: bool, cfg: Option<Cfg>, limit: Bucket, refillPending: bool)
    requires BevOk(r, w, rateLimiting, cfg, limit, refillPending, false)
    ensures BevOk(r, w, true, cfg, limit, refillPending, true) && InStep(r) && InStep(w)
    ensures BwGroup !in r.suspended && BwGroup !in w.suspended
  {
  }

  lemma LeaveOk(r: Half, w: Half, rateLimiting: bool, cfg: Option<Cfg>, limit: Bucket, refillPending: bool)
    requires BevOk(r, w, rateLimiting, cfg, limit, refillPending, true)
    ensures BevOk(Unsuspended(r, BwGroup), Unsuspended(w, BwGroup), rateLimiting, cfg, limit, refillPending, false)
  {
    OtherFlags(r, BwGroup);
    OtherFlags(w, BwGroup);
    FlagKept(r, Unsuspended(r, BwGroup), BwGroup, Bw);
    FlagKept(w, Unsuspended(w, BwGroup), BwGroup, Bw);
  }

  lemma OkInStep(r: Half, w: Half, rateLimiting: bool, cfg: Option<Cfg>, limit: Bucket, refillPending: bool,
                 grouped: bool)
    requires BevOk(r, w, rateLimiting, cfg, limit, refillPending, grouped)
    ensures InStep(r) && InStep(w) && (grouped ==> rateLimiting) && ValidBucket(limit)
  {
  }

  // Reasons other than tokens come and go without touching the limits.
  lemma OtherReason(r: Half, w: Half, rateLimiting: bool, cfg: Option<Cfg>, limit: Bucket, refillPending: bool,
                    grouped: bool, d: Dir, what: Reason)
    ensures BevOk(r, w, rateLimiting, cfg, limit, refillPending, grouped) && what != Bw ==>
      && (what != BwGroup || grouped ==>
            BevOk(if d == Read then Suspended(r, what) else r, if d == Write then Suspended(w, what) else w,
                  rateLimiting, cfg, limit, refillPending, grouped))
      && BevOk(if d == Read then Unsuspended(r, what) else r, if d == Write then Unsuspended(w, what) else w,
               rateLimiting, cfg, limit, refillPending, grouped)
  {
  }

  const MAX_EVER: nat := 16384

  class Bufferevent {
    var read: Half
    var write: Half
    var rateLimiting: bool
    var cfg: Option<Cfg>
    var limit: Bucket
    var refillPending: bool
    var group: Group?

    function Of(d: Dir): Half
      reads this`read, this`write
    {
      if d == Read then read else write
    }

    ghost predicate Valid()
      reads this
    {
      BevOk(read, write, rateLimiting, cfg, limit, refillPending, group != null)
    }

    // A direction without tokens waits.
    predicate Kept(d: Dir)
      reads this`cfg, this`limit, this`read, this`write
    {
      cfg.Some? && LimitOf(limit, d) <= 0 ==> Bw in Of(d).suspended
    }

    // No direction is above its maximum.
    predicate Within()
      reads this`cfg, this`limit
    {
      cfg.Some? ==> NotOver(limit, cfg.value)
    }

    constructor ()
      ensures Valid() && cfg == None && group == null && !rateLimiting && !refillPending
      ensures read == Half(false, {}, false) && write == Half(false, {}, false)
    {
      read, write := Half(false, {}, false), Half(false, {}, false);
      rateLimiting, cfg, limit, refillPending, group := false, None, Bucket(0, 0, 0), false, null;
    }

    // bufferevent_suspend_read and bufferevent_suspend_write
    method Suspend(d: Dir, what: Reason)
      modifies this`read, this`write
      ensures read == if d == Read then Suspended(old(read), what) else old(read)
      ensures write == if d == Write then Suspended(old(write), what) else old(write)
      ensures old(Valid()) && what != Bw && (what == BwGroup ==> group != null) ==> Valid()
      ensures forall e :: old(Kept(e)) ==> Kept(e)
    {
      OtherReason(read, write, rateLimiting, cfg, limit, refillPending, group != null, d, what);
      hide BevOk;
      if d == Read {
        if read.suspended == {} {
          read := read.(running := false);
        }
        read := read.(suspended := read.suspended + {what});
      } else {
        if write.suspended == {} {
          write := write.(running := false);
        }
        write := write.(suspended := write.suspended + {what});
      }
    }

    // bufferevent_unsuspend_read and bufferevent_unsuspend_write
    method Unsuspend(d: Dir, what: Reason)
      modifies this`read, this`write
      ensures read == if d == Read then Unsuspended(old(read), what) else old(read)
      ensures write == if d == Write then Unsuspended(old(write), what) else old(write)
      ensures old(Valid()) && what != Bw ==> Valid()
      ensures what != Bw ==> forall e :: old(Kept(e)) ==> Kept(e)
    {
      OtherReason(read, write, rateLimiting, cfg, limit, refillPending, group != null, d, what);
      hide BevOk;
      if d == Read {
        read := read.(suspended := read.suspended - {what});
        if read.suspended == {} && read.enabled {
          read := read.(running := true);
        }
      } else {
        write := write.(suspended := write.suspended - {what});
        if write.suspended == {} && write.enabled {
          write := write.(running := true);
        }
      }
    }

    // The group lets go of a member, unless its lock is taken.
    method Release(d: Dir, busy: set<Bufferevent>) returns (skipped: bool)
      modifies this`read, this`write
      ensures skipped == (this in busy)
      ensures Of(d) == if skipped then old(Of(d)) else Unsuspended(old(Of(d)), BwGroup)
      ensures forall e :: e != d ==> Of(e) == old(Of(e))
    {
      skipped := this in busy;
      if !skipped {
        Unsuspend(d, BwGroup);
      }
    }

    // The group holds back a new member in the directions in which it waits.
    method Join(g: Group, r: bool, w: bool)
      requires Valid() && group == null
      modifies this`group, this`read, this`write, this`rateLimiting
      ensures Valid() && group == g
      ensures OnlyFlag(old(read), read, BwGroup) && OnlyFlag(old(write), write, BwGroup)
      ensures (BwGroup in read.suspended <==> r) && (BwGroup in write.suspended <==> w)
    {
      JoinOk(read, write, rateLimiting, cfg, limit, refillPending);
      OtherFlags(read, BwGroup);
      OtherFlags(write, BwGroup);
      SameFlags(read, BwGroup);
      SameFlags(write, BwGroup);
      hide BevOk, OnlyFlag;
      rateLimiting := true;
      group := g;
      if r {
        Suspend(Read, BwGroup);
      }
      if w {
        Suspend(Write, BwGroup);
      }
    }

    // A member that has left waits for the group no more.
    method Leave()
      requires Valid() && group != null
      modifies this`group, this`read, this`write
      ensures Valid() && group == null
      ensures OnlyFlag(old(read), read, BwGroup) && OnlyFlag(old(write), write, BwGroup)
    {
      LeaveOk(read, write, rateLimiting, cfg, limit, refillPending);
      OtherFlags(read, BwGroup);
      OtherFlags(write, BwGroup);
      hide BevOk, OnlyFlag;
      group := null;
      Unsuspend(Read, BwGroup);
      Unsuspend(Write, BwGroup);
    }

    // bufferevent_enable for the events asked for
    method Enable(r: bool, w: bool)
      requires Valid()
      modifies this`read, this`write
      ensures Valid()
      ensures read.enabled == (old(read).enabled || r) && read.suspended == old(read).suspended
      ensures write.enabled == (old(write).enabled || w) && write.suspended == old(write).suspended
    {
      var implRead, implWrite := r && read.suspended == {}, w && write.suspended == {};
      read, write := read.(enabled := read.enabled || r), write.(enabled := write.enabled || w);
      if implRead {
        read := read.(running := true);
      }
      if implWrite {
        write := write.(running := true);
      }
    }

    // bufferevent_disable
    method Disable(r: bool, w: bool)
      requires Valid()
      modifies this`read, this`write
      ensures Valid()
      ensures read.enabled == (old(read).enabled && !r) && read.suspended == old(read).suspended
      ensures write.enabled == (old(write).enabled && !w) && write.suspended == old(write).suspended
    {
      if r {
        read := read.(enabled := false, running := false);
      }
      if w {
        write := write.(enabled := false, running := false);
      }
    }

    // bufferevent_update_buckets. A direction that waits when it must still does, unless the
    // update takes its last token, which can only happen to one above its maximum.
    method UpdateBuckets(tick: nat)
      requires Valid() && cfg.Some? && tick < TWO32
      modifies this`limit
      ensures Valid() && limit == Updated(old(limit), cfg.value, tick)
      ensures old(Within()) ==> Within()
      ensures forall d :: old(Kept(d)) ==>
        (Kept(d) <==> Bw in Of(d).suspended || !UpdateSinks(old(limit), cfg.value, tick, d))
    {
      WhenUpdated(tick);
      SameTick(limit, cfg.value);
      hide UpdateSinks, Updated;
      if tick != limit.lastUpdated {
        limit := Updated(limit, cfg.value, tick);
      }
    }

    lemma WhenUpdated(tick: nat)
      requires Valid() && cfg.Some? && tick < TWO32
      ensures var u := Updated(limit, cfg.value, tick);
        && (Within() ==> NotOver(u, cfg.value))
        && forall d :: LimitOf(limit, d) > 0 ==> (LimitOf(u, d) > 0 <==> !UpdateSinks(limit, cfg.value, tick, d))
    {
      hide Updated, UpdateSinks;
      if Within() {
        UpdateKeeps(limit, cfg.value, tick);
      }
      forall d | LimitOf(limit, d) > 0
        ensures LimitOf(Updated(limit, cfg.value, tick), d) > 0 <==> !UpdateSinks(limit, cfg.value, tick, d)
      {
        UpdatePositive(limit, cfg.value, tick, d);
      }
    }

    // bufferevent_decrement_read_limit and bufferevent_decrement_write_limit. A negative
    // amount refills by hand, and may leave a bucket above its maximum.
    method DecrementLimit(d: Dir, decr: int)
      requires Valid() && cfg.Some? && InSsize(LimitOf(limit, d) - decr)
      modifies this`limit, this`read, this`write, this`refillPending
      ensures Valid() && limit == WithLimit(old(limit), d, LimitOf(old(limit), d) - decr)
      ensures OnlyFlag(old(read), read, Bw) && OnlyFlag(old(write), write, Bw)
      ensures forall e :: e != d ==> Of(e) == old(Of(e))
      ensures forall e :: old(Kept(e)) ==> Kept(e)
      ensures old(Within()) ==> (Within() <==> LimitOf(limit, d) <= LimitsOf(cfg.value, d).maximum)
      ensures LimitOf(old(limit), d) > 0 >= LimitOf(limit, d) ==> Bw in Of(d).suspended
      ensures LimitOf(old(limit), d) <= 0 < LimitOf(limit, d) ==> Bw !in Of(d).suspended
      ensures (LimitOf(old(limit), d) > 0 <==> LimitOf(limit, d) > 0) ==> Of(d) == old(Of(d))
    {
      OtherFlags(read, Bw);
      OtherFlags(write, Bw);
      SameFlags(read, Bw);
      SameFlags(write, Bw);
      hide OnlyFlag;
      var was := LimitOf(limit, d);
      var now := was - decr;
      limit := WithLimit(limit, d, now);
      if was > 0 && now <= 0 {
        Suspend(d, Bw);
        refillPending := true;
      } else if was <= 0 && now > 0 {
        if Bw !in Of(if d == Read then Write else Read).suspended {
          refillPending := false;
        }
        Unsuspend(d, Bw);
      }
    }

    // A bucket refilled by hand beyond its maximum grows on with the next tick.
    static method OverfullGrows() returns (b: Bufferevent)
      ensures fresh(b) && b.Valid()
      ensures b.cfg == Some(Cfg(Limits(1, 10), Limits(1, 10), 1000)) && b.limit == Bucket(21, 1, 0)
      ensures Updated(b.limit, b.cfg.value, 1).read == 22 > Min(10, 21 + 1)
    {
      b := new Bufferevent();
      b.SetRateLimit(Some(Cfg(Limits(1, 10), Limits(1, 10), 1000)), false, 0);
      b.DecrementLimit(Read, -20);
    }

    // A rate and a maximum of 2^62, one token more by hand, and one tick: the bucket is
    // empty, and nothing waits.
    static method OverfullSinks() returns (b: Bufferevent)
      ensures fresh(b) && b.Valid() && b.limit.read == 1 - 0x8000_0000_0000_0000 && !b.Kept(Read)
    {
      var l := Limits(0x4000_0000_0000_0000, 0x4000_0000_0000_0000);
      b := new Bufferevent();
      b.SetRateLimit(Some(Cfg(l, l, 1000)), false, 0);
      b.DecrementLimit(Read, -1);
      b.UpdateBuckets(1);
    }

    // The part of _bufferevent_decrement_read_buckets (and its twin) about this
    // bufferevent alone.
    method DecrementOwn(d: Dir, bytes: nat)
      requires Valid() && (cfg.Some? ==> InSsize(LimitOf(limit, d) - bytes))
      modifies this`limit, this`read, this`write, this`refillPending
      ensures Valid() && OnlyFlag(old(read), read, Bw) && OnlyFlag(old(write), write, Bw)
      ensures forall e :: e != d ==> Of(e) == old(Of(e))
      ensures old(Within()) ==> Within()
      ensures cfg.None? ==> limit == old(limit) && read == old(read) && write == old(write)
      ensures cfg.Some? ==> limit == WithLimit(old(limit), d, LimitOf(old(limit), d) - bytes)
      ensures cfg.Some? ==> (Bw in Of(d).suspended <==> LimitOf(limit, d) <= 0)
    {
      OtherFlags(read, Bw);
      OtherFlags(write, Bw);
      if cfg.Some? {
        limit := WithLimit(limit, d, LimitOf(limit, d) - bytes);
        if LimitOf(limit, d) <= 0 {
          Suspend(d, Bw);
          refillPending := true;
        } else if Bw in Of(d).suspended {
          if Bw !in Of(if d == Read then Write else Read).suspended {
            refillPending := false;
          }
          Unsuspend(d, Bw);
        }
      }
    }

    // _bev_refill_callback, run by the refill timer
    method Refill(tick: nat)
      requires Valid() && refillPending && tick < TWO32
      modifies this`limit, this`read, this`write, this`refillPending
      ensures Valid() && cfg.Some? && limit == Updated(old(limit), cfg.value, tick)
      ensures forall d :: Bw in Of(d).suspended <==> Bw in old(Of(d)).suspended && LimitOf(limit, d) <= 0
      ensures old(Within()) ==> Within()
      ensures forall d :: old(Kept(d)) ==>
        (Kept(d) <==> Bw in old(Of(d)).suspended || !UpdateSinks(old(limit), cfg.value, tick, d))
    {
      WhenUpdated(tick);
      hide Updated, UpdateSinks;
      refillPending := false;
      var again := false;
      limit := Updated(limit, cfg.value, tick);
      if Bw in read.suspended {
        if limit.read > 0 {
          Unsuspend(Read, Bw);
        } else {
          again := true;
        }
      }
      if Bw in write.suspended {
        if limit.write > 0 {
          Unsuspend(Write, Bw);
        } else {
          again := true;
        }
      }
      if again {
        refillPending := true;
      }
    }

    // bufferevent_set_rate_limit; same says that newCfg is the configuration object
    // already in use.
    method SetRateLimit(newCfg: Option<Cfg>, same: bool, tick: nat)
      requires Valid() && (newCfg.Some? ==> ValidCfg(newCfg.value)) && tick < TWO32
      requires same ==> newCfg.Some? && newCfg == cfg
      modifies this`limit, this`read, this`write, this`refillPending, this`cfg, this`rateLimiting
      ensures Valid() && cfg == newCfg
      ensures newCfg.Some? && !same ==> limit == Initial(old(limit), newCfg.value, tick, old(cfg).Some?)
      ensures newCfg.Some? && !same ==> forall d :: Bw in Of(d).suspended <==> LimitOf(limit, d) <= 0
      ensures newCfg.Some? && !same ==> Within()
      ensures same ==> limit == old(limit) && read == old(read) && write == old(write)
    {
      if newCfg.None? {
        if rateLimiting {
          cfg := None;
          Unsuspend(Read, Bw);
          Unsuspend(Write, Bw);
          refillPending := false;
        }
        return;
      }
      if same {
        return;
      }
      rateLimiting := true;
      var reinit := cfg.Some?;
      cfg := newCfg;
      limit := Initial(limit, newCfg.value, tick, reinit);
      if reinit {
        refillPending := false;
      }
      var suspended := false;
      if limit.read > 0 {
        Unsuspend(Read, Bw);
      } else {
        Suspend(Read, Bw);
        suspended := true;
      }
      if limit.write > 0 {
        Unsuspend(Write, Bw);
      } else {
        Suspend(Write, Bw);
        suspended := true;
      }
      if suspended {
        refillPending := true;
      }
    }
  }

  // Suspension of a whole group in one direction: whether it is on, and whether some
  // member could not be released because its lock was taken.
  datatype Flags = Flags(suspended: bool, pending: bool)

  // C division, toward zero.
  function TruncDiv(a: int, n: int): (q: int)
    requires n > 0
    ensures if a >= 0 then 0 <= a - n * q < n else -n < a - n * q <= 0
  {
    if a >= 0 then a / n else -(-a / n)
  }

  class Group {
    var cfg: Cfg
    var limit: Bucket
    var read: Flags
    var write: Flags
    var minShare: nat
    var configuredMinShare: nat
    var members: seq<Bufferevent>

    function Of(d: Dir): Flags
      reads this`read, this`write
    {
      if d == Read then read else write
    }

    // Each member once, each knowing its group.
    ghost predicate Enrolled()
      reads this`members, members`group
    {
      && (forall i, j :: 0 <= i < j < |members| ==> members[i] != members[j])
      && (forall m :: m in members ==> m.group == this)
    }

    // No member is held back by a group that would not release it.
    ghost predicate NoneForgotten(d: Dir)
      reads this`read, this`write, this`members, members`read, members`write
    {
      forall m :: m in members && BwGroup in m.Of(d).suspended ==> Of(d).suspended || Of(d).pending
    }

    ghost predicate Valid()
      reads this, members
    {
      && Enrolled() && (forall m :: m in members ==> m.Valid())
      && NoneForgotten(Read) && NoneForgotten(Write)
      && !(read.suspended && read.pending) && !(write.suspended && write.pending)
      && ValidCfg(cfg) && ValidBucket(limit)
      && minShare <= cfg.read.rate && minShare <= cfg.write.rate
    }

    // Without tokens the group is suspended.
    predicate Kept(d: Dir)
      reads this`limit, this`read, this`write
    {
      LimitOf(limit, d) <= 0 ==> Of(d).suspended
    }

    // bufferevent_rate_limit_group_new
    constructor (cfg: Cfg, tick: nat)
      requires ValidCfg(cfg) && tick < TWO32
      ensures Valid() && Kept(Read) && Kept(Write) && members == [] && this.cfg == cfg
      ensures limit == Bucket(cfg.read.rate, cfg.write.rate, tick) && NotOver(limit, cfg)
      ensures configuredMinShare == 64 && minShare == Min(64, Min(cfg.read.rate, cfg.write.rate)) > 0
      ensures read == Flags(false, false) && write == Flags(false, false)
    {
      this.cfg := cfg;
      limit := Initial(Bucket(0, 0, 0), cfg, tick, false);
      read, write, members := Flags(false, false), Flags(false, false), [];
      configuredMinShare := 64;
      var share := 64;
      if share > cfg.read.rate {
        share := cfg.read.rate;
      }
      if share > cfg.write.rate {
        share := cfg.write.rate;
      }
      minShare := share;
    }

    // bufferevent_rate_limit_group_set_min_share
    method SetMinShare(configured: nat) returns (r: int)
      requires Valid()
      modifies this`minShare, this`configuredMinShare
      ensures Valid() && (r == -1 || r == 0) && (r == -1 <==> configured > SSIZE_MAX)
      ensures r == 0 ==> configuredMinShare == configured
      ensures r == 0 ==> minShare == Min(configured, Min(cfg.read.rate, cfg.write.rate))
      ensures r == -1 ==> minShare == old(minShare) && configuredMinShare == old(configuredMinShare)
    {
      if configured > SSIZE_MAX {
        return -1;
      }
      configuredMinShare := configured;
      var share := configured;
      if share > cfg.read.rate {
        share := cfg.read.rate;
      }
      if share > cfg.write.rate {
        share := cfg.write.rate;
      }
      minShare := share;
      r := 0;
    }

    method SetFlags(d: Dir, f: Flags)
      modifies this`read, this`write
      ensures Of(d) == f && forall e :: e != d ==> Of(e) == old(Of(e))
    {
      if d == Read {
        read := f;
      } else {
        write := f;
      }
    }

    // _bev_group_suspend_reading and its twin. The locks of the members in busy are
    // taken.
    method SuspendMembers(d: Dir, busy: set<Bufferevent>)
      requires Enrolled()
      modifies this`read, this`write, members`read, members`write
      ensures Of(d) == Flags(true, false)
      ensures forall e :: e != d ==> Of(e) == old(Of(e)) && forall m :: m in members ==> m.Of(e) == old(m.Of(e))
      ensures forall m :: m in members ==>
        m.Of(d) == if m in busy then old(m.Of(d)) else Suspended(old(m.Of(d)), BwGroup)
    {
      SetFlags(d, Flags(true, false));
      var k := 0;
      while k < |members|
        invariant 0 <= k <= |members|
        invariant Of(d) == Flags(true, false) && forall e :: e != d ==> Of(e) == old(Of(e))
        invariant forall e, m :: e != d && m in members ==> m.Of(e) == old(m.Of(e))
        invariant forall i :: 0 <= i < k ==>
          members[i].Of(d) == if members[i] in busy then old(members[i].Of(d))
                              else Suspended(old(members[i].Of(d)), BwGroup)
        invariant forall i :: k <= i < |members| ==> members[i].Of(d) == old(members[i].Of(d))
      {
        if members[k] !in busy {
          members[k].Suspend(d, BwGroup);
        }
        k := k + 1;
      }
    }

    // _bev_group_unsuspend_reading and its twin, starting at a random member and going
    // around once.
    method UnsuspendMembers(d: Dir, busy: set<Bufferevent>, first: nat)
      requires Enrolled() && (members != [] ==> first < |members|)
      modifies this`read, this`write, members`read, members`write
      ensures Of(d) == Flags(false, exists m :: m in members && m in busy)
      ensures forall e :: e != d ==> Of(e) == old(Of(e)) && forall m :: m in members ==> m.Of(e) == old(m.Of(e))
      ensures forall m :: m in members ==>
        m.Of(d) == if m in busy then old(m.Of(d)) else Unsuspended(old(m.Of(d)), BwGroup)
    {
      hide Suspended, Unsuspended, InStep, Visited;
      VisitedAt(first, |members|);
      var again := false;
      SetFlags(d, Of(d).(suspended := false));
      var k, n := 0, |members|;
      while k < n
        invariant 0 <= k <= n == |members|
        invariant !Of(d).suspended && forall e :: e != d ==> Of(e) == old(Of(e))
        invariant forall e, m :: e != d && m in members ==> m.Of(e) == old(m.Of(e))
        invariant again <==> exists i :: 0 <= i < n && Visited(i, first, k, n) && members[i] in busy
        invariant forall i :: 0 <= i < n && Visited(i, first, k, n) ==>
          members[i].Of(d) == if members[i] in busy then old(members[i].Of(d))
                              else Unsuspended(old(members[i].Of(d)), BwGroup)
        invariant forall i :: 0 <= i < n && !Visited(i, first, k, n) ==> members[i].Of(d) == old(members[i].Of(d))
      {
        // first to the end of the list, then from its start up to first
        var i := if first + k < n then first + k else first + k - n;
        VisitedNext(i, first, k, n);
        var skipped := members[i].Release(d, busy);
        again := again || skipped;
        k := k + 1;
      }
      SetFlags(d, Of(d).(pending := again));
    }

    // Suspending or releasing a group keeps everything else.
    method SetSuspended(d: Dir, on: bool, busy: set<Bufferevent>, first: nat)
      requires Valid() && (members != [] ==> first < |members|)
      modifies this`read, this`write, members`read, members`write
      ensures Valid() && Of(d).suspended == on
      ensures forall e :: e != d ==> Of(e) == old(Of(e))
      ensures forall m, e :: m in members ==> OnlyFlag(old(m.Of(e)), m.Of(e), BwGroup)
      ensures forall m, e :: m in members && e != d ==> m.Of(e) == old(m.Of(e))
      ensures forall m :: m in members && m !in busy ==> (BwGroup in m.Of(d).suspended <==> on)
    {
      hide BevOk, InStep, OnlyFlag;
      forall m, e | m in members
        ensures OnlyFlag(m.Of(e), m.Of(e), BwGroup) && InStep(m.Of(e))
        ensures OnlyFlag(m.Of(e), Suspended(m.Of(e), BwGroup), BwGroup)
        ensures OnlyFlag(m.Of(e), Unsuspended(m.Of(e), BwGroup), BwGroup)
      {
        OtherFlags(m.Of(e), BwGroup);
        SameFlags(m.Of(e), BwGroup);
        OkInStep(m.read, m.write, m.rateLimiting, m.cfg, m.limit, m.refillPending, true);
      }
      assert Of(Read) == read && Of(Write) == write;
      if on {
        SuspendMembers(d, busy);
      } else {
        UnsuspendMembers(d, busy, first);
      }
      assert Of(Read) == read && Of(Write) == write;
      forall m | m in members
        ensures m.Valid()
      {
        assert m.read == m.Of(Read) && m.write == m.Of(Write);
        assert old(m.read) == old(m.Of(Read)) && old(m.write) == old(m.Of(Write));
        GroupFlagKeeps(old(m.read), old(m.write), m.read, m.write, m.rateLimiting, m.cfg, m.limit, m.refillPending);
      }
    }

    // bufferevent_rate_limit_group_decrement_read and its twin; a negative amount
    // refills by hand, and may leave a bucket above its maximum.
    method Decrement(d: Dir, decr: int, busy: set<Bufferevent>, first: nat)
      requires Valid() && (members != [] ==> first < |members|)
      requires InSsize(LimitOf(limit, d) - decr)
      modifies this`limit, this`read, this`write, members`read, members`write
      ensures Valid() && limit == WithLimit(old(limit), d, LimitOf(old(limit), d) - decr)
      ensures NotOver(old(limit), cfg) ==> (NotOver(limit, cfg) <==> LimitOf(limit, d) <= LimitsOf(cfg, d).maximum)
      ensures forall e :: e != d ==> Of(e) == old(Of(e))
      ensures Of(d).suspended <==>
        if LimitOf(old(limit), d) > 0 >= LimitOf(limit, d) then true
        else if LimitOf(old(limit), d) <= 0 < LimitOf(limit, d) then false
        else old(Of(d)).suspended
      ensures forall e :: old(Kept(e)) ==> Kept(e)
      ensures forall m, e :: m in members ==> OnlyFlag(old(m.Of(e)), m.Of(e), BwGroup)
    {
      MembersSame();
      hide OnlyFlag, BevOk;
      var was := LimitOf(limit, d);
      var now := was - decr;
      limit := WithLimit(limit, d, now);
      if was > 0 && now <= 0 {
        SetSuspended(d, true, busy, first);
      } else if was <= 0 && now > 0 {
        SetSuspended(d, false, busy, first);
      }
    }

    // The part of _bufferevent_decrement_read_buckets (and its twin) about the group.
    method DecrementShared(d: Dir, bytes: nat, busy: set<Bufferevent>, first: nat)
      requires Valid() && InSsize(LimitOf(limit, d) - bytes) && (members != [] ==> first < |members|)
      modifies this`limit, this`read, this`write, members`read, members`write
      ensures Valid() && limit == WithLimit(old(limit), d, LimitOf(old(limit), d) - bytes)
      ensures Of(d).suspended <==> LimitOf(limit, d) <= 0
      ensures forall e :: e != d ==> Of(e) == old(Of(e))
      ensures NotOver(old(limit), cfg) ==> NotOver(limit, cfg)
      ensures forall e :: old(Kept(e)) ==> Kept(e)
      ensures forall m, e :: m in members ==> OnlyFlag(old(m.Of(e)), m.Of(e), BwGroup)
    {
      MembersSame();
      hide OnlyFlag, BevOk;
      limit := WithLimit(limit, d, LimitOf(limit, d) - bytes);
      if LimitOf(limit, d) <= 0 {
        SetSuspended(d, true, busy, first);
      } else if Of(d).suspended {
        SetSuspended(d, false, busy, first);
      }
    }

    // _bev_group_refill_callback, once every tick. A suspension ends when the group can
    // afford the smallest share again; with a smallest share of zero this can be too
    // early.
    method Refill(tick: nat, busy: set<Bufferevent>, first: nat)
      requires Valid() && tick < TWO32 && (members != [] ==> first < |members|)
      modifies this`limit, this`read, this`write, members`read, members`write
      ensures Valid() && limit == Updated(old(limit), cfg, tick)
      ensures forall d :: old(Of(d)).pending || (old(Of(d)).suspended && LimitOf(limit, d) >= minShare) ==>
        !Of(d).suspended && forall m :: m in members && m !in busy ==> BwGroup !in m.Of(d).suspended
      ensures forall d :: old(Of(d)).suspended && LimitOf(limit, d) < minShare ==> Of(d) == old(Of(d))
      ensures forall d :: old(Kept(d)) ==>
        (Kept(d) <==> if old(Of(d)).suspended then !(LimitOf(limit, d) == 0 == minShare)
                      else !UpdateSinks(old(limit), cfg, tick, d))
      ensures NotOver(old(limit), cfg) ==> NotOver(limit, cfg)
      ensures forall m, e :: m in members ==> OnlyFlag(old(m.Of(e)), m.Of(e), BwGroup)
    {
      hide Valid, Updated, UpdateSinks, OnlyFlag;
      UpdateShared(tick);
      Reconsider(Read, busy, first);
      Reconsider(Write, busy, first);
    }

    lemma MembersSame()
      ensures forall m, e :: m in members ==> OnlyFlag(m.Of(e), m.Of(e), BwGroup)
    {
      forall m, e | m in members
        ensures OnlyFlag(m.Of(e), m.Of(e), BwGroup)
      {
        SameFlags(m.Of(e), BwGroup);
      }
    }

    method UpdateShared(tick: nat)
      requires Valid() && tick < TWO32
      modifies this`limit
      ensures Valid() && limit == Updated(old(limit), cfg, tick)
      ensures NotOver(old(limit), cfg) ==> NotOver(limit, cfg)
      ensures forall d :: LimitOf(old(limit), d) > 0 ==>
        (LimitOf(limit, d) > 0 <==> !UpdateSinks(old(limit), cfg, tick, d))
    {
      if NotOver(limit, cfg) {
        UpdateKeeps(limit, cfg, tick);
      }
      forall d | LimitOf(limit, d) > 0
        ensures LimitOf(Updated(limit, cfg, tick), d) > 0 <==> !UpdateSinks(limit, cfg, tick, d)
      {
        UpdatePositive(limit, cfg, tick, d);
      }
      hide Updated, UpdateSinks;
      limit := Updated(limit, cfg, tick);
    }

    // The end of a suspension in one direction, if its time has come.
    method Reconsider(d: Dir, busy: set<Bufferevent>, first: nat)
      requires Valid() && (members != [] ==> first < |members|)
      modifies this`read, this`write, members`read, members`write
      ensures Valid() && forall e :: e != d ==> Of(e) == old(Of(e))
      ensures forall m, e :: m in members && e != d ==> m.Of(e) == old(m.Of(e))
      ensures old(Of(d)).pending || (old(Of(d)).suspended && LimitOf(limit, d) >= minShare) ==>
        !Of(d).suspended && forall m :: m in members && m !in busy ==> BwGroup !in m.Of(d).suspended
      ensures old(Of(d)).suspended && LimitOf(limit, d) < minShare ==> Of(d) == old(Of(d))
      ensures Of(d).suspended == (old(Of(d)).suspended && LimitOf(limit, d) < minShare)
      ensures forall m :: m in members ==> OnlyFlag(old(m.Of(d)), m.Of(d), BwGroup)
    {
      MembersSame();
      hide OnlyFlag, BevOk;
      assert Of(d) == if d == Read then read else write;
      if Of(d).pending || (Of(d).suspended && LimitOf(limit, d) >= minShare) {
        SetSuspended(d, false, busy, first);
      }
    }

    // With a smallest share of zero the group starts again with an empty bucket.
    static method EmptyBucketReleased() returns (g: Group)
      ensures fresh(g) && g.Valid() && g.minShare == 0
      ensures g.limit.read == 0 && !g.read.suspended && !g.Kept(Read)
    {
      g := new Group(Cfg(Limits(10, 10), Limits(10, 10), 1000), 0);
      var r := g.SetMinShare(0);
      g.DecrementShared(Read, 20, {}, 0);
      assert g.Of(Read) == g.read;
      g.Refill(1, {}, 0);
      assert g.Of(Read) == g.read;
    }

    // The end of the list is where a new member goes.
    method Enroll(b: Bufferevent)
      requires Valid() && b.Valid() && b.group == null
      modifies this`members, b`group, b`read, b`write, b`rateLimiting
      ensures Valid() && b.Valid() && b.group == this && members == old(members) + [b]
      ensures OnlyFlag(old(b.read), b.read, BwGroup) && OnlyFlag(old(b.write), b.write, BwGroup)
      ensures forall d :: BwGroup in b.Of(d).suspended <==> Of(d).suspended
    {
      hide BevOk, InStep, OnlyFlag;
      assert b !in members;
      assert b.Valid();
      b.Join(this, read.suspended, write.suspended);
      members := members + [b];
    }

    // bufferevent_add_to_rate_limit_group
    method AddMember(b: Bufferevent)
      requires Valid() && b.Valid() && (b.group != null ==> b.group.Valid() && b in b.group.members)
      modifies this`members, b`group, b`read, b`write, b`rateLimiting
      modifies (if b.group != null then {b.group} else {})`members
      ensures Valid() && b.Valid() && b.group == this
      ensures old(b.group) == this ==> members == old(members)
      ensures old(b.group) != this ==> members == old(members) + [b]
      ensures old(b.group) != this ==> forall d :: BwGroup in b.Of(d).suspended <==> Of(d).suspended
      ensures old(b.group) != null && old(b.group) != this ==> old(b.group).Valid() && b !in old(b.group).members
    {
      hide BevOk;
      if b.group == this {
        return;
      }
      var g := b.group;
      if g != null {
        g.RemoveMember(b);
      }
      Enroll(b);
    }

    // bufferevent_remove_from_rate_limit_group
    method RemoveMember(b: Bufferevent)
      requires Valid() && b in members
      modifies this`members, b`group, b`read, b`write
      ensures Valid() && b.Valid() && b.group == null && b !in members
      ensures forall m :: m in members <==> m in old(members) && m != b
      ensures OnlyFlag(old(b.read), b.read, BwGroup) && OnlyFlag(old(b.write), b.write, BwGroup)
    {
      hide BevOk, InStep, OnlyFlag;
      var k := IndexOf(b);
      ghost var was := members;
      members := members[..k] + members[k + 1..];
      assert forall m :: m in members <==> m in was && m != b;
      b.Leave();
    }

    method IndexOf(b: Bufferevent) returns (k: nat)
      requires b in members
      ensures k < |members| && members[k] == b
    {
      k := 0;
      while members[k] != b
        invariant k < |members| && b in members[k..]
        decreases |members| - k
      {
        k := k + 1;
      }
    }
  }

  lemma OkCfg(r: Half, w: Half, rateLimiting: bool, cfg: Option<Cfg>, limit: Bucket, refillPending: bool, grouped: bool)
    requires BevOk(r, w, rateLimiting, cfg, limit, refillPending, grouped)
    ensures cfg.Some? ==> rateLimiting && ValidCfg(cfg.value)
  {
  }

  // A member that was not suspended with its group, because its lock was taken, is now.
  method HoldBack(b: Bufferevent, d: Dir)
    requires b.Valid() && b.group != null && b.group.Valid() && b in b.group.members && b.group.Of(d).suspended
    modifies b`read, b`write
    ensures b.Valid() && b.group.Valid() && BwGroup in b.Of(d).suspended
    ensures forall e :: Bw in b.Of(e).suspended <==> Bw in old(b.Of(e)).suspended
  {
    hide BevOk, InStep, OnlyFlag;
    OtherFlags(b.read, BwGroup);
    OtherFlags(b.write, BwGroup);
    SameFlags(b.read, BwGroup);
    SameFlags(b.write, BwGroup);
    OkInStep(b.read, b.write, b.rateLimiting, b.cfg, b.limit, b.refillPending, true);
    b.Suspend(d, BwGroup);
    GroupFlagKeeps(old(b.read), old(b.write), b.read, b.write, b.rateLimiting, b.cfg, b.limit, b.refillPending);
    OnlyOther(old(b.read), b.read, old(b.write), b.write, d);
  }

  lemma OnlyOther(r: Half, r': Half, w: Half, w': Half, d: Dir)
    requires r' == (if d == Read then Suspended(r, BwGroup) else r)
    requires w' == (if d == Write then Suspended(w, BwGroup) else w)
    ensures d != Read ==> (BwGroup in r'.suspended <==> BwGroup in r.suspended)
    ensures d != Write ==> (BwGroup in w'.suspended <==> BwGroup in w.suspended)
  {
  }

  // The part of _bufferevent_get_rlim_max about the group.
  method Share(b: Bufferevent, d: Dir) returns (share: int)
    requires b.Valid() && b.group != null && b.group.Valid() && b in b.group.members
    modifies b`read, b`write
    ensures b.Valid() && b.group.Valid() && share == ShareOf(b.group, d)
    ensures b.group.Of(d).suspended ==> share == 0 && BwGroup in b.Of(d).suspended
    ensures forall e :: Bw in b.Of(e).suspended <==> Bw in old(b.Of(e)).suspended
  {
    hide BevOk, InStep, OnlyFlag;
    var g := b.group;
    share := 0;
    if g.Of(d).suspended {
      HoldBack(b, d);
    } else {
      share := TruncDiv(LimitOf(g.limit, d), |g.members|);
      if share < g.minShare {
        share := g.minShare;
      }
    }
  }

  // _bufferevent_get_rlim_max: what b may read or write now.
  method GetMax(b: Bufferevent, d: Dir, tick: nat) returns (max: int)
    requires b.Valid() && tick < TWO32 && (b.group != null ==> b.group.Valid() && b in b.group.members)
    modifies b`limit, b`read, b`write
    ensures b.Valid() && (b.group != null ==> b.group.Valid())
    ensures b.cfg.Some? ==> b.limit == Updated(old(b.limit), b.cfg.value, tick)
    ensures b.cfg.None? ==> b.limit == old(b.limit)
    ensures old(b.Within()) ==> b.Within()
    ensures forall e :: old(b.Kept(e)) ==>
      (b.Kept(e) <==> b.cfg.None? || Bw in old(b.Of(e)).suspended || !UpdateSinks(old(b.limit), b.cfg.value, tick, e))
    ensures var own := if b.cfg.Some? then LimitOf(b.limit, d) else 16384;
      max == Allowed(if b.group == null then own else Min(own, ShareOf(b.group, d)))
    ensures b.group != null && b.group.Of(d).suspended ==> max == 0 && BwGroup in b.Of(d).suspended
  {
    hide BevOk, InStep, OnlyFlag, Updated, UpdateSinks;
    max := MAX_EVER;
    OkInStep(b.read, b.write, b.rateLimiting, b.cfg, b.limit, b.refillPending, b.group != null);
    OkCfg(b.read, b.write, b.rateLimiting, b.cfg, b.limit, b.refillPending, b.group != null);
    if !b.rateLimiting {
      return;
    }
    if b.cfg.Some? {
      b.UpdateBuckets(tick);
      max := LimitOf(b.limit, d);
    }
    if b.group != null {
      var share := Share(b, d);
      if max > share {
        max := share;
      }
    }
    if max < 0 {
      max := 0;
    }
  }

  // _bufferevent_decrement_read_buckets and its twin: bytes were read or written.
  method DecrementBuckets(b: Bufferevent, d: Dir, bytes: nat, busy: set<Bufferevent>, first: nat)
    requires b.Valid() && (b.cfg.Some? ==> InSsize(LimitOf(b.limit, d) - bytes))
    requires b.group != null ==>
      && b.group.Valid() && b in b.group.members && first < |b.group.members|
      && InSsize(LimitOf(b.group.limit, d) - bytes)
    modifies b`limit, b`read, b`write, b`refillPending
    modifies (if b.group != null then {b.group} else {})`limit, (if b.group != null then {b.group} else {})`read,
      (if b.group != null then {b.group} else {})`write
    modifies (if b.group != null then b.group.members else [])`read
    modifies (if b.group != null then b.group.members else [])`write
    ensures b.Valid() && (b.group != null ==> b.group.Valid())
    ensures b.cfg.Some? ==> b.limit == WithLimit(old(b.limit), d, LimitOf(old(b.limit), d) - bytes)
    ensures b.cfg.Some? ==> (Bw in b.Of(d).suspended <==> LimitOf(b.limit, d) <= 0)
    ensures forall e :: old(b.Kept(e)) ==> b.Kept(e)
    ensures old(b.Within()) ==> b.Within()
    ensures b.group != null ==> forall e :: old(b.group.Kept(e)) ==> b.group.Kept(e)
    ensures b.group != null ==> (b.group.Of(d).suspended <==> LimitOf(b.group.limit, d) <= 0)
    ensures b.group != null ==>
      b.group.limit == WithLimit(old(b.group.limit), d, LimitOf(old(b.group.limit), d) - bytes)
  {
    hide BevOk, InStep, OnlyFlag;
    if b.rateLimiting {
      b.DecrementOwn(d, bytes);
      FlagKept(old(b.read), b.read, Bw, BwGroup);
      FlagKept(old(b.write), b.write, Bw, BwGroup);
      if b.group != null {
        ghost var r, w := b.Of(Read), b.Of(Write);
        b.group.DecrementShared(d, bytes, busy, first);
        FlagKept(r, b.Of(Read), BwGroup, Bw);
        FlagKept(w, b.Of(Write), BwGroup, Bw);
      }
    } else {
      OkCfg(b.read, b.write, b.rateLimiting, b.cfg, b.limit, b.refillPending, b.group != null);
      OkInStep(b.read, b.write, b.rateLimiting, b.cfg, b.limit, b.refillPending, b.group != null);
    }
  }

  // ---- A bound on what a bufferevent passes --------------------------------------------

  // At the given tick the user would read or write so much.
  datatype Use = Use(d: Dir, tick: nat, wanted: nat)

  predicate InTime(uses: seq<Use>)
  {
    forall i, j :: 0 <= i < j < |uses| ==> uses[i].tick <= uses[j].tick
  }

  // What passed in one direction, and when.
  function Transfers(uses: seq<Use>, passed: seq<nat>, d: Dir): (ts: seq<Transfer>)
    requires |passed| <= |uses|
  {
    seq(|passed|, k requires 0 <= k < |passed| =>
      Transfer(uses[k].tick, if uses[k].d == d then passed[k] else 0))
  }

  // What passed in direction d from use i up to use j.
  function PassedIn(uses: seq<Use>, passed: seq<nat>, d: Dir, i: nat, j: nat): nat
    requires i <= j <= |passed| <= |uses|
  {
    if i == j then 0
    else PassedIn(uses, passed, d, i, j - 1) + if uses[j - 1].d == d then passed[j - 1] else 0
  }

  // Ticks without wrap-around; what the bucket makes of one is what AfterUpdate says.
  lemma UpdatedAs(b: Bucket, c: Cfg, last: nat, tick: nat, d: Dir)
    requires ValidBucket(b) && ValidCfg(c) && NotOver(b, c) && last % TWO32 == b.lastUpdated
    ensures var u, a := Updated(b, c, tick % TWO32), AfterUpdate(LimitOf(b, d), LimitsOf(c, d), last, tick);
      LimitOf(u, d) == a.0 && u.lastUpdated == a.1 % TWO32
  {
  }

  // The bucket b obeyed the limits from start on, and is what that left behind.
  ghost predicate Tracked(start: Bucket, c: Cfg, uses: seq<Use>, passed: seq<nat>, b: Bucket, last: nat)
    requires ValidBucket(start) && ValidCfg(c) && NotOver(start, c) && |passed| <= |uses|
  {
    && last % TWO32 == b.lastUpdated
    && forall d :: var ts := Transfers(uses, passed, d);
         && Obeys(LimitOf(start, d), LimitsOf(c, d), start.lastUpdated, 0, ts)
         && After(LimitOf(start, d), LimitsOf(c, d), start.lastUpdated, 0, ts) == (LimitOf(b, d), last)
  }

  lemma TrackedMore(start: Bucket, c: Cfg, uses: seq<Use>, passed: seq<nat>, b: Bucket, last: nat, bytes: nat,
                    b': Bucket)
    returns (last': nat)
    requires ValidBucket(start) && ValidCfg(c) && NotOver(start, c) && ValidBucket(b) && NotOver(b, c)
    requires |passed| < |uses| && InTime(uses) && Tracked(start, c, uses, passed, b, last)
    requires var use := uses[|passed|]; var u := Updated(b, c, use.tick % TWO32);
      bytes <= Allowed(LimitOf(u, use.d)) && b' == WithLimit(u, use.d, LimitOf(u, use.d) - bytes)
    ensures Tracked(start, c, uses, passed + [bytes], b', last')
  {
    hide AfterUpdate, Updated, Obeys, After;
    var use := uses[|passed|];
    last' := AfterUpdate(b.read, c.read, last, use.tick).1;
    UpdatedAs(b, c, last, use.tick, Read);
    SameLast(b.read, c.read, b.write, c.write, last, use.tick);
    forall d
      ensures var ts := Transfers(uses, passed + [bytes], d);
        && Obeys(LimitOf(start, d), LimitsOf(c, d), start.lastUpdated, 0, ts)
        && After(LimitOf(start, d), LimitsOf(c, d), start.lastUpdated, 0, ts) == (LimitOf(b', d), last')
    {
      UpdatedAs(b, c, last, use.tick, d);
      var ts, t := Transfers(uses, passed, d), Transfer(use.tick, if use.d == d then bytes else 0);
      assert Transfers(uses, passed + [bytes], d) == ts + [t];
      ObeysMore(LimitOf(start, d), LimitsOf(c, d), start.lastUpdated, 0, ts, t);
    }
  }

  lemma SameLast(r: int, lr: Limits, w: int, lw: Limits, last: nat, tick: nat)
    requires InSsize(r) && r <= lr.maximum && ValidLimits(lr) && InSsize(w) && w <= lw.maximum && ValidLimits(lw)
    ensures AfterUpdate(r, lr, last, tick).1 == AfterUpdate(w, lw, last, tick).1
  {
  }

  lemma {:induction false} PassedTotal(uses: seq<Use>, passed: seq<nat>, d: Dir, i: nat, j: nat)
    requires i <= j <= |passed| <= |uses|
    ensures PassedIn(uses, passed, d, i, j) == Total(Transfers(uses, passed, d)[i..j])
    decreases j - i
  {
    var ts := Transfers(uses, passed, d);
    if i < j {
      PassedTotal(uses, passed, d, i, j - 1);
      assert ts[i..j] == ts[i..j - 1] + [ts[j - 1]];
      TotalMore(ts[i..j - 1], ts[j - 1]);
    }
  }

  lemma {:induction false} TotalMore(ts: seq<Transfer>, t: Transfer)
    ensures Total(ts + [t]) == Total(ts) + t.bytes
  {
    if ts == [] {
      assert ts + [t] == [t];
    } else {
      assert (ts + [t])[1..] == ts[1..] + [t];
      TotalMore(ts[1..], t);
    }
  }

  // What may be charged to a bucket with tokens fits it: no more than it holds, or a share.
  lemma ChargeFits(limit: int, n: int, minShare: nat, bytes: nat)
    requires InSsize(limit) && limit > 0 && n > 0 && minShare <= SSIZE_MAX
    requires bytes <= (if TruncDiv(limit, n) < minShare then minShare else TruncDiv(limit, n))
    ensures InSsize(limit - bytes)
  {
    QuotientBelow(limit, n, limit + 1);
    assert limit < n * (limit + 1) by { Monotone(limit + 1, 1, n); }
  }

  // A bufferevent and its group, with their limits in order.
  ghost predicate Ready(b: Bufferevent, first: nat)
    reads b, if b.group != null then {b.group} else {}, if b.group != null then b.group.members else []
  {
    && b.Valid() && b.cfg.Some? && b.Within()
    && (b.group != null ==>
          && b.group.Valid() && b in b.group.members && first < |b.group.members|
          && b.group.Kept(Read) && b.group.Kept(Write))
  }

  lemma BucketFits(b: Bufferevent)
    requires b.Valid() && b.cfg.Some?
    ensures ValidBucket(b.limit) && ValidCfg(b.cfg.value)
  {
  }

  lemma ShareFits(g: Group, d: Dir, bytes: nat)
    requires g.Valid() && g.members != [] && g.Kept(d) && bytes <= Allowed(ShareOf(g, d))
    ensures InSsize(LimitOf(g.limit, d) - bytes)
  {
    if !g.Of(d).suspended {
      ChargeFits(LimitOf(g.limit, d), |g.members|, g.minShare, bytes);
    }
  }

  // One use: ask what may pass, and pass no more.
  method PassOne(b: Bufferevent, use: Use, busy: set<Bufferevent>, first: nat) returns (bytes: nat)
    requires Ready(b, first)
    modifies b`limit, b`read, b`write, b`refillPending
    modifies (if b.group != null then {b.group} else {})`limit, (if b.group != null then {b.group} else {})`read,
      (if b.group != null then {b.group} else {})`write
    modifies (if b.group != null then b.group.members else [])`read
    modifies (if b.group != null then b.group.members else [])`write
    ensures Ready(b, first) && bytes <= use.wanted && ValidBucket(b.limit)
    ensures ValidBucket(old(b.limit)) && ValidCfg(b.cfg.value)
    ensures var u := Updated(old(b.limit), b.cfg.value, use.tick % TWO32);
      bytes <= Allowed(LimitOf(u, use.d)) && b.limit == WithLimit(u, use.d, LimitOf(u, use.d) - bytes)
  {
    BucketFits(b);
    hide Updated, BevOk, TruncDiv, Group.Valid;
    var max := GetMax(b, use.d, use.tick % TWO32);
    BucketFits(b);
    bytes := if use.wanted < max then use.wanted else max;
    if b.group != null {
      ShareFits(b.group, use.d, bytes);
    }
    DecrementBuckets(b, use.d, bytes, busy, first);
    BucketFits(b);
  }

  // Asking what may pass and then passing no more, in either direction, over any time:
  // in every window of a run at most the maximum and the rate for each tick of it pass,
  // for each direction.
  method PassAlong(b: Bufferevent, uses: seq<Use>, busy: set<Bufferevent>, first: nat) returns (passed: seq<nat>)
    requires Ready(b, first) && InTime(uses)
    modifies b`limit, b`read, b`write, b`refillPending
    modifies (if b.group != null then {b.group} else {})`limit, (if b.group != null then {b.group} else {})`read,
      (if b.group != null then {b.group} else {})`write
    modifies (if b.group != null then b.group.members else [])`read
    modifies (if b.group != null then b.group.members else [])`write
    ensures Ready(b, first) && |passed| == |uses| && forall k :: 0 <= k < |uses| ==> passed[k] <= uses[k].wanted
    ensures forall d, i, j :: 0 <= i < j <= |uses| ==>
      PassedIn(uses, passed, d, i, j) <=
        LimitsOf(b.cfg.value, d).maximum + LimitsOf(b.cfg.value, d).rate * (uses[j - 1].tick - uses[i].tick)
  {
    BucketFits(b);
    hide Updated, Tracked, Bufferevent.Valid, Group.Valid, PassedIn;
    ghost var start, c, last := b.limit, b.cfg.value, b.limit.lastUpdated;
    TrackedNone(start, c, uses);
    passed := [];
    for k := 0 to |uses|
      invariant Ready(b, first) && b.cfg == Some(c) && b.group == old(b.group) && |passed| == k
      invariant ValidBucket(start) && ValidCfg(c) && NotOver(start, c)
      invariant forall i :: 0 <= i < k ==> passed[i] <= uses[i].wanted
      invariant Tracked(start, c, uses, passed, b.limit, last)
    {
      ghost var was := b.limit;
      var bytes := PassOne(b, uses[k], busy, first);
      last := TrackedMore(start, c, uses, passed, was, last, bytes, b.limit);
      passed := passed + [bytes];
    }
    AllWindows(start, c, uses, passed, b.limit, last);
  }

  lemma TrackedNone(start: Bucket, c: Cfg, uses: seq<Use>)
    requires ValidBucket(start) && ValidCfg(c) && NotOver(start, c)
    ensures Tracked(start, c, uses, [], start, start.lastUpdated)
  {
    hide AfterUpdate;
  }

  lemma {:induction false} AllWindows(start: Bucket, c: Cfg, uses: seq<Use>, passed: seq<nat>, b: Bucket, last: nat)
    requires ValidBucket(start) && ValidCfg(c) && NotOver(start, c) && |passed| == |uses|
    requires Tracked(start, c, uses, passed, b, last)
    ensures forall d, i, j :: 0 <= i < j <= |uses| ==>
      PassedIn(uses, passed, d, i, j) <=
        LimitsOf(c, d).maximum + LimitsOf(c, d).rate * (uses[j - 1].tick - uses[i].tick)
  {
    hide PassedIn, Obeys, After, Total;
    forall d, i, j | 0 <= i < j <= |uses|
      ensures PassedIn(uses, passed, d, i, j) <=
        LimitsOf(c, d).maximum + LimitsOf(c, d).rate * (uses[j - 1].tick - uses[i].tick)
    {
      var ts := Transfers(uses, passed, d);
      PassedTotal(uses, passed, d, i, j);
      WindowBound(LimitOf(start, d), LimitsOf(c, d), start.lastUpdated, 0, ts, i, j);
    }
  }

  // A member's part of its group's tokens, never less than the smallest share.
  function ShareOf(g: Group, d: Dir): (share: int)
    requires g.members != []
    reads g
    ensures g.Of(d).suspended ==> share == 0
    ensures !g.Of(d).suspended ==>
      var n, limit := |g.members|, LimitOf(g.limit, d);
      share >= g.minShare && (share == g.minShare || n * share <= limit) && (limit >= 0 ==> limit < n * (share + 1))
  {
    if g.Of(d).suspended then 0
    else
      var share := TruncDiv(LimitOf(g.limit, d), |g.members|);
      if share < g.minShare then g.minShare else share
  }

  // Among the first k members from first on, going around.
  predicate Visited(i: nat, first: nat, k: nat, n: nat)
  {
    first <= i < first + k || i + n < first + k
  }

  lemma VisitedAt(first: nat, n: nat)
    requires n > 0 ==> first < n
    ensures forall j :: 0 <= j < n ==> !Visited(j, first, 0, n) && Visited(j, first, n, n)
  {
  }

  lemma VisitedNext(i: nat, first: nat, k: nat, n: nat)
    requires first < n && k < n && i == if first + k < n then first + k else first + k - n
    ensures !Visited(i, first, k, n)
    ensures forall j :: 0 <= j < n ==> (Visited(j, first, k + 1, n) <==> Visited(j, first, k, n) || j == i)
  {
  }
}
