// Token buckets of bufferevent_ratelim.c on a machine with 64-bit size_t and ssize_t and
// 32-bit tick numbers.
module TokenBucket {
  import opened Bytes
  import opened Wrappers

  datatype Dir = Read | Write

  // The rate and the maximum of one direction.
  datatype Limits = Limits(rate: nat, maximum: nat)

  datatype Cfg = Cfg(read: Limits, write: Limits, msecPerTick: nat)

  datatype Bucket = Bucket(read: int, write: int, lastUpdated: nat)

  predicate ValidLimits(l: Limits)
  {
    1 <= l.rate <= l.maximum <= SSIZE_MAX
  }

  predicate ValidCfg(c: Cfg)
  {
    ValidLimits(c.read) && ValidLimits(c.write)
  }

  predicate InSsize(n: int)
  {
    -0x8000_0000_0000_0000 <= n <= SSIZE_MAX
  }

  predicate ValidBucket(b: Bucket)
  {
    InSsize(b.read) && InSsize(b.write) && b.lastUpdated < TWO32
  }

  // ev_token_bucket_cfg_new, on a successful allocation
  function CfgNew(readRate: nat, readBurst: nat, writeRate: nat, writeBurst: nat, msecPerTick: nat): (c: Option<Cfg>)
    ensures c.Some? ==> ValidCfg(c.value)
    ensures c.Some? <==> 1 <= readRate <= readBurst <= SSIZE_MAX && 1 <= writeRate <= writeBurst <= SSIZE_MAX
    ensures c.Some? ==> c.value.read.rate == readRate && c.value.read.maximum == readBurst
    ensures c.Some? ==> c.value.write.rate == writeRate && c.value.write.maximum == writeBurst
    ensures c.Some? ==> c.value.msecPerTick == msecPerTick
  {
    if readRate > readBurst || writeRate > writeBurst || readRate < 1 || writeRate < 1 then None
    else if readRate > SSIZE_MAX || writeRate > SSIZE_MAX || readBurst > SSIZE_MAX || writeBurst > SSIZE_MAX then None
    else Some(Cfg(Limits(readRate, readBurst), Limits(writeRate, writeBurst), msecPerTick))
  }

  // ---- Machine arithmetic -----------------------------------------------------------

  // Conversion to size_t and back to ssize_t.
  function ToSize(n: int): (u: nat)
    ensures u < TWO64
  {
    n % TWO64
  }

  function ToSsize(n: int): (s: int)
    ensures InSsize(s)
  {
    var u := n % TWO64;
    if u > SSIZE_MAX then u - TWO64 else u
  }

  // Unsigned 32-bit subtraction.
  function Minus32(a: nat, b: nat): (d: nat)
    ensures d < TWO32
  {
    (a as int - b) % TWO32
  }

  // One direction of ev_token_bucket_update after n ticks.
  function Refilled(limit: int, l: Limits, n: nat): (r: int)
    requires n > 0 && InSsize(limit) && ValidLimits(l)
    ensures InSsize(r)
  {
    if ToSize(l.maximum - limit) / n < l.rate then l.maximum
    else ToSsize(limit + ToSize(n * l.rate))
  }

  // ev_token_bucket_update
  function Updated(b: Bucket, c: Cfg, tick: nat): (r: Bucket)
    requires ValidBucket(b) && ValidCfg(c) && tick < TWO32
    ensures ValidBucket(r)
    ensures 0 < Minus32(tick, b.lastUpdated) <= INT_MAX ==> r.lastUpdated == tick
  {
    var n := Minus32(tick, b.lastUpdated);
    if n == 0 || n > INT_MAX then b
    else Bucket(Refilled(b.read, c.read, n), Refilled(b.write, c.write, n), tick)
  }

  // ev_token_bucket_init. A bucket in use is only clipped: a deficit and the time of the last
  // update stay.
  function Initial(b: Bucket, c: Cfg, tick: nat, reinitialize: bool): (r: Bucket)
    ensures reinitialize ==>
      && r.read == Min(b.read, c.read.maximum) && r.write == Min(b.write, c.write.maximum)
      && r.lastUpdated == b.lastUpdated
    ensures !reinitialize ==> r.read == c.read.rate && r.write == c.write.rate && r.lastUpdated == tick
  {
    if reinitialize then
      b.(read := if b.read > c.read.maximum then c.read.maximum else b.read,
         write := if b.write > c.write.maximum then c.write.maximum else b.write)
    else Bucket(c.read.rate, c.write.rate, tick)
  }

  // ---- What an update means -----------------------------------------------------------

  // Rounding down makes no difference to comparing with a whole rate.
  lemma QuotientBelow(d: nat, n: nat, rate: nat)
    requires n > 0
    ensures d / n < rate <==> d < n * rate
  {
    if d / n < rate {
      assert d < n * (d / n + 1);
      assert n * (d / n + 1) <= n * rate by { Monotone(n, d / n + 1, rate); }
    } else {
      assert n * rate <= n * (d / n) by { Monotone(n, rate, d / n); }
    }
  }

  lemma Monotone(n: nat, a: nat, b: nat)
    requires a <= b
    ensures n * a <= n * b
  {
  }

  // For a bucket that is not over its maximum the careful computation gives exactly the
  // naive result; for one that is, it does so exactly if the refill covers the distance
  // around the machine word.
  lemma RefillExact(limit: int, l: Limits, n: nat)
    requires 0 < n <= INT_MAX && InSsize(limit) && ValidLimits(l)
    ensures Refilled(limit, l, n) == Min(l.maximum, limit + n * l.rate) <==>
      limit <= l.maximum || n * l.rate >= TWO64 + l.maximum - limit
  {
    var d := ToSize(l.maximum - limit);
    var p := n * l.rate;
    QuotientBelow(d, n, l.rate);
    if limit <= l.maximum {
      assert d == l.maximum - limit;
    } else {
      assert d == TWO64 + l.maximum - limit;
    }
    if p <= d {
      NoWrap(limit, p);
    }
  }

  lemma NoWrap(limit: int, p: nat)
    requires InSsize(limit) && p < TWO64
    ensures ToSize(p) == p
    ensures limit + p <= SSIZE_MAX ==> ToSsize(limit + p) == limit + p
    ensures SSIZE_MAX < limit + p < TWO64 + SSIZE_MAX + 1 ==> ToSsize(limit + p) == limit + p - TWO64
  {
  }

  // For a bucket within its maxima the update adds the rate for each tick since the last one,
  // up to the maximum, and counts those ticks as used up; ticks that seem to lie behind the
  // last update count for nothing.
  lemma UpdatedIs(b: Bucket, c: Cfg, tick: nat)
    requires ValidBucket(b) && ValidCfg(c) && tick < TWO32
    requires b.read <= c.read.maximum && b.write <= c.write.maximum
    ensures var n := (tick - b.lastUpdated) % TWO32;
      Updated(b, c, tick) ==
        if n <= INT_MAX then
          Bucket(Min(c.read.maximum, b.read + n * c.read.rate), Min(c.write.maximum, b.write + n * c.write.rate), tick)
        else b
  {
    var n := Minus32(tick, b.lastUpdated);
    if 0 < n <= INT_MAX {
      RefillExact(b.read, c.read, n);
      RefillExact(b.write, c.write, n);
    }
  }

  // A bucket above its maximum whose refill leaves the range of ssize_t, but does not come
  // around to positive numbers again.
  predicate Sinks(limit: int, l: Limits, n: nat)
  {
    limit > l.maximum && SSIZE_MAX < limit + n * l.rate <= TWO64
  }

  // Exactly such a refill takes the last token of a bucket that has some.
  lemma StaysPositive(limit: int, l: Limits, n: nat)
    requires 0 < n <= INT_MAX && 0 < limit && InSsize(limit) && ValidLimits(l)
    ensures Refilled(limit, l, n) > 0 <==> !Sinks(limit, l, n)
  {
    var d, p := ToSize(l.maximum - limit), n * l.rate;
    QuotientBelow(d, n, l.rate);
    assert d == if limit <= l.maximum then l.maximum - limit else TWO64 + l.maximum - limit;
    if p <= d {
      NoWrap(limit, p);
    }
  }

  // ---- A bound on what passes -----------------------------------------------------------

  // What one direction may pass after the update: never a negative amount.
  function Allowed(limit: int): nat
  {
    if limit < 0 then 0 else limit
  }

  // At the given tick, some bytes pass.
  datatype Transfer = Transfer(tick: nat, bytes: nat)

  // Ticks counted without wrap-around; the bucket stores them modulo 2^32. The result is
  // the limit and the tick of the last update.
  function AfterUpdate(limit: int, l: Limits, last: nat, tick: nat): (r: (int, nat))
    requires InSsize(limit) && limit <= l.maximum && ValidLimits(l)
    ensures InSsize(r.0) && limit <= r.0 <= l.maximum
  {
    var n := Minus32(tick % TWO32, last % TWO32);
    if n == 0 || n > INT_MAX then (limit, last)
    else
      RefillExact(limit, l, n);
      assert n * l.rate >= 0;
      (Refilled(limit, l, n), tick)
  }

  // From the time now on, every transfer is no larger than what is allowed at its time.
  ghost predicate Obeys(limit: int, l: Limits, last: nat, now: nat, ts: seq<Transfer>)
    requires InSsize(limit) && limit <= l.maximum && ValidLimits(l)
    decreases |ts|
  {
    ts == [] ||
    (var u := AfterUpdate(limit, l, last, ts[0].tick);
     now <= ts[0].tick && ts[0].bytes <= Allowed(u.0) && Obeys(u.0 - ts[0].bytes, l, u.1, ts[0].tick, ts[1..]))
  }

  // The limit and the tick of the last update after such transfers.
  ghost function After(limit: int, l: Limits, last: nat, now: nat, ts: seq<Transfer>): (r: (int, nat))
    requires InSsize(limit) && limit <= l.maximum && ValidLimits(l) && Obeys(limit, l, last, now, ts)
    ensures InSsize(r.0) && r.0 <= l.maximum
    decreases |ts|
  {
    if ts == [] then (limit, last)
    else
      var u := AfterUpdate(limit, l, last, ts[0].tick);
      After(u.0 - ts[0].bytes, l, u.1, ts[0].tick, ts[1..])
  }

  // One more transfer.
  lemma {:induction false} ObeysMore(limit: int, l: Limits, last: nat, now: nat, ts: seq<Transfer>, t: Transfer)
    requires InSsize(limit) && limit <= l.maximum && ValidLimits(l) && Obeys(limit, l, last, now, ts)
    requires (if ts == [] then now else ts[|ts| - 1].tick) <= t.tick
    requires var s := After(limit, l, last, now, ts); t.bytes <= Allowed(AfterUpdate(s.0, l, s.1, t.tick).0)
    ensures Obeys(limit, l, last, now, ts + [t])
    ensures var s := After(limit, l, last, now, ts); var u := AfterUpdate(s.0, l, s.1, t.tick);
      After(limit, l, last, now, ts + [t]) == (u.0 - t.bytes, u.1)
    decreases |ts|
  {
    hide AfterUpdate;
    if ts == [] {
      assert ts + [t] == [t] && [t][1..] == [];
    } else {
      var u := AfterUpdate(limit, l, last, ts[0].tick);
      assert (ts + [t])[1..] == ts[1..] + [t];
      assert |ts| > 1 ==> ts[1..][|ts| - 2] == ts[|ts| - 1];
      ObeysMore(u.0 - ts[0].bytes, l, u.1, ts[0].tick, ts[1..], t);
    }
  }

  function Total(ts: seq<Transfer>): nat
  {
    if ts == [] then 0 else ts[0].bytes + Total(ts[1..])
  }

  // No refill for the ticks up to now is left to come.
  predicate Caught(last: nat, now: nat)
  {
    var n := Minus32(now % TWO32, last % TWO32);
    n == 0 || n > INT_MAX
  }

  lemma UpdateCatches(limit: int, l: Limits, last: nat, tick: nat)
    requires InSsize(limit) && limit <= l.maximum && ValidLimits(l)
    ensures Caught(AfterUpdate(limit, l, last, tick).1, tick)
  {
  }

  lemma ShiftedTick(last: nat, now: nat, e: nat)
    ensures Minus32((now + e) % TWO32, last % TWO32) == (Minus32(now % TWO32, last % TWO32) + e) % TWO32
  {
    var b := last % TWO32;
    DropTurns(now + e, -b);
    DropTurns(now, e - b);
    DropTurns(now % TWO32 - b, e);
  }

  lemma DropTurns(x: int, y: int)
    ensures (x % TWO32 + y) % TWO32 == (x + y) % TWO32
  {
  }

  lemma OneTurn(n: nat)
    requires n >= TWO32
    ensures n % TWO32 <= n - TWO32
  {
  }

  // Even when updates were skipped because the clock seemed to run backwards, a refill
  // never counts more ticks than went by.
  lemma TicksPassed(last: nat, now: nat, tick: nat)
    requires now <= tick && Caught(last, now) && !Caught(last, tick)
    ensures Minus32(tick % TWO32, last % TWO32) <= tick - now
  {
    var e := tick - now;
    var a := Minus32(now % TWO32, last % TWO32);
    var n := Minus32(tick % TWO32, last % TWO32);
    ShiftedTick(last, now, e);
    if a + e < TWO32 {
      assert n == a + e;
    } else {
      assert n <= a + e - TWO32 by { OneTurn(a + e); }
    }
  }

  // Between now and the last transfer, at most what the bucket held and what the ticks
  // put in can pass.
  lemma {:induction false} PassesAtMost(limit: int, l: Limits, last: nat, now: nat, ts: seq<Transfer>)
    requires InSsize(limit) && limit <= l.maximum && ValidLimits(l)
    requires Caught(last, now) && Obeys(limit, l, last, now, ts)
    ensures ts == [] || now <= ts[|ts| - 1].tick
    ensures Total(ts) <= Allowed(limit) + if ts == [] then 0 else l.rate * (ts[|ts| - 1].tick - now)
    decreases |ts|
  {
    if ts != [] {
      var t := ts[0].tick;
      var u := AfterUpdate(limit, l, last, t);
      UpdateCatches(limit, l, last, t);
      UpdateAdds(limit, l, last, now, t);
      PassesAtMost(u.0 - ts[0].bytes, l, u.1, t, ts[1..]);
      var end := ts[|ts| - 1].tick;
      assert |ts| > 1 ==> ts[1..][|ts| - 2] == ts[|ts| - 1];
      assert l.rate * (t - now) + l.rate * (end - t) == l.rate * (end - now);
    }
  }

  lemma UpdateAdds(limit: int, l: Limits, last: nat, now: nat, tick: nat)
    requires InSsize(limit) && limit <= l.maximum && ValidLimits(l) && now <= tick && Caught(last, now)
    ensures AfterUpdate(limit, l, last, tick).0 <= limit + l.rate * (tick - now)
  {
    if !Caught(last, tick) {
      var n := Minus32(tick % TWO32, last % TWO32);
      RefillExact(limit, l, n);
      TicksPassed(last, now, tick);
      Monotone(l.rate, n, tick - now);
      assert n * l.rate == l.rate * n;
    } else {
      Monotone(l.rate, 0, tick - now);
    }
  }

  // Bytes passed in any window of the run: the maximum and the rate for each tick of it.
  lemma {:induction false} WindowBound(limit: int, l: Limits, last: nat, now: nat, ts: seq<Transfer>, i: nat, j: nat)
    requires InSsize(limit) && limit <= l.maximum && ValidLimits(l)
    requires Obeys(limit, l, last, now, ts) && i < j <= |ts|
    ensures ts[i].tick <= ts[j - 1].tick
    ensures Total(ts[i..j]) <= l.maximum + l.rate * (ts[j - 1].tick - ts[i].tick)
    decreases i
  {
    hide AfterUpdate, Total;
    if i > 0 {
      var u := AfterUpdate(limit, l, last, ts[0].tick);
      WindowBound(u.0 - ts[0].bytes, l, u.1, ts[0].tick, ts[1..], i - 1, j - 1);
      assert ts[1..][i - 1..j - 1] == ts[i..j];
    } else {
      ObeysPrefix(limit, l, last, now, ts, j);
      FirstWindow(limit, l, last, now, ts[0..j]);
    }
  }

  lemma FirstWindow(limit: int, l: Limits, last: nat, now: nat, w: seq<Transfer>)
    requires InSsize(limit) && limit <= l.maximum && ValidLimits(l)
    requires w != [] && Obeys(limit, l, last, now, w)
    ensures w[0].tick <= w[|w| - 1].tick
    ensures Total(w) <= l.maximum + l.rate * (w[|w| - 1].tick - w[0].tick)
  {
    hide AfterUpdate, Caught;
    var u := AfterUpdate(limit, l, last, w[0].tick);
    UpdateCatches(limit, l, last, w[0].tick);
    PassesAtMost(u.0 - w[0].bytes, l, u.1, w[0].tick, w[1..]);
    assert |w| > 1 ==> w[1..][|w| - 2] == w[|w| - 1];
  }

  lemma {:induction false} ObeysPrefix(limit: int, l: Limits, last: nat, now: nat, ts: seq<Transfer>, j: nat)
    requires InSsize(limit) && limit <= l.maximum && ValidLimits(l)
    requires Obeys(limit, l, last, now, ts) && j <= |ts|
    ensures Obeys(limit, l, last, now, ts[0..j])
    decreases j
  {
    if j > 0 {
      var u := AfterUpdate(limit, l, last, ts[0].tick);
      ObeysPrefix(u.0 - ts[0].bytes, l, u.1, ts[0].tick, ts[1..], j - 1);
      assert ts[0..j][1..] == ts[1..][0..j - 1];
    }
  }

  // A deficit is paid back: after k ticks of one each the limit has risen by k times the
  // rate, or is at the maximum.
  function AfterTicks(limit: int, l: Limits, k: nat): (r: int)
    requires InSsize(limit) && limit <= l.maximum && ValidLimits(l)
    ensures InSsize(r) && r <= l.maximum
    ensures r == Min(l.maximum, limit + k * l.rate)
    decreases k
  {
    if k == 0 then limit
    else
      var q := AfterTicks(limit, l, k - 1);
      RefillExact(q, l, 1);
      assert k * l.rate == (k - 1) * l.rate + l.rate;
      Refilled(q, l, 1)
  }
}
