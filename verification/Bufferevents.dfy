/** Suspending and resuming the two directions of a bufferevent
    (deps/libevent/bufferevent.c), and its own rate limit (bufferevent_ratelim.c). */
module Bufferevents {
  import opened TokenBucket

  /** Why a direction may be suspended. */
  datatype Reason = WM | BW | BW_GROUP | LOOKUP | FILT_READ

  /** A direction: wanted by the user, suspended for some reasons, and whether the
      implementation was last told to enable it. */
  datatype Side = Side(enabled: bool, suspended: set<Reason>, armed: bool)

  /** Armed exactly when wanted and not suspended. */
  predicate SideOk(s: Side)
  {
    s.armed <==> s.enabled && s.suspended == {}
  }

  /** bufferevent_suspend_read and _write. */
  function Suspended(s: Side, what: Reason): (r: Side)
    ensures SideOk(s) ==> SideOk(r)
  {
    Side(s.enabled, s.suspended + {what}, if s.suspended == {} then false else s.armed)
  }

  /** bufferevent_unsuspend_read and _write. */
  function Unsuspended(s: Side, what: Reason): (r: Side)
    ensures SideOk(s) ==> SideOk(r)
  {
    Side(s.enabled, s.suspended - {what}, if s.suspended - {what} == {} && s.enabled then true else s.armed)
  }

  /** bufferevent_enable. */
  function Enabled(s: Side): (r: Side)
    ensures SideOk(s) ==> SideOk(r)
  {
    Side(true, s.suspended, if s.suspended == {} then true else s.armed)
  }

  /** bufferevent_disable. */
  function Disabled(s: Side): (r: Side)
    ensures SideOk(s) ==> SideOk(r)
  {
    Side(false, s.suspended, false)
  }

  datatype MaybeCfg = NoCfg | SomeCfg(id: nat, cfg: Cfg)

  const MAX_EVER := 16384

  function Limit(b: Bucket, isWrite: bool): int
  {
    if isWrite then b.writeLimit else b.readLimit
  }

  function WithLimit(b: Bucket, isWrite: bool, limit: int): (r: Bucket)
    ensures Limit(r, isWrite) == limit && Limit(r, !isWrite) == Limit(b, !isWrite) && r.lastUpdated == b.lastUpdated
  {
    if isWrite then b.(writeLimit := limit) else b.(readLimit := limit)
  }

  function RateOf(c: Cfg, isWrite: bool): Rate
  {
    if isWrite then c.write else c.read
  }

  class Bev {
    var rd: Side
    var wr: Side
    var rlim: MaybeCfg
    var bucket: Bucket
    /** The refill timer is pending. */
    var refill: bool
    var group: Group?

    function Get(isWrite: bool): Side
      reads this`rd, this`wr
    {
      if isWrite then wr else rd
    }

    /** Bandwidth stalls a direction when its bucket is empty, and the refill timer is pending
        exactly while a direction is stalled. */
    predicate BandwidthOk()
      reads `rd, `wr, `rlim, `bucket, `refill
    {
      match rlim
      case NoCfg => BW !in rd.suspended && BW !in wr.suspended && !refill
      case SomeCfg(_, c) =>
        && CfgOk(c) && BucketOk(bucket)
        && (bucket.readLimit <= 0 ==> BW in rd.suspended)
        && (bucket.writeLimit <= 0 ==> BW in wr.suspended)
        && (BW in rd.suspended || BW in wr.suspended <==> refill)
    }

    predicate Valid()
      reads `rd, `wr, `rlim, `bucket, `refill
    {
      SideOk(rd) && SideOk(wr) && BandwidthOk()
    }

    constructor ()
      ensures Valid() && rlim == NoCfg && group == null && rd == wr == Side(false, {}, false)
    {
      rd, wr := Side(false, {}, false), Side(false, {}, false);
      rlim, bucket, refill, group := NoCfg, Bucket(0, 0, 0), false, null;
    }

    method Suspend(isWrite: bool, what: Reason)
      modifies `rd, `wr
      ensures Get(isWrite) == Suspended(old(Get(isWrite)), what) && Get(!isWrite) == old(Get(!isWrite))
    {
      if isWrite {
        wr := Suspended(wr, what);
      } else {
        rd := Suspended(rd, what);
      }
    }

    method Unsuspend(isWrite: bool, what: Reason)
      modifies `rd, `wr
      ensures Get(isWrite) == Unsuspended(old(Get(isWrite)), what) && Get(!isWrite) == old(Get(!isWrite))
    {
      if isWrite {
        wr := Unsuspended(wr, what);
      } else {
        rd := Unsuspended(rd, what);
      }
    }

    /** An update at a time leaves no bucket empty that has not stalled its direction: only
        a refill that a credit has made too large for 64 bits does. */
    predicate Survives(now: nat)
      reads `rd, `wr, `rlim, `bucket
    {
      match rlim
      case NoCfg => true
      case SomeCfg(_, c) =>
        var n := TicksSince(bucket.lastUpdated, now);
        n == 0 || n > INT_MAX || (&& (BW in rd.suspended || Steady(bucket.readLimit, c.read, n))
                                  && (BW in wr.suspended || Steady(bucket.writeLimit, c.write, n)))
    }

    /** No credit has filled a bucket over its maximum: then every update survives. */
    predicate Capped()
      reads `rlim, `bucket
    {
      match rlim
      case NoCfg => true
      case SomeCfg(_, c) => WithinMaximum(bucket, c)
    }

    lemma NoLimitSurvives(now: nat)
      ensures rlim.NoCfg? ==> Survives(now)
    {
    }

    lemma CappedSurvives(now: nat)
      requires Capped()
      ensures Survives(now)
    {
    }

    /** What the bufferevent's own limit allows once its bucket is up to date. */
    function Allowance(isWrite: bool, now: nat): int
      reads `rlim, `bucket
    {
      match rlim
      case NoCfg => MAX_EVER
      case SomeCfg(_, c) => Limit(Updated(bucket, c, now), isWrite)
    }

    /** Held back or let go by its group. */
    method Hold(isWrite: bool, on: bool)
      requires Valid()
      modifies `rd, `wr
      ensures Valid() && Get(isWrite) == Marked(old(Get(isWrite)), on) && Get(!isWrite) == old(Get(!isWrite))
    {
      if on {
        Suspend(isWrite, BW_GROUP);
      } else {
        Unsuspend(isWrite, BW_GROUP);
      }
    }

    /** bufferevent_enable and bufferevent_disable. */
    method Enable(isWrite: bool, on: bool)
      requires Valid()
      modifies `rd, `wr
      ensures Valid() && Get(isWrite).enabled == on && Get(isWrite).suspended == old(Get(isWrite).suspended)
      ensures Get(!isWrite) == old(Get(!isWrite))
    {
      var s := if on then Enabled(Get(isWrite)) else Disabled(Get(isWrite));
      if isWrite {
        wr := s;
      } else {
        rd := s;
      }
    }

    /** bufferevent_inbuf_wm_cb, and what bufferevent_setwatermark does about reading. */
    method Watermark(length: nat, high: nat, setting: bool)
      requires Valid()
      modifies `rd, `wr
      ensures Valid() && wr == old(wr) && rd.enabled == old(rd.enabled)
      ensures rd.suspended - {WM} == old(rd.suspended) - {WM}
      ensures WM in rd.suspended <==>
        if setting && (high == 0 || length < high) then false
        else if setting && length == high then old(WM in rd.suspended)
        else length >= high
    {
      if !setting {
        if length >= high {
          Suspend(false, WM);
        } else {
          Unsuspend(false, WM);
        }
      } else if high > 0 {
        if length > high {
          Suspend(false, WM);
        } else if length < high {
          Unsuspend(false, WM);
        }
      } else {
        Unsuspend(false, WM);
      }
    }

    /** The bucket's part of _bufferevent_decrement_read_buckets and _write_buckets. */
    method DecrementBuckets(isWrite: bool, bytes: int)
      requires Valid() && (rlim.SomeCfg? ==> InRange(Limit(bucket, isWrite) - bytes))
      modifies this`rd, this`wr, this`bucket, this`refill
      ensures Valid() && Get(!isWrite) == old(Get(!isWrite)) && Get(isWrite).enabled == old(Get(isWrite).enabled)
      ensures rlim.NoCfg? ==> Get(isWrite) == old(Get(isWrite)) && bucket == old(bucket)
      ensures rlim.SomeCfg? ==> bucket == WithLimit(old(bucket), isWrite, Limit(old(bucket), isWrite) - bytes)
      ensures rlim.SomeCfg? ==> (BW in Get(isWrite).suspended <==> Limit(bucket, isWrite) <= 0)
      ensures Get(isWrite).suspended - {BW} == old(Get(isWrite).suspended) - {BW}
    {
      if rlim.SomeCfg? {
        bucket := WithLimit(bucket, isWrite, Limit(bucket, isWrite) - bytes);
        if Limit(bucket, isWrite) <= 0 {
          Suspend(isWrite, BW);
          refill := true;
        } else if BW in Get(isWrite).suspended {
          if BW !in Get(!isWrite).suspended {
            refill := false;
          }
          Unsuspend(isWrite, BW);
        }
      }
    }

    /** bufferevent_decrement_read_limit and _write_limit.  A negative decrement is a
        credit, which may fill the bucket over its maximum. */
    method DecrementLimit(isWrite: bool, decr: int)
      requires Valid() && rlim.SomeCfg? && InRange(Limit(bucket, isWrite) - decr)
      modifies this`rd, this`wr, this`bucket, this`refill
      ensures Valid() && Get(!isWrite) == old(Get(!isWrite)) && Get(isWrite).enabled == old(Get(isWrite).enabled)
      ensures bucket == WithLimit(old(bucket), isWrite, Limit(old(bucket), isWrite) - decr)
      ensures BW in Get(isWrite).suspended <==>
        Limit(bucket, isWrite) <= 0 || (Limit(old(bucket), isWrite) > 0 && old(BW in Get(isWrite).suspended))
      ensures Get(isWrite).suspended - {BW} == old(Get(isWrite).suspended) - {BW}
    {
      var oldLimit := Limit(bucket, isWrite);
      bucket := WithLimit(bucket, isWrite, oldLimit - decr);
      var newLimit := Limit(bucket, isWrite);
      if oldLimit > 0 && newLimit <= 0 {
        Suspend(isWrite, BW);
        refill := true;
      } else if oldLimit <= 0 && newLimit > 0 {
        if BW !in Get(!isWrite).suspended {
          refill := false;
        }
        Unsuspend(isWrite, BW);
      }
    }

    lemma UpdateKeeps(now: nat)
      requires Valid() && rlim.SomeCfg? && now < TWO32
      ensures var u := Updated(bucket, rlim.cfg, now);
        && BucketOk(u)
        && (Survives(now) <==> (u.readLimit <= 0 ==> BW in rd.suspended) && (u.writeLimit <= 0 ==> BW in wr.suspended))
        && (Capped() ==> WithinMaximum(u, rlim.cfg))
    {
      hide Refill;
      UpdatedOk(bucket, rlim.cfg, now);
      var n := TicksSince(bucket.lastUpdated, now);
      if 0 < n <= INT_MAX {
        RefillSteady(bucket.readLimit, rlim.cfg.read, n);
        RefillSteady(bucket.writeLimit, rlim.cfg.write, n);
      }
    }

    /** bufferevent_update_buckets. */
    method UpdateBuckets(now: nat)
      requires Valid() && rlim.SomeCfg? && now < TWO32
      modifies this`bucket
      ensures bucket == Updated(old(bucket), rlim.cfg, now)
      ensures Valid() <==> old(Survives(now))
      ensures old(Capped()) ==> Capped()
    {
      hide Updated;
      hide Survives;
      UpdateKeeps(now);
      SameTime(bucket, rlim.cfg);
      if now != bucket.lastUpdated {
        bucket := Updated(bucket, rlim.cfg, now);
      }
    }

    /** _bufferevent_get_rlim_max for a bufferevent in no group: the cap of 16384 bytes holds
        for one without a limit, and a limit of its own takes the place of the cap. */
    method GetRlimMax(isWrite: bool, now: nat) returns (r: nat)
      requires Valid() && group == null && now < TWO32
      modifies this`bucket
      ensures r == Clamp(old(Allowance(isWrite, now))) && (Valid() <==> old(Survives(now)))
      ensures bucket == if rlim.SomeCfg? then Updated(old(bucket), rlim.cfg, now) else old(bucket)
      ensures r > MAX_EVER <==> rlim.SomeCfg? && old(Allowance(isWrite, now)) > MAX_EVER
      ensures rlim.NoCfg? ==> r == 16384
    {
      hide Updated;
      hide Survives;
      NoLimitSurvives(now);
      var maxSoFar := MAX_EVER;
      if rlim.SomeCfg? {
        UpdateBuckets(now);
        maxSoFar := Limit(bucket, isWrite);
      }
      r := if maxSoFar < 0 then 0 else maxSoFar;
    }

    /** What bufferevent_readcb and _writecb do, in no group: ask for the most that may be
        moved, move no more, and count what was moved. */
    method Transfer(isWrite: bool, want: nat, now: nat) returns (moved: nat)
      requires Valid() && group == null && now < TWO32 && Survives(now)
      modifies this`rd, this`wr, this`bucket, this`refill
      ensures Valid() && moved == if old(Get(isWrite)).suspended != {} then 0
        else Least(want, Clamp(old(Allowance(isWrite, now))))
      ensures rlim.SomeCfg? ==>
        var u := Updated(old(bucket), rlim.cfg, now);
        bucket == WithLimit(u, isWrite, Limit(u, isWrite) - moved)
      ensures rlim.NoCfg? ==> bucket == old(bucket)
      ensures forall w ::
        Get(w).suspended - {BW} == old(Get(w).suspended) - {BW} && Get(w).enabled == old(Get(w).enabled)
    {
      hide Updated;
      hide Survives;
      moved := 0;
      var most := GetRlimMax(isWrite, now);
      if Get(isWrite).suspended == {} {
        moved := if want < most then want else most;
      }
      if moved > 0 {
        DecrementBuckets(isWrite, moved);
      }
    }

    /** _bev_refill_callback: the timer, no longer pending, has run out. */
    method RefillCallback(now: nat)
      requires Valid() && refill && now < TWO32
      modifies this`rd, this`wr, this`bucket, this`refill
      ensures rlim.SomeCfg? && bucket == Updated(old(bucket), rlim.cfg, now)
      ensures Valid() <==> old(Survives(now))
      ensures forall w :: BW in Get(w).suspended <==> old(BW in Get(w).suspended) && Limit(bucket, w) <= 0
      ensures forall w ::
        Get(w).suspended - {BW} == old(Get(w).suspended) - {BW} && Get(w).enabled == old(Get(w).enabled)
      ensures refill <==> BW in rd.suspended || BW in wr.suspended
    {
      UpdateKeeps(now);
      refill := false;
      bucket := Updated(bucket, rlim.cfg, now);
      var again := false;
      if BW in rd.suspended {
        if bucket.readLimit > 0 {
          Unsuspend(false, BW);
        } else {
          again := true;
        }
      }
      if BW in wr.suspended {
        if bucket.writeLimit > 0 {
          Unsuspend(true, BW);
        } else {
          again := true;
        }
      }
      if again {
        refill := true;
      }
    }

    /** bufferevent_set_rate_limit. */
    method SetRateLimit(to: MaybeCfg, now: nat)
      requires Valid() && (to.SomeCfg? ==> CfgOk(to.cfg)) && now < TWO32
      requires to.SomeCfg? && rlim.SomeCfg? && to.id == rlim.id ==> to == rlim
      modifies this`rd, this`wr, this`bucket, this`refill, this`rlim
      ensures Valid() && rlim == to
      ensures forall w ::
        Get(w).suspended - {BW} == old(Get(w).suspended) - {BW} && Get(w).enabled == old(Get(w).enabled)
      ensures to == old(rlim) ==> bucket == old(bucket)
      ensures to != old(rlim) && to.SomeCfg? ==> bucket == Initialized(old(bucket), to.cfg, now, old(rlim.SomeCfg?))
      ensures to != old(rlim) && to.SomeCfg? ==> forall w :: BW in Get(w).suspended <==> Limit(bucket, w) <= 0
    {
      if to.NoCfg? {
        rlim := NoCfg;
        Unsuspend(false, BW);
        Unsuspend(true, BW);
        refill := false;
        return;
      }
      if rlim.SomeCfg? && rlim.id == to.id {
        return;
      }
      var reinit := rlim.SomeCfg?;
      rlim := to;
      InitializedOk(bucket, to.cfg, now, reinit);
      bucket := Initialized(bucket, to.cfg, now, reinit);
      if reinit {
        refill := false;
      }
      var suspended := false;
      if bucket.readLimit > 0 {
        Unsuspend(false, BW);
      } else {
        Suspend(false, BW);
        suspended := true;
      }
      if bucket.writeLimit > 0 {
        Unsuspend(true, BW);
      } else {
        Suspend(true, BW);
        suspended := true;
      }
      if suspended {
        refill := true;
      }
    }
  }

  /** Whether a refill callback has left the directions as they should be. */
  predicate Settled(bev: Bev)
    reads bev
  {
    && (BW in bev.rd.suspended ==> bev.bucket.readLimit <= 0)
    && (BW in bev.wr.suspended ==> bev.bucket.writeLimit <= 0)
  }

  /** The refill timer runs out n ticks after the last update. */
  method TimerRuns(bev: Bev, n: nat)
    requires bev.Valid() && bev.refill && 0 < n <= INT_MAX && bev.rlim.SomeCfg?
    requires Lasts(bev.bucket.readLimit, bev.rlim.cfg.read, n) && Lasts(bev.bucket.writeLimit, bev.rlim.cfg.write, n)
    modifies bev`rd, bev`wr, bev`bucket, bev`refill
    ensures bev.Valid() && Settled(bev)
    ensures bev.bucket.readLimit == Refill(old(bev.bucket.readLimit), bev.rlim.cfg.read, n)
    ensures bev.bucket.writeLimit == Refill(old(bev.bucket.writeLimit), bev.rlim.cfg.write, n)
  {
    hide Refill;
    TicksBack(bev.bucket.lastUpdated, n);
    bev.RefillCallback((bev.bucket.lastUpdated + n) % TWO32);
    assert BW in bev.Get(false).suspended ==> Limit(bev.bucket, false) <= 0;
    assert BW in bev.Get(true).suspended ==> Limit(bev.bucket, true) <= 0;
  }

  lemma RefilledMore(limit: int, r: Rate, ticks: seq<nat>, i: nat)
    requires i < |ticks| && ticks[i] > 0
    ensures Refilled(limit, r, ticks[..i + 1]) == Refill(Refilled(limit, r, ticks[..i]), r, ticks[i])
  {
    assert ticks[..i + 1][..i] == ticks[..i];
  }

  function Total(ticks: seq<nat>): nat
  {
    if ticks == [] then 0 else Total(ticks[..|ticks| - 1]) + ticks[|ticks| - 1]
  }

  lemma {:induction false} TotalGrows(ticks: seq<nat>, i: nat)
    requires i <= |ticks|
    ensures Total(ticks[..i]) <= Total(ticks)
    decreases |ticks|
  {
    if i < |ticks| {
      assert ticks[..|ticks| - 1][..i] == ticks[..i];
      TotalGrows(ticks[..|ticks| - 1], i);
    } else {
      assert ticks[..i] == ticks;
    }
  }

  /** A bucket over its maximum keeps what it has, and gets what the rate gives. */
  lemma {:induction false} RefilledOver(limit: int, r: Rate, ticks: seq<nat>)
    requires InRange(limit) && RateOk(r) && limit > r.maximum
    requires forall i | 0 <= i < |ticks| :: 0 < ticks[i] <= INT_MAX
    requires limit + Total(ticks) * r.rate < TWO63
    ensures Refilled(limit, r, ticks) == limit + Total(ticks) * r.rate >= limit
  {
    hide Refill;
    if ticks == [] {
      assert Total(ticks) * r.rate == 0;
    } else {
      var front, n := ticks[..|ticks| - 1], ticks[|ticks| - 1];
      Distribute(Total(front), n, r.rate);
      AddsOne(n, r.rate);
      RefilledOver(limit, r, front);
      RefillOver(limit + Total(front) * r.rate, r, n);
    }
  }

  /** One more of the refills of a run that lasts. */
  lemma LastsOn(limit: int, r: Rate, ticks: seq<nat>, i: nat)
    requires InRange(limit) && RateOk(r) && i < |ticks| && (forall i | 0 <= i < |ticks| :: 0 < ticks[i] <= INT_MAX)
    requires Lasts(limit, r, Total(ticks))
    ensures Lasts(Refilled(limit, r, ticks[..i]), r, ticks[i])
  {
    hide Refill;
    hide Refilled;
    if limit <= r.maximum {
      DebtEnds(limit, r, ticks[..i]);
    } else {
      assert ticks[..i + 1][..i] == ticks[..i];
      TotalGrows(ticks, i + 1);
      Times(Total(ticks[..i + 1]), Total(ticks), r.rate);
      Distribute(Total(ticks[..i]), ticks[i], r.rate);
      AddsOne(ticks[i], r.rate);
      RefilledOver(limit, r, ticks[..i]);
    }
  }

  /** After enough refills to pay what debt there is, there are bytes to move. */
  lemma Paid(limit: int, r: Rate, ticks: seq<nat>)
    requires InRange(limit) && RateOk(r) && (forall i | 0 <= i < |ticks| :: 0 < ticks[i] <= INT_MAX)
    requires Lasts(limit, r, Total(ticks)) && (limit <= 0 ==> |ticks| > (-limit) / r.rate)
    ensures Refilled(limit, r, ticks) > 0
  {
    hide Refill;
    hide Refilled;
    if limit <= r.maximum {
      DebtEnds(limit, r, ticks);
    } else {
      RefilledOver(limit, r, ticks);
    }
  }

  /** Refill callbacks as long as the timer is pending, some ticks apart, end every stall
      within debt divided by rate, and one more. */
  method StallEnds(bev: Bev, steps: seq<nat>)
    requires bev.Valid() && bev.rlim.SomeCfg? && steps != [] && forall i | 0 <= i < |steps| :: 0 < steps[i] <= INT_MAX
    requires Lasts(bev.bucket.readLimit, bev.rlim.cfg.read, Total(steps))
    requires Lasts(bev.bucket.writeLimit, bev.rlim.cfg.write, Total(steps))
    requires bev.bucket.readLimit <= 0 ==> |steps| > (-bev.bucket.readLimit) / bev.rlim.cfg.read.rate
    requires bev.bucket.writeLimit <= 0 ==> |steps| > (-bev.bucket.writeLimit) / bev.rlim.cfg.write.rate
    modifies bev`rd, bev`wr, bev`bucket, bev`refill
    ensures bev.Valid() && BW !in bev.rd.suspended && BW !in bev.wr.suspended
  {
    hide Refill;
    hide Refilled;
    hide SideOk;
    hide Lasts;
    ghost var was, c := bev.bucket, bev.rlim.cfg;
    RefilledNone(was.readLimit, c.read, steps);
    RefilledNone(was.writeLimit, c.write, steps);
    Paid(was.readLimit, c.read, steps);
    Paid(was.writeLimit, c.write, steps);
    var i := 0;
    while i < |steps| && bev.refill
      invariant 0 <= i <= |steps| && bev.Valid() && (i > 0 ==> Settled(bev))
      invariant bev.bucket.readLimit == Refilled(was.readLimit, c.read, steps[..i])
      invariant bev.bucket.writeLimit == Refilled(was.writeLimit, c.write, steps[..i])
    {
      RefilledMore(was.readLimit, c.read, steps, i);
      RefilledMore(was.writeLimit, c.write, steps, i);
      LastsOn(was.readLimit, c.read, steps, i);
      LastsOn(was.writeLimit, c.write, steps, i);
      TimerRuns(bev, steps[i]);
      i := i + 1;
    }
    assert i == |steps| ==> steps[..i] == steps;
  }

  /** More than 16384 bytes at a time: a limit of 20000 bytes a tick reports as many. */
  method MoreThanTheCap() returns (bev: Bev, r: nat)
    ensures bev.Valid() && r == 20000 > MAX_EVER
  {
    bev := new Bev();
    var rate := Rate(20000, 20000);
    bev.SetRateLimit(SomeCfg(0, Cfg(rate, rate)), 0);
    r := bev.GetRlimMax(false, 0);
  }

  /** The largest credit, and one tick: reading has an empty bucket and goes on. */
  method CreditLosesTheStall() returns (bev: Bev)
    ensures !bev.Valid() && bev.bucket.readLimit == -TWO63 && BW !in bev.rd.suspended
  {
    bev := new Bev();
    var rate := Rate(1, 100);
    bev.SetRateLimit(SomeCfg(0, Cfg(rate, rate)), 0);
    bev.DecrementLimit(false, 2 - TWO63);
    assert BW !in bev.Get(false).suspended;
    CreditPassesMaximum(1);
    bev.UpdateBuckets(1);
  }

  lemma RefilledNone(limit: int, r: Rate, ticks: seq<nat>)
    ensures Refilled(limit, r, ticks[..0]) == limit
  {
  }

  lemma TicksBack(last: nat, n: nat)
    requires last < TWO32 && 0 < n <= INT_MAX
    ensures TicksSince(last, (last + n) % TWO32) == n
  {
  }

  /** Of n members one may take its minimum share, or what fits n times into the limit. */
  predicate MayTake(r: int, n: nat, limit: int, minShare: int)
  {
    r <= minShare || n * r <= limit
  }

  lemma MostTimes(n: nat, m: int, limit: int)
    requires n > 0
    ensures m <= limit / n <==> n * m <= limit
  {
    var q := limit / n;
    if m <= q {
      MoreTimes(n, m, q);
    } else {
      MoreTimes(n, q + 1, m);
    }
  }

  lemma MoreTimes(n: nat, a: int, b: int)
    requires a <= b
    ensures n * a <= n * b
  {
  }

  function Sum(rs: seq<nat>): nat
  {
    if rs == [] then 0 else Sum(rs[..|rs| - 1]) + rs[|rs| - 1]
  }

  lemma {:induction false} SumSplits(a: seq<nat>, b: seq<nat>)
    ensures Sum(a + b) == Sum(a) + Sum(b) && (|a| == 1 ==> Sum(a) == a[0])
  {
    if b == [] {
      assert a + b == a;
      assert |a| == 1 ==> Sum(a[..0]) == 0;
    } else {
      SumSplits(a, b[..|b| - 1]);
      assert (a + b)[..|a + b| - 1] == a + b[..|b| - 1];
    }
  }

  /** What all n members of a group are told they may move is together no more than its
      limit, or than their minimum shares. */
  lemma ReportsFit(rs: seq<nat>, n: nat, limit: nat, minShare: nat)
    requires n > 0 && |rs| <= n && forall r | r in rs :: MayTake(r, n, limit, minShare)
    ensures Sum(rs) <= if limit > n * minShare then limit else n * minShare
  {
    var most := if limit > n * minShare then limit else n * minShare;
    forall r | r in rs ensures n * r <= most {
      if r <= minShare {
        MoreTimes(n, r, minShare);
      }
    }
    SumTimes(rs, n, most);
    MoreTimes(most, |rs|, n);
    if Sum(rs) > most {
      MoreTimes(n, most + 1, Sum(rs));
    }
  }

  lemma {:induction false} SumTimes(rs: seq<nat>, n: nat, most: nat)
    requires forall r | r in rs :: n * r <= most
    ensures n * Sum(rs) <= most * |rs|
  {
    if rs != [] {
      var k := |rs| - 1;
      assert forall r | r in rs[..k] :: r in rs;
      assert rs[k] in rs;
      SumTimes(rs[..k], n, most);
      Twice(n, Sum(rs[..k]), rs[k]);
      Twice(most, k, 1);
    }
  }

  lemma Twice(n: nat, a: nat, b: nat)
    ensures n * (a + b) == n * a + n * b
  {
  }

  lemma DivAtMost(x: nat, n: nat)
    requires n > 0
    ensures x / n <= x
  {
    DivLess(x, n, x + 1);
    Distribute(n - 1, 1, x + 1);
    assert (n - 1) * (x + 1) >= 0;
  }

  /** One direction of a group. */
  datatype Stop = Stop(suspended: bool, pending: bool)

  function MinShare(share: nat, c: Cfg): (r: nat)
    ensures r <= share && r <= c.read.rate && r <= c.write.rate
    ensures r == share || r == c.read.rate || r == c.write.rate
  {
    var a := if share > c.read.rate then c.read.rate else share;
    if a > c.write.rate then c.write.rate else a
  }

  /** bufferevents that share a bucket. */
  class Group {
    var cfg: Cfg
    var bucket: Bucket
    var rd: Stop
    var wr: Stop
    var configuredMinShare: nat
    var minShare: nat
    var members: seq<Bev>
    var nMembers: nat
    /** The members may be written. */
    ghost var crowd: set<Bev>

    function Get(isWrite: bool): Stop
      reads this`rd, this`wr
    {
      if isWrite then wr else rd
    }

    ghost predicate Members()
      reads this`members, this`nMembers, this`crowd, crowd
    {
      && nMembers == |members|
      && (forall i, j | 0 <= i < j < |members| :: members[i] != members[j])
      && (forall i | 0 <= i < |members| :: members[i] in crowd && members[i].group == this && members[i].Valid())
    }

    ghost predicate Limits()
      reads `cfg, `bucket, `configuredMinShare, `minShare
    {
      CfgOk(cfg) && BucketOk(bucket) && minShare == MinShare(configuredMinShare, cfg)
    }

    /** No member is held back by the group. */
    ghost predicate Free(isWrite: bool)
      reads this`members, this`crowd, crowd, members
    {
      forall i | 0 <= i < |members| :: BW_GROUP !in members[i].Get(isWrite).suspended
    }

    /** An empty bucket stops the group; to be resumed and to be stopped exclude each other;
        and when neither holds, no member is held back by the group. */
    ghost predicate Stops(isWrite: bool)
      reads this, crowd, members
    {
      && (Limit(bucket, isWrite) <= 0 ==> Get(isWrite).suspended)
      && (Get(isWrite).pending ==> !Get(isWrite).suspended)
      && (!Get(isWrite).suspended && !Get(isWrite).pending ==> Free(isWrite))
    }

    ghost predicate Valid()
      reads this, crowd, members
    {
      Members() && Limits() && Stops(false) && Stops(true)
    }

    /** bufferevent_rate_limit_group_new. */
    constructor (cfg: Cfg, now: nat)
      requires CfgOk(cfg) && now < TWO32
      ensures Valid() && members == [] && crowd == {} && this.cfg == cfg && minShare == MinShare(64, cfg)
      ensures SmallDebt() && Capped() && rd == wr == Stop(false, false) && configuredMinShare == 64
      ensures bucket == Initialized(bucket, cfg, now, false)
    {
      this.cfg := cfg;
      bucket := Bucket(cfg.read.rate, cfg.write.rate, now);
      rd, wr := Stop(false, false), Stop(false, false);
      configuredMinShare, minShare := 64, MinShare(64, cfg);
      members, nMembers, crowd := [], 0, {};
    }

    method SetStop(isWrite: bool, stop: Stop)
      modifies `rd, `wr
      ensures Get(isWrite) == stop && Get(!isWrite) == old(Get(!isWrite))
    {
      if isWrite {
        wr := stop;
      } else {
        rd := stop;
      }
    }

    /** The lock of a member that is not busy is taken, and the member stopped or resumed. */
    method Mark(m: Bev, ghost i: nat, isWrite: bool, on: bool, busy: set<Bev>) returns (missed: bool)
      requires Members() && i < |members| && m == members[i]
      modifies m`rd, m`wr
      ensures Members() && missed == (m in busy) && m.Get(!isWrite) == old(m.Get(!isWrite))
      ensures m.Get(isWrite) == if missed then old(m.Get(isWrite)) else Marked(old(m.Get(isWrite)), on)
    {
      missed := m in busy;
      if !missed {
        m.Hold(isWrite, on);
      }
    }

    /** _bev_group_suspend_reading and _writing: members whose lock is busy find out later. */
    method SuspendAll(isWrite: bool, busy: set<Bev>)
      requires Members()
      modifies this`rd, this`wr, crowd`rd, crowd`wr
      ensures Members() && Get(isWrite) == Stop(true, false) && Get(!isWrite) == old(Get(!isWrite))
      ensures forall j | 0 <= j < |members| :: members[j].Get(!isWrite) == old(members[j].Get(!isWrite))
      ensures forall j | 0 <= j < |members| && members[j] !in busy :: BW_GROUP in members[j].Get(isWrite).suspended
      ensures forall j | 0 <= j < |members| && members[j] in busy ::
        members[j].Get(isWrite) == old(members[j].Get(isWrite))
    {
      hide Members;
      SetStop(isWrite, Stop(true, false));
      var i := 0;
      while i < |members|
        invariant 0 <= i <= |members| && Members()
        invariant Get(isWrite) == Stop(true, false) && Get(!isWrite) == old(Get(!isWrite))
        invariant forall j | 0 <= j < |members| :: members[j].Get(!isWrite) == old(members[j].Get(!isWrite))
        invariant forall j | i <= j < |members| :: members[j].Get(isWrite) == old(members[j].Get(isWrite))
        invariant forall j | 0 <= j < i && members[j] !in busy :: BW_GROUP in members[j].Get(isWrite).suspended
        invariant forall j | 0 <= j < i && members[j] in busy :: members[j].Get(isWrite) == old(members[j].Get(isWrite))
      {
        MemberAt(i);
        var _ := Mark(members[i], i, isWrite, true, busy);
        i := i + 1;
      }
    }

    /** FOREACH_RANDOM_ORDER: resumes members from one on, to the end of the list. */
    method ResumeFrom(isWrite: bool, busy: set<Bev>, from: nat, to: nat) returns (again: bool)
      requires Members() && from <= to <= |members|
      modifies crowd`rd, crowd`wr
      ensures Members()
      ensures forall j | 0 <= j < |members| :: members[j].Get(!isWrite) == old(members[j].Get(!isWrite))
      ensures forall j | 0 <= j < |members| && !(from <= j < to) ::
        members[j].Get(isWrite) == old(members[j].Get(isWrite))
      ensures forall j | from <= j < to ::
        members[j].Get(isWrite) == Resumed(old(members[j].Get(isWrite)), members[j] in busy)
      ensures again <==> exists j | from <= j < to :: members[j] in busy
    {
      hide Members;
      again := false;
      var i := from;
      while i < to
        invariant from <= i <= to && Members()
        invariant forall j | 0 <= j < |members| :: members[j].Get(!isWrite) == old(members[j].Get(!isWrite))
        invariant forall j | 0 <= j < |members| && !(from <= j < i) ::
          members[j].Get(isWrite) == old(members[j].Get(isWrite))
        invariant forall j | from <= j < i ::
          members[j].Get(isWrite) == Resumed(old(members[j].Get(isWrite)), members[j] in busy)
        invariant again <==> exists j | from <= j < i :: members[j] in busy
      {
        MemberAt(i);
        var missed := Mark(members[i], i, isWrite, false, busy);
        again := again || missed;
        i := i + 1;
      }
    }

    /** _bev_group_unsuspend_reading and _writing.  From a random member on and round to it,
        each member is visited once; one whose lock is busy leaves work for the next tick. */
    method UnsuspendAll(isWrite: bool, busy: set<Bev>, random: nat)
      requires Members()
      modifies this`rd, this`wr, crowd`rd, crowd`wr
      ensures Members() && !Get(isWrite).suspended && Get(!isWrite) == old(Get(!isWrite))
      ensures forall j | 0 <= j < |members| :: members[j].Get(!isWrite) == old(members[j].Get(!isWrite))
      ensures forall j | 0 <= j < |members| ::
        members[j].Get(isWrite) == Resumed(old(members[j].Get(isWrite)), members[j] in busy)
      ensures Get(isWrite).pending <==> exists m | m in members :: m in busy
      ensures !Get(isWrite).pending ==> Free(isWrite)
    {
      hide Members;
      Counted();
      SetStop(isWrite, Stop(false, Get(isWrite).pending));
      var again := false;
      if nMembers > 0 {
        var which := random % nMembers;
        var later := ResumeFrom(isWrite, busy, which, |members|);
        var earlier := ResumeFrom(isWrite, busy, 0, which);
        again := later || earlier;
      }
      SetStop(isWrite, Stop(false, again));
    }

    /** The first half of _bufferevent_get_rlim_max for a member: its own bucket is brought up
        to date, and it is held back if the group is stopped. */
    method Prepare(bev: Bev, ghost i: nat, isWrite: bool, now: nat) returns (maxSoFar: int)
      requires Valid() && i < |members| && bev == members[i] && now < TWO32
      modifies bev`rd, bev`wr, bev`bucket
      ensures Valid() <==> old(bev.Survives(now))
      ensures bev.Get(!isWrite) == old(bev.Get(!isWrite)) && bev.rlim == old(bev.rlim)
      ensures bev.Get(isWrite) ==
        if Get(isWrite).suspended then Suspended(old(bev.Get(isWrite)), BW_GROUP) else old(bev.Get(isWrite))
      ensures bev.bucket == if bev.rlim.SomeCfg? then Updated(old(bev.bucket), bev.rlim.cfg, now) else old(bev.bucket)
      ensures maxSoFar == old(bev.Allowance(isWrite, now))
      ensures maxSoFar == if bev.rlim.SomeCfg? then Limit(bev.bucket, isWrite) else MAX_EVER
      ensures !Get(isWrite).suspended ==> Limit(bucket, isWrite) > 0
      ensures nMembers > 0 && (old(bev.Capped()) ==> bev.Capped())
    {
      hide Updated;
      hide Bev.Survives;
      hide Bev.Capped;
      bev.NoLimitSurvives(now);
      MemberAt(i);
      maxSoFar := MAX_EVER;
      if bev.rlim.SomeCfg? {
        bev.UpdateBuckets(now);
        maxSoFar := Limit(bev.bucket, isWrite);
      }
      if Get(isWrite).suspended {
        bev.Suspend(isWrite, BW_GROUP);
      }
    }

    /** _bufferevent_get_rlim_max for a member: what it may move now.  With a limit of its
        own it is not held to the cap of 16384 bytes. */
    method GetRlimMax(bev: Bev, ghost i: nat, isWrite: bool, now: nat) returns (r: nat)
      requires Valid() && i < |members| && bev == members[i] && now < TWO32
      modifies bev`rd, bev`wr, bev`bucket
      ensures Valid() <==> old(bev.Survives(now))
      ensures bev.Get(!isWrite) == old(bev.Get(!isWrite)) && bev.rlim == old(bev.rlim)
      ensures bev.Get(isWrite) ==
        if Get(isWrite).suspended then Suspended(old(bev.Get(isWrite)), BW_GROUP) else old(bev.Get(isWrite))
      ensures bev.bucket == if bev.rlim.SomeCfg? then Updated(old(bev.bucket), bev.rlim.cfg, now) else old(bev.bucket)
      ensures Get(isWrite).suspended ==> r == 0
      ensures !Get(isWrite).suspended ==> Limit(bucket, isWrite) > 0
      ensures !Get(isWrite).suspended ==>
        r == Clamp(Min(if bev.rlim.SomeCfg? then Limit(bev.bucket, isWrite) else MAX_EVER, Share(isWrite)))
      ensures r > 0 ==> r <= Share(isWrite) && (bev.rlim.SomeCfg? ==> r <= Limit(bev.bucket, isWrite))
      ensures r <= Clamp(old(bev.Allowance(isWrite, now)))
      ensures !Get(isWrite).suspended ==>
        && MayTake(r, nMembers, Limit(bucket, isWrite), minShare)
        && (MayTake(r + 1, nMembers, Limit(bucket, isWrite), minShare) ==> r == Clamp(old(bev.Allowance(isWrite, now))))
      ensures r > MAX_EVER <==> (&& !Get(isWrite).suspended && bev.rlim.SomeCfg?
                                 && old(bev.Allowance(isWrite, now)) > MAX_EVER && Share(isWrite) > MAX_EVER)
      ensures old(bev.Capped()) ==> bev.Capped()
    {
      hide Valid;
      hide Updated;
      hide Bev.Survives;
      hide Bev.Capped;
      hide MayTake;
      var maxSoFar := Prepare(bev, i, isWrite, now);
      ShareIs(isWrite);
      var share := 0;
      if !Get(isWrite).suspended {
        share := Limit(bucket, isWrite) / nMembers;
        if share < minShare {
          share := minShare;
        }
      }
      if maxSoFar > share {
        maxSoFar := share;
      }
      r := if maxSoFar < 0 then 0 else maxSoFar;
    }

    /** A member's part of the group's limit. */
    function Share(isWrite: bool): int
      requires nMembers > 0
      reads this
    {
      var share := Limit(bucket, isWrite) / nMembers;
      if share < minShare then minShare else share
    }

    /** It is the most that a member may take. */
    lemma ShareIs(isWrite: bool)
      requires nMembers > 0
      ensures forall m: int :: m <= Share(isWrite) <==> MayTake(m, nMembers, Limit(bucket, isWrite), minShare)
    {
      var limit := Limit(bucket, isWrite);
      forall m: int ensures m <= limit / nMembers <==> nMembers * m <= limit {
        MostTimes(nMembers, m, limit);
      }
    }

    /** The group's part of _bufferevent_decrement_read_buckets and _write_buckets. */
    method Decrement(isWrite: bool, bytes: int, busy: set<Bev>, random: nat)
      requires Valid() && InRange(Limit(bucket, isWrite) - bytes)
      modifies this`bucket, this`rd, this`wr, crowd`rd, crowd`wr
      ensures Valid() && bucket == WithLimit(old(bucket), isWrite, Limit(old(bucket), isWrite) - bytes)
      ensures Get(!isWrite) == old(Get(!isWrite))
      ensures Get(isWrite).suspended <==> Limit(bucket, isWrite) <= 0
    {
      hide Members;
      hide CfgOk;
      bucket := WithLimit(bucket, isWrite, Limit(bucket, isWrite) - bytes);
      if Limit(bucket, isWrite) <= 0 {
        SuspendAll(isWrite, busy);
      } else if Get(isWrite).suspended {
        UnsuspendAll(isWrite, busy, random);
      }
    }

    /** bufferevent_rate_limit_group_decrement_read and _write. */
    method DecrementLimit(isWrite: bool, decr: int, busy: set<Bev>, random: nat)
      requires Valid() && InRange(Limit(bucket, isWrite) - decr)
      modifies this`bucket, this`rd, this`wr, crowd`rd, crowd`wr
      ensures Valid() && bucket == WithLimit(old(bucket), isWrite, Limit(old(bucket), isWrite) - decr)
      ensures Get(!isWrite) == old(Get(!isWrite))
      ensures Get(isWrite).suspended <==>
        Limit(bucket, isWrite) <= 0 || (Limit(old(bucket), isWrite) > 0 && old(Get(isWrite).suspended))
    {
      hide Members;
      hide CfgOk;
      var oldLimit := Limit(bucket, isWrite);
      bucket := WithLimit(bucket, isWrite, oldLimit - decr);
      var newLimit := Limit(bucket, isWrite);
      if oldLimit > 0 && newLimit <= 0 {
        SuspendAll(isWrite, busy);
      } else if oldLimit <= 0 && newLimit > 0 {
        UnsuspendAll(isWrite, busy, random);
      }
    }

    /** One direction of _bev_group_refill_callback, after the bucket is updated. */
    method MaybeResume(isWrite: bool, busy: set<Bev>, random: nat)
      requires Members() && Limits()
      requires Get(isWrite).pending ==> !Get(isWrite).suspended
      requires !Get(isWrite).suspended && !Get(isWrite).pending ==> Free(isWrite)
      modifies this`rd, this`wr, crowd`rd, crowd`wr
      ensures Members() && Limits() && Get(!isWrite) == old(Get(!isWrite))
      ensures Stops(isWrite) <==>
        Limit(bucket, isWrite) > 0 || (old(Get(isWrite).suspended) && Limit(bucket, isWrite) < minShare)
      ensures forall j | 0 <= j < |members| :: members[j].Get(!isWrite) == old(members[j].Get(!isWrite))
      ensures Get(isWrite).suspended <==> old(Get(isWrite).suspended) && Limit(bucket, isWrite) < minShare
      ensures busy == {} && !Get(isWrite).suspended ==> Free(isWrite)
    {
      hide Members;
      if Get(isWrite).pending || (Get(isWrite).suspended && Limit(bucket, isWrite) >= minShare) {
        UnsuspendAll(isWrite, busy, random);
      }
    }

    /** A refill leaves no empty bucket that has not stopped its direction: it is steady, and
        with a minimum share it does not resume a direction that has nothing to move. */
    predicate Survives(isWrite: bool, now: nat)
      reads this
    {
      var n := TicksSince(bucket.lastUpdated, now);
      if Get(isWrite).suspended then minShare > 0 || Limit(Updated(bucket, cfg, now), isWrite) != 0
      else n == 0 || n > INT_MAX || Steady(Limit(bucket, isWrite), RateOf(cfg, isWrite), n)
    }

    lemma UpdateKeeps(isWrite: bool, now: nat)
      requires Limits() && now < TWO32 && (Limit(bucket, isWrite) <= 0 ==> Get(isWrite).suspended)
      ensures BucketOk(Updated(bucket, cfg, now))
      ensures var u := Limit(Updated(bucket, cfg, now), isWrite);
        Survives(isWrite, now) <==> u > 0 || (Get(isWrite).suspended && u < minShare)
    {
      hide Refill;
      UpdatedOk(bucket, cfg, now);
      var n := TicksSince(bucket.lastUpdated, now);
      if 0 < n <= INT_MAX {
        RefillSteady(bucket.readLimit, cfg.read, n);
        RefillSteady(bucket.writeLimit, cfg.write, n);
      }
    }

    /** _bev_group_refill_callback. */
    method RefillCallback(now: nat, busyReading: set<Bev>, busyWriting: set<Bev>, random: nat)
      requires Valid() && now < TWO32
      modifies this`bucket, this`rd, this`wr, crowd`rd, crowd`wr
      ensures Valid() <==> old(Survives(false, now) && Survives(true, now))
      ensures bucket == Updated(old(bucket), cfg, now)
      ensures forall w :: Get(w).suspended <==> old(Get(w).suspended) && Limit(bucket, w) < minShare
      ensures busyReading == {} && !rd.suspended ==> Free(false)
      ensures busyWriting == {} && !wr.suspended ==> Free(true)
      ensures old(Capped()) ==> Valid() && Capped() && (old(SmallDebt()) ==> SmallDebt())
    {
      hide Members;
      hide Updated;
      hide Survives;
      UpdateKeeps(false, now);
      UpdateKeeps(true, now);
      if Capped() {
        CappedSurvives(now);
      }
      bucket := Updated(bucket, cfg, now);
      MaybeResume(false, busyReading, random);
      label Reading:
      MaybeResume(true, busyWriting, random);
      assert Get(false) == old@Reading(Get(false)) && (old@Reading(Free(false)) ==> Free(false));
    }

    /** No credit has filled the bucket over its maximum, and there is a minimum share. */
    predicate Capped()
      reads `cfg, `bucket, `minShare
    {
      WithinMaximum(bucket, cfg) && minShare > 0
    }

    lemma CappedSurvives(now: nat)
      requires Limits() && Capped() && now < TWO32
      ensures Survives(false, now) && Survives(true, now) && WithinMaximum(Updated(bucket, cfg, now), cfg)
      ensures SmallDebt() ==>
        Updated(bucket, cfg, now).readLimit + minShare > 0 && Updated(bucket, cfg, now).writeLimit + minShare > 0
    {
      hide Refill;
      UpdatedOk(bucket, cfg, now);
    }

    /** The group's debt stays below one share. */
    ghost predicate SmallDebt()
      reads `bucket, `minShare
    {
      bucket.readLimit + minShare > 0 && bucket.writeLimit + minShare > 0
    }

    lemma ShareBounds(isWrite: bool, moved: nat)
      requires Valid() && nMembers > 0 && moved <= Share(isWrite)
      requires !Get(isWrite).suspended
      ensures InRange(Limit(bucket, isWrite) - moved)
      ensures minShare > 0 ==> Limit(bucket, isWrite) - moved + minShare > 0
    {
      DivAtMost(Limit(bucket, isWrite), nMembers);
    }

    /** Counts bytes against a member's own bucket. */
    method Charge(bev: Bev, ghost i: nat, isWrite: bool, bytes: nat)
      requires Valid() && i < |members| && bev == members[i]
      requires bev.rlim.SomeCfg? && bytes > 0 ==> bytes <= Limit(bev.bucket, isWrite)
      modifies bev`rd, bev`wr, bev`bucket, bev`refill
      ensures Valid()
      ensures bev.bucket == if bev.rlim.NoCfg? then old(bev.bucket)
        else WithLimit(old(bev.bucket), isWrite, Limit(old(bev.bucket), isWrite) - bytes)
      ensures bev.rlim.SomeCfg? ==> (BW in bev.Get(isWrite).suspended <==> Limit(bev.bucket, isWrite) <= 0)
      ensures old(bev.Capped()) ==> bev.Capped()
    {
      MemberAt(i);
      bev.DecrementBuckets(isWrite, bytes);
      assert forall w :: BW_GROUP in bev.Get(w).suspended <==> old(BW_GROUP in bev.Get(w).suspended) by {
        assert BW_GROUP in bev.Get(isWrite).suspended <==> BW_GROUP in bev.Get(isWrite).suspended - {BW};
        assert bev.Get(!isWrite) == old(bev.Get(!isWrite));
      }
    }

    /** How much a callback of a member may move, when it wants some. */
    method Ask(bev: Bev, ghost i: nat, isWrite: bool, want: nat, now: nat) returns (n: nat)
      requires Valid() && i < |members| && bev == members[i] && now < TWO32 && bev.Survives(now)
      modifies bev`rd, bev`wr, bev`bucket
      ensures Valid() && n == if Get(isWrite).suspended || old(bev.Get(isWrite)).suspended != {} then 0
        else Least(want, Clamp(Min(old(bev.Allowance(isWrite, now)), Share(isWrite))))
      ensures n > 0 ==> !Get(isWrite).suspended && n <= Share(isWrite) && n <= old(bev.Allowance(isWrite, now))
      ensures n <= want && n <= Clamp(old(bev.Allowance(isWrite, now)))
      ensures MayTake(n, nMembers, Limit(bucket, isWrite), minShare)
      ensures bev.rlim.SomeCfg? ==> bev.bucket == Updated(old(bev.bucket), bev.rlim.cfg, now)
      ensures bev.rlim.NoCfg? ==> bev.bucket == old(bev.bucket)
      ensures bev.rlim.SomeCfg? && n > 0 ==> n <= Limit(bev.bucket, isWrite)
      ensures old(bev.Capped()) ==> bev.Capped()
    {
      hide MayTake;
      hide Bev.Capped;
      Counted();
      MemberAt(i);
      ShareIs(isWrite);
      n := 0;
      var most := GetRlimMax(bev, i, isWrite, now);
      if bev.Get(isWrite).suspended == {} {
        n := if want < most then want else most;
      }
    }

    /** What bufferevent_readcb and _writecb do: ask for the most that may be moved, move no
        more, and count what was moved against both buckets. */
    method Transfer(bev: Bev, ghost i: nat, isWrite: bool, want: nat, now: nat, busy: set<Bev>, random: nat)
      returns (moved: nat)
      requires Valid() && i < |members| && bev == members[i] && now < TWO32 && bev.Survives(now)
      modifies this`bucket, this`rd, this`wr, crowd`rd, crowd`wr, bev`bucket, bev`refill
      ensures Valid() && moved == if old(Get(isWrite).suspended || bev.Get(isWrite).suspended != {}) then 0
        else Least(want, Clamp(Min(old(bev.Allowance(isWrite, now)), old(Share(isWrite)))))
      ensures moved <= want && moved <= Clamp(old(bev.Allowance(isWrite, now)))
      ensures MayTake(moved, nMembers, old(Limit(bucket, isWrite)), minShare)
      ensures bev.rlim.SomeCfg? ==> var u := Updated(old(bev.bucket), bev.rlim.cfg, now);
        bev.bucket == WithLimit(u, isWrite, Limit(u, isWrite) - moved)
      ensures bucket == WithLimit(old(bucket), isWrite, Limit(old(bucket), isWrite) - moved)
      ensures minShare > 0 && old(SmallDebt()) ==> SmallDebt()
      ensures Get(isWrite).suspended <==> old(Get(isWrite).suspended) || Limit(bucket, isWrite) <= 0
      ensures old(bev.Capped()) ==> bev.Capped()
    {
      hide MayTake;
      hide Bev.Allowance;
      hide Bev.Survives;
      Counted();
      MemberAt(i);
      moved := Ask(bev, i, isWrite, want, now);
      if moved > 0 {
        ShareBounds(isWrite, moved);
        Charge(bev, i, isWrite, moved);
        hide Valid;
        Decrement(isWrite, moved, busy, random);
      }
    }

    /** bufferevent_rate_limit_group_set_min_share. */
    method SetMinShare(share: nat) returns (r: int)
      requires Valid()
      modifies `configuredMinShare, `minShare
      ensures Valid() && r == if share > SSIZE_MAX then -1 else 0
      ensures minShare == if r == 0 then MinShare(share, cfg) else old(minShare)
      ensures configuredMinShare == if r == 0 then share else old(configuredMinShare)
      ensures r == 0 ==> minShare <= share && minShare <= cfg.read.rate && minShare <= cfg.write.rate
      ensures r == 0 ==> (minShare > 0 <==> share > 0)
    {
      if share > SSIZE_MAX {
        return -1;
      }
      configuredMinShare, minShare := share, MinShare(share, cfg);
      r := 0;
    }

    /** bufferevent_rate_limit_group_set_cfg. */
    method SetCfg(to: Cfg)
      requires Valid() && CfgOk(to)
      modifies `cfg, `bucket, `minShare
      ensures Valid() && cfg == to && bucket == Initialized(old(bucket), to, bucket.lastUpdated, true)
      ensures bucket.lastUpdated == old(bucket.lastUpdated)
    {
      cfg := to;
      bucket := Initialized(bucket, to, 0, true);
      minShare := MinShare(configuredMinShare, to);
    }

    /** TAILQ_INSERT_TAIL into the members. */
    method Insert(bev: Bev)
      requires Members() && bev.Valid() && bev !in crowd
      modifies `members, `nMembers, `crowd, bev`group
      ensures Members() && members == old(members) + [bev] && crowd == old(crowd) + {bev}
      ensures bev.group == this
    {
      hide Bev.Valid;
      bev.group := this;
      nMembers, members, crowd := nMembers + 1, members + [bev], crowd + {bev};
    }

    /** bufferevent_add_to_rate_limit_group, for a bufferevent that is in no group. */
    method Add(bev: Bev)
      requires Valid() && bev.Valid() && bev.group == null && bev !in crowd
      requires BW_GROUP !in bev.rd.suspended && BW_GROUP !in bev.wr.suspended
      modifies `members, `nMembers, `crowd, bev`group, bev`rd, bev`wr
      ensures Valid() && members == old(members) + [bev] && crowd == old(crowd) + {bev}
      ensures BW_GROUP in bev.rd.suspended <==> rd.suspended
      ensures BW_GROUP in bev.wr.suspended <==> wr.suspended
    {
      hide Limits;
      hide Members;
      hide Bev.Valid;
      Insert(bev);
      MemberAt(|members| - 1);
      HoldNew(bev, |members| - 1, false);
      HoldNew(bev, |members| - 1, true);
      assert bev.Get(false) == bev.rd && bev.Get(true) == bev.wr;
    }

    /** A new member is held back if the group is stopped. */
    method HoldNew(bev: Bev, ghost i: nat, isWrite: bool)
      requires Members() && i < |members| && bev == members[i]
      modifies bev`rd, bev`wr
      ensures Members() && bev.Get(!isWrite) == old(bev.Get(!isWrite))
      ensures bev.Get(isWrite) ==
        if Get(isWrite).suspended then Marked(old(bev.Get(isWrite)), true) else old(bev.Get(isWrite))
    {
      hide Bev.Valid;
      if Get(isWrite).suspended {
        bev.Hold(isWrite, true);
      }
    }

    /** bufferevent_remove_from_rate_limit_group. */
    method Remove(bev: Bev, i: nat)
      requires Valid() && i < |members| && bev == members[i]
      modifies `members, `nMembers, `crowd, bev`group, bev`rd, bev`wr
      ensures Valid() && bev.Valid() && bev.group == null && members == old(members)[..i] + old(members)[i + 1..]
      ensures BW_GROUP !in bev.rd.suspended && BW_GROUP !in bev.wr.suspended && crowd == old(crowd) - {bev}
    {
      hide Limits;
      hide Bev.Valid;
      MemberAt(i);
      bev.group := null;
      nMembers, members, crowd := nMembers - 1, members[..i] + members[i + 1..], crowd - {bev};
      bev.Hold(false, false);
      bev.Hold(true, false);
      assert bev.Get(false) == bev.rd && bev.Get(true) == bev.wr;
    }

    /** bufferevent_add_to_rate_limit_group, from wherever the bufferevent was. */
    method Join(bev: Bev, i: nat)
      requires Valid() && bev.Valid()
      requires bev.group == null ==> bev !in crowd && BW_GROUP !in bev.rd.suspended && BW_GROUP !in bev.wr.suspended
      requires bev.group != null && bev.group != this ==>
        bev.group.Valid() && i < |bev.group.members| && bev.group.members[i] == bev && bev.group.crowd !! crowd
      modifies `members, `nMembers, `crowd, bev`group, bev`rd, bev`wr
      modifies bev.group
      ensures Valid() && members == old(members) + if old(bev.group) == this then [] else [bev]
      ensures old(bev.group) != this ==> (BW_GROUP in bev.rd.suspended <==> rd.suspended)
      ensures old(bev.group) != this ==> (BW_GROUP in bev.wr.suspended <==> wr.suspended)
      ensures var g := old(bev.group);
        g != null && g != this ==>
          g.Valid() && g.members == old(bev.group.members)[..i] + old(bev.group.members)[i + 1..]
    {
      hide Limits;
      hide Bev.Valid;
      if bev.group == this {
        return;
      }
      var g := bev.group;
      if g != null {
        g.Remove(bev, i);
      }
      Add(bev);
    }

    lemma Counted()
      requires Members()
      ensures nMembers == |members|
    {
    }

    lemma MemberAt(i: nat)
      requires Members() && i < |members|
      ensures members[i] in crowd && forall j | 0 <= j < |members| && j != i :: members[j] != members[i]
    {
    }
  }

  /** A group without a minimum share owes ten bytes; a tick pays just them, and reading is
      resumed with nothing to read. */
  method ResumedWithNothing() returns (g: Group)
    ensures !g.Valid() && g.bucket.readLimit == 0 && !g.rd.suspended
  {
    g := new Group(Cfg(Rate(10, 100), Rate(10, 100)), 0);
    var r := g.SetMinShare(0);
    g.DecrementLimit(false, 20, {}, 0);
    g.RefillCallback(1, {}, {}, 0);
  }

  /** A member resumed by its group, unless it was skipped. */
  function Resumed(s: Side, skipped: bool): (r: Side)
    ensures r.enabled == s.enabled && r.suspended - {BW_GROUP} == s.suspended - {BW_GROUP}
    ensures if skipped then r == s else BW_GROUP !in r.suspended
  {
    if skipped then s else Unsuspended(s, BW_GROUP)
  }

  function Least(a: nat, b: nat): (r: nat)
    ensures r <= a && r <= b && (r == a || r == b)
  {
    if a <= b then a else b
  }

  /** A limit below zero is reported as zero. */
  function Clamp(limit: int): (r: nat)
    ensures r >= limit && (r == 0 || r == limit)
  {
    if limit < 0 then 0 else limit
  }

  /** What a group does to a direction of a member. */
  function Marked(s: Side, on: bool): (r: Side)
    ensures r.enabled == s.enabled && r.suspended - {BW_GROUP} == s.suspended - {BW_GROUP}
    ensures BW_GROUP in r.suspended <==> on
  {
    if on then Suspended(s, BW_GROUP) else Unsuspended(s, BW_GROUP)
  }
}
