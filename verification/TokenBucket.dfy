/** Token buckets (deps/libevent/bufferevent_ratelim.c), in 64-bit arithmetic and with
    tick counters of 32 bits. */
module TokenBucket {
  const TWO64 := 0x1_0000_0000_0000_0000
  const TWO63 := 0x8000_0000_0000_0000
  const TWO32 := 0x1_0000_0000
  const INT_MAX := 0x7fff_ffff
  const SSIZE_MAX := TWO63 - 1

  /** Bytes for each tick, and the most a bucket holds. */
  datatype Rate = Rate(rate: nat, maximum: nat)
  datatype Cfg = Cfg(read: Rate, write: Rate)
  datatype Bucket = Bucket(readLimit: int, writeLimit: int, lastUpdated: nat)

  predicate RateOk(r: Rate)
  {
    1 <= r.rate <= r.maximum <= SSIZE_MAX
  }

  /** What ev_token_bucket_cfg_new accepts. */
  predicate CfgOk(c: Cfg)
  {
    RateOk(c.read) && RateOk(c.write)
  }

  predicate InRange(limit: int)
  {
    -TWO63 <= limit < TWO63
  }

  predicate BucketOk(b: Bucket)
  {
    InRange(b.readLimit) && InRange(b.writeLimit) && b.lastUpdated < TWO32
  }

  /** A value as a size_t, and as an ev_ssize_t. */
  function Unsigned(x: int): nat
  {
    x % TWO64
  }

  function Signed(x: int): int
  {
    if x % TWO64 < TWO63 then x % TWO64 else x % TWO64 - TWO64
  }

  function Min(a: int, b: int): int
  {
    if a <= b then a else b
  }

  /** One limit after n ticks, as ev_token_bucket_update computes it. */
  function Refill(limit: int, r: Rate, n: nat): int
    requires n > 0
  {
    if Unsigned(r.maximum - limit) / n < r.rate then r.maximum
    else Signed(Unsigned(limit) + Unsigned(n * r.rate))
  }

  /** What it is for. */
  function NaiveRefill(limit: int, r: Rate, n: nat): int
  {
    Min(r.maximum, limit + n * r.rate)
  }

  lemma DivLess(w: nat, n: nat, rate: nat)
    requires n > 0
    ensures w / n < rate <==> w < n * rate
  {
    var q := w / n;
    Quotient(w, n);
    if q < rate {
      Times(q + 1, rate, n);
      Distribute(q, 1, n);
    } else {
      Times(rate, q, n);
    }
  }

  lemma Quotient(w: nat, n: nat)
    requires n > 0
    ensures w / n * n <= w < w / n * n + n
  {
  }

  lemma Times(a: nat, b: nat, n: nat)
    requires a <= b
    ensures a * n <= b * n
  {
    Distribute(a, b - a, n);
    assert (b - a) * n >= 0;
  }

  /** The refill that avoids overflow is the naive one exactly when the bucket is not over
      its maximum, or the refill is so large that the subtraction wraps round to the same. */
  lemma RefillIsNaive(limit: int, r: Rate, n: nat)
    requires InRange(limit) && RateOk(r) && 0 < n <= INT_MAX
    ensures Refill(limit, r, n) == NaiveRefill(limit, r, n) <==>
      limit <= r.maximum || n * r.rate >= TWO64 + r.maximum - limit
    ensures limit <= r.maximum ==> limit <= Refill(limit, r, n) <= r.maximum
  {
    var add := n * r.rate;
    DivLess(Unsigned(r.maximum - limit), n, r.rate);
    AddsOne(n, r.rate);
    RefillSmall(limit, r.maximum, add);
  }

  /** The arithmetic of the branch that adds. */
  lemma RefillSmall(limit: int, maximum: nat, add: nat)
    requires InRange(limit) && maximum <= SSIZE_MAX && add >= 1
    ensures limit <= maximum ==> Unsigned(maximum - limit) == maximum - limit
    ensures limit > maximum ==> Unsigned(maximum - limit) == TWO64 + maximum - limit
    ensures add <= Unsigned(maximum - limit) && limit <= maximum ==>
      Signed(Unsigned(limit) + Unsigned(add)) == limit + add
    ensures add <= Unsigned(maximum - limit) && limit > maximum ==>
      (Signed(Unsigned(limit) + Unsigned(add)) == maximum <==> add == TWO64 + maximum - limit)
  {
    WrapOnce(limit);
    WrapOnce(maximum - limit);
    if add <= Unsigned(maximum - limit) {
      assert Unsigned(add) == add;
      WrapOnce(Unsigned(limit) + add);
    }
  }

  lemma WrapOnce(x: int)
    requires -TWO64 <= x < 2 * TWO64
    ensures x < 0 ==> x % TWO64 == x + TWO64
    ensures 0 <= x < TWO64 ==> x % TWO64 == x
    ensures TWO64 <= x ==> x % TWO64 == x - TWO64
  {
  }

  /** Ticks from one reading of the counter to another. */
  function TicksSince(last: nat, now: nat): nat
  {
    (now - last) % TWO32
  }

  /** ev_token_bucket_update on values: time that stands still or goes back is ignored. */
  function Updated(b: Bucket, c: Cfg, now: nat): Bucket
  {
    var n := TicksSince(b.lastUpdated, now);
    if n == 0 || n > INT_MAX then b
    else Bucket(Refill(b.readLimit, c.read, n), Refill(b.writeLimit, c.write, n), now)
  }

  lemma SameTime(b: Bucket, c: Cfg)
    ensures Updated(b, c, b.lastUpdated) == b
  {
  }

  predicate WithinMaximum(b: Bucket, c: Cfg)
  {
    b.readLimit <= c.read.maximum && b.writeLimit <= c.write.maximum
  }

  /** A refill over the maximum, as a credit may leave a bucket: the maximum does not hold
      it, until the sum is too large for 64 bits and wraps round. */
  lemma RefillOver(limit: int, r: Rate, n: nat)
    requires InRange(limit) && RateOk(r) && limit > r.maximum && 0 < n <= INT_MAX
    ensures limit + n * r.rate < TWO63 ==> Refill(limit, r, n) == limit + n * r.rate
    ensures TWO63 <= limit + n * r.rate <= TWO64 ==> Refill(limit, r, n) == limit + n * r.rate - TWO64
    ensures limit + n * r.rate > TWO64 ==> Refill(limit, r, n) == Min(r.maximum, limit + n * r.rate - TWO64)
    ensures limit + n * r.rate > limit
  {
    var add := n * r.rate;
    DivLess(Unsigned(r.maximum - limit), n, r.rate);
    AddsOne(n, r.rate);
    WrapOnce(limit);
    WrapOnce(r.maximum - limit);
    if add <= TWO64 + r.maximum - limit {
      assert Unsigned(add) == add;
      WrapOnce(limit + add);
    }
  }

  lemma AddsOne(n: nat, rate: nat)
    requires n > 0 && rate > 0
    ensures n * rate >= rate
  {
    Distribute(n - 1, 1, rate);
    assert (n - 1) * rate >= 0;
  }

  /** Two credits that show it: the maximum of 100 is passed without bytes moving, and a
      bucket as full as can be becomes one in debt. */
  lemma CreditPassesMaximum(n: nat)
    requires 0 < n <= INT_MAX
    ensures Refill(150, Rate(10, 100), n) == 150 + 10 * n > 100
    ensures Refill(TWO63 - 1, Rate(1, 100), 1) == -TWO63
  {
    RefillOver(150, Rate(10, 100), n);
    RefillOver(TWO63 - 1, Rate(1, 100), 1);
  }

  /** A refill does not wrap round to a debt. */
  predicate Steady(limit: int, r: Rate, n: nat)
  {
    limit <= r.maximum || limit + n * r.rate < TWO63 || limit + n * r.rate > TWO64
  }

  /** Bytes to move stay bytes to move exactly if the refill is steady; a debt only shrinks;
      and no refill gives more than the rate allows. */
  lemma RefillSteady(limit: int, r: Rate, n: nat)
    requires InRange(limit) && RateOk(r) && 0 < n <= INT_MAX
    ensures InRange(Refill(limit, r, n)) && Refill(limit, r, n) <= limit + n * r.rate
    ensures limit > 0 ==> (Refill(limit, r, n) > 0 <==> Steady(limit, r, n))
    ensures limit <= 0 ==> Steady(limit, r, n) && Refill(limit, r, n) >= limit
  {
    hide Refill;
    if limit <= r.maximum {
      RefillWithin(limit, r, n, n * r.rate);
    } else {
      RefillOver(limit, r, n);
    }
  }

  /** An update takes no bytes away from a bucket within its maximum, and keeps it there. */
  lemma UpdatedOk(b: Bucket, c: Cfg, now: nat)
    requires BucketOk(b) && CfgOk(c) && now < TWO32
    ensures var u := Updated(b, c, now);
      && BucketOk(u)
      && (WithinMaximum(b, c) ==> WithinMaximum(u, c) && b.readLimit <= u.readLimit && b.writeLimit <= u.writeLimit)
  {
    hide Refill;
    var n := TicksSince(b.lastUpdated, now);
    if 0 < n <= INT_MAX {
      RefillSteady(b.readLimit, c.read, n);
      RefillSteady(b.writeLimit, c.write, n);
      if WithinMaximum(b, c) {
        RefillWithin(b.readLimit, c.read, n, n * c.read.rate);
        RefillWithin(b.writeLimit, c.write, n, n * c.write.rate);
      }
    }
  }

  /** A limit is within its maximum, or n ticks do not take it out of 64 bits. */
  predicate Lasts(limit: int, r: Rate, n: nat)
  {
    limit <= r.maximum || limit + n * r.rate < TWO63
  }

  /** Updating at one tick and then at another is updating at the other, across any
      wrap-round of the counter. */
  lemma UpdateTwice(b: Bucket, c: Cfg, t: nat, u: nat)
    requires BucketOk(b) && CfgOk(c) && t < TWO32 && u < TWO32
    requires TicksSince(b.lastUpdated, t) + TicksSince(t, u) <= INT_MAX
    requires Lasts(b.readLimit, c.read, TicksSince(b.lastUpdated, t) + TicksSince(t, u))
    requires Lasts(b.writeLimit, c.write, TicksSince(b.lastUpdated, t) + TicksSince(t, u))
    ensures Updated(Updated(b, c, t), c, u) == Updated(b, c, u)
  {
    hide TicksSince;
    hide Refill;
    hide RateOk;
    hide Lasts;
    var m, n := TicksSince(b.lastUpdated, t), TicksSince(t, u);
    TicksAdd(b.lastUpdated, t, u);
    UpdatedOk(b, c, t);
    if m > 0 && n > 0 {
      TwoRefills(b.readLimit, c.read, m, n);
      TwoRefills(b.writeLimit, c.write, m, n);
    } else if m == 0 {
      SameTick(b.lastUpdated, t);
    } else {
      SameTick(t, u);
    }
  }

  lemma SameTick(last: nat, now: nat)
    requires last < TWO32 && now < TWO32 && TicksSince(last, now) == 0
    ensures last == now
  {
  }

  lemma TicksAdd(s: nat, t: nat, u: nat)
    requires s < TWO32 && t < TWO32 && u < TWO32 && TicksSince(s, t) + TicksSince(t, u) <= INT_MAX
    ensures TicksSince(s, u) == TicksSince(s, t) + TicksSince(t, u)
  {
  }

  lemma TwoRefills(limit: int, r: Rate, m: nat, n: nat)
    requires InRange(limit) && RateOk(r) && m > 0 && n > 0 && m + n <= INT_MAX && Lasts(limit, r, m + n)
    ensures Refill(Refill(limit, r, m), r, n) == Refill(limit, r, m + n)
  {
    hide Refill;
    Distribute(m, n, r.rate);
    if limit > r.maximum {
      AddsOne(n, r.rate);
      RefillOver(limit, r, m);
      RefillOver(limit + m * r.rate, r, n);
      RefillOver(limit, r, m + n);
      return;
    }
    RefillWithin(limit, r, m, m * r.rate);
    RefillWithin(Refill(limit, r, m), r, n, n * r.rate);
    RefillWithin(limit, r, m + n, (m + n) * r.rate);
  }

  lemma Distribute(m: nat, n: nat, rate: nat)
    ensures (m + n) * rate == m * rate + n * rate
  {
  }

  /** A refill of a bucket that is not over its maximum. */
  lemma RefillWithin(limit: int, r: Rate, n: nat, add: nat)
    requires InRange(limit) && RateOk(r) && limit <= r.maximum && 0 < n <= INT_MAX && add == n * r.rate
    ensures add >= r.rate && Refill(limit, r, n) == Min(r.maximum, limit + add) >= limit
  {
    hide Refill;
    RefillIsNaive(limit, r, n);
    Distribute(n - 1, 1, r.rate);
    assert (n - 1) * r.rate >= 0;
  }

  /** ev_token_bucket_init. */
  function Initialized(b: Bucket, c: Cfg, now: nat, reinitialize: bool): Bucket
  {
    if reinitialize then Bucket(Min(b.readLimit, c.read.maximum), Min(b.writeLimit, c.write.maximum), b.lastUpdated)
    else Bucket(c.read.rate, c.write.rate, now)
  }

  lemma InitializedOk(b: Bucket, c: Cfg, now: nat, reinitialize: bool)
    requires CfgOk(c) && now < TWO32 && (reinitialize ==> BucketOk(b))
    ensures var r := Initialized(b, c, now, reinitialize);
      && BucketOk(r) && WithinMaximum(r, c) && r.lastUpdated == (if reinitialize then b.lastUpdated else now)
      && (!reinitialize ==> r.readLimit == c.read.rate && r.writeLimit == c.write.rate)
      && (reinitialize && WithinMaximum(b, c) ==> r == b)
      && (reinitialize && b.readLimit > c.read.maximum ==> r.readLimit == c.read.maximum)
      && (reinitialize && b.writeLimit > c.write.maximum ==> r.writeLimit == c.write.maximum)
      && (reinitialize ==> r.readLimit <= b.readLimit && r.writeLimit <= b.writeLimit)
  {
  }

  /** A run of one direction: ticks that pass, bytes that move, and credits by the user. */
  datatype Act = Ticks(n: nat) | Move(bytes: nat) | Credit(more: nat)

  /** Bytes move only as far as the limit reported, and none when it is used up; the limit
      stays a number of 64 bits. */
  predicate Respects(limit: int, r: Rate, acts: seq<Act>)
    decreases |acts|
  {
    acts == [] || (&& (acts[0].Ticks? ==> 0 < acts[0].n <= INT_MAX)
                   && (acts[0].Move? ==> acts[0].bytes == 0 || acts[0].bytes <= limit)
                   && (acts[0].Credit? ==> InRange(limit + acts[0].more))
                   && Respects(After(limit, r, acts[0]), r, acts[1..]))
  }

  function After(limit: int, r: Rate, act: Act): int
  {
    match act
    case Ticks(n) => if n == 0 then limit else Refill(limit, r, n)
    case Move(bytes) => limit - bytes
    case Credit(more) => limit + more
  }

  function Moved(acts: seq<Act>): nat
  {
    if acts == [] then 0 else (if acts[0].Move? then acts[0].bytes else 0) + Moved(acts[1..])
  }

  function Passed(acts: seq<Act>): nat
  {
    if acts == [] then 0 else (if acts[0].Ticks? then acts[0].n else 0) + Passed(acts[1..])
  }

  function Credited(acts: seq<Act>): nat
  {
    if acts == [] then 0 else (if acts[0].Credit? then acts[0].more else 0) + Credited(acts[1..])
  }

  /** What a run moves, waits and is credited is what its parts do. */
  lemma {:induction false} Tallies(a: seq<Act>, b: seq<Act>)
    ensures Moved(a + b) == Moved(a) + Moved(b) && Passed(a + b) == Passed(a) + Passed(b)
    ensures Credited(a + b) == Credited(a) + Credited(b)
    ensures |a| == 1 ==>
      match a[0]
      case Ticks(n) => Moved(a) == 0 && Passed(a) == n && Credited(a) == 0
      case Move(bytes) => Moved(a) == bytes && Passed(a) == 0 && Credited(a) == 0
      case Credit(more) => Moved(a) == 0 && Passed(a) == 0 && Credited(a) == more
  {
    if a == [] {
      assert a + b == b;
    } else {
      Tallies(a[1..], b);
      assert (a + b)[1..] == a[1..] + b;
    }
  }

  /** The limit at the end of a run. */
  function Ended(limit: int, r: Rate, acts: seq<Act>): int
    decreases |acts|
  {
    if acts == [] then limit else Ended(After(limit, r, acts[0]), r, acts[1..])
  }

  /** Between two ticks nothing is lost: the limit is what it was, less what was moved, and
      with what was credited. */
  lemma {:induction false} BetweenTicks(limit: int, r: Rate, acts: seq<Act>)
    requires forall act | act in acts :: !act.Ticks?
    ensures Ended(limit, r, acts) == limit - Moved(acts) + Credited(acts)
    decreases |acts|
  {
    if acts != [] {
      BetweenTicks(After(limit, r, acts[0]), r, acts[1..]);
    }
  }

  function Positive(limit: int): nat
  {
    if limit > 0 then limit else 0
  }

  /** Over any stretch of a run, bytes moved are at most what the bucket held, the rate times
      the ticks passed, and the credits; and the bucket held at most the burst unless a
      credit had filled it over its maximum. */
  lemma {:induction false} WindowBound(limit: int, r: Rate, acts: seq<Act>)
    requires InRange(limit) && RateOk(r) && Respects(limit, r, acts)
    ensures Moved(acts) <= Positive(limit) + Passed(acts) * r.rate + Credited(acts)
    ensures limit <= r.maximum ==> Moved(acts) <= r.maximum + Passed(acts) * r.rate + Credited(acts)
    decreases |acts|
  {
    hide Refill;
    ghost var rest := if acts == [] then 0 else Passed(acts[1..]);
    if acts != [] {
      if acts[0].Ticks? {
        RefillSteady(limit, r, acts[0].n);
        Distribute(acts[0].n, rest, r.rate);
      }
      WindowBound(After(limit, r, acts[0]), r, acts[1..]);
    } else {
      assert Passed(acts) * r.rate == 0;
    }
  }

  /** The limit after some refills, each of at least one tick. */
  function Refilled(limit: int, r: Rate, ticks: seq<nat>): int
  {
    if ticks == [] then limit else After(Refilled(limit, r, ticks[..|ticks| - 1]), r, Ticks(ticks[|ticks| - 1]))
  }

  /** A debt is paid off by as many refills as it is worth ticks, and one more. */
  lemma {:induction false} DebtEnds(limit: int, r: Rate, ticks: seq<nat>)
    requires InRange(limit) && RateOk(r) && limit <= r.maximum && forall i | 0 <= i < |ticks| :: 0 < ticks[i] <= INT_MAX
    ensures limit <= Refilled(limit, r, ticks) <= r.maximum
    ensures Refilled(limit, r, ticks) >= Min(r.maximum, limit + |ticks| * r.rate)
    ensures limit <= 0 && |ticks| > (-limit) / r.rate ==> Refilled(limit, r, ticks) > 0
  {
    hide Refill;
    var k := |ticks|;
    if k > 0 {
      var n := ticks[k - 1];
      DebtEnds(limit, r, ticks[..k - 1]);
      RefillWithin(Refilled(limit, r, ticks[..k - 1]), r, n, n * r.rate);
      Distribute(k - 1, 1, r.rate);
    } else {
      assert k * r.rate == 0;
    }
    if limit <= 0 && k > (-limit) / r.rate {
      DivLess(-limit, r.rate, k);
      assert k * r.rate > -limit;
    }
  }
}
