/** Runs of one bufferevent, and of a group of them, under their bandwidth limits
    (deps/libevent/bufferevent_ratelim.c). */
module RateRuns {
  import opened TokenBucket
  import opened Bufferevents

  /** A limit, by the configuration that a user has made for it. */
  datatype LimitTo = Unlimited | By(id: nat)

  /** Something that happens to a bufferevent. */
  datatype BevOp =
    | Switch(isWrite: bool, on: bool)
    | High(length: nat, high: nat, setting: bool)
    | SetLimit(to: LimitTo, now: nat)
    | Transfers(isWrite: bool, want: nat, now: nat)
    | Decrement(isWrite: bool, decr: int)
    | Refill(now: nat)

  datatype Answer = Skipped | Done(moved: nat)

  ghost predicate BookOk(book: map<nat, Cfg>)
  {
    forall id | id in book :: CfgOk(book[id])
  }

  predicate OpFits(op: BevOp, book: map<nat, Cfg>)
  {
    match op
    case SetLimit(to, now) => now < TWO32 && (to.By? ==> to.id in book)
    case Transfers(_, _, now) => now < TWO32
    case Refill(now) => now < TWO32
    case _ => true
  }

  function Chosen(book: map<nat, Cfg>, to: LimitTo): (r: MaybeCfg)
    ensures r.SomeCfg? <==> to.By? && to.id in book
    ensures r.SomeCfg? ==> r.id == to.id && r.cfg == book[to.id]
  {
    if to.By? && to.id in book then SomeCfg(to.id, book[to.id]) else NoCfg
  }

  /** A limit in force is one of the user's. */
  predicate InBook(rlim: MaybeCfg, book: map<nat, Cfg>)
  {
    rlim.SomeCfg? ==> rlim.id in book && book[rlim.id] == rlim.cfg
  }

  /** The operation has an update that loses a stall, or a decrement that does not fit, or one
      without a limit, on which the source asserts. */
  predicate Harms(bev: Bev, op: BevOp)
    reads bev
  {
    match op
    case Transfers(_, _, now) => !bev.Survives(now)
    case Refill(now) => bev.refill && !bev.Survives(now)
    case Decrement(isWrite, decr) => bev.rlim.NoCfg? || !InRange(Limit(bev.bucket, isWrite) - decr)
    case _ => false
  }

  /** What a direction has got and moved since its limit was set: the limit then, the ticks
      passed, the credits, and the bytes. */
  datatype Tally = Tally(start: int, ticks: nat, credits: nat, moved: nat)

  /** The books of a bufferevent, kept without its suspensions and its timer. */
  datatype Account = Account(rlim: MaybeCfg, bucket: Bucket, rd: Tally, wr: Tally)
  {
    function Get(isWrite: bool): Tally
    {
      if isWrite then wr else rd
    }

    function With(isWrite: bool, t: Tally): Account
    {
      if isWrite then this.(wr := t) else this.(rd := t)
    }
  }

  function Opened(rlim: MaybeCfg, bucket: Bucket): Account
  {
    Account(rlim, bucket, Tally(bucket.readLimit, 0, 0, 0), Tally(bucket.writeLimit, 0, 0, 0))
  }

  /** Time passes: the ticks since the last update that counted. */
  function Renewed(a: Account, now: nat): Account
  {
    if a.rlim.NoCfg? then a
    else
      var n := TicksSince(a.bucket.lastUpdated, now);
      if n == 0 || n > INT_MAX then a
      else
        a.(bucket := Updated(a.bucket, a.rlim.cfg, now),
           rd := a.rd.(ticks := a.rd.ticks + n),
           wr := a.wr.(ticks := a.wr.ticks + n))
  }

  /** Takes from a bucket, or gives to it. */
  function Taken(a: Account, isWrite: bool, bytes: int): Account
  {
    if a.rlim.NoCfg? then a
    else a.(bucket := WithLimit(a.bucket, isWrite, Limit(a.bucket, isWrite) - bytes))
  }

  function Booked(a: Account, book: map<nat, Cfg>, op: BevOp, answer: Answer): Account
  {
    if answer.Skipped? then a
    else
      match op
      case SetLimit(to, now) =>
        var rlim := Chosen(book, to);
        if rlim == a.rlim then a
        else if rlim.NoCfg? then Opened(NoCfg, a.bucket)
        else Opened(rlim, Initialized(a.bucket, rlim.cfg, now, a.rlim.SomeCfg?))
      case Transfers(isWrite, _, now) =>
        var b := Taken(Renewed(a, now), isWrite, answer.moved);
        b.With(isWrite, b.Get(isWrite).(moved := b.Get(isWrite).moved + answer.moved))
      case Decrement(isWrite, decr) =>
        var b := Taken(a, isWrite, decr);
        b.With(isWrite, b.Get(isWrite).(credits := b.Get(isWrite).credits + if decr < 0 then -decr else 0))
      case Refill(now) => Renewed(a, now)
      case _ => a
  }

  function Books(book: map<nat, Cfg>, ops: seq<BevOp>, answers: seq<Answer>): Account
    requires |ops| == |answers|
  {
    if ops == [] then Opened(NoCfg, Bucket(0, 0, 0))
    else
      var n := |ops| - 1;
      Booked(Books(book, ops[..n], answers[..n]), book, ops[n], answers[n])
  }

  lemma BooksMore(book: map<nat, Cfg>, ops: seq<BevOp>, answers: seq<Answer>, n: nat, answer: Answer)
    requires |answers| == n < |ops|
    ensures Books(book, ops[..n + 1], answers + [answer])
      == Booked(Books(book, ops[..n], answers), book, ops[n], answer)
  {
    assert ops[..n + 1][..n] == ops[..n] && (answers + [answer])[..n] == answers;
  }

  /** What one operation moves in a direction. */
  function MovedBy(op: BevOp, answer: Answer, isWrite: bool): nat
  {
    if op.Transfers? && op.isWrite == isWrite && answer.Done? then answer.moved else 0
  }

  /** What one operation credits to a direction. */
  function CreditBy(op: BevOp, answer: Answer, isWrite: bool): nat
  {
    if op.Decrement? && op.isWrite == isWrite && op.decr < 0 && answer.Done? then -op.decr else 0
  }

  /** What a stretch of a run moves in a direction. */
  function MovedIn(ops: seq<BevOp>, answers: seq<Answer>, isWrite: bool, from: nat, end: nat): nat
    requires end <= |ops| && end <= |answers|
    decreases end
  {
    if end <= from then 0
    else MovedIn(ops, answers, isWrite, from, end - 1) + MovedBy(ops[end - 1], answers[end - 1], isWrite)
  }

  /** Some ticks go by from one time of update to another, modulo 2^32. */
  predicate OnTime(was: Bucket, ticks: int, now: Bucket)
  {
    (was.lastUpdated + ticks) % TWO32 == now.lastUpdated % TWO32
  }

  lemma NoTicks(was: Bucket, now: Bucket)
    requires was.lastUpdated == now.lastUpdated
    ensures OnTime(was, 0, now)
  {
  }

  lemma RenewedIs(a: Account, now: nat, isWrite: bool)
    requires now < TWO32 && (a.rlim.SomeCfg? ==> BucketOk(a.bucket))
    ensures var r := Renewed(a, now); var t, t' := a.Get(isWrite), r.Get(isWrite);
      && r.rlim == a.rlim && t'.start == t.start && t'.moved == t.moved && t'.credits == t.credits
      && t'.ticks >= t.ticks && OnTime(a.bucket, t'.ticks - t.ticks, r.bucket)
  {
    hide TokenBucket.Refill;
  }

  lemma TakenIs(was: Bucket, ticks: int, a: Account, isWrite: bool, bytes: int)
    ensures var r := Taken(a, isWrite, bytes);
      && r.rlim == a.rlim && r.rd == a.rd && r.wr == a.wr
      && (OnTime(was, ticks, a.bucket) <==> OnTime(was, ticks, r.bucket))
  {
  }

  /** What is booked: a new limit opens new books; under the same limit, the bytes moved, the
      credits, and, modulo 2^32, the ticks by which the time of the last update has gone on. */
  lemma BookedIs(a: Account, book: map<nat, Cfg>, op: BevOp, answer: Answer, isWrite: bool)
    requires OpFits(op, book) && (a.rlim.SomeCfg? ==> CfgOk(a.rlim.cfg) && BucketOk(a.bucket))
    ensures var b := Booked(a, book, op, answer); var was, now := a.Get(isWrite), b.Get(isWrite);
      if b.rlim != a.rlim then op.SetLimit? && now == Tally(Limit(b.bucket, isWrite), 0, 0, 0)
      else
        && now.start == was.start && now.moved == was.moved + MovedBy(op, answer, isWrite)
        && now.credits == was.credits + CreditBy(op, answer, isWrite) && now.ticks >= was.ticks
        && OnTime(a.bucket, now.ticks - was.ticks, b.bucket)
  {
    hide OnTime;
    hide Renewed;
    hide Initialized;
    hide Taken;
    NoTicks(a.bucket, a.bucket);
    if op.Transfers? || op.Refill? {
      RenewedIs(a, op.now, isWrite);
    }
    if answer.Done? {
      match op
      case Transfers(w, _, now) =>
        var r := Renewed(a, now);
        TakenIs(a.bucket, r.Get(isWrite).ticks - a.Get(isWrite).ticks, r, w, answer.moved);
      case Decrement(w, decr) => TakenIs(a.bucket, 0, a, w, decr);
      case _ =>
    }
  }

  /** Since a limit was set, the bytes booked are all that were moved. */
  lemma {:induction false} MovedIs(book: map<nat, Cfg>, ops: seq<BevOp>, answers: seq<Answer>, isWrite: bool, k: nat)
    requires k <= |ops| == |answers| && forall i | k <= i < |ops| :: !ops[i].SetLimit?
    ensures Books(book, ops, answers).Get(isWrite).moved
      == Books(book, ops[..k], answers[..k]).Get(isWrite).moved + MovedIn(ops, answers, isWrite, k, |ops|)
    decreases |ops|
  {
    var n := |ops| - 1;
    if k > n {
      assert ops[..k] == ops && answers[..k] == answers;
    } else {
      MovedIs(book, ops[..n], answers[..n], isWrite, k);
      assert ops[..n][..k] == ops[..k] && answers[..n][..k] == answers[..k];
      SameMoved(ops, answers, isWrite, k, n);
      hide Updated;
    }
  }

  lemma {:induction false} SameMoved(ops: seq<BevOp>, answers: seq<Answer>, isWrite: bool, k: nat, end: nat)
    requires end < |ops| == |answers|
    ensures MovedIn(ops[..|ops| - 1], answers[..|ops| - 1], isWrite, k, end) == MovedIn(ops, answers, isWrite, k, end)
    decreases end
  {
    if end > k {
      SameMoved(ops, answers, isWrite, k, end - 1);
    }
  }

  /** What the bucket holds and what was moved are together no more than it was given. */
  predicate Conserved(t: Tally, limit: int, r: Rate)
  {
    limit + t.moved <= t.start + t.ticks * r.rate + t.credits
  }

  /** And the bytes moved were in it. */
  predicate Bounded(t: Tally, limit: int, r: Rate)
  {
    Conserved(t, limit, r) && t.moved <= Positive(t.start) + t.ticks * r.rate + t.credits
  }

  /** Both directions of a bufferevent with a limit. */
  predicate Balanced(a: Account)
  {
    a.rlim.SomeCfg? ==>
      && CfgOk(a.rlim.cfg) && BucketOk(a.bucket)
      && Bounded(a.rd, a.bucket.readLimit, a.rlim.cfg.read)
      && Bounded(a.wr, a.bucket.writeLimit, a.rlim.cfg.write)
  }

  /** Both directions of a group, which may move more than its bucket holds. */
  predicate Sane(a: Account)
  {
    a.rlim.SomeCfg? ==>
      && CfgOk(a.rlim.cfg) && BucketOk(a.bucket)
      && Conserved(a.rd, a.bucket.readLimit, a.rlim.cfg.read)
      && Conserved(a.wr, a.bucket.writeLimit, a.rlim.cfg.write)
  }

  /** The books are those of the bufferevent. */
  predicate Agrees(bev: Bev, a: Account)
    reads bev
  {
    a.rlim == bev.rlim && (bev.rlim.SomeCfg? ==> a.bucket == bev.bucket)
  }

  /** What is moved fits in the bucket, and a decrement in its type. */
  predicate Allowed(a: Account, op: BevOp, answer: Answer)
  {
    answer.Done? && a.rlim.SomeCfg? ==>
      match op
      case Transfers(isWrite, _, now) =>
        answer.moved == 0 || answer.moved <= Limit(Renewed(a, now).bucket, isWrite)
      case Decrement(isWrite, decr) => InRange(Limit(a.bucket, isWrite) - decr)
      case SetLimit(_, now) => now < TWO32
      case Refill(now) => now < TWO32
      case _ => true
  }

  lemma RenewedBalanced(a: Account, now: nat)
    requires Balanced(a) && now < TWO32
    ensures Balanced(Renewed(a, now))
  {
    if a.rlim.SomeCfg? {
      UpdatedOk(a.bucket, a.rlim.cfg, now);
      var n := TicksSince(a.bucket.lastUpdated, now);
      if 0 < n <= INT_MAX {
        RefillSteady(a.bucket.readLimit, a.rlim.cfg.read, n);
        RefillSteady(a.bucket.writeLimit, a.rlim.cfg.write, n);
        MoreTicks(a.rd.ticks, n, a.rlim.cfg.read.rate);
        MoreTicks(a.wr.ticks, n, a.rlim.cfg.write.rate);
      }
    }
  }

  lemma MoreTicks(m: nat, n: nat, rate: nat)
    ensures (m + n) * rate == m * rate + n * rate
    ensures n * rate >= 0 && m * rate >= 0
  {
  }

  /** Whatever happens, the books stay balanced. */
  lemma BookedBalanced(a: Account, book: map<nat, Cfg>, op: BevOp, answer: Answer)
    requires Balanced(a) && BookOk(book) && OpFits(op, book) && Allowed(a, op, answer)
    ensures Balanced(Booked(a, book, op, answer))
  {
    hide Updated;
    hide TokenBucket.Refill;
    match op
    case SetLimit(to, now) =>
      var rlim := Chosen(book, to);
      if rlim.SomeCfg? && answer.Done? && rlim != a.rlim {
        InitializedOk(a.bucket, rlim.cfg, now, a.rlim.SomeCfg?);
      }
    case Transfers(_, _, now) => RenewedBalanced(a, now);
    case Refill(now) => RenewedBalanced(a, now);
    case _ =>
  }

  lemma RenewedSane(a: Account, now: nat)
    requires Sane(a) && now < TWO32
    ensures Sane(Renewed(a, now))
  {
    if a.rlim.SomeCfg? {
      UpdatedOk(a.bucket, a.rlim.cfg, now);
      var n := TicksSince(a.bucket.lastUpdated, now);
      if 0 < n <= INT_MAX {
        RefillSteady(a.bucket.readLimit, a.rlim.cfg.read, n);
        RefillSteady(a.bucket.writeLimit, a.rlim.cfg.write, n);
        MoreTicks(a.rd.ticks, n, a.rlim.cfg.read.rate);
        MoreTicks(a.wr.ticks, n, a.rlim.cfg.write.rate);
      }
    }
  }

  /** One operation keeps the stalls of a bufferevent, and its books. */
  method Act(bev: Bev, book: map<nat, Cfg>, op: BevOp, ghost a: Account) returns (answer: Answer)
    requires bev.Valid() && InBook(bev.rlim, book) && BookOk(book) && OpFits(op, book) && !Harms(bev, op)
    requires op.Transfers? ==> bev.group == null
    requires Agrees(bev, a)
    modifies bev`rd, bev`wr, bev`bucket, bev`refill, bev`rlim
    ensures bev.Valid() && InBook(bev.rlim, book)
    ensures forall w :: BW_GROUP in bev.Get(w).suspended <==> old(BW_GROUP in bev.Get(w).suspended)
    ensures Agrees(bev, Booked(a, book, op, answer)) && Allowed(a, op, answer)
    ensures op.Transfers? ==>
      answer == Done(if old(bev.Get(op.isWrite)).suspended != {} then 0
                     else Least(op.want, Clamp(old(bev.Allowance(op.isWrite, op.now)))))
    ensures answer.Skipped? <==> op.Refill? && !old(bev.refill)
    ensures op.SetLimit? ==> bev.rlim == if op.to.By? then SomeCfg(op.to.id, book[op.to.id]) else NoCfg
    ensures !op.Decrement? && old(bev.Capped()) ==> bev.Capped()
  {
    hide TokenBucket.Refill;
    answer := Done(0);
    match op {
      case Switch(isWrite, on) => bev.Enable(isWrite, on);
      case High(length, high, setting) => bev.Watermark(length, high, setting);
      case SetLimit(to, now) =>
        var rlim := Chosen(book, to);
        if rlim.SomeCfg? {
          InitializedOk(bev.bucket, rlim.cfg, now, bev.rlim.SomeCfg?);
        }
        bev.SetRateLimit(rlim, now);
      case Transfers(isWrite, want, now) =>
        if bev.rlim.SomeCfg? {
          bev.UpdateKeeps(now);
        }
        var moved := bev.Transfer(isWrite, want, now);
        answer := Done(moved);
      case Decrement(isWrite, decr) => bev.DecrementLimit(isWrite, decr);
      case Refill(now) =>
        if bev.refill {
          bev.UpdateKeeps(now);
          bev.RefillCallback(now);
        } else {
          answer := Skipped;
        }
    }
    forall w ensures BW_GROUP in bev.Get(w).suspended <==> old(BW_GROUP in bev.Get(w).suspended) {
      Without(bev.Get(w).suspended, old(bev.Get(w).suspended), if op.High? then WM else BW);
    }
  }

  lemma Without(s: set<Reason>, s': set<Reason>, what: Reason)
    requires what != BW_GROUP
    ensures s - {what} == s' - {what} ==> (BW_GROUP in s <==> BW_GROUP in s')
  {
    if s - {what} == s' - {what} {
      assert BW_GROUP in s <==> BW_GROUP in s - {what};
    }
  }

  /** Any run of a new bufferevent: the user switches, sets limits and watermarks and gives
      credits, bytes move, and the refill timer runs out.  Every stall is kept; the buckets
      are those of the books; and in each direction the bytes moved since the limit was set
      are no more than it started with, the rate gives and the credits gave.  The run stops
      only before an operation that harms it. */
  method BevRun(book: map<nat, Cfg>, ops: seq<BevOp>) returns (bev: Bev, answers: seq<Answer>)
    requires BookOk(book) && forall op | op in ops :: OpFits(op, book)
    ensures bev.Valid() && |answers| <= |ops| && (|answers| < |ops| ==> Harms(bev, ops[|answers|]))
    ensures var a := Books(book, ops[..|answers|], answers); Agrees(bev, a) && Balanced(a)
  {
    hide BookOk;
    hide OpFits;
    hide Harms;
    hide Booked;
    hide Balanced;
    hide Bev.Valid;
    bev := new Bev();
    answers := [];
    ghost var a := Opened(NoCfg, Bucket(0, 0, 0));
    NoneBalanced();
    while |answers| < |ops|
      invariant |answers| <= |ops| && fresh(bev) && bev.Valid() && InBook(bev.rlim, book) && bev.group == null
      invariant a == Books(book, ops[..|answers|], answers) && Agrees(bev, a) && Balanced(a)
    {
      var n := |answers|;
      assert ops[n] in ops;
      if Harms(bev, ops[n]) {
        return;
      }
      var answer := Act(bev, book, ops[n], a);
      BookedBalanced(a, book, ops[n], answer);
      BooksMore(book, ops, answers, n, answer);
      a := Booked(a, book, ops[n], answer);
      answers := answers + [answer];
    }
  }

  lemma NoneBalanced()
    ensures Balanced(Opened(NoCfg, Bucket(0, 0, 0)))
  {
  }

  /** Something that happens to a group.  Members whose numbers are in busy cannot be locked. */
  datatype GroupOp =
    | Enter(to: LimitTo, now: nat)
    | Leave(i: nat)
    | Moves(i: nat, isWrite: bool, want: nat, now: nat, busy: set<nat>, random: nat)
    | Own(i: nat, op: BevOp)
    | Tick(now: nat, busyReading: set<nat>, busyWriting: set<nat>, random: nat)
    | Charge(isWrite: bool, decr: int, busy: set<nat>, random: nat)
    | Configure(cfg: Cfg)
    | Share(share: nat)

  predicate GroupOpFits(op: GroupOp, book: map<nat, Cfg>)
  {
    match op
    case Enter(to, now) => now < TWO32 && (to.By? ==> to.id in book)
    case Moves(_, _, _, now, _, _) => now < TWO32
    case Own(_, own) => OpFits(own, book) && !own.Transfers?
    case Tick(now, _, _, _) => now < TWO32
    case Configure(cfg) => CfgOk(cfg)
    case _ => true
  }

  /** The operation has an update that loses a stall of the group or of the member it is
      about, or a decrement that does not fit. */
  predicate HarmsGroup(g: Group, op: GroupOp)
    reads g, g.members
  {
    match op
    case Moves(i, _, _, now, _, _) => i < |g.members| && !g.members[i].Survives(now)
    case Own(i, own) => i < |g.members| && Harms(g.members[i], own)
    case Tick(now, _, _, _) => !g.Survives(false, now) || !g.Survives(true, now)
    case Charge(isWrite, decr, _, _) => !InRange(Limit(g.bucket, isWrite) - decr)
    case _ => false
  }

  /** Nobody gives credits or takes what has not been moved, and the group stays as it is. */
  predicate Gentle(op: GroupOp)
  {
    !op.Charge? && !op.Configure? && !op.Share? && (op.Own? ==> !op.op.Decrement?)
  }

  /** A run keeps the group, and the limits of its members are the user's. */
  ghost predicate Kept(g: Group, book: map<nat, Cfg>)
    reads g, g.crowd, g.members
  {
    g.Valid() && forall j | 0 <= j < |g.members| :: InBook(g.members[j].rlim, book)
  }

  /** What gentle operations keep as well: a debt below one share, and no bucket over its
      maximum. */
  ghost predicate Sound(g: Group)
    reads g, g.members
  {
    && g.Capped() && g.SmallDebt()
    && forall j | 0 <= j < |g.members| :: g.members[j].Capped()
  }

  function Numbered(members: seq<Bev>, numbers: set<nat>): set<Bev>
  {
    set j | j in numbers && j < |members| :: members[j]
  }

  /** Gentle operations never harm a sound group. */
  lemma SoundHolds(g: Group, op: GroupOp, book: map<nat, Cfg>)
    requires Kept(g, book) && Sound(g) && Gentle(op) && GroupOpFits(op, book)
    ensures !HarmsGroup(g, op)
  {
    hide Group.Members;
    hide Group.Stops;
    match op
    case Moves(i, _, _, now, _, _) =>
      if i < |g.members| {
        g.members[i].CappedSurvives(now);
      }
    case Own(i, own) =>
      if i < |g.members| && own.Refill? {
        g.members[i].CappedSurvives(own.now);
      }
    case Tick(now, _, _, _) => g.CappedSurvives(now);
    case _ =>
  }

  // The books of a group.

  /** What the group and its members have got and moved, and the share asked for. */
  datatype Ledger = Ledger(group: Account, share: nat, members: seq<Account>)

  /** What a member that has just come has in its books. */
  function Entered(book: map<nat, Cfg>, to: LimitTo, now: nat): Account
  {
    Booked(Opened(NoCfg, Bucket(0, 0, 0)), book, SetLimit(to, now), Done(0))
  }

  /** A transfer is booked twice; the time of the group goes on with its own ticks only. */
  function Posted(l: Ledger, book: map<nat, Cfg>, op: GroupOp, answer: Answer): Ledger
  {
    match op
    case Enter(to, now) => l.(members := l.members + [Entered(book, to, now)])
    case Leave(i) => if i < |l.members| then l.(members := l.members[..i] + l.members[i + 1..]) else l
    case Moves(i, isWrite, want, now, _, _) =>
      if i < |l.members| then
        l.(group := Booked(l.group, book, Transfers(isWrite, want, l.group.bucket.lastUpdated), answer),
           members := l.members[i := Booked(l.members[i], book, Transfers(isWrite, want, now), answer)])
      else l
    case Own(i, own) =>
      if i < |l.members| then l.(members := l.members[i := Booked(l.members[i], book, own, answer)]) else l
    case Tick(now, _, _, _) => l.(group := Booked(l.group, book, Refill(now), answer))
    case Charge(isWrite, decr, _, _) => l.(group := Booked(l.group, book, Decrement(isWrite, decr), answer))
    case Configure(cfg) => l.(group := Opened(SomeCfg(0, cfg), Initialized(l.group.bucket, cfg, 0, true)))
    case Share(share) => if share > SSIZE_MAX then l else l.(share := share)
  }

  /** Who is there, and what the group's own bucket and settings are after an operation. */
  lemma PostedIs(l: Ledger, book: map<nat, Cfg>, op: GroupOp, answer: Answer)
    requires l.group.rlim.SomeCfg? && GroupOpFits(op, book) && answer.Done?
    ensures var next := Posted(l, book, op, answer);
      match op
      case Enter(to, _) =>
        && next.group == l.group && |next.members| == |l.members| + 1 && l.members <= next.members
        && next.members[|l.members|].rlim == if to.By? then SomeCfg(to.id, book[to.id]) else NoCfg
      case Leave(i) =>
        next.group == l.group && (i < |l.members| ==> next.members == l.members[..i] + l.members[i + 1..])
      case Moves(i, w, _, _, _, _) =>
        (i < |l.members| ==>
           && |next.members| == |l.members|
           && next.group.bucket == WithLimit(l.group.bucket, w, Limit(l.group.bucket, w) - answer.moved)
           && next.group.Get(w).moved == l.group.Get(w).moved + answer.moved
           && next.members[i].Get(w).moved == l.members[i].Get(w).moved + answer.moved)
      case Own(_, _) => next.group == l.group && |next.members| == |l.members|
      case Tick(now, _, _, _) => next.group.bucket == Updated(l.group.bucket, l.group.rlim.cfg, now)
      case Charge(w, decr, _, _) =>
        next.group.bucket == WithLimit(l.group.bucket, w, Limit(l.group.bucket, w) - decr)
      case Configure(cfg) => next.group.rlim == SomeCfg(0, cfg) && next.members == l.members
      case Share(share) => next.group == l.group && (share <= SSIZE_MAX ==> next.share == share)
  {
    hide TokenBucket.Refill;
  }

  function NewLedger(cfg: Cfg, start: nat): Ledger
  {
    Ledger(Opened(SomeCfg(0, cfg), Bucket(cfg.read.rate, cfg.write.rate, start)), 64, [])
  }

  function Ledgers(book: map<nat, Cfg>, cfg: Cfg, start: nat, ops: seq<GroupOp>, answers: seq<Answer>): Ledger
    requires |ops| == |answers|
  {
    if ops == [] then NewLedger(cfg, start)
    else
      var n := |ops| - 1;
      Posted(Ledgers(book, cfg, start, ops[..n], answers[..n]), book, ops[n], answers[n])
  }

  lemma LedgersMore(book: map<nat, Cfg>, cfg: Cfg, start: nat, ops: seq<GroupOp>, answers: seq<Answer>, n: nat,
        answer: Answer)
    requires |answers| == n < |ops|
    ensures Ledgers(book, cfg, start, ops[..n + 1], answers + [answer])
      == Posted(Ledgers(book, cfg, start, ops[..n], answers), book, ops[n], answer)
  {
    assert ops[..n + 1][..n] == ops[..n] && (answers + [answer])[..n] == answers;
  }

  predicate AllAgree(members: seq<Bev>, accounts: seq<Account>)
    reads members
  {
    |members| == |accounts| && forall j | 0 <= j < |members| :: Agrees(members[j], accounts[j])
  }

  /** The ledger is that of the group. */
  predicate Tallied(g: Group, l: Ledger)
    reads g, g.members
  {
    && l.group.rlim == SomeCfg(0, g.cfg) && l.group.bucket == g.bucket && l.share == g.configuredMinShare
    && AllAgree(g.members, l.members)
  }

  /** No book of a ledger gives more than was given. */
  predicate AllSound(l: Ledger)
  {
    Sane(l.group) && forall a | a in l.members :: Balanced(a)
  }

  /** What is moved fits in the bucket of the member, and every decrement in its type. */
  predicate Fitting(l: Ledger, op: GroupOp, answer: Answer)
  {
    match op
    case Moves(i, isWrite, want, now, _, _) =>
      i < |l.members| ==> && answer.Done? && Allowed(l.members[i], Transfers(isWrite, want, now), answer)
                          && InRange(Limit(l.group.bucket, isWrite) - answer.moved)
    case Own(i, own) => i < |l.members| ==> Allowed(l.members[i], own, answer)
    case Charge(isWrite, decr, _, _) => InRange(Limit(l.group.bucket, isWrite) - decr)
    case _ => true
  }

  /** Whatever is posted, no book gives more than was given. */
  lemma PostedSound(l: Ledger, book: map<nat, Cfg>, op: GroupOp, answer: Answer)
    requires AllSound(l) && BookOk(book) && GroupOpFits(op, book) && Fitting(l, op, answer) && l.group.rlim.SomeCfg?
    ensures AllSound(Posted(l, book, op, answer))
  {
    hide Booked;
    hide Balanced;
    hide Allowed;
    hide Sane;
    GroupTime(l.group, l.group.bucket.lastUpdated);
    match op
    case Enter(to, now) => EnteredBalanced(book, to, now);
    case Moves(i, isWrite, want, now, _, _) =>
      if i < |l.members| {
        TransferSane(l.group, book, isWrite, want, answer);
        BookedBalanced(l.members[i], book, Transfers(isWrite, want, now), answer);
      }
    case Own(i, own) =>
      if i < |l.members| {
        BookedBalanced(l.members[i], book, own, answer);
      }
    case Tick(now, _, _, _) => RefillSane(l.group, book, now, answer);
    case Charge(isWrite, decr, _, _) => DecrementSane(l.group, book, isWrite, decr, answer);
    case Configure(cfg) => OpenedSane(l.group, cfg);
    case _ =>
  }

  lemma EnteredBalanced(book: map<nat, Cfg>, to: LimitTo, now: nat)
    requires BookOk(book) && now < TWO32 && (to.By? ==> to.id in book)
    ensures Balanced(Entered(book, to, now))
  {
    hide Booked;
    NoneBalanced();
    BookedBalanced(Opened(NoCfg, Bucket(0, 0, 0)), book, SetLimit(to, now), Done(0));
  }

  lemma GroupTime(a: Account, now: nat)
    requires now == a.bucket.lastUpdated
    ensures Renewed(a, now) == a
  {
  }

  lemma TransferSane(a: Account, book: map<nat, Cfg>, isWrite: bool, want: nat, answer: Answer)
    requires Sane(a) && a.rlim.SomeCfg? && answer.Done? && InRange(Limit(a.bucket, isWrite) - answer.moved)
    ensures Sane(Booked(a, book, Transfers(isWrite, want, a.bucket.lastUpdated), answer))
  {
    GroupTime(a, a.bucket.lastUpdated);
    hide Renewed;
  }

  lemma RefillSane(a: Account, book: map<nat, Cfg>, now: nat, answer: Answer)
    requires Sane(a) && now < TWO32
    ensures Sane(Booked(a, book, Refill(now), answer))
  {
    RenewedSane(a, now);
    hide Sane;
    hide Renewed;
  }

  lemma DecrementSane(a: Account, book: map<nat, Cfg>, isWrite: bool, decr: int, answer: Answer)
    requires Sane(a) && a.rlim.SomeCfg? && InRange(Limit(a.bucket, isWrite) - decr)
    ensures Sane(Booked(a, book, Decrement(isWrite, decr), answer))
  {
  }

  lemma OpenedSane(a: Account, cfg: Cfg)
    requires CfgOk(cfg) && Sane(a) && a.rlim.SomeCfg?
    ensures Sane(Opened(SomeCfg(0, cfg), Initialized(a.bucket, cfg, 0, true)))
  {
    InitializedOk(a.bucket, cfg, 0, true);
  }

  method Join(g: Group, book: map<nat, Cfg>, to: LimitTo, now: nat, ghost accounts: seq<Account>)
    requires Kept(g, book) && BookOk(book) && now < TWO32 && (to.By? ==> to.id in book)
    requires AllAgree(g.members, accounts)
    modifies g`members, g`nMembers, g`crowd
    ensures Kept(g, book) && (old(Sound(g)) ==> Sound(g))
    ensures forall m | m in g.crowd && m !in old(g.crowd) :: fresh(m)
    ensures AllAgree(g.members, accounts + [Entered(book, to, now)])
  {
    hide Group.Members;
    hide Group.Limits;
    hide Group.Stops;
    hide Bev.Valid;
    hide Group.SmallDebt;
    var bev := new Bev();
    var rlim := Chosen(book, to);
    if rlim.SomeCfg? {
      InitializedOk(bev.bucket, rlim.cfg, now, false);
    }
    bev.SetRateLimit(rlim, now);
    assert bev.Get(false).suspended - {BW} == {} == bev.Get(true).suspended - {BW};
    assert BW_GROUP !in bev.Get(false).suspended - {BW} && BW_GROUP !in bev.Get(true).suspended - {BW};
    assert Agrees(bev, Entered(book, to, now));
    g.Add(bev);
  }

  /** A member acts on its own account. */
  method ActOwn(g: Group, bev: Bev, book: map<nat, Cfg>, ghost i: nat, op: BevOp, ghost accounts: seq<Account>)
    returns (answer: Answer)
    requires Kept(g, book) && BookOk(book) && OpFits(op, book) && !op.Transfers?
    requires i < |g.members| && bev == g.members[i] && !Harms(bev, op) && AllAgree(g.members, accounts)
    modifies bev`rd, bev`wr, bev`bucket, bev`refill, bev`rlim
    ensures Kept(g, book) && (!op.Decrement? && old(Sound(g)) ==> Sound(g))
    ensures AllAgree(g.members, accounts[i := Booked(accounts[i], book, op, answer)])
    ensures Allowed(accounts[i], op, answer)
  {
    hide Bev.Valid;
    hide Bev.Capped;
    hide Harms;
    hide OpFits;
    hide BookOk;
    hide Booked;
    hide Allowed;
    g.MemberAt(i);
    answer := Act(bev, book, op, accounts[i]);
  }

  /** A member moves bytes. */
  method MoveOne(g: Group, bev: Bev, book: map<nat, Cfg>, op: GroupOp, ghost l: Ledger) returns (answer: Answer)
    requires Kept(g, book) && op.Moves? && op.i < |g.members| && bev == g.members[op.i]
    requires op.now < TWO32 && !HarmsGroup(g, op) && Tallied(g, l)
    modifies g`bucket, g`rd, g`wr, g.crowd`rd, g.crowd`wr, bev`bucket, bev`refill
    ensures Kept(g, book) && (old(Sound(g)) ==> Sound(g))
    ensures Tallied(g, Posted(l, book, op, answer))
    ensures answer.Done? && op.i < |l.members|
    ensures Fitting(l, op, answer)
  {
    hide Group.Members;
    hide Group.Limits;
    hide Group.Stops;
    hide Bev.Valid;
    hide Group.SmallDebt;
    g.MemberAt(op.i);
    var moved := g.Transfer(bev, op.i, op.isWrite, op.want, op.now, Numbered(g.members, op.busy), op.random);
    answer := Done(moved);
    HasBucket(g);
  }

  lemma HasBucket(g: Group)
    requires g.Valid()
    ensures BucketOk(g.bucket)
  {
  }

  /** A member leaves. */
  method LeaveOne(g: Group, book: map<nat, Cfg>, i: nat, ghost l: Ledger)
    requires Kept(g, book) && i < |g.members| && Tallied(g, l)
    modifies g, g.crowd
    ensures Kept(g, book) && (old(Sound(g)) ==> Sound(g)) && g.crowd <= old(g.crowd)
    ensures Tallied(g, Posted(l, book, Leave(i), Done(0)))
  {
    hide Group.Members;
    hide Group.Limits;
    hide Group.Stops;
    hide Bev.Valid;
    hide Group.SmallDebt;
    g.MemberAt(i);
    g.Remove(g.members[i], i);
  }

  /** What happens to the group as a whole. */
  method Wide(g: Group, book: map<nat, Cfg>, op: GroupOp, ghost l: Ledger)
    requires Kept(g, book) && BookOk(book) && GroupOpFits(op, book) && !HarmsGroup(g, op)
    requires Tallied(g, l) && (op.Tick? || op.Charge? || op.Configure? || op.Share?)
    modifies g`bucket, g`cfg, g`minShare, g`configuredMinShare, g`rd, g`wr, g.crowd`rd, g.crowd`wr
    ensures Kept(g, book) && (Gentle(op) && old(Sound(g)) ==> Sound(g))
    ensures Tallied(g, Posted(l, book, op, Done(0)))
  {
    hide Group.Members;
    hide Group.Limits;
    hide Group.Stops;
    hide Bev.Valid;
    hide Group.SmallDebt;
    hide Booked;
    match op {
      case Tick(now, busyReading, busyWriting, random) =>
        g.RefillCallback(now, Numbered(g.members, busyReading), Numbered(g.members, busyWriting), random);
        BookedRefill(l.group, book, now);
      case Charge(isWrite, decr, busy, random) =>
        g.DecrementLimit(isWrite, decr, Numbered(g.members, busy), random);
        BookedDecrement(l.group, book, isWrite, decr);
      case Configure(cfg) => g.SetCfg(cfg);
      case Share(share) => var _ := g.SetMinShare(share);
      case _ =>
    }
  }

  method Happens(g: Group, book: map<nat, Cfg>, op: GroupOp, ghost l: Ledger) returns (answer: Answer)
    requires Kept(g, book) && BookOk(book) && GroupOpFits(op, book) && !HarmsGroup(g, op)
    requires Tallied(g, l)
    modifies g, g.crowd
    ensures Kept(g, book) && (Gentle(op) && old(Sound(g)) ==> Sound(g))
    ensures forall m | m in g.crowd && m !in old(g.crowd) :: fresh(m)
    ensures Tallied(g, Posted(l, book, op, answer))
    ensures Fitting(l, op, answer)
  {
    hide Kept;
    hide Sound;
    hide Booked;
    hide Allowed;
    hide BookOk;
    answer := Done(0);
    match op {
      case Enter(to, now) => Join(g, book, to, now, l.members);
      case Leave(i) =>
        if i < |g.members| {
          LeaveOne(g, book, i, l);
        }
      case Moves(i, _, _, _, _, _) =>
        if i < |g.members| {
          MemberIn(g, book, i);
          answer := MoveOne(g, g.members[i], book, op, l);
        }
      case Own(i, own) =>
        if i < |g.members| {
          MemberIn(g, book, i);
          answer := ActOwn(g, g.members[i], book, i, own, l.members);
        }
      case _ => Wide(g, book, op, l);
    }
  }

  lemma MemberIn(g: Group, book: map<nat, Cfg>, i: nat)
    requires Kept(g, book) && i < |g.members|
    ensures g.members[i] in g.crowd
  {
    g.MemberAt(i);
  }

  lemma BookedRefill(a: Account, book: map<nat, Cfg>, now: nat)
    requires a.rlim.SomeCfg?
    ensures var r := Booked(a, book, Refill(now), Done(0));
      r.rlim == a.rlim && r.bucket == Updated(a.bucket, a.rlim.cfg, now)
  {
  }

  lemma BookedDecrement(a: Account, book: map<nat, Cfg>, isWrite: bool, decr: int)
    requires a.rlim.SomeCfg?
    ensures var r := Booked(a, book, Decrement(isWrite, decr), Done(0));
      r.rlim == a.rlim && r.bucket == WithLimit(a.bucket, isWrite, Limit(a.bucket, isWrite) - decr)
  {
  }

  /** Any run of a new group: members come and go, move bytes and act on their own account,
      ticks pass, and the user charges, credits and reconfigures the group.  It stops only
      before an operation that harms it; and a run of gentle ones does not stop, and keeps
      the group's debt below one share and every bucket within its maximum. */
  method GroupRun(book: map<nat, Cfg>, cfg: Cfg, start: nat, ops: seq<GroupOp>)
    returns (g: Group, answers: seq<Answer>)
    requires BookOk(book) && CfgOk(cfg) && start < TWO32 && forall op | op in ops :: GroupOpFits(op, book)
    ensures g.Valid() && |answers| <= |ops| && (|answers| < |ops| ==> HarmsGroup(g, ops[|answers|]))
    ensures (forall op | op in ops :: Gentle(op)) ==> |answers| == |ops| && Sound(g)
    ensures var l := Ledgers(book, cfg, start, ops[..|answers|], answers); Tallied(g, l) && AllSound(l)
  {
    hide Sound;
    hide GroupOpFits;
    hide HarmsGroup;
    hide BookOk;
    hide Gentle;
    hide AllSound;
    hide Posted;
    hide AllAgree;
    hide Fitting;
    g := NewGroup(book, cfg, start);
    hide Kept;
    answers := [];
    ghost var l := NewLedger(cfg, start);
    while |answers| < |ops|
      invariant |answers| <= |ops| && Kept(g, book) && fresh(g) && forall m | m in g.crowd :: fresh(m)
      invariant (forall op | op in ops :: Gentle(op)) ==> Sound(g)
      invariant l == Ledgers(book, cfg, start, ops[..|answers|], answers) && Tallied(g, l) && AllSound(l)
    {
      var op := ops[|answers|];
      assert op in ops;
      if Gentle(op) && Sound(g) {
        SoundHolds(g, op, book);
      }
      if HarmsGroup(g, op) {
        KeptValid(g, book);
        return;
      }
      var answer := Happens(g, book, op, l);
      PostedSound(l, book, op, answer);
      LedgersMore(book, cfg, start, ops, answers, |answers|, answer);
      l := Posted(l, book, op, answer);
      answers := answers + [answer];
    }
    KeptValid(g, book);
  }

  lemma KeptValid(g: Group, book: map<nat, Cfg>)
    requires Kept(g, book)
    ensures g.Valid()
  {
  }

  method NewGroup(book: map<nat, Cfg>, cfg: Cfg, start: nat) returns (g: Group)
    requires CfgOk(cfg) && start < TWO32
    ensures Kept(g, book) && Sound(g) && fresh(g) && g.crowd == {}
    ensures Tallied(g, NewLedger(cfg, start)) && AllSound(NewLedger(cfg, start))
  {
    g := new Group(cfg, start);
  }
}
