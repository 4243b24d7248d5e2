/** Runs of the timeouts of an event base, against a plain table of deadlines
    (deps/libevent/event.c). */
module TimerRuns {
  import opened TimeoutLists
  import opened Timers

  /** What a callback leaves of its event: nothing; a persistent event as it was; or one that
      waits again. */
  datatype Closure = Once | Stay | Again(interval: nat, where: Place)

  /** Something that happens, with what the clock says: a time span is set up, events are
      added, activated for another reason and deleted, the clock is looked at, the heap is
      looked at, what is at a place on the active queue runs, or the loop makes a pass over
      all timeouts. */
  datatype Op =
    | Common(duration: Duration)
    | Add(e: nat, deadline: int, where: Place)
    | Activate(e: nat)
    | Delete(e: nat)
    | Correct(now: int)
    | Look(now: int)
    | Run(i: nat, now: int, closure: Closure)
    | Pass(now: int)

  /** What has run: the callback of a list, or of an event. */
  datatype Answer = Nothing | Called(list: nat) | Ran(e: nat)

  /** The table: where each event waits, and its deadline; the events on the active queue, and
      those that are there because of their deadline; the clock, and the time spans. */
  datatype Table = Table(
    place: map<nat, Place>, timeout: map<nat, int>, queued: set<nat>, fired: set<nat>,
    clock: int, durations: seq<Duration>)

  const EMPTY := Table(map[], map[], {}, {}, 0, [])

  /** The events of a place whose deadline has come. */
  function DueAt(t: Table, where: Place, now: int): set<nat>
  {
    set e | e in t.place && t.place[e] == where && e in t.timeout && t.timeout[e] <= now
  }

  function AllDue(t: Table, now: int): set<nat>
  {
    set e | e in t.place && e in t.timeout && t.timeout[e] <= now
  }

  /** They wait no longer, and are active. */
  function Expire(t: Table, es: set<nat>): Table
  {
    t.(place := t.place - es, queued := t.queued + es, fired := t.fired + es)
  }

  /** An event waits for a deadline, and is not active any more because of an earlier one. */
  function Wait(t: Table, e: nat, deadline: int, where: Place): Table
  {
    t.(place := t.place[e := where], timeout := t.timeout[e := deadline],
       queued := if e in t.fired then t.queued - {e} else t.queued, fired := t.fired - {e})
  }

  predicate Exists(where: Place, lists: nat)
  {
    where.InList? ==> where.list < lists
  }

  /** What running an event does to the table. */
  function Finish(t: Table, e: nat, now: int, closure: Closure): Table
  {
    var off := t.(queued := t.queued - {e}, fired := t.fired - {e});
    match closure
    case Once => off.(place := t.place - {e})
    case Stay => off
    case Again(interval, where) =>
      if e in t.timeout && interval > 0 && Exists(where, |t.durations|) then
        Wait(off, e, if e in t.fired then Next(t.timeout[e], interval, now) else now + interval, where)
      else off
  }

  function Do(t: Table, op: Op, answer: Answer): Table
  {
    match op
    case Common(duration) =>
      if Normal(duration) in t.durations || |t.durations| >= MAX_COMMON_TIMEOUTS then t
      else t.(durations := t.durations + [Normal(duration)])
    case Add(e, deadline, where) => if Exists(where, |t.durations|) then Wait(t, e, deadline, where) else t
    case Activate(e) => t.(queued := t.queued + {e})
    case Delete(e) => t.(place := t.place - {e}, queued := t.queued - {e}, fired := t.fired - {e})
    case Correct(now) => t.(timeout := Corrected(t.timeout, t.place.Keys, t.clock, now), clock := now)
    case Look(now) => Expire(t, DueAt(t, InHeap, now))
    case Run(_, now, closure) =>
      (match answer
       case Nothing => t
       case Called(list) => Expire(t, DueAt(t, InList(list), now))
       case Ran(e) => Finish(t, e, now, closure))
    case Pass(now) => Expire(t, AllDue(t, now))
  }

  /** An operation looks at where an event waits, and finds that its deadline has come. */
  predicate Found(t: Table, op: Op, answer: Answer, e: nat)
  {
    && e in t.place && e in t.timeout
    && match op
       case Look(now) => t.place[e] == InHeap && t.timeout[e] <= now
       case Pass(now) => t.timeout[e] <= now
       case Run(_, now, _) => answer.Called? && t.place[e] == InList(answer.list) && t.timeout[e] <= now
       case _ => false
  }

  /** An event stops waiting if and only if it is deleted, has run once and for all, or is
      found; and an event that was not active is active if and only if it is found or
      activated. */
  lemma Waits(t: Table, op: Op, answer: Answer, e: nat)
    ensures var next := Do(t, op, answer);
      && (e in t.place ==>
            (e !in next.place <==>
               op == Delete(e) || (op.Run? && op.closure.Once? && answer == Ran(e)) || Found(t, op, answer, e)))
      && (e !in t.place && e in next.place ==>
            (op.Add? && op.e == e) || (op.Run? && op.closure.Again? && answer == Ran(e)))
      && (e !in t.queued ==> (e in next.queued <==> op == Activate(e) || Found(t, op, answer, e)))
      && (e !in t.fired ==> (e in next.fired <==> Found(t, op, answer, e)))
  {
  }

  /** An event ceases to be active only if it runs, is deleted, or is added again after its
      deadline made it active. */
  lemma Ceases(t: Table, op: Op, answer: Answer, e: nat)
    requires t.fired <= t.queued && e in t.queued
    ensures var next := Do(t, op, answer);
      && next.fired <= next.queued
      && (e !in next.queued <==>
            op == Delete(e) || (op.Run? && answer == Ran(e))
            || (op.Add? && op.e == e && Exists(op.where, |t.durations|) && e in t.fired))
  {
  }

  /** An event added to the heap, or to a list that there is, waits there for its deadline; a
      list is there once its duration was asked for, unless there were 256. */
  lemma Added(t: Table, e: nat, deadline: int, duration: Duration, answer: Answer)
    ensures var next := Do(t, Add(e, deadline, InHeap), answer);
      e in next.place && next.place[e] == InHeap && e in next.timeout && next.timeout[e] == deadline
    ensures forall i: nat :: var next := Do(t, Add(e, deadline, InList(i)), answer);
      if i < |t.durations| then
        e in next.place && next.place[e] == InList(i) && e in next.timeout && next.timeout[e] == deadline
      else next == t
    ensures var next := Do(t, Common(duration), answer);
      && (Normal(duration) in next.durations || (next == t && |t.durations| >= 256))
      && t.durations <= next.durations && |next.durations| <= |t.durations| + 1
      && next == t.(durations := next.durations)
  {
  }

  /** A persistent event that was not fired waits for an interval from now; one that was
      waits an interval from its deadline, if that is not over. */
  lemma WaitsAgain(t: Table, i: nat, now: int, interval: nat, where: Place, e: nat)
    requires e in t.timeout && interval > 0 && Exists(where, |t.durations|)
    ensures var next := Do(t, Run(i, now, Again(interval, where)), Ran(e));
      && e in next.place && next.place[e] == where && e in next.timeout && next.timeout[e] >= now
      && e !in next.queued
      && (e !in t.fired ==> next.timeout[e] == now + interval)
      && (e in t.fired && t.timeout[e] + interval >= now ==> next.timeout[e] == t.timeout[e] + interval)
  {
  }

  function DoAll(ops: seq<Op>, answers: seq<Answer>): Table
    requires |ops| == |answers|
  {
    if ops == [] then EMPTY
    else Do(DoAll(ops[..|ops| - 1], answers[..|ops| - 1]), ops[|ops| - 1], answers[|ops| - 1])
  }

  lemma DoMore(ops: seq<Op>, answers: seq<Answer>, n: nat, answer: Answer)
    requires |answers| == n < |ops|
    ensures DoAll(ops[..n + 1], answers + [answer]) == Do(DoAll(ops[..n], answers), ops[n], answer)
  {
    assert ops[..n + 1][..n] == ops[..n] && (answers + [answer])[..n] == answers;
  }

  /** The queues, the lists and the heap with its timers hold what the table says. */
  ghost predicate Holds(base: Base, t: Table)
    reads base
  {
    && base.place == t.place && base.timeout == t.timeout && base.timedOut == t.fired
    && base.eventTv == t.clock && base.durations == t.durations
    && (forall e: nat :: User(e) in base.active <==> e in t.queued)
    && t.fired <= t.queued
  }

  /** What every run keeps. */
  ghost predicate Kept(base: Base)
    reads base
  {
    && base.Valid() && base.Timed() && base.OneEach() && base.running == {}
    && forall j: nat | Timer(j) in base.active :: j < |base.lists|
  }

  /** Some events have been fired. */
  lemma FiredAt(base: Base, t: Table, es: set<nat>, was: map<nat, int>, queue: seq<Node>)
    requires t.place.Keys == was.Keys && t.fired <= t.queued
    requires base.place.Keys == base.due.Keys && base.due.Keys <= was.Keys && was.Keys - base.due.Keys == es
    requires base.timeout == t.timeout && base.eventTv == t.clock && base.durations == t.durations
    requires base.OnlyFired(was, t.place, queue, t.fired)
    requires forall e: nat :: User(e) in queue <==> e in t.queued
    ensures Holds(base, Expire(t, es))
  {
    assert base.place == t.place - es;
  }

  method LookAt(base: Base, now: int, ghost t: Table)
    requires Kept(base) && Holds(base, t)
    modifies base
    ensures Kept(base) && Holds(base, Expire(t, DueAt(t, InHeap, now)))
  {
    hide Placed;
    hide AllWatched;
    ghost var heap, lists, place, due, active := base.heap, base.lists, base.place, base.due, base.active;
    PlacedKeys(heap, lists, place, due);
    base.TimeoutProcess(now);
    PlacedKeys(base.heap, base.lists, base.place, base.due);
    HeapGone(heap, lists, place, due, base.heap, base.place, base.due, now);
    assert due.Keys - base.due.Keys == DueAt(t, InHeap, now);
    FiredAt(base, t, DueAt(t, InHeap, now), due, active);
  }

  method CallList(base: Base, i: nat, now: int, ghost t: Table)
    requires Kept(base) && Holds(base, t) && Timer(i) in base.active
    modifies base
    ensures Kept(base) && Holds(base, Expire(t, DueAt(t, InList(i), now)))
  {
    hide Placed;
    hide AllWatched;
    ghost var heap, lists, place, due, active := base.heap, base.lists, base.place, base.due, base.active;
    PlacedKeys(heap, lists, place, due);
    base.Take(i);
    ghost var taken := base.active;
    base.ListCallback(i, now);
    PlacedKeys(base.heap, base.lists, base.place, base.due);
    ListGone(heap, lists, place, due, i, base.heap, base.lists, base.place, base.due, now);
    assert due.Keys - base.due.Keys == DueAt(t, InList(i), now);
    FiredAt(base, t, DueAt(t, InList(i), now), due, taken);
  }

  method PassOver(base: Base, now: int, ghost t: Table)
    requires Kept(base) && Holds(base, t)
    modifies base
    ensures Kept(base) && Holds(base, Expire(t, AllDue(t, now)))
  {
    hide Placed;
    hide AllWatched;
    ghost var due, active := base.due, base.active;
    PlacedKeys(base.heap, base.lists, base.place, base.due);
    base.RunDue(now);
    PlacedKeys(base.heap, base.lists, base.place, base.due);
    assert due.Keys - base.due.Keys == AllDue(t, now);
    FiredAt(base, t, AllDue(t, now), due, active);
  }

  method AddTo(base: Base, e: nat, deadline: int, where: Place, ghost t: Table)
    requires Kept(base) && Holds(base, t) && Exists(where, |base.lists|)
    modifies base
    ensures Kept(base) && Holds(base, Wait(t, e, deadline, where))
  {
    hide Placed;
    hide AllWatched;
    base.EventAdd(e, deadline, where);
  }

  method RunEvent(base: Base, e: nat, now: int, closure: Closure, ghost t: Table)
    requires Kept(base) && Holds(base, t) && User(e) in base.active
    modifies base
    ensures Kept(base) && Holds(base, Finish(t, e, now, closure))
  {
    hide Placed;
    hide AllWatched;
    match closure {
      case Once => base.EventDel(e);
      case Stay => base.Leave(e);
      case Again(interval, where) =>
        if e in base.timeout && interval > 0 && (where.InList? ==> where.list < |base.lists|) {
          base.RunPersistent(e, interval, now, where);
        } else {
          base.Leave(e);
        }
    }
  }

  method Happens(base: Base, op: Op, ghost t: Table) returns (answer: Answer)
    requires Kept(base) && Holds(base, t)
    modifies base
    ensures Kept(base) && Holds(base, Do(t, op, answer))
  {
    hide Placed;
    hide AllWatched;
    answer := Nothing;
    match op {
      case Common(duration) => var _ := base.InitCommonTimeout(duration);
      case Add(e, deadline, where) =>
        if where.InList? ==> where.list < |base.lists| {
          AddTo(base, e, deadline, where, t);
        }
      case Activate(e) => base.Activate(e);
      case Delete(e) => base.EventDel(e);
      case Correct(now) => base.TimeoutCorrect(now);
      case Look(now) => LookAt(base, now, t);
      case Run(i, now, closure) =>
        if i < |base.active| {
          match base.active[i] {
            case Timer(list) =>
              CallList(base, list, now, t);
              answer := Called(list);
            case User(e) =>
              RunEvent(base, e, now, closure, t);
              answer := Ran(e);
          }
        }
      case Pass(now) => PassOver(base, now, t);
    }
  }

  /** Any run of a new event base, with callbacks of lists and of events in any order and at
      any times, does to its queues what the table says: an event is fired because of its
      deadline only when that has come, and none is lost. */
  method TimerRun(ops: seq<Op>) returns (base: Base, answers: seq<Answer>)
    ensures |answers| == |ops| && base.Valid() && Holds(base, DoAll(ops, answers))
  {
    hide Do;
    hide Kept;
    base := new Base();
    KeptNew(base);
    answers := [];
    ghost var t := EMPTY;
    while |answers| < |ops|
      invariant |answers| <= |ops| && fresh(base) && Kept(base)
      invariant t == DoAll(ops[..|answers|], answers) && Holds(base, t)
    {
      var n := |answers|;
      var answer := Happens(base, ops[n], t);
      DoMore(ops, answers, n, answer);
      t := Do(t, ops[n], answer);
      answers := answers + [answer];
    }
    assert ops[..|ops|] == ops;
    KeptIs(base);
  }

  lemma KeptNew(base: Base)
    requires base.Valid() && base.Timed() && base.OneEach() && base.running == {} && base.active == []
    ensures Kept(base)
  {
  }

  lemma KeptIs(base: Base)
    requires Kept(base)
    ensures base.Valid()
  {
  }

  /** Once nothing due is in the heap and no callback of a list is about to run, no event
      that is due waits anywhere. */
  lemma CaughtUp(base: Base, now: int)
    requires Kept(base) && (forall n | n in base.heap :: base.heap[n] > now)
    requires forall j: nat :: Timer(j) !in base.active
    ensures forall e: nat | e in base.due :: base.due[e] > now
  {
    hide Placed;
    hide AllWatched;
    forall i | 0 <= i < |base.lists| ensures forall x | x in base.lists[i] :: x.due > now {
      NotDue(base.heap, base.lists, base.place, base.due, base.active, i, now);
    }
    NoneDue(base.heap, base.lists, base.place, base.due, now);
  }
}
