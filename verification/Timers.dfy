/** Timeouts of an event base: a heap, and lists of common durations each of which has one
    timer in the heap (deps/libevent/event.c).  Times are in microseconds. */
module Timers {
  import opened TimeoutLists

  /** What can be in the heap and on the active queue: an event of the user's, or the timer
      of a list. */
  datatype Node = User(ev: nat) | Timer(list: nat)

  const MAX_COMMON_TIMEOUTS := 256

  /** A time span as the user gives it. */
  datatype Duration = Duration(sec: int, usec: nat)

  /** More than a second in microseconds is carried over. */
  function Normal(d: Duration): (r: Duration)
    ensures r.usec <= 1000000 && r.sec * 1000000 + r.usec == d.sec * 1000000 + d.usec
    ensures d.usec <= 1000000 ==> r == d
  {
    if d.usec > 1000000 then Duration(d.sec + d.usec / 1000000, d.usec % 1000000) else d
  }

  /** An event waits in the heap, or in one list. */
  datatype Place = InHeap | InList(list: nat)

  /** The events in one list are those placed there, with their deadlines. */
  ghost predicate ListOk(s: seq<Entry>, i: nat, place: map<nat, Place>, due: map<nat, int>)
  {
    && Sorted(s) && Once(s)
    && forall x | x in s :: x.ev in due && x.ev in place && place[x.ev] == InList(i) && due[x.ev] == x.due
  }

  /** Each event that waits is in its place and in no other. */
  ghost predicate Placed(heap: map<Node, int>, lists: seq<seq<Entry>>, place: map<nat, Place>, due: map<nat, int>)
  {
    && place.Keys == due.Keys
    && (forall e: nat | User(e) in heap :: e in due && place[e] == InHeap && heap[User(e)] == due[e])
    && (forall e: nat | e in due :: match place[e]
          case InHeap => User(e) in heap
          case InList(i) => i < |lists| && Entry(e, due[e]) in lists[i])
    && (forall i | 0 <= i < |lists| :: ListOk(lists[i], i, place, due))
    && (forall i: nat | Timer(i) in heap :: i < |lists|)
  }

  /** A list with events has its timer active, its callback running, or its timer in the
      heap no later than its first deadline. */
  ghost predicate Watched(s: seq<Entry>, i: nat, heap: map<Node, int>, active: seq<Node>, running: set<nat>)
  {
    s != [] ==> Timer(i) in active || i in running || (Timer(i) in heap && heap[Timer(i)] <= s[0].due)
  }

  ghost predicate AllWatched(lists: seq<seq<Entry>>, heap: map<Node, int>, active: seq<Node>, running: set<nat>)
  {
    forall i | 0 <= i < |lists| :: Watched(lists[i], i, heap, active, running)
  }

  /** TAILQ_REMOVE on the active queue. */
  function Off(active: seq<Node>, n: Node): (r: seq<Node>)
    ensures forall m :: m in r <==> m in active && m != n
  {
    if active == [] then []
    else if active[0] == n then Off(active[1..], n)
    else [active[0]] + Off(active[1..], n)
  }

  ghost predicate Agrees(timeout: map<nat, int>, due: map<nat, int>)
  {
    forall e: nat | e in due :: e in timeout && timeout[e] == due[e]
  }

  /** The times of some keys, off earlier. */
  function Sooner<T(==)>(times: map<T, int>, keys: set<T>, off: int): map<T, int>
  {
    map n | n in times :: times[n] - if n in keys then off else 0
  }

  /** The same, when the clock has gone back. */
  function Corrected(times: map<nat, int>, keys: set<nat>, clock: int, now: int): map<nat, int>
  {
    if now < clock then Sooner(times, keys, clock - now) else times
  }

  /** The clock and the time of what waits go back alike; the other times stay. */
  lemma CorrectedIs(times: map<nat, int>, keys: set<nat>, clock: int, now: int, n: nat)
    requires n in times
    ensures var r := Corrected(times, keys, clock, now);
      && r.Keys == times.Keys
      && if n in keys && now < clock then r[n] - now == times[n] - clock else r[n] == times[n]
  {
  }

  ghost predicate Moved<T>(times: map<T, int>, times': map<T, int>, off: int)
  {
    times'.Keys == times.Keys && forall n | n in times :: times'[n] == times[n] - off
  }

  lemma SoonerMoves<T>(times: map<T, int>, off: int)
    ensures Moved(times, Sooner(times, times.Keys, off), off)
  {
  }

  lemma TimedSooner(timeout: map<nat, int>, due: map<nat, int>, keys: set<nat>, off: int)
    requires due.Keys == keys
    ensures Agrees(timeout, due) ==> Agrees(Sooner(timeout, keys, off), Sooner(due, due.Keys, off))
  {
  }

  class Base {
    var heap: map<Node, int>
    var lists: seq<seq<Entry>>
    /** What each list is for. */
    var durations: seq<Duration>
    var place: map<nat, Place>
    var active: seq<Node>
    /** Events that are active because of their timeout. */
    var timedOut: set<nat>
    /** The time of the last look at the clock. */
    var eventTv: int
    /** List timers taken off the active queue, whose callbacks have not yet got the lock. */
    var running: set<nat>
    /** ev_timeout, which an event keeps when it is taken out. */
    var timeout: map<nat, int>
    /** The deadlines of all events that wait. */
    ghost var due: map<nat, int>

    ghost predicate Valid()
      reads this
    {
      Placed(heap, lists, place, due) && AllWatched(lists, heap, active, running)
    }

    /** An event that waits has its deadline in ev_timeout. */
    ghost predicate Timed()
      reads `timeout, `due
    {
      Agrees(timeout, due)
    }

    /** One list for each duration. */
    predicate OneEach()
      reads `lists, `durations
    {
      && |durations| == |lists| <= MAX_COMMON_TIMEOUTS
      && forall i, j | 0 <= i < j < |durations| :: durations[i] != durations[j]
    }

    constructor ()
      ensures Valid() && Timed() && OneEach() && due == map[] && lists == [] && active == [] && running == {}
      ensures place == map[] && timeout == map[] && timedOut == {} && eventTv == 0
    {
      heap, lists, durations, place, active, running, due := map[], [], [], map[], [], {}, map[];
      timedOut, eventTv, timeout := {}, 0, map[];
    }

    /** event_base_init_common_timeout: the list for a duration, which is a new one if there
        is none yet, and none (-1) if there are too many. */
    method InitCommonTimeout(duration: Duration) returns (r: int)
      requires Valid() && OneEach()
      modifies `lists, `durations
      ensures Valid() && OneEach() && (r >= 0 ==> r < |lists| && durations[r] == Normal(duration))
      ensures r < 0 ==> r == -1 && Normal(duration) !in durations && |durations| == MAX_COMMON_TIMEOUTS
      ensures if Normal(duration) in old(durations) || r < 0 then lists == old(lists) && durations == old(durations)
        else r == |old(lists)| && lists == old(lists) + [[]] && durations == old(durations) + [Normal(duration)]
    {
      var d := if duration.usec > 1000000
        then Duration(duration.sec + duration.usec / 1000000, duration.usec % 1000000) else duration;
      var i := 0;
      while i < |durations|
        invariant 0 <= i <= |durations| && forall j | 0 <= j < i :: durations[j] != d
      {
        if durations[i] == d {
          return i;
        }
        i := i + 1;
      }
      if |durations| == MAX_COMMON_TIMEOUTS {
        return -1;
      }
      r := |lists|;
      lists, durations := lists + [[]], durations + [d];
    }

    /** event_queue_remove from the timeouts. */
    method QueueRemove(e: nat)
      requires Valid() && e in due
      modifies `heap, `lists, `place, `due
      ensures Valid() && due == old(due) - {e} && |lists| == |old(lists)|
      ensures place == old(place) - {e} && heap == old(heap) - {User(e)}
      ensures old(place)[e] == InHeap ==> lists == old(lists)
      ensures forall i: nat | old(place)[e] == InList(i) ::
        i < |old(lists)| && lists == old(lists)[i := Without(old(lists)[i], e)]
    {
      hide ListOk;
      match place[e] {
        case InHeap =>
          RemovedFromHeap(heap, lists, place, due, e);
          heap := heap - {User(e)};
        case InList(i) =>
          RemovedFromList(heap, lists, place, due, e, i);
          ListForgets(lists[i], i, place, due, e);
          lists := lists[i := Without(lists[i], e)];
      }
      place, due := place - {e}, due - {e};
    }

    /** event_queue_remove from the active queue. */
    method ActiveRemove(n: Node)
      modifies `active, `timedOut
      ensures active == Off(old(active), n)
      ensures timedOut == old(timedOut) - (if n.User? then {n.ev} else {})
    {
      active := Off(active, n);
      timedOut := timedOut - if n.User? then {n.ev} else {};
    }

    /** common_timeout_schedule: the timer of a list is set to the first deadline, and is no
        longer active if it was. */
    method Schedule(i: nat)
      requires i < |lists| && lists[i] != [] && Placed(heap, lists, place, due)
      requires forall j | 0 <= j < |lists| && j != i :: Watched(lists[j], j, heap, active, running)
      modifies `heap, `active, `timedOut
      ensures Valid() && heap == old(heap)[Timer(i) := lists[i][0].due]
      ensures active == Off(old(active), Timer(i)) && timedOut == old(timedOut)
    {
      hide ListOk;
      heap := heap - {Timer(i)};
      if Timer(i) in active {
        ActiveRemove(Timer(i));
      } else {
        OffNothing(active, Timer(i));
      }
      heap := heap[Timer(i) := lists[i][0].due];
      assert heap == old(heap)[Timer(i) := lists[i][0].due];
    }

    /** event_queue_insert into the timeouts, for an event that is in none. */
    method QueueInsert(e: nat, deadline: int, where: Place)
      requires Valid() && e !in due && (where.InList? ==> where.list < |lists|)
      modifies `heap, `lists, `place, `due, `active, `timedOut
      ensures Valid() && due == old(due)[e := deadline] && place == old(place)[e := where] && |lists| == |old(lists)|
      ensures forall f: nat :: User(f) in active <==> User(f) in old(active)
      ensures forall j: nat :: Timer(j) in active ==> Timer(j) in old(active)
      ensures timedOut == old(timedOut)
    {
      hide ListOk;
      match where
      case InHeap =>
        AddedToHeap(heap, lists, place, due, e, deadline);
        heap, place, due := heap[User(e) := deadline], place[e := where], due[e := deadline];
      case InList(i) =>
        ListOkParts(lists[i], i, place, due);
        var list, k := InsertInOrder(lists[i], Entry(e, deadline));
        AddedToList(heap, lists, place, due, e, deadline, i, k);
        InsertedAt(lists[i], Entry(e, deadline), k, 0);
        lists, place, due := lists[i := list], place[e := where], due[e := deadline];
        if lists[i][0] == Entry(e, deadline) {
          Schedule(i);
        }
    }

    /** The timeout part of event_add_internal.  An event that is active because of an
        earlier timeout leaves the active queue. */
    method EventAdd(e: nat, deadline: int, where: Place)
      requires Valid() && (where.InList? ==> where.list < |lists|)
      modifies `heap, `lists, `place, `due, `active, `timedOut, `timeout
      ensures Valid() && due == old(due)[e := deadline] && place == old(place)[e := where] && |lists| == |old(lists)|
      ensures timeout == old(timeout)[e := deadline] && (old(Timed()) ==> Timed())
      ensures forall f: nat | f != e ::
        (User(f) in active <==> User(f) in old(active)) && (f in timedOut <==> f in old(timedOut))
      ensures User(e) in active <==> User(e) in old(active) && e !in old(timedOut)
      ensures forall j: nat :: Timer(j) in active ==> Timer(j) in old(active)
      ensures (e in old(timedOut) ==> User(e) in old(active)) ==> timedOut == old(timedOut) - {e}
    {
      hide Placed;
      hide AllWatched;
      PlacedKeys(heap, lists, place, due);
      if e in place {
        QueueRemove(e);
      }
      if User(e) in active && e in timedOut {
        StillWatched(lists, heap, active, running, User(e));
        ActiveRemove(User(e));
      }
      timeout := timeout[e := deadline];
      QueueInsert(e, deadline, where);
    }

    /** The timeout part of event_del_internal. */
    method EventDel(e: nat)
      requires Valid()
      modifies `heap, `lists, `place, `due, `active, `timedOut
      ensures Valid() && due == old(due) - {e} && place == old(place) - {e} && |lists| == |old(lists)|
      ensures active == Off(old(active), User(e)) && timedOut == old(timedOut) - {e}
      ensures heap == old(heap) - {User(e)}
      ensures e !in old(due) || old(place)[e] == InHeap ==> lists == old(lists)
      ensures forall i: nat | e in old(due) && old(place)[e] == InList(i) ::
        i < |old(lists)| && lists == old(lists)[i := Without(old(lists)[i], e)]
    {
      hide Placed;
      hide AllWatched;
      PlacedKeys(heap, lists, place, due);
      if e in place {
        QueueRemove(e);
      } else {
        NotInHeap(heap, lists, place, due, e);
      }
      StillWatched(lists, heap, active, running, User(e));
      ActiveRemove(User(e));
    }

    /** event_del_internal and event_active_nolock, for a deadline that has passed. */
    method Fire(e: nat)
      requires Valid()
      modifies `heap, `lists, `place, `due, `active, `timedOut
      ensures Valid() && due == old(due) - {e} && place == old(place) - {e} && |lists| == |old(lists)|
      ensures active == Off(old(active), User(e)) + [User(e)] && timedOut == old(timedOut) + {e}
      ensures heap == old(heap) - {User(e)}
      ensures e !in old(due) || old(place)[e] == InHeap ==> lists == old(lists)
      ensures forall i: nat | e in old(due) && old(place)[e] == InList(i) ::
        i < |old(lists)| && lists == old(lists)[i := Without(old(lists)[i], e)]
    {
      hide Placed;
      EventDel(e);
      active, timedOut := active + [User(e)], timedOut + {e};
      assert old(timedOut) - {e} + {e} == old(timedOut) + {e};
    }

    /** What has been fired since was: everything that no longer waits. */
    ghost predicate Fired(was: map<nat, int>, now: int)
      reads `due, `active, `timedOut
    {
      FiredBy(was, due, active, timedOut, now)
    }

    /** And the events that were fired are all that is new on the active queue. */
    ghost predicate OnlyFired(was: map<nat, int>, there: map<nat, Place>, queue: seq<Node>, late: set<nat>)
      reads `due, `place, `active, `timedOut
    {
      NoMore(was, due, there, place, queue, active, late, timedOut)
    }

    lemma NoneFired(now: int)
      requires Valid()
      ensures Fired(due, now) && OnlyFired(due, place, active, timedOut)
    {
    }

    /** event_active, for another reason than a timeout. */
    method Activate(e: nat)
      requires Valid()
      modifies `active
      ensures Valid() && active == if User(e) in old(active) then old(active) else old(active) + [User(e)]
    {
      if User(e) !in active {
        MoreWatched(lists, heap, active, running, User(e));
        active := active + [User(e)];
      }
    }

    /** timeout_process: everything in the heap whose time has come becomes active. */
    method TimeoutProcess(now: int)
      requires Valid()
      modifies `heap, `lists, `place, `due, `active, `timedOut
      ensures Valid() && Fired(old(due), now) && lists == old(lists)
      ensures OnlyFired(old(due), old(place), old(active), old(timedOut))
      ensures forall n | n in heap :: heap[n] > now && n in old(heap) && heap[n] == old(heap)[n]
      ensures forall j: nat :: Timer(j) in active ==> Timer(j) in old(active) || j < |lists|
    {
      hide Placed;
      hide AllWatched;
      var more := true;
      while more
        invariant Valid() && Fired(old(due), now) && lists == old(lists)
        invariant OnlyFired(old(due), old(place), old(active), old(timedOut))
        invariant forall j: nat :: Timer(j) in active ==> Timer(j) in old(active) || j < |lists|
        invariant forall n | n in heap :: n in old(heap) && heap[n] == old(heap)[n]
        invariant !more ==> forall n | n in heap :: heap[n] > now
        decreases heap.Keys, more
      {
        more := heap.Keys != {};
        if more {
          MinExists(heap);
          var n :| n in heap.Keys && forall m | m in heap.Keys :: heap[n] <= heap[m];
          more := heap[n] <= now;
          if more {
            HeapOne(n, now, old(due), old(place), old(active), old(timedOut));
          }
        }
      }
    }

    /** One event whose deadline has passed is fired. */
    method FireDue(e: nat, now: int, ghost was: map<nat, int>, ghost there: map<nat, Place>,
          ghost queue: seq<Node>, ghost late: set<nat>)
      requires Valid() && e in due && due[e] <= now && Fired(was, now) && OnlyFired(was, there, queue, late)
      modifies `heap, `lists, `place, `due, `active, `timedOut
      ensures Valid() && Fired(was, now) && OnlyFired(was, there, queue, late) && due == old(due) - {e}
      ensures heap == old(heap) - {User(e)} && |lists| == |old(lists)|
      ensures old(place)[e] == InHeap ==> lists == old(lists)
      ensures forall i: nat | old(place)[e] == InList(i) ::
        i < |old(lists)| && lists == old(lists)[i := Without(old(lists)[i], e)]
      ensures forall j: nat :: Timer(j) in active <==> Timer(j) in old(active)
    {
      assert e in was && e in place by {
        PlacedKeys(heap, lists, place, due);
      }
      hide Placed;
      hide AllWatched;
      OneMoreFired(was, due, active, timedOut, now, e);
      NoMoreThanOne(was, due, there, place, queue, active, late, timedOut, e);
      hide FiredBy;
      hide NoMore;
      Fire(e);
    }

    /** The timer of a list is fired. */
    method FireTimer(i: nat, now: int, ghost was: map<nat, int>, ghost there: map<nat, Place>,
          ghost queue: seq<Node>, ghost late: set<nat>)
      requires Valid() && Timer(i) in heap && Fired(was, now) && OnlyFired(was, there, queue, late)
      modifies `heap, `active, `timedOut
      ensures Valid() && Fired(was, now) && OnlyFired(was, there, queue, late)
      ensures heap == old(heap) - {Timer(i)} && i < |lists|
      ensures forall j: nat :: Timer(j) in active <==> Timer(j) in old(active) || j == i
    {
      TimerOff(heap, lists, place, due, i);
      TimerFires(lists, heap, active, running, i);
      assert i < |lists|;
      TimersApart(was, due, there, place, queue, active, late, timedOut, now, Off(active, Timer(i)) + [Timer(i)]);
      hide Placed;
      hide AllWatched;
      hide FiredBy;
      hide NoMore;
      heap := heap - {Timer(i)};
      ActiveRemove(Timer(i));
      active := active + [Timer(i)];
    }

    /** One node off the heap. */
    method HeapOne(n: Node, now: int, ghost was: map<nat, int>, ghost there: map<nat, Place>,
          ghost queue: seq<Node>, ghost late: set<nat>)
      requires Valid() && n in heap && heap[n] <= now && Fired(was, now) && OnlyFired(was, there, queue, late)
      modifies `heap, `lists, `place, `due, `active, `timedOut
      ensures Valid() && Fired(was, now) && OnlyFired(was, there, queue, late) && lists == old(lists)
      ensures heap == old(heap) - {n}
      ensures forall j: nat :: Timer(j) in active ==> Timer(j) in old(active) || j < |lists|
    {
      hide AllWatched;
      hide FiredBy;
      hide NoMore;
      match n
      case User(e) =>
        HeapPlaced(heap, lists, place, due, e);
        hide Placed;
        FireDue(e, now, was, there, queue, late);
      case Timer(i) =>
        hide Placed;
        FireTimer(i, now, was, there, queue, late);
    }

    /** common_timeout_callback: the events of a list whose time has come become active, and
        the timer is set for the next. */
    method ListCallback(i: nat, now: int)
      requires Valid() && i < |lists| && i in running
      modifies `heap, `lists, `place, `due, `active, `timedOut, `running
      ensures Valid() && Fired(old(due), now) && running == old(running) - {i}
      ensures |lists| == |old(lists)| && forall j | 0 <= j < |lists| && j != i :: lists[j] == old(lists)[j]
      ensures forall x | x in lists[i] :: x.due > now
      ensures forall n | n in heap && n != Timer(i) :: n in old(heap) && heap[n] == old(heap)[n]
      ensures Timer(i) in heap ==>
        heap[Timer(i)] > now || (Timer(i) in old(heap) && heap[Timer(i)] == old(heap)[Timer(i)])
      ensures forall j: nat | j != i :: Timer(j) in active <==> Timer(j) in old(active)
      ensures Timer(i) in active ==> Timer(i) in old(active)
      ensures OnlyFired(old(due), old(place), old(active), old(timedOut))
      ensures forall e: nat | e in old(due) && e !in due :: e in old(place) && old(place)[e] == InList(i)
    {
      hide Placed;
      hide AllWatched;
      hide FiredBy;
      hide NoMore;
      NoneFired(now);
      while lists[i] != [] && lists[i][0].due <= now
        invariant Valid() && Fired(old(due), now) && running == old(running) && |lists| == |old(lists)|
        invariant forall j | 0 <= j < |lists| && j != i :: lists[j] == old(lists)[j]
        invariant forall n | n in heap :: n in old(heap) && heap[n] == old(heap)[n]
        invariant forall n | n in old(heap) && n.Timer? :: n in heap
        invariant forall j: nat :: Timer(j) in active <==> Timer(j) in old(active)
        invariant OnlyFired(old(due), old(place), old(active), old(timedOut))
        invariant forall e: nat | e in old(due) && e !in due :: e in old(place) && old(place)[e] == InList(i)
        decreases due.Keys
      {
        HeadPlaced(heap, lists, place, due, i);
        SamePlace(old(due), due, old(place), place, old(active), active, old(timedOut), timedOut, lists[i][0].ev);
        FireDue(lists[i][0].ev, now, old(due), old(place), old(active), old(timedOut));
      }
      HeadSmallest(heap, lists, place, due, i);
      OthersWatched(lists, heap, active, running, i);
      if lists[i] != [] {
        running := running - {i};
        TimersApart(old(due), due, old(place), place, old(active), active, old(timedOut), timedOut, now,
                    Off(active, Timer(i)));
        Schedule(i);
      } else {
        EmptyWatched(lists, heap, active, running, i);
        running := running - {i};
      }
    }

    /** timeout_process, and then the callbacks of the list timers that are active: every
        event whose deadline has come is active, and every other one waits as before. */
    method RunDue(now: int)
      requires Valid() && running == {}
      modifies `heap, `lists, `place, `due, `active, `timedOut, `running
      ensures Valid() && running == {} && Fired(old(due), now) && |lists| == |old(lists)|
      ensures OnlyFired(old(due), old(place), old(active), old(timedOut))
      ensures forall e: nat | e in due :: due[e] > now
      ensures forall j: nat :: Timer(j) in active ==> Timer(j) in old(active) || j < |lists|
    {
      hide Placed;
      hide AllWatched;
      TimeoutProcess(now);
      var i := 0;
      while i < |lists|
        invariant 0 <= i <= |lists| == |old(lists)| && Valid() && running == {} && Fired(old(due), now)
        invariant OnlyFired(old(due), old(place), old(active), old(timedOut))
        invariant forall j: nat :: Timer(j) in active ==> Timer(j) in old(active) || j < |lists|
        invariant forall j | 0 <= j < i :: forall x | x in lists[j] :: x.due > now
        invariant forall n | n in heap :: heap[n] > now
      {
        if Timer(i) in active {
          TakeAndRun(i, now, old(due), old(place), old(active), old(timedOut));
        } else {
          NotDue(heap, lists, place, due, active, i, now);
        }
        i := i + 1;
      }
      NoneDue(heap, lists, place, due, now);
    }

    method TakeAndRun(i: nat, now: int, ghost was: map<nat, int>, ghost there: map<nat, Place>,
          ghost queue: seq<Node>, ghost late: set<nat>)
      requires Valid() && running == {} && i < |lists| && Timer(i) in active
      requires Fired(was, now) && OnlyFired(was, there, queue, late)
      requires forall n | n in heap :: heap[n] > now
      modifies `heap, `lists, `place, `due, `active, `timedOut, `running
      ensures Valid() && running == {} && Fired(was, now) && forall n | n in heap :: heap[n] > now
      ensures OnlyFired(was, there, queue, late)
      ensures forall j: nat :: Timer(j) in active ==> Timer(j) in old(active)
      ensures |lists| == |old(lists)| && forall j | 0 <= j < |lists| && j != i :: lists[j] == old(lists)[j]
      ensures forall x | x in lists[i] :: x.due > now
    {
      hide Placed;
      hide AllWatched;
      Take(i);
      ListCallback(i, now);
    }

    /** A list timer leaves the active queue, and its callback is about to run. */
    method Take(i: nat)
      requires Valid() && Timer(i) in active
      modifies `active, `timedOut, `running
      ensures Valid() && running == old(running) + {i} && active == Off(old(active), Timer(i))
      ensures timedOut == old(timedOut)
    {
      TakenWatched(lists, heap, active, running, i);
      ActiveRemove(Timer(i));
      running := running + {i};
    }

    /** An event leaves the active queue, and waits on if it waits. */
    method Leave(e: nat)
      requires Valid()
      modifies `active, `timedOut
      ensures Valid() && active == Off(old(active), User(e)) && timedOut == old(timedOut) - {e}
    {
      StillWatched(lists, heap, active, running, User(e));
      ActiveRemove(User(e));
    }

    /** timeout_correct, without a monotonic clock: when the clock has gone back, every
        deadline goes back as far. */
    method TimeoutCorrect(now: int)
      requires Valid()
      modifies `heap, `lists, `due, `eventTv, `timeout
      ensures Valid() && eventTv == now && due.Keys == old(due).Keys && (old(Timed()) ==> Timed())
      ensures forall e: nat | e in due :: due[e] - now == old(due)[e] - if now < old(eventTv) then old(eventTv) else now
      ensures timeout == Corrected(old(timeout), place.Keys, old(eventTv), now) && |lists| == |old(lists)|
    {
      hide Placed;
      hide AllWatched;
      hide Agrees;
      hide Sooner;
      if now >= eventTv {
        eventTv := now;
        return;
      }
      GoBack(eventTv - now);
      eventTv := now;
    }

    /** Every deadline goes back. */
    method GoBack(off: int)
      requires Valid()
      modifies `heap, `lists, `due, `timeout
      ensures Valid() && Moved(old(due), due, off) && (old(Timed()) ==> Timed())
      ensures timeout == Sooner(old(timeout), place.Keys, off) && |lists| == |old(lists)|
    {
      hide ListOk;
      hide Placed;
      hide AllWatched;
      hide Sooner;
      hide Earlier;
      hide Moved;
      hide Agrees;
      PlacedKeys(heap, lists, place, due);
      TimedSooner(timeout, due, place.Keys, off);
      SoonerMoves(heap, off);
      SoonerMoves(due, off);
      var sooner := Sooner(heap, heap.Keys, off);
      var shifted := ShiftAll(lists, off);
      ghost var due' := Sooner(due, due.Keys, off);
      Shifted(heap, lists, place, due, off, sooner, shifted, due');
      ShiftedWatched(lists, heap, active, running, off, shifted, sooner);
      heap, lists, timeout, due := sooner, shifted, Sooner(timeout, place.Keys, off), due';
    }

    /** event_process_active_single_queue and event_persist_closure for a persistent event:
        it leaves the active queue, and waits for its next time. */
    method RunPersistent(e: nat, interval: nat, now: int, where: Place)
      requires Valid() && Timed() && User(e) in active && e in timeout
      requires interval > 0 && (where.InList? ==> where.list < |lists|)
      modifies `heap, `lists, `place, `due, `active, `timedOut, `timeout
      ensures Valid() && Timed() && e in due && due == old(due)[e := due[e]] && place == old(place)[e := where]
      ensures User(e) !in active && |lists| == |old(lists)| && due[e] >= now
      ensures due[e] == if e in old(timedOut) then Next(old(timeout)[e], interval, now) else now + interval
      ensures timeout == old(timeout)[e := due[e]] && timedOut == old(timedOut) - {e}
      ensures forall f: nat | f != e :: User(f) in active <==> User(f) in old(active)
      ensures forall j: nat :: Timer(j) in active ==> Timer(j) in old(active)
    {
      hide Placed;
      hide AllWatched;
      var byTimeout := e in timedOut;
      StillWatched(lists, heap, active, running, User(e));
      ActiveRemove(User(e));
      var relativeTo := if byTimeout then timeout[e] else now;
      var runAt := relativeTo + interval;
      if runAt < now {
        runAt := now + interval;
      }
      EventAdd(e, runAt, where);
    }
  }

  /** When an event that was to run at some time, and is run because it was, is to run next. */
  function Next(scheduled: int, interval: nat, now: int): (r: int)
    ensures r >= now
  {
    if scheduled + interval >= now then scheduled + interval else now + interval
  }

  /** The deadline of a persistent event after the loop has looked at its timeouts at some
      times: it runs when its deadline has come. */
  function Scheduled(start: int, interval: nat, times: seq<int>): int
  {
    if times == [] then start
    else
      var d := Scheduled(start, interval, times[..|times| - 1]);
      var now := times[|times| - 1];
      if d <= now then Next(d, interval, now) else d
  }

  /** No drift: runs on time, however late within the interval, are exactly an interval apart. */
  lemma {:induction false} NoDrift(start: int, interval: nat, times: seq<int>)
    requires forall i | 0 <= i < |times| :: start + i * interval <= times[i] <= start + (i + 1) * interval
    ensures Scheduled(start, interval, times) == start + |times| * interval
    decreases |times|
  {
    if times == [] {
      assert 0 * interval == 0;
    } else {
      var k := |times| - 1;
      NoDrift(start, interval, times[..k]);
      assert (k + 1) * interval == k * interval + interval;
    }
  }

  /** Before its time nothing changes. */
  lemma {:induction false} NotYet(start: int, interval: nat, times: seq<int>)
    requires forall now | now in times :: now < start
    ensures Scheduled(start, interval, times) == start
    decreases |times|
  {
    if times != [] {
      var before := times[..|times| - 1];
      assert forall now | now in before :: now in times;
      NotYet(start, interval, before);
      assert times[|times| - 1] in times;
    }
  }

  lemma {:induction false} ScheduledOn(start: int, interval: nat, a: seq<int>, b: seq<int>)
    ensures Scheduled(start, interval, a + b) == Scheduled(Scheduled(start, interval, a), interval, b)
    decreases |b|
  {
    if b == [] {
      assert a + b == a;
    } else {
      ScheduledOn(start, interval, a, b[..|b| - 1]);
      assert (a + b)[..|a + b| - 1] == a + b[..|b| - 1];
    }
  }

  /** A run that is late by more than the interval starts a new series at its own time. */
  lemma LateRestarts(start: int, interval: nat, before: seq<int>, late: int, after: seq<int>)
    requires late > Scheduled(start, interval, before) + interval
    requires forall i | 0 <= i < |after| :: late + (i + 1) * interval <= after[i] <= late + (i + 2) * interval
    ensures Scheduled(start, interval, before + [late] + after) == late + (|after| + 1) * interval
  {
    ScheduledOn(start, interval, before, [late]);
    ScheduledOn(start, interval, before + [late], after);
    LateOne(Scheduled(start, interval, before), interval, late);
    forall i | 0 <= i < |after|
      ensures late + interval + i * interval <= after[i] <= late + interval + (i + 1) * interval
    {
      assert (i + 1) * interval == interval + i * interval && (i + 2) * interval == interval + (i + 1) * interval;
    }
    NoDrift(late + interval, interval, after);
    assert (|after| + 1) * interval == interval + |after| * interval;
  }

  lemma LateOne(d: int, interval: nat, late: int)
    requires late > d + interval
    ensures Scheduled(d, interval, [late]) == late + interval
  {
    assert [late][..0] == [];
    assert Scheduled(d, interval, [late][..0]) == d;
  }

  /** The event loop, at one time after another, with any other events about: the deadline of
      a persistent event is what its schedule says. */
  method PersistRun(base: Base, e: nat, interval: nat, times: seq<int>, where: Place)
    requires base.Valid() && base.Timed() && base.running == {} && e in base.due && interval > 0
    requires where.InList? ==> where.list < |base.lists|
    modifies base
    ensures base.Valid() && base.Timed() && e in base.due
    ensures base.due[e] == Scheduled(old(base.due)[e], interval, times)
  {
    hide Placed;
    hide AllWatched;
    var i := 0;
    ghost var start := base.due[e];
    while i < |times|
      invariant 0 <= i <= |times| && base.Valid() && base.Timed() && base.running == {} && e in base.due
      invariant |base.lists| == |old(base.lists)| && base.due[e] == Scheduled(start, interval, times[..i])
    {
      assert times[..i + 1][..i] == times[..i];
      base.RunDue(times[i]);
      PlacedKeys(base.heap, base.lists, base.place, base.due);
      if e !in base.place {
        base.RunPersistent(e, interval, times[i], where);
      }
      i := i + 1;
    }
    assert times[..i] == times;
  }

  /** Each entry of a list, off earlier. */
  function Earlier(s: seq<Entry>, off: int): (r: seq<Entry>)
    ensures |r| == |s| && forall i | 0 <= i < |s| :: r[i] == Entry(s[i].ev, s[i].due - off)
  {
    seq(|s|, i requires 0 <= i < |s| => Entry(s[i].ev, s[i].due - off))
  }

  method ShiftAll(lists: seq<seq<Entry>>, off: int) returns (r: seq<seq<Entry>>)
    ensures |r| == |lists| && forall i | 0 <= i < |lists| :: r[i] == Earlier(lists[i], off)
  {
    r := [];
    while |r| < |lists|
      invariant |r| <= |lists| && forall i | 0 <= i < |r| :: r[i] == Earlier(lists[i], off)
    {
      var s, list, k := lists[|r|], [], 0;
      while k < |s|
        invariant 0 <= k <= |s| == |lists[|r|]| && s == lists[|r|] && list == Earlier(s, off)[..k]
      {
        list, k := list + [Entry(s[k].ev, s[k].due - off)], k + 1;
      }
      assert list == Earlier(s, off);
      r := r + [list];
    }
  }

  lemma EarlierIn(s: seq<Entry>, off: int, x: Entry)
    ensures Entry(x.ev, x.due - off) in Earlier(s, off) <==> x in s
  {
    if x in s {
      var i :| 0 <= i < |s| && s[i] == x;
      assert Earlier(s, off)[i] == Entry(x.ev, x.due - off);
    }
  }

  lemma ListShifted(s: seq<Entry>, i: nat, place: map<nat, Place>, due: map<nat, int>, off: int, due': map<nat, int>)
    requires ListOk(s, i, place, due) && due'.Keys == due.Keys && forall e | e in due :: due'[e] == due[e] - off
    ensures ListOk(Earlier(s, off), i, place, due')
  {
    forall y | y in Earlier(s, off)
      ensures y.ev in due' && y.ev in place && place[y.ev] == InList(i) && due'[y.ev] == y.due
    {
      var x := Entry(y.ev, y.due + off);
      EarlierIn(s, off, x);
    }
  }

  lemma Shifted(heap: map<Node, int>, lists: seq<seq<Entry>>, place: map<nat, Place>, due: map<nat, int>, off: int,
                heap': map<Node, int>, lists': seq<seq<Entry>>, due': map<nat, int>)
    requires Placed(heap, lists, place, due) && Moved(heap, heap', off) && Moved(due, due', off)
    requires |lists'| == |lists| && forall i | 0 <= i < |lists| :: lists'[i] == Earlier(lists[i], off)
    ensures Placed(heap', lists', place, due')
  {
    hide ListOk;
    forall i | 0 <= i < |lists'| ensures ListOk(lists'[i], i, place, due') {
      ListShifted(lists[i], i, place, due, off, due');
    }
    forall e: nat | e in due'
      ensures
        match place[e]
        case InHeap => User(e) in heap'
        case InList(i) => i < |lists'| && Entry(e, due'[e]) in lists'[i]
    {
      if place[e].InList? {
        EarlierIn(lists[place[e].list], off, Entry(e, due[e]));
      }
    }
  }

  lemma ShiftedWatched(lists: seq<seq<Entry>>, heap: map<Node, int>, active: seq<Node>, running: set<nat>, off: int,
                       lists': seq<seq<Entry>>, heap': map<Node, int>)
    requires AllWatched(lists, heap, active, running) && Moved(heap, heap', off)
    requires |lists'| == |lists| && forall i | 0 <= i < |lists| :: lists'[i] == Earlier(lists[i], off)
    ensures AllWatched(lists', heap', active, running)
  {
    forall i | 0 <= i < |lists'| ensures Watched(lists'[i], i, heap', active, running) {
      assert Watched(lists[i], i, heap, active, running);
    }
  }

  lemma TakenWatched(lists: seq<seq<Entry>>, heap: map<Node, int>, active: seq<Node>, running: set<nat>, i: nat)
    requires AllWatched(lists, heap, active, running)
    ensures AllWatched(lists, heap, Off(active, Timer(i)), running + {i})
  {
  }

  /** A look at the heap has fired what waits there and is due. */
  lemma HeapGone(heap: map<Node, int>, lists: seq<seq<Entry>>, place: map<nat, Place>, due: map<nat, int>,
        heap': map<Node, int>, place': map<nat, Place>, due': map<nat, int>, now: int)
    requires Placed(heap, lists, place, due) && Placed(heap', lists, place', due')
    requires forall e: nat | e in due' :: e in due && due'[e] == due[e]
    requires forall e: nat | e in place' :: e in place && place'[e] == place[e]
    requires forall e: nat | e in due && e !in due' :: due[e] <= now
    requires forall n | n in heap' :: heap'[n] > now
    ensures forall e: nat | e in due :: e in place && (e !in due' <==> place[e] == InHeap && due[e] <= now)
  {
    forall e: nat | e in due && place[e].InList? ensures e in due' {
      var i := place[e].list;
      assert Entry(e, due[e]) in lists[i];
      assert ListOk(lists[i], i, place', due');
    }
    forall e: nat | e in due && e in due' && place[e] == InHeap ensures due[e] > now {
      assert e in place' && place'[e] == InHeap;
      assert User(e) in heap' && heap'[User(e)] == due'[e];
    }
  }

  /** The callback of a list has fired what waits there and is due. */
  lemma ListGone(heap: map<Node, int>, lists: seq<seq<Entry>>, place: map<nat, Place>, due: map<nat, int>, i: nat,
        heap': map<Node, int>, lists': seq<seq<Entry>>, place': map<nat, Place>, due': map<nat, int>, now: int)
    requires Placed(heap, lists, place, due) && Placed(heap', lists', place', due') && i < |lists'|
    requires forall e: nat | e in due' :: e in due && due'[e] == due[e]
    requires forall e: nat | e in place' :: e in place && place'[e] == place[e]
    requires forall e: nat | e in due && e !in due' :: due[e] <= now && e in place && place[e] == InList(i)
    requires forall x | x in lists'[i] :: x.due > now
    ensures forall e: nat | e in due :: e in place && (e !in due' <==> place[e] == InList(i) && due[e] <= now)
  {
    hide ListOk;
    forall e: nat | e in due && e in due' && place[e] == InList(i) ensures due[e] > now {
      assert e in place' && place'[e] == InList(i);
      assert Entry(e, due'[e]) in lists'[i];
    }
  }

  /** A list whose timer is not active has nothing due when the heap has nothing due. */
  lemma NotDue(heap: map<Node, int>, lists: seq<seq<Entry>>, place: map<nat, Place>, due: map<nat, int>,
        active: seq<Node>, i: nat, now: int)
    requires Placed(heap, lists, place, due) && AllWatched(lists, heap, active, {}) && i < |lists|
    requires Timer(i) !in active
    requires forall n | n in heap :: heap[n] > now
    ensures forall x | x in lists[i] :: x.due > now
  {
    HeadSmallest(heap, lists, place, due, i);
    assert Watched(lists[i], i, heap, active, {});
  }

  lemma NoneDue(heap: map<Node, int>, lists: seq<seq<Entry>>, place: map<nat, Place>, due: map<nat, int>, now: int)
    requires Placed(heap, lists, place, due) && forall n | n in heap :: heap[n] > now
    requires forall j | 0 <= j < |lists| :: forall x | x in lists[j] :: x.due > now
    ensures forall e: nat | e in due :: due[e] > now
  {
    hide ListOk;
    forall e: nat | e in due ensures due[e] > now {
      match place[e]
      case InHeap => assert heap[User(e)] > now;
      case InList(i) => assert Entry(e, due[e]) in lists[i];
    }
  }

  lemma MinExists(heap: map<Node, int>)
    requires heap.Keys != {}
    ensures exists n :: n in heap.Keys && forall m | m in heap.Keys :: heap[n] <= heap[m]
    decreases |heap.Keys|
  {
    var n :| n in heap.Keys;
    var rest := heap - {n};
    assert rest.Keys == heap.Keys - {n};
    if rest.Keys != {} {
      MinExists(rest);
      var k :| k in rest.Keys && forall m | m in rest.Keys :: rest[k] <= rest[m];
      var best := if heap[n] <= heap[k] then n else k;
      forall m | m in heap.Keys ensures heap[best] <= heap[m] {
        if m != n {
          assert m in rest.Keys;
        }
      }
    } else {
      assert heap.Keys == {n};
    }
  }

  lemma HeapPlaced(heap: map<Node, int>, lists: seq<seq<Entry>>, place: map<nat, Place>, due: map<nat, int>, e: nat)
    requires Placed(heap, lists, place, due) && User(e) in heap
    ensures e in due && place[e] == InHeap && heap[User(e)] == due[e] && place.Keys == due.Keys
  {
  }

  lemma TimerOff(heap: map<Node, int>, lists: seq<seq<Entry>>, place: map<nat, Place>, due: map<nat, int>, i: nat)
    requires Placed(heap, lists, place, due)
    ensures Placed(heap - {Timer(i)}, lists, place, due)
  {
    hide ListOk;
  }

  /** A timer goes from the heap to the active queue. */
  lemma TimerFires(lists: seq<seq<Entry>>, heap: map<Node, int>, active: seq<Node>, running: set<nat>, i: nat)
    requires AllWatched(lists, heap, active, running)
    ensures AllWatched(lists, heap - {Timer(i)}, Off(active, Timer(i)) + [Timer(i)], running)
  {
  }

  lemma HeadPlaced(heap: map<Node, int>, lists: seq<seq<Entry>>, place: map<nat, Place>, due: map<nat, int>, i: nat)
    requires Placed(heap, lists, place, due) && i < |lists| && lists[i] != []
    ensures var e := lists[i][0].ev; e in due && place[e] == InList(i) && due[e] == lists[i][0].due
    ensures place.Keys == due.Keys
  {
    assert lists[i][0] in lists[i];
  }

  lemma HeadSmallest(heap: map<Node, int>, lists: seq<seq<Entry>>, place: map<nat, Place>, due: map<nat, int>, i: nat)
    requires Placed(heap, lists, place, due) && i < |lists|
    ensures forall x | x in lists[i] :: lists[i][0].due <= x.due
  {
  }

  lemma OthersWatched(lists: seq<seq<Entry>>, heap: map<Node, int>, active: seq<Node>, running: set<nat>, i: nat)
    requires AllWatched(lists, heap, active, running)
    ensures forall j | 0 <= j < |lists| && j != i :: Watched(lists[j], j, heap, active, running - {i})
  {
  }

  lemma EmptyWatched(lists: seq<seq<Entry>>, heap: map<Node, int>, active: seq<Node>, running: set<nat>, i: nat)
    requires AllWatched(lists, heap, active, running) && i < |lists| && lists[i] == []
    ensures AllWatched(lists, heap, active, running - {i})
  {
  }

  lemma {:induction false} OffNothing(active: seq<Node>, n: Node)
    requires n !in active
    ensures Off(active, n) == active
  {
    if active != [] {
      OffNothing(active[1..], n);
    }
  }

  /** What is taken off the active queue leaves the others in their order. */
  lemma {:induction false} OffAt(a: seq<Node>, n: Node, b: seq<Node>)
    requires n !in a && n !in b
    ensures Off(a + [n] + b, n) == a + b
  {
    var s := a + [n] + b;
    if a == [] {
      OffNothing(b, n);
      assert s[1..] == b && a + b == b;
    } else {
      OffAt(a[1..], n, b);
      assert s[1..] == a[1..] + [n] + b && [a[0]] + (a[1..] + b) == a + b;
    }
  }

  lemma PlacedKeys(heap: map<Node, int>, lists: seq<seq<Entry>>, place: map<nat, Place>, due: map<nat, int>)
    requires Placed(heap, lists, place, due)
    ensures place.Keys == due.Keys
  {
  }

  lemma NotInHeap(heap: map<Node, int>, lists: seq<seq<Entry>>, place: map<nat, Place>, due: map<nat, int>, e: nat)
    requires Placed(heap, lists, place, due) && e !in due
    ensures heap - {User(e)} == heap && due - {e} == due && place - {e} == place
  {
  }

  /** Users' events on the active queue do not matter to the lists. */
  lemma StillWatched(lists: seq<seq<Entry>>, heap: map<Node, int>, active: seq<Node>, running: set<nat>, n: Node)
    requires AllWatched(lists, heap, active, running) && n.User?
    ensures AllWatched(lists, heap, Off(active, n), running)
  {
  }

  ghost predicate FiredBy(was: map<nat, int>, due: map<nat, int>, active: seq<Node>, timedOut: set<nat>, now: int)
  {
    && (forall e: nat | e in due :: e in was && due[e] == was[e])
    && (forall e: nat | e in was && e !in due :: was[e] <= now && User(e) in active && e in timedOut)
  }

  ghost predicate NoMore(was: map<nat, int>, due: map<nat, int>, there: map<nat, Place>, place: map<nat, Place>,
        queue: seq<Node>, active: seq<Node>, late: set<nat>, timedOut: set<nat>)
  {
    && (forall e: nat | e in place :: e in there && place[e] == there[e])
    && timedOut == late + (was.Keys - due.Keys)
    && (forall e: nat :: User(e) in active <==> User(e) in queue || e in was.Keys - due.Keys)
  }

  lemma OneMoreFired(was: map<nat, int>, due: map<nat, int>, active: seq<Node>, timedOut: set<nat>, now: int, e: nat)
    requires FiredBy(was, due, active, timedOut, now) && e in due && due[e] <= now
    ensures FiredBy(was, due - {e}, Off(active, User(e)) + [User(e)], timedOut + {e}, now)
  {
  }

  lemma NoMoreThanOne(was: map<nat, int>, due: map<nat, int>, there: map<nat, Place>, place: map<nat, Place>,
        queue: seq<Node>, active: seq<Node>, late: set<nat>, timedOut: set<nat>, e: nat)
    requires NoMore(was, due, there, place, queue, active, late, timedOut) && e in due && e in was
    ensures NoMore(was, due - {e}, there, place - {e}, queue, Off(active, User(e)) + [User(e)], late, timedOut + {e})
  {
    assert was.Keys - (due - {e}).Keys == was.Keys - due.Keys + {e};
  }

  lemma SamePlace(was: map<nat, int>, due: map<nat, int>, there: map<nat, Place>, place: map<nat, Place>,
        queue: seq<Node>, active: seq<Node>, late: set<nat>, timedOut: set<nat>, e: nat)
    requires NoMore(was, due, there, place, queue, active, late, timedOut) && e in place
    ensures e in there && there[e] == place[e]
  {
  }

  /** List timers on the active queue do not matter to either. */
  lemma TimersApart(was: map<nat, int>, due: map<nat, int>, there: map<nat, Place>, place: map<nat, Place>,
        queue: seq<Node>, active: seq<Node>, late: set<nat>, timedOut: set<nat>, now: int, active': seq<Node>)
    requires FiredBy(was, due, active, timedOut, now)
    requires NoMore(was, due, there, place, queue, active, late, timedOut)
    requires forall e: nat :: User(e) in active' <==> User(e) in active
    ensures FiredBy(was, due, active', timedOut, now)
    ensures NoMore(was, due, there, place, queue, active', late, timedOut)
  {
  }

  lemma MoreWatched(lists: seq<seq<Entry>>, heap: map<Node, int>, active: seq<Node>, running: set<nat>, n: Node)
    requires AllWatched(lists, heap, active, running)
    ensures AllWatched(lists, heap, active + [n], running)
  {
  }

  lemma ListOkParts(s: seq<Entry>, i: nat, place: map<nat, Place>, due: map<nat, int>)
    requires ListOk(s, i, place, due)
    ensures Sorted(s) && forall y | y in s :: y.ev in due
  {
  }

  lemma ListLearns(s: seq<Entry>, i: nat, place: map<nat, Place>, due: map<nat, int>, e: nat, deadline: int,
        where: Place)
    requires ListOk(s, i, place, due) && e !in due
    ensures ListOk(s, i, place[e := where], due[e := deadline])
  {
  }

  lemma AddedToHeap(heap: map<Node, int>, lists: seq<seq<Entry>>, place: map<nat, Place>, due: map<nat, int>, e: nat,
        deadline: int)
    requires Placed(heap, lists, place, due) && e !in due
    ensures Placed(heap[User(e) := deadline], lists, place[e := InHeap], due[e := deadline])
  {
    hide ListOk;
    forall j | 0 <= j < |lists| ensures ListOk(lists[j], j, place[e := InHeap], due[e := deadline]) {
      ListLearns(lists[j], j, place, due, e, deadline, InHeap);
    }
  }

  lemma ListGrows(s: seq<Entry>, i: nat, place: map<nat, Place>, due: map<nat, int>, x: Entry, k: nat)
    requires ListOk(s, i, place, due) && x.ev !in due && k <= |s|
    requires (forall j | 0 <= j < k :: s[j].due <= x.due) && (forall j | k <= j < |s| :: x.due < s[j].due)
    ensures ListOk(s[..k] + [x] + s[k..], i, place[x.ev := InList(i)], due[x.ev := x.due])
    ensures forall y :: y in s[..k] + [x] + s[k..] <==> y in s || y == x
  {
    InsertedSorted(s, x, k);
    forall y ensures y in s[..k] + [x] + s[k..] <==> y in s || y == x {
      InsertedIn(s, x, k, y);
    }
  }

  lemma AddedToList(heap: map<Node, int>, lists: seq<seq<Entry>>, place: map<nat, Place>, due: map<nat, int>, e: nat,
        deadline: int, i: nat, k: nat)
    requires Placed(heap, lists, place, due) && e !in due && i < |lists| && k <= |lists[i]|
    requires forall j | 0 <= j < k :: lists[i][j].due <= deadline
    requires forall j | k <= j < |lists[i]| :: deadline < lists[i][j].due
    ensures Placed(heap, lists[i := lists[i][..k] + [Entry(e, deadline)] + lists[i][k..]],
                   place[e := InList(i)], due[e := deadline])
  {
    hide ListOk;
    var x := Entry(e, deadline);
    var lists' := lists[i := lists[i][..k] + [x] + lists[i][k..]];
    ListGrows(lists[i], i, place, due, x, k);
    forall j | 0 <= j < |lists'| ensures ListOk(lists'[j], j, place[e := InList(i)], due[e := deadline]) {
      if j != i {
        ListLearns(lists[j], j, place, due, e, deadline, InList(i));
      }
    }
  }

  lemma ListForgets(s: seq<Entry>, i: nat, place: map<nat, Place>, due: map<nat, int>, e: nat)
    requires ListOk(s, i, place, due)
    ensures ListOk(Without(s, e), i, place - {e}, due - {e})
    ensures e in place && place[e] != InList(i) ==> ListOk(s, i, place - {e}, due - {e})
    ensures forall y :: y in Without(s, e) <==> y in s && y.ev != e
    ensures Without(s, e) != [] ==> s != [] && s[0].due <= Without(s, e)[0].due
  {
    Removed(s, e);
  }

  lemma RemovedFromList(heap: map<Node, int>, lists: seq<seq<Entry>>, place: map<nat, Place>, due: map<nat, int>,
        e: nat, i: nat)
    requires Placed(heap, lists, place, due) && e in due && place[e] == InList(i)
    ensures i < |lists| && Placed(heap, lists[i := Without(lists[i], e)], place - {e}, due - {e})
  {
    hide ListOk;
    var lists' := lists[i := Without(lists[i], e)];
    forall j | 0 <= j < |lists'| ensures ListOk(lists'[j], j, place - {e}, due - {e}) {
      ListForgets(lists[j], j, place, due, e);
    }
    ListForgets(lists[i], i, place, due, e);
  }

  lemma RemovedFromHeap(heap: map<Node, int>, lists: seq<seq<Entry>>, place: map<nat, Place>, due: map<nat, int>,
        e: nat)
    requires Placed(heap, lists, place, due) && e in due && place[e] == InHeap
    ensures Placed(heap - {User(e)}, lists, place - {e}, due - {e})
  {
    hide ListOk;
    forall j | 0 <= j < |lists| ensures ListOk(lists[j], j, place - {e}, due - {e}) {
      ListForgets(lists[j], j, place, due, e);
    }
  }
}
