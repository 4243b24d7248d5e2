/** Which directions of which descriptors the kernel watches: the per-descriptor counts of
    evmap.c over epoll with a changelist, epoll without one, and /dev/poll
    (deps/libevent/evmap.c, epoll.c, devpoll.c), for level-triggered events. */
module Interest {
  datatype Mask = Mask(read: bool, write: bool)

  const NOTHING := Mask(false, false)

  function Union(a: Mask, b: Mask): Mask
  {
    Mask(a.read || b.read, a.write || b.write)
  }

  function Minus(a: Mask, b: Mask): Mask
  {
    Mask(a.read && !b.read, a.write && !b.write)
  }

  /** A registered event, and the per-descriptor record. */
  datatype Ev = Ev(id: nat, mask: Mask)
  datatype Slot = NoSlot | Slot(nread: nat, nwrite: nat, idxplus1: nat, events: seq<Ev>)

  datatype Todo = Keep | Add | Del
  datatype Change = Change(fd: nat, before: Mask, read: Todo, write: Todo)

  const MAX_EVENTS := 0xffff

  function Readers(events: seq<Ev>): (n: nat)
    ensures n <= |events|
    ensures n > 0 <==> exists e | e in events :: e.mask.read
  {
    if events == [] then 0 else Readers(events[..|events| - 1]) + if events[|events| - 1].mask.read then 1 else 0
  }

  function Writers(events: seq<Ev>): (n: nat)
    ensures n <= |events|
    ensures n > 0 <==> exists e | e in events :: e.mask.write
  {
    if events == [] then 0 else Writers(events[..|events| - 1]) + if events[|events| - 1].mask.write then 1 else 0
  }

  function SlotAt(entries: seq<Slot>, fd: nat): Slot
  {
    if fd < |entries| then entries[fd] else NoSlot
  }

  function EventsOf(s: Slot): seq<Ev>
  {
    if s.Slot? then s.events else []
  }

  function IdxPlus1(s: Slot): nat
  {
    if s.Slot? then s.idxplus1 else 0
  }

  /** The counts are of the events listed. */
  predicate Counted(s: Slot)
  {
    s.Slot? ==> s.nread == Readers(s.events) <= MAX_EVENTS && s.nwrite == Writers(s.events) <= MAX_EVENTS
  }

  /** The directions in which some registered event waits for fd. */
  function Wanted(events: seq<Ev>): Mask
  {
    Mask(Readers(events) > 0, Writers(events) > 0)
  }

  function Watched(kernel: map<nat, Mask>, fd: nat): Mask
  {
    if fd in kernel then kernel[fd] else NOTHING
  }

  function AfterTodo(before: bool, todo: Todo): bool
  {
    match todo
    case Keep => before
    case Add => true
    case Del => false
  }

  /** What a change leaves watched. */
  function Outcome(c: Change): Mask
  {
    Mask(AfterTodo(c.before.read, c.read), AfterTodo(c.before.write, c.write))
  }

  /** event_changelist_add. */
  function AddTo(c: Change, m: Mask): (r: Change)
    ensures r.fd == c.fd && r.before == c.before && Outcome(r) == Union(Outcome(c), m)
    ensures Needed(c) ==> Needed(r)
  {
    c.(read := if m.read then Add else c.read, write := if m.write then Add else c.write)
  }

  function DelTodo(before: bool, todo: Todo): Todo
  {
    if !before && todo.Add? then Keep else Del
  }

  /** event_changelist_del. */
  function DelFrom(c: Change, m: Mask): (r: Change)
    ensures r.fd == c.fd && r.before == c.before && Outcome(r) == Minus(Outcome(c), m)
    ensures Needed(c) && Minus(m, Outcome(c)) == NOTHING ==> Needed(r)
  {
    c.(read := if m.read then DelTodo(c.before.read, c.read) else c.read,
       write := if m.write then DelTodo(c.before.write, c.write) else c.write)
  }

  /** A change deletes only what was there before. */
  predicate Needed(c: Change)
  {
    (c.read.Del? ==> c.before.read) && (c.write.Del? ==> c.before.write)
  }

  // The kernel's side.

  datatype CtlOp = CtlAdd | CtlMod | CtlDel
  datatype Errno = Fine | ENOENT | EEXIST

  /** epoll_ctl. */
  function Ctl(kernel: map<nat, Mask>, op: CtlOp, fd: nat, m: Mask): (r: (map<nat, Mask>, Errno))
    ensures r.1 == Fine <==> (op.CtlAdd? <==> fd !in kernel)
    ensures r.1 == Fine ==> Watched(r.0, fd) == if op.CtlDel? then NOTHING else m
    ensures (r.1 != Fine ==> r.0 == kernel) && r.0 - {fd} == kernel - {fd}
  {
    match op
    case CtlAdd => if fd in kernel then (kernel, EEXIST) else (kernel[fd := m], Fine)
    case CtlMod => if fd in kernel then (kernel[fd := m], Fine) else (kernel, ENOENT)
    case CtlDel => if fd in kernel then (kernel - {fd}, Fine) else (kernel, ENOENT)
  }

  datatype PollFd = Poll(fd: nat, events: Mask) | PollRemove(fd: nat)

  /** One record written to /dev/poll: the driver adds to what it watches, and only a
      removal takes away. */
  function Written(kernel: map<nat, Mask>, p: PollFd): map<nat, Mask>
  {
    match p
    case Poll(fd, events) => kernel[fd := Union(Watched(kernel, fd), events)]
    case PollRemove(fd) => kernel - {fd}
  }

  function WrittenAll(kernel: map<nat, Mask>, ps: seq<PollFd>): map<nat, Mask>
  {
    if ps == [] then kernel else Written(WrittenAll(kernel, ps[..|ps| - 1]), ps[|ps| - 1])
  }

  datatype Backend = EpollChangelist | Epoll | DevPoll

  /** Each change belongs to a descriptor that leads to it. */
  ghost predicate Owned(entries: seq<Slot>, changes: seq<Change>, n: nat)
    requires n <= |changes|
  {
    forall i | 0 <= i < n :: IdxPlus1(SlotAt(entries, changes[i].fd)) == i + 1
  }

  /** Each descriptor leads to its own change or to none. */
  ghost predicate Indexed(entries: seq<Slot>, changes: seq<Change>, n: nat)
    requires n <= |changes|
  {
    forall fd: nat :: IdxPlus1(SlotAt(entries, fd)) > 0 ==>
      IdxPlus1(SlotAt(entries, fd)) <= n && changes[IdxPlus1(SlotAt(entries, fd)) - 1].fd == fd
  }

  /** Each change belongs to one descriptor, and each descriptor has at most one. */
  ghost predicate OneSlotEach(entries: seq<Slot>, changes: seq<Change>, n: nat)
  {
    n <= |changes| && Owned(entries, changes, n) && Indexed(entries, changes, n)
  }

  /** A change remembers what the kernel watches. */
  ghost predicate Remembers(changes: seq<Change>, n: nat, kernel: map<nat, Mask>)
    requires n <= |changes|
  {
    forall i | 0 <= i < n :: changes[i].before == Watched(kernel, changes[i].fd) && Needed(changes[i])
  }

  /** What the kernel will watch once the change for fd, if there is one, is applied. */
  function Pending(entries: seq<Slot>, changes: seq<Change>, kernel: map<nat, Mask>, fd: nat): Mask
  {
    var idx := IdxPlus1(SlotAt(entries, fd));
    if 0 < idx <= |changes| then Outcome(changes[idx - 1]) else Watched(kernel, fd)
  }

  /** The next change, for a descriptor that has none. */
  function WithSlot(entries: seq<Slot>, fd: nat, n: nat): seq<Slot>
    requires fd < |entries| && entries[fd].Slot?
  {
    entries[fd := entries[fd].(idxplus1 := n + 1)]
  }

  lemma ConstructedOwned(entries: seq<Slot>, changes: seq<Change>, n: nat, fd: nat, room: seq<Change>, c: Change)
    requires n <= |changes| && Owned(entries, changes, n)
    requires fd < |entries| && entries[fd].Slot? && entries[fd].idxplus1 == 0 && c.fd == fd
    requires n < |room| && forall i | 0 <= i < n :: room[i] == changes[i]
    ensures Owned(WithSlot(entries, fd, n), room[n := c], n + 1)
  {
    var entries', changes' := WithSlot(entries, fd, n), room[n := c];
    forall i | 0 <= i < n + 1 ensures IdxPlus1(SlotAt(entries', changes'[i].fd)) == i + 1 {
      if i < n {
        assert changes'[i] == changes[i];
      }
    }
  }

  lemma ConstructedIndexed(entries: seq<Slot>, changes: seq<Change>, n: nat, kernel: map<nat, Mask>, fd: nat,
        room: seq<Change>, c: Change)
    requires n <= |changes| && Indexed(entries, changes, n)
    requires fd < |entries| && entries[fd].Slot? && entries[fd].idxplus1 == 0
    requires n < |room| && forall i | 0 <= i < n :: room[i] == changes[i]
    requires c == Change(fd, Watched(kernel, fd), Keep, Keep)
    ensures Indexed(WithSlot(entries, fd, n), room[n := c], n + 1)
    ensures forall i: nat ::
      Pending(WithSlot(entries, fd, n), room[n := c], kernel, i) == Pending(entries, changes, kernel, i)
  {
    forall i: nat | i != fd ensures SlotAt(WithSlot(entries, fd, n), i) == SlotAt(entries, i) {
    }
  }

  /** Replacing a change by another for the same descriptor. */
  lemma ReplacedOwned(entries: seq<Slot>, changes: seq<Change>, n: nat, idx: nat, c: Change)
    requires idx < n <= |changes| && c.fd == changes[idx].fd && Owned(entries, changes, n)
    ensures Owned(entries, changes[idx := c], n)
  {
  }

  lemma ReplacedIndexed(entries: seq<Slot>, changes: seq<Change>, n: nat, kernel: map<nat, Mask>, idx: nat, c: Change)
    requires idx < n <= |changes| && c.fd == changes[idx].fd && Indexed(entries, changes, n)
    ensures Indexed(entries, changes[idx := c], n)
    ensures forall i: nat | i != c.fd ::
      Pending(entries, changes[idx := c], kernel, i) == Pending(entries, changes, kernel, i)
  {
    hide Outcome;
  }

  /** New slots for descriptors that had none. */
  lemma SlotsMade(entries: seq<Slot>, entries': seq<Slot>, changes: seq<Change>, n: nat, kernel: map<nat, Mask>)
    requires OneSlotEach(entries, changes, n)
    requires forall i: nat ::
      || SlotAt(entries', i) == SlotAt(entries, i)
      || (SlotAt(entries, i) == NoSlot && SlotAt(entries', i) == Slot(0, 0, 0, []))
    ensures OneSlotEach(entries', changes, n)
    ensures forall i: nat :: Pending(entries', changes, kernel, i) == Pending(entries, changes, kernel, i)
    ensures forall i: nat :: EventsOf(SlotAt(entries', i)) == EventsOf(SlotAt(entries, i))
  {
    hide Outcome;
    forall i: nat ensures IdxPlus1(SlotAt(entries', i)) == IdxPlus1(SlotAt(entries, i)) {
      assert
        || SlotAt(entries', i) == SlotAt(entries, i)
        || (SlotAt(entries, i) == NoSlot && SlotAt(entries', i) == Slot(0, 0, 0, []));
    }
  }

  /** A slot's counts and events have no part in the changelist. */
  lemma CountsOnly(entries: seq<Slot>, fd: nat, slot: Slot, changes: seq<Change>, n: nat, kernel: map<nat, Mask>)
    requires OneSlotEach(entries, changes, n) && fd < |entries|
    requires slot.Slot? && entries[fd].Slot? && slot.idxplus1 == entries[fd].idxplus1
    ensures OneSlotEach(entries[fd := slot], changes, n)
    ensures forall i: nat :: Pending(entries[fd := slot], changes, kernel, i) == Pending(entries, changes, kernel, i)
    ensures forall i: nat | i != fd :: SlotAt(entries[fd := slot], i) == SlotAt(entries, i)
  {
    hide Outcome;
    var entries' := entries[fd := slot];
    forall i: nat ensures SlotAt(entries', i) == if i == fd then slot else SlotAt(entries, i) {
    }
    assert forall i: nat :: IdxPlus1(SlotAt(entries', i)) == IdxPlus1(SlotAt(entries, i));
  }

  /** The counts of a descriptor are 16 bits wide. */
  predicate TooMany(events: seq<Ev>, ev: Ev)
  {
    Readers(events + [ev]) > MAX_EVENTS || Writers(events + [ev]) > MAX_EVENTS
  }

  /** Only a direction that the event waits for can be too much. */
  lemma TooManyIs(events: seq<Ev>, ev: Ev)
    requires Readers(events) <= 0xffff && Writers(events) <= 0xffff
    ensures TooMany(events, ev) <==>
      (ev.mask.read && Readers(events) == 0xffff) || (ev.mask.write && Writers(events) == 0xffff)
  {
    OneMore(events, ev);
  }

  lemma OneMore(events: seq<Ev>, ev: Ev)
    ensures Readers(events + [ev]) == Readers(events) + if ev.mask.read then 1 else 0
    ensures Writers(events + [ev]) == Writers(events) + if ev.mask.write then 1 else 0
  {
    assert (events + [ev])[..|events|] == events;
  }

  /** TAILQ_REMOVE. */
  function Without(events: seq<Ev>, ev: Ev): seq<Ev>
    requires ev in events
  {
    var last := events[|events| - 1];
    if last == ev then events[..|events| - 1] else Without(events[..|events| - 1], ev) + [last]
  }

  lemma {:induction false} OneLess(events: seq<Ev>, ev: Ev)
    requires ev in events
    ensures Readers(Without(events, ev)) == Readers(events) - if ev.mask.read then 1 else 0
    ensures Writers(Without(events, ev)) == Writers(events) - if ev.mask.write then 1 else 0
  {
    var last := events[|events| - 1];
    if last != ev {
      OneLess(events[..|events| - 1], ev);
      OneMore(Without(events[..|events| - 1], ev), last);
    }
  }

  /** Another event, in its place: the event is taken off where it stood last, and all others
      keep their order. */
  predicate TakenOff(was: seq<Ev>, ev: Ev, left: seq<Ev>)
  {
    exists i | 0 <= i < |was| :: was[i] == ev && left == was[..i] + was[i + 1..]
  }

  lemma {:induction false} WithoutAt(events: seq<Ev>, ev: Ev) returns (i: nat)
    requires ev in events
    ensures i < |events| && events[i] == ev && Without(events, ev) == events[..i] + events[i + 1..]
  {
    var n := |events| - 1;
    if events[n] == ev {
      i := n;
    } else {
      var before := events[..n];
      assert ev in before;
      i := WithoutAt(before, ev);
      assert before[i + 1..] + [events[n]] == events[i + 1..];
      assert before[..i] == events[..i];
      Regroup(before[..i], before[i + 1..], [events[n]]);
    }
  }

  lemma Regroup(a: seq<Ev>, b: seq<Ev>, c: seq<Ev>)
    ensures a + b + c == a + (b + c)
  {
  }

  lemma WithoutIs(events: seq<Ev>, ev: Ev)
    requires ev in events
    ensures TakenOff(events, ev, Without(events, ev))
    ensures multiset(Without(events, ev)) == multiset(events) - multiset{ev}
  {
    var i := WithoutAt(events, ev);
    hide Without;
    assert events == events[..i] + [ev] + events[i + 1..];
  }

  /** Change i belongs to its descriptor and to no other. */
  lemma OwnerOnly(entries: seq<Slot>, changes: seq<Change>, n: nat, i: nat)
    requires OneSlotEach(entries, changes, n) && i < n
    ensures SlotAt(entries, changes[i].fd).Slot? && IdxPlus1(SlotAt(entries, changes[i].fd)) == i + 1
    ensures forall fd: nat | IdxPlus1(SlotAt(entries, fd)) == i + 1 :: fd == changes[i].fd
  {
  }

  lemma KeepKeeps(c: Change)
    ensures c.read.Keep? && c.write.Keep? ==> Outcome(c) == c.before
  {
  }

  lemma NoneBeyond(entries: seq<Slot>, changes: seq<Change>, n: nat)
    requires OneSlotEach(entries, changes, n)
    ensures forall fd: nat :: IdxPlus1(SlotAt(entries, fd)) <= n
  {
  }

  function Cleared(s: Slot): Slot
  {
    if s.Slot? then s.(idxplus1 := 0) else s
  }

  lemma WrittenOneMore(kernel: map<nat, Mask>, ps: seq<PollFd>, p: PollFd)
    ensures WrittenAll(kernel, ps + [p]) == Written(WrittenAll(kernel, ps), p)
  {
    assert (ps + [p])[..|ps|] == ps;
  }

  class Base {
    const evsel: Backend
    var entries: seq<Slot>
    var kernel: map<nat, Mask>
    // The changelist: an array of which the first nChanges are in use.
    var changes: seq<Change>
    var nChanges: nat
    // The records for /dev/poll, of which there is room for nevents.
    const nevents: nat
    var queue: seq<PollFd>

    /** What the kernel will watch once all that is queued has reached it. */
    ghost function Coming(fd: nat): Mask
      reads this
    {
      if evsel.DevPoll? then Watched(WrittenAll(kernel, queue), fd) else Pending(entries, changes, kernel, fd)
    }

    /** The queues of the backend are in order. */
    ghost predicate Backed()
      reads this
    {
      && OneSlotEach(entries, changes, nChanges) && Remembers(changes, nChanges, kernel)
      && (!evsel.EpollChangelist? ==> nChanges == 0)
      && |queue| <= nevents && nevents > 1
      && (!evsel.DevPoll? ==> queue == [])
    }

    /** The counts are right, and what the kernel will watch is what the events want. */
    ghost predicate Valid()
      reads this
    {
      && Backed()
      && (forall fd: nat :: Counted(SlotAt(entries, fd)))
      && (forall fd: nat :: Coming(fd) == Wanted(EventsOf(SlotAt(entries, fd))))
    }

    constructor (evsel: Backend, nevents: nat)
      requires nevents > 1
      ensures Valid() && this.evsel == evsel && entries == [] && kernel == map[]
    {
      this.evsel, this.nevents := evsel, nevents;
      entries, kernel, changes, nChanges, queue := [], map[], [], 0, [];
    }

    /** evmap_make_space. */
    method MakeSpace(slot: nat)
      modifies `entries
      ensures slot < |entries| && forall i: nat :: SlotAt(entries, i) == SlotAt(old(entries), i)
    {
      if |entries| <= slot {
        var n := if |entries| > 0 then |entries| else 32;
        while n <= slot
          invariant n >= |entries| && n > 0
          decreases slot - n
        {
          n := n * 2;
        }
        entries := entries + seq(n - |entries|, _ => NoSlot);
      }
    }

    /** GET_IO_SLOT_AND_CTOR. */
    method MakeSlot(fd: nat)
      requires Valid()
      modifies `entries
      ensures Valid() && fd < |entries| && entries[fd].Slot?
      ensures forall i: nat :: EventsOf(SlotAt(entries, i)) == EventsOf(SlotAt(old(entries), i))
    {
      hide Wanted;
      hide Remembers;
      hide OneSlotEach;
      hide Pending;
      hide Readers;
      hide Writers;
      MakeSpace(fd);
      if entries[fd].NoSlot? {
        entries := entries[fd := Slot(0, 0, 0, [])];
      }
      SlotsMade(old(entries), entries, changes, nChanges, kernel);
    }

    /** event_changelist_get_or_construct, and event_changelist_grow. */
    method GetOrConstruct(fd: nat, before: Mask) returns (idx: nat)
      requires Backed() && evsel.EpollChangelist? && fd < |entries| && entries[fd].Slot?
      requires entries[fd].idxplus1 == 0 ==> before == Watched(kernel, fd)
      modifies `entries, `changes, `nChanges
      ensures Backed() && idx < nChanges && changes[idx].fd == fd
      ensures fd < |old(entries)| == |entries| && entries == old(entries)[fd := old(entries)[fd].(idxplus1 := idx + 1)]
      ensures forall i: nat :: Coming(i) == old(Coming(i))
    {
      hide Owned;
      hide Pending;
      hide Watched;
      if entries[fd].idxplus1 == 0 {
        if nChanges == |changes| {
          var size := if |changes| < 64 then 64 else |changes| * 2;
          changes := changes + seq(size - |changes|, _ => Change(0, NOTHING, Keep, Keep));
        }
        idx := nChanges;
        nChanges := nChanges + 1;
        var change := Change(fd, before, Keep, Keep);
        ConstructedOwned(entries, old(changes), idx, fd, changes, change);
        ConstructedIndexed(entries, old(changes), idx, kernel, fd, changes, change);
        entries := entries[fd := entries[fd].(idxplus1 := idx + 1)];
        changes := changes[idx := change];
      } else {
        assert IdxPlus1(SlotAt(entries, fd)) > 0;
        idx := entries[fd].idxplus1 - 1;
      }
    }

    /** event_changelist_add and event_changelist_del. */
    method ChangelistAddDel(adding: bool, fd: nat, before: Mask, m: Mask)
      requires Backed() && evsel.EpollChangelist? && fd < |entries| && entries[fd].Slot?
      requires before == Coming(fd) && (!adding ==> Minus(m, before) == NOTHING)
      modifies `entries, `changes, `nChanges
      ensures Backed() && fd < |old(entries)| == |entries| && old(entries)[fd].Slot? && entries[fd].Slot?
      ensures entries == old(entries)[fd := old(entries)[fd].(idxplus1 := entries[fd].idxplus1)]
      ensures Coming(fd) == if adding then Union(before, m) else Minus(before, m)
      ensures forall i: nat | i != fd :: Coming(i) == old(Coming(i))
    {
      var idx := GetOrConstruct(fd, before);
      assert Coming(fd) == before && SlotAt(entries, fd) == entries[fd];
      hide Owned;
      hide Indexed;
      hide Outcome;
      var change := if adding then AddTo(changes[idx], m) else DelFrom(changes[idx], m);
      ReplacedOwned(entries, changes, nChanges, idx, change);
      ReplacedIndexed(entries, changes, nChanges, kernel, idx, change);
      changes := changes[idx := change];
    }

    /** epoll_apply_one_change: whatever the kernel watched for fd before, it then watches
        what the change leaves, if the change changes anything. */
    method ApplyOne(ch: Change) returns (r: int)
      requires Needed(ch)
      modifies `kernel
      ensures r == 0
      ensures forall fd | fd != ch.fd :: Watched(kernel, fd) == old(Watched(kernel, fd))
      ensures if ch.read.Keep? && ch.write.Keep? then kernel == old(kernel) else Watched(kernel, ch.fd) == Outcome(ch)
    {
      var op, events := CtlAdd, NOTHING;
      if ch.read.Add? || ch.write.Add? {
        if ch.read.Add? {
          events := events.(read := true);
        } else if ch.read.Del? {
        } else if ch.before.read {
          events := events.(read := true);
        }
        if ch.write.Add? {
          events := events.(write := true);
        } else if ch.write.Del? {
        } else if ch.before.write {
          events := events.(write := true);
        }
        if ch.before != NOTHING {
          op := CtlMod;
        }
      } else if ch.read.Del? || ch.write.Del? {
        op := CtlDel;
        if ch.read.Del? {
          if ch.write.Del? {
            events := Mask(true, true);
          } else if ch.before.write {
            events, op := Mask(false, true), CtlMod;
          } else {
            events := Mask(true, false);
          }
        } else if ch.write.Del? {
          if ch.before.read {
            events, op := Mask(true, false), CtlMod;
          } else {
            events := Mask(false, true);
          }
        }
      }
      if events == NOTHING {
        return 0;
      }
      r := 0;
      var res := Ctl(kernel, op, ch.fd, events);
      kernel := res.0;
      if res.1 != Fine {
        if op.CtlMod? && res.1.ENOENT? {
          res := Ctl(kernel, CtlAdd, ch.fd, events);
          kernel := res.0;
          r := if res.1.Fine? then 0 else -1;
        } else if op.CtlAdd? && res.1.EEXIST? {
          res := Ctl(kernel, CtlMod, ch.fd, events);
          kernel := res.0;
          r := if res.1.Fine? then 0 else -1;
        } else if op.CtlDel? && res.1.ENOENT? {
          // The descriptor was closed: the deletion was unnecessary.
        } else {
          r := -1;
        }
      }
    }

    /** epoll_nochangelist_add and epoll_nochangelist_del. */
    method EpollAddDel(adding: bool, fd: nat, before: Mask, m: Mask)
      requires Backed() && evsel.Epoll? && before == Coming(fd) && m != NOTHING
      requires !adding ==> Minus(m, before) == NOTHING
      requires forall i: nat :: IdxPlus1(SlotAt(entries, i)) == 0
      modifies `kernel
      ensures Backed()
      ensures Coming(fd) == if adding then Union(before, m) else Minus(before, m)
      ensures forall i: nat | i != fd :: Coming(i) == old(Coming(i))
    {
      var todo := if adding then Add else Del;
      var ch := Change(fd, before, if m.read then todo else Keep, if m.write then todo else Keep);
      var r := ApplyOne(ch);
    }

    /** devpoll_queue, and devpoll_commit when the buffer is full. */
    method Enqueue(p: PollFd)
      requires evsel.DevPoll? && |queue| <= nevents && nevents > 1
      modifies `kernel, `queue
      ensures |queue| <= nevents
      ensures WrittenAll(kernel, queue) == Written(old(WrittenAll(kernel, queue)), p)
    {
      hide Written;
      if |queue| >= nevents {
        kernel, queue := WrittenAll(kernel, queue), [];
      }
      WrittenOneMore(kernel, queue, p);
      queue := queue + [p];
    }

    /** devpoll_add and devpoll_del. */
    method DevpollAddDel(adding: bool, fd: nat, before: Mask, m: Mask)
      requires Backed() && evsel.DevPoll? && before == Coming(fd) && m != NOTHING
      requires !adding ==> Minus(m, before) == NOTHING
      modifies `kernel, `queue
      ensures Backed()
      ensures Coming(fd) == if adding then Union(before, m) else Minus(before, m)
      ensures forall i: nat | i != fd :: Coming(i) == old(Coming(i))
    {
      if adding {
        Enqueue(Poll(fd, m));
      } else {
        Enqueue(PollRemove(fd));
        if m != Mask(true, true) {
          if m.read && before.write {
            Enqueue(Poll(fd, Mask(false, true)));
          } else if m.write && before.read {
            Enqueue(Poll(fd, Mask(true, false)));
          }
        }
      }
    }

    /** evsel->add and evsel->del. */
    method EvselAddDel(adding: bool, fd: nat, before: Mask, m: Mask)
      requires Backed() && fd < |entries| && entries[fd].Slot? && before == Coming(fd) && m != NOTHING
      requires !adding ==> Minus(m, before) == NOTHING
      modifies `entries, `changes, `nChanges, `kernel, `queue
      ensures Backed() && fd < |old(entries)| == |entries| && old(entries)[fd].Slot? && entries[fd].Slot?
      ensures entries == old(entries)[fd := old(entries)[fd].(idxplus1 := entries[fd].idxplus1)]
      ensures Coming(fd) == if adding then Union(before, m) else Minus(before, m)
      ensures forall i: nat | i != fd :: Coming(i) == old(Coming(i))
      ensures evsel.EpollChangelist? ==> kernel == old(kernel)
    {
      match evsel
      case EpollChangelist => ChangelistAddDel(adding, fd, before, m);
      case Epoll => EpollAddDel(adding, fd, before, m);
      case DevPoll => DevpollAddDel(adding, fd, before, m);
    }

    /** Stores new counts and a new list of events for fd. */
    method SetSlot(fd: nat, nread: nat, nwrite: nat, events: seq<Ev>)
      requires Backed() && fd < |entries| && entries[fd].Slot?
      requires Counted(Slot(nread, nwrite, 0, events)) && Coming(fd) == Wanted(events)
      requires forall i: nat | i != fd ::
        Counted(SlotAt(entries, i)) && Coming(i) == Wanted(EventsOf(SlotAt(entries, i)))
      modifies `entries
      ensures Valid() && EventsOf(SlotAt(entries, fd)) == events
      ensures forall i: nat | i != fd :: EventsOf(SlotAt(entries, i)) == EventsOf(SlotAt(old(entries), i))
    {
      hide Wanted;
      hide Remembers;
      var slot := entries[fd];
      CountsOnly(entries, fd, Slot(nread, nwrite, slot.idxplus1, events), changes, nChanges, kernel);
      entries := entries[fd := Slot(nread, nwrite, slot.idxplus1, events)];
      assert forall i: nat :: Coming(i) == old(Coming(i));
      forall i: nat ensures Counted(SlotAt(entries, i)) {
        if i != fd {
          assert Counted(SlotAt(old(entries), i));
        } else {
          assert SlotAt(entries, i) == Slot(nread, nwrite, slot.idxplus1, events);
        }
      }
    }

    /** The backend is told what changes, and the new counts and events are stored. */
    method Record(adding: bool, fd: nat, before: Mask, res: Mask, nread: nat, nwrite: nat, events: seq<Ev>)
      returns (r: int)
      requires Valid() && fd < |entries| && entries[fd].Slot? && Counted(Slot(nread, nwrite, 0, events))
      requires before == Wanted(entries[fd].events) && (!adding ==> Minus(res, before) == NOTHING)
      requires Wanted(events) == if adding then Union(before, res) else Minus(before, res)
      modifies `entries, `changes, `nChanges, `kernel, `queue
      ensures Valid() && EventsOf(SlotAt(entries, fd)) == events && r == if res == NOTHING then 0 else 1
      ensures forall i: nat | i != fd :: EventsOf(SlotAt(entries, i)) == EventsOf(SlotAt(old(entries), i))
      ensures evsel.EpollChangelist? ==> kernel == old(kernel)
    {
      hide Readers;
      hide Writers;
      hide OneSlotEach;
      hide Remembers;
      hide Pending;
      hide Wanted;
      ghost var was := entries;
      assert SlotAt(entries, fd) == entries[fd];
      r := 0;
      if res != NOTHING {
        EvselAddDel(adding, fd, before, res);
        r := 1;
      }
      assert forall i: nat | i != fd :: SlotAt(entries, i) == SlotAt(was, i);
      SetSlot(fd, nread, nwrite, events);
    }

    /** The counts of a descriptor are those of its events. */
    lemma CountsAre(fd: nat)
      requires Valid() && fd < |entries| && entries[fd].Slot?
      ensures Counted(entries[fd])
    {
      hide Readers;
      hide Writers;
      assert Counted(SlotAt(entries, fd));
    }

    /** evmap_io_add. */
    method IoAdd(fd: int, ev: Ev) returns (r: int)
      requires Valid()
      modifies `entries, `changes, `nChanges, `kernel, `queue
      ensures Valid()
      ensures forall i: nat | i != fd :: EventsOf(SlotAt(entries, i)) == EventsOf(SlotAt(old(entries), i))
      ensures fd < 0 ==> r == 0
      ensures fd >= 0 ==> var was := EventsOf(SlotAt(old(entries), fd));
        if TooMany(was, ev) then r == -1 && EventsOf(SlotAt(entries, fd)) == was
        else EventsOf(SlotAt(entries, fd)) == was + [ev] && r == (if Wanted(was + [ev]) == Wanted(was) then 0 else 1)
      ensures evsel.EpollChangelist? ==> kernel == old(kernel)
    {
      hide Readers;
      hide Writers;
      hide Valid;
      if fd < 0 {
        return 0;
      }
      MakeSlot(fd);
      CountsAre(fd);
      var slot := SlotAt(entries, fd);
      var nread, nwrite := slot.nread, slot.nwrite;
      var before, res := Mask(nread > 0, nwrite > 0), NOTHING;
      if ev.mask.read {
        nread := nread + 1;
        res := res.(read := nread == 1);
      }
      if ev.mask.write {
        nwrite := nwrite + 1;
        res := res.(write := nwrite == 1);
      }
      OneMore(slot.events, ev);
      if nread > MAX_EVENTS || nwrite > MAX_EVENTS {
        return -1;
      }
      r := Record(true, fd, before, res, nread, nwrite, slot.events + [ev]);
    }

    /** evmap_io_del. */
    method IoDel(fd: int, ev: Ev) returns (r: int)
      requires Valid()
      requires 0 <= fd < |entries| ==> entries[fd].Slot? && ev in entries[fd].events
      modifies `entries, `changes, `nChanges, `kernel, `queue
      ensures Valid()
      ensures forall i: nat | i != fd :: EventsOf(SlotAt(entries, i)) == EventsOf(SlotAt(old(entries), i))
      ensures fd < 0 ==> r == 0
      ensures fd >= |old(entries)| ==> r == -1 && entries == old(entries)
      ensures 0 <= fd < |old(entries)| ==> var was := old(entries)[fd].events;
        && EventsOf(SlotAt(entries, fd)) == Without(was, ev) && TakenOff(was, ev, EventsOf(SlotAt(entries, fd)))
        && r == if Wanted(EventsOf(SlotAt(entries, fd))) == Wanted(was) then 0 else 1
      ensures evsel.EpollChangelist? ==> kernel == old(kernel)
    {
      hide Readers;
      hide Writers;
      hide Valid;
      if fd < 0 {
        return 0;
      }
      if fd >= |entries| {
        return -1;
      }
      CountsAre(fd);
      var slot := SlotAt(entries, fd);
      var nread, nwrite := slot.nread, slot.nwrite;
      var before, res := Mask(nread > 0, nwrite > 0), NOTHING;
      OneLess(slot.events, ev);
      WithoutIs(slot.events, ev);
      hide TakenOff;
      hide Without;
      if ev.mask.read {
        nread := nread - 1;
        res := res.(read := nread == 0);
      }
      if ev.mask.write {
        nwrite := nwrite - 1;
        res := res.(write := nwrite == 0);
      }
      r := Record(false, fd, before, res, nread, nwrite, Without(slot.events, ev));
    }

    /** epoll_apply_changes. */
    method ApplyChanges() returns (r: int)
      requires OneSlotEach(entries, changes, nChanges) && Remembers(changes, nChanges, kernel)
      modifies `kernel
      ensures r == 0
      ensures forall fd: nat :: Watched(kernel, fd) == Pending(entries, changes, old(kernel), fd)
    {
      hide Outcome;
      hide Owned;
      hide Indexed;
      r := 0;
      var i := 0;
      while i < nChanges
        invariant 0 <= i <= nChanges && r == 0
        invariant forall fd: nat :: Watched(kernel, fd) == (if IdxPlus1(SlotAt(entries, fd)) <= i
          then Pending(entries, changes, old(kernel), fd) else Watched(old(kernel), fd))
      {
        var ch := changes[i];
        OwnerOnly(entries, changes, nChanges, i);
        KeepKeeps(ch);
        var one := ApplyOne(ch);
        if one < 0 {
          r := -1;
        }
        i := i + 1;
      }
      NoneBeyond(entries, changes, nChanges);
    }

    /** event_changelist_remove_all. */
    method RemoveAll()
      requires OneSlotEach(entries, changes, nChanges)
      modifies `entries, `nChanges
      ensures nChanges == 0 && forall fd: nat :: IdxPlus1(SlotAt(entries, fd)) == 0
      ensures forall fd: nat :: SlotAt(entries, fd) == Cleared(SlotAt(old(entries), fd))
    {
      hide Owned;
      hide Indexed;
      var i := 0;
      while i < nChanges
        invariant 0 <= i <= nChanges == old(nChanges) && |entries| == |old(entries)|
        invariant forall fd: nat :: SlotAt(entries, fd) == (if IdxPlus1(SlotAt(old(entries), fd)) <= i
          then Cleared(SlotAt(old(entries), fd)) else SlotAt(old(entries), fd))
      {
        var fd := changes[i].fd;
        OwnerOnly(old(entries), changes, nChanges, i);
        assert SlotAt(entries, fd) == SlotAt(old(entries), fd) == entries[fd];
        assert entries[fd].idxplus1 == i + 1;
        entries := entries[fd := entries[fd].(idxplus1 := 0)];
        i := i + 1;
      }
      NoneBeyond(old(entries), changes, nChanges);
      nChanges := 0;
    }

    /** What every dispatch does first: the queued changes go to the kernel, which then
        watches what the registered events want, and nothing else. */
    method Dispatch()
      requires Valid()
      modifies `entries, `nChanges, `kernel, `queue
      ensures Valid() && nChanges == 0 && queue == []
      ensures forall fd: nat :: EventsOf(SlotAt(entries, fd)) == EventsOf(SlotAt(old(entries), fd))
      ensures forall fd: nat :: Watched(kernel, fd) == Wanted(EventsOf(SlotAt(entries, fd)))
    {
      hide Wanted;
      hide Readers;
      hide Writers;
      hide Outcome;
      match evsel
      case EpollChangelist =>
        var r := ApplyChanges();
        RemoveAll();
      case Epoll =>
        NoneBeyond(entries, changes, nChanges);
      case DevPoll =>
        if |queue| > 0 {
          kernel, queue := WrittenAll(kernel, queue), [];
        }
    }
  }

  datatype IoOp = Register(fd: int, ev: Ev) | Unregister(fd: int, ev: Ev) | Dispatch

  function Listed(reg: map<nat, seq<Ev>>, fd: nat): seq<Ev>
  {
    if fd in reg then reg[fd] else []
  }

  /** The events registered after one operation.  Only what is registered can be taken off. */
  function Registered(reg: map<nat, seq<Ev>>, op: IoOp): map<nat, seq<Ev>>
  {
    match op
    case Register(fd, ev) =>
      if fd < 0 || TooMany(Listed(reg, fd), ev) then reg else reg[fd := Listed(reg, fd) + [ev]]
    case Unregister(fd, ev) =>
      if fd < 0 || ev !in Listed(reg, fd) then reg else reg[fd := Without(Listed(reg, fd), ev)]
    case Dispatch => reg
  }

  function RegisteredAll(ops: seq<IoOp>): map<nat, seq<Ev>>
  {
    if ops == [] then map[] else Registered(RegisteredAll(ops[..|ops| - 1]), ops[|ops| - 1])
  }

  /** How often an event has been registered for a descriptor and not yet taken off. */
  function Standing(ops: seq<IoOp>, fd: nat, ev: Ev): nat
  {
    if ops == [] then 0
    else
      var before := ops[..|ops| - 1];
      var n := Standing(before, fd, ev);
      match ops[|ops| - 1]
      case Register(f, e) =>
        if f == fd && e == ev && !TooMany(Listed(RegisteredAll(before), fd), ev) then n + 1 else n
      case Unregister(f, e) => if f == fd && e == ev && n > 0 then n - 1 else n
      case Dispatch => n
  }

  /** What an operation does to the list of a descriptor. */
  lemma ListedAfter(reg: map<nat, seq<Ev>>, op: IoOp, fd: nat)
    ensures var was, now := Listed(reg, fd), Listed(Registered(reg, op), fd);
      match op
      case Register(f, e) => now == if f == fd && !TooMany(was, e) then was + [e] else was
      case Unregister(f, e) => now == if f == fd && e in was then Without(was, e) else was
      case Dispatch => now == was
  {
    hide TooMany;
    hide Without;
  }

  lemma OneMoreOf(events: seq<Ev>, e: Ev, ev: Ev)
    ensures multiset(events + [e])[ev] == multiset(events)[ev] + if e == ev then 1 else 0
  {
  }

  lemma OneLessOf(events: seq<Ev>, e: Ev, ev: Ev)
    requires e in events
    ensures multiset(Without(events, e))[ev] == multiset(events)[ev] - if e == ev then 1 else 0
    ensures multiset(events)[e] > 0
  {
    WithoutIs(events, e);
    hide Without;
  }

  /** That is how often it is listed. */
  lemma {:induction false} StandingIs(ops: seq<IoOp>, fd: nat, ev: Ev)
    ensures multiset(Listed(RegisteredAll(ops), fd))[ev] == Standing(ops, fd, ev)
  {
    hide TooMany;
    hide Without;
    hide Registered;
    if ops != [] {
      var before, op := ops[..|ops| - 1], ops[|ops| - 1];
      StandingIs(before, fd, ev);
      ListedAfter(RegisteredAll(before), op, fd);
      var was := Listed(RegisteredAll(before), fd);
      match op
      case Register(_, e) => OneMoreOf(was, e, ev);
      case Unregister(_, e) =>
        if e in was {
          OneLessOf(was, e, ev);
        }
      case Dispatch =>
    }
  }

  ghost predicate Holds(base: Base, reg: map<nat, seq<Ev>>)
    reads base
  {
    base.Valid() && forall fd: nat :: EventsOf(SlotAt(base.entries, fd)) == Listed(reg, fd)
  }

  method Operate(base: Base, op: IoOp, ghost reg: map<nat, seq<Ev>>)
    requires Holds(base, reg)
    modifies base
    ensures Holds(base, Registered(reg, op))
    ensures op.Dispatch? ==> forall fd: nat :: Watched(base.kernel, fd) == Wanted(Listed(reg, fd))
  {
    hide Readers;
    hide Writers;
    hide Wanted;
    match op
    case Register(fd, ev) =>
      var r := base.IoAdd(fd, ev);
    case Unregister(fd, ev) =>
      if 0 <= fd && ev in EventsOf(SlotAt(base.entries, fd)) {
        assert ev in Listed(reg, fd);
        var r := base.IoDel(fd, ev);
      } else if 0 <= fd {
        assert EventsOf(SlotAt(base.entries, fd)) == Listed(reg, fd);
      }
    case Dispatch =>
      base.Dispatch();
  }

  /** Any run of additions, deletions and dispatches, on any backend, and a dispatch. */
  method Operated(evsel: Backend, nevents: nat, ops: seq<IoOp>) returns (base: Base)
    requires nevents > 1
    ensures base.Valid() && base.evsel == evsel
    ensures forall fd: nat :: Watched(base.kernel, fd) == Wanted(Listed(RegisteredAll(ops), fd))
    ensures forall fd: nat, ev: Ev :: multiset(EventsOf(SlotAt(base.entries, fd)))[ev] == Standing(ops, fd, ev)
  {
    hide Registered;
    hide Wanted;
    base := new Base(evsel, nevents);
    var i := 0;
    while i < |ops|
      invariant 0 <= i <= |ops| && fresh(base) && base.evsel == evsel && Holds(base, RegisteredAll(ops[..i]))
    {
      Operate(base, ops[i], RegisteredAll(ops[..i]));
      assert ops[..i + 1][..i] == ops[..i];
      i := i + 1;
    }
    assert ops[..i] == ops;
    hide RegisteredAll;
    Operate(base, Dispatch, RegisteredAll(ops));
    DispatchKeeps(ops);
    forall fd: nat, ev: Ev ensures multiset(EventsOf(SlotAt(base.entries, fd)))[ev] == Standing(ops, fd, ev) {
      StandingIs(ops, fd, ev);
    }
  }

  lemma DispatchKeeps(ops: seq<IoOp>)
    ensures Registered(RegisteredAll(ops), Dispatch) == RegisteredAll(ops)
  {
  }

  /** The three backends end up with the same interest: a direction of a descriptor is
      watched exactly when some registered event waits for it. */
  method SameInterest(ops: seq<IoOp>, nevents: nat) returns (a: map<nat, Mask>, b: map<nat, Mask>, c: map<nat, Mask>)
    requires nevents > 1
    ensures forall fd: nat :: Watched(a, fd) == Watched(b, fd) == Watched(c, fd)
    ensures forall fd: nat :: Watched(a, fd).read <==> exists e | e in Listed(RegisteredAll(ops), fd) :: e.mask.read
    ensures forall fd: nat :: Watched(a, fd).write <==> exists e | e in Listed(RegisteredAll(ops), fd) :: e.mask.write
  {
    hide RegisteredAll;
    var x := Operated(EpollChangelist, nevents, ops);
    var y := Operated(Epoll, nevents, ops);
    var z := Operated(DevPoll, nevents, ops);
    a, b, c := x.kernel, y.kernel, z.kernel;
  }
}
