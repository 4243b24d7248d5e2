/** The queue of event.cpp: many producers under a lock, one consumer without it, as
    interleaved statements, with the activation of the event whose callback consumes. */
module Mpsc {
  datatype Ref = Null | To(id: nat)
  datatype Node = Node(next: Ref, key: nat, data: nat, placeholder: bool)
  datatype Item = Item(key: nat, data: nat)

  /** The statement of event_trigger that a thread has just done. */
  datatype Stage =
    | Resting        // not in event_trigger
    | Made           // malloc
    | Locked         // pthread_mutex_lock
    | GotTail        // cur_tail = ts_list.tail
    | PutKey         // cur_tail->key = key
    | PutData        // cur_tail->data = data
    | PutNext        // cur_tail->next = new_tail
    | NewNext        // new_tail->next = NULL
    | NewMark        // new_tail->is_placeholder = true
    | Published      // cur_tail->is_placeholder = false
    | MovedTail      // ts_list.tail = new_tail
    | Unlocked       // pthread_mutex_unlock; event_active is next

  datatype Producer = Producer(stage: Stage, item: Item, cur: nat, own: nat)

  /** The statement of the event loop's thread that comes next. */
  datatype ConsumerAt =
    | Waiting        // the callback is not running
    | Testing        // ts_list.head->is_placeholder
    | Picking        // node = ts_list.head
    | TakingKey      // *key = node->key
    | TakingData     // *data = node->data
    | MovingHead     // ts_list.head = node->next
    | Freeing        // free(node), and then the callback gets the item

  /** The shared memory, the threads, and the history of the run: the items in the order
      of the lock, those published, those handed to callbacks, and the list of nodes. */
  datatype State = State(
    heap: map<nat, Node>, head: nat, tail: nat, lock: Ref, active: bool,
    producers: map<nat, Producer>,
    at: ConsumerAt, node: nat, key: nat, data: nat,
    locked: seq<Item>, published: seq<Item>, consumed: seq<Item>, nodes: seq<nat>)

  const JUNK := Node(Null, 0, 0, false)
  const REST := Producer(Resting, Item(0, 0), 0, 0)

  datatype Event =
    | Begin(p: nat, item: Item, own: nat, garbage: Node)
    | Advance(p: nat)
    | Consume

  function Thread(s: State, p: nat): Producer
  {
    if p in s.producers then s.producers[p] else REST
  }

  function Load(s: State, id: nat): Node
  {
    if id in s.heap then s.heap[id] else JUNK
  }

  function Store(s: State, id: nat, n: Node): State
  {
    s.(heap := s.heap[id := n])
  }

  function Goto(s: State, p: nat, t: Producer, stage: Stage): State
  {
    s.(producers := s.producers[p := t.(stage := stage)])
  }

  /** list_init. */
  function Start(id: nat): State
  {
    State(map[id := Node(Null, 0, 0, true)], id, id, Null, false, map[], Waiting, 0, 0, 0, [], [], [], [id])
  }

  /** malloc gives memory that is not in use; a lock waits; the event loop runs the
      callback only when its event is active. */
  predicate Enabled(s: State, e: Event)
  {
    match e
    case Begin(p, item, own, garbage) => Thread(s, p).stage.Resting? && own !in s.heap
    case Advance(p) => !Thread(s, p).stage.Resting? && (Thread(s, p).stage.Made? ==> s.lock.Null?)
    case Consume => s.at.Waiting? ==> s.active
  }

  /** The next statement of thread p in list_produce, or event_active. */
  function Produce(s: State, p: nat): State
  {
    var t := Thread(s, p);
    var c := Load(s, t.cur);
    var n := Load(s, t.own);
    match t.stage
    case Resting => s
    case Made => Goto(s.(lock := To(p), locked := s.locked + [t.item]), p, t, Locked)
    case Locked => Goto(s, p, t.(cur := s.tail), GotTail)
    case GotTail => Goto(Store(s, t.cur, c.(key := t.item.key)), p, t, PutKey)
    case PutKey => Goto(Store(s, t.cur, c.(data := t.item.data)), p, t, PutData)
    case PutData => Goto(Store(s, t.cur, c.(next := To(t.own))), p, t, PutNext)
    case PutNext => Goto(Store(s, t.own, n.(next := Null)), p, t, NewNext)
    case NewNext => Goto(Store(s, t.own, n.(placeholder := true)), p, t, NewMark)
    case NewMark =>
      Goto(Store(s, t.cur, c.(placeholder := false)).(published := s.published + [t.item], nodes := s.nodes + [t.own]),
           p, t, Published)
    case Published => Goto(s.(tail := t.own), p, t, MovedTail)
    case MovedTail => Goto(s.(lock := Null), p, t, Unlocked)
    case Unlocked => Goto(s.(active := true), p, t, Resting)
  }

  /** The next statement of the event loop's thread: event_process_active_single_queue
      takes the event off the active queue and runs custom_event_cb, which calls
      list_consume until it fails. */
  function ConsumeStep(s: State): State
  {
    var n := Load(s, s.node);
    match s.at
    case Waiting => s.(active := false, at := Testing)
    case Testing => s.(at := if Load(s, s.head).placeholder then Waiting else Picking)
    case Picking => s.(node := s.head, at := TakingKey)
    case TakingKey => s.(key := n.key, at := TakingData)
    case TakingData => s.(data := n.data, at := MovingHead)
    case MovingHead =>
      s.(head := if n.next.To? then n.next.id else 0,
         nodes := if s.nodes == [] then [] else s.nodes[1..],
         at := Freeing)
    case Freeing => s.(heap := s.heap - {s.node}, consumed := s.consumed + [Item(s.key, s.data)], at := Testing)
  }

  function Step(s: State, e: Event): State
  {
    match e
    case Begin(p, item, own, garbage) =>
      Store(s, own, garbage).(producers := s.producers[p := Producer(Made, item, 0, own)])
    case Advance(p) => Produce(s, p)
    case Consume => ConsumeStep(s)
  }

  function Run(s: State, events: seq<Event>): State
    decreases |events|
  {
    if events == [] then s else Run(Step(s, events[0]), events[1..])
  }

  predicate Possible(s: State, events: seq<Event>)
    decreases |events|
  {
    events == [] || (Enabled(s, events[0]) && Possible(Step(s, events[0]), events[1..]))
  }

  /** Between taking and releasing the lock. */
  predicate Critical(stage: Stage)
  {
    !stage.Resting? && !stage.Made? && !stage.Unlocked?
  }

  /** Has a node of its own, not yet in the list. */
  predicate Owns(stage: Stage)
  {
    !stage.Resting? && !stage.Published? && !stage.MovedTail? && !stage.Unlocked?
  }

  /** Has the tail, and has not yet published the item. */
  predicate Filling(stage: Stage)
  {
    Owns(stage) && !stage.Made? && !stage.Locked?
  }

  /** The nodes from head to the placeholder are linked, and all but the placeholder hold items. */
  predicate Listed(s: State)
  {
    && s.nodes != [] && s.head == s.nodes[0]
    && (forall i | 0 <= i < |s.nodes| :: s.nodes[i] in s.heap)
    && (forall i, j | 0 <= i < j < |s.nodes| :: s.nodes[i] != s.nodes[j])
    && (forall i | 0 <= i < |s.nodes| - 1 ::
          !s.heap[s.nodes[i]].placeholder && s.heap[s.nodes[i]].next == To(s.nodes[i + 1]))
    && s.heap[s.nodes[|s.nodes| - 1]].placeholder
  }

  predicate Held(s: State)
  {
    && (forall p | p in s.producers :: Critical(s.producers[p].stage) ==> s.lock == To(p))
    && (s.lock.To? ==> Critical(Thread(s, s.lock.id).stage))
  }

  /** The tail pointer is the placeholder, but for the moment after an item is published:
      there it may even be a node already freed. */
  predicate TailRight(s: State)
  {
    s.nodes != [] && ((s.lock.To? && Thread(s, s.lock.id).stage.Published?) || s.tail == s.nodes[|s.nodes| - 1])
  }

  /** What a producer in list_produce has done so far. */
  predicate Progress(s: State, t: Producer)
  {
    && (Owns(t.stage) ==> t.own in s.heap && t.own !in s.nodes)
    && (Filling(t.stage) ==> s.nodes != [] && t.cur == s.nodes[|s.nodes| - 1] && t.cur in s.heap)
    && (t.stage in {PutKey, PutData, PutNext, NewNext, NewMark} ==> s.heap[t.cur].key == t.item.key)
    && (t.stage in {PutData, PutNext, NewNext, NewMark} ==> s.heap[t.cur].data == t.item.data)
    && (t.stage in {PutNext, NewNext, NewMark} ==> s.heap[t.cur].next == To(t.own))
    && (t.stage.NewMark? ==> s.heap[t.own].placeholder)
    && (t.stage.Published? ==> s.nodes != [] && t.own == s.nodes[|s.nodes| - 1])
  }

  predicate Producing(s: State)
  {
    && (forall p | p in s.producers :: Progress(s, s.producers[p]))
    && (forall p, q
          | p in s.producers && q in s.producers && p != q
            && Owns(s.producers[p].stage) && Owns(s.producers[q].stage) ::
          s.producers[p].own != s.producers[q].own)
  }

  /** What the consumer has done so far. */
  predicate Consuming(s: State)
  {
    && (s.at in {Picking, TakingKey, TakingData, MovingHead} ==> |s.nodes| >= 2)
    && (s.at in {TakingKey, TakingData, MovingHead} ==> s.node == s.head && s.node in s.heap)
    && (s.at in {TakingData, MovingHead} ==> s.key == s.heap[s.node].key)
    && (s.at.MovingHead? ==> s.data == s.heap[s.node].data)
    && (s.at.Freeing? ==> s.node in s.heap && s.node !in s.nodes)
    && (s.at.Freeing? ==> forall p | p in s.producers && Owns(s.producers[p].stage) :: s.producers[p].own != s.node)
  }

  function ItemIn(s: State, id: nat): Item
  {
    Item(Load(s, id).key, Load(s, id).data)
  }

  /** Items published are those handed over, the one in the consumer's hands, and those
      in the list, in order; items under the lock are those published and the next. */
  predicate Accounted(s: State)
  {
    && s.nodes != []
    && var taken := s.consumed + if s.at.Freeing? then [Item(s.key, s.data)] else [];
    && |s.published| == |taken| + |s.nodes| - 1 && taken == s.published[..|taken|]
    && (forall i | 0 <= i < |s.nodes| - 1 :: ItemIn(s, s.nodes[i]) == s.published[|taken| + i])
    && s.locked == s.published +
         if s.lock.To? && Owns(Thread(s, s.lock.id).stage) then [Thread(s, s.lock.id).item] else []
  }

  /** Someone will look at the list: the event is active, its callback is running, or a
      producer is about to activate it. */
  predicate Attended(s: State)
  {
    || s.active || !s.at.Waiting?
    || exists p | p in s.producers :: s.producers[p].stage in {Published, MovedTail, Unlocked}
  }

  predicate NoneLost(s: State)
  {
    |s.nodes| > 1 ==> Attended(s)
  }

  predicate Inv(s: State)
  {
    Listed(s) && Held(s) && TailRight(s) && Producing(s) && Consuming(s) && Accounted(s) && NoneLost(s)
  }

  lemma InitInv(id: nat)
    ensures Inv(Start(id))
  {
  }

  /** The statements that write to no node. */
  lemma PassKeepsList(s: State, p: nat)
    requires Inv(s) && Enabled(s, Advance(p)) && Thread(s, p).stage in {Made, Locked, Published, MovedTail, Unlocked}
    ensures Listed(Produce(s, p)) && TailRight(Produce(s, p))
  {
    hide Accounted;
    hide Consuming;
    hide NoneLost;
  }

  lemma PassKeepsThreads(s: State, p: nat)
    requires Inv(s) && Enabled(s, Advance(p)) && Thread(s, p).stage in {Made, Locked, Published, MovedTail, Unlocked}
    ensures Producing(Produce(s, p))
  {
    hide Accounted;
    hide Consuming;
    hide NoneLost;
  }

  lemma PassKeepsItems(s: State, p: nat)
    requires Inv(s) && Enabled(s, Advance(p)) && Thread(s, p).stage in {Made, Locked, Published, MovedTail, Unlocked}
    ensures Accounted(Produce(s, p))
  {
    hide NoneLost;
    hide Consuming;
    hide TailRight;
  }

  lemma PassKeepsConsumer(s: State, p: nat)
    requires Inv(s) && Enabled(s, Advance(p)) && Thread(s, p).stage in {Made, Locked, Published, MovedTail, Unlocked}
    ensures Consuming(Produce(s, p))
  {
    hide NoneLost;
    hide Accounted;
    hide TailRight;
    hide Listed;
  }

  /** The statements that fill the placeholder and make the next one. */
  lemma FillKeepsList(s: State, p: nat)
    requires Inv(s) && Enabled(s, Advance(p)) && Thread(s, p).stage in {GotTail, PutKey, PutData, PutNext, NewNext}
    ensures Listed(Produce(s, p)) && TailRight(Produce(s, p))
  {
    hide Accounted;
    hide Consuming;
    hide NoneLost;
  }

  lemma FillKeepsThreads(s: State, p: nat)
    requires Inv(s) && Enabled(s, Advance(p)) && Thread(s, p).stage in {GotTail, PutKey, PutData, PutNext, NewNext}
    ensures Producing(Produce(s, p))
  {
    hide Accounted;
    hide Consuming;
    hide NoneLost;
  }

  lemma FillKeepsItems(s: State, p: nat)
    requires Inv(s) && Enabled(s, Advance(p)) && Thread(s, p).stage in {GotTail, PutKey, PutData, PutNext, NewNext}
    ensures Accounted(Produce(s, p))
  {
    hide NoneLost;
    hide Consuming;
    var t := Thread(s, p);
    assert Progress(s, t) && s.lock == To(p);
    hide Producing;
    hide TailRight;
    hide Held;
    var s' := Produce(s, p);
    assert s'.nodes == s.nodes && s'.published == s.published && s'.locked == s.locked && s'.lock == s.lock;
    forall i | 0 <= i < |s.nodes| - 1 ensures ItemIn(s', s.nodes[i]) == ItemIn(s, s.nodes[i]) {
      assert s.nodes[i] !in {t.cur, t.own};
    }
  }

  /** The statement that publishes. */
  lemma PublishKeepsList(s: State, p: nat)
    requires Inv(s) && Enabled(s, Advance(p)) && Thread(s, p).stage in {NewMark}
    ensures Listed(Produce(s, p)) && TailRight(Produce(s, p))
  {
    hide Accounted;
    hide Consuming;
    hide NoneLost;
  }

  lemma PublishKeepsThreads(s: State, p: nat)
    requires Inv(s) && Enabled(s, Advance(p)) && Thread(s, p).stage in {NewMark}
    ensures Producing(Produce(s, p))
  {
    hide Accounted;
    hide Consuming;
    hide NoneLost;
  }

  lemma PublishKeepsItems(s: State, p: nat)
    requires Inv(s) && Enabled(s, Advance(p)) && Thread(s, p).stage in {NewMark}
    ensures Accounted(Produce(s, p))
  {
    hide NoneLost;
    hide Consuming;
    var s' := Produce(s, p);
    forall i | 0 <= i < |s.nodes| - 1 ensures ItemIn(s', s.nodes[i]) == ItemIn(s, s.nodes[i]) {
      assert s.nodes[i] != Thread(s, p).cur;
    }
  }

  /** The consumer looks at no node that a producer writes to. */
  lemma WriteKeepsConsumer(s: State, p: nat)
    requires Inv(s) && Enabled(s, Advance(p)) && Filling(Thread(s, p).stage)
    ensures Consuming(Produce(s, p))
  {
    hide NoneLost;
    hide Accounted;
    hide TailRight;
  }

  lemma ProduceKeepsLock(s: State, p: nat)
    requires Held(s) && Enabled(s, Advance(p))
    ensures Held(Produce(s, p))
  {
  }

  lemma AttendedStill(s: State, s': State, p: nat)
    requires NoneLost(s) && s'.at == s.at && |s'.nodes| == |s.nodes|
    requires
      || s'.active
      || (s'.active == s.active && p in s'.producers && s'.producers == s.producers[p := s'.producers[p]])
    requires
      || s'.active
      || (Thread(s, p).stage in {Published, MovedTail, Unlocked} ==>
            s'.producers[p].stage in {Published, MovedTail, Unlocked})
    ensures NoneLost(s')
  {
    if |s.nodes| > 1 && !s'.active && s.at.Waiting? {
      var q :| q in s.producers && s.producers[q].stage in {Published, MovedTail, Unlocked};
      assert q in s'.producers;
    }
  }

  /** A producer's statement changes no other thread. */
  lemma ProduceMoves(s: State, p: nat)
    requires !Thread(s, p).stage.Resting?
    ensures var s' := Produce(s, p);
      var stage := Thread(s, p).stage;
      && s'.at == s.at && p in s'.producers && s'.producers == s.producers[p := s'.producers[p]]
      && (s'.active <==> s.active || stage.Unlocked?)
      && |s'.nodes| == |s.nodes| + (if stage.NewMark? then 1 else 0)
      && (stage in {NewMark, Published, MovedTail} ==> s'.producers[p].stage in {Published, MovedTail, Unlocked})
  {
    hide Load;
    hide Store;
    hide Goto;
    StoreMoves();
    GotoMoves();
  }

  lemma StoreMoves()
    ensures forall s, id, n :: (var r := Store(s, id, n);
      r.at == s.at && r.producers == s.producers && r.active == s.active && r.nodes == s.nodes)
  {
  }

  lemma GotoMoves()
    ensures forall s, p, t, stage :: (var r := Goto(s, p, t, stage);
      && r.at == s.at && r.active == s.active && r.nodes == s.nodes
      && p in r.producers && r.producers[p].stage == stage && r.producers == s.producers[p := r.producers[p]])
  {
  }

  lemma ProduceKeepsAttended(s: State, p: nat)
    requires NoneLost(s) && !Thread(s, p).stage.Resting?
    ensures NoneLost(Produce(s, p))
  {
    hide Produce;
    var s' := Produce(s, p);
    ProduceMoves(s, p);
    if !Thread(s, p).stage.NewMark? {
      hide NoneLost;
      AttendedStill(s, s', p);
    }
  }

  lemma ProduceInv(s: State, p: nat)
    requires Inv(s) && Enabled(s, Advance(p))
    ensures Inv(Produce(s, p))
  {
    hide Produce;
    hide Listed;
    hide Held;
    hide TailRight;
    hide Producing;
    hide Consuming;
    hide Accounted;
    hide NoneLost;
    ProduceKeepsLock(s, p);
    ProduceKeepsAttended(s, p);
    var stage := Thread(s, p).stage;
    if stage in {Made, Locked, Published, MovedTail, Unlocked} {
      PassKeepsList(s, p);
      PassKeepsThreads(s, p);
      PassKeepsItems(s, p);
      PassKeepsConsumer(s, p);
    } else if stage.NewMark? {
      PublishKeepsList(s, p);
      PublishKeepsThreads(s, p);
      PublishKeepsItems(s, p);
      WriteKeepsConsumer(s, p);
    } else {
      FillKeepsList(s, p);
      FillKeepsThreads(s, p);
      FillKeepsItems(s, p);
      WriteKeepsConsumer(s, p);
    }
  }

  lemma MoveKeepsList(s: State)
    requires Inv(s) && s.at.MovingHead?
    ensures Listed(ConsumeStep(s)) && TailRight(ConsumeStep(s))
  {
    hide Accounted;
    hide NoneLost;
    hide Producing;
    hide Held;
    var s' := ConsumeStep(s);
    assert s'.head == s.nodes[1];
    assert s'.nodes == s.nodes[1..] && s'.heap == s.heap;
  }

  lemma ConsumeKeepsList(s: State)
    requires Inv(s) && Enabled(s, Consume) && !s.at.MovingHead?
    ensures Listed(ConsumeStep(s)) && TailRight(ConsumeStep(s))
  {
    hide Accounted;
    hide NoneLost;
    hide Producing;
    hide Held;
  }

  lemma ConsumeKeepsThreads(s: State)
    requires Inv(s) && Enabled(s, Consume)
    ensures Producing(ConsumeStep(s))
  {
    hide Accounted;
    hide NoneLost;
    hide Held;
    hide TailRight;
  }

  lemma ConsumeKeepsConsumer(s: State)
    requires Inv(s) && Enabled(s, Consume)
    ensures Consuming(ConsumeStep(s))
  {
    hide Accounted;
    hide Held;
    hide TailRight;
    hide NoneLost;
  }

  lemma ConsumeKeepsAttended(s: State)
    requires Inv(s) && Enabled(s, Consume)
    ensures Held(ConsumeStep(s)) && NoneLost(ConsumeStep(s))
  {
    hide Accounted;
    hide Producing;
    hide TailRight;
  }

  lemma OneMore(items: seq<Item>, n: nat)
    requires n < |items|
    ensures items[..n + 1] == items[..n] + [items[n]]
  {
  }

  /** The item of the first node passes from the list to the consumer's hands. */
  lemma MoveKeepsItems(s: State)
    requires Inv(s) && s.at.MovingHead?
    ensures Accounted(ConsumeStep(s))
  {
    hide Held;
    hide TailRight;
    hide Producing;
    hide NoneLost;
    hide Attended;
    var s' := ConsumeStep(s);
    var n := |s.consumed|;
    assert s.node == s.nodes[0] && s.consumed == s.published[..n];
    assert Item(s.key, s.data) == ItemIn(s, s.nodes[0]) == s.published[n];
    assert s'.nodes == s.nodes[1..] && s'.heap == s.heap && s'.published == s.published && s'.locked == s.locked;
    hide Listed;
    hide Consuming;
    OneMore(s.published, n);
    forall i | 0 <= i < |s'.nodes| - 1 ensures ItemIn(s', s'.nodes[i]) == s.published[n + 1 + i] {
      assert s'.nodes[i] == s.nodes[i + 1];
      assert ItemIn(s, s.nodes[i + 1]) == s.published[n + (i + 1)];
    }
  }

  /** The item passes from the consumer's hands to the callback. */
  lemma FreeKeepsItems(s: State)
    requires Inv(s) && s.at.Freeing?
    ensures Accounted(ConsumeStep(s))
  {
    hide Held;
    hide TailRight;
    hide Producing;
    hide NoneLost;
    hide Attended;
    var s' := ConsumeStep(s);
    assert s'.nodes == s.nodes && s'.consumed == s.consumed + [Item(s.key, s.data)];
    forall i | 0 <= i < |s.nodes| - 1 ensures ItemIn(s', s.nodes[i]) == ItemIn(s, s.nodes[i]) {
      assert s.nodes[i] != s.node;
    }
  }

  lemma ConsumeKeepsItems(s: State)
    requires Inv(s) && Enabled(s, Consume) && !s.at.MovingHead? && !s.at.Freeing?
    ensures Accounted(ConsumeStep(s))
  {
    hide Listed;
    hide Consuming;
    hide Held;
    hide TailRight;
    hide Producing;
    hide NoneLost;
    hide Attended;
  }

  lemma ConsumeInv(s: State)
    requires Inv(s) && Enabled(s, Consume)
    ensures Inv(ConsumeStep(s))
  {
    hide ConsumeStep;
    hide Listed;
    hide Held;
    hide TailRight;
    hide Producing;
    hide Consuming;
    hide Accounted;
    hide NoneLost;
    ConsumeKeepsThreads(s);
    ConsumeKeepsConsumer(s);
    ConsumeKeepsAttended(s);
    if s.at.MovingHead? {
      MoveKeepsList(s);
      MoveKeepsItems(s);
    } else {
      ConsumeKeepsList(s);
    }
    if s.at.Freeing? {
      FreeKeepsItems(s);
    } else if !s.at.MovingHead? {
      ConsumeKeepsItems(s);
    }
  }

  lemma BeginKeepsList(s: State, e: Event)
    requires Inv(s) && Enabled(s, e) && e.Begin?
    ensures var s' := Step(s, e); Listed(s') && Held(s') && TailRight(s')
  {
    hide NoneLost;
    hide Accounted;
    hide Consuming;
  }

  lemma BeginKeepsItems(s: State, e: Event)
    requires Inv(s) && Enabled(s, e) && e.Begin?
    ensures var s' := Step(s, e); Producing(s') && Consuming(s') && Accounted(s')
  {
    hide NoneLost;
    hide TailRight;
  }

  lemma BeginInv(s: State, e: Event)
    requires Inv(s) && Enabled(s, e) && e.Begin?
    ensures Inv(Step(s, e))
  {
    BeginKeepsList(s, e);
    BeginKeepsItems(s, e);
    AttendedStill(s, Step(s, e), e.p);
  }

  lemma StepInv(s: State, e: Event)
    requires Inv(s) && Enabled(s, e)
    ensures Inv(Step(s, e))
  {
    hide Inv;
    match e
    case Begin(_, _, _, _) => BeginInv(s, e);
    case Advance(p) => ProduceInv(s, p);
    case Consume => ConsumeInv(s);
  }

  lemma {:induction false} RunInv(s: State, events: seq<Event>)
    requires Inv(s) && Possible(s, events)
    ensures Inv(Run(s, events))
    decreases |events|
  {
    hide Inv;
    hide Enabled;
    hide Step;
    if events != [] {
      StepInv(s, events[0]);
      RunInv(Step(s, events[0]), events[1..]);
    }
  }

  /** The nodes whose memory the next statement reads, writes or frees. */
  function Touches(s: State, e: Event): set<nat>
  {
    match e
    case Begin(_, _, _, _) => {}
    case Advance(p) =>
      var t := Thread(s, p);
      if t.stage in {GotTail, PutKey, PutData, NewMark} then {t.cur}
      else if t.stage in {PutNext, NewNext} then {t.own} else {}
    case Consume =>
      if s.at.Testing? then {s.head}
      else if s.at in {TakingKey, TakingData, MovingHead, Freeing} then {s.node} else {}
  }

  /** Two states are the same but for the memory of the nodes. */
  predicate SameElse(s: State, s': State)
  {
    && s.head == s'.head && s.tail == s'.tail && s.lock == s'.lock && s.active == s'.active
    && s.producers == s'.producers && s.at == s'.at && s.node == s'.node && s.key == s'.key && s.data == s'.data
    && s.locked == s'.locked && s.published == s'.published && s.consumed == s'.consumed && s.nodes == s'.nodes
  }

  /** Two memories hold the same at a place. */
  predicate SameAt(heap: map<nat, Node>, heap': map<nat, Node>, id: nat)
  {
    (id in heap <==> id in heap') && (id in heap && id in heap' ==> heap[id] == heap'[id])
  }

  /** Nothing else matters to the statement, and nothing else is changed but what malloc has
      just given. */
  lemma TouchesAll(s: State, e: Event, heap': map<nat, Node>)
    requires forall id | id in Touches(s, e) :: SameAt(s.heap, heap', id)
    ensures var next, next' := Step(s, e), Step(s.(heap := heap'), e);
      && SameElse(next, next')
      && (forall id | id in Touches(s, e) :: SameAt(next.heap, next'.heap, id))
      && (forall id: nat | id !in Touches(s, e) && !(e.Begin? && id == e.own) :: SameAt(next.heap, s.heap, id))
  {
    match e
    case Begin(_, _, _, _) =>
    case Advance(p) => ProduceTouches(s, p, heap');
    case Consume => ConsumeTouches(s, heap');
  }

  lemma ProduceTouches(s: State, p: nat, heap': map<nat, Node>)
    requires forall id | id in Touches(s, Advance(p)) :: SameAt(s.heap, heap', id)
    ensures var next, next' := Produce(s, p), Produce(s.(heap := heap'), p);
      && SameElse(next, next')
      && (forall id | id in Touches(s, Advance(p)) :: SameAt(next.heap, next'.heap, id))
      && (forall id: nat | id !in Touches(s, Advance(p)) :: SameAt(next.heap, s.heap, id))
  {
    hide Produce;
    ProduceElsewhere(s, p, heap');
    forall id: nat | id !in Touches(s, Advance(p)) ensures SameAt(Produce(s, p).heap, s.heap, id) {
      ProduceFrame(s, p, id);
    }
    forall id | id in Touches(s, Advance(p))
      ensures SameAt(Produce(s, p).heap, Produce(s.(heap := heap'), p).heap, id)
    {
      ProduceThere(s, p, heap', id);
    }
  }

  lemma ProduceElsewhere(s: State, p: nat, heap': map<nat, Node>)
    ensures SameElse(Produce(s, p), Produce(s.(heap := heap'), p))
  {
    hide Load;
    var s', t := s.(heap := heap'), Thread(s, p);
    assert Thread(s', p) == t;
    hide Thread;
    if t.stage in {GotTail, PutKey, PutData, PutNext, NewNext} {
      FillElsewhere(s, p, heap');
    } else if t.stage.NewMark? {
      PublishElsewhere(s, p, heap');
    } else {
      PassElsewhere(s, p, heap');
    }
  }

  lemma FillElsewhere(s: State, p: nat, heap': map<nat, Node>)
    requires Thread(s, p).stage in {GotTail, PutKey, PutData, PutNext, NewNext}
    ensures SameElse(Produce(s, p), Produce(s.(heap := heap'), p))
  {
    hide Load;
  }

  lemma PublishElsewhere(s: State, p: nat, heap': map<nat, Node>)
    requires Thread(s, p).stage.NewMark?
    ensures SameElse(Produce(s, p), Produce(s.(heap := heap'), p))
  {
    hide Load;
  }

  lemma PassElsewhere(s: State, p: nat, heap': map<nat, Node>)
    requires Thread(s, p).stage in {Resting, Made, Locked, Published, MovedTail, Unlocked}
    ensures SameElse(Produce(s, p), Produce(s.(heap := heap'), p))
  {
    hide Load;
  }

  lemma ProduceFrame(s: State, p: nat, id: nat)
    requires id !in Touches(s, Advance(p))
    ensures SameAt(Produce(s, p).heap, s.heap, id)
  {
  }

  lemma ProduceThere(s: State, p: nat, heap': map<nat, Node>, id: nat)
    requires id in Touches(s, Advance(p)) && SameAt(s.heap, heap', id)
    ensures SameAt(Produce(s, p).heap, Produce(s.(heap := heap'), p).heap, id)
  {
    var s' := s.(heap := heap');
    assert Thread(s', p) == Thread(s, p);
    assert Load(s', id) == Load(s, id);
  }

  lemma ConsumeTouches(s: State, heap': map<nat, Node>)
    requires forall id | id in Touches(s, Consume) :: SameAt(s.heap, heap', id)
    ensures var next, next' := ConsumeStep(s), ConsumeStep(s.(heap := heap'));
      && SameElse(next, next')
      && (forall id | id in Touches(s, Consume) :: SameAt(next.heap, next'.heap, id))
      && (forall id: nat | id !in Touches(s, Consume) :: SameAt(next.heap, s.heap, id))
  {
    if s.at.Testing? {
      assert SameAt(s.heap, heap', s.head);
    } else if s.at in {TakingKey, TakingData, MovingHead, Freeing} {
      assert SameAt(s.heap, heap', s.node);
    }
  }

  /** No statement touches memory that is not allocated; the consumer takes key, data and
      next only from published nodes; and it frees a node that no one else will touch. */
  lemma MemorySafe(s: State, e: Event)
    requires Inv(s) && Enabled(s, e)
    ensures Touches(s, e) <= s.heap.Keys
    ensures s.at in {TakingKey, TakingData, MovingHead} ==> s.node in s.nodes[..|s.nodes| - 1]
    ensures s.at.Freeing? ==> s.node !in s.nodes
    ensures s.at.Freeing? && e.Advance? ==> s.node !in Touches(s, e)
  {
    if s.at in {TakingKey, TakingData, MovingHead} {
      assert s.nodes[..|s.nodes| - 1][0] == s.node;
    }
  }

  datatype MaybeItem = NoItem | SomeItem(item: Item)

  /** The item that a thread has begun to trigger and not yet taken the lock for: that of its
      latest Begin, if it has done nothing since. */
  function Begun(events: seq<Event>, p: nat): MaybeItem
  {
    if events == [] then NoItem
    else
      match events[|events| - 1]
      case Begin(q, item, _, _) => if q == p then SomeItem(item) else Begun(events[..|events| - 1], p)
      case Advance(q) => if q == p then NoItem else Begun(events[..|events| - 1], p)
      case Consume => Begun(events[..|events| - 1], p)
  }

  /** The items that were triggered, in the order in which their threads took the lock. */
  function Triggered(events: seq<Event>): seq<Item>
  {
    if events == [] then []
    else
      var before := events[..|events| - 1];
      match events[|events| - 1]
      case Advance(p) =>
        if Begun(before, p).SomeItem? then Triggered(before) + [Begun(before, p).item] else Triggered(before)
      case _ => Triggered(before)
  }

  /** All items that threads have begun to trigger. */
  function AllBegun(events: seq<Event>): seq<Item>
  {
    if events == [] then []
    else
      var before := events[..|events| - 1];
      match events[|events| - 1]
      case Begin(_, item, _, _) => AllBegun(before) + [item]
      case _ => AllBegun(before)
  }

  /** A run and one more step. */
  lemma {:induction false} RunMore(s: State, events: seq<Event>)
    requires events != [] && Possible(s, events)
    ensures var before, last := events[..|events| - 1], events[|events| - 1];
      Possible(s, before) && Enabled(Run(s, before), last) && Run(s, events) == Step(Run(s, before), last)
    decreases |events|
  {
    hide Enabled;
    hide Step;
    if |events| > 1 {
      var rest := events[1..];
      RunMore(Step(s, events[0]), rest);
      assert rest[..|rest| - 1] == events[..|events| - 1][1..];
    }
  }

  /** What a step does to the item of a thread, and to the items under the lock. */
  lemma StepItems(s: State, e: Event, p: nat)
    requires Enabled(s, e)
    ensures var t, t' := Thread(s, p), Thread(Step(s, e), p);
      match e
      case Begin(q, item, _, _) => if p == q then t'.stage.Made? && t'.item == item else t' == t
      case Advance(q) => if p == q then !t'.stage.Made? else t' == t
      case Consume => t' == t
    ensures Step(s, e).locked == s.locked +
      if e.Advance? && Thread(s, e.p).stage.Made? then [Thread(s, e.p).item] else []
  {
  }

  /** What is under the lock is what the threads were called with. */
  lemma {:induction false} LockedIs(id: nat, events: seq<Event>, p: nat)
    requires Possible(Start(id), events)
    ensures var s := Run(Start(id), events);
      && s.locked == Triggered(events)
      && Begun(events, p) == if Thread(s, p).stage.Made? then SomeItem(Thread(s, p).item) else NoItem
    decreases |events|
  {
    hide Step;
    hide Enabled;
    if events != [] {
      RunMore(Start(id), events);
      var before, last := events[..|events| - 1], events[|events| - 1];
      LockedIs(id, before, p);
      if last.Advance? {
        LockedIs(id, before, last.p);
      }
      StepItems(Run(Start(id), before), last, p);
    }
  }

  /** The items of some threads. */
  function ItemsOf(s: State, ps: seq<nat>): multiset<Item>
  {
    if ps == [] then multiset{} else ItemsOf(s, ps[..|ps| - 1]) + multiset{Thread(s, ps[|ps| - 1]).item}
  }

  /** Threads about to take the lock, each once. */
  ghost predicate AreMade(s: State, ps: seq<nat>)
  {
    && (forall i, j | 0 <= i < j < |ps| :: ps[i] != ps[j])
    && (forall p :: p in ps <==> Thread(s, p).stage.Made?)
  }

  lemma {:induction false} SameItems(s: State, s': State, ps: seq<nat>)
    requires forall p | p in ps :: Thread(s', p).item == Thread(s, p).item
    ensures ItemsOf(s', ps) == ItemsOf(s, ps)
  {
    if ps != [] {
      assert ps[|ps| - 1] in ps;
      SameItems(s, s', ps[..|ps| - 1]);
    }
  }

  lemma {:induction false} ItemsLess(s: State, ps: seq<nat>, i: nat)
    requires i < |ps|
    ensures ItemsOf(s, ps) == ItemsOf(s, ps[..i] + ps[i + 1..]) + multiset{Thread(s, ps[i]).item}
    decreases |ps|
  {
    hide Thread;
    var n := |ps| - 1;
    if i < n {
      ItemsLess(s, ps[..n], i);
      var less := ps[..i] + ps[i + 1..];
      assert less[..|less| - 1] == ps[..n][..i] + ps[..n][i + 1..] && less[|less| - 1] == ps[n];
    } else {
      assert ps[..i] + ps[i + 1..] == ps[..n];
    }
  }

  /** No item is lost or invented on the way to the lock: what is under it and what threads
      are about to bring is all that was begun. */
  lemma {:induction false} NoneInvented(id: nat, events: seq<Event>) returns (ps: seq<nat>)
    requires Possible(Start(id), events)
    ensures var s := Run(Start(id), events);
      AreMade(s, ps) && multiset(s.locked) + ItemsOf(s, ps) == multiset(AllBegun(events))
    decreases |events|
  {
    hide Enabled;
    hide Step;
    if events == [] {
      ps := [];
    } else {
      RunMore(Start(id), events);
      var before, last := events[..|events| - 1], events[|events| - 1];
      var rest := NoneInvented(id, before);
      ps := OneStep(Run(Start(id), before), last, rest);
    }
  }

  /** What one step adds. */
  ghost predicate Adds(s: State, e: Event, rest: seq<nat>, ps: seq<nat>)
  {
    var s' := Step(s, e);
    && AreMade(s', ps)
    && multiset(s'.locked) + ItemsOf(s', ps) ==
         multiset(s.locked) + ItemsOf(s, rest) + if e.Begin? then multiset{e.item} else multiset{}
  }

  lemma OneStep(s: State, e: Event, rest: seq<nat>) returns (ps: seq<nat>)
    requires Enabled(s, e) && AreMade(s, rest)
    ensures Adds(s, e, rest, ps)
  {
    hide Adds;
    if e.Begin? {
      ps := OneBegin(s, e, rest);
    } else if e.Advance? && Thread(s, e.p).stage.Made? {
      ps := OneLock(s, e, rest);
    } else {
      OneOther(s, e, rest);
      ps := rest;
    }
  }

  lemma OneBegin(s: State, e: Event, rest: seq<nat>) returns (ps: seq<nat>)
    requires Enabled(s, e) && AreMade(s, rest) && e.Begin?
    ensures Adds(s, e, rest, ps)
  {
    ps := rest + [e.p];
    BeginMade(s, e, rest);
    KeptItems(s, e, rest);
    StepItems(s, e, e.p);
    hide Step;
    hide AreMade;
    assert ps[..|rest|] == rest;
  }

  lemma OneLock(s: State, e: Event, rest: seq<nat>) returns (ps: seq<nat>)
    requires Enabled(s, e) && AreMade(s, rest) && e.Advance? && Thread(s, e.p).stage.Made?
    ensures Adds(s, e, rest, ps)
  {
    assert e.p in rest;
    var i :| 0 <= i < |rest| && rest[i] == e.p;
    ps := rest[..i] + rest[i + 1..];
    LockMade(s, e, rest, i);
    assert forall p | p in ps :: p in rest;
    KeptItems(s, e, ps);
    StepItems(s, e, e.p);
    hide Step;
    hide AreMade;
    ItemsLess(s, rest, i);
    hide ItemsOf;
  }

  lemma OneOther(s: State, e: Event, rest: seq<nat>)
    requires Enabled(s, e) && AreMade(s, rest) && !e.Begin? && (e.Advance? ==> !Thread(s, e.p).stage.Made?)
    ensures Adds(s, e, rest, rest)
  {
    OthersMade(s, e, rest);
    KeptItems(s, e, rest);
    StepItems(s, e, if e.Advance? then e.p else 0);
    hide Step;
    hide AreMade;
    hide ItemsOf;
  }

  /** A step changes no item that waits for the lock. */
  lemma KeptItems(s: State, e: Event, ps: seq<nat>)
    requires Enabled(s, e) && (forall p | p in ps :: Thread(s, p).stage.Made? && !(e.Advance? && e.p == p))
    ensures ItemsOf(Step(s, e), ps) == ItemsOf(s, ps)
  {
    hide Step;
    forall p | p in ps ensures Thread(Step(s, e), p).item == Thread(s, p).item {
      StepItems(s, e, p);
    }
    SameItems(s, Step(s, e), ps);
  }

  lemma BeginMade(s: State, e: Event, rest: seq<nat>)
    requires Enabled(s, e) && AreMade(s, rest) && e.Begin?
    ensures AreMade(Step(s, e), rest + [e.p])
  {
    hide Step;
    var ps := rest + [e.p];
    forall q ensures q in ps <==> Thread(Step(s, e), q).stage.Made? {
      StepItems(s, e, q);
      assert q in ps <==> q in rest || q == e.p;
    }
    assert e.p !in rest;
  }

  lemma LockMade(s: State, e: Event, rest: seq<nat>, i: nat)
    requires Enabled(s, e) && AreMade(s, rest) && e.Advance? && i < |rest| && rest[i] == e.p
    ensures AreMade(Step(s, e), rest[..i] + rest[i + 1..])
  {
    hide Step;
    var ps := rest[..i] + rest[i + 1..];
    forall q ensures q in ps <==> Thread(Step(s, e), q).stage.Made? {
      StepItems(s, e, q);
      assert q in ps <==> q in rest && q != e.p;
    }
  }

  lemma OthersMade(s: State, e: Event, rest: seq<nat>)
    requires Enabled(s, e) && AreMade(s, rest) && !e.Begin? && (e.Advance? ==> !Thread(s, e.p).stage.Made?)
    ensures AreMade(Step(s, e), rest)
  {
    hide Step;
    forall q ensures q in rest <==> Thread(Step(s, e), q).stage.Made? {
      StepItems(s, e, q);
    }
  }

  /** In every interleaving: items reach the callbacks in the order in which their
      producers took the lock, each once and none invented; every access is to live
      memory; and while an item waits, someone will look. */
  lemma RunSafe(id: nat, events: seq<Event>, e: Event)
    requires Possible(Start(id), events)
    ensures var s := Run(Start(id), events);
      && s.consumed <= s.published <= s.locked == Triggered(events) && |s.locked| <= |s.published| + 1
      && (|s.consumed| < |s.published| ==> Attended(s))
      && (Enabled(s, e) ==> Touches(s, e) <= s.heap.Keys)
  {
    InitInv(id);
    RunInv(Start(id), events);
    var s := Run(Start(id), events);
    PrefixOrder(s);
    LockedIs(id, events, 0);
    if Enabled(s, e) {
      MemorySafe(s, e);
    }
  }

  lemma PrefixOrder(s: State)
    requires Inv(s)
    ensures s.consumed <= s.published <= s.locked && |s.locked| <= |s.published| + 1
    ensures |s.consumed| < |s.published| ==> Attended(s)
  {
    hide Producing;
    hide TailRight;
    var n := |s.consumed|;
    if s.at.Freeing? {
      assert s.published[..n + 1][..n] == s.published[..n];
      assert (s.consumed + [Item(s.key, s.data)])[..n] == s.consumed;
    }
  }

  predicate AllResting(s: State)
  {
    forall p | p in s.producers :: s.producers[p].stage.Resting?
  }

  /** An upper bound on the statements the consumer has left. */
  function Work(s: State): int
  {
    var base := 7 * (|s.nodes| - 1) + if s.active && !s.at.Waiting? then 4 else 0;
    match s.at
    case Waiting => if s.active then base + 3 else 0
    case Testing => base + 2
    case Picking => base + 1
    case TakingKey => base
    case TakingData => base - 1
    case MovingHead => base - 2
    case Freeing => base + 4
  }

  predicate Quiet(s: State)
  {
    s.at.Waiting? && !s.active
  }

  lemma WorkShrinks(s: State)
    requires Inv(s) && AllResting(s) && !Quiet(s)
    ensures Enabled(s, Consume) && 0 <= Work(ConsumeStep(s)) < Work(s) && AllResting(ConsumeStep(s))
    ensures ConsumeStep(s).locked == s.locked
  {
    hide Accounted;
    hide Producing;
    hide TailRight;
  }

  lemma AllConsumed(s: State)
    requires Inv(s) && AllResting(s) && Quiet(s)
    ensures s.consumed == s.locked
  {
    hide Producing;
    hide TailRight;
  }

  /** Once no producer is at work, the event loop on its own hands over everything that
      was ever put under the lock, in that order, and stops. */
  lemma {:induction false} Drains(s: State) returns (events: seq<Event>)
    requires Inv(s) && AllResting(s)
    ensures Possible(s, events) && (forall e | e in events :: e == Consume)
    ensures var s' := Run(s, events); Quiet(s') && s'.consumed == s.locked == s'.locked
    decreases Work(s)
  {
    hide Inv;
    hide Work;
    if Quiet(s) {
      AllConsumed(s);
      events := [];
    } else {
      WorkShrinks(s);
      ConsumeInv(s);
      var rest := Drains(ConsumeStep(s));
      events := [Consume] + rest;
      assert events[1..] == rest;
    }
  }

  /** After any run that leaves no producer at work, the event loop on its own hands over to
      the callbacks just the items that were triggered, each as often as it was, in the order
      of the lock. */
  lemma RunDrains(id: nat, events: seq<Event>) returns (more: seq<Event>)
    requires Possible(Start(id), events) && AllResting(Run(Start(id), events))
    ensures Possible(Run(Start(id), events), more) && (forall e | e in more :: e == Consume)
    ensures var s := Run(Run(Start(id), events), more);
      Quiet(s) && s.consumed == Triggered(events) && multiset(s.consumed) == multiset(AllBegun(events))
  {
    var s := Run(Start(id), events);
    InitInv(id);
    RunInv(Start(id), events);
    LockedIs(id, events, 0);
    var ps := NoneInvented(id, events);
    NoneMade(s, ps);
    hide AllResting;
    hide Inv;
    more := Drains(s);
  }

  lemma NoneMade(s: State, ps: seq<nat>)
    requires AllResting(s) && AreMade(s, ps)
    ensures ps == [] && ItemsOf(s, ps) == multiset{}
  {
    var p := if ps == [] then 0 else ps[0];
    assert !Thread(s, p).stage.Made?;
    assert ps != [] ==> p in ps;
  }
}
