/** The notification poller with its thread, its mutex and any number of
    consumers, one memory access per step, and the proof that it is the atomic
    object of module Notifications: every interleaving is a sequence of
    indivisible pick-ups and consumptions. */
module PollerThreads {
  import opened Wrappers
  import opened Bits
  import opened Notifications

  datatype Thread = PollerThread | Consumer(id: nat)

  datatype Kind = Packets | Responses

  /** Where the poller thread is: probing, holding a freed notification, inside
      the lock before and after loading the counter, after storing it, or ended
      (possibly with a notification it could not dispatch). */
  datatype PollerPc =
    | Probing
    | Holding(n: Notification)
    | Locked(n: Notification)
    | Loaded(n: Notification, counter: Word)
    | Stored
    | Ended(hand: seq<Notification>)

  /** Where a consumer is: outside, wanting the lock (called or asleep in the
      wait), evaluating the wait predicate, past the wait, and the accesses after. */
  datatype ConsumerPc =
    | Outside
    | Wants(kind: Kind)
    | Checking(kind: Kind)
    | Entered(kind: Kind)
    | Took(words: Word)
    | Zeroed(words: Word)
    | Saw(count: Word)
    | Answered(result: bool)

  datatype Event = PacketsTaken(words: Word) | ResponseTaken(result: bool)

  datatype Threads = Threads(
    queue: seq<Notification>,
    packets: Word,
    notifications: Word,
    lock: Option<Thread>,
    poller: PollerPc,
    consumers: map<nat, ConsumerPc>,
    log: seq<Event>,
    arrived: seq<Notification>)

  datatype Action =
    | Arrive(n: Notification)
    // poller thread
    | Probe
    | LosePort
    | Stop
    | LockPoller
    | Dispatch
    | Store
    | UnlockPoller
    // consumers; waking up and timing out both lead back to the lock
    | Call(id: nat, kind: Kind)
    | LockConsumer(id: nat)
    | Sleep(id: nat)
    | Enter(id: nat)
    | LoadCounter(id: nat)
    | StoreCounter(id: nat)
    | Return(id: nat)

  function Pc(s: Threads, id: nat): ConsumerPc {
    if id in s.consumers then s.consumers[id] else Outside
  }

  function Available(s: Threads, kind: Kind): Word {
    if kind == Packets then s.packets else s.notifications
  }

  predicate CanAct(s: Threads, a: Action) {
    match a
    case Arrive(_) => true
    case Probe => s.poller.Probing? && s.queue != []
    case LosePort => s.poller.Probing?
    case Stop => s.poller.Probing?
    case LockPoller => s.poller.Holding? && s.lock.None?
    case Dispatch => s.poller.Locked?
    case Store => s.poller.Loaded?
    case UnlockPoller => s.poller.Stored?
    case Call(id, _) => Pc(s, id).Outside?
    case LockConsumer(id) => Pc(s, id).Wants? && s.lock.None?
    case Sleep(id) => Pc(s, id).Checking? && Available(s, Pc(s, id).kind) == 0
    case Enter(id) => Pc(s, id).Checking?
    case LoadCounter(id) => Pc(s, id).Entered?
    case StoreCounter(id) => Pc(s, id).Took? || (Pc(s, id).Saw? && Pc(s, id).count > 0)
    case Return(id) => Pc(s, id).Zeroed? || Pc(s, id).Answered?
  }

  function Move(s: Threads, id: nat, pc: ConsumerPc): Threads {
    s.(consumers := s.consumers[id := pc])
  }

  function Act(s: Threads, a: Action): Threads
    requires CanAct(s, a)
  {
    match a
    case Arrive(n) => s.(queue := s.queue + [n], arrived := s.arrived + [n])
    case Probe => s.(queue := s.queue[1..], poller := Holding(s.queue[0]))
    case LosePort => s.(poller := Ended([]))
    case Stop => s.(poller := Ended([]))
    case LockPoller => s.(lock := Some(PollerThread), poller := Locked(s.poller.n))
    case Dispatch =>
      var n := s.poller.n;
      if n.cls == PACKET_CLASS then s.(poller := Loaded(n, s.packets))
      else if n.cls == RESPONSE_CLASS then s.(poller := Loaded(n, s.notifications))
      else s.(poller := Ended([n]), lock := None)
    case Store =>
      var n := s.poller.n;
      if n.cls == PACKET_CLASS then s.(poller := Stored, packets := Add64(s.poller.counter, Payload(n)))
      else s.(poller := Stored, notifications := Add64(s.poller.counter, 1))
    case UnlockPoller => s.(poller := Probing, lock := None)
    case Call(id, kind) => Move(s, id, Wants(kind))
    case LockConsumer(id) => Move(s, id, Checking(Pc(s, id).kind)).(lock := Some(Consumer(id)))
    case Sleep(id) => Move(s, id, Wants(Pc(s, id).kind)).(lock := None)
    case Enter(id) => Move(s, id, Entered(Pc(s, id).kind))
    case LoadCounter(id) =>
      if Pc(s, id).kind == Packets then Move(s, id, Took(s.packets))
      else if s.notifications > 0 then Move(s, id, Saw(s.notifications))
      else Move(s, id, Answered(false))
    case StoreCounter(id) =>
      if Pc(s, id).Took? then Move(s, id, Zeroed(Pc(s, id).words)).(packets := 0)
      else Move(s, id, Answered(true)).(notifications := Pc(s, id).count - 1)
    case Return(id) =>
      Move(s, id, Outside).(lock := None, log := s.log + Result(Pc(s, id)))
  }

  /** The result a consumer is about to return, once it is determined. */
  function Result(pc: ConsumerPc): seq<Event> {
    match pc
    case Zeroed(words) => [PacketsTaken(words)]
    case Answered(result) => [ResponseTaken(result)]
    case _ => []
  }

  predicate PollerInside(pc: PollerPc) { pc.Locked? || pc.Loaded? || pc.Stored? }

  predicate ConsumerInside(pc: ConsumerPc) { !pc.Outside? && !pc.Wants? }

  /** Mutual exclusion, and counters loaded inside the lock are still current. */
  ghost predicate Exclusive(s: Threads) {
    && (PollerInside(s.poller) <==> s.lock == Some(PollerThread))
    && (forall id: nat :: ConsumerInside(Pc(s, id)) <==> s.lock == Some(Consumer(id)))
    && (s.poller.Loaded? ==>
          && Known(s.poller.n)
          && s.poller.counter == (if s.poller.n.cls == PACKET_CLASS then s.packets else s.notifications))
    && (forall id: nat :: Pc(s, id).Took? ==> Pc(s, id).words == s.packets)
    && (forall id: nat :: Pc(s, id).Saw? ==> Pc(s, id).count == s.notifications > 0)
  }

  // --------------------------------------------------------- atomic object

  /** The atomic poller with the results handed out so far. */
  datatype Atomic = Atomic(poller: Poller, log: seq<Event>, arrived: seq<Notification>)

  datatype AtomicStep = Nothing | Deliver(n: Notification) | PickUp | TakePackets | TakeResponse

  predicate CanStep(s: Atomic, step: AtomicStep) {
    step.PickUp? ==> s.poller.queue != [] && Known(s.poller.queue[0])
  }

  function StepAtomic(s: Atomic, step: AtomicStep): Atomic
    requires CanStep(s, step)
  {
    match step
    case Nothing => s
    case Deliver(n) => s.(poller := s.poller.(queue := s.poller.queue + [n]), arrived := s.arrived + [n])
    case PickUp => s.(poller := Pick(s.poller))
    case TakePackets => s.(poller := s.poller.(packets := 0), log := s.log + [PacketsTaken(s.poller.packets)])
    case TakeResponse =>
      if s.poller.notifications > 0 then
        s.(poller := s.poller.(notifications := s.poller.notifications - 1), log := s.log + [ResponseTaken(true)])
      else
        s.(log := s.log + [ResponseTaken(false)])
  }

  /** A notification in the poller thread's hand still counts as queued. */
  function Hand(pc: PollerPc): seq<Notification> {
    match pc
    case Holding(n) => [n]
    case Locked(n) => [n]
    case Loaded(n, _) => [n]
    case Ended(hand) => hand
    case _ => []
  }

  /** A determined result counts as handed out before its consumer returns. */
  function Pending(s: Threads): seq<Event> {
    match s.lock
    case Some(Consumer(id)) => Result(Pc(s, id))
    case _ => []
  }

  function Abs(s: Threads): Atomic {
    Atomic(Poller(Hand(s.poller) + s.queue, s.packets, s.notifications), s.log + Pending(s), s.arrived)
  }

  /** Where each operation takes effect: the poller at its store, consumers at
      theirs, or at the load when there is no response to take. */
  function Effect(s: Threads, a: Action): AtomicStep {
    match a
    case Arrive(n) => Deliver(n)
    case Store => PickUp
    case LoadCounter(id) =>
      if Pc(s, id).Entered? && Pc(s, id).kind == Responses && s.notifications == 0 then TakeResponse else Nothing
    case StoreCounter(id) => if Pc(s, id).Took? then TakePackets else TakeResponse
    case _ => Nothing
  }

  predicate OfConsumer(a: Action) {
    match a
    case Call(_, _) => true
    case LockConsumer(_) => true
    case Sleep(_) => true
    case Enter(_) => true
    case LoadCounter(_) => true
    case StoreCounter(_) => true
    case Return(_) => true
    case _ => false
  }

  /** Only the consumer that acts changes its place. */
  lemma OthersStay(s: Threads, a: Action, id: nat)
    requires CanAct(s, a)
    requires OfConsumer(a) ==> id != a.id
    ensures Pc(Act(s, a), id) == Pc(s, id)
  {
  }

  lemma ConsumerKeepsExclusion(s: Threads, a: Action)
    requires Exclusive(s) && CanAct(s, a) && OfConsumer(a)
    ensures Exclusive(Act(s, a))
  {
    forall id: nat | id != a.id
      ensures Pc(Act(s, a), id) == Pc(s, id)
    {
      OthersStay(s, a, id);
    }
  }

  lemma PollerKeepsExclusion(s: Threads, a: Action)
    requires Exclusive(s) && CanAct(s, a) && !OfConsumer(a)
    ensures Exclusive(Act(s, a))
  {
    forall id: nat
      ensures Pc(Act(s, a), id) == Pc(s, id)
    {
      OthersStay(s, a, id);
    }
  }

  lemma ConsumerRefinesAtomic(s: Threads, a: Action)
    requires Exclusive(s) && CanAct(s, a) && OfConsumer(a)
    ensures CanStep(Abs(s), Effect(s, a))
    ensures Abs(Act(s, a)) == StepAtomic(Abs(s), Effect(s, a))
  {
    assert ConsumerInside(Pc(s, a.id)) <==> s.lock == Some(Consumer(a.id));
  }

  lemma StoreRefinesAtomic(s: Threads)
    requires Exclusive(s) && CanAct(s, Store)
    ensures CanStep(Abs(s), PickUp)
    ensures Abs(Act(s, Store)) == StepAtomic(Abs(s), PickUp)
  {
    assert (Hand(s.poller) + s.queue)[0] == s.poller.n;
    assert (Hand(s.poller) + s.queue)[1..] == s.queue;
  }

  lemma PollerRefinesAtomic(s: Threads, a: Action)
    requires Exclusive(s) && CanAct(s, a) && !OfConsumer(a)
    ensures CanStep(Abs(s), Effect(s, a))
    ensures Abs(Act(s, a)) == StepAtomic(Abs(s), Effect(s, a))
  {
    match a
    case Arrive(n) => assert Hand(s.poller) + (s.queue + [n]) == (Hand(s.poller) + s.queue) + [n];
    case Probe => assert [s.queue[0]] + s.queue[1..] == s.queue;
    case Store => StoreRefinesAtomic(s);
    case _ =>
  }

  /** Every access of every thread keeps the lock exclusive and is one
      indivisible step of the atomic poller or invisible to it. */
  lemma ActRefinesAtomic(s: Threads, a: Action)
    requires Exclusive(s) && CanAct(s, a)
    ensures Exclusive(Act(s, a))
    ensures CanStep(Abs(s), Effect(s, a))
    ensures Abs(Act(s, a)) == StepAtomic(Abs(s), Effect(s, a))
  {
    if OfConsumer(a) {
      ConsumerKeepsExclusion(s, a);
      ConsumerRefinesAtomic(s, a);
    } else {
      PollerKeepsExclusion(s, a);
      PollerRefinesAtomic(s, a);
    }
  }

  // -------------------------------------------------- results of the operations

  /** Whenever an access determines the answer of a `consume_response`, the answer is
      true exactly if a response is counted, which is then taken. */
  lemma ResponseTakenIff(s: Threads, a: Action, b: bool)
    requires Exclusive(s) && CanAct(s, a)
    requires Abs(Act(s, a)).log == Abs(s).log + [ResponseTaken(b)]
    ensures b <==> s.notifications > 0
    ensures Act(s, a).notifications == s.notifications - (if b then 1 else 0)
    ensures Act(s, a).packets == s.packets
  {
    ActRefinesAtomic(s, a);
    LogsDiffer(Abs(s).log, Effect(s, a), s);
  }

  /** Whenever one determines the answer of a `consume_packets`, it is all packets
      counted, and none stay. */
  lemma PacketsTakenExact(s: Threads, a: Action, words: Word)
    requires Exclusive(s) && CanAct(s, a)
    requires Abs(Act(s, a)).log == Abs(s).log + [PacketsTaken(words)]
    ensures words == s.packets && Act(s, a).packets == 0
    ensures Act(s, a).notifications == s.notifications
  {
    ActRefinesAtomic(s, a);
    LogsDiffer(Abs(s).log, Effect(s, a), s);
  }

  /** The log grows by what was taken, and only then. */
  lemma LogsDiffer(log: seq<Event>, step: AtomicStep, s: Threads)
    requires CanStep(Abs(s), step) && log == Abs(s).log
    ensures forall e: Event :: StepAtomic(Abs(s), step).log == log + [e] ==>
              match e
              case PacketsTaken(words) => step == TakePackets && words == s.packets
              case ResponseTaken(b) => step == TakeResponse && (b <==> s.notifications > 0)
  {
    forall e: Event | StepAtomic(Abs(s), step).log == log + [e]
      ensures match e
              case PacketsTaken(words) => step == TakePackets && words == s.packets
              case ResponseTaken(b) => step == TakeResponse && (b <==> s.notifications > 0)
    {
      assert (log + [e])[|log|] == e;
    }
  }

  // ------------------------------------------------------------------- runs

  /** No thread inside the lock, nothing counted, nothing handed out. */
  ghost predicate Fresh(s: Threads) {
    && s.queue == [] && s.arrived == [] && s.log == []
    && s.packets == 0 && s.notifications == 0
    && s.lock == None && s.poller == Probing && s.consumers == map[]
  }

  function ActAll(s: Threads, actions: seq<Action>): Option<Threads> {
    if actions == [] then Some(s)
    else
      var before := ActAll(s, actions[..|actions| - 1]);
      var a := actions[|actions| - 1];
      if before.Some? && CanAct(before.value, a) then Some(Act(before.value, a)) else None
  }

  function StepAll(s: Atomic, steps: seq<AtomicStep>): Option<Atomic> {
    if steps == [] then Some(s)
    else
      var before := StepAll(s, steps[..|steps| - 1]);
      var step := steps[|steps| - 1];
      if before.Some? && CanStep(before.value, step) then Some(StepAtomic(before.value, step)) else None
  }

  /** Linearisation: for every interleaving there is a run of the atomic poller
      with the same arrivals that hands out the same results in the same order. */
  lemma {:induction false} RunRefinesAtomic(s: Threads, actions: seq<Action>) returns (steps: seq<AtomicStep>)
    requires Exclusive(s) && ActAll(s, actions).Some?
    ensures Exclusive(ActAll(s, actions).value)
    ensures StepAll(Abs(s), steps) == Some(Abs(ActAll(s, actions).value))
  {
    if actions == [] {
      steps := [];
    } else {
      var front, a := actions[..|actions| - 1], actions[|actions| - 1];
      steps := RunRefinesAtomic(s, front);
      var t := ActAll(s, front).value;
      ActRefinesAtomic(t, a);
      assert (steps + [Effect(t, a)])[..|steps|] == steps;
      steps := steps + [Effect(t, a)];
    }
  }

  lemma ActAllAppend(s: Threads, actions: seq<Action>, a: Action)
    requires ActAll(s, actions).Some? && CanAct(ActAll(s, actions).value, a)
    ensures ActAll(s, actions + [a]) == Some(Act(ActAll(s, actions).value, a))
  {
    assert (actions + [a])[..|actions|] == actions;
  }

  /** A consumer that finds the lock free gets past the wait: nothing needs to have
      been counted, because the wait may time out. */
  lemma EnterAlone(s: Threads, id: nat, kind: Kind) returns (run: seq<Action>)
    requires s.lock.None? && Pc(s, id).Outside?
    ensures ActAll(s, run) == Some(Move(s, id, Entered(kind)).(lock := Some(Consumer(id))))
  {
    ActAllAppend(s, [], Call(id, kind));
    ActAllAppend(s, [] + [Call(id, kind)], LockConsumer(id));
    ActAllAppend(s, [] + [Call(id, kind)] + [LockConsumer(id)], Enter(id));
    run := [] + [Call(id, kind)] + [LockConsumer(id)] + [Enter(id)];
    assert s.consumers[id := Wants(kind)][id := Checking(kind)][id := Entered(kind)]
        == s.consumers[id := Entered(kind)];
  }

  /** A call of `consume_packets` that runs alone takes all packets counted. */
  lemma ConsumePacketsAlone(s: Threads, id: nat) returns (run: seq<Action>)
    requires s.lock.None? && Pc(s, id).Outside?
    ensures ActAll(s, run)
            == Some(s.(packets := 0, log := s.log + [PacketsTaken(s.packets)], consumers := s.consumers[id := Outside]))
  {
    run := EnterAlone(s, id, Packets);
    var t := ActAll(s, run).value;
    ActAllAppend(s, run, LoadCounter(id));
    ActAllAppend(s, run + [LoadCounter(id)], StoreCounter(id));
    ActAllAppend(s, run + [LoadCounter(id)] + [StoreCounter(id)], Return(id));
    run := run + [LoadCounter(id)] + [StoreCounter(id)] + [Return(id)];
    assert t.consumers[id := Took(s.packets)][id := Zeroed(s.packets)][id := Outside] == s.consumers[id := Outside];
  }

  /** A call of `consume_response` that runs alone takes one response if there is one. */
  lemma ConsumeResponseAlone(s: Threads, id: nat) returns (run: seq<Action>)
    requires s.lock.None? && Pc(s, id).Outside?
    ensures ActAll(s, run)
            == if s.notifications > 0
               then Some(s.(notifications := s.notifications - 1, log := s.log + [ResponseTaken(true)],
                            consumers := s.consumers[id := Outside]))
               else Some(s.(log := s.log + [ResponseTaken(false)], consumers := s.consumers[id := Outside]))
  {
    run := EnterAlone(s, id, Responses);
    var t := ActAll(s, run).value;
    ActAllAppend(s, run, LoadCounter(id));
    run := run + [LoadCounter(id)];
    if s.notifications > 0 {
      ActAllAppend(s, run, StoreCounter(id));
      run := run + [StoreCounter(id)];
      assert t.consumers[id := Saw(s.notifications)][id := Answered(true)][id := Outside]
          == s.consumers[id := Outside];
    } else {
      assert t.consumers[id := Answered(false)][id := Outside] == s.consumers[id := Outside];
    }
    ActAllAppend(s, run, Return(id));
    run := run + [Return(id)];
  }

  /** The poller thread on its own, up to the switch under the lock. */
  lemma PollerDispatchAlone(s: Threads) returns (run: seq<Action>)
    requires s.lock.None? && s.poller.Probing? && s.queue != []
    ensures var n := s.queue[0];
            ActAll(s, run)
            == if !Known(n) then Some(s.(queue := s.queue[1..], poller := Ended([n])))
               else Some(s.(queue := s.queue[1..], lock := Some(PollerThread),
                            poller := Loaded(n, if n.cls == PACKET_CLASS then s.packets else s.notifications)))
  {
    ActAllAppend(s, [], Probe);
    ActAllAppend(s, [] + [Probe], LockPoller);
    ActAllAppend(s, [] + [Probe] + [LockPoller], Dispatch);
    run := [] + [Probe] + [LockPoller] + [Dispatch];
  }

  /** And from there to the end of the round. */
  lemma PollerStoreAlone(s: Threads, run: seq<Action>)
    requires ActAll(s, run).Some? && CanAct(ActAll(s, run).value, Store)
    ensures var t := ActAll(s, run).value;
            var n, counter := t.poller.n, t.poller.counter;
            ActAll(s, run + [Store] + [UnlockPoller])
            == if n.cls == PACKET_CLASS
               then Some(t.(packets := Add64(counter, Payload(n)), poller := Probing, lock := None))
               else Some(t.(notifications := Add64(counter, 1), poller := Probing, lock := None))
  {
    ActAllAppend(s, run, Store);
    ActAllAppend(s, run + [Store], UnlockPoller);
  }

  /** One round of the poller thread that runs alone counts the oldest notification,
      or ends the thread if its class is unknown. */
  lemma PollerRoundAlone(s: Threads) returns (run: seq<Action>)
    requires s.lock.None? && s.poller.Probing? && s.queue != []
    ensures var n := s.queue[0];
            ActAll(s, run)
            == if n.cls == 0xca
               then Some(s.(queue := s.queue[1..], packets := (s.packets + n.payload % 0x1_0000_0000) % TWO_64))
               else if n.cls == 0
               then Some(s.(queue := s.queue[1..], notifications := (s.notifications + 1) % TWO_64))
               else Some(s.(queue := s.queue[1..], poller := Ended([n])))
  {
    run := PollerDispatchAlone(s);
    if Known(s.queue[0]) {
      PollerStoreAlone(s, run);
      run := run + [Store] + [UnlockPoller];
    }
  }

  /** The lock never deadlocks: whoever holds it has a next access. */
  lemma HolderCanAct(s: Threads) returns (a: Action)
    requires Exclusive(s) && s.lock.Some?
    ensures CanAct(s, a)
    ensures if s.lock.value.PollerThread? then !OfConsumer(a) && a in {Dispatch, Store, UnlockPoller}
            else OfConsumer(a) && a.id == s.lock.value.id
  {
    match s.lock.value
    case PollerThread =>
      a := if s.poller.Locked? then Dispatch else if s.poller.Loaded? then Store else UnlockPoller;
    case Consumer(id) =>
      assert ConsumerInside(Pc(s, id));
      var pc := Pc(s, id);
      a := if pc.Checking? then Enter(id)
           else if pc.Entered? then LoadCounter(id)
           else if pc.Took? || pc.Saw? then StoreCounter(id)
           else Return(id);
  }

  /** A consumer evaluating the wait goes to sleep, and gives the lock back, only when
      there is nothing of its kind; it can always go on, as after a timeout. */
  lemma WaitIsSound(s: Threads, id: nat)
    requires Exclusive(s) && Pc(s, id).Checking?
    ensures CanAct(s, Enter(id))
    ensures CanAct(s, Sleep(id)) <==> (if Pc(s, id).kind == Packets then s.packets else s.notifications) == 0
    ensures CanAct(s, Sleep(id)) ==>
              && Act(s, Sleep(id)).lock == None && Pc(Act(s, Sleep(id)), id) == Wants(Pc(s, id).kind)
              && Act(s, Sleep(id)).packets == s.packets && Act(s, Sleep(id)).notifications == s.notifications
  {
  }

  /** Packet words and responses handed out to consumers. */
  function PacketsIn(log: seq<Event>): nat {
    if log == [] then 0
    else
      PacketsIn(log[..|log| - 1]) + (match log[|log| - 1] case PacketsTaken(words) => words case _ => 0)
  }

  function ResponsesIn(log: seq<Event>): nat {
    if log == [] then 0
    else ResponsesIn(log[..|log| - 1]) + (if log[|log| - 1] == ResponseTaken(true) then 1 else 0)
  }

  lemma LogAppend(log: seq<Event>, e: Event)
    ensures PacketsIn(log + [e]) == PacketsIn(log) + (match e case PacketsTaken(words) => words case _ => 0)
    ensures ResponsesIn(log + [e]) == ResponsesIn(log) + (if e == ResponseTaken(true) then 1 else 0)
  {
    assert (log + [e])[..|log|] == log;
  }

  /** What was handed out, what is counted and what is still queued. */
  function PacketsAccounted(s: Atomic): nat {
    PacketsIn(s.log) + s.poller.packets + QueueWords(s.poller.queue)
  }

  function ResponsesAccounted(s: Atomic): nat {
    ResponsesIn(s.log) + s.poller.notifications + QueueResponses(s.poller.queue)
  }

  /** Nothing lost and nothing counted twice: up to the width of the counters
      always, and exactly as long as the arrivals fit them. */
  predicate Conserved(s: Atomic) {
    && Balanced(PacketsAccounted(s), QueueWords(s.arrived))
    && Balanced(ResponsesAccounted(s), QueueResponses(s.arrived))
  }

  lemma PickUpAccounts(s: Atomic)
    requires CanStep(s, PickUp)
    ensures var t, n := StepAtomic(s, PickUp), s.poller.queue[0];
            && PacketsAccounted(s) == PacketsIn(s.log) + (s.poller.packets + Words(n)) + QueueWords(t.poller.queue)
            && t.poller.packets == (s.poller.packets + Words(n)) % TWO_64
            && ResponsesAccounted(s)
               == ResponsesIn(s.log) + (s.poller.notifications + One(n)) + QueueResponses(t.poller.queue)
            && t.poller.notifications == (s.poller.notifications + One(n)) % TWO_64
            && t.log == s.log && t.arrived == s.arrived
  {
  }

  function One(n: Notification): nat { if n.cls == RESPONSE_CLASS then 1 else 0 }

  lemma PickUpConserves(s: Atomic)
    requires CanStep(s, PickUp) && Conserved(s)
    ensures Conserved(StepAtomic(s, PickUp))
  {
    PickUpConservesPackets(s);
    PickUpConservesResponses(s);
  }

  lemma PickUpConservesPackets(s: Atomic)
    requires CanStep(s, PickUp) && Balanced(PacketsAccounted(s), QueueWords(s.arrived))
    ensures Balanced(PacketsAccounted(StepAtomic(s, PickUp)), QueueWords(StepAtomic(s, PickUp).arrived))
  {
    var rest := StepAtomic(s, PickUp).poller.queue;
    PickUpAccounts(s);
    ReduceSummand(PacketsIn(s.log), s.poller.packets + Words(s.poller.queue[0]), QueueWords(rest),
                  QueueWords(s.arrived));
  }

  lemma PickUpConservesResponses(s: Atomic)
    requires CanStep(s, PickUp) && Balanced(ResponsesAccounted(s), QueueResponses(s.arrived))
    ensures Balanced(ResponsesAccounted(StepAtomic(s, PickUp)), QueueResponses(StepAtomic(s, PickUp).arrived))
  {
    var rest := StepAtomic(s, PickUp).poller.queue;
    PickUpAccounts(s);
    ReduceSummand(ResponsesIn(s.log), s.poller.notifications + One(s.poller.queue[0]), QueueResponses(rest),
                  QueueResponses(s.arrived));
  }

  lemma DeliverConserves(s: Atomic, n: Notification)
    requires Conserved(s)
    ensures Conserved(StepAtomic(s, Deliver(n)))
  {
    QueueWordsAppend(s.poller.queue, n);
    QueueWordsAppend(s.arrived, n);
    AddBoth(PacketsAccounted(s), QueueWords(s.arrived), Words(n));
    AddBoth(ResponsesAccounted(s), QueueResponses(s.arrived), One(n));
  }

  /** Taking moves words or one response from the counter to the log. */
  lemma TakeAccounts(s: Atomic, step: AtomicStep)
    requires step == TakePackets || step == TakeResponse
    ensures PacketsAccounted(StepAtomic(s, step)) == PacketsAccounted(s)
    ensures ResponsesAccounted(StepAtomic(s, step)) == ResponsesAccounted(s)
    ensures StepAtomic(s, step).arrived == s.arrived
  {
    LogAppend(s.log, PacketsTaken(s.poller.packets));
    LogAppend(s.log, ResponseTaken(s.poller.notifications > 0));
  }

  lemma StepConserves(s: Atomic, step: AtomicStep)
    requires CanStep(s, step) && Conserved(s)
    ensures Conserved(StepAtomic(s, step))
  {
    match step
    case Nothing =>
    case Deliver(n) => DeliverConserves(s, n);
    case PickUp => PickUpConserves(s);
    case TakePackets => TakeAccounts(s, step);
    case TakeResponse => TakeAccounts(s, step);
  }

  lemma {:induction false} StepsConserve(s: Atomic, steps: seq<AtomicStep>)
    requires Conserved(s) && StepAll(s, steps).Some?
    ensures Conserved(StepAll(s, steps).value)
  {
    if steps != [] {
      StepsConserve(s, steps[..|steps| - 1]);
      StepConserves(StepAll(s, steps[..|steps| - 1]).value, steps[|steps| - 1]);
    }
  }

  /** For every interleaving of the poller thread with any number of consumers:
      what was handed out, what is counted and what is still queued or in the
      poller thread's hand adds up to what arrived. */
  lemma NothingLostOrCountedTwice(s: Threads, actions: seq<Action>)
    requires Fresh(s) && ActAll(s, actions).Some?
    ensures Conserved(Abs(ActAll(s, actions).value))
  {
    var steps := RunRefinesAtomic(s, actions);
    StepsConserve(Abs(s), steps);
  }
}
