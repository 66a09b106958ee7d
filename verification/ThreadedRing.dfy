/** The ring protocol on top of the fine-grained poller threads: picking up and
    polling are not steps of their own but the single accesses of the poller
    thread and of the host thread inside `consume_packets`. Every run of this
    machine is a run of the ring protocol, so FIFO delivery holds for it. */
module ThreadedRing {
  import opened Wrappers
  import opened Bits
  import opened Notifications
  import opened RingProtocol
  import opened RingRuns
  import Threaded = PollerThreads

  /** The consumer thread that owns the ring. */
  const HOST: nat := 0

  /** The ring without its poller component, and the threads in its place. */
  datatype Machine = Machine(ring: State, threads: Threaded.Threads)

  datatype Move =
    | OfRing(step: Step)
    | OfThread(action: Threaded.Action)

  /** Words the host thread has taken from the poller and not yet made readable. */
  function Held(threads: Threaded.Threads): Word {
    match Threaded.Pc(threads, HOST)
    case Zeroed(words) => words
    case _ => 0
  }

  predicate HostOutside(m: Machine) { Threaded.Pc(m.threads, HOST).Outside? }

  /** What a step of the FPGA sends. */
  function Sent(step: Step): Notification
    requires step.Respond? || (step.Announce? && step.count < TWO_32 && step.tag < TWO_32)
  {
    if step.Announce? then Announcement(step.count, step.tag) else Notification(RESPONSE_CLASS, step.payload)
  }

  /** The host reads and notifies only outside the poller; arrivals are sent by the
      FPGA; only the ring's own thread asks for packets. */
  predicate CanMove(m: Machine, move: Move)
    requires WellFormed(m.ring)
  {
    match move
    case OfRing(step) =>
      && !step.Pick? && !step.Poll?
      && Enabled(m.ring, step)
      && (IsHostStep(step) ==> HostOutside(m))
    case OfThread(a) =>
      && Threaded.CanAct(m.threads, a)
      && !a.Arrive?
      && (a.Call? && a.kind == Threaded.Packets ==> a.id == HOST)
  }

  /** A call of `poll` ends by adding the words taken to the readable ones. */
  function Next(m: Machine, move: Move): Machine
    requires WellFormed(m.ring) && CanMove(m, move)
  {
    match move
    case OfRing(step) =>
      if step.Announce? then
        Machine(m.ring.(unannounced := m.ring.unannounced - step.count),
                Threaded.Act(m.threads, Threaded.Arrive(Sent(step))))
      else if step.Respond? then
        Machine(m.ring, Threaded.Act(m.threads, Threaded.Arrive(Sent(step))))
      else
        Machine(Apply(m.ring, step), m.threads)
    case OfThread(a) =>
      var ring := if a == Threaded.Return(HOST)
                  then m.ring.(readable := Add64(m.ring.readable, Held(m.threads)))
                  else m.ring;
      Machine(ring, Threaded.Act(m.threads, a))
  }

  // ------------------------------------------------------------- refinement

  /** The poller of the protocol; its count of responses includes taken ones. */
  function PollerOf(a: Threaded.Atomic): Poller {
    a.poller.(notifications := Add64(a.poller.notifications, Threaded.ResponsesIn(a.log)))
  }

  /** Readable words, those in the host thread's hand included. */
  function Readable(m: Machine): Word { Add64(m.ring.readable, Held(m.threads)) }

  /** The protocol state a machine stands for. */
  function View(m: Machine): State {
    m.ring.(poller := PollerOf(Threaded.Abs(m.threads)), readable := Readable(m))
  }

  /** The protocol steps a move is: one or none. */
  function StepsOf(m: Machine, move: Move): seq<Step> {
    match move
    case OfRing(step) => [step]
    case OfThread(a) =>
      match Threaded.Effect(m.threads, a)
      case PickUp => [Pick]
      case TakePackets => [Poll]
      case _ => []
  }

  predicate AsksForPackets(pc: Threaded.ConsumerPc) {
    match pc
    case Wants(kind) => kind == Threaded.Packets
    case Checking(kind) => kind == Threaded.Packets
    case Entered(kind) => kind == Threaded.Packets
    case Took(_) => true
    case Zeroed(_) => true
    case _ => false
  }

  ghost predicate OnlyHostAsks(threads: Threaded.Threads) {
    forall id: nat :: AsksForPackets(Threaded.Pc(threads, id)) ==> id == HOST
  }

  ghost predicate Sound(m: Machine) {
    WellFormed(m.ring) && Threaded.Exclusive(m.threads) && OnlyHostAsks(m.threads)
  }

  lemma ActorStaysHost(threads: Threaded.Threads, a: Threaded.Action)
    requires Threaded.CanAct(threads, a) && Threaded.OfConsumer(a) && OnlyHostAsks(threads)
    requires a.Call? && a.kind == Threaded.Packets ==> a.id == HOST
    ensures AsksForPackets(Threaded.Pc(Threaded.Act(threads, a), a.id)) ==> a.id == HOST
  {
    assert AsksForPackets(Threaded.Pc(threads, a.id)) ==> a.id == HOST;
  }

  lemma OnlyHostAsksStays(threads: Threaded.Threads, a: Threaded.Action)
    requires Threaded.CanAct(threads, a) && OnlyHostAsks(threads)
    requires a.Call? && a.kind == Threaded.Packets ==> a.id == HOST
    ensures OnlyHostAsks(Threaded.Act(threads, a))
  {
    forall id: nat | AsksForPackets(Threaded.Pc(Threaded.Act(threads, a), id))
      ensures id == HOST
    {
      if Threaded.OfConsumer(a) && id == a.id {
        ActorStaysHost(threads, a);
      } else {
        Threaded.OthersStay(threads, a, id);
      }
    }
  }

  /** Words change hands at the host's store and leave them at its return. */
  lemma HeldAfter(threads: Threaded.Threads, a: Threaded.Action)
    requires Threaded.Exclusive(threads) && OnlyHostAsks(threads) && Threaded.CanAct(threads, a)
    ensures Threaded.Effect(threads, a) == Threaded.TakePackets ==>
              Held(threads) == 0 && Held(Threaded.Act(threads, a)) == threads.packets
    ensures a == Threaded.Return(HOST) ==> Held(Threaded.Act(threads, a)) == 0
    ensures Threaded.Effect(threads, a) != Threaded.TakePackets && a != Threaded.Return(HOST) ==>
              Held(Threaded.Act(threads, a)) == Held(threads)
  {
    if Threaded.OfConsumer(a) && a.id == HOST {
    } else {
      Threaded.OthersStay(threads, a, HOST);
      if a.StoreCounter? {
        assert !AsksForPackets(Threaded.Pc(threads, a.id));
      }
    }
  }

  /** What the atomic steps do to the protocol's poller. */
  lemma PollerOfStep(a: Threaded.Atomic, step: Threaded.AtomicStep)
    requires Threaded.CanStep(a, step)
    ensures match step
            case Nothing => PollerOf(Threaded.StepAtomic(a, step)) == PollerOf(a)
            case Deliver(n) => PollerOf(Threaded.StepAtomic(a, step)) == PollerOf(a).(queue := PollerOf(a).queue + [n])
            case PickUp => PollerOf(Threaded.StepAtomic(a, step)) == Notifications.Pick(PollerOf(a))
            case TakePackets => PollerOf(Threaded.StepAtomic(a, step)) == PollerOf(a).(packets := 0)
            case TakeResponse => PollerOf(Threaded.StepAtomic(a, step)) == PollerOf(a)
  {
    match step
    case PickUp => AddSwap(a.poller.notifications, Threaded.ResponsesIn(a.log), 1);
    case TakePackets => Threaded.LogAppend(a.log, Threaded.PacketsTaken(a.poller.packets));
    case TakeResponse => Threaded.LogAppend(a.log, Threaded.ResponseTaken(a.poller.notifications > 0));
    case _ =>
  }

  /** Running one enabled step. */
  lemma ExecOne(s: State, step: Step)
    requires WellFormed(s) && Enabled(s, step)
    ensures Exec(s, [step]) == Some(Apply(s, step))
  {
    ExecAppend(s, [], step);
    assert [] + [step] == [step];
  }

  lemma AddNothing(a: Word, b: nat)
    ensures Add64(a, 0) == a && Add64(Add64(a, b), 0) == Add64(a, b)
  {
  }

  /** Only taking packets makes more words readable. */
  lemma ReadableAfter(m: Machine, a: Threaded.Action)
    requires Sound(m) && CanMove(m, OfThread(a))
    ensures Readable(Next(m, OfThread(a)))
            == if Threaded.Effect(m.threads, a) == Threaded.TakePackets then Add64(Readable(m), m.threads.packets)
               else Readable(m)
  {
    HeldAfter(m.threads, a);
    AddNothing(m.ring.readable, Held(m.threads));
  }

  /** A thread's access changes nothing of the ring but its readable words. */
  lemma RingAfter(m: Machine, a: Threaded.Action)
    requires Sound(m) && CanMove(m, OfThread(a))
    ensures Next(m, OfThread(a)).ring == m.ring.(readable := Next(m, OfThread(a)).ring.readable)
    ensures Next(m, OfThread(a)).threads == Threaded.Act(m.threads, a)
  {
  }

  lemma ThreadRefinesRing(m: Machine, a: Threaded.Action)
    requires Sound(m) && CanMove(m, OfThread(a))
    ensures Exec(View(m), StepsOf(m, OfThread(a))) == Some(View(Next(m, OfThread(a))))
  {
    var s, effect := Threaded.Abs(m.threads), Threaded.Effect(m.threads, a);
    Threaded.ActRefinesAtomic(m.threads, a);
    PollerOfStep(s, effect);
    ReadableAfter(m, a);
    RingAfter(m, a);
    if effect == Threaded.PickUp {
      ExecOne(View(m), Pick);
    } else if effect == Threaded.TakePackets {
      ExecOne(View(m), Poll);
    }
  }

  lemma SendRefinesRing(m: Machine, step: Step)
    requires Sound(m) && CanMove(m, OfRing(step)) && (step.Announce? || step.Respond?)
    ensures Enabled(View(m), step) && Apply(View(m), step) == View(Next(m, OfRing(step)))
  {
    var a := Threaded.Arrive(Sent(step));
    Threaded.ActRefinesAtomic(m.threads, a);
    PollerOfStep(Threaded.Abs(m.threads), Threaded.Effect(m.threads, a));
    HeldAfter(m.threads, a);
  }

  lemma LocalMoveRefinesRing(m: Machine, step: Step)
    requires Sound(m) && CanMove(m, OfRing(step)) && !step.Announce? && !step.Respond?
    ensures Enabled(View(m), step) && Apply(View(m), step) == View(Next(m, OfRing(step)))
  {
    AddNothing(m.ring.readable, 0);
    AddNothing(Apply(m.ring, step).readable, 0);
  }

  lemma RingMoveRefinesRing(m: Machine, step: Step)
    requires Sound(m) && CanMove(m, OfRing(step))
    ensures Exec(View(m), [step]) == Some(View(Next(m, OfRing(step))))
  {
    if step.Announce? || step.Respond? {
      SendRefinesRing(m, step);
    } else {
      LocalMoveRefinesRing(m, step);
    }
    ExecOne(View(m), step);
  }

  /** Every move of the machine is one step of the ring protocol or invisible to it. */
  lemma MoveRefinesRing(m: Machine, move: Move)
    requires Sound(m) && CanMove(m, move)
    ensures Sound(Next(m, move))
    ensures Exec(View(m), StepsOf(m, move)) == Some(View(Next(m, move)))
  {
    match move
    case OfRing(step) =>
      RingMoveRefinesRing(m, step);
      if step.Announce? || step.Respond? {
        Threaded.ActRefinesAtomic(m.threads, Threaded.Arrive(Sent(step)));
        OnlyHostAsksStays(m.threads, Threaded.Arrive(Sent(step)));
      }
    case OfThread(a) =>
      ThreadRefinesRing(m, a);
      Threaded.ActRefinesAtomic(m.threads, a);
      OnlyHostAsksStays(m.threads, a);
  }

  // ------------------------------------------------------------------- runs

  function MoveAll(m: Machine, moves: seq<Move>): (t: Option<Machine>)
    requires WellFormed(m.ring)
    ensures t.Some? ==> WellFormed(t.value.ring)
  {
    if moves == [] then Some(m)
    else
      var before := MoveAll(m, moves[..|moves| - 1]);
      var move := moves[|moves| - 1];
      if before.Some? && CanMove(before.value, move) then Some(Next(before.value, move)) else None
  }

  /** A configured, empty ring and fresh threads. */
  ghost predicate MachineStart(m: Machine) {
    Start(m.ring) && Threaded.Fresh(m.threads)
  }

  lemma {:induction false} RunRefinesRing(m: Machine, moves: seq<Move>) returns (run: seq<Step>)
    requires Sound(m) && MoveAll(m, moves).Some?
    ensures Sound(MoveAll(m, moves).value)
    ensures Exec(View(m), run) == Some(View(MoveAll(m, moves).value))
  {
    if moves == [] {
      run := [];
    } else {
      var front, move := moves[..|moves| - 1], moves[|moves| - 1];
      var t := MoveAll(m, front).value;
      run := RunRefinesRing(m, front);
      MoveRefinesRing(t, move);
      ExecConcat(View(m), run, StepsOf(t, move));
      run := run + StepsOf(t, move);
    }
  }

  /** The words the FPGA writes in a run of the machine. */
  function FpgaWrites(moves: seq<Move>): seq<Word> {
    if moves == [] then []
    else
      var move := moves[|moves| - 1];
      FpgaWrites(moves[..|moves| - 1]) + (if move.OfRing? && move.step.Write? then [move.step.word] else [])
  }

  lemma {:induction false} WrittenIsFpgaWrites(m: Machine, moves: seq<Move>)
    requires WellFormed(m.ring) && m.ring.written == [] && MoveAll(m, moves).Some?
    ensures MoveAll(m, moves).value.ring.written == FpgaWrites(moves)
  {
    if moves != [] {
      WrittenIsFpgaWrites(m, moves[..|moves| - 1]);
    }
  }

  lemma StartIsSound(m: Machine)
    requires MachineStart(m)
    ensures Sound(m) && Start(View(m))
  {
  }

  /** FIFO delivery with real threads: for every interleaving of FPGA, network and
      the single accesses of the poller thread and all its consumers, what the host
      has read is a prefix of what the FPGA has written, no unread word has been
      overwritten, and the run is one of the protocol and of the unbounded queue. */
  lemma ThreadedRingIsFifo(m: Machine, moves: seq<Move>) returns (run: seq<Step>)
    requires MachineStart(m) && MoveAll(m, moves).Some?
    ensures var t := MoveAll(m, moves).value;
            && t.ring.read <= t.ring.written == FpgaWrites(moves)
            && (forall i :: |t.ring.read| <= i < |t.ring.written| ==>
                  t.ring.memory[i % t.ring.size] == t.ring.written[i])
            && Exec(View(m), run) == Some(View(t)) && Inv(View(t))
            && FifoExec(run) == Some(Fifo(t.ring.written[|t.ring.read|..], t.ring.read))
  {
    StartIsSound(m);
    run := RunRefinesRing(m, moves);
    WrittenIsFpgaWrites(m, moves);
    ReachableInv(View(m), run);
    RingRefinesFifo(View(m), run);
  }
}
