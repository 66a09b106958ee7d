/** Absence of deadlock under flow control, and bounded service of a stalled FPGA:
    for which thresholds and frequencies a ring never depends on the FPGA's
    timeout, and that the defaults of src/nhtl-extoll/configure_fpga.cpp are
    among them for at least two and fewer than 2^20 pages. */
module FlowLiveness {
  import opened Wrappers
  import opened Bits
  import opened Notifications
  import opened RingProtocol
  import opened RingRuns
  import opened FlowControl

  const PACKET_BYTES: nat := 8 * PACKET_WORDS

  /** Words announced to the host and not yet credited back. */
  function InTransit(s: State): nat
    requires WellFormed(s)
  {
    Announced(s) + s.poller.packets + s.readable + s.readWords + CreditsInFlight(s)
  }

  /** Steps that bring announced words closer to being credited. */
  predicate Progress(s: State, step: Step)
    requires WellFormed(s)
  {
    && Enabled(s, step)
    && match step
       case Pick => true
       case Deliver => true
       case Poll => s.poller.packets > 0
       case Read => true
       case Notify => s.readWords > 0
       case _ => false
  }

  lemma OccupancySplit(s: State)
    requires Inv(s)
    ensures Occupancy(s) == s.unannounced + InTransit(s)
  {
  }

  /** Words in transit always have a next step. */
  lemma TransitHasProgress(s: State) returns (step: Step)
    requires Inv(s) && InTransit(s) > 0
    ensures Progress(s, step)
  {
    if s.poller.queue != [] {
      step := Pick;
    } else if s.poller.packets > 0 {
      step := Poll;
    } else if s.readable > 0 {
      CountersExact(s);
      step := Read;
    } else if s.readWords > 0 {
      step := Notify;
    } else {
      step := Deliver;
    }
  }

  // --------------------------------------------------------------- deadlock

  /** The FPGA can begin a packet, or has sent so many that it announces without
      its timeout, or some poller, host or credit step makes progress. */
  ghost predicate CanGoOn(c: Config, f: Flow)
    requires WellFormed(f.ring)
  {
    || (forall word :: FlowEnabled(c, f, OpenPacket(word)))
    || (f.packets == c.frequency && FlowEnabled(c, f, AnnounceAll(0)))
    || (exists step :: Progress(f.ring, step))
  }

  /** No run from a configured, empty ring of some words ever waits for the timeout. */
  ghost predicate DeadlockFree(c: Config, size: nat) {
    forall start: State, steps: seq<FlowStep> ::
      Start(start) && start.size == size && FlowExec(c, Flow(start, 0, 0), steps).Some?
      ==> CanGoOn(c, FlowExec(c, Flow(start, 0, 0), steps).value)
  }

  /** At least one packet fits below the threshold before the announcement, and the
      packets before the last one announced cannot reach the threshold. */
  predicate Paced(c: Config) {
    && c.frequency >= 1
    && c.threshold <= c.capacity
    && PACKET_BYTES * (c.frequency - 1) <= c.capacity - c.threshold
  }

  /** Unannounced words fit the packets begun. */
  lemma UnannouncedFitsPackets(c: Config, f: Flow)
    requires FlowInv(c, f)
    ensures 8 * f.ring.unannounced <= PACKET_BYTES * f.packets
  {
  }

  lemma PacketBytesMonotone(a: int, b: int)
    requires a <= b
    ensures PACKET_BYTES * a <= PACKET_BYTES * b
  {
  }

  lemma PacketBytesCancel(a: int, b: int)
    requires PACKET_BYTES * a < PACKET_BYTES * b
    ensures a < b
  {
  }

  /** A paced FPGA is never stuck: below the threshold with packets left to send it
      has announced words that are not yet credited. */
  lemma PacedGoesOn(c: Config, f: Flow)
    requires FlowInv(c, f) && Paced(c)
    ensures CanGoOn(c, f)
  {
    if f.packets < c.frequency && !MayOpen(c, f.ring) {
      UnannouncedFitsPackets(c, f);
      PacketBytesMonotone(f.packets, c.frequency - 1);
      OccupancySplit(f.ring);
      var step := TransitHasProgress(f.ring);
      assert Progress(f.ring, step);
    }
  }

  lemma PacedIsDeadlockFree(c: Config, size: nat)
    requires c.capacity == 8 * size && c.threshold >= PACKET_BYTES && Paced(c)
    ensures DeadlockFree(c, size)
  {
    forall start: State, steps: seq<FlowStep> |
      Start(start) && start.size == size && FlowExec(c, Flow(start, 0, 0), steps).Some?
      ensures CanGoOn(c, FlowExec(c, Flow(start, 0, 0), steps).value)
    {
      StartInv(start);
      var _ := FlowRunRefinesRun(c, Flow(start, 0, 0), steps);
      PacedGoesOn(c, FlowExec(c, Flow(start, 0, 0), steps).value);
    }
  }

  // ------------------------------------------------ filling an unpaced ring

  /** Only the FPGA has moved, and it has announced nothing. */
  predicate OnlyWritten(s: State) {
    && WellFormed(s)
    && s.poller.queue == [] && s.poller.packets == 0 && s.readable == 0 && s.readWords == 0
    && s.posted == [] && s.credited == 0
  }

  /** The end of a run that only writes packets, all of them full but the last. */
  ghost predicate Filling(c: Config, start: State, steps: seq<FlowStep>, f: Flow) {
    && WellFormed(start) && FlowExec(c, Flow(start, 0, 0), steps) == Some(f)
    && OnlyWritten(f.ring) && f.ring.size == start.size
    && f.open <= PACKET_WORDS && (f.packets == 0 ==> f.open == 0)
    && |f.ring.written| == (if f.packets == 0 then 0 else PACKET_WORDS * (f.packets - 1) + f.open)
  }

  lemma FillingStep(c: Config, start: State, steps: seq<FlowStep>, f: Flow, step: FlowStep) returns (g: Flow)
    requires Filling(c, start, steps, f) && FlowEnabled(c, f, step) && |f.ring.written| < f.ring.size
    requires step.Continue? || (step.OpenPacket? && (f.packets > 0 ==> f.open == PACKET_WORDS))
    ensures Filling(c, start, steps + [step], g)
    ensures |g.ring.written| == |f.ring.written| + 1
    ensures if step.OpenPacket? then g.packets == f.packets + 1 && g.open == 1
            else g.packets == f.packets && g.open == f.open + 1
  {
    assert (steps + [step])[..|steps|] == steps;
    g := FlowApply(f, step);
  }

  /** One more full packet. */
  lemma FillPacket(c: Config, start: State, steps: seq<FlowStep>, f: Flow) returns (more: seq<FlowStep>, g: Flow)
    requires Filling(c, start, steps, f) && (f.packets > 0 ==> f.open == PACKET_WORDS)
    requires f.packets < c.frequency && MayOpen(c, f.ring)
    requires c.capacity <= 8 * start.size && c.threshold >= PACKET_BYTES
    ensures Filling(c, start, more, g) && g.open == PACKET_WORDS && g.packets == f.packets + 1
  {
    g := FillingStep(c, start, steps, f, OpenPacket(0));
    more := steps + [OpenPacket(0)];
    while g.open < PACKET_WORDS
      invariant Filling(c, start, more, g) && 1 <= g.open && g.packets == f.packets + 1
      invariant |g.ring.written| == |f.ring.written| + g.open
    {
      g := FillingStep(c, start, more, g, Continue(0));
      more := more + [Continue(0)];
    }
  }

  /** The ring is stuck: only the timeout can make the FPGA announce, and it has
      neither a packet to begin nor one to continue. */
  ghost predicate Stuck(c: Config, f: Flow)
    requires WellFormed(f.ring)
  {
    !CanGoOn(c, f) && (forall word :: !FlowEnabled(c, f, Continue(word)))
  }

  lemma FilledIsStuck(c: Config, start: State, steps: seq<FlowStep>, f: Flow)
    requires Filling(c, start, steps, f) && (f.packets > 0 ==> f.open == PACKET_WORDS)
    requires f.packets < c.frequency && !MayOpen(c, f.ring)
    ensures Stuck(c, f)
  {
    assert !FlowEnabled(c, f, OpenPacket(0));
  }

  /** Full packets from an empty ring on lead an FPGA that is not paced into a state
      from which it needs its timeout. */
  lemma UnpacedGetsStuck(c: Config, size: nat) returns (start: State, steps: seq<FlowStep>)
    requires 0 < size < TWO_32 && c.capacity <= 8 * size && c.threshold >= PACKET_BYTES && !Paced(c)
    ensures Start(start) && start.size == size
    ensures FlowExec(c, Flow(start, 0, 0), steps).Some?
    ensures Stuck(c, FlowExec(c, Flow(start, 0, 0), steps).value)
  {
    start := EmptyRing(size);
    var f := Flow(start, 0, 0);
    steps := [];
    if c.frequency == 0 {
      assert !FlowEnabled(c, f, OpenPacket(0));
    } else {
      while MayOpen(c, f.ring)
        invariant Filling(c, start, steps, f) && (f.packets > 0 ==> f.open == PACKET_WORDS)
        invariant f.packets < c.frequency
        decreases c.frequency - f.packets
      {
        assert PACKET_BYTES * f.packets <= c.capacity - c.threshold;
        PacketBytesCancel(f.packets, c.frequency - 1);
        steps, f := FillPacket(c, start, steps, f);
      }
      FilledIsStuck(c, start, steps, f);
    }
  }

  /** For every threshold of at least a packet and every frequency: the ring never
      depends on the timeout if and only if the FPGA is paced. */
  lemma DeadlockFreeIffPaced(c: Config, size: nat)
    requires 0 < size < TWO_32 && c.capacity == 8 * size && c.threshold >= PACKET_BYTES
    ensures DeadlockFree(c, size) <==> Paced(c)
  {
    if Paced(c) {
      PacedIsDeadlockFree(c, size);
    } else {
      var start, steps := UnpacedGetsStuck(c, size);
    }
  }

  // --------------------------------------------------------------- defaults

  /** Which page counts are paced by the defaults. */
  lemma DefaultsPacedIff(pages: nat)
    requires 1 <= pages < 0x80_0000
    ensures Paced(DefaultConfig(pages)) <==> 2 <= pages < 0x10_0000
  {
    DefaultConfigExact(pages);
    var c := DefaultConfig(pages);
    assert SizeBytes(pages) == 4096 * pages && SizeWords(pages) == 512 * pages;
    assert PACKET_BYTES * c.frequency + 2 * c.threshold <= SizeBytes(pages);
    if pages >= 0x10_0000 {
      assert 62 * (c.frequency + 8) + 61 >= 512 * pages;
      assert c.capacity <= 4096 * pages - TWO_32;
    }
  }

  lemma DefaultsSized(pages: nat)
    requires 1 <= pages < 0x80_0000
    ensures 0 < SizeWords(pages) < TWO_32
    ensures DefaultConfig(pages).capacity <= 8 * SizeWords(pages) && DefaultConfig(pages).threshold >= PACKET_BYTES
    ensures pages < 0x10_0000 ==> DefaultConfig(pages).capacity == 8 * SizeWords(pages)
  {
    assert SizeBytes(pages) == 4096 * pages && SizeWords(pages) == 512 * pages;
    DefaultConfigExact(pages);
  }

  /** The default configuration never depends on the timeout if and only if the
      ring has at least two pages and its size fits the register. */
  lemma DeadlockFreeIff(pages: nat)
    requires 1 <= pages < 0x80_0000
    ensures DeadlockFree(DefaultConfig(pages), SizeWords(pages)) <==> 2 <= pages < 0x10_0000
  {
    DefaultsPacedIff(pages);
    DefaultsSized(pages);
    if Paced(DefaultConfig(pages)) {
      PacedIsDeadlockFree(DefaultConfig(pages), SizeWords(pages));
    } else {
      var start, steps := UnpacedGetsStuck(DefaultConfig(pages), SizeWords(pages));
    }
  }

  /** If all packets up to an announcement stay clear of the threshold, a nearly
      full FPGA always has announced words that are not yet credited. */
  lemma NearlyFullHasWordsInTransit(c: Config, f: Flow)
    requires FlowInv(c, f) && PACKET_BYTES * c.frequency + c.threshold < c.capacity
    requires NearlyFull(c, f.ring)
    ensures InTransit(f.ring) > 0
  {
    UnannouncedFitsPackets(c, f);
    PacketBytesMonotone(f.packets, c.frequency);
    OccupancySplit(f.ring);
  }

  /** The defaults leave that room from one page on. */
  lemma DefaultsLeaveRoom(pages: nat)
    requires 1 <= pages < 0x10_0000
    ensures PACKET_BYTES * DefaultConfig(pages).frequency + DefaultConfig(pages).threshold
            < DefaultConfig(pages).capacity
  {
    DefaultConfigExact(pages);
  }

  /** Every flow-controlled run from a configured, empty ring with the defaults is
      a run of the ring protocol; when nearly full it has a step that makes
      progress, and from two pages on it never waits for the timeout. */
  lemma EveryRunIsSafeAndLive(pages: nat, start: State, steps: seq<FlowStep>) returns (run: seq<Step>)
    requires 1 <= pages < 0x10_0000 && Start(start) && start.size == SizeWords(pages)
    requires FlowExec(DefaultConfig(pages), Flow(start, 0, 0), steps).Some?
    ensures var c, f := DefaultConfig(pages), FlowExec(DefaultConfig(pages), Flow(start, 0, 0), steps).value;
            && Exec(start, run) == Some(f.ring) && Inv(f.ring)
            && (NearlyFull(c, f.ring) ==> exists step :: Progress(f.ring, step))
            && (pages >= 2 ==> CanGoOn(c, f))
  {
    var c := DefaultConfig(pages);
    FlowStart(pages, start);
    run := FlowRunRefinesRun(c, Flow(start, 0, 0), steps);
    var f := FlowExec(c, Flow(start, 0, 0), steps).value;
    if NearlyFull(c, f.ring) {
      DefaultsLeaveRoom(pages);
      NearlyFullHasWordsInTransit(c, f);
      var step := TransitHasProgress(f.ring);
      assert Progress(f.ring, step);
    }
    if pages >= 2 {
      DefaultsPacedIff(pages);
      PacedGoesOn(c, f);
    }
  }

  // ------------------------------------------------- the rings of an endpoint

  const HICANN_PAGES: nat := 1
  const TRACE_PAGES: nat := 2048

  /** The one-page ring if the FPGA takes its frequency of 0 to mean an
      announcement after every packet. */
  const ANNOUNCE_EACH: Config := DefaultConfig(HICANN_PAGES).(frequency := 1)

  /** Of the two rings of an endpoint the trace ring never depends on the timeout;
      the HICANN ring does if its frequency of 0 is taken literally, and does not if
      it means an announcement after every packet. */
  lemma EndpointRings()
    ensures DeadlockFree(DefaultConfig(TRACE_PAGES), SizeWords(TRACE_PAGES))
    ensures !DeadlockFree(DefaultConfig(HICANN_PAGES), SizeWords(HICANN_PAGES))
    ensures DeadlockFree(ANNOUNCE_EACH, SizeWords(HICANN_PAGES))
  {
    DeadlockFreeIff(TRACE_PAGES);
    DeadlockFreeIff(HICANN_PAGES);
    DeadlockFreeIffPaced(ANNOUNCE_EACH, SizeWords(HICANN_PAGES));
  }

  /** Taken literally, a frequency of 0 means that no run ever writes a word. */
  lemma {:induction false} FrequencyZeroStaysEmpty(c: Config, start: State, steps: seq<FlowStep>)
    requires c.frequency == 0 && Start(start) && FlowExec(c, Flow(start, 0, 0), steps).Some?
    ensures var f := FlowExec(c, Flow(start, 0, 0), steps).value;
            f.ring.written == [] && f.ring.unannounced == f.packets == f.open == 0
  {
    if steps != [] {
      FrequencyZeroStaysEmpty(c, start, steps[..|steps| - 1]);
    }
  }

  // ---------------------------------------------------------------- progress

  /** Bounds the progress steps the words and messages of a state can give rise to. */
  function Measure(s: State): nat
    requires WellFormed(s)
  {
    |s.poller.queue| + (|s.posted| - s.delivered)
    + 6 * (s.unannounced + Announced(s)) + 5 * s.poller.packets + 4 * s.readable + 2 * s.readWords
  }

  predicate IsProgress(f: Flow, step: FlowStep)
    requires WellFormed(f.ring)
  {
    step.Other? && Progress(f.ring, step.step)
  }

  /** What the other steps add to the measure: six for a word, one for a message. */
  function Added(step: FlowStep): nat {
    match step
    case OpenPacket(_) => 6
    case Continue(_) => 6
    case AnnounceAll(_) => 1
    case Other(step) => if step.Respond? || step.Notify? then 1 else 0
  }

  lemma ProgressDecreases(s: State, step: Step)
    requires Inv(s) && Progress(s, step)
    ensures Measure(Apply(s, step)) < Measure(s)
  {
    CountersExact(s);
  }

  lemma AnnounceAdds(s: State, count: nat, tag: nat)
    requires Inv(s) && Enabled(s, Announce(count, tag))
    ensures Measure(Apply(s, Announce(count, tag))) == Measure(s) + 1
  {
    AnnouncementWords(count, tag);
    QueueWordsAppend(s.poller.queue, Announcement(count, tag));
  }

  lemma RespondAdds(s: State, payload: Word)
    requires Inv(s)
    ensures Measure(Apply(s, Respond(payload))) == Measure(s) + 1
  {
    QueueWordsAppend(s.poller.queue, Notification(RESPONSE_CLASS, payload));
  }

  lemma WriteAdds(s: State, word: Word)
    requires Inv(s) && Enabled(s, Write(word))
    ensures Measure(Apply(s, Write(word))) == Measure(s) + 6
  {
  }

  /** A poll or a notification that moves no word. */
  lemma IdleStepAdds(s: State, step: Step)
    requires Inv(s) && ((step == Poll && s.poller.packets == 0) || (step == Notify && s.readWords == 0))
    ensures Measure(Apply(s, step)) == Measure(s) + (if step == Notify then 1 else 0)
  {
    CountersExact(s);
  }

  lemma OthersAdd(c: Config, f: Flow, step: FlowStep)
    requires Inv(f.ring) && FlowEnabled(c, f, step) && Enabled(f.ring, Project(f, step)) && !IsProgress(f, step)
    ensures Measure(Apply(f.ring, Project(f, step))) <= Measure(f.ring) + Added(step)
  {
    match step
    case OpenPacket(word) => WriteAdds(f.ring, word);
    case Continue(word) => WriteAdds(f.ring, word);
    case AnnounceAll(tag) => AnnounceAdds(f.ring, f.ring.unannounced, tag);
    case Other(other) =>
      if other.Respond? {
        RespondAdds(f.ring, other.payload);
      } else {
        IdleStepAdds(f.ring, other);
      }
  }

  /** The number of progress steps in a run, and what its other steps add. */
  function ProgressSteps(c: Config, f: Flow, steps: seq<FlowStep>): nat
    requires WellFormed(f.ring) && FlowExec(c, f, steps).Some?
  {
    if steps == [] then 0
    else
      var front, step := steps[..|steps| - 1], steps[|steps| - 1];
      ProgressSteps(c, f, front) + (if IsProgress(FlowExec(c, f, front).value, step) then 1 else 0)
  }

  function AddedBy(c: Config, f: Flow, steps: seq<FlowStep>): nat
    requires WellFormed(f.ring) && FlowExec(c, f, steps).Some?
  {
    if steps == [] then 0
    else
      var front, step := steps[..|steps| - 1], steps[|steps| - 1];
      AddedBy(c, f, front) + (if IsProgress(FlowExec(c, f, front).value, step) then 0 else Added(step))
  }

  /** However FPGA, network, poller and host are scheduled, a run has no more
      progress steps than the measure of its first state and what the other steps
      add. */
  lemma {:induction false} ProgressIsBounded(c: Config, f: Flow, steps: seq<FlowStep>)
    requires FlowInv(c, f) && c.threshold >= PACKET_BYTES && FlowExec(c, f, steps).Some?
    ensures ProgressSteps(c, f, steps) + Measure(FlowExec(c, f, steps).value.ring)
            <= Measure(f.ring) + AddedBy(c, f, steps)
  {
    if steps != [] {
      var front, step := steps[..|steps| - 1], steps[|steps| - 1];
      var g := FlowExec(c, f, front).value;
      ProgressIsBounded(c, f, front);
      var _ := FlowRunRefinesRun(c, f, front);
      if IsProgress(g, step) {
        ProgressDecreases(g.ring, step.step);
      } else {
        OthersAdd(c, g, step);
      }
    }
  }

  /** Where no progress step is left, every announced word is credited. */
  lemma NoProgressLeft(s: State)
    requires Inv(s) && forall step :: !Progress(s, step)
    ensures InTransit(s) == 0 && Occupancy(s) == s.unannounced
  {
    OccupancySplit(s);
    if InTransit(s) > 0 {
      var step := TransitHasProgress(s);
    }
  }

  /** With the defaults a stall ends: when the progress steps are exhausted, after
      boundedly many, the FPGA is not nearly full. */
  lemma StallEnds(pages: nat, f: Flow, steps: seq<FlowStep>)
    requires 1 <= pages < 0x10_0000 && FlowInv(DefaultConfig(pages), f)
    requires FlowExec(DefaultConfig(pages), f, steps).Some?
    requires forall step :: !Progress(FlowExec(DefaultConfig(pages), f, steps).value.ring, step)
    ensures !NearlyFull(DefaultConfig(pages), FlowExec(DefaultConfig(pages), f, steps).value.ring)
    ensures ProgressSteps(DefaultConfig(pages), f, steps) <= Measure(f.ring) + AddedBy(DefaultConfig(pages), f, steps)
  {
    var c := DefaultConfig(pages);
    var _ := FlowRunRefinesRun(c, f, steps);
    NoProgressLeft(FlowExec(c, f, steps).value.ring);
    DefaultsLeaveRoom(pages);
    if NearlyFull(c, FlowExec(c, f, steps).value.ring) {
      NearlyFullHasWordsInTransit(c, FlowExec(c, f, steps).value);
    }
    ProgressIsBounded(c, f, steps);
  }
}
