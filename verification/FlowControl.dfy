/** Flow control of the FPGA on top of the ring protocol: packets of at most 62
    quad words, the nearly-full threshold and the notification frequency, with
    the default values of src/nhtl-extoll/configure_fpga.cpp. */
module FlowControl {
  import opened Wrappers
  import opened Bits
  import opened RingProtocol
  import opened RingRuns

  const PACKET_WORDS: nat := 62
  const PAGE_BYTES: nat := 4096

  /** Ring configuration registers: bytes, bytes and packets. */
  datatype Config = Config(capacity: nat, threshold: nat, frequency: nat)

  /** Ring size in bytes and in quad words. */
  function SizeBytes(pages: nat): nat { pages * PAGE_BYTES }

  function SizeWords(pages: nat): nat { SizeBytes(pages) / 8 }

  /** The default configuration, with the unsigned 64-bit subtraction and the
      truncations to 32 bits written out. */
  function DefaultConfig(pages: nat): Config {
    Config(SizeBytes(pages) % TWO_32, 0x7c0, ((SizeWords(pages) / 62 - 8) % TWO_64) % TWO_32)
  }

  /** The defaults for every page count: the unsigned subtraction wraps around for
      an empty ring only and gives 0 for one page only; the size fits its register
      below 2^20 pages and the frequency up to 31 * 2^24; and the announced part
      of a ring always leaves twice the threshold. */
  lemma DefaultConfigExact(pages: nat)
    ensures DefaultConfig(pages).capacity == SizeBytes(pages) <==> pages < 0x10_0000
    ensures SizeWords(pages) / 62 - 8 >= 0 <==> pages >= 1
    ensures SizeWords(pages) / 62 - 8 == 0 <==> pages == 1
    ensures DefaultConfig(pages).frequency == SizeWords(pages) / 62 - 8 <==> 1 <= pages <= 0x1f00_0000
    ensures DefaultConfig(pages).threshold == 4 * 62 * 8
    ensures pages >= 1 ==>
              DefaultConfig(pages).frequency * 62 * 8 + 2 * DefaultConfig(pages).threshold <= SizeBytes(pages)
  {
    assert SizeBytes(pages) == pages * 4096;
    assert SizeWords(pages) == pages * 512;
    if pages == 0 {
      assert SizeWords(pages) / 62 - 8 == -8;
      assert (-8) % TWO_64 == TWO_64 - 8;
    } else {
      RemaindersBelow(SizeWords(pages) / 62 - 8);
    }
  }

  /** Cutting a number to 64 and then to 32 bits never makes it larger. */
  lemma RemaindersBelow(x: nat)
    ensures x % TWO_64 % TWO_32 <= x
    ensures x % TWO_64 % TWO_32 == x <==> x < TWO_32
  {
  }

  /** The FPGA's flow-control state: packets begun since its last announcement
      and words in the packet it is sending (0 when none is open). */
  datatype Flow = Flow(ring: State, packets: nat, open: nat)

  datatype FlowStep =
    | OpenPacket(first: Word)
    | Continue(next: Word)
    | AnnounceAll(tag: nat)
    | Other(step: Step)

  /** Free bytes of the ring in the FPGA's own accounting. */
  function FreeBytes(c: Config, s: State): int { c.capacity - 8 * Occupancy(s) }

  /** Nearly full, and free to begin a packet. Both hold when exactly the
      threshold is free, so either reading of the threshold is covered. */
  predicate NearlyFull(c: Config, s: State) { FreeBytes(c, s) <= c.threshold }

  predicate MayOpen(c: Config, s: State) { FreeBytes(c, s) >= c.threshold }

  /** The FPGA looks at the threshold only when it begins a packet, and announces
      once `frequency` packets have been sent or, by timeout, at any time before;
      a frequency of 0 leaves room for no packet. */
  predicate FlowEnabled(c: Config, f: Flow, step: FlowStep)
    requires WellFormed(f.ring)
  {
    match step
    case OpenPacket(_) => f.packets < c.frequency && MayOpen(c, f.ring)
    case Continue(_) => 0 < f.open < PACKET_WORDS
    case AnnounceAll(tag) => 0 < f.ring.unannounced < TWO_32 && tag < TWO_32
    case Other(step) => Enabled(f.ring, step) && !step.Write? && !step.Announce?
  }

  /** The protocol step a flow-control step is. */
  function Project(f: Flow, step: FlowStep): Step {
    match step
    case OpenPacket(word) => Write(word)
    case Continue(word) => Write(word)
    case AnnounceAll(tag) => Announce(f.ring.unannounced, tag)
    case Other(step) => step
  }

  function FlowApply(f: Flow, step: FlowStep): Flow
    requires WellFormed(f.ring) && Enabled(f.ring, Project(f, step))
  {
    var ring := Apply(f.ring, Project(f, step));
    match step
    case OpenPacket(_) => Flow(ring, f.packets + 1, 1)
    case Continue(_) => Flow(ring, f.packets, f.open + 1)
    case AnnounceAll(_) => Flow(ring, 0, 0)
    case Other(_) => Flow(ring, f.packets, f.open)
  }

  ghost predicate FlowInv(c: Config, f: Flow) {
    && Inv(f.ring)
    && c.capacity == 8 * f.ring.size
    && f.packets <= c.frequency
    && (f.packets == 0 <==> f.open == 0)
    && (f.packets > 0 ==> f.ring.unannounced > 0)
    && f.open <= PACKET_WORDS
    && f.ring.unannounced <= (if f.packets == 0 then 0 else PACKET_WORDS * (f.packets - 1) + f.open)
    && (f.open > 0 ==> Occupancy(f.ring) + PACKET_WORDS - f.open <= f.ring.size)
  }

  /** Checking the threshold once per packet is enough: an FPGA configured with
      at least one packet of threshold never writes without credit, so every
      flow-controlled run is a run of the protocol. */
  lemma FlowRefinesProtocol(c: Config, f: Flow, step: FlowStep)
    requires FlowInv(c, f) && c.threshold >= 8 * PACKET_WORDS
    requires FlowEnabled(c, f, step)
    ensures Enabled(f.ring, Project(f, step))
    ensures FlowInv(c, FlowApply(f, step))
    ensures FlowApply(f, step).ring == Apply(f.ring, Project(f, step))
  {
    StepKeepsInv(f.ring, Project(f, step));
    OccupancyStep(f.ring, Project(f, step));
  }

  /** Only writes raise the occupancy; only FPGA steps touch the unannounced words. */
  lemma OccupancyStep(s: State, step: Step)
    requires Inv(s) && Enabled(s, step)
    ensures Apply(s, step).size == s.size
    ensures Occupancy(Apply(s, step)) <= Occupancy(s) + (if step.Write? then 1 else 0)
    ensures !step.Write? && !step.Announce? ==> Apply(s, step).unannounced == s.unannounced
  {
  }

  /** A run of the flow-controlled system. */
  function FlowExec(c: Config, f: Flow, steps: seq<FlowStep>): (g: Option<Flow>)
    requires WellFormed(f.ring)
    ensures g.Some? ==> WellFormed(g.value.ring)
  {
    if steps == [] then Some(f)
    else
      var before := FlowExec(c, f, steps[..|steps| - 1]);
      var step := steps[|steps| - 1];
      if before.Some? && FlowEnabled(c, before.value, step) && Enabled(before.value.ring, Project(before.value, step))
      then Some(FlowApply(before.value, step))
      else None
  }

  lemma FlowStart(pages: nat, start: State)
    requires pages < 0x10_0000 && Start(start) && start.size == SizeWords(pages)
    ensures FlowInv(DefaultConfig(pages), Flow(start, 0, 0))
  {
    StartInv(start);
    CapacityOfWords(pages);
  }

  lemma CapacityOfWords(pages: nat)
    requires pages < 0x10_0000
    ensures DefaultConfig(pages).capacity == 8 * SizeWords(pages)
  {
  }

  /** Every flow-controlled run, projected step by step, is a run of the ring
      protocol ending in the same ring, and it keeps the flow-control invariant. */
  lemma {:induction false} FlowRunRefinesRun(c: Config, f: Flow, steps: seq<FlowStep>) returns (run: seq<Step>)
    requires FlowInv(c, f) && c.threshold >= 8 * PACKET_WORDS
    requires FlowExec(c, f, steps).Some?
    ensures FlowInv(c, FlowExec(c, f, steps).value)
    ensures |run| == |steps| && Exec(f.ring, run) == Some(FlowExec(c, f, steps).value.ring)
  {
    if steps == [] {
      run := [];
    } else {
      var front, step := steps[..|steps| - 1], steps[|steps| - 1];
      var g := FlowExec(c, f, front).value;
      run := FlowRunRefinesRun(c, f, front);
      FlowRefinesProtocol(c, g, step);
      ExecAppend(f.ring, run, Project(g, step));
      run := run + [Project(g, step)];
    }
  }

  /** The ring protocol never stops the FPGA: after any run, a step that flow
      control allows is one the protocol allows, and continues the run. */
  lemma FlowRunExtends(c: Config, f: Flow, steps: seq<FlowStep>, step: FlowStep)
    requires FlowInv(c, f) && c.threshold >= 8 * PACKET_WORDS
    requires FlowExec(c, f, steps).Some? && FlowEnabled(c, FlowExec(c, f, steps).value, step)
    ensures FlowExec(c, f, steps + [step]).Some?
  {
    var _ := FlowRunRefinesRun(c, f, steps);
    FlowRefinesProtocol(c, FlowExec(c, f, steps).value, step);
    assert (steps + [step])[..|steps|] == steps;
  }
}
