/** `configure_fpga` on registers and rings together: the register sequence, the
    restart of the FPGA's trace ring by the trace init write, and the host's resets,
    with FPGA, network and poller moving in between. */
module Startup {
  import opened Bits
  import opened Notifications
  import opened RingProtocol
  import opened RingRuns
  import opened RingLifecycle
  import opened RingHost
  import opened CreditSchedule
  import opened EndpointHost
  import Registers
  import RegisterAccess
  import Configuration

  /** Every word written has been handed over and every credit has arrived. */
  predicate Settled(s: State)
    requires WellFormed(s)
  {
    Outstanding(s) == 0 && CreditsInFlight(s) == 0
  }

  /** The history of a ring begins anew where it stands. */
  ghost method BeginHistory(ring: RingBuffer)
    requires WellFormed(ring.Snapshot()) && ring.buffer.Length == ring.sizeWords
    modifies ring`base, ring`trace
    ensures ring.Snapshot() == old(ring.Snapshot()) == ring.base && ring.trace == [] && ring.Tracked()
  {
    ring.base := ring.Snapshot();
    ring.trace := [];
  }

  /** What the moves since the history began make of the queue and of a settled state. */
  lemma BeforeInit(base: State, trace: seq<Step>)
    requires WellFormed(base) && Exec(base, trace).Some? && HostSteps(trace) == []
    requires forall n :: n in base.poller.queue ==> Known(n)
    ensures var t := Exec(base, trace).value;
            && (forall n :: n in t.poller.queue ==> Known(n))
            && (Settled(base) && |t.written| == |base.written| ==> NothingStale(t))
  {
    NoHostSteps(trace);
    KnownStays(base, trace);
    if Settled(base) {
      SettledStays(base, trace);
    }
  }

  /** The configuration up to the trace init write. As the registers and the ring have
      nothing in common but the init write and the resets, interference between two
      accesses is the same as interference before or after them. */
  method PrepareRings(e: Endpoint, trace: RingBuffer, w: Configuration.HostWords,
                      ghost base: map<nat, Registers.Raw>, ghost start: nat)
    requires Configuration.Configuring(e, base, start)
    requires WellFormed(trace.Snapshot()) && trace.buffer.Length == trace.sizeWords
    requires forall n :: n in trace.fabric.inbox ==> Known(n)
    modifies e`registers, e`requests, e`completions, e`log, e.buffer
    modifies trace`base, trace`trace, trace.fabric, trace.buffer, trace.poller
    ensures Configuration.Configuring(e, base, start)
    ensures e.log == old(e.log) + Configuration.BeforeHicannInit(w)
    ensures WellFormed(trace.Snapshot()) && forall n :: n in trace.fabric.inbox ==> Known(n)
    ensures Settled(old(trace.Snapshot())) && |trace.fabric.written| == |old(trace.fabric.written)| ==>
              NothingStale(trace.Snapshot())
  {
    BeginHistory(trace);
    trace.fabric.Interfere(trace);
    BeforeInit(trace.base, trace.trace);
    Configuration.ConfigureRings(e, w, base, start);
    Configuration.Write(e, Configuration.TRACE_INIT, w.flag, base, start);
  }

  /** From the trace init write, which restarts the FPGA's ring, to the resets. */
  method StartRings(e: Endpoint, hicann: RingBuffer, trace: RingBuffer, w: Configuration.HostWords,
                    ghost base: map<nat, Registers.Raw>, ghost start: nat)
    requires Configuration.Configuring(e, base, start)
    requires WellFormed(trace.Snapshot()) && trace.buffer.Length == trace.sizeWords < TWO_32
    requires forall n :: n in trace.fabric.inbox ==> Known(n)
    modifies e`registers, e`requests, e`completions, e`log, e`resets, e.buffer
    modifies hicann`readIndex, hicann`readable, hicann`readWords
    modifies trace, trace.fabric, trace.buffer, trace.poller
    ensures Configuration.Configuring(e, base, start)
    ensures e.log == old(e.log) + [RegisterAccess.Put(Configuration.HICANN_INIT, w.flag)]
    ensures e.resets == old(e.resets) + [|e.log|]
    ensures trace.Tracked() && (NothingStale(old(trace.Snapshot())) ==> trace.Ready())
    ensures hicann.readIndex == hicann.readable == hicann.readWords == 0
  {
    ghost var before := trace.Snapshot();
    RestartFpga(trace);
    trace.fabric.Interfere(trace);
    Configuration.Write(e, Configuration.HICANN_INIT, w.flag, base, start);
    NoHostSteps(trace.trace);
    Configuration.ResetRings(e, hicann, trace);
    Rebase(trace, before);
  }

  /** The accesses after the resets. */
  method FinishRings(e: Endpoint, trace: RingBuffer, w: Configuration.HostWords,
                     ghost base: map<nat, Registers.Raw>, ghost start: nat)
    requires Configuration.Configuring(e, base, start) && Configuration.INFO in base
    requires e.log[start..] == Configuration.BeforeReset(w) && trace.Tracked()
    modifies e`registers, e`requests, e`completions, e`log, e.buffer
    modifies trace`trace, trace.fabric, trace.buffer, trace.poller
    ensures e.log == old(e.log)
                     + Configuration.AfterReset(w, Registers.OrInto(base[Configuration.INFO], Registers.NDID, e.node))
    ensures trace.Tracked() && (old(trace.Ready()) ==> trace.Ready())
    ensures Configuration.Configuring(e, base, start)
  {
    trace.fabric.Interfere(trace);
    Configuration.Finish(e, w, base, start);
    trace.fabric.Interfere(trace);
  }

  /** The whole configuration. `atInit` is the state of the trace ring at its init
      write: with nothing stale there the ring is ready for use afterwards, and
      nothing is stale there if everything had arrived before the call and the FPGA
      has written nothing since. */
  method ConfigureAndStart(e: Endpoint, hicann: RingBuffer, trace: RingBuffer, c: Configuration.HostConfig)
    returns (ghost atInit: State)
    requires e.Wired() && RegisterAccess.Surplus(e.View()) == 0 && Configuration.INFO in e.registers
    requires WellFormed(trace.Snapshot()) && trace.buffer.Length == trace.sizeWords < TWO_32
    requires forall n :: n in trace.fabric.inbox ==> Known(n)
    modifies e`registers, e`requests, e`completions, e`log, e`resets, e.buffer
    modifies hicann`readIndex, hicann`readable, hicann`readWords
    modifies trace, trace.fabric, trace.buffer, trace.poller
    ensures e.log == old(e.log) + Configuration.Script(Configuration.Encode(c),
                       Registers.OrInto(old(e.registers)[Configuration.INFO], Registers.NDID, e.node))
    ensures e.resets == old(e.resets) + [|old(e.log) + Configuration.BeforeReset(Configuration.Encode(c))|]
    ensures Configuration.Configuring(e, old(e.registers), |old(e.log)|)
    ensures hicann.readIndex == hicann.readable == hicann.readWords == 0
    ensures WellFormed(atInit) && (NothingStale(atInit) ==> trace.Ready())
    ensures Settled(old(trace.Snapshot())) && |atInit.written| == |old(trace.fabric.written)| ==> NothingStale(atInit)
  {
    ghost var base, start := e.registers, |e.log|;
    var w := Configuration.Encode(c);
    PrepareRings(e, trace, w, base, start);
    atInit := trace.Snapshot();
    StartRings(e, hicann, trace, w, base, start);
    assert e.log == old(e.log) + Configuration.BeforeReset(w);
    FinishRings(e, trace, w, base, start);
    ghost var info := Registers.OrInto(base[Configuration.INFO], Registers.NDID, e.node);
    Configuration.Regroup(old(e.log), Configuration.BeforeReset(w), Configuration.AfterReset(w, info));
  }
}
