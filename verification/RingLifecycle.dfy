/** Beginning and end of an epoch: `TraceBufferInit` followed by
    `RingBuffer::reset`, and the final synchronisation of the destructor. */
module RingLifecycle {
  import opened Wrappers
  import opened Bits
  import opened Notifications
  import opened RingProtocol
  import opened RingRuns

  /** Runs in which only the FPGA, the network and the poller thread move. */
  ghost predicate HostIdle(steps: seq<Step>) {
    forall step :: step in steps ==> !IsHostStep(step)
  }

  lemma HostIdleFront(steps: seq<Step>)
    requires HostIdle(steps) && steps != []
    ensures HostIdle(steps[..|steps| - 1]) && !IsHostStep(steps[|steps| - 1])
  {
    assert steps[|steps| - 1] in steps;
  }

  /** Words written but not yet handed to the ring buffer. */
  function Outstanding(s: State): nat { s.unannounced + Announced(s) + s.poller.packets }

  /** FPGA, network and poller neither create nor lose words or credits. */
  lemma IdleStepAccounting(s: State, step: Step)
    requires WellFormed(s) && Outstanding(s) < TWO_64
    requires !IsHostStep(step) && Enabled(s, step)
    ensures var t := Apply(s, step);
            && t.size == s.size
            && Outstanding(t) - |t.written| == Outstanding(s) - |s.written|
            && t.credited + CreditsInFlight(t) == s.credited + CreditsInFlight(s)
            && t.credited >= s.credited
            && (Occupancy(s) <= s.size ==> Occupancy(t) <= t.size)
  {
    match step
    case Announce(count, tag) =>
      AnnouncementWords(count, tag);
      QueueWordsAppend(s.poller.queue, Announcement(count, tag));
    case Respond(payload) =>
      QueueWordsAppend(s.poller.queue, Notification(RESPONSE_CLASS, payload));
    case Deliver =>
      assert s.posted[s.delivered..][1..] == s.posted[s.delivered + 1..];
    case Write(word) =>
    case Pick =>
  }

  /** FPGA, network and poller send only notifications of the two known classes. */
  lemma {:induction false} KnownStays(s: State, steps: seq<Step>)
    requires WellFormed(s) && HostIdle(steps) && Exec(s, steps).Some?
    requires forall n :: n in s.poller.queue ==> Known(n)
    ensures forall n :: n in Exec(s, steps).value.poller.queue ==> Known(n)
  {
    if steps != [] {
      HostIdleFront(steps);
      KnownStays(s, steps[..|steps| - 1]);
    }
  }

  /** Where everything has arrived, it stays so until the FPGA writes again. */
  lemma {:induction false} SettledStays(s: State, steps: seq<Step>)
    requires WellFormed(s) && HostIdle(steps) && Exec(s, steps).Some?
    requires Outstanding(s) == 0 && CreditsInFlight(s) == 0
    ensures var t := Exec(s, steps).value;
            |t.written| >= |s.written|
            && (|t.written| == |s.written| ==> Outstanding(t) == 0 && CreditsInFlight(t) == 0)
  {
    if steps != [] {
      var front := steps[..|steps| - 1];
      HostIdleFront(steps);
      SettledStays(s, front);
      var t := Exec(s, front).value;
      assert |Apply(t, steps[|steps| - 1]).written| >= |t.written|;
      if |Apply(t, steps[|steps| - 1]).written| == |s.written| {
        IdleStepAccounting(t, steps[|steps| - 1]);
      }
    }
  }

  // -------------------------------------------------------- initialisation

  /** The FPGA restarts its ring; both word streams start anew. */
  function FpgaInit(s: State): State {
    s.(written := [], writeIndex := 0, unannounced := 0, credited := 0, read := [])
  }

  /** The host clears its three counters and nothing else. */
  function HostReset(s: State): State {
    s.(readIndex := 0, readable := 0, readWords := 0)
  }

  /** Words and credits of the previous epoch that are still under way. */
  function StaleWords(s: State): nat { Announced(s) + s.poller.packets }

  lemma ResetCommutesWithStep(s: State, step: Step)
    requires WellFormed(s) && !IsHostStep(step) && Enabled(s, step)
    ensures Enabled(HostReset(s), step)
    ensures Apply(HostReset(s), step) == HostReset(Apply(s, step))
    ensures Apply(s, step).read == s.read
  {
  }

  /** Whatever happens between the init write and the reset happens in the same
      way when the reset comes first. */
  lemma {:induction false} ResetCommutes(s: State, steps: seq<Step>)
    requires WellFormed(s) && HostIdle(steps) && Exec(s, steps).Some?
    ensures Exec(HostReset(s), steps) == Some(HostReset(Exec(s, steps).value))
    ensures Exec(s, steps).value.read == s.read
  {
    if steps != [] {
      var front := steps[..|steps| - 1];
      HostIdleFront(steps);
      ResetCommutes(s, front);
      ResetCommutesWithStep(Exec(s, front).value, steps[|steps| - 1]);
    }
  }

  /** Words and credits accounted for since the init write, stale ones included. */
  lemma {:induction false} StaleAccounting(s: State, steps: seq<Step>)
    requires WellFormed(s) && s.size < TWO_32
    requires StaleWords(s) < TWO_32 && CreditsInFlight(s) < TWO_32
    requires HostIdle(steps) && Exec(FpgaInit(s), steps).Some?
    ensures var t := Exec(FpgaInit(s), steps).value;
            && t.size == s.size
            && |t.written| + StaleWords(s) == Outstanding(t)
            && t.credited + CreditsInFlight(t) == CreditsInFlight(s)
            && |t.written| <= s.size + t.credited
  {
    if steps != [] {
      var front := steps[..|steps| - 1];
      var step := steps[|steps| - 1];
      HostIdleFront(steps);
      StaleAccounting(s, front);
      IdleStepAccounting(Exec(FpgaInit(s), front).value, step);
    }
  }

  lemma ResetIsStart(s: State)
    requires WellFormed(s) && s.size < TWO_32
    requires forall n :: n in s.poller.queue ==> Known(n)
    requires StaleWords(s) == 0 && CreditsInFlight(s) == 0
    ensures Start(HostReset(FpgaInit(s)))
  {
  }

  /** Re-initialisation is safe exactly when nothing of the previous epoch is
      still under way: whatever the FPGA, the network and the poller do between
      the init write and the reset, the protocol invariant holds after the reset
      if and only if there were no stale words and no stale credits. */
  lemma ReinitSafeIffNothingStale(s: State, steps: seq<Step>)
    requires WellFormed(s) && s.size < TWO_32
    requires forall n :: n in s.poller.queue ==> Known(n)
    requires StaleWords(s) < TWO_32 && CreditsInFlight(s) < TWO_32
    requires HostIdle(steps) && Exec(FpgaInit(s), steps).Some?
    ensures Inv(HostReset(Exec(FpgaInit(s), steps).value)) <==>
            StaleWords(s) == 0 && CreditsInFlight(s) == 0
  {
    ResetCommutes(FpgaInit(s), steps);
    StaleAccounting(s, steps);
    if StaleWords(s) == 0 && CreditsInFlight(s) == 0 {
      ResetIsStart(s);
      ReachableInv(HostReset(FpgaInit(s)), steps);
    }
  }

  /** A state with another poller. */
  function WithPoller(s: State, p: Poller): State { s.(poller := p) }

  lemma PickKeepsTotal(s: State)
    requires WellFormed(s) && StaleWords(s) < TWO_64 && Enabled(s, Pick)
    ensures StaleWords(Apply(s, Pick)) == StaleWords(s)
    ensures Apply(s, Pick) == WithPoller(s, Notifications.Pick(s.poller))
    ensures Apply(s, Pick).poller.queue == s.poller.queue[1..]
  {
  }

  /** The poller can take everything that is queued. */
  lemma {:induction false} PickAll(s: State) returns (run: seq<Step>, p: Poller)
    requires WellFormed(s) && StaleWords(s) < TWO_64
    requires forall n :: n in s.poller.queue ==> Known(n)
    ensures Exec(s, run) == Some(WithPoller(s, p))
    ensures p.queue == [] && p.packets == StaleWords(s)
    ensures forall step :: step in run ==> step == Pick
    decreases |s.poller.queue|
  {
    if s.poller.queue == [] {
      run, p := [], s.poller;
    } else {
      PickKeepsTotal(s);
      run, p := PickAll(Apply(s, Pick));
      ExecFirst(s, Pick, run);
      run := [Pick] + run;
    }
  }

  /** Stale words wherever they are, announced or counted, do harm: after the reset
      the host is handed a memory word although the FPGA has written none. */
  lemma StaleWordsYieldUnwrittenWord(s: State) returns (run: seq<Step>)
    requires WellFormed(s) && 0 < StaleWords(s) < TWO_64
    requires forall n :: n in s.poller.queue ==> Known(n)
    ensures Exec(HostReset(FpgaInit(s)), run).Some?
    ensures Exec(HostReset(FpgaInit(s)), run).value.written == []
    ensures Exec(HostReset(FpgaInit(s)), run).value.read == [s.memory[0]]
  {
    var t := HostReset(FpgaInit(s));
    var picks, _ := PickAll(t);
    ExecAppend(t, picks, Poll);
    ExecAppend(t, picks + [Poll], Read);
    run := picks + [Poll] + [Read];
  }

  /** The FPGA can receive every credit under way. */
  lemma {:induction false} DeliverAll(s: State) returns (run: seq<Step>)
    requires WellFormed(s)
    ensures Exec(s, run).Some?
    ensures Exec(s, run).value == s.(credited := s.credited + CreditsInFlight(s), delivered := |s.posted|)
    decreases |s.posted| - s.delivered
  {
    if s.delivered == |s.posted| {
      run := [];
    } else {
      assert s.posted[s.delivered..][1..] == s.posted[s.delivered + 1..];
      var rest := DeliverAll(Apply(s, Deliver));
      ExecFirst(s, Deliver, rest);
      run := [Deliver] + rest;
    }
  }

  /** The FPGA can write as many words as it has credit for. */
  lemma {:induction false} WriteMany(s: State, n: nat) returns (run: seq<Step>)
    requires WellFormed(s) && s.writeIndex == |s.written| % s.size && Occupancy(s) + n <= s.size
    ensures Exec(s, run).Some? && forall step :: step in run ==> step.Write?
    ensures var t := Exec(s, run).value;
            && |t.written| == |s.written| + n && t.writeIndex == |t.written| % t.size
            && t.size == s.size && t.read == s.read && t.credited == s.credited
    decreases n
  {
    if n == 0 {
      run := [];
    } else {
      NextSlot(|s.written|, s.size);
      var rest := WriteMany(Apply(s, Write(0)), n - 1);
      ExecFirst(s, Write(0), rest);
      run := [Write(0)] + rest;
    }
  }

  /** Stale credits do harm as well: after the reset there is a run in which the
      FPGA, still holding credit, is about to overwrite a word nobody has read. */
  lemma StaleCreditOverwrites(s: State) returns (run: seq<Step>)
    requires WellFormed(s) && CreditsInFlight(s) > 0
    ensures Exec(HostReset(FpgaInit(s)), run).Some?
    ensures var t := Exec(HostReset(FpgaInit(s)), run).value;
            && (forall word :: Enabled(t, Write(word)))
            && t.read == [] && t.written != [] && t.writeIndex == 0
  {
    var t := HostReset(FpgaInit(s));
    var deliveries := DeliverAll(t);
    var writes := WriteMany(Exec(t, deliveries).value, s.size);
    ExecConcat(t, deliveries, writes);
    run := deliveries + writes;
    ModIsUnique(s.size, s.size, 1, 0);
  }

  // -------------------------------------------------------------- shutdown

  /** The destructor after its drain loop: drained words advance the read index
      but not the count of read words, and that count is sent as last credit. */
  function Shutdown(s: State): State
    requires WellFormed(s)
  {
    s.(readIndex := s.readIndex + s.readable, readable := 0,
       posted := s.posted + [Credit(s.readWords)], readWords := 0)
  }

  /** The variant its documentation intends: drained words are credited as well. */
  function IntendedShutdown(s: State): State
    requires WellFormed(s)
  {
    s.(readIndex := s.readIndex + s.readable, readable := 0,
       posted := s.posted + [Credit(s.readWords + s.readable)], readWords := 0)
  }

  /** Words the FPGA counts as occupied that nobody will ever credit. */
  predicate Leaks(t: State, words: nat)
    requires WellFormed(t)
  {
    Occupancy(t) == Outstanding(t) + CreditsInFlight(t) + words
  }

  lemma {:induction false} LeakIsPermanent(s: State, words: nat, steps: seq<Step>)
    requires WellFormed(s) && s.size < TWO_32 && Leaks(s, words) && Occupancy(s) <= s.size
    requires HostIdle(steps) && Exec(s, steps).Some?
    ensures var t := Exec(s, steps).value; t.size == s.size && Leaks(t, words) && Occupancy(t) <= t.size
  {
    if steps != [] {
      var front := steps[..|steps| - 1];
      HostIdleFront(steps);
      LeakIsPermanent(s, words, front);
      IdleStepAccounting(Exec(s, front).value, steps[|steps| - 1]);
    }
  }

  /** As written, the last credit carries only the words read before, so the
      drained words stay uncredited for ever: once everything has settled the
      FPGA lacks exactly them. It recovers its full credit if and only if the
      drain loop found nothing. */
  lemma ShutdownLeaksDrainedWords(s: State, steps: seq<Step>)
    requires Inv(s) && HostIdle(steps) && Exec(Shutdown(s), steps).Some?
    ensures var t := Exec(Shutdown(s), steps).value;
            && Leaks(t, s.readable)
            && (Quiescent(t) ==> Occupancy(t) == s.readable && (Occupancy(t) == 0 <==> s.readable == 0))
  {
    PostedCredit(s, s.readWords);
    LeakIsPermanent(Shutdown(s), s.readable, steps);
  }

  /** A single queued notification is counted and polled. */
  lemma PickAndPoll(s: State, n: Notification)
    requires WellFormed(s) && s.poller.queue == [n] && Known(n)
    requires s.poller.packets == 0 && s.readable == 0
    ensures Exec(s, [Pick, Poll]).Some? && Exec(s, [Pick, Poll]).value.readable == Words(n)
  {
    TwoSteps(s, Pick, Poll, []);
    assert [Pick, Poll] + [] == [Pick, Poll];
  }

  /** One word written, announced, picked up and polled. */
  lemma OneWordCounted(start: State, word: Word)
    requires Start(start) && start.poller.queue == []
    ensures Exec(start, [Write(word), Announce(1, 0), Pick, Poll]).Some?
    ensures Exec(start, [Write(word), Announce(1, 0), Pick, Poll]).value.readable == 1
  {
    TwoSteps(start, Write(word), Announce(1, 0), [Pick, Poll]);
    assert [Write(word), Announce(1, 0)] + [Pick, Poll] == [Write(word), Announce(1, 0), Pick, Poll];
    AnnouncementWords(1, 0);
    PickAndPoll(Apply(Apply(start, Write(word)), Announce(1, 0)), Announcement(1, 0));
  }

  lemma TwoSteps(s: State, first: Step, second: Step, rest: seq<Step>)
    requires WellFormed(s) && Enabled(s, first) && Enabled(Apply(s, first), second)
    ensures Exec(s, [first, second] + rest) == Exec(Apply(Apply(s, first), second), rest)
  {
    ExecFirst(s, first, [second] + rest);
    ExecFirst(Apply(s, first), second, rest);
    assert [first, second] + rest == [first] + ([second] + rest);
  }

  /** The leak is real: from every empty ring a single word, announced, picked up
      and polled, is lost to the FPGA for ever when the ring is destroyed. */
  lemma DrainedWordIsLost(start: State, word: Word, steps: seq<Step>)
    requires Start(start) && start.poller.queue == []
    requires HostIdle(steps)
    ensures var last := Exec(start, [Write(word), Announce(1, 0), Pick, Poll]);
            && last.Some? && last.value.readable == 1
            && (Exec(Shutdown(last.value), steps).Some? ==> Leaks(Exec(Shutdown(last.value), steps).value, 1))
  {
    OneWordCounted(start, word);
    var run := [Write(word), Announce(1, 0), Pick, Poll];
    ReachableInv(start, run);
    if Exec(Shutdown(Exec(start, run).value), steps).Some? {
      ShutdownLeaksDrainedWords(Exec(start, run).value, steps);
    }
  }

  /** Runs like the drain loop with an FPGA that writes nothing meanwhile: it may
      still announce, and credits, responses and polls come and go. */
  ghost predicate Quiet(steps: seq<Step>) {
    forall step :: step in steps ==> !step.Write? && !step.Read? && !step.Notify?
  }

  lemma {:induction false} QuietKeepsStreams(s: State, steps: seq<Step>)
    requires Inv(s) && Quiet(steps) && Exec(s, steps).Some?
    ensures var t := Exec(s, steps).value;
            Inv(t) && t.written == s.written && t.read == s.read
  {
    if steps != [] {
      var front, step := steps[..|steps| - 1], steps[|steps| - 1];
      assert step in steps;
      QuietKeepsStreams(s, front);
      StepKeepsInv(Exec(s, front).value, step);
    }
  }

  /** Everything written can be announced. */
  lemma AnnounceRest(s: State) returns (run: seq<Step>)
    requires Inv(s)
    ensures (forall step :: step in run ==> step.Announce?) && Exec(s, run).Some?
    ensures var t := Exec(s, run).value;
            Inv(t) && t.unannounced == 0 && t.readable == s.readable && t.written == s.written && t.read == s.read
  {
    if s.unannounced == 0 {
      run := [];
    } else {
      run := [Announce(s.unannounced, 0)];
      ExecAppend(s, [], Announce(s.unannounced, 0));
      assert [] + run == run;
      StepKeepsInv(s, Announce(s.unannounced, 0));
    }
  }

  /** Everything outstanding can become readable without another word written. */
  lemma DrainEverything(s: State) returns (run: seq<Step>)
    requires Inv(s)
    ensures Quiet(run) && Exec(s, run).Some?
    ensures Exec(s, run).value.readable == s.readable + Outstanding(s)
  {
    var first := AnnounceRest(s);
    var t := Exec(s, first).value;
    var picks, p := PickAll(t);
    ExecConcat(s, first, picks);
    run := first + picks;
    QuietKeepsStreams(s, run);
    CountersExact(WithPoller(t, p));
    ExecAppend(s, run, Poll);
    run := run + [Poll];
  }

  /** Whether the destructor can lose credit is decided before it is called: with an
      FPGA that writes nothing meanwhile, no course of the drain loop ends with words
      to drop if and only if nothing is outstanding. */
  lemma DrainLosesNothingIff(s: State)
    requires Inv(s) && s.readable == 0
    ensures (forall steps :: Quiet(steps) && Exec(s, steps).Some? ==> Exec(s, steps).value.readable == 0)
            <==> Outstanding(s) == 0
  {
    if Outstanding(s) == 0 {
      forall steps | Quiet(steps) && Exec(s, steps).Some?
        ensures Exec(s, steps).value.readable == 0
      {
        QuietKeepsStreams(s, steps);
      }
    } else {
      var run := DrainEverything(s);
    }
  }

  /** The intended variant conserves every credit. */
  lemma IntendedShutdownConserves(s: State, steps: seq<Step>)
    requires Inv(s) && HostIdle(steps)
    requires Exec(IntendedShutdown(s), steps).Some?
    ensures var t := Exec(IntendedShutdown(s), steps).value;
            Leaks(t, 0) && (Quiescent(t) ==> Occupancy(t) == 0)
  {
    PostedCredit(s, s.readWords + s.readable);
    LeakIsPermanent(IntendedShutdown(s), 0, steps);
  }

  lemma PostedCredit(s: State, words: nat)
    requires WellFormed(s) && words < TWO_48
    ensures CreditSum((s.posted + [Credit(words)])[s.delivered..]) == CreditsInFlight(s) + words
  {
    CreditRoundTrip(words);
    CreditSumAppend(s.posted[s.delivered..], Credit(words));
    assert (s.posted + [Credit(words)])[s.delivered..] == s.posted[s.delivered..] + [Credit(words)];
  }
}
