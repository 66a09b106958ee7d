/** Which rings can make `RingBuffer::receive` post a credit above the documented
    maximum: how many words one `receive` can return from a ring. */
module CreditBound {
  import opened Wrappers
  import opened Bits
  import opened Notifications
  import opened RingProtocol
  import opened RingRuns
  import opened RingLifecycle
  import opened CreditSchedule
  import FlowControl

  /** A run in which the host performs one `receive` of n words. */
  ghost predicate ReceiveRun(start: State, run: seq<Step>, n: nat)
    requires WellFormed(start)
  {
    Exec(start, run).Some? && HostSteps(run) == ReceiveScript(n)
  }

  ghost predicate CanReceive(start: State, n: nat)
    requires WellFormed(start)
  {
    exists run :: ReceiveRun(start, run, n)
  }

  // ----------------------------------------------------------- upper bound

  function Polls(steps: seq<Step>): nat {
    if steps == [] then 0
    else Polls(steps[..|steps| - 1]) + (if steps[|steps| - 1].Poll? then 1 else 0)
  }

  function Reads(steps: seq<Step>): nat {
    if steps == [] then 0
    else Reads(steps[..|steps| - 1]) + (if steps[|steps| - 1].Read? then 1 else 0)
  }

  lemma {:induction false} CountsConcat(a: seq<Step>, b: seq<Step>)
    ensures Polls(a + b) == Polls(a) + Polls(b) && Reads(a + b) == Reads(a) + Reads(b)
  {
    if b == [] {
      assert a + b == a;
    } else {
      assert (a + b)[..|a + b| - 1] == a + b[..|b| - 1];
      CountsConcat(a, b[..|b| - 1]);
    }
  }

  lemma CountsOfOne(step: Step)
    ensures Polls([step]) == (if step.Poll? then 1 else 0) && Reads([step]) == (if step.Read? then 1 else 0)
  {
    assert [step][..0] == [];
  }

  lemma {:induction false} CountsOfHostSteps(steps: seq<Step>)
    ensures Polls(HostSteps(steps)) == Polls(steps) && Reads(HostSteps(steps)) == Reads(steps)
  {
    if steps != [] {
      var front, step := steps[..|steps| - 1], steps[|steps| - 1];
      CountsOfHostSteps(front);
      CountsConcat(HostSteps(front), if IsHostStep(step) then [step] else []);
      CountsOfOne(step);
    }
  }

  lemma {:induction false} CountsOfDrain(n: nat)
    ensures Polls(DrainScript(n)) == 0 && Reads(DrainScript(n)) == n
  {
    if n > 0 {
      var last: seq<Step> := if n % BATCH == 0 then [Notify] else [];
      CountsOfDrain(n - 1);
      CountsConcat(DrainScript(n - 1), [Read]);
      CountsConcat(DrainScript(n - 1) + [Read], last);
      CountsOfOne(Read);
      CountsOfOne(Notify);
    }
  }

  lemma CountsOfReceive(n: nat)
    ensures Polls(ReceiveScript(n)) == 1 && Reads(ReceiveScript(n)) == n
  {
    CountsOfDrain(n);
    CountsConcat([Poll], DrainScript(n));
    CountsConcat([Poll] + DrainScript(n), [Notify]);
    CountsOfOne(Poll);
    CountsOfOne(Notify);
  }

  lemma StepReadable(s: State, step: Step)
    requires Inv(s) && Enabled(s, step)
    ensures Apply(s, step).size == s.size
    ensures Apply(s, step).readable + (if step.Read? then 1 else 0) <= s.readable + (if step.Poll? then s.size else 0)
  {
    CountersExact(s);
  }

  lemma OneMore(k: nat, size: nat)
    ensures (k + 1) * size == k * size + size
  {
  }

  /** Every poll adds at most a ring of words. */
  lemma {:induction false} PollsBoundReads(start: State, steps: seq<Step>)
    requires Start(start) && Exec(start, steps).Some?
    ensures Exec(start, steps).value.size == start.size
    ensures Reads(steps) + Exec(start, steps).value.readable <= Polls(steps) * start.size
  {
    if steps != [] {
      var front := steps[..|steps| - 1];
      PollsBoundReads(start, front);
      ReachableInv(start, front);
      StepReadable(Exec(start, front).value, steps[|steps| - 1]);
      OneMore(Polls(front), start.size);
    }
  }

  lemma ReceiveFitsRing(start: State, n: nat)
    requires Start(start) && CanReceive(start, n)
    ensures n <= start.size
  {
    var run :| ReceiveRun(start, run, n);
    CountsOfHostSteps(run);
    CountsOfReceive(n);
    PollsBoundReads(start, run);
  }

  // ----------------------------------------------------------- lower bound

  lemma {:induction false} OnlyHostSteps(steps: seq<Step>)
    requires forall step :: step in steps ==> IsHostStep(step)
    ensures HostSteps(steps) == steps
  {
    if steps != [] {
      assert steps[|steps| - 1] in steps;
      OnlyHostSteps(steps[..|steps| - 1]);
    }
  }

  lemma {:induction false} DrainIsHosts(n: nat)
    ensures forall step :: step in DrainScript(n) ==> IsHostStep(step)
  {
    if n > 0 {
      DrainIsHosts(n - 1);
    }
  }

  lemma RunStep(s: State, steps: seq<Step>, step: Step)
    requires WellFormed(s) && Exec(s, steps).Some?
    requires Inv(Exec(s, steps).value) && Enabled(Exec(s, steps).value, step)
    ensures Exec(s, steps + [step]) == Some(Apply(Exec(s, steps).value, step))
    ensures Inv(Exec(s, steps + [step]).value)
  {
    ExecAppend(s, steps, step);
    StepKeepsInv(Exec(s, steps).value, step);
  }

  /** The drain loop of n words can be taken step by step. */
  lemma {:induction false} DrainRuns(s: State, n: nat)
    requires Inv(s) && n <= s.readable
    ensures Exec(s, DrainScript(n)).Some?
    ensures var t := Exec(s, DrainScript(n)).value; Inv(t) && t.readable == s.readable - n
  {
    if n > 0 {
      DrainRuns(s, n - 1);
      CountersExact(Exec(s, DrainScript(n - 1)).value);
      RunStep(s, DrainScript(n - 1), Read);
      if n % BATCH == 0 {
        RunStep(s, DrainScript(n - 1) + [Read], Notify);
      } else {
        assert DrainScript(n) == DrainScript(n - 1) + [Read];
      }
    }
  }

  lemma {:induction false} HostIdleKeepsReadable(s: State, steps: seq<Step>)
    requires WellFormed(s) && HostIdle(steps) && Exec(s, steps).Some?
    ensures Exec(s, steps).value.readable == s.readable
  {
    if steps != [] {
      HostIdleFront(steps);
      HostIdleKeepsReadable(s, steps[..|steps| - 1]);
    }
  }

  /** Any number of words that fits the ring can be announced. */
  lemma WordsAnnounced(start: State, n: nat) returns (run: seq<Step>)
    requires Start(start) && n <= start.size
    ensures HostIdle(run) && Exec(start, run).Some?
    ensures var t := Exec(start, run).value; Inv(t) && StaleWords(t) == n && t.readable == 0
  {
    var writes := WriteMany(start, n);
    var s := Exec(start, writes).value;
    ReachableInv(start, writes);
    HostIdleKeepsReadable(start, writes);
    var rest := AnnounceRest(s);
    ExecConcat(start, writes, rest);
    run := writes + rest;
  }

  /** The poller thread can count them, and the host can poll them. */
  lemma WordsPolled(s: State, n: nat) returns (picks: seq<Step>)
    requires Inv(s) && StaleWords(s) == n && s.readable == 0
    ensures HostIdle(picks) && Exec(s, picks + [Poll]).Some?
    ensures var t := Exec(s, picks + [Poll]).value; Inv(t) && t.readable == n
  {
    var p: Poller;
    picks, p := PickAll(s);
    RunKeepsInv(s, picks);
    CountersExact(WithPoller(s, p));
    RunStep(s, picks, Poll);
  }

  lemma DrainThenNotify(n: nat)
    ensures HostSteps(DrainScript(n) + [Notify]) == DrainScript(n) + [Notify]
  {
    DrainIsHosts(n);
    OnlyHostSteps(DrainScript(n));
    HostStepsAppend(DrainScript(n), Notify);
  }

  lemma IdleThenPoll(before: seq<Step>, picks: seq<Step>)
    requires HostIdle(before) && HostIdle(picks)
    ensures HostSteps(before + (picks + [Poll])) == [Poll]
  {
    NoHostSteps(before);
    NoHostSteps(picks);
    HostStepsAppend(picks, Poll);
    HostStepsConcat(before, picks + [Poll]);
    assert [] + [Poll] == [Poll];
  }

  /** A ring's worth of words can be made readable by a single poll. */
  lemma WordsReadable(start: State, n: nat) returns (run: seq<Step>)
    requires Start(start) && n <= start.size
    ensures HostSteps(run) == [Poll] && Exec(start, run).Some?
    ensures Inv(Exec(start, run).value) && Exec(start, run).value.readable == n
  {
    var before := WordsAnnounced(start, n);
    var s := Exec(start, before).value;
    var picks := WordsPolled(s, n);
    ExecConcat(start, before, picks + [Poll]);
    IdleThenPoll(before, picks);
    run := before + (picks + [Poll]);
  }

  /** After that the whole drain loop and the last notification can follow. */
  lemma RingCanBeReceived(start: State, n: nat)
    requires Start(start) && n <= start.size
    ensures CanReceive(start, n)
  {
    var run := WordsReadable(start, n);
    var t := Exec(start, run).value;
    DrainRuns(t, n);
    RunStep(t, DrainScript(n), Notify);
    ExecConcat(start, run, DrainScript(n) + [Notify]);
    DrainThenNotify(n);
    HostStepsConcat(run, DrainScript(n) + [Notify]);
    assert [Poll] + (DrainScript(n) + [Notify]) == ReceiveScript(n);
    assert ReceiveRun(start, run + (DrainScript(n) + [Notify]), n);
  }

  /** One `receive` can return any number of words up to the size of the ring, and
      no more, whatever the FPGA, the network and the poller do. */
  lemma ReceivableIff(start: State, n: nat)
    requires Start(start)
    ensures CanReceive(start, n) <==> n <= start.size
  {
    if CanReceive(start, n) {
      ReceiveFitsRing(start, n);
    }
    if n <= start.size {
      RingCanBeReceived(start, n);
    }
  }

  // ------------------------------------------------------------- the bound

  /** A `receive` of n words posts a credit above the documented maximum. */
  predicate Exceeds(n: nat) {
    exists i :: 0 <= i < |ReceiveCredits(n)| && CreditedWords(ReceiveCredits(n)[i]) > NUM_WORDS_TO_NOTIFY
  }

  /** A ring can make the host exceed the documented maximum if and only if it has
      more than 62 pages. */
  lemma CreditExceedsIff(start: State, pages: nat)
    requires Start(start) && start.size == FlowControl.SizeWords(pages)
    ensures (exists n :: CanReceive(start, n) && Exceeds(n)) <==> pages > 62
  {
    var n := NUM_WORDS_TO_NOTIFY + 1;
    ReceiveCreditsExact(n);
    ReceivableIff(start, n);
    forall m: nat | CanReceive(start, m) && Exceeds(m)
      ensures pages > 62
    {
      ReceiveCreditsExact(m);
      ReceivableIff(start, m);
    }
    if pages > 62 {
      assert CanReceive(start, n) && Exceeds(n);
    }
  }
}
