/** Safety of the ring-buffer protocol over whole runs: FIFO delivery, no
    overwrite and no lost credit, for every interleaving and any number of
    wrap-arounds. */
module RingRuns {
  import opened Wrappers
  import opened Bits
  import opened Notifications
  import opened RingProtocol

  /** The state after a run, if every step of it was enabled when taken. */
  function Exec(s: State, steps: seq<Step>): (t: Option<State>)
    requires WellFormed(s)
    ensures t.Some? ==> WellFormed(t.value)
  {
    if steps == [] then Some(s)
    else
      var before := Exec(s, steps[..|steps| - 1]);
      var step := steps[|steps| - 1];
      if before.Some? && Enabled(before.value, step) then Some(Apply(before.value, step)) else None
  }

  lemma ExecAppend(s: State, steps: seq<Step>, step: Step)
    requires WellFormed(s) && Exec(s, steps).Some?
    requires Enabled(Exec(s, steps).value, step)
    ensures Exec(s, steps + [step]) == Some(Apply(Exec(s, steps).value, step))
  {
    assert (steps + [step])[..|steps|] == steps;
  }

  /** A run followed by another one. */
  lemma {:induction false} ExecConcat(s: State, a: seq<Step>, b: seq<Step>)
    requires WellFormed(s) && Exec(s, a).Some?
    ensures Exec(s, a + b) == Exec(Exec(s, a).value, b)
  {
    if b == [] {
      assert a + b == a;
    } else {
      assert (a + b)[..|a + b| - 1] == a + b[..|b| - 1];
      ExecConcat(s, a, b[..|b| - 1]);
    }
  }

  /** One step and then a run. */
  lemma ExecFirst(s: State, step: Step, rest: seq<Step>)
    requires WellFormed(s) && Enabled(s, step)
    ensures Exec(s, [step] + rest) == Exec(Apply(s, step), rest)
  {
    ExecAppend(s, [], step);
    assert [] + [step] == [step];
    ExecConcat(s, [step], rest);
  }

  /** A configured ring before any word of the new epoch was written. */
  ghost predicate Start(s: State) {
    && WellFormed(s)
    && s.size < TWO_32
    && s.written == [] && s.writeIndex == 0 && s.unannounced == 0 && s.credited == 0
    && s.read == [] && s.readIndex == 0 && s.readable == 0 && s.readWords == 0
    && Announced(s) == 0 && s.poller.packets == 0 && CreditsInFlight(s) == 0
    && (forall n :: n in s.poller.queue ==> Known(n))
  }

  /** There is such a ring of every size, with nothing at all on its way. */
  lemma EmptyRing(size: nat) returns (s: State)
    requires 0 < size < TWO_32
    ensures Start(s) && s.size == size && s.poller.queue == [] && s.posted == []
  {
    s := State(size, seq(size, i => 0), [], 0, 0, 0, Poller([], 0, 0), [], 0, 0, 0, [], 0);
  }

  lemma StartInv(s: State)
    requires Start(s)
    ensures Inv(s)
  {
  }

  lemma {:induction false} RunKeepsInv(s: State, steps: seq<Step>)
    requires Inv(s) && Exec(s, steps).Some?
    ensures Inv(Exec(s, steps).value)
  {
    if steps != [] {
      var front := steps[..|steps| - 1];
      RunKeepsInv(s, front);
      StepKeepsInv(Exec(s, front).value, steps[|steps| - 1]);
    }
  }

  lemma ReachableInv(start: State, steps: seq<Step>)
    requires Start(start) && Exec(start, steps).Some?
    ensures Inv(Exec(start, steps).value)
  {
    StartInv(start);
    RunKeepsInv(start, steps);
  }

  /** A word counted for the host can always be read. */
  lemma ReadEnabled(start: State, steps: seq<Step>)
    requires Start(start) && Exec(start, steps).Some?
    ensures Exec(start, steps).value.readable > 0 ==> Enabled(Exec(start, steps).value, Read)
  {
    ReachableInv(start, steps);
    CountersExact(Exec(start, steps).value);
  }

  /** What a poll adds to the readable words is exact and stays within the ring. */
  lemma PollExact(start: State, steps: seq<Step>)
    requires Start(start) && Exec(start, steps).Some?
    ensures var t := Exec(start, steps).value;
            Add64(t.readable, t.poller.packets) == t.readable + t.poller.packets <= t.size
  {
    ReachableInv(start, steps);
    CountersExact(Exec(start, steps).value);
  }

  /** Only the host takes words out of the poller. */
  lemma CountedWordsStay(start: State, steps: seq<Step>, step: Step)
    requires Start(start) && Exec(start, steps).Some?
    requires !IsHostStep(step) && Enabled(Exec(start, steps).value, step)
    ensures Apply(Exec(start, steps).value, step).poller.packets >= Exec(start, steps).value.poller.packets
  {
    ReachableInv(start, steps);
    CountersExact(Exec(start, steps).value);
  }

  lemma ReadsBehindWrites(start: State, steps: seq<Step>)
    requires Start(start) && Exec(start, steps).Some?
    ensures Exec(start, steps).value.read <= Exec(start, steps).value.written
  {
    ReachableInv(start, steps);
  }

  // ------------------------------------------------- refinement of a queue

  /** An unbounded first-in first-out queue and what was taken out of it. */
  datatype Fifo = Fifo(content: seq<Word>, taken: seq<Word>)

  /** What a step means for an unbounded queue: writes enqueue, host reads
      dequeue, everything else is invisible. None when an empty queue is read. */
  function FifoApply(q: Fifo, step: Step): Option<Fifo> {
    match step
    case Write(word) => Some(q.(content := q.content + [word]))
    case Read => if q.content == [] then None else Some(Fifo(q.content[1..], q.taken + [q.content[0]]))
    case _ => Some(q)
  }

  function FifoExec(steps: seq<Step>): Option<Fifo> {
    if steps == [] then Some(Fifo([], []))
    else
      var before := FifoExec(steps[..|steps| - 1]);
      if before.None? then None else FifoApply(before.value, steps[|steps| - 1])
  }

  /** The queue a ring stands for. */
  function AbsFifo(s: State): Fifo
    requires |s.read| <= |s.written|
  {
    Fifo(s.written[|s.read|..], s.read)
  }

  lemma StepRefinesFifo(s: State, step: Step)
    requires Inv(s) && Enabled(s, step)
    ensures |Apply(s, step).read| <= |Apply(s, step).written|
    ensures FifoApply(AbsFifo(s), step) == Some(AbsFifo(Apply(s, step)))
  {
    match step
    case Write(word) =>
      assert (s.written + [word])[|s.read|..] == s.written[|s.read|..] + [word];
    case Read =>
      ReadKeepsInv(s);
      assert s.written[|s.read|..][1..] == s.written[|s.read| + 1..];
    case _ =>
  }

  /** The ring refines an unbounded queue: along every run the host reads exactly
      what the queue would have delivered, and the unread words are its content. */
  lemma {:induction false} RingRefinesFifo(start: State, steps: seq<Step>)
    requires Start(start) && Exec(start, steps).Some?
    ensures var t := Exec(start, steps).value;
            |t.read| <= |t.written| && FifoExec(steps) == Some(AbsFifo(t))
  {
    if steps != [] {
      var front := steps[..|steps| - 1];
      RingRefinesFifo(start, front);
      ReachableInv(start, front);
      StepRefinesFifo(Exec(start, front).value, steps[|steps| - 1]);
    }
  }

  function Writes(steps: seq<Step>): seq<Word> {
    if steps == [] then []
    else
      var step := steps[|steps| - 1];
      Writes(steps[..|steps| - 1]) + (if step.Write? then [step.word] else [])
  }

  /** FIFO delivery stated on the FPGA's own writes: what the host has read is a
      prefix of what the FPGA has written, and lags by at most the ring size. */
  lemma {:induction false} ReadsArePrefixOfWrites(start: State, steps: seq<Step>)
    requires Start(start) && Exec(start, steps).Some?
    ensures var t := Exec(start, steps).value;
            t.written == Writes(steps) && t.read <= Writes(steps) && |Writes(steps)| - |t.read| <= t.size
  {
    WrittenIsWrites(start, steps);
    ReachableInv(start, steps);
  }

  lemma {:induction false} WrittenIsWrites(start: State, steps: seq<Step>)
    requires WellFormed(start) && start.written == [] && Exec(start, steps).Some?
    ensures Exec(start, steps).value.written == Writes(steps)
  {
    if steps != [] {
      WrittenIsWrites(start, steps[..|steps| - 1]);
    }
  }

  /** No run ever writes into a slot that still holds an unread word. */
  lemma RunNeverOverwrites(start: State, steps: seq<Step>, word: Word)
    requires Start(start) && Exec(start, steps + [Write(word)]).Some?
    ensures Exec(start, steps).Some?
    ensures var s := Exec(start, steps).value;
            && |s.written| - |s.read| <= Occupancy(s) < s.size
            && (forall i :: |s.read| <= i < |s.written| ==> i % s.size != s.writeIndex)
  {
    assert (steps + [Write(word)])[..|steps|] == steps;
    ReachableInv(start, steps);
    NoOverwrite(Exec(start, steps).value);
  }

  // ---------------------------------------------------------- conservation

  /** Nothing is on its way in either direction. */
  predicate Quiescent(s: State)
    requires WellFormed(s)
  {
    && s.unannounced == 0 && Announced(s) == 0 && s.poller.packets == 0
    && s.readable == 0 && s.readWords == 0 && CreditsInFlight(s) == 0
  }

  /** Both conservation laws at every point of every run; once everything has
      settled the host has read the whole stream and the FPGA has its full credit. */
  lemma RunConserves(start: State, steps: seq<Step>)
    requires Start(start) && Exec(start, steps).Some?
    ensures var t := Exec(start, steps).value;
            && WordsConserved(t) && CreditsConserved(t)
            && (Quiescent(t) ==> t.read == Writes(steps) && Occupancy(t) == 0)
  {
    ReachableInv(start, steps);
    WrittenIsWrites(start, steps);
  }
}
