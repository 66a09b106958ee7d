/** The host side in the form of the source: the ring buffer and the counters of
    the notification poller as mutable objects, with the FPGA and the network
    moving arbitrarily between any two accesses of the host. */
module RingHost {
  import opened Wrappers
  import opened Bits
  import opened Notifications
  import opened RingProtocol
  import opened RingRuns
  import opened RingLifecycle
  import opened CreditSchedule
  import opened PollerHost

  /** The remote FPGA and the network between it and the host. */
  class Fabric {
    var written: seq<Word>
    var writeIndex: nat
    var unannounced: nat
    var credited: nat
    var inbox: seq<Notification>
    var posted: seq<nat>
    var delivered: nat

    /** Whether a step of the environment may happen now. */
    predicate CanMove(step: Step, size: nat)
      reads this
    {
      match step
      case Write(_) => |written| - credited < size
      case Announce(count, tag) => 0 < count <= unannounced && count < TWO_32 && tag < TWO_32
      case Respond(_) => true
      case Pick => inbox != [] && Known(inbox[0])
      case Deliver => delivered < |posted|
      case _ => false
    }

    /** The FPGA writes a word into the host's ring. */
    method WriteWord(word: Word, ring: RingBuffer)
      requires ring.fabric == this && ring.buffer.Length == ring.sizeWords && WellFormed(ring.Snapshot())
      requires CanMove(Write(word), ring.sizeWords)
      modifies this, ring.buffer
      ensures ring.Snapshot() == Apply(old(ring.Snapshot()), Write(word))
    {
      ring.buffer[writeIndex] := word;
      written := written + [word];
      writeIndex := (writeIndex + 1) % ring.sizeWords;
      unannounced := unannounced + 1;
    }

    /** The poller thread takes the oldest notification. */
    method DeliverToPoller(ring: RingBuffer)
      requires ring.fabric == this && WellFormed(ring.Snapshot()) && CanMove(Pick, ring.sizeWords)
      modifies this, ring.poller
      ensures ring.Snapshot() == Apply(old(ring.Snapshot()), Pick)
    {
      var n := inbox[0];
      inbox := inbox[1..];
      var _ := ring.poller.Count(n);
    }

    /** The FPGA sends a notification: an announcement of words or a response. */
    method Send(step: Step, ring: RingBuffer)
      requires ring.fabric == this && WellFormed(ring.Snapshot()) && CanMove(step, ring.sizeWords)
      requires step.Announce? || step.Respond?
      modifies this`unannounced, this`inbox
      ensures ring.Snapshot() == Apply(old(ring.Snapshot()), step)
    {
      match step {
        case Announce(count, tag) =>
          unannounced := unannounced - count;
          inbox := inbox + [Announcement(count, tag)];
        case Respond(payload) =>
          inbox := inbox + [Notification(RESPONSE_CLASS, payload)];
      }
    }

    /** The FPGA receives the oldest credit. */
    method DeliverToFpga(ring: RingBuffer)
      requires ring.fabric == this && WellFormed(ring.Snapshot()) && CanMove(Deliver, ring.sizeWords)
      modifies this`credited, this`delivered
      ensures ring.Snapshot() == Apply(old(ring.Snapshot()), Deliver)
    {
      credited := credited + CreditedWords(posted[delivered]);
      delivered := delivered + 1;
    }

    /** One step of the FPGA, the network or the poller thread. */
    method Act(step: Step, ring: RingBuffer)
      requires ring.fabric == this && ring.buffer.Length == ring.sizeWords && WellFormed(ring.Snapshot())
      requires CanMove(step, ring.sizeWords)
      modifies this, ring.buffer, ring.poller
      ensures Enabled(old(ring.Snapshot()), step) && ring.Snapshot() == Apply(old(ring.Snapshot()), step)
      ensures !IsHostStep(step)
    {
      match step {
        case Write(word) => WriteWord(word, ring);
        case Pick => DeliverToPoller(ring);
        case Deliver => DeliverToFpga(ring);
        case Announce(_, _) => Send(step, ring);
        case Respond(_) => Send(step, ring);
      }
    }

    /** An environment step that is recorded in the ring's history. */
    method Move(step: Step, ring: RingBuffer)
      requires ring.fabric == this && ring.Tracked() && CanMove(step, ring.sizeWords)
      modifies this, ring`trace, ring.buffer, ring.poller
      ensures ring.Tracked() && ring.trace == old(ring.trace) + [step] && !IsHostStep(step)
      ensures posted == old(posted)
      ensures Start(ring.base) ==> ring.poller.packets >= old(ring.poller.packets)
    {
      ExecAppend(ring.base, ring.trace, step);
      if Start(ring.base) {
        CountedWordsStay(ring.base, ring.trace, step);
      }
      Act(step, ring);
      ring.trace := ring.trace + [step];
    }

    /** Any finite number of environment steps. */
    method Interfere(ring: RingBuffer)
      requires ring.fabric == this && ring.Tracked()
      modifies this, ring`trace, ring.buffer, ring.poller
      ensures ring.Tracked() && old(ring.trace) <= ring.trace
      ensures HostSteps(ring.trace) == HostSteps(old(ring.trace))
      ensures posted == old(posted)
      ensures Start(ring.base) ==> ring.poller.packets >= old(ring.poller.packets)
    {
      var moves: nat := *;
      while moves > 0
        invariant ring.Tracked() && old(ring.trace) <= ring.trace
        invariant HostSteps(ring.trace) == HostSteps(old(ring.trace))
        invariant posted == old(posted)
        invariant Start(ring.base) ==> ring.poller.packets >= old(ring.poller.packets)
      {
        var step: Step := *;
        if CanMove(step, ring.sizeWords) {
          HostStepsAppend(ring.trace, step);
          Move(step, ring);
        }
        moves := moves - 1;
      }
    }
  }

  /** The host's view of the ring, src/nhtl-extoll/buffer.cpp. */
  class RingBuffer {
    const sizeBytes: nat
    const sizeWords: nat
    const fabric: Fabric
    const poller: NotificationPoller
    const buffer: array<Word>
    var readIndex: nat
    var readable: Word
    var readWords: nat

    // the words read since the last FPGA init, the state the epoch began in and
    // the steps taken since, in the order in which they happened
    ghost var read: seq<Word>
    ghost var base: State
    ghost var trace: seq<Step>

    /** The joint state of host, network and FPGA. */
    ghost function Snapshot(): State
      reads this, fabric, poller, buffer
    {
      State(buffer.Length, buffer[..],
            fabric.written, fabric.writeIndex, fabric.unannounced, fabric.credited,
            Poller(fabric.inbox, poller.packets, poller.notifications),
            read, readIndex, readable, readWords,
            fabric.posted, fabric.delivered)
    }

    /** The joint state is the one the recorded steps lead to. */
    ghost predicate Tracked()
      reads this, fabric, poller, buffer
    {
      && buffer.Length == sizeWords
      && WellFormed(base)
      && Exec(base, trace) == Some(Snapshot())
    }

    /** The epoch began with a configured, empty ring. */
    ghost predicate Valid()
      reads this, fabric, poller, buffer
    {
      Tracked() && Start(base)
    }

    /** Between public calls nothing is left to read or to notify. */
    ghost predicate Ready()
      reads this, fabric, poller, buffer
    {
      Valid() && readable == 0 && readWords == 0
    }

    constructor (fabric: Fabric, poller: NotificationPoller, pages: nat)
      ensures this.fabric == fabric && this.poller == poller && fresh(buffer)
      ensures sizeBytes == pages * 4096 && sizeWords == pages * 512 == buffer.Length
      ensures readIndex == 0 && readable == 0 && readWords == 0
    {
      this.fabric, this.poller := fabric, poller;
      sizeBytes := pages * 4096;
      sizeWords := pages * 512;
      buffer := new Word[pages * 512];
      readIndex, readable, readWords := 0, 0, 0;
      read := [];
    }

    /** Records a step of the host that has just been taken. */
    ghost method Record(before: State, step: Step)
      requires buffer.Length == sizeWords && WellFormed(base)
      requires Exec(base, trace) == Some(before) && Enabled(before, step)
      requires Snapshot() == Apply(before, step) && IsHostStep(step)
      modifies this`trace
      ensures Tracked() && trace == old(trace) + [step]
      ensures HostSteps(trace) == HostSteps(old(trace)) + [step]
    {
      ExecAppend(base, trace, step);
      HostStepsAppend(trace, step);
      trace := trace + [step];
    }

    /** The last recorded step is a poll that found words, or found none. */
    ghost predicate PolledLast(found: bool)
      reads this
    {
      && WellFormed(base) && trace != [] && trace[|trace| - 1] == RingProtocol.Poll
      && var before := Exec(base, trace[..|trace| - 1]);
         before.Some? && (found <==> before.value.poller.packets > 0)
    }

    method Poll() returns (more: bool)
      requires Valid()
      modifies this`readable, this`trace, fabric, poller, buffer
      ensures Valid() && old(trace) <= trace
      ensures HostSteps(trace) == HostSteps(old(trace)) + [RingProtocol.Poll]
      ensures fabric.posted == old(fabric.posted) && poller.packets == 0
      ensures PolledLast(more) && (more <==> readable > old(readable))
      ensures old(readable) + old(poller.packets) <= readable <= sizeWords
    {
      fabric.Interfere(this);
      ghost var before := Snapshot();
      PollExact(base, trace);
      var packets := poller.ConsumePackets();
      readable := Add64(readable, packets);
      ghost var moves := trace;
      Record(before, RingProtocol.Poll);
      assert trace[..|trace| - 1] == moves;
      return packets != 0;
    }

    /** Tells the FPGA how many words were read since the last notification. */
    method Notify()
      requires WellFormed(Snapshot())
      modifies this`readWords, fabric`posted
      ensures Snapshot() == Apply(old(Snapshot()), RingProtocol.Notify)
      ensures readWords == 0 && fabric.posted == old(fabric.posted) + [Credit(old(readWords))]
    {
      var payload := Or(TRACE_IDENTIFIER * TWO_48, readWords);
      fabric.posted := fabric.posted + [payload];
      readWords := 0;
    }

    /** A notification, with the environment moving before it. */
    method Synchronise()
      requires Valid()
      modifies this`readWords, this`trace, fabric, poller, buffer
      ensures Valid() && old(trace) <= trace && readWords == 0
      ensures HostSteps(trace) == HostSteps(old(trace)) + [RingProtocol.Notify]
      ensures fabric.posted == old(fabric.posted) + [Credit(old(readWords))]
    {
      fabric.Interfere(this);
      ghost var before := Snapshot();
      Notify();
      Record(before, RingProtocol.Notify);
    }

    /** Takes the next word out of the ring and advances the three counters. */
    method TakeWord() returns (word: Word)
      requires buffer.Length == sizeWords && WellFormed(Snapshot()) && Enabled(Snapshot(), RingProtocol.Read)
      modifies this`read, this`readIndex, this`readable, this`readWords
      ensures Snapshot() == Apply(old(Snapshot()), RingProtocol.Read)
      ensures read == old(read) + [word]
    {
      word := buffer[readIndex];
      readIndex := readIndex + 1;
      readIndex := readIndex % sizeWords;
      readWords := readWords + 1;
      readable := readable - 1;
      read := read + [word];
    }

    /** Reads the next word, with the environment moving before it. */
    method ReadWord() returns (word: Word)
      requires Valid() && readable > 0
      modifies this`read, this`readIndex, this`readable, this`readWords, this`trace, fabric, poller, buffer
      ensures Valid() && old(trace) <= trace
      ensures read == old(read) + [word]
      ensures readWords == old(readWords) + 1 && readable == old(readable) - 1
      ensures HostSteps(trace) == HostSteps(old(trace)) + [RingProtocol.Read]
      ensures fabric.posted == old(fabric.posted)
    {
      fabric.Interfere(this);
      ghost var before := Snapshot();
      ReadEnabled(base, trace);
      word := TakeWord();
      Record(before, RingProtocol.Read);
    }

    /** One iteration of the drain loop. */
    method DrainOne() returns (word: Word)
      requires Valid() && readable > 0
      modifies this`read, this`readIndex, this`readable, this`readWords, this`trace, fabric, poller, buffer
      ensures Valid() && old(trace) <= trace
      ensures read == old(read) + [word] && readable == old(readable) - 1
      ensures readWords == NextReadWords(old(readWords))
      ensures HostSteps(trace) == HostSteps(old(trace)) + IterationSteps(old(readWords))
      ensures fabric.posted == old(fabric.posted) + IterationCredits(old(readWords))
    {
      word := ReadWord();
      if readWords > NUM_WORDS_TO_NOTIFY {
        Synchronise();
      }
    }

    /** The drain loop of `receive`. */
    method Drain() returns (words: seq<Word>)
      requires Valid() && readWords == 0
      modifies this`read, this`readIndex, this`readable, this`readWords, this`trace, fabric, poller, buffer
      ensures Valid() && old(trace) <= trace && readable == 0
      ensures read == old(read) + words && |words| == old(readable)
      ensures readWords == |words| % BATCH
      ensures HostSteps(trace) == HostSteps(old(trace)) + DrainScript(|words|)
      ensures fabric.posted == old(fabric.posted) + FullCredits(|words|)
    {
      words := [];
      while readable > 0
        invariant Valid() && old(trace) <= trace
        invariant read == old(read) + words && |words| + readable == old(readable)
        invariant readWords == |words| % BATCH
        invariant HostSteps(trace) == HostSteps(old(trace)) + DrainScript(|words|)
        invariant fabric.posted == old(fabric.posted) + FullCredits(|words|)
        decreases readable
      {
        NextIteration(|words|, HostSteps(old(trace)), old(fabric.posted));
        var word := DrainOne();
        words := words + [word];
      }
    }

    /** Reads all words the poller has counted, at least those counted when it is
        called. The returned words are the next ones the FPGA wrote; the host's
        steps are one poll, the reads with a notification after every full batch,
        and a last notification. */
    method Receive() returns (words: seq<Word>)
      requires Ready()
      modifies this, fabric, poller, buffer
      ensures Ready() && base == old(base) && old(trace) <= trace
      ensures read == old(read) + words && read <= fabric.written
      ensures old(poller.packets) <= |words| <= sizeWords
      ensures HostSteps(trace) == HostSteps(old(trace)) + ReceiveScript(|words|)
      ensures fabric.posted == old(fabric.posted) + ReceiveCredits(|words|)
    {
      var _ := Poll();
      words := Drain();
      Synchronise();
      ScriptAndCredits(|words|, HostSteps(old(trace)), old(fabric.posted));
      ReadsBehindWrites(base, trace);
    }

    /** Hard reset without notifying the hardware. */
    method Reset()
      modifies this`readIndex, this`readable, this`readWords
      ensures Snapshot() == HostReset(old(Snapshot()))
      ensures readIndex == 0 && readable == 0 && readWords == 0
    {
      readIndex := 0;
      readable := 0;
      readWords := 0;
    }

    /** The destructor's drain loop: it goes on until a poll finds nothing. It ends
        although the FPGA keeps writing, because there are never more unread words
        than the ring holds; everything counted before the call is drained. */
    method DrainPoller()
      requires Ready()
      modifies this`readable, this`trace, fabric, poller, buffer
      ensures Valid() && readWords == 0 && PolledLast(false)
      ensures old(poller.packets) <= readable <= sizeWords
      ensures fabric.posted == old(fabric.posted)
    {
      var more := Poll();
      while more
        invariant Valid() && PolledLast(more)
        invariant old(poller.packets) <= readable <= sizeWords
        invariant fabric.posted == old(fabric.posted)
        decreases sizeWords - readable + (if more then 1 else 0)
      {
        more := Poll();
      }
    }

    /** After that many steps, the last of them a poll that found nothing, the host
        has done nothing. */
    ghost predicate EndsWithEmptyPoll(drained: nat)
      reads this
    {
      && WellFormed(base)
      && 0 < drained <= |trace| && trace[drained - 1] == RingProtocol.Poll && HostSteps(trace[drained..]) == []
      && var before := Exec(base, trace[..drained - 1]);
         before.Some? && before.value.poller.packets == 0
    }

    /** The drain loop, and the environment moving on after it. */
    method DrainAndWait() returns (ghost drained: nat)
      requires Ready()
      modifies this`readable, this`trace, fabric, poller, buffer
      ensures Valid() && readWords == 0
      ensures old(poller.packets) <= readable <= sizeWords
      ensures fabric.posted == old(fabric.posted)
      ensures EndsWithEmptyPoll(drained)
    {
      DrainPoller();
      drained := |trace|;
      ghost var polls := trace;
      fabric.Interfere(this);
      assert trace == polls + trace[drained..];
      HostStepsConcat(polls, trace[drained..]);
      assert trace[..drained - 1] == polls[..drained - 1];
    }

    /** Drops the readable words and notifies. */
    method Release()
      requires WellFormed(Snapshot())
      modifies this`readIndex, this`readable, this`readWords, fabric`posted
      ensures Snapshot() == Shutdown(old(Snapshot()))
      ensures readIndex == old(readIndex) + old(readable) && readable == 0 && readWords == 0
      ensures fabric.posted == old(fabric.posted) + [Credit(old(readWords))]
    {
      readIndex := readIndex + readable;
      readable := 0;
      Notify();
    }

    /** The destructor's last synchronisation, with the environment moving before
        it; `last` is the state in which it happens, after `drained` steps ending in
        a poll that found nothing, and then none of the host. The words dropped
        without crediting them are at least those counted before the call, and at most
        those outstanding before the call and those written since. */
    method Destroy() returns (ghost last: State, ghost drained: nat)
      requires Ready()
      modifies this, fabric, poller, buffer
      ensures Inv(last) && last.readWords == 0 && last.read == old(read)
      ensures old(poller.packets) <= last.readable <= sizeWords
      ensures last.readable <= Outstanding(old(Snapshot())) + |last.written| - |old(fabric.written)|
      ensures EndsWithEmptyPoll(drained) && Exec(base, trace) == Some(last)
      ensures Snapshot() == Shutdown(last)
      ensures readIndex == last.readIndex + last.readable && readable == 0 && readWords == 0
      ensures fabric.posted == old(fabric.posted) + [Credit(0)]
    {
      ReachableInv(base, trace);
      drained := DrainAndWait();
      ReachableInv(base, trace);
      last := Snapshot();
      Release();
    }
  }

  /** The environment may do exactly the protocol steps that are not the host's. */
  lemma EnvironmentIsProtocol(ring: RingBuffer, step: Step)
    requires WellFormed(ring.Snapshot()) && ring.buffer.Length == ring.sizeWords
    ensures ring.fabric.CanMove(step, ring.sizeWords) <==> !IsHostStep(step) && Enabled(ring.Snapshot(), step)
  {
  }

  /** Nothing of the previous epoch is under way. */
  predicate NothingStale(s: State)
    requires WellFormed(s)
  {
    StaleWords(s) == 0 && CreditsInFlight(s) == 0
  }

  /** The FPGA is told to start over; a new history begins. */
  method RestartFpga(ring: RingBuffer)
    requires WellFormed(ring.Snapshot()) && ring.buffer.Length == ring.sizeWords
    modifies ring`read, ring`base, ring`trace, ring.fabric
    ensures ring.Snapshot() == ring.base == FpgaInit(old(ring.Snapshot()))
    ensures ring.trace == [] && ring.Tracked()
  {
    var fabric := ring.fabric;
    fabric.written, fabric.writeIndex, fabric.unannounced, fabric.credited := [], 0, 0, 0;
    ring.read := [];
    ring.base := ring.Snapshot();
    ring.trace := [];
  }

  /** The history of a ring that was reset after the FPGA had started over in state
      `s` and the environment had moved on: the same moves lead from the reset
      state to the present one. */
  ghost method Rebase(ring: RingBuffer, s: State)
    requires WellFormed(s) && ring.buffer.Length == ring.sizeWords == s.size < TWO_32
    requires ring.base == FpgaInit(s) && HostIdle(ring.trace)
    requires Exec(ring.base, ring.trace).Some? && ring.Snapshot() == HostReset(Exec(ring.base, ring.trace).value)
    requires forall n :: n in s.poller.queue ==> Known(n)
    modifies ring`base
    ensures ring.Tracked() && (NothingStale(s) ==> ring.Ready())
  {
    ResetCommutes(ring.base, ring.trace);
    ring.base := HostReset(ring.base);
    if NothingStale(s) {
      ResetIsStart(s);
    }
  }

  /** The end of `configure_fpga` as far as the trace ring is concerned: the FPGA
      is told to start over, the environment moves on, and the host resets. The
      ring is usable afterwards exactly when nothing stale was under way. */
  method Reinitialise(ring: RingBuffer)
    requires WellFormed(ring.Snapshot()) && ring.buffer.Length == ring.sizeWords < TWO_32
    requires forall n :: n in ring.fabric.inbox ==> Known(n)
    requires StaleWords(ring.Snapshot()) < TWO_32 && CreditsInFlight(ring.Snapshot()) < TWO_32
    modifies ring, ring.fabric, ring.buffer, ring.poller
    ensures NothingStale(old(ring.Snapshot())) ==> ring.Ready()
    ensures Inv(ring.Snapshot()) <==> NothingStale(old(ring.Snapshot()))
  {
    ghost var before := ring.Snapshot();
    RestartFpga(ring);
    ring.fabric.Interfere(ring);
    NoHostSteps(ring.trace);
    ReinitSafeIffNothingStale(before, ring.trace);
    ring.Reset();
    Rebase(ring, before);
  }
}
