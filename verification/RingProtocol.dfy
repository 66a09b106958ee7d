/** The credit-based ring-buffer protocol between the remote FPGA and the host,
    as a transition system in which every word read by the host is a step of
    its own, so that the FPGA, the network and the poller thread interleave
    freely with the loops of src/nhtl-extoll/buffer.cpp. */
module RingProtocol {
  import opened Bits
  import opened Notifications

  /** Identifier the FPGA expects in the upper 16 bits of a credit. */
  const TRACE_IDENTIFIER: nat := 0x0ca5

  /** Everything the two sides and the network between them hold.
      `written` and `read` are the streams of words since the last FPGA init. */
  datatype State = State(
    size: nat,
    memory: seq<Word>,
    // FPGA
    written: seq<Word>,
    writeIndex: nat,
    unannounced: nat,
    credited: nat,
    // network and poller thread
    poller: Poller,
    // host ring buffer
    read: seq<Word>,
    readIndex: nat,
    readable: Word,
    readWords: nat,
    // credit notifications towards the FPGA, the first `delivered` of them received
    posted: seq<nat>,
    delivered: nat)

  datatype Step =
    // the FPGA writes a word, announces words, or sends a class-0 notification
    | Write(word: Word)
    | Announce(count: nat, tag: nat)
    | Respond(payload: Word)
    // the poller thread counts a notification, a credit reaches the FPGA
    | Pick
    | Deliver
    // the host polls, reads one word, posts a credit
    | Poll
    | Read
    | Notify

  predicate IsHostStep(step: Step) {
    step.Poll? || step.Read? || step.Notify?
  }

  /** The ring has its memory and the FPGA writes inside it. */
  predicate WellFormed(s: State) {
    && 0 < s.size == |s.memory|
    && s.writeIndex < s.size
    && s.delivered <= |s.posted|
  }

  /** The credit payload: trace identifier in the upper 16 bits, word count below. */
  function Credit(words: nat): nat {
    Or(TRACE_IDENTIFIER * TWO_48, words)
  }

  /** What the FPGA makes of a credit payload. */
  function CreditedWords(payload: nat): nat {
    if payload / TWO_48 == TRACE_IDENTIFIER then payload % TWO_48 else 0
  }

  /** Packing identifier and count with OR is reversible. */
  lemma CreditRoundTrip(words: nat)
    requires words < TWO_48
    ensures Credit(words) < TWO_64
    ensures Credit(words) / TWO_48 == 0x0ca5
    ensures Credit(words) % TWO_48 == words
    ensures CreditedWords(Credit(words)) == words
  {
    PowersOfTwo();
    OrOfShifted(TRACE_IDENTIFIER, 48, words);
  }

  function CreditSum(payloads: seq<nat>): nat {
    if payloads == [] then 0 else CreditedWords(payloads[0]) + CreditSum(payloads[1..])
  }

  lemma {:induction false} CreditSumAppend(payloads: seq<nat>, payload: nat)
    ensures CreditSum(payloads + [payload]) == CreditSum(payloads) + CreditedWords(payload)
  {
    if payloads == [] {
      assert [payload][1..] == [];
    } else {
      assert (payloads + [payload])[1..] == payloads[1..] + [payload];
      CreditSumAppend(payloads[1..], payload);
    }
  }

  /** Words announced to the host but not yet counted by the poller thread. */
  function Announced(s: State): nat { QueueWords(s.poller.queue) }

  /** Words in credits that have not reached the FPGA. */
  function CreditsInFlight(s: State): nat
    requires WellFormed(s)
  {
    CreditSum(s.posted[s.delivered..])
  }

  /** The occupancy the FPGA accounts for: words written minus words credited. */
  function Occupancy(s: State): int { |s.written| - s.credited }

  /** An announcement carries its word count in the low 32 bits of the payload;
      the upper bits are up to the FPGA. */
  function Announcement(count: nat, tag: nat): (n: Notification)
    requires count < TWO_32 && tag < TWO_32
  {
    Notification(PACKET_CLASS, tag * TWO_32 + count)
  }

  lemma AnnouncementWords(count: nat, tag: nat)
    requires count < TWO_32 && tag < TWO_32
    ensures Words(Announcement(count, tag)) == count
  {
    ModIsUnique(tag * TWO_32 + count, TWO_32, tag, count);
  }

  /** When a step may happen. The FPGA writes only while it holds credit, and
      announces only words it has already written; the host reads only words
      that were counted for it. */
  predicate Enabled(s: State, step: Step)
    requires WellFormed(s)
  {
    match step
    case Write(_) => Occupancy(s) < s.size
    case Announce(count, tag) => 0 < count <= s.unannounced && count < TWO_32 && tag < TWO_32
    case Respond(_) => true
    case Pick => s.poller.queue != [] && Known(s.poller.queue[0])
    case Deliver => s.delivered < |s.posted|
    case Poll => true
    case Read => s.readable > 0 && s.readIndex < s.size
    case Notify => true
  }

  function Apply(s: State, step: Step): (t: State)
    requires WellFormed(s) && Enabled(s, step)
    ensures WellFormed(t)
  {
    match step
    case Write(word) =>
      s.(memory := s.memory[s.writeIndex := word],
         written := s.written + [word],
         writeIndex := (s.writeIndex + 1) % s.size,
         unannounced := s.unannounced + 1)
    case Announce(count, tag) =>
      s.(unannounced := s.unannounced - count,
         poller := s.poller.(queue := s.poller.queue + [Announcement(count, tag)]))
    case Respond(payload) =>
      s.(poller := s.poller.(queue := s.poller.queue + [Notification(RESPONSE_CLASS, payload)]))
    case Pick =>
      s.(poller := Notifications.Pick(s.poller))
    case Deliver =>
      s.(credited := s.credited + CreditedWords(s.posted[s.delivered]), delivered := s.delivered + 1)
    case Poll =>
      s.(readable := Add64(s.readable, s.poller.packets), poller := s.poller.(packets := 0))
    case Read =>
      s.(read := s.read + [s.memory[s.readIndex]],
         readIndex := (s.readIndex + 1) % s.size,
         readWords := s.readWords + 1,
         readable := s.readable - 1)
    case Notify =>
      s.(posted := s.posted + [Credit(s.readWords)], readWords := 0)
  }

  // ------------------------------------------------------------ invariant

  /** Words written = unannounced + in flight + in the poller + in the ring + read. */
  predicate WordsConserved(s: State) {
    |s.written| == s.unannounced + Announced(s) + s.poller.packets + s.readable + |s.read|
  }

  /** Words read = credited at the FPGA + credits in flight + not yet notified. */
  predicate CreditsConserved(s: State)
    requires WellFormed(s)
  {
    |s.read| == s.credited + CreditsInFlight(s) + s.readWords
  }

  /** Unread words are still in their slots. */
  ghost predicate UnreadIntact(s: State)
    requires WellFormed(s)
  {
    forall i :: |s.read| <= i < |s.written| ==> s.memory[i % s.size] == s.written[i]
  }

  ghost predicate Inv(s: State) {
    && WellFormed(s)
    && s.size < TWO_32
    && s.writeIndex == |s.written| % s.size
    && s.readIndex == |s.read| % s.size
    && WordsConserved(s)
    && CreditsConserved(s)
    && Occupancy(s) <= s.size
    && s.read <= s.written
    && UnreadIntact(s)
    && (forall n :: n in s.poller.queue ==> Known(n))
  }

  /** Two different indices of a window no longer than the ring have different slots. */
  lemma SlotsDistinct(i: nat, j: nat, size: nat)
    requires 0 < size && i < j < i + size
    ensures i % size != j % size
  {
    var d := j / size - i / size;
    assert i == (i / size) * size + i % size;
    assert j == (j / size) * size + j % size;
    assert d * size == (j - i) - (j % size - i % size);
    MultipleBounds(d, size);
  }

  lemma NextSlot(n: nat, size: nat)
    requires 0 < size
    ensures (n % size + 1) % size == (n + 1) % size
  {
    var q, r := n / size, n % size;
    if r + 1 == size {
      assert n + 1 == q * size + size;
      ModIsUnique(n + 1, size, q + 1, 0);
      ModIsUnique(r + 1, size, 1, 0);
    } else {
      ModIsUnique(n + 1, size, q, r + 1);
      ModIsUnique(r + 1, size, 0, r + 1);
    }
  }

  /** Every counter of the protocol is bounded by the ring size, so none of the
      32-bit masks and 64-bit additions on the way loses anything. */
  lemma CountersExact(s: State)
    requires Inv(s)
    ensures s.unannounced + Announced(s) + s.poller.packets + s.readable <= s.size
    ensures s.readWords + CreditsInFlight(s) <= s.size
    ensures Add64(s.readable, s.poller.packets) == s.readable + s.poller.packets
    ensures s.poller.queue != [] ==>
              Add64(s.poller.packets, Words(s.poller.queue[0])) == s.poller.packets + Words(s.poller.queue[0])
  {
  }

  /** A write never lands in the slot of a word the host has not read. */
  lemma NoOverwrite(s: State)
    requires Inv(s) && Occupancy(s) < s.size
    ensures |s.written| - |s.read| <= Occupancy(s)
    ensures forall i :: |s.read| <= i < |s.written| ==> i % s.size != s.writeIndex
  {
    forall i | |s.read| <= i < |s.written|
      ensures i % s.size != s.writeIndex
    {
      SlotsDistinct(i, |s.written|, s.size);
    }
  }

  lemma WriteKeepsInv(s: State, word: Word)
    requires Inv(s) && Enabled(s, Write(word))
    ensures Inv(Apply(s, Write(word)))
  {
    NoOverwrite(s);
    NextSlot(|s.written|, s.size);
  }

  lemma AnnounceKeepsInv(s: State, count: nat, tag: nat)
    requires Inv(s) && Enabled(s, Announce(count, tag))
    ensures Inv(Apply(s, Announce(count, tag)))
  {
    var n := Announcement(count, tag);
    AnnouncementWords(count, tag);
    QueueWordsAppend(s.poller.queue, n);
    var t := Apply(s, Announce(count, tag));
    assert t.poller.queue == s.poller.queue + [n];
    assert Announced(t) == Announced(s) + count;
  }

  lemma ReadKeepsInv(s: State)
    requires Inv(s) && Enabled(s, Read)
    ensures Inv(Apply(s, Read))
    ensures |s.read| < |s.written| && s.memory[s.readIndex] == s.written[|s.read|]
  {
    NextSlot(|s.read|, s.size);
    assert s.memory[|s.read| % s.size] == s.written[|s.read|];
  }

  lemma NotifyKeepsInv(s: State)
    requires Inv(s)
    ensures Inv(Apply(s, Notify))
  {
    var payload := Credit(s.readWords);
    CreditRoundTrip(s.readWords);
    CreditSumAppend(s.posted[s.delivered..], payload);
    assert (s.posted + [payload])[s.delivered..] == s.posted[s.delivered..] + [payload];
  }

  lemma DeliverKeepsInv(s: State)
    requires Inv(s) && Enabled(s, Deliver)
    ensures Inv(Apply(s, Deliver))
  {
    assert s.posted[s.delivered..][1..] == s.posted[s.delivered + 1..];
  }

  lemma StepKeepsInv(s: State, step: Step)
    requires Inv(s) && Enabled(s, step)
    ensures Inv(Apply(s, step))
  {
    CountersExact(s);
    match step
    case Write(word) => WriteKeepsInv(s, word);
    case Announce(count, tag) => AnnounceKeepsInv(s, count, tag);
    case Respond(payload) => QueueWordsAppend(s.poller.queue, Notification(RESPONSE_CLASS, payload));
    case Pick =>
    case Deliver => DeliverKeepsInv(s);
    case Poll =>
    case Read => ReadKeepsInv(s);
    case Notify => NotifyKeepsInv(s);
  }
}
