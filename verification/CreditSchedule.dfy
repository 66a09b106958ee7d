/** The order in which `RingBuffer::receive` reads and notifies, and the credits
    it posts, as closed forms of the number of words drained. */
module CreditSchedule {
  import opened RingProtocol
  import opened Bits

  /** Documented maximum of words notified together: 512 packets of 62 words. */
  const NUM_WORDS_TO_NOTIFY: nat := 62 * 512

  /** Words in every full credit: the batch test is a strict comparison. */
  const BATCH: nat := NUM_WORDS_TO_NOTIFY + 1

  /** The host's own steps in a run, in order. */
  function HostSteps(steps: seq<Step>): seq<Step> {
    if steps == [] then []
    else
      var step := steps[|steps| - 1];
      HostSteps(steps[..|steps| - 1]) + (if IsHostStep(step) then [step] else [])
  }

  lemma HostStepsAppend(steps: seq<Step>, step: Step)
    ensures HostSteps(steps + [step]) == HostSteps(steps) + (if IsHostStep(step) then [step] else [])
  {
    assert (steps + [step])[..|steps|] == steps;
  }

  lemma {:induction false} HostStepsConcat(a: seq<Step>, b: seq<Step>)
    ensures HostSteps(a + b) == HostSteps(a) + HostSteps(b)
  {
    if b == [] {
      assert a + b == a;
    } else {
      assert (a + b)[..|a + b| - 1] == a + b[..|b| - 1];
      HostStepsConcat(a, b[..|b| - 1]);
    }
  }

  lemma {:induction false} NoHostSteps(steps: seq<Step>)
    ensures HostSteps(steps) == [] <==> forall step :: step in steps ==> !IsHostStep(step)
  {
    if steps != [] {
      NoHostSteps(steps[..|steps| - 1]);
      assert steps == steps[..|steps| - 1] + [steps[|steps| - 1]];
    }
  }

  /** The host steps of the first n iterations of the drain loop: n reads, with
      a notification after every full batch. */
  function DrainScript(n: nat): seq<Step> {
    if n == 0 then [] else DrainScript(n - 1) + [Read] + (if n % BATCH == 0 then [Notify] else [])
  }

  /** All host steps of a `receive` that returns n words. */
  function ReceiveScript(n: nat): seq<Step> {
    [Poll] + DrainScript(n) + [Notify]
  }

  /** Credits posted inside the loop, and by a whole `receive` of n words. */
  function FullCredits(n: nat): seq<nat> {
    seq(n / BATCH, i => Credit(BATCH))
  }

  function ReceiveCredits(n: nat): seq<nat> {
    FullCredits(n) + [Credit(n % BATCH)]
  }

  /** One iteration of the drain loop begun with `readWords` words not notified:
      the counter afterwards, the steps taken and the credits posted. */
  function NextReadWords(readWords: nat): nat {
    if readWords + 1 > NUM_WORDS_TO_NOTIFY then 0 else readWords + 1
  }

  function IterationSteps(readWords: nat): seq<Step> {
    [Read] + (if readWords + 1 > NUM_WORDS_TO_NOTIFY then [Notify] else [])
  }

  function IterationCredits(readWords: nat): seq<nat> {
    if readWords + 1 > NUM_WORDS_TO_NOTIFY then [Credit(readWords + 1)] else []
  }

  lemma BatchArithmetic(n: nat)
    ensures if (n + 1) % BATCH == 0 then n % BATCH == NUM_WORDS_TO_NOTIFY && (n + 1) / BATCH == n / BATCH + 1
            else n % BATCH + 1 == (n + 1) % BATCH <= NUM_WORDS_TO_NOTIFY && (n + 1) / BATCH == n / BATCH
  {
  }

  lemma FullCreditsNext(n: nat)
    ensures FullCredits(n + 1) == FullCredits(n) + IterationCredits(n % BATCH)
  {
    BatchArithmetic(n);
  }

  /** The iterations of the loop add up to the closed forms. */
  lemma NextIteration(n: nat, steps: seq<Step>, credits: seq<nat>)
    ensures NextReadWords(n % BATCH) == (n + 1) % BATCH
    ensures steps + DrainScript(n) + IterationSteps(n % BATCH) == steps + DrainScript(n + 1)
    ensures credits + FullCredits(n) + IterationCredits(n % BATCH) == credits + FullCredits(n + 1)
  {
    BatchArithmetic(n);
    FullCreditsNext(n);
  }

  lemma ScriptAndCredits(n: nat, steps: seq<Step>, credits: seq<nat>)
    ensures steps + [Poll] + DrainScript(n) + [Notify] == steps + ReceiveScript(n)
    ensures credits + FullCredits(n) + [Credit(n % BATCH)] == credits + ReceiveCredits(n)
  {
  }

  lemma {:induction false} CreditSumRepeat(k: nat, words: nat)
    requires words < TWO_48
    ensures CreditSum(seq(k, i => Credit(words))) == k * words
  {
    if k > 0 {
      CreditRoundTrip(words);
      CreditSumRepeat(k - 1, words);
      assert seq(k, i => Credit(words)) == seq(k - 1, i => Credit(words)) + [Credit(words)];
      CreditSumAppend(seq(k - 1, i => Credit(words)), Credit(words));
    }
  }

  /** A `receive` of n words posts n / 31745 + 1 credits, all of 31745 words but the
      last, which carries the rest, so that they add up to n; the documented maximum
      is exceeded, by exactly one word, if and only if a full batch is reached. */
  lemma ReceiveCreditsExact(n: nat)
    ensures |ReceiveCredits(n)| == n / 31745 + 1
    ensures CreditSum(ReceiveCredits(n)) == n
    ensures forall i :: 0 <= i < n / 31745 ==> CreditedWords(ReceiveCredits(n)[i]) == 31745
    ensures CreditedWords(ReceiveCredits(n)[n / 31745]) == n % 31745
    ensures (exists i :: 0 <= i < |ReceiveCredits(n)| && CreditedWords(ReceiveCredits(n)[i]) > NUM_WORDS_TO_NOTIFY)
            <==> n > NUM_WORDS_TO_NOTIFY
  {
    CreditSumRepeat(n / BATCH, BATCH);
    CreditSumAppend(FullCredits(n), Credit(n % BATCH));
    CreditRoundTrip(BATCH);
    CreditRoundTrip(n % BATCH);
    if n > NUM_WORDS_TO_NOTIFY {
      assert CreditedWords(ReceiveCredits(n)[0]) > NUM_WORDS_TO_NOTIFY;
    }
  }
}
