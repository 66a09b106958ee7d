# Verified model of the nhtl-extoll host library

The library connects a host to a remote FPGA over an Extoll network. This
project models its hard part in Dafny and proves it: the credit-based ring
buffer through which the FPGA streams trace data, together with the poller
thread that counts notifications, register access over request and completion
queues, the configuration sequence that starts a ring, and the scan of the node
list.

`dafny verify dfyconfig.toml` checks everything.

## What is modelled

**The ring protocol** (`Notifications`, `RingProtocol`, `RingRuns`,
`CreditSchedule`, `CreditBound`,
`RingLifecycle`). The FPGA writes quad words into a ring of
the host's memory and announces counts of words by notifications; the poller
thread adds the counts up; the host polls the count, reads words one by one and
sends back credits, which allow the FPGA to write again. The protocol is a
transition system with one step for every word written and every word read, so
that FPGA, network and poller interleave freely with the host's loops. Its
theorems hold for every run from a configured, empty ring, however often the
ring wraps around: what the host reads is what an unbounded first-in first-out
queue would deliver, no unread word is overwritten, words and credits are
conserved at every step, and no counter or bit mask loses anything.

**The host objects** (`PollerHost`, `RingHost`). The ring buffer and the
poller's counters are classes with the fields of the source. Between any two
accesses of the host an arbitrary finite number of environment steps is taken.
Every method is proved to be a sequence of protocol steps: the ghost field
`trace` records the run, and `Valid` says that the real fields are exactly where
that run leads. `Receive` therefore inherits all theorems about runs and, beyond
that, fixes the order of its own steps and the credits it posts.

**The poller's threads** (`PollerThreads`, `ThreadedRing`). The poller thread, its mutex and any
number of consumers with one memory access per step. Every interleaving is
proved to be a run of the atomic poller the ring protocol uses, so nothing is
lost or counted twice. `ThreadedRing` puts these threads under the ring: there a
poll is the sequence of the host thread's accesses inside `consume_packets`, and
FIFO delivery is proved for every interleaving of them. Waiting on the condition
variable is a free choice between going back to sleep while the predicate is false
and going on, which covers wake-ups, spurious wake-ups and timeouts.

**Flow control** (`FlowControl`, `FlowLiveness`). Packets of at most 62 words, the
nearly-full threshold and the notification frequency on top of the ring protocol.
An FPGA that looks at the threshold only when it begins a packet never writes
without credit. For every frequency and every threshold of at least a packet it
is shown exactly when a run can reach a state from which only the FPGA's timeout leads on; the defaults avoid
that if and only if the ring has at least two and fewer than 2^20 pages, as the
trace ring has. How often poller, host and credits can move is bounded by what
the FPGA and the idle steps of the host add, however all of them are scheduled.

**Registers and configuration** (`Registers`, `RegisterAccess`, `EndpointHost`,
`Configuration`, `Startup`). Bit-field registers as objects over one 64-bit word;
remote access as requests that are served later and completions that are taken one per
access; the ordered writes of `configure_fpga`, proved to leave every register
decoding to the configured value and, at each init write, that ring's registers
already configured. For the defaults, the parameters the FPGA then reads are
the defaults `FlowLiveness` is about, so a ring of at least two and fewer than
2^20 pages is started without danger of deadlock. `Startup` runs the sequence
together with the trace ring, FPGA and network, up to a ring ready for use.

**Node ids** (`NodeIds`). The scan loop over the printed node list as the
inverse of printing it, including the conversion errors, and the FPGA filter.

`Bits` and `Wrappers` hold machine arithmetic on natural numbers and the option
and result types. Unsigned 64-bit wrap-around, 32-bit casts, payload masks and
the OR of identifier and count are written out wherever the source has them.

## Assumptions about the environment

- Notifications arrive in the order in which they were sent, a word is in memory
  before the notification that announces it is counted, and an announcement
  carries a count below 2^32 in the low half of its payload. The upper half is
  arbitrary. Other notifications of class 0 may arrive at any time.
- The FPGA writes only while it holds credit. In `FlowControl` this is not
  assumed but proved from the packet size and the threshold.
- The FPGA is nearly full when the free bytes reach the threshold. Whether it
  may begin a packet with exactly the threshold free is left open by the
  source's comments; both readings are covered.
- The FPGA begins at most `frequency` packets between two announcements and
  announces when it has. Its timeout may make it announce earlier at any point,
  but no result relies on that: an announcement only the timeout permits does not
  count as going on.
- At most 2^64 - 1 bytes of memory are asked for, so that the byte size of a ring
  does not wrap around.
- Only the trace ring consumes packets from the shared poller.
- The ring has fewer than 2^32 words.
- Calls into librma2 succeed. Reading a register that does not exist or cannot
  be read leaves the response word as it was
  (`include/nhtl-extoll/connection.h:151-153`).

## Where the code differs from its comments

The model follows the code, and the exact consequence is proved.

- The destructor promises a last synchronisation, but adds the drained words to
  the read index only. The last credit is always 0, and once everything has
  settled the FPGA lacks exactly the drained words, for ever. It has its full
  credit again if and only if the drain found nothing
  (`RingLifecycle.ShutdownLeaksDrainedWords`). Before the call, with an FPGA that
  writes nothing meanwhile, that is certain if and only if no word is outstanding
  (`RingLifecycle.DrainLosesNothingIff`); every word counted before the
  destructor runs is among them (`RingHost.RingBuffer.Destroy`), and one word is
  enough (`RingLifecycle.DrainedWordIsLost`).
  Crediting them as well would repair it (`IntendedShutdownConserves`).
- The batch test is a strict comparison, so a credit may carry 31745 words, one
  more than the documented maximum, exactly when a `receive` returns more than
  31744 words (`CreditSchedule.ReceiveCreditsExact`). A ring lets that happen if
  and only if it has more than 62 pages (`CreditBound.CreditExceedsIff`).
- `reset` leaves the poller's count alone. Re-initialisation is safe if and only
  if no announcement, count or credit of the previous epoch is under way at the
  init write (`RingLifecycle.ReinitSafeIffNothingStale`). Any stale announcement
  or count makes the host hand out a word that was never written
  (`StaleWordsYieldUnwrittenWord`), and any stale credit lets the FPGA overwrite
  an unread one (`StaleCreditOverwrites`).
- The default frequency wraps around for an empty ring and is 0 for a ring of
  one page; the size cast is exact if and only if the ring has fewer than 2^20
  pages (`FlowControl.DefaultConfigExact`). The HICANN ring has one page. If the
  FPGA takes its frequency of 0 literally it can never begin a packet
  (`FlowLiveness.FrequencyZeroStaysEmpty`); if it announces after every packet the
  ring never depends on the timeout (`FlowLiveness.EndpointRings`).
- The setters of `Info` never clear bits, so the node id written by
  `configure_fpga` reads back if and only if the register held no node-id bit
  that the new id lacks (`Configuration.NodeIdAfterwards`).
- Each setter of the notification-behaviour registers erases the other field
  (`Registers.SettersEraseSibling`).
- `ping` documents an answer within 1 ms; its twenty probes wait for up to
  10.485750 s, and 1 ms is exceeded from the seventh miss on
  (`EndpointHost.PingWaitBounds`). A ping that gives up leaves one completion
  behind, which no later access removes and which shifts every answer by one
  access if the FPGA is slow (`RegisterAccess.SurplusShiftsAnswers`). The next
  read is right under every schedule if and only if the answer to the ping equals
  the register (`EndpointHost.ReadAfterGivenUpPing`).

## Model

| member | source | states |
|---|---|---|
| Notifications.PickCounts | src/nhtl-extoll/notification_poller.cpp:47-62 | counting the oldest notification adds the low 32 bits of a class-0xca payload, or one response for class 0, modulo 2^64 |
| Notifications.TotalsOfConcat | src/nhtl-extoll/notification_poller.cpp:52-58 | the totals of two queues in a row are the sums of their totals |
| Notifications.TotalsOfOne | src/nhtl-extoll/notification_poller.cpp:47-58 | the totals of a single notification, and of none |
| Bits.OrByBits | src/nhtl-extoll/buffer.cpp:190 | OR works on each bit alone |
| Bits.AndByBits | src/nhtl-extoll/notification_poller.cpp:48 | AND works on each bit alone |
| RingProtocol.CreditRoundTrip | src/nhtl-extoll/buffer.cpp:188-193 | ORing the shifted identifier and a count below 2^48 gives a 64-bit payload with 0x0ca5 in its upper 16 bits, from which the count is recovered |
| RingProtocol.CountersExact | src/nhtl-extoll/notification_poller.cpp:48-55 | in every state of the invariant the unread counts, the poller's and the ring's together, are at most the ring size, so neither 64-bit addition wraps |
| RingProtocol.AnnouncementWords | src/nhtl-extoll/notification_poller.cpp:48-55 | the masked payload of an announcement is its word count whatever its upper half holds |
| RingProtocol.NoOverwrite | src/nhtl-extoll/buffer.cpp:165-193 | while the FPGA holds credit its next slot differs from the slot of every unread word, and its occupancy is never below the true number of unread words |
| RingProtocol.ReadKeepsInv | src/nhtl-extoll/buffer.cpp:172-176 | the word at the read index is the oldest unread word the FPGA wrote, and reading it keeps the invariant across the wrap-around |
| RingProtocol.NotifyKeepsInv | src/nhtl-extoll/buffer.cpp:188-193 | moving the read count into a credit conserves credits |
| RingProtocol.StepKeepsInv | src/nhtl-extoll/buffer.cpp:165-200 | every step of FPGA, network, poller and host keeps both conservation laws, both indices, the occupancy bound, the prefix property and the content of all unread slots |
| RingRuns.ReachableInv | src/nhtl-extoll/buffer.cpp:165-200 | the joint invariant holds after every run of any length and interleaving |
| RingRuns.StepRefinesFifo | src/nhtl-extoll/buffer.cpp:172-186 | each step is the corresponding step of an unbounded queue, or invisible to it |
| RingRuns.RingRefinesFifo | src/nhtl-extoll/buffer.cpp:165-200 | along every run the host reads exactly what an unbounded first-in first-out queue delivers, and the unread words are the queue's content |
| RingRuns.ReadsArePrefixOfWrites | src/nhtl-extoll/buffer.cpp:165-200 | all words read so far are a prefix of the words the FPGA wrote, behind by at most the ring size |
| RingRuns.RunNeverOverwrites | src/nhtl-extoll/buffer.cpp:172-192 | a write at the end of any run, also amid a `receive`, goes to a slot without an unread word |
| RingRuns.RunConserves | src/nhtl-extoll/buffer.cpp:188-200 | both conservation laws after every run, and in a quiescent state everything written was read and the FPGA has its full credit |
| RingRuns.ReadEnabled | src/nhtl-extoll/buffer.cpp:172-174 | a word counted for the host can be read at an index inside the buffer |
| RingRuns.PollExact | src/nhtl-extoll/buffer.cpp:195-200 | what a poll adds to the readable words is exact and stays within the ring size |
| CreditSchedule.NextIteration | src/nhtl-extoll/buffer.cpp:172-181 | one loop iteration takes the read counter, the host's steps and the posted credits from their closed forms for n words to those for n + 1 |
| CreditSchedule.ReceiveCreditsExact | src/nhtl-extoll/buffer.cpp:172-183 | a `receive` of n words posts n / 31745 + 1 credits, all of 31745 words but the last, which carries n mod 31745; they sum to n, and one exceeds the documented maximum if and only if n is greater than 31744 |
| CreditBound.ReceivableIff | src/nhtl-extoll/buffer.cpp:165-186 | one `receive` can return exactly the word counts up to the ring size, and no more whatever the environment does |
| CreditBound.CreditExceedsIff | src/nhtl-extoll/buffer.cpp:178-180 | a ring can make the host post a credit above the documented maximum if and only if it has more than 62 pages |
| RingLifecycle.ResetCommutes | src/nhtl-extoll/configure_fpga.cpp:33-38 | everything that happens between the init write and the reset happens in the same way when the reset comes first |
| RingLifecycle.StaleAccounting | src/nhtl-extoll/configure_fpga.cpp:33-38 | words and credits counted after the init write exceed those of the new epoch by exactly the stale ones |
| RingLifecycle.ReinitSafeIffNothingStale | src/nhtl-extoll/configure_fpga.cpp:33-38 | for every activity between init write and reset the protocol invariant holds after the reset if and only if no word or credit of the previous epoch was under way |
| RingLifecycle.StaleWordsYieldUnwrittenWord | src/nhtl-extoll/configure_fpga.cpp:33-38 | whenever any stale word is announced or counted there is a run after the reset that hands the host a memory word although none was written |
| RingLifecycle.StaleCreditOverwrites | src/nhtl-extoll/configure_fpga.cpp:33-38 | whenever any stale credit is in flight there is a run after the reset in which the FPGA holds credit to write onto the slot of an unread word |
| RingLifecycle.LeakIsPermanent | src/nhtl-extoll/buffer.cpp:130-141 | without host steps, words nobody will credit stay uncredited for ever |
| RingLifecycle.ShutdownLeaksDrainedWords | src/nhtl-extoll/buffer.cpp:130-137 | after the destructor and whatever follows, exactly the drained words stay uncredited, and the FPGA regains its full credit if and only if there were none |
| RingLifecycle.DrainedWordIsLost | src/nhtl-extoll/buffer.cpp:130-137 | from every empty ring, one word written, announced, picked up and polled is uncredited for ever after the shutdown |
| RingLifecycle.DrainLosesNothingIff | src/nhtl-extoll/buffer.cpp:130-137 | before the destructor, with an FPGA that writes nothing meanwhile, no course of the drain loop ends with words to drop if and only if no word is outstanding |
| RingLifecycle.IntendedShutdownConserves | include/nhtl-extoll/buffer.h:103-104 | the last synchronisation the documentation intends, with drained words credited, conserves all credit |
| FlowControl.DefaultConfigExact | src/nhtl-extoll/configure_fpga.cpp:58-61 | for every page count: the size cast is exact exactly below 2^20 pages, the unsigned subtraction is non-negative exactly from 1 page on and 0 exactly for 1, the frequency is exact exactly for 1 to 31 * 2^24 pages, and from 1 page on frequency times packet size plus twice the threshold fits the ring |
| FlowControl.FlowRefinesProtocol | include/nhtl-extoll/configure_fpga.h:36-48 | checking the threshold once per packet suffices for the FPGA never to write without credit, and the flow-control invariant is kept |
| FlowControl.FlowRunRefinesRun | include/nhtl-extoll/configure_fpga.h:36-48 | every flow-controlled run projects to a run of the ring protocol with the same ring |
| FlowControl.FlowRunExtends | include/nhtl-extoll/configure_fpga.h:36-48 | after any flow-controlled run, every step flow control allows is also allowed by the protocol and continues the run |
| FlowLiveness.TransitHasProgress | src/nhtl-extoll/buffer.cpp:165-200 | whenever words are announced but not credited some poller, host or credit step is possible |
| FlowLiveness.PacedGoesOn | include/nhtl-extoll/configure_fpga.h:36-48 | with a frequency of at least 1 and all packets but the last before an announcement unable to reach the threshold, in every state the FPGA can begin a packet, or announces on its count, or a poller, host or credit step makes progress |
| FlowLiveness.UnpacedGetsStuck | include/nhtl-extoll/configure_fpga.h:36-48 | otherwise full packets alone lead from an empty ring into a state from which only the timeout leads on |
| FlowLiveness.DeadlockFreeIffPaced | include/nhtl-extoll/configure_fpga.h:36-48 | for every threshold of at least a packet and every frequency, no run ever depends on the timeout if and only if that condition on threshold, frequency and size holds |
| FlowLiveness.DeadlockFreeIff | src/nhtl-extoll/configure_fpga.cpp:58-61 | for 1 to 2^23 - 1 pages with the defaults, no run ever depends on the timeout if and only if there are at least 2 and fewer than 2^20 pages |
| FlowLiveness.NearlyFullHasWordsInTransit | include/nhtl-extoll/configure_fpga.h:45-48 | if all packets up to an announcement stay clear of the threshold, a nearly full FPGA always has announced words not yet credited |
| FlowLiveness.DefaultsLeaveRoom | src/nhtl-extoll/configure_fpga.cpp:58-61 | the defaults stay clear of the threshold for 1 to 2^20 - 1 pages |
| FlowLiveness.EveryRunIsSafeAndLive | src/nhtl-extoll/configure_fpga.cpp:58-61 | for 1 to 2^20 - 1 pages every flow-controlled run from an empty ring with the defaults is a run of the ring protocol, keeps its invariant and has a progress step when nearly full; from 2 pages on it never depends on the timeout |
| FlowLiveness.EndpointRings | src/nhtl-extoll/connection.cpp:82-83 | the trace ring never depends on the timeout; the HICANN ring does if a frequency of 0 is taken literally and does not if it means an announcement after every packet |
| FlowLiveness.FrequencyZeroStaysEmpty | src/nhtl-extoll/connection.cpp:82 | with a literal frequency of 0 no run ever writes a word |
| FlowLiveness.ProgressDecreases | src/nhtl-extoll/buffer.cpp:165-200 | every progress step lowers a measure of the words and messages under way |
| FlowLiveness.ProgressIsBounded | src/nhtl-extoll/buffer.cpp:165-200 | however FPGA, network, poller and host are scheduled, a run has no more progress steps than the measure of its first state plus six for each word written and one for each message the other steps send |
| FlowLiveness.NoProgressLeft | src/nhtl-extoll/buffer.cpp:165-200 | where no progress step is left every announced word is credited |
| FlowLiveness.StallEnds | include/nhtl-extoll/configure_fpga.h:36-48 | with the defaults, once progress steps are exhausted, after boundedly many in any run, the FPGA is not nearly full |
| PollerHost.BackOffDoubles | src/nhtl-extoll/notification_poller.cpp:31-40 | the closed form min(2^k, 10000) us starts with 1 and doubles up to the cap |
| PollerHost.WaitIsBackOff | src/nhtl-extoll/notification_poller.cpp:31-45 | each wait is min(2^k, 10000) us after exactly k consecutive misses before it |
| PollerHost.FoundInConcat | src/nhtl-extoll/notification_poller.cpp:34-49 | what a sequence of probes finds is what its parts find, in order |
| PollerHost.FoundInOne | src/nhtl-extoll/notification_poller.cpp:34-49 | a single probe finds its notification or nothing |
| PollerHost.CountedNext | src/nhtl-extoll/notification_poller.cpp:47-62 | counting one more notification adds its words or response to the totals of all notifications found, modulo 2^64 |
| PollerHost.NotificationPoller.Count | src/nhtl-extoll/notification_poller.cpp:47-62 | class 0xca adds the low 32 bits of the payload, class 0 adds one response, any other class is reported and changes nothing |
| PollerHost.NotificationPoller.PollNotifications | src/nhtl-extoll/notification_poller.cpp:25-66 | whatever consumers take meanwhile, counters plus what was taken grow by exactly the notifications up to the first fatal probe; the loop stops for exactly that reason; the wait after a miss is 1 us at the start and after every notification and else twice the wait before, at most 10 ms |
| PollerHost.NotificationPoller.ConsumePackets | src/nhtl-extoll/notification_poller.cpp:79-86 | returns the whole count and leaves zero |
| PollerHost.NotificationPoller.ConsumeResponse | src/nhtl-extoll/notification_poller.cpp:68-77 | true exactly when a response was counted, which is then taken |
| PollerThreads.ActRefinesAtomic | src/nhtl-extoll/notification_poller.cpp:51-86 | every single access of every thread keeps the lock exclusive and is one step of the atomic poller or invisible |
| PollerThreads.ResponseTakenIff | src/nhtl-extoll/notification_poller.cpp:68-77 | on single accesses: whenever the answer of a `consume_response` is determined it is true exactly if a response is counted, which is then taken |
| PollerThreads.PacketsTakenExact | src/nhtl-extoll/notification_poller.cpp:79-86 | whenever the answer of a `consume_packets` is determined it is the whole count, and zero is left |
| PollerThreads.ConsumePacketsAlone | src/nhtl-extoll/notification_poller.cpp:79-86 | a call that runs alone completes, even with nothing counted, returns the count and changes nothing else |
| PollerThreads.ConsumeResponseAlone | src/nhtl-extoll/notification_poller.cpp:68-77 | a call that runs alone completes, takes one response if there is one and says so, and changes nothing else |
| PollerThreads.PollerRoundAlone | src/nhtl-extoll/notification_poller.cpp:34-64 | one round of the poller thread that runs alone counts the oldest notification, or ends the thread for an unknown class |
| PollerThreads.HolderCanAct | src/nhtl-extoll/notification_poller.cpp:50-86 | whichever thread holds the lock has a next access, so the lock never deadlocks |
| PollerThreads.WaitIsSound | src/nhtl-extoll/notification_poller.cpp:71-82 | a consumer goes to sleep, releasing the lock, only when nothing of its kind is counted, and can always go on as after a timeout |
| PollerThreads.RunRefinesAtomic | src/nhtl-extoll/notification_poller.cpp:25-86 | every interleaving has a run of the atomic poller with the same arrivals and the same results in the same order |
| PollerThreads.StepConserves | src/nhtl-extoll/notification_poller.cpp:45-86 | each atomic step keeps the balance between what arrived and what is queued, counted or handed out |
| PollerThreads.NothingLostOrCountedTwice | src/nhtl-extoll/notification_poller.cpp:45-86 | for every interleaving of the poller thread with any number of consumers, results handed out plus counters plus queue equal the arrivals: modulo 2^64 always, exactly as long as they fit |
| ThreadedRing.MoveRefinesRing | src/nhtl-extoll/notification_poller.cpp:25-86 | every access of the poller thread or a consumer, the host thread inside `consume_packets` included, is one step of the ring protocol or invisible to it |
| ThreadedRing.RunRefinesRing | src/nhtl-extoll/buffer.cpp:195-200 | every interleaving of threads, FPGA and network is a run of the ring protocol, with words taken but not yet added counted as readable |
| ThreadedRing.ThreadedRingIsFifo | src/nhtl-extoll/buffer.cpp:165-200 | for every such interleaving what the host read is a prefix of what the FPGA wrote, no unread word is overwritten, and the run is one of the unbounded queue |
| RingRuns.CountedWordsStay | src/nhtl-extoll/notification_poller.cpp:51-63 | in every run only the host takes words out of the poller; no other step lowers its count |
| RingHost.Fabric.Move | include/nhtl-extoll/buffer.h:74-77 | every move of FPGA, network or poller on the shared objects is one step of the protocol |
| RingHost.EnvironmentIsProtocol | include/nhtl-extoll/buffer.h:74-77 | FPGA, network and poller may take exactly the protocol steps that are not the host's |
| RingHost.RingBuffer.constructor | src/nhtl-extoll/buffer.cpp:112-128 | sizes in bytes and words from pages, and zero counters |
| RingHost.RingBuffer.Poll | src/nhtl-extoll/buffer.cpp:195-200 | one poll step after arbitrary interference; true exactly when the poller held words, which are then readable, at least those counted before the call and at most the ring size in all |
| RingHost.RingBuffer.Notify | src/nhtl-extoll/buffer.cpp:188-193 | posts the packed read count and zeroes it, nothing else |
| RingHost.RingBuffer.DrainOne | src/nhtl-extoll/buffer.cpp:172-181 | one iteration under interference reads the next word and notifies exactly when the batch is full |
| RingHost.RingBuffer.Drain | src/nhtl-extoll/buffer.cpp:172-181 | the loop reads exactly the readable words, with one full credit per 31745 words, whatever the environment does in between |
| RingHost.RingBuffer.Receive | src/nhtl-extoll/buffer.cpp:165-186 | the returned words are the next ones the FPGA wrote; the host's steps and the posted credits are the closed forms for that many words; everything counted before the call is among them, and nothing is left to read or to notify |
| RingHost.RingBuffer.Reset | src/nhtl-extoll/buffer.cpp:202-207 | clears the three counters and leaves poller, memory and network alone |
| RingHost.RingBuffer.DrainPoller | src/nhtl-extoll/buffer.cpp:132-133 | the drain loop ends against any FPGA, and only with a poll that found nothing; it collects at least what was counted before it and at most a ring, and issues no credit |
| RingHost.RingBuffer.Destroy | src/nhtl-extoll/buffer.cpp:130-141 | after a last poll that found nothing the drained words advance the read index and are dropped; the last credit is always 0; the words dropped are at least those counted before the call and at most those outstanding before it and those written since |
| RingHost.Reinitialise | src/nhtl-extoll/configure_fpga.cpp:33-38 | after init write, interference and reset the ring is in its invariant if and only if nothing stale was under way |
| Registers.GetAfterOverwrite | src/nhtl-extoll/configure_fpga.cpp:77-119 | an overwriting setter gives its field the value modulo the field's width and leaves every disjoint field alone |
| Registers.HostFieldsIndependent | src/nhtl-extoll/configure_fpga.cpp:68-119 | after any sequence of setters every field reads as its last value modulo its width, and the bits of no field are kept |
| Registers.HostFieldsDetermineWord | src/nhtl-extoll/configure_fpga.cpp:77-95 | the four getters and the unused bits determine the register word |
| Registers.HostEndpointConstruction | src/nhtl-extoll/configure_fpga.cpp:68-75 | the ORing constructor gives the same word as the four setters |
| Registers.HostEndpointReadsBack | src/nhtl-extoll/configure_fpga.cpp:68-95 | all four constructor arguments read back modulo 2^16, 2^16, 2^10 and 2^6 |
| Registers.HostEndpointNumber | src/nhtl-extoll/configure_fpga.cpp:68-75 | the register word as a number: the four values modulo their widths at bits 0, 16, 32 and 42 |
| Registers.OverwriteOnlySets | src/nhtl-extoll/configure_fpga.cpp:97-119 | masking and ORing sets one field modulo its width and keeps the others and the unused bits, and no other word does |
| Registers.HostEndpoint.SetNodeId | src/nhtl-extoll/configure_fpga.cpp:97-101 | the field reads the value modulo 2^16, the other three fields and the unused bits are kept |
| Registers.HostEndpoint.SetProtectionDomain | src/nhtl-extoll/configure_fpga.cpp:103-107 | the field reads the value modulo 2^16, everything else is kept |
| Registers.HostEndpoint.SetVpid | src/nhtl-extoll/configure_fpga.cpp:109-113 | the field reads the value modulo 2^10, everything else is kept |
| Registers.HostEndpoint.SetMode | src/nhtl-extoll/configure_fpga.cpp:115-119 | the field reads the value modulo 2^6, everything else is kept |
| Registers.NotificationBehaviourReadsBack | src/nhtl-extoll/configure_fpga.cpp:176-190 | timeout and frequency read back from the constructed word modulo 2^32 |
| Registers.NotificationBehaviourNumber | src/nhtl-extoll/configure_fpga.cpp:176-180 | the register word as a number: the timeout in the low and the frequency in the high 32 bits |
| Registers.AssignNumber | src/nhtl-extoll/configure_fpga.cpp:192-200 | the whole word each setter leaves, as a number |
| Registers.SettersEraseSibling | src/nhtl-extoll/configure_fpga.cpp:192-200 | setting one field makes the other read 0, so both survive if and only if the first was 0 |
| Registers.InfoReadsBack | src/nhtl-extoll/configure_fpga.cpp:356-368 | all five constructor arguments read back modulo their widths |
| Registers.InfoWordNumber | src/nhtl-extoll/configure_fpga.cpp:356-363 | the register word as a number: the five values modulo their widths at bits 0, 24, 40, 48 and 52 |
| Registers.InfoFieldsAccumulate | src/nhtl-extoll/configure_fpga.cpp:356-413 | any sequence of setters leaves each field with the OR of its old bits and all values given to it, without spilling into other fields |
| Registers.NodeIdReadsBackIffSubset | src/nhtl-extoll/configure_fpga.cpp:375-383 | a node id reads back if and only if the old bits are a subset of the new ones |
| RegisterAccess.PairedAccess | src/nhtl-extoll/connection.cpp:156-185 | with nothing outstanding an access takes effect before it returns and leaves nothing outstanding |
| RegisterAccess.PairedAccessResult | src/nhtl-extoll/connection.cpp:156-185 | with nothing outstanding a read delivers the register and changes none, a write replaces that register only, and where there is no register nothing happens |
| RegisterAccess.PairedAccessIsRegisterFile | src/nhtl-extoll/connection.cpp:156-185 | every sequence of accesses under every schedule answers like a plain register file |
| RegisterAccess.ReadReturnsLastWrite | src/nhtl-extoll/connection.cpp:156-185 | each read of an existing register returns the value last written to that address |
| RegisterAccess.SurplusIsInvariant | src/nhtl-extoll/connection.cpp:156-185 | no access changes the number of completions left over |
| RegisterAccess.SurplusShiftsAnswers | src/nhtl-extoll/connection.cpp:126-171 | with one completion left over, a slow FPGA makes every access deliver the answer to the one before |
| RegisterAccess.ReadReliableIff | src/nhtl-extoll/connection.cpp:156-171 | for every path, whatever is outstanding: a read is right under every schedule if and only if each answer that can be there with a left-over completion already equals it |
| RegisterAccess.CleanReadsRight | src/nhtl-extoll/connection.cpp:156-171 | with nothing outstanding a read is right under every schedule |
| RegisterAccess.PendingReadRightIff | src/nhtl-extoll/connection.cpp:126-171 | with one read still under way, a read is right if and only if the pending read's answer equals its register |
| RegisterAccess.ServedReadRightIff | src/nhtl-extoll/connection.cpp:156-171 | with every request served, a read is right if and only if no completion is left over or the response word already equals the register |
| EndpointHost.ReadAfterGivenUpPing | src/nhtl-extoll/connection.cpp:126-171 | after a ping gave up on a clean path, the next read is right under every schedule if and only if the answer to the ping equals the register |
| EndpointHost.GivenUpPingMisleadsRead | src/nhtl-extoll/connection.cpp:126-171 | a concrete path and schedule on which a read after such a ping returns the identifier instead of its register |
| EndpointHost.PingWaitBounds | include/nhtl-extoll/connection.h:102-104 | the nominal wait 10 * (2^k - 1) us stays within the documented 1 ms only for fewer than seven misses and reaches 10.485750 s after twenty |
| EndpointHost.Endpoint.Ping | src/nhtl-extoll/connection.cpp:126-154 | succeeds with the effect of one access, or gives up after exactly twenty misses with nothing served and its own request left behind; its accumulated wait is the closed form |
| EndpointHost.Connect | src/nhtl-extoll/connection.cpp:76-89 | an endpoint exists if and only if the FPGA serves the ping within its twenty probes, and then nothing is outstanding and no register changed |
| EndpointHost.Endpoint.RraRead | src/nhtl-extoll/connection.cpp:156-171 | one access of the path for some schedule; with nothing outstanding it returns the register and changes none; the send buffer is left alone |
| EndpointHost.Endpoint.RraWrite | src/nhtl-extoll/connection.cpp:173-185 | one access of the path for some schedule; with nothing outstanding the register holds the value afterwards and no other changes; the send buffer is left alone |
| EndpointHost.Endpoint.WriteSend | src/nhtl-extoll/buffer.cpp:97-110 | changes one word of the send buffer, an array of its own, so that reading the index back gives it and every other index is unchanged; the response page is never disturbed |
| Configuration.ConfiguredAtInit | src/nhtl-extoll/configure_fpga.cpp:9-36 | at the init write of each ring its four registers already hold the configured words |
| Configuration.ConfiguredAfterwards | src/nhtl-extoll/configure_fpga.cpp:7-45 | after the whole sequence every configuration register holds its word, whatever it held before |
| Configuration.RingReadsBack | src/nhtl-extoll/configure_fpga.cpp:143-190 | the words written for a ring decode to its configuration modulo the register widths |
| Configuration.ScriptInNumbers | src/nhtl-extoll/configure_fpga.cpp:7-45 | every access of the configuration in order, with its literal address and the number written, the two init registers receiving 1 and the counter resets written, with 1, if and only if asked for |
| Configuration.ResetPosition | src/nhtl-extoll/configure_fpga.cpp:33-38 | the accesses before the host's resets end with a 1 to the trace and then to the HICANN init register |
| Configuration.DefaultRingExact | src/nhtl-extoll/configure_fpga.cpp:58-61 | the defaults of a ring: its own address and size, a threshold of four full packets, a timeout of 256 cycles, no counter reset, a frequency of eight packets less than the ring holds |
| Configuration.ConfigurationFaithful | src/nhtl-extoll/configure_fpga.cpp:7-45 | for every configuration and every initial register file, decoding any configuration register gives the configured value modulo its width, for each ring already at its init write |
| Configuration.NodeIdAfterwards | src/nhtl-extoll/configure_fpga.cpp:42-44 | after the sequence the node id reads back from Info if and only if its old node-id bits are a subset of the new ones |
| Configuration.FlowControlAtInit | src/nhtl-extoll/configure_fpga.cpp:47-65 | with the defaults the FPGA reads at each init write the default parameters for the ring's page count, and with what it reads a ring of 1 to 2^23 - 1 pages never depends on its timeout if and only if it has at least 2 and fewer than 2^20 |
| Configuration.ConfigureRing | src/nhtl-extoll/configure_fpga.cpp:24-31 | performs the ring's accesses in order, the counter reset only on request, each paired with its own completion |
| Configuration.UpdateInfo | src/nhtl-extoll/configure_fpga.cpp:42-44 | reads Info, adds the node id's bits and writes it back |
| Configuration.ConfigureFpga | src/nhtl-extoll/configure_fpga.cpp:7-45 | the accesses are exactly the script, in order, the registers are what it makes of the old ones, and both rings are reset after both init writes and before the next access |
| Configuration.ConfigureDefaults | src/nhtl-extoll/configure_fpga.cpp:47-65 | each ring gets its own address and the defaults for its own size, the response address, node and vpid go to their fields, with protection domain 0, mode 4 and packet closure 512; the configuration is performed with these |
| Startup.PrepareRings | src/nhtl-extoll/configure_fpga.cpp:9-33 | up to the trace init write nothing becomes stale if everything had arrived and the FPGA writes nothing |
| Startup.StartRings | src/nhtl-extoll/configure_fpga.cpp:33-38 | from the trace init write to the resets under interference: with nothing stale at the init write the trace ring is ready for use |
| Startup.ConfigureAndStart | src/nhtl-extoll/configure_fpga.cpp:7-45 | the whole register sequence with the environment moving in between leaves the registers as the script makes them, both rings reset, and the trace ring ready for use, if nothing was stale at its init write, in particular if all was settled before and the FPGA wrote nothing until then |
| NodeIds.GetAllNodeIds | src/nhtl-extoll/get_node_ids.cpp:30-43 | the scan loop ends and returns the converted texts between brackets and bars in order, or the first conversion error |
| NodeIds.EveryOutputIsRendered | src/nhtl-extoll/get_node_ids.cpp:30-43 | every text has the form of a printed list, and the pieces scanned are the texts of that list |
| NodeIds.ConvertAllExact | src/nhtl-extoll/get_node_ids.cpp:37-38 | the ids are the converted pieces, one by one, cut to 16 bits; else the error is that of the first piece that fails |
| NodeIds.StoIExact | src/nhtl-extoll/get_node_ids.cpp:37 | white space, an optional sign and digits are read and the rest is ignored; without a digit it is no number, beyond 32 bits out of range |
| NodeIds.StoIForm | src/nhtl-extoll/get_node_ids.cpp:37 | every text has the form of the conversion's description |
| NodeIds.DecimalDigits | src/nhtl-extoll/get_node_ids.cpp:37 | digits are read in base ten, and which characters count as digits and white space |
| NodeIds.StoIOfDecimal | src/nhtl-extoll/get_node_ids.cpp:37 | the conversion inverts decimal printing of 16-bit ids |
| NodeIds.NodeListRoundTrip | src/nhtl-extoll/get_node_ids.cpp:30-43 | scanning a printed list of 16-bit ids gives the list back whatever bracket-free text surrounds the entries; only an unterminated last entry is dropped |
| NodeIds.FilterKeepsOrder | src/nhtl-extoll/get_node_ids.cpp:79-84 | the filtered list is the subsequence of the ids at exactly the positions of FPGAs, in order |
| NodeIds.GetFpgaNodeIds | src/nhtl-extoll/get_node_ids.cpp:79-84 | computes that list |
| NodeIds.GetFpgaNodeId | src/nhtl-extoll/get_node_ids.cpp:86-93 | returns the first FPGA id, or the error exactly when there is none |

## Left out

- PhysicalBuffer: opening the device, mapping memory, allocation and region registration are calls into the system; the buffer is an array and addresses are parameters.
- Connection: opening and closing wraps librma2; only the queues behind it are modelled.
- Errors of librma2: failed posts, probes and blocking waits that raise exceptions are outside; the register model covers successful calls.
- Poller thread end: an invalid port and an unknown class end the poller thread; that the uncaught exception also ends the process is not part of the model.
- Time: sleeping, the 20 ms timeout of a poll and CPU affinity are replaced by arbitrary interference; only nominal waiting times are computed.
- Starting the poller thread before its mutex is constructed: object construction order in C++ is not modelled.
- HICANN ring: it shares the poller and would notify with the trace identifier; it is configured and reset here but receives no words.
- rma_send: posts the send buffer to the FPGA without any answer.
- Single-field registers: they appear as entries of the configuration sequence only.
- check_is_fpga: reads the environment and runs grep; it is an arbitrary predicate on node ids.
- Reading the tool's output: the concatenated text is the input of the scan.
- PollerHost.NotificationPoller.PollNotifications: consumers move between its locked sections as a whole; the interleaving of single accesses is the subject of PollerThreads.
- RingHost.Reinitialise: models the interval from the trace init write to the trace reset; the HICANN init write within it concerns a ring that receives no words.
- Configuration.ConfigureFpga: register words and resets of the host counters alone; Startup.ConfigureAndStart adds the rings and the interference on them.
- Move construction and destruction order of the host objects.
