/** The notification poller as a mutable object, with the thread's polling loop
    and its back-off, src/nhtl-extoll/notification_poller.cpp. The interleaving
    of its accesses is the subject of module PollerThreads. */
module PollerHost {
  import opened Bits
  import opened Notifications

  const MAX_WAIT: nat := 10_000

  /** What one probe of the port finds. */
  datatype Probe = NoNotification | InvalidPort | Found(n: Notification)

  datatype Outcome = Stopped | PortLost | UnknownClass

  /** Probes the loop survives. */
  predicate Harmless(p: Probe) {
    p.NoNotification? || (p.Found? && Known(p.n))
  }

  /** The notifications found by some probes, oldest first. */
  function FoundIn(probes: seq<Probe>): seq<Notification> {
    if probes == [] then []
    else
      var last := probes[|probes| - 1];
      FoundIn(probes[..|probes| - 1]) + (if last.Found? then [last.n] else [])
  }

  /** The number of unsuccessful probes since the last successful one. */
  function Misses(probes: seq<Probe>): (k: nat)
    ensures k <= |probes|
    ensures forall i :: |probes| - k <= i < |probes| ==> probes[i].NoNotification?
    ensures k < |probes| ==> !probes[|probes| - k - 1].NoNotification?
  {
    if probes == [] || !probes[|probes| - 1].NoNotification? then 0
    else Misses(probes[..|probes| - 1]) + 1
  }

  /** Waiting time in microseconds after some consecutive misses. */
  function BackOff(misses: nat): nat {
    if Pow2(misses) < MAX_WAIT then Pow2(misses) else MAX_WAIT
  }

  /** The wait after a probe: none after a notification; after a miss 1 us if it is
      the first one or follows a notification, else twice the wait before, at most
      10 ms. */
  predicate WaitDoubles(probes: seq<Probe>, waits: seq<nat>, i: nat)
    requires i < |probes| == |waits|
  {
    waits[i] == if !probes[i].NoNotification? then 0
                else if i == 0 || !probes[i - 1].NoNotification? then 1
                else if 2 * waits[i - 1] < 10_000 then 2 * waits[i - 1] else 10_000
  }

  predicate WaitsDouble(probes: seq<Probe>, waits: seq<nat>) {
    |waits| == |probes| && forall i :: 0 <= i < |probes| ==> WaitDoubles(probes, waits, i)
  }

  /** The waiting time in force after some probes. */
  function WaitPeriod(probes: seq<Probe>, waits: seq<nat>): nat
    requires |waits| == |probes|
  {
    if probes == [] || !probes[|probes| - 1].NoNotification? then 1
    else if 2 * waits[|probes| - 1] < MAX_WAIT then 2 * waits[|probes| - 1] else MAX_WAIT
  }

  lemma WaitsDoubleNext(probes: seq<Probe>, waits: seq<nat>, p: Probe)
    requires WaitsDouble(probes, waits)
    ensures WaitsDouble(probes + [p], waits + [if p.NoNotification? then WaitPeriod(probes, waits) else 0])
  {
    var more, longer := probes + [p], waits + [if p.NoNotification? then WaitPeriod(probes, waits) else 0];
    forall i | 0 <= i < |more|
      ensures WaitDoubles(more, longer, i)
    {
      if i < |probes| {
        assert WaitDoubles(probes, waits, i);
        assert more[i] == probes[i] && longer[i] == waits[i];
        assert i > 0 ==> more[i - 1] == probes[i - 1] && longer[i - 1] == waits[i - 1];
      }
    }
  }

  /** Doubling up to the maximum is the closed form. */
  lemma BackOffDoubles(misses: nat)
    ensures BackOff(0) == 1
    ensures BackOff(misses + 1) == if BackOff(misses) * 2 < MAX_WAIT then BackOff(misses) * 2 else MAX_WAIT
  {
  }

  /** Every wait is two to the power of the consecutive misses before it, at most
      10 ms. */
  lemma {:induction false} WaitIsBackOff(probes: seq<Probe>, waits: seq<nat>, i: nat)
    requires WaitsDouble(probes, waits) && i < |probes| && probes[i].NoNotification?
    ensures waits[i] == BackOff(Misses(probes[..i]))
    ensures waits[i] == if Pow2(Misses(probes[..i])) < 10_000 then Pow2(Misses(probes[..i])) else 10_000
  {
    BackOffDoubles(0);
    assert WaitDoubles(probes, waits, i);
    if i > 0 && probes[i - 1].NoNotification? {
      WaitIsBackOff(probes, waits, i - 1);
      BackOffDoubles(Misses(probes[..i - 1]));
      assert probes[..i][..i - 1] == probes[..i - 1];
    }
  }

  lemma ProbesAppend(probes: seq<Probe>, p: Probe)
    ensures FoundIn(probes + [p]) == if p.Found? then FoundIn(probes) + [p.n] else FoundIn(probes)
    ensures Misses(probes + [p]) == if p.NoNotification? then Misses(probes) + 1 else 0
  {
    assert (probes + [p])[..|probes|] == probes;
  }

  /** Nothing else is found in a sequence of probes than what each of them finds. */
  lemma {:induction false} FoundInConcat(a: seq<Probe>, b: seq<Probe>)
    ensures FoundIn(a + b) == FoundIn(a) + FoundIn(b)
  {
    if b == [] {
      assert a + b == a;
    } else {
      assert (a + b)[..|a + b| - 1] == a + b[..|b| - 1];
      FoundInConcat(a, b[..|b| - 1]);
    }
  }

  lemma FoundInOne(p: Probe)
    ensures FoundIn([p]) == if p.Found? then [p.n] else []
  {
    assert [p] == [] + [p];
    ProbesAppend([], p);
  }

  /** Counters that started at some values and have counted some notifications. */
  predicate Counted(packets: Word, notifications: Word, before: Poller, found: seq<Notification>) {
    && packets == Add64(before.packets, QueueWords(found))
    && notifications == Add64(before.notifications, QueueResponses(found))
  }

  lemma CountedNext(packets: Word, notifications: Word, before: Poller, found: seq<Notification>, n: Notification)
    requires Counted(packets, notifications, before, found) && Known(n)
    ensures var after := Pick(Poller([n], packets, notifications));
            Counted(after.packets, after.notifications, before, found + [n])
  {
    QueueWordsAppend(found, n);
    AddTwice(before.packets, QueueWords(found), Words(n));
    AddTwice(before.notifications, QueueResponses(found), if n.cls == RESPONSE_CLASS then 1 else 0);
  }

  /** Counting commutes with what consumers have taken. */
  lemma CountedNextTotal(packets: Word, notifications: Word, takenPackets: nat, takenResponses: nat,
                         before: Poller, found: seq<Notification>, n: Notification)
    requires Counted(Add64(packets, takenPackets), Add64(notifications, takenResponses), before, found) && Known(n)
    ensures var after := Pick(Poller([n], packets, notifications));
            Counted(Add64(after.packets, takenPackets), Add64(after.notifications, takenResponses), before, found + [n])
  {
    CountedNext(Add64(packets, takenPackets), Add64(notifications, takenResponses), before, found, n);
    AddSwap(packets, takenPackets, Words(n));
    AddSwap(notifications, takenResponses, if n.cls == RESPONSE_CLASS then 1 else 0);
    AddTwice(packets, takenPackets, 0);
    AddTwice(notifications, takenResponses, 0);
  }

  /** The counters of the poller that its thread and the consumers share. */
  class NotificationPoller {
    var packets: Word
    var notifications: Word

    // what consumers have taken so far
    ghost var takenPackets: nat
    ghost var takenResponses: nat

    constructor ()
      ensures packets == 0 && notifications == 0 && takenPackets == 0 && takenResponses == 0
    {
      packets, notifications, takenPackets, takenResponses := 0, 0, 0, 0;
    }

    /** Packets and responses counted so far, taken ones included. */
    ghost function AllPackets(): Word
      reads this
    {
      Add64(packets, takenPackets)
    }

    ghost function AllResponses(): Word
      reads this
    {
      Add64(notifications, takenResponses)
    }

    /** Any finite number of consumers come by. */
    method Interfere()
      modifies this
      ensures AllPackets() == old(AllPackets()) && AllResponses() == old(AllResponses())
    {
      var visits: nat := *;
      while visits > 0
        invariant AllPackets() == old(AllPackets()) && AllResponses() == old(AllResponses())
      {
        if * {
          var _ := ConsumePackets();
        } else {
          var _ := ConsumeResponse();
        }
        visits := visits - 1;
      }
    }

    /** The locked switch of the poller thread; false when the class is unknown. */
    method Count(n: Notification) returns (known: bool)
      modifies this`packets, this`notifications
      ensures known <==> n.cls == 0xca || n.cls == 0
      ensures packets == if n.cls == 0xca then (old(packets) + n.payload % 0x1_0000_0000) % TWO_64 else old(packets)
      ensures notifications == if n.cls == 0 then (old(notifications) + 1) % TWO_64 else old(notifications)
      ensures known == Known(n)
      ensures known ==> Poller([], packets, notifications) == Pick(Poller([n], old(packets), old(notifications)))
      ensures !known ==> packets == old(packets) && notifications == old(notifications)
    {
      known := true;
      if n.cls == PACKET_CLASS {
        packets := Add64(packets, Payload(n));
      } else if n.cls == RESPONSE_CLASS {
        notifications := Add64(notifications, 1);
      } else {
        known := false;
      }
    }

    /** The locked switch, with the totals kept for what was found before. */
    method CountFound(n: Notification, ghost before: Poller, ghost found: seq<Notification>) returns (known: bool)
      requires Counted(AllPackets(), AllResponses(), before, found)
      modifies this`packets, this`notifications
      ensures known == Known(n)
      ensures Counted(AllPackets(), AllResponses(), before, if known then found + [n] else found)
    {
      if Known(n) {
        CountedNextTotal(packets, notifications, takenPackets, takenResponses, before, found, n);
      }
      known := Count(n);
    }

    /** The loop of the poller thread over the results of its probes, until it is
        stopped or an exception ends it, while consumers take what they find.
        `handled` probes are dealt with: their packet words and responses are
        counted or taken, up to the width of the counters. The waits start with 1 us
        and double up to 10 ms, and start over after each notification. */
    method PollNotifications(probes: seq<Probe>) returns (outcome: Outcome, handled: nat, waits: seq<nat>)
      modifies this
      ensures handled <= |probes|
      ensures forall i :: 0 <= i < handled ==> Harmless(probes[i])
      ensures outcome == Stopped <==> handled == |probes|
      ensures outcome == PortLost <==> handled < |probes| && probes[handled].InvalidPort?
      ensures outcome == UnknownClass <==>
              handled < |probes| && probes[handled].Found? && !Known(probes[handled].n)
      ensures Counted(AllPackets(), AllResponses(), Poller([], old(AllPackets()), old(AllResponses())),
                      FoundIn(probes[..handled]))
      ensures WaitsDouble(probes[..handled], waits)
    {
      ghost var before := Poller([], AllPackets(), AllResponses());
      waits := [];
      var waitPeriod := 1;
      handled := 0;
      while handled < |probes|
        invariant handled <= |probes|
        invariant forall i :: 0 <= i < handled ==> Harmless(probes[i])
        invariant WaitsDouble(probes[..handled], waits)
        invariant waitPeriod == WaitPeriod(probes[..handled], waits)
        invariant Counted(AllPackets(), AllResponses(), before, FoundIn(probes[..handled]))
      {
        Interfere();
        var probe := probes[handled];
        assert probes[..handled + 1] == probes[..handled] + [probe];
        ProbesAppend(probes[..handled], probe);
        WaitsDoubleNext(probes[..handled], waits, probe);
        if probe.NoNotification? {
          waits := waits + [waitPeriod];
          waitPeriod := if waitPeriod * 2 < MAX_WAIT then waitPeriod * 2 else MAX_WAIT;
        } else if probe.InvalidPort? {
          outcome := PortLost;
          return;
        } else {
          waitPeriod := 1;
          var known := CountFound(probe.n, before, FoundIn(probes[..handled]));
          if !known {
            outcome := UnknownClass;
            return;
          }
          waits := waits + [0];
        }
        handled := handled + 1;
      }
      outcome := Stopped;
    }

    /** Takes all packets counted so far; the waiting time before the locked
        read is interference of the environment at the caller. */
    method ConsumePackets() returns (taken: Word)
      modifies this`packets, this`takenPackets
      ensures taken == old(packets) && packets == 0 && takenPackets == old(takenPackets) + taken
    {
      taken := packets;
      packets := 0;
      takenPackets := takenPackets + taken;
    }

    /** Takes one response if there is one. */
    method ConsumeResponse() returns (taken: bool)
      modifies this`notifications, this`takenResponses
      ensures taken <==> old(notifications) > 0
      ensures notifications == old(notifications) - (if taken then 1 else 0)
      ensures takenResponses == old(takenResponses) + (if taken then 1 else 0)
    {
      if notifications > 0 {
        notifications := notifications - 1;
        takenResponses := takenResponses + 1;
        return true;
      }
      return false;
    }
  }
}
