/** The notification poller seen as an atomic object: what one locked section
    of src/nhtl-extoll/notification_poller.cpp does to the shared counters. */
module Notifications {
  import opened Bits

  const PACKET_CLASS: nat := 0xca
  const RESPONSE_CLASS: nat := 0x0

  /** A put notification: its class byte and its 64-bit payload. */
  datatype Notification = Notification(cls: nat, payload: Word)

  predicate Known(n: Notification) {
    n.cls == PACKET_CLASS || n.cls == RESPONSE_CLASS
  }

  /** The counters behind the mutex and the hardware queue in front of them. */
  datatype Poller = Poller(queue: seq<Notification>, packets: Word, notifications: Word)

  /** The payload masked to its low 32 bits, as read by the poller thread. */
  function Payload(n: Notification): (w: nat)
    ensures w == n.payload % TWO_32
  {
    AndOfMask(n.payload, 32);
    PowersOfTwo();
    And(n.payload, 0xffff_ffff)
  }

  /** Packet words one notification stands for. */
  function Words(n: Notification): nat {
    if n.cls == PACKET_CLASS then Payload(n) else 0
  }

  function QueueWords(queue: seq<Notification>): nat {
    if queue == [] then 0 else Words(queue[0]) + QueueWords(queue[1..])
  }

  function QueueResponses(queue: seq<Notification>): nat {
    if queue == [] then 0
    else (if queue[0].cls == RESPONSE_CLASS then 1 else 0) + QueueResponses(queue[1..])
  }

  lemma {:induction false} QueueWordsAppend(queue: seq<Notification>, n: Notification)
    ensures QueueWords(queue + [n]) == QueueWords(queue) + Words(n)
    ensures QueueResponses(queue + [n]) == QueueResponses(queue) + (if n.cls == RESPONSE_CLASS then 1 else 0)
  {
    if queue == [] {
      assert [n][1..] == [];
    } else {
      assert (queue + [n])[1..] == queue[1..] + [n];
      QueueWordsAppend(queue[1..], n);
    }
  }

  /** 64-bit counter addition. */
  function Add64(a: Word, b: nat): Word {
    (a + b) % TWO_64
  }

  lemma AddSwap(a: Word, b: nat, c: nat)
    ensures Add64(Add64(a, b), c) == Add64(Add64(a, c), b)
  {
    AddTwice(a, b, c);
    AddTwice(a, c, b);
  }

  lemma AddTwice(a: Word, b: nat, c: nat)
    ensures Add64(Add64(a, b), c) == Add64(a, b + c)
  {
  }

  /** The poller thread takes the oldest notification and counts it. */
  function Pick(p: Poller): Poller
    requires p.queue != [] && Known(p.queue[0])
  {
    var n := p.queue[0];
    if n.cls == PACKET_CLASS then
      p.(queue := p.queue[1..], packets := Add64(p.packets, Payload(n)))
    else
      p.(queue := p.queue[1..], notifications := Add64(p.notifications, 1))
  }

  /** What counting the oldest notification does to both counters: a class-0xca
      notification adds its low 32 bits, a class-0 one adds a response. */
  lemma PickCounts(p: Poller)
    requires p.queue != []
    ensures Known(p.queue[0]) <==> p.queue[0].cls == 0xca || p.queue[0].cls == 0
    ensures p.queue[0].cls == 0xca ==>
              Pick(p) == Poller(p.queue[1..], (p.packets + p.queue[0].payload % 0x1_0000_0000) % TWO_64,
                                p.notifications)
    ensures p.queue[0].cls == 0 ==>
              Pick(p) == Poller(p.queue[1..], p.packets, (p.notifications + 1) % TWO_64)
  {
  }

  /** The totals of a queue count every notification of their class once. */
  lemma {:induction false} TotalsOfConcat(a: seq<Notification>, b: seq<Notification>)
    ensures QueueWords(a + b) == QueueWords(a) + QueueWords(b)
    ensures QueueResponses(a + b) == QueueResponses(a) + QueueResponses(b)
  {
    if a == [] {
      assert a + b == b;
    } else {
      assert (a + b)[1..] == a[1..] + b;
      TotalsOfConcat(a[1..], b);
    }
  }

  lemma TotalsOfOne(n: Notification)
    ensures QueueWords([]) == 0 && QueueResponses([]) == 0
    ensures QueueWords([n]) == if n.cls == 0xca then n.payload % 0x1_0000_0000 else 0
    ensures QueueResponses([n]) == if n.cls == 0 then 1 else 0
  {
    assert [n][1..] == [];
  }
}
