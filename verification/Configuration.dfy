/** `configure_fpga`: the ordered register writes that hand the host's ring
    buffers to the FPGA, src/nhtl-extoll/configure_fpga.cpp. */
module Configuration {
  import opened Wrappers
  import opened Bits
  import opened Registers
  import opened RegisterAccess
  import opened EndpointHost
  import RingHost
  import FlowControl
  import FlowLiveness

  // register addresses, include/nhtl-extoll/configure_fpga.h
  const HOST_ENDPOINT: nat := 0x5298
  const CONFIG_RESPONSE: nat := 0x52a0
  const HICANN_START: nat := 0x5080
  const HICANN_SIZE: nat := 0x5088
  const HICANN_THRESHOLD: nat := 0x5090
  const HICANN_COUNTER_RESET: nat := 0x50a0
  const HICANN_INIT: nat := 0x50c0
  const HICANN_NOTIFICATION: nat := 0x52b0
  const TRACE_START: nat := 0x5000
  const TRACE_SIZE: nat := 0x5008
  const TRACE_THRESHOLD: nat := 0x5010
  const TRACE_COUNTER_RESET: nat := 0x5020
  const TRACE_INIT: nat := 0x5040
  const TRACE_NOTIFICATION: nat := 0x52a8
  const TRACE_PKT_CLOSURE: nat := 0x52b8
  const INFO: nat := 0x8008

  datatype RingConfig = RingConfig(
    startAddress: nat, capacity: nat, threshold: nat, resetCounter: bool, timeout: nat, frequency: nat)

  datatype HostConfig = HostConfig(
    localNode: nat, protectionDomain: nat, vpid: nat, mode: nat, configPutAddress: nat,
    hicann: RingConfig, trace: RingConfig, pktClosure: nat)

  /** The configuration registers of one ring. */
  datatype RingRegisters = RingRegisters(start: nat, size: nat, threshold: nat, notification: nat, counterReset: nat)

  const HICANN: RingRegisters :=
    RingRegisters(HICANN_START, HICANN_SIZE, HICANN_THRESHOLD, HICANN_NOTIFICATION, HICANN_COUNTER_RESET)

  const TRACE: RingRegisters :=
    RingRegisters(TRACE_START, TRACE_SIZE, TRACE_THRESHOLD, TRACE_NOTIFICATION, TRACE_COUNTER_RESET)

  /** The words written to the registers of one ring, and to the others; the
      counter reset is written only on request. */
  datatype RingWords = RingWords(start: Raw, size: Raw, threshold: Raw, notification: Raw, counterReset: Option<Raw>)

  datatype HostWords = HostWords(
    flag: Raw, hostEndpoint: Raw, configResponse: Raw, hicann: RingWords, trace: RingWords, pktClosure: Raw)

  /** A 32-bit register word. */
  function Word32(v: nat): Raw { Word64(v % TWO_32) }

  function EncodeRing(c: RingConfig): RingWords {
    RingWords(Word64(c.startAddress), Word32(c.capacity), Word32(c.threshold),
              NotificationBehaviour(c.timeout, c.frequency), if c.resetCounter then Some(Word64(1)) else None)
  }

  function Encode(c: HostConfig): HostWords {
    HostWords(Word64(1), HostEndpointWord(c.localNode, c.protectionDomain, c.vpid, c.mode), Word64(c.configPutAddress),
              EncodeRing(c.hicann), EncodeRing(c.trace), Word32(c.pktClosure))
  }

  // -------------------------------------------------------------- the writes

  function RingScript(at: RingRegisters, w: RingWords): seq<Request> {
    [Put(at.start, w.start), Put(at.size, w.size), Put(at.threshold, w.threshold), Put(at.notification, w.notification)]
    + (if w.counterReset.Some? then [Put(at.counterReset, w.counterReset.value)] else [])
  }

  /** The writes before the rings' parts. */
  function Head(w: HostWords): seq<Request> {
    [Put(HOST_ENDPOINT, w.hostEndpoint), Put(CONFIG_RESPONSE, w.configResponse)]
  }

  function BeforeTraceInit(w: HostWords): seq<Request> {
    Head(w) + RingScript(HICANN, w.hicann) + RingScript(TRACE, w.trace)
  }

  function BeforeHicannInit(w: HostWords): seq<Request> {
    BeforeTraceInit(w) + [Put(TRACE_INIT, w.flag)]
  }

  /** The writes before the host resets its rings, and the accesses after it. */
  function BeforeReset(w: HostWords): seq<Request> {
    BeforeHicannInit(w) + [Put(HICANN_INIT, w.flag)]
  }

  function AfterReset(w: HostWords, info: Raw): seq<Request> {
    [Put(TRACE_PKT_CLOSURE, w.pktClosure), Get(INFO), Put(INFO, info)]
  }

  function Script(w: HostWords, info: Raw): seq<Request> {
    BeforeReset(w) + AfterReset(w, info)
  }

  function StoredBy(registers: map<nat, Raw>, script: seq<Request>): (after: map<nat, Raw>)
    ensures after.Keys == registers.Keys
  {
    if script == [] then registers
    else Stored(StoredBy(registers, script[..|script| - 1]), script[|script| - 1])
  }

  lemma {:induction false} StoredByConcat(registers: map<nat, Raw>, a: seq<Request>, b: seq<Request>)
    ensures StoredBy(registers, a + b) == StoredBy(StoredBy(registers, a), b)
  {
    if b == [] {
      assert a + b == a;
    } else {
      assert (a + b)[..|a + b| - 1] == a + b[..|b| - 1];
      StoredByConcat(registers, a, b[..|b| - 1]);
    }
  }

  lemma StoredByOne(registers: map<nat, Raw>, script: seq<Request>, r: Request)
    ensures StoredBy(registers, script + [r]) == Stored(StoredBy(registers, script), r)
  {
    assert (script + [r])[..|script|] == script;
  }

  // ------------------------------------------------------------ faithfulness

  /** A register holds the last value put to it. */
  lemma {:induction false} HoldsLastPut(registers: map<nat, Raw>, script: seq<Request>, i: nat)
    requires i < |script| && script[i].Put? && script[i].address in registers
    requires forall k :: i < k < |script| ==> script[k].Get? || script[k].address != script[i].address
    ensures StoredBy(registers, script)[script[i].address] == script[i].value
  {
    if i < |script| - 1 {
      HoldsLastPut(registers, script[..|script| - 1], i);
    }
  }

  /** A register that is not written keeps its value. */
  lemma {:induction false} OthersKeep(registers: map<nat, Raw>, script: seq<Request>, address: nat)
    requires address in registers && forall r :: r in script ==> r.address != address
    ensures StoredBy(registers, script)[address] == registers[address]
  {
    if script != [] {
      OthersKeep(registers, script[..|script| - 1], address);
    }
  }

  predicate HasRing(registers: map<nat, Raw>, at: RingRegisters) {
    at.start in registers && at.size in registers && at.threshold in registers && at.notification in registers
  }

  /** All four configuration registers of a ring hold the words meant for them. */
  predicate RingHolds(registers: map<nat, Raw>, at: RingRegisters, w: RingWords) {
    && HasRing(registers, at)
    && registers[at.start] == w.start && registers[at.size] == w.size
    && registers[at.threshold] == w.threshold && registers[at.notification] == w.notification
  }

  predicate Touches(r: Request, at: RingRegisters) {
    r.address == at.start || r.address == at.size || r.address == at.threshold || r.address == at.notification
  }

  lemma RingScriptConfigures(registers: map<nat, Raw>, at: RingRegisters, w: RingWords)
    requires (at == HICANN || at == TRACE) && HasRing(registers, at)
    ensures RingHolds(StoredBy(registers, RingScript(at, w)), at, w)
  {
    HoldsLastPut(registers, RingScript(at, w), 0);
    HoldsLastPut(registers, RingScript(at, w), 1);
    HoldsLastPut(registers, RingScript(at, w), 2);
    HoldsLastPut(registers, RingScript(at, w), 3);
  }

  /** A ring's own part of a script configures it, whatever comes before and as
      long as its registers are not written again. */
  lemma PartConfigures(registers: map<nat, Raw>, before: seq<Request>, at: RingRegisters, w: RingWords,
                       after: seq<Request>)
    requires (at == HICANN || at == TRACE) && HasRing(registers, at)
    requires forall r :: r in after ==> !Touches(r, at)
    ensures RingHolds(StoredBy(registers, before + RingScript(at, w) + after), at, w)
  {
    var a := StoredBy(registers, before);
    var b := StoredBy(a, RingScript(at, w));
    StoredByConcat(registers, before, RingScript(at, w));
    StoredByConcat(registers, before + RingScript(at, w), after);
    RingScriptConfigures(a, at, w);
    OthersKeep(b, after, at.start);
    OthersKeep(b, after, at.size);
    OthersKeep(b, after, at.threshold);
    OthersKeep(b, after, at.notification);
  }

  predicate HasAll(registers: map<nat, Raw>) {
    && HasRing(registers, HICANN) && HasRing(registers, TRACE)
    && HOST_ENDPOINT in registers && CONFIG_RESPONSE in registers && TRACE_PKT_CLOSURE in registers && INFO in registers
  }

  /** The writes of one ring touch only its own registers. */
  lemma RingScriptTouches(at: RingRegisters, w: RingWords, r: Request)
    requires r in RingScript(at, w)
    ensures Touches(r, at) || r.address == at.counterReset
  {
  }

  /** A script made of a head, the parts of both rings and a tail leaves every
      register with its word, if head and tail stay away from the rings. */
  lemma PartsConfigure(registers: map<nat, Raw>, head: seq<Request>, h: RingWords, t: RingWords, tail: seq<Request>)
    requires HasAll(registers)
    requires forall r :: r in tail ==> !Touches(r, HICANN) && !Touches(r, TRACE)
    ensures RingHolds(StoredBy(registers, head + RingScript(HICANN, h) + RingScript(TRACE, t) + tail), TRACE, t)
    ensures RingHolds(StoredBy(registers, head + RingScript(HICANN, h) + RingScript(TRACE, t) + tail), HICANN, h)
  {
    var hicann, trace := RingScript(HICANN, h), RingScript(TRACE, t);
    PartConfigures(registers, head + hicann, TRACE, t, tail);
    forall r | r in trace + tail
      ensures !Touches(r, HICANN)
    {
      if r in trace {
        RingScriptTouches(TRACE, t, r);
      }
    }
    PartConfigures(registers, head, HICANN, h, trace + tail);
    assert head + hicann + (trace + tail) == head + hicann + trace + tail;
  }

  /** Whatever the registers held before, at the init write of each ring all
      configuration registers of that ring already hold the configured words. */
  lemma ConfiguredAtInit(registers: map<nat, Raw>, w: HostWords)
    requires HasAll(registers)
    ensures RingHolds(StoredBy(registers, BeforeTraceInit(w)), TRACE, w.trace)
    ensures RingHolds(StoredBy(registers, BeforeHicannInit(w)), HICANN, w.hicann)
  {
    PartsConfigure(registers, Head(w), w.hicann, w.trace, []);
    assert BeforeTraceInit(w) + [] == BeforeTraceInit(w);
    PartsConfigure(registers, Head(w), w.hicann, w.trace, [Put(TRACE_INIT, w.flag)]);
  }

  /** The accesses from the trace init write on. */
  function Tail(w: HostWords, info: Raw): seq<Request> {
    [Put(TRACE_INIT, w.flag)] + [Put(HICANN_INIT, w.flag)] + AfterReset(w, info)
  }

  lemma ScriptEndsWithTail(before: seq<Request>, a: seq<Request>, b: seq<Request>, after: seq<Request>)
    ensures before + a + b + after == before + (a + b + after)
  {
  }

  /** After the whole sequence every configuration register holds its word. */
  lemma ConfiguredAfterwards(registers: map<nat, Raw>, w: HostWords, info: Raw)
    requires HasAll(registers)
    ensures var after := StoredBy(registers, Script(w, info));
            && RingHolds(after, TRACE, w.trace) && RingHolds(after, HICANN, w.hicann)
            && after[HOST_ENDPOINT] == w.hostEndpoint && after[CONFIG_RESPONSE] == w.configResponse
            && after[TRACE_PKT_CLOSURE] == w.pktClosure && after[INFO] == info
  {
    ScriptEndsWithTail(BeforeTraceInit(w), [Put(TRACE_INIT, w.flag)], [Put(HICANN_INIT, w.flag)], AfterReset(w, info));
    PartsConfigure(registers, Head(w), w.hicann, w.trace, Tail(w, info));
    HeadAfterwards(registers, w, info);
    TailAfterwards(registers, w, info);
  }

  lemma HeadKept(registers: map<nat, Raw>, w: HostWords, rest: seq<Request>)
    requires HasAll(registers)
    requires forall r :: r in rest ==> r.address != HOST_ENDPOINT && r.address != CONFIG_RESPONSE
    ensures StoredBy(registers, Head(w) + rest)[HOST_ENDPOINT] == w.hostEndpoint
    ensures StoredBy(registers, Head(w) + rest)[CONFIG_RESPONSE] == w.configResponse
  {
    var a := StoredBy(registers, Head(w));
    HoldsLastPut(registers, Head(w), 0);
    HoldsLastPut(registers, Head(w), 1);
    StoredByConcat(registers, Head(w), rest);
    OthersKeep(a, rest, HOST_ENDPOINT);
    OthersKeep(a, rest, CONFIG_RESPONSE);
  }

  lemma HeadAfterwards(registers: map<nat, Raw>, w: HostWords, info: Raw)
    requires HasAll(registers)
    ensures StoredBy(registers, Script(w, info))[HOST_ENDPOINT] == w.hostEndpoint
    ensures StoredBy(registers, Script(w, info))[CONFIG_RESPONSE] == w.configResponse
  {
    var hicann, trace := RingScript(HICANN, w.hicann), RingScript(TRACE, w.trace);
    var rest := hicann + trace + Tail(w, info);
    forall r | r in rest
      ensures r.address != HOST_ENDPOINT && r.address != CONFIG_RESPONSE
    {
      if r in hicann {
        RingScriptTouches(HICANN, w.hicann, r);
      } else if r in trace {
        RingScriptTouches(TRACE, w.trace, r);
      }
    }
    HeadKept(registers, w, rest);
    ScriptEndsWithTail(BeforeTraceInit(w), [Put(TRACE_INIT, w.flag)], [Put(HICANN_INIT, w.flag)], AfterReset(w, info));
    ScriptEndsWithTail(Head(w), hicann, trace, Tail(w, info));
  }

  lemma TailAfterwards(registers: map<nat, Raw>, w: HostWords, info: Raw)
    requires HasAll(registers)
    ensures StoredBy(registers, Script(w, info))[TRACE_PKT_CLOSURE] == w.pktClosure
    ensures StoredBy(registers, Script(w, info))[INFO] == info
  {
    var a := StoredBy(registers, BeforeReset(w));
    StoredByConcat(registers, BeforeReset(w), AfterReset(w, info));
    TailStores(a, w, info);
  }

  lemma TailStores(registers: map<nat, Raw>, w: HostWords, info: Raw)
    requires HasAll(registers)
    ensures StoredBy(registers, AfterReset(w, info))[TRACE_PKT_CLOSURE] == w.pktClosure
    ensures StoredBy(registers, AfterReset(w, info))[INFO] == info
  {
    HoldsLastPut(registers, AfterReset(w, info), 0);
    HoldsLastPut(registers, AfterReset(w, info), 2);
  }

  // --------------------------------------------------------------- decoding

  lemma Word64Value(v: nat)
    ensures ToNat(Word64(v)) == v % TWO_64
  {
    PowersOfTwo();
    ToNatOfBits(v, 64);
  }

  lemma SmallerThanWord(v: nat)
    requires v < TWO_32
    ensures v % Pow2(64) == v
  {
    PowersOfTwo();
  }

  lemma Word32Value(v: nat)
    ensures ToNat(Word32(v)) == v % TWO_32
  {
    SmallerThanWord(v % TWO_32);
    ToNatOfBits(v % TWO_32, 64);
  }

  /** The register words of a ring, read as numbers, are its configuration, each
      value modulo the width of its register. */
  predicate RingDecodes(w: RingWords, c: RingConfig) {
    && ToNat(w.start) == c.startAddress % TWO_64
    && ToNat(w.size) == c.capacity % TWO_32
    && ToNat(w.threshold) == c.threshold % TWO_32
    && FieldOf(w.notification, TIMEOUT) == c.timeout % TWO_32
    && FieldOf(w.notification, FREQUENCY) == c.frequency % TWO_32
  }

  lemma RingReadsBack(c: RingConfig)
    ensures RingDecodes(EncodeRing(c), c)
  {
    Word64Value(c.startAddress);
    Word32Value(c.capacity);
    Word32Value(c.threshold);
    NotificationBehaviourReadsBack(c.timeout, c.frequency);
  }

  /** The words a ring's registers hold. */
  function WordsAt(registers: map<nat, Raw>, at: RingRegisters): RingWords
    requires HasRing(registers, at)
  {
    RingWords(registers[at.start], registers[at.size], registers[at.threshold], registers[at.notification], None)
  }

  /** Configuration faithfulness: for every configuration and whatever the
      registers held before, decoding any configuration register afterwards gives
      the configured value modulo the register's width, and at the init write of
      each ring that ring's registers already decode to its configuration. */
  lemma ConfigurationFaithful(registers: map<nat, Raw>, c: HostConfig, info: Raw)
    requires HasAll(registers)
    ensures RingDecodes(WordsAt(StoredBy(registers, BeforeTraceInit(Encode(c))), TRACE), c.trace)
    ensures RingDecodes(WordsAt(StoredBy(registers, BeforeHicannInit(Encode(c))), HICANN), c.hicann)
    ensures var after := StoredBy(registers, Script(Encode(c), info));
            && RingDecodes(WordsAt(after, TRACE), c.trace) && RingDecodes(WordsAt(after, HICANN), c.hicann)
            && FieldOf(after[HOST_ENDPOINT], NODE_ID) == c.localNode % Pow2(16)
            && FieldOf(after[HOST_ENDPOINT], PROTECTION_DOMAIN) == c.protectionDomain % Pow2(16)
            && FieldOf(after[HOST_ENDPOINT], VPID) == c.vpid % Pow2(10)
            && FieldOf(after[HOST_ENDPOINT], MODE) == c.mode % Pow2(6)
            && ToNat(after[CONFIG_RESPONSE]) == c.configPutAddress % TWO_64
            && ToNat(after[TRACE_PKT_CLOSURE]) == c.pktClosure % TWO_32
  {
    ConfiguredAtInit(registers, Encode(c));
    ConfiguredAfterwards(registers, Encode(c), info);
    RingReadsBack(c.trace);
    RingReadsBack(c.hicann);
    HostEndpointReadsBack(c.localNode, c.protectionDomain, c.vpid, c.mode);
    Word64Value(c.configPutAddress);
    Word32Value(c.pktClosure);
  }

  // ---------------------------------------------------- the script in numbers

  /** An access with the register word as a number. */
  datatype Plain = Store(address: nat, value: nat) | Load(address: nat)

  function InNumber(r: Request): Plain {
    match r
    case Put(address, value) => Store(address, ToNat(value))
    case Get(address) => Load(address)
  }

  function InNumbers(script: seq<Request>): (plain: seq<Plain>)
    ensures |plain| == |script|
  {
    seq(|script|, i requires 0 <= i < |script| => InNumber(script[i]))
  }

  lemma InNumbersConcat(a: seq<Request>, b: seq<Request>)
    ensures InNumbers(a + b) == InNumbers(a) + InNumbers(b)
  {
  }

  lemma FlagValue()
    ensures ToNat(Word64(1)) == 1
  {
    Word64Value(1);
  }

  /** The words of a ring as numbers. */
  lemma EncodeRingNumbers(c: RingConfig) returns (w: RingWords)
    ensures w == EncodeRing(c)
    ensures ToNat(w.start) == c.startAddress % 0x1_0000_0000_0000_0000
    ensures ToNat(w.size) == c.capacity % 0x1_0000_0000 && ToNat(w.threshold) == c.threshold % 0x1_0000_0000
    ensures ToNat(w.notification)
            == c.timeout % 0x1_0000_0000 + 0x1_0000_0000 * (c.frequency % 0x1_0000_0000)
    ensures w.counterReset.Some? <==> c.resetCounter
    ensures w.counterReset.Some? ==> ToNat(w.counterReset.value) == 1
  {
    w := EncodeRing(c);
    Word64Value(c.startAddress);
    Word32Value(c.capacity);
    Word32Value(c.threshold);
    NotificationBehaviourNumber(c.timeout, c.frequency);
    FlagValue();
  }

  /** The other words as numbers. */
  lemma EncodeNumbers(c: HostConfig) returns (w: HostWords)
    ensures w == Encode(c)
    ensures ToNat(w.flag) == 1 && ToNat(w.configResponse) == c.configPutAddress % 0x1_0000_0000_0000_0000
    ensures ToNat(w.pktClosure) == c.pktClosure % 0x1_0000_0000
    ensures ToNat(w.hostEndpoint) == c.localNode % 0x1_0000 + 0x1_0000 * (c.protectionDomain % 0x1_0000)
                                     + 0x1_0000_0000 * (c.vpid % 0x400) + 0x400_0000_0000 * (c.mode % 0x40)
  {
    w := Encode(c);
    FlagValue();
    Word64Value(c.configPutAddress);
    Word32Value(c.pktClosure);
    HostEndpointNumber(c.localNode, c.protectionDomain, c.vpid, c.mode);
  }

  lemma RingScriptInNumbers(at: RingRegisters, w: RingWords)
    ensures InNumbers(RingScript(at, w))
            == [Store(at.start, ToNat(w.start)), Store(at.size, ToNat(w.size)),
                Store(at.threshold, ToNat(w.threshold)), Store(at.notification, ToNat(w.notification))]
               + (if w.counterReset.Some? then [Store(at.counterReset, ToNat(w.counterReset.value))] else [])
  {
  }

  lemma HeadInNumbers(w: HostWords)
    ensures InNumbers(Head(w)) == [Store(0x5298, ToNat(w.hostEndpoint)), Store(0x52a0, ToNat(w.configResponse))]
  {
  }

  lemma TailInNumbers(w: HostWords, info: Raw)
    ensures InNumbers(Tail(w, info))
            == [Store(0x5040, ToNat(w.flag)), Store(0x50c0, ToNat(w.flag)), Store(0x52b8, ToNat(w.pktClosure)),
                Load(0x8008), Store(0x8008, ToNat(info))]
  {
  }

  lemma RingInNumbers(at: RingRegisters, c: RingConfig)
    ensures InNumbers(RingScript(at, EncodeRing(c)))
            == [Store(at.start, c.startAddress % 0x1_0000_0000_0000_0000),
                Store(at.size, c.capacity % 0x1_0000_0000),
                Store(at.threshold, c.threshold % 0x1_0000_0000),
                Store(at.notification, c.timeout % 0x1_0000_0000 + 0x1_0000_0000 * (c.frequency % 0x1_0000_0000))]
               + (if c.resetCounter then [Store(at.counterReset, 1)] else [])
  {
    var w := EncodeRingNumbers(c);
    RingScriptInNumbers(at, w);
  }

  lemma ConfiguredHeadInNumbers(c: HostConfig)
    ensures InNumbers(Head(Encode(c)))
            == [Store(0x5298, c.localNode % 0x1_0000 + 0x1_0000 * (c.protectionDomain % 0x1_0000)
                              + 0x1_0000_0000 * (c.vpid % 0x400) + 0x400_0000_0000 * (c.mode % 0x40)),
                Store(0x52a0, c.configPutAddress % 0x1_0000_0000_0000_0000)]
  {
    var w := EncodeNumbers(c);
    HeadInNumbers(w);
  }

  lemma ConfiguredTailInNumbers(c: HostConfig, info: Raw)
    ensures InNumbers(Tail(Encode(c), info))
            == [Store(0x5040, 1), Store(0x50c0, 1), Store(0x52b8, c.pktClosure % 0x1_0000_0000),
                Load(0x8008), Store(0x8008, ToNat(info))]
  {
    var w := EncodeNumbers(c);
    TailInNumbers(w, info);
  }

  /** Every access of the configuration in order, with its address and the number
      written: the endpoint and the response address, the HICANN ring, the trace
      ring, a 1 to the trace and then to the HICANN init register, the packet
      closure, and Info read and written back. */
  lemma ScriptInNumbers(c: HostConfig, info: Raw)
    ensures InNumbers(Script(Encode(c), info))
            == [Store(0x5298, c.localNode % 0x1_0000 + 0x1_0000 * (c.protectionDomain % 0x1_0000)
                              + 0x1_0000_0000 * (c.vpid % 0x400) + 0x400_0000_0000 * (c.mode % 0x40)),
                Store(0x52a0, c.configPutAddress % 0x1_0000_0000_0000_0000)]
               + ([Store(0x5080, c.hicann.startAddress % 0x1_0000_0000_0000_0000),
                   Store(0x5088, c.hicann.capacity % 0x1_0000_0000),
                   Store(0x5090, c.hicann.threshold % 0x1_0000_0000),
                   Store(0x52b0, c.hicann.timeout % 0x1_0000_0000
                                 + 0x1_0000_0000 * (c.hicann.frequency % 0x1_0000_0000))]
                  + (if c.hicann.resetCounter then [Store(0x50a0, 1)] else []))
               + ([Store(0x5000, c.trace.startAddress % 0x1_0000_0000_0000_0000),
                   Store(0x5008, c.trace.capacity % 0x1_0000_0000),
                   Store(0x5010, c.trace.threshold % 0x1_0000_0000),
                   Store(0x52a8, c.trace.timeout % 0x1_0000_0000
                                 + 0x1_0000_0000 * (c.trace.frequency % 0x1_0000_0000))]
                  + (if c.trace.resetCounter then [Store(0x5020, 1)] else []))
               + [Store(0x5040, 1), Store(0x50c0, 1), Store(0x52b8, c.pktClosure % 0x1_0000_0000),
                  Load(0x8008), Store(0x8008, ToNat(info))]
  {
    ConfiguredHeadInNumbers(c);
    ConfiguredTailInNumbers(c, info);
    RingInNumbers(HICANN, c.hicann);
    RingInNumbers(TRACE, c.trace);
    ScriptInParts(Encode(c), info);
  }

  lemma ScriptInParts(w: HostWords, info: Raw)
    ensures InNumbers(Script(w, info))
            == InNumbers(Head(w)) + InNumbers(RingScript(HICANN, w.hicann)) + InNumbers(RingScript(TRACE, w.trace))
               + InNumbers(Tail(w, info))
  {
    var hicann, trace := RingScript(HICANN, w.hicann), RingScript(TRACE, w.trace);
    ScriptEndsWithTail(BeforeTraceInit(w), [Put(TRACE_INIT, w.flag)], [Put(HICANN_INIT, w.flag)], AfterReset(w, info));
    InNumbersConcat(Head(w), hicann);
    InNumbersConcat(Head(w) + hicann, trace);
    InNumbersConcat(Head(w) + hicann + trace, Tail(w, info));
  }

  /** The host resets its rings after the two init writes and before the accesses
      that follow. */
  lemma ResetPosition(c: HostConfig)
    ensures InNumbers(BeforeReset(Encode(c)))
            == InNumbers(BeforeTraceInit(Encode(c))) + [Store(0x5040, 1), Store(0x50c0, 1)]
  {
    var w := EncodeNumbers(c);
    LastTwo(BeforeTraceInit(w), Put(TRACE_INIT, w.flag), Put(HICANN_INIT, w.flag));
  }

  lemma LastTwo(before: seq<Request>, a: Request, b: Request)
    ensures InNumbers(before + [a] + [b]) == InNumbers(before) + [InNumber(a), InNumber(b)]
  {
  }

  /** The node id added to Info reads back afterwards if and only if Info held no
      node-id bit that the new id lacks. */
  lemma NodeIdAfterwards(registers: map<nat, Raw>, c: HostConfig, node: nat)
    requires HasAll(registers)
    ensures FieldOf(StoredBy(registers, Script(Encode(c), OrInto(registers[INFO], NDID, node)))[INFO], NDID)
            == node % TWO_16 <==>
            forall i :: 0 <= i < 16 && registers[INFO][24 + i] ==> Word64(node)[i]
  {
    ConfiguredAfterwards(registers, Encode(c), OrInto(registers[INFO], NDID, node));
    NodeIdReadsBackIffSubset(registers[INFO], node);
  }

  // ---------------------------------------------------------------- defaults

  function DefaultRing(startAddress: nat, pages: nat): RingConfig {
    var d := FlowControl.DefaultConfig(pages);
    RingConfig(startAddress, d.capacity, d.threshold, false, 0x100, d.frequency)
  }

  /** The default configuration of a ring of some pages: its own address and size, a
      threshold of four full packets, a timeout of 256 cycles, no counter reset, and
      a frequency of eight packets less than the ring holds. */
  lemma DefaultRingExact(startAddress: nat, pages: nat)
    ensures var c := DefaultRing(startAddress, pages);
            && c.startAddress == startAddress && c.capacity == 4096 * pages % 0x1_0000_0000
            && c.threshold == 4 * 62 * 8 && c.timeout == 256 && !c.resetCounter
            && (1 <= pages <= 0x1f00_0000 ==> c.frequency + 8 == 512 * pages / 62)
  {
    FlowControl.DefaultConfigExact(pages);
  }

  /** What the FPGA's flow control of a ring reads in its registers. */
  function FlowConfigAt(registers: map<nat, Raw>, at: RingRegisters): FlowControl.Config
    requires HasRing(registers, at)
  {
    FlowControl.Config(ToNat(registers[at.size]), ToNat(registers[at.threshold]),
                       FieldOf(registers[at.notification], FREQUENCY))
  }

  lemma DefaultsFit(pages: nat)
    ensures var d := FlowControl.DefaultConfig(pages);
            d.capacity < TWO_32 && d.threshold < TWO_32 && d.frequency < TWO_32
  {
  }

  lemma DefaultRingDecodes(registers: map<nat, Raw>, at: RingRegisters, startAddress: nat, pages: nat)
    requires HasRing(registers, at) && RingDecodes(WordsAt(registers, at), DefaultRing(startAddress, pages))
    ensures FlowConfigAt(registers, at) == FlowControl.DefaultConfig(pages)
  {
    DefaultsFit(pages);
  }

  /** Freedom from deadlock for a ring of some pages with some parameters depends
      on the page count in the way the defaults make it. */
  ghost predicate StartsDeadlockFree(c: FlowControl.Config, pages: nat) {
    1 <= pages < 0x80_0000 ==>
      (FlowLiveness.DeadlockFree(c, FlowControl.SizeWords(pages)) <==> 2 <= pages < 0x10_0000)
  }

  lemma DefaultStarts(pages: nat)
    ensures StartsDeadlockFree(FlowControl.DefaultConfig(pages), pages)
  {
    if 1 <= pages < 0x80_0000 {
      FlowLiveness.DeadlockFreeIff(pages);
    }
  }

  /** When either ring is started, the FPGA finds the defaults for that ring's page
      count in its registers; with what it finds there the ring never depends on
      its timeout if and only if it has at least two and fewer than 2^20 pages. */
  lemma FlowControlAtInit(registers: map<nat, Raw>, c: HostConfig, addresses: (nat, nat), pages: (nat, nat))
    requires HasAll(registers)
    requires c.hicann == DefaultRing(addresses.0, pages.0) && c.trace == DefaultRing(addresses.1, pages.1)
    ensures var hicann, trace := FlowConfigAt(StoredBy(registers, BeforeHicannInit(Encode(c))), HICANN),
                                 FlowConfigAt(StoredBy(registers, BeforeTraceInit(Encode(c))), TRACE);
            && hicann == FlowControl.DefaultConfig(pages.0) && trace == FlowControl.DefaultConfig(pages.1)
            && StartsDeadlockFree(hicann, pages.0) && StartsDeadlockFree(trace, pages.1)
  {
    ConfigurationFaithful(registers, c, registers[INFO]);
    DefaultRingDecodes(StoredBy(registers, BeforeHicannInit(Encode(c))), HICANN, addresses.0, pages.0);
    DefaultRingDecodes(StoredBy(registers, BeforeTraceInit(Encode(c))), TRACE, addresses.1, pages.1);
    DefaultStarts(pages.0);
    DefaultStarts(pages.1);
  }

  // ------------------------------------------------------------- the method

  /** Nothing is outstanding, and the registers are what the accesses logged
      since position `start` have made of `base`. */
  ghost predicate Configuring(e: Endpoint, base: map<nat, Raw>, start: nat)
    reads e, e.buffer
  {
    && e.Wired() && Surplus(e.View()) == 0
    && start <= |e.log| && e.registers == StoredBy(base, e.log[start..])
  }

  lemma LogExtended(base: map<nat, Raw>, log: seq<Request>, start: nat, r: Request)
    requires start <= |log|
    ensures StoredBy(base, (log + [r])[start..]) == Stored(StoredBy(base, log[start..]), r)
  {
    assert (log + [r])[start..] == log[start..] + [r];
    StoredByOne(base, log[start..], r);
  }

  /** One register write of an endpoint with no access outstanding. */
  method Write(e: Endpoint, address: nat, value: Raw, ghost base: map<nat, Raw>, ghost start: nat)
    requires Configuring(e, base, start)
    modifies e`registers, e`requests, e`completions, e`log, e.buffer
    ensures Configuring(e, base, start) && e.log == old(e.log) + [Put(address, value)]
  {
    ghost var before := e.View();
    LogExtended(base, e.log, start, Put(address, value));
    ghost var served := e.RraWrite(address, value);
    PairedAccess(before, Put(address, value), served);
  }

  /** One register read of an endpoint with no access outstanding. */
  method Read(e: Endpoint, address: nat, ghost base: map<nat, Raw>, ghost start: nat) returns (value: Raw)
    requires Configuring(e, base, start) && address in e.registers
    modifies e`registers, e`requests, e`completions, e`log, e.buffer
    ensures Configuring(e, base, start) && e.log == old(e.log) + [Get(address)]
    ensures value == old(e.registers)[address] && e.registers == old(e.registers)
  {
    ghost var before := e.View();
    LogExtended(base, e.log, start, Get(address));
    ghost var served: nat;
    value, served := e.RraRead(address);
    PairedAccess(before, Get(address), served);
  }

  /** The writes that configure one ring. */
  method ConfigureRing(e: Endpoint, at: RingRegisters, w: RingWords, ghost base: map<nat, Raw>, ghost start: nat)
    requires Configuring(e, base, start)
    modifies e`registers, e`requests, e`completions, e`log, e.buffer
    ensures Configuring(e, base, start) && e.log == old(e.log) + RingScript(at, w)
  {
    Write(e, at.start, w.start, base, start);
    Write(e, at.size, w.size, base, start);
    Write(e, at.threshold, w.threshold, base, start);
    Write(e, at.notification, w.notification, base, start);
    if w.counterReset.Some? {
      Write(e, at.counterReset, w.counterReset.value, base, start);
    }
  }

  lemma Regroup(a: seq<Request>, b: seq<Request>, c: seq<Request>)
    ensures (a + b) + c == a + (b + c)
  {
  }

  /** Nothing before the final write touches Info. */
  lemma InfoUntouched(base: map<nat, Raw>, w: HostWords)
    requires INFO in base
    ensures StoredBy(base, BeforeReset(w) + [Put(TRACE_PKT_CLOSURE, w.pktClosure)])[INFO] == base[INFO]
  {
    var script := BeforeReset(w) + [Put(TRACE_PKT_CLOSURE, w.pktClosure)];
    forall r | r in script
      ensures r.address != INFO
    {
      if r in RingScript(HICANN, w.hicann) {
        RingScriptTouches(HICANN, w.hicann, r);
      } else if r in RingScript(TRACE, w.trace) {
        RingScriptTouches(TRACE, w.trace, r);
      }
    }
    OthersKeep(base, script, INFO);
  }

  method ConfigureRings(e: Endpoint, w: HostWords, ghost base: map<nat, Raw>, ghost start: nat)
    requires Configuring(e, base, start)
    modifies e`registers, e`requests, e`completions, e`log, e.buffer
    ensures Configuring(e, base, start) && e.log == old(e.log) + BeforeTraceInit(w)
  {
    Write(e, HOST_ENDPOINT, w.hostEndpoint, base, start);
    Write(e, CONFIG_RESPONSE, w.configResponse, base, start);
    assert e.log == old(e.log) + Head(w);
    ConfigureRing(e, HICANN, w.hicann, base, start);
    ConfigureRing(e, TRACE, w.trace, base, start);
    Regroup(old(e.log), Head(w), RingScript(HICANN, w.hicann));
    Regroup(old(e.log), Head(w) + RingScript(HICANN, w.hicann), RingScript(TRACE, w.trace));
  }

  /** All accesses before the reset. */
  method Begin(e: Endpoint, w: HostWords, ghost base: map<nat, Raw>, ghost start: nat)
    requires Configuring(e, base, start) && start == |e.log|
    modifies e`registers, e`requests, e`completions, e`log, e.buffer
    ensures Configuring(e, base, start)
    ensures e.log == old(e.log) + BeforeReset(w) && e.log[start..] == BeforeReset(w)
  {
    ConfigureRings(e, w, base, start);
    Write(e, TRACE_INIT, w.flag, base, start);
    Write(e, HICANN_INIT, w.flag, base, start);
    assert e.log == old(e.log) + BeforeReset(w);
  }

  /** The host resets both its rings; the endpoint notes after which access. */
  method ResetRings(e: Endpoint, hicann: RingHost.RingBuffer, trace: RingHost.RingBuffer)
    modifies e`resets
    modifies hicann`readIndex, hicann`readable, hicann`readWords, trace`readIndex, trace`readable, trace`readWords
    ensures e.resets == old(e.resets) + [|e.log|]
    ensures hicann.readIndex == hicann.readable == hicann.readWords == 0
    ensures trace.readIndex == trace.readable == trace.readWords == 0
  {
    hicann.Reset();
    trace.Reset();
    e.resets := e.resets + [|e.log|];
  }

  /** The Info word with the node id added. */
  method ExtendInfo(raw: Raw, node: nat) returns (extended: Raw)
    ensures extended == OrInto(raw, NDID, node)
  {
    var info := new Info(raw);
    info.SetNdid(node);
    extended := info.raw;
  }

  /** Reads Info, adds the node id and writes it back. */
  method UpdateInfo(e: Endpoint, ghost base: map<nat, Raw>, ghost start: nat)
    requires Configuring(e, base, start) && INFO in e.registers
    modifies e`registers, e`requests, e`completions, e`log, e.buffer
    ensures Configuring(e, base, start)
    ensures e.log == old(e.log) + [Get(INFO), Put(INFO, OrInto(old(e.registers)[INFO], NDID, e.node))]
  {
    var raw := Read(e, INFO, base, start);
    var info := ExtendInfo(raw, e.node);
    Write(e, INFO, info, base, start);
  }

  /** All accesses after the reset: the packet closure, and Info read, extended
      by the node id and written back. */
  method Finish(e: Endpoint, w: HostWords, ghost base: map<nat, Raw>, ghost start: nat)
    requires Configuring(e, base, start) && e.log[start..] == BeforeReset(w) && INFO in base
    modifies e`registers, e`requests, e`completions, e`log, e.buffer
    ensures Configuring(e, base, start)
    ensures e.log == old(e.log) + AfterReset(w, OrInto(base[INFO], NDID, e.node))
  {
    InfoUntouched(base, w);
    Write(e, TRACE_PKT_CLOSURE, w.pktClosure, base, start);
    assert e.log[start..] == BeforeReset(w) + [Put(TRACE_PKT_CLOSURE, w.pktClosure)];
    UpdateInfo(e, base, start);
  }

  /** The whole configuration: both rings are handed over before either is
      started, the host resets its two rings right after both init writes and
      before the next access, and the node id is added to Info. */
  method ConfigureFpga(e: Endpoint, hicann: RingHost.RingBuffer, trace: RingHost.RingBuffer, c: HostConfig)
    requires e.Wired() && Surplus(e.View()) == 0 && INFO in e.registers
    modifies e`registers, e`requests, e`completions, e`log, e`resets, e.buffer
    modifies hicann`readIndex, hicann`readable, hicann`readWords, trace`readIndex, trace`readable, trace`readWords
    ensures Configuring(e, old(e.registers), |old(e.log)|)
    ensures e.log == old(e.log) + Script(Encode(c), OrInto(old(e.registers)[INFO], NDID, e.node))
    ensures e.resets == old(e.resets) + [|old(e.log) + BeforeReset(Encode(c))|]
    ensures hicann.readIndex == hicann.readable == hicann.readWords == 0
    ensures trace.readIndex == trace.readable == trace.readWords == 0
  {
    ghost var base, start := e.registers, |e.log|;
    var w := Encode(c);
    Begin(e, w, base, start);
    ResetRings(e, hicann, trace);
    Finish(e, w, base, start);
    Regroup(old(e.log), BeforeReset(w), AfterReset(w, OrInto(base[INFO], NDID, e.node)));
  }

  /** The default configuration of a ring: its size with the 32-bit casts and the
      unsigned arithmetic written out. */
  method RingDefaults(ring: RingHost.RingBuffer, startAddress: nat) returns (c: RingConfig)
    requires ring.sizeBytes % 4096 == 0 && ring.sizeWords == ring.sizeBytes / 8
    ensures c == DefaultRing(startAddress, ring.sizeBytes / 4096)
    ensures c.startAddress == startAddress && c.capacity == ring.sizeBytes % 0x1_0000_0000
  {
    c := RingConfig(startAddress, ring.sizeBytes % TWO_32, 0x7c0, false, 0x100,
                    (ring.sizeWords / 62 - 8) % TWO_64 % TWO_32);
  }

  /** The configuration with default values for the endpoint's own rings. */
  method ConfigureDefaults(e: Endpoint, hicann: RingHost.RingBuffer, trace: RingHost.RingBuffer,
                           localNode: nat, vpid: nat, responseAddress: nat, hicannAddress: nat, traceAddress: nat)
    returns (c: HostConfig)
    requires e.Wired() && Surplus(e.View()) == 0 && INFO in e.registers
    requires hicann.sizeBytes % 4096 == 0 && hicann.sizeWords == hicann.sizeBytes / 8
    requires trace.sizeBytes % 4096 == 0 && trace.sizeWords == trace.sizeBytes / 8
    modifies e`registers, e`requests, e`completions, e`log, e`resets, e.buffer
    modifies hicann`readIndex, hicann`readable, hicann`readWords, trace`readIndex, trace`readable, trace`readWords
    ensures c.localNode == localNode && c.vpid == vpid && c.configPutAddress == responseAddress
    ensures c.protectionDomain == 0 && c.mode == 4 && c.pktClosure == 512
    ensures c.hicann == DefaultRing(hicannAddress, hicann.sizeBytes / 4096)
    ensures c.trace == DefaultRing(traceAddress, trace.sizeBytes / 4096)
    ensures e.resets == old(e.resets) + [|old(e.log) + BeforeReset(Encode(c))|]
    ensures e.log == old(e.log) + Script(Encode(c), OrInto(old(e.registers)[INFO], NDID, e.node))
    ensures Configuring(e, old(e.registers), |old(e.log)|)
  {
    var h := RingDefaults(hicann, hicannAddress);
    var t := RingDefaults(trace, traceAddress);
    c := HostConfig(localNode, 0, vpid, 0x4, responseAddress, h, t, 512);
    ConfigureFpga(e, hicann, trace, c);
  }
}
