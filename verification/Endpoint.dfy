/** The host's endpoint of the register connection: ping, register reads and
    writes, and the send buffer, src/nhtl-extoll/connection.cpp. */
module EndpointHost {
  import opened Bits
  import opened Registers
  import opened RegisterAccess
  import opened Wrappers

  const PAGE_WORDS: nat := 512
  const BUFFER_PAGES: nat := 1024
  const PING_ADDRESS: nat := 0x8000
  const PING_PROBES: nat := 20

  /** Nominal waiting time of a ping after some unsuccessful probes, in microseconds. */
  function PingWait(misses: nat): nat {
    10 * (Pow2(misses) - 1)
  }

  /** The documented limit of one millisecond is passed after seven of the twenty
      probes; the last one comes after ten seconds. */
  lemma PingWaitBounds(misses: nat)
    ensures PingWait(0) == 0 && PingWait(misses + 1) == PingWait(misses) + 10 * Pow2(misses)
    ensures PingWait(misses) <= 1000 <==> misses < 7
    ensures misses <= PING_PROBES ==> PingWait(misses) <= PingWait(PING_PROBES) == 10_485_750
  {
    assert Pow2(5) == 32;
    assert Pow2(10) == 1024;
    assert Pow2(15) == 32768;
    assert Pow2(20) == 1048576;
    assert Pow2(6) == 64 && Pow2(7) == 128;
    if misses < 7 {
      Pow2Monotone(misses, 6);
    } else {
      Pow2Monotone(7, misses);
    }
    if misses <= PING_PROBES {
      Pow2Monotone(misses, 20);
    }
  }

  lemma {:induction false} Pow2Monotone(a: nat, b: nat)
    requires a <= b
    ensures Pow2(a) <= Pow2(b)
    decreases b
  {
    if a < b {
      Pow2Monotone(a, b - 1);
    }
  }

  lemma {:induction false} ServeTwice(p: Path, a: nat, b: nat)
    requires a + b <= |p.requests|
    ensures ServeMany(ServeMany(p, a), b) == ServeMany(p, a + b)
    decreases a
  {
    if a > 0 {
      ServeTwice(Serve(p), a - 1, b);
    }
  }

  class Endpoint {
    const node: nat
    // the physical buffer: response word in the first page, send buffer behind it
    const buffer: array<Raw>
    // FPGA and network
    var registers: map<nat, Raw>
    var requests: seq<Request>
    var completions: nat
    // all accesses so far, and how many of them came before each reset of the rings
    ghost var log: seq<Request>
    ghost var resets: seq<nat>

    constructor (node: nat, registers: map<nat, Raw>)
      ensures Wired() && this.node == node && this.registers == registers
      ensures requests == [] && completions == 0 && fresh(buffer)
    {
      this.node := node;
      this.registers := registers;
      buffer := new Raw[BUFFER_PAGES * PAGE_WORDS];
      requests, completions, log, resets := [], 0, [], [];
    }

    ghost predicate Wired() { buffer.Length == BUFFER_PAGES * PAGE_WORDS }

    ghost function View(): Path
      requires Wired()
      reads this, buffer
    {
      Path(registers, requests, completions, buffer[0])
    }

    /** The words of the send buffer, an array of its own behind the first page. */
    ghost function SendBuffer(): (words: seq<Raw>)
      requires Wired()
      reads buffer
      ensures |words| == PAGE_WORDS * (BUFFER_PAGES - 1)
    {
      buffer[PAGE_WORDS..]
    }

    /** The FPGA serves the oldest request. */
    method ServeOne()
      requires Wired() && requests != []
      modifies this`registers, this`requests, this`completions, buffer
      ensures View() == Serve(old(View()))
      ensures SendBuffer() == old(SendBuffer())
    {
      var r := requests[0];
      if r.Get? && r.address in registers {
        buffer[0] := registers[r.address];
      } else if r.Put? && r.address in registers {
        registers := registers[r.address := r.value];
      }
      requests := requests[1..];
      completions := completions + 1;
    }

    /** Lets the FPGA serve any number of requests; with `block`, at least until a
        completion is there. */
    method Wait(block: bool) returns (ghost served: nat)
      requires Wired() && (block ==> Surplus(View()) > 0)
      modifies this`registers, this`requests, this`completions, buffer
      ensures served <= |old(requests)| && View() == ServeMany(old(View()), served)
      ensures block ==> completions > 0
      ensures SendBuffer() == old(SendBuffer())
    {
      served := 0;
      var more: nat := *;
      while requests != [] && (more > 0 || (block && completions == 0))
        invariant served <= |old(requests)| && View() == ServeMany(old(View()), served)
        invariant SendBuffer() == old(SendBuffer())
        decreases |requests|
      {
        ServeOneMore(old(View()), served);
        ServeOne();
        served := served + 1;
        more := if more > 0 then more - 1 else 0;
      }
    }

    /** Reads the identifier register and polls for its completion twenty times.
        A ping that gives up has found nothing outstanding but unserved requests,
        and leaves its own behind them. */
    method Ping() returns (ok: bool, wait: nat, ghost served: nat, ghost misses: nat)
      requires Wired()
      modifies this`registers, this`requests, this`completions, this`log, buffer
      ensures log == old(log) + [Get(0x8000)] && SendBuffer() == old(SendBuffer())
      ensures ok ==> CanAccess(old(View()), served) && View() == Access(old(View()), Get(PING_ADDRESS), served)
      ensures !ok ==> served == 0 && old(completions) == 0
                      && View() == old(View()).(requests := old(requests) + [Get(PING_ADDRESS)])
      ensures misses <= PING_PROBES && (ok <==> misses < PING_PROBES) && wait == PingWait(misses)
    {
      ghost var posted := View().(requests := requests + [Get(PING_ADDRESS)]);
      requests := requests + [Get(PING_ADDRESS)];
      log := log + [Get(PING_ADDRESS)];
      served, misses := 0, 0;
      ok, wait := false, 0;
      var waitPeriod := 10;
      var i := 0;
      while i < PING_PROBES
        invariant misses == i <= PING_PROBES && !ok
        invariant served <= |posted.requests| && View() == ServeMany(posted, served)
        invariant waitPeriod == 10 * Pow2(i) && wait == PingWait(i)
        invariant i > 0 ==> completions == 0
        invariant log == old(log) + [Get(PING_ADDRESS)] && SendBuffer() == old(SendBuffer())
      {
        ghost var start := View();
        ghost var more := Wait(false);
        ServeTwice(posted, served, more);
        served := served + more;
        if completions == 0 {
          wait := wait + waitPeriod;
          waitPeriod := waitPeriod * 2;
          i := i + 1;
          misses := i;
        } else {
          completions := completions - 1;
          ok := true;
          return;
        }
      }
    }

    method RraRead(address: nat) returns (value: Raw, ghost served: nat)
      requires Wired()
      modifies this`registers, this`requests, this`completions, this`log, buffer
      ensures CanAccess(old(View()), served) && View() == Access(old(View()), Get(address), served)
      ensures value == View().response && log == old(log) + [Get(address)]
      ensures Surplus(old(View())) == 0 && address in old(registers) ==>
                value == old(registers)[address] && registers == old(registers) && Surplus(View()) == 0
      ensures SendBuffer() == old(SendBuffer())
    {
      requests := requests + [Get(address)];
      log := log + [Get(address)];
      ghost var before := old(View());
      served := Wait(true);
      completions := completions - 1;
      value := buffer[0];
      if Surplus(before) == 0 && address in before.registers {
        PairedAccessResult(before, Get(address), served);
      }
    }

    method RraWrite(address: nat, value: Raw) returns (ghost served: nat)
      requires Wired()
      modifies this`registers, this`requests, this`completions, this`log, buffer
      ensures CanAccess(old(View()), served) && View() == Access(old(View()), Put(address, value), served)
      ensures log == old(log) + [Put(address, value)]
      ensures Surplus(old(View())) == 0 && address in old(registers) ==>
                registers == old(registers)[address := value] && Surplus(View()) == 0
      ensures SendBuffer() == old(SendBuffer())
    {
      requests := requests + [Put(address, value)];
      log := log + [Put(address, value)];
      ghost var before := old(View());
      served := Wait(true);
      completions := completions - 1;
      if Surplus(before) == 0 && address in before.registers {
        PairedAccessResult(before, Put(address, value), served);
      }
    }

    /** Writing the send buffer changes the word at the index and nothing else; in
        particular it never disturbs the response word. */
    method WriteSend(index: nat, data: Raw)
      requires Wired() && index < PAGE_WORDS * (BUFFER_PAGES - 1)
      modifies buffer
      ensures SendBuffer() == old(SendBuffer())[index := data]
      ensures buffer[..] == old(buffer[..])[512 + index := data] && View() == old(View())
    {
      buffer[index + PAGE_WORDS] := data;
    }

    method ReadSend(index: nat) returns (data: Raw)
      requires Wired() && index < PAGE_WORDS * (BUFFER_PAGES - 1)
      ensures data == SendBuffer()[index] == buffer[512 + index]
    {
      data := buffer[index + PAGE_WORDS];
    }
  }

  /** After a ping gave up on a path with nothing outstanding, a read is right
      under every schedule if and only if the answer to the ping's own request
      equals the register: the late answer is taken for the read's. */
  lemma ReadAfterGivenUpPing(p: Path, q: Path, address: nat)
    requires Surplus(p) == 0 && address in p.registers
    requires q == p.(requests := p.requests + [Get(PING_ADDRESS)])
    ensures address in Settled(q).registers
    ensures ReadsRight(q, address) <==>
            Answered(p.registers, p.response, Get(PING_ADDRESS)) == p.registers[address]
  {
    assert q.requests == [Get(PING_ADDRESS)];
    PendingReadRightIff(q, PING_ADDRESS, address);
  }

  /** A concrete path on which it is wrong: the identifier register answers the
      read of another register with a different value. */
  lemma GivenUpPingMisleadsRead() returns (p: Path, q: Path, address: nat, n: nat)
    ensures Surplus(p) == 0 && address in p.registers
    ensures q == p.(requests := p.requests + [Get(PING_ADDRESS)])
    ensures CanAccess(q, n) && Access(q, Get(address), n).response != p.registers[address]
    ensures Settled(q).registers == p.registers
  {
    var identifier: Raw, other: Raw := Word64(1), Word64(0);
    assert Word64(1)[0] && !Word64(0)[0];
    address, n := 0x8008, 1;
    p := Path(map[PING_ADDRESS := identifier, address := other], [], 0, other);
    q := p.(requests := [Get(PING_ADDRESS)]);
    assert ServeMany(q, 1) == ServeMany(Serve(q), 0) == Serve(q);
    ReadDelivers(q, address, n);
  }

  /** Opening an endpoint: it exists if and only if the FPGA serves the first ping
      within its twenty probes, and then nothing is outstanding. */
  method Connect(node: nat, registers: map<nat, Raw>)
    returns (e: Option<Endpoint>, ghost served: nat, ghost misses: nat)
    ensures e.Some? <==> served == 1 && misses < PING_PROBES
    ensures e.None? <==> served == 0 && misses == PING_PROBES
    ensures e.Some? ==> fresh(e.value) && fresh(e.value.buffer) && e.value.node == node
    ensures e.Some? ==> e.value.Wired() && Surplus(e.value.View()) == 0 && e.value.registers == registers
  {
    var endpoint := new Endpoint(node, registers);
    ghost var before := endpoint.View();
    var ok, wait: nat;
    ok, wait, served, misses := endpoint.Ping();
    if !ok {
      e := None;
      return;
    }
    PairedAccess(before, Get(PING_ADDRESS), served);
    e := Some(endpoint);
  }
}
