/** Remote register access, src/nhtl-extoll/connection.cpp: requests travel to
    the FPGA, completions and the response word come back later, and the host
    pairs each access with the next completion it sees. */
module RegisterAccess {
  import opened Registers

  datatype Request = Get(address: nat) | Put(address: nat, value: Raw)

  /** Register file and the access path to it: requests not yet served,
      completions not yet consumed, and the word the last served read delivered. */
  datatype Path = Path(registers: map<nat, Raw>, requests: seq<Request>, completions: nat, response: Raw)

  /** The effect of a request on the registers: only existing registers store. */
  function Stored(registers: map<nat, Raw>, r: Request): map<nat, Raw> {
    if r.Put? && r.address in registers then registers[r.address := r.value] else registers
  }

  /** The response word after a request: reading a location that cannot be read
      leaves the data of the last readable one. */
  function Answered(registers: map<nat, Raw>, response: Raw, r: Request): Raw {
    if r.Get? && r.address in registers then registers[r.address] else response
  }

  /** The FPGA serves the oldest request: it stores or answers, then completes. */
  function Serve(p: Path): Path
    requires p.requests != []
  {
    var r := p.requests[0];
    Path(Stored(p.registers, r), p.requests[1..], p.completions + 1, Answered(p.registers, p.response, r))
  }

  function ServeMany(p: Path, n: nat): (q: Path)
    requires n <= |p.requests|
    ensures |q.requests| == |p.requests| - n && q.completions == p.completions + n
    decreases n
  {
    if n == 0 then p else ServeMany(Serve(p), n - 1)
  }

  lemma {:induction false} ServeOneMore(p: Path, n: nat)
    requires n < |p.requests|
    ensures ServeMany(p, n + 1) == Serve(ServeMany(p, n))
    decreases n
  {
    if n > 0 {
      ServeOneMore(Serve(p), n - 1);
    }
  }

  /** An access is possible in a schedule that serves n requests between the post
      and the completion, if a completion is then there to be taken. */
  predicate CanAccess(p: Path, n: nat) {
    n <= |p.requests| + 1 && p.completions + n > 0
  }

  /** Post a request, let n requests be served, take one completion. */
  function Access(p: Path, r: Request, n: nat): Path
    requires CanAccess(p, n)
  {
    var served := ServeMany(p.(requests := p.requests + [r]), n);
    served.(completions := served.completions - 1)
  }

  /** Accesses whose completion the host has not taken. */
  function Surplus(p: Path): nat { |p.requests| + p.completions }

  /** No access ever changes the surplus: one left over by a `ping` that gave up
      stays for ever. */
  lemma SurplusIsInvariant(p: Path, r: Request, n: nat)
    requires CanAccess(p, n)
    ensures Surplus(Access(p, r, n)) == Surplus(p)
  {
  }

  /** With nothing outstanding an access takes effect before it returns. */
  lemma PairedAccess(p: Path, r: Request, n: nat)
    requires Surplus(p) == 0 && CanAccess(p, n)
    ensures Surplus(Access(p, r, n)) == 0
    ensures Access(p, r, n) == Path(Stored(p.registers, r), [], 0, Answered(p.registers, p.response, r))
  {
    var posted := p.(requests := [r]);
    assert n == 1 && p.requests + [r] == [r];
    assert ServeMany(posted, 1) == ServeMany(Serve(posted), 0);
  }

  /** What that effect is: a read delivers the register and changes none, a write
      replaces the register's value and no other one; where there is no register
      nothing happens. */
  lemma PairedAccessResult(p: Path, r: Request, n: nat)
    requires Surplus(p) == 0 && CanAccess(p, n)
    ensures r.Get? && r.address in p.registers ==>
              Access(p, r, n).response == p.registers[r.address] && Access(p, r, n).registers == p.registers
    ensures r.Put? && r.address in p.registers ==>
              Access(p, r, n).registers == p.registers[r.address := r.value]
              && Access(p, r, n).response == p.response
    ensures r.address !in p.registers ==>
              Access(p, r, n).response == p.response && Access(p, r, n).registers == p.registers
  {
    PairedAccess(p, r, n);
  }

  // --------------------------------------------------- sequences of accesses

  /** A sequence of accesses with their schedule; `results` are the response
      words the host picks up after each. */
  datatype Run = Run(path: Path, results: seq<Raw>)

  predicate CanAccessAll(p: Path, ops: seq<(Request, nat)>)
    decreases |ops|
  {
    ops == [] || (CanAccess(p, ops[0].1) && CanAccessAll(Access(p, ops[0].0, ops[0].1), ops[1..]))
  }

  function AccessAll(p: Path, ops: seq<(Request, nat)>): (run: Run)
    requires CanAccessAll(p, ops)
    ensures |run.results| == |ops|
    decreases |ops|
  {
    if ops == [] then Run(p, [])
    else
      var q := Access(p, ops[0].0, ops[0].1);
      var rest := AccessAll(q, ops[1..]);
      Run(rest.path, [q.response] + rest.results)
  }

  /** A plain register file: what each access should have delivered. */
  function Responses(registers: map<nat, Raw>, response: Raw, ops: seq<(Request, nat)>): (words: seq<Raw>)
    ensures |words| == |ops|
    decreases |ops|
  {
    if ops == [] then []
    else
      var next := Answered(registers, response, ops[0].0);
      [next] + Responses(Stored(registers, ops[0].0), next, ops[1..])
  }

  function StoredAll(registers: map<nat, Raw>, ops: seq<(Request, nat)>): map<nat, Raw>
    decreases |ops|
  {
    if ops == [] then registers else StoredAll(Stored(registers, ops[0].0), ops[1..])
  }

  /** With nothing outstanding every schedule of every sequence of accesses gives
      exactly the answers of a plain register file, and leaves nothing behind. */
  lemma {:induction false} PairedAccessIsRegisterFile(p: Path, ops: seq<(Request, nat)>)
    requires Surplus(p) == 0 && CanAccessAll(p, ops)
    ensures var run := AccessAll(p, ops);
            && run.results == Responses(p.registers, p.response, ops)
            && run.path.registers == StoredAll(p.registers, ops)
            && Surplus(run.path) == 0
    decreases |ops|
  {
    if ops != [] {
      var r, n := ops[0].0, ops[0].1;
      assert n == 1;
      assert p.requests + [r] == [r];
      var posted := p.(requests := [r]);
      assert ServeMany(posted, 1) == ServeMany(Serve(posted), 0) == Serve(posted);
      PairedAccessIsRegisterFile(Access(p, r, n), ops[1..]);
    }
  }

  /** The last value put to an address by the first accesses, or its old value. */
  function LastPut(registers: map<nat, Raw>, ops: seq<(Request, nat)>, address: nat): Raw
    requires address in registers
  {
    if ops == [] then registers[address]
    else
      var r := ops[|ops| - 1].0;
      if r.Put? && r.address == address then r.value else LastPut(registers, ops[..|ops| - 1], address)
  }

  lemma {:induction false} LastPutShift(registers: map<nat, Raw>, ops: seq<(Request, nat)>, address: nat)
    requires ops != [] && address in registers
    ensures LastPut(registers, ops, address) == LastPut(Stored(registers, ops[0].0), ops[1..], address)
  {
    var front := ops[..|ops| - 1];
    if |ops| > 1 {
      LastPutShift(registers, front, address);
      assert front[1..] == ops[1..][..|ops| - 2];
    } else {
      assert front == [] && ops[1..] == [];
    }
  }

  /** Every read of an existing register returns the value last written to that
      address, or the one it had before the first access. */
  lemma {:induction false} ReadReturnsLastWrite(p: Path, ops: seq<(Request, nat)>, i: nat)
    requires Surplus(p) == 0 && CanAccessAll(p, ops)
    requires i < |ops| && ops[i].0.Get? && ops[i].0.address in p.registers
    ensures AccessAll(p, ops).results[i] == LastPut(p.registers, ops[..i], ops[i].0.address)
  {
    PairedAccessIsRegisterFile(p, ops);
    ResponseIsLastPut(p.registers, p.response, ops, i);
  }

  lemma {:induction false} ResponseIsLastPut(registers: map<nat, Raw>, response: Raw, ops: seq<(Request, nat)>, i: nat)
    requires i < |ops| && ops[i].0.Get? && ops[i].0.address in registers
    ensures Responses(registers, response, ops)[i] == LastPut(registers, ops[..i], ops[i].0.address)
    decreases |ops|
  {
    if i > 0 {
      var r := ops[0].0;
      ResponseIsLastPut(Stored(registers, r), Answered(registers, response, r), ops[1..], i - 1);
      LastPutShift(registers, ops[..i], ops[i].0.address);
      assert ops[..i][1..] == ops[1..][..i - 1];
    }
  }

  // ------------------------------------------------------ a late completion

  /** The laziest FPGA: it serves a request only when the host would otherwise
      wait for ever. */
  predicate Lazy(p: Path, ops: seq<(Request, nat)>)
    decreases |ops|
  {
    ops == [] ||
    (ops[0].1 == (if p.completions > 0 then 0 else 1)
     && CanAccess(p, ops[0].1)
     && Lazy(Access(p, ops[0].0, ops[0].1), ops[1..]))
  }

  lemma {:induction false} LazyCanAccess(p: Path, ops: seq<(Request, nat)>)
    requires Lazy(p, ops)
    ensures CanAccessAll(p, ops)
    decreases |ops|
  {
    if ops != [] {
      LazyCanAccess(Access(p, ops[0].0, ops[0].1), ops[1..]);
    }
  }

  /** The registers and the response word once the outstanding request is served. */
  function Settled(p: Path): Path { ServeMany(p, |p.requests|) }

  /** One surplus completion shifts every answer by one access: the host gets the
      answer to the request before, for any sequence of accesses, whether the
      surplus request is still under way or already completed. */
  lemma {:induction false} SurplusShiftsAnswers(p: Path, ops: seq<(Request, nat)>)
    requires Surplus(p) == 1 && Lazy(p, ops)
    ensures CanAccessAll(p, ops)
    ensures var late, answers := AccessAll(p, ops).results,
                                 Responses(Settled(p).registers, Settled(p).response, ops);
            && (ops != [] ==> late[0] == Settled(p).response)
            && (forall i :: 0 < i < |ops| ==> late[i] == answers[i - 1])
    decreases |ops|
  {
    LazyCanAccess(p, ops);
    if ops != [] {
      var r, n := ops[0].0, ops[0].1;
      var q := Access(p, r, n);
      SurplusAccess(p, r, n);
      SurplusShiftsAnswers(q, ops[1..]);
      forall i | 0 < i < |ops|
        ensures AccessAll(p, ops).results[i] == Responses(Settled(p).registers, Settled(p).response, ops)[i - 1]
      {
        assert AccessAll(p, ops).results[i] == AccessAll(q, ops[1..]).results[i - 1];
      }
    }
  }

  /** A lazy access with one surplus request delivers that request's answer and
      leaves its own request as the new surplus. */
  lemma SurplusAccess(p: Path, r: Request, n: nat)
    requires Surplus(p) == 1 && n == (if p.completions > 0 then 0 else 1) && CanAccess(p, n)
    ensures var q := Access(p, r, n);
            && Surplus(q) == 1
            && q.response == Settled(p).response
            && Settled(q).registers == Stored(Settled(p).registers, r)
            && Settled(q).response == Answered(Settled(p).registers, Settled(p).response, r)
  {
    var posted := p.(requests := p.requests + [r]);
    var q := Access(p, r, n);
    if p.completions > 0 {
      assert posted.requests == [r] && q == posted.(completions := 0);
      assert ServeMany(q, 1) == ServeMany(Serve(q), 0);
    } else {
      assert posted.requests == [p.requests[0], r];
      assert ServeMany(posted, 1) == ServeMany(Serve(posted), 0);
      assert ServeMany(p, 1) == ServeMany(Serve(p), 0);
      assert q.requests == [r];
      assert ServeMany(q, 1) == ServeMany(Serve(q), 0);
    }
  }

  // -------------------------------------------------------- when reads are right

  /** A request behind others does not change how those are served. */
  lemma {:induction false} ServeManyAhead(p: Path, r: Request, k: nat)
    requires k <= |p.requests|
    ensures ServeMany(p.(requests := p.requests + [r]), k)
            == ServeMany(p, k).(requests := ServeMany(p, k).requests + [r])
    decreases k
  {
    if k > 0 {
      assert (p.requests + [r])[1..] == p.requests[1..] + [r];
      ServeManyAhead(Serve(p), r, k - 1);
    }
  }

  lemma {:induction false} ServeManyKeepsKeys(p: Path, k: nat)
    requires k <= |p.requests|
    ensures ServeMany(p, k).registers.Keys == p.registers.Keys
    decreases k
  {
    if k > 0 {
      ServeManyKeepsKeys(Serve(p), k - 1);
    }
  }

  /** What a read delivers under a schedule: its own answer only if everything
      before it and the read itself are served in time, else an earlier answer. */
  lemma ReadDelivers(p: Path, address: nat, n: nat)
    requires CanAccess(p, n) && address in p.registers
    ensures address in Settled(p).registers
    ensures Access(p, Get(address), n).response
            == if n <= |p.requests| then ServeMany(p, n).response else Settled(p).registers[address]
  {
    var k := |p.requests|;
    ServeManyKeepsKeys(p, k);
    if n <= k {
      ServeManyAhead(p, Get(address), n);
    } else {
      ServeManyAhead(p, Get(address), k);
      ServeOneMore(p.(requests := p.requests + [Get(address)]), k);
    }
  }

  /** Under every schedule a read delivers what the register holds when all
      requests before it have taken effect. */
  ghost predicate ReadsRight(p: Path, address: nat)
    requires address in Settled(p).registers
  {
    forall n :: CanAccess(p, n) ==> Access(p, Get(address), n).response == Settled(p).registers[address]
  }

  /** Every answer that can be there together with a left-over completion is the
      register's value already. */
  ghost predicate EarlyAnswersAgree(p: Path, address: nat)
    requires address in Settled(p).registers
  {
    forall k: nat :: k <= |p.requests| && p.completions + k > 0 ==>
      ServeMany(p, k).response == Settled(p).registers[address]
  }

  /** For every path, whatever requests and completions are outstanding: a read is
      right under every schedule if and only if the answers to the accesses left
      over all happen to agree with it. */
  lemma ReadReliableIff(p: Path, address: nat)
    requires address in p.registers
    ensures address in Settled(p).registers
    ensures ReadsRight(p, address) <==> EarlyAnswersAgree(p, address)
  {
    ServeManyKeepsKeys(p, |p.requests|);
    forall n: nat | CanAccess(p, n)
      ensures Access(p, Get(address), n).response
              == if n <= |p.requests| then ServeMany(p, n).response else Settled(p).registers[address]
    {
      ReadDelivers(p, address, n);
    }
    if ReadsRight(p, address) {
      forall k: nat | k <= |p.requests| && p.completions + k > 0
        ensures ServeMany(p, k).response == Settled(p).registers[address]
      {
        assert CanAccess(p, k);
      }
    }
  }

  /** With nothing outstanding every read is right. */
  lemma CleanReadsRight(p: Path, address: nat)
    requires Surplus(p) == 0 && address in p.registers
    ensures address in Settled(p).registers && ReadsRight(p, address)
  {
    ReadReliableIff(p, address);
  }

  /** With one read still under way, a read is right if and only if the value it
      delivers equals the register's. */
  lemma PendingReadRightIff(p: Path, pending: nat, address: nat)
    requires p.requests == [Get(pending)] && p.completions == 0 && address in p.registers
    ensures address in Settled(p).registers
    ensures ReadsRight(p, address) <==>
            Answered(p.registers, p.response, Get(pending)) == p.registers[address]
  {
    ReadReliableIff(p, address);
    assert ServeMany(p, 1) == ServeMany(Serve(p), 0) == Serve(p);
  }

  /** When every request has been served, a read is right if and only if no
      completion is left over or the response word equals the register already. */
  lemma ServedReadRightIff(p: Path, address: nat)
    requires p.requests == [] && address in p.registers
    ensures address in Settled(p).registers
    ensures ReadsRight(p, address) <==> p.completions == 0 || p.response == p.registers[address]
  {
    ReadReliableIff(p, address);
    assert ServeMany(p, 0) == p;
  }
}
