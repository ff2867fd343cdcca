/**
 The agent and the driver at work on shared memory: each side has its own view of the two
 halves, and every method is one step of the protocol.
 */
module AgentDriver {
  import opened Basics
  import opened DoubleBuffer

  const BUFFER_SIZE: nat := 0x400_0000   // 64 MiB

  ghost function Content(memory: array<Byte>): Halves
    requires memory.Length == 2 * BUFFER_SIZE
    reads memory
  {
    Split(memory[..])
  }

  /** A memory with the given bytes stored from base on. */
  ghost function Patched(was: seq<Byte>, base: nat, data: seq<Byte>): seq<Byte>
    requires base + |data| <= |was|
  {
    was[..base] + data + was[base + |data|..]
  }

  lemma {:induction false} PatchNext(was: seq<Byte>, base: nat, data: seq<Byte>, k: nat)
    requires base + |data| <= |was| && k < |data|
    ensures |Patched(was, base, data[..k])| == |was|
    ensures Patched(was, base, data[..k])[base + k := data[k]] == Patched(was, base, data[..k + 1])
  {
    assert data[..k + 1] == data[..k] + [data[k]];
    assert was[base + k..] == [was[base + k]] + was[base + k + 1..];
  }

  ghost function Split(memory: seq<Byte>): Halves
    requires |memory| == 2 * BUFFER_SIZE
  {
    Halves(memory[..BUFFER_SIZE], memory[BUFFER_SIZE..])
  }

  /** Writing to one half of a memory is Put on the two halves. */
  lemma {:induction false} PatchIsPut(was: seq<Byte>, half: bool, data: seq<Byte>)
    requires |was| == 2 * BUFFER_SIZE && |data| <= BUFFER_SIZE
    ensures Split(Patched(was, if half then BUFFER_SIZE else 0, data)) == Put(Split(was), half, data)
  {
    var now := Patched(was, if half then BUFFER_SIZE else 0, data);
    var first, second := was[..BUFFER_SIZE], was[BUFFER_SIZE..];
    if half {
      assert now[..BUFFER_SIZE] == first && now[BUFFER_SIZE..] == data + second[|data|..];
    } else {
      assert now[..BUFFER_SIZE] == data + first[|data|..] && now[BUFFER_SIZE..] == second;
    }
  }

  /** One side's view of a mapped buffer. */
  class Buffer {
    const memory: array<Byte>
    var current: bool

    constructor (memory: array<Byte>)
      ensures this.memory == memory && !current
    {
      this.memory, current := memory, false;
    }

    /** Where the current half starts: the bytes from there on are that half. */
    function Current(): (offset: nat)
      requires memory.Length == 2 * BUFFER_SIZE
      reads this, memory
      ensures offset + BUFFER_SIZE <= memory.Length
      ensures memory[offset..offset + BUFFER_SIZE] == Half(Content(memory), current)
    {
      if current then BUFFER_SIZE else 0
    }

    /** Where the other half starts; the two do not overlap. */
    function Next(): (offset: nat)
      requires memory.Length == 2 * BUFFER_SIZE
      reads this, memory
      ensures offset + BUFFER_SIZE <= memory.Length
      ensures memory[offset..offset + BUFFER_SIZE] == Half(Content(memory), !current)
      ensures Current() + BUFFER_SIZE <= offset || offset + BUFFER_SIZE <= Current()
    {
      if current then 0 else BUFFER_SIZE
    }

    method Swap()
      modifies this
      ensures current == !old(current)
    {
      current := !current;
    }

    /** Store bytes at the start of the current half. */
    method Fill(data: seq<Byte>)
      requires memory.Length == 2 * BUFFER_SIZE && |data| <= BUFFER_SIZE
      modifies memory
      ensures Content(memory) == Put(old(Content(memory)), current, data)
    {
      var base := Current();
      ghost var was := memory[..];
      assert memory[..] == Patched(was, base, data[..0]);
      for k := 0 to |data|
        invariant memory[..] == Patched(was, base, data[..k])
      {
        PatchNext(was, base, data, k);
        memory[base + k] := data[k];
      }
      assert data[..|data|] == data;
      PatchIsPut(was, current, data);
    }

    /** The first n bytes of the current half. */
    method Fetch(n: nat) returns (data: seq<Byte>)
      requires memory.Length == 2 * BUFFER_SIZE && n <= BUFFER_SIZE
      ensures data == Take(Half(Content(memory), current), n)
    {
      data := memory[Current()..Current() + n];
    }
  }

  /** The locals of the agent's loop: where it is, the last read, the last response, and how many of each there were. */
  datatype AgentVars = AgentVars(pc: AgentPc, bytesRead: nat, eof: bool, response: Response,
                                 fetched: nat, sent: nat, heard: nat)
  /** The fields of the driver's contexts, and how many requests and responses there were. */
  datatype DriverVars = DriverVars(pc: DriverPc, size: nat, endOfInput: bool, received: nat, replied: nat)

  /**
   Both processes and what lies between them. The agent's and the driver's Buffer objects share
   their memory.
   */
  class Exchange {
    const hasIn: bool
    const hasOut: bool
    const agentIn: Buffer
    const agentOut: Buffer
    const driverIn: Buffer
    const driverOut: Buffer
    var requests: seq<Request>
    var responses: seq<Response>
    var agent: AgentVars
    var driver: DriverVars
    var written: seq<Byte>     // stdout of the agent
    var processed: seq<Byte>   // what the pipeline was given

    /** Nothing here can change: the objects and the memory are fixed. */
    ghost predicate Valid() {
      && agentIn.memory == driverIn.memory && agentOut.memory == driverOut.memory && agentIn.memory != agentOut.memory
      && Mapped()
      && agentIn != agentOut && agentIn != driverIn && agentIn != driverOut
      && agentOut != driverIn && agentOut != driverOut && driverIn != driverOut
    }

    ghost predicate Mapped() { agentIn.memory.Length == agentOut.memory.Length == 2 * BUFFER_SIZE }

    ghost function Value(): State
      requires Mapped()
      reads this, agentIn, agentOut, driverIn, driverOut, agentIn.memory, agentOut.memory
    {
      State(Agent(agent.pc, agent.bytesRead, agent.eof, agent.response, agentIn.current, agentOut.current,
                  agent.fetched, agent.sent, agent.heard, written),
            Driver(driver.pc, driver.size, driver.endOfInput, driverIn.current, driverOut.current,
                   driver.received, driver.replied, processed),
            Content(agentIn.memory), Content(agentOut.memory), requests, responses)
    }

    /** Map the buffers; an agent with input reads first. */
    constructor (hasIn: bool, hasOut: bool, input: array<Byte>, output: array<Byte>)
      requires input != output && input.Length == output.Length == 2 * BUFFER_SIZE
      ensures Valid() && this.hasIn == hasIn && this.hasOut == hasOut
      ensures agentIn.memory == input && agentOut.memory == output
      ensures fresh(agentIn) && fresh(agentOut) && fresh(driverIn) && fresh(driverOut)
      ensures forall rounds, outs ::
        Value() == Start(Session(hasIn, hasOut, rounds, outs, Content(input), Content(output)))
    {
      this.hasIn, this.hasOut := hasIn, hasOut;
      agentIn := new Buffer(input);
      agentOut := new Buffer(output);
      driverIn := new Buffer(input);
      driverOut := new Buffer(output);
      requests, responses := [], [];
      agent := AgentVars(if hasIn then Reading else Sending, 0, false, Response(0, false), 0, 0, 0);
      driver := DriverVars(Receiving, 0, false, 0, 0);
      written, processed := [], [];
    }

    /** fread into the current half, then switch. */
    method ReadInput(ghost c: Session, read: Round)
      requires Valid() && |read.data| <= BUFFER_SIZE
      requires agent.fetched < |c.rounds| && read == c.rounds[agent.fetched]
      modifies this, agentIn, agentIn.memory
      ensures Value() == Read(c, old(Value()))
    {
      agentIn.Fill(read.data);
      agentIn.Swap();
      agent := agent.(bytesRead := |read.data|, eof := read.eof, fetched := agent.fetched + 1,
                      pc := if agent.sent == 0 then Sending else Waiting);
    }

    /** Tell the driver about the data, unless the last response was the final one. */
    method SendRequest()
      requires Valid()
      modifies this
      ensures Value() == Send(old(Value()))
    {
      if !agent.response.eof {
        requests := requests + [Request(agent.bytesRead, agent.eof)];
        agent := agent.(sent := agent.sent + 1);
      }
      agent := agent.(pc := Printing);
    }

    /** fwrite the output of the previous round; switch only if there was any. */
    method WriteOutput(ghost c: Session)
      requires Valid() && agent.response.size <= BUFFER_SIZE && c.hasIn == hasIn && c.hasOut == hasOut
      modifies this, agentOut
      ensures Value() == Print(c, old(Value()))
    {
      if agent.response.size > 0 && hasOut {
        var text := agentOut.Fetch(agent.response.size);
        written := written + text;
        agentOut.Swap();
      }
      agent := agent.(pc := if agent.response.eof then AgentDone else if hasIn && !agent.eof then Reading else Waiting);
    }

    method ReceiveResponse()
      requires Valid() && responses != []
      modifies this
      ensures Value() == Hear(old(Value()))
    {
      agent := agent.(response := responses[0], heard := agent.heard + 1, pc := Sending);
      responses := responses[1..];
    }

    /** configure of both contexts: one request is taken from the channel. */
    method Configure(ghost c: Session, sourceEnds: bool)
      requires Valid() && requests != [] && driver.replied < |c.rounds| && c.hasIn == hasIn
      requires sourceEnds == c.rounds[driver.replied].eof   // what a source that is not piped reports
      modifies this
      ensures Value() == Receive(c, old(Value()))
    {
      var request := requests[0];
      driver := driver.(size := request.size, endOfInput := if hasIn then request.eof else sourceEnds,
                        received := driver.received + 1, pc := Running);
      requests := requests[1..];
    }

    /** The pipeline reads the current input half and fills the current output half. */
    method RunPipeline(ghost c: Session, output: seq<Byte>)
      requires Valid() && c.hasIn == hasIn && c.hasOut == hasOut
      requires driver.replied < |c.outs| && output == c.outs[driver.replied] && |output| <= BUFFER_SIZE
      requires hasIn ==> driver.size <= BUFFER_SIZE && (driver.size == 0 ==> output == [])
      modifies this, driverOut.memory
      ensures Value() == Run(c, old(Value()))
    {
      if driver.size > 0 || !hasIn {   // no run on an empty piped input
        if hasIn {
          var data := driverIn.Fetch(driver.size);
          processed := processed + data;
        }
        if hasOut { driverOut.Fill(output); }
      }
      driver := driver.(pc := Replying);
    }

    /** finalize of both contexts: every buffer is switched, and one response goes out. */
    method Finalize(ghost c: Session, outputSize: nat)
      requires Valid() && c.hasIn == hasIn && c.hasOut == hasOut
      requires driver.replied < |c.outs| && outputSize == |c.outs[driver.replied]|
      modifies this, driverIn, driverOut
      ensures Value() == Reply(c, old(Value()))
    {
      if hasIn { driverIn.Swap(); }
      if hasOut { driverOut.Swap(); }
      responses := responses + [Response(if hasOut then outputSize else 0, driver.endOfInput)];
      driver := driver.(pc := if driver.endOfInput then DriverDone else Receiving, replied := driver.replied + 1);
    }

    /** One step of the agent, if what it waits for is there. */
    method StepAgent(c: Session) returns (moved: bool, ghost act: Act)
      requires Valid() && Fits(c) && FullInv(c, Value()) && c.hasIn == hasIn && c.hasOut == hasOut
      modifies this, agentIn, agentOut, agentIn.memory
      ensures moved ==> Can(c, old(Value()), act) && Value() == Do(c, old(Value()), act)
      ensures !moved ==> Value() == old(Value()) && AgentWaits(Value())
    {
      moved, act := true, DoSend;
      match agent.pc {
        case Reading =>
          act := DoRead;
          ReadInput(c, c.rounds[agent.fetched]);
        case Sending => SendRequest();
        case Printing =>
          act := DoPrint;
          WriteOutput(c);
        case Waiting =>
          act := DoHear;
          if responses == [] { moved := false; } else { ReceiveResponse(); }
        case AgentDone => moved := false;
      }
    }

    /** One step of the driver, if what it waits for is there. */
    method StepDriver(c: Session) returns (moved: bool, ghost act: Act)
      requires Valid() && Fits(c) && FullInv(c, Value()) && c.hasIn == hasIn && c.hasOut == hasOut
      modifies this, driverIn, driverOut, agentOut.memory
      ensures moved ==> Can(c, old(Value()), act) && Value() == Do(c, old(Value()), act)
      ensures !moved ==> Value() == old(Value()) && DriverWaits(Value())
    {
      moved, act := true, DoRun;
      match driver.pc {
        case Receiving =>
          act := DoReceive;
          if requests == [] { moved := false; } else { Configure(c, c.rounds[driver.replied].eof); }
        case Running =>
          assert EmptyStaysEmpty(c, driver.replied);
          RunPipeline(c, c.outs[driver.replied]);
        case Replying =>
          act := DoReply;
          Finalize(c, |c.outs[driver.replied]|);
        case DriverDone => moved := false;
      }
    }

    /**
     A whole session under a given schedule (who is asked first at each step): it ends, the
     driver has processed all that was read, and the agent has written all that came out.
     */
    method RunSession(c: Session, agentFirst: seq<bool>)
      requires Valid() && WellFormed(c) && Fits(c) && c.hasIn == hasIn && c.hasOut == hasOut && Value() == Start(c)
      modifies this, agentIn, agentOut, driverIn, driverOut, agentIn.memory, agentOut.memory
      ensures agent.pc.AgentDone? && driver.pc.DriverDone?
      ensures hasIn ==> processed == Concat(Datas(c.rounds))
      ensures hasOut && EvenZeros(c.outs) ==> written == Concat(c.outs)
    {
      StartInv(c);
      var steps, moved := 0, true;
      while moved
        invariant FullInv(c, Value())
        invariant !moved ==> agent.pc.AgentDone? && driver.pc.DriverDone?
        decreases 7 * |c.rounds| + 3 - Work(Value()), moved
      {
        ghost var s, act := Value(), DoSend;
        moved, act := Step(c, steps >= |agentFirst| || agentFirst[steps]);
        if moved { StepKeeps(c, s, act); }
        steps := steps + 1;
      }
      Finished(c, Value());
    }

    /** Either side's step, the preferred one first. */
    method Step(c: Session, agentFirst: bool) returns (moved: bool, ghost act: Act)
      requires Valid() && Fits(c) && FullInv(c, Value()) && c.hasIn == hasIn && c.hasOut == hasOut
      modifies this, agentIn, agentOut, driverIn, driverOut, agentIn.memory, agentOut.memory
      ensures moved ==> Can(c, old(Value()), act) && Value() == Do(c, old(Value()), act)
      ensures !moved ==> Value() == old(Value()) && AgentWaits(Value()) && DriverWaits(Value())
    {
      if agentFirst { moved, act := StepAgent(c); } else { moved, act := StepDriver(c); }
      if !moved {
        if agentFirst { moved, act := StepDriver(c); } else { moved, act := StepAgent(c); }
      }
    }
  }

  predicate AgentWaits(s: State) { s.a.pc.AgentDone? || (s.a.pc.Waiting? && s.responses == []) }
  predicate DriverWaits(s: State) { s.d.pc.DriverDone? || (s.d.pc.Receiving? && s.requests == []) }

  lemma {:induction false} StepKeeps(c: Session, s: State, act: Act)
    requires FullInv(c, s) && Can(c, s, act)
    ensures FullInv(c, Do(c, s, act))
    ensures Work(s) < Work(Do(c, s, act)) <= 7 * |c.rounds| + 3
  {
    FullInvKept(c, s, act);
    WorkGrows(c, s, act);
    WorkBounded(c, Do(c, s, act));
  }

  lemma {:induction false} Finished(c: Session, s: State)
    requires FullInv(c, s) && s.a.pc.AgentDone? && s.d.pc.DriverDone?
    ensures c.hasIn ==> s.d.processed == Concat(Datas(c.rounds))
    ensures c.hasOut && EvenZeros(c.outs) ==> s.a.printed == Concat(c.outs)
  {
    if c.hasOut && EvenZeros(c.outs) { AllPrinted(c, s); }
    assert Datas(c.rounds)[..|c.rounds|] == Datas(c.rounds);
  }

  ghost predicate Fits(c: Session) {
    && (forall k :: 0 <= k < |c.rounds| ==> |c.rounds[k].data| <= BUFFER_SIZE)
    && (forall k :: 0 <= k < |c.outs| ==> |c.outs[k]| <= BUFFER_SIZE)
  }
}
