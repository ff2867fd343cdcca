/**
 The protocol between an agent and the driver: two processes, a request and a response
 channel, and shared buffers of two halves that each side switches on its own. Every step of
 either process may be followed by any step of the other.
 */
module DoubleBuffer {
  import opened Basics

  /** What the k-th fread delivers, and whether the input ends with it. */
  datatype Round = Round(data: seq<Byte>, eof: bool)
  datatype Request = Request(size: nat, eof: bool)
  datatype Response = Response(size: nat, eof: bool)

  datatype Halves = Halves(first: seq<Byte>, second: seq<Byte>)

  /**
   Which buffers there are, the agent's successive reads, the pipeline's successive outputs, and
   what the shared memory happens to hold before.
   */
  datatype Session = Session(hasIn: bool, hasOut: bool, rounds: seq<Round>, outs: seq<seq<Byte>>,
                             input: Halves, output: Halves)

  ghost predicate WellFormed(c: Session) {
    && |c.rounds| == |c.outs| > 0
    && (forall k :: 0 <= k < |c.rounds| ==> (c.rounds[k].eof <==> k == |c.rounds| - 1))
    // the pipeline is not run on an empty piped input
    && (forall k {:trigger EmptyStaysEmpty(c, k)} ::
         0 <= k < |c.rounds| ==> EmptyStaysEmpty(c, k))
  }

  predicate EmptyStaysEmpty(c: Session, k: nat) {
    k < |c.rounds| == |c.outs| && (c.hasIn && c.rounds[k].data == [] ==> c.outs[k] == [])
  }

  /** Reading, Printing and (for the driver) Running last from one step to the next: accesses take time. */
  datatype AgentPc = Reading | Sending | Printing | Waiting | AgentDone
  datatype DriverPc = Receiving | Running | Replying | DriverDone

  /** fetched, sent and heard count the agent's reads, requests and responses so far. */
  datatype Agent = Agent(pc: AgentPc, bytesRead: nat, eof: bool, response: Response, inHalf: bool, outHalf: bool,
                         fetched: nat, sent: nat, heard: nat, printed: seq<Byte>)
  datatype Driver = Driver(pc: DriverPc, size: nat, endOfInput: bool, inHalf: bool, outHalf: bool,
                           received: nat, replied: nat, processed: seq<Byte>)
  datatype State = State(a: Agent, d: Driver, input: Halves, output: Halves,
                         requests: seq<Request>, responses: seq<Response>)

  function Start(c: Session): State {
    State(Agent(if c.hasIn then Reading else Sending, 0, false, Response(0, false), false, false, 0, 0, 0, []),
          Driver(Receiving, 0, false, false, false, 0, 0, []),
          c.input, c.output, [], [])
  }

  function Half(b: Halves, h: bool): seq<Byte> { if h then b.second else b.first }

  /** Writing a prefix of a half leaves the bytes behind it, and the other half. */
  function Put(b: Halves, h: bool, data: seq<Byte>): Halves {
    var old_ := Half(b, h);
    var new_ := data + if |data| < |old_| then old_[|data|..] else [];
    if h then b.(second := new_) else b.(first := new_)
  }

  function Take(s: seq<Byte>, n: nat): seq<Byte> { if n <= |s| then s[..n] else s }

  // ---- Steps of the agent -----------------------------------------------------------------

  /** fread into the current half, then swap. */
  function Read(c: Session, s: State): State
    requires s.a.fetched < |c.rounds|
  {
    var r := c.rounds[s.a.fetched];
    s.(input := Put(s.input, s.a.inHalf, r.data),
       a := s.a.(inHalf := !s.a.inHalf, fetched := s.a.fetched + 1, bytesRead := |r.data|, eof := r.eof,
                 pc := if s.a.sent == 0 then Sending else Waiting))
  }

  /** Tell the driver about the data, unless the last response ended the session. */
  function Send(s: State): State {
    if s.a.response.eof then s.(a := s.a.(pc := Printing))
    else s.(requests := s.requests + [Request(s.a.bytesRead, s.a.eof)], a := s.a.(sent := s.a.sent + 1, pc := Printing))
  }

  /** fwrite the output of the previous round and swap, but only if there was any. */
  function Print(c: Session, s: State): State {
    var any := s.a.response.size > 0 && c.hasOut;
    var text := if any then Take(Half(s.output, s.a.outHalf), s.a.response.size) else [];
    s.(a := s.a.(printed := s.a.printed + text,
                 outHalf := s.a.outHalf != any, pc := AfterPrint(c, s.a)))
  }

  function AfterPrint(c: Session, a: Agent): AgentPc {
    if a.response.eof then AgentDone else if c.hasIn && !a.eof then Reading else Waiting
  }

  function Hear(s: State): State
    requires s.responses != []
  {
    s.(responses := s.responses[1..], a := s.a.(response := s.responses[0], heard := s.a.heard + 1, pc := Sending))
  }

  // ---- Steps of the driver ----------------------------------------------------------------

  function Receive(c: Session, s: State): State
    requires s.requests != [] && s.d.replied < |c.rounds|
  {
    var q := s.requests[0];
    s.(requests := s.requests[1..],
       d := s.d.(received := s.d.received + 1, size := q.size, pc := Running,
                 endOfInput := if c.hasIn then q.eof else c.rounds[s.d.replied].eof))
  }

  /** The pipeline reads the current input half and writes the current output half. */
  function Run(c: Session, s: State): State
    requires s.d.replied < |c.outs|
  {
    s.(output := if c.hasOut then Put(s.output, s.d.outHalf, c.outs[s.d.replied]) else s.output,
       d := s.d.(processed := s.d.processed + (if c.hasIn then Take(Half(s.input, s.d.inHalf), s.d.size) else []),
                 pc := Replying))
  }

  /** Both contexts swap, whatever the size of the output, and one response goes out. */
  function Reply(c: Session, s: State): State
    requires s.d.replied < |c.outs|
  {
    s.(responses := s.responses + [Response(if c.hasOut then |c.outs[s.d.replied]| else 0, s.d.endOfInput)],
       d := s.d.(inHalf := s.d.inHalf != c.hasIn, outHalf := s.d.outHalf != c.hasOut, replied := s.d.replied + 1,
                 pc := if s.d.endOfInput then DriverDone else Receiving))
  }

  // ---- What every interleaving keeps ------------------------------------------------------

  predicate Odd(n: int) { n % 2 == 1 }

  function Concat(ds: seq<seq<Byte>>): seq<Byte> { if ds == [] then [] else Concat(ds[..|ds| - 1]) + ds[|ds| - 1] }

  function Datas(rs: seq<Round>): (r: seq<seq<Byte>>)
    ensures |r| == |rs| && forall k :: 0 <= k < |rs| ==> r[k] == rs[k].data
  {
    seq(|rs|, k requires 0 <= k < |rs| => rs[k].data)
  }

  /** Requests and responses strictly alternate; the counts say where each side is. */
  ghost predicate Control(c: Session, s: State) {
    var n, a, d := |c.rounds|, s.a, s.d;
    && a.heard <= d.replied <= d.received <= a.sent <= a.heard + 1
    && a.sent <= n
    && |s.requests| == a.sent - d.received
    && |s.responses| == d.replied - a.heard
    && d.received == d.replied + Bit(d.pc.Running? || d.pc.Replying?)
    && (d.pc.DriverDone? <==> d.replied == n)
    && (a.pc.Reading? ==> c.hasIn && a.sent == a.heard + Bit(a.sent > 0))
    && (a.pc.Waiting? ==> a.sent == a.heard + 1)
    && (a.pc.Sending? ==> a.sent == a.heard)
    && (a.pc.Printing? ==> a.sent == a.heard + Bit(a.heard < n))
    && (a.pc.AgentDone? ==> a.heard == n)
  }

  function ResponseTo(c: Session, k: nat): Response
    requires k < |c.rounds| == |c.outs|
  {
    Response(if c.hasOut then |c.outs[k]| else 0, k == |c.rounds| - 1)
  }

  function RequestFor(c: Session, k: nat): Request
    requires k < |c.rounds|
  {
    Request(|c.rounds[k].data|, c.rounds[k].eof)
  }

  ghost predicate Messages(c: Session, s: State)
    requires |c.rounds| == |c.outs| && Control(c, s)
  {
    && (s.responses != [] ==> s.responses[0] == ResponseTo(c, s.a.heard))
    && s.a.response == (if s.a.heard == 0 then Response(0, false) else ResponseTo(c, s.a.heard - 1))
    && (c.hasIn && s.requests != [] ==> s.requests[0] == RequestFor(c, s.d.received))
    && (s.d.pc.Running? || s.d.pc.Replying? ==> (s.d.endOfInput <==> s.d.received == |c.rounds|))
    && (c.hasIn && s.d.pc.Running? ==> s.d.size == |c.rounds[s.d.replied].data|)
  }

  /** Reads done: the next round's data is read while the last request is being served. */
  ghost predicate Fetching(c: Session, s: State)
    requires Control(c, s)
  {
    c.hasIn ==>
      && s.a.fetched == s.a.sent + Bit(!s.a.pc.Reading? && !s.a.pc.Printing? && s.a.sent != |c.rounds|)
      && (s.a.fetched > 0 ==> s.a.bytesRead == |c.rounds[s.a.fetched - 1].data|)
      && (s.a.fetched > 0 ==> s.a.eof == (s.a.fetched == |c.rounds|))
      && (s.a.pc.Reading? ==> s.a.fetched < |c.rounds|)
  }

  predicate Stored(c: Session, input: Halves, k: nat) {
    k < |c.rounds| && c.rounds[k].data <= Half(input, Odd(k))
  }

  /** The input buffer: read k went into half k mod 2 and is still there until it was processed. */
  ghost predicate Input(c: Session, s: State)
    requires Control(c, s) && Fetching(c, s)
  {
    c.hasIn ==>
      && s.a.inHalf == Odd(s.a.fetched) && s.d.inHalf == Odd(s.d.replied)
      && (forall k {:trigger Stored(c, s.input, k)} ::
           s.d.replied <= k < s.a.fetched ==> Stored(c, s.input, k))
      && s.d.processed == Concat(Datas(c.rounds)[..s.d.replied + Bit(s.d.pc.Replying?)])
  }

  ghost predicate Inv(c: Session, s: State) {
    && WellFormed(c)
    && Control(c, s)
    && Messages(c, s)
    && Fetching(c, s)
    && Input(c, s)
  }

  lemma {:induction false} ReadControl(c: Session, s: State)
    requires WellFormed(c) && Control(c, s) && Messages(c, s) && Fetching(c, s) && s.a.pc.Reading?
    ensures Control(c, Read(c, s))
    ensures Messages(c, Read(c, s))
    ensures Fetching(c, Read(c, s))
  {
  }

  lemma {:induction false} ReadKept(c: Session, s: State)
    requires Inv(c, s) && s.a.pc.Reading?
    ensures Inv(c, Read(c, s))
  {
    ReadControl(c, s);
    ReadInput(c, s);
  }

  lemma {:induction false} ReadInput(c: Session, s: State)
    requires Control(c, s) && Fetching(c, s) && Input(c, s) && s.a.pc.Reading?
    requires Control(c, Read(c, s)) && Fetching(c, Read(c, s))
    ensures Input(c, Read(c, s))
  {
    ReadStores(c, s.input, s.d.replied, s.a.fetched);
  }

  /** A read replaces the half of the read before last, which was processed long ago. */
  lemma {:induction false} ReadStores(c: Session, input: Halves, replied: nat, n: nat)
    requires n < |c.rounds| && n <= replied + 1
    requires forall k {:trigger Stored(c, input, k)} :: replied <= k < n ==> Stored(c, input, k)
    ensures var input' := Put(input, Odd(n), c.rounds[n].data);
      forall k {:trigger Stored(c, input', k)} ::
        replied <= k < n + 1 ==> Stored(c, input', k)
  {
    var input' := Put(input, Odd(n), c.rounds[n].data);
    forall k | replied <= k < n + 1 ensures Stored(c, input', k) {
      assert k < n ==> k == n - 1 && Stored(c, input, k);
    }
  }

  /** Steps that touch neither the halves nor the counts of the input keep what is known about it. */
  lemma {:induction false} InputSame(c: Session, s: State, s': State)
    requires Control(c, s) && Fetching(c, s) && Input(c, s) && Control(c, s') && Fetching(c, s')
    requires s'.d == s.d && s'.input == s.input && s'.a.fetched == s.a.fetched && s'.a.inHalf == s.a.inHalf
    ensures Input(c, s')
  {
    if c.hasIn {
      forall k | s.d.replied <= k < s.a.fetched ensures Stored(c, s'.input, k) { assert Stored(c, s.input, k); }
    }
  }

  lemma {:induction false} SendControl(c: Session, s: State)
    requires WellFormed(c) && Control(c, s) && Messages(c, s) && Fetching(c, s) && s.a.pc.Sending?
    ensures Control(c, Send(s))
    ensures Messages(c, Send(s))
    ensures Fetching(c, Send(s))
  {
  }

  lemma {:induction false} SendKept(c: Session, s: State)
    requires Inv(c, s) && s.a.pc.Sending?
    ensures Inv(c, Send(s))
  {
    SendControl(c, s);
    InputSame(c, s, Send(s));
  }

  lemma {:induction false} PrintControl(c: Session, s: State, s': State)
    requires WellFormed(c) && Control(c, s) && Messages(c, s) && Fetching(c, s) && s.a.pc.Printing?
    requires s' == s.(a := s.a.(pc := AfterPrint(c, s.a), printed := s'.a.printed, outHalf := s'.a.outHalf))
    ensures Control(c, s')
    ensures Messages(c, s')
    ensures Fetching(c, s')
  {
  }

  lemma {:induction false} PrintKept(c: Session, s: State)
    requires Inv(c, s) && s.a.pc.Printing?
    ensures Inv(c, Print(c, s))
  {
    PrintControl(c, s, Print(c, s));
    InputSame(c, s, Print(c, s));
  }

  lemma {:induction false} HearKept(c: Session, s: State)
    requires Inv(c, s) && s.a.pc.Waiting? && s.responses != []
    ensures Inv(c, Hear(s))
  {
  }

  lemma {:induction false} ReceiveKept(c: Session, s: State)
    requires Inv(c, s) && s.d.pc.Receiving? && s.requests != []
    ensures s.d.replied < |c.rounds|
    ensures Inv(c, Receive(c, s))
  {
  }

  lemma {:induction false} RunKept(c: Session, s: State)
    requires Inv(c, s) && s.d.pc.Running?
    ensures Inv(c, Run(c, s))
  {
    RunControl(c, s);
    RunInput(c, s);
  }

  lemma {:induction false} RunControl(c: Session, s: State)
    requires WellFormed(c) && Control(c, s) && Messages(c, s) && Fetching(c, s) && s.d.pc.Running?
    ensures Control(c, Run(c, s))
    ensures Messages(c, Run(c, s))
    ensures Fetching(c, Run(c, s))
  {
  }

  lemma {:induction false} RunInput(c: Session, s: State)
    requires WellFormed(c) && Control(c, s) && Fetching(c, s) && Input(c, s) && s.d.pc.Running?
    requires c.hasIn ==> s.d.size == |c.rounds[s.d.replied].data|
    requires Control(c, Run(c, s)) && Fetching(c, Run(c, s))
    ensures Input(c, Run(c, s))
  {
    if c.hasIn {
      var k := s.d.replied;
      assert Stored(c, s.input, k);
      ConcatNext(Datas(c.rounds), k);
      forall j | k <= j < s.a.fetched ensures Stored(c, Run(c, s).input, j) { assert Stored(c, s.input, j); }
    }
  }

  lemma {:induction false} ReplyKept(c: Session, s: State)
    requires Inv(c, s) && s.d.pc.Replying?
    ensures Inv(c, Reply(c, s))
  {
  }

  // ---- The output buffer ------------------------------------------------------------------

  /** Responses whose output the agent has dealt with. */
  function Handled(s: State): int {
    s.a.heard - Bit((s.a.pc.Sending? || s.a.pc.Printing?) && s.a.heard > 0)
  }

  function Produced(s: State): int { s.d.replied + Bit(s.d.pc.Replying?) }

  /** Empty outputs among the first k: the agent does not swap for these, the driver does. */
  function Zeros(outs: seq<seq<Byte>>, k: nat): nat
    requires k <= |outs|
  {
    if k == 0 then 0 else Zeros(outs, k - 1) + Bit(outs[k - 1] == [])
  }

  predicate StoredOut(c: Session, output: Halves, k: nat) {
    k < |c.outs| && c.outs[k] <= Half(output, Odd(k))
  }

  ghost predicate Output(c: Session, s: State)
    requires |c.rounds| == |c.outs| && Control(c, s)
  {
    c.hasOut ==>
      && s.d.outHalf == Odd(s.d.replied)
      && s.a.outHalf == Odd(Handled(s) - Zeros(c.outs, Handled(s)))
      && (forall k {:trigger StoredOut(c, s.output, k)} ::
           Handled(s) <= k < Produced(s) ==> StoredOut(c, s.output, k))
  }

  /** Every output that is not empty comes after an even number of empty ones. */
  ghost predicate EvenZeros(outs: seq<seq<Byte>>) {
    forall k: nat {:trigger InStep(outs, k)} :: k < |outs| ==> InStep(outs, k)
  }

  predicate InStep(outs: seq<seq<Byte>>, k: nat) {
    k < |outs| && (outs[k] != [] ==> !Odd(Zeros(outs, k)))
  }

  ghost predicate Printed(c: Session, s: State)
    requires |c.rounds| == |c.outs| && Control(c, s)
  {
    c.hasOut ==> s.a.printed == Concat(c.outs[..Handled(s)])
  }

  ghost predicate FullInv(c: Session, s: State) {
    && Inv(c, s)
    && Output(c, s)
    && (EvenZeros(c.outs) ==> Printed(c, s))
  }

  /** Steps that leave the output buffer, the agent's half and the counts alone. */
  lemma {:induction false} OutputSame(c: Session, s: State, s': State)
    requires |c.rounds| == |c.outs| && Control(c, s) && Control(c, s') && Output(c, s)
    requires s'.output == s.output && s'.a.outHalf == s.a.outHalf && s'.a.printed == s.a.printed
    requires Handled(s') == Handled(s) && Produced(s') == Produced(s)
    requires c.hasOut ==> s'.d.outHalf == Odd(s'.d.replied)
    ensures Output(c, s')
    ensures Printed(c, s) ==> Printed(c, s')
  {
    if c.hasOut {
      forall k | Handled(s') <= k < Produced(s') ensures StoredOut(c, s'.output, k) {
        assert StoredOut(c, s.output, k);
      }
    }
  }

  /** Running overwrites the half of the output before last, which was printed long ago. */
  lemma {:induction false} RunOutput(c: Session, s: State)
    requires Inv(c, s) && Output(c, s) && s.d.pc.Running? && Control(c, Run(c, s))
    ensures Output(c, Run(c, s))
    ensures Printed(c, s) ==> Printed(c, Run(c, s))
  {
    var s' := Run(c, s);
    if c.hasOut {
      forall k | Handled(s') <= k < Produced(s') ensures StoredOut(c, s'.output, k) {
        assert k < s.d.replied ==> k == s.d.replied - 1 && StoredOut(c, s.output, k);
      }
    }
  }

  /** What is printed: the output of the round, if the halves are in step. */
  lemma {:induction false} PrintedText(c: Session, s: State)
    requires WellFormed(c) && Control(c, s) && Messages(c, s) && Output(c, s)
    requires c.hasOut && s.a.pc.Printing? && s.a.heard > 0 && s.a.response.size > 0
    ensures Handled(s) == s.a.heard - 1
    ensures c.outs[s.a.heard - 1] != []
    ensures !Odd(Zeros(c.outs, s.a.heard - 1)) ==>
      Take(Half(s.output, s.a.outHalf), s.a.response.size) == c.outs[s.a.heard - 1]
  {
    assert StoredOut(c, s.output, s.a.heard - 1);
  }

  /** Printing handles the last response heard; the half is swapped exactly if its output was not empty. */
  lemma {:induction false} PrintCounts(c: Session, s: State)
    requires WellFormed(c) && Control(c, s) && Messages(c, s) && s.a.pc.Printing? && c.hasOut
    ensures Handled(s) == s.a.heard - Bit(s.a.heard > 0)
    ensures Handled(Print(c, s)) == s.a.heard
    ensures s.a.heard == 0 ==> Print(c, s).a.outHalf == s.a.outHalf && Print(c, s).a.printed == s.a.printed
    ensures s.a.heard > 0 ==> s.a.response.size == |c.outs[s.a.heard - 1]|
  {
  }

  /** Agent halves and empty outputs: k outputs, all but the empty ones swapped. */
  lemma {:induction false} HalfAfter(outs: seq<seq<Byte>>, k: nat)
    requires k < |outs|
    ensures Odd(k + 1 - Zeros(outs, k + 1)) == (Odd(k - Zeros(outs, k)) != (outs[k] != []))
  {
  }

  lemma {:induction false} PrintOutput(c: Session, s: State)
    requires WellFormed(c) && Control(c, s) && Messages(c, s) && Output(c, s)
    requires s.a.pc.Printing? && Control(c, Print(c, s))
    ensures Output(c, Print(c, s))
  {
    var s' := Print(c, s);
    if c.hasOut {
      PrintCounts(c, s);
      if s.a.heard > 0 { HalfAfter(c.outs, s.a.heard - 1); }
      forall k | Handled(s') <= k < Produced(s') ensures StoredOut(c, s'.output, k) {
        assert StoredOut(c, s.output, k);
      }
    }
  }

  lemma {:induction false} PrintPrinted(c: Session, s: State)
    requires WellFormed(c) && Control(c, s) && Messages(c, s) && s.a.pc.Printing? && Control(c, Print(c, s))
    requires Printed(c, s)
    requires c.hasOut && s.a.heard > 0 ==> Print(c, s).a.printed == s.a.printed + c.outs[s.a.heard - 1]
    ensures Printed(c, Print(c, s))
  {
    if c.hasOut {
      PrintCounts(c, s);
      if s.a.heard > 0 { ConcatNext(c.outs, s.a.heard - 1); }
    }
  }

  lemma {:induction false} PrintedNext(c: Session, s: State)
    requires WellFormed(c) && Control(c, s) && Messages(c, s) && Output(c, s) && s.a.pc.Printing? && s.a.heard > 0
    requires EvenZeros(c.outs) && c.hasOut
    ensures Print(c, s).a.printed == s.a.printed + c.outs[s.a.heard - 1]
  {
    PrintCounts(c, s);
    if s.a.response.size > 0 {
      assert InStep(c.outs, s.a.heard - 1);
      PrintedText(c, s);
    }
  }

  lemma {:induction false} ConcatNext(ds: seq<seq<Byte>>, k: nat)
    requires k < |ds|
    ensures Concat(ds[..k + 1]) == Concat(ds[..k]) + ds[k]
  {
    assert ds[..k + 1][..k] == ds[..k];
  }

  // ---- Runs -------------------------------------------------------------------------------

  datatype Act = DoRead | DoSend | DoPrint | DoHear | DoReceive | DoRun | DoReply

  /** The process is at this step, and what the step reads has arrived. */
  predicate Can(c: Session, s: State, act: Act) {
    match act
    case DoRead => s.a.pc.Reading? && s.a.fetched < |c.rounds|
    case DoSend => s.a.pc.Sending?
    case DoPrint => s.a.pc.Printing?
    case DoHear => s.a.pc.Waiting? && s.responses != []
    case DoReceive => s.d.pc.Receiving? && s.requests != [] && s.d.replied < |c.rounds|
    case DoRun => s.d.pc.Running? && s.d.replied < |c.outs|
    case DoReply => s.d.pc.Replying? && s.d.replied < |c.outs|
  }

  function Do(c: Session, s: State, act: Act): State
    requires Can(c, s, act)
  {
    match act
    case DoRead => Read(c, s)
    case DoSend => Send(s)
    case DoPrint => Print(c, s)
    case DoHear => Hear(s)
    case DoReceive => Receive(c, s)
    case DoRun => Run(c, s)
    case DoReply => Reply(c, s)
  }

  lemma {:induction false} InvKept(c: Session, s: State, act: Act)
    requires Inv(c, s) && Can(c, s, act)
    ensures Inv(c, Do(c, s, act))
  {
    match act {
      case DoRead => ReadKept(c, s);
      case DoSend => SendKept(c, s);
      case DoPrint => PrintKept(c, s);
      case DoHear => HearKept(c, s);
      case DoReceive => ReceiveKept(c, s);
      case DoRun => RunKept(c, s);
      case DoReply => ReplyKept(c, s);
    }
  }

  /** The other steps move no output. */
  lemma {:induction false} OutputUntouched(c: Session, s: State, act: Act)
    requires WellFormed(c) && Control(c, s) && Can(c, s, act) && !act.DoPrint? && !act.DoRun?
    requires c.hasOut ==> s.d.outHalf == Odd(s.d.replied)
    ensures var s' := Do(c, s, act);
      && s'.output == s.output && s'.a.outHalf == s.a.outHalf && s'.a.printed == s.a.printed
      && Handled(s') == Handled(s) && Produced(s') == Produced(s)
      && (c.hasOut ==> s'.d.outHalf == Odd(s'.d.replied))
  {
  }

  lemma {:induction false} OutputKept(c: Session, s: State, act: Act)
    requires Inv(c, s) && Output(c, s) && Can(c, s, act) && Control(c, Do(c, s, act))
    ensures Output(c, Do(c, s, act))
    ensures EvenZeros(c.outs) && Printed(c, s) ==> Printed(c, Do(c, s, act))
  {
    match act {
      case DoPrint =>
        PrintOutput(c, s);
        if EvenZeros(c.outs) && Printed(c, s) {
          if c.hasOut && s.a.heard > 0 { PrintedNext(c, s); }
          PrintPrinted(c, s);
        }
      case DoRun => RunOutput(c, s);
      case _ =>
        OutputUntouched(c, s, act);
        OutputSame(c, s, Do(c, s, act));
    }
  }

  lemma {:induction false} FullInvKept(c: Session, s: State, act: Act)
    requires FullInv(c, s) && Can(c, s, act)
    ensures FullInv(c, Do(c, s, act))
  {
    InvKept(c, s, act);
    OutputKept(c, s, act);
  }

  lemma {:induction false} StartInv(c: Session)
    requires WellFormed(c)
    ensures FullInv(c, Start(c))
  {
    assert Datas(c.rounds)[..0] == [] && c.outs[..0] == [];
  }

  ghost predicate StepAt(c: Session, ss: seq<State>, acts: seq<Act>, k: nat) {
    && k < |acts| && |ss| == |acts| + 1
    && Can(c, ss[k], acts[k]) && ss[k + 1] == Do(c, ss[k], acts[k])
  }

  /** Any interleaving of the two processes' steps. */
  ghost predicate IsRun(c: Session, ss: seq<State>, acts: seq<Act>) {
    && |ss| == |acts| + 1 && ss[0] == Start(c)
    && forall k: nat {:trigger StepAt(c, ss, acts, k)} ::
      k < |acts| ==> StepAt(c, ss, acts, k)
  }

  lemma {:induction false} RunInv(c: Session, ss: seq<State>, acts: seq<Act>, k: nat)
    requires WellFormed(c) && IsRun(c, ss, acts) && k <= |acts|
    ensures FullInv(c, ss[k])
  {
    if k == 0 {
      StartInv(c);
    } else {
      RunInv(c, ss, acts, k - 1);
      assert StepAt(c, ss, acts, k - 1);
      FullInvKept(c, ss[k - 1], acts[k - 1]);
    }
  }

  /** While the agent reads and the driver runs, exactly one read is unprocessed. */
  lemma {:induction false} InputApart(c: Session, s: State)
    requires WellFormed(c) && Control(c, s) && Fetching(c, s) && Input(c, s) && c.hasIn
    ensures s.a.pc.Reading? && s.d.pc.Running? ==> s.a.inHalf != s.d.inHalf
  {
  }

  /**
   In every interleaving: while the agent fills an input half the driver works on the other
   one; requests and responses strictly alternate; what was processed is the concatenation of
   the agent's reads in order.
   */
  lemma {:induction false} InputIsSafeAndComplete(c: Session, ss: seq<State>, acts: seq<Act>, k: nat)
    requires WellFormed(c) && IsRun(c, ss, acts) && k <= |acts| && c.hasIn
    ensures var s := ss[k];
      && (s.a.pc.Reading? && s.d.pc.Running? ==> s.a.inHalf != s.d.inHalf)
      && s.a.heard <= s.d.replied <= s.d.received <= s.a.sent <= s.a.heard + 1
      && Produced(s) <= |c.rounds| && s.d.processed == Concat(Datas(c.rounds)[..Produced(s)])
      && (s.d.pc.DriverDone? ==> s.d.processed == Concat(Datas(c.rounds)))
  {
    RunInv(c, ss, acts, k);
    InputApart(c, ss[k]);
    assert Datas(c.rounds)[..|c.rounds|] == Datas(c.rounds);
  }

  /** Printing and running meet in the same output half exactly after an odd number of empty outputs. */
  lemma {:induction false} ClashIff(c: Session, s: State)
    requires WellFormed(c) && Control(c, s) && Messages(c, s) && Output(c, s) && c.hasOut
    requires s.a.pc.Printing? && s.a.response.size > 0 && s.d.pc.Running?
    ensures 0 < s.a.heard <= |c.outs|
    ensures c.outs[s.a.heard - 1] != []
    ensures s.a.outHalf == s.d.outHalf <==> Odd(Zeros(c.outs, s.a.heard - 1))
  {
  }

  /**
   As long as no output comes after an odd number of empty ones (in particular if none before
   the last is empty), the output halves are never shared and everything is printed in order.
   */
  lemma {:induction false} OutputIsSafeAndComplete(c: Session, ss: seq<State>, acts: seq<Act>, k: nat)
    requires WellFormed(c) && IsRun(c, ss, acts) && k <= |acts| && c.hasOut && EvenZeros(c.outs)
    ensures var s := ss[k];
      && (s.a.pc.Printing? && s.a.response.size > 0 && s.d.pc.Running? ==> s.a.outHalf != s.d.outHalf)
      && 0 <= Handled(s) <= |c.outs| && s.a.printed == Concat(c.outs[..Handled(s)])
      && (s.a.pc.AgentDone? ==> s.a.printed == Concat(c.outs))
  {
    RunInv(c, ss, acts, k);
    var s := ss[k];
    if s.a.pc.Printing? && s.a.response.size > 0 && s.d.pc.Running? {
      ClashIff(c, s);
      assert InStep(c.outs, s.a.heard - 1);
    }
    AllPrinted(c, s);
  }

  lemma {:induction false} AllPrinted(c: Session, s: State)
    requires WellFormed(c) && Control(c, s) && Printed(c, s) && c.hasOut
    ensures 0 <= Handled(s) <= |c.outs|
    ensures s.a.printed == Concat(c.outs[..Handled(s)])
    ensures s.a.pc.AgentDone? ==> s.a.printed == Concat(c.outs)
  {
    assert c.outs[..|c.outs|] == c.outs;
  }

  /** Without empty outputs before the last one the condition holds. */
  lemma {:induction false} NoEmptyOutputs(outs: seq<seq<Byte>>)
    requires forall k :: 0 <= k < |outs| - 1 ==> outs[k] != []
    ensures EvenZeros(outs)
  {
    forall k: nat | k < |outs| ensures InStep(outs, k) { ZerosNone(outs, k); }
  }

  lemma {:induction false} ZerosNone(outs: seq<seq<Byte>>, k: nat)
    requires k <= |outs| && forall j :: 0 <= j < k ==> outs[j] != []
    ensures Zeros(outs, k) == 0
  {
    if k == 0 {
    } else {
      ZerosNone(outs, k - 1);
    }
  }

  /** Until both sides are through, one of them can move. */
  lemma {:induction false} NeverStuck(c: Session, s: State)
    requires WellFormed(c) && Control(c, s) && Fetching(c, s) && !(s.a.pc.AgentDone? && s.d.pc.DriverDone?)
    ensures exists act :: Can(c, s, act)
  {
    var act :=
      if s.a.pc.Reading? then DoRead else if s.a.pc.Sending? then DoSend else if s.a.pc.Printing? then DoPrint
      else if s.responses != [] then DoHear
      else if s.d.pc.Receiving? then DoReceive else if s.d.pc.Running? then DoRun else DoReply;
    assert Can(c, s, act);
  }

  /** Steps taken so far, with a skipped read counted. */
  function Work(s: State): int {
    4 * s.a.heard + (match s.a.pc
                     case Reading => if s.a.sent == 0 then 0 else 3
                     case Sending => 1
                     case Printing => 2
                     case Waiting => 4
                     case AgentDone => 3)
    + 3 * s.d.replied + (match s.d.pc case Running => 1 case Replying => 2 case _ => 0)
  }

  lemma {:induction false} WorkGrows(c: Session, s: State, act: Act)
    requires WellFormed(c) && Control(c, s) && Can(c, s, act)
    ensures Work(Do(c, s, act)) > Work(s)
  {
  }

  lemma {:induction false} WorkBounded(c: Session, s: State)
    requires Control(c, s)
    ensures Work(s) <= 7 * |c.rounds| + 3
  {
  }

  lemma {:induction false} RunWork(c: Session, ss: seq<State>, acts: seq<Act>, k: nat)
    requires WellFormed(c) && IsRun(c, ss, acts) && k <= |acts|
    ensures k <= Work(ss[k])
  {
    if k == 0 {
    } else {
      RunWork(c, ss, acts, k - 1);
      RunInv(c, ss, acts, k - 1);
      assert StepAt(c, ss, acts, k - 1);
      WorkGrows(c, ss[k - 1], acts[k - 1]);
    }
  }

  /** Every run ends: a session of n rounds takes at most 7n + 3 steps, and then both sides are through. */
  lemma {:induction false} RunsEnd(c: Session, ss: seq<State>, acts: seq<Act>, k: nat)
    requires WellFormed(c) && IsRun(c, ss, acts) && k <= |acts|
    ensures k <= 7 * |c.rounds| + 3
    ensures (forall act :: !Can(c, ss[k], act)) ==> ss[k].a.pc.AgentDone? && ss[k].d.pc.DriverDone?
  {
    RunInv(c, ss, acts, k);
    RunWork(c, ss, acts, k);
    WorkBounded(c, ss[k]);
    if !(ss[k].a.pc.AgentDone? && ss[k].d.pc.DriverDone?) { NeverStuck(c, ss[k]); }
  }
}
