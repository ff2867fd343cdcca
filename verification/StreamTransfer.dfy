/**
 Writing a stream to memory: two dataflow processes joined by FIFOs, one issuing DataMover
 commands and one collecting their status, under any schedule.
 */
module StreamTransfer {

  const DRAM_BASE := 0x8000_0000_0000_0000   // DRAMBaseOffset

  datatype AddressType = Host | CardDRAM | NVMe
  datatype Element = Element(address: nat, size: nat, kind: AddressType, last: bool)
  datatype Command = Command(bytes: nat, endOfFrame: bool, address: nat)
  datatype Status = Status(bytes: nat, endOfPacket: bool)

  function CommandFor(e: Element): Command {
    Command(e.size, e.last, e.address + if e.kind.CardDRAM? || e.kind.NVMe? then DRAM_BASE else 0)
  }

  /** The input of one transfer: the last flag is on the last element and only there. */
  ghost predicate OneTransfer(input: seq<Element>) {
    input != [] && forall k :: 0 <= k < |input| ==> (input[k].last <==> k == |input| - 1)
  }

  // ---- The sequential loop ----------------------------------------------------------------

  datatype Result = Result(commands: seq<Command>, output: seq<Element>, ended: bool, size: nat)

  /** Issue, await the status, pass on: one element after the other. The j-th command gets status j. */
  function Loop(input: seq<Element>, sts: seq<Status>, k: nat): (r: Result)
    requires k <= |input| <= |sts|
    ensures |r.output| == k && |r.commands| <= k && (!r.ended ==> |r.commands| == k)
  {
    if k == 0 then Result([], [], false, 0)
    else
      var p, e := Loop(input, sts, k - 1), input[k - 1];
      if p.ended then p.(output := p.output + [e.(size := 0)])
      else Result(p.commands + [CommandFor(e)], p.output + [e], sts[k - 1].endOfPacket, p.size + sts[k - 1].bytes)
  }

  function Sum(sts: seq<Status>): nat {
    if sts == [] then 0 else Sum(sts[..|sts| - 1]) + sts[|sts| - 1].bytes
  }

  /** A command moves the element's bytes to its address; card addresses, DRAM or NVMe, have bit 63 set. */
  predicate Moves(c: Command, e: Element) {
    && c.bytes == e.size
    && c.endOfFrame == e.last
    && c.address == match e.kind
                    case Host => e.address
                    case CardDRAM => e.address + 0x8000_0000_0000_0000
                    case NVMe => e.address + 0x8000_0000_0000_0000
  }

  /** What a transfer does with its input, given the statuses. */
  ghost predicate Transferred(
      input: seq<Element>, sts: seq<Status>, commands: seq<Command>, output: seq<Element>, size: nat) {
    && |commands| <= |input| == |output| <= |sts|
    && (forall j :: 0 <= j < |commands| ==> Moves(commands[j], input[j]) && output[j] == input[j])
    && (forall j :: |commands| <= j < |input| ==> output[j] == input[j].(size := 0))
    && (forall j :: 0 <= j < |commands| - 1 ==> !sts[j].endOfPacket)
    && (|commands| < |input| ==> |commands| > 0 && sts[|commands| - 1].endOfPacket)
    && size == Sum(sts[..|commands|])
  }

  /** Host memory and card memory are never confused. */
  lemma {:induction false} HostAndCardApart(c: Command, d: Command, e: Element, f: Element)
    requires Moves(c, e) && Moves(d, f) && e.kind.Host? && !f.kind.Host?
    requires e.address + e.size <= 0x8000_0000_0000_0000
    ensures c.address + c.bytes <= d.address
  {
  }

  /**
   Up to and including the first end of packet there is one command per element and the
   element passes unchanged; after it there are no commands and sizes are 0; the size is the
   sum of the status byte counts.
   */
  lemma {:induction false} LoopMeaning(input: seq<Element>, sts: seq<Status>, k: nat)
    requires k <= |input| <= |sts|
    ensures var r := Loop(input, sts, k);
      && (r.ended <==> exists j :: 0 <= j < k && sts[j].endOfPacket)
      && (forall j :: 0 <= j < |r.commands| ==> Moves(r.commands[j], input[j]) && r.output[j] == input[j])
      && (forall j :: |r.commands| <= j < k ==> r.output[j] == input[j].(size := 0))
      && (forall j :: 0 <= j < |r.commands| - 1 ==> !sts[j].endOfPacket)
      && (r.ended ==> |r.commands| > 0 && sts[|r.commands| - 1].endOfPacket)
      && r.size == Sum(sts[..|r.commands|])
  {
    LoopEndedIff(input, sts, k);
    LoopPasses(input, sts, k);
    LoopSum(input, sts, k);
  }

  lemma {:induction false} LoopPasses(input: seq<Element>, sts: seq<Status>, k: nat)
    requires k <= |input| <= |sts|
    ensures var r := Loop(input, sts, k);
      && (forall j :: 0 <= j < |r.commands| ==> Moves(r.commands[j], input[j]) && r.output[j] == input[j])
      && (forall j :: |r.commands| <= j < k ==> r.output[j] == input[j].(size := 0))
  {
    if k == 0 {
    } else {
      LoopPasses(input, sts, k - 1);
    }
  }

  lemma {:induction false} LoopSum(input: seq<Element>, sts: seq<Status>, k: nat)
    requires k <= |input| <= |sts|
    ensures var r := Loop(input, sts, k);
      && (forall j :: 0 <= j < |r.commands| - 1 ==> !sts[j].endOfPacket)
      && (r.ended ==> |r.commands| > 0 && sts[|r.commands| - 1].endOfPacket)
      && (!r.ended ==> forall j :: 0 <= j < k ==> !sts[j].endOfPacket)
      && r.size == Sum(sts[..|r.commands|])
  {
    if k == 0 {
      assert sts[..0] == [];
    } else {
      LoopSum(input, sts, k - 1);
      var p := Loop(input, sts, k - 1);
      if !p.ended { assert sts[..k][..k - 1] == sts[..k - 1]; }
    }
  }

  lemma {:induction false} LoopEndedIff(input: seq<Element>, sts: seq<Status>, k: nat)
    requires k <= |input| <= |sts|
    ensures Loop(input, sts, k).ended <==> exists j :: 0 <= j < k && sts[j].endOfPacket
  {
    if k == 0 {
    } else {
      LoopEndedIff(input, sts, k - 1);
    }
  }

  // ---- Two processes and the DataMover ----------------------------------------------------

  datatype Issuer = ReadInput | AwaitPermit(e: Element) | Forward(e: Element) | IssuerDone
  datatype Collector = Permit | AwaitPending | AwaitStatus(e: Element) | Emit(e: Element) | CollectorDone

  datatype State = State(
    issuer: Issuer, taken: nat,                    // input elements read
    collector: Collector, ended: bool, size: nat,
    permits: seq<bool>, pending: seq<Element>,     // streamIsTerminated, pendingTransfers
    commands: seq<Command>, answered: nat, collected: nat,
    output: seq<Element>)

  datatype Who = IssuerStep | CollectorStep | DataMoverStep

  const START := State(ReadInput, 0, Permit, false, 0, [], [], [], 0, 0, [])

  /** A process can move: what it reads is there, and there is room for what it writes. */
  predicate Enabled(s: State, who: Who, permitCap: nat, pendingCap: nat) {
    match who
    case IssuerStep => (
      match s.issuer
      case ReadInput => true
      case AwaitPermit(_) => s.permits != []
      case Forward(_) => |s.pending| < pendingCap
      case IssuerDone => false)
    case CollectorStep => (
      match s.collector
      case Permit => |s.permits| < permitCap
      case AwaitPending => s.pending != []
      case AwaitStatus(_) => s.collected < s.answered
      case Emit(_) => true
      case CollectorDone => false)
    case DataMoverStep => s.answered < |s.commands|
  }

  function Move(s: State, who: Who, input: seq<Element>, sts: seq<Status>): State
    requires s.taken < |input| || !s.issuer.ReadInput?
    requires s.collected < |sts| || !s.collector.AwaitStatus?
    requires who.IssuerStep? && s.issuer.AwaitPermit? ==> s.permits != []
    requires who.CollectorStep? && s.collector.AwaitPending? ==> s.pending != []
  {
    match who
    case IssuerStep => (
      match s.issuer
      case ReadInput => s.(issuer := AwaitPermit(input[s.taken]), taken := s.taken + 1)
      case AwaitPermit(e) =>
        s.(issuer := Forward(e), permits := s.permits[1..],
           commands := if s.permits[0] then s.commands else s.commands + [CommandFor(e)])
      case Forward(e) => s.(issuer := if e.last then IssuerDone else ReadInput, pending := s.pending + [e])
      case IssuerDone => s)
    case CollectorStep => (
      match s.collector
      case Permit => s.(collector := AwaitPending, permits := s.permits + [s.ended])
      case AwaitPending =>
        var e := s.pending[0];
        s.(collector := if s.ended then Emit(e.(size := 0)) else AwaitStatus(e), pending := s.pending[1..])
      case AwaitStatus(e) =>
        var r := sts[s.collected];
        s.(collector := Emit(e), collected := s.collected + 1, size := s.size + r.bytes, ended := r.endOfPacket)
      case Emit(e) => s.(collector := if e.last then CollectorDone else Permit, output := s.output + [e])
      case CollectorDone => s)
    case DataMoverStep => s.(answered := s.answered + 1)
  }

  // ---- What every schedule keeps ----------------------------------------------------------

  /** Elements the issuer has read a permit for, has forwarded; those the collector permitted, took, decided. */
  function Permitted(s: State): int { s.taken - if s.issuer.AwaitPermit? then 1 else 0 }
  function Forwarded(s: State): int { s.taken - if s.issuer.AwaitPermit? || s.issuer.Forward? then 1 else 0 }
  function Granted(s: State): int { |s.output| + if s.collector.Permit? || s.collector.CollectorDone? then 0 else 1 }
  function Received(s: State): int { |s.output| + if s.collector.AwaitStatus? || s.collector.Emit? then 1 else 0 }
  function Decided(s: State): int { |s.output| + if s.collector.Emit? then 1 else 0 }

  /** The two processes run in step: at most one permit and one element are ever in flight. */
  ghost predicate Counts(s: State, n: nat) {
    && 0 <= Forwarded(s) <= Permitted(s) <= s.taken <= n
    && Granted(s) <= n
    && |s.output| <= Received(s) <= Forwarded(s)
    && Permitted(s) <= Granted(s) <= Permitted(s) + 1
    && Granted(s) <= Forwarded(s) + 1
    && (s.issuer.AwaitPermit? || s.issuer.Forward? ==> s.taken > 0)
    && (s.issuer.IssuerDone? <==> Forwarded(s) == n)
    && (s.collector.CollectorDone? <==> |s.output| == n)
    && |s.permits| == Granted(s) - Permitted(s)
    && |s.pending| == Forwarded(s) - Received(s)
  }

  ghost predicate IssuerData(s: State, input: seq<Element>, sts: seq<Status>)
    requires |input| <= |sts| && Counts(s, |input|)
  {
    && (s.issuer.AwaitPermit? || s.issuer.Forward? ==> s.issuer.e == input[s.taken - 1])
    && s.commands == Loop(input, sts, Permitted(s)).commands
    && (s.permits != [] ==> s.permits[0] == Loop(input, sts, Permitted(s)).ended)
    && (s.pending != [] ==> s.pending[0] == input[Received(s)])
  }

  ghost predicate CollectorData(s: State, input: seq<Element>, sts: seq<Status>)
    requires |input| <= |sts| && Counts(s, |input|)
  {
    var r := Loop(input, sts, Decided(s));
    && (s.collector.AwaitStatus? ==> s.collector.e == input[|s.output|] && !s.ended)
    && (s.collector.Emit? ==> s.collector.e.last == input[|s.output|].last)
    && s.ended == r.ended
    && s.size == r.size
    && s.collected == |r.commands|
    && r.output == s.output + (if s.collector.Emit? then [s.collector.e] else [])
    && s.collected <= s.answered <= |s.commands|
  }

  ghost predicate Inv(s: State, input: seq<Element>, sts: seq<Status>)
    requires |input| <= |sts|
  {
    && Counts(s, |input|)
    && IssuerData(s, input, sts)
    && CollectorData(s, input, sts)
  }

  lemma {:induction false} CountsKept(
      s: State, who: Who, input: seq<Element>, sts: seq<Status>, permitCap: nat, pendingCap: nat)
    requires OneTransfer(input) && Counts(s, |input|) && Enabled(s, who, permitCap, pendingCap)
    requires s.collected < |sts| || !s.collector.AwaitStatus?
    requires s.issuer.AwaitPermit? || s.issuer.Forward? ==> s.issuer.e == input[s.taken - 1]
    requires s.collector.Emit? ==> s.collector.e.last == input[|s.output|].last
    ensures s.taken < |input| || !s.issuer.ReadInput?
    ensures Counts(Move(s, who, input, sts), |input|)
  {
  }

  lemma {:induction false} IssuerKept(s: State, input: seq<Element>, sts: seq<Status>, permitCap: nat, pendingCap: nat)
    requires |input| <= |sts| && Counts(s, |input|) && IssuerData(s, input, sts)
    requires Enabled(s, IssuerStep, permitCap, pendingCap)
    requires s.taken < |input| || !s.issuer.ReadInput?
    requires s.collected < |sts| || !s.collector.AwaitStatus?
    requires Counts(Move(s, IssuerStep, input, sts), |input|)
    ensures IssuerData(Move(s, IssuerStep, input, sts), input, sts)
    ensures |s.commands| <= |Move(s, IssuerStep, input, sts).commands|
  {
  }

  lemma {:induction false} CollectorLeavesIssuer(
      s: State, input: seq<Element>, sts: seq<Status>, permitCap: nat, pendingCap: nat)
    requires |input| <= |sts| && Inv(s, input, sts) && Enabled(s, CollectorStep, permitCap, pendingCap)
    requires s.taken < |input| || !s.issuer.ReadInput?
    requires s.collected < |sts| || !s.collector.AwaitStatus?
    requires Counts(Move(s, CollectorStep, input, sts), |input|)
    ensures IssuerData(Move(s, CollectorStep, input, sts), input, sts)
  {
  }

  lemma {:induction false} CollectorKept(
      s: State, input: seq<Element>, sts: seq<Status>, permitCap: nat, pendingCap: nat)
    requires |input| <= |sts| && Inv(s, input, sts) && Enabled(s, CollectorStep, permitCap, pendingCap)
    requires s.taken < |input| || !s.issuer.ReadInput?
    requires s.collected < |sts| || !s.collector.AwaitStatus?
    requires Counts(Move(s, CollectorStep, input, sts), |input|)
    ensures CollectorData(Move(s, CollectorStep, input, sts), input, sts)
  {
    if Decided(Move(s, CollectorStep, input, sts)) == Decided(s) {
      CollectorWaits(s, Move(s, CollectorStep, input, sts), input, sts);
    } else {
      CollectorDecides(s, input, sts);
    }
  }

  /** Permits, the wait for a status and the output of a decided element leave the results as they are. */
  lemma {:induction false} CollectorWaits(s: State, s': State, input: seq<Element>, sts: seq<Status>)
    requires |input| <= |sts| && Counts(s, |input|) && Counts(s', |input|)
    requires CollectorData(s, input, sts) && Decided(s') == Decided(s)
    requires s'.ended == s.ended && s'.size == s.size && s'.collected == s.collected
    requires s'.answered == s.answered && s'.commands == s.commands
    requires s'.collector.AwaitStatus? ==> s'.collector.e == input[|s'.output|] && !s'.ended
    requires s'.collector.Emit? ==> s'.collector == s.collector
    requires s'.output == s.output + if s.collector.Emit? && !s'.collector.Emit? then [s.collector.e] else []
    ensures CollectorData(s', input, sts)
  {
  }

  /** A status read, or an element behind the end of the packet, is one more element of the loop. */
  lemma {:induction false} CollectorDecides(s: State, input: seq<Element>, sts: seq<Status>)
    requires |input| <= |sts| && Inv(s, input, sts)
    requires s.collector.AwaitPending? ==> s.pending != [] && s.ended
    requires s.collector.AwaitStatus? ==> s.collected < s.answered && s.collected < |sts|
    requires s.collector.AwaitPending? || s.collector.AwaitStatus?
    requires s.taken < |input| || !s.issuer.ReadInput?
    requires Counts(Move(s, CollectorStep, input, sts), |input|)
    ensures CollectorData(Move(s, CollectorStep, input, sts), input, sts)
  {
    var d, s' := Decided(s), Move(s, CollectorStep, input, sts);
    assert Loop(input, sts, d + 1).output == Loop(input, sts, d).output + [s'.collector.e];
  }

  /** Steps of the other two leave the collector's data alone. */
  lemma {:induction false} CollectorUntouched(s: State, s': State, input: seq<Element>, sts: seq<Status>)
    requires |input| <= |sts| && Counts(s, |input|) && Counts(s', |input|) && CollectorData(s, input, sts)
    requires s'.collector == s.collector && s'.ended == s.ended && s'.size == s.size
    requires s'.collected == s.collected && s'.output == s.output && s.answered <= s'.answered <= |s'.commands|
    ensures CollectorData(s', input, sts)
  {
  }

  lemma {:induction false} InvKept(
      s: State, who: Who, input: seq<Element>, sts: seq<Status>, permitCap: nat, pendingCap: nat)
    requires OneTransfer(input) && |input| <= |sts| && Inv(s, input, sts) && Enabled(s, who, permitCap, pendingCap)
    ensures s.taken < |input| || !s.issuer.ReadInput?
    ensures s.collected < |sts| || !s.collector.AwaitStatus?
    ensures Inv(Move(s, who, input, sts), input, sts)
  {
    CountsKept(s, who, input, sts, permitCap, pendingCap);
    match who {
      case IssuerStep => IssuerStepKeeps(s, input, sts, permitCap, pendingCap);
      case CollectorStep => CollectorStepKeeps(s, input, sts, permitCap, pendingCap);
      case DataMoverStep => DataMoverStepKeeps(s, input, sts, permitCap, pendingCap);
    }
  }

  lemma {:induction false} IssuerStepKeeps(
      s: State, input: seq<Element>, sts: seq<Status>, permitCap: nat, pendingCap: nat)
    requires |input| <= |sts| && Inv(s, input, sts) && Enabled(s, IssuerStep, permitCap, pendingCap)
    requires s.taken < |input| || !s.issuer.ReadInput?
    requires s.collected < |sts| || !s.collector.AwaitStatus?
    requires Counts(Move(s, IssuerStep, input, sts), |input|)
    ensures Inv(Move(s, IssuerStep, input, sts), input, sts)
  {
    IssuerKept(s, input, sts, permitCap, pendingCap);
    CollectorUntouched(s, Move(s, IssuerStep, input, sts), input, sts);
  }

  lemma {:induction false} DataMoverStepKeeps(
      s: State, input: seq<Element>, sts: seq<Status>, permitCap: nat, pendingCap: nat)
    requires |input| <= |sts| && Inv(s, input, sts) && Enabled(s, DataMoverStep, permitCap, pendingCap)
    requires s.taken < |input| || !s.issuer.ReadInput?
    requires s.collected < |sts| || !s.collector.AwaitStatus?
    ensures Inv(Move(s, DataMoverStep, input, sts), input, sts)
  {
    CollectorUntouched(s, Move(s, DataMoverStep, input, sts), input, sts);
  }

  lemma {:induction false} CollectorStepKeeps(
      s: State, input: seq<Element>, sts: seq<Status>, permitCap: nat, pendingCap: nat)
    requires |input| <= |sts| && Inv(s, input, sts) && Enabled(s, CollectorStep, permitCap, pendingCap)
    requires s.taken < |input| || !s.issuer.ReadInput?
    requires s.collected < |sts| || !s.collector.AwaitStatus?
    requires Counts(Move(s, CollectorStep, input, sts), |input|)
    ensures Inv(Move(s, CollectorStep, input, sts), input, sts)
  {
    CollectorLeavesIssuer(s, input, sts, permitCap, pendingCap);
    CollectorKept(s, input, sts, permitCap, pendingCap);
  }

  predicate Finished(s: State) { s.issuer.IssuerDone? && s.collector.CollectorDone? }

  /** Until both processes are through, one of the three can move, whatever the capacities. */
  lemma {:induction false} NeverDeadlocks(
      s: State, input: seq<Element>, sts: seq<Status>, permitCap: nat, pendingCap: nat)
    requires |input| <= |sts| && Inv(s, input, sts) && permitCap >= 1 && pendingCap >= 1 && !Finished(s)
    ensures exists who :: Enabled(s, who, permitCap, pendingCap)
  {
    if s.issuer.IssuerDone? || (s.issuer.AwaitPermit? && s.permits == []) {
      if s.collector.AwaitStatus? && s.collected == s.answered {
        assert |s.commands| > s.collected by { CommandIssued(s, input, sts); }
        assert Enabled(s, DataMoverStep, permitCap, pendingCap);
      } else {
        assert Enabled(s, CollectorStep, permitCap, pendingCap);
      }
    } else {
      assert Enabled(s, IssuerStep, permitCap, pendingCap);
    }
  }

  /** A status is only awaited after its command was issued. */
  lemma {:induction false} CommandIssued(s: State, input: seq<Element>, sts: seq<Status>)
    requires |input| <= |sts| && Inv(s, input, sts) && s.collector.AwaitStatus?
    ensures s.collected < |s.commands|
  {
    CommandsGrow(input, sts, Decided(s) + 1, Permitted(s));
  }

  lemma {:induction false} CommandsGrow(input: seq<Element>, sts: seq<Status>, j: nat, k: nat)
    requires j <= k <= |input| <= |sts|
    ensures Loop(input, sts, j).commands <= Loop(input, sts, k).commands
  {
    if j == k {
    } else {
      CommandsGrow(input, sts, j, k - 1);
    }
  }

  // ---- Whole runs -------------------------------------------------------------------------

  ghost predicate TakesStep(
      s: State, who: Who, s': State, input: seq<Element>, sts: seq<Status>, permitCap: nat, pendingCap: nat) {
    && Enabled(s, who, permitCap, pendingCap)
    && (s.taken < |input| || !s.issuer.ReadInput?) && (s.collected < |sts| || !s.collector.AwaitStatus?)
    && s' == Move(s, who, input, sts)
  }

  /** Any schedule: at every point any process that can move does. */
  ghost predicate IsRun(
      ss: seq<State>, ws: seq<Who>, input: seq<Element>, sts: seq<Status>, permitCap: nat, pendingCap: nat) {
    && |ss| == |ws| + 1 && ss[0] == START
    && forall k: nat {:trigger StepAt(ss, ws, input, sts, permitCap, pendingCap, k)} ::
         k < |ws| ==> StepAt(ss, ws, input, sts, permitCap, pendingCap, k)
  }

  ghost predicate StepAt(
      ss: seq<State>, ws: seq<Who>, input: seq<Element>, sts: seq<Status>, permitCap: nat, pendingCap: nat, k: nat) {
    k < |ws| && |ss| == |ws| + 1 && TakesStep(ss[k], ws[k], ss[k + 1], input, sts, permitCap, pendingCap)
  }

  /** Steps taken; elements that pass without a status skip one. */
  function Work(s: State): int {
    3 * Forwarded(s) + (match s.issuer case AwaitPermit(_) => 1 case Forward(_) => 2 case _ => 0)
    + 4 * |s.output| + (match s.collector case AwaitPending => 1 case AwaitStatus(_) => 2 case Emit(_) => 3 case _ => 0)
    + s.answered
  }

  /**
   Under every schedule and every capacity of at least one: the run is finite, it does not stop
   before both processes are through, and then the commands, the output and the size are those
   of the sequential loop.
   */
  lemma {:induction false} EveryScheduleIsTheLoop(
      ss: seq<State>, ws: seq<Who>, input: seq<Element>, sts: seq<Status>, permitCap: nat, pendingCap: nat)
    requires OneTransfer(input) && |input| <= |sts| && permitCap >= 1 && pendingCap >= 1
    requires IsRun(ss, ws, input, sts, permitCap, pendingCap)
    ensures |ws| <= 8 * |input|
    ensures (forall who :: !Enabled(ss[|ws|], who, permitCap, pendingCap)) ==> Finished(ss[|ws|])
    ensures Finished(ss[|ws|]) ==> Ends(ss[|ws|], input, sts)
  {
    RunInv(ss, ws, input, sts, permitCap, pendingCap, |ws|);
    var s := ss[|ws|];
    if Finished(s) {
      EndsAsTheLoop(s, input, sts);
    } else {
      NeverDeadlocks(s, input, sts, permitCap, pendingCap);
    }
  }

  /** The final commands, output and size: those of the loop, and what that means. */
  ghost predicate Ends(s: State, input: seq<Element>, sts: seq<Status>) {
    && |input| <= |sts|
    && Loop(input, sts, |input|) == Result(s.commands, s.output, s.ended, s.size)
    && Transferred(input, sts, s.commands, s.output, s.size)
  }

  lemma {:induction false} EndsAsTheLoop(s: State, input: seq<Element>, sts: seq<Status>)
    requires |input| <= |sts| && Inv(s, input, sts) && Finished(s)
    ensures Ends(s, input, sts)
  {
    LoopMeaning(input, sts, |input|);
  }

  /**
   transfer_from_stream itself: both processes and the DataMover take turns in the order given
   (`turns`, then whoever can), and what comes out is what the sequential loop produces.
   */
  method TransferFromStream(input: seq<Element>, sts: seq<Status>, permitCap: nat, pendingCap: nat, turns: seq<Who>)
    returns (commands: seq<Command>, output: seq<Element>, size: nat)
    requires OneTransfer(input) && |input| <= |sts| && permitCap >= 1 && pendingCap >= 1
    ensures var r := Loop(input, sts, |input|); commands == r.commands && output == r.output && size == r.size
    ensures Transferred(input, sts, commands, output, size)
  {
    var s := TakeTurns(input, sts, permitCap, pendingCap, turns);
    commands, output, size := s.commands, s.output, s.size;
  }

  method TakeTurns(input: seq<Element>, sts: seq<Status>, permitCap: nat, pendingCap: nat, turns: seq<Who>)
    returns (s: State)
    requires OneTransfer(input) && |input| <= |sts| && permitCap >= 1 && pendingCap >= 1
    ensures Ends(s, input, sts)
  {
    s := START;
    var steps := 0;
    while !Finished(s)
      invariant Inv(s, input, sts) && Work(s) <= 8 * |input|
      decreases 8 * |input| - Work(s)
    {
      NeverDeadlocks(s, input, sts, permitCap, pendingCap);
      var who := if steps < |turns| then turns[steps] else IssuerStep;
      if !Enabled(s, who, permitCap, pendingCap) {
        who := if Enabled(s, IssuerStep, permitCap, pendingCap) then IssuerStep
               else if Enabled(s, CollectorStep, permitCap, pendingCap) then CollectorStep else DataMoverStep;
      }
      StepKeeps(s, who, input, sts, permitCap, pendingCap);
      s := Move(s, who, input, sts);
      steps := steps + 1;
    }
    EndsAsTheLoop(s, input, sts);
  }

  lemma {:induction false} RunInv(
      ss: seq<State>, ws: seq<Who>, input: seq<Element>, sts: seq<Status>, permitCap: nat, pendingCap: nat, k: nat)
    requires OneTransfer(input) && |input| <= |sts| && IsRun(ss, ws, input, sts, permitCap, pendingCap) && k <= |ws|
    ensures Inv(ss[k], input, sts)
    ensures k <= Work(ss[k]) <= 8 * |input|
  {
    if k == 0 {
    } else {
      RunInv(ss, ws, input, sts, permitCap, pendingCap, k - 1);
      assert StepAt(ss, ws, input, sts, permitCap, pendingCap, k - 1);
      StepKeeps(ss[k - 1], ws[k - 1], input, sts, permitCap, pendingCap);
    }
  }

  lemma {:induction false} StepKeeps(
      s: State, who: Who, input: seq<Element>, sts: seq<Status>, permitCap: nat, pendingCap: nat)
    requires OneTransfer(input) && |input| <= |sts| && Inv(s, input, sts) && Enabled(s, who, permitCap, pendingCap)
    ensures s.taken < |input| || !s.issuer.ReadInput?
    ensures s.collected < |sts| || !s.collector.AwaitStatus?
    ensures Inv(Move(s, who, input, sts), input, sts)
    ensures Work(s) < Work(Move(s, who, input, sts)) <= 8 * |input|
  {
    InvKept(s, who, input, sts, permitCap, pendingCap);
    WorkGrows(s, who, input, sts, permitCap, pendingCap);
    WorkBounded(Move(s, who, input, sts), input, sts);
  }

  lemma {:induction false} WorkGrows(
      s: State, who: Who, input: seq<Element>, sts: seq<Status>, permitCap: nat, pendingCap: nat)
    requires Enabled(s, who, permitCap, pendingCap) && Counts(s, |input|)
    requires s.taken < |input| || !s.issuer.ReadInput?
    requires s.collected < |sts| || !s.collector.AwaitStatus?
    ensures Work(Move(s, who, input, sts)) > Work(s)
  {
  }

  lemma {:induction false} WorkBounded(s: State, input: seq<Element>, sts: seq<Status>)
    requires |input| <= |sts| && Inv(s, input, sts)
    ensures Work(s) <= 8 * |input|
  {
  }
}
