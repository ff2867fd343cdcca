/**
 Progress of the NVMe arbiter over runs: it polls the status while a command is unanswered, it
 captures what it may, it writes what it captured, and it answers what the device completes,
 each within a fixed number of edges once its partners stop holding it up.
 */
module NvmeProgress {
  import opened Basics
  import opened NvmeArbiter
  import opened NvmeRuns

  /** Nobody holds the arbiter up on this edge. */
  predicate AllReady(i: Input) {
    i.rspRdReady && i.rspWrReady && i.arReady && i.rValid && i.awReady && i.wReady
  }

  ghost predicate ReadyFrom(ins: seq<Input>, k: nat, n: nat) {
    && k + n <= |ins|
    && forall j :: k <= j < k + n ==> AllReady(ins[j])
  }

  /** At most this many edges until the status is polled. */
  function PollRank(s: State): nat {
    match s.main
    case ReadStatus =>
      if RReady(s) then 0 else if s.reg.RegIdle? then 1 else if s.reg.Done? then 13 else 14
    case Idle => if s.cmdValid then 11 else if s.drives.pending then 2 else 12
    case WriteCommandPush => 10
    case WriteCommand => WriteRank(s.reg)
    case _ => 2
  }

  /** At most this many edges until the burst is through and the status is polled. */
  function WriteRank(r: Reg): nat {
    match r
    case WrAW(b) => 9 - b
    case WrW(b) => 9 - b
    case WrDoneA => 4
    case _ => 3
  }

  /** A command is uncompleted, or a completion is being answered and another poll follows. */
  ghost predicate WillPoll(s: State, t: Trace) {
    || Popped(s, t) < |t.decisions|
    || RspRdValid(s) || RspWrValid(s)
    || (s.main.ReadStatus? && (s.reg.RegIdle? || RReady(s)))
  }

  /** An uncompleted command shows in a counter, unless its increment is still in flight. */
  lemma {:induction false} UncompletedIsCounted(s: State, t: Trace)
    requires Inv(s, t) && !Ack(s) && Popped(s, t) < |t.decisions|
    ensures NextDrives(s).pending
  {
    CountTotal(t.decisions[Popped(s, t)..]);
    assert CountIs(s, t, 0) && CountIs(s, t, 1);
    assert s.drives.counters[0] > 0 || s.drives.counters[1] > 0;
  }

  lemma {:induction false} PollNearer(s: State, i: Input, t: Trace)
    requires Inv(s, t) && AllReady(i) && WillPoll(s, t) && PollRank(s) > 0
    ensures PollRank(Step(s, i)) < PollRank(s)
  {
    if s.main.Idle? && !s.cmdValid && !s.drives.pending { UncompletedIsCounted(s, t); }
  }

  lemma {:induction false} StillWillPoll(s: State, i: Input, t: Trace)
    requires Inv(s, t) && AllReady(i) && WillPoll(s, t) && PollRank(s) > 0
    ensures WillPoll(Step(s, i), Observe(s, i, t))
  {
    Progress(s, i, t);
  }

  lemma {:induction false} PolledWithin(
      ss: seq<State>, ts: seq<Trace>, ins: seq<Input>, k: nat, n: nat) returns (j: nat)
    requires IsRun(ss, ts, ins) && ReadyFrom(ins, k, n) && PollRank(ss[k]) <= n && WillPoll(ss[k], ts[k])
    ensures k <= j <= k + n && RReady(ss[j])
    decreases n
  {
    InvAlways(ss, ts, ins, k);
    j := k;
    if PollRank(ss[k]) > 0 {
      assert StepAt(ss, ts, ins, k);
      PollNearer(ss[k], ins[k], ts[k]);
      StillWillPoll(ss[k], ins[k], ts[k]);
      j := PolledWithin(ss, ts, ins, k + 1, n - 1);
    }
  }

  lemma {:induction false} UnansweredWillPoll(s: State, t: Trace)
    requires Inv(s, t) && |t.responses| < |t.decisions|
    ensures WillPoll(s, t) && PollRank(s) <= 14
  {
  }

  /**
   While a captured command is unanswered and nobody holds the arbiter up, the status is polled
   within 14 edges, however often it was polled in vain before.
   */
  lemma {:induction false} PollsWhileUnanswered(ss: seq<State>, ts: seq<Trace>, ins: seq<Input>, k: nat)
    requires IsRun(ss, ts, ins) && ReadyFrom(ins, k, 14)
    requires |ts[k].responses| < |ts[k].decisions|
    ensures exists j :: k <= j <= k + 14 && RReady(ss[j])
  {
    InvAlways(ss, ts, ins, k);
    UnansweredWillPoll(ss[k], ts[k]);
    var j := PolledWithin(ss, ts, ins, k, 14);
  }

  /** Every poll is one address handshake and one data handshake, in either order. */
  lemma {:induction false} OneAddressPerPoll(ss: seq<State>, ts: seq<Trace>, ins: seq<Input>, k: nat)
    requires IsRun(ss, ts, ins) && k <= |ins|
    ensures ts[k].ar + Bit(ss[k].reg.RdA?) == ts[k].polls + Bit(ss[k].reg.RdR?)
    ensures !ArValid(ss[k]) && !RReady(ss[k]) ==> ts[k].ar == ts[k].polls
  {
    if k == 0 {
    } else {
      OneAddressPerPoll(ss, ts, ins, k - 1);
      assert StepAt(ss, ts, ins, k - 1);
    }
  }

  // ---- Answering --------------------------------------------------------------------------

  /** What the rest of a proof needs of one edge of a run. */
  lemma {:induction false} Edge(ss: seq<State>, ts: seq<Trace>, ins: seq<Input>, k: nat)
    requires IsRun(ss, ts, ins) && k < |ins|
    ensures Control(ss[k]) && ss[k + 1] == Step(ss[k], ins[k]) && ts[k + 1] == Observe(ss[k], ins[k], ts[k])
  {
    InvAlways(ss, ts, ins, k);
    assert StepAt(ss, ts, ins, k);
  }

  /** What is recorded stays recorded. */
  ghost predicate Extends(t: Trace, t': Trace) {
    t.decisions <= t'.decisions && t.completions <= t'.completions && t.beats <= t'.beats && t.responses <= t'.responses
  }

  /** The three edges from a completion that is read to its answer. */
  lemma {:induction false} ReadsCompletion(s: State, i: Input, t: Trace)
    requires Control(s) && AllReady(i) && RReady(s) && i.rData.complete
    ensures var s', t' := Step(s, i), Observe(s, i, t);
      && s'.main.ReadStatus? && s'.reg.Done? && s'.status.complete
      && Extends(t, t') && t'.completions == t.completions + [i.rData.error]
  {
  }

  lemma {:induction false} TurnsToSend(s: State, i: Input, t: Trace)
    requires Control(s) && AllReady(i) && s.main.ReadStatus? && s.reg.Done? && s.status.complete
    ensures var s', t' := Step(s, i), Observe(s, i, t); (RspRdValid(s') || RspWrValid(s')) && Extends(t, t')
  {
  }

  lemma {:induction false} Sends(s: State, i: Input, t: Trace)
    requires Control(s) && AllReady(i) && (RspRdValid(s) || RspWrValid(s))
    ensures !Unanswered(Step(s, i)) && Extends(t, Observe(s, i, t))
  {
  }

  lemma {:induction false} ThreeEdges(ss: seq<State>, ts: seq<Trace>, ins: seq<Input>, j: nat)
    requires IsRun(ss, ts, ins) && ReadyFrom(ins, j, 3) && RReady(ss[j]) && ins[j].rData.complete
    ensures Extends(ts[j], ts[j + 3]) && !Unanswered(ss[j + 3])
    ensures ts[j].completions + [ins[j].rData.error] <= ts[j + 3].completions
  {
    Edge(ss, ts, ins, j);
    ReadsCompletion(ss[j], ins[j], ts[j]);
    Edge(ss, ts, ins, j + 1);
    TurnsToSend(ss[j + 1], ins[j + 1], ts[j + 1]);
    Edge(ss, ts, ins, j + 2);
    Sends(ss[j + 2], ins[j + 2], ts[j + 2]);
  }

  /**
   A completion that the device reports is answered within three edges: on the stream of the
   oldest unanswered command, and with the error bit reported.
   */
  lemma {:induction false} CompletionAnswered(ss: seq<State>, ts: seq<Trace>, ins: seq<Input>, j: nat)
    requires IsRun(ss, ts, ins) && ReadyFrom(ins, j, 3) && RReady(ss[j]) && ins[j].rData.complete
    ensures |ts[j].responses| < |ts[j].decisions|
    ensures ts[j].responses + [Response(ts[j].decisions[|ts[j].responses|].isWrite, ins[j].rData.error)]
            <= ts[j + 3].responses
  {
    InvAlways(ss, ts, ins, j);
    assert StepAt(ss, ts, ins, j);
    CompletionHasEntry(ss[j], ins[j], ts[j]);
    ThreeEdges(ss, ts, ins, j);
    InvAlways(ss, ts, ins, j + 3);
    AnswerOf(ss[j], ts[j], ss[j + 3], ts[j + 3], ins[j].rData.error);
  }

  lemma {:induction false} AnswerOf(s: State, t: Trace, s': State, t': Trace, error: bool)
    requires Answers(s, t) && !Unanswered(s) && |t.completions| < |t.decisions|
    requires Answers(s', t') && !Unanswered(s') && Extends(t, t') && t.completions + [error] <= t'.completions
    ensures t.responses + [Response(t.decisions[|t.responses|].isWrite, error)] <= t'.responses
  {
  }

  // ---- Capturing --------------------------------------------------------------------------

  /** A command on offer for a drive that is present and has fewer than 218 uncompleted commands. */
  ghost predicate Admissible(s: State, t: Trace, valid: bool, c: Command) {
    && valid && c.drive < 2
    && 0 <= Popped(s, t) <= |t.decisions| && CountDrive(t.decisions[Popped(s, t)..], c.drive) < 218
  }

  /** The one admissible command, or of two the one that is not of the kind captured last; a read comes first. */
  function Alternating(ds: seq<Decision>, i: Input, rd: bool, wr: bool): seq<Decision> {
    if wr && (!rd || (ds != [] && !ds[|ds| - 1].isWrite)) then [Decision(i.wrCmd, true, rd, wr)]
    else if rd then [Decision(i.rdCmd, false, rd, wr)]
    else []
  }

  /** The free flags seen by an idle command process are those of the counts one edge ago. */
  lemma {:induction false} FreeIffBelowLimit(s: State, i: Input, t: Trace, valid: bool, c: Command)
    requires Control(s) && CountIs(s, t, c.drive) && !Ack(Step(s, i))
    ensures Admissible(s, t, valid, c) <==> valid && c.drive < 2 && Step(s, i).drives.free[c.drive]
  {
  }

  lemma {:induction false} DriveCounted(ss: seq<State>, ts: seq<Trace>, ins: seq<Input>, k: nat, d: Drive)
    requires IsRun(ss, ts, ins) && k <= |ins|
    ensures CountIs(ss[k], ts[k], d)
  {
    InvAlways(ss, ts, ins, k);
  }

  lemma {:induction false} EligibleIffAdmissible(
      ss: seq<State>, ts: seq<Trace>, ins: seq<Input>, k: nat, valid: bool, c: Command)
    requires IsRun(ss, ts, ins) && 0 < k < |ins| && !Ack(ss[k])
    ensures WellFormed(ss[k])
    ensures Eligible(ss[k], valid, c) <==> Admissible(ss[k - 1], ts[k - 1], valid, c)
  {
    Edge(ss, ts, ins, k);
    Edge(ss, ts, ins, k - 1);
    DriveCounted(ss, ts, ins, k - 1, c.drive);
    FreeIffBelowLimit(ss[k - 1], ins[k - 1], ts[k - 1], valid, c);
  }

  lemma {:induction false} Alternates(ss: seq<State>, ts: seq<Trace>, ins: seq<Input>, k: nat)
    requires IsRun(ss, ts, ins) && k < |ins|
    ensures WellFormed(ss[k])
    ensures var i := ins[k];
      var rd, wr := Eligible(ss[k], i.rdValid, i.rdCmd), Eligible(ss[k], i.wrValid, i.wrCmd);
      ts[k + 1].decisions == ts[k].decisions + if Ack(ss[k]) then [] else Alternating(ts[k].decisions, i, rd, wr)
  {
    InvAlways(ss, ts, ins, k);
    assert StepAt(ss, ts, ins, k);
  }

  /**
   What is captured on an edge: nothing while a command is held, and otherwise an admissible
   command whenever one is offered, the kinds taking turns.
   */
  lemma {:induction false} CapturesInTurn(ss: seq<State>, ts: seq<Trace>, ins: seq<Input>, k: nat)
    requires IsRun(ss, ts, ins) && 0 < k < |ins|
    ensures var i := ins[k];
      var rd := Admissible(ss[k - 1], ts[k - 1], i.rdValid, i.rdCmd);
      var wr := Admissible(ss[k - 1], ts[k - 1], i.wrValid, i.wrCmd);
      ts[k + 1].decisions == ts[k].decisions + if Ack(ss[k]) then [] else Alternating(ts[k].decisions, i, rd, wr)
  {
    Alternates(ss, ts, ins, k);
    if !Ack(ss[k]) {
      EligibleIffAdmissible(ss, ts, ins, k, ins[k].rdValid, ins[k].rdCmd);
      EligibleIffAdmissible(ss, ts, ins, k, ins[k].wrValid, ins[k].wrCmd);
    }
  }

  // ---- Writing ----------------------------------------------------------------------------

  /** At most this many edges until the command that is held has been written. */
  ghost function WriteLeft(s: State, t: Trace): int {
    5 * (Pushed(s, t) - |t.completions|) +
    match s.main
    case Ready => 0
    case WriteCommand => WriteRank(s.reg) - 2
    case WriteCommandPush => 13
    case Idle => 14
    case ReadStatus =>
      if s.reg.RdA? then 21 else if !s.reg.Done? then (if s.reg.RegIdle? then 18 else 17)
      else if s.status.complete then 20 else 15
    case _ => 19
  }

  lemma {:induction false} WriteNearer(s: State, i: Input, t: Trace)
    requires Inv(s, t) && AllReady(i) && Ack(s) && !s.main.Ready?
    ensures Ack(Step(s, i)) && WriteLeft(Step(s, i), Observe(s, i, t)) < WriteLeft(s, t)
    ensures Observe(s, i, t).decisions == t.decisions
  {
    Progress(s, i, t);
  }

  /** A command that is held is written, and nothing else is captured before. */
  lemma {:induction false} WrittenBy(ss: seq<State>, ts: seq<Trace>, ins: seq<Input>, k: nat, n: nat) returns (j: nat)
    requires IsRun(ss, ts, ins) && ReadyFrom(ins, k, n) && Ack(ss[k]) && WriteLeft(ss[k], ts[k]) <= n
    ensures k <= j <= k + n && ss[j].main.Ready? && ts[j].decisions == ts[k].decisions
    decreases n
  {
    InvAlways(ss, ts, ins, k);
    j := k;
    if !ss[k].main.Ready? {
      assert StepAt(ss, ts, ins, k);
      WriteNearer(ss[k], ins[k], ts[k]);
      j := WrittenBy(ss, ts, ins, k + 1, n - 1);
    }
  }

  lemma {:induction false} ExtendsAlways(ss: seq<State>, ts: seq<Trace>, ins: seq<Input>, k: nat, m: nat)
    requires IsRun(ss, ts, ins) && k <= m <= |ins|
    ensures Extends(ts[k], ts[m])
    decreases m
  {
    if m == k {
    } else {
      ExtendsAlways(ss, ts, ins, k, m - 1);
      Edge(ss, ts, ins, m - 1);
    }
  }

  lemma {:induction false} AtMostToWrite(s: State, t: Trace)
    requires Inv(s, t)
    ensures Ack(s) ==> WriteLeft(s, t) <= 2200
    ensures !Ack(s) || s.main.Ready? ==> |t.beats| == 6 * |t.decisions|
  {
    QueueBound(s, t);
  }

  /**
   Whatever the device reports, every command captured is completely written within 2200 edges
   if nobody holds the arbiter up: at most 436 completions are answered before.
   */
  lemma {:induction false} CapturedIsWritten(ss: seq<State>, ts: seq<Trace>, ins: seq<Input>, k: nat)
    requires IsRun(ss, ts, ins) && ReadyFrom(ins, k, 2200)
    ensures |ts[k + 2200].beats| >= 6 * |ts[k].decisions|
  {
    InvAlways(ss, ts, ins, k);
    AtMostToWrite(ss[k], ts[k]);
    var j := k;
    if Ack(ss[k]) {
      j := WrittenBy(ss, ts, ins, k, 2200);
      InvAlways(ss, ts, ins, j);
      AtMostToWrite(ss[j], ts[j]);
    }
    ExtendsAlways(ss, ts, ins, j, k + 2200);
  }

  // ---- Every command is answered ----------------------------------------------------------

  /** The device reports a completion whenever it is asked and has a command. */
  ghost predicate Prompt(s: State, i: Input, t: Trace) {
    AllReady(i) && (RReady(s) && |t.completions| < |t.beats| / 6 ==> i.rData.complete)
  }

  ghost predicate PromptFrom(ss: seq<State>, ts: seq<Trace>, ins: seq<Input>, k: nat, n: nat) {
    && |ss| == |ts| == |ins| + 1 && k + n <= |ins|
    && forall j :: k <= j < k + n ==> Prompt(ss[j], ins[j], ts[j])
  }

  /** A poll answers the oldest command, if the device has it. */
  lemma {:induction false} PollAnswers(ss: seq<State>, ts: seq<Trace>, ins: seq<Input>, j: nat)
    requires IsRun(ss, ts, ins) && PromptFrom(ss, ts, ins, j, 3) && RReady(ss[j])
    requires |ts[j].completions| < |ts[j].beats| / 6
    ensures |ts[j + 3].responses| > |ts[j].responses|
  {
    assert Prompt(ss[j], ins[j], ts[j]);
    CompletionAnswered(ss, ts, ins, j);
  }

  /** A poll finds every completion answered; if the device has no command then one is held. */
  lemma {:induction false} PollMisses(s: State, t: Trace)
    requires Inv(s, t) && RReady(s)
    ensures |t.completions| == |t.responses|
    ensures |t.beats| / 6 <= |t.completions| < |t.decisions| ==> Ack(s) && WriteLeft(s, t) <= 17
  {
  }

  /** By the next poll something is answered, or that poll finds the device without a command. */
  lemma {:induction false} NextPoll(
      ss: seq<State>, ts: seq<Trace>, ins: seq<Input>, k: nat, n: nat) returns (j: nat)
    requires IsRun(ss, ts, ins) && PromptFrom(ss, ts, ins, k, n + 3) && PollRank(ss[k]) <= n
    requires |ts[k].responses| < |ts[k].decisions|
    ensures k <= j <= k + n
    ensures |ts[j + 3].responses| > |ts[k].responses| ||
            (RReady(ss[j]) && |ts[j].responses| == |ts[k].responses| && |ts[j].beats| / 6 <= |ts[j].completions|)
  {
    InvAlways(ss, ts, ins, k);
    UnansweredWillPoll(ss[k], ts[k]);
    j := PolledWithin(ss, ts, ins, k, n);
    ExtendsAlways(ss, ts, ins, k, j);
    ExtendsAlways(ss, ts, ins, j, j + 3);
    if |ts[j].completions| < |ts[j].beats| / 6 { PollAnswers(ss, ts, ins, j); }
  }

  /** The device has every command captured, and polls follow: the next one answers. */
  lemma {:induction false} AnsweredOnceWritten(ss: seq<State>, ts: seq<Trace>, ins: seq<Input>, k: nat)
    requires IsRun(ss, ts, ins) && PromptFrom(ss, ts, ins, k, 5) && ss[k].main.Ready?
    requires |ts[k].responses| < |ts[k].decisions|
    ensures |ts[k + 5].responses| > |ts[k].responses|
  {
    InvAlways(ss, ts, ins, k);
    AtMostToWrite(ss[k], ts[k]);
    var j := NextPoll(ss, ts, ins, k, 2);
    ExtendsAlways(ss, ts, ins, k, j);
    ExtendsAlways(ss, ts, ins, j + 3, k + 5);
    if RReady(ss[j]) {
      InvAlways(ss, ts, ins, j);
      PollMisses(ss[j], ts[j]);
    }
  }

  /** The poll came before the command was written: it is written next, and then answered. */
  lemma {:induction false} AnsweredNextTime(ss: seq<State>, ts: seq<Trace>, ins: seq<Input>, j: nat)
    requires IsRun(ss, ts, ins) && PromptFrom(ss, ts, ins, j, 22) && RReady(ss[j])
    requires |ts[j].responses| < |ts[j].decisions| && |ts[j].beats| / 6 <= |ts[j].completions|
    ensures |ts[j + 22].responses| > |ts[j].responses|
  {
    InvAlways(ss, ts, ins, j);
    PollMisses(ss[j], ts[j]);
    var m := WrittenBy(ss, ts, ins, j, 17);
    ExtendsAlways(ss, ts, ins, j, m);
    if |ts[m].responses| == |ts[j].responses| { AnsweredOnceWritten(ss, ts, ins, m); }
    ExtendsAlways(ss, ts, ins, m, m + 5);
    ExtendsAlways(ss, ts, ins, m + 5, j + 22);
  }

  /** With a prompt device an unanswered command means an answer within 36 edges. */
  lemma {:induction false} OneAnswered(ss: seq<State>, ts: seq<Trace>, ins: seq<Input>, k: nat)
    requires IsRun(ss, ts, ins) && PromptFrom(ss, ts, ins, k, 36)
    requires |ts[k].responses| < |ts[k].decisions|
    ensures |ts[k + 36].responses| > |ts[k].responses|
  {
    InvAlways(ss, ts, ins, k);
    UnansweredWillPoll(ss[k], ts[k]);
    var j := NextPoll(ss, ts, ins, k, 14);
    ExtendsAlways(ss, ts, ins, k, j);
    ExtendsAlways(ss, ts, ins, j + 3, k + 36);
    if |ts[j + 3].responses| <= |ts[k].responses| {
      AnsweredNextTime(ss, ts, ins, j);
      ExtendsAlways(ss, ts, ins, j + 22, k + 36);
    }
  }

  /**
   Nothing captured is ever forgotten: with a prompt device the first c commands, of which n are
   unanswered, are all answered within 36 n edges, whatever else arrives meanwhile.
   */
  lemma {:induction false} EveryCommandAnswered(
      ss: seq<State>, ts: seq<Trace>, ins: seq<Input>, k: nat, c: nat, n: nat)
    requires IsRun(ss, ts, ins) && PromptFrom(ss, ts, ins, k, 36 * n)
    requires c <= |ts[k].decisions| && c <= |ts[k].responses| + n
    ensures c <= |ts[k + 36 * n].responses|
    decreases n
  {
    if n == 0 {
    } else if c <= |ts[k].responses| {
      ExtendsAlways(ss, ts, ins, k, k + 36 * n);
    } else {
      OneAnswered(ss, ts, ins, k);
      ExtendsAlways(ss, ts, ins, k, k + 36);
      EveryCommandAnswered(ss, ts, ins, k + 36, c, n - 1);
    }
  }
}
