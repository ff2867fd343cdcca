/**
 Runs of the NVMe arbiter from reset, with everything an observer sees on the ports recorded
 in a `Trace`, and the invariants that every run keeps.
 */
module NvmeRuns {
  import opened Basics
  import opened NvmeArbiter

  /** An edge on which the command process captured a command, and who was eligible then. */
  datatype Decision = Decision(cmd: Command, isWrite: bool, rdEligible: bool, wrEligible: bool)
  datatype Transfer = Transfer(cmd: Command, isWrite: bool)
  datatype Beat = Beat(data: Word32, last: bool)
  datatype Response = Response(isWrite: bool, error: bool)

  datatype Trace = Trace(
    decisions: seq<Decision>,
    transfers: seq<Transfer>,      // handshakes on the two command streams
    rdHeld: Option<Command>,       // offered on the read stream on the last edge, not yet taken
    wrHeld: Option<Command>,
    aw: nat,                       // handshakes on the write address channel
    beats: seq<Beat>,              // handshakes on the write data channel
    ar: nat, polls: nat,           // handshakes on the read address and the read data channel
    completions: seq<bool>,        // error bit of every status read that reported a completion
    responses: seq<Response>)      // handshakes on the two response streams

  const EMPTY := Trace([], [], None, None, 0, [], 0, 0, [], [])

  /**
   What is asked of the outside: the device reports a completion only while a command that was
   completely written is outstanding, and a stream source keeps TVALID and TDATA until TREADY
   (section 2.2.1 of ARM IHI 0051A). All other timing is arbitrary.
   */
  ghost predicate EnvironmentOk(s: State, i: Input, t: Trace) {
    && (RReady(s) && i.rValid && i.rData.complete ==> |t.completions| < |t.beats| / 6)
    && (t.rdHeld.Some? ==> i.rdValid && i.rdCmd == t.rdHeld.value)
    && (t.wrHeld.Some? ==> i.wrValid && i.wrCmd == t.wrHeld.value)
  }

  function Observe(s: State, i: Input, t: Trace): Trace
    requires WellFormed(s)
  {
    var choice := Choose(s, i);
    var rd := Eligible(s, i.rdValid, i.rdCmd);
    var wr := Eligible(s, i.wrValid, i.wrCmd);
    Trace(
      t.decisions + (match choice
                     case TakeRd => [Decision(i.rdCmd, false, rd, wr)]
                     case TakeWr => [Decision(i.wrCmd, true, rd, wr)]
                     case TakeNone => []),
      t.transfers + (if s.rdReady && i.rdValid then [Transfer(i.rdCmd, false)] else [])
                  + (if s.wrReady && i.wrValid then [Transfer(i.wrCmd, true)] else []),
      if i.rdValid && !s.rdReady then Some(i.rdCmd) else None,
      if i.wrValid && !s.wrReady then Some(i.wrCmd) else None,
      t.aw + (if AwValid(s) && i.awReady then 1 else 0),
      t.beats + (if WValid(s) && i.wReady then [Beat(WData(s), WLast(s))] else []),
      t.ar + (if ArValid(s) && i.arReady then 1 else 0),
      t.polls + (if RReady(s) && i.rValid then 1 else 0),
      t.completions + (if RReady(s) && i.rValid && i.rData.complete then [i.rData.error] else []),
      t.responses + (if RspRdValid(s) && i.rspRdReady then [Response(false, s.status.error)] else [])
                  + (if RspWrValid(s) && i.rspWrReady then [Response(true, s.status.error)] else []))
  }

  // ---- Bookkeeping: how far each command has come -----------------------------------------

  predicate Ack(s: State) { s.arb.AckRd? || s.arb.AckWr? }
  predicate NoInc(s: State) { forall d :: 0 <= d < |s.inc| ==> !s.inc[d] }
  /** The captured command has not been pushed into the queue. */
  predicate Unpushed(s: State) { Ack(s) && !s.main.WriteCommand? && !s.main.Ready? }
  /** A completion was read whose queue entry is still there. */
  predicate Completing(s: State) {
    Pull(s) || (s.main.ReadStatus? && (s.reg.RdA? || s.reg.Done?) && s.status.complete)
  }
  predicate Unanswered(s: State) { Completing(s) || s.main.SendResRd? || s.main.SendResWr? }

  function Pushed(s: State, t: Trace): int { |t.decisions| - Bit(Unpushed(s)) }
  function Popped(s: State, t: Trace): int { |t.completions| - Bit(Completing(s)) }

  function CountDrive(ds: seq<Decision>, d: nat): nat {
    if ds == [] then 0 else Bit(ds[0].cmd.drive == d) + CountDrive(ds[1..], d)
  }

  function Burst(c: Command, isWrite: bool): (r: seq<Beat>)
    ensures |r| == 6
  {
    seq(6, b requires 0 <= b < 6 => Beat(BeatData(c, isWrite, b), b == 5))
  }

  function Bursts(ds: seq<Decision>): (r: seq<Beat>)
    ensures |r| == 6 * |ds|
  {
    if ds == [] then [] else Bursts(ds[..|ds| - 1]) + Burst(ds[|ds| - 1].cmd, ds[|ds| - 1].isWrite)
  }

  // ---- Invariants -------------------------------------------------------------------------

  /** How the four state machines and the registered one-cycle signals fit together. */
  ghost predicate Control(s: State) {
    && WellFormed(s)
    && (s.cmdValid <==> Ack(s))
    && (DoWrite(s) || s.main.Ready? || !Ack(s) ==> NoInc(s))
    && (DoWrite(s) || s.main.Ready? ==> Ack(s))
    && (s.rdReady ==> s.arb.AckRd? && !s.wrReady)
    && (s.wrReady ==> s.arb.AckWr?)
    && (Ack(s) ==> (s.isWrite <==> s.arb.AckWr?))
    && (s.main.ReadStatus? ==> !s.reg.WrAW? && !s.reg.WrW? && !s.reg.WrDoneA?)
    && (s.main.WriteCommand? ==> s.reg.WrAW? || s.reg.WrW? || s.reg.WrDoneA? || s.reg.Done?)
    && (!s.main.ReadStatus? && !s.main.WriteCommand? ==> s.reg.RegIdle?)
  }

  /** Queue entry k belongs to the command decided k after the last one that left the queue. */
  ghost predicate EntryIs(s: State, t: Trace, k: nat) {
    && 0 <= Popped(s, t) + k < |t.decisions| && k < |s.fifo.buf|
    && s.fifo.buf[k] == ItemOf(t.decisions[Popped(s, t) + k])
  }

  /** The queue holds exactly the commands pushed and not yet completed, oldest first. */
  ghost predicate Queue(s: State, t: Trace)
    requires WellFormed(s)
  {
    && (Ack(s) ==> |t.decisions| > 0)
    && (Ack(s) ==> var l := t.decisions[|t.decisions| - 1]; l.cmd == s.cmd && l.isWrite == s.isWrite)
    && 0 <= Popped(s, t) <= Pushed(s, t)
    && s.fifo.pos == Pushed(s, t) - Popped(s, t)
    && (forall k: nat {:trigger EntryIs(s, t, k)} ::
         k < s.fifo.pos ==> EntryIs(s, t, k))
    && (Completing(s) || s.main.WriteCommand? ==> s.fifo.pos > 0)
  }

  function ItemOf(d: Decision): Item { Item(d.cmd.drive, d.isWrite) }

  ghost predicate CountIs(s: State, t: Trace, d: nat) {
    && WellFormed(s) && 0 <= Popped(s, t) <= |t.decisions| && d < DRIVES
    && s.drives.counters[d] + Bit(s.inc[d]) == CountDrive(t.decisions[Popped(s, t)..], d) <= COUNTER_LIMIT
  }

  /** Each counter, with its increment in flight, counts the drive's uncompleted commands. */
  ghost predicate Counts(s: State, t: Trace)
    requires WellFormed(s)
  {
    && 0 <= Popped(s, t) <= |t.decisions|
    && (forall k :: 0 <= k < |t.decisions| ==> t.decisions[k].cmd.drive < DRIVES_PRESENT)
    && (forall d: nat {:trigger CountIs(s, t, d)} ::
         d < DRIVES ==> CountIs(s, t, d))
    && (!Ack(s) ==> forall d :: 0 <= d < DRIVES && s.drives.free[d] ==> s.drives.counters[d] < COUNTER_LIMIT)
  }

  /** How many beats of the current burst were taken. */
  function BeatsDone(r: Reg): nat {
    match r
    case WrAW(b) => b
    case WrW(b) => b
    case WrDoneA => 6
    case Done => 6
    case _ => 0
  }

  /** Complete bursts for the pushed commands; a prefix of the last one while it is written. */
  ghost predicate Bus(s: State, t: Trace) {
    var n := Pushed(s, t);
    && 0 <= n <= |t.decisions|
    && if s.main.WriteCommand? then
         && n > 0 && s.cmd == t.decisions[n - 1].cmd && s.isWrite == t.decisions[n - 1].isWrite
         && t.aw == n - 1 + Bit(s.reg.WrW? || s.reg.Done?)
         && t.beats == Bursts(t.decisions[..n - 1]) + Burst(s.cmd, s.isWrite)[..BeatsDone(s.reg)]
       else
         && t.aw == n
         && t.beats == Bursts(t.decisions[..n])
  }

  ghost predicate Answers(s: State, t: Trace) {
    && |t.completions| <= |t.decisions|
    && |t.responses| == |t.completions| - Bit(Unanswered(s))
    && (forall k :: 0 <= k < |t.responses| ==>
          t.responses[k] == Response(t.decisions[k].isWrite, t.completions[k]))
    && (Unanswered(s) ==>
          && s.status.error == t.completions[|t.completions| - 1]
          && (RspRdValid(s) ==> !t.decisions[|t.completions| - 1].isWrite)
          && (RspWrValid(s) ==> t.decisions[|t.completions| - 1].isWrite))
  }

  /** Captured commands are exactly those handed over on the streams, at most one cycle ahead. */
  ghost predicate Streams(s: State, t: Trace) {
    && |t.transfers| == |t.decisions| - Bit(s.rdReady || s.wrReady)
    && (forall k :: 0 <= k < |t.transfers| ==>
          t.transfers[k] == Transfer(t.decisions[k].cmd, t.decisions[k].isWrite))
    && (s.rdReady ==> t.rdHeld == Some(t.decisions[|t.decisions| - 1].cmd) && !t.decisions[|t.decisions| - 1].isWrite)
    && (s.wrReady ==> t.wrHeld == Some(t.decisions[|t.decisions| - 1].cmd) && t.decisions[|t.decisions| - 1].isWrite)
  }

  /** Who was passed over at decision k was served at decision k - 1. */
  ghost predicate FairAt(ds: seq<Decision>, k: nat) {
    && k < |ds|
    && (ds[k].isWrite && ds[k].rdEligible ==> k > 0 && !ds[k - 1].isWrite)
    && (k > 0 && !ds[k].isWrite && ds[k].wrEligible ==> ds[k - 1].isWrite)
  }

  ghost predicate Fair(s: State, t: Trace) {
    && (forall k: nat {:trigger FairAt(t.decisions, k)} ::
         k < |t.decisions| ==> FairAt(t.decisions, k))
    && (match s.arb
        case IdleRd => t.decisions == [] || t.decisions[|t.decisions| - 1].isWrite
        case IdleWr => t.decisions != [] && !t.decisions[|t.decisions| - 1].isWrite
        case AckRd => t.decisions != [] && !t.decisions[|t.decisions| - 1].isWrite
        case AckWr => t.decisions != [] && t.decisions[|t.decisions| - 1].isWrite)
  }

  ghost predicate Inv(s: State, t: Trace) {
    && Control(s)
    && Queue(s, t)
    && Counts(s, t)
    && Bus(s, t)
    && Answers(s, t)
    && Streams(s, t)
    && Fair(s, t)
  }

  // ---- Every edge keeps the invariants ----------------------------------------------------

  lemma {:induction false} CountSnoc(ds: seq<Decision>, x: Decision, d: nat)
    ensures CountDrive(ds + [x], d) == CountDrive(ds, d) + Bit(x.cmd.drive == d)
  {
    if ds == [] {
    } else {
      assert (ds + [x])[1..] == ds[1..] + [x];
      CountSnoc(ds[1..], x, d);
    }
  }

  lemma {:induction false} CountTotal(ds: seq<Decision>)
    requires forall k :: 0 <= k < |ds| ==> ds[k].cmd.drive < DRIVES_PRESENT
    ensures |ds| == CountDrive(ds, 0) + CountDrive(ds, 1)
  {
    if ds == [] {
    } else {
      CountTotal(ds[1..]);
    }
  }

  /** The queue never holds more than the two drives' limits together. */
  lemma {:induction false} QueueBound(s: State, t: Trace)
    requires Inv(s, t)
    ensures |t.decisions| - Popped(s, t) <= 2 * COUNTER_LIMIT
    ensures s.fifo.pos <= 2 * COUNTER_LIMIT
    ensures Push(s) ==> s.fifo.pos < 2 * COUNTER_LIMIT
  {
    CountTotal(t.decisions[Popped(s, t)..]);
    assert CountIs(s, t, 0) && CountIs(s, t, 1);
  }

  lemma {:induction false} ControlKept(s: State, i: Input)
    requires Control(s)
    ensures Control(Step(s, i))
  {
    StepWellFormed(s, i);
  }

  /** A completion is only ever read when every captured and pushed command has been written. */
  lemma {:induction false} CompletionHasEntry(s: State, i: Input, t: Trace)
    requires Inv(s, t) && EnvironmentOk(s, i, t)
    requires RReady(s) && i.rValid && i.rData.complete
    ensures Popped(s, t) == |t.completions| < Pushed(s, t)
  {
    assert |t.beats| == 6 * Pushed(s, t);
  }

  /** What an edge does to the two progress counts. */
  lemma {:induction false} Progress(s: State, i: Input, t: Trace)
    requires Control(s)
    ensures Pushed(Step(s, i), Observe(s, i, t)) == Pushed(s, t) + Bit(Push(s))
    ensures Popped(Step(s, i), Observe(s, i, t)) == Popped(s, t) + Bit(Pull(s))
    ensures Completing(Step(s, i)) ==>
      (Completing(s) && !Pull(s)) || (RReady(s) && i.rValid && i.rData.complete)
    ensures !(Push(s) && Pull(s))
  {
  }

  /** The shift register behaves as a first-in first-out queue of its first pos entries. */
  lemma {:induction false} ShiftRegisterIsFifo(f: Fifo, push: bool, pull: bool, item: Item)
    requires |f.buf| == FIFO_SIZE && !(push && pull)
    requires (pull ==> 0 < f.pos) && (push ==> f.pos + 1 < FIFO_SIZE) && f.pos < FIFO_SIZE
    ensures var g := NextFifo(f, push, pull, item);
      g.buf[..g.pos] ==
      if pull then f.buf[..f.pos][1..] else if push then f.buf[..f.pos] + [item] else f.buf[..f.pos]
  {
    if pull {
      assert Shifted(f.buf)[..f.pos - 1] == f.buf[..f.pos][1..];
    }
  }

  lemma {:induction false} QueueKept(s: State, i: Input, t: Trace)
    requires Control(s) && Queue(s, t) && Control(Step(s, i))
    requires Push(s) ==> s.fifo.pos < 2 * COUNTER_LIMIT
    requires RReady(s) && i.rValid && i.rData.complete ==> Popped(s, t) < Pushed(s, t)
    ensures Queue(Step(s, i), Observe(s, i, t))
  {
    var s', t' := Step(s, i), Observe(s, i, t);
    Progress(s, i, t);
    var item := Item(s.cmd.drive, s.isWrite);
    ShiftRegisterIsFifo(s.fifo, Push(s), Pull(s), item);
    forall k: nat | k < s'.fifo.pos ensures EntryIs(s', t', k) {
      EntryKept(s, i, t, k);
    }
  }

  /** Entry k after an edge is entry k or k + 1 before it, or the command just captured. */
  lemma {:induction false} EntryKept(s: State, i: Input, t: Trace, k: nat)
    requires Control(s) && Queue(s, t) && Control(Step(s, i)) && k < Step(s, i).fifo.pos
    requires Push(s) ==> s.fifo.pos < 2 * COUNTER_LIMIT
    ensures EntryIs(Step(s, i), Observe(s, i, t), k)
  {
    var s' := Step(s, i);
    Progress(s, i, t);
    ShiftRegisterIsFifo(s.fifo, Push(s), Pull(s), Item(s.cmd.drive, s.isWrite));
    var before, after := s.fifo.buf[..s.fifo.pos], s'.fifo.buf[..s'.fifo.pos];
    assert s'.fifo.buf[k] == after[k];
    if Pull(s) {
      assert EntryIs(s, t, k + 1) && after[k] == before[k + 1];
    } else if k < s.fifo.pos {
      assert EntryIs(s, t, k) && after[k] == before[k];
    }
  }

  /** One counter over one edge: an increment in flight lands, a pulled entry leaves. */
  lemma {:induction false} CounterMatches(c: nat, inc: bool, pull: bool, ds: seq<Decision>, d: nat)
    requires c + Bit(inc) == CountDrive(ds, d) <= COUNTER_LIMIT
    requires pull ==> ds != []
    ensures NextCounter(c, inc, pull && ds[0].cmd.drive == d) == CountDrive(ds[Bit(pull)..], d)
  {
    assert !pull ==> ds[0..] == ds;
  }

  /** The bits that a captured command sets are the ones its drive's count grows by. */
  lemma {:induction false} CaptureMatches(s: State, i: Input, t: Trace, d: nat, p: nat)
    requires Control(s) && d < DRIVES && p <= |t.decisions|
    ensures var s', t' := Step(s, i), Observe(s, i, t);
      CountDrive(t'.decisions[p..], d) == CountDrive(t.decisions[p..], d) + Bit(s'.inc[d])
  {
    var t' := Observe(s, i, t);
    if Choose(s, i).TakeNone? {
      assert t'.decisions == t.decisions;
    } else {
      var x := t'.decisions[|t.decisions|];
      assert t'.decisions[p..] == t.decisions[p..] + [x];
      CountSnoc(t.decisions[p..], x, d);
    }
  }

  lemma {:induction false} DriveCountKept(s: State, i: Input, t: Trace, d: nat)
    requires WellFormed(s) && 0 <= Popped(s, t) <= |t.decisions| && d < DRIVES && CountIs(s, t, d)
    requires Pull(s) ==> EntryIs(s, t, 0)
    ensures Popped(s, t) + Bit(Pull(s)) <= |t.decisions|
    ensures Step(s, i).drives.counters[d] ==
            CountDrive(t.decisions[Popped(s, t) + Bit(Pull(s))..], d) <= s.drives.counters[d] + Bit(s.inc[d])
  {
    var p := Popped(s, t);
    var ds := t.decisions[p..];
    CounterMatches(s.drives.counters[d], s.inc[d], Pull(s), ds, d);
    assert ds[Bit(Pull(s))..] == t.decisions[p + Bit(Pull(s))..];
  }

  /** Capturing needs a free drive, and a free flag read while idle is never stale. */
  lemma {:induction false} CaptureFits(s: State, i: Input, t: Trace, d: nat)
    requires Control(s) && Queue(s, t) && Counts(s, t) && d < DRIVES
    requires Step(s, i).inc[d]
    ensures s.drives.counters[d] + Bit(s.inc[d]) < COUNTER_LIMIT
    ensures d < DRIVES_PRESENT
  {
  }

  lemma {:induction false} CountKept(s: State, i: Input, t: Trace, d: nat, p: nat)
    requires Control(s) && Queue(s, t) && Counts(s, t) && d < DRIVES
    requires p == Popped(s, t) + Bit(Pull(s))
    ensures p <= |t.decisions| <= |Observe(s, i, t).decisions|
    ensures Step(s, i).drives.counters[d] + Bit(Step(s, i).inc[d])
            == CountDrive(Observe(s, i, t).decisions[p..], d) <= COUNTER_LIMIT
    ensures !Step(s, i).inc[d] && Step(s, i).drives.free[d] && NoInc(s) ==>
            Step(s, i).drives.counters[d] < COUNTER_LIMIT
  {
    assert CountIs(s, t, d) && (Pull(s) ==> EntryIs(s, t, 0));
    DriveCountKept(s, i, t, d);
    CaptureMatches(s, i, t, d, p);
    if Step(s, i).inc[d] { CaptureFits(s, i, t, d); }
  }

  lemma {:induction false} CountsKept(s: State, i: Input, t: Trace)
    requires Control(s) && Queue(s, t) && Counts(s, t) && Control(Step(s, i))
    ensures Counts(Step(s, i), Observe(s, i, t))
  {
    Progress(s, i, t);
    forall d | 0 <= d < DRIVES
      ensures Popped(s, t) + Bit(Pull(s)) <= |t.decisions| <= |Observe(s, i, t).decisions|
      ensures Step(s, i).drives.counters[d] + Bit(Step(s, i).inc[d])
              == CountDrive(Observe(s, i, t).decisions[Popped(s, t) + Bit(Pull(s))..], d) <= COUNTER_LIMIT
      ensures !Step(s, i).inc[d] && Step(s, i).drives.free[d] && NoInc(s) ==>
              Step(s, i).drives.counters[d] < COUNTER_LIMIT
    {
      CountKept(s, i, t, d, Popped(s, t) + Bit(Pull(s)));
    }
    CapturedDrivesPresent(s, i, t);
  }

  lemma {:induction false} CapturedDrivesPresent(s: State, i: Input, t: Trace)
    requires Control(s)
    requires forall k :: 0 <= k < |t.decisions| ==> t.decisions[k].cmd.drive < DRIVES_PRESENT
    ensures forall k :: 0 <= k < |Observe(s, i, t).decisions| ==>
      Observe(s, i, t).decisions[k].cmd.drive < DRIVES_PRESENT
    ensures !Ack(Step(s, i)) ==> NoInc(s) && NoInc(Step(s, i))
  {
  }

  /** Outside WriteCommand nothing moves on the write channels; a push starts a burst. */
  lemma {:induction false} BusQuiet(s: State, i: Input, t: Trace)
    requires Control(s) && !s.main.WriteCommand?
    ensures Observe(s, i, t).aw == t.aw
    ensures Observe(s, i, t).beats == t.beats
    ensures Step(s, i).main.WriteCommand? <==> Push(s)
    ensures Push(s) ==> Step(s, i).reg == WrAW(0)
  {
  }

  /** The register process counts the data handshakes, and offers the beat of its count. */
  lemma {:induction false} BeatTaken(s: State, i: Input)
    requires Control(s) && s.main.WriteCommand? && !s.reg.Done?
    ensures var b := BeatsDone(s.reg);
      && BeatsDone(Step(s, i).reg) == b + Bit(WValid(s) && i.wReady)
      && (WValid(s) ==> b < 6 && Beat(WData(s), WLast(s)) == Beat(BeatData(s.cmd, s.isWrite, b), b == 5))
  {
  }

  /** Inside WriteCommand each handshake moves the register process by what was taken. */
  lemma {:induction false} BusBusy(s: State, i: Input, t: Trace)
    requires Control(s) && s.main.WriteCommand?
    ensures var s', t', burst := Step(s, i), Observe(s, i, t), Burst(s.cmd, s.isWrite);
      && s'.cmd == s.cmd && s'.isWrite == s.isWrite
      && (s'.main.WriteCommand? <==> !s.reg.Done?)
      && (s.reg.Done? ==> t'.beats == t.beats && t'.aw == t.aw)
      && (!s.reg.Done? ==>
            && BeatsDone(s.reg) <= BeatsDone(s'.reg)
            && t'.beats == t.beats + burst[BeatsDone(s.reg)..BeatsDone(s'.reg)]
            && t'.aw - Bit(s'.reg.WrW? || s'.reg.Done?) == t.aw - Bit(s.reg.WrW? || s.reg.Done?))
  {
    if !s.reg.Done? { BeatTaken(s, i); }
    var burst, b := Burst(s.cmd, s.isWrite), BeatsDone(s.reg);
    assert burst[b..b] == [];
    if b < 6 { BeatOfBurst(s.cmd, s.isWrite, b); }
  }

  lemma {:induction false} BeatOfBurst(c: Command, isWrite: bool, b: BeatIndex)
    ensures Burst(c, isWrite)[b..b + 1] == [Beat(BeatData(c, isWrite, b), b == 5)]
  {
  }

  lemma {:induction false} BurstFinished(ds: seq<Decision>, n: nat)
    requires 0 < n <= |ds|
    ensures Bursts(ds[..n]) == Bursts(ds[..n - 1]) + Burst(ds[n - 1].cmd, ds[n - 1].isWrite)
  {
    assert ds[..n][..n - 1] == ds[..n - 1];
  }

  lemma {:induction false} BusKept(s: State, i: Input, t: Trace)
    requires Control(s) && Queue(s, t) && Bus(s, t) && Control(Step(s, i))
    requires Queue(Step(s, i), Observe(s, i, t))
    ensures Bus(Step(s, i), Observe(s, i, t))
  {
    Progress(s, i, t);
    if s.main.WriteCommand? {
      BusBusy(s, i, t);
      BusyBurst(s, t, Step(s, i), Observe(s, i, t));
    } else {
      BusQuiet(s, i, t);
      QuietBurst(s, t, Step(s, i), Observe(s, i, t));
    }
  }

  lemma {:induction false} PrefixGrows<T>(base: seq<T>, x: seq<T>, j: nat, k: nat)
    requires j <= k <= |x|
    ensures (base + x[..j]) + x[j..k] == base + x[..k]
  {
    assert x[..j] + x[j..k] == x[..k];
  }

  lemma {:induction false} BusyBurst(s: State, t: Trace, s': State, t': Trace)
    requires Bus(s, t) && s.main.WriteCommand?
    requires Pushed(s', t') == Pushed(s, t) && t.decisions <= t'.decisions
    requires s'.cmd == s.cmd && s'.isWrite == s.isWrite
    requires s'.main.WriteCommand? <==> !s.reg.Done?
    requires s.reg.Done? ==> t'.beats == t.beats && t'.aw == t.aw
    requires !s.reg.Done? ==>
      && BeatsDone(s.reg) <= BeatsDone(s'.reg) <= 6
      && t'.beats == t.beats + Burst(s.cmd, s.isWrite)[BeatsDone(s.reg)..BeatsDone(s'.reg)]
      && t'.aw - Bit(s'.reg.WrW? || s'.reg.Done?) == t.aw - Bit(s.reg.WrW? || s.reg.Done?)
    ensures Bus(s', t')
  {
    var n := Pushed(s, t);
    assert t.decisions[..n] == t'.decisions[..n] && t.decisions[..n - 1] == t'.decisions[..n - 1];
    if s.reg.Done? {
      BurstFinished(t.decisions, n);
      assert Burst(s.cmd, s.isWrite)[..6] == Burst(s.cmd, s.isWrite);
    } else {
      PrefixGrows(Bursts(t.decisions[..n - 1]), Burst(s.cmd, s.isWrite), BeatsDone(s.reg), BeatsDone(s'.reg));
    }
  }

  lemma {:induction false} QuietBurst(s: State, t: Trace, s': State, t': Trace)
    requires Bus(s, t) && !s.main.WriteCommand? && Control(s') && Queue(s', t')
    requires Pushed(s', t') == Pushed(s, t) + Bit(Push(s)) && t.decisions <= t'.decisions
    requires t'.aw == t.aw && t'.beats == t.beats
    requires s'.main.WriteCommand? <==> Push(s)
    requires Push(s) ==> s'.reg == WrAW(0)
    ensures Bus(s', t')
  {
    var n := Pushed(s, t);
    assert t.decisions[..n] == t'.decisions[..n];
    assert Burst(s'.cmd, s'.isWrite)[..0] == [];
  }

  /** The entry at the head of the queue belongs to the completion being answered. */
  lemma {:induction false} HeadBelongsToCompletion(s: State, t: Trace)
    requires Control(s) && Queue(s, t) && Completing(s)
    ensures 0 < |t.completions| <= |t.decisions|
    ensures s.fifo.buf[0].isWrite == t.decisions[|t.completions| - 1].isWrite
  {
    assert EntryIs(s, t, 0);
  }

  lemma {:induction false} AnswersKept(s: State, i: Input, t: Trace)
    requires Control(s) && Queue(s, t) && Answers(s, t) && Control(Step(s, i))
    requires Queue(Step(s, i), Observe(s, i, t))
    ensures Answers(Step(s, i), Observe(s, i, t))
  {
    Progress(s, i, t);
    if Completing(s) { HeadBelongsToCompletion(s, t); }
    AnswersStep(s, i, t);
  }

  /** The response that answers the last completion, unless it is still to come. */
  ghost function Answered(s: State, t: Trace, pending: bool): seq<Response>
    requires 0 < |t.completions| <= |t.decisions|
  {
    if pending then [] else [Response(t.decisions[|t.completions| - 1].isWrite, s.status.error)]
  }

  /** What an edge adds to the completions. */
  lemma {:induction false} CompletionsSeen(s: State, i: Input, t: Trace)
    requires Control(s)
    ensures var s', t' := Step(s, i), Observe(s, i, t);
      && t.decisions <= t'.decisions
      && (Unanswered(s) ==> t'.completions == t.completions && s'.status == s.status)
      && (!Unanswered(s) ==> t'.completions == t.completions + if Unanswered(s') then [s'.status.error] else [])
  {
  }

  /** What an edge adds to the responses. */
  lemma {:induction false} AnswersSeen(s: State, i: Input, t: Trace)
    requires Control(s) && Answers(s, t)
    requires Completing(s) ==>
      0 < |t.completions| && s.fifo.buf[0].isWrite == t.decisions[|t.completions| - 1].isWrite
    ensures var s', t' := Step(s, i), Observe(s, i, t);
      && (Unanswered(s) ==> t'.responses == t.responses + Answered(s, t, Unanswered(s')))
      && (!Unanswered(s) ==> t'.responses == t.responses && !RspRdValid(s') && !RspWrValid(s'))
      && (Unanswered(s) && RspRdValid(s') ==> !t.decisions[|t.completions| - 1].isWrite)
      && (Unanswered(s) && RspWrValid(s') ==> t.decisions[|t.completions| - 1].isWrite)
  {
  }

  lemma {:induction false} AnswersStep(s: State, i: Input, t: Trace)
    requires Control(s) && Answers(s, t) && |Observe(s, i, t).completions| <= |t.decisions|
    requires Completing(s) ==>
      0 < |t.completions| && s.fifo.buf[0].isWrite == t.decisions[|t.completions| - 1].isWrite
    ensures Answers(Step(s, i), Observe(s, i, t))
  {
    CompletionsSeen(s, i, t);
    AnswersSeen(s, i, t);
    AnswersFollow(s, t, Step(s, i), Observe(s, i, t));
  }

  lemma {:induction false} AnswersFollow(s: State, t: Trace, s': State, t': Trace)
    requires Answers(s, t) && |t'.completions| <= |t.decisions| && t.decisions <= t'.decisions
    requires Unanswered(s) ==> t'.completions == t.completions && s'.status == s.status
    requires !Unanswered(s) ==> t'.completions == t.completions + if Unanswered(s') then [s'.status.error] else []
    requires Unanswered(s) ==> t'.responses == t.responses + Answered(s, t, Unanswered(s'))
    requires !Unanswered(s) ==> t'.responses == t.responses && !RspRdValid(s') && !RspWrValid(s')
    requires Unanswered(s) && RspRdValid(s') ==> !t.decisions[|t.completions| - 1].isWrite
    requires Unanswered(s) && RspWrValid(s') ==> t.decisions[|t.completions| - 1].isWrite
    ensures Answers(s', t')
  {
  }

  lemma {:induction false} StreamsKept(s: State, i: Input, t: Trace)
    requires Control(s) && Streams(s, t) && EnvironmentOk(s, i, t)
    ensures Streams(Step(s, i), Observe(s, i, t))
  {
  }

  lemma {:induction false} FairKept(s: State, i: Input, t: Trace)
    requires Control(s) && Fair(s, t)
    ensures Fair(Step(s, i), Observe(s, i, t))
  {
    var ds := Observe(s, i, t).decisions;
    forall k: nat | k < |ds| ensures FairAt(ds, k) { assert k < |t.decisions| ==> FairAt(t.decisions, k); }
  }

  /** One edge under any inputs the environment may offer. */
  lemma {:induction false} InvKept(s: State, i: Input, t: Trace)
    requires Inv(s, t) && EnvironmentOk(s, i, t)
    ensures Inv(Step(s, i), Observe(s, i, t))
  {
    ControlKept(s, i);
    QueueBound(s, t);
    if RReady(s) && i.rValid && i.rData.complete { CompletionHasEntry(s, i, t); }
    QueueKept(s, i, t);
    CountsKept(s, i, t);
    BusKept(s, i, t);
    AnswersKept(s, i, t);
    StreamsKept(s, i, t);
    FairKept(s, i, t);
  }

  // ---- Theorems over whole runs -----------------------------------------------------------

  /** A run from reset: any inputs the environment may offer, with the trace observed so far. */
  ghost predicate IsRun(ss: seq<State>, ts: seq<Trace>, ins: seq<Input>) {
    && |ss| == |ts| == |ins| + 1
    && (exists free: seq<bool> :: |free| == DRIVES && ss[0] == Reset(free))
    && ts[0] == EMPTY
    && forall k: nat {:trigger StepAt(ss, ts, ins, k)} ::
      k < |ins| ==> StepAt(ss, ts, ins, k)
  }

  ghost predicate StepAt(ss: seq<State>, ts: seq<Trace>, ins: seq<Input>, k: nat) {
    && k < |ins| && |ss| == |ts| == |ins| + 1
    && WellFormed(ss[k]) && EnvironmentOk(ss[k], ins[k], ts[k])
    && ss[k + 1] == Step(ss[k], ins[k]) && ts[k + 1] == Observe(ss[k], ins[k], ts[k])
  }

  lemma {:induction false} InvAlways(ss: seq<State>, ts: seq<Trace>, ins: seq<Input>, k: nat)
    requires IsRun(ss, ts, ins) && k <= |ins|
    ensures Inv(ss[k], ts[k])
  {
    if k == 0 {
    } else {
      InvAlways(ss, ts, ins, k - 1);
      assert StepAt(ss, ts, ins, k - 1);
      InvKept(ss[k - 1], ins[k - 1], ts[k - 1]);
    }
  }

  lemma {:induction false} NoWrap(s: State, t: Trace)
    requires Inv(s, t)
    ensures s.fifo.pos <= 436
    ensures Push(s) ==> s.fifo.pos < 436
    ensures Pull(s) ==> s.fifo.pos > 0
    ensures NextFifo(s.fifo, Push(s), Pull(s), Item(s.cmd.drive, s.isWrite)).pos
            == s.fifo.pos + Bit(Push(s)) - Bit(Pull(s))
  {
    QueueBound(s, t);
  }

  /** No counter passes its limit, the queue never holds more than 436 entries, never wraps. */
  lemma {:induction false} QueueNeverOverflows(ss: seq<State>, ts: seq<Trace>, ins: seq<Input>, k: nat)
    requires IsRun(ss, ts, ins) && k <= |ins|
    ensures forall d :: 0 <= d < |ss[k].drives.counters| ==> ss[k].drives.counters[d] <= 218
    ensures ss[k].fifo.pos <= 436
    ensures Push(ss[k]) ==> ss[k].fifo.pos < 436
    ensures Pull(ss[k]) ==> ss[k].fifo.pos > 0
    ensures !(Push(ss[k]) && Pull(ss[k]))
    ensures k < |ins| ==> ss[k + 1].fifo.pos == ss[k].fifo.pos + Bit(Push(ss[k])) - Bit(Pull(ss[k]))
  {
    var s, t := ss[k], ts[k];
    InvAlways(ss, ts, ins, k);
    NoWrap(s, t);
    assert k < |ins| ==> StepAt(ss, ts, ins, k);
    forall d | 0 <= d < |s.drives.counters| ensures s.drives.counters[d] <= 218 {
      assert CountIs(s, ts[k], d);
    }
  }

  /**
   The k-th completion is answered, with its own error bit, on the stream of the k-th command
   captured, which is the k-th command written to the device and the k-th one handed over on
   the command streams; nothing is answered twice or before its completion.
   */
  lemma {:induction false} AnswersInOrder(ss: seq<State>, ts: seq<Trace>, ins: seq<Input>, k: nat)
    requires IsRun(ss, ts, ins) && k <= |ins|
    ensures |ts[k].responses| <= |ts[k].completions| <= |ts[k].responses| + 1
    ensures |ts[k].completions| <= |ts[k].beats| / 6 <= |ts[k].decisions|
    ensures |ts[k].transfers| <= |ts[k].decisions| <= |ts[k].transfers| + 1
    ensures forall j :: 0 <= j < |ts[k].responses| ==>
      ts[k].responses[j] == Response(ts[k].decisions[j].isWrite, ts[k].completions[j])
    ensures forall j :: 0 <= j < |ts[k].transfers| ==>
      ts[k].transfers[j] == Transfer(ts[k].decisions[j].cmd, ts[k].decisions[j].isWrite)
  {
    InvAlways(ss, ts, ins, k);
  }

  lemma {:induction false} BurstPrefix(a: seq<Decision>, b: seq<Decision>)
    ensures Bursts(a) <= Bursts(a + b)
  {
    if b == [] {
      assert a + b == a;
    } else {
      var c := a + b[..|b| - 1];
      BurstPrefix(a, b[..|b| - 1]);
      assert (a + b)[..|a + b| - 1] == c;
    }
  }

  lemma {:induction false} BusIsBursts(s: State, t: Trace)
    requires Bus(s, t)
    ensures t.beats <= Bursts(t.decisions)
    ensures t.aw <= |t.decisions|
    ensures 6 * t.aw - 6 <= |t.beats| <= 6 * t.aw + 6
    ensures !AwValid(s) && !WValid(s) && (s.main.WriteCommand? ==> s.reg.Done?) ==> |t.beats| == 6 * t.aw
  {
    var n := Pushed(s, t);
    assert t.decisions == t.decisions[..n] + t.decisions[n..];
    BurstPrefix(t.decisions[..n], t.decisions[n..]);
    if s.main.WriteCommand? { BurstFinished(t.decisions, n); }
  }

  /** The j-th six beats, put together again, are the j-th command: addresses in halves, low one first. */
  ghost predicate Carries(beats: seq<Beat>, ds: seq<Decision>, j: nat) {
    && 6 * j + 6 <= |beats| && j < |ds|
    && beats[6 * j].data + 0x1_0000_0000 * beats[6 * j + 1].data == ds[j].cmd.bufferAddr
    && beats[6 * j + 2].data + 0x1_0000_0000 * beats[6 * j + 3].data == ds[j].cmd.blockAddr
    && beats[6 * j + 4].data == ds[j].cmd.blockCnt
    && beats[6 * j + 5].data % 2 == Bit(ds[j].isWrite)
    && beats[6 * j + 5].data / 2 % 16 == 8
    && beats[6 * j + 5].data / 32 == ds[j].cmd.drive
  }

  ghost predicate AllCarry(beats: seq<Beat>, ds: seq<Decision>) {
    && (forall j: nat {:trigger Carries(beats, ds, j)} :: 6 * j + 6 <= |beats| ==> Carries(beats, ds, j))
    && (forall i :: 0 <= i < |beats| ==> (beats[i].last <==> i % 6 == 5))
  }

  lemma {:induction false} BurstsCarry(ds: seq<Decision>)
    ensures AllCarry(Bursts(ds), ds)
  {
    if ds == [] {
    } else {
      var n, beats := |ds| - 1, Bursts(ds);
      BurstsCarry(ds[..n]);
      forall j: nat | 6 * j + 6 <= |beats| ensures Carries(beats, ds, j) {
        assert j < n ==> Carries(Bursts(ds[..n]), ds[..n], j);
        if j == n { BurstCarries(ds[n], beats[6 * n..]); }
      }
    }
  }

  lemma {:induction false} BurstCarries(d: Decision, beats: seq<Beat>)
    requires beats == Burst(d.cmd, d.isWrite)
    ensures Carries(beats, [d], 0)
  {
  }

  lemma {:induction false} PrefixCarries(beats: seq<Beat>, all: seq<Beat>, ds: seq<Decision>)
    requires beats <= all && AllCarry(all, ds)
    ensures AllCarry(beats, ds)
  {
    forall j: nat | 6 * j + 6 <= |beats| ensures Carries(beats, ds, j) { assert Carries(all, ds, j); }
  }

  /**
   What the device sees: the bursts of the captured commands, in order, each of six beats with
   the last flag on the sixth only, and one address handshake per burst. Every complete burst
   carries the two addresses, the block count, the direction, the queue and the drive of its command.
   */
  lemma {:induction false} OneBurstPerCommand(ss: seq<State>, ts: seq<Trace>, ins: seq<Input>, k: nat)
    requires IsRun(ss, ts, ins) && k <= |ins|
    ensures ts[k].beats <= Bursts(ts[k].decisions)
    ensures AllCarry(ts[k].beats, ts[k].decisions)
    ensures ts[k].aw <= |ts[k].decisions|
    ensures 6 * ts[k].aw - 6 <= |ts[k].beats| <= 6 * ts[k].aw + 6
    ensures !AwValid(ss[k]) && !WValid(ss[k]) ==> |ts[k].beats| == 6 * ts[k].aw
  {
    InvAlways(ss, ts, ins, k);
    BusIsBursts(ss[k], ts[k]);
    BurstsCarry(ts[k].decisions);
    PrefixCarries(ts[k].beats, Bursts(ts[k].decisions), ts[k].decisions);
  }

  /** The channels the arbiter drives, and what they carry: constants, a data beat, or an error bit. */
  datatype Channel = WriteAddress | WriteData | ReadAddress | ReadResponse | WriteResponse
  datatype Payload = Constant | Data(beat: Beat) | Error(bit: bool)

  /** What a receiver sees while VALID is up. */
  function Offered(ch: Channel, s: State): Option<Payload> {
    match ch
    case WriteAddress => if AwValid(s) then Some(Constant) else None
    case WriteData => if WValid(s) then Some(Data(Beat(WData(s), WLast(s)))) else None
    case ReadAddress => if ArValid(s) then Some(Constant) else None
    case ReadResponse => if RspRdValid(s) then Some(Error(s.status.error)) else None
    case WriteResponse => if RspWrValid(s) then Some(Error(s.status.error)) else None
  }

  /** READY of the channel. */
  predicate Taken(ch: Channel, i: Input) {
    match ch
    case WriteAddress => i.awReady
    case WriteData => i.wReady
    case ReadAddress => i.arReady
    case ReadResponse => i.rspRdReady
    case WriteResponse => i.rspWrReady
  }

  /** One edge: an offer that meets no ready stays as it is. */
  lemma {:induction false} PayloadHeld(ch: Channel, s: State, i: Input)
    requires Control(s) && Offered(ch, s).Some? && !Taken(ch, i)
    ensures Offered(ch, Step(s, i)) == Offered(ch, s)
  {
  }

  /**
   In every run and on every channel: what is offered at edge k is offered unchanged at any
   later edge m, unless its ready came in between.
   */
  lemma {:induction false} PayloadHeldUntilReady(
      ch: Channel, ss: seq<State>, ts: seq<Trace>, ins: seq<Input>, k: nat, m: nat)
    requires IsRun(ss, ts, ins) && k <= m <= |ins| && Offered(ch, ss[k]).Some?
    requires forall j :: k <= j < m ==> !Taken(ch, ins[j])
    ensures Offered(ch, ss[m]) == Offered(ch, ss[k])
    decreases m
  {
    if m == k {
    } else {
      PayloadHeldUntilReady(ch, ss, ts, ins, k, m - 1);
      InvAlways(ss, ts, ins, m - 1);
      assert StepAt(ss, ts, ins, m - 1);
      PayloadHeld(ch, ss[m - 1], ins[m - 1]);
    }
  }

  /**
   A command that is eligible at every decision waits behind at most one of the other kind:
   of any two successive decisions at which it is eligible, one takes it.
   */
  lemma {:induction false} WaitsBehindAtMostOne(ss: seq<State>, ts: seq<Trace>, ins: seq<Input>, k: nat, j: nat)
    requires IsRun(ss, ts, ins) && k <= |ins| && j + 1 < |ts[k].decisions|
    ensures ts[k].decisions[j].rdEligible && ts[k].decisions[j + 1].rdEligible ==>
      !ts[k].decisions[j].isWrite || !ts[k].decisions[j + 1].isWrite
    ensures ts[k].decisions[j].wrEligible && ts[k].decisions[j + 1].wrEligible ==>
      ts[k].decisions[j].isWrite || ts[k].decisions[j + 1].isWrite
  {
    InvAlways(ss, ts, ins, k);
    assert FairAt(ts[k].decisions, j + 1);
  }
}
