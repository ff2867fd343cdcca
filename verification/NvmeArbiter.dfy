/**
 The NVMe command arbiter: four clocked processes that share registered signals.
 Every signal that a process assigns on a clock edge is a field of `State`; `Step` is one
 rising edge with the reset inactive, computed from the values before the edge, as the
 processes do. Inputs are arbitrary unless `NvmeRuns.EnvironmentOk` restricts them.
 */
module NvmeArbiter {

  const DRIVES := 8             // c_NvmeDriveCount
  const DRIVES_PRESENT := 2     // c_NvmeDrivesPresent
  const COUNTER_LIMIT := 218    // c_NvmeCmdCounterLimit
  const COUNTER_RANGE := 512    // nine-bit drive counters
  const FIFO_SIZE := 512        // c_FIFOSize; the position is a nine-bit number as well
  const WORD := 0x1_0000_0000

  type Drive = d: nat | d < 8
  type Word32 = x: nat | x < 0x1_0000_0000
  type Word64 = x: nat | x < 0x1_0000_0000_0000_0000
  /** The six data beats of one register burst: BufLo, BufHi, BlkLo, BlkHi, Cnt, Cmd. */
  type BeatIndex = b: nat | b < 6

  datatype Command = Command(bufferAddr: Word64, drive: Drive, blockAddr: Word64, blockCnt: Word32)
  datatype Item = Item(drive: Drive, isWrite: bool)
  /** Bits 0 and 1 of the status register. */
  datatype Status = Status(complete: bool, error: bool)

  datatype Main =
    | Idle | ReadStatus
    | SendResRdPull | SendResRd | SendResWrPull | SendResWr
    | WriteCommandPush | WriteCommand | Ready

  datatype Arb = IdleRd | IdleWr | AckRd | AckWr

  /** WrAW(b): address and beat b both outstanding; WrW(b): the address is done, beat b is next. */
  datatype Reg = RegIdle | RdAR | RdA | RdR | WrAW(b: BeatIndex) | WrW(b: BeatIndex) | WrDoneA | Done

  datatype Input = Input(
    rdValid: bool, rdCmd: Command, wrValid: bool, wrCmd: Command,
    rspRdReady: bool, rspWrReady: bool,
    arReady: bool, rValid: bool, rData: Status,
    awReady: bool, wReady: bool)

  datatype State = State(
    main: Main,
    arb: Arb, rdReady: bool, wrReady: bool, inc: seq<bool>,
    cmd: Command, isWrite: bool, cmdValid: bool,
    drives: DriveRegs,
    fifo: Fifo,
    reg: Reg, status: Status)

  datatype DriveRegs = DriveRegs(counters: seq<nat>, free: seq<bool>, pending: bool)

  /** The stream-ID queue: a shift register and the position of the next push. */
  datatype Fifo = Fifo(buf: seq<Item>, pos: nat)

  ghost predicate WellFormed(s: State) {
    && |s.inc| == DRIVES && |s.drives.counters| == DRIVES && |s.drives.free| == DRIVES
    && (forall d :: 0 <= d < DRIVES ==> s.drives.counters[d] < COUNTER_RANGE)
    && |s.fifo.buf| == FIFO_SIZE && s.fifo.pos < FIFO_SIZE
  }

  // ---- Combinational outputs -------------------------------------------------------------

  predicate ArValid(s: State) { s.reg.RdAR? || s.reg.RdA? }
  predicate RReady(s: State) { s.reg.RdAR? || s.reg.RdR? }
  predicate AwValid(s: State) { s.reg.WrAW? || s.reg.WrDoneA? }
  predicate WValid(s: State) { s.reg.WrAW? || s.reg.WrW? }
  predicate WLast(s: State) { WValid(s) && s.reg.b == 5 }
  predicate RspRdValid(s: State) { s.main.SendResRdPull? || s.main.SendResRd? }
  predicate RspWrValid(s: State) { s.main.SendResWrPull? || s.main.SendResWr? }
  predicate Push(s: State) { s.main.WriteCommandPush? }
  predicate Pull(s: State) { s.main.SendResRdPull? || s.main.SendResWrPull? }
  predicate DoWrite(s: State) { s.main.WriteCommandPush? || s.main.WriteCommand? }

  /** f_nvmeControlWord: bit 0 the direction, bit 4 the I/O queue, bits 5 to 7 the drive. */
  function ControlWord(isWrite: bool, drive: Drive): Word32 {
    (if isWrite then 1 else 0) + 16 + 32 * drive
  }

  function BeatData(c: Command, isWrite: bool, b: BeatIndex): Word32 {
    if b == 0 then c.bufferAddr % WORD
    else if b == 1 then c.bufferAddr / WORD
    else if b == 2 then c.blockAddr % WORD
    else if b == 3 then c.blockAddr / WORD
    else if b == 4 then c.blockCnt
    else ControlWord(isWrite, c.drive)
  }

  function WData(s: State): Word32 {
    if WValid(s) then BeatData(s.cmd, s.isWrite, s.reg.b) else 0
  }

  // ---- Main state machine ----------------------------------------------------------------

  function NextMain(s: State, i: Input): Main
    requires WellFormed(s)
  {
    match s.main
    case Idle =>
      if s.cmdValid then WriteCommandPush else if s.drives.pending then ReadStatus else Idle
    case ReadStatus =>
      if !s.reg.Done? then ReadStatus
      else if s.status.complete && !s.fifo.buf[0].isWrite then SendResRdPull
      else if s.status.complete && s.fifo.buf[0].isWrite then SendResWrPull
      else Idle
    case SendResRdPull => if i.rspRdReady then ReadStatus else SendResRd
    case SendResRd => if i.rspRdReady then ReadStatus else SendResRd
    case SendResWrPull => if i.rspWrReady then ReadStatus else SendResWr
    case SendResWr => if i.rspWrReady then ReadStatus else SendResWr
    case WriteCommandPush => if s.reg.Done? then Ready else WriteCommand
    case WriteCommand => if s.reg.Done? then Ready else WriteCommand
    case Ready => ReadStatus
  }

  // ---- Command stream state machine ------------------------------------------------------

  predicate Eligible(s: State, valid: bool, c: Command)
    requires WellFormed(s)
  {
    valid && c.drive < DRIVES_PRESENT && s.drives.free[c.drive]
  }

  datatype Choice = TakeNone | TakeRd | TakeWr

  function Choose(s: State, i: Input): Choice
    requires WellFormed(s)
  {
    var rd := Eligible(s, i.rdValid, i.rdCmd);
    var wr := Eligible(s, i.wrValid, i.wrCmd);
    match s.arb
    case IdleRd => if rd then TakeRd else if wr then TakeWr else TakeNone
    case IdleWr => if wr then TakeWr else if rd then TakeRd else TakeNone
    case _ => TakeNone
  }

  function NextArb(s: State, i: Input): Arb
    requires WellFormed(s)
  {
    match Choose(s, i)
    case TakeRd => AckRd
    case TakeWr => AckWr
    case TakeNone =>
      if s.arb.AckRd? && s.main.Ready? then IdleWr
      else if s.arb.AckWr? && s.main.Ready? then IdleRd
      else s.arb
  }

  /** s_driveInc, registered: one bit for the drive of a command accepted on this edge. */
  function NextInc(s: State, i: Input): seq<bool>
    requires WellFormed(s)
  {
    match Choose(s, i)
    case TakeRd => seq(DRIVES, d => d == i.rdCmd.drive)
    case TakeWr => seq(DRIVES, d => d == i.wrCmd.drive)
    case TakeNone => seq(DRIVES, d => false)
  }

  // ---- Drive command counters ------------------------------------------------------------

  predicate Dec(s: State, d: nat)
    requires WellFormed(s)
  {
    Pull(s) && s.fifo.buf[0].drive == d
  }

  function NextCounter(c: nat, inc: bool, dec: bool): nat
    requires c < COUNTER_RANGE
  {
    if inc && !dec then (c + 1) % COUNTER_RANGE
    else if !inc && dec then (c + COUNTER_RANGE - 1) % COUNTER_RANGE
    else c
  }

  function NextDrives(s: State): DriveRegs
    requires WellFormed(s)
  {
    DriveRegs(
      seq(DRIVES, d requires 0 <= d < DRIVES =>
        NextCounter(s.drives.counters[d], s.inc[d], Dec(s, d))),
      seq(DRIVES, d requires 0 <= d < DRIVES => s.drives.counters[d] < COUNTER_LIMIT),
      exists d :: 0 <= d < DRIVES && s.drives.counters[d] > 0)
  }

  // ---- Cmd/Rsp stream-ID queue -----------------------------------------------------------

  function Shifted(buf: seq<Item>): seq<Item>
    requires |buf| == FIFO_SIZE
  {
    buf[1..] + [buf[FIFO_SIZE - 1]]
  }

  function NextFifo(f: Fifo, push: bool, pull: bool, item: Item): Fifo
    requires |f.buf| == FIFO_SIZE && f.pos < FIFO_SIZE
  {
    if push && pull then Fifo(Shifted(f.buf)[f.pos := item], f.pos)
    else if pull then Fifo(Shifted(f.buf), (f.pos + FIFO_SIZE - 1) % FIFO_SIZE)
    else if push then Fifo(f.buf[f.pos := item], (f.pos + 1) % FIFO_SIZE)
    else f
  }

  // ---- Register access logic -------------------------------------------------------------

  function AfterBeat(b: BeatIndex, addressDone: bool): Reg {
    if b < 5 then (if addressDone then WrW(b + 1) else WrAW(b + 1))
    else if addressDone then Done else WrDoneA
  }

  function NextReg(s: State, i: Input): Reg {
    match s.reg
    case RegIdle => if s.main.ReadStatus? then RdAR else if DoWrite(s) then WrAW(0) else RegIdle
    case RdAR =>
      if i.arReady && i.rValid then Done
      else if i.arReady then RdR
      else if i.rValid then RdA
      else RdAR
    case RdA => if i.arReady then Done else RdA
    case RdR => if i.rValid then Done else RdR
    case WrAW(b) =>
      if i.wReady then AfterBeat(b, i.awReady)
      else if i.awReady then WrW(b)
      else WrAW(b)
    case WrW(b) => if i.wReady then AfterBeat(b, true) else WrW(b)
    case WrDoneA => if i.awReady then Done else WrDoneA
    case Done => RegIdle
  }

  // ---- One clock edge --------------------------------------------------------------------

  function Step(s: State, i: Input): State
    requires WellFormed(s)
  {
    var choice := Choose(s, i);
    var taken := !choice.TakeNone?;
    State(
      NextMain(s, i),
      NextArb(s, i), choice.TakeRd?, choice.TakeWr?, NextInc(s, i),
      if choice.TakeRd? then i.rdCmd else if choice.TakeWr? then i.wrCmd else s.cmd,
      if taken then choice.TakeWr? else s.isWrite,
      taken || (s.cmdValid && !(s.main.Ready? && (s.arb.AckRd? || s.arb.AckWr?))),
      NextDrives(s),
      NextFifo(s.fifo, Push(s), Pull(s), Item(s.cmd.drive, s.isWrite)),
      NextReg(s, i),
      if RReady(s) && i.rValid then i.rData else s.status)
  }

  lemma StepWellFormed(s: State, i: Input)
    requires WellFormed(s)
    ensures WellFormed(Step(s, i))
  {
  }

  const NO_COMMAND := Command(0, 0, 0, 0)

  /** The registers after a reset edge. s_driveFree has no reset value, so it is a parameter. */
  function Reset(free: seq<bool>): State {
    State(
      Idle, IdleRd, false, false, seq(DRIVES, d => false), NO_COMMAND, false, false,
      DriveRegs(seq(DRIVES, d => 0), free, false),
      Fifo(seq(FIFO_SIZE, k => Item(0, false)), 0),
      RegIdle, Status(false, false))
  }

  // ---- The clocked entity ----------------------------------------------------------------

  /** The counter process as its loop over all drives. */
  method ClockDrives(s: State) returns (r: DriveRegs)
    requires WellFormed(s)
    ensures r == NextDrives(s)
  {
    var counters, free, pending := [], [], false;
    for d := 0 to DRIVES
      invariant |counters| == |free| == d
      invariant forall k :: 0 <= k < d ==>
        counters[k] == NextCounter(s.drives.counters[k], s.inc[k], Dec(s, k))
      invariant forall k :: 0 <= k < d ==> free[k] == (s.drives.counters[k] < COUNTER_LIMIT)
      invariant pending <==> exists k :: 0 <= k < d && s.drives.counters[k] > 0
    {
      counters := counters + [NextCounter(s.drives.counters[d], s.inc[d], Dec(s, d))];
      free := free + [s.drives.counters[d] < COUNTER_LIMIT];
      pending := pending || s.drives.counters[d] > 0;
    }
    r := DriveRegs(counters, free, pending);
  }

  /** The stream-ID queue over its 512-entry buffer. */
  class StreamIdQueue {
    const buf: array<Item>
    var pos: nat

    ghost predicate Valid() reads this { buf.Length == FIFO_SIZE && pos < FIFO_SIZE }

    ghost function Value(): (f: Fifo)
      reads this, buf
      requires Valid()
      ensures |f.buf| == FIFO_SIZE && f.pos < FIFO_SIZE
    {
      Fifo(buf[..], pos)
    }

    constructor ()
      ensures Valid() && fresh(buf)
      ensures Value() == Fifo(seq(FIFO_SIZE, k => Item(0, false)), 0)
    {
      buf := new Item[FIFO_SIZE](k => Item(0, false));
      pos := 0;
    }

    method Clock(push: bool, pull: bool, item: Item)
      requires Valid()
      modifies this`pos, buf
      ensures Valid() && Value() == NextFifo(old(Value()), push, pull, item)
    {
      if pull {
        forall k | 0 <= k < FIFO_SIZE - 1 { buf[k] := buf[k + 1]; }
        assert buf[..] == Shifted(old(buf[..]));
      }
      if push { buf[pos] := item; }
      if pull && !push {
        pos := (pos + FIFO_SIZE - 1) % FIFO_SIZE;
      } else if push && !pull {
        pos := (pos + 1) % FIFO_SIZE;
      }
    }
  }

  /** All registers; a clock edge reads the old values and writes every register once. */
  class Controller {
    var main: Main
    var arb: Arb
    var rdReady: bool
    var wrReady: bool
    var inc: seq<bool>
    var cmd: Command
    var isWrite: bool
    var cmdValid: bool
    var drives: DriveRegs
    const queue: StreamIdQueue
    var reg: Reg
    var status: Status

    ghost predicate Valid()
      reads this, queue, queue.buf
    {
      queue.Valid() && WellFormed(Value())
    }

    ghost function Value(): State
      reads this, queue, queue.buf
      requires queue.Valid()
    {
      State(main, arb, rdReady, wrReady, inc, cmd, isWrite, cmdValid, drives, queue.Value(), reg, status)
    }

    constructor (free: seq<bool>)
      requires |free| == DRIVES
      ensures Valid() && fresh(queue) && fresh(queue.buf)
      ensures Value() == Reset(free)
    {
      main, arb, rdReady, wrReady := Idle, IdleRd, false, false;
      inc := seq(DRIVES, d => false);
      cmd, isWrite, cmdValid := NO_COMMAND, false, false;
      drives := DriveRegs(seq(DRIVES, d => 0), free, false);
      queue := new StreamIdQueue();
      reg, status := RegIdle, Status(false, false);
    }

    /** The command stream process: captures an eligible command or releases the current one. */
    method ClockArbiter(s: State, i: Input)
      requires WellFormed(s) && s.arb == arb && s.cmd == cmd && s.isWrite == isWrite && s.cmdValid == cmdValid
      modifies `arb, `rdReady, `wrReady, `inc, `cmd, `isWrite, `cmdValid
      ensures var n := Step(s, i);
        && arb == n.arb && rdReady == n.rdReady && wrReady == n.wrReady && inc == n.inc
        && cmd == n.cmd && isWrite == n.isWrite && cmdValid == n.cmdValid
    {
      rdReady, wrReady, inc := false, false, NextInc(s, i);
      match Choose(s, i) {
        case TakeRd =>
          rdReady := true;
          cmd, isWrite, cmdValid, arb := i.rdCmd, false, true, AckRd;
        case TakeWr =>
          wrReady := true;
          cmd, isWrite, cmdValid, arb := i.wrCmd, true, true, AckWr;
        case TakeNone =>
          if s.arb.AckRd? && s.main.Ready? {
            cmdValid, arb := false, IdleWr;
          } else if s.arb.AckWr? && s.main.Ready? {
            cmdValid, arb := false, IdleRd;
          }
      }
    }

    /** The main process: answer completions, write commands, poll the status in between. */
    method ClockMain(s: State, i: Input)
      requires WellFormed(s) && s.main == main
      modifies `main
      ensures main == Step(s, i).main
    {
      match s.main {
        case Idle =>
          if s.cmdValid { main := WriteCommandPush; } else if s.drives.pending { main := ReadStatus; }
        case ReadStatus =>
          if s.reg.Done? {
            main := Idle;
            if s.status.complete { main := if s.fifo.buf[0].isWrite then SendResWrPull else SendResRdPull; }
          }
        case SendResRdPull => main := if i.rspRdReady then ReadStatus else SendResRd;
        case SendResRd => if i.rspRdReady { main := ReadStatus; }
        case SendResWrPull => main := if i.rspWrReady then ReadStatus else SendResWr;
        case SendResWr => if i.rspWrReady { main := ReadStatus; }
        case WriteCommandPush => main := if s.reg.Done? then Ready else WriteCommand;
        case WriteCommand => if s.reg.Done? { main := Ready; }
        case Ready => main := ReadStatus;
      }
    }

    /** The register process: one status read, or one burst of six beats with its address in any order. */
    method ClockRegister(s: State, i: Input)
      requires WellFormed(s) && s.reg == reg && s.status == status
      modifies `reg, `status
      ensures var n := Step(s, i); reg == n.reg && status == n.status
    {
      match s.reg {
        case RegIdle =>
          if s.main.ReadStatus? { reg := RdAR; } else if DoWrite(s) { reg := WrAW(0); }
        case RdAR =>
          if i.rValid { status := i.rData; }
          if i.arReady {
            reg := if i.rValid then Done else RdR;
          } else if i.rValid {
            reg := RdA;
          }
        case RdA => if i.arReady { reg := Done; }
        case RdR =>
          if i.rValid { status, reg := i.rData, Done; }
        case WrAW(b) =>
          var addressDone := i.awReady;
          if i.wReady && b < 5 {
            reg := if addressDone then WrW(b + 1) else WrAW(b + 1);
          } else if i.wReady {
            reg := if addressDone then Done else WrDoneA;
          } else if addressDone {
            reg := WrW(b);
          }
        case WrW(b) =>
          if i.wReady { reg := if b < 5 then WrW(b + 1) else Done; }
        case WrDoneA => if i.awReady { reg := Done; }
        case Done => reg := RegIdle;
      }
    }

    method Clock(i: Input)
      requires Valid()
      modifies this, queue, queue.buf
      ensures Valid() && Value() == Step(old(Value()), i)
    {
      var s := State(main, arb, rdReady, wrReady, inc, cmd, isWrite, cmdValid, drives,
                     Fifo(queue.buf[..], queue.pos), reg, status);
      assert s == Value();
      StepWellFormed(s, i);
      ClockArbiter(s, i);
      ClockMain(s, i);
      ClockRegister(s, i);
      drives := ClockDrives(s);
      queue.Clock(Push(s), Pull(s), Item(s.cmd.drive, s.isWrite));
    }
  }
}
