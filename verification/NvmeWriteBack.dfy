/**
 Writing back to NVMe behind a stream transfer: one process issues a command for every NVMe
 element that has a size, the other awaits a response for every NVMe element. When exactly
 they get through, under any schedule.
 */
module NvmeWriteBack {
  import opened Basics
  import opened StreamTransfer

  predicate Issues(e: Element) { e.kind.NVMe? && e.size > 0 }

  /** Commands issued for a list of elements, and responses awaited. */
  function Issuing(es: seq<Element>): nat {
    if es == [] then 0 else Issuing(es[..|es| - 1]) + Bit(Issues(es[|es| - 1]))
  }

  function Awaiting(es: seq<Element>): nat {
    if es == [] then 0 else Awaiting(es[..|es| - 1]) + Bit(es[|es| - 1].kind.NVMe?)
  }

  lemma {:induction false} ResponsesMatchCommandsIff(es: seq<Element>)
    ensures Issuing(es) <= Awaiting(es)
    ensures Issuing(es) == Awaiting(es) <==> forall k :: 0 <= k < |es| && es[k].kind.NVMe? ==> es[k].size > 0
  {
    if es == [] {
    } else {
      ResponsesMatchCommandsIff(es[..|es| - 1]);
      assert es == es[..|es| - 1] + [es[|es| - 1]];
    }
  }

  /** A response missing for the first j elements stays missing. */
  lemma {:induction false} DeficitGrows(es: seq<Element>, j: nat, k: nat)
    requires j <= k <= |es|
    ensures Awaiting(es[..j]) - Issuing(es[..j]) <= Awaiting(es[..k]) - Issuing(es[..k])
    ensures Awaiting(es[..j]) <= Awaiting(es[..k])
  {
    if j == k {
    } else {
      DeficitGrows(es, j, k - 1);
      assert es[..k][..k - 1] == es[..k - 1];
    }
  }

  // ---- The two processes and the device ---------------------------------------------------

  /**
   read: elements the issuer took (the last one is in hand while it waits for room);
   taken: elements the waiter took (the last one is waited for); then what went to the device,
   what came back, and what the waiter read of that.
   */
  datatype Flow = Flow(read: nat, inHand: bool, taken: nat, waiting: bool, issued: nat, answered: nat, heard: nat)

  datatype Actor = Issuer | Waiter | Device

  const START := Flow(0, false, 0, false, 0, 0, 0)

  function Passed(s: Flow): int { s.read - Bit(s.inHand) }

  /** A process can move: there is something to read, and room for what it writes. */
  predicate Enabled(s: Flow, who: Actor, n: nat, cap: nat) {
    match who
    case Issuer => if s.inHand then Passed(s) - s.taken < cap else s.read < n
    case Waiter => if s.waiting then s.heard < s.answered else s.taken < Passed(s) && s.taken < n
    case Device => s.answered < s.issued
  }

  function Move(s: Flow, who: Actor, es: seq<Element>): Flow
    requires who.Issuer? && !s.inHand ==> s.read < |es|
    requires who.Waiter? && !s.waiting ==> s.taken < |es|
  {
    match who
    case Issuer =>
      if s.inHand then s.(inHand := false)
      else s.(inHand := true, read := s.read + 1, issued := s.issued + Bit(Issues(es[s.read])))
    case Waiter =>
      if s.waiting then s.(waiting := false, heard := s.heard + 1)
      else s.(waiting := es[s.taken].kind.NVMe?, taken := s.taken + 1)
    case Device => s.(answered := s.answered + 1)
  }

  predicate Finished(s: Flow, n: nat) { s.read == n && !s.inHand && s.taken == n && !s.waiting }

  ghost predicate Inv(s: Flow, es: seq<Element>) {
    && s.taken <= Passed(s) <= s.read <= |es|
    && s.issued == Issuing(es[..s.read])
    && s.heard + Bit(s.waiting) == Awaiting(es[..s.taken])
    && s.heard <= s.answered <= s.issued
  }

  /** Steps taken: elements that are not waited for skip one. */
  function Work(s: Flow): int {
    2 * s.read - Bit(s.inHand) + 2 * s.taken - Bit(s.waiting) + s.answered
  }

  lemma {:induction false} InvKept(s: Flow, who: Actor, es: seq<Element>, cap: nat)
    requires Inv(s, es) && Enabled(s, who, |es|, cap)
    ensures Inv(Move(s, who, es), es)
    ensures Work(s) < Work(Move(s, who, es))
  {
    if who.Issuer? && !s.inHand { assert es[..s.read + 1][..s.read] == es[..s.read]; }
    if who.Waiter? && !s.waiting { assert es[..s.taken + 1][..s.taken] == es[..s.taken]; }
  }

  lemma {:induction false} CountsBounded(es: seq<Element>)
    ensures Issuing(es) <= |es|
  {
    if es == [] {
    } else {
      CountsBounded(es[..|es| - 1]);
    }
  }

  // ---- Every schedule ---------------------------------------------------------------------

  ghost predicate StepAt(ss: seq<Flow>, ws: seq<Actor>, es: seq<Element>, cap: nat, k: nat) {
    && k < |ws| && |ss| == |ws| + 1
    && Enabled(ss[k], ws[k], |es|, cap) && ss[k + 1] == Move(ss[k], ws[k], es)
  }

  ghost predicate IsRun(ss: seq<Flow>, ws: seq<Actor>, es: seq<Element>, cap: nat) {
    && |ss| == |ws| + 1 && ss[0] == START
    && forall k: nat {:trigger StepAt(ss, ws, es, cap, k)} ::
      k < |ws| ==> StepAt(ss, ws, es, cap, k)
  }

  lemma {:induction false} RunInv(ss: seq<Flow>, ws: seq<Actor>, es: seq<Element>, cap: nat, k: nat)
    requires IsRun(ss, ws, es, cap) && k <= |ws|
    ensures Inv(ss[k], es) && k <= Work(ss[k]) <= 5 * |es|
  {
    if k == 0 {
      assert es[..0] == [];
    } else {
      RunInv(ss, ws, es, cap, k - 1);
      assert StepAt(ss, ws, es, cap, k - 1);
      InvKept(ss[k - 1], ws[k - 1], es, cap);
    }
    CountsBounded(es[..ss[k].read]);
  }

  /** Where nothing moves, either all is done or the waiter waits for a response nobody will send. */
  lemma {:induction false} StuckIff(s: Flow, es: seq<Element>, cap: nat)
    requires Inv(s, es) && cap >= 1 && forall who :: !Enabled(s, who, |es|, cap)
    ensures Finished(s, |es|) <==> Issuing(es) == Awaiting(es)
    ensures !Finished(s, |es|) ==> s.waiting && s.heard == s.answered == s.issued
  {
    assert !Enabled(s, Issuer, |es|, cap) && !Enabled(s, Waiter, |es|, cap) && !Enabled(s, Device, |es|, cap);
    assert es[..|es|] == es;
    ResponsesMatchCommandsIff(es);
    if s.waiting {
      DeficitGrows(es, s.taken, s.read);
      DeficitGrows(es, s.read, |es|);
    }
  }

  /**
   Under every schedule and capacity the write-back comes to rest within five steps per element,
   and both processes are through then exactly when every NVMe element has a size; otherwise the
   second one is left waiting although everything issued was answered.
   */
  lemma {:induction false} FinishesIff(ss: seq<Flow>, ws: seq<Actor>, es: seq<Element>, cap: nat)
    requires OneTransfer(es) && cap >= 1 && IsRun(ss, ws, es, cap)
    ensures |ws| <= 5 * |es|
    ensures (forall who :: !Enabled(ss[|ws|], who, |es|, cap)) ==>
      && (Finished(ss[|ws|], |es|) <==> forall k :: 0 <= k < |es| && es[k].kind.NVMe? ==> es[k].size > 0)
      && (!Finished(ss[|ws|], |es|) ==> ss[|ws|].waiting && ss[|ws|].heard == ss[|ws|].issued)
  {
    RunInv(ss, ws, es, cap, |ws|);
    ResponsesMatchCommandsIff(es);
    if forall who :: !Enabled(ss[|ws|], who, |es|, cap) { StuckIff(ss[|ws|], es, cap); }
  }

  /** The packet ends before status k. */
  ghost predicate EndsBefore(sts: seq<Status>, k: nat) {
    exists j :: 0 <= j < k && j < |sts| && sts[j].endOfPacket
  }

  /** No NVMe element comes after a status that ends the packet. */
  ghost predicate NoneBehindTheEnd(input: seq<Element>, sts: seq<Status>) {
    forall k: nat :: k < |input| && EndsBefore(sts, k) ==> !input[k].kind.NVMe?
  }

  /** Elements are behind the end exactly if the transfer issued no command for them. */
  lemma {:induction false} BehindTheEnd(input: seq<Element>, sts: seq<Status>, k: nat)
    requires k < |input| <= |sts|
    ensures |Loop(input, sts, |input|).commands| <= k <==> EndsBefore(sts, k)
  {
    var r := Loop(input, sts, |input|);
    LoopMeaning(input, sts, |input|);
    if |r.commands| <= k { assert sts[|r.commands| - 1].endOfPacket; }
  }

  /**
   Behind a stream transfer whose elements all have a size: the write-back gets through exactly
   when no NVMe element comes after a status that ends the packet.
   */
  lemma {:induction false} WriteBackFinishesIff(
      input: seq<Element>, sts: seq<Status>, ss: seq<Flow>, ws: seq<Actor>, cap: nat)
    requires OneTransfer(input) && |input| <= |sts| && cap >= 1
    requires forall k :: 0 <= k < |input| ==> input[k].size > 0
    requires IsRun(ss, ws, Loop(input, sts, |input|).output, cap)
    requires forall who :: !Enabled(ss[|ws|], who, |input|, cap)
    ensures Finished(ss[|ws|], |input|) <==> NoneBehindTheEnd(input, sts)
  {
    var r := Loop(input, sts, |input|);
    LoopMeaning(input, sts, |input|);
    var es := r.output;
    assert forall k :: 0 <= k < |es| ==> es[k].last == input[k].last && es[k].kind == input[k].kind;
    assert forall k :: 0 <= k < |es| ==> (es[k].size > 0 <==> k < |r.commands|);
    FinishesIff(ss, ws, es, cap);
    forall k: nat | k < |input| ensures |r.commands| <= k <==> EndsBefore(sts, k) { BehindTheEnd(input, sts, k); }
  }

  /** A packet that ends in the first of two NVMe blocks: the second response is awaited for ever. */
  lemma {:induction false} ShortPacketStalls(a: nat, b: nat, ss: seq<Flow>, ws: seq<Actor>, cap: nat)
    requires cap >= 1
    requires var input := [Element(a, 262144, NVMe, false), Element(b, 262144, NVMe, true)];
      IsRun(ss, ws, Loop(input, [Status(8, true), Status(0, false)], 2).output, cap)
    requires forall who :: !Enabled(ss[|ws|], who, 2, cap)
    ensures ss[|ws|].waiting && !Finished(ss[|ws|], 2)
  {
    var input := [Element(a, 262144, NVMe, false), Element(b, 262144, NVMe, true)];
    var sts := [Status(8, true), Status(0, false)];
    assert sts[0].endOfPacket && EndsBefore(sts, 1) && input[1].kind.NVMe?;
    WriteBackFinishesIff(input, sts, ss, ws, cap);
    RunInv(ss, ws, Loop(input, sts, 2).output, cap, |ws|);
    StuckIff(ss[|ws|], Loop(input, sts, 2).output, cap);
  }
}
