/**
 When exactly the two sides of the protocol can be in the same output half at once: the agent
 switches halves only for outputs that are not empty, the driver for all of them.
 */
module OutputClash {
  import opened Basics
  import opened DoubleBuffer

  ghost predicate Reachable(c: Session, s: State) {
    exists ss: seq<State>, acts: seq<Act> :: IsRun(c, ss, acts) && ss[|acts|] == s
  }

  /** The agent writes out the half that the pipeline is writing to. */
  predicate Clash(s: State) {
    (s.a.pc, s.d.pc, s.a.outHalf) == (Printing, Running, s.d.outHalf) && s.a.response.size > 0
  }

  lemma {:induction false} StepReachable(c: Session, s: State, act: Act)
    requires Reachable(c, s) && Can(c, s, act)
    ensures Reachable(c, Do(c, s, act))
  {
    var ss: seq<State>, acts: seq<Act> :| IsRun(c, ss, acts) && ss[|acts|] == s;
    var ss', acts' := ss + [Do(c, s, act)], acts + [act];
    forall k: nat | k < |acts'| ensures StepAt(c, ss', acts', k) {
      if k < |acts| { assert StepAt(c, ss, acts, k); }
    }
    assert IsRun(c, ss', acts') && ss'[|acts'|] == Do(c, s, act);
  }

  lemma {:induction false} ReachableInv(c: Session, s: State)
    requires WellFormed(c) && Reachable(c, s)
    ensures FullInv(c, s)
  {
    var ss: seq<State>, acts: seq<Act> :| IsRun(c, ss, acts) && ss[|acts|] == s;
    RunInv(c, ss, acts, |acts|);
  }

  /** Request k was sent and not yet received; the agent is about to deal with response k - 1. */
  ghost predicate Requested(c: Session, s: State, k: nat) {
    Reachable(c, s) && (s.a.pc, s.a.heard, s.a.sent, s.d.pc, s.d.replied) == (Printing, k, k + 1, Receiving, k)
  }

  lemma {:induction false} DriverReplies(c: Session, s: State, k: nat) returns (s': State)
    requires WellFormed(c) && Reachable(c, s) && k < |c.rounds|
    requires s.a.pc.Waiting? && s.a.heard == k && s.d.pc.Receiving? && s.d.replied == k && s.requests != []
    ensures Reachable(c, s')
    ensures (s'.a, s'.d.replied, |s'.responses|) == (s.a, k + 1, |s.responses| + 1)
  {
    ReachableInv(c, s);
    StepReachable(c, s, DoReceive);
    s' := Receive(c, s);
    StepReachable(c, s', DoRun);
    s' := Run(c, s');
    StepReachable(c, s', DoReply);
    s' := Reply(c, s');
  }

  /** The agent prints and reads ahead, the driver serves the request, the agent hears of it and goes on. */
  lemma {:induction false} NextRequested(c: Session, s: State, k: nat) returns (s': State)
    requires WellFormed(c) && Requested(c, s, k) && k + 1 < |c.rounds|
    ensures Requested(c, s', k + 1)
  {
    ReachableInv(c, s);
    StepReachable(c, s, DoPrint);
    s' := Print(c, s);
    if s'.a.pc.Reading? {
      ReachableInv(c, s');
      StepReachable(c, s', DoRead);
      s' := Read(c, s');
    }
    s' := DriverReplies(c, s', k);
    StepReachable(c, s', DoHear);
    s' := Hear(s');
    ReachableInv(c, s');
    StepReachable(c, s', DoSend);
    s' := Send(s');
  }

  lemma {:induction false} EveryRoundRequested(c: Session, k: nat) returns (s: State)
    requires WellFormed(c) && k < |c.rounds|
    ensures Requested(c, s, k)
  {
    if k == 0 {
      s := Start(c);
      assert IsRun(c, [s], []);
      if c.hasIn {
        StepReachable(c, s, DoRead);
        s := Read(c, s);
      }
      StepReachable(c, s, DoSend);
      s := Send(s);
    } else {
      s := EveryRoundRequested(c, k - 1);
      s := NextRequested(c, s, k - 1);
    }
  }

  /** An output out of step, with a round to follow, meets the pipeline of that round. */
  lemma {:induction false} OutOfStepClashes(c: Session, k: nat)
    requires WellFormed(c) && c.hasOut && k + 1 < |c.rounds| && !InStep(c.outs, k)
    ensures exists s :: Reachable(c, s) && Clash(s)
  {
    var s := EveryRoundRequested(c, k + 1);
    ReachableInv(c, s);
    StepReachable(c, s, DoReceive);
    s := Receive(c, s);
    ReachableInv(c, s);
    ClashIff(c, s);
    assert Reachable(c, s) && Clash(s);
  }

  /** Some interleaving clashes exactly if some output before the last is out of step. */
  lemma {:induction false} NeverClashesIff(c: Session)
    requires WellFormed(c) && c.hasOut
    ensures (forall s :: Reachable(c, s) ==> !Clash(s)) <==>
            (forall k: nat {:trigger InStep(c.outs, k)} :: k + 1 < |c.outs| ==> InStep(c.outs, k))
  {
    forall s | Reachable(c, s) && Clash(s)
      ensures 0 < s.a.heard < |c.outs| && !InStep(c.outs, s.a.heard - 1)
    {
      ReachableInv(c, s);
      ClashIff(c, s);
    }
    forall k: nat | k + 1 < |c.outs| && !InStep(c.outs, k) ensures exists s :: Reachable(c, s) && Clash(s) {
      OutOfStepClashes(c, k);
    }
  }

  /** Output, nothing, output, output: the third is written out while the fourth goes to its half. */
  lemma {:induction false} EmptyOutputClashes(c: Session)
    requires WellFormed(c) && c.hasOut && c.outs == [[1], [], [2], [3]]
    ensures exists s :: Reachable(c, s) && Clash(s)
  {
    assert c.outs[0] != [] && c.outs[1] == [] && c.outs[2] != [];
    assert Zeros(c.outs, 1) == 0;
    assert Zeros(c.outs, 2) == 1;
    OutOfStepClashes(c, 2);
  }
}
