// How many stale entries a run can leave in the scheduling queue, and hence how
// many destroys it takes until the queue can be full.
module Stale {
  import opened Scheduler
  import opened Invariant
  import opened Runs

  // The calls of a run that destroy another cothread.
  function OthersDestroyed(s: State, ops: seq<Op>): nat
    requires InRange(s) && LegalRun(s, ops)
    decreases |ops|
  {
    if ops == [] || Apply(s, ops[0]).report.Panicked? then 0
    else (if DestroysOther(s, ops[0]) then 1 else 0) + OthersDestroyed(Apply(s, ops[0]).state, ops[1..])
  }

  predicate DestroysOther(s: State, op: Op) {
    op.Destroy? && op.handle != s.running
  }

  function Excess(s: State): int {
    |s.sched| - |WithState(s.tcbs, Ready)|
  }

  lemma ExcessIsStale(s: State, w: Waits)
    requires Inv(s, w)
    ensures StaleEntries(s.tcbs, s.sched) == Excess(s)
  {
    QueueLength(s.tcbs, s.sched);
    ReadyInMembers(s.tcbs, s.sched);
    assert ReadyIn(s.tcbs, s.sched) == WithState(s.tcbs, Ready);
  }

  // ---------- one call ----------

  lemma BecomesReady(tcbs: seq<Tcb>, tcbs': seq<Tcb>, h: int)
    requires 0 <= h < |tcbs| == |tcbs'| && tcbs[h].state != Ready && tcbs'[h].state == Ready
    requires forall g :: 0 <= g < |tcbs| && g != h ==> (tcbs'[g].state == Ready <==> tcbs[g].state == Ready)
    ensures |WithState(tcbs', Ready)| == |WithState(tcbs, Ready)| + 1
  {
    assert WithState(tcbs', Ready) == WithState(tcbs, Ready) + {h};
  }

  lemma StaysUnready(tcbs: seq<Tcb>, tcbs': seq<Tcb>)
    requires |tcbs| == |tcbs'|
    requires forall g :: 0 <= g < |tcbs| ==> (tcbs'[g].state == Ready <==> tcbs[g].state == Ready)
    ensures WithState(tcbs', Ready) == WithState(tcbs, Ready)
  {
  }

  // The scheduler takes one ready thread and at least its entry away.
  lemma GoNextExcess(p: State, w: Waits)
    requires Core(p, w, NULL_HANDLE)
    ensures Excess(GoNext(p)) <= Excess(p)
  {
    SomebodyEligible(p, w);
    var s' := GoNext(p);
    BecomesReady(s'.tcbs, p.tcbs, s'.running);
  }

  lemma ParkReadyExcess(s: State, w: Waits)
    requires Inv(s, w) && |s.sched| < |s.tcbs|
    ensures Excess(ParkReady(s)) == Excess(s)
  {
    BecomesReady(s.tcbs, ParkReady(s).tcbs, s.running);
  }

  lemma ParkBlockedExcess(s: State, w: Waits, id: nat)
    requires Inv(s, w) && id in s.sems && !s.sems[id].isSet
    ensures Excess(ParkBlocked(s, id)) == Excess(s)
  {
    ParkBlockedStates(s, w, id);
    StaysUnready(s.tcbs, ParkBlocked(s, id).tcbs);
  }

  lemma ReleaseExcess(s: State, w: Waits)
    requires Inv(s, w) && |s.free| < |s.tcbs|
    ensures Excess(Release(s, s.running)) == Excess(s)
  {
    StaysUnready(s.tcbs, Release(s, s.running).tcbs);
  }

  lemma HandedOverExcess(s: State, w: Waits, op: Op)
    requires Inv(s, w) && Legal(s, op) && Apply(s, op).report.Switched? && !IsSignal(op)
    ensures Excess(HandedOver(s, op)) == Excess(s)
  {
    HandedOverIs(s, op);
    if op.Yield? {
      ParkReadyExcess(s, w);
    } else if IsWait(op) {
      ParkBlockedExcess(s, w, Target(s, op));
    } else {
      ReleaseExcess(s, w);
    }
  }

  lemma WakeExcess(s: State, w: Waits, id: nat)
    requires Wakes(s, w, id)
    ensures Excess(SignalCall(s, id).state) == Excess(s)
  {
    SignalStates(s, w, id);
    BecomesReady(s.tcbs, SignalCall(s, id).state.tcbs, s.running);
  }

  lemma SignalExcess(s: State, w: Waits, op: Op)
    requires Inv(s, w) && Legal(s, op) && IsSignal(op) && !Apply(s, op).report.Panicked?
    ensures Excess(Apply(s, op).state) == Excess(s)
  {
    SignalIs(s, op);
    var id := Target(s, op);
    if !s.sems[id].isSet && w[id] != [] {
      WakeExcess(s, w, id);
    }
  }

  lemma QuietExcess(s: State, w: Waits, op: Op)
    requires Inv(s, w) && Legal(s, op) && Apply(s, op).report.Returned? && !IsSignal(op)
    ensures Excess(Apply(s, op).state) == Excess(s) + if DestroysOther(s, op) then 1 else 0
  {
    var s' := Apply(s, op).state;
    if op.Spawn? && s.free != [] {
      assert s.free[0] in s.free;
      BecomesReady(s.tcbs, s'.tcbs, s.free[0]);
    } else if op.Destroy? {
      BecomesReady(s'.tcbs, s.tcbs, op.handle);
    } else {
      assert s'.tcbs == s.tcbs && s'.sched == s.sched;
    }
  }

  // Only a destroy of another cothread makes an entry stale, and it makes one.
  lemma StepExcess(s: State, w: Waits, op: Op)
    requires Inv(s, w) && Legal(s, op) && !Apply(s, op).report.Panicked?
    ensures Excess(Apply(s, op).state) <= Excess(s) + if DestroysOther(s, op) then 1 else 0
  {
    if IsSignal(op) {
      SignalExcess(s, w, op);
    } else if Apply(s, op).report.Switched? {
      SwitchIsGoNext(s, op);
      var w' := HandedOverParks(s, w, op);
      HandedOverExcess(s, w, op);
      GoNextExcess(HandedOver(s, op), w');
    } else {
      QuietExcess(s, w, op);
    }
  }

  // ---------- runs ----------

  lemma {:induction false} StaleEntriesBounded(s: State, w: Waits, ops: seq<Op>)
    requires Inv(s, w) && LegalRun(s, ops) && !Run(s, ops).report.Panicked?
    ensures StaleEntries(Run(s, ops).state.tcbs, Run(s, ops).state.sched)
            <= StaleEntries(s.tcbs, s.sched) + OthersDestroyed(s, ops)
    decreases |ops|
  {
    if ops != [] {
      var s', w' := Apply(s, ops[0]).state, NextWaits(s, w, ops[0]);
      StepKeepsInv(s, w, ops[0]);
      StepExcess(s, w, ops[0]);
      ExcessIsStale(s, w);
      ExcessIsStale(s', w');
      StaleEntriesBounded(s', w', ops[1..]);
    }
  }

  // A client that counts its calls knows when the queue cannot be full: it takes
  // a destroy of another cothread for every thread that is not ready.
  lemma FullQueueNeedsDestroys(channels: nat, stackSize: nat, stacks: seq<nat>, rootHandle: int, ops: seq<Op>)
    requires 1 <= |stacks|
    requires var s := InitialState(channels, stackSize, stacks, rootHandle);
             LegalRun(s, ops) && !Run(s, ops).report.Panicked?
    ensures var s := InitialState(channels, stackSize, stacks, rootHandle);
            var s' := Run(s, ops).state;
            |s'.sched| == |s'.tcbs| ==> |s'.tcbs| - |WithState(s'.tcbs, Ready)| <= OthersDestroyed(s, ops)
  {
    var s, w := InitialState(channels, stackSize, stacks, rootHandle), NoWaiters(channels);
    InitialStateHasInv(channels, stackSize, stacks, rootHandle);
    StaleEntriesBounded(s, w, ops);
    RunKeepsInv(s, w, ops);
    QueueFullExactlyWhen(Run(s, ops).state, RunWaits(s, w, ops));
  }

  // So a run that ends in a full queue has destroyed another cothread.
  lemma {:induction false} FullQueuePanicNeedsDestroy(s: State, w: Waits, ops: seq<Op>)
    requires StrictInv(s, w) && LegalRun(s, ops) && Run(s, ops).report.Panicked?
    ensures FullQueuePanic(Run(s, ops).report.code) ==> OthersDestroyed(s, ops) > 0
    decreases |ops|
  {
    if ops != [] {
      PanicsExactlyWhen(s, w, ops[0]);
      SchedHasRoom(s, w);
      if !Apply(s, ops[0]).report.Panicked? && !DestroysOther(s, ops[0]) {
        StepKeepsInv(s, w, ops[0]);
        FullQueuePanicNeedsDestroy(Apply(s, ops[0]).state, NextWaits(s, w, ops[0]), ops[1..]);
      }
    }
  }
}
