// What holds in every state that a legal client can reach, and exactly when
// the library panics.
module Runs {
  import opened Scheduler
  import opened Invariant

  // ---------- conservation ----------

  function RunWaits(s: State, w: Waits, ops: seq<Op>): Waits
    requires InRange(s) && LegalRun(s, ops)
    decreases |ops|
  {
    if ops == [] || Apply(s, ops[0]).report.Panicked? then w
    else RunWaits(Apply(s, ops[0]).state, NextWaits(s, w, ops[0]), ops[1..])
  }

  // Every legal run ends in a panic or in a state with the invariant. As every
  // prefix of a legal run is a legal run, this is about every reachable state.
  lemma {:induction false} RunKeepsInv(s: State, w: Waits, ops: seq<Op>)
    requires Inv(s, w) && LegalRun(s, ops)
    ensures Run(s, ops).report.Panicked? || Inv(Run(s, ops).state, RunWaits(s, w, ops))
    decreases |ops|
  {
    if ops != [] && !Apply(s, ops[0]).report.Panicked? {
      StepKeepsInv(s, w, ops[0]);
      RunKeepsInv(Apply(s, ops[0]).state, NextWaits(s, w, ops[0]), ops[1..]);
    }
  }

  lemma {:induction false} StrictRunIsLegal(s: State, ops: seq<Op>)
    requires InRange(s) && StrictRun(s, ops)
    ensures LegalRun(s, ops)
    decreases |ops|
  {
    if ops != [] && !Apply(s, ops[0]).report.Panicked? {
      StrictRunIsLegal(Apply(s, ops[0]).state, ops[1..]);
    }
  }

  ghost predicate OnSomeList(w: Waits, h: int) {
    exists id :: Waiting(w, id, h)
  }

  // A handle is in exactly one place, and its state says in which.
  ghost predicate InItsPlace(s: State, w: Waits, h: int)
    requires 0 <= h < |s.tcbs|
  {
    var state := s.tcbs[h].state;
    && (state == Running <==> h == s.running)
    && (state == Ready <==> h in s.sched)
    && (state == NotActive <==> h in s.free)
    && (state == Blocked <==> OnSomeList(w, h))
  }

  // Nothing is listed twice and every handle is in its place.
  ghost predicate Partitioned(s: State, w: Waits) {
    && NoDup(s.sched) && NoDup(s.free) && Disjoint(w)
    && (forall h :: 0 <= h < |s.tcbs| ==> InItsPlace(s, w, h))
    && (forall h :: h in s.sched || h in s.free || OnSomeList(w, h) ==> 0 <= h < |s.tcbs|)
  }

  lemma StrictInvPartitions(s: State, w: Waits)
    requires StrictInv(s, w)
    ensures Partitioned(s, w)
  {
    forall h | 0 <= h < |s.tcbs| ensures InItsPlace(s, w, h) {
      assert h in s.sched ==> s.tcbs[h].state == Ready;
      if s.tcbs[h].state == Blocked {
        var id :| Waiting(w, id, h);
        assert OnSomeList(w, h);
      }
    }
  }

  lemma {:induction false} StrictRunConserves(s: State, w: Waits, ops: seq<Op>)
    requires StrictInv(s, w) && StrictRun(s, ops)
    ensures LegalRun(s, ops)
    ensures Run(s, ops).report.Panicked? ||
            (StrictInv(Run(s, ops).state, RunWaits(s, w, ops)) && Partitioned(Run(s, ops).state, RunWaits(s, w, ops)))
    decreases |ops|
  {
    StrictRunIsLegal(s, ops);
    if ops == [] {
      StrictInvPartitions(s, w);
    } else if !Apply(s, ops[0]).report.Panicked? {
      StepKeepsInv(s, w, ops[0]);
      StrictRunConserves(Apply(s, ops[0]).state, NextWaits(s, w, ops[0]), ops[1..]);
    }
  }

  // ---------- panics ----------

  // The panics of the guards on arguments and callers.
  predicate RejectionPanic(code: PanicCode) {
    code in {SpawnClientEntryIsNull, GenericInvalidHandle, DestroyAlreadyNotInitialised, DestroyCannotDestroyRoot,
             WaitOnChannelInvalidChannel, RecvNtfnFromNonRoot, RecvNtfnInvalidChannel}
  }

  // The panics that a full scheduling queue causes.
  predicate FullQueuePanic(code: PanicCode) {
    code in {SpawnCannotScheduleNew, YieldCannotScheduleCaller, SemSignalCannotScheduleCaller}
  }

  // The call is about to append to the scheduling queue.
  predicate Schedules(s: State, op: Op) {
    match op
    case Spawn(_, _) => s.free != []
    case Yield => true
    case Signal(_) | RecvNtfn(_) =>
      var id := Target(s, op);
      id in s.sems && !s.sems[id].isSet && s.sems[id].head != NULL_HANDLE
    case _ => false
  }

  // In the general regime a legal call panics exactly when a guard rejects it or
  // when it has to append to a full scheduling queue. In particular the queue
  // of free handles never overflows.
  lemma PanicsExactlyWhen(s: State, w: Waits, op: Op)
    requires Inv(s, w) && Legal(s, op)
    ensures Apply(s, op).report.Panicked? <==> Rejected(s, op) || (Schedules(s, op) && |s.sched| == |s.tcbs|)
    ensures Rejected(s, op) ==> RejectionPanic(Apply(s, op).report.code)
    ensures Apply(s, op).report.Panicked? && !Rejected(s, op) ==> FullQueuePanic(Apply(s, op).report.code)
  {
    FreeHasRoom(s, w);
  }

  // In the strict regime only rejected calls panic.
  lemma StrictPanicsExactlyWhen(s: State, w: Waits, op: Op)
    requires StrictInv(s, w) && LegalStrict(s, op)
    ensures Apply(s, op).report.Panicked? <==> Rejected(s, op)
  {
    PanicsExactlyWhen(s, w, op);
    SchedHasRoom(s, w);
  }

  // No run of a strict client ends in one of the library's internal panics.
  lemma {:induction false} StrictRunPanicsAreRejections(s: State, w: Waits, ops: seq<Op>)
    requires StrictInv(s, w) && StrictRun(s, ops)
    ensures LegalRun(s, ops)
    ensures Run(s, ops).report.Panicked? ==> RejectionPanic(Run(s, ops).report.code)
    decreases |ops|
  {
    StrictRunIsLegal(s, ops);
    if ops != [] {
      StrictPanicsExactlyWhen(s, w, ops[0]);
      PanicsExactlyWhen(s, w, ops[0]);
      if !Apply(s, ops[0]).report.Panicked? {
        StepKeepsInv(s, w, ops[0]);
        StrictRunPanicsAreRejections(Apply(s, ops[0]).state, NextWaits(s, w, ops[0]), ops[1..]);
      }
    }
  }

  // The ready threads among the entries of a queue, and the entries that are
  // stale: not ready, or a repetition.
  function ReadyIn(tcbs: seq<Tcb>, q: seq<int>): set<int> {
    if q == [] then {}
    else
      var h := q[|q| - 1];
      ReadyIn(tcbs, q[..|q| - 1]) + if 0 <= h < |tcbs| && tcbs[h].state == Ready then {h} else {}
  }

  function StaleEntries(tcbs: seq<Tcb>, q: seq<int>): nat {
    if q == [] then 0
    else
      var h := q[|q| - 1];
      var front := q[..|q| - 1];
      StaleEntries(tcbs, front)
      + if 0 <= h < |tcbs| && tcbs[h].state == Ready && h !in ReadyIn(tcbs, front) then 0 else 1
  }

  function WithState(tcbs: seq<Tcb>, state: CoState): set<int> {
    set h | h in Below(|tcbs|) && tcbs[h].state == state
  }

  lemma {:induction false} ReadyInMembers(tcbs: seq<Tcb>, q: seq<int>)
    ensures forall h :: h in ReadyIn(tcbs, q) <==> h in q && 0 <= h < |tcbs| && tcbs[h].state == Ready
  {
    if q != [] {
      var k := |q| - 1;
      ReadyInMembers(tcbs, q[..k]);
      assert q == q[..k] + [q[k]];
    }
  }

  lemma {:induction false} QueueLength(tcbs: seq<Tcb>, q: seq<int>)
    ensures |q| == |ReadyIn(tcbs, q)| + StaleEntries(tcbs, q)
  {
    if q != [] {
      var k := |q| - 1;
      QueueLength(tcbs, q[..k]);
      var h := q[k];
      if 0 <= h < |tcbs| && tcbs[h].state == Ready && h in ReadyIn(tcbs, q[..k]) {
        assert ReadyIn(tcbs, q[..k]) + {h} == ReadyIn(tcbs, q[..k]);
      }
    }
  }

  // Why a full queue is possible at all: it takes as many stale entries as
  // there are threads that are not ready. Stale.dfy bounds their number by the
  // destroys of other cothreads.
  lemma QueueFullExactlyWhen(s: State, w: Waits)
    requires Inv(s, w)
    ensures |s.sched| == |s.tcbs| <==>
            StaleEntries(s.tcbs, s.sched) == |s.tcbs| - |WithState(s.tcbs, Ready)|
    ensures SchedExact(s) ==> StaleEntries(s.tcbs, s.sched) == 0
  {
    QueueLength(s.tcbs, s.sched);
    ReadyInMembers(s.tcbs, s.sched);
    assert ReadyIn(s.tcbs, s.sched) == WithState(s.tcbs, Ready);
    if SchedExact(s) {
      ExactHasNoStale(s.tcbs, s.sched);
    }
  }

  lemma {:induction false} ExactHasNoStale(tcbs: seq<Tcb>, q: seq<int>)
    requires NoDup(q) && forall i :: 0 <= i < |q| ==> 0 <= q[i] < |tcbs| && tcbs[q[i]].state == Ready
    ensures StaleEntries(tcbs, q) == 0
  {
    if q != [] {
      var k := |q| - 1;
      ExactHasNoStale(tcbs, q[..k]);
      ReadyInMembers(tcbs, q[..k]);
    }
  }

  // The strict regime is needed: three threads, one of which destroys another
  // that is ready and reuses its handle, reach a full queue and panic.
  lemma StaleEntryCanPanicYield()
    ensures var s := InitialState(0, MINIMUM_STACK_SIZE, [0x1000, 0x2000], 8);
            var ops := [Spawn(1, 0)] + ([Spawn(1, 0)] + ([Yield] + ([Destroy(2)] + ([Spawn(1, 0)] + [Yield]))));
            && LegalRun(s, ops)
            && Run(s, ops).report == Panicked(YieldCannotScheduleCaller)
  {
    var s0 := InitialState(0, MINIMUM_STACK_SIZE, [0x1000, 0x2000], 8);
    var rest := [Yield] + ([Destroy(2)] + ([Spawn(1, 0)] + [Yield]));
    SpawnEffect(s0, 1, 0);
    var s1 := SpawnCall(s0, 1, 0).state;
    SpawnEffect(s1, 1, 0);
    var s2 := SpawnCall(s1, 1, 0).state;
    assert s2.sched == [1, 2] && s2.free == [];
    YieldThenPanics(s2);
    Prepend(s1, Spawn(1, 0), rest);
    Prepend(s0, Spawn(1, 0), [Spawn(1, 0)] + rest);
  }

  lemma YieldThenPanics(s: State)
    requires InRange(s) && |s.tcbs| == 3 && s.running == ROOT && s.sched == [1, 2] && s.free == []
    requires s.tcbs[1].state == s.tcbs[2].state == Ready
    ensures var ops := [Yield] + ([Destroy(2)] + ([Spawn(1, 0)] + [Yield]));
            LegalRun(s, ops) && Run(s, ops).report == Panicked(YieldCannotScheduleCaller)
  {
    YieldEffect(s);
    var s' := YieldCall(s).state;
    assert s'.sched == [2, 0];
    DestroyAndReusePanics(s');
    Prepend(s, Yield, [Destroy(2)] + ([Spawn(1, 0)] + [Yield]));
  }

  lemma DestroyAndReusePanics(s: State)
    requires InRange(s) && |s.tcbs| == 3 && s.running == 1 && s.sched == [2, 0] && s.free == [] && s.tcbs[2].state == Ready
    ensures var ops := [Destroy(2)] + ([Spawn(1, 0)] + [Yield]);
            LegalRun(s, ops) && Run(s, ops).report == Panicked(YieldCannotScheduleCaller)
  {
    var s' := Apply(s, Destroy(2)).state;
    assert s'.free == [2] && s'.sched == [2, 0] && s'.running == 1;
    SpawnEffect(s', 1, 0);
    var s'' := Apply(s', Spawn(1, 0)).state;
    assert s''.sched == [2, 0, 2];
    LastPanics(s'', YieldCannotScheduleCaller);
    Prepend(s', Spawn(1, 0), [Yield]);
    Prepend(s, Destroy(2), [Spawn(1, 0)] + [Yield]);
  }

  // A spawn that finds a free handle and room in the queue.
  lemma SpawnEffect(s: State, entry: nat, arg: int)
    requires InRange(s) && entry != 0 && s.free != [] && |s.sched| < |s.tcbs|
    ensures var r := SpawnCall(s, entry, arg);
            && r.report == Returned(s.free[0])
            && r.state.sched == s.sched + [s.free[0]] && r.state.free == s.free[1..]
            && r.state.running == s.running && |r.state.tcbs| == |s.tcbs|
            && r.state.tcbs[s.free[0]].state == Ready
            && (forall h :: 0 <= h < |s.tcbs| && h != s.free[0] ==> r.state.tcbs[h] == s.tcbs[h])
  {
  }

  // A yield whose scheduling queue starts with a ready thread.
  lemma YieldEffect(s: State)
    requires InRange(s) && s.sched != [] && |s.sched| < |s.tcbs|
    requires s.tcbs[s.sched[0]].state == Ready && s.sched[0] != s.running
    ensures var r := YieldCall(s);
            && r.report == Switched
            && r.state.sched == s.sched[1..] + [s.running] && r.state.free == s.free
            && r.state.running == s.sched[0] && |r.state.tcbs| == |s.tcbs|
            && r.state.tcbs[s.running].state == Ready && r.state.tcbs[s.sched[0]].state == Running
            && (forall h :: 0 <= h < |s.tcbs| && h != s.running && h != s.sched[0] ==> r.state.tcbs[h] == s.tcbs[h])
  {
    var p := ParkReady(s);
    assert Eligible(p.tcbs, p.sched[0]);
    assert FirstEligible(p.tcbs, p.sched) == 0;
    assert p.sched[1..] == s.sched[1..] + [s.running];
  }

  lemma LastPanics(s: State, code: PanicCode)
    requires InRange(s) && Apply(s, Yield).report == Panicked(code)
    ensures LegalRun(s, [Yield]) && Run(s, [Yield]).report == Panicked(code)
  {
  }

  lemma Prepend(s: State, op: Op, rest: seq<Op>)
    requires InRange(s) && Legal(s, op) && !Apply(s, op).report.Panicked?
    requires LegalRun(Apply(s, op).state, rest)
    ensures LegalRun(s, [op] + rest) && Run(s, [op] + rest) == Run(Apply(s, op).state, rest)
  {
    assert ([op] + rest)[1..] == rest;
  }

  // ---------- root ----------

  // The state that internal_go_next is given, when the call gets that far.
  function HandedOver(s: State, op: Op): (p: State)
    requires InRange(s) && Known(s, op) && Apply(s, op).report.Switched? && !IsSignal(op)
    ensures InRange(p)
  {
    if op.Yield? then ParkReady(s)
    else if op.Destroy? then Release(s, op.handle)
    else if op.Return? then Release(s, s.running)
    else ParkBlocked(s, Target(s, op))
  }

  // Root is queued exactly once whenever it is not running, and the scheduler
  // never comes back empty-handed.
  lemma RootIsRecoverable(s: State, w: Waits)
    requires Inv(s, w)
    ensures s.running != ROOT <==> ROOT in s.sched
    ensures forall i, j :: 0 <= i < |s.sched| && 0 <= j < |s.sched| && s.sched[i] == s.sched[j] == ROOT ==> i == j
  {
  }

  lemma SwitchIsGoNext(s: State, op: Op)
    requires InRange(s) && Known(s, op) && Apply(s, op).report.Switched? && !IsSignal(op)
    ensures InRange(HandedOver(s, op)) && Apply(s, op).state == GoNext(HandedOver(s, op))
  {
  }

  lemma HandedOverIs(s: State, op: Op)
    requires InRange(s) && Legal(s, op) && Apply(s, op).report.Switched? && !IsSignal(op)
    ensures |s.sched| < |s.tcbs| || !op.Yield?
    ensures if op.Yield? then HandedOver(s, op) == ParkReady(s)
            else if IsWait(op) then
              && Target(s, op) in s.sems && !s.sems[Target(s, op)].isSet && s.running != ROOT
              && HandedOver(s, op) == ParkBlocked(s, Target(s, op))
            else
              s.running != ROOT && |s.free| < |s.tcbs| && HandedOver(s, op) == Release(s, s.running)
  {
  }

  // What the scheduler is given has nobody running and root among the ready.
  lemma HandedOverParks(s: State, w: Waits, op: Op) returns (w': Waits)
    requires Inv(s, w) && Legal(s, op) && Apply(s, op).report.Switched? && !IsSignal(op)
    ensures Core(HandedOver(s, op), w', NULL_HANDLE)
  {
    HandedOverIs(s, op);
    w' := w;
    if op.Yield? {
      ParkReadyParks(s, w);
    } else if IsWait(op) {
      var id := Target(s, op);
      ParkBlockedParks(s, w, id);
      w' := w[id := w[id] + [s.running]];
    } else {
      ReleaseKeepsCore(s, w, s.running);
    }
  }

  lemma SchedulerAlwaysFinds(s: State, w: Waits, op: Op)
    requires Inv(s, w) && Legal(s, op) && Apply(s, op).report.Switched? && !IsSignal(op)
    ensures var p := HandedOver(s, op);
            && Apply(s, op).state == GoNext(p)
            && Choice(p.tcbs, p.sched) != NULL_HANDLE
  {
    SwitchIsGoNext(s, op);
    var w' := HandedOverParks(s, w, op);
    SomebodyEligible(HandedOver(s, op), w');
  }

  // ---------- whole runs ----------

  // In the general regime every run ends in a rejected call,
  // in a full scheduling queue, or in a state in which root is running or
  // queued exactly once, and the handle that runs is the one thread in state
  // running.
  lemma {:induction false} EveryRunEnds(s: State, w: Waits, ops: seq<Op>)
    requires Inv(s, w) && LegalRun(s, ops)
    ensures var r := Run(s, ops);
            if r.report.Panicked? then RejectionPanic(r.report.code) || FullQueuePanic(r.report.code)
            else
              && (r.state.running != ROOT <==> ROOT in r.state.sched)
              && (forall h :: 0 <= h < |r.state.tcbs| ==> (r.state.tcbs[h].state == Running <==> h == r.state.running))
    decreases |ops|
  {
    if ops == [] {
      RootIsRecoverable(s, w);
    } else {
      PanicsExactlyWhen(s, w, ops[0]);
      if !Apply(s, ops[0]).report.Panicked? {
        StepKeepsInv(s, w, ops[0]);
        EveryRunEnds(Apply(s, ops[0]).state, NextWaits(s, w, ops[0]), ops[1..]);
      }
    }
  }

  // In the strict regime, from init on.
  lemma StrictRunsFromInit(channels: nat, stackSize: nat, stacks: seq<nat>, rootHandle: int, ops: seq<Op>)
    requires 1 <= |stacks| && StrictRun(InitialState(channels, stackSize, stacks, rootHandle), ops)
    ensures var s := InitialState(channels, stackSize, stacks, rootHandle);
            && LegalRun(s, ops)
            && (var r := Run(s, ops);
                if r.report.Panicked? then RejectionPanic(r.report.code)
                else Partitioned(r.state, RunWaits(s, NoWaiters(channels), ops)))
  {
    var s := InitialState(channels, stackSize, stacks, rootHandle);
    InitialStateHasInv(channels, stackSize, stacks, rootHandle);
    StrictRunConserves(s, NoWaiters(channels), ops);
    StrictRunPanicsAreRejections(s, NoWaiters(channels), ops);
  }

  // ---------- logs ----------

  // Two stretches of a run, each of which turns "present, then put in" into
  // "taken out, then present", compose.
  lemma Splice(q: seq<int>, in1: seq<int>, out1: seq<int>, q': seq<int>, in2: seq<int>, out2: seq<int>, q'': seq<int>)
    requires q + in1 == out1 + q' && q' + in2 == out2 + q''
    ensures q + (in1 + in2) == (out1 + out2) + q''
  {
    assert q + (in1 + in2) == (q + in1) + in2;
    assert (out1 + q') + in2 == out1 + (q' + in2);
    assert out1 + (out2 + q'') == (out1 + out2) + q'';
  }
}
