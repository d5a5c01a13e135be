// A destroyed cothread never runs again, even though its handle may be reused
// while a stale entry for it is still queued.
//
// A handle's incarnations are numbered by the spawns that returned it. The
// controller does not store these numbers, nor the point at which a suspended
// thread continues; both are kept beside the controller here.
module Incarnations {
  import opened Scheduler
  import opened Invariant
  import opened Runs

  // Where a thread continues when control is transferred to it: at its entry
  // point, behind the call that suspended it, or behind the destroy with which
  // it ended itself, where cothread_entry_wrapper panics.
  datatype Resume = AtEntry | AfterCall | AfterDestroy

  datatype Lives = Lives(incarnation: seq<nat>, ended: set<(int, nat)>, resume: seq<Resume>)

  function EndsItself(s: State, op: Op): bool {
    op.Return? || op == Destroy(s.running)
  }

  function Subject(s: State, op: Op): int {
    match op
    case Destroy(h) => h
    case Return => s.running
    case _ => NULL_HANDLE
  }

  ghost predicate Sized(s: State, l: Lives) {
    InRange(s) && |l.incarnation| == |l.resume| == |s.tcbs|
  }

  lemma WaitKeepsSize(s: State, id: nat)
    requires InRange(s) && id in s.sems
    ensures |WaitCall(s, id).state.tcbs| == |s.tcbs|
  {
  }

  lemma SignalKeepsSize(s: State, id: nat)
    requires InRange(s) && id in s.sems
    ensures |SignalCall(s, id).state.tcbs| == |s.tcbs|
  {
  }

  lemma StepKeepsSize(s: State, op: Op)
    requires InRange(s) && Known(s, op)
    ensures |Apply(s, op).state.tcbs| == |s.tcbs|
  {
    var id := Target(s, op);
    if id in s.sems {
      WaitKeepsSize(s, id);
      SignalKeepsSize(s, id);
    }
  }

  function NextLives(s: State, l: Lives, op: Op): (l': Lives)
    requires Sized(s, l) && Known(s, op) && !Apply(s, op).report.Panicked?
    ensures |l'.incarnation| == |l'.resume| == |s.tcbs|
  {
    var dead := Subject(s, op);
    var ended := l.ended + if ValidHandle(s, dead) then {(dead, l.incarnation[dead])} else {};
    if op.Spawn? && s.free != [] then
      var h := s.free[0];
      Lives(l.incarnation[h := l.incarnation[h] + 1], ended, l.resume[h := AtEntry])
    else if Apply(s, op).report.Switched? then
      Lives(l.incarnation, ended, l.resume[s.running := if EndsItself(s, op) then AfterDestroy else AfterCall])
    else
      Lives(l.incarnation, ended, l.resume)
  }

  // The current incarnation of every active handle is alive, and no suspended
  // active thread would continue behind a destroy of itself.
  ghost predicate Alive(s: State, l: Lives, h: int)
    requires Sized(s, l) && ValidHandle(s, h)
  {
    (h, l.incarnation[h]) !in l.ended && (h != s.running ==> l.resume[h] != AfterDestroy)
  }

  ghost predicate LivesInv(s: State, l: Lives) {
    && Sized(s, l)
    && (forall h :: ValidHandle(s, h) && s.tcbs[h].state != NotActive ==> Alive(s, l, h))
    && (forall h, i :: (h, i) in l.ended && ValidHandle(s, h) ==> i <= l.incarnation[h])
  }

  // What must be true whenever control is transferred.
  ghost predicate TransferIsSound(s: State, l: Lives)
    requires Sized(s, l)
  {
    (s.running, l.incarnation[s.running]) !in l.ended && l.resume[s.running] != AfterDestroy
  }

  lemma HandedOverInactive(s: State, op: Op, h: int)
    requires InRange(s) && Known(s, op) && Apply(s, op).report.Switched? && !IsSignal(op)
    requires ValidHandle(s, h) && s.tcbs[h].state == NotActive && h != s.running
    ensures |HandedOver(s, op).tcbs| == |s.tcbs| && HandedOver(s, op).tcbs[h].state == NotActive
  {
  }

  lemma GoNextInactive(p: State, h: int)
    requires InRange(p) && ValidHandle(p, h) && p.tcbs[h].state == NotActive && h != ROOT
    ensures |GoNext(p).tcbs| == |p.tcbs| && GoNext(p).tcbs[h].state == NotActive
  {
  }

  lemma QuietInactive(s: State, op: Op, h: int)
    requires InRange(s) && Known(s, op) && Apply(s, op).report.Returned?
    requires ValidHandle(s, h) && s.tcbs[h].state == NotActive && !(op.Spawn? && s.free != [] && h == s.free[0])
    ensures |Apply(s, op).state.tcbs| == |s.tcbs| && Apply(s, op).state.tcbs[h].state == NotActive
  {
  }

  // An active handle was active before, or this call spawned it.
  lemma OnlySpawnActivates(s: State, w: Waits, op: Op, h: int)
    requires Inv(s, w) && Legal(s, op) && !Apply(s, op).report.Panicked?
    requires ValidHandle(s, h) && s.tcbs[h].state == NotActive && !(op.Spawn? && s.free != [] && h == s.free[0])
    ensures |Apply(s, op).state.tcbs| == |s.tcbs| && Apply(s, op).state.tcbs[h].state == NotActive
  {
    if Apply(s, op).report.Returned? {
      QuietInactive(s, op, h);
    } else if IsSignal(op) {
      SignalIs(s, op);
      SignalStates(s, w, Target(s, op));
    } else {
      SwitchIsGoNext(s, op);
      HandedOverInactive(s, op, h);
      GoNextInactive(HandedOver(s, op), h);
    }
  }

  // The subject of a destroy is not active afterwards.
  lemma SubjectIsInactive(s: State, w: Waits, op: Op)
    requires Inv(s, w) && Legal(s, op) && !Apply(s, op).report.Panicked? && (op.Destroy? || op.Return?)
    ensures ValidHandle(s, Subject(s, op)) && |Apply(s, op).state.tcbs| == |s.tcbs|
    ensures Apply(s, op).state.tcbs[Subject(s, op)].state == NotActive
  {
    if Apply(s, op).report.Switched? {
      SwitchIsGoNext(s, op);
      GoNextInactive(HandedOver(s, op), Subject(s, op));
    }
  }

  lemma StepKeepsLives(s: State, w: Waits, l: Lives, op: Op)
    requires Inv(s, w) && LivesInv(s, l) && Legal(s, op) && !Apply(s, op).report.Panicked?
    ensures LivesInv(Apply(s, op).state, NextLives(s, l, op))
    ensures Apply(s, op).report.Switched? ==> TransferIsSound(Apply(s, op).state, NextLives(s, l, op))
  {
    var s', l' := Apply(s, op).state, NextLives(s, l, op);
    StepKeepsSize(s, op);
    forall h | ValidHandle(s', h) && s'.tcbs[h].state != NotActive ensures Alive(s', l', h) {
      StepKeepsAlive(s, w, l, op, h);
    }
    if Apply(s, op).report.Switched? {
      StepKeepsInv(s, w, op);
      SwitchIsSound(s, w, l, op);
    }
  }

  lemma QuietKeepsRunning(s: State, op: Op)
    requires InRange(s) && Known(s, op) && Apply(s, op).report.Returned?
    ensures Apply(s, op).state.running == s.running
  {
  }

  // Unless it was spawned just now, an active handle is the same incarnation
  // as before and not among those that ended.
  lemma StepKeepsAlive(s: State, w: Waits, l: Lives, op: Op, h: int)
    requires Inv(s, w) && LivesInv(s, l) && Legal(s, op) && !Apply(s, op).report.Panicked?
    requires |Apply(s, op).state.tcbs| == |s.tcbs| && ValidHandle(s, h) && Apply(s, op).state.tcbs[h].state != NotActive
    ensures Alive(Apply(s, op).state, NextLives(s, l, op), h)
  {
    if op.Destroy? || op.Return? { SubjectIsInactive(s, w, op); }
    if op.Spawn? && s.free != [] && h == s.free[0] {
    } else {
      if s.tcbs[h].state == NotActive { OnlySpawnActivates(s, w, op, h); }
      assert Alive(s, l, h);
      if Apply(s, op).report.Returned? { QuietKeepsRunning(s, op); }
      OldLives(s, l, op, h);
    }
  }

  lemma OldLives(s: State, l: Lives, op: Op, h: int)
    requires Sized(s, l) && Known(s, op) && !Apply(s, op).report.Panicked?
    requires ValidHandle(s, h) && !(op.Spawn? && s.free != [] && h == s.free[0])
    ensures var l' := NextLives(s, l, op);
            && l'.incarnation[h] == l.incarnation[h]
            && ((h, l.incarnation[h]) in l'.ended ==> (h, l.incarnation[h]) in l.ended || h == Subject(s, op))
            && (h != s.running ==> l'.resume[h] == l.resume[h])
            && (h == s.running && Apply(s, op).report.Switched? && !EndsItself(s, op) ==> l'.resume[h] == AfterCall)
  {
  }

  lemma SwitchIsSound(s: State, w: Waits, l: Lives, op: Op)
    requires Inv(s, w) && LivesInv(s, l) && Legal(s, op) && Apply(s, op).report.Switched?
    requires Inv(Apply(s, op).state, NextWaits(s, w, op)) && |Apply(s, op).state.tcbs| == |s.tcbs|
    ensures TransferIsSound(Apply(s, op).state, NextLives(s, l, op))
  {
    var s' := Apply(s, op).state;
    StepKeepsAlive(s, w, l, op, s'.running);
    if s.tcbs[s'.running].state == NotActive { OnlySpawnActivates(s, w, op, s'.running); }
    assert Alive(s, l, s'.running);
    if op.Destroy? || op.Return? { SubjectIsInactive(s, w, op); }
  }

  // ---------- runs ----------

  // Every transfer of control during the run is sound.
  ghost predicate AllTransfersSound(s: State, l: Lives, ops: seq<Op>)
    requires Sized(s, l) && LegalRun(s, ops)
    decreases |ops|
  {
    ops == [] || Apply(s, ops[0]).report.Panicked? ||
    (StepKeepsSize(s, ops[0]);
     var r, l' := Apply(s, ops[0]), NextLives(s, l, ops[0]);
     (r.report.Switched? ==> TransferIsSound(r.state, l')) && AllTransfersSound(r.state, l', ops[1..]))
  }

  // With arbitrary legal destroys and reuse of handles, only living
  // incarnations are ever switched to, so the panic behind the self-destroy in
  // cothread_entry_wrapper is never reached.
  lemma {:induction false} NoDeadIncarnationResumes(s: State, w: Waits, l: Lives, ops: seq<Op>)
    requires Inv(s, w) && LivesInv(s, l) && LegalRun(s, ops)
    ensures AllTransfersSound(s, l, ops)
    decreases |ops|
  {
    if ops != [] && !Apply(s, ops[0]).report.Panicked? {
      StepKeepsInv(s, w, ops[0]);
      StepKeepsLives(s, w, l, ops[0]);
      NoDeadIncarnationResumes(Apply(s, ops[0]).state, NextWaits(s, w, ops[0]), NextLives(s, l, ops[0]), ops[1..]);
    }
  }

  lemma InitialLives(channels: nat, stackSize: nat, stacks: seq<nat>, rootHandle: int, ops: seq<Op>)
    requires 1 <= |stacks| && LegalRun(InitialState(channels, stackSize, stacks, rootHandle), ops)
    ensures var l := Lives(seq(|stacks| + 1, _ => 0), {}, seq(|stacks| + 1, _ => AfterCall));
            AllTransfersSound(InitialState(channels, stackSize, stacks, rootHandle), l, ops)
  {
    InitialStateHasInv(channels, stackSize, stacks, rootHandle);
    var s := InitialState(channels, stackSize, stacks, rootHandle);
    var l := Lives(seq(|stacks| + 1, _ => 0), {}, seq(|stacks| + 1, _ => AfterCall));
    NoDeadIncarnationResumes(s, NoWaiters(channels), l, ops);
  }
}
