// What a cothread is to do: its entry point and argument are those of the spawn
// that returned its handle, whatever other calls are made.
module Jobs {
  import opened Scheduler
  import opened Runs
  import opened Allocation

  // The entry point and the argument of every thread but one are the same.
  ghost predicate SameJobs(s: State, s': State, except: int) {
    && |s'.tcbs| == |s.tcbs|
    && (forall h :: 0 <= h < |s.tcbs| && h != except ==>
          s'.tcbs[h].entry == s.tcbs[h].entry && s'.tcbs[h].arg == s.tcbs[h].arg)
  }

  lemma GoNextKeepsJobs(s: State, p: State)
    requires InRange(p) && SameJobs(s, p, NULL_HANDLE)
    ensures SameJobs(s, GoNext(p), NULL_HANDLE)
  {
  }

  lemma WaitKeepsJobs(s: State, id: nat)
    requires InRange(s) && id in s.sems
    ensures SameJobs(s, WaitCall(s, id).state, NULL_HANDLE)
  {
    GoNextKeepsJobs(s, ParkBlocked(s, id));
  }

  lemma SignalKeepsJobs(s: State, id: nat)
    requires InRange(s) && id in s.sems
    ensures SameJobs(s, SignalCall(s, id).state, NULL_HANDLE)
  {
  }

  lemma DestroyKeepsJobs(s: State, h: int)
    requires InRange(s)
    ensures SameJobs(s, DestroyCall(s, h).state, NULL_HANDLE)
  {
    if ValidHandle(s, h) && |s.free| < |s.tcbs| { GoNextKeepsJobs(s, Release(s, h)); }
  }

  // Only a spawn gives a thread a job, and only the thread that it returns.
  lemma CallKeepsJobs(s: State, op: Op)
    requires InRange(s) && Known(s, op)
    ensures SameJobs(s, Apply(s, op).state, if op.Spawn? && s.free != [] then s.free[0] else NULL_HANDLE)
  {
    match op
    case Spawn(_, _) =>
    case Yield => if |s.sched| < |s.tcbs| { GoNextKeepsJobs(s, ParkReady(s)); }
    case Destroy(h) => DestroyKeepsJobs(s, h);
    case Return => DestroyKeepsJobs(s, s.running);
    case SemInit(_) =>
    case Wait(id) => WaitKeepsJobs(s, id);
    case Signal(id) => SignalKeepsJobs(s, id);
    case WaitOnChannel(channel) => if channel < s.channels { WaitKeepsJobs(s, channel); }
    case RecvNtfn(channel) => if s.running == ROOT && channel < s.channels { SignalKeepsJobs(s, channel); }
  }

  // A thread has the entry point and the argument of the spawn that returned it
  // until another spawn returns it.
  lemma {:induction false} JobsAreKept(s: State, ops: seq<Op>, h: int)
    requires InRange(s) && LegalRun(s, ops) && !Run(s, ops).report.Panicked?
    requires ValidHandle(s, h) && h !in Allocated(s, ops)
    ensures ValidHandle(Run(s, ops).state, h)
    ensures Run(s, ops).state.tcbs[h].entry == s.tcbs[h].entry && Run(s, ops).state.tcbs[h].arg == s.tcbs[h].arg
    decreases |ops|
  {
    if ops != [] {
      CallKeepsJobs(s, ops[0]);
      var a, b := StepAllocates(s, ops[0]), Allocated(Apply(s, ops[0]).state, ops[1..]);
      assert h !in a && h !in b by { assert Allocated(s, ops) == a + b; }
      if ops[0].Spawn? && s.free != [] { assert s.free[0] in a; }
      JobsAreKept(Apply(s, ops[0]).state, ops[1..], h);
    }
  }

  lemma SpawnGivesJob(s: State, entry: nat, arg: int)
    requires InRange(s) && SpawnCall(s, entry, arg).report.Returned?
    requires SpawnCall(s, entry, arg).report.ret != NULL_HANDLE
    ensures var r := SpawnCall(s, entry, arg);
            && ValidHandle(r.state, r.report.ret)
            && r.state.tcbs[r.report.ret].entry == entry && r.state.tcbs[r.report.ret].arg == arg
  {
  }
}
