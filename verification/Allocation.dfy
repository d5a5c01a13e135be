// Handles are handed out in first-in first-out order, and a batch of cothreads
// that run to completion is executed in spawn order.
module Allocation {
  import opened Scheduler
  import opened Invariant
  import opened Runs

  // microkit_cothread_free_handle_available
  function FreeHandleAvailable(s: State): (bool, int) {
    if s.free == [] then (false, 0) else (true, s.free[0])
  }

  // The handle that a call hands out, and the one that it takes back.
  function StepAllocates(s: State, op: Op): seq<int>
    requires InRange(s) && Known(s, op)
  {
    var report := Apply(s, op).report;
    if op.Spawn? && report.Returned? && report.ret != NULL_HANDLE then [report.ret] else []
  }

  function StepGivesBack(s: State, op: Op): seq<int> {
    match op
    case Destroy(h) => [h]
    case Return => [s.running]
    case _ => []
  }

  // The handles that spawn returned during a run, and those that were given
  // back by destroy or by returning.
  function Allocated(s: State, ops: seq<Op>): seq<int>
    requires InRange(s) && LegalRun(s, ops)
    decreases |ops|
  {
    if ops == [] || Apply(s, ops[0]).report.Panicked? then []
    else StepAllocates(s, ops[0]) + Allocated(Apply(s, ops[0]).state, ops[1..])
  }

  function GivenBack(s: State, ops: seq<Op>): seq<int>
    requires InRange(s) && LegalRun(s, ops)
    decreases |ops|
  {
    if ops == [] || Apply(s, ops[0]).report.Panicked? then []
    else StepGivesBack(s, ops[0]) + GivenBack(Apply(s, ops[0]).state, ops[1..])
  }

  lemma StepMovesHandles(s: State, op: Op)
    requires InRange(s) && Known(s, op) && !Apply(s, op).report.Panicked?
    ensures s.free + StepGivesBack(s, op) == StepAllocates(s, op) + Apply(s, op).state.free
  {
    assert s.free + [] == [] + s.free;
    if op.Spawn? && s.free != [] {
      assert s.free == [s.free[0]] + s.free[1..];
    }
  }

  // Over any run, in both regimes: the handles that were free, followed by
  // those given back, are those allocated, followed by those now free.
  lemma {:induction false} AllocationIsFifo(s: State, ops: seq<Op>)
    requires InRange(s) && LegalRun(s, ops) && !Run(s, ops).report.Panicked?
    ensures s.free + GivenBack(s, ops) == Allocated(s, ops) + Run(s, ops).state.free
    decreases |ops|
  {
    if ops != [] {
      var s' := Apply(s, ops[0]).state;
      AllocationIsFifo(s', ops[1..]);
      StepMovesHandles(s, ops[0]);
      Splice(s.free, StepGivesBack(s, ops[0]), StepAllocates(s, ops[0]), s'.free,
             GivenBack(s', ops[1..]), Allocated(s', ops[1..]), Run(s', ops[1..]).state.free);
    }
  }

  lemma {:induction false} NothingAllocated(s: State, ops: seq<Op>)
    requires InRange(s) && LegalRun(s, ops) && forall i :: 0 <= i < |ops| ==> !ops[i].Spawn?
    ensures Allocated(s, ops) == []
    decreases |ops|
  {
    if ops != [] && !Apply(s, ops[0]).report.Panicked? {
      NothingAllocated(Apply(s, ops[0]).state, ops[1..]);
    }
  }

  lemma {:induction false} NothingGivenBack(s: State, ops: seq<Op>)
    requires InRange(s) && LegalRun(s, ops) && forall i :: 0 <= i < |ops| ==> !ops[i].Destroy? && !ops[i].Return?
    ensures GivenBack(s, ops) == []
    decreases |ops|
  {
    if ops != [] && !Apply(s, ops[0]).report.Panicked? {
      NothingGivenBack(Apply(s, ops[0]).state, ops[1..]);
    }
  }

  // The handle that free_handle_available reports is the one that the next
  // spawn returns, whatever happens in between other than a spawn.
  lemma ReportedHandleIsNext(s: State, ops: seq<Op>, entry: nat, arg: int)
    requires InRange(s) && LegalRun(s, ops) && !Run(s, ops).report.Panicked?
    requires forall i :: 0 <= i < |ops| ==> !ops[i].Spawn?
    requires FreeHandleAvailable(s).0 && entry != 0
    ensures var r := SpawnCall(Run(s, ops).state, entry, arg);
            r.report == Returned(FreeHandleAvailable(s).1) || r.report == Panicked(SpawnCannotScheduleNew)
  {
    AllocationIsFifo(s, ops);
    NothingAllocated(s, ops);
    assert Run(s, ops).state.free[0] == (s.free + GivenBack(s, ops))[0];
  }

  // As long as no cothread ends, the handles are 1, 2, 3, ... in this order.
  lemma FirstHandlesInOrder(channels: nat, stackSize: nat, stacks: seq<nat>, rootHandle: int, ops: seq<Op>)
    requires 1 <= |stacks|
    requires var s := InitialState(channels, stackSize, stacks, rootHandle);
             LegalRun(s, ops) && !Run(s, ops).report.Panicked?
    requires forall i :: 0 <= i < |ops| ==> !ops[i].Destroy? && !ops[i].Return?
    ensures var a := Allocated(InitialState(channels, stackSize, stacks, rootHandle), ops);
            |a| <= |stacks| && forall i :: 0 <= i < |a| ==> a[i] == i + 1
  {
    var s := InitialState(channels, stackSize, stacks, rootHandle);
    AllocationIsFifo(s, ops);
    NothingGivenBack(s, ops);
    var a := Allocated(s, ops);
    assert s.free + [] == s.free;
    forall i | 0 <= i < |a| ensures a[i] == i + 1 {
      assert (a + Run(s, ops).state.free)[i] == s.free[i];
    }
  }

  // Spawn returns the null handle exactly when every cothread is active.
  lemma SpawnNullExactlyWhen(s: State, w: Waits, entry: nat, arg: int)
    requires Inv(s, w) && entry != 0
    ensures SpawnCall(s, entry, arg).report == Returned(NULL_HANDLE)
            <==> forall h :: 1 <= h < |s.tcbs| ==> s.tcbs[h].state != NotActive
  {
    if s.free != [] {
      assert s.free[0] in s.free;
    }
  }

  // ---------- a batch runs to completion ----------

  // Who control was transferred to during a run, with the entry point and
  // argument that thread has.
  datatype Dispatch = Dispatch(handle: int, entry: nat, arg: int)

  function DispatchOf(s: State): Dispatch
    requires InRange(s)
  {
    Dispatch(s.running, s.tcbs[s.running].entry, s.tcbs[s.running].arg)
  }

  function Dispatches(s: State, ops: seq<Op>): seq<Dispatch>
    requires InRange(s) && LegalRun(s, ops)
    decreases |ops|
  {
    if ops == [] || Apply(s, ops[0]).report.Panicked? then []
    else
      var r := Apply(s, ops[0]);
      (if r.report.Switched? then [DispatchOf(r.state)] else []) + Dispatches(r.state, ops[1..])
  }

  datatype Job = Job(entry: nat, arg: int)

  function Spawns(jobs: seq<Job>): seq<Op> {
    seq(|jobs|, i requires 0 <= i < |jobs| => Spawn(jobs[i].entry, jobs[i].arg))
  }

  function Returns(k: nat): seq<Op> {
    seq(k, _ => Return)
  }

  function FirstDispatch(s: State, op: Op): seq<Dispatch>
    requires InRange(s) && Known(s, op)
  {
    if Apply(s, op).report.Switched? then [DispatchOf(Apply(s, op).state)] else []
  }

  // Running ops from s is legal, does not panic, ends in s' and dispatches d.
  ghost predicate RunsTo(s: State, ops: seq<Op>, s': State, d: seq<Dispatch>) {
    InRange(s) && InRange(s') && LegalRun(s, ops) && Run(s, ops) == Outcome(s', Returned(0)) && Dispatches(s, ops) == d
  }

  lemma RunsNone(s: State)
    requires InRange(s)
    ensures RunsTo(s, [], s, [])
  {
  }

  lemma RunsOne(s: State, op: Op, ops: seq<Op>, s': State, d: seq<Dispatch>)
    requires InRange(s) && Legal(s, op) && !Apply(s, op).report.Panicked?
    requires RunsTo(Apply(s, op).state, ops, s', d)
    ensures RunsTo(s, [op] + ops, s', FirstDispatch(s, op) + d)
  {
    assert ([op] + ops)[1..] == ops;
  }

  lemma SwitchThen(s: State, op: Op, s1: State, ops: seq<Op>, s': State, d: seq<Dispatch>)
    requires InRange(s) && Legal(s, op) && Apply(s, op) == Outcome(s1, Switched) && RunsTo(s1, ops, s', d)
    ensures RunsTo(s, [op] + ops, s', [DispatchOf(s1)] + d)
  {
    RunsOne(s, op, ops, s', d);
  }

  lemma SpawnThen(s: State, job: Job, s1: State, jobs: seq<Job>, s': State)
    requires InRange(s) && !SpawnCall(s, job.entry, job.arg).report.Panicked? && s1 == SpawnCall(s, job.entry, job.arg).state
    requires RunsTo(s1, Spawns(jobs), s', [])
    ensures RunsTo(s, Spawns([job] + jobs), s', [])
  {
    RunsOne(s, Spawn(job.entry, job.arg), Spawns(jobs), s', []);
    assert FirstDispatch(s, Spawn(job.entry, job.arg)) + [] == [];
    assert [Spawn(job.entry, job.arg)] + Spawns(jobs) == Spawns([job] + jobs);
  }

  lemma RunsUncons(s: State, ops: seq<Op>, s': State, d: seq<Dispatch>) returns (rest: seq<Dispatch>)
    requires RunsTo(s, ops, s', d) && ops != []
    ensures Legal(s, ops[0]) && !Apply(s, ops[0]).report.Panicked?
    ensures RunsTo(Apply(s, ops[0]).state, ops[1..], s', rest)
    ensures d == FirstDispatch(s, ops[0]) + rest
  {
    rest := Dispatches(Apply(s, ops[0]).state, ops[1..]);
  }

  lemma {:induction false} RunsAppend(s: State, ops1: seq<Op>, s1: State, d1: seq<Dispatch>,
                                      ops2: seq<Op>, s2: State, d2: seq<Dispatch>)
    requires RunsTo(s, ops1, s1, d1) && RunsTo(s1, ops2, s2, d2)
    ensures RunsTo(s, ops1 + ops2, s2, d1 + d2)
    decreases |ops1|
  {
    if ops1 == [] {
      assert ops1 + ops2 == ops2 && d1 + d2 == d2;
    } else {
      var rest := RunsUncons(s, ops1, s1, d1);
      RunsAppend(Apply(s, ops1[0]).state, ops1[1..], s1, rest, ops2, s2, d2);
      RunsCons(s, ops1[0], ops1[1..], rest, ops2, s2, d2);
      assert [ops1[0]] + ops1[1..] == ops1;
    }
  }

  lemma RunsCons(s: State, op: Op, ops1: seq<Op>, d1: seq<Dispatch>, ops2: seq<Op>, s2: State, d2: seq<Dispatch>)
    requires InRange(s) && Legal(s, op) && !Apply(s, op).report.Panicked?
    requires RunsTo(Apply(s, op).state, ops1 + ops2, s2, d1 + d2)
    ensures RunsTo(s, ([op] + ops1) + ops2, s2, (FirstDispatch(s, op) + d1) + d2)
  {
    RunsOne(s, op, ops1 + ops2, s2, d1 + d2);
    assert [op] + (ops1 + ops2) == ([op] + ops1) + ops2;
    assert FirstDispatch(s, op) + (d1 + d2) == (FirstDispatch(s, op) + d1) + d2;
  }

  ghost predicate NonNull(jobs: seq<Job>) {
    forall i :: 0 <= i < |jobs| ==> jobs[i].entry != 0
  }

  // Thread h is ready to run job j for the first time.
  ghost predicate Prepared(s: State, h: int, j: Job) {
    0 < h < |s.tcbs| && s.tcbs[h].state == Ready && s.tcbs[h].entry == j.entry && s.tcbs[h].arg == j.arg
  }

  ghost predicate FreeForJobs(s: State, jobs: seq<Job>) {
    && InRange(s) && NoDup(s.free) && ROOT !in s.free && NonNull(jobs)
    && |jobs| <= |s.free| && |s.sched| + |jobs| <= |s.tcbs|
  }

  lemma {:induction false} SpawnsPrepare(s: State, jobs: seq<Job>) returns (s': State)
    requires FreeForJobs(s, jobs)
    ensures RunsTo(s, Spawns(jobs), s', [])
    ensures s'.sched == s.sched + s.free[..|jobs|] && s'.free == s.free[|jobs|..]
    ensures s'.running == s.running && |s'.tcbs| == |s.tcbs|
    ensures forall i :: 0 <= i < |jobs| ==> Prepared(s', s.free[i], jobs[i])
    ensures forall h :: 0 <= h < |s.tcbs| && h !in s.free[..|jobs|] ==> s'.tcbs[h] == s.tcbs[h]
    decreases |jobs|
  {
    if jobs == [] {
      s' := s;
      RunsNone(s);
      assert Spawns(jobs) == [];
    } else {
      var s1 := SpawnCall(s, jobs[0].entry, jobs[0].arg).state;
      SpawnEffect(s, jobs[0].entry, jobs[0].arg);
      assert forall i :: 0 <= i < |s1.free| ==> s1.free[i] == s.free[i + 1];
      s' := SpawnsPrepare(s1, jobs[1..]);
      assert [jobs[0]] + jobs[1..] == jobs;
      SpawnThen(s, jobs[0], s1, jobs[1..], s');
      SpawnsPrepareRest(s, jobs, s1, s');
    }
  }

  lemma SpawnsPrepareRest(s: State, jobs: seq<Job>, s1: State, s': State)
    requires FreeForJobs(s, jobs) && jobs != []
    requires |s1.tcbs| == |s.tcbs| == |s'.tcbs| && s1.free == s.free[1..]
    requires Prepared(s1, s.free[0], jobs[0])
    requires forall h :: 0 <= h < |s.tcbs| && h != s.free[0] ==> s1.tcbs[h] == s.tcbs[h]
    requires forall i :: 0 <= i < |jobs[1..]| ==> Prepared(s', s1.free[i], jobs[1..][i])
    requires forall h :: 0 <= h < |s.tcbs| && h !in s1.free[..|jobs| - 1] ==> s'.tcbs[h] == s1.tcbs[h]
    ensures s.sched + s.free[..|jobs|] == s.sched + [s.free[0]] + s1.free[..|jobs| - 1]
    ensures s.free[|jobs|..] == s1.free[|jobs| - 1..]
    ensures forall i :: 0 <= i < |jobs| ==> Prepared(s', s.free[i], jobs[i])
    ensures forall h :: 0 <= h < |s.tcbs| && h !in s.free[..|jobs|] ==> s'.tcbs[h] == s.tcbs[h]
  {
    assert s.free[..|jobs|] == [s.free[0]] + s1.free[..|jobs| - 1];
    assert s.free[0] !in s1.free[..|jobs| - 1];
    forall i | 0 <= i < |jobs| ensures Prepared(s', s.free[i], jobs[i]) {
      if i > 0 {
        assert Prepared(s', s1.free[i - 1], jobs[1..][i - 1]);
      }
    }
  }

  function DispatchesOf(handles: seq<int>, jobs: seq<Job>): seq<Dispatch>
    requires |handles| == |jobs|
  {
    seq(|jobs|, i requires 0 <= i < |jobs| => Dispatch(handles[i], jobs[i].entry, jobs[i].arg))
  }

  // The queue is the prepared threads of the remaining jobs and then root.
  ghost predicate Lined(s: State, handles: seq<int>, jobs: seq<Job>) {
    && InRange(s) && NoDup(handles) && |handles| == |jobs|
    && s.sched == handles + [ROOT]
    && (forall i :: 0 <= i < |jobs| ==> Prepared(s, handles[i], jobs[i]))
  }

  // What the next pass through the scheduler does with such a queue.
  lemma GoNextInLine(s: State, handles: seq<int>, jobs: seq<Job>)
    requires Lined(s, handles, jobs)
    ensures var s' := GoNext(s);
            && s'.free == s.free && |s'.tcbs| == |s.tcbs|
            && (handles == [] ==> s'.running == ROOT && s'.sched == [])
            && (handles != [] ==> Lined(s', handles[1..], jobs[1..]) && s'.running == handles[0] && s'.running != ROOT
                                  && DispatchOf(s') == Dispatch(handles[0], jobs[0].entry, jobs[0].arg))
            && (forall h :: 0 <= h < |s.tcbs| && h != s'.running ==> s'.tcbs[h] == s.tcbs[h])
  {
    if handles != [] {
      assert s.sched[0] == handles[0];
      assert Prepared(s, handles[0], jobs[0]);
      assert s.sched[1..] == handles[1..] + [ROOT];
      forall i | 0 <= i < |jobs[1..]| ensures Prepared(GoNext(s), handles[1..][i], jobs[1..][i]) {
        assert Prepared(s, handles[i + 1], jobs[i + 1]);
      }
    }
  }

  // The first thread of the line has just been dispatched, or root if the line
  // was empty.
  ghost predicate AtFront(s: State, handles: seq<int>, jobs: seq<Job>) {
    && InRange(s) && |handles| == |jobs|
    && (handles == [] ==> s.running == ROOT && s.sched == [])
    && (handles != [] ==>
          && Lined(s, handles[1..], jobs[1..])
          && s.running == handles[0] && s.running != ROOT && s.running !in handles[1..]
          && s.tcbs[s.running].state == Running
          && DispatchOf(s) == Dispatch(handles[0], jobs[0].entry, jobs[0].arg))
  }

  // The thread at the front returns and the next one is dispatched.
  lemma ReturnInLine(s: State, handles: seq<int>, jobs: seq<Job>) returns (s': State)
    requires AtFront(s, handles, jobs) && handles != [] && |s.free| < |s.tcbs|
    ensures AtFront(s', handles[1..], jobs[1..])
    ensures Apply(s, Return) == Outcome(s', Switched)
    ensures s'.free == s.free + [handles[0]] && |s'.tcbs| == |s.tcbs|
  {
    var p := Release(s, s.running);
    forall i | 0 <= i < |jobs[1..]| ensures Prepared(p, handles[1..][i], jobs[1..][i]) {
      assert Prepared(s, handles[1..][i], jobs[1..][i]);
    }
    GoNextInLine(p, handles[1..], jobs[1..]);
    s' := GoNext(p);
  }

  // Root yields to the line.
  lemma YieldInLine(s: State, handles: seq<int>, jobs: seq<Job>) returns (s': State)
    requires InRange(s) && s.running == ROOT && s.sched == handles && |handles| == |jobs| && NoDup(handles)
    requires forall i :: 0 <= i < |jobs| ==> Prepared(s, handles[i], jobs[i])
    ensures AtFront(s', handles, jobs)
    ensures Apply(s, Yield) == Outcome(s', Switched)
    ensures s'.free == s.free && |s'.tcbs| == |s.tcbs|
  {
    FitsBelowRoot(s, handles);
    var p := ParkReady(s);
    forall i | 0 <= i < |jobs| ensures Prepared(p, handles[i], jobs[i]) {
      assert Prepared(s, handles[i], jobs[i]);
    }
    GoNextInLine(p, handles, jobs);
    s' := GoNext(p);
  }

  // The dispatches that follow that of the front thread.
  function Later(handles: seq<int>, jobs: seq<Job>, last: Dispatch): seq<Dispatch>
    requires |handles| == |jobs|
  {
    if jobs == [] then [] else DispatchesOf(handles[1..], jobs[1..]) + [last]
  }

  lemma LaterCons(s: State, handles: seq<int>, jobs: seq<Job>, last: Dispatch)
    requires AtFront(s, handles, jobs) && (jobs == [] ==> last == DispatchOf(s))
    ensures [DispatchOf(s)] + Later(handles, jobs, last) == DispatchesOf(handles, jobs) + [last]
  {
  }

  lemma {:induction false} ReturnsDrain(s: State, handles: seq<int>, jobs: seq<Job>) returns (s': State)
    requires AtFront(s, handles, jobs) && |s.free| + |jobs| <= |s.tcbs|
    ensures InRange(s') && s'.running == ROOT && s'.sched == [] && s'.free == s.free + handles
    ensures jobs == [] ==> s' == s
    ensures RunsTo(s, Returns(|jobs|), s', Later(handles, jobs, DispatchOf(s')))
    decreases |jobs|
  {
    if jobs == [] {
      s' := s;
      RunsNone(s);
      assert Returns(0) == [];
    } else {
      var s1 := ReturnInLine(s, handles, jobs);
      s' := ReturnsDrain(s1, handles[1..], jobs[1..]);
      DrainCons(s, s1, handles, jobs, s');
      ConsMiddle(s.free, handles);
    }
  }

  lemma ConsMiddle(front: seq<int>, q: seq<int>)
    requires q != []
    ensures (front + [q[0]]) + q[1..] == front + q
  {
  }

  lemma DrainCons(s: State, s1: State, handles: seq<int>, jobs: seq<Job>, s': State)
    requires InRange(s) && s.running != ROOT && Apply(s, Return) == Outcome(s1, Switched)
    requires |handles| == |jobs| && jobs != [] && AtFront(s1, handles[1..], jobs[1..])
    requires InRange(s') && (jobs[1..] == [] ==> s' == s1)
    requires RunsTo(s1, Returns(|jobs| - 1), s', Later(handles[1..], jobs[1..], DispatchOf(s')))
    ensures RunsTo(s, Returns(|jobs|), s', Later(handles, jobs, DispatchOf(s')))
  {
    var last := DispatchOf(s');
    SwitchThen(s, Return, s1, Returns(|jobs| - 1), s', Later(handles[1..], jobs[1..], last));
    LaterCons(s1, handles[1..], jobs[1..], last);
    assert Returns(|jobs|) == [Return] + Returns(|jobs| - 1);
  }

  lemma FitsBelowRoot(s: State, handles: seq<int>)
    requires InRange(s) && s.sched == handles && NoDup(handles)
    requires forall i :: 0 <= i < |handles| ==> 0 < handles[i] < |s.tcbs|
    ensures |s.sched| < |s.tcbs|
  {
    NoDupLength(handles, |s.tcbs|, ROOT);
  }

  // Root spawns cothreads that never call the library and yields. They run one
  // after another in spawn order, each with its own entry point and argument,
  // control comes back to root after one transfer for each and one more, and
  // their handles are free again in that order behind those that were not
  // used.
  lemma BatchRunsToCompletion(s: State, w: Waits, jobs: seq<Job>) returns (s': State)
    requires StrictInv(s, w) && s.running == ROOT && s.sched == []
    requires NonNull(jobs) && |jobs| <= |s.free|
    ensures InRange(s') && s'.running == ROOT && s'.sched == []
    ensures s'.free == s.free[|jobs|..] + s.free[..|jobs|]
    ensures RunsTo(s, Spawns(jobs) + ([Yield] + Returns(|jobs|)), s',
                   DispatchesOf(s.free[..|jobs|], jobs) + [DispatchOf(s')])
  {
    FreeHasRoom(s, w);
    var handles := s.free[..|jobs|];
    assert ROOT !in s.free;
    var s1 := SpawnsPrepare(s, jobs);
    assert s1.sched == handles by { assert [] + handles == handles; }
    var s2 := YieldInLine(s1, handles, jobs);
    s' := ReturnsDrain(s2, handles, jobs);
    var last := DispatchOf(s');
    SwitchThen(s1, Yield, s2, Returns(|jobs|), s', Later(handles, jobs, last));
    LaterCons(s2, handles, jobs, last);
    var d := DispatchesOf(handles, jobs) + [last];
    RunsAppend(s, Spawns(jobs), s1, [], [Yield] + Returns(|jobs|), s', d);
    assert [] + d == d;
  }
}
