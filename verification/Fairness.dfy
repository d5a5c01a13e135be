// Bounded bypass: in both regimes a ready thread runs after a bounded number
// of control transfers, whatever the other threads do.
module Fairness {
  import opened Scheduler
  import opened Invariant
  import opened Runs

  // The first place of t in q, or the length of q.
  function FirstIndex(q: seq<int>, t: int): (k: nat)
    ensures k <= |q|
    ensures forall i :: 0 <= i < k ==> q[i] != t
    ensures k < |q| ==> q[k] == t
  {
    if q == [] || q[0] == t then 0 else 1 + FirstIndex(q[1..], t)
  }

  function BlockedThreads(s: State): set<int> {
    WithState(s.tcbs, Blocked)
  }

  // Twice the entries before t's first entry, plus the blocked threads: a
  // transfer by the scheduler consumes an entry and may block one thread, a
  // transfer by signal unblocks one.
  function Distance(s: State, t: int): nat {
    2 * FirstIndex(s.sched, t) + |BlockedThreads(s)|
  }

  ghost predicate IsReady(s: State, t: int) {
    0 <= t < |s.tcbs| && s.tcbs[t].state == Ready
  }

  lemma FirstIndexAppend(q: seq<int>, x: int, t: int)
    requires t in q
    ensures FirstIndex(q + [x], t) == FirstIndex(q, t) < |q|
  {
    var k := FirstIndex(q, t);
    var k' := FirstIndex(q + [x], t);
    assert (q + [x])[k] == t;
    assert k' < |q| ==> (q + [x])[k'] == q[k'];
  }

  lemma FirstIndexDrop(q: seq<int>, k: nat, t: int)
    requires k < FirstIndex(q, t) < |q|
    ensures FirstIndex(q[k + 1..], t) == FirstIndex(q, t) - k - 1
  {
    var i, i' := FirstIndex(q, t), FirstIndex(q[k + 1..], t);
    assert q[k + 1..][i - k - 1] == t;
    assert i' < |q| - k - 1 ==> q[k + 1..][i'] == q[k + 1 + i'];
  }

  // The scheduler never passes over a ready entry, so it chooses t or shortens
  // the way to it.
  lemma ChoiceApproaches(tcbs: seq<Tcb>, q: seq<int>, t: int)
    requires t in q && 0 <= t < |tcbs| && tcbs[t].state == Ready
    ensures Choice(tcbs, q) == t || FirstIndex(AfterChoice(tcbs, q), t) + 1 <= FirstIndex(q, t)
  {
    var k := FirstEligible(tcbs, q);
    var i := FirstIndex(q, t);
    assert i < |q| && Eligible(tcbs, q[i]);
    assert k <= i;
    if k < i {
      FirstIndexDrop(q, k, t);
    }
  }

  lemma SameBlocked(s: State, s': State)
    requires |s'.tcbs| == |s.tcbs|
    requires forall h :: 0 <= h < |s.tcbs| ==> (s'.tcbs[h].state == Blocked <==> s.tcbs[h].state == Blocked)
    ensures BlockedThreads(s') == BlockedThreads(s)
  {
  }

  lemma OneMoreBlocked(s: State, s': State, r: int)
    requires 0 <= r < |s.tcbs| == |s'.tcbs| && s.tcbs[r].state != Blocked && s'.tcbs[r].state == Blocked
    requires forall h :: 0 <= h < |s.tcbs| && h != r ==> (s'.tcbs[h].state == Blocked <==> s.tcbs[h].state == Blocked)
    ensures |BlockedThreads(s')| == |BlockedThreads(s)| + 1
  {
    assert BlockedThreads(s') == BlockedThreads(s) + {r};
  }

  lemma ChosenWasReady(p: State, w: Waits)
    requires Core(p, w, NULL_HANDLE)
    ensures var next := Choice(p.tcbs, p.sched);
            0 <= next < |p.tcbs| && p.tcbs[next].state == Ready && GoNext(p).running == next
            && GoNext(p).tcbs == SetState(p.tcbs, next, Running)
  {
    SomebodyEligible(p, w);
  }

  // One pass through internal_go_next runs t or brings it nearer by two.
  lemma GoNextApproaches(p: State, w: Waits, t: int)
    requires Core(p, w, NULL_HANDLE) && IsReady(p, t)
    ensures GoNext(p).running == t || (IsReady(GoNext(p), t) && Distance(GoNext(p), t) + 2 <= Distance(p, t))
  {
    assert t in p.sched;
    ChoiceApproaches(p.tcbs, p.sched, t);
    ChosenWasReady(p, w);
    SameBlocked(p, GoNext(p));
  }

  lemma YieldApproaches(s: State, w: Waits, t: int)
    requires Inv(s, w) && IsReady(s, t) && |s.sched| < |s.tcbs|
    ensures var s' := GoNext(ParkReady(s)); s'.running == t || (IsReady(s', t) && Distance(s', t) < Distance(s, t))
  {
    ParkReadyParks(s, w);
    GoNextApproaches(ParkReady(s), w, t);
    FirstIndexAppend(s.sched, s.running, t);
    SameBlocked(s, ParkReady(s));
  }

  lemma ReleaseApproaches(s: State, w: Waits, t: int)
    requires Inv(s, w) && IsReady(s, t) && s.running != ROOT && |s.free| < |s.tcbs|
    ensures var s' := GoNext(Release(s, s.running));
            s'.running == t || (IsReady(s', t) && Distance(s', t) < Distance(s, t))
  {
    ReleaseKeepsCore(s, w, s.running);
    GoNextApproaches(Release(s, s.running), w, t);
    SameBlocked(s, Release(s, s.running));
  }

  lemma BlockingCostsOne(s: State, w: Waits, t: int, id: nat)
    requires Inv(s, w) && IsReady(s, t) && id in s.sems && !s.sems[id].isSet
    ensures IsReady(ParkBlocked(s, id), t) && Distance(ParkBlocked(s, id), t) == Distance(s, t) + 1
  {
    ParkBlockedStates(s, w, id);
    OneMoreBlocked(s, ParkBlocked(s, id), s.running);
    assert ParkBlocked(s, id).sched == s.sched;
  }

  lemma BlockApproaches(s: State, w: Waits, t: int, id: nat)
    requires Inv(s, w) && IsReady(s, t) && id in s.sems && !s.sems[id].isSet && s.running != ROOT
    ensures var s' := GoNext(ParkBlocked(s, id));
            s'.running == t || (IsReady(s', t) && Distance(s', t) < Distance(s, t))
  {
    ParkBlockedParks(s, w, id);
    BlockingCostsOne(s, w, t, id);
    GoNextApproaches(ParkBlocked(s, id), w[id := w[id] + [s.running]], t);
  }

  lemma SignalApproaches(s: State, w: Waits, t: int, id: nat)
    requires Wakes(s, w, id) && IsReady(s, t)
    ensures var s' := SignalCall(s, id).state; IsReady(s', t) && Distance(s', t) < Distance(s, t)
  {
    SignalStates(s, w, id);
    var s' := SignalCall(s, id).state;
    assert t in s.sched;
    FirstIndexAppend(s.sched, s.running, t);
    OneMoreBlocked(s', s, w[id][0]);
  }

  // A call that switches runs t or brings it nearer; any other call leaves it
  // where it is.
  lemma StepApproaches(s: State, w: Waits, op: Op, t: int)
    requires Inv(s, w) && Legal(s, op) && !Apply(s, op).report.Panicked?
    requires IsReady(s, t) && op != Destroy(t)
    ensures Approached(s, Apply(s, op), t)
  {
    if op.Yield? {
      YieldApproaches(s, w, t);
    } else if IsWait(op) {
      WaitIs(s, op);
      WaitApproaches(s, w, t, Target(s, op));
    } else if IsSignal(op) {
      SignalIs(s, op);
      SignalCallApproaches(s, w, t, Target(s, op));
    } else if op.Return? || op == Destroy(s.running) {
      ReleaseApproaches(s, w, t);
    } else {
      QuietStepKeepsDistance(s, w, op, t);
    }
  }

  ghost predicate Approached(s: State, r: Outcome, t: int) {
    if r.report.Switched? then
      r.state.running == t || (IsReady(r.state, t) && Distance(r.state, t) < Distance(s, t))
    else
      IsReady(r.state, t) && Distance(r.state, t) == Distance(s, t)
  }

  lemma WaitApproaches(s: State, w: Waits, t: int, id: nat)
    requires Inv(s, w) && IsReady(s, t) && id in s.sems && MayWait(s, id)
    ensures Approached(s, WaitCall(s, id), t)
  {
    if !s.sems[id].isSet { BlockApproaches(s, w, t, id); }
  }

  lemma SignalCallApproaches(s: State, w: Waits, t: int, id: nat)
    requires Inv(s, w) && IsReady(s, t) && id in s.sems && !SignalCall(s, id).report.Panicked?
    ensures Approached(s, SignalCall(s, id), t)
  {
    if !s.sems[id].isSet && w[id] != [] { SignalApproaches(s, w, t, id); }
  }

  lemma QuietStepKeepsDistance(s: State, w: Waits, op: Op, t: int)
    requires Inv(s, w) && Legal(s, op) && !Apply(s, op).report.Panicked?
    requires IsReady(s, t) && op != Destroy(t) && op != Destroy(s.running)
    requires op.Spawn? || op.Destroy? || op.SemInit?
    ensures var r := Apply(s, op);
            r.report.Returned? && IsReady(r.state, t) && Distance(r.state, t) == Distance(s, t)
  {
    var s' := Apply(s, op).state;
    assert t in s.sched;
    if op.Spawn? && s.free != [] {
      assert s.free[0] in s.free;
      FirstIndexAppend(s.sched, s.free[0], t);
    }
    SameBlocked(s, s');
  }

  // ---------- runs ----------

  // How often control was transferred.
  function Transfers(s: State, ops: seq<Op>): nat
    requires InRange(s) && LegalRun(s, ops)
    decreases |ops|
  {
    if ops == [] || Apply(s, ops[0]).report.Panicked? then 0
    else (if Apply(s, ops[0]).report.Switched? then 1 else 0) + Transfers(Apply(s, ops[0]).state, ops[1..])
  }

  ghost predicate EverRuns(s: State, ops: seq<Op>, t: int)
    requires InRange(s) && LegalRun(s, ops)
    decreases |ops|
  {
    s.running == t ||
    (ops != [] && !Apply(s, ops[0]).report.Panicked? && EverRuns(Apply(s, ops[0]).state, ops[1..], t))
  }

  // Nobody destroys t before it gets to run.
  ghost predicate Spared(s: State, ops: seq<Op>, t: int)
    requires InRange(s) && LegalRun(s, ops)
    decreases |ops|
  {
    ops == [] || s.running == t ||
    (ops[0] != Destroy(t) && (Apply(s, ops[0]).report.Panicked? || Spared(Apply(s, ops[0]).state, ops[1..], t)))
  }

  lemma {:induction false} BoundedBypass(s: State, w: Waits, ops: seq<Op>, t: int)
    requires Inv(s, w) && LegalRun(s, ops) && !Run(s, ops).report.Panicked?
    requires IsReady(s, t) && Spared(s, ops, t)
    requires Transfers(s, ops) >= 2 * FirstIndex(s.sched, t) + |BlockedThreads(s)| + 1
    ensures EverRuns(s, ops, t)
    decreases |ops|
  {
    StepApproaches(s, w, ops[0], t);
    StepKeepsInv(s, w, ops[0]);
    var s' := Apply(s, ops[0]).state;
    if s'.running != t {
      BoundedBypass(s', NextWaits(s, w, ops[0]), ops[1..], t);
    }
  }
}
