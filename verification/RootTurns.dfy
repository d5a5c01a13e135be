// When root gets its turn. The documentation says that root runs only when no
// cothread is ready (README.md:94, README.md:217), and that a caller of yield
// keeps running when no other cothread is ready (README.md:286). Root is an
// ordinary entry of the scheduling queue, so neither is true of the code. Here
// are an input on which both fail, and exactly when they hold.
module RootTurns {
  import opened Scheduler
  import opened Invariant
  import opened Runs

  ghost predicate NoCothreadReady(s: State) {
    forall h :: 0 < h < |s.tcbs| ==> s.tcbs[h].state != Ready
  }

  // The claim about root, of the state in which a call leaves the controller.
  ghost predicate RootOnlyWhenIdle(s: State) {
    s.running == ROOT ==> NoCothreadReady(s)
  }

  // Root spawns a cothread and both yield: root runs while the cothread is
  // ready. The cothread had yielded when no other cothread was ready.
  lemma RootRunsBeforeReadyCothread()
    ensures var s := InitialState(0, MINIMUM_STACK_SIZE, [0x1000], 8);
            var before, after := [Spawn(1, 0)] + [Yield], [Spawn(1, 0)] + ([Yield] + [Yield]);
            && LegalRun(s, before) && !Run(s, before).report.Panicked?
            && Run(s, before).state.running == 1 && NoCothreadReady(Run(s, before).state)
            && LegalRun(s, after) && !Run(s, after).report.Panicked?
            && Run(s, after).state.running == ROOT && Run(s, after).state.tcbs[1].state == Ready
  {
    var s0 := InitialState(0, MINIMUM_STACK_SIZE, [0x1000], 8);
    SpawnEffect(s0, 1, 0);
    var s1 := SpawnCall(s0, 1, 0).state;
    assert s1.sched == [1];
    YieldEffect(s1);
    var s2 := YieldCall(s1).state;
    assert s2.sched == [0];
    YieldEffect(s2);
    OneMore(s1, Yield);
    OneMore(s2, Yield);
    Prepend(s1, Yield, [Yield]);
    Prepend(s0, Spawn(1, 0), [Yield]);
    Prepend(s0, Spawn(1, 0), [Yield] + [Yield]);
  }

  lemma OneMore(s: State, op: Op)
    requires InRange(s) && Legal(s, op) && !Apply(s, op).report.Panicked?
    ensures LegalRun(s, [op]) && Run(s, [op]).state == Apply(s, op).state && !Run(s, [op]).report.Panicked?
  {
    assert [op][1..] == [];
  }

  // ---------- what the scheduler has to choose from ----------

  // The queue that internal_schedule is given, as the caller sees it before the
  // call: a yield appends the caller.
  function QueueFor(s: State, op: Op): seq<int> {
    if op.Yield? then s.sched + [s.running] else s.sched
  }

  // Who is accepted: root, the ready, and the caller of yield.
  predicate Choosable(s: State, op: Op, h: int) {
    h == ROOT || (0 <= h < |s.tcbs| && (s.tcbs[h].state == Ready || (op.Yield? && h == s.running)))
  }

  lemma QueueForIs(s: State, w: Waits, op: Op)
    requires Inv(s, w) && Legal(s, op) && Apply(s, op).report.Switched? && !IsSignal(op)
    ensures var p := HandedOver(s, op);
            && p.sched == QueueFor(s, op)
            && (forall h :: Eligible(p.tcbs, h) <==> Choosable(s, op, h))
  {
    HandedOverIs(s, op);
    if IsWait(op) { ParkBlockedStates(s, w, Target(s, op)); }
  }

  // Root is the first choosable entry and another one stands behind it.
  ghost predicate RootGoesFirst(s: State, op: Op) {
    var q := QueueFor(s, op);
    exists i, j :: 0 <= i < j < |q| && q[i] == ROOT && Choosable(s, op, q[j])
                   && forall m :: 0 <= m < i ==> !Choosable(s, op, q[m])
  }

  // ---------- root and ready cothreads ----------

  // What a switch through the scheduler leaves ready stands behind the choice.
  lemma ReadyBehindChoice(p: State, w: Waits)
    requires Core(p, w, NULL_HANDLE)
    ensures var k := FirstEligible(p.tcbs, p.sched);
            && k < |p.sched| && GoNext(p).running == p.sched[k]
            && (p.sched[k] == ROOT ==>
                  (NoCothreadReady(GoNext(p)) <==> forall j :: k < j < |p.sched| ==> !Eligible(p.tcbs, p.sched[j])))
  {
    SomebodyEligible(p, w);
    var k := FirstEligible(p.tcbs, p.sched);
    var s' := GoNext(p);
    if p.sched[k] == ROOT {
      forall h | 0 < h < |p.tcbs| && p.tcbs[h].state == Ready ensures exists j :: k < j < |p.sched| && p.sched[j] == h {
        var j :| 0 <= j < |p.sched| && p.sched[j] == h;
        assert Eligible(p.tcbs, p.sched[j]);
      }
      assert forall h :: 0 < h < |p.tcbs| ==> s'.tcbs[h] == p.tcbs[h];
    }
  }

  ghost predicate EligibleBehindRoot(tcbs: seq<Tcb>, q: seq<int>) {
    exists i, j :: 0 <= i < j < |q| && q[i] == ROOT && Eligible(tcbs, q[j])
                   && forall m :: 0 <= m < i ==> !Eligible(tcbs, q[m])
  }

  lemma RootGoesFirstIs(s: State, w: Waits, op: Op)
    requires Inv(s, w) && Legal(s, op) && Apply(s, op).report.Switched? && !IsSignal(op)
    ensures RootGoesFirst(s, op) <==> EligibleBehindRoot(HandedOver(s, op).tcbs, HandedOver(s, op).sched)
  {
    QueueForIs(s, w, op);
  }

  lemma FirstIsRoot(tcbs: seq<Tcb>, q: seq<int>)
    ensures var k := FirstEligible(tcbs, q);
            EligibleBehindRoot(tcbs, q) <==>
            k < |q| && q[k] == ROOT && exists j :: k < j < |q| && Eligible(tcbs, q[j])
  {
    var k := FirstEligible(tcbs, q);
    if EligibleBehindRoot(tcbs, q) {
      var i, j :| 0 <= i < j < |q| && q[i] == ROOT && Eligible(tcbs, q[j])
                  && forall m :: 0 <= m < i ==> !Eligible(tcbs, q[m]);
      assert Eligible(tcbs, q[i]);
      assert k == i;
    }
  }

  // The claim holds of a switch if and only if root does not go first.
  lemma RootOnlyWhenIdleExactlyWhen(s: State, w: Waits, op: Op)
    requires Inv(s, w) && Legal(s, op) && Apply(s, op).report.Switched?
    ensures RootOnlyWhenIdle(Apply(s, op).state) <==> IsSignal(op) || !RootGoesFirst(s, op)
  {
    if IsSignal(op) {
      SignalNeverToRoot(s, w, op);
    } else {
      RootGoesFirstIs(s, w, op);
      SwitchIsGoNext(s, op);
      var p := HandedOver(s, op);
      FirstIsRoot(p.tcbs, p.sched);
      var w' := HandedOverParks(s, w, op);
      ReadyBehindChoice(p, w');
    }
  }

  lemma SignalNeverToRoot(s: State, w: Waits, op: Op)
    requires Inv(s, w) && Legal(s, op) && Apply(s, op).report.Switched? && IsSignal(op)
    ensures Apply(s, op).state.running != ROOT
  {
    SignalIs(s, op);
    var id := Target(s, op);
    assert Wakes(s, w, id);
    SignalStates(s, w, id);
  }

  // In the strict regime: if and only if root is not at the front, or alone.
  lemma StrictRootOnlyWhenIdleExactlyWhen(s: State, w: Waits, op: Op)
    requires StrictInv(s, w) && LegalStrict(s, op) && Apply(s, op).report.Switched? && !IsSignal(op)
    ensures QueueFor(s, op) != []
    ensures RootOnlyWhenIdle(Apply(s, op).state) <==> QueueFor(s, op)[0] != ROOT || |QueueFor(s, op)| == 1
  {
    RootOnlyWhenIdleExactlyWhen(s, w, op);
    HandedOverIs(s, op);
    var q := QueueFor(s, op);
    assert ROOT in q;
    forall i | 0 <= i < |q| ensures Choosable(s, op, q[i]) {
      if i == |s.sched| { assert q[i] == s.running; }
    }
    if q[0] == ROOT && |q| > 1 {
      assert Choosable(s, op, q[1]);
      assert RootGoesFirst(s, op);
    }
  }

  // ---------- a yield to nobody ----------

  // An entry of the caller from an earlier incarnation stands before root's.
  ghost predicate CallerBeforeRoot(s: State) {
    exists i, j :: 0 <= i < j < |s.sched| && s.sched[i] == s.running && s.sched[j] == ROOT
  }

  // When no other cothread is ready, a caller of yield keeps running if and only
  // if it is root, or a stale entry of its handle stands before root's.
  lemma LoneYieldKeepsCallerExactlyWhen(s: State, w: Waits)
    requires Inv(s, w) && NoCothreadReady(s) && |s.sched| < |s.tcbs|
    ensures YieldCall(s).state.running == s.running <==> s.running == ROOT || CallerBeforeRoot(s)
  {
    var p := ParkReady(s);
    ParkReadyParks(s, w);
    SomebodyEligible(p, w);
    var k := FirstEligible(p.tcbs, p.sched);
    assert YieldCall(s).state.running == p.sched[k];
    assert forall h :: Eligible(p.tcbs, h) <==> h == ROOT || h == s.running;
    if s.running != ROOT {
      RootIsRecoverable(s, w);
      FirstOfTwo(s.sched, s.running, k);
    }
  }

  // The first entry of two handles.
  lemma FirstOfTwo(q: seq<int>, r: int, k: int)
    requires r != ROOT && ROOT in q && 0 <= k <= |q|
    requires forall i, j :: 0 <= i < |q| && 0 <= j < |q| && q[i] == q[j] == ROOT ==> i == j
    requires (q + [r])[k] in {ROOT, r} && forall i :: 0 <= i < k ==> (q + [r])[i] != ROOT && (q + [r])[i] != r
    ensures (q + [r])[k] == r <==> exists i, j :: 0 <= i < j < |q| && q[i] == r && q[j] == ROOT
  {
    var j :| 0 <= j < |q| && q[j] == ROOT;
    assert (q + [r])[j] == ROOT;
    assert k <= j;
    assert q[k] == (q + [r])[k];
    if i, j' :| 0 <= i < j' < |q| && q[i] == r && q[j'] == ROOT {
      assert (q + [r])[i] == r;
    }
  }

  // In the strict regime only root does. In general a caller keeps running if
  // and only if the queue is empty, and then the caller is root.
  lemma StrictYieldKeepsCallerExactlyWhen(s: State, w: Waits)
    requires StrictInv(s, w)
    ensures |s.sched| < |s.tcbs|
    ensures YieldCall(s).state.running == s.running <==> s.sched == []
    ensures s.sched == [] ==> s.running == ROOT
    ensures NoCothreadReady(s) ==> (YieldCall(s).state.running == s.running <==> s.running == ROOT)
  {
    SchedHasRoom(s, w);
    var p := ParkReady(s);
    ParkReadyParks(s, w);
    GoNextKeepsExact(p, w);
    SomebodyEligible(p, w);
    assert YieldCall(s).state.running == p.sched[0];
    assert s.sched != [] ==> p.sched[0] == s.sched[0];
    assert s.sched != [] ==> s.tcbs[s.sched[0]].state == Ready;
  }
}
