// The library's guards against misuse are weaker than its documentation. This
// module shows exactly which unguarded calls break the controller, that is,
// after which no assignment of waiting lists restores the invariant.
module Misuse {
  import opened Scheduler
  import opened Invariant
  import opened Runs

  ghost predicate Sound(s: State) {
    exists w :: Inv(s, w)
  }

  // The pointers determine the list: two chains over the same links from the
  // same semaphore are the same sequence.
  lemma {:induction false} ChainAgrees(tcbs: seq<Tcb>, sem: Sem, q1: seq<int>, q2: seq<int>, i: nat)
    requires Chain(tcbs, sem, q1) && Chain(tcbs, sem, q2)
    requires i < |q1| && i < |q2|
    ensures q1[i] == q2[i]
  {
    if i > 0 {
      ChainAgrees(tcbs, sem, q1, q2, i - 1);
      assert tcbs[q1[i - 1]].next == q1[i - 1 + 1];
      assert tcbs[q2[i - 1]].next == q2[i - 1 + 1];
    }
  }

  lemma OnlyTailEnds(tcbs: seq<Tcb>, sem: Sem, q: seq<int>, k: nat)
    requires Chain(tcbs, sem, q) && k < |q|
    ensures tcbs[q[k]].next == NULL_HANDLE <==> k == |q| - 1
  {
    assert k < |q| - 1 ==> tcbs[q[k]].next == q[k + 1];
  }

  lemma ChainNoLonger(tcbs: seq<Tcb>, sem: Sem, q1: seq<int>, q2: seq<int>)
    requires Chain(tcbs, sem, q1) && Chain(tcbs, sem, q2)
    ensures |q2| <= |q1|
  {
    if q1 != [] && q2 != [] {
      var k := (if |q1| < |q2| then |q1| else |q2|) - 1;
      ChainAgrees(tcbs, sem, q1, q2, k);
      OnlyTailEnds(tcbs, sem, q1, k);
      OnlyTailEnds(tcbs, sem, q2, k);
    }
  }

  lemma ChainIsUnique(tcbs: seq<Tcb>, sem: Sem, q1: seq<int>, q2: seq<int>)
    requires Chain(tcbs, sem, q1) && Chain(tcbs, sem, q2)
    ensures q1 == q2
  {
    ChainNoLonger(tcbs, sem, q1, q2);
    ChainNoLonger(tcbs, sem, q2, q1);
    forall i | 0 <= i < |q1| ensures q1[i] == q2[i] {
      ChainAgrees(tcbs, sem, q1, q2, i);
    }
  }

  // The controller alone fixes who waits where and in which order.
  lemma WaitsAreUnique(s: State, w1: Waits, w2: Waits)
    requires Inv(s, w1) && Inv(s, w2)
    ensures w1 == w2
  {
    assert w1.Keys == w2.Keys;
    forall id | id in w1 ensures w1[id] == w2[id] {
      ChainIsUnique(s.tcbs, s.sems[id], w1[id], w2[id]);
    }
  }

  // ---------- root must not block ----------

  // Nothing stops root from waiting, and a wait keeps the controller sound
  // exactly when the caller is a cothread or the flag is set.
  lemma WaitSoundExactlyWhen(s: State, w: Waits, id: nat)
    requires Inv(s, w) && id in s.sems
    ensures Sound(WaitCall(s, id).state) <==> MayWait(s, id)
  {
    var s' := WaitCall(s, id).state;
    if MayWait(s, id) {
      WaitKeepsInv(s, w, id);
    } else {
      RootGetsLinked(s, w, id);
      forall w' ensures !Inv(s', w') {
        EndsWait(s', w', id);
      }
    }
  }

  // Root waiting on a channel straight after init is such a call: the fallback
  // of internal_go_next makes root run while it is on the channel's list.
  lemma RootCanWait()
    ensures var s := InitialState(1, MINIMUM_STACK_SIZE, [0x1000], 8);
            var r := WaitOnChannelCall(s, 0);
            !r.report.Panicked? && r.state.running == ROOT && !Sound(r.state)
  {
    var s := InitialState(1, MINIMUM_STACK_SIZE, [0x1000], 8);
    InitialStateHasInv(1, MINIMUM_STACK_SIZE, [0x1000], 8);
    WaitSoundExactlyWhen(s, NoWaiters(1), 0);
    assert ParkBlocked(s, 0).sched == [];
  }

  // The ends of a chain are on the list that it represents.
  lemma EndsWait(s: State, w: Waits, id: nat)
    ensures Linked(s, w) && id in s.sems && s.sems[id].head != NULL_HANDLE ==> Waiting(w, id, s.sems[id].tail)
  {
    if Linked(s, w) && id in s.sems && s.sems[id].head != NULL_HANDLE {
      assert w[id][|w[id]| - 1] == s.sems[id].tail;
    }
  }

  lemma RootGetsLinked(s: State, w: Waits, id: nat)
    requires Inv(s, w) && id in s.sems && !MayWait(s, id)
    ensures var s' := WaitCall(s, id).state;
            && id in s'.sems && s'.sems[id].head != NULL_HANDLE && s'.sems[id].tail == ROOT
            && (s'.running == ROOT || s'.tcbs[ROOT].state == Blocked)
  {
    assert GoNext(ParkBlocked(s, id)).sems == ParkBlocked(s, id).sems;
    if w[id] != [] {
      assert Waiting(w, id, s.sems[id].tail);
    }
  }

  // ---------- root and blocked cothreads must not be destroyed ----------

  // The guard of destroy asks who calls, not who is destroyed. A destroy that
  // does not panic keeps the controller sound exactly when its subject is
  // neither root nor blocked.
  lemma DestroySoundExactlyWhen(s: State, w: Waits, h: int)
    requires Inv(s, w) && !DestroyCall(s, h).report.Panicked?
    ensures Sound(DestroyCall(s, h).state) <==> h != ROOT && s.tcbs[h].state != Blocked
  {
    var s' := DestroyCall(s, h).state;
    if MayDestroy(s, h) {
      DestroyKeepsInv(s, w, h);
    } else {
      assert s' == Release(s, h);
      if h != ROOT {
        var id :| Waiting(w, id, h);
        forall w' ensures !Inv(s', w') {
          StillLinked(s, w, h, id, s', w');
        }
      }
    }
  }

  // Releasing a blocked handle leaves it linked.
  lemma StillLinked(s: State, w: Waits, h: int, id: nat, s': State, w': Waits)
    requires Inv(s, w) && 0 < h < |s.tcbs| && |s.free| < |s.tcbs| && s' == Release(s, h) && Waiting(w, id, h)
    ensures Linked(s', w') ==> Waiting(w', id, h)
  {
    if Linked(s', w') {
      ChainFrame(s.tcbs, s'.tcbs, s.sems[id], w[id]);
      ChainIsUnique(s'.tcbs, s.sems[id], w[id], w'[id]);
    }
  }

  // The cothread that root has spawned and yielded to can destroy root, which
  // the guard is there to prevent. Root's handle is then in the pool, and the
  // next spawn hands it out and derives its context on root's null storage.
  lemma CothreadCanDestroyRoot()
    ensures var s0 := InitialState(0, MINIMUM_STACK_SIZE, [0x1000], 8);
            var ops := [Spawn(1, 0)] + [Yield];
            && LegalRun(s0, ops) && !Run(s0, ops).report.Panicked?
            && (var s := Run(s0, ops).state;
                var r := DestroyCall(s, ROOT);
                var next := SpawnCall(r.state, 1, 0);
                && s.running == 1
                && r.report == Returned(0) && r.state.free == [ROOT]
                && next.report == Returned(ROOT)
                && next.state.tcbs[ROOT].storage == 0
                && next.state.tcbs[ROOT].handle == DerivedHandle(0, MINIMUM_STACK_SIZE))
  {
    var s0 := InitialState(0, MINIMUM_STACK_SIZE, [0x1000], 8);
    SpawnEffect(s0, 1, 0);
    var s1 := SpawnCall(s0, 1, 0).state;
    assert s1.sched == [1] && s1.tcbs[ROOT].storage == 0;
    YieldEffect(s1);
    var s := YieldCall(s1).state;
    assert s.tcbs[ROOT].storage == 0 by { SameStorage(s1, ROOT); }
    assert [Yield][1..] == [];
    Prepend(s0, Spawn(1, 0), [Yield]);
    assert Run(s0, [Spawn(1, 0)] + [Yield]).state == s;
    assert DestroyCall(s, ROOT).state.free == [ROOT];
  }

  lemma SameStorage(s: State, h: int)
    requires InRange(s) && |s.sched| < |s.tcbs| && 0 <= h < |s.tcbs|
    ensures YieldCall(s).state.tcbs[h].storage == s.tcbs[h].storage && YieldCall(s).state.stackSize == s.stackSize
  {
  }

  // The guard turns root away whatever it wants to destroy: a destroy of an
  // active thread panics exactly when root asks for it.
  lemma ActiveDestroyPanicsExactlyWhen(s: State, w: Waits, h: int)
    requires Inv(s, w) && ValidHandle(s, h) && s.tcbs[h].state != NotActive
    ensures DestroyCall(s, h).report.Panicked? <==> s.running == ROOT
    ensures s.running == ROOT ==> DestroyCall(s, h) == Outcome(s, Panicked(DestroyCannotDestroyRoot))
  {
    FreeHasRoom(s, w);
  }

  // ---------- the strict regime ----------

  // A legal destroy keeps the queue exact exactly when a thread ends itself.
  lemma DestroyExactExactlyWhen(s: State, w: Waits, h: int)
    requires StrictInv(s, w) && MayDestroy(s, h) && !DestroyCall(s, h).report.Panicked?
    ensures SchedExact(DestroyCall(s, h).state) <==> h == s.running
  {
    DestroyKeepsInv(s, w, h);
    if h != s.running {
      assert h in s.sched;
      var i :| 0 <= i < |s.sched| && s.sched[i] == h;
      assert DestroyCall(s, h).state.tcbs[s.sched[i]].state == NotActive;
    }
  }
}
