// The global invariant of the controller, in two regimes, and the proof that
// every legal call keeps it.
//
// General regime: any legal call. A destroyed ready cothread leaves a stale
// entry in the scheduling queue, so the queue only has to cover the ready
// threads.
// Strict regime: cothreads end only by themselves. The queue is exactly the
// ready threads.
module Invariant {
  import opened Scheduler

  // The waiting lists as sequences, first waiter first.
  type Waits = map<nat, seq<int>>

  ghost predicate NoDup(q: seq<int>) {
    forall i, j :: 0 <= i < j < |q| ==> q[i] != q[j]
  }

  // The chain that starts at the head of a semaphore visits exactly q, ends at
  // its tail, and has no successor there.
  ghost predicate Chain(tcbs: seq<Tcb>, sem: Sem, q: seq<int>) {
    && (forall i :: 0 <= i < |q| ==> 0 <= q[i] < |tcbs|)
    && (if q == [] then sem.head == NULL_HANDLE && sem.tail == NULL_HANDLE
        else sem.head == q[0] && sem.tail == q[|q| - 1] && tcbs[sem.tail].next == NULL_HANDLE)
    && (forall i :: 0 <= i < |q| - 1 ==> tcbs[q[i]].next == q[i + 1])
  }

  ghost predicate Waiting(w: Waits, id: nat, h: int) {
    id in w && h in w[id]
  }

  // No handle is twice in a list or in two lists.
  ghost predicate Disjoint(w: Waits) {
    && (forall id :: id in w ==> NoDup(w[id]))
    && (forall id1, id2, h :: Waiting(w, id1, h) && Waiting(w, id2, h) ==> id1 == id2)
  }

  // Every semaphore's chain is its list, and a set flag means nobody waits.
  ghost predicate Linked(s: State, w: Waits) {
    && w.Keys == s.sems.Keys
    && (forall id :: id in w ==> Chain(s.tcbs, s.sems[id], w[id]))
    && (forall id :: id in w && s.sems[id].isSet ==> w[id] == [])
  }

  // The lists hold exactly the blocked threads.
  ghost predicate BlockedExact(tcbs: seq<Tcb>, w: Waits) {
    && (forall id, h :: Waiting(w, id, h) ==> 0 <= h < |tcbs| && tcbs[h].state == Blocked)
    && (forall h :: 0 <= h < |tcbs| && tcbs[h].state == Blocked ==> exists id :: Waiting(w, id, h))
  }

  // A thread that could be queued on a semaphore is not linked to anything.
  ghost predicate Unlinked(tcbs: seq<Tcb>) {
    forall h :: 0 <= h < |tcbs| && tcbs[h].state in {Ready, Running} ==> tcbs[h].next == NULL_HANDLE
  }

  ghost predicate ListsExact(s: State, w: Waits) {
    Linked(s, w) && Disjoint(w) && BlockedExact(s.tcbs, w) && Unlinked(s.tcbs)
  }

  ghost predicate FreeExact(s: State) {
    && NoDup(s.free)
    && (forall h :: 0 <= h < |s.tcbs| ==> (h in s.free <==> s.tcbs[h].state == NotActive))
  }

  // The queue holds every ready thread, and root at most once.
  ghost predicate SchedCovers(s: State)
    requires InRange(s)
  {
    && (forall h :: 0 <= h < |s.tcbs| && s.tcbs[h].state == Ready ==> h in s.sched)
    && (forall i, j :: 0 <= i < j < |s.sched| && s.sched[i] == ROOT ==> s.sched[j] != ROOT)
    && (ROOT in s.sched ==> s.tcbs[ROOT].state == Ready)
  }

  ghost predicate SchedExact(s: State)
    requires InRange(s)
  {
    && NoDup(s.sched)
    && (forall i :: 0 <= i < |s.sched| ==> s.tcbs[s.sched[i]].state == Ready)
  }

  // r is the one running thread; NULL_HANDLE stands for the moment inside a
  // call at which the caller has been parked and nobody has been chosen yet.
  ghost predicate Core(s: State, w: Waits, r: int) {
    && InRange(s)
    && (forall h :: 0 <= h < |s.tcbs| ==> (s.tcbs[h].state == Running <==> h == r))
    && s.tcbs[ROOT].state in {Ready, Running}
    && FreeExact(s)
    && SchedCovers(s)
    && ListsExact(s, w)
  }

  ghost predicate Inv(s: State, w: Waits) {
    Core(s, w, s.running)
  }

  ghost predicate StrictInv(s: State, w: Waits) {
    Inv(s, w) && SchedExact(s)
  }

  // ---------- the waiting lists are first-in first-out ----------

  // The semaphore an operation acts on, if it gets as far as acting.
  function Target(s: State, op: Op): (id: int)
    ensures id == -1 || id >= 0
  {
    match op
    case Wait(id) => id
    case Signal(id) => id
    case WaitOnChannel(channel) => if channel < s.channels then channel else -1
    case RecvNtfn(channel) => if s.running == ROOT && channel < s.channels then channel else -1
    case _ => -1
  }

  predicate IsWait(op: Op) {
    op.Wait? || op.WaitOnChannel?
  }

  predicate IsSignal(op: Op) {
    op.Signal? || op.RecvNtfn?
  }

  // A waiter joins at the back, a signal takes from the front, a fresh
  // semaphore has no waiters, and nothing else touches any list.
  function NextWaits(s: State, w: Waits, op: Op): Waits {
    var id := Target(s, op);
    if op.SemInit? then w[op.id := []]
    else if id == -1 || id !in w || id !in s.sems || s.sems[id].isSet then w
    else if IsWait(op) then w[id := w[id] + [s.running]]
    else if IsSignal(op) && w[id] != [] then w[id := w[id][1..]]
    else w
  }

  // ---------- counting ----------

  lemma {:induction false} NoDupLength(q: seq<int>, n: nat, hole: int)
    requires NoDup(q)
    requires forall i :: 0 <= i < |q| ==> 0 <= q[i] < n && q[i] != hole
    requires 0 <= hole < n
    ensures |q| < n
  {
    var elements := set i | 0 <= i < |q| :: q[i];
    DistinctElements(q);
    assert elements <= Below(n) - {hole};
    SubsetSize(elements, Below(n) - {hole});
  }

  function Below(n: nat): (all: set<int>)
    ensures forall h :: h in all <==> 0 <= h < n
    ensures |all| == n
  {
    if n == 0 then {} else Below(n - 1) + {n - 1}
  }

  lemma {:induction false} DistinctElements(q: seq<int>)
    requires NoDup(q)
    ensures |set i | 0 <= i < |q| :: q[i]| == |q|
  {
    if q != [] {
      var k := |q| - 1;
      DistinctElements(q[..k]);
      var front := set i | 0 <= i < |q[..k]| :: q[..k][i];
      assert (set i | 0 <= i < |q| :: q[i]) == front + {q[k]} by {
        forall i | 0 <= i < |q| ensures q[i] in front + {q[k]} {
          if i < k { assert q[..k][i] == q[i]; }
        }
      }
    }
  }

  lemma SubsetSize<T>(a: set<T>, b: set<T>)
    requires a <= b
    ensures |a| <= |b|
  {
    assert b == a + (b - a);
  }

  // In the strict regime the scheduling queue has room whenever somebody runs.
  lemma SchedHasRoom(s: State, w: Waits)
    requires StrictInv(s, w)
    ensures |s.sched| < |s.tcbs|
  {
    NoDupLength(s.sched, |s.tcbs|, s.running);
  }

  // The queue of free handles has room in both regimes.
  lemma FreeHasRoom(s: State, w: Waits)
    requires Inv(s, w)
    ensures |s.free| < |s.tcbs|
  {
    assert forall i :: 0 <= i < |s.free| ==> s.free[i] in s.free;
    NoDupLength(s.free, |s.tcbs|, s.running);
  }

  // ---------- choosing the next thread ----------

  // With nobody running, root is in the queue, so the scheduler finds someone
  // and the fallback to root is never taken.
  lemma SomebodyEligible(s: State, w: Waits)
    requires Core(s, w, NULL_HANDLE)
    ensures FirstEligible(s.tcbs, s.sched) < |s.sched|
    ensures Choice(s.tcbs, s.sched) != NULL_HANDLE
  {
    assert ROOT in s.sched;
  }

  lemma GoNextKeepsInv(s: State, w: Waits)
    requires Core(s, w, NULL_HANDLE)
    ensures Inv(GoNext(s), w)
  {
    SomebodyEligible(s, w);
    var k := FirstEligible(s.tcbs, s.sched);
    var next := s.sched[k];
    var s' := GoNext(s);
    assert next == ROOT ==> s.tcbs[ROOT].state == Ready;
    forall h | 0 <= h < |s'.tcbs| && s'.tcbs[h].state == Ready
      ensures h in s'.sched
    {
      var i :| 0 <= i < |s.sched| && s.sched[i] == h;
      assert i > k;
      assert s'.sched[i - k - 1] == h;
    }
    assert forall i :: 0 <= i < |s'.sched| ==> s'.sched[i] == s.sched[i + k + 1];
    ListsSurviveStates(s, s', w, next);
  }

  lemma GoNextKeepsExact(s: State, w: Waits)
    requires Core(s, w, NULL_HANDLE) && SchedExact(s)
    ensures SchedExact(GoNext(s))
    ensures FirstEligible(s.tcbs, s.sched) == 0
  {
    SomebodyEligible(s, w);
    assert Eligible(s.tcbs, s.sched[0]);
    var s' := GoNext(s);
    assert forall i :: 0 <= i < |s'.sched| ==> s'.sched[i] == s.sched[i + 1];
  }

  // The lists do not notice a change of one ready or running thread's state.
  lemma ListsSurviveStates(s: State, s': State, w: Waits, h: int)
    requires ListsExact(s, w)
    requires 0 <= h < |s.tcbs| && s.tcbs[h].state in {Ready, Running}
    requires s'.sems == s.sems
    requires |s'.tcbs| == |s.tcbs| && s'.tcbs[h].state in {Ready, Running} && s'.tcbs[h].next == s.tcbs[h].next
    requires forall j :: 0 <= j < |s.tcbs| && j != h ==> s'.tcbs[j] == s.tcbs[j]
    ensures ListsExact(s', w)
  {
    forall id | id in w ensures Chain(s'.tcbs, s'.sems[id], w[id]) {
      assert forall i :: 0 <= i < |w[id]| ==> Waiting(w, id, w[id][i]);
    }
  }

  // ---------- each call keeps the invariant ----------

  lemma InitialStateHasInv(channels: nat, stackSize: nat, stacks: seq<nat>, rootHandle: int)
    requires 1 <= |stacks|
    ensures StrictInv(InitialState(channels, stackSize, stacks, rootHandle), NoWaiters(channels))
  {
    var s := InitialState(channels, stackSize, stacks, rootHandle);
    forall h | 0 < h < |s.tcbs| ensures h in s.free {
      assert s.free[h - 1] == h;
    }
    assert s.sems.Keys == NoWaiters(channels).Keys;
  }

  function NoWaiters(channels: nat): (w: Waits)
    ensures forall c: nat :: c in w <==> c < channels
    ensures forall c: nat :: c < channels ==> w[c] == []
  {
    if channels == 0 then map[] else NoWaiters(channels - 1)[channels - 1 := []]
  }

  lemma ParkReadyParks(s: State, w: Waits)
    requires Inv(s, w) && |s.sched| < |s.tcbs|
    ensures Core(ParkReady(s), w, NULL_HANDLE)
    ensures SchedExact(s) ==> SchedExact(ParkReady(s))
  {
    var s' := ParkReady(s);
    assert s'.sched[|s.sched|] == s.running;
    forall h | 0 <= h < |s'.tcbs| && s'.tcbs[h].state == Ready ensures h in s'.sched {
      if h != s.running { assert h in s.sched; }
    }
    ListsSurviveStates(s, s', w, s.running);
    if SchedExact(s) {
      assert forall i :: 0 <= i < |s.sched| ==> s.sched[i] != s.running;
    }
  }

  lemma SpawnKeepsInv(s: State, w: Waits, entry: nat, arg: int)
    requires Inv(s, w) && !SpawnCall(s, entry, arg).report.Panicked?
    ensures Inv(SpawnCall(s, entry, arg).state, w)
    ensures SchedExact(s) ==> SchedExact(SpawnCall(s, entry, arg).state)
  {
    if s.free != [] {
      var s' := SpawnCall(s, entry, arg).state;
      var h := s.free[0];
      assert h in s.free;
      assert s'.sched[|s.sched|] == h;
      assert forall i :: 0 <= i < |s'.free| ==> s'.free[i] == s.free[i + 1];
      forall j | 0 <= j < |s'.tcbs| ensures j in s'.free <==> s'.tcbs[j].state == NotActive {
        if j != h && j in s.free {
          var i :| 0 <= i < |s.free| && s.free[i] == j;
          assert s'.free[i - 1] == j;
        }
      }
      forall j | 0 <= j < |s'.tcbs| && s'.tcbs[j].state == Ready ensures j in s'.sched {
        if j != h { assert j in s.sched; }
      }
      SpawnKeepsLists(s, w, entry, arg);
      if SchedExact(s) {
        assert forall i :: 0 <= i < |s.sched| ==> s.sched[i] != h;
      }
    }
  }

  lemma SpawnKeepsLists(s: State, w: Waits, entry: nat, arg: int)
    requires Inv(s, w) && !SpawnCall(s, entry, arg).report.Panicked? && s.free != []
    ensures ListsExact(SpawnCall(s, entry, arg).state, w)
  {
    var s' := SpawnCall(s, entry, arg).state;
    assert s.free[0] in s.free;
    forall id | id in w ensures Chain(s'.tcbs, s'.sems[id], w[id]) {
      assert forall i :: 0 <= i < |w[id]| ==> Waiting(w, id, w[id][i]);
    }
  }

  lemma ReleaseKeepsCore(s: State, w: Waits, h: int)
    requires Inv(s, w) && 0 < h < |s.tcbs| && s.tcbs[h].state in {Ready, Running} && |s.free| < |s.tcbs|
    ensures Core(Release(s, h), w, if h == s.running then NULL_HANDLE else s.running)
    ensures SchedExact(s) && h == s.running ==> SchedExact(Release(s, h))
  {
    var s' := Release(s, h);
    assert h !in s.free;
    assert s'.free[|s.free|] == h;
    assert forall i :: 0 <= i < |s.free| ==> s'.free[i] == s.free[i];
    forall j | 0 <= j < |s'.tcbs| ensures j in s'.free <==> s'.tcbs[j].state == NotActive {
      if j in s.free {
        assert j in s'.free;
      }
    }
    forall id | id in w ensures Chain(s'.tcbs, s'.sems[id], w[id]) {
      assert forall i :: 0 <= i < |w[id]| ==> Waiting(w, id, w[id][i]);
    }
  }

  // ---------- intrusive lists ----------

  lemma ChainFrame(tcbs: seq<Tcb>, tcbs': seq<Tcb>, sem: Sem, q: seq<int>)
    requires |tcbs'| == |tcbs| && Chain(tcbs, sem, q)
    requires forall i :: 0 <= i < |q| ==> tcbs'[q[i]].next == tcbs[q[i]].next
    ensures Chain(tcbs', sem, q)
  {
  }

  // Linking a new handle behind the tail appends it to the chain.
  lemma ChainAppend(tcbs: seq<Tcb>, sem: Sem, q: seq<int>, r: int)
    requires Chain(tcbs, sem, q) && NoDup(q) && r !in q
    requires 0 <= r < |tcbs| && tcbs[r].next == NULL_HANDLE
    ensures q == [] ==> Chain(tcbs, sem.(head := r, tail := r), [r])
    ensures q != [] ==> Chain(SetNext(tcbs, sem.tail, r), sem.(tail := r), q + [r])
  {
    if q != [] {
      var tcbs' := SetNext(tcbs, sem.tail, r);
      var q' := q + [r];
      forall i | 0 <= i < |q'| - 1 ensures tcbs'[q'[i]].next == q'[i + 1] {
        if i < |q| - 1 { assert q[i] != q[|q| - 1]; }
      }
    }
  }

  // Unlinking the head leaves the chain of the others, and the next handle is
  // NULL_HANDLE exactly when there are no others.
  lemma ChainPop(tcbs: seq<Tcb>, sem: Sem, q: seq<int>)
    requires Chain(tcbs, sem, q) && NoDup(q) && q != []
    ensures tcbs[sem.head].next == NULL_HANDLE <==> |q| == 1
    ensures Chain(SetNext(tcbs, sem.head, NULL_HANDLE),
                  if |q| == 1 then FRESH_SEM else sem.(head := tcbs[sem.head].next), q[1..])
  {
    assert |q| > 1 ==> tcbs[q[0]].next == q[0 + 1];
    assert forall i :: 0 <= i < |q[1..]| ==> q[1..][i] == q[i + 1] && q[i + 1] != q[0];
  }

  lemma WaitingAppend(w: Waits, id: nat, r: int)
    requires id in w && Disjoint(w) && forall other :: !Waiting(w, other, r)
    ensures var w' := w[id := w[id] + [r]];
            && Disjoint(w')
            && (forall other, h :: Waiting(w', other, h) <==> Waiting(w, other, h) || (other == id && h == r))
  {
    var w' := w[id := w[id] + [r]];
    assert !Waiting(w, id, r);
    forall other, h ensures Waiting(w', other, h) <==> Waiting(w, other, h) || (other == id && h == r) {
      if other == id {
        assert h in w'[id] <==> h in w[id] || h == r;
      }
    }
    assert NoDup(w'[id]);
  }

  lemma WaitingPop(w: Waits, id: nat)
    requires id in w && Disjoint(w) && w[id] != []
    ensures var w' := w[id := w[id][1..]];
            && Disjoint(w')
            && (forall other, h :: Waiting(w', other, h) <==> Waiting(w, other, h) && h != w[id][0])
  {
    var w' := w[id := w[id][1..]];
    var head := w[id][0];
    assert Waiting(w, id, head);
    assert w[id] == [head] + w'[id];
    assert head !in w'[id];
    forall other, h ensures Waiting(w', other, h) <==> Waiting(w, other, h) && h != head {
      if other != id && Waiting(w, other, h) {
        assert h != head;
      }
    }
    assert NoDup(w'[id]);
  }

  // ---------- wait ----------

  lemma ParkBlockedKeepsChains(s: State, w: Waits, id: nat, other: nat)
    requires Inv(s, w) && id in s.sems && !s.sems[id].isSet && other in w
    ensures Chain(ParkBlocked(s, id).tcbs, ParkBlocked(s, id).sems[other],
                  if other == id then w[id] + [s.running] else w[other])
  {
    var s' := ParkBlocked(s, id);
    var blocked := SetState(s.tcbs, s.running, Blocked);
    assert !Waiting(w, id, s.running);
    ChainFrame(s.tcbs, blocked, s.sems[other], w[other]);
    if other == id {
      ChainAppend(blocked, s.sems[id], w[id], s.running);
      assert w[id] == [] ==> w[id] + [s.running] == [s.running];
    } else if w[id] != [] {
      assert Waiting(w, id, s.sems[id].tail);
      assert !Waiting(w, other, s.sems[id].tail);
      ChainFrame(blocked, s'.tcbs, s.sems[other], w[other]);
    }
  }

  // Only the caller's state changes, and only blocked threads' next fields.
  lemma ParkBlockedStates(s: State, w: Waits, id: nat)
    requires Inv(s, w) && id in s.sems && !s.sems[id].isSet
    ensures var s' := ParkBlocked(s, id);
            && s'.tcbs[s.running].state == Blocked
            && (forall h :: 0 <= h < |s.tcbs| && h != s.running ==> s'.tcbs[h].state == s.tcbs[h].state)
            && (forall h :: 0 <= h < |s.tcbs| && s'.tcbs[h].state != Blocked ==> s'.tcbs[h].next == s.tcbs[h].next)
  {
    if w[id] != [] {
      assert Waiting(w, id, s.sems[id].tail);
    }
  }

  lemma ParkBlockedKeepsLists(s: State, w: Waits, id: nat)
    requires Inv(s, w) && id in s.sems && !s.sems[id].isSet && s.running != ROOT
    ensures ListsExact(ParkBlocked(s, id), w[id := w[id] + [s.running]])
  {
    var s' := ParkBlocked(s, id);
    var w' := w[id := w[id] + [s.running]];
    forall other | other in w' ensures Chain(s'.tcbs, s'.sems[other], w'[other]) {
      ParkBlockedKeepsChains(s, w, id, other);
    }
    assert Linked(s', w');
    ParkBlockedStates(s, w, id);
    BlockedAfterAppend(s.tcbs, s'.tcbs, w, id, s.running);
  }

  lemma BlockedAfterAppend(tcbs: seq<Tcb>, tcbs': seq<Tcb>, w: Waits, id: nat, r: int)
    requires id in w && Disjoint(w) && BlockedExact(tcbs, w)
    requires 0 <= r < |tcbs| == |tcbs'| && tcbs[r].state != Blocked && tcbs'[r].state == Blocked
    requires forall h :: 0 <= h < |tcbs| && h != r ==> tcbs'[h].state == tcbs[h].state
    ensures var w' := w[id := w[id] + [r]]; Disjoint(w') && BlockedExact(tcbs', w')
  {
    var w' := w[id := w[id] + [r]];
    WaitingAppend(w, id, r);
    forall h | 0 <= h < |tcbs'| && tcbs'[h].state == Blocked ensures exists other :: Waiting(w', other, h) {
      if h == r {
        assert Waiting(w', id, h);
      } else {
        var other :| Waiting(w, other, h);
        assert Waiting(w', other, h);
      }
    }
  }

  lemma QueuesAfterBlocking(s: State, s': State, w: Waits)
    requires Inv(s, w) && InRange(s') && s.running != ROOT
    requires s'.free == s.free && s'.sched == s.sched && |s'.tcbs| == |s.tcbs|
    requires s'.tcbs[s.running].state == Blocked
    requires forall h :: 0 <= h < |s.tcbs| && h != s.running ==> s'.tcbs[h].state == s.tcbs[h].state
    ensures FreeExact(s') && SchedCovers(s')
    ensures SchedExact(s) ==> SchedExact(s')
  {
  }

  lemma ParkBlockedParks(s: State, w: Waits, id: nat)
    requires Inv(s, w) && id in s.sems && !s.sems[id].isSet && s.running != ROOT
    ensures Core(ParkBlocked(s, id), w[id := w[id] + [s.running]], NULL_HANDLE)
    ensures SchedExact(s) ==> SchedExact(ParkBlocked(s, id))
  {
    var s' := ParkBlocked(s, id);
    ParkBlockedStates(s, w, id);
    QueuesAfterBlocking(s, s', w);
    ParkBlockedKeepsLists(s, w, id);
  }

  // ---------- signal ----------

  // A signal that finds a waiter and room for its caller.
  ghost predicate Wakes(s: State, w: Waits, id: nat) {
    Inv(s, w) && id in w && w[id] != [] && |s.sched| < |s.tcbs|
  }

  lemma SignalStates(s: State, w: Waits, id: nat)
    requires Wakes(s, w, id)
    ensures var r := SignalCall(s, id);
            var head := w[id][0];
            && r.report == Switched && r.state.running == head && head != s.running && head != ROOT
            && 0 <= head < |s.tcbs| == |r.state.tcbs|
            && s.tcbs[head].state == Blocked && r.state.tcbs[head].state == Running && r.state.tcbs[head].next == NULL_HANDLE
            && r.state.tcbs[s.running].state == Ready && r.state.tcbs[s.running].next == NULL_HANDLE
            && (forall h :: 0 <= h < |s.tcbs| && h != s.running && h != head ==> r.state.tcbs[h] == s.tcbs[h])
            && r.state.sched == s.sched + [s.running] && r.state.free == s.free
  {
    assert Waiting(w, id, w[id][0]);
    assert s.sems[id].head == w[id][0];
  }

  lemma SignalPopsItsChain(s: State, w: Waits, id: nat)
    requires Wakes(s, w, id)
    ensures Chain(SignalCall(s, id).state.tcbs, SignalCall(s, id).state.sems[id], w[id][1..])
    ensures !SignalCall(s, id).state.sems[id].isSet
  {
    var s' := SignalCall(s, id).state;
    SignalStates(s, w, id);
    ChainPop(s.tcbs, s.sems[id], w[id]);
    var popped := SetNext(s.tcbs, w[id][0], NULL_HANDLE);
    ChainFrame(popped, s'.tcbs, s'.sems[id], w[id][1..]);
  }

  lemma SignalKeepsOtherChains(s: State, w: Waits, id: nat, other: nat)
    requires Wakes(s, w, id) && other in w && other != id
    ensures Chain(SignalCall(s, id).state.tcbs, SignalCall(s, id).state.sems[other], w[other])
  {
    SignalStates(s, w, id);
    assert Waiting(w, id, w[id][0]);
    assert forall i :: 0 <= i < |w[other]| ==> Waiting(w, other, w[other][i]);
    ChainFrame(s.tcbs, SignalCall(s, id).state.tcbs, s.sems[other], w[other]);
  }

  lemma BlockedAfterPop(tcbs: seq<Tcb>, tcbs': seq<Tcb>, w: Waits, id: nat)
    requires id in w && w[id] != [] && Disjoint(w) && BlockedExact(tcbs, w)
    requires |tcbs| == |tcbs'| && 0 <= w[id][0] < |tcbs| && tcbs'[w[id][0]].state != Blocked
    requires forall h :: 0 <= h < |tcbs| && h != w[id][0] ==> (tcbs'[h].state == Blocked <==> tcbs[h].state == Blocked)
    ensures var w' := w[id := w[id][1..]]; Disjoint(w') && BlockedExact(tcbs', w')
  {
    var w' := w[id := w[id][1..]];
    WaitingPop(w, id);
    forall h | 0 <= h < |tcbs'| && tcbs'[h].state == Blocked ensures exists other :: Waiting(w', other, h) {
      var other :| Waiting(w, other, h);
      assert Waiting(w', other, h);
    }
  }

  lemma SignalKeepsLists(s: State, w: Waits, id: nat)
    requires Wakes(s, w, id)
    ensures ListsExact(SignalCall(s, id).state, w[id := w[id][1..]])
  {
    var s' := SignalCall(s, id).state;
    var w' := w[id := w[id][1..]];
    SignalStates(s, w, id);
    SignalPopsItsChain(s, w, id);
    forall other | other in w' ensures Chain(s'.tcbs, s'.sems[other], w'[other]) {
      if other != id { SignalKeepsOtherChains(s, w, id, other); }
    }
    assert Linked(s', w');
    BlockedAfterPop(s.tcbs, s'.tcbs, w, id);
  }

  // The caller is queued ready and a blocked thread runs.
  ghost predicate Woken(s: State, s': State, head: int) {
    && 0 <= s.running < |s.tcbs| == |s'.tcbs|
    && s'.free == s.free && s'.sched == s.sched + [s.running]
    && 0 < head < |s.tcbs| && s.tcbs[head].state == Blocked && s'.tcbs[head].state == Running
    && s'.tcbs[s.running].state == Ready
    && (forall h :: 0 <= h < |s.tcbs| && h != s.running && h != head ==> s'.tcbs[h].state == s.tcbs[h].state)
  }

  lemma FreeAfterWaking(s: State, s': State, head: int)
    requires Woken(s, s', head) && FreeExact(s) && s.tcbs[s.running].state == Running
    ensures FreeExact(s')
  {
  }

  lemma SchedAfterWaking(s: State, s': State, head: int)
    requires InRange(s) && InRange(s') && Woken(s, s', head) && SchedCovers(s) && s.tcbs[s.running].state == Running
    ensures SchedCovers(s')
    ensures SchedExact(s) ==> SchedExact(s')
  {
    assert s'.sched[|s.sched|] == s.running;
    forall h | 0 <= h < |s'.tcbs| && s'.tcbs[h].state == Ready ensures h in s'.sched {
      if h != s.running { assert h in s.sched; }
    }
    if SchedExact(s) {
      assert forall i :: 0 <= i < |s.sched| ==> s.sched[i] != s.running && s.sched[i] != head;
    }
  }

  lemma SignalKeepsInv(s: State, w: Waits, id: nat)
    requires Wakes(s, w, id)
    ensures Inv(SignalCall(s, id).state, w[id := w[id][1..]])
    ensures SchedExact(s) ==> SchedExact(SignalCall(s, id).state)
  {
    SignalStates(s, w, id);
    FreeAfterWaking(s, SignalCall(s, id).state, w[id][0]);
    SchedAfterWaking(s, SignalCall(s, id).state, w[id][0]);
    SignalKeepsLists(s, w, id);
  }

  // ---------- the flag ----------

  // Changing one flag, or making a semaphore fresh, moves no thread.
  lemma FlagKeepsInv(s: State, w: Waits, id: nat, sem: Sem)
    requires Inv(s, w) && (id in s.sems ==> w[id] == []) && sem.head == NULL_HANDLE && sem.tail == NULL_HANDLE
    ensures Inv(s.(sems := s.sems[id := sem]), w[id := []])
    ensures SchedExact(s) ==> SchedExact(s.(sems := s.sems[id := sem]))
  {
    hide Chain, Waiting;
    var s' := s.(sems := s.sems[id := sem]);
    var w' := w[id := []];
    FlagKeepsLinked(s, w, id, sem);
    SameWaiting(s.tcbs, w, w');
  }

  lemma FlagKeepsLinked(s: State, w: Waits, id: nat, sem: Sem)
    requires Linked(s, w) && sem.head == NULL_HANDLE && sem.tail == NULL_HANDLE
    ensures Linked(s.(sems := s.sems[id := sem]), w[id := []])
  {
    var s', w' := s.(sems := s.sems[id := sem]), w[id := []];
    forall other | other in w' ensures Chain(s'.tcbs, s'.sems[other], w'[other]) {
      assert other != id ==> Chain(s.tcbs, s.sems[other], w[other]);
    }
  }

  lemma SameWaiting(tcbs: seq<Tcb>, w: Waits, w': Waits)
    requires Disjoint(w) && BlockedExact(tcbs, w)
    requires w.Keys <= w'.Keys && forall id :: id in w' ==> w'[id] == if id in w then w[id] else []
    ensures Disjoint(w') && BlockedExact(tcbs, w')
  {
    assert forall id, h :: Waiting(w', id, h) <==> Waiting(w, id, h);
    forall h | 0 <= h < |tcbs| && tcbs[h].state == Blocked ensures exists id :: Waiting(w', id, h) {
      var id :| Waiting(w, id, h);
      assert Waiting(w', id, h);
    }
  }

  // ---------- every call ----------

  lemma YieldKeepsInv(s: State, w: Waits)
    requires Inv(s, w) && |s.sched| < |s.tcbs|
    ensures Inv(GoNext(ParkReady(s)), w)
    ensures SchedExact(s) ==> SchedExact(GoNext(ParkReady(s)))
  {
    ParkReadyParks(s, w);
    GoNextKeepsInv(ParkReady(s), w);
    if SchedExact(s) { GoNextKeepsExact(ParkReady(s), w); }
  }

  lemma DestroyKeepsInv(s: State, w: Waits, h: int)
    requires Inv(s, w) && MayDestroy(s, h) && !DestroyCall(s, h).report.Panicked?
    ensures Inv(DestroyCall(s, h).state, w)
    ensures SchedExact(s) && h == s.running ==> SchedExact(DestroyCall(s, h).state)
  {
    ReleaseKeepsCore(s, w, h);
    if h == s.running {
      GoNextKeepsInv(Release(s, h), w);
      if SchedExact(s) { GoNextKeepsExact(Release(s, h), w); }
    }
  }

  lemma WaitKeepsInv(s: State, w: Waits, id: nat)
    requires Inv(s, w) && id in s.sems && MayWait(s, id)
    ensures var w' := if s.sems[id].isSet then w else w[id := w[id] + [s.running]];
            Inv(WaitCall(s, id).state, w')
    ensures SchedExact(s) ==> SchedExact(WaitCall(s, id).state)
  {
    if s.sems[id].isSet {
      FlagKeepsInv(s, w, id, s.sems[id].(isSet := false));
      assert w[id := []] == w;
    } else {
      ParkBlockedParks(s, w, id);
      var w' := w[id := w[id] + [s.running]];
      GoNextKeepsInv(ParkBlocked(s, id), w');
      if SchedExact(s) { GoNextKeepsExact(ParkBlocked(s, id), w'); }
    }
  }

  lemma SignalStepKeepsInv(s: State, w: Waits, id: nat)
    requires Inv(s, w) && id in s.sems && !SignalCall(s, id).report.Panicked?
    ensures var w' := if s.sems[id].isSet || w[id] == [] then w else w[id := w[id][1..]];
            Inv(SignalCall(s, id).state, w')
    ensures SchedExact(s) ==> SchedExact(SignalCall(s, id).state)
  {
    if s.sems[id].isSet {
    } else if w[id] == [] {
      FlagKeepsInv(s, w, id, s.sems[id].(isSet := true));
      assert w[id := []] == w;
    } else {
      SignalKeepsInv(s, w, id);
    }
  }

  // Every legal call that does not panic keeps the invariant, and the waiting
  // lists behave as first-in first-out sequences.
  lemma StepKeepsInv(s: State, w: Waits, op: Op)
    requires Inv(s, w) && Legal(s, op) && !Apply(s, op).report.Panicked?
    ensures Inv(Apply(s, op).state, NextWaits(s, w, op))
    ensures SchedExact(s) && LegalStrict(s, op) ==> SchedExact(Apply(s, op).state)
  {
    if IsWait(op) {
      WaitStep(s, w, op);
    } else if IsSignal(op) {
      SignalStep(s, w, op);
    } else {
      OtherStep(s, w, op);
    }
  }

  lemma OtherStep(s: State, w: Waits, op: Op)
    requires Inv(s, w) && Legal(s, op) && !Apply(s, op).report.Panicked? && !IsWait(op) && !IsSignal(op)
    ensures Inv(Apply(s, op).state, NextWaits(s, w, op))
    ensures SchedExact(s) && LegalStrict(s, op) ==> SchedExact(Apply(s, op).state)
  {
    var o, w' := Apply(s, op), NextWaits(s, w, op);
    match op {
      case Spawn(entry, arg) =>
        assert o == SpawnCall(s, entry, arg) && w' == w;
        SpawnKeepsInv(s, w, entry, arg);
      case Yield =>
        assert o.state == GoNext(ParkReady(s)) && w' == w;
        YieldKeepsInv(s, w);
      case Destroy(h) =>
        assert o == DestroyCall(s, h) && w' == w;
        DestroyKeepsInv(s, w, h);
      case Return =>
        assert o == DestroyCall(s, s.running) && w' == w;
        DestroyKeepsInv(s, w, s.running);
      case SemInit(id) =>
        assert o == SemInitCall(s, id) && w' == w[id := []];
        FlagKeepsInv(s, w, id, FRESH_SEM);
    }
    assert Inv(o.state, w');
  }

  // The wrappers are the calls on the semaphore that the channel maps to.
  lemma WaitIs(s: State, op: Op)
    requires InRange(s) && Legal(s, op) && !Apply(s, op).report.Panicked? && IsWait(op)
    ensures var id := Target(s, op); id in s.sems && MayWait(s, id) && Apply(s, op) == WaitCall(s, id)
  {
  }

  lemma SignalIs(s: State, op: Op)
    requires InRange(s) && Legal(s, op) && !Apply(s, op).report.Panicked? && IsSignal(op)
    ensures var id := Target(s, op); id in s.sems && Apply(s, op) == SignalCall(s, id)
  {
  }

  lemma NextWaitsIs(s: State, w: Waits, op: Op)
    requires w.Keys == s.sems.Keys && Target(s, op) in s.sems && (IsWait(op) || IsSignal(op))
    ensures var id := Target(s, op);
            NextWaits(s, w, op) == if s.sems[id].isSet then w
                                   else if IsWait(op) then w[id := w[id] + [s.running]]
                                   else if w[id] != [] then w[id := w[id][1..]]
                                   else w
  {
  }

  lemma WaitStep(s: State, w: Waits, op: Op)
    requires Inv(s, w) && Legal(s, op) && !Apply(s, op).report.Panicked? && IsWait(op)
    ensures Inv(Apply(s, op).state, NextWaits(s, w, op))
    ensures SchedExact(s) ==> SchedExact(Apply(s, op).state)
  {
    WaitIs(s, op);
    NextWaitsIs(s, w, op);
    WaitKeepsInv(s, w, Target(s, op));
  }

  lemma SignalStep(s: State, w: Waits, op: Op)
    requires Inv(s, w) && Legal(s, op) && !Apply(s, op).report.Panicked? && IsSignal(op)
    ensures Inv(Apply(s, op).state, NextWaits(s, w, op))
    ensures SchedExact(s) ==> SchedExact(Apply(s, op).state)
  {
    SignalIs(s, op);
    NextWaitsIs(s, w, op);
    SignalStepKeepsInv(s, w, Target(s, op));
  }
}
