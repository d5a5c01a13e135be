// The controller of libmicrokitco.c: thread control blocks in an array, two
// hosted queues, and semaphores as objects whose waiting lists run through the
// next fields of the control blocks.
//
// Every method is proved equal, on the whole state, to the function of the same
// call in Scheduler.dfy. co_switch itself is not called: a method that would
// switch reports Switched, with running naming the thread that control goes to.
module Controllers {
  import opened Scheduler
  import opened HostedQueue

  const ADDRESS_SPACE: nat := 0x1_0000_0000_0000_0000

  const ZERO_TCB: Tcb := Tcb(0, 0, 0, 0, NotActive, 0)

  class Semaphore {
    ghost const id: nat
    var isSet: bool
    var head: int
    var tail: int

    ghost function Value(): Sem
      reads this
    {
      Sem(isSet, head, tail)
    }

    // An uninitialised semaphore that the proof knows under this name.
    constructor (ghost id: nat)
      ensures this.id == id
    {
      this.id := id;
      isSet, head, tail := false, 0, 0;
    }

    // microkit_cothread_semaphore_init
    method Init()
      modifies this
      ensures Value() == FRESH_SEM
    {
      head := NULL_HANDLE;
      tail := NULL_HANDLE;
      isSet := false;
    }

    method IsQueueEmpty() returns (empty: bool)
      ensures empty == (Value().head == NULL_HANDLE)
    {
      return head == NULL_HANDLE;
    }

    method IsSet() returns (set_: bool)
      ensures set_ == Value().isSet
    {
      return isSet;
    }
  }

  class Controller {
    const tcbs: array<Tcb>
    const freeQueue: Queue
    const schedQueue: Queue
    const channelMap: seq<Semaphore>
    var stackSize: nat
    var running: int
    // co_controller != NULL
    var initialised: bool
    // the semaphores that have been initialised, by name, and their values
    ghost var known: map<nat, Semaphore>
    ghost var sems: map<nat, Sem>

    // The objects are distinct and of the right sizes.
    ghost predicate Laid() {
      && 2 <= tcbs.Length < 0x1_0000_0000
      && freeQueue != schedQueue
      && freeQueue.memory != schedQueue.memory
      && freeQueue.memory.Length == schedQueue.memory.Length == tcbs.Length
      && (forall c, d :: 0 <= c < d < |channelMap| ==> channelMap[c] != channelMap[d])
      && (forall c :: 0 <= c < |channelMap| ==> channelMap[c].id == c)
    }

    // What every method leaves besides the state that it promises; that the
    // state can be worked on further is a postcondition of the functions.
    // The parts are usable and every semaphore is known by its own name.
    ghost predicate Usable()
      reads this`known, this`sems, freeQueue, schedQueue, known.Values
    {
      && Laid()
      && freeQueue.Valid() && schedQueue.Valid()
      && known.Keys == sems.Keys
      && (forall id :: id in known ==> known[id].id == id)
      && (forall id :: id in known ==> sems[id] == Sem(known[id].isSet, known[id].head, known[id].tail))
      && (forall c :: 0 <= c < |channelMap| ==> c in known && known[c] == channelMap[c])
    }

    ghost predicate Wf()
      reads this, tcbs, known.Values
      reads freeQueue, freeQueue.memory, schedQueue, schedQueue.memory
    {
      Usable() && InRange(View())
    }

    ghost function View(): State
      requires freeQueue.Valid() && schedQueue.Valid()
      reads this, tcbs, freeQueue, freeQueue.memory, schedQueue, schedQueue.memory
    {
      State(|channelMap|, stackSize, tcbs[..], running, schedQueue.Contents(), freeQueue.Contents(), sems)
    }

    // The memory that the client provides, with a zeroed controller in it.
    constructor (maxCothreads: uint32, channels: nat)
      requires 2 <= maxCothreads
      ensures Laid() && !initialised && known == map[]
      ensures tcbs.Length == maxCothreads as int && |channelMap| == channels
      ensures fresh(tcbs) && fresh(freeQueue) && fresh(schedQueue) && fresh(freeQueue.memory) && fresh(schedQueue.memory)
      ensures forall c :: 0 <= c < channels ==> fresh(channelMap[c])
    {
      var freeMemory := new int[maxCothreads](_ => 0);
      var schedMemory := new int[maxCothreads](_ => 0);
      var map_: seq<Semaphore> := [];
      for c := 0 to channels
        invariant |map_| == c
        invariant forall i :: 0 <= i < c ==> fresh(map_[i]) && map_[i].id == i
        invariant forall i, j :: 0 <= i < j < c ==> map_[i] != map_[j]
      {
        var sem := new Semaphore(c);
        map_ := map_ + [sem];
      }
      tcbs := new Tcb[maxCothreads](_ => ZERO_TCB);
      freeQueue := new Queue(freeMemory);
      schedQueue := new Queue(schedMemory);
      channelMap := map_;
      stackSize, running, initialised, known, sems := 0, 0, false, map[], map[];
    }

    // ---------- helpers ----------

    method InternalSchedule() returns (choice: int)
      requires Wf()
      modifies schedQueue
      ensures Usable()
      ensures choice == Choice(old(View()).tcbs, old(View()).sched)
      ensures View() == old(View()).(sched := AfterChoice(old(View()).tcbs, old(View()).sched))
    {
      ghost var before := View();
      choice := NULL_HANDLE;
      while true
        invariant schedQueue.Valid()
        invariant |schedQueue.Contents()| <= |before.sched|
        invariant forall i :: 0 <= i < |schedQueue.Contents()| ==> 0 <= schedQueue.Contents()[i] < tcbs.Length
        invariant Choice(before.tcbs, before.sched) == Choice(before.tcbs, schedQueue.Contents())
        invariant AfterChoice(before.tcbs, before.sched) == AfterChoice(before.tcbs, schedQueue.Contents())
        decreases |schedQueue.Contents()|
      {
        ghost var q := schedQueue.Contents();
        var status;
        status, choice := schedQueue.Pop();
        SchedulePops(before.tcbs, q);
        if status == Empty {
          choice := NULL_HANDLE;
          break;
        }
        // a pop reports nothing but these two, so no panic branch is left
        assert status == NoErr;
        assert choice == q[0] && schedQueue.Contents() == q[1..];
        if choice == ROOT {
          break;
        } else if tcbs[choice].state == Ready {
          break;
        }
      }
      assert freeQueue.Contents() == before.free && sems == before.sems;
    }

    // Taking the front entry off: either it is the choice or the choice is that
    // of the rest.
    static lemma SchedulePops(tcbs: seq<Tcb>, q: seq<int>)
      ensures q == [] ==> Choice(tcbs, q) == NULL_HANDLE && AfterChoice(tcbs, q) == []
      ensures q != [] && Eligible(tcbs, q[0]) ==> Choice(tcbs, q) == q[0] && AfterChoice(tcbs, q) == q[1..]
      ensures q != [] && !Eligible(tcbs, q[0]) ==>
                Choice(tcbs, q) == Choice(tcbs, q[1..]) && AfterChoice(tcbs, q) == AfterChoice(tcbs, q[1..])
    {
    }

    method InternalGoNext()
      requires Wf()
      modifies this`running, tcbs, schedQueue
      ensures Usable()
      ensures View() == GoNext(old(View()))
    {
      var next := InternalSchedule();
      if next == NULL_HANDLE {
        next := ROOT;
      }
      tcbs[next] := tcbs[next].(state := Running);
      running := next;
      ghost var before, after := old(View()), GoNext(old(View()));
      assert tcbs[..] == SetState(before.tcbs, next, Running) == after.tcbs;
      assert schedQueue.Contents() == after.sched && freeQueue.Contents() == after.free && sems == after.sems;
      assert View() == after;
    }

    // ---------- microkit_cothread_init ----------

    // The comparison of init is the overlap of two byte ranges.
    static lemma OverlapTest(size: nat, a: nat, b: nat)
      requires 0 < size
      ensures StacksOverlap(size, a, b) <==> a <= b + size - 1 && b <= a + size - 1
    {
      if a <= b + size - 1 && b <= a + size - 1 {
        var byte := if a < b then b else a;
        assert StackByte(size, a, byte) && StackByte(size, b, byte);
      }
    }

    // A stack that could be given to init.
    static ghost predicate FitsAddressSpace(coStackSize: nat, coStacks: seq<nat>) {
      forall i :: 0 <= i < |coStacks| ==> coStacks[i] + coStackSize <= ADDRESS_SPACE
    }

    method Init(coStackSize: nat, coStacks: seq<nat>, rootHandle: int) returns (report: Report)
      requires Laid() && |coStacks| == tcbs.Length - 1 && FitsAddressSpace(coStackSize, coStacks)
      modifies this, tcbs, freeQueue, freeQueue.memory, schedQueue, schedQueue.memory, channelMap
      ensures report == InitReport(old(initialised), coStackSize, coStacks)
      ensures report.Returned? ==>
                initialised && Usable() && View() == InitialState(|channelMap|, coStackSize, coStacks, rootHandle)
      ensures report.Returned? ==>
                && stackSize == coStackSize && running == ROOT && tcbs[ROOT].handle == rootHandle
                && (forall h :: 1 <= h < tcbs.Length ==> tcbs[h].storage == coStacks[h - 1])
    {
      if initialised {
        return Panicked(InitAlreadyInitialised);
      }
      if coStackSize < MINIMUM_STACK_SIZE {
        return Panicked(InitStackTooSmall);
      }
      forall h | 0 <= h < tcbs.Length {
        tcbs[h] := ZERO_TCB;
      }
      initialised := true;
      stackSize := coStackSize;
      report := TakeStacks(coStacks);
      if report.Panicked? {
        return;
      }
      report := CheckStacks(coStackSize, coStacks);
      if report.Panicked? {
        return;
      }
      tcbs[ROOT] := Tcb(0, rootHandle, 0, 0, Running, NULL_HANDLE);
      running := ROOT;
      ghost var goal := InitialState(|channelMap|, coStackSize, coStacks, rootHandle);
      assert tcbs[..] == goal.tcbs;
      report := InitQueues();
      if report.Panicked? {
        return;
      }
      assert freeQueue.Contents() == goal.free;
      InitChannels();
      assert sems == goal.sems;
      assert View() == goal;
      return Returned(0);
    }

    // The first loop of init.
    method TakeStacks(coStacks: seq<nat>) returns (report: Report)
      requires |coStacks| == tcbs.Length - 1
      modifies tcbs
      ensures report == if 0 in coStacks then Panicked(InitCoStackNull) else Returned(0)
      ensures report.Returned? ==> tcbs[0] == old(tcbs[0])
      ensures report.Returned? ==>
                forall h :: 1 <= h < tcbs.Length ==> tcbs[h] == old(tcbs[h]).(storage := coStacks[h - 1])
    {
      for i := 1 to tcbs.Length
        invariant 0 !in coStacks[..i - 1]
        invariant tcbs[0] == old(tcbs[0])
        invariant forall h :: 1 <= h < i ==> tcbs[h] == old(tcbs[h]).(storage := coStacks[h - 1])
        invariant forall h :: i <= h < tcbs.Length ==> tcbs[h] == old(tcbs[h])
      {
        tcbs[i] := tcbs[i].(storage := coStacks[i - 1]);
        if tcbs[i].storage == 0 {
          assert coStacks[i - 1] == 0;
          return Panicked(InitCoStackNull);
        }
        assert coStacks[..i] == coStacks[..i - 1] + [coStacks[i - 1]];
      }
      assert coStacks[..|coStacks|] == coStacks;
      return Returned(0);
    }

    // The nested loops of init.
    method CheckStacks(coStackSize: nat, coStacks: seq<nat>) returns (report: Report)
      requires 0 < coStackSize && |coStacks| == tcbs.Length - 1
      requires forall h :: 1 <= h < tcbs.Length ==> tcbs[h].storage == coStacks[h - 1]
      ensures report == if AllDisjoint(coStackSize, coStacks) then Returned(0) else Panicked(InitCoStackOverlap)
    {
      for i := 1 to tcbs.Length
        invariant forall a, b :: 0 <= a < i - 1 && 0 <= b < |coStacks| && a != b ==>
                    !StacksOverlap(coStackSize, coStacks[a], coStacks[b])
      {
        var thisStart := tcbs[i].storage;
        var thisEnd := thisStart + coStackSize - 1;
        for j := 1 to tcbs.Length
          invariant forall b :: 0 <= b < j - 1 && i - 1 != b ==>
                      !StacksOverlap(coStackSize, coStacks[i - 1], coStacks[b])
        {
          if j != i {
            var otherStart := tcbs[j].storage;
            var otherEnd := otherStart + coStackSize - 1;
            OverlapTest(coStackSize, thisStart, otherStart);
            if thisStart <= otherEnd && otherStart <= thisEnd {
              OverlapIsSymmetric(coStackSize, coStacks, i - 1, j - 1);
              return Panicked(InitCoStackOverlap);
            }
          }
        }
      }
      return Returned(0);
    }

    static lemma OverlapIsSymmetric(size: nat, stacks: seq<nat>, a: nat, b: nat)
      requires a < |stacks| && b < |stacks| && a != b && StacksOverlap(size, stacks[a], stacks[b])
      ensures !AllDisjoint(size, stacks)
    {
      var byte :| StackByte(size, stacks[a], byte) && StackByte(size, stacks[b], byte);
      assert StacksOverlap(size, stacks[b], stacks[a]);
    }

    // Both queues start empty, then every handle but root's becomes free.
    method InitQueues() returns (report: Report)
      requires Laid()
      modifies freeQueue, freeQueue.memory, schedQueue
      ensures report == Returned(0) && freeQueue.Valid() && schedQueue.Valid()
      ensures freeQueue.Contents() == seq(tcbs.Length - 1, h => h + 1) && schedQueue.Contents() == []
    {
      var freeStatus := freeQueue.Init(tcbs.Length as uint32);
      var schedStatus := schedQueue.Init(tcbs.Length as uint32);
      if freeStatus != NoErr {
        return Panicked(InitFreeHandlesInitFail);
      }
      if schedStatus != NoErr {
        return Panicked(InitSchedInitFail);
      }
      report := FillFreeQueue();
    }

    // All handles but root's become free, in ascending order.
    method FillFreeQueue() returns (report: Report)
      requires freeQueue.Valid() && freeQueue.Contents() == [] && freeQueue.memory.Length == tcbs.Length >= 1
      modifies freeQueue, freeQueue.memory
      ensures report == Returned(0) && freeQueue.Valid()
      ensures freeQueue.Contents() == seq(tcbs.Length - 1, h => h + 1)
    {
      for i := 1 to tcbs.Length
        invariant freeQueue.Valid()
        invariant freeQueue.Contents() == seq(i - 1, h => h + 1)
      {
        var status := freeQueue.Push(i);
        if status != NoErr {
          return Panicked(InitFreeHandlesPopulateFail);
        }
      }
      return Returned(0);
    }

    // The blocked table.
    method InitChannels()
      requires Laid()
      modifies this`known, this`sems, channelMap
      ensures forall c: nat :: c in known <==> c < |channelMap|
      ensures forall c :: 0 <= c < |channelMap| ==> c in known && known[c] == channelMap[c] && known[c].Value() == FRESH_SEM
      ensures sems == FreshSems(|channelMap|)
    {
      known, sems := map[], map[];
      for c := 0 to |channelMap|
        invariant known.Keys == sems.Keys
        invariant forall d: nat :: d in known <==> d < c
        invariant forall d :: 0 <= d < c ==> known[d] == channelMap[d] && known[d].Value() == sems[d] == FRESH_SEM
      {
        channelMap[c].Init();
        known, sems := known[c := channelMap[c]], sems[c := FRESH_SEM];
      }
    }

    // ---------- semaphores ----------

    method SemaphoreInit(sem: Semaphore)
      requires Wf() && (sem.id in known ==> known[sem.id] == sem)
      modifies this`known, this`sems, sem
      ensures Usable() && known == old(known)[sem.id := sem]
      ensures Outcome(View(), Returned(0)) == SemInitCall(old(View()), sem.id)
      ensures !sem.isSet && sem.head == NULL_HANDLE && sem.tail == NULL_HANDLE
    {
      ghost var after := SemInitCall(View(), sem.id).state;
      sem.Init();
      known, sems := known[sem.id := sem], sems[sem.id := sem.Value()];
      assert sems == after.sems;
      assert schedQueue.Contents() == after.sched && freeQueue.Contents() == after.free;
      assert View() == after;
    }

    method SemaphoreWait(sem: Semaphore) returns (report: Report)
      requires Wf() && sem.id in known && known[sem.id] == sem
      modifies this`running, this`sems, tcbs, schedQueue, sem
      ensures Usable()
      ensures Outcome(View(), report) == WaitCall(old(View()), sem.id)
    {
      ghost var before := View();
      assert before.sems[sem.id] == sem.Value();
      if sem.isSet {
        PutFlag(sem, false);
        return Returned(0);
      }
      LinkBehindTail(sem);
      InternalGoNext();
      return Switched;
    }

    // The part of microkit_cothread_semaphore_wait that blocks the caller.
    method LinkBehindTail(sem: Semaphore)
      requires Wf() && sem.id in known && known[sem.id] == sem
      modifies this`sems, tcbs, sem
      ensures Usable()
      ensures View() == ParkBlocked(old(View()), sem.id)
    {
      ghost var before := View();
      assert before.sems[sem.id] == sem.Value();
      tcbs[running] := tcbs[running].(state := Blocked);
      assert tcbs[..] == SetState(before.tcbs, running, Blocked);
      if sem.head != NULL_HANDLE {
        tcbs[sem.tail] := tcbs[sem.tail].(next := running);
      }
      ghost var after := ParkBlocked(before, sem.id);
      assert tcbs[..] == after.tcbs;
      MoveTail(sem);
      assert sems == after.sems && View() == after;
    }

    // The caller becomes the last waiter, and the first if nobody waited.
    method MoveTail(sem: Semaphore)
      requires Usable() && sem.id in known && known[sem.id] == sem
      modifies this`sems, sem
      ensures Usable()
      ensures var was := old(sem.Value());
              sems == old(sems)[sem.id := was.(head := if was.head == NULL_HANDLE then running else was.head, tail := running)]
    {
      if sem.head == NULL_HANDLE {
        sem.head := running;
      }
      sem.tail := running;
      sems := sems[sem.id := sem.Value()];
    }

    method SemaphoreSignal(sem: Semaphore) returns (report: Report)
      requires Wf() && sem.id in known && known[sem.id] == sem
      modifies this`running, this`sems, tcbs, schedQueue, schedQueue.memory, sem
      ensures Usable()
      ensures Outcome(View(), report) == SignalCall(old(View()), sem.id)
    {
      ghost var before := View();
      assert before.sems[sem.id] == sem.Value();
      var isSet := sem.IsSet();
      if isSet {
        return Returned(0);
      }
      var isEmpty := sem.IsQueueEmpty();
      if isEmpty {
        PutFlag(sem, true);
        return Returned(0);
      }
      report := WakeHead(sem);
    }

    // sem->set = flag
    method PutFlag(sem: Semaphore, flag: bool)
      requires Wf() && sem.id in known && known[sem.id] == sem
      modifies this`sems, sem
      ensures Usable()
      ensures View() == old(View()).(sems := old(View()).sems[sem.id := old(View()).sems[sem.id].(isSet := flag)])
    {
      ghost var before := View();
      sem.isSet := flag;
      sems := sems[sem.id := sem.Value()];
    }

    // The part of microkit_cothread_semaphore_signal that is reached when
    // somebody waits.
    method WakeHead(sem: Semaphore) returns (report: Report)
      requires Wf() && sem.id in known && known[sem.id] == sem && !sem.isSet && sem.head != NULL_HANDLE
      modifies this`running, this`sems, tcbs, schedQueue, schedQueue.memory, sem
      ensures Usable()
      ensures Outcome(View(), report) == SignalCall(old(View()), sem.id)
    {
      ghost var before := View();
      assert before.sems[sem.id] == sem.Value();
      var head := sem.head;
      var next := tcbs[head].next;
      var status := schedQueue.Push(running);
      if status != NoErr {
        assert View() == before;
        return Panicked(SemSignalCannotScheduleCaller);
      }
      assert sems == before.sems && sem.Value() == before.sems[sem.id];
      SwitchToHead(sem, head, next);
      ghost var after := SignalCall(before, sem.id).state;
      assert tcbs[..] == after.tcbs && sems == after.sems;
      assert schedQueue.Contents() == after.sched && freeQueue.Contents() == after.free;
      return Switched;
    }

    // The last part of microkit_cothread_semaphore_signal: the caller has been
    // queued, and head is unlinked and runs.
    method SwitchToHead(sem: Semaphore, head: int, next: int)
      requires Usable() && sem.id in known && known[sem.id] == sem
      requires 0 <= running < tcbs.Length && 0 <= head < tcbs.Length
      modifies this`running, this`sems, tcbs, sem
      ensures Usable() && running == head
      ensures tcbs[..] == SetState(SetNext(SetState(old(tcbs[..]), old(running), Ready), head, NULL_HANDLE), head, Running)
      ensures sems == old(sems)[sem.id := if next == NULL_HANDLE then FRESH_SEM else old(sem.Value()).(head := next)]
    {
      MoveHead(sem, next);
      ghost var before := tcbs[..];
      tcbs[running] := tcbs[running].(state := Ready);
      tcbs[head] := tcbs[head].(next := NULL_HANDLE);
      assert tcbs[..] == SetNext(SetState(before, running, Ready), head, NULL_HANDLE);
      running := head;
      tcbs[running] := tcbs[running].(state := Running);
    }

    // Moving the semaphore's list on: a semaphore without waiters is reset.
    method MoveHead(sem: Semaphore, next: int)
      requires Usable() && sem.id in known && known[sem.id] == sem
      modifies this`sems, sem
      ensures Usable()
      ensures sems == old(sems)[sem.id := if next == NULL_HANDLE then FRESH_SEM else old(sem.Value()).(head := next)]
    {
      sem.head := next;
      if next == NULL_HANDLE {
        sem.Init();
      }
      sems := sems[sem.id := sem.Value()];
    }

    // ---------- public functions ----------

    method FreeHandleAvailable() returns (available: bool, handle: int)
      requires Wf()
      ensures available == (View().free != [])
      ensures available ==> handle == View().free[0]
    {
      var status;
      status, handle := freeQueue.Peek();
      available := status == NoErr;
    }

    method Spawn(entry: nat, arg: int) returns (report: Report)
      requires Wf()
      modifies tcbs, freeQueue, schedQueue, schedQueue.memory
      ensures Usable()
      ensures Outcome(View(), report) == SpawnCall(old(View()), entry, arg)
      ensures report.Returned? && 0 <= report.ret < tcbs.Length ==>
                var tcb := tcbs[report.ret];
                && tcb.entry == entry && tcb.arg == arg && tcb.state == Ready
                && tcb.handle == tcb.storage + 8 * (stackSize / 8 - 1)
    {
      ghost var before := View();
      if entry == 0 {
        return Panicked(SpawnClientEntryIsNull);
      }
      var popped, handle := freeQueue.Pop();
      if popped != NoErr {
        assert View() == before;
        return Returned(NULL_HANDLE);
      }
      var tcb := tcbs[handle];
      tcbs[handle] := tcb.(entry := entry, arg := arg, handle := DerivedHandle(tcb.storage, stackSize),
                           state := Ready, next := NULL_HANDLE);
      var status := schedQueue.Push(handle);
      assert tcbs[..] == SpawnCall(before, entry, arg).state.tcbs;
      assert View() == SpawnCall(before, entry, arg).state;
      if status != NoErr {
        return Panicked(SpawnCannotScheduleNew);
      }
      return Returned(handle);
    }

    method Yield() returns (report: Report)
      requires Wf()
      modifies this`running, tcbs, schedQueue, schedQueue.memory
      ensures Usable()
      ensures Outcome(View(), report) == YieldCall(old(View()))
    {
      ghost var before := View();
      var status := schedQueue.Push(running);
      if status != NoErr {
        assert View() == before;
        return Panicked(YieldCannotScheduleCaller);
      }
      tcbs[running] := tcbs[running].(state := Ready);
      assert tcbs[..] == ParkReady(before).tcbs;
      assert View() == ParkReady(before);
      InternalGoNext();
      return Switched;
    }

    method Destroy(cothread: int) returns (report: Report)
      requires Wf()
      modifies this`running, tcbs, schedQueue, freeQueue, freeQueue.memory
      ensures Usable()
      ensures Outcome(View(), report) == DestroyCall(old(View()), cothread)
    {
      ghost var before := View();
      if cothread >= tcbs.Length || cothread < 0 {
        return Panicked(GenericInvalidHandle);
      }
      if tcbs[cothread].state == NotActive {
        return Panicked(DestroyAlreadyNotInitialised);
      }
      if running == ROOT {
        return Panicked(DestroyCannotDestroyRoot);
      }
      var status := freeQueue.Push(cothread);
      if status != NoErr {
        assert View() == before;
        return Panicked(DestroyCannotReleaseHandle);
      }
      tcbs[cothread] := tcbs[cothread].(state := NotActive);
      assert tcbs[..] == Release(before, cothread).tcbs;
      assert View() == Release(before, cothread);
      if cothread == running {
        InternalGoNext();
        return Switched;
      }
      return Returned(0);
    }

    // cothread_entry_wrapper after the client entry has returned. Control comes
    // back from the destroy only if somebody switches to the ended thread.
    method EntryReturns() returns (report: Report)
      requires Wf()
      modifies this`running, tcbs, schedQueue, freeQueue, freeQueue.memory
      ensures Usable()
      ensures Outcome(View(), report) == DestroyCall(old(View()), old(View()).running)
    {
      report := Destroy(running);
    }

    method WaitOnChannel(channel: nat) returns (report: Report)
      requires Wf()
      modifies this`running, this`sems, tcbs, schedQueue
      modifies channelMap
      ensures Usable()
      ensures Outcome(View(), report) == WaitOnChannelCall(old(View()), channel)
    {
      if channel >= |channelMap| {
        return Panicked(WaitOnChannelInvalidChannel);
      }
      report := SemaphoreWait(channelMap[channel]);
    }

    method RecvNtfn(channel: nat) returns (report: Report)
      requires Wf()
      modifies this`running, this`sems, tcbs, schedQueue, schedQueue.memory
      modifies channelMap
      ensures Usable()
      ensures Outcome(View(), report) == RecvNtfnCall(old(View()), channel)
    {
      if running != ROOT {
        return Panicked(RecvNtfnFromNonRoot);
      }
      if channel >= |channelMap| {
        return Panicked(RecvNtfnInvalidChannel);
      }
      report := SemaphoreSignal(channelMap[channel]);
    }

    // ---------- a client ----------

    // The client's semaphores are numbered from the end of the channel map.
    ghost predicate Knows(clients: seq<Semaphore>)
      reads this`known
    {
      && (forall k :: 0 <= k < |clients| ==> clients[k].id == |channelMap| + k)
      && (forall id :: id in known ==> id < |channelMap| + |clients|)
      && (forall k :: 0 <= k < |clients| ==> |channelMap| + k in known ==> known[|channelMap| + k] == clients[k])
    }

    method Call(op: Op, clients: seq<Semaphore>) returns (report: Report)
      requires Wf() && Knows(clients) && Legal(View(), op)
      requires op.SemInit? ==> op.id < |channelMap| + |clients|
      modifies this`running, this`known, this`sems, tcbs, freeQueue, freeQueue.memory, schedQueue, schedQueue.memory
      modifies channelMap, clients
      ensures Usable() && Knows(clients)
      ensures Outcome(View(), report) == Apply(old(View()), op)
    {
      if op.SemInit? || op.Wait? || op.Signal? {
        report := CallOn(op, if op.id < |channelMap| then channelMap[op.id] else clients[op.id - |channelMap|], clients);
      } else if op.WaitOnChannel? || op.RecvNtfn? {
        report := CallChannel(op);
      } else {
        report := CallPlain(op);
      }
    }

    method CallChannel(op: Op) returns (report: Report)
      requires Wf() && (op.WaitOnChannel? || op.RecvNtfn?)
      modifies this`running, this`sems, tcbs, schedQueue, schedQueue.memory, channelMap
      ensures Usable()
      ensures Outcome(View(), report) == Apply(old(View()), op)
    {
      if op.WaitOnChannel? {
        report := WaitOnChannel(op.channel);
      } else {
        report := RecvNtfn(op.channel);
      }
    }

    method CallPlain(op: Op) returns (report: Report)
      requires Wf() && (op.Spawn? || op.Yield? || op.Destroy? || op.Return?)
      modifies this`running, tcbs, freeQueue, freeQueue.memory, schedQueue, schedQueue.memory
      ensures Usable()
      ensures Outcome(View(), report) == Apply(old(View()), op)
    {
      match op {
        case Spawn(entry, arg) => report := Spawn(entry, arg);
        case Yield => report := Yield();
        case Destroy(handle) => report := Destroy(handle);
        case Return => report := EntryReturns();
      }
    }

    method CallOn(op: Op, sem: Semaphore, clients: seq<Semaphore>) returns (report: Report)
      requires Wf() && Knows(clients) && (op.SemInit? || op.Wait? || op.Signal?) && Known(View(), op)
      requires sem.id == op.id && (sem in channelMap || sem in clients)
      modifies this`running, this`known, this`sems, tcbs, freeQueue, freeQueue.memory, schedQueue, schedQueue.memory
      modifies channelMap, clients
      ensures Usable() && Knows(clients)
      ensures Outcome(View(), report) == Apply(old(View()), op)
    {
      if op.SemInit? {
        report := Returned(0);
        SemaphoreInit(sem);
      } else if op.Wait? {
        report := SemaphoreWait(sem);
      } else {
        report := SemaphoreSignal(sem);
      }
    }

    // A whole legal run on the arrays, rings and linked semaphores is the run
    // of the functions, up to and including its panic if it has one.
    method Execute(ops: seq<Op>, clients: seq<Semaphore>) returns (report: Report)
      requires Wf() && Knows(clients) && LegalRun(View(), ops)
      requires forall i :: 0 <= i < |ops| && ops[i].SemInit? ==> ops[i].id < |channelMap| + |clients|
      modifies this`running, this`known, this`sems, tcbs, freeQueue, freeQueue.memory, schedQueue, schedQueue.memory
      modifies channelMap, clients
      ensures Usable() && Knows(clients)
      ensures Outcome(View(), report) == Run(old(View()), ops)
    {
      ghost var start := View();
      var k := 0;
      report := Returned(0);
      while k < |ops|
        invariant 0 <= k <= |ops|
        invariant Wf() && Knows(clients) && LegalRun(View(), ops[k..])
        invariant Run(View(), ops[k..]) == Run(start, ops)
        invariant report == Returned(0)
      {
        ghost var now := View();
        assert ops[k..][0] == ops[k] && ops[k..][1..] == ops[k + 1..];
        report := Call(ops[k], clients);
        if report.Panicked? {
          return;
        }
        report := Returned(0);
        k := k + 1;
      }
    }
  }
}
