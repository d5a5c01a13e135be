// The scheduler and the context switch together: every suspended thread
// resumes with exactly the registers it was suspended with.
//
// Between calls a thread may change every register and any memory except the
// save areas of the other active threads.
module Contexts {
  import opened Scheduler
  import opened Invariant
  import opened Incarnations
  import opened Aarch64
  import opened Machine

  // The addresses of co_entrypoint and cothread_entry_wrapper.
  datatype Image = Image(stub: int, wrapper: int)

  // The controller, the processor, co_active_handle, and for each thread the
  // registers that it was last suspended (or created) with. The last component
  // is not stored anywhere; it is what the save areas are compared to.
  datatype World = World(s: State, regs: Regs, mem: Mem, pc: int, active: int, saved: map<int, Regs>)

  datatype Action = Work(regs: Regs, mem: Mem, pc: int) | Call(op: Op)

  // Stacks are word aligned, large enough and disjoint, as init checked, and
  // the save area of root, a static array, is in none of them. A thread that is
  // active was derived on its own stack.
  ghost predicate Placed(s: State) {
    && InRange(s)
    && MINIMUM_STACK_SIZE <= s.stackSize
    && (forall h :: 1 <= h < |s.tcbs| ==> s.tcbs[h].storage % 8 == 0)
    && (forall i, j :: 1 <= i < j < |s.tcbs| ==> !StacksOverlap(s.stackSize, s.tcbs[i].storage, s.tcbs[j].storage))
    && (forall h, a: nat :: 1 <= h < |s.tcbs| && InSaveArea(s.tcbs[ROOT].handle, a) ==>
          !StackByte(s.stackSize, s.tcbs[h].storage, a))
    && (forall h :: 1 <= h < |s.tcbs| && s.tcbs[h].state != NotActive ==>
          s.tcbs[h].handle == DerivedHandle(s.tcbs[h].storage, s.stackSize))
  }

  ghost predicate Active(s: State, h: int) {
    ValidHandle(s, h) && s.tcbs[h].state != NotActive
  }

  ghost predicate Suspended(v: World, h: int) {
    Active(v.s, h) && h != v.s.running
  }

  ghost predicate WorldInv(v: World, w: Waits) {
    && Inv(v.s, w) && Placed(v.s)
    && v.active == v.s.tcbs[v.s.running].handle
    && (forall h :: Suspended(v, h) ==> h in v.saved && Holds(v.mem, v.s.tcbs[h].handle, v.saved[h]))
  }

  // ---------- save areas are apart ----------

  lemma SaveAreaInStack(s: State, h: int, a: int)
    requires Placed(s) && 1 <= h < |s.tcbs| && InSaveArea(DerivedHandle(s.tcbs[h].storage, s.stackSize), a)
    ensures s.tcbs[h].storage <= a < s.tcbs[h].storage + s.stackSize
  {
    DeriveGeometry(s.tcbs[h].storage, s.stackSize);
  }

  lemma SaveAreasApart(s: State, h: int, g: int, a: int)
    requires Placed(s) && Active(s, h) && Active(s, g) && h != g && InSaveArea(s.tcbs[h].handle, a)
    ensures !InSaveArea(s.tcbs[g].handle, a)
  {
    if InSaveArea(s.tcbs[g].handle, a) {
      if h == ROOT {
        SaveAreaInStack(s, g, a);
      } else if g == ROOT {
        SaveAreaInStack(s, h, a);
      } else {
        SaveAreaInStack(s, h, a);
        SaveAreaInStack(s, g, a);
        assert StackByte(s.stackSize, s.tcbs[h].storage, a) && StackByte(s.stackSize, s.tcbs[g].storage, a);
      }
    }
  }

  // A save area is outside the stack of every handle that is not active.
  lemma SaveAreaOutside(s: State, h: int, new_: int, a: int)
    requires Placed(s) && Active(s, h) && 1 <= new_ < |s.tcbs| && h != new_ && InSaveArea(s.tcbs[h].handle, a)
    ensures a < s.tcbs[new_].storage || s.tcbs[new_].storage + s.stackSize <= a
  {
    if s.tcbs[new_].storage <= a < s.tcbs[new_].storage + s.stackSize {
      assert StackByte(s.stackSize, s.tcbs[new_].storage, a);
      if h != ROOT {
        SaveAreaInStack(s, h, a);
        assert StackByte(s.stackSize, s.tcbs[h].storage, a);
      }
    }
  }

  // Memory that agrees on a save area holds the same registers there.
  lemma HoldsFrame(mem: Mem, mem': Mem, handle: int, regs: Regs)
    requires Holds(mem, handle, regs)
    requires forall a :: InSaveArea(handle, a) ==> Read(mem', a) == Read(mem, a)
    ensures Holds(mem', handle, regs)
  {
    forall r | Preserved(r) ensures Read(mem', SlotOf(handle, r)) == Get(regs, r) {
      SlotsInSaveArea(handle, r);
    }
  }

  // ---------- placement ----------

  predicate Spawned(s: State, op: Op, h: int) {
    op.Spawn? && s.free != [] && h == s.free[0]
  }

  // No call moves a stack, and only a spawn changes a handle.
  ghost predicate SamePlaces(s: State, s': State, except: int) {
    && |s'.tcbs| == |s.tcbs| && s'.stackSize == s.stackSize
    && (forall h :: 0 <= h < |s.tcbs| ==> s'.tcbs[h].storage == s.tcbs[h].storage)
    && (forall h :: 0 <= h < |s.tcbs| && h != except ==> s'.tcbs[h].handle == s.tcbs[h].handle)
  }

  lemma GoNextKeepsPlaces(s: State, p: State)
    requires InRange(p) && SamePlaces(s, p, NULL_HANDLE)
    ensures SamePlaces(s, GoNext(p), NULL_HANDLE)
  {
  }

  lemma WaitKeepsPlaces(s: State, id: nat)
    requires InRange(s) && id in s.sems
    ensures SamePlaces(s, WaitCall(s, id).state, NULL_HANDLE)
  {
    GoNextKeepsPlaces(s, ParkBlocked(s, id));
  }

  lemma SignalKeepsPlaces(s: State, id: nat)
    requires InRange(s) && id in s.sems
    ensures SamePlaces(s, SignalCall(s, id).state, NULL_HANDLE)
  {
  }

  lemma DestroyKeepsPlaces(s: State, h: int)
    requires InRange(s)
    ensures SamePlaces(s, DestroyCall(s, h).state, NULL_HANDLE)
  {
    if ValidHandle(s, h) && |s.free| < |s.tcbs| { GoNextKeepsPlaces(s, Release(s, h)); }
  }

  lemma CallKeepsPlaces(s: State, op: Op)
    requires InRange(s) && Known(s, op)
    ensures SamePlaces(s, Apply(s, op).state, if op.Spawn? && s.free != [] then s.free[0] else NULL_HANDLE)
  {
    match op
    case Spawn(_, _) =>
    case Yield => if |s.sched| < |s.tcbs| { GoNextKeepsPlaces(s, ParkReady(s)); }
    case Destroy(h) => DestroyKeepsPlaces(s, h);
    case Return => DestroyKeepsPlaces(s, s.running);
    case SemInit(_) =>
    case Wait(id) => WaitKeepsPlaces(s, id);
    case Signal(id) => SignalKeepsPlaces(s, id);
    case WaitOnChannel(channel) => if channel < s.channels { WaitKeepsPlaces(s, channel); }
    case RecvNtfn(channel) => if s.running == ROOT && channel < s.channels { SignalKeepsPlaces(s, channel); }
  }

  lemma StepKeepsPlaced(s: State, w: Waits, op: Op)
    requires Inv(s, w) && Placed(s) && Legal(s, op) && !Apply(s, op).report.Panicked?
    ensures Placed(Apply(s, op).state)
  {
    var s' := Apply(s, op).state;
    CallKeepsPlaces(s, op);
    forall h | 1 <= h < |s'.tcbs| && s'.tcbs[h].state != NotActive
      ensures s'.tcbs[h].handle == DerivedHandle(s'.tcbs[h].storage, s'.stackSize)
    {
      if !Spawned(s, op, h) && s.tcbs[h].state == NotActive {
        OnlySpawnActivates(s, w, op, h);
      }
    }
    if op.Spawn? && s.free != [] {
      assert s.free[0] in s.free;
    }
  }

  // ---------- steps ----------

  // The memory effect of spawn: zero the stack of the new thread and derive it.
  function SpawnMem(v: World, image: Image, op: Op): Mem
    requires InRange(v.s)
  {
    if op.Spawn? && v.s.free != [] then
      var storage := v.s.tcbs[v.s.free[0]].storage;
      Derived(Zeroed(v.mem, storage, v.s.stackSize), storage, v.s.stackSize, image.stub, image.wrapper)
    else v.mem
  }

  function SpawnSaved(v: World, image: Image, op: Op): map<int, Regs>
    requires InRange(v.s)
  {
    if op.Spawn? && v.s.free != [] then
      var h := v.s.free[0];
      v.saved[h := InitialRegs(v.s.tcbs[h].storage, v.s.stackSize, image.stub, image.wrapper)]
    else v.saved
  }

  function NextWorld(v: World, image: Image, op: Op): World
    requires InRange(v.s) && Known(v.s, op)
  {
    var r := Apply(v.s, op);
    if r.report.Switched? then
      var handle := r.state.tcbs[r.state.running].handle;
      var core := Swapped(v.regs, v.mem, v.pc, handle, v.active);
      World(r.state, core.regs, core.mem, core.pc, handle, v.saved[v.s.running := v.regs])
    else
      World(r.state, v.regs, SpawnMem(v, image, op), v.pc, v.active, SpawnSaved(v, image, op))
  }

  // The thread that runs now has the registers it was suspended with and
  // continues at its link register.
  ghost predicate ResumesExactly(v: World) {
    v.s.running in v.saved && SameContext(v.regs, v.saved[v.s.running]) && v.pc == Get(v.saved[v.s.running], LR)
  }

  lemma SwitchPreserves(v: World, w: Waits, image: Image, op: Op)
    requires WorldInv(v, w) && Legal(v.s, op) && Apply(v.s, op).report.Switched?
    ensures WorldInv(NextWorld(v, image, op), NextWaits(v.s, w, op))
    ensures ResumesExactly(NextWorld(v, image, op))
  {
    var s', v' := Apply(v.s, op).state, NextWorld(v, image, op);
    StepKeepsInv(v.s, w, op);
    StepKeepsPlaced(v.s, w, op);
    CallKeepsPlaces(v.s, op);
    SwitchTouchesOneArea(v, image, op);
    forall h | Active(s', h) && h != v.s.running ensures h in v.saved && Holds(v'.mem, s'.tcbs[h].handle, v.saved[h]) {
      StillSuspended(v, w, op, h);
      OthersKept(v, image, op, h);
    }
    Resumes(v, image, op);
  }

  // A switch activates nobody, so who is active now and did not run before was
  // suspended.
  lemma StillSuspended(v: World, w: Waits, op: Op, h: int)
    requires Inv(v.s, w) && Legal(v.s, op) && Apply(v.s, op).report.Switched?
    requires Active(Apply(v.s, op).state, h) && h != v.s.running
    ensures Suspended(v, h)
  {
    StepKeepsSize(v.s, op);
    if v.s.tcbs[h].state == NotActive { OnlySpawnActivates(v.s, w, op, h); }
  }

  lemma SwitchTouchesOneArea(v: World, image: Image, op: Op)
    requires InRange(v.s) && Known(v.s, op) && Apply(v.s, op).report.Switched?
    ensures var v' := NextWorld(v, image, op);
            && Holds(v'.mem, v.active, v.regs)
            && Holds(v'.mem, v'.active, v'.regs)
            && v'.pc == Get(v'.regs, LR)
            && (forall a :: !InSaveArea(v.active, a) ==> Read(v'.mem, a) == Read(v.mem, a))
  {
    SwappedEffect(v.regs, v.mem, v.pc, NextWorld(v, image, op).active, v.active);
  }

  // A suspended thread's save area is not the one that the switch writes.
  lemma OthersKept(v: World, image: Image, op: Op, h: int)
    requires Placed(v.s) && Known(v.s, op) && Apply(v.s, op).report.Switched?
    requires Active(v.s, v.s.running) && v.active == v.s.tcbs[v.s.running].handle
    requires Suspended(v, h) && h in v.saved && Holds(v.mem, v.s.tcbs[h].handle, v.saved[h])
    ensures Holds(NextWorld(v, image, op).mem, v.s.tcbs[h].handle, v.saved[h])
  {
    SwitchTouchesOneArea(v, image, op);
    forall a | InSaveArea(v.s.tcbs[h].handle, a)
      ensures Read(NextWorld(v, image, op).mem, a) == Read(v.mem, a)
    {
      SaveAreasApart(v.s, h, v.s.running, a);
    }
    HoldsFrame(v.mem, NextWorld(v, image, op).mem, v.s.tcbs[h].handle, v.saved[h]);
  }

  // What the area switched to holds after the saves is what is loaded.
  lemma SameArea(mem: Mem, handle: int, a: Regs, b: Regs)
    requires Holds(mem, handle, a) && Holds(mem, handle, b)
    ensures SameContext(a, b)
  {
    forall r | Preserved(r) ensures Get(a, r) == Get(b, r) {
      assert Read(mem, SlotOf(handle, r)) == Get(a, r);
    }
  }

  lemma Resumes(v: World, image: Image, op: Op)
    requires InRange(v.s) && Known(v.s, op) && Apply(v.s, op).report.Switched?
    requires var v' := NextWorld(v, image, op);
             && Holds(v'.mem, v.active, v.regs) && Holds(v'.mem, v'.active, v'.regs) && v'.pc == Get(v'.regs, LR)
             && (v'.s.running == v.s.running ==> v'.active == v.active)
             && (v'.s.running != v.s.running ==> v'.s.running in v.saved && Holds(v'.mem, v'.active, v.saved[v'.s.running]))
    ensures ResumesExactly(NextWorld(v, image, op))
  {
    var v' := NextWorld(v, image, op);
    SameArea(v'.mem, v'.active, v'.regs, v'.saved[v'.s.running]);
    assert Preserved(LR);
  }

  lemma QuietCallPreserves(v: World, w: Waits, image: Image, op: Op)
    requires WorldInv(v, w) && Legal(v.s, op) && Apply(v.s, op).report.Returned?
    ensures WorldInv(NextWorld(v, image, op), NextWaits(v.s, w, op))
  {
    var s', v' := Apply(v.s, op).state, NextWorld(v, image, op);
    StepKeepsInv(v.s, w, op);
    StepKeepsPlaced(v.s, w, op);
    CallKeepsPlaces(v.s, op);
    QuietKeepsRunning(v.s, op);
    forall h | Suspended(v', h) ensures h in v'.saved && Holds(v'.mem, s'.tcbs[h].handle, v'.saved[h]) {
      if Spawned(v.s, op, h) {
        NewThreadHeld(v, w, image, op);
      } else {
        if v.s.tcbs[h].state == NotActive { OnlySpawnActivates(v.s, w, op, h); }
        OldThreadHeld(v, w, image, op, h);
      }
    }
    if op.Spawn? && v.s.free != [] { assert v.s.free[0] in v.s.free; }
  }

  lemma NewThreadHeld(v: World, w: Waits, image: Image, op: Op)
    requires WorldInv(v, w) && op.Spawn? && v.s.free != [] && Apply(v.s, op).report.Returned?
    ensures var h := v.s.free[0];
            && h in SpawnSaved(v, image, op)
            && Holds(SpawnMem(v, image, op), Apply(v.s, op).state.tcbs[h].handle, SpawnSaved(v, image, op)[h])
  {
    var h := v.s.free[0];
    assert h in v.s.free;
    DeriveHoldsInitial(v.mem, v.s.tcbs[h].storage, v.s.stackSize, image.stub, image.wrapper);
  }

  lemma OldThreadHeld(v: World, w: Waits, image: Image, op: Op, h: int)
    requires WorldInv(v, w) && Suspended(v, h) && !Spawned(v.s, op, h)
    ensures h in SpawnSaved(v, image, op)
    ensures Holds(SpawnMem(v, image, op), v.s.tcbs[h].handle, SpawnSaved(v, image, op)[h])
  {
    if op.Spawn? && v.s.free != [] {
      var new_ := v.s.free[0];
      assert new_ in v.s.free;
      forall a | InSaveArea(v.s.tcbs[h].handle, a) ensures Read(SpawnMem(v, image, op), a) == Read(v.mem, a) {
        SaveAreaOutside(v.s, h, new_, a);
        DeriveStaysInside(v.mem, v.s.tcbs[new_].storage, v.s.stackSize, image.stub, image.wrapper, a);
      }
      HoldsFrame(v.mem, SpawnMem(v, image, op), v.s.tcbs[h].handle, v.saved[h]);
    }
  }

  // ---------- runs ----------

  // A thread's own code leaves the other active threads' save areas alone.
  ghost predicate MayWork(v: World, mem': Mem) {
    forall h, a :: Suspended(v, h) && InSaveArea(v.s.tcbs[h].handle, a) ==> Read(mem', a) == Read(v.mem, a)
  }

  ghost predicate MayAct(v: World, action: Action) {
    match action
    case Work(_, mem', _) => MayWork(v, mem')
    case Call(op) => Legal(v.s, op)
  }

  function Act(v: World, image: Image, action: Action): World
    requires InRange(v.s) && (action.Call? ==> Known(v.s, action.op))
  {
    match action
    case Work(regs', mem', pc') => v.(regs := regs', mem := mem', pc := pc')
    case Call(op) => NextWorld(v, image, op)
  }

  predicate Switches(v: World, action: Action)
    requires InRange(v.s) && (action.Call? ==> Known(v.s, action.op))
  {
    action.Call? && Apply(v.s, action.op).report.Switched?
  }

  predicate Stops(v: World, action: Action)
    requires InRange(v.s) && (action.Call? ==> Known(v.s, action.op))
  {
    action.Call? && Apply(v.s, action.op).report.Panicked?
  }

  lemma ActPreserves(v: World, w: Waits, image: Image, action: Action) returns (w': Waits)
    requires WorldInv(v, w) && MayAct(v, action) && !Stops(v, action)
    ensures WorldInv(Act(v, image, action), w')
    ensures Switches(v, action) ==> ResumesExactly(Act(v, image, action))
  {
    match action {
      case Work(regs', mem', pc') =>
        w' := w;
        forall h | Suspended(v, h) ensures Holds(mem', v.s.tcbs[h].handle, v.saved[h]) {
          HoldsFrame(v.mem, mem', v.s.tcbs[h].handle, v.saved[h]);
        }
      case Call(op) =>
        w' := NextWaits(v.s, w, op);
        if Switches(v, action) {
          SwitchPreserves(v, w, image, op);
        } else {
          QuietCallPreserves(v, w, image, op);
        }
    }
  }

  // A run in which every action is allowed; a panic ends it.
  ghost predicate Allowed(v: World, image: Image, actions: seq<Action>)
    decreases |actions|
  {
    InRange(v.s) &&
    (actions == [] ||
     ((actions[0].Call? ==> Known(v.s, actions[0].op)) && MayAct(v, actions[0]) &&
      (Stops(v, actions[0]) || Allowed(Act(v, image, actions[0]), image, actions[1..]))))
  }

  // Every switch during the run resumes its thread exactly.
  ghost predicate AllResumeExactly(v: World, image: Image, actions: seq<Action>)
    requires Allowed(v, image, actions)
    decreases |actions|
  {
    actions == [] || Stops(v, actions[0]) ||
    (var v' := Act(v, image, actions[0]);
     (Switches(v, actions[0]) ==> ResumesExactly(v')) && AllResumeExactly(v', image, actions[1..]))
  }

  lemma {:induction false} ContextsPreserved(v: World, w: Waits, image: Image, actions: seq<Action>)
    requires WorldInv(v, w) && Allowed(v, image, actions)
    ensures AllResumeExactly(v, image, actions)
    decreases |actions|
  {
    if actions != [] && !Stops(v, actions[0]) {
      var w' := ActPreserves(v, w, image, actions[0]);
      ContextsPreserved(Act(v, image, actions[0]), w', image, actions[1..]);
    }
  }

  // The stacks that init accepts are placed as the theorem needs, if they are
  // word aligned and root's static save area is in none of them.
  lemma AcceptedStacksArePlaced(channels: nat, stackSize: nat, stacks: seq<nat>, rootHandle: int)
    requires 1 <= |stacks| && InitReport(false, stackSize, stacks) == Returned(0)
    requires forall i :: 0 <= i < |stacks| ==> stacks[i] % 8 == 0
    requires forall i, a: nat :: 0 <= i < |stacks| && InSaveArea(rootHandle, a) ==> !StackByte(stackSize, stacks[i], a)
    ensures Placed(InitialState(channels, stackSize, stacks, rootHandle))
  {
    var s := InitialState(channels, stackSize, stacks, rootHandle);
    forall i, j | 1 <= i < j < |s.tcbs| ensures !StacksOverlap(stackSize, s.tcbs[i].storage, s.tcbs[j].storage) {
      assert !StacksOverlap(stackSize, stacks[i - 1], stacks[j - 1]);
    }
  }

  // So every switch of every allowed run from init on resumes its thread
  // exactly.
  lemma ContextsPreservedFromInit(channels: nat, stackSize: nat, stacks: seq<nat>, rootHandle: int,
                                  regs: Regs, mem: Mem, pc: int, image: Image, actions: seq<Action>)
    requires 1 <= |stacks| && InitReport(false, stackSize, stacks) == Returned(0)
    requires forall i :: 0 <= i < |stacks| ==> stacks[i] % 8 == 0
    requires forall i, a: nat :: 0 <= i < |stacks| && InSaveArea(rootHandle, a) ==> !StackByte(stackSize, stacks[i], a)
    requires var v := World(InitialState(channels, stackSize, stacks, rootHandle), regs, mem, pc, rootHandle, map[]);
             Allowed(v, image, actions)
    ensures AllResumeExactly(World(InitialState(channels, stackSize, stacks, rootHandle), regs, mem, pc, rootHandle, map[]),
                             image, actions)
  {
    var v := World(InitialState(channels, stackSize, stacks, rootHandle), regs, mem, pc, rootHandle, map[]);
    AcceptedStacksArePlaced(channels, stackSize, stacks, rootHandle);
    InitialStateHasInv(channels, stackSize, stacks, rootHandle);
    ContextsPreserved(v, NoWaiters(channels), image, actions);
  }
}
