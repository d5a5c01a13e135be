// Which stack a cothread runs on, in terms of what was given to init, and what
// a spawn does to memory.
module Stacks {
  import opened Scheduler
  import opened Invariant
  import opened Runs
  import opened Allocation
  import opened Incarnations
  import opened Aarch64
  import Machine
  import opened Contexts

  // Cothread h has the h-th stack given to init, and while it is active its
  // handle is the last whole word of the size given to init.
  ghost predicate OnStacks(s: State, size: nat, stacks: seq<nat>) {
    && |s.tcbs| == |stacks| + 1 && s.stackSize == size
    && (forall h :: 1 <= h < |s.tcbs| ==> s.tcbs[h].storage == stacks[h - 1])
    && (forall h :: 1 <= h < |s.tcbs| && s.tcbs[h].state != NotActive ==>
          s.tcbs[h].handle == stacks[h - 1] + 8 * (size / 8 - 1))
  }

  lemma InitOnStacks(channels: nat, size: nat, stacks: seq<nat>, rootHandle: int)
    requires 1 <= |stacks|
    ensures OnStacks(InitialState(channels, size, stacks, rootHandle), size, stacks)
  {
  }

  lemma StepKeepsOnStacks(s: State, w: Waits, op: Op, size: nat, stacks: seq<nat>)
    requires Inv(s, w) && Legal(s, op) && !Apply(s, op).report.Panicked? && OnStacks(s, size, stacks)
    ensures OnStacks(Apply(s, op).state, size, stacks)
  {
    var s' := Apply(s, op).state;
    CallKeepsPlaces(s, op);
    forall h | 1 <= h < |s'.tcbs| && s'.tcbs[h].state != NotActive
      ensures s'.tcbs[h].handle == stacks[h - 1] + 8 * (size / 8 - 1)
    {
      if Spawned(s, op, h) {
        assert s'.tcbs[h].handle == DerivedHandle(s.tcbs[h].storage, s.stackSize);
      } else if s.tcbs[h].state == NotActive {
        OnlySpawnActivates(s, w, op, h);
      }
    }
  }

  lemma {:induction false} RunKeepsOnStacks(s: State, w: Waits, ops: seq<Op>, size: nat, stacks: seq<nat>)
    requires Inv(s, w) && LegalRun(s, ops) && !Run(s, ops).report.Panicked? && OnStacks(s, size, stacks)
    ensures OnStacks(Run(s, ops).state, size, stacks)
    decreases |ops|
  {
    if ops != [] {
      StepKeepsInv(s, w, ops[0]);
      StepKeepsOnStacks(s, w, ops[0], size, stacks);
      RunKeepsOnStacks(Apply(s, ops[0]).state, NextWaits(s, w, ops[0]), ops[1..], size, stacks);
    }
  }

  // In every state that a legal run reaches from init, each cothread is on its
  // own stack.
  lemma CothreadsAreOnTheirStacks(channels: nat, size: nat, stacks: seq<nat>, rootHandle: int, ops: seq<Op>)
    requires 1 <= |stacks|
    requires var s := InitialState(channels, size, stacks, rootHandle);
             LegalRun(s, ops) && !Run(s, ops).report.Panicked?
    ensures OnStacks(Run(InitialState(channels, size, stacks, rootHandle), ops).state, size, stacks)
  {
    InitOnStacks(channels, size, stacks, rootHandle);
    InitialStateHasInv(channels, size, stacks, rootHandle);
    RunKeepsOnStacks(InitialState(channels, size, stacks, rootHandle), NoWaiters(channels), ops, size, stacks);
  }

  // As long as no cothread ends, the k-th spawn gets handle k and the k-th stack,
  // and its handle is the last whole word of that stack.
  lemma KthSpawnGetsKthStack(channels: nat, size: nat, stacks: seq<nat>, rootHandle: int, ops: seq<Op>, k: nat)
    requires 1 <= |stacks|
    requires var s := InitialState(channels, size, stacks, rootHandle);
             LegalRun(s, ops) && !Run(s, ops).report.Panicked?
    requires forall i :: 0 <= i < |ops| ==> !ops[i].Destroy? && !ops[i].Return?
    requires 1 <= k <= |Allocated(InitialState(channels, size, stacks, rootHandle), ops)|
    ensures var s := InitialState(channels, size, stacks, rootHandle);
            var s' := Run(s, ops).state;
            && Allocated(s, ops)[k - 1] == k && k <= |stacks| && k < |s'.tcbs|
            && s'.tcbs[k].state != NotActive
            && s'.tcbs[k].storage == stacks[k - 1]
            && s'.tcbs[k].handle == stacks[k - 1] + 8 * (size / 8 - 1)
  {
    var s, w := InitialState(channels, size, stacks, rootHandle), NoWaiters(channels);
    FirstHandlesInOrder(channels, size, stacks, rootHandle, ops);
    CothreadsAreOnTheirStacks(channels, size, stacks, rootHandle, ops);
    InitialStateHasInv(channels, size, stacks, rootHandle);
    RunKeepsInv(s, w, ops);
    AllocatedIsActive(s, ops, k);
  }

  // A handle below the first free one has been taken.
  lemma AllocatedIsActive(s: State, ops: seq<Op>, k: nat)
    requires InRange(s) && LegalRun(s, ops) && !Run(s, ops).report.Panicked?
    requires forall i :: 0 <= i < |ops| ==> !ops[i].Destroy? && !ops[i].Return?
    requires NoDup(s.free) && 1 <= k <= |Allocated(s, ops)| && FreeExact(Run(s, ops).state)
    ensures k <= |s.free| && Allocated(s, ops)[k - 1] == s.free[k - 1]
    ensures ValidHandle(Run(s, ops).state, s.free[k - 1]) ==>
              Run(s, ops).state.tcbs[s.free[k - 1]].state != NotActive
  {
    AllocationIsFifo(s, ops);
    NothingGivenBack(s, ops);
    var a, free' := Allocated(s, ops), Run(s, ops).state.free;
    assert s.free + [] == s.free;
    assert s.free == a + free';
    assert s.free[k - 1] !in free' by {
      assert forall j :: 0 <= j < |free'| ==> free'[j] == s.free[|a| + j];
    }
  }

  // ---------- what a spawn does to memory ----------

  // The words that co_derive writes: the address of co_entrypoint, the stack
  // pointer, the frame pointer and the entry point, from the last one down.
  ghost predicate Derives(mem': Machine.Mem, image: Image, low: nat, size: nat) {
    var top := low + 8 * (size / 8 - 1);
    && Machine.Read(mem', top) == image.stub && Machine.Read(mem', top - 24) == image.wrapper
    && Machine.Read(mem', top - 8) == Machine.Read(mem', top - 16) == InitialSp(low, size)
  }

  // The whole words of the stack and no others change: all but four are zero.
  ghost predicate FreshStack(mem: Machine.Mem, mem': Machine.Mem, image: Image, low: nat, size: nat) {
    var end := low + 8 * (size / 8);
    && (forall i :: 0 <= i < size / 8 - 4 ==> Machine.Read(mem', low + 8 * i) == 0)
    && (forall a :: a < low || end <= a ==> Machine.Read(mem', a) == Machine.Read(mem, a))
    && Derives(mem', image, low, size)
  }

  // A spawn that returns h makes the h-th stack given to init a fresh stack.
  lemma SpawnFreshensItsStack(v: World, w: Waits, image: Image, op: Op, size: nat, stacks: seq<nat>)
    requires Inv(v.s, w) && OnStacks(v.s, size, stacks) && MINIMUM_STACK_SIZE <= size
    requires op.Spawn? && Apply(v.s, op).report.Returned? && Apply(v.s, op).report.ret != NULL_HANDLE
    ensures var h := Apply(v.s, op).report.ret;
            1 <= h <= |stacks| && FreshStack(v.mem, NextWorld(v, image, op).mem, image, stacks[h - 1], size)
  {
    var h := Apply(v.s, op).report.ret;
    assert h in v.s.free && h == v.s.free[0];
    FreshStackIs(v.mem, image, stacks[h - 1], size);
  }

  lemma FreshStackIs(mem: Machine.Mem, image: Image, low: nat, size: nat)
    requires MINIMUM_STACK_SIZE <= size
    ensures FreshStack(mem, Derived(Zeroed(mem, low, size), low, size, image.stub, image.wrapper), image, low, size)
  {
    var mem' := Derived(Zeroed(mem, low, size), low, size, image.stub, image.wrapper);
    var end := low + 8 * (size / 8);
    assert forall a :: Machine.Read(Zeroed(mem, low, size), a) == if low <= a < end then 0 else Machine.Read(mem, a);
  }

  // If the action is a spawn that returns a handle, it does so.
  ghost predicate Freshens(v: World, image: Image, action: Action, size: nat, stacks: seq<nat>)
    requires InRange(v.s) && (action.Call? ==> Known(v.s, action.op)) && !Stops(v, action)
  {
    action.Call? && action.op.Spawn? && Apply(v.s, action.op).report.ret != NULL_HANDLE ==>
      var h := Apply(v.s, action.op).report.ret;
      1 <= h <= |stacks| && FreshStack(v.mem, Act(v, image, action).mem, image, stacks[h - 1], size)
  }

  ghost predicate SpawnsFreshen(v: World, image: Image, actions: seq<Action>, size: nat, stacks: seq<nat>)
    requires Allowed(v, image, actions)
    decreases |actions|
  {
    actions == [] || Stops(v, actions[0]) ||
    (Freshens(v, image, actions[0], size, stacks)
     && SpawnsFreshen(Act(v, image, actions[0]), image, actions[1..], size, stacks))
  }

  lemma ActFreshens(v: World, w: Waits, image: Image, action: Action, size: nat, stacks: seq<nat>) returns (w': Waits)
    requires Inv(v.s, w) && OnStacks(v.s, size, stacks) && MINIMUM_STACK_SIZE <= size
    requires MayAct(v, action) && !Stops(v, action)
    ensures Inv(Act(v, image, action).s, w') && OnStacks(Act(v, image, action).s, size, stacks)
    ensures Freshens(v, image, action, size, stacks)
  {
    hide OnStacks, FreshStack, NextWaits;
    match action {
      case Work(_, _, _) =>
        w' := w;
      case Call(op) =>
        w' := NextWaits(v.s, w, op);
        StepKeepsInv(v.s, w, op);
        StepKeepsOnStacks(v.s, w, op, size, stacks);
        if op.Spawn? && Apply(v.s, op).report.ret != NULL_HANDLE {
          SpawnFreshensItsStack(v, w, image, op, size, stacks);
        }
    }
  }

  // Every spawn of a run does so.
  lemma {:induction false} AllSpawnsFreshen(v: World, w: Waits, image: Image, actions: seq<Action>, size: nat,
                                            stacks: seq<nat>)
    requires Inv(v.s, w) && OnStacks(v.s, size, stacks) && MINIMUM_STACK_SIZE <= size && Allowed(v, image, actions)
    ensures SpawnsFreshen(v, image, actions, size, stacks)
    decreases |actions|
  {
    hide Freshens, OnStacks;
    if actions != [] && !Stops(v, actions[0]) {
      var w' := ActFreshens(v, w, image, actions[0], size, stacks);
      AllSpawnsFreshen(Act(v, image, actions[0]), w', image, actions[1..], size, stacks);
    }
  }

  // So from init on, whatever stacks init accepts: a spawn zeroes exactly the
  // whole words of the stack with the number it returns, and derives there.
  lemma SpawnsFreshenFromInit(channels: nat, size: nat, stacks: seq<nat>, rootHandle: int,
                              regs: Regs, mem: Machine.Mem, pc: int, image: Image, actions: seq<Action>)
    requires 1 <= |stacks| && InitReport(false, size, stacks) == Returned(0)
    requires var v := World(InitialState(channels, size, stacks, rootHandle), regs, mem, pc, rootHandle, map[]);
             Allowed(v, image, actions)
    ensures SpawnsFreshen(World(InitialState(channels, size, stacks, rootHandle), regs, mem, pc, rootHandle, map[]),
                          image, actions, size, stacks)
  {
    InitOnStacks(channels, size, stacks, rootHandle);
    InitialStateHasInv(channels, size, stacks, rootHandle);
    AllSpawnsFreshen(World(InitialState(channels, size, stacks, rootHandle), regs, mem, pc, rootHandle, map[]),
                     NoWaiters(channels), image, actions, size, stacks);
  }
}
