// What one call of the library does to the controller, as functions of the
// controller's value. The class in Controller.dfy carries the same state in
// arrays, rings and semaphore objects and is proved equal to these functions;
// the theorems about runs are proved here and in the modules that import this
// one.
//
// A call is one atomic step up to its co_switch: whatever a thread does
// between two calls does not touch the controller, and a call that switches
// away has nothing left to do when it is resumed except return (or, after a
// thread destroyed itself, panic; see Incarnations.dfy).
module Scheduler {
  const NULL_HANDLE: int := -1
  const ROOT: int := 0
  const MINIMUM_STACK_SIZE: nat := 0x1000

  datatype CoState = NotActive | Blocked | Ready | Running

  // One thread control block. Addresses and client values are numbers; a null
  // pointer is 0.
  datatype Tcb = Tcb(storage: nat, handle: int, entry: nat, arg: int, state: CoState, next: int)

  // One semaphore: its flag and the ends of its intrusive waiting list.
  datatype Sem = Sem(isSet: bool, head: int, tail: int)

  const FRESH_SEM: Sem := Sem(false, NULL_HANDLE, NULL_HANDLE)

  datatype PanicCode =
    | CannotDestroySelfAfterReturn
    | SemSignalCannotScheduleCaller
    | DestroyCannotDestroyRoot
    | DestroyCannotReleaseHandle
    | DestroyAlreadyNotInitialised
    | GenericInvalidHandle
    | InitAlreadyInitialised
    | InitCoStackNull
    | InitCoStackOverlap
    | InitFreeHandlesInitFail
    | InitFreeHandlesPopulateFail
    | InitSchedInitFail
    | InitStackTooSmall
    | PopCannotPop
    | RecvNtfnFromNonRoot
    | RecvNtfnInvalidChannel
    | SpawnCannotScheduleNew
    | SpawnClientEntryIsNull
    | WaitOnChannelInvalidChannel
    | YieldCannotScheduleCaller

  // How a call ends: it returns to its caller, it switches to the thread that
  // is now running, or it panics, which is final.
  datatype Report = Returned(ret: int) | Switched | Panicked(code: PanicCode)

  // The controller. Semaphores are named by numbers: those below channels are
  // the channel map, the others belong to the client.
  datatype State = State(
    channels: nat,
    stackSize: nat,
    tcbs: seq<Tcb>,
    running: int,
    sched: seq<int>,
    free: seq<int>,
    sems: map<nat, Sem>)

  datatype Outcome = Outcome(state: State, report: Report)

  datatype Op =
    | Spawn(entry: nat, arg: int)
    | Yield
    | Destroy(handle: int)
    | Return
    | SemInit(id: nat)
    | Wait(id: nat)
    | Signal(id: nat)
    | WaitOnChannel(channel: nat)
    | RecvNtfn(channel: nat)

  // Every handle stored anywhere can be used as an index, and neither queue
  // holds more than its capacity.
  ghost predicate InRange(s: State) {
    && 2 <= |s.tcbs|
    && 0 <= s.running < |s.tcbs|
    && |s.sched| <= |s.tcbs|
    && |s.free| <= |s.tcbs|
    && (forall i :: 0 <= i < |s.sched| ==> 0 <= s.sched[i] < |s.tcbs|)
    && (forall i :: 0 <= i < |s.free| ==> 0 <= s.free[i] < |s.tcbs|)
    && (forall h :: 0 <= h < |s.tcbs| ==> NULL_HANDLE <= s.tcbs[h].next < |s.tcbs|)
    && (forall c: nat :: c < s.channels ==> c in s.sems)
    && (forall id :: id in s.sems ==> NULL_HANDLE <= s.sems[id].head < |s.tcbs|)
    && (forall id :: id in s.sems ==> s.sems[id].head != NULL_HANDLE ==> 0 <= s.sems[id].tail < |s.tcbs|)
  }

  predicate ValidHandle(s: State, h: int) {
    0 <= h < |s.tcbs|
  }

  function SetState(tcbs: seq<Tcb>, h: int, state: CoState): seq<Tcb>
    requires 0 <= h < |tcbs|
  {
    tcbs[h := tcbs[h].(state := state)]
  }

  function SetNext(tcbs: seq<Tcb>, h: int, next: int): seq<Tcb>
    requires 0 <= h < |tcbs|
  {
    tcbs[h := tcbs[h].(next := next)]
  }

  // ---------- internal_schedule and internal_go_next ----------

  // internal_schedule accepts root whatever its state, and any ready thread.
  predicate Eligible(tcbs: seq<Tcb>, h: int) {
    h == ROOT || (0 <= h < |tcbs| && tcbs[h].state == Ready)
  }

  // The length of the longest prefix of q that the scheduler throws away.
  function FirstEligible(tcbs: seq<Tcb>, q: seq<int>): (k: nat)
    ensures k <= |q|
    ensures forall i :: 0 <= i < k ==> !Eligible(tcbs, q[i])
    ensures k < |q| ==> Eligible(tcbs, q[k])
  {
    if q == [] || Eligible(tcbs, q[0]) then 0 else 1 + FirstEligible(tcbs, q[1..])
  }

  // The handle internal_schedule returns, and the queue it leaves.
  function Choice(tcbs: seq<Tcb>, q: seq<int>): int {
    var k := FirstEligible(tcbs, q);
    if k == |q| then NULL_HANDLE else q[k]
  }

  function AfterChoice(tcbs: seq<Tcb>, q: seq<int>): seq<int> {
    var k := FirstEligible(tcbs, q);
    if k == |q| then [] else q[k + 1..]
  }

  function GoNext(s: State): (r: State)
    requires InRange(s)
    ensures InRange(r)
  {
    var choice := Choice(s.tcbs, s.sched);
    var next := if choice == NULL_HANDLE then ROOT else choice;
    s.(sched := AfterChoice(s.tcbs, s.sched), tcbs := SetState(s.tcbs, next, Running), running := next)
  }

  // ---------- parking the caller ----------

  // The caller goes to the back of the scheduling queue.
  function ParkReady(s: State): (r: State)
    requires InRange(s) && |s.sched| < |s.tcbs|
    ensures InRange(r)
  {
    s.(sched := s.sched + [s.running], tcbs := SetState(s.tcbs, s.running, Ready))
  }

  // The caller goes to the back of a semaphore's intrusive list.
  function ParkBlocked(s: State, id: nat): (r: State)
    requires InRange(s) && id in s.sems
    ensures InRange(r)
  {
    var sem := s.sems[id];
    var blocked := SetState(s.tcbs, s.running, Blocked);
    if sem.head == NULL_HANDLE then
      s.(tcbs := blocked, sems := s.sems[id := sem.(head := s.running, tail := s.running)])
    else
      s.(tcbs := SetNext(blocked, sem.tail, s.running), sems := s.sems[id := sem.(tail := s.running)])
  }

  // A handle goes back to the pool.
  function Release(s: State, h: int): (r: State)
    requires InRange(s) && ValidHandle(s, h) && |s.free| < |s.tcbs|
    ensures InRange(r)
  {
    s.(free := s.free + [h], tcbs := SetState(s.tcbs, h, NotActive))
  }

  // ---------- the API ----------

  // On AArch64 co_derive returns the last whole word of the stack.
  function DerivedHandle(storage: nat, stackSize: nat): int {
    storage + 8 * (stackSize / 8 - 1)
  }

  function SpawnCall(s: State, entry: nat, arg: int): (r: Outcome)
    requires InRange(s)
    ensures InRange(r.state)
  {
    if entry == 0 then Outcome(s, Panicked(SpawnClientEntryIsNull))
    else if s.free == [] then Outcome(s, Returned(NULL_HANDLE))
    else
      var h := s.free[0];
      var storage := s.tcbs[h].storage;
      var s' := s.(free := s.free[1..],
                   tcbs := s.tcbs[h := Tcb(storage, DerivedHandle(storage, s.stackSize), entry, arg, Ready, NULL_HANDLE)]);
      if |s.sched| == |s.tcbs| then Outcome(s', Panicked(SpawnCannotScheduleNew))
      else Outcome(s'.(sched := s.sched + [h]), Returned(h))
  }

  function YieldCall(s: State): (r: Outcome)
    requires InRange(s)
    ensures InRange(r.state)
  {
    if |s.sched| == |s.tcbs| then Outcome(s, Panicked(YieldCannotScheduleCaller))
    else Outcome(GoNext(ParkReady(s)), Switched)
  }

  function DestroyCall(s: State, h: int): (r: Outcome)
    requires InRange(s)
    ensures InRange(r.state)
  {
    if !ValidHandle(s, h) then Outcome(s, Panicked(GenericInvalidHandle))
    else if s.tcbs[h].state == NotActive then Outcome(s, Panicked(DestroyAlreadyNotInitialised))
    else if s.running == ROOT then Outcome(s, Panicked(DestroyCannotDestroyRoot))
    else if |s.free| == |s.tcbs| then Outcome(s, Panicked(DestroyCannotReleaseHandle))
    else
      if h == s.running then Outcome(GoNext(Release(s, h)), Switched) else Outcome(Release(s, h), Returned(0))
  }

  function SemInitCall(s: State, id: nat): (r: Outcome)
    requires InRange(s)
    ensures InRange(r.state)
  {
    Outcome(s.(sems := s.sems[id := FRESH_SEM]), Returned(0))
  }

  function WaitCall(s: State, id: nat): (r: Outcome)
    requires InRange(s) && id in s.sems
    ensures InRange(r.state)
  {
    var sem := s.sems[id];
    if sem.isSet then Outcome(s.(sems := s.sems[id := sem.(isSet := false)]), Returned(0))
    else Outcome(GoNext(ParkBlocked(s, id)), Switched)
  }

  function SignalCall(s: State, id: nat): (r: Outcome)
    requires InRange(s) && id in s.sems
    ensures InRange(r.state)
  {
    var sem := s.sems[id];
    if sem.isSet then Outcome(s, Returned(0))
    else if sem.head == NULL_HANDLE then Outcome(s.(sems := s.sems[id := sem.(isSet := true)]), Returned(0))
    else if |s.sched| == |s.tcbs| then Outcome(s, Panicked(SemSignalCannotScheduleCaller))
    else
      var head := sem.head;
      var next := s.tcbs[head].next;
      var sem' := if next == NULL_HANDLE then FRESH_SEM else sem.(head := next);
      var tcbs' := SetNext(SetState(s.tcbs, s.running, Ready), head, NULL_HANDLE);
      Outcome(s.(sched := s.sched + [s.running], tcbs := SetState(tcbs', head, Running),
                 sems := s.sems[id := sem'], running := head), Switched)
  }

  function WaitOnChannelCall(s: State, channel: nat): (r: Outcome)
    requires InRange(s)
    ensures InRange(r.state)
  {
    if channel >= s.channels then Outcome(s, Panicked(WaitOnChannelInvalidChannel)) else WaitCall(s, channel)
  }

  function RecvNtfnCall(s: State, channel: nat): (r: Outcome)
    requires InRange(s)
    ensures InRange(r.state)
  {
    if s.running != ROOT then Outcome(s, Panicked(RecvNtfnFromNonRoot))
    else if channel >= s.channels then Outcome(s, Panicked(RecvNtfnInvalidChannel))
    else SignalCall(s, channel)
  }

  // The semaphores an operation names have been initialised.
  predicate Known(s: State, op: Op) {
    match op
    case Wait(id) => id in s.sems
    case Signal(id) => id in s.sems
    case _ => true
  }

  // Return is what cothread_entry_wrapper does when the client entry returns.
  function Apply(s: State, op: Op): (r: Outcome)
    requires InRange(s) && Known(s, op)
    ensures InRange(r.state)
  {
    match op
    case Spawn(entry, arg) => SpawnCall(s, entry, arg)
    case Yield => YieldCall(s)
    case Destroy(h) => DestroyCall(s, h)
    case Return => DestroyCall(s, s.running)
    case SemInit(id) => SemInitCall(s, id)
    case Wait(id) => WaitCall(s, id)
    case Signal(id) => SignalCall(s, id)
    case WaitOnChannel(channel) => WaitOnChannelCall(s, channel)
    case RecvNtfn(channel) => RecvNtfnCall(s, channel)
  }

  // ---------- runs ----------

  // What a client may do. Everything else is undefined behaviour of the
  // library, except that a call with a bad argument panics and is allowed.
  predicate Legal(s: State, op: Op) {
    match op
    case Spawn(_, _) => true
    case Yield => true
    case Destroy(h) => MayDestroy(s, h)
    case Return => s.running != ROOT
    case SemInit(id) => s.channels <= id && (id in s.sems ==> s.sems[id].head == NULL_HANDLE)
    case Wait(id) => id in s.sems && MayWait(s, id)
    case Signal(id) => id in s.sems
    case WaitOnChannel(channel) => channel in s.sems ==> MayWait(s, channel)
    case RecvNtfn(_) => true
  }

  // Root must never block, because nothing would be left to wake it.
  predicate MayWait(s: State, id: nat)
    requires id in s.sems
  {
    s.running != ROOT || s.sems[id].isSet
  }

  // Root must not be destroyed and neither must a blocked cothread.
  predicate MayDestroy(s: State, h: int) {
    s.running == ROOT || !ValidHandle(s, h) || (h != ROOT && s.tcbs[h].state != Blocked)
  }

  // The strict regime: a cothread ends only by itself.
  predicate LegalStrict(s: State, op: Op) {
    Legal(s, op) && (op.Destroy? ==> op.handle == s.running || Rejected(s, op))
  }

  // A call that one of the guards on its arguments or its caller turns away. Root
  // cannot destroy anything.
  predicate Rejected(s: State, op: Op) {
    match op
    case Spawn(entry, _) => entry == 0
    case Destroy(h) => !ValidHandle(s, h) || s.tcbs[h].state == NotActive || s.running == ROOT
    case WaitOnChannel(channel) => s.channels <= channel
    case RecvNtfn(channel) => s.running != ROOT || s.channels <= channel
    case _ => false
  }

  ghost predicate LegalRun(s: State, ops: seq<Op>)
    requires InRange(s)
    decreases |ops|
  {
    ops == [] ||
    (Legal(s, ops[0]) &&
     (var r := Apply(s, ops[0]); r.report.Panicked? || LegalRun(r.state, ops[1..])))
  }

  ghost predicate StrictRun(s: State, ops: seq<Op>)
    requires InRange(s)
    decreases |ops|
  {
    ops == [] ||
    (LegalStrict(s, ops[0]) &&
     (var r := Apply(s, ops[0]); r.report.Panicked? || StrictRun(r.state, ops[1..])))
  }

  // Where a run ends. A panic ends it at once.
  function Run(s: State, ops: seq<Op>): (r: Outcome)
    requires InRange(s) && LegalRun(s, ops)
    ensures InRange(r.state)
    decreases |ops|
  {
    if ops == [] then Outcome(s, Returned(0))
    else
      var r := Apply(s, ops[0]);
      if r.report.Panicked? then r else Run(r.state, ops[1..])
  }

  // ---------- microkit_cothread_init ----------

  function FreshSems(channels: nat): (m: map<nat, Sem>)
    ensures forall c: nat :: c in m <==> c < channels
    ensures forall c: nat :: c < channels ==> m[c] == FRESH_SEM
  {
    if channels == 0 then map[] else FreshSems(channels - 1)[channels - 1 := FRESH_SEM]
  }

  // The controller that init leaves: root runs, every other handle is free.
  function InitialState(channels: nat, stackSize: nat, stacks: seq<nat>, rootHandle: int): (s: State)
    requires 1 <= |stacks|
    ensures InRange(s)
  {
    State(channels, stackSize,
          [Tcb(0, rootHandle, 0, 0, Running, NULL_HANDLE)]
          + seq(|stacks|, i requires 0 <= i < |stacks| => Tcb(stacks[i], 0, 0, 0, NotActive, 0)),
          ROOT, [], seq(|stacks|, i => i + 1), FreshSems(channels))
  }

  predicate StackByte(stackSize: nat, stack: nat, byte: nat) {
    stack <= byte < stack + stackSize
  }

  ghost predicate StacksOverlap(stackSize: nat, a: nat, b: nat) {
    exists byte :: StackByte(stackSize, a, byte) && StackByte(stackSize, b, byte)
  }

  ghost predicate AllDisjoint(stackSize: nat, stacks: seq<nat>) {
    forall i, j :: 0 <= i < j < |stacks| ==> !StacksOverlap(stackSize, stacks[i], stacks[j])
  }

  // The checks of init, in their order.
  ghost function InitReport(initialised: bool, stackSize: nat, stacks: seq<nat>): Report {
    if initialised then Panicked(InitAlreadyInitialised)
    else if stackSize < MINIMUM_STACK_SIZE then Panicked(InitStackTooSmall)
    else if 0 in stacks then Panicked(InitCoStackNull)
    else if !AllDisjoint(stackSize, stacks) then Panicked(InitCoStackOverlap)
    else Returned(0)
  }
}
