// What the calls on one semaphore add up to over a whole run, whether they
// were made on the semaphore or through the channel wrappers.
module History {
  import opened Scheduler
  import opened Invariant
  import opened Runs
  import Guards

  // What was observed on one semaphore. Everything here is read off the
  // outside of the calls: whether they switched, to whom, and whether they
  // changed anything.
  datatype Tally = Tally(
    signals: nat,
    waits: nat,
    satisfied: nat,      // waits that returned at once
    coalesced: nat,      // signals that changed nothing
    blocked: seq<int>,   // who blocked, in order
    woken: seq<int>)     // who was switched to by a signal, in order

  const NOTHING: Tally := Tally(0, 0, 0, 0, [], [])

  function Plus(a: Tally, b: Tally): Tally {
    Tally(a.signals + b.signals, a.waits + b.waits, a.satisfied + b.satisfied, a.coalesced + b.coalesced,
          a.blocked + b.blocked, a.woken + b.woken)
  }

  function StepTally(s: State, op: Op, id: nat): Tally
    requires InRange(s) && Known(s, op)
  {
    var r := Apply(s, op);
    if Target(s, op) != id || r.report.Panicked? then NOTHING
    else if IsWait(op) then
      if r.report.Switched? then NOTHING.(waits := 1, blocked := [s.running]) else NOTHING.(waits := 1, satisfied := 1)
    else if IsSignal(op) then
      if r.report.Switched? then NOTHING.(signals := 1, woken := [r.state.running])
      else if r.state == s then NOTHING.(signals := 1, coalesced := 1)
      else NOTHING.(signals := 1)
    else NOTHING
  }

  function RunTally(s: State, ops: seq<Op>, id: nat): Tally
    requires InRange(s) && LegalRun(s, ops)
    decreases |ops|
  {
    if ops == [] || Apply(s, ops[0]).report.Panicked? then NOTHING
    else Plus(StepTally(s, ops[0], id), RunTally(Apply(s, ops[0]).state, ops[1..], id))
  }

  function Flag(s: State, id: nat): nat
    requires id in s.sems
  {
    if s.sems[id].isSet then 1 else 0
  }

  // ---------- one call ----------

  lemma WaitTally(s: State, w: Waits, op: Op, id: nat)
    requires Inv(s, w) && Legal(s, op) && id in s.sems && IsWait(op) && Target(s, op) == id
    ensures id in Apply(s, op).state.sems && id in w && id in NextWaits(s, w, op)
    ensures StepTally(s, op, id)
         == if s.sems[id].isSet then Tally(0, 1, 1, 0, [], []) else Tally(0, 1, 0, 0, [s.running], [])
    ensures NextWaits(s, w, op)[id] == if s.sems[id].isSet then w[id] else w[id] + [s.running]
    ensures !Apply(s, op).state.sems[id].isSet
  {
    WaitIs(s, op);
    NextWaitsIs(s, w, op);
  }

  lemma SignalTally(s: State, w: Waits, op: Op, id: nat)
    requires Inv(s, w) && Legal(s, op) && id in s.sems && IsSignal(op) && Target(s, op) == id
    requires !Apply(s, op).report.Panicked?
    ensures id in Apply(s, op).state.sems && id in w && id in NextWaits(s, w, op)
    ensures StepTally(s, op, id) ==
            if s.sems[id].isSet then Tally(1, 0, 0, 1, [], [])
            else if w[id] == [] then Tally(1, 0, 0, 0, [], [])
            else Tally(1, 0, 0, 0, [], [w[id][0]])
    ensures NextWaits(s, w, op)[id] == if s.sems[id].isSet || w[id] == [] then w[id] else w[id][1..]
    ensures Apply(s, op).state.sems[id].isSet <==> s.sems[id].isSet || w[id] == []
  {
    SignalIs(s, op);
    NextWaitsIs(s, w, op);
    var s' := Apply(s, op).state;
    if !s.sems[id].isSet && w[id] == [] {
      assert s'.sems[id].isSet;
    } else if !s.sems[id].isSet {
      SignalStates(s, w, id);
    }
  }

  lemma OtherSemsUntouched(s: State, op: Op, id: nat)
    requires InRange(s) && Known(s, op) && id in s.sems && op != SemInit(id)
    requires Target(s, op) != id || (!IsWait(op) && !IsSignal(op))
    ensures id in Apply(s, op).state.sems && Apply(s, op).state.sems[id] == s.sems[id]
  {
  }

  lemma OtherTally(s: State, w: Waits, op: Op, id: nat)
    requires InRange(s) && Known(s, op) && id in w && op != SemInit(id)
    requires Target(s, op) != id || (!IsWait(op) && !IsSignal(op))
    ensures id in NextWaits(s, w, op) && NextWaits(s, w, op)[id] == w[id]
    ensures StepTally(s, op, id) == NOTHING
  {
  }

  lemma SemInitTally(s: State, w: Waits, id: nat)
    requires Inv(s, w) && Legal(s, SemInit(id)) && id in s.sems
    ensures id in Apply(s, SemInit(id)).state.sems
    ensures id in NextWaits(s, w, SemInit(id)) && NextWaits(s, w, SemInit(id))[id] == w[id] == []
    ensures StepTally(s, SemInit(id), id) == NOTHING
  {
  }

  lemma StepBalances(s: State, w: Waits, op: Op, id: nat)
    requires Inv(s, w) && Legal(s, op) && id in s.sems && !Apply(s, op).report.Panicked?
    ensures id in Apply(s, op).state.sems && id in w && id in NextWaits(s, w, op)
    ensures var t := StepTally(s, op, id);
            && w[id] + t.blocked == t.woken + NextWaits(s, w, op)[id]
            && t.waits == |t.blocked| + t.satisfied
            && (op != SemInit(id) ==>
                  Flag(s, id) + t.signals == |t.woken| + t.satisfied + t.coalesced + Flag(Apply(s, op).state, id))
  {
    hide StepTally, NextWaits, Apply;
    if op == SemInit(id) {
      SemInitTally(s, w, id);
    } else if Target(s, op) == id && IsWait(op) {
      WaitTally(s, w, op, id);
    } else if Target(s, op) == id && IsSignal(op) {
      SignalTally(s, w, op, id);
      assert w[id] != [] ==> w[id] == [w[id][0]] + w[id][1..];
    } else {
      OtherSemsUntouched(s, op, id);
      OtherTally(s, w, op, id);
    }
  }

  // ---------- first come, first woken ----------

  // The threads that blocked on a semaphore are woken in the order in which
  // they blocked: those who waited already, followed by those who blocked
  // during the run, are those woken during the run followed by those who still
  // wait.
  lemma {:induction false} WakesInOrder(s: State, w: Waits, ops: seq<Op>, id: nat)
    requires Inv(s, w) && LegalRun(s, ops) && id in s.sems && !Run(s, ops).report.Panicked?
    ensures id in w && id in RunWaits(s, w, ops)
    ensures w[id] + RunTally(s, ops, id).blocked == RunTally(s, ops, id).woken + RunWaits(s, w, ops)[id]
    decreases |ops|
  {
    if ops != [] {
      var s', w' := Apply(s, ops[0]).state, NextWaits(s, w, ops[0]);
      StepBalances(s, w, ops[0], id);
      StepKeepsInv(s, w, ops[0]);
      WakesInOrder(s', w', ops[1..], id);
      var a, b := StepTally(s, ops[0], id), RunTally(s', ops[1..], id);
      Splice(w[id], a.blocked, a.woken, w'[id], b.blocked, b.woken, RunWaits(s', w', ops[1..])[id]);
    }
  }

  // ---------- every signal is accounted for ----------

  // Each signal wakes one thread, satisfies one later wait, merges into a flag
  // that is already set, or is the flag.
  lemma {:induction false} SignalsAreAccountedFor(s: State, w: Waits, ops: seq<Op>, id: nat)
    requires Inv(s, w) && LegalRun(s, ops) && id in s.sems && !Run(s, ops).report.Panicked? && SemInit(id) !in ops
    ensures id in Run(s, ops).state.sems
    ensures var t := RunTally(s, ops, id);
            && Flag(s, id) + t.signals == |t.woken| + t.satisfied + t.coalesced + Flag(Run(s, ops).state, id)
            && t.waits == |t.blocked| + t.satisfied
    decreases |ops|
  {
    if ops != [] {
      StepBalances(s, w, ops[0], id);
      StepKeepsInv(s, w, ops[0]);
      SignalsAreAccountedFor(Apply(s, ops[0]).state, NextWaits(s, w, ops[0]), ops[1..], id);
    }
  }

  // No wakeup is lost: while anybody waits the flag is clear, so every signal
  // that did not merge into a set flag has let exactly one wait go on.
  lemma NoLostWakeup(s: State, w: Waits, ops: seq<Op>, id: nat)
    requires Inv(s, w) && LegalRun(s, ops) && id in s.sems && !Run(s, ops).report.Panicked? && SemInit(id) !in ops
    ensures id in RunWaits(s, w, ops)
    ensures var t := RunTally(s, ops, id);
            var still := RunWaits(s, w, ops)[id];
            && (still != [] ==> Flag(s, id) + t.signals - t.coalesced == |t.woken| + t.satisfied)
            && |w[id]| + t.waits == |t.woken| + t.satisfied + |still|
  {
    WakesInOrder(s, w, ops, id);
    SignalsAreAccountedFor(s, w, ops, id);
    RunKeepsInv(s, w, ops);
    var t := RunTally(s, ops, id);
    assert |w[id] + t.blocked| == |t.woken + RunWaits(s, w, ops)[id]|;
  }

  // ---------- a semaphore starts with a clear flag ----------

  // What was observed on a semaphore since it was last initialised during the
  // run, or since the start of a run that does not initialise it.
  function SinceInit(s: State, ops: seq<Op>, id: nat): Tally
    requires InRange(s) && LegalRun(s, ops)
    decreases |ops|
  {
    if SemInit(id) !in ops then RunTally(s, ops, id)
    else if Apply(s, ops[0]).report.Panicked? then NOTHING
    else SinceInit(Apply(s, ops[0]).state, ops[1..], id)
  }

  lemma FreshAfterInit(s: State, id: nat)
    requires InRange(s)
    ensures id in Apply(s, SemInit(id)).state.sems && Flag(Apply(s, SemInit(id)).state, id) == 0
  {
  }

  // Every signal since the last initialisation is accounted for by what has
  // happened since: the flag was clear then.
  lemma {:induction false} SignalsSinceInit(s: State, w: Waits, ops: seq<Op>, id: nat)
    requires Inv(s, w) && LegalRun(s, ops) && SemInit(id) in ops && !Run(s, ops).report.Panicked?
    ensures id in Run(s, ops).state.sems
    ensures var t := SinceInit(s, ops, id);
            && t.signals == |t.woken| + t.satisfied + t.coalesced + Flag(Run(s, ops).state, id)
            && t.waits == |t.blocked| + t.satisfied
    decreases |ops|
  {
    var s', w' := Apply(s, ops[0]).state, NextWaits(s, w, ops[0]);
    StepKeepsInv(s, w, ops[0]);
    if SemInit(id) in ops[1..] {
      SignalsSinceInit(s', w', ops[1..], id);
    } else {
      assert ops[0] == SemInit(id);
      FreshAfterInit(s, id);
      SignalsAreAccountedFor(s', w', ops[1..], id);
    }
  }

  // So a cothread that waits on a semaphore that has not been signalled since it
  // was initialised blocks.
  lemma UnsignalledWaitBlocks(s: State, w: Waits, ops: seq<Op>, id: nat)
    requires Inv(s, w) && LegalRun(s, ops) && SemInit(id) in ops && !Run(s, ops).report.Panicked?
    requires SinceInit(s, ops, id).signals == 0 && Run(s, ops).state.running != ROOT
    ensures id in Run(s, ops).state.sems
    ensures var s' := Run(s, ops).state;
            var r := WaitCall(s', id);
            r.report == Switched && r.state.running != s'.running && r.state.tcbs[s'.running].state == Blocked
  {
    var s', w' := Run(s, ops).state, RunWaits(s, w, ops);
    RunKeepsInv(s, w, ops);
    SignalsSinceInit(s, w, ops, id);
    BlockedCallerLeaves(s', w', id);
  }

  lemma BlockedCallerLeaves(s: State, w: Waits, id: nat)
    requires Inv(s, w) && id in s.sems && !s.sems[id].isSet && s.running != ROOT
    ensures var r := WaitCall(s, id);
            r.report == Switched && r.state.running != s.running && r.state.tcbs[s.running].state == Blocked
  {
    var p := ParkBlocked(s, id);
    ParkBlockedStates(s, w, id);
    ParkBlockedParks(s, w, id);
    SomebodyEligible(p, w[id := w[id] + [s.running]]);
  }

  lemma {:induction false} ChannelsAreNotInitialised(s: State, ops: seq<Op>, c: nat)
    requires InRange(s) && LegalRun(s, ops) && c < s.channels && !Run(s, ops).report.Panicked?
    ensures SemInit(c) !in ops
    decreases |ops|
  {
    if ops != [] {
      Guards.SameChannels(s, ops[0]);
      ChannelsAreNotInitialised(Apply(s, ops[0]).state, ops[1..], c);
    }
  }

  // The semaphore of a channel starts with a clear flag too, so from init on
  // every notification is accounted for.
  lemma NotificationsFromInit(channels: nat, stackSize: nat, stacks: seq<nat>, rootHandle: int, ops: seq<Op>, c: nat)
    requires 1 <= |stacks| && c < channels
    requires var s := InitialState(channels, stackSize, stacks, rootHandle);
             LegalRun(s, ops) && !Run(s, ops).report.Panicked?
    ensures var s := InitialState(channels, stackSize, stacks, rootHandle);
            var t := RunTally(s, ops, c);
            && c in Run(s, ops).state.sems
            && t.signals == |t.woken| + t.satisfied + t.coalesced + Flag(Run(s, ops).state, c)
  {
    var s := InitialState(channels, stackSize, stacks, rootHandle);
    InitialStateHasInv(channels, stackSize, stacks, rootHandle);
    ChannelsAreNotInitialised(s, ops, c);
    SignalsAreAccountedFor(s, NoWaiters(channels), ops, c);
  }

  // ---------- a channel and its semaphore ----------

  // A cothread that waits on a channel without a pending notification joins the
  // list of that channel and no other.
  lemma WaitOnChannelJoins(s: State, w: Waits, c: nat)
    requires Inv(s, w) && s.running != ROOT && c < s.channels && !s.sems[c].isSet
    ensures c in w && Inv(WaitOnChannelCall(s, c).state, w[c := w[c] + [s.running]])
    ensures WaitOnChannelCall(s, c).report == Switched
  {
    WaitKeepsInv(s, w, c);
  }

  // With a notification pending it goes on at once and nobody's list changes.
  lemma PendingWaitGoesOn(s: State, w: Waits, c: nat)
    requires Inv(s, w) && c < s.channels && s.sems[c].isSet
    ensures WaitOnChannelCall(s, c).report == Returned(0)
    ensures Inv(WaitOnChannelCall(s, c).state, w) && !WaitOnChannelCall(s, c).state.sems[c].isSet
  {
    WaitKeepsInv(s, w, c);
  }

  // A notification on a channel switches to the first who waits on that channel,
  // and is left pending on it, with root going on, if nobody does.
  lemma NotificationGoesToFirst(s: State, w: Waits, c: nat)
    requires Inv(s, w) && s.running == ROOT && c < s.channels && !RecvNtfnCall(s, c).report.Panicked?
    ensures c in w
    ensures var r := RecvNtfnCall(s, c);
            if w[c] == [] then
              r.report == Returned(0) && r.state.running == ROOT && r.state.sems[c].isSet && Inv(r.state, w)
            else
              r.report == Switched && r.state.running == w[c][0] && Inv(r.state, w[c := w[c][1..]])
  {
    SignalStepKeepsInv(s, w, c);
    if w[c] != [] && !s.sems[c].isSet {
      SignalStates(s, w, c);
    }
  }
}
