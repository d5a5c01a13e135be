// Which guard turns away which call, in the order in which the guards stand.
module Guards {
  import opened Scheduler
  import opened Invariant
  import opened Runs

  // Two stacks of this size have a byte in common.
  predicate ShareByte(a: nat, b: nat, size: nat) {
    a < b + size && b < a + size
  }

  // Init panics with the first of: called before, a stack below 4096 bytes, a
  // null stack, two stacks with a byte in common. Otherwise it returns.
  lemma InitReportsExactly(initialised: bool, size: nat, stacks: seq<nat>)
    ensures var r := InitReport(initialised, size, stacks);
            var large, given := 4096 <= size, forall i :: 0 <= i < |stacks| ==> stacks[i] != 0;
            var apart := forall i, j :: 0 <= i < j < |stacks| ==> !ShareByte(stacks[i], stacks[j], size);
            && (r == Panicked(InitAlreadyInitialised) <==> initialised)
            && (r == Panicked(InitStackTooSmall) <==> !initialised && !large)
            && (r == Panicked(InitCoStackNull) <==> !initialised && large && !given)
            && (r == Panicked(InitCoStackOverlap) <==> !initialised && large && given && !apart)
            && (r == Returned(0) <==> !initialised && large && given && apart)
  {
    if 4096 <= size {
      forall i, j | 0 <= i < j < |stacks|
        ensures StacksOverlap(size, stacks[i], stacks[j]) <==> ShareByte(stacks[i], stacks[j], size)
      {
        SharedByteIs(size, stacks[i], stacks[j]);
      }
    }
  }

  lemma SharedByteIs(size: nat, a: nat, b: nat)
    requires 0 < size
    ensures StacksOverlap(size, a, b) <==> ShareByte(a, b, size)
  {
    var byte := if a < b then b else a;
    assert ShareByte(a, b, size) ==> StackByte(size, a, byte) && StackByte(size, b, byte);
  }

  // The panic of a destroy: an unknown handle is turned away before anything is
  // looked up, one that is not active before it matters who asks, and then root.
  lemma DestroyRejections(s: State, w: Waits, h: int)
    requires Inv(s, w)
    ensures var r := DestroyCall(s, h);
            var known := 0 <= h < |s.tcbs|;
            && (r.report == Panicked(GenericInvalidHandle) <==> !known)
            && (r.report == Panicked(DestroyAlreadyNotInitialised) <==> known && s.tcbs[h].state == NotActive)
            && (r.report == Panicked(DestroyCannotDestroyRoot) <==>
                known && s.tcbs[h].state != NotActive && s.running == 0)
            && (!r.report.Panicked? <==> known && s.tcbs[h].state != NotActive && s.running != 0)
            && (r.report.Panicked? ==> r.state == s)
  {
    FreeHasRoom(s, w);
  }

  // The panics of spawn and yield: a null entry point whether or not a handle is
  // free, and a full queue.
  lemma SpawnRejections(s: State, entry: nat, arg: int)
    requires InRange(s)
    ensures var r := SpawnCall(s, entry, arg);
            && (r.report == Panicked(SpawnClientEntryIsNull) <==> entry == 0)
            && (r.report == Panicked(SpawnCannotScheduleNew) <==> entry != 0 && s.free != [] && |s.sched| == |s.tcbs|)
            && (r.report.Panicked? ==> r.report.code in {SpawnClientEntryIsNull, SpawnCannotScheduleNew})
            && (entry == 0 ==> r.state == s)
  {
  }

  lemma YieldRejections(s: State)
    requires InRange(s)
    ensures YieldCall(s).report == (if |s.sched| == |s.tcbs| then Panicked(YieldCannotScheduleCaller) else Switched)
    ensures YieldCall(s).report.Panicked? ==> YieldCall(s).state == s
  {
  }

  // The panics of the channel wrappers: a notification off root is turned away
  // before its channel is looked at.
  lemma ChannelRejections(s: State, c: nat)
    requires InRange(s)
    ensures var wait, recv := WaitOnChannelCall(s, c), RecvNtfnCall(s, c);
            && (wait.report == Panicked(WaitOnChannelInvalidChannel) <==> s.channels <= c)
            && (wait.report.Panicked? ==> wait.report.code == WaitOnChannelInvalidChannel && wait.state == s)
            && (recv.report == Panicked(RecvNtfnFromNonRoot) <==> s.running != 0)
            && (recv.report == Panicked(RecvNtfnInvalidChannel) <==> s.running == 0 && s.channels <= c)
            && (recv.report == Panicked(SemSignalCannotScheduleCaller) <==>
                s.running == 0 && c < s.channels && !s.sems[c].isSet && s.sems[c].head != NULL_HANDLE
                && |s.sched| == |s.tcbs|)
            && (recv.report.Panicked? ==> recv.state == s)
  {
  }

  lemma SameChannels(s: State, op: Op)
    requires InRange(s) && Known(s, op)
    ensures Apply(s, op).state.channels == s.channels
  {
  }

  lemma {:induction false} ChannelsStay(s: State, ops: seq<Op>)
    requires InRange(s) && LegalRun(s, ops)
    ensures Run(s, ops).state.channels == s.channels
    decreases |ops|
  {
    if ops != [] {
      SameChannels(s, ops[0]);
      if !Apply(s, ops[0]).report.Panicked? { ChannelsStay(Apply(s, ops[0]).state, ops[1..]); }
    }
  }

  // In every state that a legal run reaches from init, a channel can be waited on
  // if and only if it is one of those there are.
  lemma WaitablesFromInit(channels: nat, size: nat, stacks: seq<nat>, rootHandle: int, ops: seq<Op>, c: nat)
    requires 1 <= |stacks|
    requires var s := InitialState(channels, size, stacks, rootHandle);
             LegalRun(s, ops) && !Run(s, ops).report.Panicked?
    ensures var s' := Run(InitialState(channels, size, stacks, rootHandle), ops).state;
            WaitOnChannelCall(s', c).report.Panicked? <==> channels <= c
  {
    ChannelsStay(InitialState(channels, size, stacks, rootHandle), ops);
    ChannelRejections(Run(InitialState(channels, size, stacks, rootHandle), ops).state, c);
  }
}
