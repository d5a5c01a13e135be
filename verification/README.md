# Verified model of libmicrokitco

This project models the cooperative scheduler of libmicrokitco, the circular queue and the context
switch it stands on, and two programs that ship with it (the codis server and the bundled printf), and proves
properties of that model. `dafny verify dfyconfig.toml` checks all of it.

## How it is built

- `HostedQueue.dfy` is the ring buffer under both queues of the controller, as a class over an array with 32-bit counters.
- `Scheduler.dfy` says what each library call does to the controller, as functions of the controller's value:
  control blocks, `running`, the scheduling queue, the free queue and any number of semaphores whose waiting lists run
  through one `next` field per control block. A panic is an outcome. A run is a sequence of calls; a client is any
  sequence of calls that the rules `Legal` allow.
- `Controller.dfy` is the library's own form: arrays, rings and semaphore objects updated in place. Every method is
  proved equal, on the whole state and with its report, to the function in `Scheduler.dfy`, and a whole run of calls to
  the run of the functions. The theorems below are about these functions.
- `Invariant.dfy` holds the global invariant and the proof that every legal call keeps it; `Runs.dfy`, `Misuse.dfy`,
  `RootTurns.dfy`, `Stale.dfy`, `Guards.dfy`, `Fairness.dfy`, `History.dfy`, `Allocation.dfy`, `Jobs.dfy` and
  `Incarnations.dfy` hold the theorems about calls and runs.
- `Machine.dfy` runs straight-line code over registers and memory. `Aarch64.dfy` does so with the swap routine, and
  `Contexts.dfy` and `Stacks.dfy` join it to the scheduler and to the memory given to init. `Amd64.dfy` does the switch
  and the stack geometry for x86-64.
- `Strings.dfy` and `Codis.dfy` are the word-at-a-time string routines and the database server; `Printf.dfy` is integer
  formatting and bounded output, and `Format.dfy` the interpreter of format strings. `Numerals.dfy` and `Prints.dfy` say
  what integers and conversions look like on the page.

Two regimes appear throughout. In the *general* regime any legal destroy is allowed, and a destroyed ready cothread
leaves a stale entry in the scheduling queue. In the *strict* regime cothreads end only by returning or destroying
themselves. `Inv` is the invariant of the first and `StrictInv` of the second; the second argument of both is the
assignment of waiting lists to semaphores, which `Misuse.WaitsAreUnique` shows to be determined by the controller.

What a client may not do is what `Legal` excludes: root blocking on a semaphore, destroying root or a blocked
cothread, using an uninitialised semaphore, and initialising a semaphore again while somebody waits on it. Calls with a
bad argument are allowed and panic.

## Where the code and its documentation disagree

- README.md:94 and README.md:217 say that root runs only when no cothread is ready. In the code root is an ordinary
  entry of the queue (libmicrokitco.c:349, libmicrokitco.c:165): `RootTurns.RootRunsBeforeReadyCothread` is a run on
  which the claim fails, and `RootTurns.RootOnlyWhenIdleExactlyWhen` says exactly when it holds.
- README.md:286 says that the caller of yield keeps running if no other cothread is ready. A queued root takes the turn,
  on the same run: `RootTurns.LoneYieldKeepsCallerExactlyWhen` and `RootTurns.StrictYieldKeepsCallerExactlyWhen`.
- README.md:290-297 documents no panic for destroy, but root can destroy nothing: `Misuse.ActiveDestroyPanicsExactlyWhen`.
- The guard that is meant to stop root from being destroyed (libmicrokitco.c:369-372) asks who calls. A cothread can
  destroy root: `Misuse.CothreadCanDestroyRoot`; `Misuse.DestroySoundExactlyWhen` says exactly which destroys are harmless.
- README.md:239 promises the handle of `free_handle_available` only for the next call. It stays the next one across any
  number of calls other than spawn: `Allocation.ReportedHandleIsNext`.
- A legal client can fill the scheduling queue and hit a panic that is meant for bugs: `Runs.StaleEntryCanPanicYield`;
  `Runs.PanicsExactlyWhen` and `Runs.QueueFullExactlyWhen` say exactly when.
- `strncpy` in example/codis/include/string.h does not keep its bound, because its index never advances:
  `Strings.StrncpyIgnoresBound` and `Strings.StrncpyBoundedExactlyWhen`.
- example/codis/include/protocol.h:21 gives a zero reply to append the meaning "rejected"; it has one other cause:
  `Codis.AppendRepliesZeroExactlyWhen`.
- The hash flag of printf is to put a mark in front of a number, but where the field is as wide as the number has digits
  it takes digits away (example/simple/printf.c:249-254): `Printf.HashLosesDigits` and
  `Printf.HashKeepsValueExactlyWhen`.

## Model

| member | source | states |
|---|---|---|
| HostedQueue.Queue.Push | libhostedqueue/libhostedqueue.h:65-77 | on the ring, an append to the bounded sequence, or FULL with the sequence unchanged; the tail stays at head plus items, and no 32-bit counter wraps |
| HostedQueue.Queue.Pop | libhostedqueue/libhostedqueue.h:45-63 | removal of the front of the bounded sequence, or EMPTY |
| HostedQueue.Queue.Init | libhostedqueue/libhostedqueue.h:33-43 | rejects capacity 0 and leaves the counters alone; otherwise the queue is valid and empty |
| HostedQueue.Queue.Drive | libhostedqueue/libhostedqueue.h:33-77 | any interleaving of pushes and pops gives the contents and answers of the bounded first-in first-out sequence |
| HostedQueue.FifoRunConserves | libhostedqueue/libhostedqueue.h:55-77 | over any interleaving: initial contents followed by accepted items = items given out followed by what is left, within capacity |
| HostedQueue.RingPush | libhostedqueue/libhostedqueue.h:70-74 | writing the slot behind the last item appends whatever the memory held there, including around the end |
| HostedQueue.SlotIsModular | libhostedqueue/libhostedqueue.h:58-59 | the slot arithmetic is addition modulo the capacity |
| Scheduler.FirstEligible | libmicrokitco.c:76-101 | internal_schedule skips exactly the longest prefix of entries that are neither root nor ready, so no ready entry is lost |
| Controllers.Controller.InternalSchedule | libmicrokitco.c:76-101 | the pop loop terminates with the queue's length and returns the first eligible entry, leaving exactly what was behind it |
| Controllers.Controller.InternalGoNext | libmicrokitco.c:104-114 | the chosen thread, or root if nobody was found, becomes running and nothing else changes |
| Controllers.Controller.Yield | libmicrokitco.c:346-358 | on arrays and rings, equal to YieldCall on the whole state |
| Controllers.Controller.SemaphoreWait | libmicrokitco.c:135-149 | with a linked list through the control blocks, equal to WaitCall on the whole state |
| Controllers.Controller.SemaphoreSignal | libmicrokitco.c:151-184 | equal to SignalCall on the whole state, including the relinking and the reset of an emptied semaphore |
| Controllers.Controller.SemaphoreInit | libmicrokitco.c:129-133 | equal to SemInitCall on the whole state: the flag is clear and nobody waits |
| Controllers.Controller.Spawn | libmicrokitco.c:287-316 | equal to SpawnCall on the whole state, error outcomes included; the thread returned has the entry point and argument given and a handle at the last whole word of its stack |
| Controllers.Controller.Destroy | libmicrokitco.c:360-382 | equal to DestroyCall on the whole state, with the checks in their order |
| Controllers.Controller.EntryReturns | libmicrokitco.c:116-125 | a client entry that returns destroys the running thread |
| Controllers.Controller.WaitOnChannel | libmicrokitco.c:384-390 | panics on a channel outside the map and otherwise waits on its semaphore |
| Controllers.Controller.RecvNtfn | libmicrokitco.c:392-401 | panics off root or outside the map and otherwise signals the channel's semaphore |
| Controllers.Controller.FreeHandleAvailable | libmicrokitco.c:283-285 | reports the front of the free queue, if any |
| Controllers.Controller.Init | libmicrokitco.c:196-281 | panics in the order of the checks, on overlap exactly when two stacks share a byte; otherwise records the size and the stacks given and leaves the initial state |
| Controllers.Controller.OverlapTest | libmicrokitco.c:239 | the comparison of ends holds exactly when the two stacks have a byte in common |
| Controllers.Controller.Execute | libmicrokitco.c:76-401 | any legal run of calls on the in-place structures is that run of the functions, up to its panic |
| Guards.InitReportsExactly | libmicrokitco.c:196-244 | which of its panics init ends in: called before, a stack below 4096 bytes, a null stack or two stacks with a byte in common, the first that applies, each if and only if it does |
| Guards.DestroyRejections | libmicrokitco.c:360-372 | which panic a destroy ends in, each if and only if: an unknown handle before an inactive one before root as the caller; nothing is changed |
| Guards.SpawnRejections | libmicrokitco.c:287-316 | a null entry point panics whether or not a handle is free, and a full queue only if one is |
| Guards.ChannelRejections | libmicrokitco.c:384-401 | a channel outside the map, and a notification off root before its channel is looked at, each with its own panic and nothing changed |
| Guards.WaitablesFromInit | libmicrokitco.c:384-390 | after any legal run from init a wait on a channel panics if and only if there is no such channel |
| Invariant.InitialStateHasInv | libmicrokitco.c:246-280 | the state after init satisfies the strict invariant with nobody waiting |
| Invariant.StepKeepsInv | libmicrokitco.c:76-401 | every legal call keeps the general invariant, a strict call the strict one, and the waiting lists change as first-in first-out sequences |
| Invariant.ChainAppend | libmicrokitco.c:139-146 | linking behind the tail turns the chain of a sequence into that of the sequence with the new waiter at its end |
| Invariant.ChainPop | libmicrokitco.c:161-179 | unlinking the head leaves the chain of the rest, and its next field is null exactly for a single waiter |
| Invariant.SignalKeepsOtherChains | libmicrokitco.c:161-179 | a signal leaves every other semaphore's chain intact although they share the next fields |
| Invariant.SomebodyEligible | libmicrokitco.c:82-114 | with nobody running the scheduler finds a thread, so the fallback to root is never needed |
| Invariant.SchedHasRoom | libmicrokitco.c:165-168 | in the strict regime the scheduling queue has room whenever a thread runs |
| Invariant.FreeHasRoom | libmicrokitco.c:374-375 | in both regimes the queue of free handles has room when a handle is released |
| Runs.RunKeepsInv | libmicrokitco.c:76-401 | every legal run ends in a panic or in a state with the invariant |
| Runs.StrictRunsFromInit | libmicrokitco.c:196-401 | every strict run from init ends in the panic of a guard or partitions the handles: one running, the queued ready ones, the free ones and the blocked ones on disjoint lists |
| Runs.StrictRunConserves | libmicrokitco.c:76-401 | the same partition at the end of any strict run from any strict state |
| Runs.PanicsExactlyWhen | libmicrokitco.c:287-401 | a legal call panics if and only if a guard rejects its arguments or its caller, or it must append to a full scheduling queue |
| Runs.StrictPanicsExactlyWhen | libmicrokitco.c:287-401 | a strict call panics if and only if a guard rejects its arguments or its caller |
| Runs.StrictRunPanicsAreRejections | libmicrokitco.c:37-62 | no strict run ends in one of the panics that stand for bugs in the library |
| Runs.QueueFullExactlyWhen | libmicrokitco.c:79-98 | the queue is full if and only if it holds as many stale entries as there are threads that are not ready |
| Runs.StaleEntryCanPanicYield | libmicrokitco.c:346-382 | a legal run of six calls with three threads that ends in the yield panic |
| Stale.StepExcess | libmicrokitco.c:76-382 | no call adds a stale entry to the queue, except that a destroy of another cothread adds one |
| Stale.StaleEntriesBounded | libmicrokitco.c:76-382 | after any legal run there are at most as many stale entries more as other cothreads were destroyed |
| Stale.FullQueueNeedsDestroys | libmicrokitco.c:76-382 | from init on, a full queue takes a destroy of another cothread for every thread that is not ready |
| Stale.FullQueuePanicNeedsDestroy | libmicrokitco.c:309-352 | a run that ends in the panic of a full queue has destroyed another cothread |
| Runs.EveryRunEnds | libmicrokitco.c:76-401 | apart from the panics of guards, the only ones of the general regime are full scheduling queues; otherwise one thread runs and root is running or queued |
| Runs.RootIsRecoverable | libmicrokitco.c:151-184 | root is queued exactly once if it is not running and not at all if it is |
| Runs.SchedulerAlwaysFinds | libmicrokitco.c:104-114 | no call makes internal_schedule return the null choice |
| RootTurns.RootRunsBeforeReadyCothread | libmicrokitco.c:346-358 | a run of three calls from init after which root runs while a cothread is ready, and in which a yield with no other cothread ready does not keep its caller running |
| RootTurns.RootOnlyWhenIdleExactlyWhen | libmicrokitco.c:76-184 | a switch leaves root running only with no cothread ready if and only if it is a signal or root's entry is not the first choosable one with another behind it |
| RootTurns.StrictRootOnlyWhenIdleExactlyWhen | libmicrokitco.c:76-149 | in the strict regime: if and only if root is not at the front of the queue or is alone in it |
| RootTurns.LoneYieldKeepsCallerExactlyWhen | libmicrokitco.c:346-358 | with no other cothread ready, the caller of yield keeps running if and only if it is root or a stale entry of its handle stands before root's |
| RootTurns.StrictYieldKeepsCallerExactlyWhen | libmicrokitco.c:346-358 | in the strict regime the caller of yield keeps running if and only if the queue is empty, and then it is root |
| Misuse.WaitsAreUnique | libmicrokitco.c:129-184 | the pointers determine every waiting list and its order |
| Misuse.WaitSoundExactlyWhen | libmicrokitco.c:135-149 | a wait leaves the controller representable if and only if the caller is not root or the flag is set |
| Misuse.RootCanWait | libmicrokitco.c:104-149 | root waiting on a channel straight after init does not panic and leaves root running while it is on a list |
| Misuse.DestroySoundExactlyWhen | libmicrokitco.c:360-382 | a destroy that does not panic leaves the controller representable if and only if its subject is neither root nor blocked |
| Misuse.CothreadCanDestroyRoot | libmicrokitco.c:287-382 | root spawns a cothread and yields to it: its destroy of root succeeds, and the next spawn hands out root's handle and derives a context on its null storage |
| Misuse.ActiveDestroyPanicsExactlyWhen | libmicrokitco.c:360-382 | a destroy of an active thread panics if and only if root asks for it |
| Misuse.DestroyExactExactlyWhen | libmicrokitco.c:79-98 | a legal destroy keeps the scheduling queue exact if and only if a thread ends itself |
| Fairness.BoundedBypass | libmicrokitco.c:76-184 | in both regimes a ready thread with k entries before its own and b blocked threads runs within 2k + b + 1 transfers unless it is destroyed |
| Fairness.StepApproaches | libmicrokitco.c:76-184 | each transfer runs the thread or strictly decreases 2k + b, and no other call changes it |
| History.WakesInOrder | libmicrokitco.c:135-184 | over any run the waiters of a semaphore are woken in the order in which they blocked |
| History.SignalsAreAccountedFor | libmicrokitco.c:135-184 | over any run: initial flag + signals = threads woken + waits satisfied at once + signals that changed nothing + final flag |
| History.NoLostWakeup | libmicrokitco.c:384-401 | while anybody waits, every signal that was not merged has let exactly one wait go on, also through the channel wrappers |
| History.SignalsSinceInit | libmicrokitco.c:129-184 | over any run, counted from the last initialisation in it: signals = threads woken + waits satisfied at once + signals that changed nothing + final flag, so the flag was clear |
| History.UnsignalledWaitBlocks | libmicrokitco.c:129-149 | a cothread that waits on a semaphore that has not been signalled since it was initialised blocks |
| History.NotificationsFromInit | libmicrokitco.c:246-281 | the same balance for every channel from init on, so its flag starts clear |
| History.WaitOnChannelJoins | libmicrokitco.c:384-390 | a cothread that waits on a channel with nothing pending joins the back of the list of that channel and no other |
| History.NotificationGoesToFirst | libmicrokitco.c:392-401 | a notification switches to the first who waits on that channel, or is left pending on it |
| Allocation.AllocationIsFifo | libmicrokitco.c:287-382 | over any run: free handles followed by those given back = handles allocated followed by those free at the end |
| Allocation.FirstHandlesInOrder | libmicrokitco.c:271-316 | while no cothread ends, the spawns from init on return 1, 2, 3, ... |
| Stacks.CothreadsAreOnTheirStacks | libmicrokitco.c:211-316 | after any legal run from init, cothread h has the h-th stack given to init, and an active one the handle of its last whole word |
| Stacks.KthSpawnGetsKthStack | libmicrokitco.c:211-316 | while no cothread ends, the k-th spawn after init gets handle k, the k-th stack and the handle stack + 8 * (size / 8 - 1) |
| Stacks.SpawnsFreshenFromInit | libmicrokitco.c:301-305 | from init on, every spawn of a run zeroes exactly the whole words of the stack with the number it returns, up to the four that co_derive writes there |
| Jobs.CallKeepsJobs | libmicrokitco.c:287-401 | only a spawn changes an entry point or argument, and only those of the thread it returns |
| Jobs.JobsAreKept | libmicrokitco.c:287-401 | over any run a thread keeps its entry point and argument until a spawn returns its handle again |
| Allocation.ReportedHandleIsNext | libmicrokitco.c:283-316 | the handle reported as available is what the next spawn returns, whatever other calls come between |
| Allocation.SpawnNullExactlyWhen | libmicrokitco.c:292-299 | spawn returns the null handle if and only if every cothread is active |
| Allocation.BatchRunsToCompletion | example/simple/client.c:51-70 | k spawned cothreads that just return run in spawn order with their own entry and argument, root is back after k + 1 transfers, and their handles are free in that order |
| Incarnations.NoDeadIncarnationResumes | libmicrokitco.c:116-125 | with any legal destroys and reuse of handles, control only goes to a living incarnation and never behind a self-destroy |
| Incarnations.InitialLives | libmicrokitco.c:196-401 | the same for every legal run from init on |
| Incarnations.StepKeepsLives | libmicrokitco.c:287-382 | every legal call keeps current incarnations of active handles alive, also when a stale entry names a reused handle |
| Aarch64.SwapEffect | libco/aarch64.c:54-91 | the swap saves lr, sp, fp, x19-x28 and d8-d15 in the outgoing save area, changes no other word, loads all of them from the incoming area (also if it is the same), and jumps to the loaded lr |
| Aarch64.LayoutsAgree | libco/aarch64.c:24-91 | the offsets of the store and load instructions agree with the enumeration that indexes the save area |
| Aarch64.DeriveGeometry | libco/aarch64.c:105-123 | on any word-aligned stack of at least 0x1000 bytes the initial sp is the highest 16-byte aligned address that leaves a word free below all 21 save slots, inside the stack |
| Aarch64.FirstEntry | libco/aarch64.c:95-123 | the first switch to a derived thread enters co_entrypoint with that sp, which then loads the given entry point |
| Aarch64.Cpu.CoDerive | libco/aarch64.c:105-123 | returns the last whole word of the stack and writes exactly four words of the save area |
| Aarch64.Cpu.CoSwitch | libco/aarch64.c:125-129 | the active handle becomes the argument and the machine is that of the swap between the two |
| Aarch64.Cpu.CoSwap | libco/aarch64.c:54-93 | stepping through the instruction list computes the swap |
| Aarch64.Cpu.StartThread | libco/aarch64.c:95-129 | zeroing a stack, co_derive, co_switch and co_entrypoint one after the other: the pointer called is the entry point given to co_derive, sp is aligned and inside the stack, and the thread switched from is saved |
| Contexts.ContextsPreserved | libmicrokitco.c:301-305 | over any run of calls and thread code, every switch resumes its thread with exactly the preserved registers it was suspended or created with |
| Contexts.ContextsPreservedFromInit | libmicrokitco.c:230-244 | the same from init on, for all stacks that its overlap check accepts |
| Contexts.SaveAreasApart | libmicrokitco.c:230-244 | the save areas of different active threads have no address in common |
| Contexts.SwitchPreserves | libco/aarch64.c:125-129 | one switch writes only the outgoing save area and resumes the incoming thread exactly |
| Amd64.SwapEffect | libco/amd64.c:19-36 | the swap saves rsp and the callee-saved registers, changes no other word, and returns to the address on the incoming stack |
| Amd64.SwitchBackReturns | libco/amd64.c:19-36 | switching away and back returns to the caller with rsp behind the return address and all callee-saved registers intact |
| Amd64.FirstEntry | libco/amd64.c:40-66 | co_entrypoint is entered with rsp + 8 the highest multiple of 16 that leaves 32 bytes of the whole 16-byte blocks, a null return address, the handle as argument and the entry point in its second word |
| Amd64.Cpu.CoDerive | libco/amd64.c:52-66 | pushes a null and the entry stub below the aligned top and records rsp and entry point at the base |
| Strings.HasZeroFindsZero | example/codis/include/string.h:6-10 | HASZERO of a 64-bit word is non-zero if and only if some byte of it is zero |
| Strings.HasZeroFindsEqual | example/codis/include/string.h:37 | after the xor it is non-zero if and only if the two words agree in some byte |
| Strings.Memchr | example/codis/include/string.h:29-41 | finds the first occurrence in the n bytes, or none, for every offset, length and character |
| Strings.SkipWords | example/codis/include/string.h:35-37 | the word loop skips no occurrence |
| Strings.Strnlen | example/codis/include/string.h:43-46 | the bounded length: the index of the first NUL, or n |
| Strings.Strlen | example/codis/include/string.h:48-56 | the index of the first NUL, from any alignment |
| Strings.Strncpy | example/codis/include/string.h:58-64 | copies the string with its NUL whatever the bound, or one byte if the bound is zero, and changes nothing else |
| Strings.StrncpyBoundedExactlyWhen | example/codis/include/string.h:58-64 | no byte behind the bound is overwritten, whatever the destination holds, if and only if the string with its NUL is within the bound anyway |
| Strings.StrncpyIgnoresBound | example/codis/include/string.h:58-64 | the bytes that a copy of six bytes bounded by two leaves: six are overwritten |
| Strings.Strcpy | example/codis/include/string.h:66-71 | copies the string with its NUL and changes nothing else |
| Strings.Strcat | example/codis/include/string.h:73-77 | the second string replaces the NUL of the first and nothing else changes |
| Codis.Server.constructor | example/codis/src/server/server.c:97-98 | the zeroed database holds 255 empty strings |
| Codis.Server.Handle | example/codis/src/server/server.c:54-94 | what a client sent decides: a read leaves every bucket alone and comes back with the text and its NUL, an append makes exactly one bucket longer if it fits and comes back with the length or zero, a delete empties exactly one, another command changes nothing |
| Codis.Server.HandleRead | example/codis/src/server/server.c:61-64 | leaves exactly the string and its NUL, which rests on the recorded length being the index of the first NUL |
| Codis.Server.HandleAppend | example/codis/src/server/server.c:66-81 | concatenates exactly when the result fits with its NUL and otherwise changes no bucket |
| Codis.Server.HandleDelete | example/codis/src/server/server.c:82-88 | empties one string and no other |
| Codis.Server.Serve | example/codis/src/server/server.c:54-94 | any sequence of requests is served that way one after the other, and is that sequence of updates |
| Codis.RequestsAreServed | example/codis/include/protocol.h:5-23 | the updates and replies of the model are what the protocol promises for what a client encodes |
| Codis.WhatWasAppendedIsRead | example/codis/src/server/server.c:54-94 | a client that deletes, appends and reads gets back the length and the text it appended, and no other bucket has changed |
| Codis.NumberOfLittleEndian | example/codis/src/server/server.c:68-80 | the first two bytes of a reply are its number, low byte first |
| Codis.BucketsAreIndependent | example/codis/src/server/server.c:41-94 | after any requests a bucket holds what its own history gives, below 4096 bytes |
| Codis.OnlyOwnRequestsMatter | example/codis/src/server/server.c:41-94 | requests for other buckets can be left out of that history |
| Codis.AppendRepliesZeroExactlyWhen | example/codis/include/protocol.h:21-22 | the reply is zero if and only if the append was rejected or nothing was appended to nothing |
| Codis.EmptyAppendRepliesZero | example/codis/src/server/server.c:66-81 | an accepted append whose reply reads as a rejection |
| Printf.NtoaShape | example/simple/printf.c:204-306 | for any base, flags, width and precision: the text is padding on at most one side, sign, mark of the base and digits, the last three as far as 32 characters hold them; it is as wide as asked for if and only if it need not be filled with more than 32 zeros |
| Printf.DigitsDenote | example/simple/printf.c:231-306 | without the hash flag the digits denote the value modulo base^32, and there are as many as the precision asks for if and only if the field is right-justified with a precision of at most 32 or the number has as many anyway |
| Printf.DigitsDenoteExactly | example/simple/printf.c:231-306 | in bases from 8 on they denote every 64-bit value |
| Printf.SignKeptExactlyWhen | example/simple/printf.c:269-279 | a sign is printed if and only if zeros do not fill the conversion buffer |
| Printf.HashKeepsValueExactlyWhen | example/simple/printf.c:247-267 | with the hash flag the digits denote the value if and only if what is cut off leaves as many characters as the number has digits |
| Printf.UnpaddedHashKeepsValueExactlyWhen | example/simple/printf.c:247-267 | without zero padding: if and only if the number of digits is not the width |
| Printf.HashLosesDigits | example/simple/printf.c:247-267 | 0x1234 with the hash flag in a field of four is printed as 0x34 |
| Numerals.PlainInteger | example/simple/printf.c:204-306 | any integer without the hash flag, character by character: a field with the sign, if 32 numerals leave room, and exactly as many numerals of the base as are needed or asked for, that denote the value |
| Numerals.MarkedInteger | example/simple/printf.c:204-306 | the same with the hash flag: the mark of the base as far as it fits, and the numerals without the one or two that are taken away |
| Numerals.SpellingIsUnique | example/simple/printf.c:298-303 | a number of numerals that denote a value are one text, so these laws leave no choice |
| Printf.RevDigitsDenote | example/simple/printf.c:298-303 | in any base the digits produced denote the value modulo base^room |
| Printf.RevDigitsShort | example/simple/printf.c:298-303 | there are no more digits than the value needs and no leading zeros |
| Printf.DecimalReadsBackExactlyWhen | example/simple/printf.c:193-200 | any decimal, padded and signed as it may be, is read back by _atoi from its first digit modulo 2^32, hence exactly if and only if it is below 2^32, and only spaces follow what is read |
| Printf.AtoiReadsDecimal | example/simple/printf.c:193-200 | _atoi on the first digit of a printed decimal returns the value modulo 2^32 and stops behind its last digit |
| Printf.AtoiWraps | example/simple/printf.c:193-200 | 2^32 is printed and read back as zero |
| Printf.Atoi | example/simple/printf.c:193-200 | reads exactly the longest run of digits at the position, in unsigned arithmetic |
| Printf.Sink.Out | example/simple/printf.c:138-143 | the buffer keeps holding the part of the output that fits |
| Printf.Sink.OutRev | example/simple/printf.c:204-228 | emits the padded reversal of the conversion buffer |
| Printf.Sink.NtoaFormat | example/simple/printf.c:232-282 | emits padding and the conversion buffer that FormatBuf describes, whose parts NtoaShape gives; with the hash flag it may lose digits, see HashKeepsValueExactlyWhen |
| Printf.Sink.NtoaLong | example/simple/printf.c:286-306 | emits the text of the value |
| Format.Parse | example/simple/printf.c:606-685 | flags in any order, width and precision as digits or from the arguments, and length, from the format string |
| Format.Vsnprintf | example/simple/printf.c:582-862 | on a format string and its arguments: the count is the length of what the format prints (see Prints) and does not depend on maxlen, and a buffer with room holds the longest fitting prefix of it with a NUL behind it |
| Format.ConversionReadsBack | example/simple/printf.c:606-685 | a conversion written with decimals as printf prints them is parsed to the same flags, width, precision and length modulo 2^32, hence exactly if and only if both numbers are below 2^32 |
| Format.ParsedExtends | example/simple/printf.c:606-685 | a complete conversion is parsed the same whatever follows it |
| Format.InterpretAppend | example/simple/printf.c:592-855 | two formats one behind the other are the directives of the first and then those of the second with the arguments that the first has left |
| Format.PrintedAppend | example/simple/printf.c:592-855 | the text of two formats one behind the other is the two texts |
| Format.PlainTextPrintsItself | example/simple/printf.c:594-600 | text without percent signs prints itself and takes no arguments |
| Format.UnsignedIsReadBack | example/simple/printf.c:192-200 | what %u prints of any word is read back by _atoi as its low 32 bits |
| Prints.SignedPrints | example/simple/printf.c:707-743 | %d and %i with any flags, width, precision and length: a minus sign exactly for a negative two's-complement argument, and decimal digits of its magnitude, in a field |
| Prints.UnsignedPrints | example/simple/printf.c:695-758 | %u, %o, %x, %X and %b: numerals of the argument in base 10, 8, 16, 16 and 2, with capital letters exactly for %X |
| Prints.MarkedPrints | example/simple/printf.c:247-267 | the same with the hash flag, whose mark takes the place of digits that fill the field |
| Prints.PointerPrints | example/simple/printf.c:827-843 | %p prints sixteen capital hexadecimal numerals of the argument |
| Prints.PointerFieldPrints | example/simple/printf.c:827-843 | %p with flags and a precision; the width asked for does not matter |
| Prints.DecimalsAreReadBack | example/simple/printf.c:192-200 | what %d, %i and %u print with any flags, width, precision and length is read back by _atoi as the magnitude modulo 2^32 |
| Prints.TextPrints | example/simple/printf.c:801-825 | %s prints the first characters of the string, as many as the precision if there is one, in a field of spaces |
| Prints.PlainTextPrints | example/simple/printf.c:801-825 | %s prints the string |
| Prints.CharacterPrints | example/simple/printf.c:781-799 | %c prints one character in a field of spaces |
| Prints.FieldIs | example/simple/printf.c:781-825 | a field of spaces is as wide as asked for or as its text, and has the text at the end that the flag says |
| Prints.OthersPrintThemselves | example/simple/printf.c:845-854 | any other specifier prints itself and takes no argument |
| Prints.StarIsWidth | example/simple/printf.c:624-634 | a star for the width prints what the int argument in its place would, with the flag for left-justified if it is negative |
| Prints.StarIsPrecision | example/simple/printf.c:644-648 | a star for the precision prints what the int argument in its place would, or zero if it is negative |
| Prints.BarePointIsZero | example/simple/printf.c:636-649 | a point without a precision is the precision zero |

## Left out

- The seL4 kernel and the Microkit event loop: a notification is root choosing to call `recv_ntfn`.
- The faulting write and the endless loop of a panic: a panic is a final outcome.
- `query_state`, `my_handle`, `my_arg` and `set_arg`: one-branch accessors.
- libco/arm.c and libco/riscv64.c: the same shape as the two architectures modelled.
- The encodings of instructions: the mnemonics written beside them are taken as the program.
- Stacks that wrap around the address space, stack sizes beyond the range of int, and stacks that are not word aligned.
- The two probing writes of init into each stack: their only effect is a fault on unmapped memory.
- Contexts.ContextsPreserved: assumes that thread code does not write the save areas of other active threads, and treats a word that a stack ends in the middle of as outside the memory.
- Amd64.SwitchBackReturns: is about one thread's switch away and back; the scheduler is joined to the AArch64 switch only.
- Strings.Strlen: assumes memory that ends at a word boundary, as the pages of the server do; the source may read past the terminator.
- Codis.Server.Handle: requires a bucket number below 255, plain char unsigned as on AArch64, and a payload that ends within the shared page; the interleaving of clients is the order of requests.
- Controllers.Controller.Execute: co_switch is reported, not performed; the switch itself is joined to the scheduler in `Contexts.dfy`.
- Format.Vsnprintf: requires what the C code requires of its caller: arguments of the sorts that the format asks for, and a format that does not end inside a conversion, where the source would step over the terminating NUL. Floating point, argument passing, a null buffer, counts beyond the range of int and output to the console are not part of this model; plain char is unsigned, as on AArch64.
- Benchmarks, build files, system descriptions and scripts.
