// Context creation and switching on AArch64: libco/aarch64.c.
//
// The swap routine is the list of instructions that the source spells out next
// to their encodings, run over a register file and a memory of 64-bit words
// that are named by their (word-aligned) addresses.
module Aarch64 {
  import opened Machine
  import Scheduler

  datatype Reg =
    | LR | SP | FP
    | X19 | X20 | X21 | X22 | X23 | X24 | X25 | X26 | X27 | X28
    | D8 | D9 | D10 | D11 | D12 | D13 | D14 | D15
    | X0 | X1 | X16

  type Regs = map<Reg, int>

  datatype Instr =
    | Stp(r1: Reg, r2: Reg, base: Reg, offset: int)
    | Str(r: Reg, base: Reg, offset: int)
    | Ldp(r1: Reg, r2: Reg, base: Reg, offset: int)
    | Ldr(r: Reg, base: Reg, offset: int)
    | Mov(dst: Reg, src: Reg)
    | Br(r: Reg)

  datatype Core = Core(regs: Regs, mem: Mem, pc: int)

  function Step(i: Instr, c: Core): Core {
    match i
    case Stp(r1, r2, base, offset) =>
      var a := Get(c.regs, base) + offset;
      c.(mem := c.mem[a := Get(c.regs, r1)][a + 8 := Get(c.regs, r2)])
    case Str(r, base, offset) =>
      c.(mem := c.mem[Get(c.regs, base) + offset := Get(c.regs, r)])
    case Ldp(r1, r2, base, offset) =>
      var a := Get(c.regs, base) + offset;
      c.(regs := c.regs[r1 := Read(c.mem, a)][r2 := Read(c.mem, a + 8)])
    case Ldr(r, base, offset) =>
      c.(regs := c.regs[r := Read(c.mem, Get(c.regs, base) + offset)])
    case Mov(dst, src) =>
      c.(regs := c.regs[dst := Get(c.regs, src)])
    case Br(r) =>
      c.(pc := Get(c.regs, r))
  }

  function Exec(code: seq<Instr>, c: Core): Core {
    Run(Step, code, c)
  }

  // The first half of co_swap_function: x1 is the handle switched from.
  const SAVE: seq<Instr> := [
    Stp(D15, D14, X1, -160),
    Stp(D13, D12, X1, -144),
    Stp(D11, D10, X1, -128),
    Stp(D9, D8, X1, -112),
    Stp(X28, X27, X1, -96),
    Stp(X26, X25, X1, -80),
    Stp(X24, X23, X1, -64),
    Stp(X22, X21, X1, -48),
    Stp(X20, X19, X1, -32),
    Mov(X16, SP),
    Stp(FP, X16, X1, -16),
    Str(LR, X1, 0)
  ]

  // The second half: x0 is the handle switched to.
  const RESTORE: seq<Instr> := [
    Ldp(D15, D14, X0, -160),
    Ldp(D13, D12, X0, -144),
    Ldp(D11, D10, X0, -128),
    Ldp(D9, D8, X0, -112),
    Ldp(X28, X27, X0, -96),
    Ldp(X26, X25, X0, -80),
    Ldp(X24, X23, X0, -64),
    Ldp(X22, X21, X0, -48),
    Ldp(X20, X19, X0, -32),
    Ldp(FP, X16, X0, -16),
    Mov(SP, X16),
    Ldr(LR, X0, 0),
    Br(LR)
  ]

  const CO_SWAP: seq<Instr> := SAVE + RESTORE

  const REGS_COUNT: nat := 21

  // The registers that a called function must preserve (section 6.1 of the
  // Procedure Call Standard for the Arm 64-bit Architecture), with the link
  // register, in the order of the enumeration that indexes the save area.
  function Index(r: Reg): int {
    match r
    case LR => 0 case SP => 1 case FP => 2
    case X19 => 3 case X20 => 4 case X21 => 5 case X22 => 6 case X23 => 7
    case X24 => 8 case X25 => 9 case X26 => 10 case X27 => 11 case X28 => 12
    case D8 => 13 case D9 => 14 case D10 => 15 case D11 => 16
    case D12 => 17 case D13 => 18 case D14 => 19 case D15 => 20
    case X0 => -1 case X1 => -1 case X16 => -1
  }

  predicate Preserved(r: Reg) {
    Index(r) >= 0
  }

  // A handle is the address of the last word of its save area.
  function SlotOf(handle: int, r: Reg): int {
    handle - 8 * Index(r)
  }

  // The save area of a handle holds these registers.
  ghost predicate Holds(mem: Mem, handle: int, regs: Regs) {
    forall r :: Preserved(r) ==> Read(mem, SlotOf(handle, r)) == Get(regs, r)
  }

  ghost predicate SameContext(a: Regs, b: Regs) {
    forall r :: Preserved(r) ==> Get(a, r) == Get(b, r)
  }

  // An address in the save area of a handle.
  predicate InSaveArea(handle: int, address: int) {
    handle - 8 * (REGS_COUNT - 1) <= address <= handle
  }

  // ---------- what the swap does ----------

  // The register at a place in the save area.
  function RegAt(i: int): (r: Reg)
    requires 0 <= i < REGS_COUNT
    ensures Index(r) == i
  {
    if i < 11 then
      if i == 0 then LR else if i == 1 then SP else if i == 2 then FP else if i == 3 then X19 else if i == 4 then X20
      else if i == 5 then X21 else if i == 6 then X22 else if i == 7 then X23 else if i == 8 then X24
      else if i == 9 then X25 else X26
    else
      if i == 11 then X27 else if i == 12 then X28 else if i == 13 then D8 else if i == 14 then D9
      else if i == 15 then D10 else if i == 16 then D11 else if i == 17 then D12 else if i == 18 then D13
      else if i == 19 then D14 else D15
  }

  lemma IndexIsInjective(r: Reg, q: Reg)
    requires Preserved(r) && Index(r) == Index(q)
    ensures r == q
  {
  }

  // Nine pairs walk through the save area from its lowest word upwards.
  ghost predicate SavesPairs(code: seq<Instr>) {
    9 <= |code| &&
    forall k :: 0 <= k < 9 ==> code[k] == Stp(RegAt(20 - 2 * k), RegAt(19 - 2 * k), X1, -8 * (20 - 2 * k))
  }

  ghost predicate RestoresPairs(code: seq<Instr>) {
    9 <= |code| &&
    forall k :: 0 <= k < 9 ==> code[k] == Ldp(RegAt(20 - 2 * k), RegAt(19 - 2 * k), X0, -8 * (20 - 2 * k))
  }

  // The instructions and the enumeration agree on the layout.
  lemma LayoutsAgree()
    ensures SavesPairs(SAVE) && RestoresPairs(RESTORE)
  {
  }

  lemma StoresPair(c: Core, r1: Reg, r2: Reg, offset: int)
    ensures var c' := Step(Stp(r1, r2, X1, offset), c);
            var a := Get(c.regs, X1) + offset;
            && c'.regs == c.regs && c'.pc == c.pc
            && Read(c'.mem, a) == Get(c.regs, r1) && Read(c'.mem, a + 8) == Get(c.regs, r2)
            && (forall b :: b != a && b != a + 8 ==> Read(c'.mem, b) == Read(c.mem, b))
  {
  }

  lemma LoadsPair(c: Core, r1: Reg, r2: Reg, offset: int)
    requires r1 != r2
    ensures var c' := Step(Ldp(r1, r2, X0, offset), c);
            var a := Get(c.regs, X0) + offset;
            && c'.mem == c.mem && c'.pc == c.pc
            && Get(c'.regs, r1) == Read(c.mem, a) && Get(c'.regs, r2) == Read(c.mem, a + 8)
            && (forall r :: r != r1 && r != r2 ==> Get(c'.regs, r) == Get(c.regs, r))
  {
  }

  // The words above this index are saved, and no others are written.
  ghost predicate SavedAbove(c: Core, c': Core, low: int)
    requires -1 <= low
  {
    var x1 := Get(c.regs, X1);
    && c'.regs == c.regs && c'.pc == c.pc
    && (forall i :: low < i <= 20 ==> Read(c'.mem, x1 - 8 * i) == Get(c.regs, RegAt(i)))
    && (forall a :: !(x1 - 160 <= a < x1 - 8 * low) ==> Read(c'.mem, a) == Read(c.mem, a))
  }

  ghost predicate RestoredAbove(c: Core, c': Core, low: int)
    requires -1 <= low
  {
    var x0 := Get(c.regs, X0);
    && c'.mem == c.mem && c'.pc == c.pc
    && (forall i :: low < i <= 20 ==> Get(c'.regs, RegAt(i)) == Read(c.mem, x0 - 8 * i))
    && (forall r :: Index(r) <= low ==> Get(c'.regs, r) == Get(c.regs, r))
  }

  lemma SavePair(c: Core, c1: Core, low: int)
    requires 2 <= low <= 20 && SavedAbove(c, c1, low)
    ensures SavedAbove(c, Step(Stp(RegAt(low), RegAt(low - 1), X1, -8 * low), c1), low - 2)
  {
    StoresPair(c1, RegAt(low), RegAt(low - 1), -8 * low);
  }

  lemma RestorePair(c: Core, c1: Core, low: int)
    requires 2 <= low <= 20 && RestoredAbove(c, c1, low)
    ensures RestoredAbove(c, Step(Ldp(RegAt(low), RegAt(low - 1), X0, -8 * low), c1), low - 2)
  {
    LoadsPair(c1, RegAt(low), RegAt(low - 1), -8 * low);
    assert Index(X0) == -1;
  }

  lemma {:induction false} SaveLoop(code: seq<Instr>, c: Core, k: nat)
    requires SavesPairs(code) && k <= 9
    ensures SavedAbove(c, Exec(code[..k], c), 20 - 2 * k)
  {
    if k > 0 {
      SaveLoop(code, c, k - 1);
      RunLast(Step, code, k - 1, c);
      SavePair(c, Exec(code[..k - 1], c), 22 - 2 * k);
    }
  }

  lemma {:induction false} RestoreLoop(code: seq<Instr>, c: Core, k: nat)
    requires RestoresPairs(code) && k <= 9
    ensures RestoredAbove(c, Exec(code[..k], c), 20 - 2 * k)
  {
    if k > 0 {
      RestoreLoop(code, c, k - 1);
      RunLast(Step, code, k - 1, c);
      RestorePair(c, Exec(code[..k - 1], c), 22 - 2 * k);
    }
  }

  lemma SaveEnds(code: seq<Instr>, c: Core)
    requires |code| == 12 && code[9] == Mov(X16, SP) && code[10] == Stp(FP, X16, X1, -16) && code[11] == Str(LR, X1, 0)
    ensures Exec(code, c) == SaveTop(Exec(code[..9], c))
  {
    RunLast(Step, code, 9, c);
    RunLast(Step, code, 10, c);
    RunLast(Step, code, 11, c);
    assert code[..12] == code;
  }

  lemma RestoreEnds(code: seq<Instr>, c: Core)
    requires |code| == 13 && code[9] == Ldp(FP, X16, X0, -16) && code[10] == Mov(SP, X16)
    requires code[11] == Ldr(LR, X0, 0) && code[12] == Br(LR)
    ensures Exec(code, c) == RestoreTop(Exec(code[..9], c))
  {
    assert code[..13] == code;
    RunLast(Step, code, 9, c);
    var c10 := Exec(code[..10], c);
    RunLast(Step, code, 10, c);
    var c11 := Exec(code[..11], c);
    assert c11 == Step(Mov(SP, X16), c10);
    RunLast(Step, code, 11, c);
    RunLast(Step, code, 12, c);
  }

  // Saving fp, sp and lr.
  function SaveTop(c: Core): Core {
    Step(Str(LR, X1, 0), Step(Stp(FP, X16, X1, -16), Step(Mov(X16, SP), c)))
  }

  lemma SaveTopStores(c: Core)
    ensures var c' := SaveTop(c);
            var x1 := Get(c.regs, X1);
            && c'.pc == c.pc
            && (forall r :: r != X16 ==> Get(c'.regs, r) == Get(c.regs, r))
            && Read(c'.mem, SlotOf(x1, LR)) == Get(c.regs, LR)
            && Read(c'.mem, SlotOf(x1, SP)) == Get(c.regs, SP)
            && Read(c'.mem, SlotOf(x1, FP)) == Get(c.regs, FP)
            && (forall a :: a != x1 && a != x1 - 8 && a != x1 - 16 ==> Read(c'.mem, a) == Read(c.mem, a))
  {
  }

  lemma SaveTail(c: Core, c9: Core)
    requires SavedAbove(c, c9, 2)
    ensures var c' := SaveTop(c9);
            && c'.pc == c.pc
            && (forall r :: r != X16 ==> Get(c'.regs, r) == Get(c.regs, r))
            && Holds(c'.mem, Get(c.regs, X1), c.regs)
            && (forall a :: !InSaveArea(Get(c.regs, X1), a) ==> Read(c'.mem, a) == Read(c.mem, a))
  {
    SaveTopStores(c9);
    forall r | Preserved(r) ensures Read(SaveTop(c9).mem, SlotOf(Get(c.regs, X1), r)) == Get(c.regs, r) {
      SaveTailAt(c, c9, r);
    }
  }

  lemma SaveTailAt(c: Core, c9: Core, r: Reg)
    requires SavedAbove(c, c9, 2) && Preserved(r)
    ensures Read(SaveTop(c9).mem, SlotOf(Get(c.regs, X1), r)) == Get(c.regs, r)
  {
    if Index(r) > 2 {
      SavedAt(c, c9, r);
      SaveTopKeeps(c9, r);
    } else {
      SaveTopStores(c9);
      FirstThree(r);
    }
  }

  lemma SavedAt(c: Core, c9: Core, r: Reg)
    requires SavedAbove(c, c9, 2) && Index(r) > 2
    ensures Read(c9.mem, SlotOf(Get(c.regs, X1), r)) == Get(c.regs, r)
  {
    var i := Index(r);
    assert Read(c9.mem, Get(c.regs, X1) - 8 * i) == Get(c.regs, RegAt(i));
    IndexIsInjective(r, RegAt(i));
  }

  lemma SaveTopKeeps(c: Core, r: Reg)
    requires Index(r) > 2
    ensures Read(SaveTop(c).mem, SlotOf(Get(c.regs, X1), r)) == Read(c.mem, SlotOf(Get(c.regs, X1), r))
  {
  }

  lemma FirstThree(r: Reg)
    requires 0 <= Index(r) <= 2
    ensures r == if Index(r) == 0 then LR else if Index(r) == 1 then SP else FP
  {
  }

  // Loading fp, sp and lr.
  function RestoreTop(c: Core): Core {
    Step(Br(LR), Step(Ldr(LR, X0, 0), Step(Mov(SP, X16), Step(Ldp(FP, X16, X0, -16), c))))
  }

  lemma RestoreTopKeeps(c: Core, r: Reg)
    requires Index(r) > 2
    ensures Get(RestoreTop(c).regs, r) == Get(c.regs, r)
  {
  }

  lemma RestoreTopLoads(c: Core)
    ensures var c' := RestoreTop(c);
            && c'.mem == c.mem && c'.pc == Get(c'.regs, LR)
            && Get(c'.regs, LR) == Read(c.mem, SlotOf(Get(c.regs, X0), LR))
            && Get(c'.regs, SP) == Read(c.mem, SlotOf(Get(c.regs, X0), SP))
            && Get(c'.regs, FP) == Read(c.mem, SlotOf(Get(c.regs, X0), FP))
  {
  }

  lemma RestoreTail(c: Core, c9: Core)
    requires RestoredAbove(c, c9, 2)
    ensures var c' := RestoreTop(c9);
            c'.mem == c.mem && c'.pc == Get(c'.regs, LR) && Holds(c.mem, Get(c.regs, X0), c'.regs)
  {
    RestoreTopLoads(c9);
    assert Index(X0) == -1;
    forall r | Preserved(r) ensures Read(c.mem, SlotOf(Get(c.regs, X0), r)) == Get(RestoreTop(c9).regs, r) {
      if Index(r) > 2 {
        RestoreTopKeeps(c9, r);
        assert Get(c9.regs, RegAt(Index(r))) == Read(c.mem, Get(c.regs, X0) - 8 * Index(r));
        IndexIsInjective(r, RegAt(Index(r)));
      } else {
        FirstThree(r);
      }
    }
  }

  lemma SaveEffect(c: Core)
    ensures var c' := Exec(SAVE, c);
            && c'.pc == c.pc
            && (forall r :: r != X16 ==> Get(c'.regs, r) == Get(c.regs, r))
            && Holds(c'.mem, Get(c.regs, X1), c.regs)
            && (forall a :: !InSaveArea(Get(c.regs, X1), a) ==> Read(c'.mem, a) == Read(c.mem, a))
  {
    LayoutsAgree();
    SaveLoop(SAVE, c, 9);
    SaveEnds(SAVE, c);
    SaveTail(c, Exec(SAVE[..9], c));
  }

  lemma RestoreEffect(c: Core)
    ensures var c' := Exec(RESTORE, c);
            && c'.mem == c.mem && c'.pc == Get(c'.regs, LR)
            && Holds(c.mem, Get(c.regs, X0), c'.regs)
  {
    LayoutsAgree();
    RestoreLoop(RESTORE, c, 9);
    RestoreEnds(RESTORE, c);
    RestoreTail(c, Exec(RESTORE[..9], c));
  }

  // The swap stores every preserved register in the save area switched from,
  // changes no other word, and then loads every preserved register from the
  // save area switched to and jumps to the link register loaded. The two areas
  // may be the same.
  lemma SwapEffect(c: Core)
    ensures var c' := Exec(CO_SWAP, c);
            && Holds(c'.mem, Get(c.regs, X1), c.regs)
            && (forall a :: !InSaveArea(Get(c.regs, X1), a) ==> Read(c'.mem, a) == Read(c.mem, a))
            && Holds(c'.mem, Get(c.regs, X0), c'.regs)
            && c'.pc == Get(c'.regs, LR)
  {
    RunAppend(Step, SAVE, RESTORE, c);
    SaveEffect(c);
    RestoreEffect(Exec(SAVE, c));
  }

  // ---------- co_derive ----------

  function AlignDown(address: int): int {
    address - address % 16
  }

  function InitialSp(storage: int, size: nat): int {
    AlignDown(storage + 8 * (size / 8 - REGS_COUNT - 1))
  }

  // The context of a thread that has not run yet. stub is the address of
  // co_entrypoint, and the stack was zeroed before.
  function InitialRegs(storage: int, size: nat, stub: int, entrypoint: int): Regs {
    map[SP := InitialSp(storage, size), LR := stub, X19 := entrypoint, FP := InitialSp(storage, size)]
  }

  function Derived(mem: Mem, storage: nat, size: nat, stub: int, entrypoint: int): Mem {
    var top := Scheduler.DerivedHandle(storage, size);
    mem[SlotOf(top, SP) := InitialSp(storage, size)][SlotOf(top, LR) := stub]
       [SlotOf(top, X19) := entrypoint][SlotOf(top, FP) := InitialSp(storage, size)]
  }

  // memzero over a stack, in words. A word that the stack ends in the middle of
  // is no word of this memory.
  function Zeroed(mem: Mem, storage: nat, size: nat): Mem {
    map a | a in mem && !(storage <= a < storage + 8 * (size / 8)) :: mem[a]
  }

  // Where the pieces of a fresh stack lie: the save area at its top, below it the
  // first 16-byte aligned stack pointer that leaves a word free, and all but 198
  // bytes left for the stack.
  lemma DeriveGeometry(storage: nat, size: nat)
    requires storage % 8 == 0 && Scheduler.MINIMUM_STACK_SIZE <= size
    ensures var top := Scheduler.DerivedHandle(storage, size);
            var sp := InitialSp(storage, size);
            && sp % 16 == 0 && top % 8 == 0
            && top - 160 - 8 - 15 <= sp <= top - 160 - 8
            && storage + size - 198 <= sp
            && (forall a :: InSaveArea(top, a) ==> sp < a && storage <= a && a + 8 <= storage + size)
  {
    var words := size / 8;
    WholeWords(size);
    AlignDownBounds(storage + 8 * (words - REGS_COUNT - 1));
    WordAligned(storage, words - 1);
  }

  lemma WholeWords(size: nat)
    ensures size - 7 <= 8 * (size / 8) <= size
  {
  }

  lemma AlignDownBounds(address: int)
    ensures AlignDown(address) % 16 == 0 && address - 15 <= AlignDown(address) <= address
  {
    assert address == 16 * (address / 16) + address % 16;
    assert AlignDown(address) == 16 * (address / 16);
  }

  lemma WordAligned(address: int, k: int)
    requires address % 8 == 0
    ensures (address + 8 * k) % 8 == 0
  {
    assert address + 8 * k == 8 * (address / 8 + k);
  }

  lemma SlotsInSaveArea(handle: int, r: Reg)
    requires Preserved(r)
    ensures InSaveArea(handle, SlotOf(handle, r))
  {
  }

  // Deriving on a zeroed stack leaves the initial context in the save area.
  lemma DeriveHoldsInitial(mem: Mem, storage: nat, size: nat, stub: int, entrypoint: int)
    requires storage % 8 == 0 && Scheduler.MINIMUM_STACK_SIZE <= size
    ensures Holds(Derived(Zeroed(mem, storage, size), storage, size, stub, entrypoint),
                  Scheduler.DerivedHandle(storage, size), InitialRegs(storage, size, stub, entrypoint))
  {
    var top := Scheduler.DerivedHandle(storage, size);
    var mem' := Derived(Zeroed(mem, storage, size), storage, size, stub, entrypoint);
    forall r | Preserved(r)
      ensures Read(mem', SlotOf(top, r)) == Get(InitialRegs(storage, size, stub, entrypoint), r)
    {
      SlotsInSaveArea(top, r);
      InitialSlot(mem, storage, size, stub, entrypoint, r);
    }
  }

  lemma InitialSlot(mem: Mem, storage: nat, size: nat, stub: int, entrypoint: int, r: Reg)
    requires Preserved(r) && Scheduler.MINIMUM_STACK_SIZE <= size
    ensures Read(Derived(Zeroed(mem, storage, size), storage, size, stub, entrypoint),
                 SlotOf(Scheduler.DerivedHandle(storage, size), r))
         == Get(InitialRegs(storage, size, stub, entrypoint), r)
  {
    assert r == SP || r == LR || r == X19 || r == FP || Index(r) > 3;
  }

  // Nothing outside the stack changes.
  lemma DeriveStaysInside(mem: Mem, storage: nat, size: nat, stub: int, entrypoint: int, a: int)
    requires Scheduler.MINIMUM_STACK_SIZE <= size && (a < storage || storage + size <= a)
    ensures Read(Derived(Zeroed(mem, storage, size), storage, size, stub, entrypoint), a) == Read(mem, a)
  {
  }

  // The first switch to a derived thread goes to co_entrypoint with an aligned
  // stack pointer, and the entry point that co_entrypoint loads from the save
  // area of the active handle is the one given to co_derive.
  lemma FirstEntry(c: Core, mem: Mem, storage: nat, size: nat, stub: int, entrypoint: int)
    requires storage % 8 == 0 && Scheduler.MINIMUM_STACK_SIZE <= size
    requires c.mem == Derived(Zeroed(mem, storage, size), storage, size, stub, entrypoint)
    requires Get(c.regs, X0) == Scheduler.DerivedHandle(storage, size)
    requires forall a :: InSaveArea(Get(c.regs, X0), a) ==> !InSaveArea(Get(c.regs, X1), a)
    ensures var c' := Exec(CO_SWAP, c);
            && c'.pc == stub
            && Get(c'.regs, SP) == Get(c'.regs, FP) == InitialSp(storage, size)
            && Get(c'.regs, SP) % 16 == 0
            && Read(c'.mem, SlotOf(Get(c.regs, X0), X19)) == entrypoint
  {
    SwapEffect(c);
    DeriveHoldsInitial(mem, storage, size, stub, entrypoint);
    DeriveGeometry(storage, size);
    var top := Get(c.regs, X0);
    var c' := Exec(CO_SWAP, c);
    forall r | r in {LR, SP, FP, X19}
      ensures Get(c'.regs, r) == Get(InitialRegs(storage, size, stub, entrypoint), r)
    {
      assert Preserved(r);
      SlotsInSaveArea(top, r);
      assert Read(c'.mem, SlotOf(top, r)) == Read(c.mem, SlotOf(top, r));
    }
    assert Preserved(X19);
  }

  // ---------- the processor ----------

  // The call co_swap(to, from) with the handles in its two argument registers.
  function Swapped(regs: Regs, mem: Mem, pc: int, to: int, from: int): Core {
    Exec(CO_SWAP, Core(regs[X0 := to][X1 := from], mem, pc))
  }

  // The swap as a call sees it.
  lemma SwappedEffect(regs: Regs, mem: Mem, pc: int, to: int, from: int)
    ensures var c' := Swapped(regs, mem, pc, to, from);
            && Holds(c'.mem, from, regs)
            && (forall a :: !InSaveArea(from, a) ==> Read(c'.mem, a) == Read(mem, a))
            && Holds(c'.mem, to, c'.regs)
            && c'.pc == Get(c'.regs, LR)
  {
    var c := Core(regs[X0 := to][X1 := from], mem, pc);
    SwapEffect(c);
    forall r | Preserved(r) ensures Get(c.regs, r) == Get(regs, r) {
      assert r != X0 && r != X1;
    }
  }

  class Cpu {
    var regs: Regs
    var mem: Mem
    var pc: int
    // co_active_handle
    var active: int

    constructor (regs: Regs, mem: Mem, pc: int, active: int)
      ensures this.regs == regs && this.mem == mem && this.pc == pc && this.active == active
    {
      this.regs, this.mem, this.pc, this.active := regs, mem, pc, active;
    }

    method CoSwap(to: int, from: int)
      modifies this`regs, this`mem, this`pc
      ensures Core(regs, mem, pc) == Swapped(old(regs), old(mem), old(pc), to, from)
    {
      regs := regs[X0 := to][X1 := from];
      ghost var start := Core(regs, mem, pc);
      var k := 0;
      while k < |CO_SWAP|
        invariant k <= |CO_SWAP|
        invariant Core(regs, mem, pc) == Exec(CO_SWAP[..k], start)
      {
        RunLast(Step, CO_SWAP, k, start);
        Execute(CO_SWAP[k]);
        k := k + 1;
      }
      assert CO_SWAP[..k] == CO_SWAP;
    }

    method Execute(i: Instr)
      modifies this`regs, this`mem, this`pc
      ensures Core(regs, mem, pc) == Step(i, Core(old(regs), old(mem), old(pc)))
    {
      match i {
        case Stp(r1, r2, base, offset) =>
          var a := Get(regs, base) + offset;
          mem := mem[a := Get(regs, r1)];
          mem := mem[a + 8 := Get(regs, r2)];
        case Str(r, base, offset) =>
          mem := mem[Get(regs, base) + offset := Get(regs, r)];
        case Ldp(r1, r2, base, offset) =>
          var a := Get(regs, base) + offset;
          regs := regs[r1 := Read(mem, a)][r2 := Read(mem, a + 8)];
        case Ldr(r, base, offset) =>
          regs := regs[r := Read(mem, Get(regs, base) + offset)];
        case Mov(dst, src) =>
          regs := regs[dst := Get(regs, src)];
        case Br(r) =>
          pc := Get(regs, r);
      }
    }

    method CoSwitch(handle: int)
      modifies this
      ensures active == handle
      ensures Core(regs, mem, pc) == Swapped(old(regs), old(mem), old(pc), handle, old(active))
    {
      var previous := active;
      active := handle;
      CoSwap(handle, previous);
    }

    method CoDerive(memory: nat, size: nat, stub: int, entrypoint: int) returns (handle: int)
      requires Scheduler.MINIMUM_STACK_SIZE <= size
      modifies this`mem
      ensures handle == Scheduler.DerivedHandle(memory, size)
      ensures mem == Derived(old(mem), memory, size, stub, entrypoint)
    {
      var numWords := size / 8;
      var top := memory + 8 * (numWords - 1);
      var unaligned := memory + 8 * (numWords - REGS_COUNT - 1);
      var aligned := unaligned - unaligned % 16;
      mem := mem[top - 8 * Index(SP) := aligned];
      mem := mem[top - 8 * Index(LR) := stub];
      mem := mem[top - 8 * Index(X19) := entrypoint];
      mem := mem[top - 8 * Index(FP) := aligned];
      return top;
    }

    // The function pointer that co_entrypoint calls.
    method CoEntrypoint() returns (target: int)
      ensures target == Read(mem, SlotOf(active, X19))
    {
      var bufferTop := active;
      target := Read(mem, bufferTop - 8 * Index(X19));
    }

    // The life of a thread up to its entry point: its stack is zeroed, derived
    // and switched to, and the stub calls what co_entrypoint finds. That is the
    // entry point given to co_derive, on an aligned stack pointer inside the
    // stack, and the thread switched from is saved.
    method StartThread(memory: nat, size: nat, stub: int, entrypoint: int) returns (target: int)
      requires memory % 8 == 0 && Scheduler.MINIMUM_STACK_SIZE <= size
      requires forall a :: InSaveArea(active, a) ==> a < memory || memory + size <= a
      modifies this
      ensures target == entrypoint && pc == stub
      ensures Get(regs, SP) % 16 == 0 && memory <= Get(regs, SP) < memory + size
      ensures active == Scheduler.DerivedHandle(memory, size) && !InSaveArea(active, Get(regs, SP))
      ensures Holds(mem, old(active), old(regs))
    {
      ghost var before := mem;
      mem := Zeroed(mem, memory, size);
      var handle := CoDerive(memory, size, stub, entrypoint);
      DeriveGeometry(memory, size);
      ghost var c := Core(regs[X0 := handle][X1 := active], mem, pc);
      assert Get(c.regs, X1) == active;
      FirstEntry(c, before, memory, size, stub, entrypoint);
      SwappedEffect(regs, mem, pc, handle, active);
      CoSwitch(handle);
      target := CoEntrypoint();
    }
  }
}
