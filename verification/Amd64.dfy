// Context creation and switching on x86-64: libco/amd64.c.
//
// A handle is the base of the thread's memory; the save area is its first seven
// words and the stack grows down from its top.
module Amd64 {
  import opened Machine

  datatype Reg = RSP | RBP | RBX | R12 | R13 | R14 | R15 | RAX | RDI | RSI

  type Regs = map<Reg, int>

  datatype Instr =
    | Store(base: Reg, offset: int, src: Reg)
    | Load(dst: Reg, base: Reg, offset: int)
    | Pop(dst: Reg)
    | Jmp(target: Reg)

  datatype Core = Core(regs: Regs, mem: Mem, pc: int)

  function Step(i: Instr, c: Core): Core {
    match i
    case Store(base, offset, src) =>
      c.(mem := c.mem[Get(c.regs, base) + offset := Get(c.regs, src)])
    case Load(dst, base, offset) =>
      c.(regs := c.regs[dst := Read(c.mem, Get(c.regs, base) + offset)])
    case Pop(dst) =>
      c.(regs := c.regs[dst := Read(c.mem, Get(c.regs, RSP))][RSP := Get(c.regs, RSP) + 8])
    case Jmp(target) =>
      c.(pc := Get(c.regs, target))
  }

  function Exec(code: seq<Instr>, c: Core): Core {
    Run(Step, code, c)
  }

  // co_swap_function: rdi is the handle switched to, rsi the one switched from.
  const CO_SWAP: seq<Instr> := [
    Store(RSI, 0, RSP),
    Load(RSP, RDI, 0),
    Pop(RAX),
    Store(RSI, 8, RBP),
    Store(RSI, 16, RBX),
    Store(RSI, 24, R12),
    Store(RSI, 32, R13),
    Store(RSI, 40, R14),
    Store(RSI, 48, R15),
    Load(RBP, RDI, 8),
    Load(RBX, RDI, 16),
    Load(R12, RDI, 24),
    Load(R13, RDI, 32),
    Load(R14, RDI, 40),
    Load(R15, RDI, 48),
    Jmp(RAX)
  ]

  // The callee-saved registers other than rsp, by their place in the save area.
  function Index(r: Reg): int {
    match r
    case RSP => 0 case RBP => 1 case RBX => 2 case R12 => 3 case R13 => 4 case R14 => 5 case R15 => 6
    case RAX => -1 case RDI => -1 case RSI => -1
  }

  predicate CalleeSaved(r: Reg) {
    Index(r) >= 1
  }

  const SAVE_WORDS: nat := 7

  predicate InSaveArea(handle: int, address: int) {
    handle <= address < handle + 8 * SAVE_WORDS
  }

  // ---------- the three parts of the swap ----------

  function Exchange(c: Core): Core {
    Step(Pop(RAX), Step(Load(RSP, RDI, 0), Step(Store(RSI, 0, RSP), c)))
  }

  // The stack pointers are exchanged and the return address is popped.
  lemma ExchangeStacks(c: Core)
    ensures var c' := Exchange(c);
            var mem := c.mem[Get(c.regs, RSI) := Get(c.regs, RSP)];
            && c'.mem == mem && c'.pc == c.pc
            && Get(c'.regs, RSP) == Read(mem, Get(c.regs, RDI)) + 8
            && Get(c'.regs, RAX) == Read(mem, Read(mem, Get(c.regs, RDI)))
            && (forall r :: r != RSP && r != RAX ==> Get(c'.regs, r) == Get(c.regs, r))
  {
  }

  // The registers in the order in which they are stored and loaded.
  function RegAt(i: int): (r: Reg)
    requires 1 <= i <= 6
    ensures Index(r) == i
  {
    if i == 1 then RBP else if i == 2 then RBX else if i == 3 then R12
    else if i == 4 then R13 else if i == 5 then R14 else R15
  }

  lemma IndexIsInjective(r: Reg, q: Reg)
    requires Index(r) >= 0 && Index(r) == Index(q)
    ensures r == q
  {
  }

  ghost predicate StoresAndLoads(code: seq<Instr>) {
    && |code| == 16
    && code[0] == Store(RSI, 0, RSP) && code[1] == Load(RSP, RDI, 0) && code[2] == Pop(RAX)
    && (forall k :: 3 <= k < 9 ==> code[k] == Store(RSI, 8 * (k - 2), RegAt(k - 2)))
    && (forall k :: 9 <= k < 15 ==> code[k] == Load(RegAt(k - 8), RDI, 8 * (k - 8)))
    && code[15] == Jmp(RAX)
  }

  // The instructions and the layout of the save area agree.
  lemma LayoutsAgree()
    ensures StoresAndLoads(CO_SWAP)
  {
  }

  ghost predicate StoredBelow(c: Core, c': Core, k: int)
    requires k <= 7
  {
    var rsi := Get(c.regs, RSI);
    && c'.regs == c.regs && c'.pc == c.pc
    && (forall i :: 1 <= i < k ==> Read(c'.mem, rsi + 8 * i) == Get(c.regs, RegAt(i)))
    && (forall a :: !(rsi + 8 <= a < rsi + 8 * k) ==> Read(c'.mem, a) == Read(c.mem, a))
  }

  ghost predicate LoadedBelow(c: Core, c': Core, k: int)
    requires k <= 7
  {
    var rdi := Get(c.regs, RDI);
    && c'.mem == c.mem && c'.pc == c.pc
    && (forall i :: 1 <= i < k ==> Get(c'.regs, RegAt(i)) == Read(c.mem, rdi + 8 * i))
    && (forall r :: !(1 <= Index(r) < k) ==> Get(c'.regs, r) == Get(c.regs, r))
  }

  lemma StoreOne(c: Core, c1: Core, k: int)
    requires 1 <= k <= 6 && StoredBelow(c, c1, k)
    ensures StoredBelow(c, Step(Store(RSI, 8 * k, RegAt(k)), c1), k + 1)
  {
  }

  lemma LoadOne(c: Core, c1: Core, k: int)
    requires 1 <= k <= 6 && LoadedBelow(c, c1, k)
    ensures LoadedBelow(c, Step(Load(RegAt(k), RDI, 8 * k), c1), k + 1)
  {
    assert Index(RDI) == -1;
  }

  lemma {:induction false} StoreLoop(code: seq<Instr>, c0: Core, k: nat)
    requires StoresAndLoads(code) && 1 <= k <= 7
    ensures StoredBelow(Exec(code[..3], c0), Exec(code[..k + 2], c0), k)
  {
    if k > 1 {
      StoreLoop(code, c0, k - 1);
      RunLast(Step, code, k + 1, c0);
      StoreOne(Exec(code[..3], c0), Exec(code[..k + 1], c0), k - 1);
    }
  }

  lemma {:induction false} LoadLoop(code: seq<Instr>, c0: Core, k: nat)
    requires StoresAndLoads(code) && 1 <= k <= 7
    ensures LoadedBelow(Exec(code[..9], c0), Exec(code[..k + 8], c0), k)
  {
    if k > 1 {
      LoadLoop(code, c0, k - 1);
      RunLast(Step, code, k + 7, c0);
      LoadOne(Exec(code[..9], c0), Exec(code[..k + 7], c0), k - 1);
    }
  }

  // ---------- the whole swap ----------

  // The save area of a handle holds the stack pointer and these registers.
  ghost predicate Holds(mem: Mem, handle: int, regs: Regs) {
    && Read(mem, handle) == Get(regs, RSP)
    && (forall r :: CalleeSaved(r) ==> Read(mem, handle + 8 * Index(r)) == Get(regs, r))
  }

  lemma ExecParts(code: seq<Instr>, c: Core)
    requires StoresAndLoads(code)
    ensures Exec(code[..3], c) == Exchange(c)
    ensures Exec(code, c) == Step(Jmp(RAX), Exec(code[..15], c))
  {
    assert code[..0] == [];
    RunLast(Step, code, 0, c);
    var c1 := Exec(code[..1], c);
    assert c1 == Step(Store(RSI, 0, RSP), c);
    RunLast(Step, code, 1, c);
    RunLast(Step, code, 2, c);
    RunLast(Step, code, 15, c);
    assert code[..16] == code;
  }

  // The three states between the parts.
  ghost predicate Phases(c: Core, c3: Core, c9: Core, c15: Core) {
    c3 == Exchange(c) && StoredBelow(c3, c9, 7) && LoadedBelow(c9, c15, 7)
  }

  lemma SwapPhases(c: Core) returns (c3: Core, c9: Core, c15: Core)
    ensures Phases(c, c3, c9, c15) && Exec(CO_SWAP, c) == Step(Jmp(RAX), c15)
  {
    LayoutsAgree();
    ExecParts(CO_SWAP, c);
    StoreLoop(CO_SWAP, c, 7);
    LoadLoop(CO_SWAP, c, 7);
    c3, c9, c15 := Exec(CO_SWAP[..3], c), Exec(CO_SWAP[..9], c), Exec(CO_SWAP[..15], c);
  }

  lemma PhasesSave(c: Core, c3: Core, c9: Core, c15: Core)
    requires Phases(c, c3, c9, c15)
    ensures c15.mem == c9.mem && Get(c15.regs, RDI) == Get(c.regs, RDI)
    ensures Holds(c9.mem, Get(c.regs, RSI), c.regs)
    ensures forall a :: !InSaveArea(Get(c.regs, RSI), a) ==> Read(c9.mem, a) == Read(c.mem, a)
  {
    ExchangeStacks(c);
    var from := Get(c.regs, RSI);
    forall r | CalleeSaved(r) ensures Read(c9.mem, from + 8 * Index(r)) == Get(c.regs, r) {
      var i := Index(r);
      assert Read(c9.mem, from + 8 * i) == Get(c3.regs, RegAt(i));
      IndexIsInjective(r, RegAt(i));
    }
  }

  lemma PhasesLoad(c: Core, c3: Core, c9: Core, c15: Core, r: Reg)
    requires Phases(c, c3, c9, c15) && CalleeSaved(r)
    ensures Get(c15.regs, r) == Read(c9.mem, Get(c.regs, RDI) + 8 * Index(r))
  {
    ExchangeStacks(c);
    var i := Index(r);
    assert Get(c15.regs, RegAt(i)) == Read(c9.mem, Get(c9.regs, RDI) + 8 * i);
    IndexIsInjective(r, RegAt(i));
  }

  // No stack pointer word is among the words that the stores change.
  lemma PhasesStack(c: Core, c3: Core, c9: Core, c15: Core)
    requires Phases(c, c3, c9, c15)
    requires var to, from := Get(c.regs, RDI), Get(c.regs, RSI);
             to == from || (forall a :: InSaveArea(to, a) ==> !InSaveArea(from, a))
    ensures var to, from := Get(c.regs, RDI), Get(c.regs, RSI);
            && Get(c15.regs, RSP) == Read(c9.mem, to) + 8
            && (!InSaveArea(from, Read(c9.mem, to)) ==> Get(c15.regs, RAX) == Read(c.mem, Read(c9.mem, to)))
  {
    var to := Get(c.regs, RDI);
    ExchangeStacks(c);
    assert InSaveArea(to, to);
    assert Read(c9.mem, to) == Read(c3.mem, to);
    assert Get(c15.regs, RSP) == Get(c9.regs, RSP) == Get(c3.regs, RSP);
    assert Get(c15.regs, RAX) == Get(c9.regs, RAX) == Get(c3.regs, RAX);
  }

  // The swap saves the stack pointer and the callee-saved registers in the
  // save area switched from, changes no other word, loads them from the save
  // area switched to, and returns to the address on the stack switched to.
  lemma SwapEffect(c: Core)
    requires var to, from := Get(c.regs, RDI), Get(c.regs, RSI);
             to == from || (forall a :: InSaveArea(to, a) ==> !InSaveArea(from, a))
    ensures var c' := Exec(CO_SWAP, c);
            var to, from := Get(c.regs, RDI), Get(c.regs, RSI);
            && Holds(c'.mem, from, c.regs)
            && (forall a :: !InSaveArea(from, a) ==> Read(c'.mem, a) == Read(c.mem, a))
            && Get(c'.regs, RSP) == Read(c'.mem, to) + 8
            && (forall r :: CalleeSaved(r) ==> Get(c'.regs, r) == Read(c'.mem, to + 8 * Index(r)))
            && (!InSaveArea(from, Read(c'.mem, to)) ==> c'.pc == Read(c.mem, Read(c'.mem, to)))
            && Get(c'.regs, RDI) == to
  {
    var c3, c9, c15 := SwapPhases(c);
    PhasesSave(c, c3, c9, c15);
    PhasesStack(c, c3, c9, c15);
    forall r | CalleeSaved(r) ensures Get(c15.regs, r) == Read(c9.mem, Get(c.regs, RDI) + 8 * Index(r)) {
      PhasesLoad(c, c3, c9, c15, r);
    }
  }

  // c switches away from a thread and d, later, switches back to it. In between
  // its save area and the return address on its stack were left alone.
  ghost predicate SwitchBack(c: Core, d: Core) {
    && Get(d.regs, RDI) == Get(c.regs, RSI)
    && (forall a :: InSaveArea(Get(c.regs, RDI), a) ==> !InSaveArea(Get(c.regs, RSI), a))
    && (forall a :: InSaveArea(Get(d.regs, RDI), a) ==> !InSaveArea(Get(d.regs, RSI), a))
    && (forall a :: InSaveArea(Get(c.regs, RSI), a) ==> Read(d.mem, a) == Read(Exec(CO_SWAP, c).mem, a))
    && !InSaveArea(Get(d.regs, RSI), Get(c.regs, RSP))
    && Read(d.mem, Get(c.regs, RSP)) == Read(c.mem, Get(c.regs, RSP))
  }

  lemma AreaSurvives(c: Core, d: Core, a: int)
    requires SwitchBack(c, d) && InSaveArea(Get(c.regs, RSI), a)
    ensures Read(Exec(CO_SWAP, d).mem, a) == Read(Exec(CO_SWAP, c).mem, a)
  {
    SwapEffect(d);
  }

  lemma SavedWords(c: Core, d: Core, r: Reg)
    requires SwitchBack(c, d) && (r == RSP || CalleeSaved(r))
    ensures Read(Exec(CO_SWAP, d).mem, Get(c.regs, RSI) + 8 * Index(r)) == Get(c.regs, r)
  {
    AreaSurvives(c, d, Get(c.regs, RSI) + 8 * Index(r));
    SwapEffect(c);
  }

  // Switching back, the call of co_swap returns to its caller with the
  // callee-saved registers and the stack pointer that a call preserves (section
  // 3.2.1 of the System V AMD64 ABI).
  lemma SwitchBackReturns(c: Core, d: Core)
    requires SwitchBack(c, d)
    ensures var d' := Exec(CO_SWAP, d);
            && d'.pc == Read(c.mem, Get(c.regs, RSP))
            && Get(d'.regs, RSP) == Get(c.regs, RSP) + 8
            && (forall r :: CalleeSaved(r) ==> Get(d'.regs, r) == Get(c.regs, r))
  {
    SwapEffect(d);
    SavedWords(c, d, RSP);
    forall r | CalleeSaved(r) ensures Get(Exec(CO_SWAP, d).regs, r) == Get(c.regs, r) {
      SavedWords(c, d, r);
    }
  }

  // ---------- co_derive ----------

  // The first word above the two that co_derive pushes.
  function TopOf(memory: int, size: nat): int {
    memory + (size - size % 16) - 32
  }

  function Derived(mem: Mem, memory: int, size: nat, stub: int, entrypoint: int): Mem {
    var top := TopOf(memory, size);
    mem[top - 8 := 0][top - 16 := stub][memory := top - 16][memory + 8 := entrypoint]
  }

  class Cpu {
    var mem: Mem

    constructor (mem: Mem)
      ensures this.mem == mem
    {
      this.mem := mem;
    }

    // Pushing the two words through a moving pointer. Null memory is handed
    // back untouched. The offset is unsigned and must not wrap.
    method CoDerive(memory: int, size: nat, stub: int, entrypoint: int) returns (handle: int)
      requires 32 <= size
      modifies this
      ensures handle == memory
      ensures mem == if memory == 0 then old(mem) else Derived(old(mem), memory, size, stub, entrypoint)
    {
      handle := memory;
      if handle == 0 {
        return;
      }
      var offset := size - size % 16 - 32;
      var p := handle + offset;
      p := p - 8;
      mem := mem[p := 0];
      p := p - 8;
      mem := mem[p := stub];
      mem := mem[handle := p];
      mem := mem[handle + 8 := entrypoint];
    }
  }

  // The first switch to a derived thread enters co_entrypoint as if it had been
  // called: rsp + 8 is a multiple of 16 (section 3.2.2 of the System V AMD64
  // ABI) when the memory is 16-byte aligned, the return address is null, the
  // handle is the argument, and the entry point is in its second word. The
  // stack pointer is above the save area and leaves 32 bytes, and what alignment
  // costs, at the top of the thread's memory.
  lemma FirstEntry(c: Core, mem: Mem, memory: int, size: nat, stub: int, entrypoint: int)
    requires memory % 16 == 0 && 0x1000 <= size
    requires c.mem == Derived(mem, memory, size, stub, entrypoint) && Get(c.regs, RDI) == memory
    requires forall a :: memory <= a < memory + size ==> !InSaveArea(Get(c.regs, RSI), a)
    ensures var c' := Exec(CO_SWAP, c);
            var rsp := Get(c'.regs, RSP);
            && c'.pc == stub
            && (rsp + 8) % 16 == 0
            && Read(c'.mem, rsp) == 0
            && Get(c'.regs, RDI) == memory && Read(c'.mem, memory + 8) == entrypoint
            && memory + 8 * SAVE_WORDS <= rsp && memory + size - 47 <= rsp + 8 <= memory + size - 32
  {
    SwapEffect(c);
    var top := TopOf(memory, size);
    TopIsAligned(memory, size);
    var c' := Exec(CO_SWAP, c);
    assert Read(c'.mem, memory) == top - 16;
    assert Read(c'.mem, top - 16) == stub;
    assert Read(c'.mem, top - 8) == 0;
  }

  lemma TopIsAligned(memory: int, size: nat)
    requires memory % 16 == 0
    ensures TopOf(memory, size) % 16 == 0
    ensures memory + size - 47 <= TopOf(memory, size) <= memory + size - 32
  {
    assert size == 16 * (size / 16) + size % 16;
    assert memory == 16 * (memory / 16);
    assert TopOf(memory, size) == 16 * (memory / 16 + size / 16 - 2);
  }
}
