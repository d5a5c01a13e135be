// What the two instruction sets have in common: a register file, a memory of
// words, and code that runs straight through.
module Machine {
  type Mem = map<int, int>

  function Get<R>(regs: map<R, int>, r: R): int {
    if r in regs then regs[r] else 0
  }

  function Read(mem: Mem, address: int): int {
    if address in mem then mem[address] else 0
  }

  function Run<I, C>(step: (I, C) -> C, code: seq<I>, c: C): C
    decreases |code|
  {
    if code == [] then c else step(code[|code| - 1], Run(step, code[..|code| - 1], c))
  }

  lemma RunLast<I, C>(step: (I, C) -> C, code: seq<I>, k: nat, c: C)
    requires k < |code|
    ensures Run(step, code[..k + 1], c) == step(code[k], Run(step, code[..k], c))
  {
    assert code[..k + 1][..k] == code[..k];
  }

  lemma {:induction false} RunAppend<I, C>(step: (I, C) -> C, a: seq<I>, b: seq<I>, c: C)
    ensures Run(step, a + b, c) == Run(step, b, Run(step, a, c))
    decreases |b|
  {
    if b == [] {
      assert a + b == a;
    } else {
      assert (a + b)[..|a + b| - 1] == a + b[..|b| - 1];
      RunAppend(step, a, b[..|b| - 1], c);
    }
  }
}
