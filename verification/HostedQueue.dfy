// The fixed-capacity circular queue of libhostedqueue/libhostedqueue.h.
//
// The C queue is a record of four unsigned counters over memory that the
// caller provides. Here the record and the memory it is used with are one
// object. The counters keep their 32-bit type, so the verifier also shows
// that no counter ever wraps.
module HostedQueue {
  newtype uint32 = x: int | 0 <= x < 0x1_0000_0000

  datatype Status = NoErr | InvalidArgs | Full | Empty

  datatype QueueOp = Push(item: int) | Pop

  // What one call reports: its status and, for a successful pop, the item.
  datatype Answer = Answer(status: Status, item: int)

  // Where the i-th item of a ring starting at head is stored.
  function Slot(capacity: nat, head: nat, i: nat): nat {
    if head + i < capacity then head + i else head + i - capacity
  }

  lemma MultipleBounds(c: int, q: int)
    requires 0 <= c
    ensures q <= -1 ==> c * q <= -c
    ensures q >= 2 ==> c * q >= 2 * c
  {
  }

  lemma SlotIsModular(capacity: nat, head: nat, i: nat)
    requires head < capacity && i <= capacity
    ensures Slot(capacity, head, i) == (head + i) % capacity
  {
    var q := (head + i) / capacity;
    assert head + i == capacity * q + (head + i) % capacity;
    MultipleBounds(capacity, q);
    assert q == 0 || q == 1;
  }

  // The items of a ring, front first.
  function Ring(mem: seq<int>, head: nat, items: nat): seq<int>
    requires head < |mem| && items <= |mem|
  {
    seq(items, i requires 0 <= i < items => mem[Slot(|mem|, head, i)])
  }

  // Storing at the tail slot appends, whatever was stored there before.
  lemma RingPush(mem: seq<int>, head: nat, items: nat, x: int)
    requires head < |mem| && items < |mem|
    ensures Ring(mem[Slot(|mem|, head, items) := x], head, items + 1) == Ring(mem, head, items) + [x]
  {
    var mem' := mem[Slot(|mem|, head, items) := x];
    forall i | 0 <= i < items
      ensures mem'[Slot(|mem|, head, i)] == mem[Slot(|mem|, head, i)]
    {
      assert Slot(|mem|, head, i) != Slot(|mem|, head, items);
    }
  }

  // Stepping head drops the front item.
  lemma RingPop(mem: seq<int>, head: nat, items: nat)
    requires head < |mem| && 0 < items <= |mem|
    ensures mem[head] == Ring(mem, head, items)[0]
    ensures Ring(mem, (head + 1) % |mem|, items - 1) == Ring(mem, head, items)[1..]
  {
    SlotIsModular(|mem|, head, 1);
    var head' := (head + 1) % |mem|;
    forall i | 0 <= i < items - 1
      ensures Slot(|mem|, head', i) == Slot(|mem|, head, i + 1)
    {
    }
  }

  // The bounded first-in first-out sequence that the ring stands for.
  function Fifo(capacity: nat, q: seq<int>, op: QueueOp): (seq<int>, Answer) {
    match op
    case Push(x) => if |q| == capacity then (q, Answer(Full, 0)) else (q + [x], Answer(NoErr, 0))
    case Pop => if q == [] then (q, Answer(Empty, 0)) else (q[1..], Answer(NoErr, q[0]))
  }

  function FifoRun(capacity: nat, q: seq<int>, ops: seq<QueueOp>): (seq<int>, seq<Answer>)
    decreases |ops|
  {
    if ops == [] then (q, [])
    else
      var (q', answers) := FifoRun(capacity, q, ops[..|ops| - 1]);
      var (q'', answer) := Fifo(capacity, q', ops[|ops| - 1]);
      (q'', answers + [answer])
  }

  // The items that a run accepted, and the items that it gave out.
  function Accepted(ops: seq<QueueOp>, answers: seq<Answer>): seq<int>
    requires |ops| == |answers|
  {
    if ops == [] then []
    else
      var k := |ops| - 1;
      Accepted(ops[..k], answers[..k])
      + if ops[k].Push? && answers[k].status == NoErr then [ops[k].item] else []
  }

  function GivenOut(ops: seq<QueueOp>, answers: seq<Answer>): seq<int>
    requires |ops| == |answers|
  {
    if ops == [] then []
    else
      var k := |ops| - 1;
      GivenOut(ops[..k], answers[..k])
      + if ops[k].Pop? && answers[k].status == NoErr then [answers[k].item] else []
  }

  // Over any interleaving of pushes and pops nothing is lost, duplicated or
  // reordered, and the bound is kept.
  lemma {:induction false} FifoRunConserves(capacity: nat, q: seq<int>, ops: seq<QueueOp>)
    requires |q| <= capacity
    ensures var (q', answers) := FifoRun(capacity, q, ops);
            && |answers| == |ops|
            && |q'| <= capacity
            && q + Accepted(ops, answers) == GivenOut(ops, answers) + q'
  {
    if ops != [] {
      var k := |ops| - 1;
      FifoRunConserves(capacity, q, ops[..k]);
      var (q1, answers1) := FifoRun(capacity, q, ops[..k]);
      var (q2, answer) := Fifo(capacity, q1, ops[k]);
      var answers := answers1 + [answer];
      assert answers[..k] == answers1 && answers[k] == answer;
      var taken, given := Accepted(ops[..k], answers1), GivenOut(ops[..k], answers1);
      match ops[k]
      case Push(x) =>
        assert q + (taken + [x]) == (q + taken) + [x];
        assert given + (q1 + [x]) == (given + q1) + [x];
        assert given + [] == given && taken + [] == taken;
      case Pop =>
        assert given + [] == given && taken + [] == taken;
        if q1 != [] {
          assert (given + [q1[0]]) + q1[1..] == given + q1;
        }
    }
  }

  class Queue {
    var capacity: uint32
    var items: uint32
    var head: uint32
    var tail: uint32
    const memory: array<int>

    ghost predicate Valid()
      reads this
    {
      && capacity as int == memory.Length
      && 1 <= capacity
      && items <= capacity
      && head < capacity
      && tail as int == Slot(memory.Length, head as int, items as int)
    }

    ghost function Contents(): seq<int>
      reads this, memory
      requires Valid()
    {
      Ring(memory[..], head as int, items as int)
    }

    constructor (memory: array<int>)
      ensures this.memory == memory
    {
      this.memory := memory;
      capacity, items, head, tail := 0, 0, 0, 0;
    }

    method Init(capacity: uint32) returns (status: Status)
      requires capacity as int == memory.Length
      modifies this
      ensures status == if capacity < 1 then InvalidArgs else NoErr
      ensures status == NoErr ==> Valid() && Contents() == []
      ensures status == InvalidArgs ==>
                this.capacity == old(this.capacity) && items == old(items) && head == old(head) && tail == old(tail)
    {
      if capacity < 1 {
        return InvalidArgs;
      }
      this.capacity := capacity;
      items := 0;
      head := 0;
      tail := 0;
      return NoErr;
    }

    method Peek() returns (status: Status, item: int)
      requires Valid()
      ensures status == if Contents() == [] then Empty else NoErr
      ensures status == NoErr ==> item == Contents()[0]
      ensures status != NoErr ==> item == 0
    {
      if items == 0 {
        return Empty, 0;
      }
      return NoErr, memory[head];
    }

    method Pop() returns (status: Status, item: int)
      requires Valid()
      modifies this
      ensures Valid()
      ensures (Contents(), Answer(status, item)) == Fifo(memory.Length, old(Contents()), QueueOp.Pop)
    {
      status, item := Peek();
      if status == NoErr {
        RingPop(memory[..], head as int, items as int);
        SlotIsModular(memory.Length, head as int, 1);
        head := head + 1;
        head := head % capacity;
        items := items - 1;
      }
    }

    method Push(item: int) returns (status: Status)
      requires Valid()
      modifies this, memory
      ensures Valid()
      ensures (Contents(), Answer(status, 0)) == Fifo(memory.Length, old(Contents()), QueueOp.Push(item))
    {
      if items == capacity {
        return Full;
      }
      RingPush(memory[..], head as int, items as int, item);
      SlotIsModular(memory.Length, tail as int, 1);
      memory[tail] := item;
      items := items + 1;
      tail := tail + 1;
      tail := tail % capacity;
      return NoErr;
    }

    // Any interleaving of pushes and pops on the ring is that interleaving on
    // the bounded sequence.
    method Drive(ops: seq<QueueOp>) returns (answers: seq<Answer>)
      requires Valid()
      modifies this, memory
      ensures Valid()
      ensures (Contents(), answers) == FifoRun(memory.Length, old(Contents()), ops)
    {
      answers := [];
      for k := 0 to |ops|
        invariant Valid()
        invariant (Contents(), answers) == FifoRun(memory.Length, old(Contents()), ops[..k])
      {
        assert ops[..k + 1][..k] == ops[..k];
        var answer: Answer;
        match ops[k] {
          case Push(x) =>
            var status := Push(x);
            answer := Answer(status, 0);
          case Pop =>
            var status, item := Pop();
            answer := Answer(status, item);
        }
        answers := answers + [answer];
      }
      assert ops[..|ops|] == ops;
    }
  }
}
