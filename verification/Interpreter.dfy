/** The loop of ethvm/vm.go on the objects it changes: stack, memory and closures with their gas. */
module Interpreter {
  import opened Bytes
  import opened Options
  import opened Vm

  class Stack {
    var data: seq<int>

    constructor ()
      ensures data == []
    {
      data := [];
    }

    method Push(x: int)
      modifies this
      ensures data == old(data) + [x]
    {
      data := data + [x];
    }

    method Pop() returns (x: int)
      requires |data| >= 1
      modifies this
      ensures x == old(data)[|old(data)| - 1] && data == old(data)[..|old(data)| - 1]
    {
      x := data[|data| - 1];
      data := data[..|data| - 1];
    }

    /** The word below the top, and the top. */
    method Popn() returns (x: int, y: int)
      requires |data| >= 2
      modifies this
      ensures x == old(data)[|old(data)| - 2] && y == old(data)[|old(data)| - 1] && data == old(data)[..|old(data)| - 2]
    {
      x, y := data[|data| - 2], data[|data| - 1];
      data := data[..|data| - 2];
    }

    method Drop(n: nat)
      requires |data| >= n
      modifies this
      ensures data == old(data)[..|old(data)| - n]
    {
      data := data[..|data| - n];
    }

    /** DUP and SWAP count from the bottom of the stack. */
    method Dupn(n: nat)
      requires n < |data|
      modifies this
      ensures data == old(data) + [old(data)[n]]
    {
      data := data + [data[n]];
    }

    method Swapn(n: nat)
      requires n < |data|
      modifies this
      ensures data == old(data)[n := old(data)[0]][0 := old(data)[n]]
      ensures multiset(data) == multiset(old(data))
    {
      data := data[n := data[0]][0 := data[n]];
    }
  }

  class Memory {
    var store: Bytes

    constructor ()
      ensures store == []
    {
      store := [];
    }

    method Resize(size: nat)
      modifies this
      ensures store == Resized(old(store), size)
    {
      if |store| < size { store := store + Zeros(size - |store|); }
    }

    method Set(offset: int, size: int, value: Bytes) returns (ok: bool)
      modifies this
      ensures ok <==> MemSet(old(store), offset, size, value).Some?
      ensures ok ==> store == MemSet(old(store), offset, size, value).value
    {
      var end := Add64(offset, size);
      if end > |store| - 1 {
        var diff := end - (|store| - 1);
        store := store + Zeros(diff - 1);
      }
      ok := 0 <= offset <= end;
      if ok {
        var n := if |value| < end - offset then |value| else end - offset;
        store := store[..offset] + value[..n] + store[offset + n..];
      }
    }

    method Get(offset: int, size: int) returns (r: Option<Bytes>)
      ensures r == MemGet(store, offset, size)
    {
      if |store| <= offset { return Some([]); }
      var end := Add64(offset, size);
      if end > |store| { end := |store|; }
      return if 0 <= offset <= end then Some(store[offset..end]) else None;
    }
  }

  class Closure {
    var gas: int
    const frame: Frame
    /** null stands for an account, whose ReturnGas does nothing. */
    const caller: Closure?

    constructor (caller: Closure?, frame: Frame, gas: int)
      ensures this.caller == caller && this.frame == frame && this.gas == gas
    {
      this.caller, this.frame, this.gas := caller, frame, gas;
    }

    method UseGas(amount: int) returns (ok: bool)
      modifies this
      ensures ok <==> old(gas) >= amount
      ensures gas == if ok then old(gas) - amount else old(gas)
    {
      if gas < amount { return false; }
      gas := gas - amount;
      return true;
    }

    method ReturnGas(amount: int)
      modifies this
      ensures gas == old(gas) + amount
    {
      gas := gas + amount;
    }

    method Return()
      requires caller != this
      modifies caller
      ensures caller != null ==> caller.gas == old(caller.gas) + gas
    {
      if caller != null { caller.ReturnGas(gas); }
    }
  }

  /** How a turn leaves the loop: at a position, halted with output, or failed by error or panic. */
  datatype Exit = On(pc: int) | Halt(ret: Bytes) | Fail

  /** The history with this turn, or the frame it ended. */
  datatype Trail = More(h: History) | Done(e: Ended)

  /** An operation did what the specification says. */
  ghost predicate Did(e: Effect, r: Exit, data: seq<int>, store: Bytes) {
    match e
    case Go(pc, data', store') => r == On(pc) && data == data' && store == store'
    case Stop(ret) => r == Halt(ret)
    case Crash => r == Fail
  }

  /** A turn ended as the specification says. */
  ghost predicate Ends(v: Verdict, r: Exit, data: seq<int>, store: Bytes, gas: int) {
    match v
    case Next(m) => r == On(m.pc) && m == Machine(m.pc, data, store, gas)
    case Halted(ret, g) => r == Halt(ret) && gas == g
    case Failed(g) => r == Fail && gas == g
    case Starved(_) => r == Fail && gas == 0
    case Enter(_, _, _, _) => false
  }

  // ---------------------------------------------------------- the operations

  method DoPlainOp(c: Closure, stack: Stack, store: Bytes, op: byte, pc: int, o: Oracle) returns (r: Exit)
    modifies stack
    ensures Did(DoPlain(c.frame, Machine(pc, old(stack.data), store, c.gas), op, o), r, stack.data, store)
  {
    var shape := ShapeOf(op);
    if shape.Shape? {
      if |stack.data| < shape.pops { return Fail; }
      var v := Compute(c.frame, Machine(pc, stack.data, store, c.gas), op, o);
      if v.None? { return Fail; }
      stack.Drop(shape.pops);
      if shape.pushes == 1 { stack.Push(v.value); }
      return On(pc + 1);
    } else if PUSH1 <= op <= PUSH32 {
      var a := op - PUSH1 + 1;
      var v := Pushed(c.frame, pc, a);
      if v.None? { return Fail; }
      stack.Push(v.value);
      return On(pc + 1 + a);
    } else if DUP1 <= op <= DUP16 {
      var n := op - DUP1 + 1;
      if n >= |stack.data| { return Fail; }
      stack.Dupn(n);
      return On(pc + 1);
    } else if SWAP1 <= op <= SWAP16 {
      var n := op - SWAP1 + 1;
      if n >= |stack.data| { return Fail; }
      stack.Swapn(n);
      return On(pc + 1);
    }
    return Fail;
  }

  method DoMemoryOp(c: Closure, stack: Stack, mem: Memory, op: byte, pc: int, o: Oracle) returns (r: Exit)
    requires op in {MLOAD, MSTORE, MSTORE8, SHA3, CALLDATACOPY, CODECOPY, RETURN} && |stack.data| >= Needs(op)
    modifies stack, mem
    ensures Did(DoMemory(c.frame, Machine(pc, old(stack.data), old(mem.store), c.gas), op, o), r, stack.data, mem.store)
  {
    hide MemSet, MemGet, I64, LeftPad, Add64;
    if op == MLOAD {
      var start := stack.Pop();
      var bytes := mem.Get(I64(start), 32);
      if bytes.None? { return Fail; }
      stack.Push(Num(bytes.value));
      return On(pc + 1);
    } else if op == SHA3 {
      var size, offset := stack.Popn();
      var bytes := mem.Get(I64(offset), I64(size));
      if bytes.None? { return Fail; }
      stack.Push(o.value);
      return On(pc + 1);
    } else if op == RETURN {
      var size, offset := stack.Popn();
      var bytes := mem.Get(I64(offset), I64(size));
      return if bytes.None? then Fail else Halt(bytes.value);
    } else if op == MSTORE {
      var val, start := stack.Popn();
      var ok := mem.Set(I64(start), 32, LeftPad(BigBytes(Abs(val)), 32));
      return if ok then On(pc + 1) else Fail;
    } else if op == MSTORE8 {
      var val, start := stack.Popn();
      var i := I64(start);
      if !(0 <= i < |mem.store|) { return Fail; }
      mem.store := mem.store[i := I64(val) % 256];
      return On(pc + 1);
    } else {
      r := CopyOp(stack, mem, if op == CODECOPY then c.frame.code else c.frame.args, pc);
    }
  }

  method CopyOp(stack: Stack, mem: Memory, source: Bytes, pc: int) returns (r: Exit)
    requires |stack.data| >= 3
    modifies stack, mem
    ensures var data, n := old(stack.data), |old(stack.data)|;
      var store := Copied(old(mem.store), source, data[n - 1], I64(data[n - 2]), I64(data[n - 3]));
      if store.Some? then r == On(pc + 1) && mem.store == store.value && stack.data == data[..n - 3] else r == Fail
  {
    hide MemSet, I64, Add64;
    var mOff := stack.Pop();
    var cOff := stack.Pop();
    var l := stack.Pop();
    var from, n := I64(cOff), I64(l);
    if from > |source| {
      from, n := 0, 0;
    } else if Add64(from, n) > |source| {
      n := 0;
    }
    if !(0 <= from <= Add64(from, n) <= |source|) { return Fail; }
    var ok := mem.Set(I64(mOff), n, source[from..Add64(from, n)]);
    return if ok then On(pc + 1) else Fail;
  }

  /** The second switch, without CALL and CREATE. */
  method DoOp(c: Closure, stack: Stack, mem: Memory, op: byte, pc: int, o: Oracle) returns (r: Exit)
    requires |stack.data| >= Needs(op)
    modifies stack, mem
    ensures Did(Perform(c.frame, Machine(pc, old(stack.data), old(mem.store), c.gas), op, o), r, stack.data, mem.store)
  {
    hide DoPlain, DoMemory;
    if op == STOP {
      return Halt([]);
    } else if op == SUICIDE {
      return if |stack.data| < 1 then Fail else Halt([]);
    } else if op in {MLOAD, MSTORE, MSTORE8, SHA3, CALLDATACOPY, CODECOPY, RETURN} {
      r := DoMemoryOp(c, stack, mem, op, pc, o);
    } else if op == SSTORE {
      stack.Drop(2);
      return On(pc + 1);
    } else if op == JUMP {
      if |stack.data| < 1 { return Fail; }
      var target := stack.Pop();
      return On(target);
    } else if op == JUMPI {
      if |stack.data| < 2 { return Fail; }
      var cond, target := stack.Popn();
      return On(if cond >= 1 then target else pc + 1);
    } else {
      r := DoPlainOp(c, stack, mem.store, op, pc, o);
    }
  }

  // ------------------------------------------------------------ the step loop

  /**
   * Runs a frame and the frames it calls. Every run ends. What it returns, whether it fails and the gas it leaves are
   * those of a lawful history from its code and gas, and what is left goes back to the caller.
   */
  method RunClosure(c: Closure) returns (ret: Bytes, failed: bool, ghost e: Ended)
    requires c.caller != c
    modifies c, c.caller
    ensures LawfulEnd(e) && FrameIn(e) == c.frame && GasIn(e) == old(c.gas)
    ensures Outcome(e) == Result(ret, failed, c.gas)
    ensures c.caller != null ==> c.caller.gas == old(c.caller.gas) + c.gas
    decreases Pos(c.gas), 2
  {
    hide Turn, Lawful, I64;
    if |c.frame.code| == 0 {
      e := NoCode(c.frame, c.gas);
      c.Return();
      return [], false, e;
    }
    var stack := new Stack();
    var mem := new Memory();
    var pc := 0;
    ghost var h := Start(c.frame, c.gas);
    StartLawful(h);
    while true
      invariant fresh(stack) && fresh(mem)
      invariant Lawful(h) && FrameOf(h) == c.frame && Bought(h) == old(c.gas)
      invariant Now(h) == Machine(pc, stack.data, mem.store, c.gas)
      invariant Pos(c.gas) <= Pos(old(c.gas))
      invariant c.caller != null ==> c.caller.gas == old(c.caller.gas)
      decreases Pos(c.gas), Ahead(c.frame, pc)
    {
      var exit;
      ghost var trail;
      exit, trail := Step(c, stack, mem, pc, h);
      match exit {
        case On(next) =>
          h := trail.h;
          pc := next;
        case Halt(out) =>
          c.Return();
          return out, false, trail.e;
        case Fail =>
          c.Return();
          return [], true, trail.e;
      }
    }
  }

  lemma StartLawful(h: History)
    requires h.Start? && h.frame.code != []
    ensures Lawful(h) && Now(h) == Machine(0, [], [], h.gas)
  {
  }

  /** One turn of the loop: price the operation, charge it, make room, and do it. */
  method Step(c: Closure, stack: Stack, mem: Memory, pc: int, ghost h: History) returns (r: Exit, ghost t: Trail)
    requires c.caller != c
    requires Lawful(h) && FrameOf(h) == c.frame && Now(h) == Machine(pc, stack.data, mem.store, c.gas)
    modifies c, stack, mem
    ensures Extended(h, r, t, stack.data, mem.store, c.gas)
    ensures r.On? ==> Pos(c.gas) < Pos(old(c.gas)) || (c.gas == old(c.gas) && Ahead(c.frame, r.pc) < Ahead(c.frame, pc))
    decreases Pos(c.gas), 1
  {
    hide Lawful, Perform, BaseFee, Size, Words, Touched, I64, MemGet, Resized;
    var o: Oracle := *;
    ghost var f, m := c.frame, Now(h);
    Progress(f, m, o);
    var op := Fetch(c.frame, pc);
    if op < 0 || |stack.data| < Needs(op) {
      t := Done(Last(h, o));
      EndedBy(h, o);
      return Fail, t;
    }
    var bill := Price(Machine(pc, stack.data, mem.store, c.gas), op, o);
    PriceAsk(m, op, o);
    var paid := c.UseGas(Total(bill));
    if !paid {
      var all := c.UseGas(c.gas);
      t := Done(Last(h, o));
      EndedBy(h, o);
      return Fail, t;
    }
    mem.Resize(bill.size);
    assert Machine(pc, stack.data, mem.store, c.gas) == Paid(m, bill);
    if op == CALL {
      r, t := Call(c, stack, mem, pc, o, h);
    } else if op == CREATE {
      r, t := Create(c, stack, mem, pc, o, h);
    } else {
      r := DoOp(c, stack, mem, op, pc, o);
      t := if r.On? then More(Then(h, o)) else Done(Last(h, o));
      WentOn(h, o, r, stack.data, mem.store, c.gas);
    }
  }

  /** The trail is the history with one more turn, and the objects are what it says. */
  ghost predicate Extended(h: History, r: Exit, t: Trail, data: seq<int>, store: Bytes, gas: int) {
    if r.On? then
      && t.More? && !t.h.Start? && t.h.prev == h && Lawful(t.h)
      && FrameOf(t.h) == FrameOf(h) && Bought(t.h) == Bought(h)
      && Now(t.h) == Machine(r.pc, data, store, gas)
    else
      && t.Done? && !t.e.NoCode? && t.e.h == h && LawfulEnd(t.e)
      && Outcome(t.e) == Result(if r.Halt? then r.ret else [], r.Fail?, gas)
  }

  lemma EndedBy(h: History, o: Oracle)
    requires Lawful(h)
    requires var v := Turn(FrameOf(h), Now(h), o); v.Failed? || v.Starved?
    ensures LawfulEnd(Last(h, o))
    ensures var v := Turn(FrameOf(h), Now(h), o); Outcome(Last(h, o)) == Result([], true, if v.Failed? then v.gas else 0)
  {
    hide Turn;
  }

  lemma WentOn(h: History, o: Oracle, r: Exit, data: seq<int>, store: Bytes, gas: int)
    requires Lawful(h) && Ends(Turn(FrameOf(h), Now(h), o), r, data, store, gas)
    ensures Extended(h, r, if r.On? then More(Then(h, o)) else Done(Last(h, o)), data, store, gas)
  {
    hide Turn;
  }

  lemma CameBack(h: History, o: Oracle, child: Ended, r: Exit, data: seq<int>, store: Bytes, gas: int)
    requires Lawful(h) && LawfulEnd(child) && Entered(Turn(FrameOf(h), Now(h), o), child)
    requires Ends(Resume(Turn(FrameOf(h), Now(h), o), Outcome(child)), r, data, store, gas) && !r.Halt?
    ensures Extended(h, r, if r.On? then More(Over(h, o, child)) else Done(Cut(h, o, child)), data, store, gas)
  {
    hide Turn, Resume;
    ResumeGas(Turn(FrameOf(h), Now(h), o), Outcome(child));
  }

  /** CALL, after it has been charged: the callee's gas goes with it and what it leaves comes back. */
  method Call(c: Closure, stack: Stack, mem: Memory, pc: int, o: Oracle, ghost h: History) returns (r: Exit, ghost t: Trail)
    requires c.caller != c && |stack.data| >= 7 && Lawful(h)
    requires Turn(FrameOf(h), Now(h), o) == DoCall(Machine(pc, stack.data, mem.store, c.gas), o)
    modifies c, stack, mem
    ensures Extended(h, r, t, stack.data, mem.store, c.gas)
    ensures r.On? ==> Pos(c.gas) <= Pos(old(c.gas) + Pos(old(stack.data)[|old(stack.data)| - 1]))
    decreases Pos(stack.data[|stack.data| - 1]), 3
  {
    hide Turn, Lawful, MemGet, MemSet, I64, LawfulEnd;
    ghost var v := DoCall(Machine(pc, stack.data, mem.store, c.gas), o);
    ghost var data, n := stack.data, |stack.data|;
    var gas := stack.Pop();
    assert stack.data == data[..n - 1];
    var value, addr := stack.Popn();
    assert stack.data == data[..n - 3];
    var inSize, inOffset := stack.Popn();
    assert stack.data == data[..n - 5];
    var retSize, retOffset := stack.Popn();
    assert stack.data == data[..n - 7];
    var args := mem.Get(I64(inOffset), I64(inSize));
    if args.None? {
      t := Done(Last(h, o));
      EndedBy(h, o);
      return Fail, t;
    }
    if !o.funds {
      c.ReturnGas(gas);
      stack.Push(0);
      t := More(Then(h, o));
      r := On(pc + 1);
      WentOn(h, o, r, stack.data, mem.store, c.gas);
      return;
    }
    var callee := new Closure(c, Frame(o.code, o.spare, args.value), gas);
    var ret, failed;
    ghost var child;
    ret, failed, child := RunClosure(callee);
    FeesBounded(child);
    if failed {
      stack.Push(0);
      r := On(pc + 1);
    } else {
      var written := mem.Set(I64(retOffset), I64(retSize), ret);
      if written { stack.Push(1); }
      r := if written then On(pc + 1) else Fail;
    }
    t := if r.On? then More(Over(h, o, child)) else Done(Cut(h, o, child));
    CameBack(h, o, child, r, stack.data, mem.store, c.gas);
  }

  /** CREATE, after it has been charged: the new frame runs with all the gas that is left. */
  method Create(c: Closure, stack: Stack, mem: Memory, pc: int, o: Oracle, ghost h: History) returns (r: Exit, ghost t: Trail)
    requires c.caller != c && |stack.data| >= 3 && Lawful(h) && c.gas >= 0
    requires Turn(FrameOf(h), Now(h), o) == DoCreate(Machine(pc, stack.data, mem.store, c.gas), o)
    modifies c, stack, mem
    ensures Extended(h, r, t, stack.data, mem.store, c.gas)
    ensures r.On? ==> Pos(c.gas) <= old(c.gas)
    decreases Pos(c.gas), 3
  {
    hide Turn, Lawful, MemGet, I64, LawfulEnd;
    var value := stack.Pop();
    var size, offset := stack.Popn();
    assert stack.data == old(stack.data)[..|old(stack.data)| - 3];
    if !o.funds {
      stack.Push(0);
      t := More(Then(h, o));
      r := On(pc + 1);
      WentOn(h, o, r, stack.data, mem.store, c.gas);
      return;
    }
    var initCode := mem.Get(I64(offset), I64(size));
    if initCode.None? {
      t := Done(Last(h, o));
      EndedBy(h, o);
      return Fail, t;
    }
    var gas := c.gas;
    var all := c.UseGas(c.gas);
    var init := new Closure(c, Frame(initCode.value, o.spare, []), gas);
    var ret, failed;
    ghost var child;
    ret, failed, child := RunClosure(init);
    FeesBounded(child);
    stack.Push(if failed then 0 else o.value);
    r := On(pc + 1);
    t := More(Over(h, o, child));
    CameBack(h, o, child, r, stack.data, mem.store, c.gas);
  }
}
