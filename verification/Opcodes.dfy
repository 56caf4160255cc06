/**
 * What each opcode of ethvm/vm.go answers: the stack, position, memory and gas after one turn, for the opcode's number
 * and a stack written out, and without the functions that the machine computes with.
 */
module Opcodes {
  import opened Bytes
  import opened Options
  import opened Vm

  /** 2 to the 256. */
  const WORD := 0x1_0000000000000000_0000000000000000_0000000000000000_0000000000000000

  /** The machine is about to execute an opcode. */
  predicate Reads(f: Frame, m: Machine, op: byte) {
    0 <= m.pc < |f.code| && m.pc < TWO63 && |f.code| > 1 && f.code[m.pc] == op
  }

  /** The turn takes 1 gas and goes on at the next position with this stack. */
  predicate Leaves(f: Frame, m: Machine, o: Oracle, data: seq<int>) {
    Turn(f, m, o) == Next(Machine(m.pc + 1, data, m.store, m.gas - 1))
  }

  predicate Congruent(a: int, b: int) {
    (a - b) % WORD == 0
  }

  lemma Fetched(f: Frame, m: Machine, op: byte)
    requires Reads(f, m, op)
    ensures Fetch(f, m.pc) == op
  {
    SmallWords(m.pc);
  }

  /** Opcodes that neither price nor touch anything of their own. */
  predicate Cheap(op: byte) {
    && op !in {STOP, SHA3, BALANCE, CALLDATACOPY, CODECOPY, MLOAD, MSTORE, MSTORE8, SLOAD, SSTORE}
    && op !in {JUMP, JUMPI, CREATE, CALL, RETURN, SUICIDE}
  }

  lemma CheapTurn(f: Frame, m: Machine, o: Oracle, op: byte)
    requires Reads(f, m, op) && Cheap(op) && m.gas >= 1
    ensures match DoPlain(f, m.(gas := m.gas - 1), op, o)
      case Go(pc, data, store) => Turn(f, m, o) == Next(Machine(pc, data, store, m.gas - 1))
      case Stop(ret) => Turn(f, m, o) == Halted(ret, m.gas - 1)
      case Crash => Turn(f, m, o) == Failed(m.gas - 1)
  {
    hide DoPlain;
    Fetched(f, m, op);
    FreeOfMemory(m, op, o);
  }

  lemma FreeOfMemory(m: Machine, op: byte, o: Oracle)
    requires Cheap(op)
    ensures Needs(op) == 0 && Price(m, op, o) == Bill(1, 0, 0, 0) && Resized(m.store, 0) == m.store
  {
  }

  /** An operation on two operands, x below y. */
  lemma TwoOperands(f: Frame, m: Machine, o: Oracle, op: byte, rest: seq<int>, x: int, y: int)
    requires Reads(f, m, op) && m.data == rest + [x, y] && m.gas >= 1
    requires Cheap(op) && ShapeOf(op) == Shape(2, 1)
    ensures match Binary(op, x, y)
      case Some(v) => Leaves(f, m, o, rest + [v])
      case None => Turn(f, m, o) == Failed(m.gas - 1)
  {
    hide Turn, Binary;
    CheapTurn(f, m, o, op);
    assert m.data[..|m.data| - 2] == rest;
  }

  lemma OneOperand(f: Frame, m: Machine, o: Oracle, op: byte, rest: seq<int>, x: int)
    requires Reads(f, m, op) && m.data == rest + [x] && m.gas >= 1
    requires Cheap(op) && ShapeOf(op) == Shape(1, 1)
    ensures match Compute(f, m.(gas := m.gas - 1), op, o)
      case Some(v) => Leaves(f, m, o, rest + [v])
      case None => Turn(f, m, o) == Failed(m.gas - 1)
  {
    hide Turn, Compute;
    CheapTurn(f, m, o, op);
    assert m.data[..|m.data| - 1] == rest;
  }

  // -------------------------------------------------------------- arithmetic

  lemma Masked(x: int)
    ensures 0 <= Mask(x) < WORD && Congruent(Mask(x), x)
  {
    assert Mask(x) - x == -(x / WORD) * WORD;
    MultipleOf(-(x / WORD));
  }

  lemma MultipleOf(k: int)
    ensures k * WORD % WORD == 0
  {
  }

  /** ADD (0x01): a word congruent to the sum modulo 2 to the 256. */
  lemma Add(f: Frame, m: Machine, o: Oracle, rest: seq<int>, x: int, y: int) returns (v: int)
    requires Reads(f, m, 0x01) && m.data == rest + [x, y] && m.gas >= 1
    ensures Leaves(f, m, o, rest + [v]) && 0 <= v < WORD && Congruent(v, x + y)
  {
    hide Turn, Mask, Congruent;
    TwoOperands(f, m, o, 0x01, rest, x, y);
    v := Mask(y + x);
    Masked(y + x);
  }

  /** MUL (0x02). */
  lemma Mul(f: Frame, m: Machine, o: Oracle, rest: seq<int>, x: int, y: int) returns (v: int)
    requires Reads(f, m, 0x02) && m.data == rest + [x, y] && m.gas >= 1
    ensures Leaves(f, m, o, rest + [v]) && 0 <= v < WORD && Congruent(v, x * y)
  {
    hide Turn, Mask, Congruent;
    TwoOperands(f, m, o, 0x02, rest, x, y);
    v := Mask(y * x);
    Masked(y * x);
    assert x * y == y * x;
  }

  /** SUB (0x03): the top operand less the one below it. */
  lemma Sub(f: Frame, m: Machine, o: Oracle, rest: seq<int>, x: int, y: int) returns (v: int)
    requires Reads(f, m, 0x03) && m.data == rest + [x, y] && m.gas >= 1
    ensures Leaves(f, m, o, rest + [v]) && 0 <= v < WORD && Congruent(v + x, y)
  {
    hide Turn, Mask;
    TwoOperands(f, m, o, 0x03, rest, x, y);
    v := Mask(y - x);
    Masked(y - x);
  }

  /** DIV and SDIV (0x04, 0x05): the quotient of the top operand by the one below it, and 0 by 0. */
  lemma Div(f: Frame, m: Machine, o: Oracle, op: byte, rest: seq<int>, x: int, y: int) returns (v: int, q: int, r: int)
    requires op == 0x04 || op == 0x05
    requires Reads(f, m, op) && m.data == rest + [x, y] && m.gas >= 1
    ensures Leaves(f, m, o, rest + [v]) && 0 <= v < WORD
    ensures x == 0 ==> v == 0
    ensures x != 0 ==> Congruent(v, q) && y == q * x + r && 0 <= r < Abs(x)
  {
    hide Turn, Mask, Congruent;
    TwoOperands(f, m, o, op, rest, x, y);
    if x == 0 {
      v, q, r := 0, 0, 0;
    } else {
      q, r := y / x, y % x;
      v := Mask(q);
      Masked(q);
      Euclid(y, x);
    }
  }

  lemma Euclid(y: int, x: int)
    requires x != 0
    ensures y == y / x * x + y % x && 0 <= y % x < Abs(x)
  {
  }

  /** MOD and SMOD (0x06, 0x07): the remainder of the top operand; by 0 they panic. */
  lemma Mod(f: Frame, m: Machine, o: Oracle, op: byte, rest: seq<int>, x: int, y: int) returns (v: int, q: int, r: int)
    requires op == 0x06 || op == 0x07
    requires Reads(f, m, op) && m.data == rest + [x, y] && m.gas >= 1
    ensures x == 0 ==> Turn(f, m, o) == Failed(m.gas - 1)
    ensures x != 0 ==>
      && Leaves(f, m, o, rest + [v]) && 0 <= v < WORD && Congruent(v, r)
      && y == q * x + r && 0 <= r < Abs(x)
  {
    hide Turn, Mask, Congruent;
    TwoOperands(f, m, o, op, rest, x, y);
    if x == 0 {
      v, q, r := 0, 0, 0;
    } else {
      q, r := y / x, y % x;
      v := Mask(r);
      Masked(r);
      Euclid(y, x);
    }
  }

  /** EXP (0x08) by an exponent that is not positive: 1. */
  lemma ExpNone(f: Frame, m: Machine, o: Oracle, rest: seq<int>, x: int, y: int)
    requires Reads(f, m, 0x08) && m.data == rest + [x, y] && m.gas >= 1 && x <= 0
    ensures Leaves(f, m, o, rest + [1])
  {
    hide Turn, Mask;
    TwoOperands(f, m, o, 0x08, rest, x, y);
  }

  /** EXP by one more: the base, on top of the exponent, times as much. */
  lemma ExpMore(f: Frame, m: Machine, o: Oracle, rest: seq<int>, x: int, y: int) returns (u: int, v: int)
    requires Reads(f, m, 0x08) && m.data == rest + [x, y] && m.gas >= 1 && x >= 0
    ensures Leaves(f, m, o, rest + [u]) && 0 <= u < WORD
    ensures Leaves(f, m.(data := rest + [x + 1, y]), o, rest + [v]) && 0 <= v < WORD
    ensures Congruent(v, u * y)
  {
    hide Turn, Mask, Congruent;
    TwoOperands(f, m, o, 0x08, rest, x, y);
    TwoOperands(f, m.(data := rest + [x + 1, y]), o, 0x08, rest, x + 1, y);
    var p := Power(y, x);
    u := if x == 0 then 1 else Mask(p);
    v := Mask(y * p);
    Masked(p);
    Masked(y * p);
    One();
    CongruentTimes(u, p, y);
    CongruentJoin(v, y * p, u * y);
  }

  lemma One()
    ensures Congruent(1, Power(0, 0)) && forall y :: Power(y, 0) == 1
  {
  }

  lemma CongruentTimes(a: int, b: int, k: int)
    requires Congruent(a, b)
    ensures Congruent(k * b, a * k)
  {
    var c := (a - b) / WORD;
    assert a - b == c * WORD;
    assert k * b - a * k == (-k * c) * WORD by {
      assert k * b - a * k == -k * (a - b);
      assert -k * (c * WORD) == (-k * c) * WORD;
    }
    MultipleOf(-k * c);
  }

  lemma CongruentJoin(a: int, b: int, c: int)
    requires Congruent(a, b) && Congruent(b, c)
    ensures Congruent(a, c)
  {
    var p, q := (a - b) / WORD, (b - c) / WORD;
    assert a - b == p * WORD && b - c == q * WORD;
    assert a - c == (p + q) * WORD;
    MultipleOf(p + q);
  }

  /** NEG (0x09). */
  lemma Neg(f: Frame, m: Machine, o: Oracle, rest: seq<int>, x: int)
    requires Reads(f, m, 0x09) && m.data == rest + [x] && m.gas >= 1
    ensures Leaves(f, m, o, rest + [WORD - x])
  {
    hide Turn;
    OneOperand(f, m, o, 0x09, rest, x);
  }

  /** LT and SLT (0x0a, 0x0c), GT and SGT (0x0b, 0x0d), EQ (0x0e): the top operand against the one below it. */
  lemma Compare(f: Frame, m: Machine, o: Oracle, op: byte, rest: seq<int>, x: int, y: int)
    requires 0x0a <= op <= 0x0e
    requires Reads(f, m, op) && m.data == rest + [x, y] && m.gas >= 1
    ensures op == 0x0a || op == 0x0c ==> Leaves(f, m, o, rest + [if y < x then 1 else 0])
    ensures op == 0x0b || op == 0x0d ==> Leaves(f, m, o, rest + [if y > x then 1 else 0])
    ensures op == 0x0e ==> Leaves(f, m, o, rest + [if y == x then 1 else 0])
  {
    hide Turn;
    TwoOperands(f, m, o, op, rest, x, y);
  }

  /** NOT (0x0f): 0 for a positive operand, and 1 otherwise. */
  lemma Not(f: Frame, m: Machine, o: Oracle, rest: seq<int>, x: int)
    requires Reads(f, m, 0x0f) && m.data == rest + [x] && m.gas >= 1
    ensures Leaves(f, m, o, rest + [if x > 0 then 0 else 1])
  {
    hide Turn;
    OneOperand(f, m, o, 0x0f, rest, x);
  }

  // -------------------------------------------------------------------- bits

  /** A bit of a number in two's complement. */
  function BitAt(x: int, i: nat): int
    decreases i
  {
    if i == 0 then x % 2 else BitAt(x / 2, i - 1)
  }

  lemma {:induction false} BitsAt(g: Gate, x: int, y: int, i: nat)
    ensures BitAt(Bits(g, x, y), i) == Bit(g, BitAt(x, i), BitAt(y, i))
    ensures 0 <= BitAt(x, i) <= 1 && 0 <= BitAt(y, i) <= 1
    decreases i
  {
    if Weight(x) == 0 && Weight(y) == 0 {
      assert x / 2 == x && y / 2 == y && x % 2 == -x && y % 2 == -y;
      if i > 0 { BitsAt(g, x, y, i - 1); }
    } else {
      var b, c := Bits(g, x / 2, y / 2), Bit(g, x % 2, y % 2);
      assert 0 <= c <= 1 && (2 * b + c) / 2 == b && (2 * b + c) % 2 == c;
      if i > 0 { BitsAt(g, x / 2, y / 2, i - 1); }
    }
  }

  /** AND, OR and XOR (0x10, 0x11, 0x12), bit by bit. */
  lemma Gates(f: Frame, m: Machine, o: Oracle, op: byte, rest: seq<int>, x: int, y: int) returns (v: int)
    requires 0x10 <= op <= 0x12
    requires Reads(f, m, op) && m.data == rest + [x, y] && m.gas >= 1
    ensures Leaves(f, m, o, rest + [v])
    ensures forall i: nat :: 0 <= BitAt(v, i) <= 1
    ensures op == 0x10 ==> forall i: nat :: BitAt(v, i) == 1 <==> BitAt(x, i) == 1 && BitAt(y, i) == 1
    ensures op == 0x11 ==> forall i: nat :: BitAt(v, i) == 1 <==> BitAt(x, i) == 1 || BitAt(y, i) == 1
    ensures op == 0x12 ==> forall i: nat :: BitAt(v, i) == 1 <==> BitAt(x, i) != BitAt(y, i)
  {
    hide Turn, Bits;
    TwoOperands(f, m, o, op, rest, x, y);
    var g := if op == 0x10 then And else if op == 0x11 then Or else Xor;
    v := Bits(g, y, x);
    forall i: nat
      ensures BitAt(v, i) == Bit(g, BitAt(y, i), BitAt(x, i)) && 0 <= BitAt(x, i) <= 1 && 0 <= BitAt(y, i) <= 1
    {
      BitsAt(g, y, x, i);
    }
  }

  /** Numbers with the same bits are equal. */
  lemma {:induction false} BitsDetermine(x: int, y: int)
    requires x >= 0 && y >= 0 && forall i: nat :: BitAt(x, i) == BitAt(y, i)
    ensures x == y
    decreases x + y
  {
    if x != 0 || y != 0 {
      forall i: nat ensures BitAt(x / 2, i) == BitAt(y / 2, i) {
        assert BitAt(x, i + 1) == BitAt(y, i + 1);
      }
      assert BitAt(x, 0) == BitAt(y, 0);
      BitsDetermine(x / 2, y / 2);
    }
  }

  // ------------------------------------------------------------------- bytes

  function Pow(n: nat): (r: nat)
    ensures r > 0
  {
    if n == 0 then 1 else 256 * Pow(n - 1)
  }

  /** A byte string read as a number, in two parts. */
  lemma {:induction false} NumSplit(b: Bytes, i: nat)
    requires i <= |b|
    ensures Num(b) == Num(b[..i]) * Pow(|b| - i) + Num(b[i..]) && Num(b[i..]) < Pow(|b| - i)
    decreases |b|
  {
    hide Num;
    if i == |b| {
      NumNothing();
      assert b[..i] == b && b[i..] == [];
    } else {
      var n := |b| - 1;
      var init, tail := b[..n], b[i..];
      NumSplit(init, i);
      assert init[..i] == b[..i] && init[i..] == tail[..|tail| - 1] && tail[|tail| - 1] == b[n];
      LastByte(tail);
      LastByte(b);
      Shift(Num(b[..i]), Pow(n - i), Num(init[i..]), b[n]);
    }
  }

  lemma Shift(h: nat, p: nat, l: nat, c: nat)
    ensures 256 * (h * p + l) + c == h * (256 * p) + (256 * l + c)
  {
  }

  lemma {:induction false} MinimalBytes(n: nat, i: nat)
    ensures i < |BigBytes(n)| <==> n >= Pow(i)
    decreases n
  {
    if n > 0 && i > 0 { MinimalBytes(n / 256, i - 1); }
  }

  /**
   * BYTE (0x13): the y-th byte of a word from the top, if the number is large enough to have a byte of its own by that
   * count from its own top, and 0 otherwise.
   */
  lemma ByteOfWord(f: Frame, m: Machine, o: Oracle, rest: seq<int>, x: int, y: int) returns (v: int, hi: nat, lo: nat)
    requires Reads(f, m, 0x13) && m.data == rest + [x, y] && m.gas >= 1 && 0 <= x < Pow(32) && y >= 0
    ensures Leaves(f, m, o, rest + [v])
    ensures y < 32 && x >= Pow(y) ==> x == (256 * hi + v) * Pow(31 - y) + lo && 0 <= v < 256 && lo < Pow(31 - y)
    ensures y >= 32 || x < Pow(y) ==> v == 0
  {
    hide Turn, Pow, BigBytes, Num;
    TwoOperands(f, m, o, 0x13, rest, x, y);
    var own := BigBytes(x);
    v, hi, lo := 0, 0, 0;
    if y < 32 { MinimalBytes(x, y); }
    MinimalBytes(x, 32);
    if y < 32 && x >= Pow(y) {
      var padded := LeftPad(own, 32);
      SmallWords(y);
      assert padded == Zeros(32 - |own|) + own;
      NumZeros(32 - |own|, own);
      NumBigBytes(x);
      NumSplit(padded, y + 1);
      v, hi, lo := padded[y], Num(padded[..y]), Num(padded[y + 1..]);
      LastByte(padded[..y + 1]);
      assert padded[..y + 1][..y] == padded[..y];
    }
  }

  lemma LastByte(b: Bytes)
    requires b != []
    ensures Num(b) == 256 * Num(b[..|b| - 1]) + b[|b| - 1]
  {
  }

  /** ADDMOD and MULMOD (0x14, 0x15): of the two topmost operands, modulo the third; by 0 they panic. */
  lemma ModThree(f: Frame, m: Machine, o: Oracle, op: byte, rest: seq<int>, x: int, y: int, z: int)
    returns (v: int, q: int, r: int)
    requires op == 0x14 || op == 0x15
    requires Reads(f, m, op) && m.data == rest + [z, y, x] && m.gas >= 1
    ensures z == 0 ==> Turn(f, m, o) == Failed(m.gas - 1)
    ensures z != 0 ==>
      && Leaves(f, m, o, rest + [v]) && 0 <= v < WORD && Congruent(v, r) && 0 <= r < Abs(z)
      && (if op == 0x14 then x + y else x * y) == q * z + r
  {
    hide Turn, Mask, Congruent;
    CheapTurn(f, m, o, op);
    assert m.data[..|m.data| - 3] == rest;
    var a := if op == 0x14 then x + y else x * y;
    if z == 0 {
      v, q, r := 0, 0, 0;
    } else {
      q, r := a / z, a % z;
      v := Mask(r);
      Masked(r);
      Euclid(a, z);
    }
  }

  /** CALLDATALOAD (0x35): 32 bytes of the arguments from an offset, with zeros past their end. */
  lemma LoadData(f: Frame, m: Machine, o: Oracle, rest: seq<int>, x: int, w: Bytes)
    requires Reads(f, m, 0x35) && m.data == rest + [x] && m.gas >= 1 && x >= 0 && |f.args| < TWO63
    requires |w| == 32 && forall i :: 0 <= i < 32 ==> w[i] == if x + i < |f.args| then f.args[x + i] else 0
    ensures Leaves(f, m, o, rest + [Num(w)])
  {
    hide Turn, Num;
    OneOperand(f, m, o, 0x35, rest, x);
    if x > |f.args| {
      assert w == Zeros(32) + [];
      NumZeros(32, []);
      NumNothing();
    } else {
      var hi := if x + 32 < |f.args| then x + 32 else |f.args|;
      SmallWords(x);
      SmallWords(hi);
      assert (f.args[x..hi] + Zeros(32))[..32] == w;
    }
  }

  lemma NumNothing()
    ensures Num([]) == 0
  {
  }

  /** What the machine knows of itself: sizes of arguments and code, gas limit, position, memory and gas left. */
  lemma Knows(f: Frame, m: Machine, o: Oracle, op: byte)
    requires op in {0x36, 0x38, 0x45, 0x5a, 0x5b, 0x5c} && Reads(f, m, op) && m.gas >= 1
    ensures op == 0x36 ==> Leaves(f, m, o, m.data + [|f.args|])
    ensures op == 0x38 ==> Leaves(f, m, o, m.data + [|f.code|])
    ensures op == 0x45 ==> Leaves(f, m, o, m.data + [0])
    ensures op == 0x5a ==> Leaves(f, m, o, m.data + [m.pc])
    ensures op == 0x5b ==> Leaves(f, m, o, m.data + [|m.store|])
    ensures op == 0x5c ==> Leaves(f, m, o, m.data + [m.gas - 1])
  {
    hide Turn;
    CheapTurn(f, m, o, op);
    assert m.data[..|m.data|] == m.data;
  }

  // ------------------------------------------------------------- the stack

  /** POP (0x50). */
  lemma PopTop(f: Frame, m: Machine, o: Oracle, rest: seq<int>, x: int)
    requires Reads(f, m, 0x50) && m.data == rest + [x] && m.gas >= 1
    ensures Leaves(f, m, o, rest)
  {
    hide Turn;
    CheapTurn(f, m, o, 0x50);
    assert m.data[..|m.data| - 1] == rest && rest + [] == rest;
  }

  /** PUSH1 to PUSH32 (0x60 to 0x7f): the bytes that follow as one number, and the position past them. */
  lemma Push(f: Frame, m: Machine, o: Oracle, n: nat)
    requires 1 <= n <= 32 && Reads(f, m, 0x5f + n) && m.gas >= 1 && m.pc + 1 + n <= |f.code| < TWO63
    ensures Turn(f, m, o) == Next(Machine(m.pc + 1 + n, m.data + [Num(f.code[m.pc + 1..m.pc + 1 + n])], m.store, m.gas - 1))
  {
    hide Turn, Num;
    CheapTurn(f, m, o, 0x5f + n);
    SmallWords(m.pc + 1);
    assert (f.code + f.spare)[m.pc + 1..m.pc + 1 + n] == f.code[m.pc + 1..m.pc + 1 + n];
  }

  /** DUP1 to DUP16 (0x80 to 0x8f): the n-th word above the lowest; it panics where there is none. */
  lemma Dup(f: Frame, m: Machine, o: Oracle, n: nat)
    requires 1 <= n <= 16 && Reads(f, m, 0x7f + n) && m.gas >= 1
    ensures n < |m.data| ==> Leaves(f, m, o, m.data + [m.data[n]])
    ensures n >= |m.data| ==> Turn(f, m, o) == Failed(m.gas - 1)
  {
    hide Turn;
    CheapTurn(f, m, o, 0x7f + n);
  }

  /** SWAP1 to SWAP16 (0x90 to 0x9f): the lowest word and the n-th above it change places. */
  lemma Swap(f: Frame, m: Machine, o: Oracle, n: nat, data: seq<int>)
    requires 1 <= n <= 16 && Reads(f, m, 0x8f + n) && m.gas >= 1
    requires |data| == |m.data| && forall i :: 0 <= i < |data| ==>
      data[i] == if i == 0 && n < |data| then m.data[n] else if i == n then m.data[0] else m.data[i]
    ensures n < |m.data| ==> Leaves(f, m, o, data)
    ensures n >= |m.data| ==> Turn(f, m, o) == Failed(m.gas - 1)
  {
    hide Turn;
    CheapTurn(f, m, o, 0x8f + n);
    if n < |m.data| { assert data == m.data[n := m.data[0]][0 := m.data[n]]; }
  }

  // -------------------------------------------------------------------- jumps

  /** A turn that has neither operands to price nor memory to enlarge: what it costs, and what follows. */
  lemma JumpTurn(f: Frame, m: Machine, o: Oracle, op: byte)
    requires op in {JUMP, JUMPI} && Reads(f, m, op) && m.gas >= 1
    ensures match Perform(f, m.(gas := m.gas - 1), op, o)
      case Go(pc, data, store) => Turn(f, m, o) == Next(Machine(pc, data, store, m.gas - 1))
      case Stop(ret) => Turn(f, m, o) == Halted(ret, m.gas - 1)
      case Crash => Turn(f, m, o) == Failed(m.gas - 1)
  {
    hide Turn, Perform;
    ChargedTurn(f, m, o, op);
  }

  /** JUMP (0x58) to the top operand. */
  lemma Jump(f: Frame, m: Machine, o: Oracle, rest: seq<int>, x: int)
    requires Reads(f, m, 0x58) && m.data == rest + [x] && m.gas >= 1
    ensures Turn(f, m, o) == Next(Machine(x, rest, m.store, m.gas - 1))
  {
    hide Turn;
    JumpTurn(f, m, o, 0x58);
    assert m.data[..|m.data| - 1] == rest;
  }

  /** JUMPI (0x59): to the top operand if the one below it is 1 or more, and on by one otherwise. */
  lemma JumpIf(f: Frame, m: Machine, o: Oracle, rest: seq<int>, cond: int, x: int)
    requires Reads(f, m, 0x59) && m.data == rest + [cond, x] && m.gas >= 1
    ensures Turn(f, m, o) == Next(Machine(if cond > 0 then x else m.pc + 1, rest, m.store, m.gas - 1))
  {
    hide Turn;
    JumpTurn(f, m, o, 0x59);
    assert m.data[..|m.data| - 2] == rest;
  }

  // ----------------------------------------------------------- fees and memory

  /** How many operands an opcode's price depends on. */
  function Looks(op: byte): nat {
    if op == 0x53 then 1
    else if op in {0x20, 0x54, 0x55, 0x57, 0xf2} then 2
    else if op in {0x37, 0x39, 0xf0} then 3
    else if op == 0xf1 then 7
    else 0
  }

  /** The stretches of memory an opcode uses, by where their offset and size stand below the top of the stack. */
  function Stretches(op: byte, data: seq<int>): seq<(int, int)>
    requires |data| >= Looks(op)
  {
    var n := |data|;
    if op == 0x53 || op == 0x54 then [(data[n - 1], 32)]
    else if op == 0x55 then [(data[n - 1], 1)]
    else if op == 0x20 || op == 0xf2 then [(data[n - 1], data[n - 2])]
    else if op == 0x37 || op == 0x39 then [(data[n - 1], data[n - 3])]
    else if op == 0xf0 then [(data[n - 2], data[n - 3])]
    else if op == 0xf1 then [(data[n - 6], data[n - 7]), (data[n - 4], data[n - 5])]
    else []
  }

  /** An offset and a size that are not negative, with a sum up to 2 to the 53. */
  predicate Fine(at: int, size: int) {
    0 <= at && 0 <= size && at + size <= 0x20_0000_0000_0000
  }

  predicate Modest(stretches: seq<(int, int)>) {
    forall i :: 0 <= i < |stretches| ==> Fine(stretches[i].0, stretches[i].1)
  }

  /** Where the last of them ends. */
  function EndOf(stretches: seq<(int, int)>): nat
    requires Modest(stretches)
  {
    if stretches == [] then 0
    else
      var rest := EndOf(stretches[1..]);
      var end := stretches[0].0 + stretches[0].1;
      if end > rest then end else rest
  }

  /** Whole words of 32 bytes up to an end. */
  function Ceiling(end: nat): nat {
    (end + 31) / 32 * 32
  }

  /** Memory enlarged with zeros to whole words up to an end. */
  function WithRoom(store: Bytes, end: nat): Bytes {
    if Ceiling(end) > |store| then store + seq(Ceiling(end) - |store|, _ => 0) else store
  }

  /** One unit of gas for each word of 32 bytes by which memory is enlarged. */
  function RoomFee(store: Bytes, end: nat): nat {
    if Ceiling(end) > |store| then (Ceiling(end) - |store|) / 32 else 0
  }

  /** The schedule: what an opcode costs apart from memory, given what the storage cell holds. */
  function Tariff(op: byte, data: seq<int>, stored: int): nat
    requires |data| >= Looks(op)
  {
    if op == 0x00 || op == 0xff then 0
    else if op == 0x57 then
      var put := data[|data| - 2];
      if stored == 0 && put != 0 then 200 else if stored != 0 && put == 0 then 0 else 100
    else if op in {0x20, 0x31, 0x56, 0xf1} then 20
    else if op == 0xf0 then 100
    else 1
  }

  /** The gas a CALL hands on, if that is not negative. */
  function Handed(op: byte, data: seq<int>): nat
    requires |data| >= Looks(op)
  {
    if op == 0xf1 && data[|data| - 1] > 0 then data[|data| - 1] else 0
  }

  lemma LooksNeeds(op: byte)
    ensures Looks(op) == Needs(op)
  {
  }

  /** What an opcode is charged, and the room made for it, for modest operands. */
  lemma Charges(m: Machine, op: byte, o: Oracle)
    requires |m.data| >= Looks(op) && Modest(Stretches(op, m.data))
    ensures Looks(op) == Needs(op)
    ensures var b, end := Price(m, op, o), EndOf(Stretches(op, m.data));
      && b.base == Tariff(op, m.data, o.value) && b.words == RoomFee(m.store, end) && Pos(b.ask) == Handed(op, m.data)
      && Resized(m.store, b.size) == WithRoom(m.store, end)
  {
    hide Size, Words, Resized, EndOf, Touched, Stretches;
    LooksNeeds(op);
    Ends(op, m.data, o);
    Rooms(m.store, EndOf(Stretches(op, m.data)));
  }

  lemma Ends(op: byte, data: seq<int>, o: Oracle)
    requires |data| >= Looks(op) == Needs(op) && Modest(Stretches(op, data))
    ensures Size(Touched(op, data), o.rounded) == Ceiling(EndOf(Stretches(op, data)))
  {
    hide U64, EndOf, End, Fine;
    var s, t := Stretches(op, data), Touched(op, data);
    assert |s| == |t| <= 2 && forall i :: 0 <= i < |s| ==> t[i] == Region(s[i].0, s[i].1);
    SizeOf(s, t, o.rounded);
  }

  lemma {:induction false} SizeOf(s: seq<(int, int)>, t: seq<Region>, rounded: nat)
    requires |s| == |t| <= 2 && (forall i :: 0 <= i < |s| ==> t[i] == Region(s[i].0, s[i].1)) && Modest(s)
    ensures Size(t, rounded) == Ceiling(EndOf(s))
  {
    hide U64, EndOf, End;
    if |s| == 2 {
      EndExact(t[0]);
      EndExact(t[1]);
      TwoEnds(s[0].0, s[0].1, s[1].0, s[1].1);
      assert s == [(s[0].0, s[0].1), (s[1].0, s[1].1)];
    } else if |s| == 1 {
      EndExact(t[0]);
      OneEnd(s[0].0, s[0].1);
      assert s == [(s[0].0, s[0].1)];
    } else {
      NoEnd(s);
    }
  }

  lemma NoEnd(s: seq<(int, int)>)
    requires s == []
    ensures EndOf(s) == 0
  {
  }

  lemma Rooms(store: Bytes, end: nat)
    ensures Words(Ceiling(end), |store|) == RoomFee(store, end) && Resized(store, Ceiling(end)) == WithRoom(store, end)
  {
  }

  /** The turn, once it is known what it is charged. */
  lemma ChargedTurn(f: Frame, m: Machine, o: Oracle, op: byte)
    requires Reads(f, m, op) && |m.data| >= Looks(op) && Modest(Stretches(op, m.data))
    ensures Looks(op) == Needs(op)
    ensures var end := EndOf(Stretches(op, m.data));
      var cost := Tariff(op, m.data, o.value) + RoomFee(m.store, end) + Handed(op, m.data);
      var paid := Machine(m.pc, m.data, WithRoom(m.store, end), m.gas - cost);
      if m.gas < cost then Turn(f, m, o) == Starved(cost)
      else if op == 0xf1 then Turn(f, m, o) == DoCall(paid, o)
      else if op == 0xf0 then Turn(f, m, o) == DoCreate(paid, o)
      else
        match Perform(f, paid, op, o)
        case Go(pc, data, store) => Turn(f, m, o) == Next(Machine(pc, data, store, paid.gas))
        case Stop(ret) => Turn(f, m, o) == Halted(ret, paid.gas)
        case Crash => Turn(f, m, o) == Failed(paid.gas)
  {
    Fetched(f, m, op);
    FetchedTurn(f, m, o, op);
  }

  lemma FetchedTurn(f: Frame, m: Machine, o: Oracle, op: byte)
    requires Fetch(f, m.pc) == op && |m.data| >= Looks(op) && Modest(Stretches(op, m.data))
    ensures Looks(op) == Needs(op)
    ensures var end := EndOf(Stretches(op, m.data));
      var cost := Tariff(op, m.data, o.value) + RoomFee(m.store, end) + Handed(op, m.data);
      var paid := Machine(m.pc, m.data, WithRoom(m.store, end), m.gas - cost);
      if m.gas < cost then Turn(f, m, o) == Starved(cost)
      else if op == 0xf1 then Turn(f, m, o) == DoCall(paid, o)
      else if op == 0xf0 then Turn(f, m, o) == DoCreate(paid, o)
      else
        match Perform(f, paid, op, o)
        case Go(pc, data, store) => Turn(f, m, o) == Next(Machine(pc, data, store, paid.gas))
        case Stop(ret) => Turn(f, m, o) == Halted(ret, paid.gas)
        case Crash => Turn(f, m, o) == Failed(paid.gas)
  {
    hide Perform, DoCall, DoCreate, Price, EndOf, Resized, Fetch, WithRoom, RoomFee, Tariff, Handed, Stretches;
    Charges(m, op, o);
  }

  /** STOP (0x00), and running past the end of the code: the frame halts without output and for free. */
  lemma Halt(f: Frame, m: Machine, o: Oracle)
    requires m.gas >= 0 && (Reads(f, m, 0x00) || (0 <= |f.code| <= m.pc < TWO63))
    ensures Turn(f, m, o) == Halted([], m.gas)
  {
    hide Turn;
    SmallWords(m.pc);
    FetchedTurn(f, m, o, 0x00);
  }

  /** A frame that cannot pay an opcode's price ends there, and all its gas is gone. */
  lemma Starves(f: Frame, m: Machine, o: Oracle, op: byte)
    requires Reads(f, m, op) && |m.data| >= Looks(op) && Modest(Stretches(op, m.data))
    ensures Turn(f, m, o).Starved? <==>
      m.gas < Tariff(op, m.data, o.value) + RoomFee(m.store, EndOf(Stretches(op, m.data))) + Handed(op, m.data)
  {
    hide Turn, Perform, WithRoom, RoomFee, Tariff, Handed, EndOf, Stretches;
    ChargedTurn(f, m, o, op);
    if op == 0xf1 || op == 0xf0 { LooksNeeds(op); }
  }

  /** Memory with a stretch replaced. */
  function Put(store: Bytes, at: nat, w: Bytes): Bytes
    requires at + |w| <= |store|
  {
    store[..at] + w + store[at + |w|..]
  }

  lemma RoomCovers(store: Bytes, end: nat)
    ensures |WithRoom(store, end)| >= end
  {
  }

  lemma OneEnd(at: int, size: int)
    requires Fine(at, size)
    ensures Modest([(at, size)]) && EndOf([(at, size)]) == at + size
  {
    assert [(at, size)][1..] == [];
  }

  /** MSTORE (0x54): 32 bytes that read as the number, most significant first, at the top operand's place. */
  lemma StoreWord(f: Frame, m: Machine, o: Oracle, rest: seq<int>, v: nat, at: int) returns (w: Bytes)
    requires Reads(f, m, 0x54) && m.data == rest + [v, at] && v < Pow256(32) && Fine(at, 32)
    requires m.gas >= 1 + RoomFee(m.store, at + 32)
    ensures |w| == 32 && Num(w) == v && |WithRoom(m.store, at + 32)| >= at + 32
    ensures Turn(f, m, o) ==
      Next(Machine(m.pc + 1, rest, Put(WithRoom(m.store, at + 32), at, w), m.gas - 1 - RoomFee(m.store, at + 32)))
  {
    hide Turn, WithRoom, RoomFee, EndOf, DoMemory, LeftPad, Num, BigBytes;
    OneEnd(at, 32);
    ChargedTurn(f, m, o, 0x54);
    RoomCovers(m.store, at + 32);
    w := LeftPad(BigBytes(v), 32);
    WordBack(v);
    var paid := Machine(m.pc, m.data, WithRoom(m.store, at + 32), m.gas - 1 - RoomFee(m.store, at + 32));
    WordStored(f, paid, at, v, o);
    assert m.data[..|m.data| - 2] == rest;
  }

  /** MLOAD (0x53): the 32 bytes from the top operand on, as a number. */
  lemma LoadWord(f: Frame, m: Machine, o: Oracle, rest: seq<int>, at: int)
    requires Reads(f, m, 0x53) && m.data == rest + [at] && Fine(at, 32) && m.gas >= 1 + RoomFee(m.store, at + 32)
    ensures var store := WithRoom(m.store, at + 32);
      && |store| >= at + 32
      && Turn(f, m, o) == Next(Machine(m.pc + 1, rest + [Num(store[at..at + 32])], store, m.gas - 1 - RoomFee(m.store, at + 32)))
  {
    hide Turn, WithRoom, RoomFee, EndOf, DoMemory, Num;
    OneEnd(at, 32);
    ChargedTurn(f, m, o, 0x53);
    RoomCovers(m.store, at + 32);
    var paid := Machine(m.pc, m.data, WithRoom(m.store, at + 32), m.gas - 1 - RoomFee(m.store, at + 32));
    WordLoaded(f, paid, at, o);
    assert m.data[..|m.data| - 1] == rest;
  }

  lemma LowByte(v: nat)
    ensures I64(v) % 256 == v % 256
  {
    I64Mod(v);
  }

  /** MSTORE8 (0x55): the lowest byte of the number. */
  lemma StoreByte(f: Frame, m: Machine, o: Oracle, rest: seq<int>, v: nat, at: int)
    requires Reads(f, m, 0x55) && m.data == rest + [v, at] && Fine(at, 1) && m.gas >= 1 + RoomFee(m.store, at + 1)
    ensures var store := WithRoom(m.store, at + 1);
      && |store| >= at + 1
      && Turn(f, m, o) == Next(Machine(m.pc + 1, rest, store[at := v % 256], m.gas - 1 - RoomFee(m.store, at + 1)))
  {
    hide Turn, WithRoom, RoomFee, EndOf, I64;
    OneEnd(at, 1);
    ChargedTurn(f, m, o, 0x55);
    RoomCovers(m.store, at + 1);
    SmallWords(at);
    LowByte(v);
    assert m.data[..|m.data| - 2] == rest;
  }

  /** RETURN (0xf2): the frame halts with the stretch of memory that starts at the top operand. */
  lemma Return(f: Frame, m: Machine, o: Oracle, rest: seq<int>, size: int, at: int)
    requires Reads(f, m, 0xf2) && m.data == rest + [size, at] && Fine(at, size)
    requires m.gas >= 1 + RoomFee(m.store, at + size)
    ensures var store := WithRoom(m.store, at + size);
      && |store| >= at + size
      && Turn(f, m, o) == Halted(store[at..at + size], m.gas - 1 - RoomFee(m.store, at + size))
  {
    hide Turn, WithRoom, RoomFee, EndOf, I64, MemGet;
    OneEnd(at, size);
    ChargedTurn(f, m, o, 0xf2);
    RoomCovers(m.store, at + size);
    MemGetExact(WithRoom(m.store, at + size), Region(at, size));
  }

  /** CALLDATACOPY and CODECOPY (0x37, 0x39): a stretch of the arguments or the code, or nothing if it is not all there. */
  lemma Copy(f: Frame, m: Machine, o: Oracle, op: byte, rest: seq<int>, size: int, from: int, at: int)
    requires op == 0x37 || op == 0x39
    requires Reads(f, m, op) && m.data == rest + [size, from, at] && Fine(at, size) && 0 <= from && from + size < TWO63
    requires m.gas >= 1 + RoomFee(m.store, at + size)
    ensures var source, store := if op == 0x37 then f.args else f.code, WithRoom(m.store, at + size);
      var portion := if from + size <= |source| then source[from..from + size] else [];
      && |store| >= at + size >= at + |portion|
      && Turn(f, m, o) == Next(Machine(m.pc + 1, rest, Put(store, at, portion), m.gas - 1 - RoomFee(m.store, at + size)))
  {
    hide Turn, WithRoom, RoomFee, EndOf, I64, MemSet, Copied;
    OneEnd(at, size);
    ChargedTurn(f, m, o, op);
    RoomCovers(m.store, at + size);
    var source := if op == 0x37 then f.args else f.code;
    CopiedExact(WithRoom(m.store, at + size), source, at, from, size);
    SmallWords(from);
    CopiedSmall(WithRoom(m.store, at + size), source, at, from, size);
    assert m.data[..|m.data| - 3] == rest;
  }

  lemma CopiedSmall(store: Bytes, source: Bytes, at: int, from: int, size: int)
    requires 0 <= from < TWO63
    ensures Copied(store, source, at, I64(from), I64(size)) == Copied(store, source, at, from, I64(size))
  {
    SmallWords(from);
  }

  /** BALANCE and SLOAD (0x31, 0x56) take one operand and push what they look up, for 20 gas. */
  lemma LookUp(f: Frame, m: Machine, o: Oracle, op: byte, rest: seq<int>, x: int)
    requires op == 0x31 || op == 0x56
    requires Reads(f, m, op) && m.data == rest + [x] && m.gas >= 20
    ensures Turn(f, m, o) == Next(Machine(m.pc + 1, rest + [o.value], m.store, m.gas - 20))
  {
    hide Turn;
    ChargedTurn(f, m, o, op);
    assert m.data[..|m.data| - 1] == rest;
  }

  /** SSTORE (0x57): filling an empty cell costs 200, emptying a full one nothing, any other write 100. */
  lemma StoreCell(f: Frame, m: Machine, o: Oracle, rest: seq<int>, put: int, cell: int)
    requires Reads(f, m, 0x57) && m.data == rest + [put, cell]
    ensures var fee := if o.value == 0 && put != 0 then 200 else if o.value != 0 && put == 0 then 0 else 100;
      m.gas >= fee ==> Turn(f, m, o) == Next(Machine(m.pc + 1, rest, m.store, m.gas - fee))
  {
    hide Turn;
    ChargedTurn(f, m, o, 0x57);
    assert m.data[..|m.data| - 2] == rest;
  }

  /** What the environment knows, pushed for 1 gas: addresses, price, and the block's header. */
  lemma Environment(f: Frame, m: Machine, o: Oracle, op: byte)
    requires op in {0x30, 0x32, 0x33, 0x34, 0x3a, 0x40, 0x41, 0x42, 0x43, 0x44} && Reads(f, m, op) && m.gas >= 1
    ensures Leaves(f, m, o, m.data + [o.value])
  {
    hide Turn;
    CheapTurn(f, m, o, op);
    assert m.data[..|m.data|] == m.data;
  }

  /** SUICIDE (0xff) takes an operand, costs nothing, and halts. */
  lemma Suicide(f: Frame, m: Machine, o: Oracle)
    requires Reads(f, m, 0xff) && m.gas >= 0
    ensures Turn(f, m, o) == if m.data == [] then Failed(m.gas) else Halted([], m.gas)
  {
    hide Turn;
    ChargedTurn(f, m, o, 0xff);
  }

  /** Numbers that are no opcode end the frame in error. */
  lemma NoOpcode(f: Frame, m: Machine, o: Oracle, op: byte)
    requires Reads(f, m, op) && m.gas >= 1
    requires 0x16 <= op <= 0x1f || 0x21 <= op <= 0x2f || 0x3b <= op <= 0x3f || 0x46 <= op <= 0x4f || op == 0x51 || op == 0x52
      || 0x5d <= op <= 0x5f || 0xa0 <= op <= 0xef || 0xf3 <= op <= 0xfd
    ensures Turn(f, m, o) == Failed(m.gas - 1)
  {
    hide Turn;
    CheapTurn(f, m, o, op);
  }

  /** An operation on more operands than there are fails after it has been paid for. */
  lemma TooFew(f: Frame, m: Machine, o: Oracle, op: byte)
    requires Reads(f, m, op) && m.gas >= 1
    requires (op in {0x09, 0x0f, 0x35, 0x50} && |m.data| < 1) || (0x14 <= op <= 0x15 && |m.data| < 3)
      || ((0x01 <= op <= 0x08 || 0x0a <= op <= 0x0e || 0x10 <= op <= 0x13) && |m.data| < 2)
    ensures Turn(f, m, o) == Failed(m.gas - 1)
  {
    hide Turn;
    CheapTurn(f, m, o, op);
  }

  // ---------------------------------------------------------- nested frames

  lemma TwoEnds(at: int, size: int, at': int, size': int)
    requires Fine(at, size) && Fine(at', size')
    ensures var s := [(at, size), (at', size')];
      Modest(s) && EndOf(s) >= at + size && EndOf(s) >= at' + size' && (EndOf(s) == at + size || EndOf(s) == at' + size')
  {
    OneEnd(at', size');
    assert [(at, size), (at', size')][1..] == [(at', size')];
  }

  /**
   * CALL (0xf1), with its operands from the top: gas, address, value, offset and size of the input, offset and size of
   * the output. For 20 gas, the memory for both stretches and the gas handed on, the callee's frame runs with the input
   * as its arguments; if the account cannot pay the value, 0 is pushed and the gas handed on comes back.
   */
  lemma EnterCall(f: Frame, m: Machine, o: Oracle, rest: seq<int>, retSize: int, retAt: int, inSize: int, inAt: int,
                  value: int, addr: int, gas: int)
    requires Reads(f, m, 0xf1) && m.data == rest + [retSize, retAt, inSize, inAt, value, addr, gas]
    requires Fine(inAt, inSize) && Fine(retAt, retSize)
    ensures var inEnd, retEnd := inAt + inSize, retAt + retSize;
      var end := if inEnd > retEnd then inEnd else retEnd;
      var store := WithRoom(m.store, end);
      var left := m.gas - 20 - RoomFee(m.store, end) - (if gas > 0 then gas else 0);
      && |store| >= inEnd && |store| >= retEnd
      && (left >= 0 && o.funds ==>
            Turn(f, m, o) ==
            Enter(Frame(o.code, o.spare, store[inAt..inEnd]), gas, Machine(m.pc + 1, rest, store, left), Into(retAt, retSize)))
      && (left >= 0 && !o.funds ==> Turn(f, m, o) == Next(Machine(m.pc + 1, rest + [0], store, left + gas)))
  {
    hide Turn, WithRoom, RoomFee, EndOf, I64, MemGet;
    TwoEnds(retAt, retSize, inAt, inSize);
    var end := EndOf([(retAt, retSize), (inAt, inSize)]);
    ChargedTurn(f, m, o, 0xf1);
    RoomCovers(m.store, end);
    MemGetExact(WithRoom(m.store, end), Region(inAt, inSize));
    assert m.data[..|m.data| - 7] == rest;
  }

  /** Back from a call: 1 and the output in its place, or 0; the gas left is added either way. */
  lemma CallReturns(f: Frame, m: Machine, ask: int, retAt: int, retSize: int, r: Result)
    requires Fine(retAt, retSize) && retAt + retSize <= |m.store|
    ensures var v := Resume(Enter(f, ask, m, Into(retAt, retSize)), r);
      var n := if |r.ret| < retSize then |r.ret| else retSize;
      v == Next(Machine(m.pc, m.data + [if r.failed then 0 else 1],
                        if r.failed then m.store else Put(m.store, retAt, r.ret[..n]), m.gas + r.gas))
  {
    SmallWords(retAt);
    SmallWords(retSize);
    SmallWords(retAt + retSize);
  }

  /**
   * CREATE (0xf0), with its operands from the top: value, offset and size of the new account's code. For 100 gas and the
   * memory, that code runs as a frame with all the gas that is left; if the account cannot pay, 0 is pushed.
   */
  lemma EnterCreate(f: Frame, m: Machine, o: Oracle, rest: seq<int>, size: int, at: int, value: int)
    requires Reads(f, m, 0xf0) && m.data == rest + [size, at, value] && Fine(at, size)
    ensures var store := WithRoom(m.store, at + size);
      var left := m.gas - 100 - RoomFee(m.store, at + size);
      && |store| >= at + size
      && (left >= 0 && o.funds ==>
            Turn(f, m, o) ==
            Enter(Frame(store[at..at + size], o.spare, []), left, Machine(m.pc + 1, rest, store, 0), Account(o.value)))
      && (left >= 0 && !o.funds ==> Turn(f, m, o) == Next(Machine(m.pc + 1, rest + [0], store, left)))
  {
    hide Turn, WithRoom, RoomFee, EndOf, I64, MemGet;
    OneEnd(at, size);
    ChargedTurn(f, m, o, 0xf0);
    RoomCovers(m.store, at + size);
    MemGetExact(WithRoom(m.store, at + size), Region(at, size));
    assert m.data[..|m.data| - 3] == rest;
  }

  /** Back from a creation: the new address, or 0. */
  lemma CreateReturns(f: Frame, m: Machine, ask: int, addr: int, r: Result)
    ensures Resume(Enter(f, ask, m, Account(addr)), r) ==
      Next(Machine(m.pc, m.data + [if r.failed then 0 else addr], m.store, m.gas + r.gas))
  {
  }

  // ------------------------------------------------------------- a whole run

  /** PUSH1 3, PUSH1 5, SUB: the program leaves 2, and 97 of 100 gas. */
  lemma SubtractFromFive(f: Frame, o: Oracle) returns (a: Machine, b: Machine, c: Machine)
    requires f.code == [0x60, 3, 0x60, 5, 0x03]
    ensures Turn(f, Machine(0, [], [], 100), o) == Next(a) && Turn(f, a, o) == Next(b) && Turn(f, b, o) == Next(c)
    ensures c == Machine(5, [2], [], 97) && Turn(f, c, o) == Halted([], 97)
  {
    hide Turn, Congruent, Num;
    var m := Machine(0, [], [], 100);
    ByteNum(3);
    ByteNum(5);
    assert f.code[1..2] == [3] && f.code[3..4] == [5];
    Push(f, m, o, 1);
    a := Machine(2, [] + [3], [], 99);
    Push(f, a, o, 1);
    b := Machine(4, [] + [3] + [5], [], 98);
    assert b.data == [] + [3, 5];
    var v := Sub(f, b, o, [], 3, 5);
    assert v == 2 by { OnlyTwo(v); }
    c := Machine(5, [] + [v], [], 97);
    Halt(f, c, o);
  }

  lemma ByteNum(b: byte)
    ensures Num([b]) == b
  {
    assert [b][..0] == [];
  }

  lemma OnlyTwo(v: int)
    requires 0 <= v < WORD && Congruent(v + 3, 5)
    ensures v == 2
  {
  }

  /** Machines that follow one another whatever comes from outside, up to one at which the frame halts. */
  ghost predicate Determined(f: Frame, ms: seq<Machine>, ret: Bytes, gas: int) {
    && ms != [] && Always(f, ms[|ms| - 1], Halted(ret, gas))
    && forall i :: 0 <= i < |ms| - 1 ==> Always(f, ms[i], Next(ms[i + 1]))
  }

  ghost predicate Always(f: Frame, m: Machine, v: Verdict) {
    forall o :: Turn(f, m, o) == v
  }

  lemma {:induction false} OnTheWay(f: Frame, ms: seq<Machine>, ret: Bytes, gas: int, h: History) returns (i: nat)
    requires Determined(f, ms, ret, gas) && Lawful(h) && FrameOf(h) == f && ms[0] == Machine(0, [], [], Bought(h))
    ensures i < |ms| && Now(h) == ms[i]
    decreases h
  {
    hide Turn, Resume;
    if h.Start? {
      i := 0;
    } else {
      var j := OnTheWay(f, ms, ret, gas, h.prev);
      assert j < |ms| - 1 ==> Always(f, ms[j], Next(ms[j + 1]));
      i := j + 1;
    }
  }

  /** Every run of such a frame returns what it halts with. */
  lemma RunsTo(f: Frame, ms: seq<Machine>, ret: Bytes, gas: int, e: Ended)
    requires Determined(f, ms, ret, gas) && LawfulEnd(e) && FrameIn(e) == f && f.code != []
    requires ms[0] == Machine(0, [], [], GasIn(e))
    ensures Outcome(e) == Result(ret, false, gas)
  {
    hide Turn, Resume;
    var i := OnTheWay(f, ms, ret, gas, e.h);
    assert i < |ms| - 1 ==> Always(f, ms[i], Next(ms[i + 1]));
  }

  /**
   * PUSH1 v, PUSH1 0, MSTORE8, PUSH1 1, PUSH1 0, RETURN: every run with 100 gas returns the byte, does not fail, and
   * leaves 93 gas; the memory of one word is the seventh unit spent.
   */
  lemma ReturnsByte(f: Frame, v: byte, e: Ended)
    requires f.code == [0x60, v, 0x60, 0, 0x55, 0x60, 1, 0x60, 0, 0xf2]
    requires LawfulEnd(e) && FrameIn(e) == f && GasIn(e) == 100
    ensures Outcome(e) == Result([v], false, 93)
  {
    hide Turn, LawfulEnd, Num, WithRoom, RoomFee;
    var zeros: Bytes := seq(32, _ => 0);
    Rooms32();
    var store := zeros[0 := v];
    var ms := [
      Machine(0, [], [], 100), Machine(2, [v], [], 99), Machine(4, [v, 0], [], 98), Machine(5, [], store, 96),
      Machine(7, [1], store, 95), Machine(9, [1, 0], store, 94)];
    forall o ensures Turn(f, ms[0], o) == Next(ms[1]) { PushesByte(f, ms[0], o, v); }
    forall o ensures Turn(f, ms[1], o) == Next(ms[2]) { PushesByte(f, ms[1], o, 0); }
    forall o ensures Turn(f, ms[2], o) == Next(ms[3]) {
      assert ms[2].data == [] + [v as int, 0];
      StoreByte(f, ms[2], o, [], v, 0);
    }
    forall o ensures Turn(f, ms[3], o) == Next(ms[4]) { PushesByte(f, ms[3], o, 1); }
    forall o ensures Turn(f, ms[4], o) == Next(ms[5]) { PushesByte(f, ms[4], o, 0); }
    forall o ensures Turn(f, ms[5], o) == Halted([v], 93) {
      assert ms[5].data == [] + [1, 0];
      RoomKept(store, 1);
      Return(f, ms[5], o, [], 1, 0);
      assert store[0..1] == [v];
    }
    RunsTo(f, ms, [v], 93, e);
  }

  lemma PushesByte(f: Frame, m: Machine, o: Oracle, v: byte)
    requires Reads(f, m, 0x60) && m.pc + 2 <= |f.code| < TWO63 && f.code[m.pc + 1] == v && m.gas >= 1
    ensures Turn(f, m, o) == Next(Machine(m.pc + 2, m.data + [v], m.store, m.gas - 1))
  {
    hide Turn, Num;
    ByteNum(v);
    assert f.code[m.pc + 1..m.pc + 2] == [v];
    Push(f, m, o, 1);
  }

  lemma Rooms32()
    ensures WithRoom([], 1) == seq(32, _ => 0) && RoomFee([], 1) == 1
  {
  }

  lemma RoomKept(store: Bytes, end: nat)
    requires Ceiling(end) <= |store|
    ensures WithRoom(store, end) == store && RoomFee(store, end) == 0
  {
  }
}
