/**
 * The virtual machine of ethvm. One turn of its loop is a function of the machine and of what it gets from outside;
 * a run is a history of such turns, with the histories of the frames it called. The loop itself, on the stack, memory
 * and closure objects that it changes, is proved to make such a history and to end.
 */
module Vm {
  import opened Bytes
  import opened Options

  const TWO256 := 0x1_0000000000000000_0000000000000000_0000000000000000_0000000000000000
  /** Sums up to here are exact as uint64, int64 and float64. */
  const EXACT := 0x20_0000_0000_0000

  // ----------------------------------------------------------- machine words

  /** big.Int.Uint64: the low 64 bits of the magnitude. */
  function U64(x: int): nat {
    Abs(x) % TWO64
  }

  function Signed(n: nat): int {
    if n % TWO64 < TWO63 then n % TWO64 else n % TWO64 - TWO64
  }

  /** big.Int.Int64: the same bits, negated for a negative number. */
  function I64(x: int): int {
    if x >= 0 then Signed(U64(x)) else Signed(TWO64 - U64(x))
  }

  /** int64 addition. */
  function Add64(a: int, b: int): int {
    Signed((a + b) % TWO64)
  }

  lemma SmallWords(x: int)
    requires 0 <= x < TWO63
    ensures U64(x) == x && I64(x) == x && Signed(x % TWO64) == x
  {
  }

  lemma I64Mod(x: int)
    ensures I64(x) == Signed(x % TWO64)
  {
  }

  /** ensure256: the low 256 bits, of negative numbers too. */
  function Mask(x: int): nat {
    x % TWO256
  }

  function Power(b: int, e: nat): int {
    if e == 0 then 1 else b * Power(b, e - 1)
  }

  /** Magnitude in two's complement: 0 for 0 and for -1. */
  function Weight(x: int): nat {
    if x >= 0 then x else -x - 1
  }

  datatype Gate = And | Or | Xor

  function Bit(g: Gate, x: int, y: int): int {
    match g
    case And => if x == 1 && y == 1 then 1 else 0
    case Or => if x == 1 || y == 1 then 1 else 0
    case Xor => if x != y then 1 else 0
  }

  /** big.Int's And, Or and Xor, which see negative numbers in two's complement. */
  function Bits(g: Gate, x: int, y: int): int
    decreases Weight(x) + Weight(y)
  {
    if Weight(x) == 0 && Weight(y) == 0 then -Bit(g, -x, -y)
    else 2 * Bits(g, x / 2, y / 2) + Bit(g, x % 2, y % 2)
  }

  // ----------------------------------------------------------------- opcodes

  const STOP: byte := 0x00
  const SHA3: byte := 0x20
  const BALANCE: byte := 0x31
  const CALLDATALOAD: byte := 0x35
  const CALLDATACOPY: byte := 0x37
  const CODECOPY: byte := 0x39
  const MLOAD: byte := 0x53
  const MSTORE: byte := 0x54
  const MSTORE8: byte := 0x55
  const SLOAD: byte := 0x56
  const SSTORE: byte := 0x57
  const JUMP: byte := 0x58
  const JUMPI: byte := 0x59
  const PUSH1: byte := 0x60
  const PUSH32: byte := 0x7f
  const DUP1: byte := 0x80
  const DUP16: byte := 0x8f
  const SWAP1: byte := 0x90
  const SWAP16: byte := 0x9f
  const CREATE: byte := 0xf0
  const CALL: byte := 0xf1
  const RETURN: byte := 0xf2
  const LOG: byte := 0xfe
  const SUICIDE: byte := 0xff

  /** How many words an operation that only computes takes and gives. */
  datatype Shape = Shape(pops: nat, pushes: nat) | Other

  function ShapeOf(op: byte): Shape {
    if 0x01 <= op <= 0x08 || 0x0a <= op <= 0x0e || 0x10 <= op <= 0x13 then Shape(2, 1)
    else if op == 0x09 || op == 0x0f || op == BALANCE || op == CALLDATALOAD || op == SLOAD then Shape(1, 1)
    else if op == 0x14 || op == 0x15 then Shape(3, 1)
    else if op == CALLDATACOPY || op == CODECOPY then Other
    else if 0x30 <= op <= 0x3a || 0x40 <= op <= 0x45 || 0x5a <= op <= 0x5c then Shape(0, 1)
    else if op == 0x50 then Shape(1, 0)
    else if op == LOG then Shape(0, 0)
    else Other
  }

  // ------------------------------------------------------------- the machine

  /** The code of a closure, what its slice could be extended to, and its arguments. */
  datatype Frame = Frame(code: Bytes, spare: Bytes, args: Bytes)

  /** A position, the stack with its top last, memory, and the gas held. */
  datatype Machine = Machine(pc: int, data: seq<int>, store: Bytes, gas: int)

  /**
   * What a turn gets from outside: a value (of the environment, the world state, a hash or a new address), the
   * rounded maximum of two large numbers, whether the account can pay, and the code of the account that is called.
   */
  datatype Oracle = Oracle(value: int, rounded: nat, funds: bool, code: Bytes, spare: Bytes)

  /**
   * Closure.Get: the opcode at a position, 0 past the end and for code of a single byte; -1 for a position that
   * reads as negative, where slicing panics.
   */
  function Fetch(f: Frame, pc: int): (op: int)
    ensures -1 <= op < 256
    ensures op > 0 ==> 0 <= I64(pc) < |f.code|
  {
    if I64(pc) >= |f.code| || 1 >= |f.code| then 0
    else if I64(pc) < 0 then -1
    else f.code[I64(pc)]
  }

  /** Closure.Gets for the bytes of a PUSH: a slice may reach past the code as far as its capacity goes. */
  function Pushed(f: Frame, pc: int, a: nat): Option<int> {
    var x, whole := I64(pc + 1), f.code + f.spare;
    if x >= |f.code| || a >= |f.code| then Some(0)
    else if 0 <= x && x + a <= |whole| then Some(Num(whole[x..x + a]))
    else None
  }

  // ------------------------------------------------------------------ memory

  /** A stretch of memory that an operation reads or writes. */
  datatype Region = Region(offset: int, size: int)

  function Resized(store: Bytes, size: nat): (r: Bytes)
    ensures store <= r && |r| == Max(|store|, size)
  {
    if |store| < size then store + Zeros(size - |store|) else store
  }

  function Max(a: int, b: int): int {
    if a > b then a else b
  }

  /** Memory.Set grows the store when the end lies past it, then copies; it fails as the slice expression does. */
  function MemSet(store: Bytes, offset: int, size: int, value: Bytes): (r: Option<Bytes>)
    ensures r.Some? ==> |r.value| == Max(|store|, Add64(offset, size))
  {
    var end := Add64(offset, size);
    if !(0 <= offset <= end) then None
    else
      var grown := Resized(store, end);
      var n := if |value| < end - offset then |value| else end - offset;
      Some(grown[..offset] + value[..n] + grown[offset + n..])
  }

  /** Memory.Get: the bytes of a stretch as far as the store goes. */
  function MemGet(store: Bytes, offset: int, size: int): Option<Bytes> {
    if |store| <= offset then Some([])
    else
      var end := if Add64(offset, size) > |store| then |store| else Add64(offset, size);
      if 0 <= offset <= end then Some(store[offset..end]) else None
  }

  // -------------------------------------------------------------------- fees

  const GAS_STEP := 1
  const GAS_SHA := 20
  const GAS_SLOAD := 20
  const GAS_SSTORE := 100
  const GAS_BALANCE := 20
  const GAS_CREATE := 100
  const GAS_CALL := 20
  const GAS_MEMORY := 1

  /** Operands that the pricing of an operation looks at. */
  function Needs(op: byte): nat {
    if op == MLOAD then 1
    else if op in {MSTORE, MSTORE8, RETURN, SHA3, SSTORE} then 2
    else if op in {CALLDATACOPY, CODECOPY, CREATE} then 3
    else if op == CALL then 7
    else 0
  }

  /** The memory an operation touches. */
  function Touched(op: byte, data: seq<int>): seq<Region>
    requires |data| >= Needs(op)
  {
    var n := |data|;
    if op == MSTORE || op == MLOAD then [Region(data[n - 1], 32)]
    else if op == MSTORE8 then [Region(data[n - 1], 1)]
    else if op == RETURN || op == SHA3 then [Region(data[n - 1], data[n - 2])]
    else if op == CALLDATACOPY || op == CODECOPY then [Region(data[n - 1], data[n - 3])]
    else if op == CALL then [Region(data[n - 6], data[n - 7]), Region(data[n - 4], data[n - 5])]
    else if op == CREATE then [Region(data[n - 2], data[n - 3])]
    else []
  }

  function End(r: Region): nat {
    (U64(r.offset) + U64(r.size)) % TWO64
  }

  /** math.Max over float64: exact for small arguments, otherwise some rounded value. */
  function FloatMax(x: nat, y: nat, rounded: nat): nat {
    if x <= EXACT && y <= EXACT then Max(x, y) else rounded % TWO64
  }

  function Wanted(regions: seq<Region>, rounded: nat): nat {
    if |regions| == 2 then FloatMax(End(regions[0]), End(regions[1]), rounded)
    else if |regions| == 1 then End(regions[0])
    else 0
  }

  /** newMemSize, in whole words of 32 bytes. */
  function Size(regions: seq<Region>, rounded: nat): nat {
    (Wanted(regions, rounded) + 31) % TWO64 / 32 * 32
  }

  function Words(size: nat, len: nat): nat {
    if size > len then GAS_MEMORY * (size - len) / 32 else 0
  }

  /** The fee of one turn apart from memory. */
  function BaseFee(op: byte, data: seq<int>, stored: int): nat
    requires |data| >= Needs(op)
  {
    if op == STOP || op == SUICIDE then 0
    else if op == SLOAD then GAS_SLOAD
    else if op == SSTORE then
      var y := data[|data| - 2];
      var mult := if stored == 0 && y != 0 then 2 else if stored != 0 && y == 0 then 0 else 1;
      mult * GAS_SSTORE
    else if op == BALANCE then GAS_BALANCE
    else if op == SHA3 then GAS_SHA
    else if op == CALL then GAS_CALL
    else if op == CREATE then GAS_CREATE
    else GAS_STEP
  }

  function Pos(x: int): nat {
    if x < 0 then 0 else x
  }

  /** The gas a CALL asks to hand on. */
  function Ask(op: byte, data: seq<int>): int
    requires |data| >= Needs(op)
  {
    if op == CALL then data[|data| - 1] else 0
  }

  /** What a turn is charged: its own fee, memory by the word, and the gas a CALL hands on, if that is not negative. */
  datatype Bill = Bill(base: nat, words: nat, ask: int, size: nat)

  function Total(b: Bill): nat {
    b.base + b.words + Pos(b.ask)
  }

  function Price(m: Machine, op: byte, o: Oracle): Bill
    requires |m.data| >= Needs(op)
  {
    var size := Size(Touched(op, m.data), o.rounded);
    Bill(BaseFee(op, m.data, o.value), Words(size, |m.store|), Ask(op, m.data), size)
  }

  // ---------------------------------------------------------- the operations

  /** What an operation does to a machine that has paid for it: go on, stop with output, or panic. */
  datatype Effect = Go(pc: int, data: seq<int>, store: Bytes) | Stop(ret: Bytes) | Crash

  function Flag(b: bool): int {
    if b then 1 else 0
  }

  /** The word an operation pushes from two operands, x below y; none where big.Int panics. */
  function Binary(op: byte, x: int, y: int): Option<int> {
    match op
    case 0x01 => Some(Mask(y + x))
    case 0x02 => Some(Mask(y * x))
    case 0x03 => Some(Mask(y - x))
    case 0x04 => Some(if x == 0 then 0 else Mask(y / x))
    case 0x05 => Some(if x == 0 then 0 else Mask(y / x))
    case 0x06 => if x == 0 then None else Some(Mask(y % x))
    case 0x07 => if x == 0 then None else Some(Mask(y % x))
    case 0x08 => Some(if x <= 0 then 1 else Mask(Power(y, x)))
    case 0x0a => Some(Flag(y < x))
    case 0x0b => Some(Flag(y > x))
    case 0x0c => Some(Flag(y < x))
    case 0x0d => Some(Flag(y > x))
    case 0x0e => Some(Flag(x == y))
    case 0x10 => Some(Bits(And, y, x))
    case 0x11 => Some(Bits(Or, y, x))
    case 0x12 => Some(Bits(Xor, y, x))
    case _ => ByteOf(x, y)
  }

  /** BYTE: an index past the number's own bytes gives 0; one that reads as negative panics. */
  function ByteOf(val: int, th: int): Option<int> {
    var own := BigBytes(Abs(val));
    if th < 32 && th < |own| then
      var padded := LeftPad(own, 32);
      if 0 <= I64(th) < |padded| then Some(padded[I64(th)]) else None
    else Some(0)
  }

  /** CALLDATALOAD: 32 bytes of the arguments, filled up with zeros. */
  function LoadArgs(args: Bytes, offset: int): Option<int> {
    if |args| < offset then Some(0)
    else
      var lo, hi := I64(offset), I64(if offset + 32 < |args| then offset + 32 else |args|);
      if 0 <= lo <= hi <= |args| then Some(Num((args[lo..hi] + Zeros(32))[..32])) else None
  }

  function Compute(f: Frame, m: Machine, op: byte, o: Oracle): Option<int>
    requires ShapeOf(op).Shape? && |m.data| >= ShapeOf(op).pops
  {
    var n := |m.data|;
    match ShapeOf(op).pops
    case 3 =>
      var x, y, z := m.data[n - 1], m.data[n - 2], m.data[n - 3];
      if z == 0 then None else Some(Mask((if op == 0x14 then x + y else x * y) % z))
    case 2 => Binary(op, m.data[n - 2], m.data[n - 1])
    case 1 =>
      if op == 0x09 then Some(TWO256 - m.data[n - 1])
      else if op == 0x0f then Some(Flag(m.data[n - 1] <= 0))
      else if op == CALLDATALOAD then LoadArgs(f.args, m.data[n - 1])
      else Some(o.value)
    case _ =>
      if op == 0x36 then Some(|f.args|)
      else if op == 0x38 then Some(|f.code|)
      else if op == 0x45 then Some(0)
      else if op == 0x5a then Some(m.pc)
      else if op == 0x5b then Some(|m.store|)
      else if op == 0x5c then Some(m.gas)
      else Some(o.value)
  }

  function Top(data: seq<int>, k: nat): int
    requires 1 <= k <= |data|
  {
    data[|data| - k]
  }

  /** Operations that compute, and those on the stack. */
  function DoPlain(f: Frame, m: Machine, op: byte, o: Oracle): Effect {
    var shape, n := ShapeOf(op), |m.data|;
    if shape.Shape? then
      if n < shape.pops then Crash
      else
        match Compute(f, m, op, o)
        case None => Crash
        case Some(v) => Go(m.pc + 1, m.data[..n - shape.pops] + (if shape.pushes == 1 then [v] else []), m.store)
    else if PUSH1 <= op <= PUSH32 then
      match Pushed(f, m.pc, op - PUSH1 + 1)
      case None => Crash
      case Some(v) => Go(m.pc + 1 + (op - PUSH1 + 1), m.data + [v], m.store)
    else if DUP1 <= op <= DUP16 then
      if op - DUP1 + 1 < n then Go(m.pc + 1, m.data + [m.data[op - DUP1 + 1]], m.store) else Crash
    else if SWAP1 <= op <= SWAP16 then
      var k := op - SWAP1 + 1;
      if k < n then Go(m.pc + 1, m.data[k := m.data[0]][0 := m.data[k]], m.store) else Crash
    else Crash
  }

  /** Operations on memory. */
  function DoMemory(f: Frame, m: Machine, op: byte, o: Oracle): Effect
    requires op in {MLOAD, MSTORE, MSTORE8, SHA3, CALLDATACOPY, CODECOPY, RETURN} && |m.data| >= Needs(op)
  {
    var n := |m.data|;
    if op == MLOAD then
      match MemGet(m.store, I64(m.data[n - 1]), 32)
      case None => Crash
      case Some(b) => Go(m.pc + 1, m.data[..n - 1] + [Num(b)], m.store)
    else if op == SHA3 then
      match MemGet(m.store, I64(m.data[n - 1]), I64(m.data[n - 2]))
      case None => Crash
      case Some(b) => Go(m.pc + 1, m.data[..n - 2] + [o.value], m.store)
    else if op == RETURN then
      match MemGet(m.store, I64(m.data[n - 1]), I64(m.data[n - 2]))
      case None => Crash
      case Some(b) => Stop(b)
    else if op == MSTORE then
      Stored(m, n - 2, MemSet(m.store, I64(m.data[n - 1]), 32, LeftPad(BigBytes(Abs(m.data[n - 2])), 32)))
    else if op == MSTORE8 then
      var i := I64(m.data[n - 1]);
      Stored(m, n - 2, if 0 <= i < |m.store| then Some(m.store[i := I64(m.data[n - 2]) % 256]) else None)
    else
      Stored(m, n - 3, Copied(m.store, if op == CODECOPY then f.code else f.args, m.data[n - 1], I64(m.data[n - 2]), I64(m.data[n - 3])))
  }

  function Stored(m: Machine, n: nat, store: Option<Bytes>): Effect
    requires n <= |m.data|
  {
    if store.Some? then Go(m.pc + 1, m.data[..n], store.value) else Crash
  }

  /** CALLDATACOPY and CODECOPY: a stretch that is not wholly inside the source copies nothing. */
  function Copied(store: Bytes, source: Bytes, mOff: int, cOff: int, l: int): Option<Bytes> {
    var from := if cOff > |source| then 0 else cOff;
    var n := if cOff > |source| || Add64(cOff, l) > |source| then 0 else l;
    if 0 <= from <= Add64(from, n) <= |source| then MemSet(store, I64(mOff), n, source[from..Add64(from, n)]) else None
  }

  /** The second switch, without CALL and CREATE. */
  function Perform(f: Frame, m: Machine, op: byte, o: Oracle): Effect
    requires |m.data| >= Needs(op)
  {
    var n := |m.data|;
    if op == STOP then Stop([])
    else if op == SUICIDE then if n < 1 then Crash else Stop([])
    else if op in {MLOAD, MSTORE, MSTORE8, SHA3, CALLDATACOPY, CODECOPY, RETURN} then DoMemory(f, m, op, o)
    else if op == SSTORE then Go(m.pc + 1, m.data[..n - 2], m.store)
    else if op == JUMP then if n < 1 then Crash else Go(m.data[n - 1], m.data[..n - 1], m.store)
    else if op == JUMPI then
      if n < 2 then Crash
      else Go(if m.data[n - 2] >= 1 then m.data[n - 1] else m.pc + 1, m.data[..n - 2], m.store)
    else DoPlain(f, m, op, o)
  }

  // ---------------------------------------------------------------- one turn

  /** What becomes of a nested frame's output: stored at a place, or the code of a new account. */
  datatype Use = Into(offset: int, size: int) | Account(addr: int)

  /**
   * How a turn ends: the frame goes on, halts with output, fails by error or panic, cannot pay and forfeits its gas,
   * or enters another frame with some gas, to go on from `rest` afterwards.
   */
  datatype Verdict =
    | Next(m: Machine)
    | Halted(ret: Bytes, gas: int)
    | Failed(gas: int)
    | Starved(fee: nat)
    | Enter(frame: Frame, ask: int, rest: Machine, use: Use)

  /** CALL once it is paid for. */
  function DoCall(m: Machine, o: Oracle): Verdict
    requires |m.data| >= 7
  {
    var n := |m.data|;
    var ask, rest := m.data[n - 1], m.data[..n - 7];
    match MemGet(m.store, I64(m.data[n - 4]), I64(m.data[n - 5]))
    case None => Failed(m.gas)
    case Some(args) =>
      if !o.funds then Next(Machine(m.pc + 1, rest + [0], m.store, m.gas + ask))
      else Enter(Frame(o.code, o.spare, args), ask, Machine(m.pc + 1, rest, m.store, m.gas), Into(m.data[n - 6], m.data[n - 7]))
  }

  /** CREATE once it is paid for: the new frame gets all that is left. */
  function DoCreate(m: Machine, o: Oracle): Verdict
    requires |m.data| >= 3
  {
    var n := |m.data|;
    var rest := m.data[..n - 3];
    if !o.funds then Next(Machine(m.pc + 1, rest + [0], m.store, m.gas))
    else
      match MemGet(m.store, I64(m.data[n - 2]), I64(m.data[n - 3]))
      case None => Failed(m.gas)
      case Some(code) => Enter(Frame(code, o.spare, []), m.gas, Machine(m.pc + 1, rest, m.store, 0), Account(o.value))
  }

  function Paid(m: Machine, b: Bill): Machine {
    m.(gas := m.gas - Total(b), store := Resized(m.store, b.size))
  }

  /** One turn of the loop: price the operation, charge it, make room, and do it. */
  function Turn(f: Frame, m: Machine, o: Oracle): Verdict {
    var op := Fetch(f, m.pc);
    if op < 0 || |m.data| < Needs(op) then Failed(m.gas)
    else
      var bill := Price(m, op, o);
      if m.gas < Total(bill) then Starved(Total(bill))
      else
        var paid := Paid(m, bill);
        if op == CALL then DoCall(paid, o)
        else if op == CREATE then DoCreate(paid, o)
        else
          match Perform(f, paid, op, o)
          case Go(pc, data, store) => Next(Machine(pc, data, store, paid.gas))
          case Stop(ret) => Halted(ret, paid.gas)
          case Crash => Failed(paid.gas)
  }

  /** What a frame leaves: its output, whether it failed, and the gas that goes back. */
  datatype Result = Result(ret: Bytes, failed: bool, gas: int)

  /** The rest of a CALL or CREATE, when its frame has ended. */
  function Resume(v: Verdict, r: Result): Verdict
    requires v.Enter?
  {
    var m := v.rest.(gas := v.rest.gas + r.gas);
    match v.use
    case Account(addr) => Next(m.(data := m.data + [if r.failed then 0 else addr]))
    case Into(offset, size) =>
      if r.failed then Next(m.(data := m.data + [0]))
      else
        match MemSet(m.store, I64(offset), I64(size), r.ret)
        case None => Failed(m.gas)
        case Some(store) => Next(m.(data := m.data + [1], store := store))
  }

  // ------------------------------------------------------------------- runs

  /** A frame so far: the turns it took, with the frames they entered. */
  datatype History =
    | Start(frame: Frame, gas: int)
    | Then(prev: History, o: Oracle)
    | Over(prev: History, o: Oracle, child: Ended)

  /** A frame that has ended: for want of code, by its own last turn, or when a call's output could not be stored. */
  datatype Ended =
    | NoCode(frame: Frame, gas: int)
    | Last(h: History, o: Oracle)
    | Cut(h: History, o: Oracle, child: Ended)

  ghost function FrameOf(h: History): Frame {
    if h.Start? then h.frame else FrameOf(h.prev)
  }

  ghost function Bought(h: History): int {
    if h.Start? then h.gas else Bought(h.prev)
  }

  ghost function FrameIn(e: Ended): Frame {
    if e.NoCode? then e.frame else FrameOf(e.h)
  }

  ghost function GasIn(e: Ended): int {
    if e.NoCode? then e.gas else Bought(e.h)
  }

  /** The verdict of the turn after a history. */
  ghost function Now(h: History): Machine
    decreases h, 0
  {
    match h
    case Start(_, gas) => Machine(0, [], [], gas)
    case Then(p, o) => var v := Turn(FrameOf(p), Now(p), o); if v.Next? then v.m else Now(p)
    case Over(p, o, child) =>
      var v := Turn(FrameOf(p), Now(p), o);
      if v.Enter? && Resume(v, Outcome(child)).Next? then Resume(v, Outcome(child)).m else Now(p)
  }

  ghost function Outcome(e: Ended): Result
    decreases e, 0
  {
    match e
    case NoCode(_, gas) => Result([], false, gas)
    case Last(h, o) => (
      match Turn(FrameOf(h), Now(h), o)
      case Halted(ret, gas) => Result(ret, false, gas)
      case Failed(gas) => Result([], true, gas)
      case _ => Result([], true, 0)
    )
    case Cut(h, o, child) =>
      var v := Turn(FrameOf(h), Now(h), o);
      if v.Enter? && Resume(v, Outcome(child)).Failed? then Result([], true, Resume(v, Outcome(child)).gas) else Result([], true, 0)
  }

  /** The frame that a turn entered, run to its end. */
  ghost predicate Entered(v: Verdict, child: Ended) {
    v.Enter? && FrameIn(child) == v.frame && GasIn(child) == v.ask
  }

  /** Every turn of the history is one the machine takes, down through the frames it entered. */
  ghost predicate Lawful(h: History)
    decreases h, 0
  {
    match h
    case Start(f, _) => f.code != []
    case Then(p, o) => Lawful(p) && Turn(FrameOf(p), Now(p), o).Next?
    case Over(p, o, child) =>
      var v := Turn(FrameOf(p), Now(p), o);
      Lawful(p) && LawfulEnd(child) && Entered(v, child) && Resume(v, Outcome(child)).Next?
  }

  ghost predicate LawfulEnd(e: Ended)
    decreases e, 0
  {
    match e
    case NoCode(f, _) => f.code == []
    case Last(h, o) => Lawful(h) && var v := Turn(FrameOf(h), Now(h), o); v.Halted? || v.Failed? || v.Starved?
    case Cut(h, o, child) =>
      var v := Turn(FrameOf(h), Now(h), o);
      Lawful(h) && LawfulEnd(child) && Entered(v, child) && Resume(v, Outcome(child)).Failed?
  }

  // ----------------------------------------------------------- gas over a run

  /** The turn knows its operation and operands, and can pay. */
  predicate Paying(f: Frame, m: Machine, o: Oracle) {
    var op := Fetch(f, m.pc);
    op >= 0 && |m.data| >= Needs(op) && m.gas >= Total(Price(m, op, o))
  }

  /** A turn's own fee. */
  function Fee(f: Frame, m: Machine, o: Oracle): nat {
    if Paying(f, m, o) then var b := Price(m, Fetch(f, m.pc), o); b.base + b.words else 0
  }

  /**
   * What else a turn burns: all the gas of a frame that cannot pay, the gas charged for a call that panics before
   * it is made, and the shortfall of a call that asks for negative gas.
   */
  function Loss(f: Frame, m: Machine, o: Oracle): int {
    var op := Fetch(f, m.pc);
    if op < 0 || |m.data| < Needs(op) then 0
    else if !Paying(f, m, o) then m.gas
    else if Turn(f, m, o).Failed? then Pos(Ask(op, m.data))
    else Pos(-Ask(op, m.data))
  }

  /** Everything that the turns of a history, and of the frames it entered, burnt. */
  ghost function Burnt(h: History): int
    decreases h, 1
  {
    match h
    case Start(_, _) => 0
    case Then(p, o) => Burnt(p) + Fee(FrameOf(p), Now(p), o) + Loss(FrameOf(p), Now(p), o)
    case Over(p, o, child) => Burnt(p) + Fee(FrameOf(p), Now(p), o) + Loss(FrameOf(p), Now(p), o) + BurntIn(child)
  }

  ghost function BurntIn(e: Ended): int
    decreases e, 1
  {
    match e
    case NoCode(_, _) => 0
    case Last(h, o) => Burnt(h) + Fee(FrameOf(h), Now(h), o) + Loss(FrameOf(h), Now(h), o)
    case Cut(h, o, child) => Burnt(h) + Fee(FrameOf(h), Now(h), o) + Loss(FrameOf(h), Now(h), o) + BurntIn(child)
  }

  /** Fees alone, and the turns that paid one. */
  ghost function Fees(h: History): nat
    decreases h, 1
  {
    match h
    case Start(_, _) => 0
    case Then(p, o) => Fees(p) + Fee(FrameOf(p), Now(p), o)
    case Over(p, o, child) => Fees(p) + Fee(FrameOf(p), Now(p), o) + FeesIn(child)
  }

  ghost function FeesIn(e: Ended): nat
    decreases e, 1
  {
    match e
    case NoCode(_, _) => 0
    case Last(h, o) => Fees(h) + Fee(FrameOf(h), Now(h), o)
    case Cut(h, o, child) => Fees(h) + Fee(FrameOf(h), Now(h), o) + FeesIn(child)
  }

  /** Fees and gas of one turn: what the frame held is what it or the frame it enters holds now, and what is burnt. */
  lemma TurnBalance(f: Frame, m: Machine, o: Oracle)
    ensures var burnt := Fee(f, m, o) + Loss(f, m, o);
      match Turn(f, m, o)
      case Next(m') => m.gas == m'.gas + burnt
      case Halted(_, gas) => m.gas == gas + burnt
      case Failed(gas) => m.gas == gas + burnt
      case Starved(_) => m.gas == burnt
      case Enter(_, ask, rest, _) => m.gas == rest.gas + ask + burnt
  {
    hide Perform, MemGet, Price, BaseFee, Resized;
    var op := Fetch(f, m.pc);
    if op >= 0 && |m.data| >= Needs(op) {
      var b := Price(m, op, o);
      assert b.ask == Ask(op, m.data) by { PriceAsk(m, op, o); }
    }
  }

  lemma PriceAsk(m: Machine, op: byte, o: Oracle)
    requires |m.data| >= Needs(op)
    ensures Price(m, op, o).ask == Ask(op, m.data)
    ensures op in {CALL, CREATE} ==> Price(m, op, o).base >= 20
  {
  }

  /** A turn's fee comes out of the gas held, and a frame it enters gets none of it. */
  lemma TurnFees(f: Frame, m: Machine, o: Oracle)
    ensures match Turn(f, m, o)
      case Next(m') => Fee(f, m, o) + Pos(m'.gas) <= Pos(m.gas)
      case Halted(_, gas) => Fee(f, m, o) + Pos(gas) <= Pos(m.gas)
      case Failed(gas) => Fee(f, m, o) + Pos(gas) <= Pos(m.gas)
      case Starved(fee) => Fee(f, m, o) == 0 && m.gas < fee
      case Enter(_, ask, rest, _) => rest.gas >= 0 && Fee(f, m, o) >= 20 && Fee(f, m, o) + rest.gas + Pos(ask) == m.gas
  {
    hide Perform, MemGet, Price, BaseFee, Resized;
    var op := Fetch(f, m.pc);
    if op >= 0 && |m.data| >= Needs(op) { PriceAsk(m, op, o); }
  }

  lemma ResumeGas(v: Verdict, r: Result)
    requires v.Enter?
    ensures Resume(v, r).Next? || Resume(v, r).Failed?
    ensures Resume(v, r).Next? ==> Resume(v, r).m.gas == v.rest.gas + r.gas
    ensures Resume(v, r).Failed? ==> Resume(v, r).gas == v.rest.gas + r.gas
  {
    hide MemSet;
  }

  /** Gas is only moved or burnt: over a frame and all it entered, what was bought is what is left and what is burnt. */
  lemma {:induction false} GasConserved(e: Ended)
    requires LawfulEnd(e)
    ensures GasIn(e) == Outcome(e).gas + BurntIn(e)
    decreases e, 0
  {
    hide Turn, Fee, Loss, Resume;
    match e {
      case NoCode(_, _) =>
      case Last(h, o) =>
        GasSoFar(h);
        TurnBalance(FrameOf(h), Now(h), o);
      case Cut(h, o, child) =>
        GasSoFar(h);
        GasConserved(child);
        TurnBalance(FrameOf(h), Now(h), o);
        ResumeGas(Turn(FrameOf(h), Now(h), o), Outcome(child));
    }
  }

  lemma {:induction false} GasSoFar(h: History)
    requires Lawful(h)
    ensures Bought(h) == Now(h).gas + Burnt(h)
    decreases h, 0
  {
    hide Turn, Fee, Loss, Resume;
    match h {
      case Start(_, _) =>
      case Then(p, o) =>
        GasSoFar(p);
        TurnBalance(FrameOf(p), Now(p), o);
      case Over(p, o, child) =>
        GasSoFar(p);
        GasConserved(child);
        TurnBalance(FrameOf(p), Now(p), o);
        ResumeGas(Turn(FrameOf(p), Now(p), o), Outcome(child));
    }
  }

  /** Fees come out of the gas bought: a frame and those it entered cannot pay more, nor end with more. */
  lemma {:induction false} FeesBounded(e: Ended)
    requires LawfulEnd(e)
    ensures FeesIn(e) + Pos(Outcome(e).gas) <= Pos(GasIn(e))
    decreases e, 0
  {
    hide Turn, Fee, Resume;
    match e {
      case NoCode(_, _) =>
      case Last(h, o) =>
        FeesSoFar(h);
        TurnFees(FrameOf(h), Now(h), o);
      case Cut(h, o, child) =>
        FeesSoFar(h);
        FeesBounded(child);
        TurnFees(FrameOf(h), Now(h), o);
        ResumeGas(Turn(FrameOf(h), Now(h), o), Outcome(child));
    }
  }

  lemma {:induction false} FeesSoFar(h: History)
    requires Lawful(h)
    ensures Fees(h) + Pos(Now(h).gas) <= Pos(Bought(h))
    decreases h, 0
  {
    hide Turn, Fee, Resume;
    match h {
      case Start(_, _) =>
      case Then(p, o) =>
        FeesSoFar(p);
        TurnFees(FrameOf(p), Now(p), o);
      case Over(p, o, child) =>
        FeesSoFar(p);
        FeesBounded(child);
        TurnFees(FrameOf(p), Now(p), o);
        ResumeGas(Turn(FrameOf(p), Now(p), o), Outcome(child));
    }
  }

  // --------------------------------------------------------- how long a run is

  ghost function PayingTurns(h: History): nat
    decreases h, 1
  {
    match h
    case Start(_, _) => 0
    case Then(p, o) => PayingTurns(p) + (if Fee(FrameOf(p), Now(p), o) > 0 then 1 else 0)
    case Over(p, o, child) => PayingTurns(p) + (if Fee(FrameOf(p), Now(p), o) > 0 then 1 else 0) + PayingIn(child)
  }

  ghost function PayingIn(e: Ended): nat
    decreases e, 1
  {
    match e
    case NoCode(_, _) => 0
    case Last(h, o) => PayingTurns(h) + (if Fee(FrameOf(h), Now(h), o) > 0 then 1 else 0)
    case Cut(h, o, child) => PayingTurns(h) + (if Fee(FrameOf(h), Now(h), o) > 0 then 1 else 0) + PayingIn(child)
  }

  lemma {:induction false} PayingFees(h: History)
    ensures PayingTurns(h) <= Fees(h)
    decreases h, 0
  {
    hide Fee, Now;
    if !h.Start? { PayingFees(h.prev); }
    if h.Over? { PayingFeesIn(h.child); }
  }

  lemma {:induction false} PayingFeesIn(e: Ended)
    ensures PayingIn(e) <= FeesIn(e)
    decreases e, 0
  {
    hide Fee, Now;
    if !e.NoCode? { PayingFees(e.h); }
    if e.Cut? { PayingFeesIn(e.child); }
  }

  /** The turns of a whole call tree that cost anything are no more than the gas it was started with. */
  lemma StepsBounded(e: Ended)
    requires LawfulEnd(e)
    ensures PayingIn(e) <= Pos(GasIn(e))
  {
    PayingFeesIn(e);
    FeesBounded(e);
  }

  /** How much code lies ahead of a position. */
  function Ahead(f: Frame, pc: int): nat {
    if 0 <= I64(pc) < |f.code| then |f.code| - I64(pc) else 0
  }

  /** A turn after which the frame goes on costs gas, or is a storage write that clears a cell and moves on by one. */
  lemma Progress(f: Frame, m: Machine, o: Oracle)
    ensures Turn(f, m, o).Next? ==>
      var m' := Turn(f, m, o).m;
      Pos(m'.gas) < Pos(m.gas) || (m'.gas == m.gas && Fetch(f, m.pc) == SSTORE && Ahead(f, m'.pc) < Ahead(f, m.pc))
    ensures Turn(f, m, o).Enter? ==> Turn(f, m, o).rest.gas >= 0 && Pos(Turn(f, m, o).ask) + Turn(f, m, o).rest.gas + 20 <= m.gas
  {
    hide I64, MemGet, Resized, Size, Words;
    TurnFees(f, m, o);
    if Turn(f, m, o).Next? {
      var op := Fetch(f, m.pc);
      FreeTurns(m, op, o);
      if op == SSTORE { NextPosition(f, m.pc); }
    }
  }

  /** Only halting operations and clearing a storage cell are free. */
  lemma FreeTurns(m: Machine, op: byte, o: Oracle)
    requires |m.data| >= Needs(op)
    ensures Price(m, op, o).base == 0 <==> op == STOP || op == SUICIDE || (op == SSTORE && o.value != 0 && Top(m.data, 2) == 0)
  {
    hide Size, Words, Touched;
  }

  /** Where the code is read moves on with the position, whatever the position's sign, or wraps out of it. */
  lemma NextPosition(f: Frame, pc: int)
    requires 0 <= I64(pc) < |f.code|
    ensures Ahead(f, pc + 1) < Ahead(f, pc)
  {
    hide I64;
    I64Mod(pc);
    I64Mod(pc + 1);
    var r := pc % TWO64;
    assert r < TWO63;
    assert pc + 1 == (pc / TWO64) * TWO64 + (r + 1);
    assert (pc + 1) % TWO64 == r + 1;
  }

  /** The turns a frame itself has taken. */
  ghost function Turns(h: History): nat {
    if h.Start? then 0 else 1 + Turns(h.prev)
  }

  /** Between two turns that cost gas a frame can only walk forward through its code, so gas bounds its turns too. */
  lemma {:induction false} TurnsBounded(h: History)
    requires Lawful(h)
    ensures var n := |FrameOf(h).code| + 1; Turns(h) + Pos(Now(h).gas) * n + Ahead(FrameOf(h), Now(h).pc) <= (Pos(Bought(h)) + 1) * n
    decreases h
  {
    hide Turn, Resume, I64;
    var f := FrameOf(h);
    var n := |f.code| + 1;
    if h.Start? {
      assert Pos(h.gas) * n + n == (Pos(h.gas) + 1) * n;
    } else {
      TurnsBounded(h.prev);
      var m, m' := Now(h.prev), Now(h);
      Progress(f, m, h.o);
      if h.Over? {
        FeesBounded(h.child);
        ResumeGas(Turn(f, m, h.o), Outcome(h.child));
      }
      Drop(Pos(m.gas), Pos(m'.gas), n);
    }
  }

  lemma Drop(a: nat, b: nat, n: nat)
    ensures b < a ==> b * n + n <= a * n
  {
    if b < a { assert (b + 1) * n <= a * n; }
  }

  /** How deep frames nest. */
  ghost function Depth(h: History): nat
    decreases h, 1
  {
    match h
    case Start(_, _) => 0
    case Then(p, _) => Depth(p)
    case Over(p, _, child) => Max(Depth(p), 1 + DepthIn(child))
  }

  ghost function DepthIn(e: Ended): nat
    decreases e, 1
  {
    match e
    case NoCode(_, _) => 0
    case Last(h, _) => Depth(h)
    case Cut(h, _, child) => Max(Depth(h), 1 + DepthIn(child))
  }

  /** Frames nest at most one level for every twenty units of gas. */
  lemma {:induction false} DepthBounded(e: Ended)
    requires LawfulEnd(e)
    ensures 20 * DepthIn(e) <= Pos(GasIn(e))
    decreases e, 0
  {
    hide Turn, Resume;
    if !e.NoCode? { DepthSoFar(e.h); }
    if e.Cut? {
      DepthBounded(e.child);
      Progress(FrameOf(e.h), Now(e.h), e.o);
      FeesSoFar(e.h);
    }
  }

  lemma {:induction false} DepthSoFar(h: History)
    requires Lawful(h)
    ensures 20 * Depth(h) <= Pos(Bought(h))
    decreases h, 0
  {
    hide Turn, Resume;
    if !h.Start? { DepthSoFar(h.prev); }
    if h.Over? {
      DepthBounded(h.child);
      Progress(FrameOf(h.prev), Now(h.prev), h.o);
      FeesSoFar(h.prev);
    }
  }

  // ------------------------------------------------------- memory over a run

  /** A stretch with small operands, which are read as they are. */
  predicate Exact(r: Region) {
    0 <= r.offset && 0 <= r.size && r.offset + r.size <= EXACT
  }

  predicate AllExact(regions: seq<Region>) {
    forall i :: 0 <= i < |regions| ==> Exact(regions[i])
  }

  predicate Covered(regions: seq<Region>, len: nat) {
    AllExact(regions) && forall i :: 0 <= i < |regions| ==> regions[i].offset + regions[i].size <= len
  }

  lemma EndExact(r: Region)
    requires Exact(r)
    ensures End(r) == r.offset + r.size <= EXACT
  {
    SmallWords(r.offset);
    SmallWords(r.size);
  }

  lemma RoundUp(w: nat)
    requires w <= EXACT
    ensures var s := (w + 31) % TWO64 / 32 * 32; s % 32 == 0 && s >= w
  {
    assert (w + 31) % TWO64 == w + 31;
  }

  /** What memory is resized to holds everything the operation will touch. */
  lemma SizeCovers(op: byte, data: seq<int>, rounded: nat)
    requires |data| >= Needs(op) && AllExact(Touched(op, data))
    ensures Size(Touched(op, data), rounded) % 32 == 0
    ensures Covered(Touched(op, data), Size(Touched(op, data), rounded))
  {
    hide Touched, Needs, End, Exact;
    var regions := Touched(op, data);
    assert |regions| <= 2 by { TouchedTwo(op, data); }
    forall i | 0 <= i < |regions| ensures End(regions[i]) == regions[i].offset + regions[i].size <= EXACT { EndExact(regions[i]); }
    RoundUp(Wanted(regions, rounded));
  }

  lemma TouchedTwo(op: byte, data: seq<int>)
    requires |data| >= Needs(op)
    ensures |Touched(op, data)| <= 2
  {
  }

  /** Paying for the words of an enlargement pays for its length exactly. */
  lemma WordsExact(size: nat, len: nat)
    requires size % 32 == 0 && len % 32 == 0
    ensures Max(len, size) == len + 32 * Words(size, len)
  {
  }

  /** Writing within covered memory puts the value in its place and changes no length. */
  lemma MemSetExact(store: Bytes, r: Region, value: Bytes)
    requires Exact(r) && r.offset + r.size <= |store|
    ensures var s := MemSet(store, I64(r.offset), I64(r.size), value);
      && s.Some? && |s.value| == |store|
      && (|value| == r.size ==> s.value == Overwrite(store, r.offset, value))
  {
    SmallWords(r.offset);
    SmallWords(r.size);
    SmallWords(r.offset + r.size);
  }

  lemma MemGetExact(store: Bytes, r: Region)
    requires Exact(r) && r.offset + r.size <= |store|
    ensures MemGet(store, I64(r.offset), I64(r.size)) == Some(store[r.offset..r.offset + r.size])
  {
    assert |store| <= r.offset ==> store[r.offset..r.offset + r.size] == [];
    SmallWords(r.offset);
    SmallWords(r.size);
    SmallWords(r.offset + r.size);
  }

  /** Memory with a stretch replaced. */
  function Overwrite(store: Bytes, at: nat, value: Bytes): (r: Bytes)
    requires at + |value| <= |store|
    ensures |r| == |store|
  {
    store[..at] + value + store[at + |value|..]
  }

  /** A word that MSTORE stores is the word that MLOAD gives back, and the rest of memory is as it was. */
  lemma StoreThenLoad(f: Frame, m: Machine, at: int, v: nat, o: Oracle)
    requires |m.data| >= 2 && Top(m.data, 1) == at && Top(m.data, 2) == v < Pow256(32)
    requires Exact(Region(at, 32)) && at + 32 <= |m.store|
    ensures var s := DoMemory(f, m, MSTORE, o);
      && s.Go? && |s.store| == |m.store| && s.store[..at] == m.store[..at] && s.store[at + 32..] == m.store[at + 32..]
      && DoMemory(f, Machine(s.pc, s.data + [at], s.store, m.gas), MLOAD, o) == Go(s.pc + 1, s.data + [v], s.store)
  {
    hide DoMemory, Overwrite, LeftPad;
    var w := LeftPad(BigBytes(v), 32);
    WordBack(v);
    WordStored(f, m, at, v, o);
    var store := Overwrite(m.store, at, w);
    OverwriteIs(m.store, at, w);
    var s := DoMemory(f, m, MSTORE, o);
    WordLoaded(f, Machine(s.pc, s.data + [at], store, m.gas), at, o);
  }

  lemma WordStored(f: Frame, m: Machine, at: int, v: nat, o: Oracle)
    requires |m.data| >= 2 && Top(m.data, 1) == at && Top(m.data, 2) == v < Pow256(32)
    requires Exact(Region(at, 32)) && at + 32 <= |m.store|
    ensures var w := LeftPad(BigBytes(v), 32);
      |w| == 32 && DoMemory(f, m, MSTORE, o) == Go(m.pc + 1, m.data[..|m.data| - 2], Overwrite(m.store, at, w))
  {
    hide MemSet, MemGet, I64, LeftPad, Copied, Overwrite;
    WordBack(v);
    MemSetExact(m.store, Region(at, 32), LeftPad(BigBytes(v), 32));
    SmallWords(32);
  }

  lemma WordLoaded(f: Frame, m: Machine, at: int, o: Oracle)
    requires |m.data| >= 1 && Top(m.data, 1) == at && Exact(Region(at, 32)) && at + 32 <= |m.store|
    ensures DoMemory(f, m, MLOAD, o) == Go(m.pc + 1, m.data[..|m.data| - 1] + [Num(m.store[at..at + 32])], m.store)
  {
    hide MemSet, MemGet, I64, LeftPad, Copied;
    MemGetExact(m.store, Region(at, 32));
    SmallWords(32);
  }

  /** A number below 2 to the 256 fills a word that reads as the number. */
  lemma WordBack(v: nat)
    requires v < Pow256(32)
    ensures |LeftPad(BigBytes(v), 32)| == 32 && Num(LeftPad(BigBytes(v), 32)) == v
  {
    hide BigBytes, Num, Pow256, LeftPad;
    BigBytesLength(v, 32);
    Padded(BigBytes(v));
    NumZeros(32 - |BigBytes(v)|, BigBytes(v));
    NumBigBytes(v);
  }

  lemma OverwriteIs(store: Bytes, at: nat, w: Bytes)
    requires at + |w| <= |store|
    ensures var s := Overwrite(store, at, w);
      s[..at] == store[..at] && s[at..at + |w|] == w && s[at + |w|..] == store[at + |w|..]
  {
  }

  lemma Padded(b: Bytes)
    requires |b| <= 32
    ensures LeftPad(b, 32) == Zeros(32 - |b|) + b
  {
  }

  lemma CopiedLength(store: Bytes, source: Bytes, mOff: int, cOff: int, l: int)
    ensures var r := Copied(store, source, mOff, cOff, I64(l));
      r.Some? ==> |r.value| >= |store| && (Covered([Region(mOff, l)], |store|) ==> |r.value| == |store|)
  {
    var t := Region(mOff, l);
    if Covered([t], |store|) {
      assert Exact([t][0]);
      SmallWords(l);
      SmallWords(mOff);
      SmallWords(mOff + l);
    }
  }

  /** Copying within covered memory: exactly the bytes asked for, or nothing when they are not all there. */
  lemma CopiedExact(store: Bytes, source: Bytes, mOff: int, cOff: int, l: int)
    requires Exact(Region(mOff, l)) && mOff + l <= |store| && 0 <= cOff && cOff + l < TWO63
    ensures var portion := if cOff + l <= |source| then source[cOff..cOff + l] else [];
      Copied(store, source, mOff, cOff, I64(l)) == Some(Overwrite(store, mOff, portion))
  {
    hide MemSet;
    SmallWords(l);
    SmallWords(cOff);
    SmallWords(cOff + l);
    SmallWords(0);
    if cOff + l <= |source| {
      MemSetExact(store, Region(mOff, l), source[cOff..cOff + l]);
    } else {
      var from := if cOff > |source| then 0 else cOff;
      SmallWords(from);
      assert source[from..from] == [];
      MemSetExact(store, Region(mOff, 0), []);
    }
  }

  /** Operations other than CALL and CREATE never shrink memory, and within what covers them do not grow it. */
  lemma PerformLength(f: Frame, m: Machine, op: byte, o: Oracle)
    requires |m.data| >= Needs(op)
    ensures var r := Perform(f, m, op, o);
      r.Go? ==> |r.store| >= |m.store| && (Covered(Touched(op, m.data), |m.store|) ==> |r.store| == |m.store|)
  {
    hide I64, MemGet, Binary, Compute, LeftPad, Copied;
    var n := |m.data|;
    if op == MSTORE {
      var t := Region(m.data[n - 1], 32);
      SmallWords(32);
      if Covered([t], |m.store|) {
        assert Exact([t][0]) && [t][0].offset + [t][0].size <= |m.store|;
        MemSetExact(m.store, t, LeftPad(BigBytes(Abs(m.data[n - 2])), 32));
      }
    } else if op == CALLDATACOPY || op == CODECOPY {
      CopiedLength(m.store, if op == CODECOPY then f.code else f.args, m.data[n - 1], I64(m.data[n - 2]), m.data[n - 3]);
    }
  }

  /** The operands of a turn, as far as memory goes, are small. */
  predicate Small(f: Frame, m: Machine) {
    var op := Fetch(f, m.pc);
    op >= 0 && |m.data| >= Needs(op) ==> AllExact(Touched(op, m.data))
  }

  function WordsPaid(f: Frame, m: Machine, o: Oracle): nat {
    if Paying(f, m, o) then Price(m, Fetch(f, m.pc), o).words else 0
  }

  /** The length of memory once a turn has been charged. */
  function Room(f: Frame, m: Machine, o: Oracle): nat {
    if Paying(f, m, o) then Max(|m.store|, Price(m, Fetch(f, m.pc), o).size) else |m.store|
  }

  lemma RoomPaid(f: Frame, m: Machine, o: Oracle)
    requires Small(f, m) && |m.store| % 32 == 0
    ensures Room(f, m, o) == |m.store| + 32 * WordsPaid(f, m, o)
    ensures Paying(f, m, o) ==> Covered(Touched(Fetch(f, m.pc), m.data), Room(f, m, o))
  {
    hide BaseFee, Touched, Size, Words, Fetch, Needs;
    if Paying(f, m, o) {
      var op := Fetch(f, m.pc);
      SizeCovers(op, m.data, o.rounded);
      WordsExact(Size(Touched(op, m.data), o.rounded), |m.store|);
    }
  }

  /** After a turn memory has the length that was paid for; the place for a call's output lies within it. */
  lemma TurnMemory(f: Frame, m: Machine, o: Oracle)
    ensures match Turn(f, m, o)
      case Next(m') => |m'.store| >= |m.store| && (Small(f, m) && |m.store| % 32 == 0 ==> |m'.store| == Room(f, m, o))
      case Enter(_, _, rest, use) =>
        && |rest.store| == Room(f, m, o) >= |m.store|
        && (Small(f, m) && |m.store| % 32 == 0 && use.Into? ==> Covered([Region(use.offset, use.size)], |rest.store|))
      case _ => true
  {
    hide BaseFee, Size, Words, Perform, MemGet, Covered;
    var op := Fetch(f, m.pc);
    if Paying(f, m, o) {
      var paid := Paid(m, Price(m, op, o));
      if op != CALL && op != CREATE { PerformLength(f, paid, op, o); }
      if Small(f, m) && |m.store| % 32 == 0 {
        RoomPaid(f, m, o);
        if op == CALL { CoveredFirst(Touched(op, m.data), Room(f, m, o)); }
      }
    }
  }

  lemma CoveredFirst(regions: seq<Region>, len: nat)
    requires |regions| > 0 && Covered(regions, len)
    ensures Covered([regions[0]], len)
  {
  }

  lemma ResumeMemory(v: Verdict, r: Result)
    requires v.Enter?
    ensures Resume(v, r).Next? ==>
      && |Resume(v, r).m.store| >= |v.rest.store|
      && (v.use.Account? || Covered([Region(v.use.offset, v.use.size)], |v.rest.store|) ==> |Resume(v, r).m.store| == |v.rest.store|)
  {
    if v.use.Into? && Covered([Region(v.use.offset, v.use.size)], |v.rest.store|) {
      var t := Region(v.use.offset, v.use.size);
      assert Exact([t][0]) && [t][0].offset + [t][0].size <= |v.rest.store|;
      MemSetExact(v.rest.store, t, r.ret);
    }
  }

  /** What a frame itself, without those it entered, paid for memory. */
  ghost function MemoryFees(h: History): nat {
    if h.Start? then 0 else MemoryFees(h.prev) + WordsPaid(FrameOf(h.prev), Now(h.prev), h.o)
  }

  ghost predicate AllSmall(h: History) {
    h.Start? || (AllSmall(h.prev) && Small(FrameOf(h.prev), Now(h.prev)))
  }

  /** Memory fees telescope: after turns with small operands, memory is whole words and each has been paid for once. */
  lemma {:induction false} MemoryTelescopes(h: History)
    requires Lawful(h) && AllSmall(h)
    ensures |Now(h).store| % 32 == 0 && MemoryFees(h) == |Now(h).store| / 32
    decreases h
  {
    hide Turn, Resume, WordsPaid, Small, Room;
    if !h.Start? {
      MemoryTelescopes(h.prev);
      var f, m := FrameOf(h.prev), Now(h.prev);
      TurnMemory(f, m, h.o);
      RoomPaid(f, m, h.o);
      if h.Over? { ResumeMemory(Turn(f, m, h.o), Outcome(h.child)); }
    }
  }

  /** The same at the end of a frame: all that it paid for memory is what memory it was given. */
  lemma MemoryPaid(h: History, o: Oracle)
    requires Lawful(h) && AllSmall(h) && Small(FrameOf(h), Now(h))
    ensures var f, m := FrameOf(h), Now(h);
      Room(f, m, o) % 32 == 0 && MemoryFees(h) + WordsPaid(f, m, o) == Room(f, m, o) / 32
  {
    hide WordsPaid, Small, Room, Now, MemoryFees, Lawful, AllSmall;
    MemoryTelescopes(h);
    RoomPaid(FrameOf(h), Now(h), o);
  }

  /** Memory never shrinks. */
  lemma MemoryGrows(h: History)
    requires Lawful(h) && !h.Start?
    ensures |Now(h.prev).store| <= |Now(h).store|
  {
    hide Turn, Resume;
    TurnMemory(FrameOf(h.prev), Now(h.prev), h.o);
    if h.Over? { ResumeMemory(Turn(FrameOf(h.prev), Now(h.prev), h.o), Outcome(h.child)); }
  }
}
