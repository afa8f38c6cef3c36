/** The SafeASM machine as a value: what one instruction does, and what a whole scan does. */
module Machine {
  import opened Bytes
  import opened Results
  import opened SasmFormat
  import opened SasmLoader
  import Bits

  type i32 = x: int | -0x8000_0000 <= x < 0x8000_0000

  const STACK_SIZE := 1024
  const MAX_LABELS := 16

  const VM_OK := 0
  const STACK_OVERFLOW := -1
  const STACK_UNDERFLOW := -2
  const DIV_BY_ZERO := -3
  const UNREACHABLE := -4
  const CYCLE_LIMIT := -5
  const MEM_OUT_OF_BOUNDS := -6
  const INVALID_OPCODE := -7
  const FRAME_OVERFLOW := -8

  const PRINT_PORT: u32 := 0x7FFF_FFF8
  const CHAR_PRINT_PORT: u32 := 0x7FFF_FFF4
  const COUNTER_PRINT_PORT: u32 := 0x7FFF_FFFC

  /** One activation: the function, where it is, its locals, its code and its open labels. */
  datatype Frame = Frame(func: nat, pc: u32, locals: seq<i32>, body: seq<byte>, labels: seq<u32>)

  datatype State = State(stack: seq<i32>, frames: seq<Frame>, memory: seq<byte>, cycles: nat,
                         maxFrames: nat, maxStack: nat, lastError: int)

  /** A scan goes on, ends with a code, or leaves the linear memory (see `InBounds`). */
  datatype Outcome = Next(next: State) | Halt(last: State, code: int) | Stray

  /** The 64-bit and floating-point instructions: opcode, immediates and operands to results;
      None is their division by zero. */
  type Alu = (byte, seq<u32>, seq<i32>) -> Option<seq<i32>>

  // ---------- numbers ----------

  function Wrap(n: int): u32 {
    n % 0x1_0000_0000
  }

  function ToU32(v: i32): u32 {
    Wrap(v)
  }

  function ToI32(n: int): i32 {
    var u := Wrap(n);
    if u >= 0x8000_0000 then u - 0x1_0000_0000 else u
  }

  function Magnitude(n: int): nat {
    if n < 0 then -n else n
  }

  /** Division and remainder round towards zero. */
  function Quotient(a: i32, b: i32): i32
    requires b != 0
  {
    ToI32(if (a < 0) == (b < 0) then Magnitude(a) / Magnitude(b) else -(Magnitude(a) / Magnitude(b)))
  }

  function Remainder(a: i32, b: i32): i32
    requires b != 0
  {
    ToI32(if a < 0 then -(Magnitude(a) % Magnitude(b)) else Magnitude(a) % Magnitude(b))
  }

  function Flag(b: bool): i32 {
    if b then 1 else 0
  }

  /** The bit instructions on the 32 bits of the operands; a shift uses the low five bits of its count. */
  function Bitwise(op: byte, a: i32, b: i32): i32 {
    var (x, y) := (ToU32(a), ToU32(b));
    var n := y % 32;
    if op == 0x71 then ToI32(Bits.And(x, y))
    else if op == 0x72 then ToI32(Bits.Or(x, y))
    else if op == 0x73 then ToI32(Bits.Xor(x, y))
    else if op == 0x74 then ToI32(x * Bits.Pow2(n))
    else if op == 0x75 then ToI32(if a < 0 then -1 - Bits.Shr(-1 - a, n) else Bits.Shr(a, n))
    else if op == 0x76 then ToI32(Bits.Or(Wrap(x * Bits.Pow2(n)), Bits.Shr(x, 32 - n)))
    else ToI32(Bits.Or(Bits.Shr(x, n), Wrap(x * Bits.Pow2(32 - n))))
  }

  /** The binary instructions; None is division by zero. */
  function Binary(op: byte, a: i32, b: i32): Option<i32> {
    if op == 0x46 then Some(Flag(a == b))
    else if op == 0x47 then Some(Flag(a != b))
    else if op == 0x48 then Some(Flag(a < b))
    else if op == 0x49 then Some(Flag(a <= b))
    else if op == 0x4A then Some(Flag(a > b))
    else if op == 0x4B then Some(Flag(a >= b))
    else if op == 0x6A then Some(ToI32(a + b))
    else if op == 0x6B then Some(ToI32(a - b))
    else if op == 0x6C then Some(ToI32(a * b))
    else if op == 0x6D then if b == 0 then None else Some(Quotient(a, b))
    else if op == 0x6F then if b == 0 then None else Some(Remainder(a, b))
    else Some(Bitwise(op, a, b))
  }

  // ---------- stack, frames, immediates ----------

  function Push(s: State, v: i32): State {
    if |s.stack| >= STACK_SIZE then s.(lastError := STACK_OVERFLOW)
    else s.(stack := s.stack + [v], maxStack := if |s.stack| + 1 > s.maxStack then |s.stack| + 1 else s.maxStack)
  }

  function Pop(s: State): (State, i32) {
    if s.stack == [] then (s.(lastError := STACK_UNDERFLOW), 0)
    else (s.(stack := s.stack[..|s.stack| - 1]), s.stack[|s.stack| - 1])
  }

  function PushAll(s: State, vs: seq<i32>): (r: State)
    ensures r == s.(stack := r.stack, maxStack := r.maxStack, lastError := r.lastError)
    ensures |s.stack| <= STACK_SIZE ==> |r.stack| <= STACK_SIZE
    decreases |vs|
  {
    if vs == [] then s else PushAll(Push(s, vs[0]), vs[1..])
  }

  /** `n` pops; the operands come back in push order. */
  function PopN(s: State, n: nat): (r: (State, seq<i32>))
    ensures r.0 == s.(stack := r.0.stack, lastError := r.0.lastError) && |r.1| == n
    ensures |r.0.stack| <= |s.stack|
    ensures n <= |s.stack| ==> r.0.stack + r.1 == s.stack && r.0.lastError == s.lastError
    decreases n
  {
    if n == 0 then (s, [])
    else
      var (s1, v) := Pop(s);
      var (s2, vs) := PopN(s1, n - 1);
      (s2, vs + [v])
  }

  function Top(s: State): Frame
    requires s.frames != []
  {
    s.frames[|s.frames| - 1]
  }

  function SetTop(s: State, f: Frame): State
    requires s.frames != []
  {
    s.(frames := s.frames[..|s.frames| - 1] + [f])
  }

  /** Carry on at `pc` in the top frame. */
  function Go(s: State, pc: int): Outcome
    requires s.frames != []
  {
    Next(SetTop(s, Top(s).(pc := Wrap(pc))))
  }

  /** An immediate that does not fit in the body reads as 0 and is not skipped. */
  function Imm8(body: seq<byte>, pc: nat): (byte, nat) {
    if pc >= |body| then (0, pc) else (body[pc], pc + 1)
  }

  function Imm16(body: seq<byte>, pc: nat): (u16, nat) {
    if pc + 2 > |body| then (0, pc) else (Get16(body[pc..]), pc + 2)
  }

  function Imm32(body: seq<byte>, pc: nat): (u32, nat) {
    if pc + 4 > |body| then (0, pc) else (Get32(body[pc..]), pc + 4)
  }

  function Imms(body: seq<byte>, pc: nat, n: nat): (seq<u32>, nat)
    decreases n
  {
    if n == 0 then ([], pc)
    else
      var (v, p) := Imm32(body, pc);
      var (vs, q) := Imms(body, p, n - 1);
      ([v] + vs, q)
  }

  /** The first body listed for a function, if it lies in the pool. */
  function FindBody(m: SasmModule, f: nat, i: nat): Option<seq<byte>>
    decreases |m.codes| - i
  {
    if i >= |m.codes| then None
    else if m.codes[i].func == f then
      if m.codes[i].offset > |m.pool| || m.codes[i].size > |m.pool| - m.codes[i].offset then None
      else Some(m.pool[m.codes[i].offset..m.codes[i].offset + m.codes[i].size])
    else FindBody(m, f, i + 1)
  }

  function DepthLimit(m: SasmModule): nat {
    if m.safety.stackDepth == 0 || m.safety.stackDepth > MAX_CALL_DEPTH then MAX_CALL_DEPTH else m.safety.stackDepth
  }

  function Zeros(n: nat): (z: seq<i32>)
    ensures |z| == n && forall i :: 0 <= i < n ==> z[i] == 0
  {
    seq(n, _ => 0)
  }

  /** `push_frame`: the new state and whether there is a new frame. */
  function PushFrame(m: SasmModule, s: State, f: nat): (State, bool) {
    if f >= |m.funcs| || f >= MAX_FUNCTIONS then (s.(lastError := INVALID_OPCODE), false)
    else if |m.funcs[f].locals| > MAX_LOCALS then (s.(lastError := INVALID_OPCODE), false)
    else if |s.frames| >= DepthLimit(m) then (s.(lastError := FRAME_OVERFLOW), false)
    else
      var s1 := s.(maxFrames := if |s.frames| + 1 > s.maxFrames then |s.frames| + 1 else s.maxFrames);
      match FindBody(m, f, 0)
      case None => (s1.(lastError := INVALID_OPCODE), false)
      case Some(body) => (s1.(frames := s.frames + [Frame(f, 0, Zeros(|m.funcs[f].locals|), body, [])]), true)
  }

  // ---------- instructions ----------

  /** `check_mem_bounds`: the end of the access is computed in 32 bits. */
  predicate InBounds(m: SasmModule, s: State, addr: u32, size: nat) {
    var end := Wrap(addr + size);
    && end <= |s.memory|
    && (m.safety.ranges == [] || exists i :: 0 <= i < |m.safety.ranges|
                                           && addr >= m.safety.ranges[i].low && end <= m.safety.ranges[i].high)
  }

  /** Leave `depth` labels and continue at the one reached; a depth with no label does nothing. */
  function Branch(s: State, depth: u32, pc: nat): Outcome
    requires s.frames != []
  {
    var f := Top(s);
    if depth < |f.labels| then
      var target := |f.labels| - depth - 1;
      Go(SetTop(s, f.(labels := f.labels[..target])), f.labels[target])
    else Go(s, pc)
  }

  function Label(s: State, target: int, pc: nat): Outcome
    requires s.frames != []
  {
    var f := Top(s);
    Go(if |f.labels| < MAX_LABELS then SetTop(s, f.(labels := f.labels + [Wrap(target)])) else s, pc)
  }

  function Call(m: SasmModule, s: State, f: nat, pc: nat): Outcome
    requires s.frames != []
  {
    if f >= |m.funcs| || f >= MAX_FUNCTIONS then Halt(s, INVALID_OPCODE)
    else if m.funcs[f].typeIdx >= |m.types| then Halt(s, INVALID_OPCODE)
    else
      var n := |m.types[m.funcs[f].typeIdx].params|;
      if n > |m.funcs[f].locals| || n > MAX_PARAMS || |s.stack| < n then Halt(s, STACK_UNDERFLOW)
      else
        var (s1, ok) := PushFrame(m, SetTop(s, Top(s).(pc := Wrap(pc))), f);
        if !ok then Halt(s1, s1.lastError)
        else
          var (s2, args) := PopN(s1, n);
          Next(SetTop(s2, Top(s2).(locals := args + Top(s2).locals[n..])))
  }

  function Return(s: State): Outcome
    requires s.frames != []
  {
    var s1 := s.(frames := s.frames[..|s.frames| - 1]);
    if s1.frames == [] then Halt(s1, VM_OK) else Next(s1)
  }

  predicate IsControl(op: byte) {
    op in {0x00, 0x01, 0x02, 0x03, 0x04, 0x05, 0x06, 0x10}
  }

  function Control(m: SasmModule, s: State, op: byte, pc: nat): Outcome
    requires s.frames != []
  {
    var body := Top(s).body;
    if op == 0x00 then Halt(s, UNREACHABLE)
    else if op == 0x01 then Go(s, pc)
    else if op == 0x06 then Return(s)
    else
      var (v, p) := Imm32(body, pc);
      if op == 0x02 then Label(s, p + v, p)
      else if op == 0x03 then Label(s, p - 5, p)
      else if op == 0x04 then Branch(s, v, p)
      else if op == 0x05 then
        var (s1, c) := Pop(s);
        if c != 0 then Branch(s1, v, p) else Go(s1, p)
      else Call(m, s, v, p)
  }

  predicate IsLocal(op: byte) {
    op in {0x1A, 0x1B, 0x20, 0x21, 0x22, 0x41, 0xFC, 0xFD}
  }

  function Peek(s: State): i32 {
    if s.stack == [] then 0 else s.stack[|s.stack| - 1]
  }

  /** Stack shuffling, locals, constants and the safety markers. */
  function Local(s: State, op: byte, pc: nat): Outcome
    requires s.frames != []
  {
    var f := Top(s);
    if op == 0x1A then Go(Pop(s).0, pc)
    else if op == 0x1B then
      var (s1, c) := Pop(s);
      var (s2, v1) := Pop(s1);
      var (s3, v2) := Pop(s2);
      Go(Push(s3, if c != 0 then v1 else v2), pc)
    else if op == 0xFC then Go(s, Imm32(f.body, Imm8(f.body, pc).1).1)
    else
      var (v, p) := Imm32(f.body, pc);
      if op == 0x20 then Go(if v < |f.locals| then Push(s, f.locals[v]) else s, p)
      else if op == 0x21 then
        if v < |f.locals| then
          var (s1, x) := Pop(s);
          Go(SetTop(s1, f.(locals := f.locals[v := x])), p)
        else Go(s, p)
      else if op == 0x22 then
        Go(if v < |f.locals| then SetTop(s, f.(locals := f.locals[v := Peek(s)])) else s, p)
      else if op == 0x41 then Go(Push(s, ToI32(v)), p)
      else
        var (high, q) := Imm32(f.body, p);
        var (s1, index) := Pop(s);
        if ToU32(index) < v || ToU32(index) >= high then Halt(s1, MEM_OUT_OF_BOUNDS)
        else Go(Push(s1, index), q)
  }

  predicate IsBinary(op: byte) {
    0x46 <= op <= 0x4B || 0x6A <= op <= 0x6D || op == 0x6F || 0x71 <= op <= 0x77
  }

  function Arith(s: State, op: byte, pc: nat): Outcome
    requires s.frames != []
  {
    if op == 0x45 then
      var (s1, v) := Pop(s);
      Go(Push(s1, Flag(v == 0)), pc)
    else
      var (s1, b) := Pop(s);
      var (s2, a) := Pop(s1);
      match Binary(op, a, b)
      case None => Halt(s2, DIV_BY_ZERO)
      case Some(r) => Go(Push(s2, r), pc)
  }

  predicate IsLoad(op: byte) {
    op in {0x28, 0x2C, 0x30, 0x32}
  }

  predicate IsStore(op: byte) {
    op in {0x36, 0x3A, 0x31, 0x33}
  }

  /** The byte forms are 0x2C and 0x3A; everything else moves four bytes. */
  function Width(op: byte): nat {
    if op == 0x2C || op == 0x3A then 1 else 4
  }

  function LoadValue(memory: seq<byte>, addr: nat, width: nat): i32
    requires width in {1, 4} && addr + width <= |memory|
  {
    if width == 1 then memory[addr] else ToI32(Get32(memory[addr..]))
  }

  function StoreValue(memory: seq<byte>, addr: nat, width: nat, v: i32): (r: seq<byte>)
    requires width in {1, 4} && addr + width <= |memory|
    ensures |r| == |memory|
  {
    memory[..addr] + (if width == 1 then [ToU32(v) % 256] else Put32(ToU32(v))) + memory[addr + width..]
  }

  predicate IsPort(addr: u32) {
    addr in {PRINT_PORT, CHAR_PRINT_PORT, COUNTER_PRINT_PORT}
  }

  function MemoryOp(m: SasmModule, s: State, op: byte, pc: nat): Outcome
    requires s.frames != []
  {
    var body := Top(s).body;
    var (align, p1) := Imm16(body, pc);
    var (offset, p) := Imm16(body, p1);
    var w := Width(op);
    if IsLoad(op) then
      var (s1, a) := Pop(s);
      var addr := Wrap(a + offset);
      if !InBounds(m, s1, addr, w) then Halt(s1, MEM_OUT_OF_BOUNDS)
      else if addr + w > |s1.memory| then Stray
      else Go(Push(s1, LoadValue(s1.memory, addr, w)), p)
    else
      var (s1, v) := Pop(s);
      var (s2, a) := Pop(s1);
      var addr := Wrap(a + offset);
      if w == 4 && IsPort(addr) then Go(s2, p)
      else if !InBounds(m, s2, addr, w) then Halt(s2, MEM_OUT_OF_BOUNDS)
      else if addr + w > |s2.memory| then Stray
      else Go(s2.(memory := StoreValue(s2.memory, addr, w, v)), p)
  }

  /** How many immediates and operands the 64-bit and floating-point instructions take. */
  function Shape(op: byte): Option<(nat, nat)> {
    if op == 0x50 || op == 0x44 then Some((2, 0))
    else if op == 0x43 then Some((1, 0))
    else if op == 0x53 then Some((0, 2))
    else if 0x54 <= op <= 0x59 || 0x7C <= op <= 0x85 then Some((0, 4))
    else if 0x92 <= op <= 0x95 || 0x9A <= op <= 0x9F then Some((0, 2))
    else if 0xA0 <= op <= 0xA2 || op in {0xA8, 0xB3, 0xB7, 0xBB} then Some((0, 1))
    else if 0xA3 <= op <= 0xA6 || 0xAA <= op <= 0xAF then Some((0, 4))
    else if 0xB0 <= op <= 0xB2 || op == 0xA7 || op == 0xB4 then Some((0, 2))
    else None
  }

  function Wide(alu: Alu, s: State, op: byte, pc: nat): Outcome
    requires s.frames != []
  {
    match Shape(op)
    case None => Halt(s.(lastError := INVALID_OPCODE), INVALID_OPCODE)
    case Some((ni, np)) =>
      var (imms, p) := Imms(Top(s).body, pc, ni);
      var (s1, args) := PopN(s, np);
      match alu(op, imms, args)
      case None => Halt(s1, DIV_BY_ZERO)
      case Some(rs) =>
        Go(PushAll(s1, rs), p)
  }

  /** The dispatch: `pc` is already past the opcode. */
  function Execute(m: SasmModule, alu: Alu, s: State, op: byte, pc: nat): Outcome
    requires s.frames != []
  {
    if IsControl(op) then Control(m, s, op, pc)
    else if IsLocal(op) then Local(s, op, pc)
    else if op == 0x45 || IsBinary(op) then Arith(s, op, pc)
    else if IsLoad(op) || IsStore(op) then MemoryOp(m, s, op, pc)
    else Wide(alu, s, op, pc)
  }

  /** One turn of the dispatch loop. */
  function Step(m: SasmModule, alu: Alu, s: State): Outcome
    requires s.frames != []
  {
    var f := Top(s);
    if f.pc >= |f.body| then Halt(s, VM_OK)
    else
      var s1 := s.(cycles := s.cycles + 1);
      if s1.cycles > m.safety.cycleLimit && m.safety.cycleLimit > 0 then Halt(s1, CYCLE_LIMIT)
      else Execute(m, alu, s1, f.body[f.pc], f.pc + 1)
  }
}
