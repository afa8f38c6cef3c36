/** What the other instructions do: stack, locals, constants, memory, labels, and the operand lists of the wide ones. */
module StackEffects {
  import opened Bytes
  import opened Results
  import opened SasmFormat
  import opened SasmLoader
  import opened Machine
  import opened MachineTheory
  import opened Instructions

  /** The instruction leaves this stack, this top frame and this memory, and nothing else changes. */
  ghost predicate Effect(m: SasmModule, alu: Alu, s: State, stack: seq<i32>, top: Frame, memory: seq<byte>) {
    && s.frames != [] && Step(m, alu, s).Next?
    && var t := Step(m, alu, s).next;
       && t.stack == stack && t.frames == s.frames[..|s.frames| - 1] + [top] && t.memory == memory
       && t.lastError == s.lastError && t.cycles == s.cycles + 1
  }

  ghost predicate Halts(m: SasmModule, alu: Alu, s: State, code: int) {
    s.frames != [] && Step(m, alu, s).Halt? && Step(m, alu, s).code == code
  }

  /** The frame, `size` bytes further on. */
  function After(f: Frame, size: nat): Frame {
    f.(pc := Wrap(f.pc + size))
  }

  function U16At(body: seq<byte>, at: nat): nat
    requires at + 2 <= |body|
  {
    (body[at] as int) + 256 * (body[at + 1] as int)
  }

  /** Four bytes, least significant first. */
  function U32At(body: seq<byte>, at: nat): nat
    requires at + 4 <= |body|
  {
    (body[at] as int) + 256 * (body[at + 1] as int) + 65536 * (body[at + 2] as int) + 16777216 * (body[at + 3] as int)
  }

  lemma ImmediateIs(body: seq<byte>, pc: nat)
    ensures pc + 4 <= |body| ==> Imm32(body, pc) == (U32At(body, pc), pc + 4)
    ensures pc + 2 <= |body| ==> Imm16(body, pc) == (U16At(body, pc), pc + 2)
    ensures pc < |body| ==> Imm8(body, pc) == (body[pc], pc + 1)
  {
  }

  function Under(s: State, n: nat): seq<i32>
    requires n <= |s.stack|
  {
    s.stack[..|s.stack| - n]
  }

  lemma ControlRoute(m: SasmModule, alu: Alu, s: State, op: byte, pc: nat)
    requires s.frames != [] && op in {0x00, 0x01, 0x02, 0x03, 0x04, 0x05}
    ensures Execute(m, alu, s, op, pc) == Control(m, s, op, pc)
  {
    hide Control;
  }

  lemma LocalRoute(m: SasmModule, alu: Alu, s: State, op: byte, pc: nat)
    requires s.frames != [] && op in {0x1A, 0x1B, 0x20, 0x21, 0x22, 0x41, 0xFC, 0xFD}
    ensures Execute(m, alu, s, op, pc) == Local(s, op, pc)
  {
    hide Control, Local;
  }

  lemma MemoryRoute(m: SasmModule, alu: Alu, s: State, op: byte, pc: nat)
    requires s.frames != [] && (IsLoadOp(op) || IsStoreOp(op))
    ensures Execute(m, alu, s, op, pc) == MemoryOp(m, s, op, pc)
  {
    hide Control, Local, Arith, MemoryOp;
  }

  // ---------- stack, constants, locals ----------

  lemma NopLaw(m: SasmModule, alu: Alu, s: State, op: byte)
    requires At(m, s, op) && op in {0x00, 0x01}
    ensures op == 0x01 ==> Effect(m, alu, s, s.stack, After(Top(s), 1), s.memory)
    ensures op == 0x00 ==> Halts(m, alu, s, UNREACHABLE)
  {
    hide FrameOk, DepthLimit, Bounded, Execute;
    StepIs(m, alu, s, op);
    ControlRoute(m, alu, s.(cycles := s.cycles + 1), op, Top(s).pc + 1);
  }

  lemma DropLaw(m: SasmModule, alu: Alu, s: State)
    requires At(m, s, 0x1A) && |s.stack| >= 1
    ensures Effect(m, alu, s, Under(s, 1), After(Top(s), 1), s.memory)
  {
    hide FrameOk, DepthLimit, Bounded, Execute;
    StepIs(m, alu, s, 0x1A);
    LocalRoute(m, alu, s.(cycles := s.cycles + 1), 0x1A, Top(s).pc + 1);
  }

  /** The condition is on top; a nonzero one selects the value pushed last before it. */
  lemma SelectLaw(m: SasmModule, alu: Alu, s: State)
    requires At(m, s, 0x1B) && |s.stack| >= 3
    ensures Effect(m, alu, s, Under(s, 3) + [if Right(s) != 0 then Left(s) else s.stack[|s.stack| - 3]], After(Top(s), 1), s.memory)
  {
    hide FrameOk, DepthLimit, Bounded, Execute;
    StepIs(m, alu, s, 0x1B);
    LocalRoute(m, alu, s.(cycles := s.cycles + 1), 0x1B, Top(s).pc + 1);
    assert Under(s, 1)[..|s.stack| - 2] == Under(s, 2) && Under(s, 2)[..|s.stack| - 3] == Under(s, 3);
  }

  lemma ConstLaw(m: SasmModule, alu: Alu, s: State) returns (r: i32)
    requires At(m, s, 0x41) && |s.stack| < 1024 && Top(s).pc + 5 <= |Top(s).body|
    ensures Effect(m, alu, s, s.stack + [r], After(Top(s), 5), s.memory)
    ensures Same32(r, U32At(Top(s).body, Top(s).pc + 1))
  {
    hide FrameOk, DepthLimit, Bounded, Execute, Imm32;
    StepIs(m, alu, s, 0x41);
    LocalRoute(m, alu, s.(cycles := s.cycles + 1), 0x41, Top(s).pc + 1);
    ImmediateIs(Top(s).body, Top(s).pc + 1);
    r := ToI32(U32At(Top(s).body, Top(s).pc + 1));
    WordBack(U32At(Top(s).body, Top(s).pc + 1));
  }

  /** Reading, setting and copying into a local; a number no local has does nothing. */
  lemma LocalLaw(m: SasmModule, alu: Alu, s: State, op: byte)
    requires At(m, s, op) && op in {0x20, 0x21, 0x22} && 1 <= |s.stack| < 1024 && Top(s).pc + 5 <= |Top(s).body|
    ensures var (f, v) := (Top(s), U32At(Top(s).body, Top(s).pc + 1));
            if v >= |f.locals| then Effect(m, alu, s, s.stack, After(f, 5), s.memory)
            else if op == 0x20 then Effect(m, alu, s, s.stack + [f.locals[v]], After(f, 5), s.memory)
            else
              Effect(m, alu, s, if op == 0x21 then Under(s, 1) else s.stack,
                     After(f.(locals := f.locals[v := Right(s)]), 5), s.memory)
  {
    hide *;
    if op == 0x20 { ReadLocal(m, alu, s); } else if op == 0x21 { SetLocal(m, alu, s); } else { CopyLocal(m, alu, s); }
  }

  lemma ReadLocal(m: SasmModule, alu: Alu, s: State)
    requires At(m, s, 0x20) && |s.stack| < 1024 && Top(s).pc + 5 <= |Top(s).body|
    ensures var (f, v) := (Top(s), U32At(Top(s).body, Top(s).pc + 1));
            Effect(m, alu, s, if v < |f.locals| then s.stack + [f.locals[v]] else s.stack, After(f, 5), s.memory)
  {
    hide FrameOk, DepthLimit, Bounded, Execute, Imm32;
    StepIs(m, alu, s, 0x20);
    LocalRoute(m, alu, s.(cycles := s.cycles + 1), 0x20, Top(s).pc + 1);
    ImmediateIs(Top(s).body, Top(s).pc + 1);
  }

  lemma SetLocal(m: SasmModule, alu: Alu, s: State)
    requires At(m, s, 0x21) && 1 <= |s.stack| < 1024 && Top(s).pc + 5 <= |Top(s).body|
    ensures var (f, v) := (Top(s), U32At(Top(s).body, Top(s).pc + 1));
            if v >= |f.locals| then Effect(m, alu, s, s.stack, After(f, 5), s.memory)
            else Effect(m, alu, s, Under(s, 1), After(f.(locals := f.locals[v := Right(s)]), 5), s.memory)
  {
    hide FrameOk, DepthLimit, Bounded, Execute, Imm32;
    StepIs(m, alu, s, 0x21);
    LocalRoute(m, alu, s.(cycles := s.cycles + 1), 0x21, Top(s).pc + 1);
    ImmediateIs(Top(s).body, Top(s).pc + 1);
  }

  lemma CopyLocal(m: SasmModule, alu: Alu, s: State)
    requires At(m, s, 0x22) && 1 <= |s.stack| < 1024 && Top(s).pc + 5 <= |Top(s).body|
    ensures var (f, v) := (Top(s), U32At(Top(s).body, Top(s).pc + 1));
            if v >= |f.locals| then Effect(m, alu, s, s.stack, After(f, 5), s.memory)
            else Effect(m, alu, s, s.stack, After(f.(locals := f.locals[v := Right(s)]), 5), s.memory)
  {
    hide FrameOk, DepthLimit, Bounded, Execute, Imm32;
    StepIs(m, alu, s, 0x22);
    LocalRoute(m, alu, s.(cycles := s.cycles + 1), 0x22, Top(s).pc + 1);
    ImmediateIs(Top(s).body, Top(s).pc + 1);
  }

  /** The safety markers: one is passed over, the other lets an index in its range through. */
  lemma MarkLaw(m: SasmModule, alu: Alu, s: State, op: byte)
    requires At(m, s, op) && op in {0xFC, 0xFD} && |s.stack| >= 1 && Top(s).pc + 9 <= |Top(s).body|
    ensures op == 0xFC ==> Effect(m, alu, s, s.stack, After(Top(s), 6), s.memory)
    ensures op == 0xFD ==>
              var (low, high) := (U32At(Top(s).body, Top(s).pc + 1), U32At(Top(s).body, Top(s).pc + 5));
              if low <= Word(Right(s)) < high then Effect(m, alu, s, s.stack, After(Top(s), 9), s.memory)
              else Halts(m, alu, s, MEM_OUT_OF_BOUNDS)
  {
    hide FrameOk, DepthLimit, Bounded, Execute, Imm32, Imm8;
    StepIs(m, alu, s, op);
    LocalRoute(m, alu, s.(cycles := s.cycles + 1), op, Top(s).pc + 1);
    ImmediateIs(Top(s).body, Top(s).pc + 1);
    ImmediateIs(Top(s).body, Top(s).pc + 2);
    ImmediateIs(Top(s).body, Top(s).pc + 5);
    WordIs(Right(s));
    assert Under(s, 1) + [Right(s)] == s.stack;
  }

  // ---------- labels ----------

  /** A block's label is its end, a loop's label the LOOP instruction itself; the seventeenth label is not kept. */
  lemma LabelLaw(m: SasmModule, alu: Alu, s: State, op: byte)
    requires At(m, s, op) && op in {0x02, 0x03} && Top(s).pc + 5 <= |Top(s).body|
    ensures var f := Top(s);
            var target := if op == 0x02 then Wrap(f.pc + 5 + U32At(f.body, f.pc + 1)) else f.pc;
            Effect(m, alu, s, s.stack, After(if |f.labels| < 16 then f.(labels := f.labels + [target]) else f, 5), s.memory)
  {
    hide FrameOk, DepthLimit, Bounded, Execute, Imm32;
    StepIs(m, alu, s, op);
    ControlRoute(m, alu, s.(cycles := s.cycles + 1), op, Top(s).pc + 1);
    ImmediateIs(Top(s).body, Top(s).pc + 1);
  }

  lemma BranchIs(s: State, d: u32, pc: nat)
    requires s.frames != []
    ensures var f := Top(s);
            Branch(s, d, pc) == Next(SetTop(s, if d < |f.labels|
                                               then f.(pc := f.labels[|f.labels| - 1 - d], labels := f.labels[..|f.labels| - 1 - d])
                                               else f.(pc := Wrap(pc))))
  {
  }

  /** A branch of depth `d` continues at the label that many above the innermost and leaves it and those
      inside it; without such a label it does nothing. The conditional one does so if its operand is not 0. */
  lemma BranchLaw(m: SasmModule, alu: Alu, s: State, op: byte)
    requires At(m, s, op) && op in {0x04, 0x05} && |s.stack| >= 1 && Top(s).pc + 5 <= |Top(s).body|
    ensures var (f, d) := (Top(s), U32At(Top(s).body, Top(s).pc + 1));
            var stack := if op == 0x05 then Under(s, 1) else s.stack;
            if d < |f.labels| && (op == 0x05 ==> Right(s) != 0)
            then Effect(m, alu, s, stack, f.(pc := f.labels[|f.labels| - 1 - d], labels := f.labels[..|f.labels| - 1 - d]), s.memory)
            else Effect(m, alu, s, stack, After(f, 5), s.memory)
  {
    hide FrameOk, DepthLimit, Bounded, Execute, Imm32, Branch;
    StepIs(m, alu, s, op);
    ControlRoute(m, alu, s.(cycles := s.cycles + 1), op, Top(s).pc + 1);
    ImmediateIs(Top(s).body, Top(s).pc + 1);
    var s1 := s.(cycles := s.cycles + 1);
    BranchIs(s1, Imm32(Top(s).body, Top(s).pc + 1).0, Top(s).pc + 5);
    BranchIs(Pop(s1).0, Imm32(Top(s).body, Top(s).pc + 1).0, Top(s).pc + 5);
  }

  // ---------- memory ----------

  predicate IsLoadOp(op: byte) {
    op in {0x28, 0x2C, 0x30, 0x32}
  }

  predicate IsStoreOp(op: byte) {
    op in {0x36, 0x3A, 0x31, 0x33}
  }

  /** The address: the base operand plus the offset in the code, modulo 2^32. */
  predicate Addresses(s: State, base: i32, addr: nat)
    requires s.frames != [] && Top(s).pc + 5 <= |Top(s).body|
  {
    addr < 0x1_0000_0000 && Same32(addr, base + U16At(Top(s).body, Top(s).pc + 3))
  }

  /** The access lies in memory and in one of the declared ranges, if there are any. */
  ghost predicate Allowed(m: SasmModule, s: State, addr: nat, width: nat) {
    addr + width <= |s.memory|
    && (m.safety.ranges == [] || exists i :: 0 <= i < |m.safety.ranges| && m.safety.ranges[i].low <= addr
                                           && addr + width <= m.safety.ranges[i].high)
  }

  lemma AllowedIs(m: SasmModule, s: State, addr: u32, width: nat)
    requires width in {1, 4} && addr + width < 0x1_0000_0000
    ensures InBounds(m, s, addr, width) <==> Allowed(m, s, addr, width)
  {
    assert Wrap(addr + width) == addr + width;
  }

  lemma AddressIs(s: State, base: i32, addr: nat)
    requires s.frames != [] && Top(s).pc + 5 <= |Top(s).body| && Addresses(s, base, addr)
    ensures addr == Wrap(base + Imm16(Top(s).body, Imm16(Top(s).body, Top(s).pc + 1).1).0)
    ensures Imm16(Top(s).body, Imm16(Top(s).body, Top(s).pc + 1).1).1 == Top(s).pc + 5
  {
    hide Imm16;
    ImmediateIs(Top(s).body, Top(s).pc + 1);
    ImmediateIs(Top(s).body, Top(s).pc + 3);
    var n := base + U16At(Top(s).body, Top(s).pc + 3);
    assert addr % 0x1_0000_0000 == n % 0x1_0000_0000;
  }

  /** A load that is allowed gives the bytes it finds, least significant first; any other that ends
      below 2^32 stops the scan. */
  lemma LoadLaw(m: SasmModule, alu: Alu, s: State, op: byte, addr: nat) returns (r: i32)
    requires At(m, s, op) && IsLoadOp(op) && |s.stack| >= 1 && Top(s).pc + 5 <= |Top(s).body|
    requires Addresses(s, Right(s), addr) && addr + 4 < 0x1_0000_0000
    ensures var w := if op == 0x2C then 1 else 4;
            if Allowed(m, s, addr, w) then
              && Effect(m, alu, s, Under(s, 1) + [r], After(Top(s), 5), s.memory)
              && (w == 1 ==> r == s.memory[addr]) && (w == 4 ==> Same32(r, U32At(s.memory, addr)))
            else Halts(m, alu, s, MEM_OUT_OF_BOUNDS)
  {
    hide FrameOk, DepthLimit, Bounded, Execute, Imm16, InBounds, Allowed, LoadValue;
    StepIs(m, alu, s, op);
    MemoryRoute(m, alu, s.(cycles := s.cycles + 1), op, Top(s).pc + 1);
    AddressIs(s, Right(s), addr);
    var w := if op == 0x2C then 1 else 4;
    AllowedIs(m, s, addr, w);
    AllowedFits(m, s, addr, w);
    var s1 := Pop(s.(cycles := s.cycles + 1)).0;
    SameAllowed(m, s, s1, addr, w);
    r := 0;
    if Allowed(m, s, addr, w) {
      LoadedIs(s.memory, addr, w);
      r := LoadValue(s.memory, addr, w);
    }
  }

  lemma AllowedFits(m: SasmModule, s: State, addr: nat, width: nat)
    ensures Allowed(m, s, addr, width) ==> addr + width <= |s.memory|
  {
  }

  lemma SameAllowed(m: SasmModule, s: State, t: State, addr: u32, width: nat)
    requires t.memory == s.memory
    ensures InBounds(m, s, addr, width) == InBounds(m, t, addr, width)
  {
  }

  lemma LoadedIs(memory: seq<byte>, addr: nat, width: nat)
    requires width in {1, 4} && addr + width <= |memory|
    ensures width == 1 ==> LoadValue(memory, addr, width) == memory[addr]
    ensures width == 4 ==> Same32(LoadValue(memory, addr, width), U32At(memory, addr))
  {
    if width == 4 { WordBack(U32At(memory, addr)); }
  }

  /** Byte `i` of a word, from the least significant on. */
  function ByteOf(u: nat, i: nat): nat
    requires i < 4
  {
    if i == 0 then u % 256 else if i == 1 then u / 256 % 256 else if i == 2 then u / 65536 % 256 else u / 16777216 % 256
  }

  /** The value is on top and its address below. An allowed store changes the addressed bytes alone; a
      four-byte store at one of the three print addresses changes none. */
  lemma StoreLaw(m: SasmModule, alu: Alu, s: State, op: byte, addr: nat) returns (memory: seq<byte>)
    requires At(m, s, op) && IsStoreOp(op) && |s.stack| >= 2 && Top(s).pc + 5 <= |Top(s).body|
    requires Addresses(s, Left(s), addr) && addr + 4 < 0x1_0000_0000
    ensures var w := if op == 0x3A then 1 else 4;
            if w == 4 && addr in {0x7FFF_FFF4, 0x7FFF_FFF8, 0x7FFF_FFFC}
            then Effect(m, alu, s, Under(s, 2), After(Top(s), 5), s.memory)
            else if Allowed(m, s, addr, w) then
              && Effect(m, alu, s, Under(s, 2), After(Top(s), 5), memory) && |memory| == |s.memory|
              && (forall i :: 0 <= i < w ==> memory[addr + i] == ByteOf(Word(Right(s)), i))
              && (forall a :: 0 <= a < |memory| && !(addr <= a < addr + w) ==> memory[a] == s.memory[a])
            else Halts(m, alu, s, MEM_OUT_OF_BOUNDS)
  {
    hide *;
    StoreIs(m, alu, s, op, addr);
    var w := if op == 0x3A then 1 else 4;
    AllowedFits(m, s, addr, w);
    memory := s.memory;
    if Allowed(m, s, addr, w) {
      StoredIs(s.memory, addr, w, Right(s));
      memory := StoreValue(s.memory, addr, w, Right(s));
    }
  }

  lemma StoreIs(m: SasmModule, alu: Alu, s: State, op: byte, addr: nat)
    requires At(m, s, op) && IsStoreOp(op) && |s.stack| >= 2 && Top(s).pc + 5 <= |Top(s).body|
    requires Addresses(s, Left(s), addr) && addr + 4 < 0x1_0000_0000
    ensures var w := if op == 0x3A then 1 else 4;
            if w == 4 && addr in {0x7FFF_FFF4, 0x7FFF_FFF8, 0x7FFF_FFFC}
            then Effect(m, alu, s, Under(s, 2), After(Top(s), 5), s.memory)
            else if Allowed(m, s, addr, w) then
              && addr + w <= |s.memory|
              && Effect(m, alu, s, Under(s, 2), After(Top(s), 5), StoreValue(s.memory, addr, w, Right(s)))
            else Halts(m, alu, s, MEM_OUT_OF_BOUNDS)
  {
    hide FrameOk, DepthLimit, Bounded, Execute, Imm16, InBounds, Allowed, StoreValue;
    StepIs(m, alu, s, op);
    MemoryRoute(m, alu, s.(cycles := s.cycles + 1), op, Top(s).pc + 1);
    AddressIs(s, Left(s), addr);
    var w := if op == 0x3A then 1 else 4;
    AllowedIs(m, s, addr, w);
    AllowedFits(m, s, addr, w);
    var s1 := Pop(s.(cycles := s.cycles + 1)).0;
    var s2 := Pop(s1).0;
    SameAllowed(m, s, s2, addr, w);
    assert Under(s, 1)[..|s.stack| - 2] == Under(s, 2);
    WordIs(Right(s));
  }

  lemma StoredIs(memory: seq<byte>, addr: nat, width: nat, v: i32)
    requires width in {1, 4} && addr + width <= |memory|
    ensures var r := StoreValue(memory, addr, width, v);
            && (forall i :: 0 <= i < width ==> r[addr + i] == ByteOf(Word(v), i))
            && (forall a :: 0 <= a < |r| && !(addr <= a < addr + width) ==> r[a] == memory[a])
  {
    WordIs(v);
    var b := if width == 1 then [ToU32(v) % 256] else Put32(ToU32(v));
    assert forall i :: 0 <= i < width ==> b[i] == ByteOf(Word(v), i);
    assert forall i :: 0 <= i < width ==> StoreValue(memory, addr, width, v)[addr + i] == b[i];
  }

  /** What a four-byte store left is what a load finds. */
  lemma LoadsBack(u: nat, memory: seq<byte>, addr: nat)
    requires u < 0x1_0000_0000 && addr + 4 <= |memory| && forall i :: 0 <= i < 4 ==> memory[addr + i] == ByteOf(u, i)
    ensures U32At(memory, addr) == u
  {
    assert ByteOf(u, 0) == u % 256 && ByteOf(u, 1) == u / 256 % 256 && ByteOf(u, 2) == u / 65536 % 256 && ByteOf(u, 3) == u / 16777216 % 256;
    var a, b := u / 256, u / 65536;
    assert a / 256 == b && b / 256 == u / 16777216;
    assert u == 256 * a + u % 256 && a == 256 * b + a % 256 && b == 256 * (b / 256) + b % 256;
  }

  // ---------- wide instructions ----------

  datatype Wide = I64 | F64 | I32 | F32

  /** How many stack words a value takes. */
  function Words(t: Wide): nat {
    if t == I64 || t == F64 then 2 else 1
  }

  /** The immediate and the operands of an instruction on 64-bit integers or floating-point numbers. */
  function Signature(op: byte): Option<(seq<Wide>, seq<Wide>)> {
    if op == 0x50 then Some(([I64], []))                                      // constants
    else if op == 0x43 then Some(([F32], []))
    else if op == 0x44 then Some(([F64], []))
    else if op == 0x53 then Some(([], [I64]))                                 // equal to zero
    else if 0x54 <= op <= 0x59 then Some(([], [I64, I64]))                    // comparisons
    else if 0x9A <= op <= 0x9F then Some(([], [F32, F32]))
    else if 0xAA <= op <= 0xAF then Some(([], [F64, F64]))
    else if 0x7C <= op <= 0x85 then Some(([], [I64, I64]))                    // arithmetic and bits
    else if 0x92 <= op <= 0x95 then Some(([], [F32, F32]))
    else if 0xA3 <= op <= 0xA6 then Some(([], [F64, F64]))
    else if 0xA0 <= op <= 0xA2 then Some(([], [F32]))                         // absolute value, negation, root
    else if 0xB0 <= op <= 0xB2 then Some(([], [F64]))
    else if op == 0xA7 then Some(([], [I64]))                                 // conversions
    else if op == 0xA8 || op == 0xB7 || op == 0xBB then Some(([], [I32]))
    else if op == 0xB3 then Some(([], [F32]))
    else if op == 0xB4 then Some(([], [F64]))
    else None
  }

  function Total(ts: seq<Wide>): nat {
    if ts == [] then 0 else Words(ts[0]) + Total(ts[1..])
  }

  function ImmediatesAt(body: seq<byte>, at: nat, n: nat): seq<nat>
    requires at + 4 * n <= |body|
  {
    seq(n, i requires 0 <= i < n => U32At(body, at + 4 * i))
  }

  lemma TotalPair(a: Wide, b: Wide)
    ensures Total([]) == 0 && Total([a]) == Words(a) && Total([a, b]) == Words(a) + Words(b)
  {
    assert [a, b][1..] == [b] && [a][1..] == [] && [b][1..] == [];
  }

  /** The operand words are those of the types. */
  lemma ShapeIs(op: byte)
    ensures Shape(op) == match Signature(op) case None => None case Some((imms, args)) => Some((Total(imms), Total(args)))
    ensures Signature(op).Some? ==> !IsControl(op) && !IsLocal(op) && op != 0x45 && !IsBinary(op) && !IsLoad(op) && !IsStore(op)
    ensures Signature(op).Some? ==> Total(Signature(op).value.0) <= 2 && Total(Signature(op).value.1) <= 4
  {
    match Signature(op)
    case None =>
    case Some((imms, args)) =>
      if |imms| == 1 { TotalPair(imms[0], imms[0]); }
      if |args| == 1 { TotalPair(args[0], args[0]); }
      if |args| == 2 { TotalPair(args[0], args[1]); }
      TotalPair(I32, I32);
  }

  /** Such an instruction hands its immediate words and its operand words, in push order, to the
      arithmetic, and puts the results in their place. */
  lemma WideLaw(m: SasmModule, alu: Alu, s: State, op: byte)
    requires At(m, s, op) && Signature(op).Some?
    requires var (imms, args) := Signature(op).value;
             Total(args) <= |s.stack| && Top(s).pc + 1 + 4 * Total(imms) <= |Top(s).body|
    ensures var (ni, np) := (Total(Signature(op).value.0), Total(Signature(op).value.1));
            match alu(op, ImmediatesAt(Top(s).body, Top(s).pc + 1, ni), s.stack[|s.stack| - np..])
            case None => Halts(m, alu, s, DIV_BY_ZERO)
            case Some(rs) =>
              |s.stack| - np + |rs| <= 1024 ==> Effect(m, alu, s, Under(s, np) + rs, After(Top(s), 1 + 4 * ni), s.memory)
  {
    hide FrameOk, DepthLimit, Bounded, Imms, PopN, PushAll, Shape, Signature, Total, IsControl, IsLocal, IsBinary, IsLoad, IsStore;
    StepIs(m, alu, s, op);
    ShapeIs(op);
    var (ni, np) := (Total(Signature(op).value.0), Total(Signature(op).value.1));
    ImmediatesAre(Top(s).body, Top(s).pc + 1, ni);
    var s1 := s.(cycles := s.cycles + 1);
    Popped(s1, np);
    match alu(op, ImmediatesAt(Top(s).body, Top(s).pc + 1, ni), s.stack[|s.stack| - np..])
    case None =>
    case Some(rs) =>
      if |s.stack| - np + |rs| <= 1024 { Pushed(PopN(s1, np).0, rs); }
  }

  lemma Popped(s: State, n: nat)
    requires n <= |s.stack|
    ensures PopN(s, n).1 == s.stack[|s.stack| - n..] && PopN(s, n).0 == s.(stack := s.stack[..|s.stack| - n])
  {
    var (t, vs) := PopN(s, n);
    assert (t.stack + vs)[..|t.stack|] == t.stack && (t.stack + vs)[|t.stack|..] == vs;
  }

  lemma {:induction false} Pushed(s: State, vs: seq<i32>)
    requires |s.stack| + |vs| <= 1024
    ensures PushAll(s, vs).stack == s.stack + vs && PushAll(s, vs).lastError == s.lastError
    decreases |vs|
  {
    if vs != [] {
      Pushed(Push(s, vs[0]), vs[1..]);
      assert s.stack + [vs[0]] + vs[1..] == s.stack + vs;
    }
  }

  lemma {:induction false} ImmediatesAre(body: seq<byte>, pc: nat, n: nat)
    requires pc + 4 * n <= |body|
    ensures Imms(body, pc, n) == (ImmediatesAt(body, pc, n), pc + 4 * n)
    decreases n
  {
    hide Imm32;
    if n > 0 {
      ImmediateIs(body, pc);
      ImmediatesAre(body, pc + 4, n - 1);
      assert ImmediatesAt(body, pc, n) == [U32At(body, pc)] + ImmediatesAt(body, pc + 4, n - 1);
    } else {
      assert ImmediatesAt(body, pc, 0) == [];
    }
  }

  /** Every other opcode stops the scan. */
  lemma UnknownLaw(m: SasmModule, alu: Alu, s: State, op: byte)
    requires At(m, s, op) && Signature(op) == None
    requires op !in {0x00, 0x01, 0x02, 0x03, 0x04, 0x05, 0x06, 0x10, 0x1A, 0x1B, 0x20, 0x21, 0x22, 0x41, 0xFC, 0xFD, 0x45}
    requires !(0x46 <= op <= 0x4B) && !(0x6A <= op <= 0x6D) && op != 0x6F && !(0x71 <= op <= 0x77)
    requires !IsLoadOp(op) && !IsStoreOp(op)
    ensures Halts(m, alu, s, INVALID_OPCODE)
  {
    hide FrameOk, DepthLimit, Bounded, Shape, Signature;
    StepIs(m, alu, s, op);
    ShapeIs(op);
  }
}
