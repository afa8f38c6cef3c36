/** What a scan does not report: stack faults that only leave a mark, and accesses whose end wraps around. */
module ScanFaults {
  import opened Bytes
  import opened Results
  import opened SasmFormat
  import opened SasmLoader
  import opened Machine
  import opened MachineTheory

  // ---------- operands ----------

  /** How many values the instruction pops without looking whether they are there. A call looks. */
  function Takes(s: State, op: byte, pc: nat): nat
    requires s.frames != []
  {
    if IsControl(op) then if op == 0x05 then 1 else 0
    else if IsLocal(op) then
      if op == 0x1A || op == 0xFD then 1
      else if op == 0x1B then 3
      else if op == 0x21 && Imm32(Top(s).body, pc).0 < |Top(s).locals| then 1
      else 0
    else if op == 0x45 then 1
    else if IsBinary(op) then 2
    else if IsLoad(op) then 1
    else if IsStore(op) then 2
    else match Shape(op) case None => 0 case Some((_, n)) => n
  }

  /** How many values it pushes. */
  function Gives(alu: Alu, s: State, op: byte, pc: nat): nat
    requires s.frames != []
  {
    if IsControl(op) then 0
    else if IsLocal(op) then
      if op == 0x1B || op == 0x41 || op == 0xFD then 1
      else if op == 0x20 && Imm32(Top(s).body, pc).0 < |Top(s).locals| then 1
      else 0
    else if op == 0x45 || IsBinary(op) || IsLoad(op) then 1
    else if IsStore(op) then 0
    else
      match Shape(op)
      case None => 0
      case Some((ni, np)) =>
        match alu(op, Imms(Top(s).body, pc, ni).0, PopN(s, np).1) case None => 0 case Some(rs) => |rs|
  }

  /** Fewer operands than the instruction takes, or no room for what it gives. */
  predicate Misuse(alu: Alu, s: State, op: byte, pc: nat)
    requires s.frames != []
  {
    Takes(s, op, pc) > |s.stack| || |s.stack| - Takes(s, op, pc) + Gives(alu, s, op, pc) > STACK_SIZE
  }

  /** The instruction the state is about to execute misuses the value stack. */
  predicate Misuses(alu: Alu, s: State) {
    s.frames != [] && Top(s).pc < |Top(s).body|
    && Misuse(alu, s.(cycles := s.cycles + 1), Top(s).body[Top(s).pc], Top(s).pc + 1)
  }

  /** If the machine goes on, it has noted an error exactly if it had before or `bad` holds. */
  predicate Notes(s: State, o: Outcome, bad: bool) {
    o.Next? ==> (o.next.lastError == VM_OK <==> s.lastError == VM_OK && !bad)
  }

  lemma PopNotes(s: State)
    ensures Pop(s).0.lastError == VM_OK <==> s.lastError == VM_OK && s.stack != []
    ensures |Pop(s).0.stack| == if s.stack == [] then 0 else |s.stack| - 1
    ensures Pop(s).0.frames == s.frames
  {
  }

  lemma PushNotes(s: State, v: i32)
    ensures Push(s, v).lastError == VM_OK <==> s.lastError == VM_OK && |s.stack| < STACK_SIZE
    ensures Push(s, v).frames == s.frames
    ensures |s.stack| < STACK_SIZE ==> |Push(s, v).stack| == |s.stack| + 1
    ensures |s.stack| >= STACK_SIZE ==> Push(s, v).stack == s.stack
  {
  }

  lemma {:induction false} PopNNotes(s: State, n: nat)
    ensures PopN(s, n).0.lastError == VM_OK <==> s.lastError == VM_OK && n <= |s.stack|
    ensures |PopN(s, n).0.stack| == if n <= |s.stack| then |s.stack| - n else 0
    decreases n
  {
    hide Pop;
    if n > 0 {
      PopNotes(s);
      PopNNotes(Pop(s).0, n - 1);
    }
  }

  lemma {:induction false} PushAllNotes(s: State, vs: seq<i32>)
    requires |s.stack| <= STACK_SIZE
    ensures PushAll(s, vs).lastError == VM_OK <==> s.lastError == VM_OK && |s.stack| + |vs| <= STACK_SIZE
    decreases |vs|
  {
    hide Push;
    if vs != [] {
      PushNotes(s, vs[0]);
      PushAllNotes(Push(s, vs[0]), vs[1..]);
    }
  }

  lemma ControlNotes(m: SasmModule, alu: Alu, s: State, op: byte, pc: nat)
    requires Sound(m) && Bounded(m, s) && s.frames != [] && IsControl(op)
    ensures Notes(s, Control(m, s, op, pc), Misuse(alu, s, op, pc))
  {
    hide Sound, Call, Pop, FrameOk, DepthLimit, Imm32;
    var (v, p) := Imm32(Top(s).body, pc);
    PopNotes(s);
    if op == 0x10 && Call(m, s, v, p).Next? { CallEffect(m, s, v, p); }
  }

  lemma LocalNotes(m: SasmModule, alu: Alu, s: State, op: byte, pc: nat)
    requires s.frames != [] && |s.stack| <= STACK_SIZE && IsLocal(op)
    ensures Notes(s, Local(s, op, pc), Misuse(alu, s, op, pc))
  {
    hide Pop, Push, Imm32, Imm8;
    var f := Top(s);
    var s1, s2, s3 := Pop(s).0, Pop(Pop(s).0).0, Pop(Pop(Pop(s).0).0).0;
    PopNotes(s);
    PopNotes(s1);
    PopNotes(s2);
    PushNotes(s3, if Pop(s).1 != 0 then Pop(s1).1 else Pop(s2).1);
    PushNotes(s1, Pop(s).1);
    var v := Imm32(f.body, pc).0;
    PushNotes(s, ToI32(v));
    if v < |f.locals| { PushNotes(s, f.locals[v]); }
  }

  lemma ArithNotes(alu: Alu, s: State, op: byte, pc: nat)
    requires s.frames != [] && |s.stack| <= STACK_SIZE && !IsControl(op) && !IsLocal(op) && (op == 0x45 || IsBinary(op))
    ensures Notes(s, Arith(s, op, pc), Misuse(alu, s, op, pc))
  {
    hide Pop, Push, Binary;
    var s1, s2 := Pop(s).0, Pop(Pop(s).0).0;
    PopNotes(s);
    PopNotes(s1);
    PushNotes(s1, Flag(Pop(s).1 == 0));
    match Binary(op, Pop(s1).1, Pop(s).1)
    case None =>
    case Some(r) => PushNotes(s2, r);
  }

  lemma MemoryNotes(m: SasmModule, alu: Alu, s: State, op: byte, pc: nat)
    requires s.frames != [] && |s.stack| <= STACK_SIZE && !IsControl(op) && !IsLocal(op) && op != 0x45 && !IsBinary(op)
    requires IsLoad(op) || IsStore(op)
    ensures Notes(s, MemoryOp(m, s, op, pc), Misuse(alu, s, op, pc))
  {
    hide Pop, Push, InBounds, Imm16, StoreValue, LoadValue;
    var s1, s2 := Pop(s).0, Pop(Pop(s).0).0;
    PopNotes(s);
    PopNotes(s1);
    var w := Width(op);
    var addr := Wrap(Pop(s).1 + Imm16(Top(s).body, Imm16(Top(s).body, pc).1).0);
    if IsLoad(op) && addr + w <= |s1.memory| { PushNotes(s1, LoadValue(s1.memory, addr, w)); }
  }

  lemma WideNotes(alu: Alu, s: State, op: byte, pc: nat)
    requires s.frames != [] && |s.stack| <= STACK_SIZE
    requires !IsControl(op) && !IsLocal(op) && op != 0x45 && !IsBinary(op) && !IsLoad(op) && !IsStore(op)
    ensures Notes(s, Wide(alu, s, op, pc), Misuse(alu, s, op, pc))
  {
    hide PopN, PushAll, Shape, Imms;
    match Shape(op)
    case None =>
    case Some((ni, np)) =>
      PopNNotes(s, np);
      match alu(op, Imms(Top(s).body, pc, ni).0, PopN(s, np).1)
      case None =>
      case Some(rs) => PushAllNotes(PopN(s, np).0, rs);
  }

  /** One instruction that goes on: an error is noted exactly if one was, or the stack is misused. */
  lemma StepNotes(m: SasmModule, alu: Alu, s: State)
    requires Sound(m) && Ready(m, s)
    ensures Notes(s, Step(m, alu, s), Misuses(alu, s))
  {
    hide Sound, FrameOk, DepthLimit, Control, Local, Arith, MemoryOp, Wide, Misuse, IsControl, IsLocal, IsBinary, IsLoad, IsStore;
    var s1 := s.(cycles := s.cycles + 1);
    if Top(s).pc < |Top(s).body| {
      var op, pc := Top(s).body[Top(s).pc], Top(s).pc + 1;
      if IsControl(op) { ControlNotes(m, alu, s1, op, pc); }
      else if IsLocal(op) { LocalNotes(m, alu, s1, op, pc); }
      else if op == 0x45 || IsBinary(op) { ArithNotes(alu, s1, op, pc); }
      else if IsLoad(op) || IsStore(op) { MemoryNotes(m, alu, s1, op, pc); }
      else { WideNotes(alu, s1, op, pc); }
    }
  }

  /** Within a scan an error that has been noted stays noted. */
  lemma {:induction false} NotedSoFar(m: SasmModule, alu: Alu, tr: seq<State>, k: nat)
    requires Sound(m) && IsRun(m, alu, tr) && k < |tr|
    ensures tr[k].lastError == VM_OK <==> tr[0].lastError == VM_OK && forall i :: 0 <= i < k ==> !Misuses(alu, tr[i])
  {
    hide Sound, Step, Bounded, Misuses;
    if k > 0 {
      assert Ready(m, tr[k - 1]);
      NotedSoFar(m, alu, tr, k - 1);
      StepNotes(m, alu, tr[k - 1]);
      assert Step(m, alu, tr[k - 1]) == Next(tr[k]);
    }
  }

  /** A machine stops with success only where its code ends, or at the outermost RETURN. */
  lemma StopsWell(m: SasmModule, alu: Alu, s: State)
    requires Sound(m) && Ready(m, s) && Step(m, alu, s).Halt? && Step(m, alu, s).code == VM_OK
    ensures Step(m, alu, s).last.lastError == s.lastError && !Misuses(alu, s)
  {
    hide Sound, FrameOk, FindBody, Shape, Pop, PopN, Push, PushAll, InBounds, Imm32, Imm16, Imms, DepthLimit, Binary;
    var s1 := s.(cycles := s.cycles + 1);
    if Top(s).pc < |Top(s).body| && Top(s).body[Top(s).pc] == 0x10 {
      var (f, p) := Imm32(Top(s).body, Top(s).pc + 1);
      PushFrameExact(m, SetTop(s1, Top(s1).(pc := Wrap(p))), f);
    }
  }

  /** A scan that ends well has a clean `lastError` exactly if no instruction popped more than there
      was or pushed onto a full stack. In every other such scan the fault goes unreported. */
  lemma ReportedExactly(m: SasmModule, alu: Alu, s: State)
    requires Sound(m) && |s.stack| <= STACK_SIZE && |s.memory| <= MAX_MEMORY
    requires Scan(m, alu, s).Halt? && Scan(m, alu, s).code == VM_OK
    ensures Ready(m, Started(m, s))
    ensures var tr := Trace(m, alu, Started(m, s));
            Scan(m, alu, s).last.lastError == VM_OK <==> forall i :: 0 <= i < |tr| ==> !Misuses(alu, tr[i])
  {
    hide Sound, Step, Misuses, Ready, Trace;
    StartReady(m, s);
    var tr := Trace(m, alu, Started(m, s));
    TraceRuns(m, alu, Started(m, s));
    NotedSoFar(m, alu, tr, |tr| - 1);
    StopsWell(m, alu, tr[|tr| - 1]);
  }

  /** Popping an empty stack is noted in `lastError` but the scan still ends well. */
  lemma UnderflowUnreported(m: SasmModule, alu: Alu, s: State)
    requires Sound(m) && m.pool == [0x1A] && s.stack == [] && |s.memory| <= MAX_MEMORY
    ensures Scan(m, alu, s).Halt? && Scan(m, alu, s).code == VM_OK && Scan(m, alu, s).last.lastError == STACK_UNDERFLOW
  {
    hide Sound, Bounded, FrameOk, FindBody, DepthLimit, PushFrame;
    StartReady(m, s);
    var s0 := Started(m, s);
    SoundFuncs(m);
    var i := BodyFound(m, m.entry);
    assert Top(s0).body == [0x1A];
    StepKept(m, alu, s0);
    DropStep(m, alu, s0);
    var t := Step(m, alu, s0).next;
    assert Trace(m, alu, t) == [t];
    assert Trace(m, alu, s0) == [s0] + [t];
  }

  lemma DropStep(m: SasmModule, alu: Alu, s: State)
    requires s.frames != [] && Top(s).pc == 0 && Top(s).body == [0x1A] && s.stack == [] && s.cycles == 0
    requires m.safety.cycleLimit > 0
    ensures Step(m, alu, s).Next?
    ensures var t := Step(m, alu, s).next;
            t.frames != [] && Step(m, alu, t) == Halt(t, VM_OK) && t.lastError == STACK_UNDERFLOW
  {
    var t := Step(m, alu, s).next;
    assert Top(t) == Top(s).(pc := 1);
  }

  // ---------- accesses that leave the linear memory ----------

  /** The address and width the load or store at hand accesses; None if it accesses no memory. */
  function Access(s: State, op: byte, pc: nat): Option<(u32, nat)>
    requires s.frames != []
  {
    var offset := Imm16(Top(s).body, Imm16(Top(s).body, pc).1).0;
    if IsLoad(op) then Some((Wrap(Pop(s).1 + offset), Width(op)))
    else if IsStore(op) then
      var addr := Wrap(Pop(Pop(s).0).1 + offset);
      if Width(op) == 4 && IsPort(addr) then None else Some((addr, Width(op)))
    else None
  }

  /** The end of the access wraps around to somewhere the bounds check admits. */
  ghost predicate Wraps(m: SasmModule, s: State, addr: u32, width: nat) {
    && addr + width >= 0x1_0000_0000
    && addr + width - 0x1_0000_0000 <= |s.memory|
    && (m.safety.ranges == [] || exists i :: 0 <= i < |m.safety.ranges| && addr >= m.safety.ranges[i].low
                                           && addr + width - 0x1_0000_0000 <= m.safety.ranges[i].high)
  }

  /** An access passes the bounds check and yet leaves memory exactly if its end wraps like that. */
  lemma StraysExactly(m: SasmModule, s: State, addr: u32, width: nat)
    requires width in {1, 4} && |s.memory| <= MAX_MEMORY
    ensures InBounds(m, s, addr, width) && addr + width > |s.memory| <==> Wraps(m, s, addr, width)
  {
    if addr + width < 0x1_0000_0000 {
      assert Wrap(addr + width) == addr + width;
    } else {
      assert Wrap(addr + width) == addr + width - 0x1_0000_0000;
    }
  }

  /** What the state is about to access, if it executes a load or a store. */
  function NextAccess(m: SasmModule, s: State): Option<(u32, nat)> {
    if s.frames == [] || Top(s).pc >= |Top(s).body| || s.cycles >= m.safety.cycleLimit then None
    else
      var (op, pc) := (Top(s).body[Top(s).pc], Top(s).pc + 1);
      if IsControl(op) || IsLocal(op) || op == 0x45 || IsBinary(op) then None else Access(s, op, pc)
  }

  ghost predicate WrapsNext(m: SasmModule, s: State) {
    NextAccess(m, s).Some? && Wraps(m, s, NextAccess(m, s).value.0, NextAccess(m, s).value.1)
  }

  lemma PopSame(s: State, n: nat)
    ensures Pop(s.(cycles := n)).1 == Pop(s).1 && Pop(s.(cycles := n)).0 == Pop(s).0.(cycles := n)
    ensures Pop(s).0.memory == s.memory && Pop(s).0.frames == s.frames
  {
  }

  lemma MemoryStrays(m: SasmModule, s: State, op: byte, pc: nat)
    requires s.frames != [] && |s.memory| <= MAX_MEMORY && (IsLoad(op) || IsStore(op))
    ensures MemoryOp(m, s, op, pc).Stray? <==> Access(s, op, pc).Some? && Wraps(m, s, Access(s, op, pc).value.0, Access(s, op, pc).value.1)
  {
    hide Pop, Push, Imm16, StoreValue, LoadValue, Wraps, Wrap, InBounds, IsPort;
    PopSame(s, s.cycles);
    PopSame(Pop(s).0, s.cycles);
    var offset := Imm16(Top(s).body, Imm16(Top(s).body, pc).1).0;
    var a := if IsLoad(op) then Wrap(Pop(s).1 + offset) else Wrap(Pop(Pop(s).0).1 + offset);
    var t := if IsLoad(op) then Pop(s).0 else Pop(Pop(s).0).0;
    StraysExactly(m, s, a, Width(op));
    SameBounds(m, s, t, a, Width(op));
  }

  lemma SameBounds(m: SasmModule, s: State, t: State, addr: u32, width: nat)
    requires t.memory == s.memory
    ensures InBounds(m, s, addr, width) == InBounds(m, t, addr, width) && Wraps(m, s, addr, width) == Wraps(m, t, addr, width)
  {
  }

  lemma StepStrays(m: SasmModule, alu: Alu, s: State)
    requires Sound(m) && Ready(m, s)
    ensures Step(m, alu, s).Stray? <==> WrapsNext(m, s)
  {
    hide Sound, FrameOk, DepthLimit, Wraps, Access, MemoryOp, PushFrame, FindBody, PopN, PushAll, Shape, Imms, Pop, Push,
         Imm32, Imm16, Binary;
    SoundFuncs(m);
    var s1 := s.(cycles := s.cycles + 1);
    if Top(s).pc < |Top(s).body| && s.cycles < m.safety.cycleLimit {
      var op, pc := Top(s).body[Top(s).pc], Top(s).pc + 1;
      if !IsControl(op) && !IsLocal(op) && op != 0x45 && !IsBinary(op) {
        SameAccess(s, s1, op, pc);
        if IsLoad(op) || IsStore(op) { MemoryStrays(m, s1, op, pc); }
        if Access(s, op, pc).Some? {
          SameBounds(m, s, s1, Access(s, op, pc).value.0, Access(s, op, pc).value.1);
        }
      }
    }
  }

  lemma SameAccess(s: State, s1: State, op: byte, pc: nat)
    requires s.frames != [] && s1 == s.(cycles := s.cycles + 1)
    ensures Access(s1, op, pc) == Access(s, op, pc) && (Access(s, op, pc).Some? ==> IsLoad(op) || IsStore(op))
  {
    hide Pop, Imm16, Wrap, IsPort;
    PopSame(s, s.cycles + 1);
    PopSame(Pop(s).0, s.cycles + 1);
  }

  /** A scan leaves memory exactly if one of its accesses wraps around; up to there only permitted
      bytes have been written. A scan whose accesses end below 2^32 stays inside. */
  lemma ScanStrays(m: SasmModule, alu: Alu, s: State)
    requires Sound(m) && |s.stack| <= STACK_SIZE && |s.memory| <= MAX_MEMORY
    ensures Ready(m, Started(m, s))
    ensures var tr := Trace(m, alu, Started(m, s));
            && (Scan(m, alu, s).Stray? <==> exists i :: 0 <= i < |tr| && WrapsNext(m, tr[i]))
            && (Scan(m, alu, s).Stray? <==> WrapsNext(m, tr[|tr| - 1]))
            && (forall i :: 0 <= i < |tr| ==> Bounded(m, tr[i]) && Touched(m, s.memory, tr[i].memory))
  {
    hide Sound, Step, Bounded, Touched, Trace, WrapsNext;
    StartReady(m, s);
    var tr := Trace(m, alu, Started(m, s));
    TraceRuns(m, alu, Started(m, s));
    forall i | 0 <= i < |tr|
      ensures (WrapsNext(m, tr[i]) <==> Step(m, alu, tr[i]).Stray?) && Bounded(m, tr[i]) && Touched(m, s.memory, tr[i].memory)
    {
      assert Ready(m, tr[i]);
      StepStrays(m, alu, tr[i]);
      TouchedPrefix(m, alu, tr, i);
    }
    forall i | 0 <= i < |tr| - 1 ensures !WrapsNext(m, tr[i]) {
      assert Step(m, alu, tr[i + 1 - 1]) == Next(tr[i + 1]);
    }
  }

  /** A scan whose accesses all end below 2^32 stays in memory. */
  lemma StaysInside(m: SasmModule, alu: Alu, s: State)
    requires Sound(m) && |s.stack| <= STACK_SIZE && |s.memory| <= MAX_MEMORY && Ready(m, Started(m, s))
    requires forall i :: 0 <= i < |Trace(m, alu, Started(m, s))| && NextAccess(m, Trace(m, alu, Started(m, s))[i]).Some? ==>
               var (addr, width) := NextAccess(m, Trace(m, alu, Started(m, s))[i]).value; addr + width < 0x1_0000_0000
    ensures Scan(m, alu, s).Halt?
  {
    hide Sound, Step, Bounded, Touched, Trace, Scan, NextAccess;
    ScanStrays(m, alu, s);
    ScanBounded(m, alu, s);
  }

  // ---------- a program that writes outside memory ----------

  /** A module with one function of no parameters and locals, and no declared ranges. */
  function Program(code: seq<byte>): SasmModule
    requires |code| <= MAX_FUNCTION_CODE
  {
    SasmModule(VERSION, 0, [FuncType([], [])], [FuncDecl(0, [])], MAX_MEMORY, [], [], [FuncCode(0, 0, |code|)], code,
               Safety(0, 1000, 1, [], [], []), 0)
  }

  lemma ProgramSound(code: seq<byte>)
    requires 0 < |code| <= MAX_FUNCTION_CODE
    ensures Sound(Program(code)) && FindBody(Program(code), 0, 0) == Some(code)
  {
    assert code[0..0 + |code|] == code;
  }

  /** Constants -1 and 7, and a one-byte store of the one at the other. */
  const STORE_BEYOND: seq<byte> := [0x41, 0xFF, 0xFF, 0xFF, 0xFF, 0x41, 7, 0, 0, 0, 0x3A, 0, 0, 0, 0]

  lemma ConstStep(m: SasmModule, alu: Alu, s: State, v: u32)
    requires s.frames != [] && s.cycles < m.safety.cycleLimit && |s.stack| < STACK_SIZE
    requires Top(s).pc + 5 <= |Top(s).body| < 0x1_0000_0000 && Top(s).body[Top(s).pc] == 0x41
    requires Top(s).body[Top(s).pc + 1..Top(s).pc + 5] == Put32(v)
    ensures Step(m, alu, s).Next?
    ensures var t := Step(m, alu, s).next;
            && t.stack == s.stack + [ToI32(v)] && t.frames != [] && Top(t) == Top(s).(pc := Top(s).pc + 5)
            && t.cycles == s.cycles + 1 && t.memory == s.memory
  {
    var (body, at) := (Top(s).body, Top(s).pc + 1);
    assert body[at..] == Put32(v) + body[at + 4..];
    Get32Put32(v, body[at + 4..]);
    assert Wrap(at + 4) == at + 4;
  }

  lemma FirstFrame(s: State)
    requires s.stack == [] && |s.memory| <= MAX_MEMORY
    ensures var m := Program(STORE_BEYOND);
            && Sound(m) && Ready(m, Started(m, s)) && m.safety.cycleLimit == 1000 && m.safety.ranges == []
            && var s0 := Started(m, s); s0.frames != [] && Top(s0).body == STORE_BEYOND && Top(s0).pc == 0 && s0.stack == [] && s0.cycles == 0
  {
    hide Sound, Bounded, FrameOk, FindBody, DepthLimit, PushFrame;
    ProgramSound(STORE_BEYOND);
    StartReady(Program(STORE_BEYOND), s);
  }

  lemma StoreCode()
    ensures |STORE_BEYOND| == 15 && STORE_BEYOND[0] == 0x41 && STORE_BEYOND[1..5] == Put32(0xFFFF_FFFF)
    ensures STORE_BEYOND[5] == 0x41 && STORE_BEYOND[6..10] == Put32(7)
    ensures ToI32(0xFFFF_FFFF) == -1 && ToI32(7) == 7
  {
    assert Put32(0xFFFF_FFFF) == [0xFF, 0xFF, 0xFF, 0xFF] && Put32(7) == [7, 0, 0, 0];
    assert STORE_BEYOND[1..5] == [0xFF, 0xFF, 0xFF, 0xFF];
    assert STORE_BEYOND[6..10] == [7, 0, 0, 0];
    assert Wrap(0xFFFF_FFFF) == 0xFFFF_FFFF && Wrap(7) == 7;
  }

  lemma TraceOf(m: SasmModule, alu: Alu, s: State)
    requires Sound(m) && Ready(m, s)
    ensures Step(m, alu, s).Next? ==> Ready(m, Step(m, alu, s).next) && Trace(m, alu, s) == [s] + Trace(m, alu, Step(m, alu, s).next)
    ensures !Step(m, alu, s).Next? ==> Trace(m, alu, s) == [s]
  {
    hide Sound, Bounded, Step;
    StepKept(m, alu, s);
  }

  /** The validator accepts the program, and its first scan writes at the address 0xFFFF_FFFF. */
  lemma StoreLeavesMemory(alu: Alu, s: State)
    requires s.stack == [] && |s.memory| <= MAX_MEMORY
    ensures Sound(Program(STORE_BEYOND)) && Scan(Program(STORE_BEYOND), alu, s).Stray?
  {
    hide *;
    Sizes();
    StoreCode();
    var m := Program(STORE_BEYOND);
    FirstFrame(s);
    var s0 := Started(m, s);
    ConstStep(m, alu, s0, 0xFFFF_FFFF);
    TraceOf(m, alu, s0);
    var s1 := Step(m, alu, s0).next;
    ConstStep(m, alu, s1, 7);
    TraceOf(m, alu, s1);
    var s2 := Step(m, alu, s1).next;
    WrappingStore(m, s2);
    StepStrays(m, alu, s2);
    TraceOf(m, alu, s2);
    assert Trace(m, alu, s0) == [s0, s1, s2];
    ScanStrays(m, alu, s);
  }

  lemma Sizes()
    ensures STACK_SIZE == 1024 && MAX_MEMORY == MAX_FUNCTION_CODE == 1048576
  {
  }

  lemma WrappingStore(m: SasmModule, s: State)
    requires s.frames != [] && Top(s).pc == 10 && Top(s).body == STORE_BEYOND && s.stack == [-1, 7]
    requires s.cycles < m.safety.cycleLimit && m.safety.ranges == []
    ensures WrapsNext(m, s)
  {
    assert STORE_BEYOND[11..] == Put16(0) + STORE_BEYOND[13..] && STORE_BEYOND[13..] == Put16(0) + [];
    Get16Put16(0, STORE_BEYOND[13..]);
    Get16Put16(0, []);
    assert Imm16(STORE_BEYOND, 11) == (0, 13) && Imm16(STORE_BEYOND, 13) == (0, 15);
    assert Pop(Pop(s).0).1 == -1;
    assert Wrap(-1) == 0xFFFF_FFFF;
  }
}
