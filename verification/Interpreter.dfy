/** `safeasm_interp.c`: the machine that runs in place, instruction by instruction. */
module Interpreter {
  import opened Bytes
  import opened Results
  import opened SasmFormat
  import opened SasmLoader
  import opened Machine
  import opened MachineTheory

  /** How an instruction left the dispatch: on to the next, out with a code, or out of memory
      bounds that the check let through. */
  datatype Signal = GoOn | Stop(code: int) | Gone

  function Seen(sig: Signal, s: State): Outcome {
    match sig
    case GoOn => Next(s)
    case Stop(code) => Halt(s, code)
    case Gone => Stray
  }

  /** The size of the linear memory: the module's if it states a legal one. */
  function MemorySize(m: SasmModule, otherwise: nat): nat {
    if 0 < m.memory <= MAX_MEMORY then m.memory else otherwise
  }

  /** All zero, nothing running. */
  function Cleared(size: nat): State {
    State([], [], seq(size, _ => 0), 0, 0, 0, VM_OK)
  }

  class Vm {
    var module_: SasmModule
    const valStack: array<i32>
    var sp: nat
    var frames: seq<Frame>
    var maxFrames: nat
    var maxStack: nat
    const memory: array<byte>
    var memorySize: nat
    var cycles: nat
    var lastError: int

    ghost predicate Valid()
      reads this
    {
      && valStack.Length == STACK_SIZE && memory.Length == MAX_MEMORY
      && sp <= STACK_SIZE && memorySize <= MAX_MEMORY
    }

    /** The machine as a value. */
    ghost function Abs(): State
      requires Valid()
      reads this, valStack, memory
    {
      State(valStack[..sp], frames, memory[..memorySize], cycles, maxFrames, maxStack, lastError)
    }

    // ---------- life cycle ----------

    /** `vm_init`. */
    constructor (m: SasmModule, size: u32)
      ensures Valid() && fresh(valStack) && fresh(memory) && module_ == m
      ensures Abs() == Cleared(MemorySize(m, if 0 < size <= MAX_MEMORY then size else MAX_MEMORY))
    {
      module_ := m;
      valStack := new i32[STACK_SIZE](_ => 0);
      memory := new byte[MAX_MEMORY](_ => 0);
      memorySize := if m.memory > 0 && m.memory <= MAX_MEMORY then m.memory
                    else if size > 0 && size <= MAX_MEMORY then size else MAX_MEMORY;
      sp, frames, maxFrames, maxStack, cycles, lastError := 0, [], 0, 0, 0, VM_OK;
    }

    /** `vm_rebind`: another program, and nothing left of the one before. */
    method Rebind(m: SasmModule) returns (rc: int)
      requires Valid()
      modifies this, memory
      ensures Valid() && rc == 0 && module_ == m && Abs() == Cleared(MemorySize(m, old(memorySize)))
    {
      module_ := m;
      if m.memory > 0 && m.memory <= MAX_MEMORY { memorySize := m.memory; }
      sp, frames, maxFrames, maxStack, cycles, lastError := 0, [], 0, 0, 0, VM_OK;
      for i := 0 to memorySize
        modifies memory
        invariant Valid() && forall k :: 0 <= k < i ==> memory[k] == 0
      {
        memory[i] := 0;
      }
      return 0;
    }

    // ---------- the value stack ----------

    method PushValue(v: i32)
      requires Valid()
      modifies `sp, `maxStack, `lastError, valStack
      ensures Valid() && Abs() == Push(old(Abs()), v)
    {
      if sp >= STACK_SIZE {
        lastError := STACK_OVERFLOW;
        return;
      }
      valStack[sp] := v;
      sp := sp + 1;
      if sp > maxStack { maxStack := sp; }
    }

    method PopValue() returns (v: i32)
      requires Valid()
      modifies `sp, `lastError
      ensures Valid() && (Abs(), v) == Pop(old(Abs()))
    {
      if sp == 0 {
        lastError := STACK_UNDERFLOW;
        return 0;
      }
      sp := sp - 1;
      assert valStack[..sp + 1][..sp] == valStack[..sp];
      return valStack[sp];
    }

    method PopMany(n: nat) returns (vs: seq<i32>)
      requires Valid()
      modifies `sp, `lastError
      ensures Valid() && (Abs(), vs) == PopN(old(Abs()), n)
      decreases n
    {
      if n == 0 { return []; }
      var v := PopValue();
      var rest := PopMany(n - 1);
      return rest + [v];
    }

    method PushMany(vs: seq<i32>)
      requires Valid()
      modifies `sp, `maxStack, `lastError, valStack
      ensures Valid() && Abs() == PushAll(old(Abs()), vs)
      decreases |vs|
    {
      if vs != [] {
        PushValue(vs[0]);
        PushMany(vs[1..]);
      }
    }

    // ---------- the frame stack ----------

    /** `push_frame`, with its search for the code body. */
    method PushFrame(f: nat) returns (ok: bool)
      requires Valid()
      modifies `frames, `maxFrames, `lastError
      ensures Valid() && (Abs(), ok) == Machine.PushFrame(module_, old(Abs()), f)
    {
      var m := module_;
      var depth := m.safety.stackDepth;
      if f >= |m.funcs| || f >= MAX_FUNCTIONS { lastError := INVALID_OPCODE; return false; }
      if |m.funcs[f].locals| > MAX_LOCALS { lastError := INVALID_OPCODE; return false; }
      if depth == 0 || depth > MAX_CALL_DEPTH { depth := MAX_CALL_DEPTH; }
      if |frames| >= depth { lastError := FRAME_OVERFLOW; return false; }
      if |frames| + 1 > maxFrames { maxFrames := |frames| + 1; }
      var i := 0;
      while i < |m.codes| && m.codes[i].func != f
        invariant i <= |m.codes| && FindBody(m, f, i) == FindBody(m, f, 0)
      {
        i := i + 1;
      }
      if i == |m.codes| { lastError := INVALID_OPCODE; return false; }
      var (offset, size) := (m.codes[i].offset, m.codes[i].size);
      if offset > |m.pool| || size > |m.pool| - offset { lastError := INVALID_OPCODE; return false; }
      frames := frames + [Frame(f, 0, Zeros(|m.funcs[f].locals|), m.pool[offset..offset + size], [])];
      return true;
    }

    method SetTop(f: Frame)
      requires Valid() && frames != []
      modifies `frames
      ensures Valid() && frames != [] && Abs() == Machine.SetTop(old(Abs()), f)
    {
      frames := frames[..|frames| - 1] + [f];
    }

    method Goto(pc: int)
      requires Valid() && frames != []
      modifies `frames
      ensures Valid() && Next(Abs()) == Go(old(Abs()), pc)
    {
      SetTop(frames[|frames| - 1].(pc := Wrap(pc)));
    }

    // ---------- groups of instructions ----------

    method DoArith(op: byte, pc: nat) returns (sig: Signal)
      requires Valid() && frames != []
      modifies `sp, `maxStack, `lastError, `frames, valStack
      ensures Valid() && Seen(sig, Abs()) == Arith(old(Abs()), op, pc)
    {
      hide Binary;
      if op == 0x45 {
        var v := PopValue();
        PushValue(Flag(v == 0));
      } else {
        var b := PopValue();
        var a := PopValue();
        var r := Binary(op, a, b);
        if r == None { return Stop(DIV_BY_ZERO); }
        PushValue(r.value);
      }
      Goto(pc);
      return GoOn;
    }

    method DoWide(alu: Alu, op: byte, pc: nat) returns (sig: Signal)
      requires Valid() && frames != []
      modifies `sp, `maxStack, `lastError, `frames, valStack
      ensures Valid() && Seen(sig, Abs()) == Wide(alu, old(Abs()), op, pc)
    {
      hide Shape, PopN, PushAll, Imms;
      var shape := Shape(op);
      if shape == None {
        lastError := INVALID_OPCODE;
        return Stop(INVALID_OPCODE);
      }
      var (imms, p) := Imms(frames[|frames| - 1].body, pc, shape.value.0);
      var args := PopMany(shape.value.1);
      var r := alu(op, imms, args);
      if r == None { return Stop(DIV_BY_ZERO); }
      PushMany(r.value);
      Goto(p);
      return GoOn;
    }

    /** `check_mem_bounds`. */
    method CheckBounds(addr: u32, size: nat) returns (ok: bool)
      requires Valid()
      ensures ok == InBounds(module_, Abs(), addr, size)
    {
      var end := Wrap(addr + size);
      if end > memorySize { return false; }
      var ranges := module_.safety.ranges;
      for i := 0 to |ranges|
        invariant forall k :: 0 <= k < i ==> !(addr >= ranges[k].low && end <= ranges[k].high)
      {
        if addr >= ranges[i].low && end <= ranges[i].high { return true; }
      }
      return |ranges| == 0;
    }

    method DoMemory(op: byte, pc: nat) returns (sig: Signal)
      requires Valid() && frames != [] && (IsLoad(op) || IsStore(op))
      modifies `sp, `maxStack, `lastError, `frames, valStack, memory
      ensures Valid() && Seen(sig, Abs()) == MemoryOp(module_, old(Abs()), op, pc)
    {
      hide InBounds, Get32, Put32, Get16, Pop, Push, Go, LoadValue, StoreValue;
      ghost var m, s := module_, Abs();
      var body := frames[|frames| - 1].body;
      var (align, p1) := Imm16(body, pc);
      var (offset, p) := Imm16(body, p1);
      var w := Width(op);
      var v := PopValue();
      PopStack(s);
      if IsLoad(op) {
        var addr := Wrap(v + offset);
        var ok := CheckBounds(addr, w);
        if !ok { return Stop(MEM_OUT_OF_BOUNDS); }
        if addr + w > memorySize { return Gone; }
        var x := LoadValue(memory[..memorySize], addr, w);
        PushValue(x);
        PushStack(Pop(s).0, x);
        Goto(p);
        return GoOn;
      }
      ghost var s1 := Abs();
      var a := PopValue();
      PopStack(s1);
      var addr := Wrap(a + offset);
      if w == 4 && IsPort(addr) {
        Goto(p);
        return GoOn;
      }
      var ok := CheckBounds(addr, w);
      if !ok { return Stop(MEM_OUT_OF_BOUNDS); }
      if addr + w > memorySize { return Gone; }
      StoreBytes(addr, w, v);
      Goto(p);
      return GoOn;
    }

    method StoreBytes(addr: nat, w: nat, v: i32)
      requires Valid() && w in {1, 4} && addr + w <= memorySize
      modifies memory
      ensures Abs() == old(Abs()).(memory := StoreValue(old(Abs()).memory, addr, w, v))
    {
      if w == 1 {
        memory[addr] := ToU32(v) % 256;
      } else {
        var b := Put32(ToU32(v));
        memory[addr] := b[0];
        memory[addr + 1] := b[1];
        memory[addr + 2] := b[2];
        memory[addr + 3] := b[3];
        assert b == [b[0], b[1], b[2], b[3]];
      }
    }

    method DoLocal(op: byte, pc: nat) returns (sig: Signal)
      requires Valid() && frames != []
      modifies `sp, `maxStack, `lastError, `frames, valStack
      ensures Valid() && Seen(sig, Abs()) == Local(old(Abs()), op, pc)
    {
      hide Get32, Pop, Push, Go, Machine.SetTop;
      ghost var s := Abs();
      var f := frames[|frames| - 1];
      var (v, p) := Imm32(f.body, pc);
      PopStack(s);
      if op == 0x1A {
        var _ := PopValue();
        Goto(pc);
      } else if op == 0x1B {
        var c := PopValue();
        var v1 := PopValue();
        PopStack(Pop(s).0);
        var v2 := PopValue();
        PopStack(Pop(Pop(s).0).0);
        PushValue(if c != 0 then v1 else v2);
        PushStack(Pop(Pop(Pop(s).0).0).0, if c != 0 then v1 else v2);
        Goto(pc);
      } else if op == 0xFC {
        Goto(Imm32(f.body, Imm8(f.body, pc).1).1);
      } else if op == 0x20 {
        if v < |f.locals| {
          PushValue(f.locals[v]);
          PushStack(s, f.locals[v]);
        }
        Goto(p);
      } else if op == 0x21 {
        if v < |f.locals| {
          var x := PopValue();
          SetTop(f.(locals := f.locals[v := x]));
        }
        Goto(p);
      } else if op == 0x22 {
        if v < |f.locals| {
          SetTop(f.(locals := f.locals[v := if sp == 0 then 0 else valStack[sp - 1]]));
        }
        Goto(p);
      } else if op == 0x41 {
        PushValue(ToI32(v));
        PushStack(s, ToI32(v));
        Goto(p);
      } else {
        var (high, q) := Imm32(f.body, p);
        var index := PopValue();
        if ToU32(index) < v || ToU32(index) >= high { return Stop(MEM_OUT_OF_BOUNDS); }
        PushValue(index);
        PushStack(Pop(s).0, index);
        Goto(q);
      }
      return GoOn;
    }

    method DoLabel(target: int, pc: nat)
      requires Valid() && frames != []
      modifies `frames
      ensures Valid() && Next(Abs()) == Label(old(Abs()), target, pc)
    {
      var f := frames[|frames| - 1];
      if |f.labels| < MAX_LABELS { SetTop(f.(labels := f.labels + [Wrap(target)])); }
      Goto(pc);
    }

    method DoBranch(depth: u32, pc: nat)
      requires Valid() && frames != []
      modifies `frames
      ensures Valid() && Next(Abs()) == Branch(old(Abs()), depth, pc)
    {
      var f := frames[|frames| - 1];
      if depth < |f.labels| {
        var target := |f.labels| - depth - 1;
        SetTop(f.(labels := f.labels[..target]));
        Goto(f.labels[target]);
      } else {
        Goto(pc);
      }
    }

    method DoCall(f: u32, pc: nat) returns (sig: Signal)
      requires Valid() && frames != []
      modifies `frames, `sp, `maxFrames, `lastError
      ensures Valid() && Seen(sig, Abs()) == Call(module_, old(Abs()), f, pc)
    {
      hide Machine.PushFrame, PopN;
      var m := module_;
      if f >= |m.funcs| || f >= MAX_FUNCTIONS { return Stop(INVALID_OPCODE); }
      if m.funcs[f].typeIdx >= |m.types| { return Stop(INVALID_OPCODE); }
      var n := |m.types[m.funcs[f].typeIdx].params|;
      if n > |m.funcs[f].locals| || n > MAX_PARAMS || sp < n { return Stop(STACK_UNDERFLOW); }
      SetTop(frames[|frames| - 1].(pc := Wrap(pc)));
      ghost var s0 := Abs();
      var ok := PushFrame(f);
      if !ok { return Stop(lastError); }
      PushedFrame(m, s0, f);
      var args := PopMany(n);
      var callee := frames[|frames| - 1];
      SetTop(callee.(locals := args + callee.locals[n..]));
      return GoOn;
    }

    method DoControl(op: byte, pc: nat) returns (sig: Signal)
      requires Valid() && frames != [] && IsControl(op)
      modifies `frames, `sp, `maxFrames, `lastError
      ensures Valid() && Seen(sig, Abs()) == Control(module_, old(Abs()), op, pc)
    {
      hide Call, Label, Branch, Go, Pop, Imm32;
      ghost var s := Abs();
      PopStack(s);
      if op == 0x00 { return Stop(UNREACHABLE); }
      if op == 0x01 {
        Goto(pc);
        return GoOn;
      }
      if op == 0x06 {
        frames := frames[..|frames| - 1];
        if frames == [] { return Stop(VM_OK); }
        return GoOn;
      }
      var (v, p) := Imm32(frames[|frames| - 1].body, pc);
      if op == 0x02 {
        DoLabel(p + v, p);
      } else if op == 0x03 {
        DoLabel(p - 5, p);
      } else if op == 0x04 {
        DoBranch(v, p);
      } else if op == 0x05 {
        var c := PopValue();
        if c != 0 { DoBranch(v, p); } else { Goto(p); }
      } else {
        sig := DoCall(v, p);
        return;
      }
      return GoOn;
    }

    // ---------- the dispatch loop ----------

    method Dispatch(alu: Alu, op: byte, pc: nat) returns (sig: Signal)
      requires Valid() && frames != []
      modifies `frames, `sp, `maxFrames, `maxStack, `lastError, valStack, memory
      ensures Valid() && Seen(sig, Abs()) == Execute(module_, alu, old(Abs()), op, pc)
    {
      hide Control, Local, Arith, MemoryOp, Wide;
      if IsControl(op) {
        sig := DoControl(op, pc);
      } else if IsLocal(op) {
        sig := DoLocal(op, pc);
      } else if op == 0x45 || IsBinary(op) {
        sig := DoArith(op, pc);
      } else if IsLoad(op) || IsStore(op) {
        sig := DoMemory(op, pc);
      } else {
        sig := DoWide(alu, op, pc);
      }
    }

    /** `vm_execute_cycle`: runs to the end of the trace and reports how it ended. */
    method ExecuteCycle(alu: Alu) returns (rc: int, stray: bool)
      requires Valid() && Sound(module_) && Ready(module_, Abs())
      modifies `frames, `sp, `cycles, `maxFrames, `maxStack, `lastError, valStack, memory
      ensures Valid()
      ensures var tr := Trace(module_, alu, old(Abs()));
              Ready(module_, tr[|tr| - 1]) &&
              Step(module_, alu, tr[|tr| - 1]) == (if stray then Stray else Halt(Abs(), rc))
    {
      hide Sound, Bounded, Execute, Trace;
      ghost var m, s0 := module_, Abs();
      TraceRuns(m, alu, s0);
      ghost var tr := Trace(m, alu, s0);
      ghost var k := 0;
      while frames[|frames| - 1].pc < |frames[|frames| - 1].body|
        invariant Valid() && module_ == m && k < |tr| && Abs() == tr[k] && Ready(m, Abs()) && frames != []
        decreases |tr| - k
      {
        ghost var s := Abs();
        StepKept(m, alu, s);
        cycles := cycles + 1;
        if cycles > module_.safety.cycleLimit && module_.safety.cycleLimit > 0 {
          assert Step(m, alu, s) == Halt(Abs(), CYCLE_LIMIT);
          LastOf(m, alu, tr, k);
          return CYCLE_LIMIT, false;
        }
        var f := frames[|frames| - 1];
        var sig := Dispatch(alu, f.body[f.pc], f.pc + 1);
        assert Step(m, alu, s) == Seen(sig, Abs());
        if sig == Gone {
          LastOf(m, alu, tr, k);
          return 0, true;
        }
        if sig.Stop? {
          LastOf(m, alu, tr, k);
          return sig.code, false;
        }
        NextOf(m, alu, tr, k);
        k := k + 1;
      }
      LastOf(m, alu, tr, k);
      return VM_OK, false;
    }

    /** `vm_run`: one scan. */
    method Run(alu: Alu) returns (rc: int, stray: bool)
      requires Valid() && Sound(module_)
      modifies `frames, `sp, `cycles, `maxFrames, `maxStack, `lastError, valStack, memory
      ensures Valid()
      ensures Scan(module_, alu, old(Abs())) == if stray then Stray else Halt(Abs(), rc)
    {
      hide Sound, Bounded, Trace, Step, Machine.PushFrame;
      ghost var s := Abs();
      StartReady(module_, s);
      cycles, maxFrames, maxStack, lastError, frames := 0, 0, 0, VM_OK, [];
      var ok := PushFrame(module_.entry);
      rc, stray := ExecuteCycle(alu);
    }

    /** `vm_get_result`: the bottom of the value stack, which need not be its top. */
    method Result() returns (v: i32)
      requires Valid()
      ensures v == if Abs().stack == [] then 0 else Abs().stack[0]
      ensures v == Peek(Abs()) <==> |Abs().stack| <= 1 || Abs().stack[0] == Abs().stack[|Abs().stack| - 1]
    {
      if sp == 0 { return 0; }
      return valStack[0];
    }
  }

  lemma RunStep(m: SasmModule, alu: Alu, tr: seq<State>, i: nat)
    requires IsRun(m, alu, tr) && 0 < i < |tr|
    ensures tr[i - 1].frames != [] && Step(m, alu, tr[i - 1]) == Next(tr[i])
  {
    hide Bounded, Step;
    assert Ready(m, tr[i - 1]);
  }

  /** A state of the run that does not go on is its last one. */
  lemma LastOf(m: SasmModule, alu: Alu, tr: seq<State>, k: nat)
    requires IsRun(m, alu, tr) && k < |tr| && Ready(m, tr[k]) && !Step(m, alu, tr[k]).Next?
    ensures k == |tr| - 1
  {
    hide IsRun, Bounded, Step;
    if k + 1 < |tr| {
      RunStep(m, alu, tr, k + 1);
    }
  }

  lemma NextOf(m: SasmModule, alu: Alu, tr: seq<State>, k: nat)
    requires IsRun(m, alu, tr) && k < |tr| && Ready(m, tr[k]) && Step(m, alu, tr[k]).Next?
    ensures k + 1 < |tr| && Step(m, alu, tr[k]) == Next(tr[k + 1]) && Ready(m, tr[k + 1])
  {
    hide Bounded, Step;
    if k + 1 < |tr| {
      RunStep(m, alu, tr, k + 1);
    }
  }

  lemma PushedFrame(m: SasmModule, s: State, f: nat)
    ensures Machine.PushFrame(m, s, f).1 ==>
              Machine.PushFrame(m, s, f).0.frames != [] && f < |m.funcs|
              && |Top(Machine.PushFrame(m, s, f).0).locals| == |m.funcs[f].locals|
  {
  }

  lemma PopStack(s: State)
    ensures Pop(s).0.frames == s.frames && Pop(s).0.memory == s.memory
  {
  }

  lemma PushStack(s: State, v: i32)
    ensures Push(s, v).frames == s.frames && Push(s, v).memory == s.memory
  {
  }
}
