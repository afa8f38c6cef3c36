/** What every scan of a validated module keeps: its bounds, its budget, and the frames below a call. */
module MachineTheory {
  import opened Bytes
  import opened Results
  import opened SasmFormat
  import opened SasmLoader
  import opened Machine

  // ---------- bounds ----------

  ghost predicate FrameOk(m: SasmModule, f: Frame) {
    && f.func < |m.funcs| && FindBody(m, f.func, 0) == Some(f.body) && |f.body| <= MAX_FUNCTION_CODE
    && |f.locals| == |m.funcs[f.func].locals| && |f.labels| <= MAX_LABELS
  }

  /** The limits the code promises, at any moment of a scan. */
  ghost predicate Bounded(m: SasmModule, s: State) {
    && |s.stack| <= STACK_SIZE && |s.frames| <= DepthLimit(m) && |s.frames| <= s.maxFrames && |s.memory| <= MAX_MEMORY
    && forall i :: 0 <= i < |s.frames| ==> FrameOk(m, s.frames[i])
  }

  /** The frames under the top one are the same. */
  ghost predicate SameBelow(s: State, t: State) {
    |t.frames| + 1 >= |s.frames| > 0 && t.frames[..|s.frames| - 1] == s.frames[..|s.frames| - 1]
  }

  /** The module's annotations let a program write here. */
  ghost predicate Permitted(m: SasmModule, a: nat) {
    m.safety.ranges == [] || exists i :: 0 <= i < |m.safety.ranges| && m.safety.ranges[i].low <= a < m.safety.ranges[i].high
  }

  /** Only permitted bytes differ. */
  ghost predicate Touched(m: SasmModule, before: seq<byte>, after: seq<byte>) {
    |after| == |before| && forall a :: 0 <= a < |before| && before[a] != after[a] ==> Permitted(m, a)
  }

  function Max(a: nat, b: nat): nat {
    if a < b then b else a
  }

  /** `t` differs from `s` in its stack, its memory bytes and its top frame at most. */
  ghost predicate Like(m: SasmModule, s: State, t: State) {
    && Bounded(m, t) && |t.frames| == |s.frames| && SameBelow(s, t)
    && t.cycles == s.cycles && Touched(m, s.memory, t.memory) && t.maxFrames == s.maxFrames
  }

  ghost predicate Kept(m: SasmModule, s: State, o: Outcome) {
    match o
    case Stray => true
    case Next(t) =>
      && Bounded(m, t) && t.frames != [] && SameBelow(s, t) && t.cycles == s.cycles && Touched(m, s.memory, t.memory)
      && t.maxFrames == Max(s.maxFrames, |t.frames|)
    case Halt(t, _) =>
      && Bounded(m, t) && SameBelow(s, t) && t.cycles == s.cycles && Touched(m, s.memory, t.memory)
      && t.maxFrames == s.maxFrames
  }

  lemma LikeSelf(m: SasmModule, s: State)
    requires Bounded(m, s) && s.frames != []
    ensures Like(m, s, s)
  {
  }

  lemma SetTopLike(m: SasmModule, s: State, t: State, f: Frame)
    requires Like(m, s, t) && FrameOk(m, f)
    ensures Like(m, s, SetTop(t, f)) && Top(SetTop(t, f)) == f
  {
    hide FrameOk, DepthLimit;
  }

  lemma TopOk(m: SasmModule, s: State, t: State)
    requires Like(m, s, t)
    ensures t.frames != [] && FrameOk(m, Top(t)) && |Top(t).labels| <= MAX_LABELS && |Top(t).body| <= MAX_FUNCTION_CODE
  {
  }

  lemma GoKept(m: SasmModule, s: State, t: State, pc: int)
    requires Like(m, s, t)
    ensures t.frames != [] && Kept(m, s, Go(t, pc))
  {
    TopOk(m, s, t);
    assert FrameOk(m, Top(t).(pc := Wrap(pc)));
    SetTopLike(m, s, t, Top(t).(pc := Wrap(pc)));
    hide FrameOk, DepthLimit;
  }

  /** Stack traffic leaves a state like it was. */
  lemma StackLike(m: SasmModule, s: State, t: State, u: State)
    requires Like(m, s, t) && |u.stack| <= STACK_SIZE
    requires u == t.(stack := u.stack, maxStack := u.maxStack, lastError := u.lastError)
    ensures Like(m, s, u)
  {
    hide FrameOk, DepthLimit;
  }

  lemma PopLike(m: SasmModule, s: State, t: State)
    requires Like(m, s, t)
    ensures Like(m, s, Pop(t).0)
  {
    StackLike(m, s, t, Pop(t).0);
    hide FrameOk, DepthLimit;
  }

  lemma PushLike(m: SasmModule, s: State, t: State, v: i32)
    requires Like(m, s, t)
    ensures Like(m, s, Push(t, v))
  {
    StackLike(m, s, t, Push(t, v));
    hide FrameOk, DepthLimit;
  }

  // ---------- each group of instructions ----------

  lemma ArithKept(m: SasmModule, s: State, op: byte, pc: nat)
    requires Bounded(m, s) && s.frames != []
    ensures Kept(m, s, Arith(s, op, pc))
  {
    hide Bounded, SameBelow, Binary, Go, Push, Pop;
    LikeSelf(m, s);
    PopLike(m, s, s);
    var (s1, b) := Pop(s);
    if op == 0x45 {
      PushLike(m, s, s1, Flag(b == 0));
      GoKept(m, s, Push(s1, Flag(b == 0)), pc);
    } else {
      PopLike(m, s, s1);
      var (s2, a) := Pop(s1);
      if Binary(op, a, b).Some? {
        PushLike(m, s, s2, Binary(op, a, b).value);
        GoKept(m, s, Push(s2, Binary(op, a, b).value), pc);
      } else {
        HaltKept(m, s, s2, DIV_BY_ZERO);
      }
    }
  }

  lemma HaltKept(m: SasmModule, s: State, t: State, code: int)
    requires Like(m, s, t)
    ensures Kept(m, s, Halt(t, code))
  {
    hide Bounded;
  }

  lemma WideKept(m: SasmModule, alu: Alu, s: State, op: byte, pc: nat)
    requires Bounded(m, s) && s.frames != []
    ensures Kept(m, s, Wide(alu, s, op, pc))
  {
    hide Bounded, SameBelow, Go, PushAll, PopN, Shape, Imms;
    LikeSelf(m, s);
    BoundedStack(m, s);
    if Shape(op).Some? {
      var (ni, np) := Shape(op).value;
      var (imms, p) := Imms(Top(s).body, pc, ni);
      var (s1, args) := PopN(s, np);
      StackLike(m, s, s, s1);
      match alu(op, imms, args)
      case None => HaltKept(m, s, s1, DIV_BY_ZERO);
      case Some(rs) =>
        StackLike(m, s, s1, PushAll(s1, rs));
        GoKept(m, s, PushAll(s1, rs), p);
    } else {
      StackLike(m, s, s, s.(lastError := INVALID_OPCODE));
      HaltKept(m, s, s.(lastError := INVALID_OPCODE), INVALID_OPCODE);
    }
  }

  lemma BoundedStack(m: SasmModule, s: State)
    requires Bounded(m, s)
    ensures |s.stack| <= STACK_SIZE && |s.memory| <= MAX_MEMORY
  {
  }

  lemma MemoryLike(m: SasmModule, s: State, t: State, memory: seq<byte>)
    requires Like(m, s, t) && Touched(m, s.memory, memory)
    ensures Like(m, s, t.(memory := memory))
  {
    hide FrameOk, DepthLimit;
  }

  lemma PopMemory(s: State)
    ensures Pop(s).0.memory == s.memory
  {
  }

  /** A store that passes the bounds check and stays in memory writes permitted bytes only. */
  lemma StoreTouches(m: SasmModule, s: State, addr: u32, width: nat, v: i32)
    requires width in {1, 4} && InBounds(m, s, addr, width) && addr + width <= |s.memory| <= MAX_MEMORY
    ensures Touched(m, s.memory, StoreValue(s.memory, addr, width, v))
  {
    var after := StoreValue(s.memory, addr, width, v);
    assert Wrap(addr + width) == addr + width;
    forall a | 0 <= a < |s.memory| && s.memory[a] != after[a] ensures Permitted(m, a) {
      assert addr <= a < addr + width;
      if m.safety.ranges != [] {
        var i :| 0 <= i < |m.safety.ranges| && addr >= m.safety.ranges[i].low && addr + width <= m.safety.ranges[i].high;
        assert m.safety.ranges[i].low <= a < m.safety.ranges[i].high;
      }
    }
  }

  lemma MemoryKept(m: SasmModule, s: State, op: byte, pc: nat)
    requires Bounded(m, s) && s.frames != [] && (IsLoad(op) || IsStore(op))
    ensures Kept(m, s, MemoryOp(m, s, op, pc))
  {
    hide Bounded, SameBelow, Go, Push, Pop, InBounds, StoreValue, LoadValue, Like, Kept, Get32, Get16, Put32;
    LikeSelf(m, s);
    PopLike(m, s, s);
    var body := Top(s).body;
    var (align, p1) := Imm16(body, pc);
    var (offset, p) := Imm16(body, p1);
    var w := Width(op);
    var (s1, v) := Pop(s);
    HaltKept(m, s, s1, MEM_OUT_OF_BOUNDS);
    StrayKept(m, s);
    if IsLoad(op) {
      var addr := Wrap(v + offset);
      if InBounds(m, s1, addr, w) && addr + w <= |s1.memory| {
        PushLike(m, s, s1, LoadValue(s1.memory, addr, w));
        GoKept(m, s, Push(s1, LoadValue(s1.memory, addr, w)), p);
      }
    } else {
      PopLike(m, s, s1);
      var (s2, a) := Pop(s1);
      var addr := Wrap(a + offset);
      GoKept(m, s, s2, p);
      HaltKept(m, s, s2, MEM_OUT_OF_BOUNDS);
      if InBounds(m, s2, addr, w) && addr + w <= |s2.memory| {
        BoundedStack(m, s);
        PopMemory(s);
        PopMemory(s1);
        StoreTouches(m, s2, addr, w, v);
        MemoryLike(m, s, s2, StoreValue(s2.memory, addr, w, v));
        GoKept(m, s, s2.(memory := StoreValue(s2.memory, addr, w, v)), p);
      }
    }
  }

  lemma StrayKept(m: SasmModule, s: State)
    ensures Kept(m, s, Stray)
  {
  }

  lemma LocalKept(m: SasmModule, s: State, op: byte, pc: nat)
    requires Bounded(m, s) && s.frames != []
    ensures Kept(m, s, Local(s, op, pc))
  {
    hide Bounded, SameBelow, Go, Push, Pop, Like, Kept, Get32, FrameOk;
    LikeSelf(m, s);
    TopOk(m, s, s);
    PopLike(m, s, s);
    var f := Top(s);
    var (s1, c) := Pop(s);
    var (v, p) := Imm32(f.body, pc);
    GoKept(m, s, s1, pc);
    GoKept(m, s, s, p);
    HaltKept(m, s, s1, MEM_OUT_OF_BOUNDS);
    if op == 0x1A {
    } else if op == 0x1B {
      PopLike(m, s, s1);
      var (s2, v1) := Pop(s1);
      PopLike(m, s, s2);
      var (s3, v2) := Pop(s2);
      PushLike(m, s, s3, if c != 0 then v1 else v2);
      GoKept(m, s, Push(s3, if c != 0 then v1 else v2), pc);
    } else if op == 0xFC {
      GoKept(m, s, s, Imm32(f.body, Imm8(f.body, pc).1).1);
    } else if op == 0x41 {
      PushLike(m, s, s, ToI32(v));
      GoKept(m, s, Push(s, ToI32(v)), p);
    } else if op !in {0x20, 0x21, 0x22} {
      var (high, q) := Imm32(f.body, p);
      PushLike(m, s, s1, c);
      GoKept(m, s, Push(s1, c), q);
    } else if v < |f.locals| {
      LocalsOk(m, f, v, c);
      LocalsOk(m, f, v, Peek(s));
      PushLike(m, s, s, f.locals[v]);
      GoKept(m, s, Push(s, f.locals[v]), p);
      SetTopLike(m, s, s1, f.(locals := f.locals[v := c]));
      GoKept(m, s, SetTop(s1, f.(locals := f.locals[v := c])), p);
      SetTopLike(m, s, s, f.(locals := f.locals[v := Peek(s)]));
      GoKept(m, s, SetTop(s, f.(locals := f.locals[v := Peek(s)])), p);
    }
  }

  lemma LocalsOk(m: SasmModule, f: Frame, v: nat, x: i32)
    requires FrameOk(m, f) && v < |f.locals|
    ensures FrameOk(m, f.(locals := f.locals[v := x]))
  {
  }

  // ---------- calls ----------

  lemma {:induction false} FindBodyAt(m: SasmModule, f: nat, i: nat, k: nat)
    requires k <= i < |m.codes| && m.codes[i].func == f && CodeSound(m, m.codes[i])
    requires forall j :: 0 <= j < |m.codes| && m.codes[j].func == f ==> j == i
    ensures FindBody(m, f, k) == Some(m.pool[m.codes[i].offset..m.codes[i].offset + m.codes[i].size])
    decreases i - k
  {
    if k < i { FindBodyAt(m, f, i, k + 1); }
  }

  /** In a validated module a declared function always has code: the one body listed for it. */
  lemma BodyFound(m: SasmModule, f: nat) returns (i: nat)
    requires Sound(m) && f < |m.funcs|
    ensures i < |m.codes| && m.codes[i].func == f && m.codes[i].offset + m.codes[i].size <= |m.pool|
    ensures FindBody(m, f, 0) == Some(m.pool[m.codes[i].offset..m.codes[i].offset + m.codes[i].size])
    ensures 0 < m.codes[i].size <= MAX_FUNCTION_CODE
  {
    i := OneBodyEach(m, f);
    FindBodyAt(m, f, i, 0);
  }

  /** A frame can be pushed exactly when the function is declared and there is depth left. */
  lemma PushFrameExact(m: SasmModule, s: State, f: nat)
    requires Sound(m)
    ensures PushFrame(m, s, f).1 <==> f < |m.funcs| && |s.frames| < DepthLimit(m)
    ensures !PushFrame(m, s, f).1 ==>
              PushFrame(m, s, f).0 == s.(lastError := if f < |m.funcs| then FRAME_OVERFLOW else INVALID_OPCODE)
    ensures PushFrame(m, s, f).1 ==>
              FindBody(m, f, 0).Some? &&
              PushFrame(m, s, f).0 == s.(frames := s.frames + [NewFrame(m, f)], maxFrames := Max(s.maxFrames, |s.frames| + 1))
    ensures PushFrame(m, s, f).1 ==> FrameOk(m, NewFrame(m, f))
  {
    hide Sound, FindBody, DepthLimit;
    SoundFuncs(m);
    if f < |m.funcs| {
      var i := BodyFound(m, f);
    }
  }

  lemma SoundFuncs(m: SasmModule)
    requires Sound(m)
    ensures |m.funcs| <= MAX_FUNCTIONS && m.entry < |m.funcs| && 0 < DepthLimit(m) && m.safety.cycleLimit > 0
    ensures forall f :: 0 <= f < |m.funcs| ==> |m.funcs[f].locals| <= MAX_LOCALS && m.funcs[f].typeIdx < |m.types|
  {
    assert forall f :: 0 <= f < |m.funcs| ==> FuncSound(m, m.funcs[f]);
  }

  /** A fresh frame: at the start of its body, every local zero, no labels. */
  function NewFrame(m: SasmModule, f: nat): Frame
    requires f < |m.funcs|
  {
    Frame(f, 0, Zeros(|m.funcs[f].locals|), if FindBody(m, f, 0).Some? then FindBody(m, f, 0).value else [], [])
  }

  /** A call that goes through: the caller stands after the instruction and keeps its locals and
      labels; the callee holds the top operands as its first locals, in push order, then zeros. */
  lemma CallEffect(m: SasmModule, s: State, f: nat, pc: nat)
    requires Sound(m) && Bounded(m, s) && s.frames != [] && Call(m, s, f, pc).Next?
    ensures f < |m.funcs| && m.funcs[f].typeIdx < |m.types|
    ensures var (t, n) := (Call(m, s, f, pc).next, |m.types[m.funcs[f].typeIdx].params|);
            && n <= |s.stack| && n <= |m.funcs[f].locals|
            && t == s.(stack := s.stack[..|s.stack| - n], maxFrames := Max(s.maxFrames, |s.frames| + 1),
                       frames := s.frames[..|s.frames| - 1] + [Top(s).(pc := Wrap(pc)), NewFrame(m, f).(
                                   locals := s.stack[|s.stack| - n..] + Zeros(|m.funcs[f].locals| - n))])
  {
    hide Sound, FrameOk, FindBody, DepthLimit;
    var n := |m.types[m.funcs[f].typeIdx].params|;
    var s0 := SetTop(s, Top(s).(pc := Wrap(pc)));
    PushFrameExact(m, s0, f);
    var s1 := PushFrame(m, s0, f).0;
    var (s2, args) := PopN(s1, n);
    assert s2.stack == (s2.stack + args)[..|s.stack| - n] && args == (s2.stack + args)[|s.stack| - n..];
    assert Top(s2) == NewFrame(m, f);
    assert Zeros(|m.funcs[f].locals|)[n..] == Zeros(|m.funcs[f].locals| - n);
  }

  lemma CallKept(m: SasmModule, s: State, f: nat, pc: nat)
    requires Sound(m) && Bounded(m, s) && s.frames != []
    ensures Kept(m, s, Call(m, s, f, pc))
  {
    hide Sound, FrameOk, FindBody, DepthLimit, PopN;
    LikeSelf(m, s);
    TopOk(m, s, s);
    var s0 := SetTop(s, Top(s).(pc := Wrap(pc)));
    PcOk(m, Top(s), Wrap(pc));
    SetTopLike(m, s, s, Top(s).(pc := Wrap(pc)));
    PushFrameExact(m, s0, f);
    if Call(m, s, f, pc).Next? {
      CallEffect(m, s, f, pc);
      var n := |m.types[m.funcs[f].typeIdx].params|;
      var callee := NewFrame(m, f).(locals := s.stack[|s.stack| - n..] + Zeros(|m.funcs[f].locals| - n));
      CalleeOk(m, f, callee);
      CallBounded(m, s, s0, callee, Call(m, s, f, pc).next);
    }
  }

  lemma PcOk(m: SasmModule, f: Frame, pc: u32)
    requires FrameOk(m, f)
    ensures FrameOk(m, f.(pc := pc))
  {
  }

  lemma CalleeOk(m: SasmModule, f: nat, callee: Frame)
    requires f < |m.funcs| && FrameOk(m, NewFrame(m, f)) && |callee.locals| == |m.funcs[f].locals|
    requires callee == NewFrame(m, f).(locals := callee.locals)
    ensures FrameOk(m, callee)
  {
  }

  lemma CallBounded(m: SasmModule, s: State, s0: State, callee: Frame, t: State)
    requires Like(m, s, s0) && FrameOk(m, callee) && |s0.frames| < DepthLimit(m)
    requires t.frames == s0.frames + [callee] && |t.stack| <= |s0.stack| && t.cycles == s.cycles
    requires t.memory == s0.memory && t.maxFrames == Max(s.maxFrames, |s.frames| + 1)
    ensures Kept(m, s, Next(t))
  {
    hide FrameOk, DepthLimit;
  }

  lemma ReturnKept(m: SasmModule, s: State)
    requires Bounded(m, s) && s.frames != []
    ensures Kept(m, s, Return(s))
  {
    hide FrameOk, DepthLimit;
  }

  lemma LabelsKept(m: SasmModule, s: State, t: State, target: int, depth: u32, pc: nat)
    requires Like(m, s, t)
    ensures t.frames != [] && Kept(m, s, Label(t, target, pc)) && Kept(m, s, Branch(t, depth, pc))
  {
    hide Bounded, SameBelow, Like, Kept, Go, FrameOk;
    TopOk(m, s, t);
    GoKept(m, s, t, pc);
    var f := Top(t);
    if |f.labels| < MAX_LABELS {
      LabelsOk(m, f, f.labels + [Wrap(target)]);
      SetTopLike(m, s, t, f.(labels := f.labels + [Wrap(target)]));
      GoKept(m, s, SetTop(t, f.(labels := f.labels + [Wrap(target)])), pc);
    }
    if depth < |f.labels| {
      var to := |f.labels| - depth - 1;
      LabelsOk(m, f, f.labels[..to]);
      SetTopLike(m, s, t, f.(labels := f.labels[..to]));
      GoKept(m, s, SetTop(t, f.(labels := f.labels[..to])), f.labels[to]);
    }
  }

  lemma LabelsOk(m: SasmModule, f: Frame, labels: seq<u32>)
    requires FrameOk(m, f) && |labels| <= MAX_LABELS
    ensures FrameOk(m, f.(labels := labels))
  {
  }

  lemma ControlKept(m: SasmModule, s: State, op: byte, pc: nat)
    requires Sound(m) && Bounded(m, s) && s.frames != [] && IsControl(op)
    ensures Kept(m, s, Control(m, s, op, pc))
  {
    hide Sound, Bounded, SameBelow, Like, Kept, Go, FrameOk, Branch, Label, Call, Return, Pop, Imm32;
    LikeSelf(m, s);
    HaltKept(m, s, s, UNREACHABLE);
    GoKept(m, s, s, pc);
    ReturnKept(m, s);
    var (v, p) := Imm32(Top(s).body, pc);
    LabelsKept(m, s, s, p + v, v, p);
    LabelsKept(m, s, s, p - 5, v, p);
    PopLike(m, s, s);
    LabelsKept(m, s, Pop(s).0, 0, v, p);
    GoKept(m, s, Pop(s).0, p);
    CallKept(m, s, v, p);
  }

  lemma ExecuteKept(m: SasmModule, alu: Alu, s: State, op: byte, pc: nat)
    requires Sound(m) && Bounded(m, s) && s.frames != []
    ensures Kept(m, s, Execute(m, alu, s, op, pc))
  {
    hide *;
    if IsControl(op) { ControlKept(m, s, op, pc); }
    LocalKept(m, s, op, pc);
    ArithKept(m, s, op, pc);
    if IsLoad(op) || IsStore(op) { MemoryKept(m, s, op, pc); }
    WideKept(m, alu, s, op, pc);
    ExecuteCases(m, alu, s, op, pc);
  }

  lemma ExecuteCases(m: SasmModule, alu: Alu, s: State, op: byte, pc: nat)
    requires s.frames != []
    ensures var o := Execute(m, alu, s, op, pc);
            || (IsControl(op) && o == Control(m, s, op, pc)) || o == Local(s, op, pc) || o == Arith(s, op, pc)
            || ((IsLoad(op) || IsStore(op)) && o == MemoryOp(m, s, op, pc)) || o == Wide(alu, s, op, pc)
  {
    hide Control, Local, Arith, MemoryOp, Wide;
  }

  // ---------- a whole scan ----------

  /** In the middle of a scan, with budget left. */
  ghost predicate Ready(m: SasmModule, s: State) {
    Bounded(m, s) && s.frames != [] && s.cycles <= m.safety.cycleLimit
  }

  ghost predicate WentOn(m: SasmModule, s: State, t: State) {
    && Ready(m, t) && t.cycles == s.cycles + 1 && SameBelow(s, t) && Touched(m, s.memory, t.memory)
    && t.maxFrames == Max(s.maxFrames, |t.frames|)
  }

  ghost predicate Ended(m: SasmModule, s: State, t: State) {
    && Bounded(m, t) && t.cycles <= m.safety.cycleLimit + 1 && Touched(m, s.memory, t.memory)
    && t.maxFrames == s.maxFrames
  }

  /** One turn: bounded again, one instruction on the count, the frames below untouched, the
      high-water mark exact, and no byte changed that the annotations do not permit. */
  lemma StepKept(m: SasmModule, alu: Alu, s: State)
    requires Sound(m) && Ready(m, s)
    ensures Step(m, alu, s).Next? ==> WentOn(m, s, Step(m, alu, s).next)
    ensures Step(m, alu, s).Halt? ==> Ended(m, s, Step(m, alu, s).last)
  {
    hide Sound, Execute, FrameOk, DepthLimit, Permitted;
    SoundFuncs(m);
    var f, s1 := Top(s), s.(cycles := s.cycles + 1);
    if f.pc < |f.body| {
      ExecuteKept(m, alu, s1, f.body[f.pc], f.pc + 1);
    }
  }

  /** The states of a scan, from `s` to the one that does not go on. */
  ghost function Trace(m: SasmModule, alu: Alu, s: State): (tr: seq<State>)
    requires Sound(m) && Ready(m, s)
    ensures tr != [] && tr[0] == s
    decreases m.safety.cycleLimit - s.cycles
  {
    StepKept(m, alu, s);
    match Step(m, alu, s)
    case Next(t) => [s] + Trace(m, alu, t)
    case _ => [s]
  }

  /** Consecutive states are one turn apart, and the last one has no next. */
  ghost predicate IsRun(m: SasmModule, alu: Alu, tr: seq<State>) {
    && tr != [] && (forall i :: 0 <= i < |tr| ==> Ready(m, tr[i]))
    && (forall i :: 0 < i < |tr| ==> Step(m, alu, tr[i - 1]) == Next(tr[i]))
    && !Step(m, alu, tr[|tr| - 1]).Next?
  }

  /** Every scan ends within its budget, and every state on the way is within bounds. */
  lemma {:induction false} TraceRuns(m: SasmModule, alu: Alu, s: State)
    requires Sound(m) && Ready(m, s)
    ensures IsRun(m, alu, Trace(m, alu, s))
    ensures |Trace(m, alu, s)| <= m.safety.cycleLimit - s.cycles + 1
    decreases m.safety.cycleLimit - s.cycles
  {
    hide Sound, Bounded, Step, SameBelow, Touched;
    StepKept(m, alu, s);
    if Step(m, alu, s).Next? {
      var t := Step(m, alu, s).next;
      TraceRuns(m, alu, t);
      var rest := Trace(m, alu, t);
      assert Trace(m, alu, s) == [s] + rest;
      forall i | 0 < i < |[s] + rest| ensures Step(m, alu, ([s] + rest)[i - 1]) == Next(([s] + rest)[i]) {
        if i > 1 { assert Step(m, alu, rest[i - 2]) == Next(rest[i - 1]); }
      }
    }
  }

  /** The deepest frame stack among these states. */
  function Deepest(tr: seq<State>): nat {
    if tr == [] then 0 else Max(Deepest(tr[..|tr| - 1]), |tr[|tr| - 1].frames|)
  }

  lemma {:induction false} DeepestPrefix(m: SasmModule, alu: Alu, tr: seq<State>, k: nat)
    requires Sound(m) && IsRun(m, alu, tr) && k < |tr|
    ensures tr[k].maxFrames == Max(tr[0].maxFrames, Deepest(tr[..k + 1]))
  {
    hide Sound, Step, SameBelow, Touched, FrameOk, DepthLimit;
    assert tr[..k + 1][..k] == tr[..k];
    assert Ready(m, tr[k]);
    if k > 0 {
      DeepestPrefix(m, alu, tr, k - 1);
      StepKept(m, alu, tr[k - 1]);
      assert Step(m, alu, tr[k - 1]) == Next(tr[k]);
    }
  }

  /** `vm_run` before the loop: the counters and the frames start over, the value stack does not. */
  function Restart(s: State): State {
    s.(cycles := 0, maxFrames := 0, maxStack := 0, lastError := VM_OK, frames := [])
  }

  function Started(m: SasmModule, s: State): State {
    PushFrame(m, Restart(s), m.entry).0
  }

  lemma StartReady(m: SasmModule, s: State)
    requires Sound(m) && |s.stack| <= STACK_SIZE && |s.memory| <= MAX_MEMORY
    ensures PushFrame(m, Restart(s), m.entry).1 && Ready(m, Started(m, s))
    ensures Started(m, s) == Restart(s).(frames := [NewFrame(m, m.entry)], maxFrames := 1)
  {
    hide Sound, FrameOk, FindBody, DepthLimit;
    SoundFuncs(m);
    PushFrameExact(m, Restart(s), m.entry);
  }

  /** `vm_run`: how a scan ends. */
  ghost function Scan(m: SasmModule, alu: Alu, s: State): Outcome
    requires Sound(m) && |s.stack| <= STACK_SIZE && |s.memory| <= MAX_MEMORY
  {
    StartReady(m, s);
    var tr := Trace(m, alu, Started(m, s));
    TraceRuns(m, alu, Started(m, s));
    Step(m, alu, tr[|tr| - 1])
  }

  /** Every scan of a validated module: at most `cycleLimit` instructions, every limit kept at
      every state, the reported depth exactly the deepest reached, and only permitted bytes written. */
  lemma ScanBounded(m: SasmModule, alu: Alu, s: State)
    requires Sound(m) && |s.stack| <= STACK_SIZE && |s.memory| <= MAX_MEMORY
    ensures Ready(m, Started(m, s))
    ensures var tr := Trace(m, alu, Started(m, s));
            && IsRun(m, alu, tr) && |tr| <= m.safety.cycleLimit + 1 && !Scan(m, alu, s).Next?
            && (Scan(m, alu, s).Halt? ==>
                  var t := Scan(m, alu, s).last;
                  Bounded(m, t) && t.maxFrames == Deepest(tr) && Touched(m, s.memory, t.memory))
  {
    hide Sound, Step, SameBelow, FrameOk, DepthLimit, Trace, Touched;
    StartReady(m, s);
    var s0 := Started(m, s);
    TraceRuns(m, alu, s0);
    var tr := Trace(m, alu, s0);
    var last := |tr| - 1;
    DeepestPrefix(m, alu, tr, last);
    assert tr[..last + 1] == tr;
    TouchedPrefix(m, alu, tr, last);
    StepKept(m, alu, tr[last]);
    DeepestAtLeast(tr);
    if Step(m, alu, tr[last]).Halt? {
      TouchedTwice(m, s.memory, tr[last].memory, Step(m, alu, tr[last]).last.memory);
    }
  }

  lemma {:induction false} DeepestAtLeast(tr: seq<State>)
    requires tr != []
    ensures Deepest(tr) >= |tr[0].frames|
  {
    if |tr| > 1 { DeepestAtLeast(tr[..|tr| - 1]); }
  }

  lemma TouchedTwice(m: SasmModule, a: seq<byte>, b: seq<byte>, c: seq<byte>)
    requires Touched(m, a, b) && Touched(m, b, c)
    ensures Touched(m, a, c)
  {
    hide Permitted;
  }

  lemma {:induction false} TouchedPrefix(m: SasmModule, alu: Alu, tr: seq<State>, k: nat)
    requires Sound(m) && IsRun(m, alu, tr) && k < |tr|
    ensures Touched(m, tr[0].memory, tr[k].memory)
  {
    hide Sound, Step, SameBelow, Permitted, Bounded;
    if k > 0 {
      TouchedPrefix(m, alu, tr, k - 1);
      StepKept(m, alu, tr[k - 1]);
      assert Step(m, alu, tr[k - 1]) == Next(tr[k]);
      TouchedTwice(m, tr[0].memory, tr[k - 1].memory, tr[k].memory);
    }
  }

  // ---------- isolation of the frames below ----------

  /** While the stack stays deeper than `n`, the `n` lowest frames do not change. */
  lemma {:induction false} Undisturbed(m: SasmModule, alu: Alu, tr: seq<State>, i: nat, j: nat, n: nat)
    requires Sound(m) && IsRun(m, alu, tr) && i <= j < |tr| && n <= |tr[i].frames|
    requires forall k :: i <= k < j ==> |tr[k].frames| > n
    ensures |tr[j].frames| >= n && tr[j].frames[..n] == tr[i].frames[..n]
    decreases j
  {
    hide Sound, Step, Bounded, Touched;
    if i < j {
      Undisturbed(m, alu, tr, i, j - 1, n);
      assert Ready(m, tr[j - 1]);
      StepKept(m, alu, tr[j - 1]);
      assert Step(m, alu, tr[j - 1]) == Next(tr[j]);
      var a, b := tr[j - 1].frames, tr[j].frames;
      assert b[..|a| - 1][..n] == b[..n] && a[..|a| - 1][..n] == a[..n];
    }
  }

  /** The state is about to execute a CALL that goes through, with immediate `f` ending at `pc`. */
  ghost predicate AtCall(m: SasmModule, alu: Alu, s: State, f: u32, pc: nat) {
    && s.frames != [] && Top(s).pc < |Top(s).body| && Top(s).body[Top(s).pc] == 0x10
    && (f, pc) == Imm32(Top(s).body, Top(s).pc + 1) && Step(m, alu, s).Next?
  }

  /** From a CALL to its matching RETURN: in between the frames below are untouched, and the caller
      resumes right behind the CALL with its locals and labels as they were. */
  lemma CallReturns(m: SasmModule, alu: Alu, tr: seq<State>, i: nat, j: nat, f: u32, pc: nat)
    requires Sound(m) && IsRun(m, alu, tr) && i < j < |tr| && AtCall(m, alu, tr[i], f, pc)
    requires forall k :: i < k < j ==> |tr[k].frames| > |tr[i].frames|
    ensures var (n, resumed) := (|tr[i].frames|, tr[i].frames[..|tr[i].frames| - 1] + [Top(tr[i]).(pc := Wrap(pc))]);
            && (forall k :: i < k <= j ==> |tr[k].frames| >= n && tr[k].frames[..n] == resumed)
            && (|tr[j].frames| == n ==> tr[j].frames == resumed)
  {
    hide Sound, Bounded, Touched, SameBelow, Call, Imm32;
    var s := tr[i];
    assert Ready(m, s);
    assert Step(m, alu, tr[i]) == Next(tr[i + 1]);
    CallStep(m, alu, s, f, pc);
    var n := |s.frames|;
    forall k | i < k <= j ensures |tr[k].frames| >= n && tr[k].frames[..n] == tr[i + 1].frames[..n] {
      Undisturbed(m, alu, tr, i + 1, k, n);
    }
  }

  lemma CallStep(m: SasmModule, alu: Alu, s: State, f: u32, pc: nat)
    requires Sound(m) && Ready(m, s) && AtCall(m, alu, s, f, pc)
    ensures var t := Step(m, alu, s).next;
            |t.frames| == |s.frames| + 1 && t.frames[..|s.frames|] == s.frames[..|s.frames| - 1] + [Top(s).(pc := Wrap(pc))]
  {
    hide Sound, DepthLimit, Call, Imm32;
    var s1 := s.(cycles := s.cycles + 1);
    assert Bounded(m, s1);
    assert Step(m, alu, s) == Call(m, s1, f, pc);
    CallEffect(m, s1, f, pc);
  }
}
