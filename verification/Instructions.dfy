/** What each instruction leaves behind, said of its operands in push order and of the bytes of the code. */
module Instructions {
  import opened Bytes
  import opened Results
  import opened SasmFormat
  import opened SasmLoader
  import opened Machine
  import opened MachineTheory
  import Bits
  import Word32

  /** In the middle of a scan, with budget left, the machine is about to execute `op`. */
  ghost predicate At(m: SasmModule, s: State, op: byte) {
    Ready(m, s) && Top(s).pc < |Top(s).body| && Top(s).body[Top(s).pc] == op && s.cycles < m.safety.cycleLimit
  }

  /** The 32 bits of a value. */
  function Word(v: i32): nat {
    if v < 0 then v + 0x1_0000_0000 else v
  }

  predicate Same32(a: int, b: int) {
    (a - b) % 0x1_0000_0000 == 0
  }

  /** `n` operands are gone, `results` in their place, and the machine stands `size` bytes further on. */
  ghost predicate Leaves(m: SasmModule, alu: Alu, s: State, n: nat, size: nat, results: seq<i32>) {
    && s.frames != [] && n <= |s.stack| && Step(m, alu, s).Next?
    && var t := Step(m, alu, s).next;
       && t.stack == s.stack[..|s.stack| - n] + results
       && t.frames == s.frames[..|s.frames| - 1] + [Top(s).(pc := Wrap(Top(s).pc + size))]
       && t.memory == s.memory && t.lastError == s.lastError && t.cycles == s.cycles + 1
  }

  function Left(s: State): i32
    requires |s.stack| >= 2
  {
    s.stack[|s.stack| - 2]
  }

  function Right(s: State): i32
    requires |s.stack| >= 1
  {
    s.stack[|s.stack| - 1]
  }

  // ---------- how an instruction gets to its operands ----------

  lemma StepIs(m: SasmModule, alu: Alu, s: State, op: byte)
    requires At(m, s, op)
    ensures Step(m, alu, s) == Execute(m, alu, s.(cycles := s.cycles + 1), op, Top(s).pc + 1)
    ensures |s.stack| <= STACK_SIZE == 1024 && Top(s).pc < |Top(s).body| <= 1048576
  {
    hide FrameOk, DepthLimit, Execute;
    assert FrameOk(m, s.frames[|s.frames| - 1]);
    BodySmall(m, Top(s));
  }

  lemma BodySmall(m: SasmModule, f: Frame)
    requires FrameOk(m, f)
    ensures |f.body| <= 1048576
  {
  }

  lemma BinaryStep(m: SasmModule, alu: Alu, s: State, op: byte) returns (r: i32)
    requires At(m, s, op) && IsBinary(op) && |s.stack| >= 2 && Binary(op, Left(s), Right(s)).Some?
    ensures Leaves(m, alu, s, 2, 1, [r]) && Binary(op, Left(s), Right(s)) == Some(r)
  {
    hide Binary, FrameOk, DepthLimit, Bounded;
    StepIs(m, alu, s, op);
    r := Binary(op, Left(s), Right(s)).value;
    assert s.stack[..|s.stack| - 1][..|s.stack| - 2] == s.stack[..|s.stack| - 2];
  }

  lemma WordBack(u: nat)
    requires u < 0x1_0000_0000
    ensures Word(ToI32(u)) == u && Same32(ToI32(u), u)
  {
  }

  lemma WordIs(v: i32)
    ensures Word(v) == ToU32(v) < 0x1_0000_0000 && Same32(v, Word(v))
  {
  }

  lemma Reduced(n: int)
    ensures Same32(ToI32(n), n)
  {
    var q, u := n / 0x1_0000_0000, n % 0x1_0000_0000;
    assert n == q * 0x1_0000_0000 + u;
    assert ToI32(n) - n == -q * 0x1_0000_0000 || ToI32(n) - n == (-q - 1) * 0x1_0000_0000;
  }

  // ---------- arithmetic ----------

  /** Sum, difference and product agree with the integers modulo 2^32. */
  lemma ArithmeticLaw(m: SasmModule, alu: Alu, s: State, op: byte) returns (r: i32)
    requires At(m, s, op) && op in {0x6A, 0x6B, 0x6C} && |s.stack| >= 2
    ensures Leaves(m, alu, s, 2, 1, [r])
    ensures op == 0x6A ==> Same32(r, Left(s) + Right(s))
    ensures op == 0x6B ==> Same32(r + Right(s), Left(s))
    ensures op == 0x6C ==> Same32(r, Left(s) * Right(s))
  {
    var a: int, b: int := Left(s), Right(s);
    BinaryIs(op, a, b);
    r := BinaryStep(m, alu, s, op);
    hide *;
    Reduced(a + b);
    Reduced(a - b);
    Reduced(a * b);
    Moved(r, a, b);
  }

  lemma Moved(r: int, a: int, b: int)
    ensures Same32(r, a - b) <==> Same32(r + b, a)
  {
    assert r - (a - b) == r + b - a;
  }

  lemma BinaryIs(op: byte, a: i32, b: i32)
    ensures op == 0x6A ==> IsBinary(op) && Binary(op, a, b) == Some(ToI32(a + b))
    ensures op == 0x6B ==> IsBinary(op) && Binary(op, a, b) == Some(ToI32(a - b))
    ensures op == 0x6C ==> IsBinary(op) && Binary(op, a, b) == Some(ToI32(a * b))
  {
    hide ToI32, Bitwise, Flag, Quotient, Remainder;
  }

  /** A comparison gives 1 exactly when its relation holds, and 0 otherwise. */
  lemma ComparisonLaw(m: SasmModule, alu: Alu, s: State, op: byte) returns (r: i32)
    requires At(m, s, op) && 0x46 <= op <= 0x4B && |s.stack| >= 2
    ensures Leaves(m, alu, s, 2, 1, [r]) && r in {0, 1}
    ensures r == 1 <==> var (a, b) := (Left(s), Right(s));
                        if op == 0x46 then a == b else if op == 0x47 then a != b else if op == 0x48 then a < b
                        else if op == 0x49 then a <= b else if op == 0x4A then a > b else a >= b
  {
    r := BinaryStep(m, alu, s, op);
  }

  lemma ZeroLaw(m: SasmModule, alu: Alu, s: State)
    requires At(m, s, 0x45) && |s.stack| >= 1
    ensures Leaves(m, alu, s, 1, 1, [if Right(s) == 0 then 1 else 0])
  {
    hide FrameOk, DepthLimit, Bounded;
    StepIs(m, alu, s, 0x45);
  }

  /** Division cuts towards zero: the remainder is smaller than the divisor and carries the sign of the
      dividend. The one quotient that has no 32 bits, of the least number by -1, wraps around. */
  lemma DivisionLaw(m: SasmModule, alu: Alu, s: State, op: byte) returns (r: i32, q: int)
    requires At(m, s, op) && op in {0x6D, 0x6F} && |s.stack| >= 2
    ensures Right(s) == 0 ==> Step(m, alu, s).Halt? && Step(m, alu, s).code == DIV_BY_ZERO
    ensures Right(s) != 0 ==> Leaves(m, alu, s, 2, 1, [r])
    ensures Right(s) != 0 && op == 0x6D ==> Same32(r, q) && (q != 0x8000_0000 ==> r == q)
    ensures Right(s) != 0 ==>
              var rem := Left(s) - q * Right(s);
              && (op == 0x6F ==> r == rem)
              && -Abs(Right(s)) < rem < Abs(Right(s)) && (rem == 0 || (rem < 0 <==> Left(s) < 0))
  {
    var a, b := Left(s), Right(s);
    r, q := 0, 0;
    if b == 0 {
      DivideByZero(m, alu, s, op);
    } else {
      q := if (a < 0) == (b < 0) then Magnitude(a) / Magnitude(b) else -(Magnitude(a) / Magnitude(b));
      DivisionIs(op, a, b);
      r := BinaryStep(m, alu, s, op);
      Euclid(a, b, q);
      Reduced(q);
    }
  }

  lemma DivideByZero(m: SasmModule, alu: Alu, s: State, op: byte)
    requires At(m, s, op) && op in {0x6D, 0x6F} && |s.stack| >= 2 && Right(s) == 0
    ensures Step(m, alu, s).Halt? && Step(m, alu, s).code == DIV_BY_ZERO
  {
    hide FrameOk, DepthLimit, Bounded;
    StepIs(m, alu, s, op);
  }

  function Abs(n: int): (r: int)
    ensures r >= 0
  {
    if n < 0 then -n else n
  }

  lemma DivisionIs(op: byte, a: i32, b: i32)
    requires op in {0x6D, 0x6F} && b != 0
    ensures IsBinary(op) && Binary(op, a, b) == Some(if op == 0x6D then Quotient(a, b) else Remainder(a, b))
  {
    hide Bitwise, Quotient, Remainder;
  }

  lemma Euclid(a: i32, b: i32, q: int)
    requires b != 0 && q == if (a < 0) == (b < 0) then Magnitude(a) / Magnitude(b) else -(Magnitude(a) / Magnitude(b))
    ensures var rem := a - q * b;
            -Abs(b) < rem < Abs(b) && (rem == 0 || (rem < 0 <==> a < 0)) && Remainder(a, b) == rem
    ensures Quotient(a, b) == ToI32(q) && -0x8000_0000 <= q <= 0x8000_0000 && (q != 0x8000_0000 ==> ToI32(q) == q)
  {
    var x: int, y: int := Magnitude(a), Magnitude(b);
    var d: int, e: int := x / y, x % y;
    Parts(x, y, d);
    Rest(a, b, q, x, y, d, e);
    QuotientIs(a, b, q, d, x);
    RemainderIs(a, b, e);
  }

  lemma Rest(a: int, b: int, q: int, x: int, y: int, d: int, e: int)
    requires b != 0 && x == Abs(a) && y == Abs(b) && x == d * y + e && q == if (a < 0) == (b < 0) then d else -d
    ensures a - q * b == if a < 0 then -e else e
  {
    Signs(a, b, d, y);
  }

  lemma QuotientIs(a: i32, b: i32, q: int, d: int, x: int)
    requires b != 0 && d == Magnitude(a) / Magnitude(b) && x == Magnitude(a) && 0 <= d <= x
    requires q == if (a < 0) == (b < 0) then d else -d
    ensures Quotient(a, b) == ToI32(q) && -0x8000_0000 <= q <= 0x8000_0000 && (q != 0x8000_0000 ==> ToI32(q) == q)
  {
    if q != 0x8000_0000 { InRange(q); }
  }

  lemma RemainderIs(a: i32, b: i32, e: int)
    requires b != 0 && e == Magnitude(a) % Magnitude(b)
    ensures Remainder(a, b) == (if a < 0 then -e else e) && 0 <= e < Abs(b)
  {
    InRange(if a < 0 then -e else e);
  }

  lemma Signs(a: int, b: int, d: int, y: int)
    requires b != 0 && y == (if b < 0 then -b else b)
    ensures (if (a < 0) == (b < 0) then d else -d) * b == if a < 0 then -(d * y) else d * y
  {
  }

  // ---------- bits ----------

  /** And, or, exclusive or: each bit of the result from the two bits in its place. */
  lemma BitLaw(m: SasmModule, alu: Alu, s: State, op: byte, i: nat) returns (r: i32)
    requires At(m, s, op) && op in {0x71, 0x72, 0x73} && |s.stack| >= 2 && i < 32
    ensures Leaves(m, alu, s, 2, 1, [r])
    ensures var (x, y) := (Bits.Bit(Word(Left(s)), i), Bits.Bit(Word(Right(s)), i));
            && (op == 0x71 ==> Bits.Bit(Word(r), i) == x * y)
            && (op == 0x72 ==> Bits.Bit(Word(r), i) == if x + y == 0 then 0 else 1)
            && (op == 0x73 ==> Bits.Bit(Word(r), i) == (x + y) % 2)
  {
    var a, b := Word(Left(s)), Word(Right(s));
    BitwiseIs(op, Left(s), Right(s));
    WordIs(Left(s));
    WordIs(Right(s));
    r := BinaryStep(m, alu, s, op);
    Bits.AndBit(a, b, i);
    Bits.OrBit(a, b, i);
    Bits.XorBit(a, b, i);
    Word32.Below(a, b);
    var u := if op == 0x71 then Bits.And(a, b) else if op == 0x72 then Bits.Or(a, b) else Bits.Xor(a, b);
    WordBack(u);
    BitProducts(Bits.Bit(a, i), Bits.Bit(b, i));
  }

  lemma BitProducts(x: nat, y: nat)
    requires x < 2 && y < 2
    ensures x * y == if x == 1 && y == 1 then 1 else 0
    ensures (x + y) % 2 == if x == y then 0 else 1
  {
  }

  lemma BitwiseIs(op: byte, a: i32, b: i32)
    requires 0x71 <= op <= 0x77
    ensures IsBinary(op) && Binary(op, a, b) == Some(Bitwise(op, a, b))
    ensures op == 0x71 ==> Bitwise(op, a, b) == ToI32(Bits.And(ToU32(a), ToU32(b)))
    ensures op == 0x72 ==> Bitwise(op, a, b) == ToI32(Bits.Or(ToU32(a), ToU32(b)))
    ensures op == 0x73 ==> Bitwise(op, a, b) == ToI32(Bits.Xor(ToU32(a), ToU32(b)))
  {
    hide ToI32, ToU32, Bits.And, Bits.Or, Bits.Xor, Bits.Shr, Bits.Pow2;
  }

  /** Shifting left multiplies modulo 2^32, shifting right divides and rounds down. */
  lemma ShiftLaw(m: SasmModule, alu: Alu, s: State, op: byte) returns (r: i32)
    requires At(m, s, op) && op in {0x74, 0x75} && |s.stack| >= 2
    ensures Leaves(m, alu, s, 2, 1, [r])
    ensures var p := Bits.Pow2(Word(Right(s)) % 32);
            && (op == 0x74 ==> Same32(r, Left(s) * p))
            && (op == 0x75 ==> r * p <= Left(s) < (r + 1) * p)
  {
    var a, b := Left(s), Right(s);
    WordIs(a);
    WordIs(b);
    r := BinaryStep(m, alu, s, op);
    var n := Word(b) % 32;
    ShiftIs(op, a, b, n);
    if op == 0x74 {
      Reduced(Word(a) * Bits.Pow2(n));
      SameProduct(r, Word(a), a, Bits.Pow2(n));
    } else {
      ShiftDown(a, n);
    }
  }

  lemma ShiftIs(op: byte, a: i32, b: i32, n: nat)
    requires op in {0x74, 0x75} && n == ToU32(b) % 32
    ensures op == 0x74 ==> Binary(op, a, b) == Some(ToI32(ToU32(a) * Bits.Pow2(n)))
    ensures op == 0x75 ==> Binary(op, a, b) == Some(ToI32(if a < 0 then -1 - Bits.Shr(-1 - a, n) else Bits.Shr(a, n)))
  {
    hide ToI32, ToU32, Bits.And, Bits.Or, Bits.Xor, Bits.Shr, Bits.Pow2;
  }

  lemma SameProduct(r: int, u: int, a: int, p: int)
    requires Same32(r, u * p) && (u == a || u == a + 0x1_0000_0000)
    ensures Same32(r, a * p)
  {
    if u != a {
      assert r - a * p == r - u * p + p * 0x1_0000_0000;
      var k := (r - u * p) / 0x1_0000_0000;
      assert r - u * p == k * 0x1_0000_0000;
      assert r - a * p == (k + p) * 0x1_0000_0000;
    }
  }

  lemma ShiftDown(a: i32, n: nat)
    ensures var v := if a < 0 then -1 - Bits.Shr(-1 - a, n) else Bits.Shr(a, n);
            ToI32(v) == v && v * Bits.Pow2(n) <= a < (v + 1) * Bits.Pow2(n)
  {
    var p := Bits.Pow2(n);
    var x: nat := if a < 0 then -1 - a else a;
    Bits.ShrDivides(x, n);
    var k := Bits.Shr(x, n);
    hide *;
    Parts(x, p, k);
    var v: int := if a < 0 then -1 - k as int else k;
    InRange(v);
    Multiples(k, p);
  }

  lemma Multiples(k: int, p: int)
    ensures (-1 - k) * p == -(k * p) - p && (-1 - k + 1) * p == -(k * p) && (k + 1) * p == k * p + p
  {
  }

  lemma Parts(x: nat, p: nat, k: int)
    requires p > 0 && k == x / p
    ensures k * p <= x < k * p + p && 0 <= k <= x && x == k * p + x % p
  {
    var e := x % p;
    assert x == p * k + e && 0 <= e < p;
    assert p * k == k * p;
    hide *;
    AtMost(k, p, x);
  }

  lemma AtMost(k: int, p: int, x: int)
    requires p >= 1 && x >= 0 && k * p <= x < k * p + p
    ensures 0 <= k <= x
  {
    if k < 0 { Times(k + 1, p); }
    if k > x { Times(k, p); }
  }

  lemma Times(k: int, p: int)
    requires p >= 1
    ensures k >= 0 ==> k * p >= k
    ensures k <= 0 ==> k * p <= k
    ensures (k - 1) * p + p == k * p
  {
  }

  lemma InRange(v: int)
    requires -0x8000_0000 <= v < 0x8000_0000
    ensures ToI32(v) == v
  {
  }

  /** A rotation moves bit `j` by the count, around the end. */
  lemma RotateLaw(m: SasmModule, alu: Alu, s: State, op: byte, j: nat) returns (r: i32)
    requires At(m, s, op) && op in {0x76, 0x77} && |s.stack| >= 2 && j < 32
    ensures Leaves(m, alu, s, 2, 1, [r])
    ensures var n := Word(Right(s)) % 32;
            && (op == 0x76 ==> Bits.Bit(Word(r), (j + n) % 32) == Bits.Bit(Word(Left(s)), j))
            && (op == 0x77 ==> Bits.Bit(Word(r), j) == Bits.Bit(Word(Left(s)), (j + n) % 32))
  {
    hide *;
    var a, b := Left(s), Right(s);
    WordIs(a);
    WordIs(b);
    var x, n := Word(a), Word(b) % 32;
    RotateIs(op, a, b, n);
    r := BinaryStep(m, alu, s, op);
    if op == 0x76 { Rotated(x, n, 32 - n, (j + n) % 32, r); } else { Rotated(x, 32 - n, n, j, r); }
  }

  lemma RotateIs(op: byte, a: i32, b: i32, n: nat)
    requires op in {0x76, 0x77} && n == ToU32(b) % 32
    ensures IsBinary(op)
    ensures op == 0x76 ==> Binary(op, a, b) == Some(ToI32(Bits.Or(Wrap(ToU32(a) * Bits.Pow2(n)), Bits.Shr(ToU32(a), 32 - n))))
    ensures op == 0x77 ==> Binary(op, a, b) == Some(ToI32(Bits.Or(Bits.Shr(ToU32(a), n), Wrap(ToU32(a) * Bits.Pow2(32 - n)))))
  {
    hide ToI32, ToU32, Bits.And, Bits.Or, Bits.Xor, Bits.Shr, Bits.Pow2, Wrap;
  }

  /** `x` shifted up by `up`, and down by the rest of 32: bit `k` comes from `up` places below. */
  lemma Rotated(x: nat, up: nat, down: nat, k: nat, r: i32)
    requires x < 0x1_0000_0000 && up + down == 32 && k < 32
    requires var (high, low) := (Wrap(x * Bits.Pow2(up)), Bits.Shr(x, down));
             r == ToI32(Bits.Or(high, low)) || r == ToI32(Bits.Or(low, high))
    ensures Bits.Bit(Word(r), k) == Bits.Bit(x, if k >= up then k - up else k + down)
  {
    var high, low := Wrap(x * Bits.Pow2(up)), Bits.Shr(x, down);
    Word32.Pow32();
    HighBit(x, up, k);
    Bits.ShiftRightBit(x, down, k);
    Bits.OrBit(high, low, k);
    Bits.OrBit(low, high, k);
    if k >= up { Bits.BitsEnd(x, 32, k + down); }
    Word32.ShrBelow(x, down);
    Word32.Below(high, low);
    Word32.Below(low, high);
    WordBack(Bits.Or(high, low));
    WordBack(Bits.Or(low, high));
  }

  lemma HighBit(x: nat, up: nat, k: nat)
    requires k < 32
    ensures Bits.Bit(Wrap(x * Bits.Pow2(up)), k) == if k < up then 0 else Bits.Bit(x, k - up)
  {
    Word32.Pow32();
    var y := x * Bits.Pow2(up);
    hide Bits.Pow2, Bits.Bit;
    Bits.LowBit(y, 32, k);
    Bits.ShiftLeftBit(x, up, k);
  }

}
