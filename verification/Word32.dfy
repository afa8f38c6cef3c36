/** 32-bit words: the operations of C's unsigned int, and their laws bit by bit. */
module Word32 {
  import opened Bytes
  import Bits

  const RANGE := 0x1_0000_0000

  function And(a: u32, b: u32): u32 {
    Below(a, b);
    Bits.And(a, b)
  }

  function Or(a: u32, b: u32): u32 {
    Below(a, b);
    Bits.Or(a, b)
  }

  function Xor(a: u32, b: u32): u32 {
    Below(a, b);
    Bits.Xor(a, b)
  }

  function Not(a: u32): u32 {
    RANGE - 1 - a
  }

  function Plus(a: u32, b: u32): u32 {
    (a + b) % RANGE
  }

  function Shl(a: u32, n: nat): u32 {
    (a * Bits.Pow2(n)) % RANGE
  }

  function Shr(a: u32, n: nat): u32 {
    ShrBelow(a, n);
    Bits.Shr(a, n)
  }

  function Rotr(a: u32, n: nat): u32
    requires n <= 32
  {
    Or(Shr(a, n), Shl(a, 32 - n))
  }

  // ---------- laws ----------

  lemma Pow32()
    ensures Bits.Pow2(32) == 0x1_0000_0000
  {
    assert Bits.Pow2(8) == 256;
    assert Bits.Pow2(16) == 65536;
    assert Bits.Pow2(24) == 0x100_0000;
  }

  lemma Below(a: nat, b: nat)
    requires a < 0x1_0000_0000 && b < 0x1_0000_0000
    ensures Bits.And(a, b) < 0x1_0000_0000 && Bits.Or(a, b) < 0x1_0000_0000 && Bits.Xor(a, b) < 0x1_0000_0000
  {
    Pow32();
    hide *;
    Bits.Bound(a, b, 32);
  }

  lemma {:induction false} ShrBelow(x: nat, n: nat)
    ensures Bits.Shr(x, n) <= x
    decreases n
  {
    if n > 0 { ShrBelow(x / 2, n - 1); }
  }

  /** Each bit of and, or, exclusive or, from the two bits in its place. */
  lemma BitwiseBit(a: u32, b: u32, i: nat)
    ensures Bits.Bit(And(a, b), i) == if Bits.Bit(a, i) == 1 && Bits.Bit(b, i) == 1 then 1 else 0
    ensures Bits.Bit(Or(a, b), i) == if Bits.Bit(a, i) == 1 || Bits.Bit(b, i) == 1 then 1 else 0
    ensures Bits.Bit(Xor(a, b), i) == if Bits.Bit(a, i) == Bits.Bit(b, i) then 0 else 1
  {
    hide Bits.And, Bits.Or, Bits.Xor, Bits.Bit;
    Bits.AndBit(a, b, i);
    Bits.OrBit(a, b, i);
    Bits.XorBit(a, b, i);
  }

  lemma NotBit(a: u32, i: nat)
    requires i < 32
    ensures Bits.Bit(Not(a), i) == 1 - Bits.Bit(a, i)
  {
    Pow32();
    hide *;
    NotIs(a);
    Bits.ComplementBit(a, 32, i);
  }

  lemma NotIs(a: u32)
    ensures Not(a) == 0x1_0000_0000 - 1 - a
  {
  }

  lemma ShlBit(a: u32, n: nat, k: nat)
    requires k < 32
    ensures Bits.Bit(Shl(a, n), k) == if k < n then 0 else Bits.Bit(a, k - n)
  {
    Pow32();
    var y := a * Bits.Pow2(n);
    hide Bits.Pow2, Bits.Bit;
    Bits.LowBit(y, 32, k);
    Bits.ShiftLeftBit(a, n, k);
  }

  lemma ShrBit(a: u32, n: nat, k: nat)
    requires k < 32
    ensures Bits.Bit(Shr(a, n), k) == if k + n < 32 then Bits.Bit(a, k + n) else 0
  {
    Pow32();
    hide Bits.Pow2, Bits.Bit, Bits.Shr;
    Bits.ShiftRightBit(a, n, k);
    if k + n >= 32 { Bits.BitsEnd(a, 32, k + n); }
  }

  /** A rotation to the right by `n`: bit `k` comes from `n` places above, around the end. */
  lemma RotrBit(a: u32, n: nat, k: nat)
    requires n <= 32 && k < 32
    ensures Bits.Bit(Rotr(a, n), k) == Bits.Bit(a, (k + n) % 32)
  {
    RotrParts(a, n);
    hide *;
    var high, low := Shr(a, n), Shl(a, 32 - n);
    ShrBit(a, n, k);
    ShlBit(a, 32 - n, k);
    BitwiseBit(high, low, k);
    Around(k + n);
    if k + n < 32 {
      assert Bits.Bit(low, k) == 0;
    } else {
      assert Bits.Bit(high, k) == 0;
    }
  }

  lemma Around(m: nat)
    requires m < 64
    ensures m % 32 == if m < 32 then m else m - 32
  {
  }

  lemma RotrParts(a: u32, n: nat)
    requires n <= 32
    ensures Rotr(a, n) == Or(Shr(a, n), Shl(a, 32 - n))
  {
  }

  /** Words with the same 32 bits are the same. */
  lemma SameBits(a: u32, b: u32)
    requires forall i :: 0 <= i < 32 ==> Bits.Bit(a, i) == Bits.Bit(b, i)
    ensures a == b
  {
    Pow32();
    hide *;
    Bits.SameBits(a, b, 32);
  }

  /** Reducing after every sum is reducing once at the end. */
  lemma PlusReduced(x: nat, y: u32)
    ensures Plus(x % RANGE, y) == (x + y) % RANGE
  {
  }

  lemma FourPlus(a: u32, b: u32, c: u32, d: u32)
    ensures Plus(Plus(Plus(a, b), c), d) == (a + b + c + d) % RANGE
  {
    PlusReduced(a, b);
    PlusReduced(a + b, c);
    PlusReduced(a + b + c, d);
  }

  lemma FivePlus(a: u32, b: u32, c: u32, d: u32, e: u32)
    ensures Plus(Plus(Plus(Plus(a, b), c), d), e) == (a + b + c + d + e) % RANGE
  {
    FourPlus(a, b, c, d);
    PlusReduced(a + b + c + d, e);
  }

  /** Four bytes shifted into place and or'ed together. */
  lemma FourBytes(a: byte, b: byte, c: byte, d: byte)
    ensures Or(Or(Or(Shl(a, 24), Shl(b, 16)), Shl(c, 8)), d) == 0x100_0000 * a + 0x1_0000 * b + 0x100 * c + d
  {
    hide *;
    Powers();
    ShlByte(a, 24);
    ShlByte(b, 16);
    ShlByte(c, 8);
    OrSum(a, 0x1_0000 * b, 24);
    OrSum(0x100 * a + b, 0x100 * c, 16);
    OrSum(0x1_0000 * a + 0x100 * b + c, d, 8);
  }

  lemma Powers()
    ensures Bits.Pow2(8) == 0x100 && Bits.Pow2(16) == 0x1_0000 && Bits.Pow2(24) == 0x100_0000
  {
  }

  lemma ShlByte(a: byte, n: nat)
    requires n == 8 || n == 16 || n == 24
    ensures Shl(a, n) == a * Bits.Pow2(n)
  {
    Powers();
    hide Bits.Pow2;
  }

  lemma OrSum(x: nat, y: nat, n: nat)
    requires y < Bits.Pow2(n) && x * Bits.Pow2(n) < 0x1_0000_0000 && y < 0x1_0000_0000
    ensures Or(x * Bits.Pow2(n), y) == x * Bits.Pow2(n) + y
  {
    hide Bits.Or, Bits.Pow2;
    Bits.OrShifted(x, y, n);
  }

  /** Shifting down and masking picks one byte. */
  lemma LowByte(x: u32)
    ensures And(Shr(x, 24), 0xff) == x / 0x100_0000
    ensures And(Shr(x, 16), 0xff) == x / 0x1_0000 % 256
    ensures And(Shr(x, 8), 0xff) == x / 0x100 % 256
    ensures And(x, 0xff) == x % 256
  {
    Powers();
    TopByte(x);
    hide *;
    Masked(x, 24, 0x100_0000);
    Masked(x, 16, 0x1_0000);
    Masked(x, 8, 0x100);
    Masked(x, 0, 1);
  }

  lemma TopByte(x: u32)
    ensures x / 0x100_0000 % 256 == x / 0x100_0000 && Bits.Pow2(0) == 1 && Shr(x, 0) == x && x / 1 == x
  {
  }

  lemma Masked(x: u32, n: nat, d: nat)
    requires Bits.Pow2(n) == d
    ensures d > 0 && And(Shr(x, n), 0xff) == x / d % 256
  {
    Powers();
    hide Bits.Shr, Bits.Pow2, Bits.And;
    Bits.ShrDivides(x, n);
    Bits.AndMask(Shr(x, n), 8);
  }
}
