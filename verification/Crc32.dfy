/** The table-driven CRC-32 that frames, images and snapshots carry, against the checksum taken bit by bit. */
module Crc32 {
  import opened Bytes
  import opened Word32
  import Bits

  /** The reflected polynomial of IEEE 802.3. */
  const POLY: u32 := 0xEDB88320

  /** One bit leaves at the low end. */
  function ShiftOne(c: u32): u32 {
    if c % 2 == 1 then Xor(c / 2, POLY) else c / 2
  }

  function Shifted(c: u32, steps: nat): u32
    decreases steps
  {
    if steps == 0 then c else Shifted(ShiftOne(c), steps - 1)
  }

  /** The register after `data`: each byte is added at the low end and shifted out bit by bit. */
  function Running(data: seq<byte>): u32 {
    if data == [] then RANGE - 1 else Shifted(Xor(Running(data[..|data| - 1]), data[|data| - 1]), 8)
  }

  /** The checksum: the complement of the register. */
  function Crc(data: seq<byte>): u32 {
    RANGE - 1 - Running(data)
  }

  /** The checksum of nothing is the 0 that empty frames carry. */
  lemma CrcEmpty()
    ensures Crc([]) == 0
  {
  }

  // ---------- the lookup table ----------

  function TableEntry(index: u32): u32 {
    Shifted(index, 8)
  }

  lemma XorIs(a: u32, b: u32)
    ensures Xor(a, b) == Bits.Xor(a, b)
  {
  }

  lemma ShiftOneXor(a: u32, b: u32)
    ensures ShiftOne(Xor(a, b)) == Xor(ShiftOne(a), ShiftOne(b))
  {
    hide Bits.Xor, POLY;
    var x, y := a / 2, b / 2;
    Bits.XorParts(a, b);
    Bits.XorCommon(x, y, POLY);
    Bits.XorAssociative(x, y, POLY);
  }

  lemma {:induction false} ShiftedXor(a: u32, b: u32, n: nat)
    ensures Shifted(Xor(a, b), n) == Xor(Shifted(a, n), Shifted(b, n))
    decreases n
  {
    hide ShiftOne, Xor;
    if n > 0 {
      ShiftOneXor(a, b);
      ShiftedXor(ShiftOne(a), ShiftOne(b), n - 1);
    }
  }

  /** The entry of an exclusive or is the exclusive or of the entries, so eight entries give all of them. */
  lemma TableXor(a: u32, b: u32)
    ensures TableEntry(Xor(a, b)) == Xor(TableEntry(a), TableEntry(b))
  {
    hide Shifted, Xor;
    ShiftedXor(a, b, 8);
  }

  /** Shifts that meet no set bit only move the register. */
  lemma {:induction false} Moved(h: nat, n: nat)
    requires h * Bits.Pow2(n) < RANGE
    ensures h < RANGE && Shifted(h * Bits.Pow2(n), n) == h
    decreases n
  {
    hide Xor;
    if n > 0 {
      var y := h * Bits.Pow2(n - 1);
      assert h * Bits.Pow2(n) == 2 * y;
      assert 2 * y % 2 == 0 && 2 * y / 2 == y;
      Moved(h, n - 1);
    } else {
      assert h * 1 == h;
    }
  }

  lemma {:induction false} MoreShifts(c: u32, j: nat, k: nat)
    ensures Shifted(c, j + k) == Shifted(Shifted(c, j), k)
    decreases j
  {
    hide ShiftOne;
    if j > 0 { MoreShifts(ShiftOne(c), j - 1, k); }
  }

  /** A byte only meets the low byte of the register. */
  lemma HighKept(crc: u32, b: byte)
    ensures Xor(crc, b) / 256 == crc / 256
  {
    assert Bits.Pow2(8) == 256;
    hide *;
    var h, l := crc / 256, crc % 256;
    Bits.XorSplit(h, l, 0, b, 8);
    Bits.XorNothing(h);
    Bits.Bound(l, b, 8);
    XorIs(crc, b);
  }

  lemma TakenApart(x: u32)
    ensures x == Xor(x / 256 * 256, x % 256)
  {
    assert Bits.Pow2(8) == 256;
    hide *;
    Bits.XorSplit(x / 256, 0, 0, x % 256, 8);
    Bits.XorNothing(x / 256);
    Bits.XorCommutes(0, x % 256);
    Bits.XorNothing(x % 256);
    XorIs(x / 256 * 256, x % 256);
  }

  lemma ShrIs(c: u32)
    ensures Shr(c, 8) == c / 256
  {
    assert Bits.Pow2(8) == 256;
    hide Bits.Shr, Bits.Pow2;
    Bits.ShrDivides(c, 8);
  }

  /** One turn of the source's loop: one lookup stands for eight shifts. */
  lemma LookupIsShifts(crc: u32, b: byte)
    ensures Xor(Shr(crc, 8), TableEntry(And(Xor(crc, b), 0xff))) == Shifted(Xor(crc, b), 8)
  {
    var x := Xor(crc, b);
    HighKept(crc, b);
    TakenApart(x);
    LowByte(x);
    ShrIs(crc);
    assert Bits.Pow2(8) == 256;
    hide Xor, And, Shr, Shifted, Bits.Pow2;
    Moved(x / 256, 8);
    ShiftedXor(x / 256 * 256, x % 256, 8);
  }

  /** `crc32_compute`. */
  method Compute(data: seq<byte>) returns (r: u32)
    ensures r == Crc(data)
  {
    hide TableEntry, Shifted, Xor, And, Shr;
    var crc: u32 := 0xFFFFFFFF;
    for i := 0 to |data|
      invariant crc == Running(data[..i])
    {
      assert data[..i + 1][..i] == data[..i];
      LookupIsShifts(crc, data[i]);
      var index := And(Xor(crc, data[i]), 0xff);
      crc := Xor(Shr(crc, 8), TableEntry(index));
    }
    assert data[..|data|] == data;
    AllOnes(crc);
    r := Xor(crc, 0xFFFFFFFF);
  }

  /** Exclusive or with 32 set bits is the complement. */
  lemma AllOnes(c: u32)
    ensures Xor(c, 0xFFFFFFFF) == RANGE - 1 - c
  {
    Pow32();
    hide Xor, Bits.Pow2, Bits.Xor;
    XorIs(c, 0xFFFFFFFF);
    Bits.XorOnes(c, 32);
  }

  /** The entries at the powers of two, as both copies of the source's table hold them. */
  lemma TableBasis()
    ensures TableEntry(1) == 0x77073096 && TableEntry(2) == 0xEE0E612C
    ensures TableEntry(4) == 0x076DC419 && TableEntry(8) == 0x0EDB8832
    ensures TableEntry(16) == 0x1DB71064 && TableEntry(32) == 0x3B6E20C8
    ensures TableEntry(64) == 0x76DC4190 && TableEntry(128) == 0xEDB88320
  {
    PowersSmall();
    PolyShifted();
    hide *;
    OneBit(0);
    OneBit(1);
    OneBit(2);
    OneBit(3);
    OneBit(4);
    OneBit(5);
    OneBit(6);
    OneBit(7);
  }

  lemma PowersSmall()
    ensures Bits.Pow2(0) == 1 && Bits.Pow2(1) == 2 && Bits.Pow2(2) == 4 && Bits.Pow2(3) == 8
    ensures Bits.Pow2(4) == 16 && Bits.Pow2(5) == 32 && Bits.Pow2(6) == 64 && Bits.Pow2(7) == 128
  {
  }

  /** A single bit reaches the low end after `k` shifts and leaves the polynomial behind. */
  lemma OneBit(k: nat)
    requires k < 8
    ensures Bits.Pow2(k) < RANGE && TableEntry(Bits.Pow2(k)) == Shifted(0xEDB88320, 7 - k)
  {
    PowersSmall();
    hide Shifted, Bits.Pow2;
    assert 1 * Bits.Pow2(k) == Bits.Pow2(k);
    Moved(1, k);
    MoreShifts(Bits.Pow2(k), k, 8 - k);
    FirstShift(8 - k);
  }

  lemma FirstShift(n: nat)
    requires n > 0
    ensures Shifted(1, n) == Shifted(0xEDB88320, n - 1)
  {
    hide Xor;
    XorIs(0, POLY);
    Bits.XorCommutes(0, POLY);
    Bits.XorNothing(POLY);
    assert ShiftOne(1) == POLY;
  }

  lemma HighNibbles()
    ensures Bits.Xor(0x0, 0xe) == 0xe && Bits.Xor(0x3, 0xd) == 0xe
    ensures Bits.Xor(0xb, 0xb) == 0x0 && Bits.Xor(0x6, 0x8) == 0xe
  {
  }

  lemma LowNibbles()
    ensures Bits.Xor(0xe, 0x8) == 0x6 && Bits.Xor(0x2, 0x3) == 0x1
    ensures Bits.Xor(0x0, 0x2) == 0x2 && Bits.Xor(0xc, 0x0) == 0xc
  {
  }

  lemma OddShift()
    ensures Xor(0x03B6E20C, 0xEDB88320) == 0xEE0E612C
  {
    hide *;
    HighNibbles();
    LowNibbles();
    Bits.XorNibble(0x0, 0xe, 0xe, 0x3, 0xd, 0xe);
    Bits.XorNibble(0x3, 0xed, 0xee, 0xb, 0xb, 0x0);
    Bits.XorNibble(0x3b, 0xedb, 0xee0, 0x6, 0x8, 0xe);
    Bits.XorNibble(0x3b6, 0xedb8, 0xee0e, 0xe, 0x8, 0x6);
    Bits.XorNibble(0x3b6e, 0xedb88, 0xee0e6, 0x2, 0x3, 0x1);
    Bits.XorNibble(0x3b6e2, 0xedb883, 0xee0e61, 0x0, 0x2, 0x2);
    Bits.XorNibble(0x3b6e20, 0xedb8832, 0xee0e612, 0xc, 0x0, 0xc);
    XorIs(0x03B6E20C, 0xEDB88320);
  }

  lemma PolyShifted()
    ensures Shifted(0xEDB88320, 7) == 0x77073096 && Shifted(0xEDB88320, 6) == 0xEE0E612C
    ensures Shifted(0xEDB88320, 5) == 0x076DC419 && Shifted(0xEDB88320, 4) == 0x0EDB8832
    ensures Shifted(0xEDB88320, 3) == 0x1DB71064 && Shifted(0xEDB88320, 2) == 0x3B6E20C8
    ensures Shifted(0xEDB88320, 1) == 0x76DC4190 && Shifted(0xEDB88320, 0) == 0xEDB88320
  {
    OddShift();
    hide Xor;
    assert ShiftOne(0x076DC419) == 0xEE0E612C;
  }

  /** Four bytes 0xFF cancel the preset register. */
  lemma PresetCancelled()
    ensures Crc([0xFF, 0xFF, 0xFF, 0xFF]) == 0xFFFF_FFFF
  {
    hide Shifted, Xor;
    var b: seq<byte> := [0xFF];
    assert [] + b == b;
    Last([], b);
    Last(b, b);
    Last(b + b, b);
    Last(b + b + b, b);
    assert b + [] == b && b + b + [] == b + b && b + b + b + [] == b + b + b;
    assert b + b + b + b == [0xFF, 0xFF, 0xFF, 0xFF];
    Stripped(0xFF_FFFF);
    Stripped(0xFFFF);
    Stripped(0xFF);
    Stripped(0);
  }

  lemma Stripped(h: nat)
    requires h * 256 + 255 < RANGE
    ensures Shifted(Xor(h * 256 + 255, 255), 8) == h
  {
    assert Bits.Pow2(8) == 256;
    var x := h * 256 + 255;
    hide Shifted, Xor, Bits.Xor, Bits.Pow2;
    Bits.XorSplit(h, 255, 0, 255, 8);
    Bits.XorNothing(h);
    Bits.XorZero(255, 255);
    XorIs(x, 255);
    Moved(h, 8);
  }

  // ---------- what a checksum notices ----------

  /** Different registers stay different. */
  lemma ShiftOneInjective(a: u32, b: u32)
    requires ShiftOne(a) == ShiftOne(b)
    ensures a == b
  {
    TopBit(a / 2);
    TopBit(b / 2);
    hide Xor;
    XorCancels(a / 2, b / 2, POLY);
  }

  lemma {:induction false} ShiftedInjective(a: u32, b: u32, n: nat)
    requires Shifted(a, n) == Shifted(b, n)
    ensures a == b
    decreases n
  {
    hide ShiftOne;
    if n > 0 {
      ShiftedInjective(ShiftOne(a), ShiftOne(b), n - 1);
      ShiftOneInjective(a, b);
    }
  }

  lemma XorCancels(a: u32, b: u32, p: u32)
    requires Xor(a, p) == Xor(b, p)
    ensures a == b
  {
    hide *;
    XorIs(a, p);
    XorIs(b, p);
    Bits.XorCommon(a, b, p);
    Bits.XorZero(Xor(a, p), Xor(b, p));
    Bits.XorZero(a, b);
  }

  /** Only a register that lost a set bit has its highest bit set. */
  lemma TopBit(h: u32)
    requires h < 0x8000_0000
    ensures Xor(h, POLY) >= 0x8000_0000
  {
    Powers();
    assert Bits.Pow2(31) == 0x8000_0000;
    hide Xor, Bits.Pow2, Bits.Xor;
    XorIs(h, POLY);
    Bits.XorSplit(0, h, 1, POLY - 0x8000_0000, 31);
    Bits.XorCommutes(0, 1);
    Bits.XorNothing(1);
  }

  /** From different registers the same bytes lead to different registers. */
  lemma {:induction false} RunningApart(a: seq<byte>, b: seq<byte>, tail: seq<byte>)
    requires Running(a) != Running(b)
    ensures Running(a + tail) != Running(b + tail)
  {
    if tail == [] {
      assert a + tail == a && b + tail == b;
    } else {
      var n := |tail| - 1;
      RunningApart(a, b, tail[..n]);
      Last(a, tail);
      Last(b, tail);
      hide *;
      SameStep(Running(a + tail[..n]), Running(b + tail[..n]), tail[n]);
    }
  }

  lemma Last(a: seq<byte>, tail: seq<byte>)
    requires tail != []
    ensures var n := |tail| - 1; Running(a + tail) == Shifted(Xor(Running(a + tail[..n]), tail[n]), 8)
  {
    hide Shifted, Xor;
    var s, n := a + tail, |tail| - 1;
    assert s[..|s| - 1] == a + tail[..n] && s[|s| - 1] == tail[n];
  }

  lemma SameStep(x: u32, y: u32, b: byte)
    requires x != y
    ensures Shifted(Xor(x, b), 8) != Shifted(Xor(y, b), 8)
  {
    hide *;
    if Shifted(Xor(x, b), 8) == Shifted(Xor(y, b), 8) {
      ShiftedInjective(Xor(x, b), Xor(y, b), 8);
      XorCancels(x, y, b);
    }
  }

  /** A change confined to one byte, wherever it is, changes the checksum. */
  lemma OneByteNoticed(data: seq<byte>, k: nat, b: byte)
    requires k < |data| && data[k] != b
    ensures Crc(data[k := b]) != Crc(data)
  {
    var head, tail := data[..k], data[k + 1..];
    assert data == (head + [data[k]]) + tail && data[k := b] == (head + [b]) + tail;
    hide Shifted, Xor;
    Last(head, [data[k]]);
    Last(head, [b]);
    assert head + [] == head;
    OtherByte(Running(head), data[k], b);
    RunningApart(head + [data[k]], head + [b], tail);
  }

  lemma OtherByte(x: u32, a: byte, b: byte)
    requires a != b
    ensures Shifted(Xor(x, a), 8) != Shifted(Xor(x, b), 8)
  {
    hide *;
    if Shifted(Xor(x, a), 8) == Shifted(Xor(x, b), 8) {
      ShiftedInjective(Xor(x, a), Xor(x, b), 8);
      XorIs(x, a);
      XorIs(a, x);
      XorIs(x, b);
      XorIs(b, x);
      Bits.XorCommutes(x, a);
      Bits.XorCommutes(x, b);
      XorCancels(a, b, x);
    }
  }
}
