/** Bytes and the fixed-width little-endian integers both runtimes exchange. */
module Bytes {
  type byte = x: int | 0 <= x < 256

  type u32 = x: int | 0 <= x < 0x1_0000_0000

  type u16 = x: int | 0 <= x < 0x1_0000

  function Put16(v: u16): (b: seq<byte>)
    ensures |b| == 2
  {
    [v % 256, v / 256]
  }

  function Get16(b: seq<byte>): u16
    requires |b| >= 2
  {
    (b[0] as int) + 256 * (b[1] as int)
  }

  function Put32(v: u32): (b: seq<byte>)
    ensures |b| == 4
  {
    [v % 256, v / 256 % 256, v / 0x1_0000 % 256, v / 0x100_0000]
  }

  function Get32(b: seq<byte>): u32
    requires |b| >= 4
  {
    (b[0] as int) + 256 * (b[1] as int) + 0x1_0000 * (b[2] as int) + 0x100_0000 * (b[3] as int)
  }

  /** Least significant byte first. */
  lemma Put16Order(v: u16)
    ensures var b := Put16(v); (b[0] as int) + 0x100 * (b[1] as int) == v
  {
  }

  lemma Put32Order(v: u32)
    ensures var b := Put32(v);
            (b[0] as int) + 0x100 * (b[1] as int) + 0x1_0000 * (b[2] as int) + 0x100_0000 * (b[3] as int) == v
  {
  }

  lemma Get16Put16(v: u16, rest: seq<byte>)
    ensures Get16(Put16(v) + rest) == v
  {
  }

  lemma Get32Put32(v: u32, rest: seq<byte>)
    ensures Get32(Put32(v) + rest) == v
  {
    var a, b := v / 256, v / 0x1_0000;
    assert a / 256 == b && b / 256 == v / 0x100_0000;
    assert v == 256 * a + v % 256 && a == 256 * b + a % 256 && b == 256 * (b / 256) + b % 256;
  }

  /** Copies `bytes` into `out` from `at` on. */
  method Store(out: array<byte>, at: nat, bytes: seq<byte>)
    requires at + |bytes| <= out.Length
    modifies out
    ensures out[..at + |bytes|] == old(out[..at]) + bytes
    ensures out[at + |bytes|..] == old(out[at + |bytes|..])
  {
    forall i | 0 <= i < |bytes| {
      out[at + i] := bytes[i];
    }
  }
}
