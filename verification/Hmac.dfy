/** `hmac_sha256` and the constant-time comparison of two digests. */
module Hmac {
  import opened Bytes
  import opened Sha256
  import Bits

  const MAX_KEY_LEN := 1024

  lemma ByteBound(a: byte, b: byte)
    ensures Bits.Xor(a, b) < 256 && Bits.Or(a, b) < 256
  {
    assert Bits.Pow2(8) == 256;
    hide *;
    Bits.Bound(a, b, 8);
  }

  function XorByte(a: byte, b: byte): byte {
    ByteBound(a, b);
    Bits.Xor(a, b)
  }

  function OrByte(a: byte, b: byte): byte {
    ByteBound(a, b);
    Bits.Or(a, b)
  }

  function XorAll(s: seq<byte>, b: byte): (r: seq<byte>)
    ensures |r| == |s|
  {
    seq(|s|, i requires 0 <= i < |s| => XorByte(s[i], b))
  }

  /** The key of section 2 of RFC 2104: hashed if longer than a block, then zero-filled. */
  function KeyBlock(key: seq<byte>): (k: seq<byte>)
    requires |key| >= 1
    ensures |k| == 64
  {
    var short := if |key| > 64 then Sha256.Sha256(key) else key;
    short + Zeros(64 - |short|)
  }

  /** HMAC of RFC 2104: H(K xor opad, H(K xor ipad, text)). */
  function HmacOf(key: seq<byte>, text: seq<byte>): (mac: seq<byte>)
    requires |key| >= 1
    ensures |mac| == 32
  {
    var k := KeyBlock(key);
    Sha256.Sha256(XorAll(k, 0x5c) + Sha256.Sha256(XorAll(k, 0x36) + text))
  }

  /** Leaving the inner pad for the outer one: one more xor with 0x36 ^ 0x5c. */
  lemma XorSwitch(x: byte)
    ensures XorByte(XorByte(x, 0x36), 0x6a) == XorByte(x, 0x5c)
  {
    hide Bits.Xor;
    Bits.XorAssociative(x, 0x36, 0x6a);
    PadsDiffer();
  }

  /** The inner and the outer pad differ by the constant the code xors in between. */
  lemma PadsDiffer()
    ensures Bits.Xor(0x36, 0x6a) == 0x5c
  {
    assert Bits.Xor(0x3, 0x6) == 0x5;
    assert Bits.Xor(0x6, 0xa) == 0xc;
    hide Bits.Xor;
    Bits.XorNibble(0x3, 0x6, 0x5, 0x6, 0xa, 0xc);
  }

  method XorBlock(block: array<byte>, b: byte)
    requires block.Length == 64
    modifies block
    ensures block[..] == XorAll(old(block[..]), b)
  {
    hide XorByte;
    ghost var before := block[..];
    for i := 0 to 64
      invariant forall k :: 0 <= k < i ==> block[k] == XorByte(before[k], b)
      invariant forall k :: i <= k < 64 ==> block[k] == before[k]
    {
      block[i] := XorByte(block[i], b);
    }
  }

  /** `hmac_prepare_key`: refuses an empty or over-long key. */
  method PrepareKey(key: seq<byte>, block: array<byte>) returns (rc: int)
    requires block.Length == 64
    modifies block
    ensures rc == if 1 <= |key| <= MAX_KEY_LEN then 0 else -1
    ensures rc == 0 ==> block[..] == KeyBlock(key)
  {
    hide Sha256.Sha256;
    if |key| == 0 { return -1; }
    for i := 0 to 64
      invariant forall k :: 0 <= k < i ==> block[k] == 0
    {
      block[i] := 0;
    }
    var short := key;
    if |key| > 64 {
      if |key| > MAX_KEY_LEN { return -1; }
      short := HashBuffer(key);
    }
    forall i | 0 <= i < |short| {
      block[i] := short[i];
    }
    assert block[..] == short + Zeros(64 - |short|);
    return 0;
  }

  /** `hmac_sha256`: one block, xored in place twice, and two hash runs. */
  method HmacSha256(key: seq<byte>, msg: seq<byte>) returns (rc: int, out: seq<byte>)
    ensures rc == if 1 <= |key| <= MAX_KEY_LEN then 0 else -1
    ensures rc == 0 ==> out == HmacOf(key, msg)
  {
    hide Sha256.Sha256, XorByte;
    var block := new byte[64];
    out := [];
    rc := PrepareKey(key, block);
    if rc != 0 { return; }
    ghost var k := KeyBlock(key);
    XorBlock(block, 0x36);
    var inner := HashTwo(block[..], msg);
    XorBlock(block, 0x6a);
    assert block[..] == XorAll(k, 0x5c) by {
      forall i | 0 <= i < 64 ensures block[i] == XorByte(k[i], 0x5c) {
        XorSwitch(k[i]);
      }
    }
    out := HashTwo(block[..], inner);
  }

  /** One context, two updates. */
  method HashTwo(a: seq<byte>, b: seq<byte>) returns (out: seq<byte>)
    ensures out == Sha256.Sha256(a + b)
  {
    hide Compress, Absorbed, Sha256.Sha256, Fold;
    var ctx := new Sha256Ctx.Init();
    ctx.Update(a);
    assert [] + a == a;
    ctx.Update(b);
    out := ctx.Final();
  }

  /** `hmac_equal`: looks at every byte, and answers 1 exactly for equal digests. */
  method DigestsEqual(a: seq<byte>, b: seq<byte>) returns (r: int)
    requires |a| == 32 && |b| == 32
    ensures r == if a == b then 1 else 0
  {
    var diff: byte := 0;
    for i := 0 to 32
      invariant diff == 0 <==> a[..i] == b[..i]
    {
      Bits.XorZero(a[i], b[i]);
      Bits.OrZero(diff, XorByte(a[i], b[i]));
      assert a[..i + 1] == a[..i] + [a[i]] && b[..i + 1] == b[..i] + [b[i]];
      diff := OrByte(diff, XorByte(a[i], b[i]));
    }
    assert a[..32] == a && b[..32] == b;
    r := if diff == 0 then 1 else 0;
  }
}
