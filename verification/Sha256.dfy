/** SHA-256 as a stream: any split of the message gives the digest of the padded whole. */
module Sha256 {
  import opened Bytes
  import opened Word32

  type Words = s: seq<u32> | |s| == 8 witness [0, 0, 0, 0, 0, 0, 0, 0]

  type Block = s: seq<byte> | |s| == 64 witness seq(64, _ => 0)

  const K: seq<u32> :=
    [0x428a2f98, 0x71374491, 0xb5c0fbcf, 0xe9b5dba5, 0x3956c25b, 0x59f111f1, 0x923f82a4, 0xab1c5ed5]
    + [0xd807aa98, 0x12835b01, 0x243185be, 0x550c7dc3, 0x72be5d74, 0x80deb1fe, 0x9bdc06a7, 0xc19bf174]
    + [0xe49b69c1, 0xefbe4786, 0x0fc19dc6, 0x240ca1cc, 0x2de92c6f, 0x4a7484aa, 0x5cb0a9dc, 0x76f988da]
    + [0x983e5152, 0xa831c66d, 0xb00327c8, 0xbf597fc7, 0xc6e00bf3, 0xd5a79147, 0x06ca6351, 0x14292967]
    + [0x27b70a85, 0x2e1b2138, 0x4d2c6dfc, 0x53380d13, 0x650a7354, 0x766a0abb, 0x81c2c92e, 0x92722c85]
    + [0xa2bfe8a1, 0xa81a664b, 0xc24b8b70, 0xc76c51a3, 0xd192e819, 0xd6990624, 0xf40e3585, 0x106aa070]
    + [0x19a4c116, 0x1e376c08, 0x2748774c, 0x34b0bcb5, 0x391c0cb3, 0x4ed8aa4a, 0x5b9cca4f, 0x682e6ff3]
    + [0x748f82ee, 0x78a5636f, 0x84c87814, 0x8cc70208, 0x90befffa, 0xa4506ceb, 0xbef9a3f7, 0xc67178f2]

  const H0: Words := [
    0x6a09e667, 0xbb67ae85, 0x3c6ef372, 0xa54ff53a, 0x510e527f, 0x9b05688c, 0x1f83d9ab, 0x5be0cd19]

  // ---------- the compression function, section 6.2 of FIPS 180-4 ----------

  /** Four bytes, most significant first. */
  function WordAt(p: Block, i: nat): u32
    requires i < 16
  {
    0x100_0000 * (p[4 * i] as int) + 0x1_0000 * (p[4 * i + 1] as int) + 0x100 * (p[4 * i + 2] as int)
    + (p[4 * i + 3] as int)
  }

  function SmallSigma0(x: u32): u32 {
    Xor(Xor(Rotr(x, 7), Rotr(x, 18)), Shr(x, 3))
  }

  function SmallSigma1(x: u32): u32 {
    Xor(Xor(Rotr(x, 17), Rotr(x, 19)), Shr(x, 10))
  }

  function Expand(w16: u32, w15: u32, w7: u32, w2: u32): u32 {
    (w16 + SmallSigma0(w15) + w7 + SmallSigma1(w2)) % RANGE
  }

  /** The message schedule. */
  function W(p: Block, i: nat): u32
    requires i < 64
  {
    if i < 16 then WordAt(p, i) else Expand(W(p, i - 16), W(p, i - 15), W(p, i - 7), W(p, i - 2))
  }

  function BigSigma0(x: u32): u32 {
    Xor(Xor(Rotr(x, 2), Rotr(x, 13)), Rotr(x, 22))
  }

  function BigSigma1(x: u32): u32 {
    Xor(Xor(Rotr(x, 6), Rotr(x, 11)), Rotr(x, 25))
  }

  function Choice(e: u32, f: u32, g: u32): u32 {
    Xor(And(e, f), And(Not(e), g))
  }

  function Majority(a: u32, b: u32, c: u32): u32 {
    Xor(Xor(And(a, b), And(a, c)), And(b, c))
  }

  function Temp1(e: u32, f: u32, g: u32, h: u32, k: u32, w: u32): u32 {
    (h + BigSigma1(e) + Choice(e, f, g) + k + w) % RANGE
  }

  function Temp2(a: u32, b: u32, c: u32): u32 {
    (BigSigma0(a) + Majority(a, b, c)) % RANGE
  }

  function Round(v: Words, k: u32, w: u32): Words {
    var t1 := Temp1(v[4], v[5], v[6], v[7], k, w);
    var t2 := Temp2(v[0], v[1], v[2]);
    Eight((t1 + t2) % RANGE, v[0], v[1], v[2], (v[3] + t1) % RANGE, v[4], v[5], v[6])
  }

  function Eight(a: u32, b: u32, c: u32, d: u32, e: u32, f: u32, g: u32, h: u32): Words {
    [a, b, c, d, e, f, g, h]
  }

  function Rounds(h: Words, p: Block, n: nat): Words
    requires n <= 64
  {
    if n == 0 then h else Round(Rounds(h, p, n - 1), K[n - 1], W(p, n - 1))
  }

  function Add(a: Words, b: Words): (r: Words)
    ensures forall i :: 0 <= i < 8 ==> r[i] == (a[i] + b[i]) % RANGE
  {
    seq(8, i requires 0 <= i < 8 => (a[i] + b[i]) % RANGE)
  }

  function Compress(h: Words, p: Block): Words {
    Add(h, Rounds(h, p, |p|))
  }

  // ---------- hashing a whole message ----------

  function BlockAt(m: seq<byte>, i: nat): Block
    requires 64 * i + 64 <= |m|
  {
    m[64 * i..64 * i + 64]
  }

  /** The compression folded over the first `n` blocks. */
  function Fold(m: seq<byte>, n: nat): Words
    requires 64 * n <= |m|
  {
    if n == 0 then H0 else Compress(Fold(m, n - 1), BlockAt(m, n - 1))
  }

  function Zeros(n: nat): (z: seq<byte>)
    ensures |z| == n
  {
    seq(n, _ => 0)
  }

  /** Eight bytes, most significant first; the length field keeps its low 64 bits. */
  function BigEndian64(v: nat): (b: seq<byte>)
    ensures |b| == 8
  {
    [v / 0x100_0000_0000_0000 % 256, v / 0x1_0000_0000_0000 % 256, v / 0x100_0000_0000 % 256, v / 0x1_0000_0000 % 256,
     v / 0x100_0000 % 256, v / 0x1_0000 % 256, v / 0x100 % 256, v % 256]
  }

  const TWO64 := 0x1_0000_0000_0000_0000

  /** Zero bytes after the 0x80: the least count that leaves eight bytes of the last block. */
  function ZeroCount(len: nat): (k: nat)
    ensures (len + 1 + k) % 64 == 56 && k < 64
  {
    (119 - len % 64) % 64
  }

  lemma PaddedLength(len: nat, zeros: nat)
    requires (len + 1 + zeros) % 64 == 56
    ensures (len + 1 + zeros + 8) % 64 == 0
  {
  }

  /** The padded message of section 5.1.1 of FIPS 180-4. */
  function Padded(m: seq<byte>): (r: seq<byte>)
    ensures |r| % 64 == 0 && |r| >= |m| + 9
  {
    PaddedLength(|m|, ZeroCount(|m|));
    m + [0x80] + Zeros(ZeroCount(|m|)) + BigEndian64(8 * |m| % TWO64)
  }

  /** Each word gives four bytes, most significant first. */
  function DigestByte(h: Words, i: nat): byte
    requires i < 32
  {
    var x := h[i / 4];
    if i % 4 == 0 then x / 0x100_0000 else if i % 4 == 1 then x / 0x1_0000 % 256 else if i % 4 == 2 then x / 0x100 % 256
    else x % 256
  }

  function DigestBytes(h: Words): (d: seq<byte>)
    ensures |d| == 32
  {
    seq(32, i requires 0 <= i < 32 => DigestByte(h, i))
  }

  /** SHA-256 of a message. */
  function Sha256(m: seq<byte>): (d: seq<byte>)
    ensures |d| == 32
  {
    DigestBytes(Fold(Padded(m), |Padded(m)| / 64))
  }

  // ---------- facts about the fold and the padding ----------

  /** The fold over the first blocks only looks at those blocks. */
  lemma {:induction false} FoldPrefix(m: seq<byte>, more: seq<byte>, n: nat)
    requires 64 * n <= |m|
    ensures Fold(m + more, n) == Fold(m, n)
  {
    hide Compress;
    if n > 0 {
      FoldPrefix(m, more, n - 1);
      assert BlockAt(m + more, n - 1) == BlockAt(m, n - 1);
    }
  }

  lemma BigEndianInjective(v: nat, w: nat)
    requires v < TWO64 && w < TWO64 && BigEndian64(v) == BigEndian64(w)
    ensures v == w
  {
    BigEndianValue(v);
    BigEndianValue(w);
    var b, c := BigEndian64(v), BigEndian64(w);
    assert forall i :: 0 <= i < 8 ==> b[i] == c[i];
  }

  lemma BigEndianValue(v: nat)
    requires v < TWO64
    ensures var b := BigEndian64(v);
            v == 0x100_0000_0000_0000 * (b[0] as int) + 0x1_0000_0000_0000 * (b[1] as int) + 0x100_0000_0000 * (b[2] as int)
                 + 0x1_0000_0000 * (b[3] as int) + 0x100_0000 * (b[4] as int) + 0x1_0000 * (b[5] as int)
                 + 0x100 * (b[6] as int) + (b[7] as int)
  {
    var q1, q2, q3 := v / 0x100, v / 0x1_0000, v / 0x100_0000;
    var q4, q5, q6, q7 := v / 0x1_0000_0000, v / 0x100_0000_0000, v / 0x1_0000_0000_0000, v / 0x100_0000_0000_0000;
    assert q2 == q1 / 256 && q3 == q2 / 256;
    assert q4 == q3 / 256 && q5 == q4 / 256;
    assert q6 == q5 / 256 && q7 == q6 / 256;
    Horner(v, q1, q2, q3, q4, q5, q6, q7);
  }

  lemma Horner(v: nat, q1: nat, q2: nat, q3: nat, q4: nat, q5: nat, q6: nat, q7: nat)
    requires q1 == v / 256 && q2 == q1 / 256 && q3 == q2 / 256 && q4 == q3 / 256 && q5 == q4 / 256 && q6 == q5 / 256
    requires q7 == q6 / 256 && q7 < 256
    ensures v == 0x100_0000_0000_0000 * (q7 % 256) + 0x1_0000_0000_0000 * (q6 % 256) + 0x100_0000_0000 * (q5 % 256)
                 + 0x1_0000_0000 * (q4 % 256) + 0x100_0000 * (q3 % 256) + 0x1_0000 * (q2 % 256)
                 + 0x100 * (q1 % 256) + v % 256
  {
  }

  /** Below 2^61 bytes no two messages are padded to the same blocks. */
  lemma PaddedInjective(a: seq<byte>, b: seq<byte>)
    requires 8 * |a| < TWO64 && 8 * |b| < TWO64 && Padded(a) == Padded(b)
    ensures a == b
  {
    PaddedParts(a);
    PaddedParts(b);
    hide *;
    BigEndianInjective(8 * |a|, 8 * |b|);
  }

  lemma PaddedParts(m: seq<byte>)
    requires 8 * |m| < TWO64
    ensures var p := Padded(m);
            |m| + 8 <= |p| && p[..|m|] == m && p[|p| - 8..] == BigEndian64(8 * |m|)
  {
    hide BigEndian64, ZeroCount;
  }

  // ---------- the streaming context ----------

  /** `h` and the pending bytes stand for the absorbed message `m`. */
  ghost predicate Absorbed(m: seq<byte>, h: Words, pending: seq<byte>) {
    && |pending| < 64 && |pending| <= |m| && (|m| - |pending|) % 64 == 0
    && pending == m[|m| - |pending|..]
    && h == Fold(m, (|m| - |pending|) / 64)
  }

  lemma AbsorbSome(m: seq<byte>, h: Words, pending: seq<byte>, chunk: seq<byte>)
    requires Absorbed(m, h, pending) && |pending| + |chunk| < 64
    ensures Absorbed(m + chunk, h, pending + chunk)
  {
    hide Compress;
    FoldPrefix(m, chunk, (|m| - |pending|) / 64);
  }

  lemma AbsorbBlock(m: seq<byte>, h: Words, pending: seq<byte>, chunk: seq<byte>)
    requires Absorbed(m, h, pending) && |pending| + |chunk| == 64
    ensures Absorbed(m + chunk, Compress(h, pending + chunk), [])
  {
    hide Compress;
    var n := (|m| - |pending|) / 64;
    FoldPrefix(m, chunk, n);
    assert |m + chunk| == 64 * (n + 1);
    assert BlockAt(m + chunk, n) == pending + chunk;
  }

  /** The bytes of a word shifted into their places. */
  lemma WordOf(p: Block, i: nat)
    requires i < 16
    ensures Or(Or(Or(Shl(p[4 * i], 24), Shl(p[4 * i + 1], 16)), Shl(p[4 * i + 2], 8)), p[4 * i + 3]) == WordAt(p, i)
  {
    hide *;
    FourBytes(p[4 * i], p[4 * i + 1], p[4 * i + 2], p[4 * i + 3]);
    WordAtIs(p, i);
  }

  lemma WordAtIs(p: Block, i: nat)
    requires i < 16
    ensures WordAt(p, i) == 0x100_0000 * (p[4 * i] as int) + 0x1_0000 * (p[4 * i + 1] as int)
                            + 0x100 * (p[4 * i + 2] as int) + (p[4 * i + 3] as int)
  {
  }

  /** The message schedule, filled in order. */
  method Schedule(p: Block) returns (w: array<u32>)
    ensures w.Length == 64 && fresh(w)
    ensures forall k :: 0 <= k < 64 ==> w[k] == W(p, k)
  {
    hide Expand, WordAt, Or, Shl, Rotr, Xor, Shr, Plus;
    w := new u32[64];
    for i := 0 to 16
      invariant forall k :: 0 <= k < i ==> w[k] == W(p, k)
    {
      WordOf(p, i);
      w[i] := Or(Or(Or(Shl(p[4 * i], 24), Shl(p[4 * i + 1], 16)), Shl(p[4 * i + 2], 8)), p[4 * i + 3]);
    }
    for i := 16 to 64
      invariant forall k :: 0 <= k < i ==> w[k] == W(p, k)
    {
      var s0 := Xor(Xor(Rotr(w[i - 15], 7), Rotr(w[i - 15], 18)), Shr(w[i - 15], 3));
      var s1 := Xor(Xor(Rotr(w[i - 2], 17), Rotr(w[i - 2], 19)), Shr(w[i - 2], 10));
      ExpandIs(w[i - 16], w[i - 15], w[i - 7], w[i - 2]);
      w[i] := Plus(Plus(Plus(w[i - 16], s0), w[i - 7]), s1);
    }
  }

  lemma ExpandIs(w16: u32, w15: u32, w7: u32, w2: u32)
    ensures var s0 := Xor(Xor(Rotr(w15, 7), Rotr(w15, 18)), Shr(w15, 3));
            var s1 := Xor(Xor(Rotr(w2, 17), Rotr(w2, 19)), Shr(w2, 10));
            Plus(Plus(Plus(w16, s0), w7), s1) == Expand(w16, w15, w7, w2)
  {
    hide Xor, Rotr, Shr, Plus;
    FourPlus(w16, SmallSigma0(w15), w7, SmallSigma1(w2));
  }

  /** `sha256_compress`, with its schedule array and its eight working variables. */
  method CompressBlock(h: Words, p: Block) returns (r: Words)
    ensures r == Compress(h, p)
  {
    hide Compress, Round, Add, W;
    var w := Schedule(p);
    var v := h;
    for i := 0 to 64
      modifies {}
      invariant v == Rounds(h, p, i)
    {
      v := RoundStep(v, K[i], w[i]);
    }
    CompressIs(h, p);
    r := AddWords(h, v);
  }

  /** The eight sums at the end. */
  method AddWords(h: Words, v: Words) returns (r: Words)
    ensures r == Add(h, v)
  {
    r := [Plus(h[0], v[0]), Plus(h[1], v[1]), Plus(h[2], v[2]), Plus(h[3], v[3]),
          Plus(h[4], v[4]), Plus(h[5], v[5]), Plus(h[6], v[6]), Plus(h[7], v[7])];
  }

  lemma CompressIs(h: Words, p: Block)
    ensures Compress(h, p) == Add(h, Rounds(h, p, 64))
  {
    hide Add, Rounds;
    assert |p| == 64;
  }

  /** One turn of the loop over the working variables. */
  method RoundStep(v: Words, k: u32, w: u32) returns (r: Words)
    ensures r == Round(v, k, w)
  {
    hide And, Or, Xor, Not, Rotr, Plus, Temp1, Temp2;
    var a, b, c, d, e, f, g, h := v[0], v[1], v[2], v[3], v[4], v[5], v[6], v[7];
    var S1 := Xor(Xor(Rotr(e, 6), Rotr(e, 11)), Rotr(e, 25));
    var ch := Xor(And(e, f), And(Not(e), g));
    var t1 := Plus(Plus(Plus(Plus(h, S1), ch), k), w);
    Temp1Is(e, f, g, h, k, w);
    var S0 := Xor(Xor(Rotr(a, 2), Rotr(a, 13)), Rotr(a, 22));
    var maj := Xor(Xor(And(a, b), And(a, c)), And(b, c));
    var t2 := Plus(S0, maj);
    Temp2Is(a, b, c);
    PlusIs(d, t1);
    PlusIs(t1, t2);
    h := g; g := f; f := e; e := Plus(d, t1);
    d := c; c := b; b := a; a := Plus(t1, t2);
    r := [a, b, c, d, e, f, g, h];
  }

  lemma PlusIs(x: u32, y: u32)
    ensures Plus(x, y) == (x + y) % RANGE
  {
  }

  lemma Temp1Is(e: u32, f: u32, g: u32, h: u32, k: u32, w: u32)
    ensures var S1 := Xor(Xor(Rotr(e, 6), Rotr(e, 11)), Rotr(e, 25));
            var ch := Xor(And(e, f), And(Not(e), g));
            Plus(Plus(Plus(Plus(h, S1), ch), k), w) == Temp1(e, f, g, h, k, w)
  {
    hide And, Or, Xor, Not, Rotr, Plus;
    FivePlus(h, BigSigma1(e), Choice(e, f, g), k, w);
  }

  lemma Temp2Is(a: u32, b: u32, c: u32)
    ensures Plus(Xor(Xor(Rotr(a, 2), Rotr(a, 13)), Rotr(a, 22)), Xor(Xor(And(a, b), And(a, c)), And(b, c)))
            == Temp2(a, b, c)
  {
    hide And, Or, Xor, Not, Rotr;
  }

  lemma BitsAdd(a: nat, b: nat)
    ensures (8 * a % TWO64 + 8 * b) % TWO64 == 8 * (a + b) % TWO64
  {
    var q, r := 8 * a / TWO64, 8 * a % TWO64;
    assert 8 * a == q * TWO64 + r;
    assert (q * TWO64 + (r + 8 * b)) % TWO64 == (r + 8 * b) % TWO64;
  }

  class Sha256Ctx {
    var h: Words
    var bits: nat
    const buf: array<byte>
    var buflen: nat
    ghost var absorbed: seq<byte>   // the message so far

    ghost predicate Valid()
      reads this, buf
    {
      && buf.Length == 64 && buflen < 64
      && Absorbed(absorbed, h, buf[..buflen])
      && bits == 8 * |absorbed| % TWO64
    }

    constructor Init()
      ensures Valid() && absorbed == [] && fresh(buf)
    {
      h, bits, buflen := H0, 0, 0;
      buf := new byte[64];
      absorbed := [];
    }

    /** The `memcpy` of one turn of the update loop. */
    method Fill(chunk: seq<byte>)
      requires buf.Length == 64 && buflen + |chunk| <= 64
      modifies this`buflen, buf
      ensures buflen == old(buflen) + |chunk|
      ensures buf[..buflen] == old(buf[..buflen]) + chunk
    {
      forall i | 0 <= i < |chunk| {
        buf[buflen + i] := chunk[i];
      }
      buflen := buflen + |chunk|;
    }

    /** `sha256_update`: absorbs any number of bytes, whatever is already buffered. */
    method Update(data: seq<byte>)
      requires Valid()
      modifies this, buf
      ensures Valid() && absorbed == old(absorbed) + data
    {
      hide Compress, Fold, Absorbed;
      bits := (bits + 8 * |data|) % TWO64;
      ghost var before := absorbed;
      ghost var total := bits;
      assert total == 8 * |before + data| % TWO64 by { BitsAdd(|before|, |data|); }
      var rest := data;
      while |rest| > 0
        invariant bits == total && buf.Length == 64 && buflen < 64
        invariant absorbed + rest == before + data && Absorbed(absorbed, h, buf[..buflen])
        decreases |rest|
      {
        var take := 64 - buflen;
        if take > |rest| { take := |rest|; }
        ghost var pending, chunk := buf[..buflen], rest[..take];
        ghost var so := absorbed;
        Fill(rest[..take]);
        assert so + rest == (so + chunk) + rest[take..];
        absorbed := so + chunk;
        rest := rest[take..];
        if buflen == 64 {
          AbsorbBlock(so, h, pending, chunk);
          assert buf[..] == buf[..64];
          h := CompressBlock(h, buf[..]);
          buflen := 0;
          assert buf[..0] == [];
        } else {
          AbsorbSome(so, h, pending, chunk);
        }
      }
      assert absorbed + rest == absorbed;
    }

    /** `sha256_final`: pads, absorbs the padding, returns the digest and wipes the context. */
    method Final() returns (out: seq<byte>)
      requires Valid()
      modifies this, buf
      ensures out == Sha256(old(absorbed))
      ensures h == [0, 0, 0, 0, 0, 0, 0, 0] && bits == 0 && buflen == 0
    {
      hide Compress, Fold, Absorbed, Sha256, Padded, BigEndian64, DigestBytes;
      AbsorbedLength(absorbed, h, buf[..buflen]);
      ghost var m := absorbed;
      var total := bits;
      var padLen := if buflen < 56 then 56 - buflen else 120 - buflen;
      var pad := new byte[72];
      pad[0] := 0x80;
      for i := 1 to padLen
        modifies pad
        invariant pad[0] == 0x80 && forall k :: 1 <= k < i ==> pad[k] == 0
      {
        pad[i] := 0;
      }
      for i := 0 to 8
        modifies pad
        invariant pad[0] == 0x80 && (forall k :: 1 <= k < padLen ==> pad[k] == 0)
        invariant forall k :: 0 <= k < i ==> pad[padLen + k] == BigEndian64(total)[k]
      {
        pad[padLen + i] := BigEndian64(total)[i];
      }
      PadIs(m, buflen, padLen, total, pad[..padLen + 8]);
      Update(pad[..padLen + 8]);
      WholeBlocks(absorbed, h, buf[..buflen]);
      Digested(m, h);
      out := WriteDigest(h);
      h, bits, buflen, absorbed := [0, 0, 0, 0, 0, 0, 0, 0], 0, 0, [];
      for i := 0 to 64
        modifies buf
      {
        buf[i] := 0;
      }
    }
  }

  /** The output loop: each word shifted down and masked, byte by byte. */
  method WriteDigest(h: Words) returns (out: seq<byte>)
    ensures out == DigestBytes(h)
  {
    hide And, Shr, DigestByte;
    out := [];
    for i := 0 to 8
      invariant |out| == 4 * i
      invariant forall k :: 0 <= k < 4 * i ==> out[k] == DigestByte(h, k)
    {
      BytesOf(h, i);
      out := out + [And(Shr(h[i], 24), 0xff), And(Shr(h[i], 16), 0xff), And(Shr(h[i], 8), 0xff), And(h[i], 0xff)];
    }
  }

  lemma BytesOf(h: Words, i: nat)
    requires i < 8
    ensures And(Shr(h[i], 24), 0xff) == DigestByte(h, 4 * i)
    ensures And(Shr(h[i], 16), 0xff) == DigestByte(h, 4 * i + 1)
    ensures And(Shr(h[i], 8), 0xff) == DigestByte(h, 4 * i + 2)
    ensures And(h[i], 0xff) == DigestByte(h, 4 * i + 3)
  {
    hide And, Shr;
    LowByte(h[i]);
  }

  lemma PadIs(m: seq<byte>, buflen: nat, padLen: nat, total: nat, pad: seq<byte>)
    requires buflen == |m| % 64 && padLen == (if buflen < 56 then 56 - buflen else 120 - buflen)
    requires total == 8 * |m| % TWO64 && |pad| == padLen + 8
    requires pad[0] == 0x80 && (forall k :: 1 <= k < padLen ==> pad[k] == 0)
    requires forall k :: 0 <= k < 8 ==> pad[padLen + k] == BigEndian64(total)[k]
    ensures m + pad == Padded(m)
  {
    hide BigEndian64;
    assert padLen == 1 + ZeroCount(|m|);
    var spec := [0x80 as byte] + Zeros(ZeroCount(|m|)) + BigEndian64(total);
    assert pad == spec;
    assert m + spec == Padded(m);
  }

  lemma AbsorbedLength(m: seq<byte>, h: Words, pending: seq<byte>)
    requires Absorbed(m, h, pending)
    ensures |pending| == |m| % 64
  {
    hide Compress, Fold;
  }

  lemma Digested(m: seq<byte>, h: Words)
    requires |Padded(m)| % 64 == 0 && h == Fold(Padded(m), |Padded(m)| / 64)
    ensures DigestBytes(h) == Sha256(m)
  {
    hide Compress, Fold, Padded, DigestBytes;
  }

  lemma WholeBlocks(m: seq<byte>, h: Words, pending: seq<byte>)
    requires Absorbed(m, h, pending) && |m| % 64 == 0
    ensures h == Fold(m, |m| / 64)
  {
    hide Compress, Fold;
    AbsorbedLength(m, h, pending);
    assert |pending| == 0;
  }

  /** `sha256_buf`. */
  method HashBuffer(data: seq<byte>) returns (out: seq<byte>)
    ensures out == Sha256(data)
  {
    hide Compress, Absorbed, Sha256, Fold;
    var ctx := new Sha256Ctx.Init();
    ctx.Update(data);
    assert [] + data == data;
    out := ctx.Final();
  }

  function Concat(parts: seq<seq<byte>>): seq<byte> {
    if parts == [] then [] else Concat(parts[..|parts| - 1]) + parts[|parts| - 1]
  }

  /** Any sequence of `sha256_update` calls hashes the concatenation of what they were given. */
  method HashParts(parts: seq<seq<byte>>) returns (out: seq<byte>)
    ensures out == Sha256(Concat(parts))
  {
    hide Compress, Absorbed, Sha256, Fold;
    var ctx := new Sha256Ctx.Init();
    for i := 0 to |parts|
      invariant ctx.Valid() && ctx.absorbed == Concat(parts[..i])
      invariant fresh(ctx) && fresh(ctx.buf)
    {
      assert parts[..i + 1][..i] == parts[..i];
      ctx.Update(parts[i]);
    }
    assert parts[..|parts|] == parts;
    out := ctx.Final();
  }
}
