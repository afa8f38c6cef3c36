/** The download frame format, and what one byte does to the receiving side. */
module DownloadFrames {
  import opened Bytes
  import Bits
  import Crc32
  import Hmac

  const MAGIC: u32 := 0x31464C44
  const VER: byte := 1
  const HEADER_LEN := 24
  const MAC_LEN := 32
  const KIND_DATA: byte := 0
  const KIND_ACK: byte := 1
  const KIND_ERR: byte := 2
  const FLAG_LAST := 1
  const MAX_PAYLOAD := 4096
  const MAX_IMAGE := 1048576

  const OK := 0
  const E_TRUNC := -1
  const E_MAGIC := -2
  const E_LEN := -3
  const E_IMAGE_LEN := -4
  const E_SEQ := -5
  const E_CRC := -6
  const E_HMAC := -7
  const E_OVER := -8
  const E_INCOMPLETE := -9
  const E_STATE := -10

  type Key = k: seq<byte> | |k| == 32 witness seq(32, _ => 0)

  type Payload = p: seq<byte> | |p| <= MAX_PAYLOAD

  // ---------- building a frame ----------

  /** Everything the MAC covers: the header after the magic, and the payload. */
  function Covered(kind: byte, flags: u16, imageLen: u32, sn: u32, payload: Payload): (c: seq<byte>)
    ensures |c| == 20 + |payload|
  {
    [VER, kind] + Put16(flags) + Put32(imageLen) + Put32(sn) + Put32(|payload|) + Put32(Crc32.Crc(payload)) + payload
  }

  function Frame(kind: byte, flags: u16, imageLen: u32, sn: u32, payload: Payload, key: Key): (f: seq<byte>)
    ensures |f| == HEADER_LEN + |payload| + MAC_LEN
  {
    var covered := Covered(kind, flags, imageLen, sn, payload);
    Put32(MAGIC) + covered + Hmac.HmacOf(key, covered)
  }

  // ---------- reading a frame ----------

  function Kind(f: seq<byte>): byte
    requires |f| >= HEADER_LEN
  {
    f[5]
  }

  function Flags(f: seq<byte>): u16
    requires |f| >= HEADER_LEN
  {
    Get16(f[6..])
  }

  function ImageLen(f: seq<byte>): u32
    requires |f| >= HEADER_LEN
  {
    Get32(f[8..])
  }

  function SeqNo(f: seq<byte>): u32
    requires |f| >= HEADER_LEN
  {
    Get32(f[12..])
  }

  function PayloadLen(f: seq<byte>): u32
    requires |f| >= HEADER_LEN
  {
    Get32(f[16..])
  }

  function CrcField(f: seq<byte>): u32
    requires |f| >= HEADER_LEN
  {
    Get32(f[20..])
  }

  predicate IsLast(f: seq<byte>)
    requires |f| >= HEADER_LEN
  {
    Flags(f) % 2 == 1
  }

  /** The test of the flag is on its bit alone. */
  lemma LastFlag(f: seq<byte>)
    requires |f| >= HEADER_LEN
    ensures IsLast(f) <==> Bits.And(Flags(f), FLAG_LAST) != 0
  {
    assert Bits.Pow2(1) - 1 == FLAG_LAST;
    hide Bits.And, Flags, Bits.Pow2;
    Bits.AndMask(Flags(f), 1);
    TwoIs();
  }

  lemma TwoIs()
    ensures Bits.Pow2(1) == 2
  {
  }

  /** A whole frame: its length field agrees with its length. */
  predicate Whole(f: seq<byte>) {
    |f| >= HEADER_LEN && PayloadLen(f) <= MAX_PAYLOAD && |f| == HEADER_LEN + PayloadLen(f) + MAC_LEN
  }

  function PayloadOf(f: seq<byte>): Payload
    requires Whole(f)
  {
    f[HEADER_LEN..|f| - MAC_LEN]
  }

  /** Magic, version, MAC and checksum all hold: the frame comes from a holder of the key. */
  predicate Authentic(key: Key, f: seq<byte>) {
    && Whole(f)
    && Get32(f) == MAGIC && f[4] == VER
    && f[|f| - MAC_LEN..] == Hmac.HmacOf(key, f[4..|f| - MAC_LEN])
    && CrcField(f) == (if PayloadLen(f) == 0 then 0 else Crc32.Crc(PayloadOf(f)))
  }

  /** A built frame reads back field by field. */
  lemma FrameFields(kind: byte, flags: u16, imageLen: u32, sn: u32, payload: Payload, key: Key)
    ensures var f := Frame(kind, flags, imageLen, sn, payload, key);
            && Kind(f) == kind && Flags(f) == flags && ImageLen(f) == imageLen && SeqNo(f) == sn
            && PayloadLen(f) == |payload| && Authentic(key, f) && PayloadOf(f) == payload
  {
    hide Put16, Put32, Get16, Get32, Hmac.HmacOf, Crc32.Crc;
    var f := Frame(kind, flags, imageLen, sn, payload, key);
    Fields(kind, flags, imageLen, sn, payload, key);
    HalfBack(f, 6, flags);
    WordBack(f, 0, MAGIC);
    WordBack(f, 8, imageLen);
    WordBack(f, 12, sn);
    WordBack(f, 16, |payload|);
    WordBack(f, 20, Crc32.Crc(payload));
    Crc32.CrcEmpty();
  }

  lemma HalfBack(f: seq<byte>, at: nat, v: u16)
    requires at + 2 <= |f| && f[at..at + 2] == Put16(v)
    ensures Get16(f[at..]) == v
  {
    hide Get16, Put16;
    assert f[at..] == Put16(v) + f[at + 2..];
    Get16Put16(v, f[at + 2..]);
  }

  lemma WordBack(f: seq<byte>, at: nat, v: u32)
    requires at + 4 <= |f| && f[at..at + 4] == Put32(v)
    ensures Get32(f[at..]) == v
  {
    hide Get32, Put32;
    assert f[at..] == Put32(v) + f[at + 4..];
    Get32Put32(v, f[at + 4..]);
  }

  /** The bytes of a frame, field after field. */
  lemma Fields(kind: byte, flags: u16, imageLen: u32, sn: u32, payload: Payload, key: Key)
    ensures var f := Frame(kind, flags, imageLen, sn, payload, key);
            && f[..4] == Put32(MAGIC) && f[0..4] == Put32(MAGIC) && f[4] == VER && f[5] == kind && f[6..8] == Put16(flags)
            && f[8..12] == Put32(imageLen) && f[12..16] == Put32(sn) && f[16..20] == Put32(|payload|)
            && f[20..24] == Put32(Crc32.Crc(payload)) && f[24..|f| - MAC_LEN] == payload
            && f[|f| - MAC_LEN..] == Hmac.HmacOf(key, f[4..|f| - MAC_LEN])
  {
    hide Put16, Put32, Hmac.HmacOf, Crc32.Crc;
    var f := Frame(kind, flags, imageLen, sn, payload, key);
    assert f[4..|f| - MAC_LEN] == Covered(kind, flags, imageLen, sn, payload);
  }

  ghost predicate Field16(f: seq<byte>, at: nat, v: u16)
    requires at + 2 <= |f|
  {
    v == (f[at] as int) + 0x100 * (f[at + 1] as int)
  }

  ghost predicate Field32(f: seq<byte>, at: nat, v: u32)
    requires at + 4 <= |f|
  {
    v == (f[at] as int) + 0x100 * (f[at + 1] as int) + 0x1_0000 * (f[at + 2] as int) + 0x100_0000 * (f[at + 3] as int)
  }

  /** Where each field stands on the wire: the letters DLF1, the version, and little-endian words; the
      checksum is the payload's and the MAC covers everything from the version on. */
  lemma FrameLayout(kind: byte, flags: u16, imageLen: u32, sn: u32, payload: Payload, key: Key)
    ensures var f := Frame(kind, flags, imageLen, sn, payload, key);
            && f[..6] == [0x44, 0x4C, 0x46, 0x31, 1, kind]
            && Field16(f, 6, flags) && Field32(f, 8, imageLen) && Field32(f, 12, sn) && Field32(f, 16, |payload|)
            && Field32(f, 20, Crc32.Crc(payload)) && f[24..24 + |payload|] == payload
            && f[24 + |payload|..] == Hmac.HmacOf(key, f[4..24 + |payload|])
  {
    hide Put16, Put32, Hmac.HmacOf, Crc32.Crc;
    var f := Frame(kind, flags, imageLen, sn, payload, key);
    Fields(kind, flags, imageLen, sn, payload, key);
    HalfAt(f, 6, flags);
    DwordAt(f, 8, imageLen);
    DwordAt(f, 12, sn);
    DwordAt(f, 16, |payload|);
    DwordAt(f, 20, Crc32.Crc(payload));
    MagicBytes();
    assert f[..6] == f[..4] + [f[4], f[5]];
  }

  lemma MagicBytes()
    ensures Put32(MAGIC) == [0x44, 0x4C, 0x46, 0x31]
  {
  }

  lemma HalfAt(f: seq<byte>, at: nat, v: u16)
    requires at + 2 <= |f| && f[at..at + 2] == Put16(v)
    ensures Field16(f, at, v)
  {
    hide Put16;
    Put16Order(v);
    assert f[at] == f[at..at + 2][0] && f[at + 1] == f[at..at + 2][1];
  }

  lemma DwordAt(f: seq<byte>, at: nat, v: u32)
    requires at + 4 <= |f| && f[at..at + 4] == Put32(v)
    ensures Field32(f, at, v)
  {
    hide Put32;
    Put32Order(v);
    var w := f[at..at + 4];
    assert f[at] == w[0] && f[at + 1] == w[1] && f[at + 2] == w[2] && f[at + 3] == w[3];
  }

  // ---------- the receiver as a value ----------

  datatype Rx = Rx(image: seq<byte>, scratch: seq<byte>, imageLen: u32, nextSeq: u32, frames: u32,
                   lastSeen: bool, failed: bool, lastError: int)

  const RESET := Rx([], [], 0, 0, 0, false, false, 0)

  function Wrap(n: nat): u32 {
    n % 0x1_0000_0000
  }

  /** The checks on a frame alone: the first one that fails decides. */
  function Verdict(key: Key, f: seq<byte>): int
    requires |f| >= HEADER_LEN
  {
    if Get32(f) != MAGIC then E_MAGIC
    else if f[4] != VER then E_MAGIC
    else if PayloadLen(f) > MAX_PAYLOAD then E_LEN
    else if |f| != HEADER_LEN + PayloadLen(f) + MAC_LEN then E_LEN
    else if f[|f| - MAC_LEN..] != Hmac.HmacOf(key, f[4..|f| - MAC_LEN]) then E_HMAC
    else if CrcField(f) != (if PayloadLen(f) == 0 then 0 else Crc32.Crc(PayloadOf(f))) then E_CRC
    else OK
  }

  /** What an authentic frame does to the receiver, by its number, kind and lengths. */
  function Take(rx: Rx, f: seq<byte>): (Rx, int)
    requires Whole(f)
  {
    if SeqNo(f) != rx.nextSeq then (rx, E_SEQ)
    else if Kind(f) == KIND_DATA then
      if ImageLen(f) == 0 || ImageLen(f) > MAX_IMAGE then (rx, E_IMAGE_LEN)
      else if rx.nextSeq != 0 && ImageLen(f) != rx.imageLen then (rx, E_IMAGE_LEN)
      else if |rx.image| + PayloadLen(f) > ImageLen(f) then (rx.(imageLen := ImageLen(f)), E_OVER)
      else (Counted(rx.(imageLen := ImageLen(f), image := rx.image + PayloadOf(f), lastSeen := rx.lastSeen || IsLast(f))), OK)
    else if Kind(f) == KIND_ACK then
      if PayloadLen(f) != 0 then (rx, E_LEN) else (Counted(rx), OK)
    else if Kind(f) == KIND_ERR then
      if PayloadLen(f) != 0 then (rx, E_LEN) else (rx, E_STATE)
    else (rx, E_MAGIC)
  }

  lemma VerdictOk(key: Key, f: seq<byte>)
    requires |f| >= HEADER_LEN
    ensures Verdict(key, f) == OK <==> Authentic(key, f)
    ensures Verdict(key, f) == OK ==> Whole(f)
    ensures Verdict(key, f) == OK || Verdict(key, f) < E_TRUNC
  {
    hide Hmac.HmacOf, Crc32.Crc, Get32, Get16, PayloadLen;
  }

  /** `dl_rx_absorb`: check the frame in `scratch` and take it in; the code says whether it was refused. */
  function Absorb(key: Key, rx: Rx): (Rx, int)
    requires |rx.scratch| >= HEADER_LEN
  {
    VerdictOk(key, rx.scratch);
    var v := Verdict(key, rx.scratch);
    if v != OK then (rx, v) else Take(rx, rx.scratch)
  }

  function Counted(rx: Rx): Rx {
    rx.(nextSeq := Wrap(rx.nextSeq + 1), frames := Wrap(rx.frames + 1))
  }

  function Fail(rx: Rx, code: int): Rx {
    rx.(failed := true, lastError := code)
  }

  /** How many bytes the frame being assembled needs next. */
  function Want(scratch: seq<byte>): nat {
    if |scratch| < HEADER_LEN then HEADER_LEN else HEADER_LEN + PayloadLen(scratch) + MAC_LEN
  }

  /** A frame is being assembled and the bytes so far do not refuse it. */
  predicate Assembling(scratch: seq<byte>) {
    |scratch| < HEADER_LEN || (PayloadLen(scratch) <= MAX_PAYLOAD && |scratch| < Want(scratch))
  }

  /** What the receiver does as soon as `scratch` allows it. */
  function Settle(key: Key, rx: Rx): Rx {
    if Assembling(rx.scratch) then rx
    else if PayloadLen(rx.scratch) > MAX_PAYLOAD then Fail(rx, E_LEN)
    else
      var (rx', code) := Absorb(key, rx);
      if code == OK then rx'.(scratch := []) else Fail(rx', code).(scratch := [])
  }

  function ByteStep(key: Key, rx: Rx, b: byte): Rx {
    if rx.failed then rx else Settle(key, rx.(scratch := rx.scratch + [b]))
  }

  /** The receiver after a run of bytes: the fold that every slicing of the stream must equal. */
  function Feed(key: Key, rx: Rx, bytes: seq<byte>): Rx {
    if bytes == [] then rx else ByteStep(key, Feed(key, rx, bytes[..|bytes| - 1]), bytes[|bytes| - 1])
  }

  predicate Complete(rx: Rx) {
    rx.imageLen > 0 && |rx.image| == rx.imageLen && rx.lastSeen
  }

  // ---------- the fold ----------

  lemma {:induction false} FeedConcat(key: Key, rx: Rx, a: seq<byte>, b: seq<byte>)
    ensures Feed(key, rx, a + b) == Feed(key, Feed(key, rx, a), b)
  {
    hide ByteStep;
    if b == [] {
      assert a + b == a;
    } else {
      var n := |b| - 1;
      FeedConcat(key, rx, a, b[..n]);
      assert (a + b)[..|a + b| - 1] == a + b[..n];
    }
  }

  /** A refusal is permanent. */
  lemma {:induction false} FeedFailed(key: Key, rx: Rx, bytes: seq<byte>)
    requires rx.failed
    ensures Feed(key, rx, bytes) == rx
  {
    if bytes != [] {
      FeedFailed(key, rx, bytes[..|bytes| - 1]);
    }
  }

  lemma PayloadLenPrefix(a: seq<byte>, b: seq<byte>)
    requires |a| >= HEADER_LEN && a <= b
    ensures PayloadLen(a) == PayloadLen(b)
  {
    assert forall i :: 0 <= i < 4 ==> a[16..][i] == b[16..][i];
  }

  /** Bytes that do not complete what is wanted only pile up; the last one may settle it. */
  lemma {:induction false} FeedFill(key: Key, rx: Rx, chunk: seq<byte>)
    requires !rx.failed && Assembling(rx.scratch) && |rx.scratch| + |chunk| <= Want(rx.scratch)
    ensures Feed(key, rx, chunk) == if chunk == [] then rx else Settle(key, rx.(scratch := rx.scratch + chunk))
    ensures |rx.scratch| + |chunk| < Want(rx.scratch) ==>
              Assembling(rx.scratch + chunk) && Feed(key, rx, chunk) == rx.(scratch := rx.scratch + chunk)
  {
    hide Absorb, PayloadLen;
    if chunk == [] {
      assert rx.scratch + chunk == rx.scratch;
      assert rx.(scratch := rx.scratch) == rx;
    } else {
      var n := |chunk| - 1;
      FeedFill(key, rx, chunk[..n]);
      assert chunk[..n] + [chunk[n]] == chunk;
      assert (rx.scratch + chunk[..n]) + [chunk[n]] == rx.scratch + chunk;
      if |rx.scratch| >= HEADER_LEN {
        PayloadLenPrefix(rx.scratch, rx.scratch + chunk);
      }
    }
  }
}
