/** `download_wire.c`: building frames, sending an image, and receiving one piece by piece. */
module DownloadWire {
  import opened Bytes
  import opened DownloadFrames
  import opened DownloadTheory
  import Bits
  import Crc32
  import Hmac

  const FRAME_BUF := HEADER_LEN + MAX_PAYLOAD + MAC_LEN

  // ---------- sending ----------

  /** `dl_frame_build`: the header, the payload and the MAC written one after the other. */
  method FrameBuild(out: array<byte>, kind: byte, flags: u16, imageLen: u32, sn: u32, payload: seq<byte>, key: Key)
    returns (rc: int)
    modifies out
    ensures |payload| > MAX_PAYLOAD ==> rc == -2 && out[..] == old(out[..])
    ensures |payload| <= MAX_PAYLOAD ==>
              rc == if out.Length < HEADER_LEN + |payload| + MAC_LEN then -4 else HEADER_LEN + |payload| + MAC_LEN
    ensures rc > 0 ==> rc <= out.Length && |payload| <= MAX_PAYLOAD
                       && out[..rc] == Frame(kind, flags, imageLen, sn, payload, key)
  {
    hide Crc32.Crc, Hmac.HmacOf, Put32, Put16;
    if |payload| > MAX_PAYLOAD { return -2; }
    var n := HEADER_LEN + |payload| + MAC_LEN;
    if out.Length < n { return -4; }
    var crc: u32 := 0;
    if |payload| > 0 {
      crc := Crc32.Compute(payload);
    }
    EmptyCrc(payload);
    ghost var covered := Covered(kind, flags, imageLen, sn, payload);
    Store(out, 0, Put32(MAGIC));
    Store(out, 4, [VER, kind] + Put16(flags) + Put32(imageLen) + Put32(sn) + Put32(|payload|) + Put32(crc));
    Store(out, HEADER_LEN, payload);
    assert out[..n - MAC_LEN] == Put32(MAGIC) + covered;
    assert out[4..n - MAC_LEN] == covered;
    var r, mac := Hmac.HmacSha256(key, out[4..n - MAC_LEN]);
    Store(out, n - MAC_LEN, mac);
    return n;
  }

  lemma EmptyCrc(payload: seq<byte>)
    ensures payload == [] ==> Crc32.Crc(payload) == 0
  {
    hide Crc32.Crc;
    Crc32.CrcEmpty();
  }

  /** The sending end of a link: it takes whole frames until it refuses one. */
  class Sink {
    var sent: seq<byte>
    var room: nat

    method Drain(bytes: seq<byte>) returns (rc: int)
      modifies this
      ensures rc == (if old(room) > 0 then 0 else -1)
      ensures sent == (if rc == 0 then old(sent) + bytes else old(sent))
      ensures room == (if rc == 0 then old(room) - 1 else old(room))
    {
      if room == 0 { return -1; }
      sent, room := sent + bytes, room - 1;
      return 0;
    }
  }

  /** `dl_tx_image`: the count of frames sent, or a refusal with nothing but whole frames out. */
  method TxImage(io: Sink, key: Key, image: seq<byte>) returns (rc: int)
    modifies io
    ensures |image| == 0 || |image| > MAX_IMAGE ==> rc == E_IMAGE_LEN && io.sent == old(io.sent)
    ensures 1 <= |image| <= MAX_IMAGE ==> rc == if old(io.room) >= FrameCount(|image|) then FrameCount(|image|) else -2
    ensures 1 <= |image| <= MAX_IMAGE && rc >= 0 ==> io.sent == old(io.sent) + Stream(key, image)
    ensures 1 <= |image| <= MAX_IMAGE && rc < 0 ==> io.sent <= old(io.sent) + Stream(key, image)
  {
    hide Frame, FrameCount, FramesFrom;
    if |image| == 0 || |image| > MAX_IMAGE { return E_IMAGE_LEN; }
    var frame := new byte[FRAME_BUF];
    var off, sn := 0, 0;
    ghost var goal := io.sent + Stream(key, image);
    while off < |image|
      invariant sn <= off <= |image|
      invariant io.sent + FramesFrom(key, image, off, sn) == goal
      invariant io.room + sn == old(io.room) && sn + FrameCount(|image| - off) == FrameCount(|image|)
    {
      var n := |image| - off;
      var flags: u16 := 0;
      if n > MAX_PAYLOAD { n := MAX_PAYLOAD; }
      if off + n == |image| { flags := FLAG_LAST; }
      var flen := FrameBuild(frame, KIND_DATA, flags, |image|, sn, image[off..off + n], key);
      FramesStep(key, image, off, sn);
      assert frame[..flen] == ChunkFrame(key, image, off, sn);
      var r := io.Drain(frame[..flen]);
      if r != 0 {
        assert io.sent <= goal;
        return -2;
      }
      off := off + n;
      sn := sn + 1;
    }
    FramesStep(key, image, off, sn);
    return sn;
  }

  /** The second sender's frame: the same header packed in one go. */
  function PythonFrame(imageLen: u32, sn: u32, payload: Payload, key: Key, flags: u16): seq<byte> {
    var head := Put32(MAGIC) + [VER, KIND_DATA] + Put16(flags) + Put32(imageLen) + Put32(sn)
                + Put32(|payload|) + Put32(Crc32.Crc(payload));
    head + payload + Hmac.HmacOf(key, head[4..] + payload)
  }

  lemma SameFrame(imageLen: u32, sn: u32, payload: Payload, key: Key, flags: u16)
    ensures PythonFrame(imageLen, sn, payload, key, flags) == Frame(KIND_DATA, flags, imageLen, sn, payload, key)
  {
    hide Put32, Put16, Crc32.Crc, Hmac.HmacOf;
    var head := Put32(MAGIC) + [VER, KIND_DATA] + Put16(flags) + Put32(imageLen) + Put32(sn)
                + Put32(|payload|) + Put32(Crc32.Crc(payload));
    assert head[4..] + payload == Covered(KIND_DATA, flags, imageLen, sn, payload);
    assert head + payload == Put32(MAGIC) + (head[4..] + payload);
  }

  /** The slicing loop of the second sender puts out the very bytes of the first. */
  method PythonSend(key: Key, image: seq<byte>) returns (out: seq<byte>)
    requires 1 <= |image| <= 0xFFFF_FFFF
    ensures out == Stream(key, image)
  {
    hide Frame, FrameCount, PythonFrame;
    out := [];
    var off, sn := 0, 0;
    while off < |image|
      invariant sn <= off <= |image|
      invariant out + FramesFrom(key, image, off, sn) == Stream(key, image)
    {
      var n := if MAX_PAYLOAD < |image| - off then MAX_PAYLOAD else |image| - off;
      var flags: u16 := if off + n == |image| then FLAG_LAST else 0;
      SameFrame(|image|, sn, image[off..off + n], key, flags);
      out := out + PythonFrame(|image|, sn, image[off..off + n], key, flags);
      off, sn := off + n, sn + 1;
    }
  }

  // ---------- the receiving end of a link ----------

  /** What the link answers when it is asked for bytes. */
  datatype Answer = Give(most: nat) | Broken

  /** A link with `data` to deliver. It follows its script, however it slices or stalls, and
      once the script is used up hands over all that is asked for. */
  class Link {
    const data: seq<byte>
    var pos: nat
    var script: seq<Answer>
    var exhausted: bool

    ghost predicate Valid()
      reads this
    {
      pos <= |data|
    }

    constructor (data: seq<byte>, script: seq<Answer>)
      ensures Valid() && this.data == data && pos == 0 && this.script == script && !exhausted
    {
      this.data, this.pos, this.script, this.exhausted := data, 0, script, false;
    }

    method Feed(buf: array<byte>, at: nat, cap: nat) returns (rc: int, got: nat)
      requires Valid() && at + cap <= buf.Length && cap > 0
      modifies this, buf
      ensures Valid() && got <= cap && pos == old(pos) + got && (rc != 0 ==> got == 0)
      ensures buf[..at + got] == old(buf[..at]) + data[old(pos)..pos]
      ensures script == if old(script) == [] then [] else old(script)[1..]
      ensures old(script) == [] ==> rc == 0 && (got == 0 <==> old(pos) == |data|)
      ensures exhausted == (old(exhausted) || (rc == 0 && got == 0))
    {
      var n := |data| - pos;
      if n > cap { n := cap; }
      if script != [] {
        var answer := script[0];
        script := script[1..];
        if answer.Broken? { return -1, 0; }
        if n > answer.most { n := answer.most; }
      }
      forall i | 0 <= i < n {
        buf[at + i] := data[pos + i];
      }
      pos := pos + n;
      if n == 0 { exhausted := true; }
      return 0, n;
    }
  }

  // ---------- receiving ----------

  /** Filling up to the header: nothing is settled but an impossible length. */
  lemma FillHeader(key: Key, rx: Rx, d: seq<byte>)
    requires !rx.failed && Assembling(rx.scratch)
    requires if |rx.scratch| < HEADER_LEN then |rx.scratch| + |d| <= HEADER_LEN else d == []
    ensures var s := rx.scratch + d;
            if |s| < HEADER_LEN || PayloadLen(s) <= MAX_PAYLOAD
            then Assembling(s) && DownloadFrames.Feed(key, rx, d) == rx.(scratch := s)
                 && (|s| >= HEADER_LEN ==> |s| < HEADER_LEN + PayloadLen(s) + MAC_LEN)
            else DownloadFrames.Feed(key, rx, d) == Fail(rx.(scratch := s), E_LEN) && |rx.scratch| < HEADER_LEN
  {
    hide PayloadLen, DownloadFrames.Absorb, DownloadFrames.Feed;
    FeedFill(key, rx, d);
    if d == [] {
      assert rx.scratch + d == rx.scratch;
    }
  }

  /** Filling up to the whole frame, which is absorbed as a unit. */
  lemma FillFrame(key: Key, rx: Rx, d: seq<byte>)
    requires !rx.failed && |rx.scratch| >= HEADER_LEN && Assembling(rx.scratch)
    requires |rx.scratch| + |d| <= HEADER_LEN + PayloadLen(rx.scratch) + MAC_LEN
    ensures var s := rx.scratch + d;
            if |s| < HEADER_LEN + PayloadLen(rx.scratch) + MAC_LEN
            then Assembling(s) && DownloadFrames.Feed(key, rx, d) == rx.(scratch := s)
            else DownloadFrames.Feed(key, rx, d) == Settled(DownloadFrames.Absorb(key, rx.(scratch := s)))
  {
    hide PayloadLen, DownloadFrames.Absorb, DownloadFrames.Feed;
    FeedFill(key, rx, d);
    PayloadLenPrefix(rx.scratch, rx.scratch + d);
  }

  /** Absorbing only ever touches the image and the counters. */
  lemma AbsorbKeeps(key: Key, rx: Rx)
    requires |rx.scratch| >= HEADER_LEN && rx.imageLen <= MAX_IMAGE
    ensures var (r, code) := DownloadFrames.Absorb(key, rx);
            (code == OK || code < E_TRUNC) && r.failed == rx.failed && r.lastError == rx.lastError && r.scratch == rx.scratch
            && r.imageLen <= MAX_IMAGE
    ensures Assembling([])
  {
    hide Verdict, Authentic, Get32, Get16;
    VerdictOk(key, rx.scratch);
  }

  function Settled(verdict: (Rx, int)): Rx {
    if verdict.1 == OK then verdict.0.(scratch := []) else Fail(verdict.0, verdict.1).(scratch := [])
  }

  lemma PercentBelow(part: nat, whole: nat)
    requires part < whole
    ensures 0 <= part * 100 / whole < 100
  {
    var q := part * 100 / whole;
    assert q * whole <= part * 100 < 100 * whole;
  }

  class Receiver {
    const image: array<byte>
    const scratch: array<byte>
    var scratchLen: nat
    var received: nat
    var imageLen: u32
    var nextSeq: u32
    var frames: u32
    var lastSeen: bool
    var failed: bool
    var lastError: int

    ghost predicate Sized()
      reads this
    {
      && image != scratch && image.Length == MAX_IMAGE && scratch.Length == FRAME_BUF
      && scratchLen <= FRAME_BUF && received <= MAX_IMAGE && imageLen <= MAX_IMAGE
    }

    ghost predicate Valid()
      reads this, scratch
    {
      && Sized()
      && (if failed then lastError < E_TRUNC else lastError == 0 && Assembling(scratch[..scratchLen]))
    }

    /** The receiver as the value that `Feed` works on. */
    ghost function Abs(): Rx
      requires scratchLen <= scratch.Length && received <= image.Length
      reads this, image, scratch
    {
      Rx(image[..received], scratch[..scratchLen], imageLen, nextSeq, frames, lastSeen, failed, lastError)
    }

    constructor ()
      ensures Valid() && fresh(image) && fresh(scratch) && Abs() == RESET
    {
      image := new byte[MAX_IMAGE];
      scratch := new byte[FRAME_BUF];
      scratchLen, received, imageLen, nextSeq, frames := 0, 0, 0, 0, 0;
      lastSeen, failed, lastError := false, false, 0;
    }

    /** `dl_rx_fill`: more bytes until `want` are there, the link breaks, or it has none. */
    method Fill(io: Link, want: nat) returns (rc: int)
      requires scratchLen <= scratch.Length && want <= scratch.Length && io.Valid()
      modifies `scratchLen, scratch, io
      ensures io.Valid() && old(io.pos) <= io.pos
      ensures scratchLen <= scratch.Length
      ensures scratch[..scratchLen] == old(scratch[..scratchLen]) + io.data[old(io.pos)..io.pos]
      ensures rc in {OK, E_TRUNC, E_STATE}
      ensures rc == OK ==> scratchLen == if old(scratchLen) > want then old(scratchLen) else want
      ensures rc != OK ==> scratchLen < want
      ensures rc == E_TRUNC ==> io.exhausted && (old(io.script) == [] ==> io.pos == |io.data|)
      ensures rc == E_STATE ==> old(io.script) != []
      ensures |io.script| <= |old(io.script)| && (old(io.script) == [] ==> io.script == [])
      ensures old(scratchLen) < want ==> |io.script| < |old(io.script)| || io.script == []
      ensures io.exhausted == (old(io.exhausted) || rc == E_TRUNC)
    {
      while scratchLen < want
        invariant io.Valid() && old(io.pos) <= io.pos
        invariant scratchLen <= scratch.Length && (old(scratchLen) <= want ==> scratchLen <= want)
        invariant old(scratchLen) > want ==> scratchLen == old(scratchLen)
        invariant scratch[..scratchLen] == old(scratch[..scratchLen]) + io.data[old(io.pos)..io.pos]
        invariant |io.script| <= |old(io.script)|
        invariant scratchLen > old(scratchLen) ==> |io.script| < |old(io.script)| || io.script == []
        invariant io.exhausted == old(io.exhausted)
        decreases want - scratchLen
      {
        ghost var before := io.pos;
        var r, got := io.Feed(scratch, scratchLen, want - scratchLen);
        if r != 0 { return E_STATE; }
        if got == 0 { return E_TRUNC; }
        assert io.data[old(io.pos)..before] + io.data[before..io.pos] == io.data[old(io.pos)..io.pos];
        scratchLen := scratchLen + got;
      }
      return OK;
    }

    /** The first half of `dl_rx_absorb`: is the frame in the scratch buffer authentic? */
    static method Check(f: seq<byte>, key: Key) returns (rc: int)
      requires HEADER_LEN <= |f|
      ensures rc == Verdict(key, f)
    {
      hide Hmac.HmacOf, Crc32.Crc, Get32, Get16;
      if Get32(f) != MAGIC { return E_MAGIC; }
      if f[4] != VER { return E_MAGIC; }
      if PayloadLen(f) > MAX_PAYLOAD { return E_LEN; }
      if |f| != HEADER_LEN + PayloadLen(f) + MAC_LEN { return E_LEN; }
      var r, mac := Hmac.HmacSha256(key, f[4..|f| - MAC_LEN]);
      var same := Hmac.DigestsEqual(mac, f[|f| - MAC_LEN..]);
      if same != 1 { return E_HMAC; }
      var crc := Crc32.Compute(f[HEADER_LEN..|f| - MAC_LEN]);
      if (if PayloadLen(f) == 0 then CrcField(f) != 0 else CrcField(f) != crc) { return E_CRC; }
      return OK;
    }

    /** `dl_rx_absorb`: authenticate the frame in the scratch buffer and take it in. */
    method Absorb(key: Key) returns (rc: int)
      requires Sized() && HEADER_LEN <= scratchLen
      modifies this, image
      ensures scratchLen == old(scratchLen) && received <= MAX_IMAGE
      ensures (Abs(), rc) == DownloadFrames.Absorb(key, old(Abs()))
    {
      hide Verdict, Authentic, Get32, Get16, PayloadLen, SeqNo, ImageLen, Kind, Flags, Whole, IsLast, Bits.And;
      ghost var pre := Abs();
      var f := scratch[..scratchLen];
      VerdictOk(key, f);
      rc := Check(f, key);
      if rc != OK { return; }
      WholeFrame(f);
      if SeqNo(f) != nextSeq { return E_SEQ; }
      if Kind(f) == KIND_DATA {
        if ImageLen(f) == 0 || ImageLen(f) > MAX_IMAGE { return E_IMAGE_LEN; }
        if nextSeq == 0 {
          imageLen := ImageLen(f);
        } else if ImageLen(f) != imageLen {
          return E_IMAGE_LEN;
        }
        if received + PayloadLen(f) > imageLen { return E_OVER; }
        Store(image, received, f[HEADER_LEN..|f| - MAC_LEN]);
        received := received + PayloadLen(f);
        LastFlag(f);
        if Bits.And(Flags(f), FLAG_LAST) != 0 { lastSeen := true; }
      } else if Kind(f) == KIND_ACK {
        if PayloadLen(f) != 0 { return E_LEN; }
      } else if Kind(f) == KIND_ERR {
        if PayloadLen(f) != 0 { return E_LEN; }
        return E_STATE;
      } else {
        return E_MAGIC;
      }
      nextSeq := Wrap(nextSeq + 1);
      frames := Wrap(frames + 1);
      return OK;
    }

    /** The first half of `dl_rx_pump`: bring one whole frame into the scratch buffer. */
    method Gather(io: Link, key: Key) returns (rc: int)
      requires Valid() && io.Valid() && !failed
      modifies `scratchLen, `failed, `lastError, scratch, io
      ensures Sized() && (!failed ==> lastError == 0) && io.Valid() && old(io.pos) <= io.pos
      ensures rc == OK ==> HEADER_LEN <= scratchLen && !failed
                           && scratchLen >= HEADER_LEN + MAC_LEN && old(io.pos) < io.pos
                           && old(scratchLen) + io.pos - old(io.pos) == scratchLen
      ensures rc == OK ==> DownloadFrames.Feed(key, old(Abs()), io.data[old(io.pos)..io.pos])
                           == Settled(DownloadFrames.Absorb(key, Abs()))
      ensures rc != OK ==> Valid() && Abs() == DownloadFrames.Feed(key, old(Abs()), io.data[old(io.pos)..io.pos])
      ensures rc != OK && !failed ==> rc in {E_TRUNC, E_STATE} && Abs() == old(Abs()).(scratch := Abs().scratch)
      ensures failed ==> rc == lastError
      ensures !failed && rc == E_TRUNC ==> old(io.script) == [] ==> io.pos == |io.data|
      ensures io.exhausted == (old(io.exhausted) || rc == E_TRUNC)
      ensures !failed && rc == E_STATE ==> old(io.script) != []
      ensures |io.script| < |old(io.script)| || io.script == []
    {
      hide DownloadFrames.Feed, DownloadFrames.Absorb, Assembling, PayloadLen;
      ghost var start, pre := io.pos, Abs();
      rc := Fill(io, HEADER_LEN);
      ghost var mid, at := Abs(), io.pos;
      assert mid == pre.(scratch := pre.scratch + io.data[start..at]);
      FillHeader(key, pre, io.data[start..at]);
      if rc != OK { return; }
      if PayloadLen(scratch[..scratchLen]) > MAX_PAYLOAD {
        failed, lastError := true, E_LEN;
        return lastError;
      }
      rc := Fill(io, HEADER_LEN + PayloadLen(scratch[..scratchLen]) + MAC_LEN);
      FillFrame(key, mid, io.data[at..io.pos]);
      assert io.data[start..io.pos] == io.data[start..at] + io.data[at..io.pos];
      FeedConcat(key, pre, io.data[start..at], io.data[at..io.pos]);
      assert Abs() == mid.(scratch := mid.scratch + io.data[at..io.pos]);
    }

    /** `dl_rx_pump`: at most one frame. However the link slices, the receiver ends where the
        fold over the bytes consumed ends. */
    method Pump(io: Link, key: Key) returns (rc: int, complete: bool)
      requires Valid() && io.Valid()
      modifies this, image, scratch, io
      ensures Valid() && io.Valid() && old(io.pos) <= io.pos
      ensures Abs() == DownloadFrames.Feed(key, old(Abs()), io.data[old(io.pos)..io.pos])
      ensures failed ==> rc == lastError && Unmoved(old(Abs()), Abs())
      ensures old(failed) ==> io.pos == old(io.pos) && io.script == old(io.script)
      ensures !failed && rc != OK ==> rc in {E_TRUNC, E_STATE} && Abs() == old(Abs()).(scratch := Abs().scratch)
      ensures rc == OK ==> !failed && scratchLen == 0 && old(io.pos) < io.pos
                           && old(scratchLen) + io.pos - old(io.pos) >= HEADER_LEN + MAC_LEN
      ensures rc == E_TRUNC ==> !failed && (old(io.script) == [] ==> io.pos == |io.data|)
      ensures io.exhausted == (old(io.exhausted) || rc == E_TRUNC)
      ensures !failed && rc == E_STATE ==> old(io.script) != []
      ensures !old(failed) ==> |io.script| < |old(io.script)| || io.script == []
      ensures |io.script| <= |old(io.script)|
      ensures complete == (rc == OK && Complete(Abs()))
    {
      hide DownloadFrames.Feed, DownloadFrames.Absorb, Assembling, PayloadLen;
      complete := false;
      if failed {
        assert io.data[io.pos..io.pos] == [];
        FeedFailed(key, Abs(), []);
        return lastError, complete;
      }
      rc := Gather(io, key);
      if rc != OK { return; }
      AbsorbKeeps(key, Abs());
      RefusedUnmoved(key, Abs());
      rc := Absorb(key);
      if rc != OK {
        failed, lastError := true, rc;
        scratchLen := 0;
        return;
      }
      scratchLen := 0;
      if imageLen > 0 && received == imageLen && lastSeen {
        complete := true;
      }
    }

    /** `dl_rx_finish`: the image, exactly when it is whole. */
    method Finish() returns (rc: int, img: seq<byte>)
      requires Valid()
      ensures rc == FinishCode(Abs())
      ensures rc == OK ==> img == Abs().image && |img| == imageLen
    {
      img := [];
      if failed { return lastError, img; }
      if imageLen == 0 || received != imageLen || !lastSeen { return E_INCOMPLETE, img; }
      return OK, image[..imageLen];
    }

    /** `dl_rx_progress`: a percentage, 100 exactly when all the bytes are in. */
    method Progress() returns (percent: nat)
      requires Valid()
      ensures percent <= 100 && (percent == 100 <==> 0 < imageLen <= received)
      ensures imageLen == 0 ==> percent == 0
    {
      if imageLen == 0 { return 0; }
      if received >= imageLen { return 100; }
      PercentBelow(received, imageLen);
      return received * 100 / imageLen;
    }
  }

  /** The receiver half way through the stream of an image has not failed, and is complete
      only at the very end, where it holds the image. */
  lemma OnTheWay(key: Key, image: seq<byte>, k: nat)
    requires 1 <= |image| <= MAX_IMAGE && k <= |Stream(key, image)|
    ensures var rx := DownloadFrames.Feed(key, RESET, Stream(key, image)[..k]);
            !rx.failed && (Complete(rx) <==> k == |Stream(key, image)|) && (Complete(rx) ==> rx.image == image)
  {
    hide DownloadFrames.Feed, FramesFrom, Complete;
    if k == |Stream(key, image)| {
      assert Stream(key, image)[..k] == Stream(key, image);
      RoundTrip(key, image);
    } else {
      assert MidImage(image, 0, 0) == RESET;
      ShortImage(key, image, 0, 0, k);
    }
  }

  /** From end to end: whatever the link slices, stalls or breaks off, pumping until complete
      ends, and the receiver then hands out exactly the image that was sent. */
  method Transfer(key: Key, image: seq<byte>, script: seq<Answer>) returns (rc: int, img: seq<byte>)
    requires 1 <= |image| <= MAX_IMAGE
    ensures rc == OK && img == image
  {
    hide DownloadFrames.Feed, Stream, Complete, FrameCount, Assembling;
    var sink := new Sink;
    sink.sent, sink.room := [], |image|;
    var sent := TxImage(sink, key, image);
    assert [] + Stream(key, image) == Stream(key, image);
    var io := new Link(sink.sent, script);
    var rx := new Receiver();
    var complete := false;
    StreamStart(key, io.data);
    OnTheWay(key, image, io.pos);
    while !complete
      invariant rx.Valid() && io.Valid() && io.data == Stream(key, image)
      invariant fresh(rx) && fresh(rx.image) && fresh(rx.scratch) && fresh(io)
      invariant rx.Abs() == DownloadFrames.Feed(key, RESET, io.data[..io.pos]) && !rx.failed
      invariant complete == Complete(rx.Abs())
      decreases |io.script|, |io.data| - io.pos
    {
      ghost var at, before := io.pos, rx.Abs();
      var r;
      r, complete := rx.Pump(io, key);
      StillIncomplete(before, rx.Abs().scratch);
      assert io.data[..at] + io.data[at..io.pos] == io.data[..io.pos];
      FeedConcat(key, RESET, io.data[..at], io.data[at..io.pos]);
      OnTheWay(key, image, io.pos);
    }
    OnTheWay(key, image, io.pos);
    rc, img := rx.Finish();
  }

  lemma StreamStart(key: Key, data: seq<byte>)
    ensures DownloadFrames.Feed(key, RESET, data[..0]) == RESET && !Complete(RESET)
  {
  }
}
