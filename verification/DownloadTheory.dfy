/** What the receiver guarantees: the round trip, and safety on arbitrary bytes. */
module DownloadTheory {
  import opened Bytes
  import opened DownloadFrames

  // ---------- the sender ----------

  function ChunkLen(image: seq<byte>, off: nat): nat
    requires off < |image|
  {
    if |image| - off > MAX_PAYLOAD then MAX_PAYLOAD else |image| - off
  }

  /** The frame that carries the image from byte `off` on. */
  function ChunkFrame(key: Key, image: seq<byte>, off: nat, sn: nat): seq<byte>
    requires off < |image| <= 0xFFFF_FFFF && sn <= off
  {
    var n := ChunkLen(image, off);
    Frame(KIND_DATA, if off + n == |image| then FLAG_LAST else 0, |image|, sn, image[off..off + n], key)
  }

  /** The frames of an image from byte `off` on, in order. */
  function FramesFrom(key: Key, image: seq<byte>, off: nat, sn: nat): seq<byte>
    requires off <= |image| <= 0xFFFF_FFFF && sn <= off
    decreases |image| - off
  {
    if off == |image| then []
    else ChunkFrame(key, image, off, sn) + FramesFrom(key, image, off + ChunkLen(image, off), sn + 1)
  }

  function Stream(key: Key, image: seq<byte>): seq<byte>
    requires |image| <= 0xFFFF_FFFF
  {
    FramesFrom(key, image, 0, 0)
  }

  // ---------- one frame through the receiver ----------

  /** A whole frame fed to an idle receiver is absorbed or refused as a unit. */
  lemma FeedWhole(key: Key, rx: Rx, f: seq<byte>)
    requires !rx.failed && rx.scratch == [] && Whole(f)
    ensures Feed(key, rx, f) == Settle(key, rx.(scratch := f))
  {
    hide Absorb, Settle;
    var head, rest := f[..HEADER_LEN], f[HEADER_LEN..];
    assert f == head + rest;
    FeedConcat(key, rx, head, rest);
    FeedFill(key, rx, head);
    assert [] + head == head;
    PayloadLenPrefix(head, f);
    SettleAssembling(key, rx.(scratch := head));
    FeedFill(key, rx.(scratch := head), rest);
    assert rx.(scratch := head).(scratch := head + rest) == rx.(scratch := f);
  }

  lemma SettleAssembling(key: Key, rx: Rx)
    requires Assembling(rx.scratch)
    ensures Settle(key, rx) == rx
  {
  }

  /** An authentic frame in sequence is judged by its kind and lengths alone. */
  lemma SettleData(key: Key, rx: Rx, f: seq<byte>)
    requires !rx.failed && Authentic(key, f) && Kind(f) == KIND_DATA && SeqNo(f) == rx.nextSeq
    requires 0 < ImageLen(f) <= MAX_IMAGE && (rx.nextSeq == 0 || ImageLen(f) == rx.imageLen)
    requires |rx.image| + PayloadLen(f) <= ImageLen(f)
    ensures Settle(key, rx.(scratch := f)) ==
            Counted(rx.(imageLen := ImageLen(f), image := rx.image + PayloadOf(f),
                        lastSeen := rx.lastSeen || IsLast(f), scratch := []))
  {
    hide Verdict, Authentic, PayloadLen, Get32, Get16, Whole;
    AuthenticIsWhole(key, f);
    WholeFrame(f);
    VerdictOk(key, f);
  }

  lemma WholeFrame(f: seq<byte>)
    requires Whole(f)
    ensures |f| >= HEADER_LEN && PayloadLen(f) <= MAX_PAYLOAD && !Assembling(f)
    ensures |f| == HEADER_LEN + PayloadLen(f) + MAC_LEN
  {
    hide PayloadLen;
  }

  // ---------- the round trip ----------

  /** The receiver in the middle of an image: `off` bytes in, `sn` frames in. */
  function MidImage(image: seq<byte>, off: nat, sn: nat): Rx
    requires off <= |image| <= MAX_IMAGE && sn <= off
  {
    Rx(image[..off], [], if sn == 0 then 0 else |image|, sn, sn, off == |image| && sn > 0, false, 0)
  }

  lemma ChunkFields(key: Key, image: seq<byte>, off: nat, sn: nat)
    requires off < |image| <= 0xFFFF_FFFF && sn <= off
    ensures var (f, n) := (ChunkFrame(key, image, off, sn), ChunkLen(image, off));
            && |f| == HEADER_LEN + n + MAC_LEN && Whole(f) && Authentic(key, f)
            && Kind(f) == KIND_DATA && SeqNo(f) == sn && ImageLen(f) == |image| && PayloadLen(f) == n
            && PayloadOf(f) == image[off..off + n] && (IsLast(f) <==> off + n == |image|)
  {
    hide Frame, Authentic, PayloadOf, Kind, SeqNo, ImageLen, PayloadLen, Flags;
    var n := ChunkLen(image, off);
    FrameFields(KIND_DATA, if off + n == |image| then FLAG_LAST else 0, |image|, sn, image[off..off + n], key);
    AuthenticIsWhole(key, ChunkFrame(key, image, off, sn));
  }

  lemma AuthenticIsWhole(key: Key, f: seq<byte>)
    requires Authentic(key, f)
    ensures Whole(f)
  {
    hide Whole, PayloadOf, PayloadLen;
  }

  /** One frame of the stream moves the receiver on by exactly its chunk. */
  lemma FeedChunk(key: Key, image: seq<byte>, off: nat, sn: nat)
    requires off < |image| <= MAX_IMAGE && sn <= off && (sn == 0 <==> off == 0)
    ensures Feed(key, MidImage(image, off, sn), ChunkFrame(key, image, off, sn)) ==
            MidImage(image, off + ChunkLen(image, off), sn + 1)
  {
    hide Feed, Settle, ChunkFrame, Authentic, Whole, PayloadOf, Kind, SeqNo, ImageLen, PayloadLen, IsLast;
    var f, n, rx := ChunkFrame(key, image, off, sn), ChunkLen(image, off), MidImage(image, off, sn);
    ChunkFields(key, image, off, sn);
    FeedWhole(key, rx, f);
    SettleData(key, rx, f);
    assert image[..off] + image[off..off + n] == image[..off + n];
  }

  /** How many frames carry `left` bytes. */
  function FrameCount(left: nat): (n: nat)
    ensures n <= left
  {
    (left + MAX_PAYLOAD - 1) / MAX_PAYLOAD
  }

  lemma {:induction false} FeedImage(key: Key, image: seq<byte>, off: nat, sn: nat)
    requires off <= |image| <= MAX_IMAGE && sn <= off && (sn == 0 <==> off == 0)
    ensures Feed(key, MidImage(image, off, sn), FramesFrom(key, image, off, sn)) ==
            MidImage(image, |image|, sn + FrameCount(|image| - off))
    decreases |image| - off
  {
    hide *;
    FramesStep(key, image, off, sn);
    if off == |image| {
      FeedNothing(key, MidImage(image, off, sn));
    } else {
      var f, n, rx := ChunkFrame(key, image, off, sn), ChunkLen(image, off), MidImage(image, off, sn);
      FeedConcat(key, rx, f, FramesFrom(key, image, off + n, sn + 1));
      FeedChunk(key, image, off, sn);
      FeedImage(key, image, off + n, sn + 1);
    }
  }

  lemma FramesStep(key: Key, image: seq<byte>, off: nat, sn: nat)
    requires off <= |image| <= MAX_IMAGE && sn <= off
    ensures |image| <= 0xFFFF_FFFF
    ensures off == |image| ==> FramesFrom(key, image, off, sn) == [] && FrameCount(0) == 0
    ensures off < |image| ==> 0 < ChunkLen(image, off) <= |image| - off
    ensures off < |image| ==> (
              FramesFrom(key, image, off, sn) ==
              ChunkFrame(key, image, off, sn) + FramesFrom(key, image, off + ChunkLen(image, off), sn + 1))
    ensures off < |image| ==> FrameCount(|image| - off) == 1 + FrameCount(|image| - off - ChunkLen(image, off))
  {
    hide ChunkFrame;
  }

  lemma FeedNothing(key: Key, rx: Rx)
    ensures Feed(key, rx, []) == rx
  {
  }

  /** The whole stream leaves the receiver complete, holding exactly the image. */
  lemma RoundTrip(key: Key, image: seq<byte>)
    requires 1 <= |image| <= MAX_IMAGE
    ensures var rx := Feed(key, RESET, Stream(key, image));
            !rx.failed && Complete(rx) && rx.image == image && rx.scratch == []
  {
    hide Feed, FramesFrom;
    FeedImage(key, image, 0, 0);
    assert MidImage(image, 0, 0) == RESET;
    assert image[..|image|] == image;
  }

  /** A stream that announces too much is refused at its first frame. */
  lemma OversizeRefused(key: Key, image: seq<byte>)
    requires MAX_IMAGE < |image| <= 0xFFFF_FFFF
    ensures var rx := Feed(key, RESET, Stream(key, image)); rx.failed && rx.lastError == E_IMAGE_LEN && rx.image == []
  {
    hide Feed, ChunkFrame, Settle, FramesFrom, Authentic, Whole, Kind, SeqNo, ImageLen, PayloadLen, Flags, IsLast, PayloadOf;
    var f, more := ChunkFrame(key, image, 0, 0), FramesFrom(key, image, ChunkLen(image, 0), 1);
    FramesOpen(key, image);
    FeedConcat(key, RESET, f, more);
    ChunkFields(key, image, 0, 0);
    FeedWhole(key, RESET, f);
    SettleOversize(key, f);
    FeedFailed(key, Feed(key, RESET, f), more);
  }

  lemma FramesOpen(key: Key, image: seq<byte>)
    requires 0 < |image| <= 0xFFFF_FFFF
    ensures FramesFrom(key, image, 0, 0) ==
            ChunkFrame(key, image, 0, 0) + FramesFrom(key, image, ChunkLen(image, 0), 1)
  {
    hide ChunkFrame;
  }

  lemma SettleOversize(key: Key, f: seq<byte>)
    requires Authentic(key, f) && Kind(f) == KIND_DATA && SeqNo(f) == 0 && ImageLen(f) > MAX_IMAGE
    ensures Settle(key, RESET.(scratch := f)) == Fail(RESET, E_IMAGE_LEN)
  {
    hide Verdict, Authentic, PayloadLen, Get32, Get16, Whole;
    AuthenticIsWhole(key, f);
    WholeFrame(f);
    VerdictOk(key, f);
  }

  /** Nothing short of the whole stream is complete. */
  lemma {:induction false} ShortImage(key: Key, image: seq<byte>, off: nat, sn: nat, k: nat)
    requires off <= |image| <= MAX_IMAGE && sn <= off && (sn == 0 <==> off == 0)
    requires k < |FramesFrom(key, image, off, sn)|
    ensures var rx := Feed(key, MidImage(image, off, sn), FramesFrom(key, image, off, sn)[..k]);
            !rx.failed && !Complete(rx)
    decreases |image| - off
  {
    hide *;
    FramesStep(key, image, off, sn);
    MidImageOpen(image, off, sn);
    var all, rx := FramesFrom(key, image, off, sn), MidImage(image, off, sn);
    var f, n := ChunkFrame(key, image, off, sn), ChunkLen(image, off);
    var more := FramesFrom(key, image, off + n, sn + 1);
    ChunkFields(key, image, off, sn);
    if k < |f| {
      assert all[..k] == f[..k];
      FeedPartial(key, rx, f, k);
      StillIncomplete(rx, f[..k]);
    } else {
      assert all[..k] == f + more[..k - |f|];
      FeedConcat(key, rx, f, more[..k - |f|]);
      FeedChunk(key, image, off, sn);
      ShortImage(key, image, off + n, sn + 1, k - |f|);
    }
  }

  lemma StillIncomplete(rx: Rx, scratch: seq<byte>)
    requires !Complete(rx)
    ensures !Complete(rx.(scratch := scratch))
  {
  }

  lemma MidImageOpen(image: seq<byte>, off: nat, sn: nat)
    requires off < |image| <= MAX_IMAGE && sn <= off
    ensures var rx := MidImage(image, off, sn); !rx.failed && rx.scratch == [] && !Complete(rx) && !rx.lastSeen
  {
  }

  /** A frame cut short leaves everything but the scratch buffer alone. */
  lemma FeedPartial(key: Key, rx: Rx, f: seq<byte>, k: nat)
    requires !rx.failed && rx.scratch == [] && Whole(f) && k < |f|
    ensures Feed(key, rx, f[..k]) == rx.(scratch := f[..k])
  {
    hide Absorb, Settle;
    if k <= HEADER_LEN {
      FeedFill(key, rx, f[..k]);
      assert [] + f[..k] == f[..k];
      if k == HEADER_LEN {
        PayloadLenPrefix(f[..k], f);
        SettleAssembling(key, rx.(scratch := f[..k]));
      }
      FeedNothing(key, rx);
    } else {
      var head, rest := f[..HEADER_LEN], f[HEADER_LEN..k];
      assert f[..k] == head + rest;
      FeedConcat(key, rx, head, rest);
      FeedFill(key, rx, head);
      assert [] + head == head;
      PayloadLenPrefix(head, f);
      SettleAssembling(key, rx.(scratch := head));
      FeedFill(key, rx.(scratch := head), rest);
    }
  }

  // ---------- safety on arbitrary bytes ----------

  /** A frame's contribution to the image. */
  function Carried(f: seq<byte>): Payload {
    if Whole(f) && Kind(f) == KIND_DATA then PayloadOf(f) else []
  }

  /** The payloads of the DATA frames, in order. */
  function Payloads(fs: seq<seq<byte>>): seq<byte> {
    if fs == [] then [] else Payloads(fs[..|fs| - 1]) + Carried(fs[|fs| - 1])
  }

  function Glue(fs: seq<seq<byte>>): seq<byte> {
    if fs == [] then [] else Glue(fs[..|fs| - 1]) + fs[|fs| - 1]
  }

  predicate DataOrAck(f: seq<byte>) {
    |f| >= HEADER_LEN && Kind(f) in {KIND_DATA, KIND_ACK}
  }

  predicate MarkedLast(f: seq<byte>) {
    |f| >= HEADER_LEN && Kind(f) == KIND_DATA && IsLast(f)
  }

  predicate Numbered(f: seq<byte>, sn: u32) {
    |f| >= HEADER_LEN && SeqNo(f) == sn
  }

  /** Authentic frames of the two kinds that are taken, numbered from 0 on without a gap. */
  ghost predicate Accepted(key: Key, fs: seq<seq<byte>>) {
    forall i :: 0 <= i < |fs| ==> Authentic(key, fs[i]) && DataOrAck(fs[i]) && Numbered(fs[i], Wrap(i))
  }

  ghost predicate AnyLast(fs: seq<seq<byte>>) {
    exists i :: 0 <= i < |fs| && MarkedLast(fs[i])
  }

  predicate Declares(f: seq<byte>, imageLen: u32) {
    |f| >= HEADER_LEN && (Kind(f) == KIND_DATA ==> ImageLen(f) == imageLen)
  }

  /** Every DATA frame announced this image length. */
  ghost predicate Anchored(fs: seq<seq<byte>>, imageLen: u32) {
    forall i :: 0 <= i < |fs| ==> Declares(fs[i], imageLen)
  }

  /** The receiver holds exactly what these frames carried. */
  ghost predicate Holds(key: Key, rx: Rx, fs: seq<seq<byte>>) {
    && Accepted(key, fs)
    && rx.image == Payloads(fs)
    && rx.nextSeq == Wrap(|fs|) && rx.frames == Wrap(|fs|)
    && (rx.lastSeen <==> AnyLast(fs))
    && rx.imageLen <= MAX_IMAGE && |rx.image| <= MAX_IMAGE
    && (!rx.failed ==> |rx.image| <= rx.imageLen)
    && (!rx.failed && |fs| <= 0x1_0000_0000 ==> Anchored(fs, rx.imageLen))
  }

  /** A frame the checks let through is authentic, in sequence and of a known kind. */
  lemma AbsorbOk(key: Key, rx: Rx)
    requires |rx.scratch| >= HEADER_LEN && Absorb(key, rx).1 == OK
    ensures var (f, r) := (rx.scratch, Absorb(key, rx).0);
            && Authentic(key, f) && DataOrAck(f) && Numbered(f, rx.nextSeq)
            && r.image == rx.image + Carried(f)
            && r.nextSeq == Wrap(rx.nextSeq + 1) && r.frames == Wrap(rx.frames + 1)
            && (r.lastSeen <==> rx.lastSeen || MarkedLast(f))
            && r.failed == rx.failed && r.scratch == f
            && Declares(f, r.imageLen) && (rx.nextSeq != 0 ==> r.imageLen == rx.imageLen)
            && ((r.image == rx.image && r.imageLen == rx.imageLen) || |r.image| <= r.imageLen <= MAX_IMAGE)
  {
    hide Verdict, Authentic, Get32, Get16;
    VerdictOk(key, rx.scratch);
    assert rx.image + [] == rx.image;
  }

  /** A refused frame never extends the image, and no counter moves. */
  lemma AbsorbRefused(key: Key, rx: Rx)
    requires |rx.scratch| >= HEADER_LEN && Absorb(key, rx).1 != OK
    ensures var r := Absorb(key, rx).0;
            r == rx || (rx.nextSeq == 0 && 0 < r.imageLen <= MAX_IMAGE && r == rx.(imageLen := r.imageLen))
  {
    hide Verdict, Authentic, Get32, Get16;
    VerdictOk(key, rx.scratch);
  }

  /** Image, counters and announced length stand where they stood. */
  predicate Unmoved(a: Rx, b: Rx) {
    && b.image == a.image && b.nextSeq == a.nextSeq && b.frames == a.frames && b.lastSeen == a.lastSeen
    && (a.nextSeq != 0 ==> b.imageLen == a.imageLen)
  }

  lemma RefusedUnmoved(key: Key, rx: Rx)
    requires |rx.scratch| >= HEADER_LEN
    ensures Absorb(key, rx).1 != OK ==> Unmoved(rx, Absorb(key, rx).0)
  {
    hide Absorb;
    if Absorb(key, rx).1 != OK { AbsorbRefused(key, rx); }
  }

  lemma OneMoreLast(fs: seq<seq<byte>>, f: seq<byte>)
    ensures AnyLast(fs + [f]) <==> AnyLast(fs) || MarkedLast(f)
  {
    hide MarkedLast;
    var fs' := fs + [f];
    if AnyLast(fs) {
      var i :| 0 <= i < |fs| && MarkedLast(fs[i]);
      assert MarkedLast(fs'[i]);
    }
    if MarkedLast(f) {
      assert MarkedLast(fs'[|fs|]);
    }
  }

  lemma OneMoreAccepted(key: Key, fs: seq<seq<byte>>, f: seq<byte>)
    requires Accepted(key, fs) && Authentic(key, f) && DataOrAck(f) && Numbered(f, Wrap(|fs|))
    ensures Accepted(key, fs + [f])
  {
    hide Authentic, DataOrAck, Numbered;
  }

  lemma OneMoreDeclared(fs: seq<seq<byte>>, f: seq<byte>, before: u32, imageLen: u32)
    requires Anchored(fs, before) && Declares(f, imageLen) && (fs == [] || imageLen == before)
    ensures Anchored(fs + [f], imageLen)
  {
    hide Declares;
  }

  lemma WrapNext(n: nat)
    ensures Wrap(Wrap(n) + 1) == Wrap(n + 1)
    ensures 0 < n < 0x1_0000_0000 ==> Wrap(n) != 0
  {
  }

  lemma OneMorePayload(fs: seq<seq<byte>>, f: seq<byte>)
    ensures Payloads(fs + [f]) == Payloads(fs) + Carried(f)
  {
    hide Carried;
    assert (fs + [f])[..|fs|] == fs;
  }

  lemma AcceptFrame(key: Key, rx: Rx, fs: seq<seq<byte>>)
    requires Holds(key, rx, fs) && !rx.failed && |rx.scratch| >= HEADER_LEN && Absorb(key, rx).1 == OK
    ensures Holds(key, Absorb(key, rx).0, fs + [rx.scratch])
  {
    hide Absorb, Authentic, DataOrAck, Numbered, MarkedLast, AnyLast, Carried, Accepted, Payloads, Wrap, Declares, Anchored;
    AbsorbOk(key, rx);
    WrapNext(|fs|);
    if |fs| < 0x1_0000_0000 {
      OneMoreDeclared(fs, rx.scratch, rx.imageLen, Absorb(key, rx).0.imageLen);
    }
    OneMoreLast(fs, rx.scratch);
    OneMorePayload(fs, rx.scratch);
    OneMoreAccepted(key, fs, rx.scratch);
  }

  /** The receiver after any bytes whatever, with the frames it has accepted as a witness. */
  ghost predicate Explained(key: Key, bytes: seq<byte>, rx: Rx, fs: seq<seq<byte>>) {
    && Holds(key, rx, fs)
    && Glue(fs) <= bytes
    && (!rx.failed ==> bytes == Glue(fs) + rx.scratch && Assembling(rx.scratch))
  }

  /** Settling what is in the scratch buffer keeps the account of the accepted frames exact. */
  lemma SettleHolds(key: Key, rx: Rx, fs: seq<seq<byte>>)
    requires Holds(key, rx, fs) && !rx.failed
    ensures var r := Settle(key, rx);
            || (Holds(key, r, fs) && (r.failed || (r == rx && Assembling(rx.scratch))))
            || (Holds(key, r, fs + [rx.scratch]) && !r.failed && r.scratch == [])
  {
    hide Absorb, Accepted, Anchored, Payloads, AnyLast, PayloadLen, Wrap, Authentic, DataOrAck, Numbered, MarkedLast, Carried, Declares;
    if !Assembling(rx.scratch) && PayloadLen(rx.scratch) <= MAX_PAYLOAD {
      if Absorb(key, rx).1 == OK {
        AcceptFrame(key, rx, fs);
        AbsorbOk(key, rx);
      } else {
        AbsorbRefused(key, rx);
      }
    }
  }

  lemma StepExplained(key: Key, bytes: seq<byte>, rx: Rx, fs: seq<seq<byte>>, b: byte) returns (fs': seq<seq<byte>>)
    requires Explained(key, bytes, rx, fs)
    ensures Explained(key, bytes + [b], ByteStep(key, rx, b), fs')
  {
    hide Settle, Accepted, Anchored, Payloads, AnyLast, Wrap, PayloadLen;
    fs' := fs;
    if !rx.failed {
      var full := rx.(scratch := rx.scratch + [b]);
      assert bytes + [b] == Glue(fs) + full.scratch;
      SettleHolds(key, full, fs);
      var r := Settle(key, full);
      if Holds(key, r, fs) && (r.failed || (r == full && Assembling(full.scratch))) {
        assert Glue(fs) <= bytes <= bytes + [b];
      } else {
        fs' := fs + [full.scratch];
        GlueMore(fs, full.scratch);
        assert Glue(fs') + [] == Glue(fs');
      }
    } else {
      assert Glue(fs) <= bytes <= bytes + [b];
    }
  }

  lemma GlueMore(fs: seq<seq<byte>>, f: seq<byte>)
    ensures Glue(fs + [f]) == Glue(fs) + f
  {
    assert (fs + [f])[..|fs|] == fs;
  }

  lemma StartExplained(key: Key)
    ensures Explained(key, [], Feed(key, RESET, []), [])
  {
    assert [] == Glue([]) + RESET.scratch;
  }

  lemma FeedSnoc(key: Key, rx: Rx, bytes: seq<byte>)
    requires bytes != []
    ensures Feed(key, rx, bytes) == ByteStep(key, Feed(key, rx, bytes[..|bytes| - 1]), bytes[|bytes| - 1])
  {
    hide ByteStep;
  }

  /** Safety: whatever arrives, the image is the payloads of authentic frames accepted in order. */
  lemma {:induction false} Safety(key: Key, bytes: seq<byte>) returns (fs: seq<seq<byte>>)
    ensures Explained(key, bytes, Feed(key, RESET, bytes), fs)
  {
    hide *;
    if bytes == [] {
      fs := [];
      StartExplained(key);
    } else {
      var n := |bytes| - 1;
      fs := Safety(key, bytes[..n]);
      fs := StepExplained(key, bytes[..n], Feed(key, RESET, bytes[..n]), fs, bytes[n]);
      FeedSnoc(key, RESET, bytes);
      assert bytes[..n] + [bytes[n]] == bytes;
    }
  }

  // ---------- completion is final ----------

  lemma {:induction false} GlueLength(key: Key, fs: seq<seq<byte>>)
    requires Accepted(key, fs)
    ensures |fs| <= |Glue(fs)|
  {
    if fs != [] {
      GlueLength(key, fs[..|fs| - 1]);
      AuthenticIsWhole(key, fs[|fs| - 1]);
    }
  }

  /** As long as the frame numbers have not wrapped, number 0 means that nothing has come. */
  lemma Begun(key: Key, bytes: seq<byte>)
    requires |bytes| < 0x1_0000_0000
    ensures var rx := Feed(key, RESET, bytes); rx.image != [] ==> rx.nextSeq != 0
  {
    hide Feed, Accepted, Glue, AnyLast, Anchored;
    var fs := Safety(key, bytes);
    GlueLength(key, fs);
  }

  lemma CompleteStep(key: Key, rx: Rx, b: byte)
    requires Complete(rx) && rx.nextSeq != 0
    ensures Complete(ByteStep(key, rx, b)) && ByteStep(key, rx, b).image == rx.image
  {
    hide Absorb, Authentic, DataOrAck, Numbered, Declares, MarkedLast;
    var full := rx.(scratch := rx.scratch + [b]);
    if |full.scratch| >= HEADER_LEN {
      if Absorb(key, full).1 == OK {
        AbsorbOk(key, full);
      } else {
        AbsorbRefused(key, full);
      }
    }
  }

  /** Once complete, the image can neither change nor become incomplete, whatever else arrives. */
  lemma {:induction false} CompleteStays(key: Key, bytes: seq<byte>, k: nat)
    requires k <= |bytes| < 0x1_0000_0000 && Complete(Feed(key, RESET, bytes[..k]))
    ensures Complete(Feed(key, RESET, bytes)) && Feed(key, RESET, bytes).image == Feed(key, RESET, bytes[..k]).image
  {
    hide Feed, ByteStep;
    if k == |bytes| {
      assert bytes[..k] == bytes;
    } else {
      var n := |bytes| - 1;
      assert bytes[..n][..k] == bytes[..k];
      CompleteStays(key, bytes[..n], k);
      FeedSnoc(key, RESET, bytes);
      Begun(key, bytes[..n]);
      CompleteStep(key, Feed(key, RESET, bytes[..n]), bytes[n]);
    }
  }

  /** What `dl_rx_finish` answers. */
  function FinishCode(rx: Rx): int {
    if rx.failed then rx.lastError else if Complete(rx) then OK else E_INCOMPLETE
  }

  lemma {:induction false} FailedCode(key: Key, bytes: seq<byte>)
    ensures Feed(key, RESET, bytes).failed ==> Feed(key, RESET, bytes).lastError != OK
  {
    hide Feed, Absorb, PayloadLen;
    if bytes == [] {
      FeedNothing(key, RESET);
    } else {
      FailedCode(key, bytes[..|bytes| - 1]);
      FeedSnoc(key, RESET, bytes);
      var before := Feed(key, RESET, bytes[..|bytes| - 1]);
      var full := before.(scratch := before.scratch + [bytes[|bytes| - 1]]);
      if |full.scratch| >= HEADER_LEN { SettledCode(key, full); }
    }
  }

  lemma SettledCode(key: Key, rx: Rx)
    requires |rx.scratch| >= HEADER_LEN
    ensures Absorb(key, rx).1 == OK ==> Absorb(key, rx).0.failed == rx.failed && Absorb(key, rx).0.lastError == rx.lastError
  {
    hide Verdict, Authentic, Get32, Get16;
    VerdictOk(key, rx.scratch);
  }

  /** Finishing after a completed image gives exactly that image if and only if nothing that arrived
      behind it was refused. */
  lemma FinishAfter(key: Key, bytes: seq<byte>, k: nat)
    requires k <= |bytes| < 0x1_0000_0000 && Complete(Feed(key, RESET, bytes[..k]))
    ensures var (rx, done) := (Feed(key, RESET, bytes), Feed(key, RESET, bytes[..k]));
            && (FinishCode(rx) == OK <==> !Feed(key, done, bytes[k..]).failed)
            && (FinishCode(rx) == OK ==> rx.image == done.image)
  {
    hide Feed, Complete;
    CompleteStays(key, bytes, k);
    FailedCode(key, bytes);
    assert bytes[..k] + bytes[k..] == bytes;
    FeedConcat(key, RESET, bytes[..k], bytes[k..]);
  }
}
