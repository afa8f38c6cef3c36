/** `snapshot.c` and `sync.c` in place: the node that makes and applies snapshots, and the mailbox between two. */
module HotStandby {
  import opened Bytes
  import opened Results
  import opened DirtyPages
  import opened Snapshot
  import opened DeltaSync
  import opened SyncRuns
  import SasmFormat
  import Crc32
  import Orders

  /** One direction of the shared memory: a header that says what is in the payload area. */
  class Mailbox {
    var magic: u32
    var size: u32
    const payload: array<byte>

    ghost predicate Valid()
      reads this
    {
      size <= payload.Length
    }

    /** What a receiver would find. */
    ghost function Content(): Option<seq<byte>>
      requires Valid()
      reads this, payload
    {
      if magic != Snapshot.MAGIC || size == 0 then None else Some(payload[..size])
    }

    constructor (capacity: nat)
      ensures Valid() && fresh(payload) && payload.Length == capacity && Content() == None
    {
      magic, size := 0, 0;
      payload := new byte[capacity];
    }

    /** `shmem_send`: overwrites whatever is there, read or not. */
    method Send(data: seq<byte>) returns (rc: int)
      requires Valid() && |data| <= 0xFFFF_FFFF
      modifies this, payload
      ensures Valid() && rc == (if 0 < |data| <= payload.Length then 0 else -1)
      ensures Content() == if rc == 0 then Some(data) else old(Content())
    {
      if |data| == 0 || |data| > payload.Length { return -1; }
      magic, size := Snapshot.MAGIC, |data|;
      Store(payload, 0, data);
      assert payload[..size] == payload[..0] + data == data;
      return 0;
    }

    /** `shmem_recv`: at most `limit` bytes, and the mailbox is empty afterwards. */
    method Recv(limit: nat) returns (rc: int, data: seq<byte>)
      requires Valid()
      modifies this
      ensures Valid() && rc == (if old(Content()).Some? then 0 else -1)
      ensures data == match old(Content())
                      case None => []
                      case Some(c) => if |c| > limit then c[..limit] else c
      ensures Content() == None
    {
      if magic != Snapshot.MAGIC || size == 0 { return -1, []; }
      var n := if size > limit then limit else size;
      data := payload[..n];
      magic, size := 0, 0;
      return 0, data;
    }
  }

  class Node {
    const memory: array<byte>
    const memorySize: nat
    const stack: array<u32>
    var sp: nat
    const frames: array<FrameImage>
    var fp: nat
    var cycles: u32
    var lastError: u32
    var maxFrames: u32
    var maxStack: u32
    const segments: seq<SasmFormat.MemSegment>
    const tracker: Tracker
    const buf: array<byte>
    var snapSize: nat
    var sequence: u32
    var syncCount: u32
    var failCount: u32
    var retryCount: u32

    ghost predicate Valid()
      reads this, tracker
    {
      && memory != buf && memory.Length == MAX_MEMORY && 0 < memorySize <= MAX_MEMORY
      && stack.Length == STACK_SIZE && frames.Length == FRAME_STACK && buf.Length == BUFFER_SIZE
      && sp <= STACK_SIZE && fp <= FRAME_STACK && snapSize <= BUFFER_SIZE
      && tracker.Valid() && tracker.pageCount == PageCount(memorySize)
    }

    ghost function Abs(): (vm: VmState)
      requires Valid()
      reads this, tracker, memory, stack, frames
      ensures Sized(vm)
    {
      VmState(memory[..memorySize], stack[..], sp, frames[..], fp, cycles, lastError, maxFrames, maxStack)
    }

    constructor (memorySize: nat, segments: seq<SasmFormat.MemSegment>)
      requires 0 < memorySize <= MAX_MEMORY
      ensures Valid() && fresh(memory) && fresh(stack) && fresh(frames) && fresh(buf) && fresh(tracker) && fresh(tracker.bitmap)
      ensures this.memorySize == memorySize && this.segments == segments && tracker.Dirty() == {}
    {
      this.memorySize, this.segments := memorySize, segments;
      memory := new byte[MAX_MEMORY](_ => 0);
      stack := new u32[STACK_SIZE](_ => 0);
      frames := new FrameImage[FRAME_STACK];
      buf := new byte[BUFFER_SIZE];
      tracker := new Tracker(memorySize);
      sp, fp, snapSize, sequence, cycles, lastError, maxFrames, maxStack := 0, 0, 0, 0, 0, 0, 0, 0;
      syncCount, failCount, retryCount := 0, 0, 0;
    }

    /** The pages of the snapshot. The list never overflows, so the code's refusal for that is never taken. */
    method Collect() returns (pages: seq<nat>)
      requires Valid()
      ensures pages == Included(tracker.Dirty(), segments, tracker.pageCount)
    {
      hide Listed, AddSegments, AddRange, PageList;
      ghost var n := tracker.pageCount;
      pages := tracker.GetPages();
      ghost var base := pages;
      ListedOnce(tracker.Dirty(), n);
      AddSegmentsStart(base, n);
      for i := 0 to |segments|
        invariant pages == AddSegments(base, segments[..i], n) && PageList(pages, n)
      {
        var seg := segments[i];
        ghost var before := pages;
        AddSegmentsStep(base, segments, i, n);
        if (seg.kind == SEG_GLOBAL || seg.kind == SEG_FB_DATA) && seg.size != 0 {
          var page := seg.start / PAGE_SIZE;
          var last := LastPage(seg.start, seg.size, tracker.pageCount);
          ghost var whole := AddRange(pages, page, last);
          while page <= last
            invariant PageList(pages, n) && last < n && AddRange(pages, page, last) == whole
            decreases last - page + 1
          {
            AddRangeStep(pages, page, last, n);
            var ok;
            ok, pages := AddPage(pages, MAX_PAGES, page);
            page := page + 1;
          }
          AddRangeEnd(pages, page, last);
        }
      }
      assert segments[..|segments|] == segments;
    }

    /** `hs_snapshot_create`. */
    method Create() returns (rc: int)
      requires Valid()
      modifies `snapSize, `sequence, buf, tracker.bitmap
      ensures Valid() && Abs() == old(Abs()) && sequence == Wrap(old(sequence) + 1)
      ensures var pages := Included(old(tracker.Dirty()), segments, tracker.pageCount);
              && Ready(Abs(), pages)
              && rc == (if TotalSize(Abs(), pages) > BUFFER_SIZE then -1 else 0)
              && (rc == 0 ==> buf[..snapSize] == Image(old(sequence), Abs(), pages))
              && (rc == 0 ==> |Image(old(sequence), Abs(), pages)| <= 131072)
              && (|Image(old(sequence), Abs(), pages)| + PAGE_SIZE <= 131072 ==> rc == 0)
      ensures tracker.Dirty() == if rc == 0 then {} else old(tracker.Dirty())
    {
      hide Included, HeaderWords, EncWords, EncFrames, EncPages, Crc32.Crc, Image, InMemory;
      ghost var vm := Abs();
      var sn := sequence;
      sequence := Wrap(sequence + 1);
      var pages := Collect();
      IncludedReady(vm, tracker.Dirty(), segments);
      SizeExact(sn, vm, tracker.Dirty(), segments);
      ReadySized(vm, pages);
      if HEADER_SIZE + PAGE_SIZE * |pages| + 4 * sp + FRAME_SIZE * fp > BUFFER_SIZE { return -1; }
      WriteImage(sn, pages);
      tracker.Clear();
      return 0;
    }

    /** One page, cut short at the end of memory. */
    method CopyPage(offset: nat, page: nat) returns (n: nat)
      requires Valid() && PAGE_SIZE * page <= memorySize && offset + PAGE_SIZE <= BUFFER_SIZE
      modifies buf
      ensures Valid() && Abs() == old(Abs()) && n == |PageBytes(Abs().memory, page)| <= PAGE_SIZE
      ensures buf[..offset + n] == old(buf[..offset]) + PageBytes(Abs().memory, page)
    {
      hide PageBytes, Sized;
      var at := PAGE_SIZE * page;
      n := PAGE_SIZE;
      if at + n > memorySize { n := memorySize - at; }
      PageIs(Abs().memory, page, n);
      Within(memory[..], memorySize, at, at + n);
      Store(buf, offset, memory[at..at + n]);
    }

    /** The page loop of the snapshot. */
    method WritePages(start: nat, pages: seq<nat>) returns (offset: nat)
      requires Valid() && InMemory(memorySize, pages) && start + PAGE_SIZE * |pages| <= BUFFER_SIZE
      modifies buf
      ensures Valid() && Abs() == old(Abs()) && offset == start + |EncPages(Abs().memory, pages)| <= start + PAGE_SIZE * |pages|
      ensures buf[..offset] == old(buf[..start]) + EncPages(Abs().memory, pages)
    {
      hide EncPages, InMemory, PageBytes, Sized;
      ghost var vm := Abs();
      offset := start;
      PagesNone(vm.memory, pages);
      for i := 0 to |pages|
        invariant Valid() && Abs() == vm && InMemory(|vm.memory|, pages[..i])
        invariant offset == start + |EncPages(vm.memory, pages[..i])| <= start + PAGE_SIZE * i
        invariant buf[..offset] == old(buf[..start]) + EncPages(vm.memory, pages[..i])
      {
        PagesSplit(vm.memory, pages, i);
        PageInMemory(memorySize, pages, i);
        var n := CopyPage(offset, pages[i]);
        offset := offset + n;
      }
      assert pages[..|pages|] == pages;
    }

    /** Pages, value stack and frame stack, behind the header. */
    method WriteBody(pages: seq<nat>) returns (offset: nat)
      requires Valid() && Ready(Abs(), pages) && TotalSize(Abs(), pages) <= BUFFER_SIZE
      modifies buf
      ensures Valid() && Abs() == old(Abs()) && offset == HEADER_SIZE + |Payload(Abs(), pages)| <= BUFFER_SIZE
      ensures buf[..offset] == old(buf[..HEADER_SIZE]) + Payload(Abs(), pages)
    {
      hide EncWords, EncFrames, EncPages, InMemory, PageBytes, Sized;
      ReadySized(Abs(), pages);
      offset := WritePages(HEADER_SIZE, pages);
      var words, rest := EncWords(stack[..sp]), EncFrames(frames[..fp]);
      Store(buf, offset, words);
      Store(buf, offset + |words|, rest);
      offset := offset + |words| + |rest|;
    }

    /** The snapshot written front to back, and the checksum put in last. */
    method WriteImage(sn: u32, pages: seq<nat>)
      requires Valid() && Ready(Abs(), pages) && TotalSize(Abs(), pages) <= BUFFER_SIZE
      modifies `snapSize, buf
      ensures Valid() && Abs() == old(Abs()) && buf[..snapSize] == Image(sn, Abs(), pages)
    {
      hide HeaderWords, EncWords, Payload, Crc32.Crc, InMemory, Sized, Image, Put32;
      ghost var vm := Abs();
      ReadySized(vm, pages);
      HeaderStart(sn, vm, pages);
      var head := [Snapshot.MAGIC, sn, 0, sp, fp, cycles, lastError, maxFrames, maxStack, |pages|] + Indices(pages)
                  + seq(MAX_PAGES - |pages|, _ => 0) + [PAGE_SIZE * |pages|];
      ImageFinish(sn, vm, pages, head);
      ghost var header, body := EncWords(head + [0]), Payload(vm, pages);
      Store(buf, 0, EncWords(head + [0]));
      assert buf[..HEADER_SIZE] == buf[..0] + header == header;
      var offset := WriteBody(pages);
      var crc := Crc32.Compute(buf[..offset]);
      ghost var tail := buf[HEADER_SIZE..];
      assert tail[..|body|] == buf[..offset][HEADER_SIZE..] == body;
      Store(buf, HEADER_SIZE - 4, Put32(crc));
      assert buf[..][HEADER_SIZE..offset] == tail[..|body|];
      PatchCrc(buf[..], header, head, crc, body, offset);
      snapSize := offset;
    }

    /** The page loop of `hs_snapshot_apply`: memory is overwritten page by page, up to a refusal. */
    method ApplyPagesInPlace(data: seq<byte>) returns (offset: Option<nat>, outside: bool)
      requires Valid() && |data| >= HEADER_SIZE
      modifies memory
      ensures Valid() && Abs() == old(Abs()).(memory := Abs().memory)
      ensures (Abs().memory, offset, outside) == ApplyPages(old(Abs()).memory, data, 0, HEADER_SIZE)
    {
      hide WordAt, Sized;
      var at: nat := HEADER_SIZE;
      ghost var vm := Abs();
      var i: nat := 0;
      while i < WordAt(data, 9)
        invariant Valid() && Abs() == vm.(memory := Abs().memory)
        invariant ApplyPages(Abs().memory, data, i, at) == ApplyPages(vm.memory, data, 0, HEADER_SIZE)
        decreases WordAt(data, 9) - i
      {
        if i >= MAX_PAGES { return None, true; }
        var addr := Wrap(PAGE_SIZE * WordAt(data, INDEX_WORD + i));
        if addr > memorySize { return None, true; }
        var n := PAGE_SIZE;
        if addr + n > memorySize { n := memorySize - addr; }
        if at + n > |data| { return None, false; }
        ghost var before := Abs().memory;
        Overwrite(addr, data[at..at + n]);
        at := at + n;
        i := i + 1;
      }
      return Some(at), false;
    }

    method Overwrite(at: nat, bytes: seq<byte>)
      requires Valid() && at + |bytes| <= memorySize
      modifies memory
      ensures Abs() == old(Abs()).(memory := old(Abs()).memory[..at] + bytes + old(Abs()).memory[at + |bytes|..])
    {
      ghost var before := memory[..memorySize];
      Store(memory, at, bytes);
      assert memory[..memorySize] == memory[..at + |bytes|] + memory[at + |bytes|..][..memorySize - at - |bytes|];
      assert before[..at] == old(memory[..at]) && before[at + |bytes|..] == old(memory[at + |bytes|..])[..memorySize - at - |bytes|];
    }

    /** `hs_snapshot_apply`. `outside` reports a page list that points outside memory. */
    method Apply(data: seq<byte>) returns (rc: int, outside: bool)
      requires Valid()
      modifies `sp, `fp, `cycles, `lastError, `maxFrames, `maxStack, memory, stack, frames
      ensures Valid() && outside == Snapshot.Apply(old(Abs()), data).Outside?
      ensures !outside ==> Snapshot.Apply(old(Abs()), data) == if rc == 0 then Done(Abs()) else Refused(rc, Abs())
    {
      hide WordAt, Crc32.Crc, Sized, ApplyPages, ReadWords, ReadFrames, WithoutCrc;
      if |data| < HEADER_SIZE { return -1, false; }
      if |data| < HEADER_SIZE + 4 { return -2, false; }
      var crc := Crc32.Compute(WithoutCrc(data));
      if WordAt(data, CRC_WORD) != crc { return -2, false; }
      if WordAt(data, 0) != Snapshot.MAGIC { return -3, false; }
      if WordAt(data, 3) > STACK_SIZE || WordAt(data, 4) > FRAME_STACK { return -4, false; }
      var offset;
      offset, outside := ApplyPagesInPlace(data);
      if outside { return 0, true; }
      if offset == None { return -4, false; }
      rc := ApplyStacksInPlace(data, offset.value);
    }

    method ApplyStacksInPlace(data: seq<byte>, offset: nat) returns (rc: int)
      requires Valid() && |data| >= HEADER_SIZE && WordAt(data, 3) <= STACK_SIZE && WordAt(data, 4) <= FRAME_STACK
      modifies `sp, `fp, `cycles, `lastError, `maxFrames, `maxStack, stack, frames
      ensures Valid()
      ensures ApplyStacks(old(Abs()), data, offset) == if rc == 0 then Done(Abs()) else Refused(rc, Abs())
    {
      hide WordAt, WordIn, FrameIn;
      sp := WordAt(data, 3);
      if offset + 4 * sp > |data| { return -4; }
      var words := ReadWords(data, offset, sp);
      forall i | 0 <= i < sp { stack[i] := words[i]; }
      assert stack[..] == words + old(stack[..])[sp..];
      fp := WordAt(data, 4);
      var at := offset + 4 * sp;
      if at + FRAME_SIZE * fp > |data| { return -4; }
      var images := ReadFrames(data, at, fp);
      forall i | 0 <= i < fp { frames[i] := images[i]; }
      assert frames[..] == images + old(frames[..])[fp..];
      cycles, lastError := WordAt(data, 5), WordAt(data, 6);
      maxFrames, maxStack := WordAt(data, 7), WordAt(data, 8);
      return 0;
    }

    /** `hs_sync_send`. */
    method SyncSend(box: Mailbox) returns (rc: int)
      requires Valid() && box.Valid() && box.payload != buf && box.payload != memory
      modifies `snapSize, `sequence, `syncCount, `failCount, `retryCount, buf, tracker.bitmap, box, box.payload
      ensures Valid() && box.Valid() && Abs() == old(Abs()) && sequence == Wrap(old(sequence) + 1)
      ensures var pages := Included(old(tracker.Dirty()), segments, tracker.pageCount);
              && Ready(Abs(), pages)
              && (|Image(old(sequence), Abs(), pages)| + PAGE_SIZE <= 131072 ==> tracker.Dirty() == {})
              && (|Image(old(sequence), Abs(), pages)| + PAGE_SIZE <= 131072 && |Image(old(sequence), Abs(), pages)| <= box.payload.Length
                  ==> rc == 0)
              && (if TotalSize(Abs(), pages) > BUFFER_SIZE then
                    rc == -1 && tracker.Dirty() == old(tracker.Dirty()) && box.Content() == old(box.Content())
                  else
                    && tracker.Dirty() == {}
                    && var image := Image(old(sequence), Abs(), pages);
                       rc == (if |image| <= box.payload.Length then 0 else -1)
                       && box.Content() == if rc == 0 then Some(image) else old(box.Content()))
    {
      hide Included, Image, Sized, InMemory;
      rc := Create();
      if rc != 0 { return; }
      ImageSize(old(sequence), Abs(), Included(old(tracker.Dirty()), segments, tracker.pageCount));
      rc := box.Send(buf[..snapSize]);
      if rc == 0 {
        syncCount, retryCount := Wrap(syncCount + 1), 0;
      } else {
        failCount, retryCount := Wrap(failCount + 1), Wrap(retryCount + 1);
      }
    }

    /** `hs_sync_receive`. */
    method SyncReceive(box: Mailbox) returns (rc: int, outside: bool)
      requires Valid() && box.Valid() && box.payload !in {buf, memory}
      modifies `sp, `fp, `cycles, `lastError, `maxFrames, `maxStack, memory, stack, frames, box
      ensures Valid() && box.Valid() && box.Content() == None
      ensures old(box.Content()) == None ==> rc == -1 && !outside && Abs() == old(Abs())
      ensures old(box.Content()).Some? && |old(box.Content()).value| <= BUFFER_SIZE ==>
                var r := Snapshot.Apply(old(Abs()), old(box.Content()).value);
                outside == r.Outside? && (!outside ==> r == if rc == 0 then Done(Abs()) else Refused(rc, Abs()))
    {
      hide Snapshot.Apply, Sized;
      var data;
      rc, data := box.Recv(BUFFER_SIZE);
      if rc != 0 { return rc, false; }
      rc, outside := Apply(data);
    }
  }

  /** One `hs_sync_cycle` on each node after the master's scan, the mailbox between them empty: the
      two nodes move exactly as the model of a turn says. */
  method Exchange(master: Node, standby: Node, box: Mailbox, ghost p: Pair, ghost t: Turn)
    requires master.Valid() && standby.Valid() && box.Valid() && box.Content() == None
    requires Separate(master, standby, box) && master.segments == standby.segments
    requires PairSized(p) && Fair(p, t, master.segments)
    requires p.s == standby.Abs() && t.m == master.Abs() && p.sn == master.sequence
    requires master.tracker.Dirty() == p.dirty + t.marks
    requires t.lost <==> SnapshotSize(p, t, master.segments) > box.payload.Length
    modifies master, master.buf, master.tracker.bitmap, box, box.payload, standby, standby.memory, standby.stack, standby.frames
    ensures master.Valid() && standby.Valid() && box.Valid() && box.Content() == None
    ensures Pair(master.Abs(), master.tracker.Dirty(), standby.Abs(), master.sequence) == After(p, t, master.segments)
  {
    hide Included, Image, Sized, InMemory, Snapshot.Apply, WellMarked, Payload, Synced, Ready;
    IncludedReady(t.m, p.dirty + t.marks, master.segments);
    ImageSize(p.sn, t.m, Sent(p, t, master.segments));
    var rc := master.SyncSend(box);
    ApplyImage(p.sn, t.m, Sent(p, t, master.segments), p.s);
    var outside;
    rc, outside := standby.SyncReceive(box);
  }

  /** The bytes the mailbox holds for the mail. */
  ghost function Posted(mail: Option<Mail>): Option<seq<byte>>
    requires mail.Some? ==> Ready(mail.value.m, mail.value.pages)
  {
    match mail case None => None case Some(l) => Some(Image(l.sn, l.m, l.pages))
  }

  ghost predicate Represents(master: Node, standby: Node, box: Mailbox, n: Net)
    requires master.Valid() && standby.Valid() && box.Valid() && NetOk(n)
    reads master, master.tracker, master.tracker.bitmap, master.memory, master.stack, master.frames
    reads standby, standby.tracker, standby.memory, standby.stack, standby.frames, box, box.payload
  {
    && n.p == Pair(master.Abs(), master.tracker.Dirty(), standby.Abs(), master.sequence)
    && box.Content() == Posted(n.mail)
  }

  /** The master's `hs_sync_cycle`, after its scan: a failed one is not followed by a snapshot. What
      lies unread in the mailbox is written over. */
  method MasterTurn(master: Node, standby: Node, box: Mailbox, scanOk: bool, ghost n: Net, ghost t: Turn)
    requires master.Valid() && standby.Valid() && box.Valid()
    requires Separate(master, standby, box) && NetOk(n) && Possible(n, MasterCycle(t, scanOk), master.segments)
    requires n.p.s == standby.Abs() && t.m == master.Abs() && n.p.sn == master.sequence
    requires master.tracker.Dirty() == n.p.dirty + t.marks && box.Content() == Posted(n.mail)
    requires t.lost <==> SnapshotSize(n.p, t, master.segments) > box.payload.Length
    modifies master, master.buf, master.tracker.bitmap, box, box.payload
    ensures master.Valid() && standby.Valid() && box.Valid()
    ensures NetOk(AfterEvent(n, MasterCycle(t, scanOk), master.segments))
    ensures Represents(master, standby, box, AfterEvent(n, MasterCycle(t, scanOk), master.segments))
  {
    hide Included, Image, InMemory, Snapshot.Apply, WellMarked, Payload, Synced;
    EventOk(n, MasterCycle(t, scanOk), master.segments);
    IncludedReady(t.m, n.p.dirty + t.marks, master.segments);
    ImageSize(n.p.sn, t.m, Sent(n.p, t, master.segments));
    if scanOk {
      var rc := master.SyncSend(box);
    }
  }

  /** The standby's `hs_sync_cycle`. */
  method StandbyTurn(master: Node, standby: Node, box: Mailbox, ghost n: Net)
    requires master.Valid() && standby.Valid() && box.Valid()
    requires Separate(master, standby, box) && NetOk(n) && Represents(master, standby, box, n)
    modifies box, standby, standby.memory, standby.stack, standby.frames
    ensures master.Valid() && standby.Valid() && box.Valid()
    ensures NetOk(AfterEvent(n, StandbyCycle, master.segments))
    ensures Represents(master, standby, box, AfterEvent(n, StandbyCycle, master.segments))
  {
    hide Included, Image, InMemory, Snapshot.Apply, WellMarked, Payload, Synced, Ready;
    EventOk(n, StandbyCycle, master.segments);
    if n.mail.Some? {
      var l := n.mail.value;
      ImageSize(l.sn, l.m, l.pages);
      ApplyImage(l.sn, l.m, l.pages, n.p.s);
    }
    var rc, outside := standby.SyncReceive(box);
  }

  ghost predicate Separate(a: Node, b: Node, box: Mailbox)
    reads a, b
  {
    && a != b && a.tracker != b.tracker && a.tracker.bitmap != b.tracker.bitmap
    && a.memory != b.memory && a.stack != b.stack && a.frames != b.frames && a.buf !in {b.memory, b.buf} && b.buf != a.memory
    && box.payload !in {a.memory, a.buf, b.memory, b.buf}
  }

  lemma ImageSize(sn: u32, m: VmState, pages: seq<nat>)
    requires Ready(m, pages)
    ensures |Image(sn, m, pages)| == HEADER_SIZE + |Payload(m, pages)|
    ensures |Image(sn, m, pages)| <= TotalSize(m, pages)
  {
    hide Crc32.Crc, HeaderWords, Image;
    ImageCrc(sn, m, pages);
    PagesSize(m.memory, pages);
  }

  lemma {:induction false} PagesSize(memory: seq<byte>, pages: seq<nat>)
    requires InMemory(|memory|, pages)
    ensures |EncPages(memory, pages)| <= PAGE_SIZE * |pages|
  {
    if pages != [] {
      PagesSize(memory, pages[..|pages| - 1]);
    }
  }

  /** Replacing the last header word leaves the rest of the image alone. */
  lemma PatchCrc(bytes: seq<byte>, header: seq<byte>, head: seq<u32>, crc: u32, body: seq<byte>, offset: nat)
    requires |header| == HEADER_SIZE && |EncWords(head)| == HEADER_SIZE - 4 && header[..HEADER_SIZE - 4] == EncWords(head)
    requires offset == HEADER_SIZE + |body| <= |bytes|
    requires bytes[..HEADER_SIZE] == header[..HEADER_SIZE - 4] + Put32(crc) && bytes[HEADER_SIZE..offset] == body
    ensures bytes[..offset] == EncWords(head) + Put32(crc) + body
  {
    hide EncWords, Put32;
    assert bytes[..offset] == bytes[..HEADER_SIZE] + bytes[HEADER_SIZE..offset];
  }

  lemma Within(s: seq<byte>, size: nat, a: nat, b: nat)
    requires a <= b <= size <= |s|
    ensures s[..size][a..b] == s[a..b]
  {
  }

  lemma PageInMemory(size: nat, pages: seq<nat>, i: nat)
    requires InMemory(size, pages) && i < |pages|
    ensures pages[i] < MAX_PAGES && PAGE_SIZE * pages[i] <= size
  {
  }

  lemma AddSegmentsStart(base: seq<nat>, n: nat)
    ensures AddSegments(base, [], n) == base
  {
  }

  lemma AddSegmentsStep(base: seq<nat>, segments: seq<SasmFormat.MemSegment>, i: nat, n: nat)
    requires i < |segments| && PageList(base, n) && 0 < n <= MAX_PAGES
    ensures AddSegments(base, segments[..i + 1], n) == AddSegment(AddSegments(base, segments[..i], n), segments[i], n)
    ensures PageList(AddSegments(base, segments[..i + 1], n), n)
    ensures LastPage(segments[i].start, segments[i].size, n) < n
  {
    assert segments[..i + 1][..i] == segments[..i];
    AddSegmentsExact(base, segments[..i + 1], n);
    hide AddSegment, PageList;
  }

  lemma AddRangeStep(pages: seq<nat>, first: nat, last: nat, n: nat)
    requires PageList(pages, n) && first <= last < n <= MAX_PAGES
    ensures AddRange(pages, first, last) == AddRange(AddOne(pages, first), first + 1, last)
    ensures PageList(AddOne(pages, first), n) && (first in pages || |pages| < MAX_PAGES)
  {
    Orders.ElementsAppend(pages, first);
    if first !in pages { ListFits(pages + [first], n); }
  }

  lemma AddRangeEnd(pages: seq<nat>, first: nat, last: nat)
    requires first > last
    ensures AddRange(pages, first, last) == pages
  {
  }

  lemma HeaderStart(sn: u32, vm: VmState, pages: seq<nat>)
    requires Ready(vm, pages)
    ensures var head := [Snapshot.MAGIC, sn, 0, vm.sp, vm.fp, vm.cycles, vm.lastError, vm.maxFrames, vm.maxStack, |pages|]
                        + Indices(pages) + seq(MAX_PAGES - |pages|, _ => 0) + [PAGE_SIZE * |pages|];
            |head| == CRC_WORD && forall crc: u32 :: HeaderWords(sn, vm, pages, crc) == head + [crc]
  {
  }

  lemma PagesNone(memory: seq<byte>, pages: seq<nat>)
    ensures InMemory(|memory|, pages[..0]) && EncPages(memory, pages[..0]) == []
  {
  }

  lemma PageIs(memory: seq<byte>, p: nat, n: nat)
    requires PAGE_SIZE * p <= |memory|
    requires n == if PAGE_SIZE * p + PAGE_SIZE > |memory| then |memory| - PAGE_SIZE * p else PAGE_SIZE
    ensures PageBytes(memory, p) == memory[PAGE_SIZE * p..PAGE_SIZE * p + n] && n <= PAGE_SIZE
  {
  }

  lemma ImageFinish(sn: u32, vm: VmState, pages: seq<nat>, head: seq<u32>)
    requires Ready(vm, pages) && |head| == CRC_WORD && forall crc: u32 :: HeaderWords(sn, vm, pages, crc) == head + [crc]
    ensures var blank := EncWords(head + [0]) + Payload(vm, pages);
            Image(sn, vm, pages) == EncWords(head) + Put32(Crc32.Crc(blank)) + Payload(vm, pages)
    ensures EncWords(head + [0])[..HEADER_SIZE - 4] == EncWords(head)
  {
    hide Payload, Crc32.Crc, Put32, HeaderWords;
    var blank := EncWords(head + [0]) + Payload(vm, pages);
    var crc := Crc32.Crc(blank);
    assert (head + [crc])[..CRC_WORD] == head && (head + [0])[..CRC_WORD] == head;
    LastWord(head + [crc]);
    LastWord(head + [0]);
  }
}
