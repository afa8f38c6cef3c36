/** Delta synchronisation over whole runs: which pages a snapshot carries, and what that keeps equal. */
module DeltaSync {
  import opened Bytes
  import opened DirtyPages
  import opened Snapshot
  import SasmFormat
  import Orders

  const SEG_GLOBAL: byte := 2
  const SEG_FB_DATA: byte := 3

  // ---------- the pages of a snapshot ----------

  /** Global and function-block data travel with every snapshot. */
  predicate Always(seg: SasmFormat.MemSegment) {
    seg.kind in {SEG_GLOBAL, SEG_FB_DATA} && seg.size != 0
  }

  predicate SegmentPage(seg: SasmFormat.MemSegment, pageCount: nat, p: nat) {
    Always(seg) && Between(p, seg.start / PAGE_SIZE, LastPage(seg.start, seg.size, pageCount))
  }

  ghost predicate GlobalPage(segments: seq<SasmFormat.MemSegment>, pageCount: nat, p: nat) {
    exists i :: 0 <= i < |segments| && SegmentPage(segments[i], pageCount, p)
  }

  function AddOne(pages: seq<nat>, p: nat): seq<nat> {
    if p in pages then pages else pages + [p]
  }

  function AddRange(pages: seq<nat>, first: nat, last: nat): seq<nat>
    decreases last - first + 1
  {
    if first > last then pages else AddRange(AddOne(pages, first), first + 1, last)
  }

  function AddSegment(pages: seq<nat>, seg: SasmFormat.MemSegment, pageCount: nat): seq<nat> {
    if Always(seg) then AddRange(pages, seg.start / PAGE_SIZE, LastPage(seg.start, seg.size, pageCount)) else pages
  }

  function AddSegments(pages: seq<nat>, segments: seq<SasmFormat.MemSegment>, pageCount: nat): seq<nat> {
    if segments == [] then pages
    else AddSegment(AddSegments(pages, segments[..|segments| - 1], pageCount), segments[|segments| - 1], pageCount)
  }

  /** The page list of a snapshot: the dirty pages in order, then what the segments add. */
  function Included(dirty: set<nat>, segments: seq<SasmFormat.MemSegment>, pageCount: nat): seq<nat> {
    AddSegments(Listed(dirty, pageCount), segments, pageCount)
  }

  /** No page twice, and none beyond memory. */
  ghost predicate PageList(pages: seq<nat>, pageCount: nat) {
    Orders.Distinct(pages) && forall p <- pages :: p < pageCount
  }

  lemma {:induction false} AddRangeExact(pages: seq<nat>, first: nat, last: nat, pageCount: nat)
    requires PageList(pages, pageCount) && last < pageCount
    ensures PageList(AddRange(pages, first, last), pageCount)
    ensures forall p: nat :: p in AddRange(pages, first, last) <==> p in pages || Between(p, first, last)
    decreases last - first + 1
  {
    if first <= last {
      var more := AddOne(pages, first);
      Orders.ElementsAppend(pages, first);
      AddRangeExact(more, first + 1, last, pageCount);
    }
  }

  /** Exactly the dirty pages and the pages of global segments, each once. */
  lemma {:induction false} AddSegmentsExact(pages: seq<nat>, segments: seq<SasmFormat.MemSegment>, pageCount: nat)
    requires PageList(pages, pageCount) && 0 < pageCount <= MAX_PAGES
    ensures PageList(AddSegments(pages, segments, pageCount), pageCount)
    ensures forall p: nat :: p in AddSegments(pages, segments, pageCount) <==> p in pages || GlobalPage(segments, pageCount, p)
  {
    hide PageList;
    if segments != [] {
      var n := |segments| - 1;
      var front, seg := AddSegments(pages, segments[..n], pageCount), segments[n];
      AddSegmentsExact(pages, segments[..n], pageCount);
      if Always(seg) {
        AddRangeExact(front, seg.start / PAGE_SIZE, LastPage(seg.start, seg.size, pageCount), pageCount);
      }
      forall p: nat ensures GlobalPage(segments, pageCount, p)
                       <==> GlobalPage(segments[..n], pageCount, p) || SegmentPage(seg, pageCount, p)
      {
        GlobalSplit(segments, pageCount, p);
      }
    }
  }

  lemma GlobalSplit(segments: seq<SasmFormat.MemSegment>, pageCount: nat, p: nat)
    requires segments != []
    ensures GlobalPage(segments, pageCount, p) <==>
            GlobalPage(segments[..|segments| - 1], pageCount, p) || SegmentPage(segments[|segments| - 1], pageCount, p)
  {
    hide SegmentPage;
    var n := |segments| - 1;
    if SegmentPage(segments[n], pageCount, p) {
      assert GlobalPage(segments, pageCount, p);
    }
    if GlobalPage(segments[..n], pageCount, p) {
      var i :| 0 <= i < n && SegmentPage(segments[..n][i], pageCount, p);
      assert SegmentPage(segments[i], pageCount, p);
    }
    if GlobalPage(segments, pageCount, p) {
      var i :| 0 <= i < |segments| && SegmentPage(segments[i], pageCount, p);
      if i < n { assert SegmentPage(segments[..n][i], pageCount, p); }
    }
  }

  /** A page list has room for every page, so adding one never overflows it. */
  lemma ListFits(pages: seq<nat>, pageCount: nat)
    requires PageList(pages, pageCount)
    ensures |pages| <= pageCount
  {
    Orders.DistinctCardinality(pages);
    var all := Orders.UpTo(pageCount);
    Orders.UpToSize(pageCount);
    assert Orders.Elements(pages) <= all;
    Orders.SubsetCardinality(Orders.Elements(pages), all);
  }

  lemma ListedOnce(dirty: set<nat>, n: nat)
    ensures PageList(Listed(dirty, n), n) && forall p: nat :: p in Listed(dirty, n) <==> p < n && p in dirty
  {
    ListedExactly(dirty, n);
    var pages := Listed(dirty, n);
    forall i, j | 0 <= i < j < |pages| ensures pages[i] != pages[j] {
      assert pages[i] < pages[j];
    }
  }

  lemma IncludedExact(dirty: set<nat>, segments: seq<SasmFormat.MemSegment>, pageCount: nat)
    requires 0 < pageCount <= MAX_PAGES
    ensures var pages := Included(dirty, segments, pageCount);
            && PageList(pages, pageCount) && |pages| <= pageCount
            && forall p: nat :: p in pages <==> (p < pageCount && p in dirty) || GlobalPage(segments, pageCount, p)
  {
    hide AddSegments, Listed, GlobalPage;
    ListedOnce(dirty, pageCount);
    AddSegmentsExact(Listed(dirty, pageCount), segments, pageCount);
    ListFits(Included(dirty, segments, pageCount), pageCount);
  }

  /** The pages listed lie in memory, as the snapshot needs. */
  lemma IncludedReady(vm: VmState, dirty: set<nat>, segments: seq<SasmFormat.MemSegment>)
    requires Sized(vm)
    ensures Ready(vm, Included(dirty, segments, PageCount(|vm.memory|)))
  {
    var n := PageCount(|vm.memory|);
    IncludedExact(dirty, segments, n);
    var pages := Included(dirty, segments, n);
    forall i | 0 <= i < |pages| ensures pages[i] < MAX_PAGES && PAGE_SIZE * pages[i] <= |vm.memory| {
      assert pages[i] in pages;
      PageInside(|vm.memory|, pages[i]);
    }
  }

  lemma PageInside(size: nat, p: nat)
    requires p < PageCount(size)
    ensures PAGE_SIZE * p <= size
  {
  }

  // ---------- runs ----------

  /** Only the last page of memory can be cut short, and it is listed at most once. */
  lemma {:induction false} PagesFull(memory: seq<byte>, pages: seq<nat>)
    requires 0 < |memory| <= MAX_MEMORY && PageList(pages, PageCount(|memory|)) && InMemory(|memory|, pages)
    ensures var last := PageCount(|memory|) - 1;
            |EncPages(memory, pages)| == PAGE_SIZE * |pages| - if last in pages then PAGE_SIZE * (last + 1) - |memory| else 0
    ensures PAGE_SIZE * |pages| - PAGE_SIZE < |EncPages(memory, pages)| <= PAGE_SIZE * |pages|
  {
    if pages != [] {
      var front, p := pages[..|pages| - 1], pages[|pages| - 1];
      assert pages == front + [p];
      FrontApart(pages, PageCount(|memory|));
      PagesFull(memory, front);
      PageLength(|memory|, p);
      assert |PageBytes(memory, p)| == PageLen(|memory|, p);
    }
  }

  lemma PageLength(size: nat, p: nat)
    requires 0 < size <= MAX_MEMORY && p < PageCount(size) && PAGE_SIZE * p <= size
    ensures PageLen(size, p) == if p == PageCount(size) - 1 then size - PAGE_SIZE * p else PAGE_SIZE
    ensures PAGE_SIZE * (PageCount(size) - 1) < size <= PAGE_SIZE * PageCount(size)
  {
  }

  lemma FrontApart(pages: seq<nat>, pageCount: nat)
    requires pages != [] && PageList(pages, pageCount)
    ensures PageList(pages[..|pages| - 1], pageCount) && pages[|pages| - 1] !in pages[..|pages| - 1]
    ensures pages[|pages| - 1] < pageCount
  {
    var front := pages[..|pages| - 1];
    assert pages[|pages| - 1] in pages;
    forall x | x in front ensures x < pageCount {
      assert x in pages;
    }
    forall i, j | 0 <= i < j < |front| ensures front[i] != front[j] {
      assert pages[i] != pages[j];
    }
  }

  lemma ImageLength(sn: u32, vm: VmState, pages: seq<nat>)
    requires Ready(vm, pages)
    ensures |Image(sn, vm, pages)| == 1072 + |EncPages(vm.memory, pages)| + 4 * vm.sp + 4192 * vm.fp
  {
    hide Image, EncPages, EncWords, EncFrames, HeaderWords;
    ImageCrc(sn, vm, pages);
  }

  /** The room asked for is the length of the snapshot, up to less than one page. */
  lemma SizeExact(sn: u32, vm: VmState, dirty: set<nat>, segments: seq<SasmFormat.MemSegment>)
    requires Sized(vm)
    ensures var pages := Included(dirty, segments, PageCount(|vm.memory|));
            && Ready(vm, pages)
            && |Image(sn, vm, pages)| <= TotalSize(vm, pages) < |Image(sn, vm, pages)| + PAGE_SIZE
  {
    hide Image, EncPages, Included;
    IncludedReady(vm, dirty, segments);
    SizedPages(vm);
    var pages := Included(dirty, segments, PageCount(|vm.memory|));
    IncludedExact(dirty, segments, PageCount(|vm.memory|));
    ImageLength(sn, vm, pages);
    PagesFull(vm.memory, pages);
  }

  /** The two machines, the pages the master has marked, and its snapshot number. */
  datatype Pair = Pair(m: VmState, dirty: set<nat>, s: VmState, sn: u32)

  /** One cycle of the master: its machine afterwards, the pages marked on the way, and whether
      the snapshot is lost between the two nodes. */
  datatype Turn = Turn(m: VmState, marks: set<nat>, lost: bool)

  ghost predicate PairSized(p: Pair) {
    Sized(p.m) && Sized(p.s) && |p.m.memory| == |p.s.memory|
  }

  ghost predicate Fair(p: Pair, t: Turn, segments: seq<SasmFormat.MemSegment>) {
    Sized(t.m) && |t.m.memory| == |p.m.memory| && WellMarked(p.m.memory, t, segments)
  }

  /** Every byte the master changed lies in a page it marked or in a segment that always travels. */
  ghost predicate WellMarked(before: seq<byte>, t: Turn, segments: seq<SasmFormat.MemSegment>)
    requires |t.m.memory| == |before|
  {
    forall a :: 0 <= a < |before| && t.m.memory[a] != before[a] ==>
      a / PAGE_SIZE in t.marks || GlobalPage(segments, PageCount(|before|), a / PAGE_SIZE)
  }

  function Sent(p: Pair, t: Turn, segments: seq<SasmFormat.MemSegment>): seq<nat> {
    Included(p.dirty + t.marks, segments, PageCount(|t.m.memory|))
  }

  predicate FitsBuffer(p: Pair, t: Turn, segments: seq<SasmFormat.MemSegment>) {
    TotalSize(t.m, Sent(p, t, segments)) <= BUFFER_SIZE
  }

  ghost function SnapshotSize(p: Pair, t: Turn, segments: seq<SasmFormat.MemSegment>): nat
    requires Sized(t.m)
  {
    IncludedReady(t.m, p.dirty + t.marks, segments);
    HEADER_SIZE + |Payload(t.m, Sent(p, t, segments))|
  }

  /** One cycle on both sides. A snapshot that does not fit is not made, and the marks stay; one
      that is made clears the marks, whether it arrives or not. */
  ghost function After(p: Pair, t: Turn, segments: seq<SasmFormat.MemSegment>): Pair
    requires PairSized(p) && Fair(p, t, segments)
  {
    IncludedReady(t.m, p.dirty + t.marks, segments);
    if !FitsBuffer(p, t, segments) then Pair(t.m, p.dirty + t.marks, p.s, Wrap(p.sn + 1))
    else if t.lost then Pair(t.m, {}, p.s, Wrap(p.sn + 1))
    else
      ApplyImage(p.sn, t.m, Sent(p, t, segments), p.s);
      match Apply(p.s, Image(p.sn, t.m, Sent(p, t, segments)))
      case Done(s) => Pair(t.m, {}, s, Wrap(p.sn + 1))
      case _ => Pair(t.m, {}, p.s, Wrap(p.sn + 1))
  }

  /** The snapshot of this turn reaches the standby and is accepted there. */
  ghost predicate Arrives(p: Pair, t: Turn, segments: seq<SasmFormat.MemSegment>)
    requires PairSized(p) && Fair(p, t, segments)
  {
    IncludedReady(t.m, p.dirty + t.marks, segments);
    FitsBuffer(p, t, segments) && !t.lost && |Payload(t.m, Sent(p, t, segments))| >= 4
  }

  /** What the standby takes over in a switch: memory and everything in use on the stacks. */
  ghost predicate SameState(m: VmState, s: VmState)
    requires Sized(m) && Sized(s)
  {
    && s.memory == m.memory && s.sp == m.sp && s.stack[..s.sp] == m.stack[..m.sp]
    && s.fp == m.fp && s.frames[..s.fp] == m.frames[..m.fp]
    && s.cycles == m.cycles && s.lastError == m.lastError && s.maxFrames == m.maxFrames && s.maxStack == m.maxStack
  }

  /** Where the two memories differ, the next snapshot will carry the page. */
  ghost predicate Covered(p: Pair, segments: seq<SasmFormat.MemSegment>)
    requires PairSized(p)
  {
    forall a :: 0 <= a < |p.m.memory| && p.m.memory[a] != p.s.memory[a] ==>
      a / PAGE_SIZE in p.dirty || GlobalPage(segments, PageCount(|p.m.memory|), a / PAGE_SIZE)
  }

  lemma SyncedSized(s: VmState, m: VmState, pages: seq<nat>)
    requires Ready(m, pages) && Sized(s) && |s.memory| == |m.memory|
    ensures Sized(Synced(s, m, pages)) && |Synced(s, m, pages).memory| == |m.memory|
    ensures var r := Synced(s, m, pages);
            && r.sp == m.sp && r.stack[..r.sp] == m.stack[..m.sp] && r.fp == m.fp && r.frames[..r.fp] == m.frames[..m.fp]
            && r.cycles == m.cycles && r.lastError == m.lastError && r.maxFrames == m.maxFrames && r.maxStack == m.maxStack
  {
    hide Overlay, InMemory;
  }

  lemma AfterSized(p: Pair, t: Turn, segments: seq<SasmFormat.MemSegment>)
    requires PairSized(p) && Fair(p, t, segments)
    ensures PairSized(After(p, t, segments)) && After(p, t, segments).m == t.m
    ensures Arrives(p, t, segments) ==>
              Ready(t.m, Sent(p, t, segments)) && After(p, t, segments).s == Synced(p.s, t.m, Sent(p, t, segments))
    ensures !Arrives(p, t, segments) ==> After(p, t, segments).s == p.s
    ensures After(p, t, segments).dirty == if FitsBuffer(p, t, segments) then {} else p.dirty + t.marks
  {
    hide Sized, WellMarked, Included, TotalSize, Synced, InMemory, Snapshot.Apply, Payload, Image;
    IncludedReady(t.m, p.dirty + t.marks, segments);
    ApplyImage(p.sn, t.m, Sent(p, t, segments), p.s);
    SyncedSized(p.s, t.m, Sent(p, t, segments));
  }

  /** After a snapshot has arrived, the memories are equal exactly if every byte that differed
      before lies in a page the snapshot carried. */
  lemma ArrivedExactly(p: Pair, t: Turn, segments: seq<SasmFormat.MemSegment>)
    requires PairSized(p) && Fair(p, t, segments) && Arrives(p, t, segments)
    ensures PairSized(After(p, t, segments))
    ensures var q := After(p, t, segments);
            q.s.memory == q.m.memory <==>
            forall a :: 0 <= a < |p.s.memory| && t.m.memory[a] != p.s.memory[a] ==> a / PAGE_SIZE in Sent(p, t, segments)
  {
    hide Included, Snapshot.Apply, Image, Payload, TotalSize, Arrives, After, WellMarked, GlobalPage;
    AfterSized(p, t, segments);
    var (q, pages) := (After(p, t, segments), Sent(p, t, segments));
    forall a: nat | a < |p.s.memory|
      ensures q.s.memory[a] == if a / PAGE_SIZE in pages then t.m.memory[a] else p.s.memory[a]
    {
      OverlayAt(p.s.memory, t.m.memory, pages, 0, a);
      assert pages[0..] == pages;
    }
    if forall a :: 0 <= a < |p.s.memory| && t.m.memory[a] != p.s.memory[a] ==> a / PAGE_SIZE in pages {
      forall a: nat | a < |p.s.memory| ensures q.s.memory[a] == t.m.memory[a] {}
    }
  }

  /** One turn keeps every difference covered, unless its snapshot is made and does not arrive. */
  lemma TurnCovered(p: Pair, t: Turn, segments: seq<SasmFormat.MemSegment>)
    requires PairSized(p) && Covered(p, segments) && Fair(p, t, segments)
    requires Arrives(p, t, segments) || !FitsBuffer(p, t, segments)
    ensures PairSized(After(p, t, segments)) && Covered(After(p, t, segments), segments)
    ensures Arrives(p, t, segments) ==> SameState(t.m, After(p, t, segments).s)
  {
    hide Included, Snapshot.Apply, Image, Payload, TotalSize, Arrives, After, GlobalPage, Synced, Sized;
    AfterSized(p, t, segments);
    var n := PageCount(|t.m.memory|);
    var q := After(p, t, segments);
    forall a | 0 <= a < |p.s.memory| && t.m.memory[a] != p.s.memory[a]
      ensures a / PAGE_SIZE in p.dirty + t.marks || GlobalPage(segments, n, a / PAGE_SIZE)
    {
      assert t.m.memory[a] != p.m.memory[a] || p.m.memory[a] != p.s.memory[a];
    }
    if Arrives(p, t, segments) {
      SizedPages(t.m);
      IncludedExact(p.dirty + t.marks, segments, n);
      forall a | 0 <= a < |p.s.memory| && t.m.memory[a] != p.s.memory[a]
        ensures a / PAGE_SIZE in Sent(p, t, segments)
      {
        PageBelow(|p.s.memory|, a);
      }
      ArrivedExactly(p, t, segments);
      SyncedSized(p.s, t.m, Sent(p, t, segments));
    }
  }

  /** Every byte in which the master now differs from the standby travels anyway. */
  ghost predicate OnlyGlobal(p: Pair, t: Turn, segments: seq<SasmFormat.MemSegment>)
    requires PairSized(p) && |t.m.memory| == |p.m.memory|
  {
    forall a :: 0 <= a < |p.s.memory| && t.m.memory[a] != p.s.memory[a] ==>
      GlobalPage(segments, PageCount(|p.s.memory|), a / PAGE_SIZE)
  }

  /** A snapshot that is made and does not arrive leaves all differences covered exactly if every
      byte that differs lies in a segment that always travels. */
  lemma LostExactly(p: Pair, t: Turn, segments: seq<SasmFormat.MemSegment>)
    requires PairSized(p) && Fair(p, t, segments) && FitsBuffer(p, t, segments) && !Arrives(p, t, segments)
    ensures PairSized(After(p, t, segments))
    ensures Covered(After(p, t, segments), segments) <==> OnlyGlobal(p, t, segments)
  {
    hide Included, Snapshot.Apply, Image, Payload, TotalSize, Arrives, After, GlobalPage, Synced, Sized, FitsBuffer, WellMarked;
    AfterSized(p, t, segments);
  }

  /** The turn loses nothing: its snapshot arrives, or is not made, or would not have been missed. */
  ghost predicate KeepsUp(p: Pair, t: Turn, segments: seq<SasmFormat.MemSegment>)
    requires PairSized(p) && Fair(p, t, segments)
  {
    Arrives(p, t, segments) || !FitsBuffer(p, t, segments) || OnlyGlobal(p, t, segments)
  }

  /** From covered differences, exactly the turns that lose nothing leave them covered. */
  lemma TurnExactly(p: Pair, t: Turn, segments: seq<SasmFormat.MemSegment>)
    requires PairSized(p) && Covered(p, segments) && Fair(p, t, segments)
    ensures PairSized(After(p, t, segments))
    ensures Covered(After(p, t, segments), segments) <==> KeepsUp(p, t, segments)
    ensures Arrives(p, t, segments) ==> SameState(t.m, After(p, t, segments).s)
  {
    hide PairSized, Covered, Fair, Arrives, FitsBuffer, After, SameState, OnlyGlobal;
    if Arrives(p, t, segments) || !FitsBuffer(p, t, segments) {
      TurnCovered(p, t, segments);
    } else {
      LostExactly(p, t, segments);
    }
  }

  lemma SizedPages(m: VmState)
    requires Sized(m)
    ensures 0 < PageCount(|m.memory|) <= MAX_PAGES && |m.memory| <= MAX_MEMORY
  {
  }

  lemma PageBelow(size: nat, a: nat)
    requires a < size <= MAX_MEMORY
    ensures a / PAGE_SIZE < PageCount(size)
  {
  }

  ghost predicate Playable(p: Pair, ts: seq<Turn>, segments: seq<SasmFormat.MemSegment>)
    requires PairSized(p)
    decreases |ts|
  {
    ts == [] ||
    (Fair(p, ts[0], segments) &&
     (AfterSized(p, ts[0], segments); Playable(After(p, ts[0], segments), ts[1..], segments)))
  }

  ghost function Play(p: Pair, ts: seq<Turn>, segments: seq<SasmFormat.MemSegment>): Pair
    requires PairSized(p) && Playable(p, ts, segments)
    decreases |ts|
  {
    if ts == [] then p
    else
      AfterSized(p, ts[0], segments);
      Play(After(p, ts[0], segments), ts[1..], segments)
  }

  /** No snapshot goes astray that carries anything the standby will miss. */
  ghost predicate NoneLost(p: Pair, ts: seq<Turn>, segments: seq<SasmFormat.MemSegment>)
    requires PairSized(p) && Playable(p, ts, segments)
    decreases |ts|
  {
    ts == [] ||
    (KeepsUp(p, ts[0], segments) &&
     (AfterSized(p, ts[0], segments); NoneLost(After(p, ts[0], segments), ts[1..], segments)))
  }

  /** Differences are covered, and a turn whose snapshot arrives makes the two states the same. */
  ghost predicate SyncsNext(p: Pair, t: Turn, segments: seq<SasmFormat.MemSegment>) {
    && PairSized(p) && Covered(p, segments)
    && (Fair(p, t, segments) && Arrives(p, t, segments) ==>
          (AfterSized(p, t, segments); SameState(t.m, After(p, t, segments).s)))
  }

  /** The whole run: from covered differences (in particular from equal memories), however many
      cycles, and even if some snapshots did not fit or were lost without need, the state is the same
      after each one that arrives. */
  lemma {:induction false} RunInSync(p: Pair, ts: seq<Turn>, segments: seq<SasmFormat.MemSegment>, last: Turn)
    requires PairSized(p) && Covered(p, segments) && Playable(p, ts, segments) && NoneLost(p, ts, segments)
    ensures SyncsNext(Play(p, ts, segments), last, segments)
    decreases |ts|
  {
    hide *;
    PlayUnfolds(p, ts, segments);
    if ts != [] {
      TurnExactly(p, ts[0], segments);
      RunInSync(After(p, ts[0], segments), ts[1..], segments, last);
    } else {
      NextTurn(p, last, segments);
    }
  }

  lemma NextTurn(p: Pair, last: Turn, segments: seq<SasmFormat.MemSegment>)
    requires PairSized(p) && Covered(p, segments)
    ensures SyncsNext(p, last, segments)
  {
    hide Arrives, After, SameState, Fair, PairSized, Covered;
    if Fair(p, last, segments) && Arrives(p, last, segments) {
      TurnCovered(p, last, segments);
    }
  }

  lemma PlayUnfolds(p: Pair, ts: seq<Turn>, segments: seq<SasmFormat.MemSegment>)
    requires PairSized(p) && Playable(p, ts, segments) && NoneLost(p, ts, segments)
    ensures ts == [] ==> Play(p, ts, segments) == p
    ensures ts != [] ==>
              && Fair(p, ts[0], segments) && KeepsUp(p, ts[0], segments)
              && PairSized(After(p, ts[0], segments)) && Playable(After(p, ts[0], segments), ts[1..], segments)
              && NoneLost(After(p, ts[0], segments), ts[1..], segments)
              && Play(p, ts, segments) == Play(After(p, ts[0], segments), ts[1..], segments)
  {
    hide KeepsUp, Fair, After, PairSized;
    if ts != [] { AfterSized(p, ts[0], segments); }
  }

  /** The turns leave a page alone: neither written nor marked. */
  ghost predicate Quiet(p: Pair, ts: seq<Turn>, page: nat)
    decreases |ts|
  {
    ts == [] || (page !in ts[0].marks && (forall a :: 0 <= a < |ts[0].m.memory| && a < |p.m.memory| && a / PAGE_SIZE == page ==>
                                            ts[0].m.memory[a] == p.m.memory[a])
                 && Quiet(p.(m := ts[0].m), ts[1..], page))
  }

  /** A difference outside the global segments that is no longer marked never heals by itself:
      this is where a lost snapshot leaves the pair. */
  lemma {:induction false} StaysDifferent(p: Pair, ts: seq<Turn>, segments: seq<SasmFormat.MemSegment>, a: nat)
    requires PairSized(p) && Playable(p, ts, segments) && a < |p.m.memory| && p.m.memory[a] != p.s.memory[a]
    requires a / PAGE_SIZE !in p.dirty && !GlobalPage(segments, PageCount(|p.m.memory|), a / PAGE_SIZE)
    requires Quiet(p, ts, a / PAGE_SIZE)
    ensures var q := Play(p, ts, segments); |q.m.memory| == |p.m.memory| && |q.s.memory| == |p.m.memory|
                                            && q.m.memory[a] != q.s.memory[a]
    decreases |ts|
  {
    hide Included, Payload, TotalSize, Arrives, After, GlobalPage, WellMarked, Sized;
    if ts != [] {
      var t, q := ts[0], After(p, ts[0], segments);
      AfterSized(p, t, segments);
      StaysOneTurn(p, t, segments, a);
      QuietFrom(p, q, ts[1..], a / PAGE_SIZE);
      StaysDifferent(q, ts[1..], segments, a);
    }
  }

  lemma StaysOneTurn(p: Pair, t: Turn, segments: seq<SasmFormat.MemSegment>, a: nat)
    requires PairSized(p) && Fair(p, t, segments) && a < |p.m.memory| && p.m.memory[a] != p.s.memory[a]
    requires a / PAGE_SIZE !in p.dirty + t.marks && !GlobalPage(segments, PageCount(|p.m.memory|), a / PAGE_SIZE)
    requires t.m.memory[a] == p.m.memory[a]
    ensures var q := After(p, t, segments);
            PairSized(q) && q.m == t.m && q.m.memory[a] != q.s.memory[a] && a / PAGE_SIZE !in q.dirty
  {
    hide Included, Payload, TotalSize, Arrives, After, GlobalPage, WellMarked, Overlay, FitsBuffer;
    AfterSized(p, t, segments);
    SizedPages(t.m);
    var pages := Sent(p, t, segments);
    IncludedExact(p.dirty + t.marks, segments, PageCount(|t.m.memory|));
    assert a / PAGE_SIZE !in pages;
    if Arrives(p, t, segments) {
      OverlayAt(p.s.memory, t.m.memory, pages, 0, a);
      assert pages[0..] == pages;
    }
  }

  lemma {:induction false} QuietFrom(p: Pair, q: Pair, ts: seq<Turn>, page: nat)
    requires Quiet(p.(m := q.m), ts, page)
    ensures Quiet(q, ts, page)
    decreases |ts|
  {
    if ts != [] {
      QuietFrom(p.(m := q.m), q.(m := ts[0].m), ts[1..], page);
    }
  }

  /** A lost snapshot: a byte outside the global segments in which the standby differed stays wrong
      through all later turns, arriving snapshots or not, until its page is touched again. */
  lemma LostStaysDifferent(p: Pair, t: Turn, ts: seq<Turn>, segments: seq<SasmFormat.MemSegment>, a: nat)
    requires PairSized(p) && Fair(p, t, segments) && FitsBuffer(p, t, segments) && !Arrives(p, t, segments)
    requires a < |p.s.memory| && t.m.memory[a] != p.s.memory[a]
    requires !GlobalPage(segments, PageCount(|p.s.memory|), a / PAGE_SIZE)
    requires PairSized(After(p, t, segments)) && Playable(After(p, t, segments), ts, segments)
    requires Quiet(After(p, t, segments), ts, a / PAGE_SIZE)
    ensures var q := Play(After(p, t, segments), ts, segments);
            |q.m.memory| == |q.s.memory| == |p.s.memory| && q.m.memory[a] == t.m.memory[a] != q.s.memory[a]
  {
    hide Included, Payload, TotalSize, Arrives, After, GlobalPage, WellMarked, Sized, Fair, Playable, Play, Quiet;
    AfterSized(p, t, segments);
    LostPair(p, t, segments);
    StaysDifferent(After(p, t, segments), ts, segments, a);
    QuietKeeps(After(p, t, segments), ts, segments, a);
  }

  lemma LostPair(p: Pair, t: Turn, segments: seq<SasmFormat.MemSegment>)
    requires PairSized(p) && Fair(p, t, segments) && FitsBuffer(p, t, segments) && !Arrives(p, t, segments)
    ensures After(p, t, segments).m == t.m && After(p, t, segments).s == p.s && After(p, t, segments).dirty == {}
    ensures |t.m.memory| == |p.m.memory|
  {
    hide Included, Payload, TotalSize, Arrives, After, FitsBuffer, WellMarked, Sized;
    AfterSized(p, t, segments);
  }

  lemma {:induction false} QuietKeeps(p: Pair, ts: seq<Turn>, segments: seq<SasmFormat.MemSegment>, a: nat)
    requires PairSized(p) && Playable(p, ts, segments) && a < |p.m.memory| && Quiet(p, ts, a / PAGE_SIZE)
    ensures |Play(p, ts, segments).m.memory| == |p.m.memory| && Play(p, ts, segments).m.memory[a] == p.m.memory[a]
    decreases |ts|
  {
    hide Included, Payload, TotalSize, Arrives, After, GlobalPage, WellMarked, Sized, FitsBuffer;
    if ts != [] {
      AfterSized(p, ts[0], segments);
      QuietFrom(p, After(p, ts[0], segments), ts[1..], a / PAGE_SIZE);
      QuietKeeps(After(p, ts[0], segments), ts[1..], segments, a);
    }
  }
}
