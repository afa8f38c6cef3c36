/** Master and standby at their own pace: failed scans, unread snapshots, snapshots written over. */
module SyncRuns {
  import opened Bytes
  import opened Results
  import opened SasmFormat
  import opened DirtyPages
  import opened Snapshot
  import opened DeltaSync

  /** What waits in the mailbox: the master as it was when it sent, and the pages it sent. */
  datatype Mail = Mail(sn: u32, m: VmState, pages: seq<nat>)

  datatype Net = Net(p: Pair, mail: Option<Mail>)

  /** One `hs_sync_cycle`: the master's, with how its scan went, or the standby's. */
  datatype Event = MasterCycle(t: Turn, scanOk: bool) | StandbyCycle

  ghost predicate NetOk(n: Net) {
    && PairSized(n.p)
    && (n.mail.Some? ==>
          && Ready(n.mail.value.m, n.mail.value.pages) && |n.mail.value.m.memory| == |n.p.s.memory|
          && TotalSize(n.mail.value.m, n.mail.value.pages) <= BUFFER_SIZE)
  }

  /** The standby once it has read its mail. */
  ghost function Expected(n: Net): VmState
    requires NetOk(n)
  {
    match n.mail
    case None => n.p.s
    case Some(mail) =>
      if |Payload(mail.m, mail.pages)| < 4 then n.p.s else Synced(n.p.s, mail.m, mail.pages)
  }

  ghost predicate Possible(n: Net, e: Event, segments: seq<MemSegment>)
    requires NetOk(n)
  {
    e.MasterCycle? ==> Fair(n.p, e.t, segments)
  }

  /** A failed scan sends nothing and keeps the marks; a snapshot that is sent replaces the mail. */
  ghost function AfterEvent(n: Net, e: Event, segments: seq<MemSegment>): Net
    requires NetOk(n) && Possible(n, e, segments)
  {
    match e
    case StandbyCycle => Net(n.p.(s := Expected(n)), None)
    case MasterCycle(t, scanOk) =>
      var marked := n.p.dirty + t.marks;
      if !scanOk then Net(Pair(t.m, marked, n.p.s, n.p.sn), n.mail)
      else if !FitsBuffer(n.p, t, segments) then Net(Pair(t.m, marked, n.p.s, Wrap(n.p.sn + 1)), n.mail)
      else if t.lost then Net(Pair(t.m, {}, n.p.s, Wrap(n.p.sn + 1)), n.mail)
      else Net(Pair(t.m, {}, n.p.s, Wrap(n.p.sn + 1)), Some(Mail(n.p.sn, t.m, Sent(n.p, t, segments))))
  }

  lemma ExpectedSized(n: Net)
    requires NetOk(n)
    ensures Sized(Expected(n)) && |Expected(n).memory| == |n.p.s.memory|
  {
    hide Payload, Sized, Synced;
    if n.mail.Some? { SyncedSized(n.p.s, n.mail.value.m, n.mail.value.pages); }
  }

  lemma EventOk(n: Net, e: Event, segments: seq<MemSegment>)
    requires NetOk(n) && Possible(n, e, segments)
    ensures NetOk(AfterEvent(n, e, segments))
  {
    hide Payload, Included, TotalSize, WellMarked, Ready, Sized;
    ExpectedSized(n);
    if e.MasterCycle? { IncludedReady(e.t.m, n.p.dirty + e.t.marks, segments); }
  }

  /** Where the master differs from what the standby is about to be, the next snapshot will carry the
      page; and the waiting snapshot makes the standby what the master was when it sent it. */
  ghost predicate OnTrack(n: Net, segments: seq<MemSegment>)
    requires NetOk(n)
  {
    && Differences(n.p.m.memory, Expected(n).memory, n.p.dirty, segments)
    && (n.mail.Some? && |Payload(n.mail.value.m, n.mail.value.pages)| >= 4 ==> SameMachine(n.mail.value.m, Expected(n)))
  }

  ghost predicate SameMachine(m: VmState, s: VmState) {
    Sized(m) && Sized(s) && SameState(m, s)
  }

  /** Every byte that differs lies in a page of `pages` or in a segment that always travels. */
  ghost predicate Differences(m: seq<byte>, s: seq<byte>, pages: set<nat>, segments: seq<MemSegment>) {
    forall a :: 0 <= a < |m| && a < |s| && m[a] != s[a] ==>
      a / PAGE_SIZE in pages || GlobalPage(segments, PageCount(|m|), a / PAGE_SIZE)
  }

  /** What a cycle may lose. A snapshot that does not get into the mailbox must not carry what the
      standby will miss; one that replaces unread mail must carry all the standby still lacks. */
  ghost predicate Harmless(n: Net, e: Event, segments: seq<MemSegment>)
    requires NetOk(n) && Possible(n, e, segments)
  {
    match e
    case StandbyCycle => true
    case MasterCycle(t, scanOk) =>
      if !scanOk || !FitsBuffer(n.p, t, segments) then true
      else if t.lost then Differences(t.m.memory, Expected(n).memory, {}, segments)
      else if SnapshotSize(n.p, t, segments) < HEADER_SIZE + 4 then Differences(t.m.memory, n.p.s.memory, {}, segments)
      else Differences(t.m.memory, n.p.s.memory, n.p.dirty + t.marks, segments)
  }

  /** Exactly the harmless cycles stay on track. */
  lemma EventExactly(n: Net, e: Event, segments: seq<MemSegment>)
    requires NetOk(n) && Possible(n, e, segments) && OnTrack(n, segments)
    ensures NetOk(AfterEvent(n, e, segments))
    ensures OnTrack(AfterEvent(n, e, segments), segments) <==> Harmless(n, e, segments)
  {
    EventOk(n, e, segments);
    match e
    case StandbyCycle => ReadingKeeps(n, segments);
    case MasterCycle(t, scanOk) =>
      if scanOk && FitsBuffer(n.p, t, segments) {
        if t.lost { LostMail(n, t, segments); } else { SentMail(n, t, segments); }
      } else {
        SilentKeeps(n, t, scanOk, segments);
      }
  }

  lemma ReadingKeeps(n: Net, segments: seq<MemSegment>)
    requires NetOk(n) && OnTrack(n, segments) && NetOk(AfterEvent(n, StandbyCycle, segments))
    ensures OnTrack(AfterEvent(n, StandbyCycle, segments), segments)
  {
    hide Payload, Synced, Differences;
  }

  lemma SilentKeeps(n: Net, t: Turn, scanOk: bool, segments: seq<MemSegment>)
    requires NetOk(n) && Fair(n.p, t, segments) && OnTrack(n, segments)
    requires !scanOk || !FitsBuffer(n.p, t, segments)
    requires NetOk(AfterEvent(n, MasterCycle(t, scanOk), segments))
    ensures OnTrack(AfterEvent(n, MasterCycle(t, scanOk), segments), segments)
  {
    hide Payload, Synced, Included, TotalSize, GlobalPage, Sized, SameMachine;
    ExpectedSized(n);
    var s := Expected(n).memory;
    forall a | 0 <= a < |s| && t.m.memory[a] != s[a]
      ensures a / PAGE_SIZE in n.p.dirty + t.marks || GlobalPage(segments, PageCount(|t.m.memory|), a / PAGE_SIZE)
    {
      assert t.m.memory[a] != n.p.m.memory[a] || n.p.m.memory[a] != s[a];
    }
  }

  lemma LostMail(n: Net, t: Turn, segments: seq<MemSegment>)
    requires NetOk(n) && Fair(n.p, t, segments) && OnTrack(n, segments) && FitsBuffer(n.p, t, segments) && t.lost
    requires NetOk(AfterEvent(n, MasterCycle(t, true), segments))
    ensures OnTrack(AfterEvent(n, MasterCycle(t, true), segments), segments) <==> Harmless(n, MasterCycle(t, true), segments)
  {
    hide Payload, Synced, Included, TotalSize, Differences, Sized, SameMachine;
  }

  /** Mail that was sent makes the standby the same exactly if it carries every page that differs. */
  lemma SentMail(n: Net, t: Turn, segments: seq<MemSegment>)
    requires NetOk(n) && Fair(n.p, t, segments) && OnTrack(n, segments) && FitsBuffer(n.p, t, segments) && !t.lost
    requires NetOk(AfterEvent(n, MasterCycle(t, true), segments))
    ensures OnTrack(AfterEvent(n, MasterCycle(t, true), segments), segments) <==> Harmless(n, MasterCycle(t, true), segments)
  {
    hide Included, TotalSize, FitsBuffer, Payload, Synced, GlobalPage, WellMarked, SameState, SameMachine, Differences;
    var q := AfterEvent(n, MasterCycle(t, true), segments);
    var pages := Sent(n.p, t, segments);
    IncludedReady(t.m, n.p.dirty + t.marks, segments);
    ExpectedSized(q);
    if |Payload(t.m, pages)| >= 4 {
      SyncedSame(n.p.s, t.m, pages);
      SizedPages(t.m);
      IncludedExact(n.p.dirty + t.marks, segments, PageCount(|t.m.memory|));
      CarriesAll(n.p.s.memory, t.m.memory, pages, n.p.dirty + t.marks, segments);
    }
  }

  /** After applying, the machines are the same exactly if the memories are. */
  lemma SyncedSame(s: VmState, m: VmState, pages: seq<nat>)
    requires Ready(m, pages) && Sized(s) && |s.memory| == |m.memory|
    ensures Synced(s, m, pages).memory == Overlay(s.memory, m.memory, pages, 0)
    ensures SameMachine(m, Synced(s, m, pages)) <==> Overlay(s.memory, m.memory, pages, 0) == m.memory
  {
    hide Overlay;
    SyncedSized(s, m, pages);
  }

  lemma CarriesAll(s: seq<byte>, m: seq<byte>, pages: seq<nat>, dirty: set<nat>, segments: seq<MemSegment>)
    requires |s| == |m| <= Snapshot.MAX_MEMORY && InMemory(|m|, pages)
    requires forall p: nat :: p in pages <==> (p < PageCount(|m|) && p in dirty) || GlobalPage(segments, PageCount(|m|), p)
    ensures Overlay(s, m, pages, 0) == m <==> Differences(m, s, dirty, segments)
    ensures Overlay(s, m, pages, 0) == m <==> Differences(m, Overlay(s, m, pages, 0), {}, segments)
  {
    hide GlobalPage, Overlay;
    var r := Overlay(s, m, pages, 0);
    forall a: nat | a < |m| ensures r[a] == (if a / PAGE_SIZE in pages then m[a] else s[a]) && a / PAGE_SIZE < PageCount(|m|) {
      OverlayAt(s, m, pages, 0, a);
      assert pages[0..] == pages;
      PageBelow(|m|, a);
    }
  }

  ghost predicate Runnable(n: Net, es: seq<Event>, segments: seq<MemSegment>)
    requires NetOk(n)
    decreases |es|
  {
    es == [] ||
    (Possible(n, es[0], segments) && (EventOk(n, es[0], segments); Runnable(AfterEvent(n, es[0], segments), es[1..], segments)))
  }

  ghost function RunEvents(n: Net, es: seq<Event>, segments: seq<MemSegment>): (q: Net)
    requires NetOk(n) && Runnable(n, es, segments)
    ensures NetOk(q)
    decreases |es|
  {
    if es == [] then n
    else
      EventOk(n, es[0], segments);
      RunEvents(AfterEvent(n, es[0], segments), es[1..], segments)
  }

  ghost predicate AllHarmless(n: Net, es: seq<Event>, segments: seq<MemSegment>)
    requires NetOk(n) && Runnable(n, es, segments)
    decreases |es|
  {
    es == [] ||
    (Harmless(n, es[0], segments) && (EventOk(n, es[0], segments); AllHarmless(AfterEvent(n, es[0], segments), es[1..], segments)))
  }

  /** Reading the mail makes the standby what the master was when it sent it. */
  ghost predicate ReadsTrue(n: Net)
    requires NetOk(n)
  {
    n.mail.Some? && |Payload(n.mail.value.m, n.mail.value.pages)| >= 4 ==>
      SameMachine(n.mail.value.m, AfterEvent(n, StandbyCycle, []).p.s)
  }

  /** Any interleaving of the two stations' cycles, with failed scans, snapshots that do not fit and
      snapshots written over before they were read: as long as every cycle is harmless, whatever the
      standby reads makes it the same as the master was when it sent it. */
  lemma {:induction false} AnyPace(n: Net, es: seq<Event>, segments: seq<MemSegment>)
    requires NetOk(n) && OnTrack(n, segments) && Runnable(n, es, segments) && AllHarmless(n, es, segments)
    ensures OnTrack(RunEvents(n, es, segments), segments) && ReadsTrue(RunEvents(n, es, segments))
    decreases |es|
  {
    hide OnTrack, Harmless, NetOk, AfterEvent, Possible, ReadsTrue;
    if es == [] {
      TrackReads(n, segments);
    } else {
      EventExactly(n, es[0], segments);
      AnyPace(AfterEvent(n, es[0], segments), es[1..], segments);
    }
  }

  lemma TrackReads(n: Net, segments: seq<MemSegment>)
    requires NetOk(n) && OnTrack(n, segments)
    ensures ReadsTrue(n)
  {
    hide Payload, SameMachine, Synced, Differences;
  }

  /** Mail that finds the mailbox empty is always harmless. */
  lemma EmptyBoxHarmless(n: Net, t: Turn, segments: seq<MemSegment>)
    requires NetOk(n) && Fair(n.p, t, segments) && OnTrack(n, segments) && n.mail == None && !t.lost
    requires SnapshotSize(n.p, t, segments) >= HEADER_SIZE + 4
    ensures Harmless(n, MasterCycle(t, true), segments)
  {
    hide Payload, Included, TotalSize, GlobalPage, FitsBuffer;
    var s := n.p.s.memory;
    forall a | 0 <= a < |s| && t.m.memory[a] != s[a]
      ensures a / PAGE_SIZE in n.p.dirty + t.marks || GlobalPage(segments, PageCount(|t.m.memory|), a / PAGE_SIZE)
    {
      assert t.m.memory[a] != n.p.m.memory[a] || n.p.m.memory[a] != s[a];
    }
  }
}
