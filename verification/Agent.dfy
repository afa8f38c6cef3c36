/** `agent_main.c`: scan by scan, one download served, one switch, one rollback at most. */
module Agent {
  import opened Bytes
  import opened Results
  import opened SasmFormat
  import opened SasmLoader
  import M = Machine
  import T = MachineTheory
  import I = Interpreter
  import D = DownloadFrames
  import W = DownloadWire
  import DownloadTheory
  import opened Slots
  import opened SlotManager

  const PUMP_LIMIT := 65536
  const MIN_FRAME := D.HEADER_LEN + D.MAC_LEN

  const EX_OK := 0
  const EX_IMAGE := 3
  const EX_CYCLE := 5
  const EX_STREAM := 6

  datatype Config = Config(maxCycles: u32, downloadAt: u32, healthCycles: u32)

  datatype Verdict = Staged | RejectedFrame(rc: int) | RejectedReassembly(rc: int) | RejectedStage(rc: int)

  // ---------- serving the download ----------

  /** `serve_download`: pump the stream until it is complete, refused or dry, and stage what came.
      The verdict depends only on what the whole stream amounts to. Each frame is at least
      `MIN_FRAME` bytes, so a stream that fits the buffer never meets the limit. */
  method ServeDownload(mgr: DownloadManager, data: seq<byte>, key: D.Key) returns (v: Verdict, pumps: nat)
    requires mgr.Valid() && |data| < D.MAX_IMAGE
    modifies mgr
    ensures mgr.Valid() && pumps < PUMP_LIMIT
    ensures var whole := D.Feed(key, D.RESET, data);
            match v
            case RejectedFrame(rc) => !D.Complete(whole) && whole.failed && rc == whole.lastError && mgr.Abs() == old(mgr.Abs())
            case RejectedReassembly(rc) => !D.Complete(whole) && !whole.failed && mgr.Abs() == old(mgr.Abs())
            case RejectedStage(rc) => D.Complete(whole) && rc != RC_OK && (mgr.Abs(), rc) == Stage(old(mgr.Abs()), whole.image)
            case Staged => D.Complete(whole) && (mgr.Abs(), RC_OK) == Stage(old(mgr.Abs()), whole.image)
  {
    hide D.Feed, Stage, D.Assembling, D.Complete, DownloadTheory.Unmoved;
    var rx := new W.Receiver();
    var io := new W.Link(data, []);
    var complete := false;
    pumps := 0;
    assert data[..0] == [];
    FeedNone(key);
    while pumps < PUMP_LIMIT
      invariant rx.Valid() && io.Valid() && io.data == data && io.script == []
      invariant fresh(rx) && fresh(rx.image) && fresh(rx.scratch) && fresh(io)
      invariant mgr.Valid() && mgr.Abs() == old(mgr.Abs())
      invariant rx.Abs() == D.Feed(key, D.RESET, data[..io.pos]) && !rx.failed
      invariant !D.Complete(rx.Abs())
      invariant rx.scratchLen == 0 && MIN_FRAME * pumps <= io.pos && !io.exhausted && !complete
      decreases PUMP_LIMIT - pumps
    {
      ghost var at, before := io.pos, rx.Abs();
      var rc;
      rc, complete := rx.Pump(io, key);
      pumps := pumps + 1;
      DownloadTheory.StillIncomplete(before, rx.Abs().scratch);
      D.FeedConcat(key, D.RESET, data[..at], data[at..io.pos]);
      assert data[..at] + data[at..io.pos] == data[..io.pos];
      if rc == D.E_TRUNC {
        if io.exhausted { break; }
        continue;
      }
      if rc < 0 {
        FailedFor(key, data, at, io.pos);
        return RejectedFrame(rc), pumps;
      }
      if complete { break; }
    }
    if complete { DownloadTheory.CompleteStays(key, data, io.pos); } else { assert data[..io.pos] == data; }
    var rc, img := rx.Finish();
    if rc != D.OK { return RejectedReassembly(rc), pumps; }
    rc := mgr.StageImage(img);
    if rc != RC_OK { return RejectedStage(rc), pumps; }
    v := Staged;
  }

  /** A stream refused at `k`, with nothing complete before that frame, never completes. */
  lemma FailedFor(key: D.Key, data: seq<byte>, at: nat, k: nat)
    requires at <= k <= |data| < D.MAX_IMAGE
    requires var (before, rx) := (D.Feed(key, D.RESET, data[..at]), D.Feed(key, D.RESET, data[..k]));
             !D.Complete(before) && rx.failed && DownloadTheory.Unmoved(before, rx)
    ensures D.Feed(key, D.RESET, data) == D.Feed(key, D.RESET, data[..k]) && !D.Complete(D.Feed(key, D.RESET, data))
  {
    hide D.Feed;
    D.FeedConcat(key, D.RESET, data[..k], data[k..]);
    D.FeedFailed(key, D.Feed(key, D.RESET, data[..k]), data[k..]);
    assert data[..k] + data[k..] == data;
    DownloadTheory.Begun(key, data[..at]);
  }

  lemma FeedNone(key: D.Key)
    ensures D.Feed(key, D.RESET, []) == D.RESET && !D.Complete(D.RESET)
  {
  }

  // ---------- the scan loop ----------

  /** One scan: the image it ran, the machine before and after, its code, whether it started from
      a cleared machine, and whether the health window was open. */
  datatype ScanRecord = ScanRecord(image: Image, start: M.State, end: M.State, rc: int, fresh_: bool, window: bool)

  const NO_IMAGE := Image([], Blank(0, 0), 0)

  /** The image of version 0, as the cold start loads it. */
  ghost function First(raw: seq<byte>): Image
    requires Load(raw).Ok?
  {
    Image(raw, Load(raw).value, 0)
  }

  /** What the manager holds, by how far the run has come. */
  ghost predicate Phase(g: Mgr, first: Image, second: Image, open: bool, pendingSwitch: bool, switches: nat, rollbacks: nat,
                        health: nat) {
    && Inv(g) && pendingSwitch == g.inProgress && rollbacks <= switches <= 1
    && (open ==> switches == 0 && !g.inProgress)
    && (switches == 0 ==> !g.switched && g.slots[g.active] == Some(first) && health == 0
                          && (g.inProgress ==> g.slots[g.pending] == Some(second)))
    && (switches == 1 ==> !g.inProgress)
    && (switches == 1 && rollbacks == 0 ==>
          g.switched && g.slots[g.active] == Some(second) && g.slots[g.pending] == Some(first))
    && (rollbacks == 1 ==> g.slots[g.active] == Some(first) && !g.switched && health == 0)
  }

  lemma PhaseSwitch(g: Mgr, first: Image, second: Image, open: bool, health: nat, window: nat)
    requires Phase(g, first, second, open, true, 0, 0, health)
    ensures Switch(g).1 == RC_OK && Phase(Switch(g).0, first, second, false, false, 1, 0, window)
  {
    hide Sound, Load;
    assert Passed(g.slots[g.pending].value);
    SwitchInv(g);
  }

  lemma PhaseRollback(g: Mgr, first: Image, second: Image, open: bool, health: nat)
    requires Phase(g, first, second, open, false, 1, 0, health)
    ensures Slots.Rollback(g).1 == Some(first) && Phase(Slots.Rollback(g).0, first, second, open, false, 1, 1, 0)
    ensures Slots.Rollback(g).0.next == g.next
  {
    hide Passed;
    RollbackInv(g);
  }

  lemma PhaseStage(g: Mgr, first: Image, raw: seq<byte>, second: Image)
    requires Phase(g, first, second, true, false, 0, 0, 0)
    ensures var (h, rc) := Stage(g, raw);
            && Shaped(g) && Shaped(h) && h.slots[h.active] == g.slots[g.active] && rc == Gate(raw).0
            && (if rc == RC_OK then
                  Load(raw).Ok? && Passed(Image(raw, Load(raw).value, g.next))
                  && Phase(h, first, Image(raw, Load(raw).value, g.next), false, true, 0, 0, 0)
                else Phase(h, first, second, false, false, 0, 0, 0))
  {
    hide Sound, Load;
    StageInv(g, raw);
  }

  lemma PhaseClose(g: Mgr, first: Image, second: Image)
    requires Phase(g, first, second, true, false, 0, 0, 0)
    ensures Phase(g, first, second, false, false, 0, 0, 0)
  {
  }

  lemma PhaseSound(g: Mgr, first: Image, second: Image, open: bool, pendingSwitch: bool, switches: nat, rollbacks: nat,
                   health: nat)
    requires Phase(g, first, second, open, pendingSwitch, switches, rollbacks, health)
    ensures Shaped(g) && g.slots[g.active].Some? && Sound(g.slots[g.active].value.mod)
    ensures g.slots[g.active].value == if switches == 1 && rollbacks == 0 then second else first
    ensures (g.inProgress ==> g.slots[g.pending].Some?) && (g.switched ==> g.previous != g.active)
    ensures pendingSwitch ==> switches == 0 && !open
    ensures open ==> switches == 0 && rollbacks == 0 && health == 0
  {
    hide Sound, Load;
    assert Passed(g.slots[g.active].value);
  }

  /** The scans so far: the second image exactly from scan `a` up to scan `b`, the window open for
      the first `health` of those, every scan what the machine does from its start, and the start
      the end of the scan before it unless the program has just changed. */
  ghost predicate Timeline(scans: seq<ScanRecord>, alu: M.Alu, first: Image, second: Image, a: nat, b: nat, health: nat) {
    a <= b <= |scans| && forall i :: 0 <= i < |scans| ==> Faithful(scans, i, alu, first, second, a, b, health)
  }

  ghost predicate Faithful(scans: seq<ScanRecord>, i: nat, alu: M.Alu, first: Image, second: Image, a: nat, b: nat,
                           health: nat)
    requires i < |scans|
  {
    var s := scans[i];
    && s.image == (if a <= i < b then second else first)
    && s.window == (a <= i < b && i < a + health)
    && s.fresh_ == (i == 0 || i == a || i == b)
    && (if s.fresh_ then exists size :: s.start == I.Cleared(size) else s.start == scans[i - 1].end)
    && Runs(s, alu)
  }

  ghost predicate Runs(s: ScanRecord, alu: M.Alu) {
    && Sound(s.image.mod) && |s.start.stack| <= M.STACK_SIZE && |s.start.memory| <= MAX_MEMORY
    && T.Scan(s.image.mod, alu, s.start) == M.Halt(s.end, s.rc)
  }

  /** One more scan; the bounds that are still open move along. */
  lemma TimelineGrows(scans: seq<ScanRecord>, s: ScanRecord, alu: M.Alu, first: Image, second: Image, a: nat, b: nat,
                      a': nat, b': nat, health: nat)
    requires Timeline(scans, alu, first, second, a, b, health)
    requires (a' == a || a == |scans|) && (b' == b || b == |scans|) && a' <= b' <= |scans| + 1
    requires a' in {a, |scans| + 1} && b' in {b, |scans| + 1}
    requires Faithful(scans + [s], |scans|, alu, first, second, a', b', health)
    ensures Timeline(scans + [s], alu, first, second, a', b', health)
  {
    hide Runs;
    var more := scans + [s];
    forall i | 0 <= i < |more| ensures Faithful(more, i, alu, first, second, a', b', health) {
      if i < |scans| {
        assert Faithful(scans, i, alu, first, second, a, b, health);
      }
    }
  }

  /** While the first image runs, the second one is not part of the timeline yet. */
  lemma TimelineSecond(scans: seq<ScanRecord>, alu: M.Alu, first: Image, second: Image, other: Image, b: nat, health: nat)
    requires Timeline(scans, alu, first, second, |scans|, b, health)
    ensures Timeline(scans, alu, first, other, |scans|, b, health)
  {
    hide Runs;
    forall i | 0 <= i < |scans| ensures Faithful(scans, i, alu, first, other, |scans|, b, health) {
      assert Faithful(scans, i, alu, first, second, |scans|, b, health);
    }
  }

  /** Every failed scan was the last of the second image, inside the window, and was rolled back. */
  ghost predicate Forgiven(scans: seq<ScanRecord>, b: nat, rollbacks: nat) {
    forall i :: 0 <= i < |scans| && scans[i].rc != 0 ==> scans[i].window && i + 1 == b && rollbacks == 1
  }

  /** The last scan failed with no window open, and those before it were well. */
  ghost predicate Broke(scans: seq<ScanRecord>, b: nat, rollbacks: nat) {
    scans != [] && scans[|scans| - 1].rc != 0 && !scans[|scans| - 1].window
    && Forgiven(scans[..|scans| - 1], b, rollbacks)
  }

  /** Where the machine stands between scans. */
  ghost predicate Standing(scans: seq<ScanRecord>, s: M.State, changed: bool) {
    if changed then exists size :: s == I.Cleared(size) else scans != [] && s == scans[|scans| - 1].end
  }

  /** Where the run is: the open ends of the timeline, the window left, and whether the program has just changed. */
  ghost predicate Here(n: nat, a: nat, b: nat, switches: nat, rollbacks: nat, health: nat, changed: bool, window: nat) {
    && rollbacks <= switches <= 1 && a <= b <= n
    && (switches == 0 ==> a == n && health == 0) && (rollbacks == 0 ==> b == n)
    && (rollbacks == 1 ==> a < b && health == 0)
    && (switches == 1 && rollbacks == 0 ==> health == if a + window > n then a + window - n else 0)
    && (changed <==> n == 0 || (switches == 1 && a == n) || (rollbacks == 1 && b == n))
  }

  lemma NewScan(scans: seq<ScanRecord>, s: ScanRecord, alu: M.Alu, first: Image, second: Image, a: nat, b: nat,
                a': nat, b': nat, window: nat, switches: nat, rollbacks: nat, health: nat)
    requires Timeline(scans, alu, first, second, a, b, window)
    requires Here(|scans|, a, b, switches, rollbacks, health, s.fresh_, window)
    requires a' == (if switches == 0 then |scans| + 1 else a) && b' == (if rollbacks == 0 then |scans| + 1 else b)
    requires s.image == (if switches == 1 && rollbacks == 0 then second else first) && s.window == (health > 0)
    requires Standing(scans, s.start, s.fresh_) && Runs(s, alu)
    ensures Timeline(scans + [s], alu, first, second, a', b', window)
  {
    hide Runs;
    var i := |scans|;
    assert (scans + [s])[i] == s && (i > 0 ==> (scans + [s])[i - 1] == scans[i - 1]);
    TimelineGrows(scans, s, alu, first, second, a, b, a', b', window);
  }

  lemma HereSwitch(n: nat, a: nat, b: nat, health: nat, changed: bool, window: nat)
    requires Here(n, a, b, 0, 0, health, changed, window)
    ensures Here(n, a, b, 1, 0, window, true, window)
  {
  }

  lemma HereScan(n: nat, a: nat, b: nat, switches: nat, rollbacks: nat, health: nat, changed: bool, window: nat)
    requires Here(n, a, b, switches, rollbacks, health, changed, window)
    ensures Here(n + 1, if switches == 0 then n + 1 else a, if rollbacks == 0 then n + 1 else b, switches, rollbacks,
                 if health > 0 then health - 1 else 0, false, window)
  {
  }

  lemma HereRollback(n: nat, a: nat, b: nat, switches: nat, rollbacks: nat, health: nat, changed: bool, window: nat)
    requires Here(n, a, b, switches, rollbacks, health, changed, window) && health > 0
    ensures switches == 1 && rollbacks == 0 && Here(n + 1, a, n + 1, 1, 1, 0, true, window)
  {
  }

  lemma HereEnds(n: nat, a: nat, b: nat, switches: nat, rollbacks: nat, health: nat, changed: bool, window: nat)
    requires Here(n, a, b, switches, rollbacks, health, changed, window)
    ensures rollbacks <= switches <= 1 && (switches == 0 ==> a == n) && (rollbacks == 0 ==> b == n)
  {
  }

  lemma StartHere(alu: M.Alu, first: Image, second: Image, window: nat, s: M.State, size: nat)
    requires s == I.Cleared(size)
    ensures Here(0, 0, 0, 0, 0, 0, true, window) && Timeline([], alu, first, second, 0, 0, window)
    ensures Standing([], s, true) && Forgiven([], 0, 0)
  {
  }

  lemma StandingChanged(scans: seq<ScanRecord>, s: M.State, size: nat)
    requires s == I.Cleared(size)
    ensures Standing(scans, s, true)
  {
  }

  lemma StandingAfter(scans: seq<ScanRecord>, s: ScanRecord)
    ensures Standing(scans + [s], s.end, false)
  {
  }

  /** A scan that ended well, or one rolled back inside the window. */
  lemma ForgivenGrows(scans: seq<ScanRecord>, s: ScanRecord, b: nat, rollbacks: nat)
    requires Forgiven(scans, b, rollbacks) && (rollbacks == 0 ==> b == |scans|)
    ensures s.rc == 0 ==> Forgiven(scans + [s], if rollbacks == 0 then |scans| + 1 else b, rollbacks)
    ensures s.window && rollbacks == 0 ==> Forgiven(scans + [s], |scans| + 1, 1)
    ensures s.rc != 0 && !s.window ==> Broke(scans + [s], if rollbacks == 0 then |scans| + 1 else b, rollbacks)
  {
    var more := scans + [s];
    assert more[|scans|] == s;
    forall i | 0 <= i < |scans| && more[i].rc != 0 ensures scans[i].window && i + 1 == b && rollbacks == 1 {
      assert more[i] == scans[i];
    }
  }

  lemma ForgivenNotFailed(scans: seq<ScanRecord>, b: nat, rollbacks: nat)
    requires Forgiven(scans, b, rollbacks)
    ensures !Broke(scans, b, rollbacks)
  {
  }

  lemma GateSize(raw: seq<byte>)
    ensures |raw| == 0 || |raw| > MAX_RAW ==> Gate(raw).0 != RC_OK
    ensures Gate(raw).0 == RC_OK ==> Load(raw).Ok?
  {
    hide Sound, Load;
  }

  lemma ColdPhase(raw: seq<byte>, second: Image, open: bool)
    ensures ColdLoad(raw).1 == Gate(raw).0
    ensures ColdLoad(raw).1 == RC_OK ==> Load(raw).Ok? && ColdLoad(raw).0.next == 1
    ensures ColdLoad(raw).1 == RC_OK ==> Phase(ColdLoad(raw).0, First(raw), second, open, false, 0, 0, 0)
  {
    hide Sound, Load;
    if ColdLoad(raw).1 == RC_OK { ColdLoadInv(raw); }
  }

  /** What a stream brings: the image it completes, if that passes both gates. It becomes version 1. */
  ghost function Delivered(key: D.Key, stream: Option<seq<byte>>): Option<Image> {
    if stream == None then None
    else
      var whole := D.Feed(key, D.RESET, stream.value);
      GateSize(whole.image);
      if D.Complete(whole) && Gate(whole.image).0 == RC_OK then Some(Image(whole.image, Load(whole.image).value, 1)) else None
  }

  /** The one download of a run: afterwards it waits for the switch, or nothing has changed. */
  method Serve(mgr: DownloadManager, data: seq<byte>, key: D.Key, ghost first: Image, ghost second: Image)
    returns (staged: bool, ghost other: Image)
    requires mgr.Valid() && |data| < D.MAX_IMAGE && mgr.next == 1
    requires Phase(mgr.Abs(), first, second, true, false, 0, 0, 0)
    modifies mgr
    ensures mgr.Valid() && mgr.Abs().slots[mgr.active] == old(mgr.Abs().slots[mgr.active])
    ensures Phase(mgr.Abs(), first, other, false, staged, 0, 0, 0)
    ensures staged <==> Delivered(key, Some(data)).Some?
    ensures staged ==> Some(other) == Delivered(key, Some(data)) && Passed(other) && other.version == 1
  {
    hide Phase, Stage, Passed, D.Feed, D.Complete, Load, Gate;
    ghost var before := mgr.Abs();
    other := second;
    var v, pumps := ServeDownload(mgr, data, key);
    ghost var image := D.Feed(key, D.RESET, data).image;
    PhaseClose(before, first, second);
    PhaseStage(before, first, image, second);
    staged := v == Staged;
    if staged {
      other := Image(image, Load(image).value, 1);
    }
  }

  /** The account of a run: its scans, the open ends of the timeline, and whether the program has just changed. */
  datatype Book = Book(scans: seq<ScanRecord>, a: nat, b: nat, changed: bool)

  /** Everything that holds between two cycles. */
  ghost predicate Going(g: Mgr, mod: SasmModule, s: M.State, k: Book, alu: M.Alu, first: Image, second: Image, open: bool,
                        pendingSwitch: bool, switches: nat, rollbacks: nat, health: nat, window: nat) {
    && Phase(g, first, second, open, pendingSwitch, switches, rollbacks, health)
    && g.slots[g.active].Some? && mod == g.slots[g.active].value.mod
    && Timeline(k.scans, alu, first, second, k.a, k.b, window)
    && Here(|k.scans|, k.a, k.b, switches, rollbacks, health, k.changed, window)
    && Standing(k.scans, s, k.changed) && Forgiven(k.scans, k.b, rollbacks)
  }

  /** What a broken-off run still guarantees. */
  ghost predicate Kept(k: Book, alu: M.Alu, first: Image, second: Image, switches: nat, rollbacks: nat, window: nat) {
    && Timeline(k.scans, alu, first, second, k.a, k.b, window)
    && (switches == 0 ==> k.a == |k.scans|) && (rollbacks == 0 ==> k.b == |k.scans|)
  }

  lemma GoingStart(g: Mgr, mod: SasmModule, s: M.State, alu: M.Alu, first: Image, second: Image, open: bool, window: nat,
                   size: nat)
    requires Phase(g, first, second, open, false, 0, 0, 0) && s == I.Cleared(size)
    requires g.slots[g.active].Some? && mod == g.slots[g.active].value.mod
    ensures Going(g, mod, s, Book([], 0, 0, true), alu, first, second, open, false, 0, 0, 0, window)
  {
    hide Phase, Timeline, Standing, Forgiven, Here;
    StartHere(alu, first, second, window, s, size);
  }

  lemma GoingFacts(g: Mgr, mod: SasmModule, s: M.State, k: Book, alu: M.Alu, first: Image, second: Image, open: bool,
                   pendingSwitch: bool, switches: nat, rollbacks: nat, health: nat, window: nat)
    requires Going(g, mod, s, k, alu, first, second, open, pendingSwitch, switches, rollbacks, health, window)
    ensures rollbacks <= switches <= 1 && Phase(g, first, second, open, pendingSwitch, switches, rollbacks, health)
    ensures pendingSwitch ==> switches == 0 && rollbacks == 0 && !open
    ensures open ==> switches == 0 && rollbacks == 0 && health == 0 && !pendingSwitch
    ensures Forgiven(k.scans, k.b, rollbacks) && !Broke(k.scans, k.b, rollbacks)
    ensures Kept(k, alu, first, second, switches, rollbacks, window)
  {
    hide Timeline, Standing, Forgiven, Here, Broke, Inv;
    HereEnds(|k.scans|, k.a, k.b, switches, rollbacks, health, k.changed, window);
    ForgivenNotFailed(k.scans, k.b, rollbacks);
  }

  lemma GoingServed(g: Mgr, h: Mgr, mod: SasmModule, s: M.State, k: Book, alu: M.Alu, first: Image, second: Image,
                    other: Image, staged: bool, window: nat)
    requires Going(g, mod, s, k, alu, first, second, true, false, 0, 0, 0, window)
    requires Shaped(h) && h.slots[h.active] == g.slots[g.active] && Phase(h, first, other, false, staged, 0, 0, 0)
    ensures Going(h, mod, s, k, alu, first, other, false, staged, 0, 0, 0, window)
  {
    hide Phase, Timeline, Standing, Forgiven, Here;
    HereEnds(|k.scans|, k.a, k.b, 0, 0, 0, k.changed, window);
    TimelineSecond(k.scans, alu, first, second, other, k.b, window);
  }

  /** The cycle boundary with an image waiting: the switch always goes through. */
  method SwitchOver(mgr: DownloadManager, vm: I.Vm, window: nat, ghost k: Book, ghost alu: M.Alu, ghost first: Image,
                    ghost second: Image, ghost open: bool, ghost health: nat)
    returns (rc: int)
    requires mgr.Valid() && vm.Valid()
    requires Going(mgr.Abs(), vm.module_, vm.Abs(), k, alu, first, second, open, true, 0, 0, health, window)
    modifies mgr, vm, vm.memory
    ensures mgr.Valid() && vm.Valid() && rc == RC_OK
    ensures Going(mgr.Abs(), vm.module_, vm.Abs(), k.(changed := true), alu, first, second, false, false, 1, 0, window, window)
  {
    hide Phase, Timeline, Standing, Switch, Forgiven, Here, I.Cleared;
    PhaseSound(mgr.Abs(), first, second, open, true, 0, 0, health);
    HereSwitch(|k.scans|, k.a, k.b, health, k.changed, window);
    PhaseSwitch(mgr.Abs(), first, second, open, health, window);
    rc := mgr.ApplySwitch(vm);
    StandingChanged(k.scans, vm.Abs(), vm.memorySize);
  }

  /** One scan. A failure inside the window is rolled back, and always can be. */
  method ScanOnce(mgr: DownloadManager, vm: I.Vm, alu: M.Alu, health: nat, ghost k: Book, ghost first: Image,
                  ghost second: Image, ghost open: bool, ghost switches: nat, ghost rollbacks: nat, ghost window: nat)
    returns (rc: int, stray: bool, rolledBack: bool, left: nat, ghost k': Book)
    requires mgr.Valid() && vm.Valid()
    requires Going(mgr.Abs(), vm.module_, vm.Abs(), k, alu, first, second, open, false, switches, rollbacks, health, window)
    modifies mgr, vm, vm.memory, vm.valStack
    ensures mgr.Valid() && vm.Valid() && mgr.next == old(mgr.next)
    ensures rolledBack ==> rc != 0 && switches == 1 && rollbacks == 0 && !stray
    ensures !stray ==> Recorded(k, k', rc, switches, rollbacks)
    ensures stray ==> k' == k && Kept(k, alu, first, second, switches, rollbacks, window)
    ensures !stray && (rc == 0 || rolledBack) ==>
              Going(mgr.Abs(), vm.module_, vm.Abs(), k', alu, first, second, open, false, switches,
                    if rolledBack then 1 else rollbacks, left, window)
    ensures !stray && rc != 0 && !rolledBack ==>
              Broke(k'.scans, k'.b, rollbacks) && Kept(k', alu, first, second, switches, rollbacks, window)
  {
    hide Phase, Timeline, Standing, Slots.Rollback, Forgiven, Here, I.Cleared, Sound, T.Scan, Runs, Broke, Inv;
    k', left, rolledBack := k, health, false;
    PhaseSound(mgr.Abs(), first, second, open, false, switches, rollbacks, health);
    ghost var start := vm.Abs();
    ghost var image := mgr.Abs().slots[mgr.active].value;
    HereEnds(|k.scans|, k.a, k.b, switches, rollbacks, health, k.changed, window);
    rc, stray := vm.Run(alu);
    if stray { return; }
    ghost var s := ScanRecord(image, start, vm.Abs(), rc, k.changed, health > 0);
    RunsNow(s, alu);
    k' := NextBook(k, s, switches, rollbacks);
    NewScan(k.scans, s, alu, first, second, k.a, k.b, k'.a, k'.b, window, switches, rollbacks, health);
    ForgivenGrows(k.scans, s, k.b, rollbacks);
    StandingAfter(k.scans, s);
    HereScan(|k.scans|, k.a, k.b, switches, rollbacks, health, k.changed, window);
    if rc != 0 && health > 0 {
      HereRollback(|k.scans|, k.a, k.b, switches, rollbacks, health, k.changed, window);
      PhaseRollback(mgr.Abs(), first, second, open, health);
      rolledBack := mgr.Rollback(vm);
      k' := k'.(changed := true);
      StandingChanged(k'.scans, vm.Abs(), vm.memorySize);
      left := 0;
    } else {
      if health > 0 { left := health - 1; }
      if rc == 0 { PhaseWindow(mgr.Abs(), first, second, open, switches, rollbacks, health, left); }
    }
  }

  ghost function NextBook(k: Book, s: ScanRecord, switches: nat, rollbacks: nat): Book {
    Book(k.scans + [s], if switches == 0 then |k.scans| + 1 else k.a, if rollbacks == 0 then |k.scans| + 1 else k.b, false)
  }

  /** One more scan in the account, ended with `rc`; what was there stays. */
  ghost predicate Recorded(k: Book, k': Book, rc: int, switches: nat, rollbacks: nat) {
    && |k'.scans| == |k.scans| + 1 && k'.scans[..|k.scans|] == k.scans && k'.scans[|k.scans|].rc == rc
    && k'.a == (if switches == 0 then |k'.scans| else k.a) && k'.b == (if rollbacks == 0 then |k'.scans| else k.b)
  }

  lemma PhaseWindow(g: Mgr, first: Image, second: Image, open: bool, switches: nat, rollbacks: nat, health: nat, left: nat)
    requires Phase(g, first, second, open, false, switches, rollbacks, health) && left <= health
    ensures Phase(g, first, second, open, false, switches, rollbacks, left)
  {
    hide Inv;
  }

  lemma RunsNow(s: ScanRecord, alu: M.Alu)
    requires Sound(s.image.mod) && |s.start.stack| <= M.STACK_SIZE && |s.start.memory| <= MAX_MEMORY
    requires T.Scan(s.image.mod, alu, s.start) == M.Halt(s.end, s.rc)
    ensures Runs(s, alu)
  {
  }

  /** The cycle after which the stream is served. */
  function ServeAt(cfg: Config): nat {
    if cfg.downloadAt > 1 then cfg.downloadAt else 1
  }

  /** How many scans a run has if none breaks it off. */
  function Planned(cfg: Config, stopAt: nat): nat {
    if stopAt <= 1 then 0 else if cfg.maxCycles == 0 || stopAt - 1 <= cfg.maxCycles then stopAt - 1 else cfg.maxCycles
  }

  /** What a delivered image has led to after `n` scans: it waits for the switch right after the
      scan it was served behind, and has run ever since that. */
  ghost predicate OnSchedule(k: Book, n: nat, second: Image, brought: Option<Image>, at: nat, pendingSwitch: bool, switches: nat) {
    && (pendingSwitch ==> brought == Some(second) && n == at && switches == 0)
    && (switches == 1 ==> brought == Some(second) && k.a == at <= n)
    && (!pendingSwitch && switches == 0 ==> brought == None || n < at)
  }

  /** A rollback answers the failed scan just before it. */
  ghost predicate Answered(k: Book, rollbacks: nat) {
    rollbacks == 1 ==> k.a < k.b <= |k.scans| && k.scans[k.b - 1].rc != 0
  }

  /** What a run guarantees once it has started. */
  ghost predicate Outcome(exit: int, stray: bool, switches: nat, rollbacks: nat, k: Book, first: Image, second: Image,
                          alu: M.Alu, cfg: Config, stopAt: nat, brought: Option<Image>) {
    var ran := |k.scans| + if stray then 1 else 0;
    && rollbacks <= switches <= 1 && Kept(k, alu, first, second, switches, rollbacks, cfg.healthCycles)
    && (switches == 1 <==> brought.Some? && ServeAt(cfg) < ran)
    && (switches == 1 ==> brought == Some(second) && k.a == ServeAt(cfg) && Passed(second))
    && Answered(k, rollbacks)
    && exit in {EX_OK, EX_CYCLE} && (exit == EX_CYCLE <==> stray || Broke(k.scans, k.b, rollbacks))
    && (exit == EX_OK ==> |k.scans| == Planned(cfg, stopAt)) && ran <= Planned(cfg, stopAt)
    && (exit == EX_OK || stray ==> Forgiven(k.scans, k.b, rollbacks))
  }

  /** The scan loop. The stop signal is seen before cycle `stopAt`. */
  method Loop(mgr: DownloadManager, vm: I.Vm, stream: Option<seq<byte>>, key: D.Key, cfg: Config, stopAt: nat, alu: M.Alu,
              ghost first: Image)
    returns (exit: int, stray: bool, switches: nat, rollbacks: nat, ghost k: Book, ghost second: Image)
    requires mgr.Valid() && vm.Valid() && mgr.next == 1
    requires stream.Some? ==> |stream.value| < D.MAX_IMAGE
    requires Going(mgr.Abs(), vm.module_, vm.Abs(), Book([], 0, 0, true), alu, first, NO_IMAGE, stream.Some?, false, 0, 0, 0,
                   cfg.healthCycles)
    modifies mgr, vm, vm.memory, vm.valStack
    ensures Outcome(exit, stray, switches, rollbacks, k, first, second, alu, cfg, stopAt, Delivered(key, stream))
  {
    hide Phase, Timeline, Passed, Forgiven, Broke, Going, Kept, Delivered;
    exit, stray, switches, rollbacks := EX_OK, false, 0, 0;
    k, second := Book([], 0, 0, true), NO_IMAGE;
    var open := stream.Some?;
    var pendingSwitch, health: nat, cycle := false, 0, 1;
    ghost var brought := Delivered(key, stream);
    NothingBrought(key);
    while (cfg.maxCycles == 0 || cycle <= cfg.maxCycles) && cycle < stopAt
      invariant mgr.Valid() && vm.Valid()
      invariant Going(mgr.Abs(), vm.module_, vm.Abs(), k, alu, first, second, open, pendingSwitch, switches, rollbacks,
                      health, cfg.healthCycles)
      invariant cycle == |k.scans| + 1 && |k.scans| <= Planned(cfg, stopAt) && exit == EX_OK && !stray
      invariant open <==> stream.Some? && |k.scans| < ServeAt(cfg)
      invariant open ==> mgr.next == 1
      invariant OnSchedule(k, |k.scans|, second, brought, ServeAt(cfg), pendingSwitch, switches)
      invariant switches == 1 ==> ServeAt(cfg) < |k.scans|
      invariant pendingSwitch || switches == 1 ==> Passed(second)
      invariant Answered(k, rollbacks) && rollbacks <= switches <= 1
      decreases stopAt - cycle
    {
      GoingFacts(mgr.Abs(), vm.module_, vm.Abs(), k, alu, first, second, open, pendingSwitch, switches, rollbacks, health,
                 cfg.healthCycles);
      KeptEnds(k, alu, first, second, switches, rollbacks, cfg.healthCycles);
      if pendingSwitch {
        pendingSwitch := false;
        var rc := SwitchOver(mgr, vm, cfg.healthCycles, k, alu, first, second, open, health);
        if rc == RC_OK {
          switches := switches + 1;
          health := cfg.healthCycles;
        }
        k := k.(changed := true);
      }
      var rc, rolledBack;
      ghost var before := k;
      rc, stray, rolledBack, health, k := ScanOnce(mgr, vm, alu, health, k, first, second, open, switches, rollbacks,
                                                   cfg.healthCycles);
      if stray || (rc != 0 && !rolledBack) {
        exit := EX_CYCLE;
        break;
      }
      if rolledBack { rollbacks := rollbacks + 1; }
      if open && cycle >= cfg.downloadAt {
        GoingFacts(mgr.Abs(), vm.module_, vm.Abs(), k, alu, first, second, open, pendingSwitch, switches, rollbacks, health,
                   cfg.healthCycles);
        open := false;
        ghost var held, other := mgr.Abs(), second;
        pendingSwitch, other := Serve(mgr, stream.value, key, first, second);
        GoingServed(held, mgr.Abs(), vm.module_, vm.Abs(), k, alu, first, second, other, pendingSwitch, cfg.healthCycles);
        second := other;
      }
      cycle := cycle + 1;
    }
    if exit == EX_OK {
      GoingFacts(mgr.Abs(), vm.module_, vm.Abs(), k, alu, first, second, open, pendingSwitch, switches, rollbacks, health,
                 cfg.healthCycles);
    }
  }

  lemma NothingBrought(key: D.Key)
    ensures Delivered(key, None) == None
  {
  }

  lemma KeptEnds(k: Book, alu: M.Alu, first: Image, second: Image, switches: nat, rollbacks: nat, window: nat)
    requires Kept(k, alu, first, second, switches, rollbacks, window)
    ensures (switches == 0 ==> k.a == |k.scans|) && (rollbacks == 0 ==> k.b == |k.scans|)
  {
    hide Timeline;
  }

  /** `main`: cold start, download stream, scan loop. */
  method Run(raw: seq<byte>, stream: Option<seq<byte>>, key: D.Key, cfg: Config, stopAt: nat, alu: M.Alu)
    returns (exit: int, stray: bool, switches: nat, rollbacks: nat, ghost k: Book, ghost first: Image, ghost second: Image)
    ensures exit == EX_IMAGE <==> |raw| == 0 || |raw| >= D.MAX_IMAGE || Gate(raw).0 != RC_OK
    ensures exit == EX_STREAM <==>
              && !(|raw| == 0 || |raw| >= D.MAX_IMAGE || Gate(raw).0 != RC_OK)
              && stream.Some? && (|stream.value| == 0 || |stream.value| >= D.MAX_IMAGE)
    ensures exit !in {EX_IMAGE, EX_STREAM} ==>
              Load(raw).Ok? && first == First(raw)
              && Outcome(exit, stray, switches, rollbacks, k, first, second, alu, cfg, stopAt, Delivered(key, stream))
  {
    hide Sound, Load, Phase, ColdLoad, Gate, I.Cleared, Going, Delivered, Outcome;
    exit, stray, switches, rollbacks := EX_IMAGE, false, 0, 0;
    k, first, second := Book([], 0, 0, true), NO_IMAGE, NO_IMAGE;
    GateSize(raw);
    if |raw| == 0 || |raw| >= D.MAX_IMAGE { return; }
    var mgr := new DownloadManager();
    var rc := mgr.LoadImage(raw);
    ColdPhase(raw, second, stream.Some?);
    if rc != RC_OK { return; }
    first := First(raw);
    if stream.Some? && (|stream.value| == 0 || |stream.value| >= D.MAX_IMAGE) {
      exit := EX_STREAM;
      return;
    }
    PhaseSound(mgr.Abs(), first, second, stream.Some?, false, 0, 0, 0);
    var vm := new I.Vm(mgr.slots[mgr.active].mod, MAX_MEMORY);
    GoingStart(mgr.Abs(), vm.module_, vm.Abs(), alu, first, second, stream.Some?, cfg.healthCycles,
               I.MemorySize(vm.module_, MAX_MEMORY));
    exit, stray, switches, rollbacks, k, second := Loop(mgr, vm, stream, key, cfg, stopAt, alu, first);
    OutcomeExit(exit, stray, switches, rollbacks, k, first, second, alu, cfg, stopAt, Delivered(key, stream));
  }

  lemma OutcomeExit(exit: int, stray: bool, switches: nat, rollbacks: nat, k: Book, first: Image, second: Image,
                    alu: M.Alu, cfg: Config, stopAt: nat, brought: Option<Image>)
    requires Outcome(exit, stray, switches, rollbacks, k, first, second, alu, cfg, stopAt, brought)
    ensures exit in {EX_OK, EX_CYCLE}
  {
  }
}
