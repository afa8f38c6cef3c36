/** `force.c`: stimulus records sorted once, then followed by one cursor per name. */
module Force {
  import opened Bytes
  import opened Results

  const MAX_TARGETS := 64
  const MAX_RECORDS := 64

  datatype Record = Record(cycle: u32, target: nat, bits: u32, raw: int)

  datatype Target = Target(name: string, addr: u32, channel: int, fromCli: bool, first: nat, count: nat, taken: nat,
                           active: int)

  const NO_TARGET := Target("", 0, -1, false, 0, 0, 0, -1)
  const NO_RECORD := Record(0, 0, 0, 0)

  // ---------- the order of the records ----------

  /** By target, then by cycle. */
  predicate Before(a: Record, b: Record) {
    a.target < b.target || (a.target == b.target && a.cycle < b.cycle)
  }

  ghost predicate Ascending(rs: seq<Record>) {
    forall i, j :: 0 <= i < j < |rs| ==> Before(rs[i], rs[j])
  }

  ghost predicate Unique(rs: seq<Record>) {
    forall i, j :: 0 <= i < j < |rs| ==> rs[i].target != rs[j].target || rs[i].cycle != rs[j].cycle
  }

  /** `r` placed before the first record it precedes. */
  function Insert(rs: seq<Record>, r: Record): (more: seq<Record>)
    ensures |more| == |rs| + 1
  {
    if rs == [] || !Before(r, rs[|rs| - 1]) then rs + [r]
    else Insert(rs[..|rs| - 1], r) + [rs[|rs| - 1]]
  }

  function Sorted(rs: seq<Record>): (sorted: seq<Record>)
    ensures |sorted| == |rs|
  {
    if rs == [] then [] else Insert(Sorted(rs[..|rs| - 1]), rs[|rs| - 1])
  }

  lemma {:induction false} InsertKeeps(rs: seq<Record>, r: Record)
    ensures forall x :: x in Insert(rs, r) <==> x in rs || x == r
    ensures multiset(Insert(rs, r)) == multiset(rs) + multiset{r}
    ensures Ascending(rs) && NewKey(rs, r) ==> Ascending(Insert(rs, r))
  {
    if rs != [] && Before(r, rs[|rs| - 1]) {
      var front, last := rs[..|rs| - 1], rs[|rs| - 1];
      assert rs == front + [last];
      InsertKeeps(front, r);
      if Ascending(rs) && NewKey(rs, r) {
        AscendingEnd(front, Insert(front, r), r, last);
      }
    } else if rs != [] && Ascending(rs) && NewKey(rs, r) {
      assert rs[|rs| - 1] in rs && Before(rs[|rs| - 1], r);
    }
  }

  lemma AscendingEnd(front: seq<Record>, more: seq<Record>, r: Record, last: Record)
    requires Ascending(front + [last]) && Ascending(more) && Before(r, last)
    requires forall x :: x in more <==> x in front || x == r
    ensures Ascending(more + [last])
  {
    forall x | x in more ensures Before(x, last) {
      if x in front {
        var i :| 0 <= i < |front| && front[i] == x;
        assert Before((front + [last])[i], (front + [last])[|front|]);
      }
    }
    forall i, j | 0 <= i < j < |more| + 1 ensures Before((more + [last])[i], (more + [last])[j]) {
      if j == |more| { assert more[i] in more; }
    }
  }

  /** No record of `rs` has the key of `r`. */
  ghost predicate NewKey(rs: seq<Record>, r: Record) {
    forall x <- rs :: x.target != r.target || x.cycle != r.cycle
  }

  lemma NewKeyIs(rs: seq<Record>, r: Record)
    requires !exists x <- rs :: x.target == r.target && x.cycle == r.cycle
    ensures NewKey(rs, r)
  {
  }

  lemma UniqueFront(rs: seq<Record>)
    requires rs != [] && Unique(rs)
    ensures Unique(rs[..|rs| - 1]) && NewKey(rs[..|rs| - 1], rs[|rs| - 1])
  {
    forall x | x in rs[..|rs| - 1] ensures x.target != rs[|rs| - 1].target || x.cycle != rs[|rs| - 1].cycle {
      var i :| 0 <= i < |rs| - 1 && rs[i] == x;
    }
  }

  lemma NewKeyIn(a: seq<Record>, b: seq<Record>, r: Record)
    requires NewKey(a, r) && forall x :: x in b <==> x in a
    ensures NewKey(b, r)
  {
  }

  /** Sorting keeps the records, and puts distinct ones in strictly ascending order. */
  lemma {:induction false} SortedKeeps(rs: seq<Record>)
    ensures multiset(Sorted(rs)) == multiset(rs) && forall x :: x in Sorted(rs) <==> x in rs
    ensures Unique(rs) ==> Ascending(Sorted(rs))
  {
    hide Unique, Insert, NewKey;
    if rs != [] {
      var front, last := rs[..|rs| - 1], rs[|rs| - 1];
      assert rs == front + [last];
      SortedKeeps(front);
      InsertKeeps(Sorted(front), last);
      if Unique(rs) {
        UniqueFront(rs);
        NewKeyIn(front, Sorted(front), last);
      }
    }
  }

  // ---------- the plain scan ----------

  /** The record in force for a target at a cycle: the latest one not above it. */
  function Latest(rs: seq<Record>, t: nat, cycle: u32): Option<Record> {
    if rs == [] then None
    else
      var (best, r) := (Latest(rs[..|rs| - 1], t, cycle), rs[|rs| - 1]);
      if r.target == t && r.cycle <= cycle && (best == None || best.value.cycle < r.cycle) then Some(r) else best
  }

  lemma {:induction false} LatestIs(rs: seq<Record>, t: nat, cycle: u32)
    ensures var best := Latest(rs, t, cycle);
            && (best == None ==> forall x <- rs :: !(x.target == t && x.cycle <= cycle))
            && (best.Some? ==> best.value in rs && best.value.target == t && best.value.cycle <= cycle
                               && forall x <- rs :: x.target == t && x.cycle <= cycle ==> x.cycle <= best.value.cycle)
  {
    if rs != [] {
      LatestIs(rs[..|rs| - 1], t, cycle);
      assert rs == rs[..|rs| - 1] + [rs[|rs| - 1]];
    }
  }

  /** On distinct records the scan does not depend on their order. */
  lemma LatestUnordered(a: seq<Record>, b: seq<Record>, t: nat, cycle: u32)
    requires Unique(a) && forall x :: x in a <==> x in b
    ensures Latest(a, t, cycle) == Latest(b, t, cycle)
  {
    LatestIs(a, t, cycle);
    LatestIs(b, t, cycle);
    var x, y := Latest(a, t, cycle), Latest(b, t, cycle);
    if x.Some? && y.Some? {
      SameKey(a, x.value, y.value);
    }
  }

  lemma SameKey(rs: seq<Record>, x: Record, y: Record)
    requires Unique(rs) && x in rs && y in rs
    ensures x.target == y.target && x.cycle == y.cycle ==> x == y
  {
  }

  // ---------- adding a record ----------

  ghost predicate Named(ts: seq<Target>, name: string) {
    exists i :: 0 <= i < |ts| && ts[i].name == name
  }

  /** The targets after a name has come up: an unknown one is entered as soon as the symbol table knows it. */
  ghost function Resolved(ts: seq<Target>, name: string, fromCli: bool, slot: Option<(u32, int)>): seq<Target> {
    if Named(ts, name) || slot == None || |ts| >= MAX_TARGETS then ts
    else ts + [Target(name, slot.value.0, slot.value.1, fromCli, 0, 0, 0, -1)]
  }

  /** The name stands for a channel of the plant. */
  ghost predicate OnChannel(ts: seq<Target>, name: string) {
    exists i :: 0 <= i < |ts| && ts[i].name == name && ts[i].channel >= 0
  }

  /** The name resolves, and is not declared twice or by both sources. */
  ghost predicate NameOk(ts: seq<Target>, name: string, fromCli: bool, slot: Option<(u32, int)>) {
    && Named(Resolved(ts, name, fromCli, slot), name)
    && (Named(ts, name) ==> !fromCli && forall i :: 0 <= i < |ts| && ts[i].name == name ==> !ts[i].fromCli)
  }

  /** In terms of target numbers: the records of a name are those of its target. */
  lemma SameTargets(ts: seq<Target>, rs: seq<Record>, name: string, fromCli: bool, slot: Option<(u32, int)>, t: nat, cycle: u32)
    requires forall r <- rs :: r.target < |ts|
    requires forall i, j :: 0 <= i < j < |ts| ==> ts[i].name != ts[j].name
    requires t < |Resolved(ts, name, fromCli, slot)| && Resolved(ts, name, fromCli, slot)[t].name == name
    ensures (exists r <- rs :: r.target == t && r.cycle == cycle) <==>
            !(forall r <- rs :: r.cycle == cycle && r.target < |ts| ==> ts[r.target].name != name)
  {
    if t < |ts| {
      assert ts[t].name == name;
    }
  }

  predicate RecordOk(onChannel: bool, count: nat, cycle: u32, value: Option<(u32, int)>, range: Option<(int, int)>) {
    && value.Some? && cycle >= 1 && count < MAX_RECORDS
    && (range.Some? && onChannel ==> range.value.0 <= value.value.1 <= range.value.1)
  }

  lemma AcceptsSplit(ts: seq<Target>, rs: seq<Record>, name: string, fromCli: bool, cycle: u32, slot: Option<(u32, int)>,
                     value: Option<(u32, int)>, range: Option<(int, int)>)
    ensures Accepts(ts, rs, name, fromCli, cycle, slot, value, range) <==>
              && NameOk(ts, name, fromCli, slot)
              && RecordOk(OnChannel(Resolved(ts, name, fromCli, slot), name), |rs|, cycle, value, range)
              && (forall r <- rs :: r.cycle == cycle && r.target < |ts| ==> ts[r.target].name != name)
  {
    hide NameOk, RecordOk, OnChannel, Resolved;
  }

  /** What makes a record acceptable: a name that resolves and is not declared twice or by both sources,
      a value of its type inside the physical range, and a cycle the name has no record for yet. */
  ghost predicate Accepts(ts: seq<Target>, rs: seq<Record>, name: string, fromCli: bool, cycle: u32, slot: Option<(u32, int)>,
                          value: Option<(u32, int)>, range: Option<(int, int)>) {
    && NameOk(ts, name, fromCli, slot)
    && RecordOk(OnChannel(Resolved(ts, name, fromCli, slot), name), |rs|, cycle, value, range)
    && (forall r <- rs :: r.cycle == cycle && r.target < |ts| ==> ts[r.target].name != name)
  }

  // ---------- the table ----------

  class ForceTable {
    const targets: array<Target>
    var targetCount: nat
    const records: array<Record>
    var recordCount: nat

    ghost predicate Valid()
      reads this, targets, records
    {
      && targets.Length == MAX_TARGETS && records.Length == MAX_RECORDS
      && targetCount <= MAX_TARGETS && recordCount <= MAX_RECORDS
      && Unique(records[..recordCount])
      && (forall i :: 0 <= i < recordCount ==> records[i].target < targetCount && records[i].cycle >= 1)
      && (forall i, j :: 0 <= i < j < targetCount ==> targets[i].name != targets[j].name)
    }

    /** No cursor has moved yet. */
    ghost predicate Unstarted()
      requires targets.Length == MAX_TARGETS && targetCount <= MAX_TARGETS
      reads this, targets
    {
      forall t :: 0 <= t < targetCount ==> targets[t].taken == 0 && targets[t].active == -1
    }

    constructor ()
      ensures Valid() && fresh(targets) && fresh(records) && targetCount == 0 && recordCount == 0 && Unstarted()
    {
      targets := new Target[MAX_TARGETS](_ => NO_TARGET);
      records := new Record[MAX_RECORDS](_ => NO_RECORD);
      targetCount, recordCount := 0, 0;
    }

    method FindTarget(name: string) returns (t: Option<nat>)
      requires Valid()
      ensures t.Some? ==> t.value < targetCount && targets[t.value].name == name
      ensures t == None ==> forall i :: 0 <= i < targetCount ==> targets[i].name != name
    {
      for i := 0 to targetCount
        invariant forall k :: 0 <= k < i ==> targets[k].name != name
      {
        if targets[i].name == name { return Some(i); }
      }
      return None;
    }

    /** The name looked up, entered if it is new, and its source checked. */
    method Resolve(name: string, fromCli: bool, slot: Option<(u32, int)>) returns (t: Option<nat>)
      requires Valid()
      modifies `targetCount, targets
      ensures Valid() && (old(Unstarted()) ==> Unstarted())
      ensures targets[..targetCount] == Resolved(old(targets[..targetCount]), name, fromCli, slot)
      ensures t.Some? <==> NameOk(old(targets[..targetCount]), name, fromCli, slot)
      ensures t.Some? ==> t.value < targetCount && targets[t.value].name == name
    {
      ghost var ts := targets[..targetCount];
      t := FindTarget(name);
      if t == None {
        assert !Named(ts, name);
        if slot == None || targetCount >= MAX_TARGETS { return; }
        targets[targetCount] := Target(name, slot.value.0, slot.value.1, fromCli, 0, 0, 0, -1);
        t := Some(targetCount);
        targetCount := targetCount + 1;
        assert targets[..targetCount] == ts + [targets[t.value]];
      } else {
        assert ts[t.value].name == name;
        if targets[t.value].fromCli != fromCli || fromCli { return None; }
      }
    }

    method HasRecord(t: nat, cycle: u32) returns (has: bool)
      requires Valid()
      ensures has <==> exists r <- records[..recordCount] :: r.target == t && r.cycle == cycle
    {
      for i := 0 to recordCount
        invariant forall k :: 0 <= k < i ==> records[k].target != t || records[k].cycle != cycle
      {
        if records[i].target == t && records[i].cycle == cycle {
          assert records[..recordCount][i] == records[i];
          return true;
        }
      }
      return false;
    }

    method Append(r: Record)
      requires Valid() && recordCount < MAX_RECORDS && NewKey(records[..recordCount], r)
      requires r.target < targetCount && r.cycle >= 1
      modifies `recordCount, records
      ensures Valid() && recordCount == old(recordCount) + 1
      ensures records[..recordCount] == old(records[..recordCount]) + [r]
    {
      records[recordCount] := r;
      recordCount := recordCount + 1;
      assert records[..recordCount] == old(records[..recordCount]) + [r];
    }

    /** `force_add`. What the symbol table, the value parser and the plant say about the name is
        given: its slot and channel, its value, and the range of its channel. */
    method Add(name: string, fromCli: bool, cycle: u32, slot: Option<(u32, int)>, value: Option<(u32, int)>,
               range: Option<(int, int)>)
      returns (rc: int)
      requires Valid()
      modifies this, targets, records
      ensures Valid() && rc in {0, -1} && (old(Unstarted()) ==> Unstarted())
      ensures rc == 0 <==> Accepts(old(targets[..targetCount]), old(records[..recordCount]), name, fromCli, cycle, slot, value, range)
      ensures targets[..targetCount] == Resolved(old(targets[..targetCount]), name, fromCli, slot)
      ensures rc == -1 ==> records[..recordCount] == old(records[..recordCount])
      ensures rc == 0 ==>
                && recordCount == old(recordCount) + 1
                && var r := records[old(recordCount)];
                   && records[..recordCount] == old(records[..recordCount]) + [r]
                   && r.target < targetCount && targets[r.target].name == name
                   && r == Record(cycle, r.target, value.value.0, value.value.1)
    {
      hide Valid, Accepts, RecordOk, Named, OnChannel, NameOk, Resolved;
      InTable();
      ghost var ts, rs := targets[..targetCount], records[..recordCount];
      AcceptsSplit(ts, rs, name, fromCli, cycle, slot, value, range);
      var found := Resolve(name, fromCli, slot);
      InTable();
      if found == None { return -1; }
      ChannelIs(targets[..targetCount], found.value, name);
      SameTargets(ts, rs, name, fromCli, slot, found.value, cycle);
      rc := AddRecord(found.value, cycle, value, range);
      InTable();
    }

    /** The rest of `force_add`, once the target is known. */
    method AddRecord(t: nat, cycle: u32, value: Option<(u32, int)>, range: Option<(int, int)>) returns (rc: int)
      requires Valid() && t < targetCount
      modifies `recordCount, records
      ensures Valid() && rc in {0, -1}
      ensures rc == 0 <==> && RecordOk(targets[t].channel >= 0, |old(records[..recordCount])|, cycle, value, range)
                           && !exists r <- old(records[..recordCount]) :: r.target == t && r.cycle == cycle
      ensures rc == -1 ==> recordCount == old(recordCount) && records[..recordCount] == old(records[..recordCount])
      ensures rc == 0 ==> value.Some? && recordCount == old(recordCount) + 1
                          && records[..recordCount] == old(records[..recordCount]) + [Record(cycle, t, value.value.0, value.value.1)]
    {
      hide Unique, NewKey;
      ghost var rs := records[..recordCount];
      if value == None { return -1; }
      var (bits, raw) := value.value;
      if targets[t].channel >= 0 && range.Some? && (raw < range.value.0 || raw > range.value.1) { return -1; }
      if cycle < 1 || recordCount >= MAX_RECORDS { return -1; }
      var has := HasRecord(t, cycle);
      if has { return -1; }
      NewKeyIs(rs, Record(cycle, t, bits, raw));
      Append(Record(cycle, t, bits, raw));
      return 0;
    }

    lemma InTable()
      requires Valid()
      ensures targetCount <= targets.Length && recordCount <= records.Length
      ensures forall r <- records[..recordCount] :: r.target < |targets[..targetCount]|
      ensures forall i, j :: 0 <= i < j < targetCount ==> targets[..targetCount][i].name != targets[..targetCount][j].name
    {
    }

    lemma ChannelIs(ts: seq<Target>, t: nat, name: string)
      requires Valid() && ts == targets[..targetCount] && t < targetCount && targets[t].name == name
      ensures Named(ts, name) && (OnChannel(ts, name) <==> targets[t].channel >= 0)
    {
      assert ts[t].name == name;
    }

    /** Shift one record down to its place among the sorted ones before it. */
    method PlaceOne(i: nat)
      requires records.Length == MAX_RECORDS && i < recordCount <= MAX_RECORDS
      modifies records
      ensures records[..i + 1] == Insert(old(records[..i]), old(records[i]))
      ensures records[i + 1..] == old(records[i + 1..])
    {
      hide Insert, Before;
      var key := records[i];
      var j := i;
      ghost var s := records[..i];
      InsertWhole(s, key);
      while j > 0 && Before(key, records[j - 1])
        invariant 0 <= j <= i
        invariant records[..j] == s[..j] && records[j + 1..i + 1] == s[j..]
        invariant records[i + 1..] == old(records[i + 1..])
        invariant Insert(s, key) == Insert(s[..j], key) + s[j..]
      {
        InsertStep(s, key, j);
        Shift(j, i, s);
        j := j - 1;
      }
      InsertHere(s[..j], key);
      records[j] := key;
      assert records[..i + 1] == records[..j] + [key] + records[j + 1..i + 1];
    }

    method Shift(j: nat, i: nat, ghost s: seq<Record>)
      requires records.Length == MAX_RECORDS && 0 < j <= i < MAX_RECORDS && |s| == i
      requires records[..j] == s[..j] && records[j + 1..i + 1] == s[j..]
      modifies records
      ensures records[..j - 1] == s[..j - 1] && records[j..i + 1] == s[j - 1..]
      ensures records[i + 1..] == old(records[i + 1..])
    {
      records[j] := records[j - 1];
      assert records[j] == s[j - 1] && records[j..i + 1] == [s[j - 1]] + s[j..];
    }

    /** The insertion sort of `force_sort`. */
    method SortRecords()
      requires records.Length == MAX_RECORDS && recordCount <= MAX_RECORDS
      modifies records
      ensures records[..recordCount] == Sorted(old(records[..recordCount]))
    {
      hide Sorted, Insert;
      ghost var rs := records[..recordCount];
      SortedOne(rs);
      if recordCount == 0 { return; }
      for i := 1 to recordCount
        invariant records[..i] == Sorted(rs[..i])
        invariant records[i..recordCount] == rs[i..]
      {
        SortedStep(rs, i);
        assert records[i] == records[i..recordCount][0] == rs[i];
        ghost var all := records[..];
        SliceTail(all, i, recordCount);
        PlaceOne(i);
        SliceTail(records[..], i, recordCount);
        assert records[i + 1..recordCount] == rs[i..][1..] == rs[i + 1..];
      }
      assert rs[..recordCount] == rs;
    }

    /** Sorting the records of a valid table leaves it valid. */
    method SortTable()
      requires Valid()
      modifies records
      ensures Valid() && Ascending(records[..recordCount]) && records[..recordCount] == Sorted(old(records[..recordCount]))
    {
      hide Sorted, Insert, Before;
      ghost var rs := records[..recordCount];
      SortRecords();
      SortedKeeps(rs);
      AscendingUnique(Sorted(rs));
      forall i | 0 <= i < recordCount ensures records[i].target < targetCount && records[i].cycle >= 1 {
        assert records[..recordCount][i] in Sorted(rs);
        var k :| 0 <= k < |rs| && rs[k] == records[i];
      }
    }

    /** The records of each target lie side by side. */
    ghost predicate Indexed()
      reads this, targets, records
    {
      && targets.Length == MAX_TARGETS && records.Length == MAX_RECORDS
      && targetCount <= MAX_TARGETS && recordCount <= MAX_RECORDS && Ascending(records[..recordCount])
      && forall t :: 0 <= t < targetCount ==> Segment(records[..recordCount], t, targets[t].first, targets[t].count)
    }

    /** The first `i` records are accounted for. */
    ghost predicate SegmentsTo(i: nat)
      requires targets.Length == MAX_TARGETS && targetCount <= MAX_TARGETS && i <= records.Length
      reads this, targets, records
    {
      forall t :: 0 <= t < targetCount ==> Segment(records[..i], t, targets[t].first, targets[t].count)
    }

    method CountOne(i: nat)
      requires Valid() && Ascending(records[..recordCount]) && i < recordCount && SegmentsTo(i)
      modifies targets
      ensures SegmentsTo(i + 1) && Kept(old(targets[..targetCount]), targets[..targetCount])
    {
      hide Segment, Ascending, Unique;
      var t := records[i].target;
      ghost var rs := records[..recordCount];
      assert rs[..i] == records[..i] && rs[..i + 1] == records[..i + 1];
      SegmentGrows(rs, i, t, targets[t].first, targets[t].count);
      forall u | 0 <= u < targetCount && u != t
        ensures Segment(rs[..i + 1], u, targets[u].first, targets[u].count)
      {
        SegmentSkips(rs, i, u, targets[u].first, targets[u].count);
      }
      if targets[t].count == 0 { targets[t] := targets[t].(first := i); }
      targets[t] := targets[t].(count := targets[t].count + 1);
    }

    /** The second half of `force_sort`: where each target's records begin, and how many there are. */
    method IndexRecords()
      requires Valid() && Ascending(records[..recordCount])
      modifies targets
      ensures Indexed() && Kept(old(targets[..targetCount]), targets[..targetCount])
    {
      hide Ascending, Unique;
      ghost var before := targets[..targetCount];
      for t := 0 to targetCount
        invariant Kept(before, targets[..targetCount])
        invariant forall k :: 0 <= k < t ==> targets[k].first == 0 && targets[k].count == 0
      {
        targets[t] := targets[t].(first := 0, count := 0);
      }
      KeptValid(before);
      for i := 0 to recordCount
        invariant Kept(before, targets[..targetCount]) && Valid() && SegmentsTo(i)
      {
        ghost var mid := targets[..targetCount];
        CountOne(i);
        KeptTwice(before, mid, targets[..targetCount]);
        KeptValid(before);
      }
    }

    /** Names are all that validity asks of the targets. */
    lemma KeptValid(before: seq<Target>)
      requires targets.Length == MAX_TARGETS && records.Length == MAX_RECORDS && targetCount <= MAX_TARGETS
      requires recordCount <= MAX_RECORDS && Unique(records[..recordCount])
      requires forall i :: 0 <= i < recordCount ==> records[i].target < targetCount && records[i].cycle >= 1
      requires forall i, j :: 0 <= i < j < |before| ==> before[i].name != before[j].name
      requires Kept(before, targets[..targetCount])
      ensures Valid()
    {
      hide Unique;
      forall i | 0 <= i < targetCount ensures targets[i].name == before[i].name {
        assert targets[..targetCount][i] == targets[i];
      }
    }

    /** `force_sort`. */
    method Sort()
      requires Valid()
      modifies targets, records
      ensures Indexed() && Valid() && records[..recordCount] == Sorted(old(records[..recordCount]))
      ensures Kept(old(targets[..targetCount]), targets[..targetCount])
      ensures old(Unstarted()) ==> Standing(0)
    {
      hide Segment, Ascending, Unique, At, Sorted;
      ghost var before := targets[..targetCount];
      SortTable();
      IndexRecords();
      KeptValid(before);
      if old(Unstarted()) {
        assert forall t :: 0 <= t < targetCount ==> targets[..targetCount][t] == targets[t];
        StartAll();
      }
    }

    lemma StartAll()
      requires Valid() && Indexed() && Unstarted()
      ensures Standing(0)
    {
      hide Unique, Ascending;
      forall t | 0 <= t < targetCount ensures At(records[..recordCount], targets[t], 0) {
        StartAt(records[..recordCount], t, targets[t]);
      }
    }

    /** The cursors stand where the records up to `cycle` end. */
    ghost predicate Standing(cycle: u32)
      requires Indexed()
      reads this, targets, records
    {
      forall t :: 0 <= t < targetCount ==> At(records[..recordCount], targets[t], cycle)
    }

    /** One cursor of `force_begin_cycle`: it passes the records that are due. */
    method Advance(t: nat, cycle: u32, ghost before: u32)
      requires targets.Length == MAX_TARGETS && records.Length == MAX_RECORDS && recordCount <= MAX_RECORDS
      requires t < MAX_TARGETS && Ascending(records[..recordCount])
      requires Segment(records[..recordCount], t, targets[t].first, targets[t].count)
      requires At(records[..recordCount], targets[t], before)
      modifies targets
      ensures forall u :: 0 <= u < MAX_TARGETS && u != t ==> targets[u] == old(targets[u])
      ensures targets[t] == old(targets[t]).(taken := targets[t].taken, active := targets[t].active)
      ensures At(records[..recordCount], targets[t], if cycle > before then cycle else before)
      ensures old(targets[t].taken) <= targets[t].taken <= targets[t].count
    {
      hide Segment;
      ghost var rs, start, now := records[..recordCount], targets[t], if cycle > before then cycle else before;
      while targets[t].taken < targets[t].count
        invariant forall u :: 0 <= u < MAX_TARGETS && u != t ==> targets[u] == old(targets[u])
        invariant targets[t] == start.(taken := targets[t].taken, active := targets[t].active)
        invariant start.taken <= targets[t].taken <= start.count && Passed(rs, targets[t], now)
        decreases start.count - targets[t].taken
      {
        var index := targets[t].first + targets[t].taken;
        if records[index].cycle > cycle { break; }
        targets[t] := targets[t].(active := index, taken := targets[t].taken + 1);
      }
      PassedAt(rs, t, start, targets[t], before, cycle);
    }

    /** `force_begin_cycle`: all cursors. */
    method BeginCycle(cycle: u32, ghost before: u32)
      requires Indexed() && Standing(before)
      modifies targets
      ensures Indexed() && Standing(if cycle > before then cycle else before)
      ensures forall t :: 0 <= t < targetCount ==>
                targets[t] == old(targets[t]).(taken := targets[t].taken, active := targets[t].active)
      ensures forall t :: 0 <= t < targetCount ==> old(targets[t].taken) <= targets[t].taken <= targets[t].count
    {
      hide Segment, At, Passed, Ascending;
      ghost var rs, now := records[..recordCount], if cycle > before then cycle else before;
      ghost var start := targets[..targetCount];
      for t := 0 to targetCount
        invariant forall u :: 0 <= u < targetCount ==>
                    targets[u] == start[u].(taken := targets[u].taken, active := targets[u].active)
        invariant forall u :: 0 <= u < t ==> At(rs, targets[u], now) && start[u].taken <= targets[u].taken <= targets[u].count
        invariant forall u :: t <= u < targetCount ==> targets[u] == start[u]
      {
        assert At(rs, start[t], before);
        Advance(t, cycle, before);
      }
    }

    /** Any calls in any order: the cursors stand at the highest cycle called. */
    method Play(cycles: seq<u32>) returns (ghost reached: u32)
      requires Indexed() && Standing(0)
      modifies targets
      ensures Indexed() && Standing(reached)
      ensures (forall c <- cycles :: c <= reached) && (reached == 0 || reached in cycles)
    {
      hide Standing;
      reached := 0;
      for i := 0 to |cycles|
        invariant Indexed() && Standing(reached)
        invariant (forall k :: 0 <= k < i ==> cycles[k] <= reached) && (reached == 0 || reached in cycles)
      {
        BeginCycle(cycles[i], reached);
        reached := if cycles[i] > reached then cycles[i] else reached;
      }
    }

    /** What is in force for a target: the record the plain scan of the unsorted list finds. */
    lemma InForce(rs: seq<Record>, t: nat, cycle: u32)
      requires Indexed() && Standing(cycle) && t < targetCount
      requires Unique(rs) && records[..recordCount] == Sorted(rs)
      ensures targets[t].active < recordCount
      ensures Latest(rs, t, cycle) == if targets[t].active < 0 then None else Some(records[targets[t].active])
    {
      SortedKeeps(rs);
      AscendingUnique(Sorted(rs));
      LatestUnordered(Sorted(rs), rs, t, cycle);
      assert At(Sorted(rs), targets[t], cycle);
      AtIsLatest(Sorted(rs), t, targets[t], cycle);
    }
  }

  /** Exactly the positions from `first` on, `count` of them, belong to target `t`. */
  ghost predicate Segment(rs: seq<Record>, t: nat, first: nat, count: nat) {
    first + count <= |rs| && forall i :: 0 <= i < |rs| ==> (rs[i].target == t <==> first <= i < first + count)
  }

  /** Only the segments of the targets may differ. */
  ghost predicate Kept(a: seq<Target>, b: seq<Target>) {
    |a| == |b| && forall i :: 0 <= i < |a| ==> b[i] == a[i].(first := b[i].first, count := b[i].count)
  }

  /** As many records are passed as are due at `cycle`, and the last passed is in force. */
  ghost predicate At(rs: seq<Record>, target: Target, cycle: u32) {
    && Passed(rs, target, cycle)
    && forall i :: target.first + target.taken <= i < target.first + target.count ==> rs[i].cycle > cycle
  }

  /** Only records due at `cycle` are passed. */
  ghost predicate Passed(rs: seq<Record>, target: Target, cycle: u32) {
    && target.first + target.count <= |rs| && target.taken <= target.count
    && target.active == (if target.taken == 0 then -1 else target.first + target.taken - 1)
    && forall i :: target.first <= i < target.first + target.taken ==> rs[i].cycle <= cycle
  }

  lemma KeptTwice(a: seq<Target>, b: seq<Target>, c: seq<Target>)
    requires Kept(a, b) && Kept(b, c)
    ensures Kept(a, c)
  {
  }

  lemma StartAt(rs: seq<Record>, t: nat, target: Target)
    requires Segment(rs, t, target.first, target.count) && target.taken == 0 && target.active == -1
    requires forall i :: 0 <= i < |rs| ==> rs[i].cycle >= 1
    ensures At(rs, target, 0)
  {
  }

  lemma SegmentGrows(rs: seq<Record>, i: nat, t: nat, first: nat, count: nat)
    requires i < |rs| && Ascending(rs) && rs[i].target == t && Segment(rs[..i], t, first, count)
    ensures Segment(rs[..i + 1], t, if count == 0 then i else first, count + 1)
  {
    if count > 0 {
      assert rs[..i][first].target == t;
      forall k | first < k < i ensures rs[..i][k].target == t {
        assert Before(rs[first], rs[k]) && Before(rs[k], rs[i]);
      }
      SegmentEnds(rs[..i], t, first, count);
    }
  }

  lemma SegmentEnds(rs: seq<Record>, t: nat, first: nat, count: nat)
    requires Segment(rs, t, first, count) && forall k :: first <= k < |rs| ==> rs[k].target == t
    requires count > 0
    ensures first + count == |rs|
  {
    assert rs[|rs| - 1].target == t;
  }

  lemma SegmentSkips(rs: seq<Record>, i: nat, u: nat, first: nat, count: nat)
    requires i < |rs| && rs[i].target != u && Segment(rs[..i], u, first, count)
    ensures Segment(rs[..i + 1], u, first, count)
  {
  }

  lemma AscendingUnique(rs: seq<Record>)
    requires Ascending(rs)
    ensures Unique(rs)
  {
  }

  lemma PassedAt(rs: seq<Record>, t: nat, old_: Target, target: Target, before: u32, cycle: u32)
    requires Ascending(rs) && Segment(rs, t, target.first, target.count) && At(rs, old_, before)
    requires old_.first == target.first && old_.count == target.count && old_.taken <= target.taken
    requires Passed(rs, target, if cycle > before then cycle else before)
    requires target.taken < target.count ==> rs[target.first + target.taken].cycle > cycle
    ensures At(rs, target, if cycle > before then cycle else before)
  {
    forall i | target.first + target.taken <= i < target.first + target.count
      ensures rs[i].cycle > (if cycle > before then cycle else before)
    {
      if i > target.first + target.taken {
        assert Before(rs[target.first + target.taken], rs[i]);
      }
    }
  }

  lemma AtIsLatest(rs: seq<Record>, t: nat, target: Target, cycle: u32)
    requires Ascending(rs) && Segment(rs, t, target.first, target.count) && At(rs, target, cycle)
    ensures target.active < |rs|
    ensures Latest(rs, t, cycle) == if target.active < 0 then None else Some(rs[target.active])
  {
    LatestIs(rs, t, cycle);
    AscendingUnique(rs);
    forall x | x in rs && x.target == t && x.cycle <= cycle
      ensures target.taken > 0 && x.cycle <= rs[target.active].cycle
    {
      var i :| 0 <= i < |rs| && rs[i] == x;
      assert target.first <= i < target.first + target.count;
      assert i < target.first + target.taken;
      if i < target.active { assert Before(rs[i], rs[target.active]); }
    }
    if target.taken > 0 {
      assert rs[target.active].cycle <= cycle && rs[target.active] in rs;
      var best := Latest(rs, t, cycle);
      SameKey(rs, best.value, rs[target.active]);
    }
  }

  lemma InsertWhole(s: seq<Record>, key: Record)
    ensures Insert(s, key) == Insert(s[..|s|], key) + s[|s|..]
  {
    assert s[..|s|] == s;
  }

  lemma InsertStep(s: seq<Record>, key: Record, j: nat)
    requires 0 < j <= |s| && Before(key, s[j - 1])
    ensures Insert(s[..j], key) + s[j..] == Insert(s[..j - 1], key) + s[j - 1..]
  {
    assert s[..j][..j - 1] == s[..j - 1];
    assert s[j - 1..] == [s[j - 1]] + s[j..];
  }

  lemma InsertHere(s: seq<Record>, key: Record)
    requires s == [] || !Before(key, s[|s| - 1])
    ensures Insert(s, key) == s + [key]
  {
  }

  lemma SliceTail(s: seq<Record>, i: nat, n: nat)
    requires i < n <= |s|
    ensures s[i + 1..n] == s[i + 1..][..n - i - 1] == s[i..n][1..]
  {
  }

  lemma SortedStep(rs: seq<Record>, i: nat)
    requires i < |rs|
    ensures Sorted(rs[..i + 1]) == Insert(Sorted(rs[..i]), rs[i])
  {
    assert rs[..i + 1][..i] == rs[..i];
  }

  lemma SortedOne(rs: seq<Record>)
    ensures rs == [] ==> Sorted(rs) == []
    ensures rs != [] ==> Sorted(rs[..1]) == rs[..1]
  {
    if rs != [] {
      SortedStep(rs, 0);
      assert Insert([], rs[0]) == rs[..1];
    }
  }
}
