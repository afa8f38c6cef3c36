/** `plant.c`: the simulated plant, stepped in place, row by row. Doubles are real numbers here. */
module Plant {
  import opened Bytes
  import opened Results
  import Orders

  const MAX_CHANNELS := 64
  const NO_DRIVE := -1

  datatype Kind = Const | Lag | Ramp | Actuator

  datatype Channel = Channel(id: u32, output: bool, kind: Kind, gain: real, offset: real, min: int, max: int, init: int,
                             state: real, drive: int)

  const NO_CHANNEL := Channel(0, false, Const, 0.0, 0.0, 0, 0, 0, 0.0, NO_DRIVE)

  // ---------- one channel ----------

  /** Conversion to an integer cuts towards zero. */
  function Trunc(v: real): int {
    if v >= 0.0 then v.Floor else -(-v).Floor
  }

  /** `clamp_state`: into the range first, then cut. */
  function Clamp(ch: Channel, v: real): int {
    var low := if v < ch.min as real then ch.min as real else v;
    Trunc(if low > ch.max as real then ch.max as real else low)
  }

  /** The part of the way that a gain goes in one step. */
  function Part(gain: real, d: real): real {
    gain * d
  }

  lemma PartIs(gain: real, d: real)
    ensures Part(gain, d) == gain * d
  {
  }

  function Find(cs: seq<Channel>, id: int): Option<Channel> {
    if cs == [] then None
    else if cs[0].id == id then Some(cs[0])
    else Find(cs[1..], id)
  }

  /** What a lag follows: the clamped state of its driver, or 0. */
  function DriveTarget(cs: seq<Channel>, ch: Channel): real {
    if ch.drive == NO_DRIVE then 0.0
    else match Find(cs, ch.drive) case None => 0.0 case Some(d) => Clamp(d, d.state) as real
  }

  /** An input channel one cycle on, its driver read from `cs`. */
  function Next(cs: seq<Channel>, ch: Channel): Channel {
    if ch.output then ch
    else
      var v :=
        match ch.kind
        case Ramp => ch.state + ch.gain
        case Lag => ch.state + Part(ch.gain, DriveTarget(cs, ch) + ch.offset - ch.state)
        case _ => ch.state;
      ch.(state := Clamp(ch, v) as real)
  }

  /** All channels at once, every one from the states before. */
  function StepAll(cs: seq<Channel>): (r: seq<Channel>)
    ensures |r| == |cs| && forall i :: 0 <= i < |cs| ==> r[i] == Next(cs, cs[i])
  {
    seq(|cs|, i requires 0 <= i < |cs| => Next(cs, cs[i]))
  }

  // ---------- the checks of a table ----------

  /** `check_row`. */
  predicate RowOk(ch: Channel) {
    && ch.min <= ch.max && ch.min <= ch.init <= ch.max && ch.id < MAX_CHANNELS
    && (if ch.output then ch.kind == Actuator && ch.drive == NO_DRIVE
        else ch.kind != Actuator && (ch.kind != Lag ==> ch.drive == NO_DRIVE)
             && (ch.kind == Lag ==> 0.0 < ch.gain <= 1.0))
  }

  ghost predicate UniqueIds(cs: seq<Channel>) {
    forall i, j :: 0 <= i < j < |cs| ==> cs[i].id != cs[j].id
  }

  /** Every declared driver exists and is an output. */
  ghost predicate DrivesOk(cs: seq<Channel>) {
    forall i :: 0 <= i < |cs| && cs[i].drive != NO_DRIVE ==>
      Find(cs, cs[i].drive).Some? && Find(cs, cs[i].drive).value.output
  }

  /** The state is a whole number within the range. */
  ghost predicate RawState(ch: Channel) {
    ch.state == ch.state.Floor as real && ch.min as real <= ch.state <= ch.max as real
  }

  ghost predicate Validated(cs: seq<Channel>) {
    UniqueIds(cs) && DrivesOk(cs) && forall i :: 0 <= i < |cs| ==> RowOk(cs[i]) && RawState(cs[i])
  }

  lemma ClampRaw(ch: Channel, v: real)
    requires ch.min <= ch.max
    ensures ch.min <= Clamp(ch, v) <= ch.max && RawState(ch.(state := Clamp(ch, v) as real))
    ensures ch.min as real <= v <= ch.max as real ==> Clamp(ch, v) == Trunc(v)
  {
  }

  // ---------- finding by id ----------

  lemma {:induction false} FindIs(cs: seq<Channel>, id: int)
    ensures Find(cs, id).Some? ==> Find(cs, id).value in cs && Find(cs, id).value.id == id
    ensures Find(cs, id) == None ==> forall c <- cs :: c.id != id
    decreases |cs|
  {
    if cs != [] {
      FindIs(cs[1..], id);
      assert cs == [cs[0]] + cs[1..];
    }
  }

  /** With unique ids, whoever carries the id is the one found. */
  lemma FindUnique(cs: seq<Channel>, c: Channel)
    requires UniqueIds(cs) && c in cs
    ensures Find(cs, c.id) == Some(c)
  {
    FindIs(cs, c.id);
    var i :| 0 <= i < |cs| && cs[i] == c;
    var j :| 0 <= j < |cs| && cs[j] == Find(cs, c.id).value;
  }

  /** Channels that keep their ids, outputs and output states answer a driver look-up alike. */
  lemma {:induction false} FindAlike(a: seq<Channel>, b: seq<Channel>, id: int)
    requires |a| == |b| && forall i :: 0 <= i < |a| ==> a[i].id == b[i].id && (a[i].output ==> b[i] == a[i])
    ensures Find(a, id).Some? && Find(a, id).value.output ==> Find(b, id) == Find(a, id)
    decreases |a|
  {
    if a != [] && a[0].id != id {
      FindAlike(a[1..], b[1..], id);
    }
  }

  // ---------- the step ----------

  /** A step keeps the table validated: in particular every state whole and in range. */
  lemma StepValidated(cs: seq<Channel>)
    requires Validated(cs)
    ensures Validated(StepAll(cs))
  {
    var r := StepAll(cs);
    forall i | 0 <= i < |cs| ensures RowOk(r[i]) && RawState(r[i]) && r[i].id == cs[i].id && r[i].drive == cs[i].drive
    {
      assert RowOk(cs[i]) && RawState(cs[i]);
      NextRow(cs, cs[i]);
    }
    forall i | 0 <= i < |r| && r[i].drive != NO_DRIVE
      ensures Find(r, r[i].drive).Some? && Find(r, r[i].drive).value.output
    {
      FindAlike(cs, r, cs[i].drive);
    }
  }

  lemma NextRow(cs: seq<Channel>, ch: Channel)
    requires RowOk(ch) && RawState(ch)
    ensures RowOk(Next(cs, ch)) && RawState(Next(cs, ch))
    ensures Next(cs, ch) == ch.(state := Next(cs, ch).state) && (ch.output ==> Next(cs, ch) == ch)
  {
    if !ch.output {
      ClampRaw(ch, Next(cs, ch).state);
      hide Clamp, DriveTarget;
      ClampRaw(ch, match ch.kind
                   case Ramp => ch.state + ch.gain
                   case Lag => ch.state + Part(ch.gain, DriveTarget(cs, ch) + ch.offset - ch.state)
                   case _ => ch.state);
    }
  }

  /** `p` lists each row number once. */
  ghost predicate Permutation(p: seq<nat>, n: nat) {
    |p| == n && (forall i :: 0 <= i < n ==> p[i] < n) && forall i, j :: 0 <= i < j < n ==> p[i] != p[j]
  }

  function Permuted(cs: seq<Channel>, p: seq<nat>): (r: seq<Channel>)
    requires forall i :: 0 <= i < |p| ==> p[i] < |cs|
    ensures |r| == |p| && forall i :: 0 <= i < |p| ==> r[i] == cs[p[i]]
  {
    seq(|p|, i requires 0 <= i < |p| => cs[p[i]])
  }

  lemma PermutedUnique(cs: seq<Channel>, p: seq<nat>)
    requires UniqueIds(cs) && Permutation(p, |cs|)
    ensures UniqueIds(Permuted(cs, p))
  {
    forall i, j | 0 <= i < j < |p| ensures Permuted(cs, p)[i].id != Permuted(cs, p)[j].id {
      assert p[i] != p[j];
      assert if p[i] < p[j] then cs[p[i]].id != cs[p[j]].id else cs[p[j]].id != cs[p[i]].id;
    }
  }

  /** The order of the rows does not matter: stepping a permuted table permutes the stepped table. */
  lemma StepCommutes(cs: seq<Channel>, p: seq<nat>)
    requires Validated(cs) && Permutation(p, |cs|)
    ensures StepAll(Permuted(cs, p)) == Permuted(StepAll(cs), p)
  {
    hide Clamp;
    var ps := Permuted(cs, p);
    PermutedUnique(cs, p);
    forall i | 0 <= i < |p| ensures Next(ps, ps[i]) == Next(cs, cs[p[i]]) {
      SameDrive(cs, p, p[i]);
    }
  }

  lemma SameDrive(cs: seq<Channel>, p: seq<nat>, k: nat)
    requires Validated(cs) && Permutation(p, |cs|) && k < |cs| && UniqueIds(Permuted(cs, p))
    ensures DriveTarget(Permuted(cs, p), cs[k]) == DriveTarget(cs, cs[k])
  {
    var id := cs[k].drive;
    if id != NO_DRIVE {
      FindIs(cs, id);
      var d := Find(cs, id).value;
      var j :| 0 <= j < |cs| && cs[j] == d;
      Orders.DistinctCardinality(p);
      var i := Reaches(p, |cs|, j);
      assert Permuted(cs, p)[i] == d;
      FindUnique(Permuted(cs, p), d);
    }
  }

  lemma Reaches(p: seq<nat>, n: nat, j: nat) returns (i: nat)
    requires Permutation(p, n) && j < n
    ensures i < n && p[i] == j
  {
    Orders.DistinctCardinality(p);
    Orders.UpToSize(n);
    assert Orders.Elements(p) <= Orders.UpTo(n);
    Orders.SubsetCardinality(Orders.Elements(p), Orders.UpTo(n));
    assert j in Orders.UpTo(n);
    i :| 0 <= i < n && p[i] == j;
  }

  class PlantTable {
    const channels: array<Channel>
    var count: nat

    ghost predicate Valid()
      reads this
    {
      channels.Length == MAX_CHANNELS && count <= MAX_CHANNELS
    }

    ghost function Rows(): seq<Channel>
      requires Valid()
      reads this, channels
    {
      channels[..count]
    }

    constructor ()
      ensures Valid() && fresh(channels) && count == 0
    {
      channels := new Channel[MAX_CHANNELS](_ => NO_CHANNEL);
      count := 0;
    }

    /** `plant_find`: the row number of a channel. */
    method FindRow(id: int) returns (row: Option<nat>)
      requires Valid()
      ensures match row
              case Some(i) => i < count && Find(Rows(), id) == Some(channels[i])
                              && channels[i].id == id && forall k :: 0 <= k < i ==> channels[k].id != id
              case None => Find(Rows(), id) == None
    {
      ghost var cs := Rows();
      assert cs[0..] == cs;
      for i := 0 to count
        invariant Find(cs[i..], id) == Find(cs, id) && forall k :: 0 <= k < i ==> channels[k].id != id
      {
        assert cs[i..][1..] == cs[i + 1..];
        if channels[i].id == id { return Some(i); }
      }
      return None;
    }

    /** `check_row`, one complaint after the other. */
    static method CheckRow(ch: Channel) returns (rc: int)
      ensures rc == if RowOk(ch) then 0 else -1
    {
      if ch.min > ch.max { return -1; }
      if ch.init < ch.min || ch.init > ch.max { return -1; }
      if ch.id >= MAX_CHANNELS { return -1; }
      if ch.output {
        if ch.kind != Actuator { return -1; }
        if ch.drive != NO_DRIVE { return -1; }
        return 0;
      }
      if ch.kind == Actuator { return -1; }
      if ch.kind == Const || ch.kind == Ramp {
        if ch.drive != NO_DRIVE { return -1; }
      }
      if ch.kind == Lag && (ch.gain <= 0.0 || ch.gain > 1.0) { return -1; }
      return 0;
    }

    /** One row of the file, its fields already read: taken up if it passes the checks and is new. */
    method AddRow(ch: Channel) returns (rc: int)
      requires Valid()
      modifies this, channels
      ensures Valid()
      ensures rc == if old(count) < MAX_CHANNELS && ch.drive >= NO_DRIVE && RowOk(ch) && Find(old(Rows()), ch.id) == None
                    then 0 else -1
      ensures Rows() == if rc == 0 then old(Rows()) + [ch.(state := ch.init as real)] else old(Rows())
    {
      if count >= MAX_CHANNELS { return -1; }
      if ch.drive < NO_DRIVE { return -1; }
      var ok := CheckRow(ch);
      if ok != 0 { return -1; }
      var row := FindRow(ch.id);
      if row.Some? { return -1; }
      channels[count] := ch.(state := ch.init as real);
      count := count + 1;
      assert Rows() == old(Rows()) + [channels[count - 1]];
      return 0;
    }

    /** `check_drives`. */
    method CheckDrives() returns (rc: int)
      requires Valid()
      ensures rc == if DrivesOk(Rows()) then 0 else -1
    {
      ghost var cs := Rows();
      for i := 0 to count
        invariant forall k :: 0 <= k < i && cs[k].drive != NO_DRIVE ==>
                    Find(cs, cs[k].drive).Some? && Find(cs, cs[k].drive).value.output
      {
        if channels[i].drive != NO_DRIVE {
          assert cs[i] == channels[i];
          var d := FindRow(channels[i].drive);
          if d == None { return -1; }
          if !channels[d.value].output { return -1; }
        }
      }
      return 0;
    }

    /** `plant_read_raw`. */
    method ReadRaw(id: u32) returns (v: Option<int>)
      requires Valid()
      ensures v == match Find(Rows(), id) case None => None case Some(c) => Some(Clamp(c, c.state))
    {
      var row := FindRow(id);
      if row == None { return None; }
      return Some(Clamp(channels[row.value], channels[row.value].state));
    }

    /** `plant_write_raw` for `output`, `plant_inject` otherwise: one channel of the right direction. */
    method SetRaw(id: u32, v: int, output: bool) returns (rc: int)
      requires Valid()
      modifies channels
      ensures Valid()
      ensures var c := Find(old(Rows()), id);
              if c.Some? && c.value.output == output then
                rc == 0 && exists i :: 0 <= i < count && old(Rows())[i] == c.value
                                       && Rows() == old(Rows())[i := c.value.(state := Clamp(c.value, v as real) as real)]
              else rc == -1 && Rows() == old(Rows())
    {
      var row := FindRow(id);
      if row == None { return -1; }
      var i := row.value;
      if channels[i].output != output { return -1; }
      channels[i] := channels[i].(state := Clamp(channels[i], v as real) as real);
      assert Rows() == old(Rows())[i := channels[i]];
      return 0;
    }

    /** `plant_step`: in place and row by row, yet the same as all at once, because a lag reads
        only outputs and no step moves an output. */
    method Step()
      requires Valid() && Validated(Rows())
      modifies channels
      ensures Rows() == StepAll(old(Rows())) && Validated(Rows())
    {
      hide Clamp, RowOk, RawState;
      ghost var cs := Rows();
      StepValidated(cs);
      for i := 0 to count
        invariant forall k :: 0 <= k < i ==> channels[k] == Next(cs, cs[k])
        invariant forall k :: i <= k < count ==> channels[k] == cs[k]
      {
        var ch := channels[i];
        var next := ch.state;
        if ch.output {
          continue;
        }
        if ch.kind == Ramp {
          next := ch.state + ch.gain;
        } else if ch.kind == Lag {
          var target := 0.0;
          if ch.drive != NO_DRIVE {
            HalfWay(cs, Rows(), ch.drive);
            var d := FindRow(ch.drive);
            if d.Some? {
              target := Clamp(channels[d.value], channels[d.value].state) as real;
            }
          }
          assert target == DriveTarget(cs, ch);
          var way := target + ch.offset - ch.state;
          PartIs(ch.gain, way);
          next := ch.state + ch.gain * way;
          assert next == ch.state + Part(ch.gain, way);
        }
        channels[i] := ch.(state := Clamp(ch, next) as real);
        assert channels[i] == Next(cs, ch);
      }
      assert Rows() == StepAll(cs);
    }
  }

  /** Half way through a step the outputs still stand where they stood. */
  lemma HalfWay(cs: seq<Channel>, now: seq<Channel>, id: int)
    requires |now| == |cs| && forall k :: 0 <= k < |cs| ==> now[k] == cs[k] || now[k] == Next(cs, cs[k])
    requires Find(cs, id).Some? && Find(cs, id).value.output
    ensures Find(now, id) == Find(cs, id)
  {
    hide Clamp;
    FindAlike(cs, now, id);
  }

  // ---------- the lag ----------

  /** A lag from a whole state `s` towards a whole target `t`. */
  function LagNext(gain: real, s: int, t: int): int {
    Trunc(s as real + Part(gain, (t - s) as real))
  }

  function Distance(s: int, t: int): nat {
    if s < t then t - s else s - t
  }

  predicate Between(a: int, x: int, b: int) {
    a <= x <= b || b <= x <= a
  }

  /** The target lies further from zero than the state, on the same side. */
  predicate Outward(s: int, t: int) {
    0 <= s < t || t < s <= 0
  }

  /** A lag channel with a whole target in range follows `LagNext`. */
  lemma LagIs(cs: seq<Channel>, ch: Channel, s: int, t: int)
    requires RowOk(ch) && !ch.output && ch.kind == Lag && ch.state == s as real && ch.min <= s <= ch.max
    requires DriveTarget(cs, ch) + ch.offset == t as real && ch.min <= t <= ch.max
    ensures Next(cs, ch).state == LagNext(ch.gain, s, t) as real
  {
    hide DriveTarget, Clamp, Part, Trunc;
    assert t as real - s as real == (t - s) as real;
    Scaled(ch.gain, (t - s) as real);
    ClampRaw(ch, s as real + Part(ch.gain, (t - s) as real));
  }

  lemma Product(x: real, y: real)
    requires x >= 0.0 && y >= 0.0
    ensures x * y >= 0.0 && (x > 0.0 && y > 0.0 ==> x * y > 0.0)
  {
  }

  lemma Scaled(gain: real, d: real)
    requires 0.0 < gain <= 1.0
    ensures d >= 0.0 ==> 0.0 <= Part(gain, d) <= d
    ensures d <= 0.0 ==> d <= Part(gain, d) <= 0.0
    ensures d != 0.0 ==> Part(gain, d) != 0.0
    ensures Part(gain, -d) == -Part(gain, d)
  {
    var e := if d >= 0.0 then d else -d;
    Product(gain, e);
    Product(1.0 - gain, e);
    assert (1.0 - gain) * e == e - gain * e;
    assert gain * (-d) == -(gain * d);
  }

  /** It never passes the target, and it stands still exactly at the target, or when it would have
      to move away from zero by less than one: there the cut towards zero takes the whole step back. */
  lemma LagStep(gain: real, s: int, t: int)
    requires 0.0 < gain <= 1.0
    ensures Between(s, LagNext(gain, s, t), t)
    ensures LagNext(gain, s, t) == s <==> AtRest(gain, s, t)
  {
    hide *;
    LagMoves(gain, s, t);
    AtRestIs(gain, s, t);
  }

  lemma AtRestIs(gain: real, s: int, t: int)
    ensures AtRest(gain, s, t) <==> s == t || (Outward(s, t) && Part(gain, Distance(s, t) as real) < 1.0)
  {
    hide Outward, Distance;
  }

  lemma LagMoves(gain: real, s: int, t: int)
    requires 0.0 < gain <= 1.0
    ensures Between(s, LagNext(gain, s, t), t)
    ensures LagNext(gain, s, t) == s <==> s == t || (Outward(s, t) && Part(gain, Distance(s, t) as real) < 1.0)
  {
    hide Part, Trunc;
    Scaled(gain, (t - s) as real);
    assert (Distance(s, t) as real) == if s <= t then (t - s) as real else -((t - s) as real);
    TruncBetween(s, t, Part(gain, (t - s) as real));
  }

  predicate AtRest(gain: real, s: int, t: int) {
    s == t || (Outward(s, t) && gain * (Distance(s, t) as real) < 1.0)
  }

  /** Cutting a whole number plus a part of the way to another one. */
  lemma TruncBetween(s: int, t: int, x: real)
    requires s <= t ==> 0.0 <= x <= (t - s) as real && (s < t ==> x > 0.0)
    requires s >= t ==> (t - s) as real <= x <= 0.0 && (s > t ==> x < 0.0)
    ensures Between(s, Trunc(s as real + x), t)
    ensures Trunc(s as real + x) == s <==> s == t || (Outward(s, t) && -1.0 < x < 1.0)
  {
    var v := s as real + x;
    if v >= 0.0 {
      assert v.Floor as real <= v < v.Floor as real + 1.0;
    } else {
      assert (-v).Floor as real <= -v < (-v).Floor as real + 1.0;
    }
  }

  function LagRun(gain: real, s: int, t: int, n: nat): int
    decreases n
  {
    if n == 0 then s else LagRun(gain, LagNext(gain, s, t), t, n - 1)
  }

  /** After as many steps as the distance it has come to rest, between where it started and the
      target, and less than one step of the gain away from it. */
  lemma {:induction false} LagSettles(gain: real, s: int, t: int, n: nat)
    requires 0.0 < gain <= 1.0 && n >= Distance(s, t)
    ensures var r := LagRun(gain, s, t, n);
            Between(s, r, t) && LagNext(gain, r, t) == r && AtRest(gain, r, t)
    decreases n
  {
    hide LagNext, AtRest;
    LagStep(gain, s, t);
    var m := LagNext(gain, s, t);
    if m == s {
      LagRests(gain, s, t, n);
    } else {
      LagSettles(gain, m, t, n - 1);
    }
  }

  lemma {:induction false} LagRests(gain: real, s: int, t: int, n: nat)
    requires LagNext(gain, s, t) == s
    ensures LagRun(gain, s, t, n) == s
    decreases n
  {
    hide LagNext;
    if n > 0 { LagRests(gain, s, t, n - 1); }
  }

  function Steps(cs: seq<Channel>, n: nat): (r: seq<Channel>)
    ensures |r| == |cs|
    decreases n
  {
    if n == 0 then cs else Steps(StepAll(cs), n - 1)
  }

  /** In a whole table, with nothing written to its driver: a lag channel comes to rest within as
      many steps as it is away from its target, and never leaves the way between. */
  lemma {:induction false} ChannelSettles(cs: seq<Channel>, i: nat, s: int, t: int, n: nat)
    requires Validated(cs) && i < |cs| && !cs[i].output && cs[i].kind == Lag && cs[i].state == s as real
    requires DriveTarget(cs, cs[i]) + cs[i].offset == t as real && cs[i].min <= t <= cs[i].max
    ensures Steps(cs, n)[i] == cs[i].(state := LagRun(cs[i].gain, s, t, n) as real)
    ensures n >= Distance(s, t) ==> Between(s, LagRun(cs[i].gain, s, t, n), t)
                                    && AtRest(cs[i].gain, LagRun(cs[i].gain, s, t, n), t)
    decreases n
  {
    hide Clamp, LagNext, RawState, AtRest;
    if n >= Distance(s, t) { LagSettles(cs[i].gain, s, t, n); }
    if n > 0 {
      InRange(cs, i, s);
      LagIs(cs, cs[i], s, t);
      StepValidated(cs);
      var next := StepAll(cs);
      NextRow(cs, cs[i]);
      SameTarget(cs, i);
      ChannelSettles(next, i, LagNext(cs[i].gain, s, t), t, n - 1);
    }
  }

  lemma InRange(cs: seq<Channel>, i: nat, s: int)
    requires Validated(cs) && i < |cs| && cs[i].state == s as real
    ensures RowOk(cs[i]) && RawState(cs[i]) && cs[i].min <= s <= cs[i].max
  {
  }

  lemma SameTarget(cs: seq<Channel>, i: nat)
    requires Validated(cs) && i < |cs|
    ensures DriveTarget(StepAll(cs), StepAll(cs)[i]) == DriveTarget(cs, cs[i])
  {
    hide Clamp;
    var r := StepAll(cs);
    forall k | 0 <= k < |cs| ensures r[k].id == cs[k].id && (cs[k].output ==> r[k] == cs[k]) && r[k].drive == cs[k].drive {
      NextRow(cs, cs[k]);
    }
    if cs[i].drive != NO_DRIVE { FindAlike(cs, r, cs[i].drive); }
  }
}
