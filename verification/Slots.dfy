/** The two version slots as a value: staging an image, switching to it, rolling back. */
module Slots {
  import opened Bytes
  import opened Results
  import opened SasmFormat
  import opened SasmLoader

  const MAX_RAW := 1048576

  const RC_OK := 0
  const RC_EARG := -101
  const RC_EBUSY := -102
  const RC_ELOAD := -103
  const RC_EVALIDATE := -104
  const RC_ENOSWITCH := -105

  /** What a valid slot holds: the bytes as received, what they load to, and its version. */
  datatype Image = Image(raw: seq<byte>, mod: SasmModule, version: u32)

  datatype Mgr = Mgr(slots: seq<Option<Image>>, loadErrors: seq<int>, active: nat, pending: nat, previous: nat,
                     switched: bool, inProgress: bool, next: u32, lastError: int, progress: nat)

  const EMPTY := Mgr([None, None], [0, 0], 0, 1, 0, false, false, 0, 0, 0)

  function Inc(v: u32): u32 {
    if v == 0xFFFF_FFFF then 0 else v + 1
  }

  /** The two gates an image passes: the loader and the validator. */
  ghost function Gate(raw: seq<byte>): (int, int) {
    if |raw| == 0 || |raw| > MAX_RAW then (RC_EARG, 0)
    else if Load(raw).Err? then (RC_ELOAD, Load(raw).error)
    else if !Sound(Load(raw).value) then (RC_EVALIDATE, -100)
    else (RC_OK, 0)
  }

  /** `dl_slot_load_raw`: the slot is void at once, and valid again only if both gates are passed. */
  ghost function LoadSlot(g: Mgr, i: nat, raw: seq<byte>, version: u32): (Mgr, int)
    requires i < |g.slots| && i < |g.loadErrors|
  {
    var (rc, err) := Gate(raw);
    if rc == RC_EARG then (g.(slots := g.slots[i := None]), rc)
    else if rc != RC_OK then (g.(slots := g.slots[i := None], loadErrors := g.loadErrors[i := err]), rc)
    else
      (g.(slots := g.slots[i := Some(Image(raw, Load(raw).value, version))], loadErrors := g.loadErrors[i := 0]), rc)
  }

  ghost predicate Shaped(g: Mgr) {
    |g.slots| == 2 && |g.loadErrors| == 2 && g.active < 2 && g.pending < 2 && g.previous < 2
  }

  /** `dl_manager_load_image`: the cold start, whatever was there before. */
  ghost function ColdLoad(raw: seq<byte>): (Mgr, int) {
    var (g, rc) := LoadSlot(EMPTY, 0, raw, 0);
    if rc != RC_OK then (g.(lastError := g.loadErrors[0]), rc) else (g.(next := 1), rc)
  }

  /** `dl_stage_image`. */
  ghost function Stage(g: Mgr, raw: seq<byte>): (Mgr, int)
    requires Shaped(g)
  {
    if g.inProgress then (g, RC_EBUSY)
    else
      var (h, rc) := LoadSlot(g, g.pending, raw, g.next);
      if rc != RC_OK then (h.(lastError := h.loadErrors[g.pending]), rc)
      else (h.(next := Inc(g.next), inProgress := true, progress := 100, lastError := 0), rc)
  }

  /** `dl_apply_switch`: commit at the cycle boundary. */
  ghost function Switch(g: Mgr): (Mgr, int)
    requires Shaped(g)
  {
    if !g.inProgress then (g, RC_ENOSWITCH)
    else if g.slots[g.pending] == None || !Sound(g.slots[g.pending].value.mod) then
      (g.(lastError := -1, inProgress := false), RC_ENOSWITCH)
    else
      (g.(previous := g.active, switched := true, active := g.pending, pending := g.active, progress := 100,
          inProgress := false), RC_OK)
  }

  /** `dl_rollback`: back to the one landing place, if there is one. */
  ghost function Rollback(g: Mgr): (Mgr, Option<Image>)
    requires Shaped(g)
  {
    if !g.switched || g.slots[g.previous] == None then (g, None)
    else
      (g.(slots := g.slots[g.active := None], pending := g.active, active := g.previous, switched := false,
          inProgress := false, progress := 0), g.slots[g.active := None][g.previous])
  }

  // ---------- what every sequence of operations keeps ----------

  /** An image that passed both gates. */
  ghost predicate Passed(i: Image) {
    Load(i.raw) == Ok(i.mod) && Sound(i.mod)
  }

  /** The two roles are apart, the active slot holds a passed image, only a valid pending slot
      counts as a download in progress, and a rollback would land on the pending slot. */
  ghost predicate Inv(g: Mgr) {
    && Shaped(g) && g.active != g.pending
    && g.slots[g.active].Some?
    && (forall i :: 0 <= i < 2 && g.slots[i].Some? ==> Passed(g.slots[i].value))
    && (g.inProgress ==> g.slots[g.pending].Some?)
    && g.previous == (if g.switched then g.pending else g.active)
  }

  /** Versions issued so far, without wrap-around, are below the next one and pairwise distinct. */
  ghost predicate Numbered(g: Mgr) {
    && Shaped(g)
    && (forall i :: 0 <= i < 2 && g.slots[i].Some? ==> g.slots[i].value.version < g.next)
    && (g.slots[0].Some? && g.slots[1].Some? ==> g.slots[0].value.version != g.slots[1].value.version)
  }

  datatype Op = DoStage(raw: seq<byte>) | DoSwitch | DoRollback

  ghost function Do(g: Mgr, op: Op): Mgr
    requires Shaped(g)
  {
    match op
    case DoStage(raw) => Stage(g, raw).0
    case DoSwitch => Switch(g).0
    case DoRollback => Rollback(g).0
  }

  lemma ColdLoadInv(raw: seq<byte>)
    requires ColdLoad(raw).1 == RC_OK
    ensures Inv(ColdLoad(raw).0) && Numbered(ColdLoad(raw).0) && ColdLoad(raw).0.next == 1
  {
    hide Sound, Load;
  }

  lemma StageInv(g: Mgr, raw: seq<byte>)
    requires Inv(g)
    ensures var h := Stage(g, raw).0;
            Inv(h) && (Numbered(g) && g.next < 0xFFFF_FFFF ==> Numbered(h) && g.next <= h.next <= g.next + 1)
  {
    hide Sound, Load;
  }

  lemma SwitchInv(g: Mgr)
    requires Inv(g)
    ensures var h := Switch(g).0; Inv(h) && h.next == g.next && (Numbered(g) ==> Numbered(h))
  {
    hide Sound, Load;
  }

  lemma RollbackInv(g: Mgr)
    requires Inv(g)
    ensures var h := Rollback(g).0; Inv(h) && h.next == g.next && (Numbered(g) ==> Numbered(h))
  {
    hide Passed;
  }

  lemma DoInv(g: Mgr, op: Op)
    requires Inv(g)
    ensures Inv(Do(g, op))
    ensures Numbered(g) && g.next < 0xFFFF_FFFF ==> Numbered(Do(g, op)) && g.next <= Do(g, op).next <= g.next + 1
  {
    hide Stage, Switch, Rollback, Passed, Numbered;
    match op
    case DoStage(raw) => StageInv(g, raw);
    case DoSwitch => SwitchInv(g);
    case DoRollback => RollbackInv(g);
  }

  ghost function Run(g: Mgr, ops: seq<Op>): Mgr
    requires Inv(g)
    decreases |ops|
  {
    if ops == [] then g
    else
      DoInv(g, ops[0]);
      Run(Do(g, ops[0]), ops[1..])
  }

  /** Whatever is staged, switched and rolled back, and in whatever order. */
  lemma {:induction false} RunInv(g: Mgr, ops: seq<Op>)
    requires Inv(g)
    ensures Inv(Run(g, ops))
    ensures Numbered(g) && g.next + |ops| <= 0xFFFF_FFFF ==> Numbered(Run(g, ops))
    decreases |ops|
  {
    hide Numbered, Do, Passed;
    if ops != [] {
      DoInv(g, ops[0]);
      RunInv(Do(g, ops[0]), ops[1..]);
    }
  }

  /** A refusal leaves what is running alone. */
  lemma RefusedStage(g: Mgr, raw: seq<byte>)
    requires Inv(g) && Stage(g, raw).1 != RC_OK
    ensures var (h, rc) := Stage(g, raw);
            && rc == (if g.inProgress then RC_EBUSY else Gate(raw).0)
            && Shaped(h) && h.active == g.active && h.slots[h.active] == g.slots[g.active]
            && h.inProgress == g.inProgress
  {
    hide Sound, Load;
  }

  /** Once accepted, an image always switches: the second validation cannot refuse it. */
  lemma StagedSwitches(g: Mgr, raw: seq<byte>)
    requires Inv(g) && Stage(g, raw).1 == RC_OK
    ensures var (h, rc) := Switch(Stage(g, raw).0);
            && rc == RC_OK && h.active == g.pending && h.slots[h.active] == Some(Image(raw, Load(raw).value, g.next))
            && h.slots[h.pending] == g.slots[g.active] && h.switched && h.previous == g.active
  {
    hide Sound, Load;
  }

  /** A rollback lands on whatever the pending slot holds, and there is no second one. */
  lemma RollbackLands(g: Mgr)
    requires Inv(g)
    ensures Rollback(g).1 == if g.switched then g.slots[g.pending] else None
    ensures var (h, landed) := Rollback(g);
            landed.Some? ==> h.active == g.pending && h.slots[h.active] == landed && !h.switched
                             && h.slots[g.active] == None && Rollback(h).1 == None
  {
  }

  ghost function StageAll(g: Mgr, raws: seq<seq<byte>>): Mgr
    requires Inv(g)
    decreases |raws|
  {
    if raws == [] then g
    else
      DoInv(g, DoStage(raws[0]));
      StageAll(Stage(g, raws[0]).0, raws[1..])
  }

  /** After the first stage attempt since a switch, the pending slot no longer holds the image
      that was active before it. */
  lemma {:induction false} StagedOver(g: Mgr, raws: seq<seq<byte>>, old_: Image)
    requires Inv(g) && old_.version < g.next && g.next + |raws| <= 0xFFFF_FFFF
    requires g.slots[g.pending] != Some(old_)
    ensures var h := StageAll(g, raws); Inv(h) && h.pending == g.pending && h.slots[h.pending] != Some(old_)
    decreases |raws|
  {
    hide Sound, Load, Gate;
    if raws != [] {
      DoInv(g, DoStage(raws[0]));
      StagedOver(Stage(g, raws[0]).0, raws[1..], old_);
    }
  }

  /** With `before` on the landing place, a rollback reaches it exactly while nothing was offered. */
  lemma LandingKept(g: Mgr, before: Image, later: seq<seq<byte>>)
    requires Inv(g) && g.switched && g.slots[g.pending] == Some(before) && before.version < g.next
    requires g.next + |later| <= 0xFFFF_FFFF && !g.inProgress
    ensures Inv(StageAll(g, later)) && (Rollback(StageAll(g, later)).1 == Some(before) <==> later == [])
  {
    hide Sound, Load, Gate, Passed, Rollback;
    if later == [] {
      RollbackLands(g);
    } else {
      var k := Stage(g, later[0]).0;
      DoInv(g, DoStage(later[0]));
      StagedOver(k, later[1..], before);
      StageAllSwitched(k, later[1..]);
      RollbackLands(StageAll(k, later[1..]));
    }
  }

  /** Rolling back restores the image that was active before the switch if and only if nothing
      was offered for staging in between: a refused offer leaves nothing to land on, an accepted
      one is what the rollback then lands on. */
  lemma RollbackRestores(g: Mgr, raw: seq<byte>, later: seq<seq<byte>>)
    requires Inv(g) && Numbered(g) && Stage(g, raw).1 == RC_OK && g.next + 1 + |later| <= 0xFFFF_FFFF
    ensures Inv(Switch(Stage(g, raw).0).0)
    ensures Inv(StageAll(Switch(Stage(g, raw).0).0, later))
    ensures Rollback(StageAll(Switch(Stage(g, raw).0).0, later)).1 == g.slots[g.active] <==> later == []
  {
    hide Sound, Load, Gate, Passed, Rollback, StageAll, LoadSlot;
    DoInv(g, DoStage(raw));
    var s := Stage(g, raw).0;
    DoInv(s, DoSwitch);
    StagedSwitches(g, raw);
    StageNext(g, raw);
    LandingKept(Switch(s).0, g.slots[g.active].value, later);
  }

  lemma StageNext(g: Mgr, raw: seq<byte>)
    requires Inv(g) && Stage(g, raw).1 == RC_OK && g.next < 0xFFFF_FFFF
    ensures Stage(g, raw).0.next == g.next + 1 && Switch(Stage(g, raw).0).0.next == g.next + 1
    ensures !Switch(Stage(g, raw).0).0.inProgress
  {
    hide Sound, Load;
  }

  lemma {:induction false} StageAllSwitched(g: Mgr, raws: seq<seq<byte>>)
    requires Inv(g)
    ensures Inv(StageAll(g, raws)) && StageAll(g, raws).switched == g.switched
    decreases |raws|
  {
    hide Sound, Load, Gate, Passed;
    if raws != [] {
      DoInv(g, DoStage(raws[0]));
      StageAllSwitched(Stage(g, raws[0]).0, raws[1..]);
    }
  }
}
