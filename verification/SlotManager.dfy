/** `download.c`: the manager's slots and flags, updated by every call. */
module SlotManager {
  import opened Bytes
  import opened Results
  import opened SasmFormat
  import opened SasmLoader
  import opened Slots
  import Crc32
  import I = Interpreter

  datatype VersionSlot = VersionSlot(mod: SasmModule, raw: seq<byte>, version: u32, valid: bool, loadError: int)

  const NO_SLOT := VersionSlot(Blank(0, 0), [], 0, false, 0)

  class DownloadManager {
    var slots: seq<VersionSlot>
    var active: nat
    var pending: nat
    var previous: nat
    var switched: bool
    var inProgress: bool
    var next: u32
    var lastError: int
    var progress: nat

    ghost predicate Valid()
      reads this
    {
      |slots| == 2 && active < 2 && pending < 2 && previous < 2
    }

    static function Held(s: VersionSlot): Option<Image> {
      if s.valid then Some(Image(s.raw, s.mod, s.version)) else None
    }

    /** The manager as a value; what an invalid slot still contains does not count. */
    ghost function Abs(): (g: Mgr)
      requires Valid()
      reads this
      ensures Shaped(g)
    {
      Mgr([Held(slots[0]), Held(slots[1])], [slots[0].loadError, slots[1].loadError], active, pending, previous,
          switched, inProgress, next, lastError, progress)
    }

    constructor ()
      ensures Valid()
    {
      slots := [NO_SLOT, NO_SLOT];
      active, pending, previous, switched, inProgress := 0, 1, 0, false, false;
      next, lastError, progress := 0, 0, 0;
    }

    /** `dl_slot_load_raw`. */
    method LoadRaw(i: nat, raw: seq<byte>, version: u32) returns (rc: int)
      requires Valid() && i < 2
      modifies `slots
      ensures Valid() && (Abs(), rc) == LoadSlot(old(Abs()), i, raw, version)
    {
      hide Sound, Load;
      ghost var before := Abs();
      slots := slots[i := slots[i].(valid := false)];
      assert Abs().slots == before.slots[i := None] && Abs().loadErrors == before.loadErrors;
      if |raw| == 0 || |raw| > MAX_RAW { return RC_EARG; }
      slots := slots[i := slots[i].(raw := raw)];
      var loadRc, mod := SasmLoad(raw);
      slots := slots[i := slots[i].(mod := mod)];
      LoadCodes(raw);
      if loadRc != 0 {
        slots := slots[i := slots[i].(loadError := loadRc)];
        assert Abs().slots == before.slots[i := None] && Abs().loadErrors == before.loadErrors[i := loadRc];
        return RC_ELOAD;
      }
      var ok := Validate(mod);
      if !ok {
        slots := slots[i := slots[i].(loadError := -100)];
        assert Abs().slots == before.slots[i := None] && Abs().loadErrors == before.loadErrors[i := -100];
        return RC_EVALIDATE;
      }
      slots := slots[i := slots[i].(version := version, loadError := 0, valid := true)];
      assert Abs().slots == before.slots[i := Some(Image(raw, mod, version))];
      assert Abs().loadErrors == before.loadErrors[i := 0];
      return RC_OK;
    }

    /** `dl_manager_load_image`: wipes everything first. */
    method LoadImage(raw: seq<byte>) returns (rc: int)
      requires Valid()
      modifies this
      ensures Valid() && (Abs(), rc) == ColdLoad(raw)
    {
      hide LoadSlot;
      slots := [NO_SLOT, NO_SLOT];
      active, pending, previous, switched, inProgress := 0, 1, 0, false, false;
      next, lastError, progress := 0, 0, 0;
      rc := LoadRaw(0, raw, 0);
      if rc != RC_OK {
        lastError := slots[0].loadError;
        return;
      }
      next, lastError := 1, 0;
    }

    /** `dl_stage_image`. */
    method StageImage(raw: seq<byte>) returns (rc: int)
      requires Valid()
      modifies this
      ensures Valid() && (Abs(), rc) == Stage(old(Abs()), raw)
    {
      hide LoadSlot;
      if inProgress { return RC_EBUSY; }
      rc := LoadRaw(pending, raw, next);
      if rc != RC_OK {
        lastError := slots[pending].loadError;
        return;
      }
      next, inProgress, progress, lastError := if next == 0xFFFF_FFFF then 0 else next + 1, true, 100, 0;
    }

    /** `dl_commit_switch`: validate again, then exchange the two roles. */
    method CommitSwitch() returns (rc: int)
      requires Valid() && (inProgress ==> slots[pending].valid)
      modifies this
      ensures Valid()
      ensures var (g, r) := Switch(old(Abs()));
              rc == (if r == RC_OK then 0 else -1) && Abs() == g.(lastError := Abs().lastError)
      ensures rc == 0 ==> Abs() == Switch(old(Abs())).0 && slots[active].valid
    {
      hide Sound;
      if !inProgress { return -1; }
      var ok := Validate(slots[pending].mod);
      if !ok {
        lastError, inProgress := -1, false;
        return -1;
      }
      var (newActive, newPending) := (pending, active);
      slots := slots[pending := slots[pending].(valid := true)];
      previous, switched := active, true;
      active, pending, progress, inProgress := newActive, newPending, 100, false;
      return 0;
    }

    /** `dl_apply_switch`: commit, and rebind the machine to the image now active. Rebinding a
        machine to a module cannot fail, so the code's fallback there is never taken. */
    method ApplySwitch(vm: I.Vm) returns (rc: int)
      requires Valid() && vm.Valid() && (inProgress ==> slots[pending].valid)
      modifies this, vm, vm.memory
      ensures Valid() && vm.Valid() && (Abs(), rc) == Switch(old(Abs()))
      ensures rc == RC_OK ==> Bound(vm, Abs()) && vm.Abs() == I.Cleared(vm.memorySize)
      ensures rc != RC_OK ==> vm.module_ == old(vm.module_) && vm.Abs() == old(vm.Abs())
    {
      hide Sound;
      if !inProgress { return RC_ENOSWITCH; }
      var r := CommitSwitch();
      if r != 0 {
        lastError := -1;
        return RC_ENOSWITCH;
      }
      r := vm.Rebind(slots[active].mod);
      return RC_OK;
    }

    /** `dl_rollback`: true if there was somewhere to land. */
    method Rollback(vm: I.Vm) returns (landed: bool)
      requires Valid() && vm.Valid() && (switched ==> previous != active)
      modifies this, vm, vm.memory
      ensures Valid() && vm.Valid()
      ensures var (g, l) := Slots.Rollback(old(Abs())); Abs() == g && (landed <==> l.Some?)
      ensures landed ==> Bound(vm, Abs()) && vm.Abs() == I.Cleared(vm.memorySize)
      ensures !landed ==> vm.module_ == old(vm.module_) && vm.Abs() == old(vm.Abs())
    {
      if !switched { return false; }
      if !slots[previous].valid { return false; }
      slots := slots[active := slots[active].(valid := false)];
      pending := active;
      active := previous;
      switched, previous, inProgress, progress := false, active, false, 0;
      var r := vm.Rebind(slots[active].mod);
      return true;
    }

    /** `dl_active_version`. */
    method ActiveVersion() returns (v: u32)
      requires Valid()
      ensures v == match Abs().slots[active] case Some(i) => i.version case None => 0
    {
      if !slots[active].valid { return 0; }
      return slots[active].version;
    }

    /** `dl_pending_version`: 0 while nothing waits for a switch. */
    method PendingVersion() returns (v: u32)
      requires Valid() && (inProgress ==> slots[pending].valid)
      ensures v == if inProgress then Abs().slots[pending].value.version else 0
    {
      if !inProgress { return 0; }
      return slots[pending].version;
    }
  }

  /** The machine runs the image in the active slot. */
  ghost predicate Bound(vm: I.Vm, g: Mgr)
    requires Shaped(g)
    reads vm
  {
    g.slots[g.active].Some? && vm.module_ == g.slots[g.active].value.mod
  }

  lemma LoadCodes(raw: seq<byte>)
    ensures Load(raw).Err? ==> Load(raw).error < 0
  {
    hide ReadSections, Crc32.Crc;
  }
}
