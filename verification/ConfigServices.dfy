/** The staged-configuration service in its own form: a draft and a baseline updated in place, one
    write per save, and the running values applied only after it. Each method is the step
    `ConfigModel` reasons about. */
module ConfigServices {
  import opened Common
  import opened ConfigModel

  /** The durable seam: one record, read and written whole. */
  class ConfigStore {
    var record: Option<Record>
    var answers: bool
    var accepts: bool
    var writes: nat

    constructor (record: Option<Record>)
      ensures this.record == record && answers && accepts && writes == 0
    {
      this.record, answers, accepts, writes := record, true, true, 0;
    }
    method Load() returns (r: Option<Record>)
      ensures r == if answers then record else None
    {
      r := if answers then record else None;
    }
    method SaveRecord(r: Record) returns (ok: bool)
      modifies this`record, this`writes
      ensures ok == accepts && writes == old(writes) + 1
      ensures record == if ok then Some(r) else old(record)
    {
      writes := writes + 1;
      if accepts { record := Some(r); }
      return accepts;
    }
  }

  /** The running node: every covered field can be read, only the live-class ones can be set. */
  class LiveConfig {
    var effective: Values

    constructor (effective: Values)
      ensures this.effective == effective
    {
      this.effective := effective;
    }
    method ApplyLive(e2eDm: bool, introAttach: bool, mobileAutoregister: bool)
      modifies this
      ensures effective == [old(effective)[0], if e2eDm then 1 else 0, if introAttach then 1 else 0,
                            if mobileAutoregister then 1 else 0]
    {
      effective := [effective[0], if e2eDm then 1 else 0, if introAttach then 1 else 0,
                    if mobileAutoregister then 1 else 0];
    }
  }

  class ConfigService {
    const store: ConfigStore
    const live: LiveConfig
    var baseline: Values
    var draft: Values
    var isOpen: bool
    var conflict: bool

    ghost function Value(): State
      reads this, store, live
    {
      State(Service(isOpen, conflict, baseline, draft), store.record, live.effective, store.writes)
    }

    constructor (store: ConfigStore, live: LiveConfig)
      ensures this.store == store && this.live == live
      ensures Value() == State(CLOSED, store.record, live.effective, store.writes)
    {
      this.store, this.live := store, live;
      baseline, draft, isOpen, conflict := [0, 0, 0, 0], [0, 0, 0, 0], false, false;
    }

    method OpenDraft() returns (ok: bool)
      modifies this`baseline, this`draft, this`isOpen, this`conflict
      ensures Value() == Next(old(Value()), Open(store.answers))
      ensures ok == (!old(isOpen) && isOpen)
    {
      if isOpen { return false; }
      var b := store.Load();
      if b.None? { return false; }
      baseline := Covered(b.value);
      draft := baseline;
      isOpen, conflict := true, false;
      return true;
    }

    method SetField(f: Field, val: nat) returns (ok: bool)
      modifies this`draft
      ensures Value() == Next(old(Value()), Set(f, val))
      ensures ok == (isOpen && FieldValid(f, val))
    {
      if !isOpen { return false; }
      if !FieldValid(f, val) { return false; }
      draft := draft[Index(f) := val];
      return true;
    }

    method StageAllFields(c: Values)
      modifies this`draft
      ensures Value() == Next(old(Value()), StageAll(c))
    {
      if isOpen { draft := c; }
    }

    /** Validate the whole candidate, field by field; `bad` names the first that fails. */
    method CheckValues(c: Values) returns (ok: bool, bad: Field)
      ensures ok == ValuesValid(c)
      ensures !ok ==>
                && !FieldValid(bad, c[Index(bad)])
                && forall i :: 0 <= i < Index(bad) ==> FieldValid(ALL_FIELDS[i], c[i])
    {
      bad := BleMode;
      for i := 0 to FIELDS
        invariant forall k :: 0 <= k < i ==> FieldValid(ALL_FIELDS[k], c[k])
      {
        if !FieldValid(ALL_FIELDS[i], c[i]) { return false, ALL_FIELDS[i]; }
      }
      return true, bad;
    }

    method NeedsReboot() returns (needed: bool)
      ensures needed == RebootRequired(Value())
    {
      if !isOpen { return false; }
      var eff := live.effective;
      for i := 0 to FIELDS
        invariant forall k :: 0 <= k < i && RebootClass(ALL_FIELDS[k]) ==> baseline[k] == eff[k]
      {
        if !RebootClass(ALL_FIELDS[i]) { continue; }
        if baseline[i] != eff[i] { return true; }
      }
      assert RebootClass(ALL_FIELDS[0]);
      return false;
    }

    /** The commit: validate, honour the marker, compare with the medium, and only then one write. */
    method SaveDraft() returns (r: SaveResult)
      modifies this`baseline, this`conflict, store`record, store`writes, live
      ensures (Value(), r) == SaveStep(old(Value()), store.answers, store.accepts)
    {
      if !isOpen { return NotOpen; }
      var valid, bad := CheckValues(draft);
      if !valid { return Invalid; }
      if conflict { return Conflict; }
      var now := store.Load();
      if now.None? { return NvFailed; }
      var persisted := Covered(now.value);
      if persisted != baseline {
        conflict := true;
        return Conflict;
      }
      if draft == persisted { return NoChange; }
      var saved := store.SaveRecord(Overwrite(draft, now.value));
      if !saved { return NvFailed; }
      baseline := draft;
      live.ApplyLive(draft[1] != 0, draft[2] != 0, draft[3] != 0);
      var reboot := NeedsReboot();
      return if reboot then SavedReboot else Saved;
    }

    method DiscardDraft() returns (ok: bool)
      modifies this`baseline, this`draft, this`conflict
      ensures Value() == Next(old(Value()), Discard(store.answers))
      ensures ok == Resolves(old(Value()), Discard(store.answers))
    {
      if !isOpen { return false; }
      var b := store.Load();
      if b.None? { return false; }
      baseline := Covered(b.value);
      draft, conflict := baseline, false;
      return true;
    }

    /** The three-way merge, one field at a time. */
    method ReloadDraft() returns (ok: bool)
      modifies this`baseline, this`draft, this`conflict
      ensures Value() == Next(old(Value()), Reload(store.answers))
      ensures ok == Resolves(old(Value()), Reload(store.answers))
    {
      if !isOpen { return false; }
      var b := store.Load();
      if b.None? { return false; }
      var now := Covered(b.value);
      for i := 0 to FIELDS
        modifies this`draft
        invariant forall k :: 0 <= k < i ==> draft[k] == Merge(baseline, old(draft), now)[k]
        invariant forall k :: i <= k < FIELDS ==> draft[k] == old(draft)[k]
      {
        if draft[i] == baseline[i] { draft := draft[i := now[i]]; }
      }
      assert draft == Merge(baseline, old(draft), now);
      baseline, conflict := now, false;
      return true;
    }

    method NoteExternalWrite(written: Record)
      modifies this`conflict
      ensures Value() == Next(old(Value()), Note(written))
    {
      if !isOpen { return; }
      if Covered(written) != baseline { conflict := true; }
    }
  }
}
