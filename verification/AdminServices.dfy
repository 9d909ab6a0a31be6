/** The two services of a remote-admin target and the boot install, in the code's own form:
    load, decide, compose one candidate, prepare, save at most once, then commit or discard. Each
    method is proved to do exactly what `AdminVerbs` says. */
module AdminServices {
  import opened Common
  import opened AdminRecords
  import opened AdminLive
  import opened AdminVerbs
  import opened AdminRuntime

  datatype Read = ReadOk | ReadAbsent | ReadInvalid | ReadIoFailed

  /** One named record. `answers` says whether loads reach the medium, `accepts` whether a save is
      taken; a refused save leaves the record as it was. `saves` counts the attempts. */
  class AclStore {
    var record: Slot<AclBlob>
    var answers: bool
    var accepts: bool
    var saves: nat

    constructor (record: Slot<AclBlob>, answers: bool, accepts: bool)
      ensures this.record == record && this.answers == answers && this.accepts == accepts && saves == 0
    {
      this.record, this.answers, this.accepts, saves := record, answers, accepts, 0;
    }

    method Load() returns (r: Read, b: AclBlob)
      ensures !answers ==> r == ReadIoFailed
      ensures answers ==>
                r == match record { case Absent => ReadAbsent case Corrupt => ReadInvalid case Stored(_) => ReadOk }
      ensures r == ReadOk ==> b == record.blob
    {
      b := EMPTY_ACL;
      if !answers { return ReadIoFailed, b; }
      match record
      case Absent => r := ReadAbsent;
      case Corrupt => r := ReadInvalid;
      case Stored(blob) => r, b := ReadOk, blob;
    }

    method Save(b: AclBlob) returns (ok: bool)
      modifies this`record, this`saves
      ensures ok == accepts && saves == old(saves) + 1
      ensures record == if ok then Stored(b) else old(record)
    {
      saves := saves + 1;
      if accepts { record := Stored(b); }
      return accepts;
    }
  }

  class AdminIdStore {
    var record: Slot<AdminIdBlob>
    var answers: bool
    var accepts: bool
    var saves: nat

    constructor (record: Slot<AdminIdBlob>, answers: bool, accepts: bool)
      ensures this.record == record && this.answers == answers && this.accepts == accepts && saves == 0
    {
      this.record, this.answers, this.accepts, saves := record, answers, accepts, 0;
    }

    method Load() returns (r: Read, b: AdminIdBlob)
      ensures !answers ==> r == ReadIoFailed
      ensures answers ==>
                r == match record { case Absent => ReadAbsent case Corrupt => ReadInvalid case Stored(_) => ReadOk }
      ensures r == ReadOk ==> b == record.blob
    {
      b := AdminIdBlob(0, 0);
      if !answers { return ReadIoFailed, b; }
      match record
      case Absent => r := ReadAbsent;
      case Corrupt => r := ReadInvalid;
      case Stored(blob) => r, b := ReadOk, blob;
    }

    method Save(b: AdminIdBlob) returns (ok: bool)
      modifies this`record, this`saves
      ensures ok == accepts && saves == old(saves) + 1
      ensures record == if ok then Stored(b) else old(record)
    {
      saves := saves + 1;
      if accepts { record := Stored(b); }
      return accepts;
    }
  }

  // ---- the loops over the ten rows -------------------------------------------------------------

  /** The content predicate as the code computes it: one pass with a population and an owner count,
      each occupied row compared with the ones before it. */
  method AclContentCheck(b: AclBlob) returns (ok: bool)
    ensures ok <==> AclContentValid(b)
  {
    CountWitness(b.rec, Occupied);
    OwnersCounted(b.rec);
    if b.count > ACL_SLOTS { return false; }
    var occupied, owners;
    ok, occupied, owners := CheckRows(b.rec);
    ok := ok && b.count == occupied && (occupied == 0 || owners > 0);
  }

  method CheckRows(rec: AclRows) returns (ok: bool, occupied: nat, owners: nat)
    ensures ok <==> (forall k :: 0 <= k < ACL_SLOTS ==> RowWellFormed(rec[k])) && KeysDistinct(rec)
    ensures ok ==> occupied == Count(rec, Occupied) && owners == Count(rec, IsOwner)
  {
    occupied, owners := 0, 0;
    for i := 0 to ACL_SLOTS
      invariant occupied == Count(rec[..i], Occupied) && owners == Count(rec[..i], IsOwner)
      invariant forall k :: 0 <= k < i ==> RowWellFormed(rec[k])
      invariant forall j, k :: 0 <= j < k < i && Occupied(rec[j]) && Occupied(rec[k]) ==> rec[j].key != rec[k].key
    {
      CountNext(rec, i, Occupied);
      CountNext(rec, i, IsOwner);
      if !RowWellFormed(rec[i]) { return false, 0, 0; }
      if !Occupied(rec[i]) { continue; }
      occupied := occupied + 1;
      if rec[i].role == ROLE_OWNER { owners := owners + 1; }
      var known := KeyKnown(rec, i, rec[i].key);
      if known { return false, 0, 0; }
    }
    assert rec[..ACL_SLOTS] == rec;
    ok := true;
  }

  lemma OwnersCounted(rec: AclRows)
    ensures HasOwner(rec) <==> Count(rec, IsOwner) > 0
  {
    CountWitness(rec, IsOwner);
    if i :| 0 <= i < |rec| && IsOwner(rec[i]) { CountHas(rec, i, IsOwner); }
  }

  /** Whether an occupied row before `n` holds `key`. */
  method KeyKnown(rec: AclRows, n: nat, key: Key) returns (known: bool)
    requires n <= ACL_SLOTS
    ensures known <==> exists k :: 0 <= k < n && Occupied(rec[k]) && rec[k].key == key
  {
    for j := 0 to n
      invariant forall k :: 0 <= k < j && Occupied(rec[k]) ==> rec[k].key != key
    {
      if Occupied(rec[j]) && rec[j].key == key { return true; }
    }
    return false;
  }

  method LowestSlot(rec: AclRows) returns (slot: nat)
    ensures slot == LowestFree(rec)
  {
    slot := 0;
    while slot < ACL_SLOTS && Occupied(rec[slot])
      invariant slot <= ACL_SLOTS && LowestFree(rec, slot) == LowestFree(rec)
    {
      slot := slot + 1;
    }
  }

  /** A new row for a loaded record: its key must be new, the first one an owner's, and a slot free. */
  method PlaceRow(b: AclBlob, role: nat, key: Key) returns (p: Proposal)
    ensures p == ProposeRow(b, role, key)
  {
    var known := KeyKnown(b.rec, ACL_SLOTS, key);
    if known { return Refuse(DuplicateKey); }
    var count, owners := AclCensus(b);
    if count == 0 && role != ROLE_OWNER { return Refuse(FirstOwnerRequired); }
    var slot := LowestSlot(b.rec);
    if slot == ACL_SLOTS { return Refuse(AclFull); }
    p := Change(AclBlob(count + 1, b.rec[slot := AclRow(key, role, 0)]), slot, role);
  }

  method AclCensus(b: AclBlob) returns (count: nat, owners: nat)
    ensures count == Count(b.rec, LiveRole) && owners == Count(b.rec, IsOwner)
  {
    count, owners := 0, 0;
    for i := 0 to ACL_SLOTS
      invariant count == Count(b.rec[..i], LiveRole) && owners == Count(b.rec[..i], IsOwner)
    {
      assert b.rec[..i + 1][..i] == b.rec[..i];
      var role := b.rec[i].role;
      if role == ROLE_OPERATOR {
        count := count + 1;
      } else if role == ROLE_OWNER {
        count, owners := count + 1, owners + 1;
      }
    }
    assert b.rec[..ACL_SLOTS] == b.rec;
  }

  // ---- the ACL service ---------------------------------------------------------------------------

  class AclService {
    const store: AclStore
    const live: LiveInstall

    ghost predicate Valid()
      reads live, live.plan, live.plan.acl, live.plan.epoch, live.plan.epochSet
    {
      live.Valid() && !live.armed
    }

    /** The part of the world this service works on; the identity record is `id`, which it never
        touches. */
    ghost function World(id: Slot<AdminIdBlob>): AdminVerbs.World
      requires live.rt.Valid()
      reads store, live.rt, live.rt.acl, live.rt.epoch, live.rt.seen
    {
      AdminVerbs.World(id, store.record, live.rt.Value())
    }
    ghost function Env(idAnswers: bool): AdminVerbs.Env
      reads store, live.rt
    {
      AdminVerbs.Env(idAnswers, store.answers, store.accepts, live.rt.draws)
    }

    constructor (store: AclStore, live: LiveInstall)
      requires live.Valid() && !live.armed
      ensures Valid() && this.store == store && this.live == live
    {
      this.store, this.live := store, live;
    }

    method Classify() returns (s: RecordState, b: AclBlob)
      ensures s == AclStateOf(store.answers, store.record)
      ensures s in {RecordOk, RecordAbsent} ==> b == Loaded(store.record)
    {
      var r;
      r, b := store.Load();
      match r
      case ReadIoFailed => s := RecordIoFailed;
      case ReadAbsent => s, b := RecordAbsent, EMPTY_ACL;
      case ReadInvalid => s := RecordInvalid;
      case ReadOk =>
        var valid := AclContentCheck(b);
        s := if valid then RecordOk else RecordInvalid;
    }

    method DecideAdd(idState: RecordState, role: nat, key: Key) returns (p: Proposal, b: AclBlob)
      ensures p == ProposeAdd(idState, AclStateOf(store.answers, store.record), Loaded(store.record), role, key)
      ensures p.Change? ==> b == Loaded(store.record)
    {
      b := EMPTY_ACL;
      if role != ROLE_OPERATOR && role != ROLE_OWNER { return Refuse(BadArgs), b; }
      if key == 0 { return Refuse(ZeroKey), b; }
      match idState {
        case RecordAbsent => return Refuse(IdentityAbsent), b;
        case RecordInvalid => return Refuse(IdentityInvalid), b;
        case RecordIoFailed => return Refuse(IdentityIoFailed), b;
        case RecordOk =>
      }
      var s;
      s, b := Classify();
      if s == RecordIoFailed { return Refuse(StoreIoFailed), b; }
      if s == RecordInvalid { return Refuse(StoreInvalid), b; }
      p := PlaceRow(b, role, key);
    }

    method DecideSet(slot: nat, role: nat, actor: Option<nat>) returns (p: Proposal, b: AclBlob)
      ensures p == ProposeSet(AclStateOf(store.answers, store.record), Loaded(store.record), slot, role, actor)
      ensures p.Change? ==> b == Loaded(store.record)
    {
      b := EMPTY_ACL;
      if role != ROLE_OPERATOR && role != ROLE_OWNER { return Refuse(BadArgs), b; }
      if slot >= ACL_SLOTS { return Refuse(BadArgs), b; }
      var s;
      s, b := Classify();
      if s == RecordIoFailed { return Refuse(StoreIoFailed), b; }
      if s == RecordInvalid { return Refuse(StoreInvalid), b; }
      if s == RecordAbsent || !Occupied(b.rec[slot]) { return Refuse(SlotEmpty), b; }
      var current := b.rec[slot].role;
      if actor == Some(slot) && current == ROLE_OWNER && role == ROLE_OPERATOR { return Refuse(SelfSlot), b; }
      if current == role { return Keep(slot, role), b; }
      var count, owners := AclCensus(b);
      if current == ROLE_OWNER && owners == 1 { return Refuse(LastOwner), b; }
      return Change(AclBlob(b.count, b.rec[slot := b.rec[slot].(role := role)]), slot, role), b;
    }

    method DecideRemove(slot: nat, actor: Option<nat>) returns (p: Proposal, b: AclBlob)
      ensures p == ProposeRemove(AclStateOf(store.answers, store.record), Loaded(store.record), slot, actor)
      ensures p.Change? ==> b == Loaded(store.record)
    {
      b := EMPTY_ACL;
      if slot >= ACL_SLOTS { return Refuse(BadArgs), b; }
      var s;
      s, b := Classify();
      if s == RecordIoFailed { return Refuse(StoreIoFailed), b; }
      if s == RecordInvalid { return Refuse(StoreInvalid), b; }
      if s == RecordAbsent || !Occupied(b.rec[slot]) { return Refuse(SlotEmpty), b; }
      if actor == Some(slot) { return Refuse(SelfSlot), b; }
      var count, owners := AclCensus(b);
      if b.rec[slot].role == ROLE_OWNER && owners == 1 { return Refuse(LastOwner), b; }
      CountHas(b.rec, slot, LiveRole);
      return Change(AclBlob(count - 1, b.rec[slot := EMPTY_ROW]), slot, ROLE_EMPTY), b;
    }

    method Add(idState: RecordState, role: nat, key: Key, ghost id: Slot<AdminIdBlob>, ghost idAnswers: bool)
      returns (r: AclResult)
      requires Valid() && idState == AdminIdStateOf(idAnswers, id)
      modifies store`record, store`saves, live`armed
      modifies live.plan, live.plan.acl, live.plan.epoch, live.plan.epochSet
      modifies live.rt`draws, live.rt`root, live.rt`occupied, live.rt`readiness
      modifies live.rt.acl, live.rt.epoch, live.rt.seen
      ensures Valid() && (World(id), r) == AclAdd(old(World(id)), old(Env(idAnswers)), role, key)
      ensures store.saves == old(store.saves) + if r.changed || r.err == NvSaveFailed then 1 else 0
    {
      var p, b := DecideAdd(idState, role, key);
      r := Commit(b, p, id, idAnswers);
    }

    method Set(slot: nat, role: nat, actor: Option<nat>, ghost id: Slot<AdminIdBlob>, ghost idAnswers: bool)
      returns (r: AclResult)
      requires Valid()
      modifies store`record, store`saves, live`armed
      modifies live.plan, live.plan.acl, live.plan.epoch, live.plan.epochSet
      modifies live.rt`draws, live.rt`root, live.rt`occupied, live.rt`readiness
      modifies live.rt.acl, live.rt.epoch, live.rt.seen
      ensures Valid() && (World(id), r) == AclSet(old(World(id)), old(Env(idAnswers)), slot, role, actor)
      ensures store.saves == old(store.saves) + if r.changed || r.err == NvSaveFailed then 1 else 0
    {
      var p, b := DecideSet(slot, role, actor);
      r := Commit(b, p, id, idAnswers);
    }

    method Remove(slot: nat, actor: Option<nat>, ghost id: Slot<AdminIdBlob>, ghost idAnswers: bool)
      returns (r: AclResult)
      requires Valid()
      modifies store`record, store`saves, live`armed
      modifies live.plan, live.plan.acl, live.plan.epoch, live.plan.epochSet
      modifies live.rt`draws, live.rt`root, live.rt`occupied, live.rt`readiness
      modifies live.rt.acl, live.rt.epoch, live.rt.seen
      ensures Valid() && (World(id), r) == AclRemove(old(World(id)), old(Env(idAnswers)), slot, actor)
      ensures store.saves == old(store.saves) + if r.changed || r.err == NvSaveFailed then 1 else 0
    {
      var p, b := DecideRemove(slot, actor);
      r := Commit(b, p, id, idAnswers);
    }

    method Recover(ghost id: Slot<AdminIdBlob>, ghost idAnswers: bool) returns (r: AclResult)
      requires Valid()
      modifies store`record, store`saves, live`armed
      modifies live.plan, live.plan.acl, live.plan.epoch, live.plan.epochSet
      modifies live.rt`draws, live.rt`root, live.rt`occupied, live.rt`readiness
      modifies live.rt.acl, live.rt.epoch, live.rt.seen
      ensures Valid() && (World(id), r) == AclReset(old(World(id)), old(Env(idAnswers)))
      ensures store.saves == old(store.saves) + if r.changed || r.err == NvSaveFailed then 1 else 0
    {
      var s, b := Classify();
      if s == RecordIoFailed { return Refused(StoreIoFailed); }
      if s != RecordInvalid { return Refused(NotInvalid); }
      live.PrepareAclReset();
      var saved := store.Save(EMPTY_ACL);
      if !saved {
        live.Discard();
        return Refused(NvSaveFailed);
      }
      live.Commit();
      return AclResult(true, NoErr, 0, ROLE_EMPTY, true);
    }

    /** The one commit path. A proposal carries the candidate that the editing verb composed from the
        record it loaded. */
    method Commit(before: AclBlob, p: Proposal, ghost id: Slot<AdminIdBlob>, ghost idAnswers: bool)
      returns (r: AclResult)
      requires Valid()
      requires p.Change? ==> before == Loaded(store.record)
      requires p != Refuse(NvSaveFailed)
      modifies store`record, store`saves, live`armed
      modifies live.plan, live.plan.acl, live.plan.epoch, live.plan.epochSet
      modifies live.rt`draws, live.rt`root, live.rt`occupied, live.rt`readiness
      modifies live.rt.acl, live.rt.epoch, live.rt.seen
      ensures Valid() && (World(id), r) == AdminVerbs.Commit(old(World(id)), old(Env(idAnswers)), p)
      ensures store.saves == old(store.saves) + if r.changed || r.err == NvSaveFailed then 1 else 0
    {
      if p.Refuse? { return Refused(p.err); }
      if p.Keep? { return AclResult(true, NoErr, p.slot, p.role, false); }
      var valid := AclContentCheck(p.cand);
      if !valid { return Refused(StoreInvalid); }
      if p.cand == before { return AclResult(true, NoErr, p.slot, p.role, false); }
      var prepared := live.PrepareAcl(before.rec, p.cand.rec);
      if !prepared { return Refused(RuntimeUnavailable); }
      var saved := store.Save(p.cand);
      if !saved {
        live.Discard();
        return Refused(NvSaveFailed);
      }
      live.Commit();
      return AclResult(true, NoErr, p.slot, p.role, true);
    }
  }

  // ---- the identity service ---------------------------------------------------------------------

  class AdminIdService {
    const store: AdminIdStore
    const live: LiveInstall

    ghost predicate Valid()
      reads live, live.plan, live.plan.acl, live.plan.epoch, live.plan.epochSet
    {
      live.Valid() && !live.armed
    }
    ghost function World(acl: Slot<AclBlob>): AdminVerbs.World
      requires live.rt.Valid()
      reads store, live.rt, live.rt.acl, live.rt.epoch, live.rt.seen
    {
      AdminVerbs.World(store.record, acl, live.rt.Value())
    }
    ghost function Env(aclAnswers: bool): AdminVerbs.Env
      reads store, live.rt
    {
      AdminVerbs.Env(store.answers, aclAnswers, store.accepts, live.rt.draws)
    }

    constructor (store: AdminIdStore, live: LiveInstall)
      requires live.Valid() && !live.armed
      ensures Valid() && this.store == store && this.live == live
    {
      this.store, this.live := store, live;
    }

    method State() returns (s: RecordState)
      ensures s == AdminIdStateOf(store.answers, store.record)
    {
      var r, b := store.Load();
      match r
      case ReadIoFailed => s := RecordIoFailed;
      case ReadAbsent => s := RecordAbsent;
      case ReadInvalid => s := RecordInvalid;
      case ReadOk => s := if AdminIdContentValid(b) then RecordOk else RecordInvalid;
    }

    /** `admin-id generate`, `rotate confirm` and `reset confirm`: each has its own gate and all three
        reach the one mint path. `seed` is what the checked seed source delivers. */
    method Perform(verb: IdVerb, seed: Option<Key>, ghost acl: Slot<AclBlob>, ghost aclAnswers: bool)
      returns (r: IdResult)
      requires Valid()
      modifies store`record, store`saves, live`armed
      modifies live.plan, live.plan.acl, live.plan.epoch, live.plan.epochSet
      modifies live.rt`draws, live.rt`root, live.rt`occupied, live.rt`readiness
      modifies live.rt.acl, live.rt.epoch, live.rt.seen
      ensures Valid() && (World(acl), r) == MintRoot(live.derive, old(World(acl)), old(Env(aclAnswers)), verb, seed)
      ensures store.saves == old(store.saves) + if r.ok || r.err == IdNvSaveFailed then 1 else 0
    {
      var s := State();
      if s == RecordIoFailed { return IdRefused(IdStoreIoFailed); }
      match verb {
        case Generate =>
          if s == RecordInvalid { return IdRefused(IdStoreInvalid); }
          if s == RecordOk { return IdRefused(AlreadyPresent); }
        case Rotate =>
          if s == RecordInvalid { return IdRefused(IdStoreInvalid); }
          if s == RecordAbsent { return IdRefused(IdAbsent); }
        case Recover =>
          if s != RecordInvalid { return IdRefused(IdNotInvalid); }
      }
      r := Mint(seed);
    }

    /** Draw, refuse a dead draw, prepare, save at most once, commit, and only then publish the key. */
    method Mint(seed: Option<Key>) returns (r: IdResult)
      requires Valid()
      modifies store`record, store`saves, live`armed
      modifies live.plan, live.plan.acl, live.plan.epoch, live.plan.epochSet
      modifies live.rt`draws, live.rt`root, live.rt`occupied, live.rt`readiness
      modifies live.rt.acl, live.rt.epoch, live.rt.seen
      ensures Valid()
      ensures if seed.None? || seed.value == 0 then
                && r == IdRefused(IdEntropyFailed)
                && store.record == old(store.record) && live.rt.Value() == old(live.rt.Value())
              else
                var plan := PrepareRoot(live.derive, seed.value, old(live.rt.draws));
                if plan.Some? && old(store.accepts) then
                  && r == IdResult(true, IdNoErr, live.derive(seed.value).edPub)
                  && store.record == Stored(AdminIdBlob(0, seed.value))
                  && live.rt.Value() == Install(old(live.rt.Value()), plan.value)
                else
                  && r == IdRefused(if plan.None? then IdRuntimeUnavailable else IdNvSaveFailed)
                  && store.record == old(store.record) && live.rt.Value() == old(live.rt.Value())
      ensures store.saves == old(store.saves) + if r.ok || r.err == IdNvSaveFailed then 1 else 0
    {
      if seed.None? { return IdRefused(IdEntropyFailed); }
      var cand := AdminIdBlob(0, seed.value);
      if !AdminIdContentValid(cand) { return IdRefused(IdEntropyFailed); }
      var prepared := live.PrepareRoot(cand.seed);
      if !prepared { return IdRefused(IdRuntimeUnavailable); }
      var saved := store.Save(cand);
      if !saved {
        live.Discard();
        return IdRefused(IdNvSaveFailed);
      }
      live.Commit();
      return IdResult(true, IdNoErr, live.derive(cand.seed).edPub);
    }
  }

  // ---- boot ----------------------------------------------------------------------------------------

  /** Load both records, prepare both halves, install, and report. */
  method BootInstall(idStore: AdminIdStore, aclStore: AclStore, rt: RemoteSession, derive: Derive)
    returns (r: BootReport)
    requires rt.Valid()
    modifies rt`draws, rt`root, rt`occupied, rt`readiness, rt.acl, rt.epoch, rt.seen
    ensures (World(idStore.record, aclStore.record, rt.Value()), r) ==
              Boot(derive, old(World(idStore.record, aclStore.record, rt.Value())),
                   old(Env(idStore.answers, aclStore.answers, idStore.accepts, rt.draws)))
  {
    var idRead, idBlob := idStore.Load();
    var rootOk := idRead == ReadOk && AdminIdContentValid(idBlob);
    var aclOk, acl, count := ReadAcl(aclStore, rt, derive);
    r := RuntimeBoot(rt, derive, rootOk, if rootOk then idBlob.seed else 0, aclOk, acl.rec, count);
  }

  /** The stored ACL as a boot sees it: an empty one unless it is readable and valid. */
  method ReadAcl(aclStore: AclStore, rt: RemoteSession, derive: Derive) returns (ok: bool, acl: AclBlob, count: nat)
    requires rt.Valid()
    ensures ok == (aclStore.answers && AclUsable(aclStore.record)) && count == Count(acl.rec, LiveRole)
    ensures ok ==> acl == Loaded(aclStore.record)
  {
    var live := new LiveInstall(rt, derive);
    var service := new AclService(aclStore, live);
    var state;
    state, acl := service.Classify();
    if state != RecordOk { acl := EMPTY_ACL; }
    var owners;
    count, owners := AclCensus(acl);
    ok := state == RecordOk && owners > 0;
  }

  /** The boot install proper: it reads nothing and installs each half by its own verdict. */
  method RuntimeBoot(rt: RemoteSession, derive: Derive, rootOk: bool, seed: Key, aclOk: bool, acl: AclRows, count: nat)
    returns (r: BootReport)
    requires rt.Valid()
    modifies rt`draws, rt`root, rt`occupied, rt`readiness, rt.acl, rt.epoch, rt.seen
    ensures var plan := PrepareBoot(derive, rootOk, seed, aclOk, acl, old(rt.draws));
            if plan.None? then
              rt.Value() == CLEARED.(readiness := EntropyFailed) && r == BootReport(EntropyFailed, 0)
            else
              && rt.Value() == Install(old(rt.Value()), plan.value)
              && r == if rootOk && aclOk then BootReport(Ready, count) else BootReport(Disabled, 0)
  {
    var plan := new InstallPlan();
    var prepared := PrepareBootPlan(rt, derive, rootOk, seed, aclOk, acl, plan);
    if !prepared {
      rt.MarkEntropyFailed();
      return BootReport(EntropyFailed, 0);
    }
    rt.Install(plan);
    r := if rootOk && aclOk then BootReport(Ready, count) else BootReport(Disabled, 0);
  }

  method PrepareBootPlan(rt: RemoteSession, derive: Derive, rootOk: bool, seed: Key, aclOk: bool, acl: AclRows,
                         plan: InstallPlan)
    returns (ok: bool)
    requires rt.Valid() && plan.Valid() && plan.Value() == NO_PLAN
    modifies rt`draws, plan, plan.acl, plan.epoch, plan.epochSet
    ensures PrepareBoot(derive, rootOk, seed, aclOk, acl, old(rt.draws)) == if ok then Some(plan.Value()) else None
  {
    plan.invalidateAll := true;
    if rootOk {
      ok := PrepareRootPlan(rt, derive, seed, plan);
      if !ok { return; }
      assert plan.epochSet[..] == ALL_SLOTS;
    } else {
      plan.clearRoot := true;
      NothingToMint(rt.draws);
    }
    plan.setAcl := true;
    if aclOk {
      ImageFromBlob(acl, plan);
      ok := MintMissing(rt, acl, plan);
    } else {
      ClearAclHalf(plan);
      ok := true;
    }
  }

  lemma NothingToMint(draws: seq<nat>)
    ensures Mint(NO_SLOTS, draws).ok
  {
    MintSucceeds(NO_SLOTS, draws);
    CountWitness(NO_SLOTS, IsSet);
  }

  /** The ACL half of a boot: every slot the root half left out gets its own epoch, or 0 when empty. */
  method MintMissing(rt: RemoteSession, acl: AclRows, plan: InstallPlan) returns (ok: bool)
    requires rt.Valid() && plan.Valid() && plan.acl[..] == Image(acl)
    modifies rt`draws, plan.epoch, plan.epochSet
    ensures old(plan.epochSet[..]) == ALL_SLOTS ==>
              ok && plan.epoch[..] == old(plan.epoch[..]) && plan.epochSet[..] == ALL_SLOTS
    ensures old(plan.epochSet[..]) == NO_SLOTS ==>
              && ok == Mint(LiveNeeds(acl), old(rt.draws)).ok
              && (ok ==> plan.epoch[..] == Mint(LiveNeeds(acl), old(rt.draws)).epochs && plan.epochSet[..] == ALL_SLOTS)
  {
    ghost var need := LiveNeeds(acl);
    ghost var done: seq<nat> := [];
    ghost var whole := old(plan.epochSet[..]) == ALL_SLOTS;
    ghost var none := old(plan.epochSet[..]) == NO_SLOTS;
    assert need[0..] == need;
    for i := 0 to ACL_SLOTS
      invariant forall k :: i <= k < ACL_SLOTS ==> plan.epochSet[k] == old(plan.epochSet[k])
      invariant forall k :: 0 <= k < i ==> plan.epochSet[k]
      invariant whole ==> forall k :: 0 <= k < ACL_SLOTS ==> plan.epoch[k] == old(plan.epoch[k])
      invariant none ==> Mint(need, old(rt.draws)) == Continue(done, Mint(need[i..], rt.draws))
      invariant none ==> |done| == i && forall k :: 0 <= k < i ==> plan.epoch[k] == done[k]
    {
      if plan.epochSet[i] { assert !none; continue; }
      assert !whole;
      MintStep(done, need, i, rt.draws);
      plan.epochSet[i] := true;
      assert plan.acl[i] == Image(acl)[i];
      if plan.acl[i].role == ROLE_EMPTY {
        plan.epoch[i] := 0;
        done := done + [0];
        continue;
      }
      var drawn, e := rt.DrawEpoch();
      if !drawn { return false; }
      plan.epoch[i] := e;
      done := done + [e];
    }
    assert need[ACL_SLOTS..] == [] && done + [] == done;
    assert none ==> plan.epoch[..] == done;
    assert plan.epochSet[..] == ALL_SLOTS;
    return true;
  }
}
