/** What each verb of the remote-admin target does to the two stored records and to the running
    state, as functions of the state before and of what the stores and the entropy source will
    answer. `AdminServices` implements them step by step; `AdminRuns` proves what runs of them keep. */
module AdminVerbs {
  import opened Common
  import opened AdminRecords
  import opened AdminLive

  /** Both records on the medium, and the running state. */
  datatype World = World(id: Slot<AdminIdBlob>, acl: Slot<AclBlob>, live: Live)

  /** What the environment answers during one verb: whether each store can be read, whether a
      save is accepted (a refused one leaves the record as it was), and the epoch draws. */
  datatype Env = Env(idAnswers: bool, aclAnswers: bool, accepts: bool, draws: seq<nat>)

  // ---- the ACL verbs ---------------------------------------------------------------------------

  datatype AclErr =
    | NoErr | BadArgs | StoreInvalid | StoreIoFailed | NotInvalid
    | IdentityAbsent | IdentityInvalid | IdentityIoFailed
    | DuplicateKey | ZeroKey | AclFull | SlotEmpty | FirstOwnerRequired | LastOwner | SelfSlot
    | NvSaveFailed | RuntimeUnavailable

  datatype AclResult = AclResult(ok: bool, err: AclErr, slot: nat, role: nat, changed: bool)
  function Refused(e: AclErr): AclResult { AclResult(false, e, 0, ROLE_EMPTY, false) }

  /** What a verb decides from the loaded record, before anything is drawn or written. */
  datatype Proposal =
    | Refuse(err: AclErr)
    | Keep(slot: nat, role: nat)
    | Change(cand: AclBlob, slot: nat, role: nat)

  /** The record a verb works on: an absent one is the empty record. */
  function Loaded(acl: Slot<AclBlob>): AclBlob {
    match acl
    case Stored(b) => b
    case _ => EMPTY_ACL
  }

  predicate Assignable(role: nat) { role == ROLE_OPERATOR || role == ROLE_OWNER }

  /** The lowest slot from `i` on that holds no row, or the slot count. */
  function LowestFree(rec: AclRows, i: nat := 0): (slot: nat)
    requires i <= ACL_SLOTS
    ensures i <= slot <= ACL_SLOTS
    ensures slot < ACL_SLOTS ==> !Occupied(rec[slot])
    ensures forall k :: i <= k < slot ==> Occupied(rec[k])
    decreases ACL_SLOTS - i
  {
    if i == ACL_SLOTS || !Occupied(rec[i]) then i else LowestFree(rec, i + 1)
  }

  ghost predicate HoldsKey(rec: AclRows, key: Key) {
    exists i :: 0 <= i < ACL_SLOTS && Occupied(rec[i]) && rec[i].key == key
  }

  ghost function ProposeAdd(idState: RecordState, aclState: RecordState, b: AclBlob, role: nat, key: Key): Proposal {
    if !Assignable(role) then Refuse(BadArgs)
    else if key == 0 then Refuse(ZeroKey)
    else if idState == RecordAbsent then Refuse(IdentityAbsent)
    else if idState == RecordInvalid then Refuse(IdentityInvalid)
    else if idState == RecordIoFailed then Refuse(IdentityIoFailed)
    else if aclState == RecordIoFailed then Refuse(StoreIoFailed)
    else if aclState == RecordInvalid then Refuse(StoreInvalid)
    else ProposeRow(b, role, key)
  }
  ghost function ProposeRow(b: AclBlob, role: nat, key: Key): Proposal {
    var slot := LowestFree(b.rec);
    if HoldsKey(b.rec, key) then Refuse(DuplicateKey)
    else if Count(b.rec, LiveRole) == 0 && role != ROLE_OWNER then Refuse(FirstOwnerRequired)
    else if slot == ACL_SLOTS then Refuse(AclFull)
    else Change(AclBlob(Count(b.rec, LiveRole) + 1, b.rec[slot := AclRow(key, role, 0)]), slot, role)
  }

  ghost function ProposeSet(aclState: RecordState, b: AclBlob, slot: nat, role: nat, actor: Option<nat>): Proposal {
    if !Assignable(role) || slot >= ACL_SLOTS then Refuse(BadArgs)
    else if aclState == RecordIoFailed then Refuse(StoreIoFailed)
    else if aclState == RecordInvalid then Refuse(StoreInvalid)
    else if aclState == RecordAbsent || !Occupied(b.rec[slot]) then Refuse(SlotEmpty)
    else if actor == Some(slot) && IsOwner(b.rec[slot]) && role == ROLE_OPERATOR then Refuse(SelfSlot)
    else if b.rec[slot].role == role then Keep(slot, role)
    else if IsOwner(b.rec[slot]) && Count(b.rec, IsOwner) == 1 then Refuse(LastOwner)
    else Change(AclBlob(b.count, b.rec[slot := b.rec[slot].(role := role)]), slot, role)
  }

  ghost function ProposeRemove(aclState: RecordState, b: AclBlob, slot: nat, actor: Option<nat>): Proposal {
    if slot >= ACL_SLOTS then Refuse(BadArgs)
    else if aclState == RecordIoFailed then Refuse(StoreIoFailed)
    else if aclState == RecordInvalid then Refuse(StoreInvalid)
    else if aclState == RecordAbsent || !Occupied(b.rec[slot]) then Refuse(SlotEmpty)
    else if actor == Some(slot) then Refuse(SelfSlot)
    else if IsOwner(b.rec[slot]) && Count(b.rec, IsOwner) == 1 then Refuse(LastOwner)
    else Change(AclBlob(Pred(Count(b.rec, LiveRole)), b.rec[slot := EMPTY_ROW]), slot, ROLE_EMPTY)
  }

  /** The one commit path: validate, compare, prepare, save, install. A step that refuses leaves
      the world as it was. */
  ghost function Commit(w: World, env: Env, p: Proposal): (World, AclResult) {
    match p
    case Refuse(e) => (w, Refused(e))
    case Keep(slot, role) => (w, AclResult(true, NoErr, slot, role, false))
    case Change(cand, slot, role) =>
      if !AclContentValid(cand) then (w, Refused(StoreInvalid))
      else if cand == Loaded(w.acl) then (w, AclResult(true, NoErr, slot, role, false))
      else
        var plan := PrepareAcl(Loaded(w.acl).rec, cand.rec, env.draws);
        if plan.None? then (w, Refused(RuntimeUnavailable))
        else if !env.accepts then (w, Refused(NvSaveFailed))
        else (World(w.id, Stored(cand), Install(w.live, plan.value)), AclResult(true, NoErr, slot, role, true))
  }

  ghost function AclAdd(w: World, env: Env, role: nat, key: Key): (World, AclResult) {
    Commit(w, env, ProposeAdd(AdminIdStateOf(env.idAnswers, w.id), AclStateOf(env.aclAnswers, w.acl),
                              Loaded(w.acl), role, key))
  }
  ghost function AclSet(w: World, env: Env, slot: nat, role: nat, actor: Option<nat>): (World, AclResult) {
    Commit(w, env, ProposeSet(AclStateOf(env.aclAnswers, w.acl), Loaded(w.acl), slot, role, actor))
  }
  ghost function AclRemove(w: World, env: Env, slot: nat, actor: Option<nat>): (World, AclResult) {
    Commit(w, env, ProposeRemove(AclStateOf(env.aclAnswers, w.acl), Loaded(w.acl), slot, actor))
  }

  /** `acl reset confirm`: the only write over an invalid record; it needs no entropy. */
  ghost function AclReset(w: World, env: Env): (World, AclResult) {
    var s := AclStateOf(env.aclAnswers, w.acl);
    if s == RecordIoFailed then (w, Refused(StoreIoFailed))
    else if s != RecordInvalid then (w, Refused(NotInvalid))
    else if !env.accepts then (w, Refused(NvSaveFailed))
    else (World(w.id, Stored(EMPTY_ACL), Install(w.live, RESET_PLAN)), AclResult(true, NoErr, 0, ROLE_EMPTY, true))
  }

  // ---- the identity verbs ------------------------------------------------------------------------

  datatype IdErr =
    | IdNoErr | IdAbsent | IdStoreInvalid | IdStoreIoFailed | AlreadyPresent | IdNotInvalid
    | IdEntropyFailed | IdNvSaveFailed | IdRuntimeUnavailable

  datatype IdResult = IdResult(ok: bool, err: IdErr, edPub: Key)
  function IdRefused(e: IdErr): IdResult { IdResult(false, e, 0) }

  datatype IdVerb = Generate | Rotate | Recover

  /** The record state each verb is for: generate an absent root, rotate a valid one, recover a
      corrupt one. An unreadable store refuses all three. */
  function IdGate(v: IdVerb, s: RecordState): IdErr {
    match s
    case RecordIoFailed => IdStoreIoFailed
    case RecordInvalid => if v.Recover? then IdNoErr else IdStoreInvalid
    case RecordAbsent => if v.Generate? then IdNoErr else if v.Rotate? then IdAbsent else IdNotInvalid
    case RecordOk => if v.Rotate? then IdNoErr else if v.Generate? then AlreadyPresent else IdNotInvalid
  }

  /** `seed` is what the checked seed source delivers; None when it refuses. */
  ghost function MintRoot(derive: Derive, w: World, env: Env, v: IdVerb, seed: Option<Key>): (World, IdResult) {
    var gate := IdGate(v, AdminIdStateOf(env.idAnswers, w.id));
    if gate != IdNoErr then (w, IdRefused(gate))
    else if seed.None? || seed.value == 0 then (w, IdRefused(IdEntropyFailed))
    else
      var plan := PrepareRoot(derive, seed.value, env.draws);
      if plan.None? then (w, IdRefused(IdRuntimeUnavailable))
      else if !env.accepts then (w, IdRefused(IdNvSaveFailed))
      else (World(Stored(AdminIdBlob(0, seed.value)), w.acl, Install(w.live, plan.value)),
            IdResult(true, IdNoErr, derive(seed.value).edPub))
  }

  // ---- boot ----------------------------------------------------------------------------------------

  datatype BootReport = BootReport(state: Readiness, slots: nat)

  /** A boot reads both records and installs each usable half; a refused draw leaves the node
      cleared with its cause recorded. It writes nothing. */
  ghost function Boot(derive: Derive, w: World, env: Env): (World, BootReport) {
    var rootOk := env.idAnswers && RootUsable(w.id);
    var aclOk := env.aclAnswers && AclUsable(w.acl);
    var seed := if rootOk then w.id.blob.seed else 0;
    var rec := Loaded(w.acl).rec;
    match PrepareBoot(derive, rootOk, seed, aclOk, rec, env.draws)
    case None => (w.(live := CLEARED.(readiness := EntropyFailed)), BootReport(EntropyFailed, 0))
    case Some(plan) => (w.(live := Install(w.live, plan)),
                        if rootOk && aclOk then BootReport(Ready, Count(rec, LiveRole)) else BootReport(Disabled, 0))
  }

  // ---- requests and session rollover -------------------------------------------------------------

  predicate SeenUnder(seen: SeenPool, slot: nat, id: nat) {
    exists j :: 0 <= j < SEEN_SLOTS && seen[j].Held? && seen[j].slot == slot && seen[j].id == id
  }

  function FreeSeen(seen: SeenPool, j: nat := 0): (k: nat)
    requires j <= SEEN_SLOTS
    ensures j <= k <= SEEN_SLOTS && (k < SEEN_SLOTS ==> seen[k].Free?)
    decreases SEEN_SLOTS - j
  {
    if j == SEEN_SLOTS || seen[j].Free? then j else FreeSeen(seen, j + 1)
  }

  /** An authenticated execute request for `slot`: refused while the node does not accept or the
      slot has no usable row, a retry changes nothing, and a new one takes a free entry. */
  function Admit(live: Live, slot: nat, id: nat): Live {
    if !live.readiness.Ready? || slot >= ACL_SLOTS || !RowLive(live.acl[slot]) || live.epoch[slot] == 0 then live
    else if SeenUnder(live.seen, slot, id) || FreeSeen(live.seen) == SEEN_SLOTS || live.root.None? then live
    else
      var e := Held(slot, id, live.epoch[slot], live.root.value, live.acl[slot]);
      live.(seen := live.seen[FreeSeen(live.seen) := e])
  }

  function RolloverPlan(slot: nat, epoch: nat): Plan
    requires slot < ACL_SLOTS
  {
    Plan(false, NO_PAIR, false, false, NO_ROWS, NO_EPOCHS[slot := epoch], NO_SLOTS[slot := true], false)
  }

  /** A session rollover of a live slot: one fresh epoch, different from the current one. */
  ghost function Rollover(live: Live, slot: nat, draws: seq<nat>): Live {
    var e := Draw(draws).0;
    if slot >= ACL_SLOTS || !RowLive(live.acl[slot]) || live.epoch[slot] == 0 then live
    else if e.None? || e.value == live.epoch[slot] then live
    else Install(live, RolloverPlan(slot, e.value))
  }
}
