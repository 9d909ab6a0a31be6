/** The two durable records of a remote-admin target and their content rules:
    the administration identity (`/mradmid`) and the ten-slot controller ACL (`/mracl`). */
module AdminRecords {
  import opened Common

  const ACL_SLOTS: nat := 10
  const ROLE_EMPTY: nat := 0
  const ROLE_OPERATOR: nat := 1
  const ROLE_OWNER: nat := 2

  datatype AclRow = AclRow(key: Key, role: nat, reserved: nat)
  const EMPTY_ROW: AclRow := AclRow(0, ROLE_EMPTY, 0)

  type AclRows = s: seq<AclRow> | |s| == ACL_SLOTS witness Fill(ACL_SLOTS, EMPTY_ROW)
  datatype AclBlob = AclBlob(count: nat, rec: AclRows)

  const NO_ACL_ROWS: AclRows := Fill(ACL_SLOTS, EMPTY_ROW)
  const EMPTY_ACL: AclBlob := AclBlob(0, NO_ACL_ROWS)

  /** The seed is the one secret; every public field is derived from it. */
  datatype AdminIdBlob = AdminIdBlob(reserved: nat, seed: Key)

  predicate Occupied(r: AclRow) { r.role != ROLE_EMPTY }
  predicate IsOwner(r: AclRow) { r.role == ROLE_OWNER }
  predicate IsOperator(r: AclRow) { r.role == ROLE_OPERATOR }
  /** A row whose role byte names a real credential. */
  predicate LiveRole(r: AclRow) { IsOperator(r) || IsOwner(r) }

  /** What one row must look like by itself: reserved bytes zero, an empty row without a key,
      an occupied row with a legal role and a key. */
  predicate RowWellFormed(r: AclRow) {
    && r.reserved == 0
    && if Occupied(r) then LiveRole(r) && r.key != 0 else r.key == 0
  }

  ghost predicate KeysDistinct(rec: seq<AclRow>) {
    forall i, j :: 0 <= i < j < |rec| && Occupied(rec[i]) && Occupied(rec[j]) ==> rec[i].key != rec[j].key
  }

  ghost predicate HasOwner(rec: seq<AclRow>) {
    exists i :: 0 <= i < |rec| && IsOwner(rec[i])
  }

  /** The content rules of the ACL record, as the design words them: well-formed rows, no key
      twice, `count` is the population, and a non-empty list has an owner. */
  ghost predicate AclContentValid(b: AclBlob) {
    && (forall i :: 0 <= i < ACL_SLOTS ==> RowWellFormed(b.rec[i]))
    && KeysDistinct(b.rec)
    && b.count == Count(b.rec, Occupied)
    && (b.count > 0 ==> HasOwner(b.rec))
  }

  predicate AdminIdContentValid(b: AdminIdBlob) { b.reserved == 0 && b.seed != 0 }

  ghost function AclStateOf(answers: bool, slot: Slot<AclBlob>): RecordState {
    if !answers then RecordIoFailed
    else match slot
      case Absent => RecordAbsent
      case Corrupt => RecordInvalid
      case Stored(b) => if AclContentValid(b) then RecordOk else RecordInvalid
  }

  function AdminIdStateOf(answers: bool, slot: Slot<AdminIdBlob>): RecordState {
    if !answers then RecordIoFailed
    else match slot
      case Absent => RecordAbsent
      case Corrupt => RecordInvalid
      case Stored(b) => if AdminIdContentValid(b) then RecordOk else RecordInvalid
  }

  /** The two durable halves of "provisioning ready": a usable root, and a valid ACL that
      already has an owner. */
  predicate RootUsable(id: Slot<AdminIdBlob>) { AdminIdStateOf(true, id) == RecordOk }
  ghost predicate AclUsable(acl: Slot<AclBlob>) {
    AclStateOf(true, acl) == RecordOk && Count(acl.blob.rec, IsOwner) > 0
  }

  /** Readiness as the verbs recompute it from the two records, never stored. */
  ghost predicate ProvisioningReady(id: Slot<AdminIdBlob>, acl: Slot<AclBlob>) {
    RootUsable(id) && AclUsable(acl)
  }

  /** A valid ACL is usable exactly when it is not empty. */
  lemma UsableWhenNotEmpty(b: AclBlob)
    requires AclContentValid(b)
    ensures Count(b.rec, IsOwner) > 0 <==> b.count > 0
    ensures b.count == 0 ==> b == EMPTY_ACL
  {
    CountWitness(b.rec, IsOwner);
    CountWitness(b.rec, Occupied);
    if b.count > 0 {
      var i :| 0 <= i < |b.rec| && IsOwner(b.rec[i]);
      CountHas(b.rec, i, IsOwner);
    } else {
      forall i | 0 <= i < ACL_SLOTS ensures b.rec[i] == EMPTY_ROW {
        if Occupied(b.rec[i]) { CountHas(b.rec, i, Occupied); }
      }
      if i :| 0 <= i < |b.rec| && IsOwner(b.rec[i]) { assert false; }
    }
  }

  /** The empty record is valid. */
  lemma EmptyAclValid()
    ensures AclContentValid(EMPTY_ACL)
  {
    CountWitness(EMPTY_ACL.rec, Occupied);
  }

  // ---- the four edits the services compose -------------------------------------------------

  /** A fresh row in a free slot of a valid record leaves it valid, when the key is new and the
      list keeps (or gets) an owner. */
  lemma AddKeepsValid(b: AclBlob, slot: nat, row: AclRow)
    requires AclContentValid(b) && slot < ACL_SLOTS && !Occupied(b.rec[slot])
    requires RowWellFormed(row) && LiveRole(row)
    requires forall i :: 0 <= i < ACL_SLOTS && Occupied(b.rec[i]) ==> b.rec[i].key != row.key
    requires b.count == 0 ==> IsOwner(row)
    ensures AclContentValid(AclBlob(b.count + 1, b.rec[slot := row]))
  {
    var rec := b.rec[slot := row];
    CountUpdate(b.rec, slot, row, Occupied);
    if b.count > 0 {
      var i :| 0 <= i < |b.rec| && IsOwner(b.rec[i]);
      assert rec[i] == b.rec[i];
    } else {
      assert IsOwner(rec[slot]);
    }
  }

  /** When a record has two owners, taking one of them away leaves one. */
  lemma OwnerRemains(rec: AclRows, slot: nat, row: AclRow)
    requires slot < ACL_SLOTS
    requires Count(rec, IsOwner) > if IsOwner(rec[slot]) then 1 else 0
    ensures HasOwner(rec[slot := row])
  {
    CountUpdate(rec, slot, row, IsOwner);
    CountWitness(rec[slot := row], IsOwner);
  }

  /** A role change that does not touch the last owner leaves the record valid. */
  lemma SetKeepsValid(b: AclBlob, slot: nat, role: nat)
    requires AclContentValid(b) && slot < ACL_SLOTS && Occupied(b.rec[slot])
    requires role == ROLE_OPERATOR || role == ROLE_OWNER
    requires IsOwner(b.rec[slot]) ==> Count(b.rec, IsOwner) != 1
    ensures AclContentValid(b.(rec := b.rec[slot := b.rec[slot].(role := role)]))
  {
    var row := b.rec[slot].(role := role);
    CountUpdate(b.rec, slot, row, Occupied);
    CountHas(b.rec, slot, Occupied);
    UsableWhenNotEmpty(b);
    if IsOwner(b.rec[slot]) { CountHas(b.rec, slot, IsOwner); }
    OwnerRemains(b.rec, slot, row);
  }

  /** Freeing a slot that does not hold the last owner leaves the record valid and non-empty. */
  lemma RemoveKeepsValid(b: AclBlob, slot: nat)
    requires AclContentValid(b) && slot < ACL_SLOTS && Occupied(b.rec[slot])
    requires IsOwner(b.rec[slot]) ==> Count(b.rec, IsOwner) != 1
    ensures b.count > 0
    ensures AclContentValid(AclBlob(b.count - 1, b.rec[slot := EMPTY_ROW]))
    ensures HasOwner(b.rec[slot := EMPTY_ROW])
  {
    CountUpdate(b.rec, slot, EMPTY_ROW, Occupied);
    CountHas(b.rec, slot, Occupied);
    UsableWhenNotEmpty(b);
    if IsOwner(b.rec[slot]) { CountHas(b.rec, slot, IsOwner); }
    OwnerRemains(b.rec, slot, EMPTY_ROW);
  }
}
