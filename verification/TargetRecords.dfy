/** The controller's target book: its rows, its content rules, and the selectors that name a row. */
module TargetRecords {
  import opened Common

  const TARGETS: nat := 32
  const LABEL_BYTES: nat := 16
  const HOP_MAX: nat := 3
  const HOP_BYTES: nat := 4
  const OCCUPIED_FLAG: nat := 1

  type Label = s: string | |s| == LABEL_BYTES witness Fill(LABEL_BYTES, NUL)
  type Hops = s: seq<nat> | |s| == HOP_BYTES witness Fill(HOP_BYTES, 0)

  datatype TargetRow = TargetRow(adminPub: Key, hash: nat, hops: Hops, hopCount: nat, labelLen: nat, text: Label,
                                 flags: nat, reserved: nat)
  const NO_LABEL: Label := Fill(LABEL_BYTES, NUL)
  const NO_HOPS: Hops := Fill(HOP_BYTES, 0)
  const ZERO_ROW: TargetRow := TargetRow(0, 0, NO_HOPS, 0, 0, NO_LABEL, 0, 0)

  type TargetRows = s: seq<TargetRow> | |s| == TARGETS witness Fill(TARGETS, ZERO_ROW)
  datatype TargetBook = TargetBook(count: nat, rec: TargetRows)
  const NO_TARGETS: TargetRows := Fill(TARGETS, ZERO_ROW)
  const EMPTY_BOOK: TargetBook := TargetBook(0, NO_TARGETS)

  /** What a mutation is given: fully parsed, not yet validated. */
  datatype Spec = Spec(adminPub: Key, hash: nat, hops: Hops, hopCount: nat, text: Label, labelLen: nat)

  predicate LabelChar(c: char) {
    'A' <= c <= 'Z' || 'a' <= c <= 'z' || '0' <= c <= '9' || c == '_' || c == '.' || c == '-'
  }
  /** A label of 1..16 legal characters followed by zeros. */
  predicate LabelValid(text: Label, len: nat) {
    && 0 < len <= LABEL_BYTES
    && (forall i :: 0 <= i < len ==> LabelChar(text[i]))
    && (forall i :: len <= i < LABEL_BYTES ==> text[i] == NUL)
  }
  /** Up to three non-zero layers followed by zeros. */
  predicate PathValid(hops: Hops, count: nat) {
    && count <= HOP_MAX
    && (forall i :: 0 <= i < count ==> hops[i] != 0)
    && (forall i :: count <= i < HOP_BYTES ==> hops[i] == 0)
  }

  predicate Occupied(r: TargetRow) { r.flags % 2 == OCCUPIED_FLAG }

  predicate RowValid(r: TargetRow) {
    if !Occupied(r) then r == ZERO_ROW
    else
      && r.flags == OCCUPIED_FLAG && r.reserved == 0 && r.adminPub != 0 && r.hash != 0
      && LabelValid(r.text, r.labelLen) && PathValid(r.hops, r.hopCount)
  }

  predicate SameLabel(a: TargetRow, b: TargetRow) {
    && a.labelLen == b.labelLen <= LABEL_BYTES
    && a.text[..a.labelLen] == b.text[..b.labelLen]
  }

  /** Two rows that may not both be in one book. */
  predicate Clash(a: TargetRow, b: TargetRow) {
    Occupied(a) && Occupied(b) && (a.adminPub == b.adminPub || SameLabel(a, b))
  }

  ghost predicate ContentValid(b: TargetBook) {
    && (forall i :: 0 <= i < TARGETS ==> RowValid(b.rec[i]))
    && (forall i, j :: 0 <= i < j < TARGETS ==> !Clash(b.rec[i], b.rec[j]))
    && b.count == Count(b.rec, Occupied)
  }

  predicate SpecValid(s: Spec) {
    s.adminPub != 0 && s.hash != 0 && LabelValid(s.text, s.labelLen) && PathValid(s.hops, s.hopCount)
  }

  function Composed(s: Spec): TargetRow {
    TargetRow(s.adminPub, s.hash, s.hops, s.hopCount, s.labelLen, s.text, OCCUPIED_FLAG, 0)
  }

  ghost function StateOf(answers: bool, slot: Slot<TargetBook>): RecordState {
    if !answers then RecordIoFailed
    else match slot
      case Absent => RecordAbsent
      case Corrupt => RecordInvalid
      case Stored(b) => if ContentValid(b) then RecordOk else RecordInvalid
  }

  lemma EmptyBookValid()
    ensures ContentValid(EMPTY_BOOK)
  {
    CountWitness(EMPTY_BOOK.rec, Occupied);
  }

  /** Putting one row into a valid book keeps it valid, when the row is valid by itself and clashes
      with none of the others. */
  lemma PutKeepsValid(b: TargetBook, slot: nat, row: TargetRow)
    requires ContentValid(b) && slot < TARGETS && RowValid(row)
    requires forall i :: 0 <= i < TARGETS && i != slot ==> !Clash(b.rec[i], row)
    ensures ContentValid(TargetBook(Count(b.rec[slot := row], Occupied), b.rec[slot := row]))
    ensures Count(b.rec[slot := row], Occupied) + (if Occupied(b.rec[slot]) then 1 else 0)
              == b.count + if Occupied(row) then 1 else 0
  {
    CountUpdate(b.rec, slot, row, Occupied);
  }

  // ---- selectors ---------------------------------------------------------------------------------

  /** A match mask: one bit per slot. */
  type Mask = m: seq<bool> | |m| == TARGETS witness Fill(TARGETS, false)

  datatype Pick = PickNone | PickOne(slot: nat) | PickMany

  /** The verdict of a mask says how many bits it has, and which one when there is just one. */
  method PickFromMask(mask: Mask) returns (p: Pick)
    ensures p.PickNone? <==> forall i :: 0 <= i < TARGETS ==> !mask[i]
    ensures p.PickMany? <==> exists i, j :: 0 <= i < j < TARGETS && mask[i] && mask[j]
    ensures p.PickOne? ==> p.slot < TARGETS && mask[p.slot] && forall i :: 0 <= i < TARGETS && mask[i] ==> i == p.slot
  {
    var first, n := 0, 0;
    for i := 0 to TARGETS
      invariant n == 0 ==> forall k :: 0 <= k < i ==> !mask[k]
      invariant n > 0 ==> first < i && mask[first] && forall k :: 0 <= k < first ==> !mask[k]
      invariant n == 1 ==> forall k :: 0 <= k < i && k != first ==> !mask[k]
      invariant n > 1 ==> exists k :: first < k < i && mask[k]
    {
      if mask[i] {
        if n == 0 { first := i; }
        n := n + 1;
      }
    }
    if n == 0 { return PickNone; }
    if n > 1 { return PickMany; }
    return PickOne(first);
  }

  predicate HasLabel(r: TargetRow, text: string) {
    Occupied(r) && r.labelLen == |text| <= LABEL_BYTES && r.text[..r.labelLen] == text
  }

  method MaskByLabel(b: TargetBook, text: string) returns (m: Mask)
    ensures forall i :: 0 <= i < TARGETS ==> (m[i] <==> text != "" && HasLabel(b.rec[i], text))
  {
    m := Fill(TARGETS, false);
    if |text| == 0 || |text| > LABEL_BYTES { return; }
    for i := 0 to TARGETS
      invariant forall k :: 0 <= k < i ==> (m[k] <==> HasLabel(b.rec[k], text))
      invariant forall k :: i <= k < TARGETS ==> !m[k]
    {
      if !Occupied(b.rec[i]) || b.rec[i].labelLen != |text| { continue; }
      if b.rec[i].text[..b.rec[i].labelLen] == text { m := m[i := true]; }
    }
  }

  predicate Renders(r: TargetRow, fp: Key -> string, want: string) { Occupied(r) && fp(r.adminPub) == want }

  /** `fp` renders the fingerprint of an administration key. */
  method MaskByFingerprint(b: TargetBook, fp: Key -> string, want: string) returns (m: Mask)
    ensures forall i :: 0 <= i < TARGETS ==> (m[i] <==> Renders(b.rec[i], fp, want))
  {
    m := Fill(TARGETS, false);
    for i := 0 to TARGETS
      invariant forall k :: 0 <= k < i ==> (m[k] <==> Renders(b.rec[k], fp, want))
      invariant forall k :: i <= k < TARGETS ==> !m[k]
    {
      if !Occupied(b.rec[i]) { continue; }
      if fp(b.rec[i].adminPub) == want { m := m[i := true]; }
    }
  }

  /** On a valid book no two rows answer to one label. */
  lemma LabelIsUnique(b: TargetBook, text: string, i: nat, j: nat)
    requires ContentValid(b) && i < TARGETS && j < TARGETS
    requires HasLabel(b.rec[i], text) && HasLabel(b.rec[j], text)
    ensures i == j
  {
    if i != j {
      assert SameLabel(b.rec[i], b.rec[j]);
      assert Clash(b.rec[i], b.rec[j]) && Clash(b.rec[j], b.rec[i]);
    }
  }

  /** Resolving a label on a valid book names exactly the row that carries it: never ambiguous, and
      nothing only when no row does. */
  method ResolveLabel(b: TargetBook, text: string) returns (p: Pick)
    requires ContentValid(b) && text != ""
    ensures !p.PickMany?
    ensures p.PickOne? ==> p.slot < TARGETS && HasLabel(b.rec[p.slot], text)
    ensures p.PickNone? <==> forall i :: 0 <= i < TARGETS ==> !HasLabel(b.rec[i], text)
  {
    var m := MaskByLabel(b, text);
    p := PickFromMask(m);
    if p.PickMany? {
      var i, j :| 0 <= i < j < TARGETS && m[i] && m[j];
      LabelIsUnique(b, text, i, j);
    }
  }

  /** Resolving a fingerprint is ambiguous exactly when two rows' keys render alike; a fingerprint
      without collisions on the book names one row or none. */
  method ResolveFingerprint(b: TargetBook, fp: Key -> string, want: string) returns (p: Pick)
    ensures p.PickMany? <==>
              exists i, j :: 0 <= i < j < TARGETS && Renders(b.rec[i], fp, want) && Renders(b.rec[j], fp, want)
    ensures p.PickOne? ==> p.slot < TARGETS && Renders(b.rec[p.slot], fp, want)
    ensures p.PickNone? <==> forall i :: 0 <= i < TARGETS ==> !Renders(b.rec[i], fp, want)
  {
    var m := MaskByFingerprint(b, fp, want);
    p := PickFromMask(m);
  }
}
