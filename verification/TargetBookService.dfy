/** The target-book service: every mutation reloads, edits one row of the caller's buffer, validates
    the whole book, saves at most once, and restores the row on every failing arm. */
module TargetBookService {
  import opened Common
  import opened TargetRecords

  datatype TargetErr =
    | NoErr | BadArgs | StoreInvalid | StoreIoFailed | NotInvalid | NotFound | Duplicate | Full | InUse
    | Unchanged | NvSaveFailed
  datatype TargetResult = TargetResult(ok: bool, err: TargetErr, slot: nat, adminPub: Key)
  function Refused(e: TargetErr): TargetResult { TargetResult(false, e, 0, 0) }

  /** The record on the medium, and the caller's buffer. */
  datatype State = State(record: Slot<TargetBook>, buf: TargetBook)
  /** What the environment answers during one call; `busy` are the slots something live is bound to. */
  datatype Env = Env(answers: bool, accepts: bool, busy: set<nat>)

  datatype Op = Add(spec: Spec) | Set(slot: nat, spec: Spec) | Remove(slot: nat) | Reset

  ghost function LoadForWrite(record: Slot<TargetBook>, answers: bool): (RecordState, TargetBook) {
    var s := StateOf(answers, record);
    if s == RecordOk then (RecordOk, record.blob)
    else if s == RecordAbsent then (RecordOk, EMPTY_BOOK)
    else (s, EMPTY_BOOK)
  }

  function LowestFree(rec: TargetRows, i: nat := 0): (slot: nat)
    requires i <= TARGETS
    ensures i <= slot <= TARGETS && (slot < TARGETS ==> !Occupied(rec[slot]))
    ensures forall k :: i <= k < slot ==> Occupied(rec[k])
    decreases TARGETS - i
  {
    if i == TARGETS || !Occupied(rec[i]) then i else LowestFree(rec, i + 1)
  }

  ghost predicate Clashes(rec: TargetRows, row: TargetRow) {
    exists i :: 0 <= i < TARGETS && Clash(rec[i], row)
  }
  ghost predicate LabelTaken(rec: TargetRows, slot: nat, row: TargetRow) {
    exists i :: 0 <= i < TARGETS && i != slot && Occupied(rec[i]) && SameLabel(rec[i], row)
  }

  /** What an operation decides from the loaded book: refuse, or edit one row. */
  datatype Proposal = Refuse(err: TargetErr) | Edit(slot: nat, row: TargetRow, count: nat)

  ghost function Propose(op: Op, book: TargetBook): Proposal
    requires op.Set? || op.Remove? ==> op.slot < TARGETS
  {
    match op
    case Add(spec) =>
      if Clashes(book.rec, Composed(spec)) then Refuse(Duplicate)
      else if LowestFree(book.rec) == TARGETS then Refuse(Full)
      else
        var slot := LowestFree(book.rec);
        Edit(slot, Composed(spec), Count(book.rec[slot := Composed(spec)], Occupied))
    case Set(slot, spec) =>
      var row := Composed(spec.(adminPub := book.rec[slot].adminPub));
      if !Occupied(book.rec[slot]) then Refuse(NotFound)
      else if LabelTaken(book.rec, slot, row) then Refuse(Duplicate)
      else if !SpecValid(spec.(adminPub := book.rec[slot].adminPub)) then Refuse(BadArgs)
      else Edit(slot, row, book.count)
    case Remove(slot) =>
      if !Occupied(book.rec[slot]) then Refuse(NotFound) else Edit(slot, ZERO_ROW, Pred(book.count))
    case Reset => Refuse(NotInvalid)
  }

  ghost function Commit(record: Slot<TargetBook>, env: Env, book: TargetBook, p: Proposal): (State, TargetResult)
    requires p.Edit? ==> p.slot < TARGETS
  {
    if p.Refuse? then (State(record, book), Refused(p.err))
    else
      var cand := TargetBook(p.count, book.rec[p.slot := p.row]);
      if !ContentValid(cand) then (State(record, book), Refused(StoreInvalid))
      else if p.count == book.count && p.row == book.rec[p.slot] then (State(record, cand), Refused(Unchanged))
      else if !env.accepts then (State(record, book), Refused(NvSaveFailed))
      else (State(Stored(cand), cand), TargetResult(true, NoErr, p.slot, p.row.adminPub))
  }

  /** What is refused before the record is even read. */
  predicate BadCall(op: Op) { (op.Add? && !SpecValid(op.spec)) || ((op.Set? || op.Remove?) && op.slot >= TARGETS) }
  predicate Busy(op: Op, env: Env) {
    match op case Add(_) => false case Set(slot, _) => slot in env.busy case Remove(slot) => slot in env.busy
             case Reset => env.busy != {}
  }

  ghost function Next(s: State, env: Env, op: Op): (State, TargetResult) {
    if BadCall(op) then (s, Refused(BadArgs))
    else if Busy(op, env) then (s, Refused(InUse))
    else if op.Reset? then
      var st := StateOf(env.answers, s.record);
      if st == RecordIoFailed then (s.(buf := EMPTY_BOOK), Refused(StoreIoFailed))
      else if st != RecordInvalid then (s.(buf := EMPTY_BOOK), Refused(NotInvalid))
      else if !env.accepts then (s.(buf := EMPTY_BOOK), Refused(NvSaveFailed))
      else (State(Stored(EMPTY_BOOK), EMPTY_BOOK), TargetResult(true, NoErr, 0, 0))
    else
      var (st, book) := LoadForWrite(s.record, env.answers);
      if st == RecordIoFailed then (s.(buf := book), Refused(StoreIoFailed))
      else if st == RecordInvalid then (s.(buf := book), Refused(StoreInvalid))
      else Commit(s.record, env, book, Propose(op, book))
  }

  // ---- theorems ------------------------------------------------------------------------------------

  /** The row and slot each call is asked for: an added target takes the lowest free slot, a set keeps the
      administration key of the named row, a removal empties it. */
  ghost predicate AsAsked(op: Op, book: TargetBook, slot: nat, row: TargetRow) {
    match op
    case Add(spec) => slot == LowestFree(book.rec) && row == Composed(spec)
    case Set(named, spec) => slot == named < TARGETS && row == Composed(spec.(adminPub := book.rec[slot].adminPub))
    case Remove(named) => slot == named && row == ZERO_ROW
    case Reset => false
  }

  /** Every row the service composes is the one asked for and fits a valid book: it is valid by itself,
      clashes with no other row, and `count` stays the population. */
  lemma EditKeepsValid(book: TargetBook, op: Op)
    requires ContentValid(book) && !BadCall(op) && Propose(op, book).Edit?
    ensures var p := Propose(op, book);
            && p.slot < TARGETS && AsAsked(op, book, p.slot, p.row)
            && ContentValid(TargetBook(p.count, book.rec[p.slot := p.row]))
    ensures op.Set? ==> Propose(op, book).row.adminPub == book.rec[op.slot].adminPub
  {
    EditFits(book, op);
  }

  lemma EditFits(book: TargetBook, op: Op)
    requires ContentValid(book) && !BadCall(op) && Propose(op, book).Edit?
    ensures var p := Propose(op, book);
            ContentValid(TargetBook(p.count, book.rec[p.slot := p.row]))
    ensures op.Set? ==> Propose(op, book).row.adminPub == book.rec[op.slot].adminPub
  {
    var p := Propose(op, book);
    match op
    case Add(spec) =>
      PutKeepsValid(book, p.slot, p.row);
    case Set(slot, spec) =>
      SetClashesWithNone(book, slot, p.row);
      PutKeepsValid(book, slot, p.row);
    case Remove(slot) =>
      PutKeepsValid(book, slot, p.row);
  }

  /** A row that keeps the key of its slot clashes with another only by its label. */
  lemma SetClashesWithNone(book: TargetBook, slot: nat, row: TargetRow)
    requires ContentValid(book) && slot < TARGETS && Occupied(book.rec[slot])
    requires row.adminPub == book.rec[slot].adminPub && !LabelTaken(book.rec, slot, row)
    ensures forall i :: 0 <= i < TARGETS && i != slot ==> !Clash(book.rec[i], row)
  {
    forall i | 0 <= i < TARGETS && i != slot ensures !Clash(book.rec[i], row) {
      assert !Clash(book.rec[i], book.rec[slot]) && !Clash(book.rec[slot], book.rec[i]);
    }
  }

  /** The whole-book check of the commit path never fails on a composed candidate. */
  lemma CommitCheckNeverFails(s: State, env: Env, op: Op)
    ensures Next(s, env, op).1.err == StoreInvalid <==>
              !BadCall(op) && !Busy(op, env) && !op.Reset? && StateOf(env.answers, s.record) == RecordInvalid
  {
    var (st, book) := LoadForWrite(s.record, env.answers);
    if !BadCall(op) && !Busy(op, env) && !op.Reset? && st == RecordOk {
      EmptyBookValid();
      if Propose(op, book).Edit? { EditFits(book, op); }
    }
  }

  /** Whatever fails leaves the record alone and the buffer holding the book that was loaded (the empty
      one when there was none, or none could be read), or untouched when nothing was loaded; a success
      leaves both holding the one new book, which is valid. */
  lemma FailureRestoresTheBuffer(s: State, env: Env, op: Op)
    ensures var (s', r) := Next(s, env, op);
            && (r.ok ==> s'.record == Stored(s'.buf) && ContentValid(s'.buf))
            && (!r.ok ==> s'.record == s.record)
            && (!r.ok && (BadCall(op) || Busy(op, env)) ==> s'.buf == s.buf)
            && (!r.ok && !BadCall(op) && !Busy(op, env) && !op.Reset? ==>
                  s'.buf == LoadForWrite(s.record, env.answers).1)
            && (!r.ok && !BadCall(op) && !Busy(op, env) && op.Reset? ==> s'.buf == EMPTY_BOOK)
  {
    EmptyBookValid();
    var (st, book) := LoadForWrite(s.record, env.answers);
    if !BadCall(op) && !Busy(op, env) && !op.Reset? && st == RecordOk {
      var p := Propose(op, book);
      if p.Edit? {
        EditFits(book, op);
        if p.row == book.rec[p.slot] { assert book.rec[p.slot := p.row] == book.rec; }
      }
    }
  }

  datatype Call = Call(op: Op, env: Env)

  ghost function Run(s: State, calls: seq<Call>): State
    decreases |calls|
  {
    if calls == [] then s else Run(Next(s, calls[0].env, calls[0].op).0, calls[1..])
  }

  ghost predicate Good(record: Slot<TargetBook>) { record.Stored? && ContentValid(record.blob) }

  /** Over every run of calls a valid book stays valid, and a row that no call removes keeps its slot
      and its administration key, whatever is set, refused or failed meanwhile. */
  lemma {:induction false} KeysAreImmutable(s: State, calls: seq<Call>, slot: nat)
    requires Good(s.record) && slot < TARGETS && Occupied(s.record.blob.rec[slot])
    requires forall i :: 0 <= i < |calls| ==> calls[i].op != Remove(slot)
    ensures var t := Run(s, calls);
            && Good(t.record) && Occupied(t.record.blob.rec[slot])
            && t.record.blob.rec[slot].adminPub == s.record.blob.rec[slot].adminPub
    decreases |calls|
  {
    if calls != [] {
      OneCallKeepsKey(s, calls[0].env, calls[0].op, slot);
      KeysAreImmutable(Next(s, calls[0].env, calls[0].op).0, calls[1..], slot);
    }
  }

  lemma OneCallKeepsKey(s: State, env: Env, op: Op, slot: nat)
    requires Good(s.record) && slot < TARGETS && Occupied(s.record.blob.rec[slot]) && op != Remove(slot)
    ensures var t := Next(s, env, op).0;
            && Good(t.record) && Occupied(t.record.blob.rec[slot])
            && t.record.blob.rec[slot].adminPub == s.record.blob.rec[slot].adminPub
  {
    FailureRestoresTheBuffer(s, env, op);
    if Next(s, env, op).1.ok && Propose(op, s.record.blob).Edit? { EditFits(s.record.blob, op); }
  }

  // ---- what each call answers ------------------------------------------------------------------------

  /** A book that may be changed: none yet, or a valid one. */
  ghost predicate Editable(record: Slot<TargetBook>) { record.Absent? || Good(record) }
  function Rows(record: Slot<TargetBook>): TargetRows { if record.Stored? then record.blob.rec else NO_TARGETS }

  /** The row holds, field by field, what it was given under this key. */
  predicate Holds(r: TargetRow, spec: Spec, key: Key) {
    && Occupied(r) && r.adminPub == key && r.hash == spec.hash && r.hops == spec.hops && r.hopCount == spec.hopCount
    && r.text == spec.text && r.labelLen == spec.labelLen && r.reserved == 0
  }
  predicate LabelIs(r: TargetRow, spec: Spec) { r.labelLen == spec.labelLen && r.text == spec.text }

  /** In a valid row the label's text is the label and zeros, so same label means same text. */
  lemma SameLabelIs(r: TargetRow, spec: Spec)
    requires RowValid(r) && Occupied(r) && LabelValid(spec.text, spec.labelLen)
    ensures SameLabel(r, Composed(spec)) <==> LabelIs(r, spec)
  {
    if SameLabel(r, Composed(spec)) {
      forall i | 0 <= i < LABEL_BYTES ensures r.text[i] == spec.text[i] {
        if i < r.labelLen { assert r.text[..r.labelLen][i] == spec.text[..spec.labelLen][i]; }
      }
      assert r.text == spec.text;
    }
  }

  /** A new target fits: it is valid, its key and label are new, and a slot is free. */
  ghost predicate Addable(rec: TargetRows, spec: Spec) {
    && SpecValid(spec)
    && (forall i :: 0 <= i < TARGETS && Occupied(rec[i]) ==> rec[i].adminPub != spec.adminPub && !LabelIs(rec[i], spec))
    && (exists i :: 0 <= i < TARGETS && !Occupied(rec[i]))
  }

  lemma AddComposesExactly(book: TargetBook, spec: Spec)
    requires ContentValid(book) && SpecValid(spec)
    ensures Propose(Add(spec), book).Edit? <==> Addable(book.rec, spec)
  {
    NewRowClashes(book, spec);
    assert LowestFree(book.rec) < TARGETS ==> !Occupied(book.rec[LowestFree(book.rec)]);
  }

  /** `add` succeeds exactly for a new target that fits, with a store that answers and takes it; the lowest free
      slot then holds what was given. */
  lemma AddSucceedsExactly(s: State, env: Env, spec: Spec)
    ensures var (t, r) := Next(s, env, Add(spec));
            && (r.ok <==> env.answers && Editable(s.record) && Addable(Rows(s.record), spec) && env.accepts)
            && (r.ok ==> RowPlaced(Rows(s.record), t.record, r.slot, spec))
            && (!r.ok ==> t.record == s.record)
  {
    EmptyBookValid();
    FailureRestoresTheBuffer(s, env, Add(spec));
    if SpecValid(spec) && Editable(s.record) {
      var book := LoadForWrite(s.record, true).1;
      AddComposesExactly(book, spec);
      if Propose(Add(spec), book).Edit? {
        EditFits(book, Add(spec));
        AddPlaces(book, spec);
      }
    }
  }

  lemma AddPlaces(book: TargetBook, spec: Spec)
    requires Propose(Add(spec), book).Edit?
    ensures var p := Propose(Add(spec), book);
            && p.slot < TARGETS
            && RowPlaced(book.rec, Stored(TargetBook(p.count, book.rec[p.slot := p.row])), p.slot, spec)
  {
  }

  predicate RowPlaced(rec: TargetRows, record: Slot<TargetBook>, slot: nat, spec: Spec) {
    && slot < TARGETS && !Occupied(rec[slot]) && (forall i :: 0 <= i < slot ==> Occupied(rec[i]))
    && record.Stored? && record.blob.rec == rec[slot := record.blob.rec[slot]]
    && Holds(record.blob.rec[slot], spec, spec.adminPub)
  }

  lemma NewRowClashes(book: TargetBook, spec: Spec)
    requires ContentValid(book) && SpecValid(spec)
    ensures Clashes(book.rec, Composed(spec)) <==>
              exists i :: 0 <= i < TARGETS && Occupied(book.rec[i])
                     && (book.rec[i].adminPub == spec.adminPub || LabelIs(book.rec[i], spec))
  {
    forall i | 0 <= i < TARGETS && Occupied(book.rec[i])
      ensures Clash(book.rec[i], Composed(spec)) <==>
                book.rec[i].adminPub == spec.adminPub || LabelIs(book.rec[i], spec)
    {
      SameLabelIs(book.rec[i], spec);
    }
  }

  /** `set` succeeds exactly for a valid target in an occupied slot nothing is bound to, whose label no other
      row has, that changes something; the row then holds what was given, under its old key. */
  lemma SetSucceedsExactly(s: State, env: Env, slot: nat, spec: Spec)
    ensures var (t, r) := Next(s, env, Set(slot, spec));
            var rec := Rows(s.record);
            && (r.ok <==>
                  && slot < TARGETS && slot !in env.busy && env.answers && Good(s.record) && Occupied(rec[slot])
                  && SpecValid(spec.(adminPub := rec[slot].adminPub))
                  && (forall i :: 0 <= i < TARGETS && i != slot && Occupied(rec[i]) ==> !LabelIs(rec[i], spec))
                  && !Holds(rec[slot], spec, rec[slot].adminPub) && env.accepts)
            && (r.ok ==>
                  && t.record.Stored? && t.record.blob.rec == rec[slot := t.record.blob.rec[slot]]
                  && Holds(t.record.blob.rec[slot], spec, rec[slot].adminPub))
            && (!r.ok ==> t.record == s.record)
  {
    EmptyBookValid();
    FailureRestoresTheBuffer(s, env, Set(slot, spec));
    if slot < TARGETS && Good(s.record) && Occupied(s.record.blob.rec[slot]) {
      var book := s.record.blob;
      var keyed := spec.(adminPub := book.rec[slot].adminPub);
      if SpecValid(keyed) {
        forall i | 0 <= i < TARGETS && Occupied(book.rec[i])
          ensures SameLabel(book.rec[i], Composed(keyed)) <==> LabelIs(book.rec[i], spec)
        {
          SameLabelIs(book.rec[i], keyed);
        }
        assert Holds(book.rec[slot], spec, book.rec[slot].adminPub) <==> book.rec[slot] == Composed(keyed);
      }
      if Propose(Set(slot, spec), book).Edit? { EditFits(book, Set(slot, spec)); }
    }
  }

  /** `remove` succeeds exactly on an occupied slot nothing is bound to, and empties it. */
  lemma RemoveSucceedsExactly(s: State, env: Env, slot: nat)
    ensures var (t, r) := Next(s, env, Remove(slot));
            var rec := Rows(s.record);
            && (r.ok <==>
                  && slot < TARGETS && slot !in env.busy && env.answers && Good(s.record) && Occupied(rec[slot])
                  && env.accepts)
            && (if r.ok then t.record.Stored? && t.record.blob.rec == rec[slot := ZERO_ROW] else t.record == s.record)
  {
    EmptyBookValid();
    FailureRestoresTheBuffer(s, env, Remove(slot));
    if slot < TARGETS && Good(s.record) && Occupied(s.record.blob.rec[slot]) { EditFits(s.record.blob, Remove(slot)); }
  }

  /** A reset succeeds exactly on a book that is there and cannot be used, and empties it. */
  lemma ResetSucceedsExactly(s: State, env: Env)
    ensures var (t, r) := Next(s, env, Reset);
            && (r.ok <==> env.busy == {} && env.answers && !s.record.Absent? && !Editable(s.record) && env.accepts)
            && (if r.ok then t.record == Stored(EMPTY_BOOK) else t.record == s.record)
  {
  }

  // ---- the service in place -----------------------------------------------------------------------

  class TargetStore {
    var record: Slot<TargetBook>
    var answers: bool
    var accepts: bool

    constructor (record: Slot<TargetBook>)
      ensures this.record == record && answers && accepts
    {
      this.record, answers, accepts := record, true, true;
    }
    method Save(b: TargetBook) returns (ok: bool)
      modifies this`record
      ensures ok == accepts && record == if ok then Stored(b) else old(record)
    {
      if accepts { record := Stored(b); }
      return accepts;
    }
  }

  /** The caller's 32-row buffer. */
  class TargetBlob {
    var count: nat
    const rec: array<TargetRow>

    ghost predicate Valid() { rec.Length == TARGETS }
    function Value(): TargetBook
      requires Valid()
      reads this, rec
    {
      TargetBook(count, rec[..])
    }
    constructor ()
      ensures Valid() && fresh(rec) && Value() == EMPTY_BOOK
    {
      count := 0;
      rec := new TargetRow[TARGETS](_ => ZERO_ROW);
      new;
      assert rec[..] == NO_TARGETS;
    }
    method Assign(b: TargetBook)
      requires Valid()
      modifies this, rec
      ensures Value() == b
    {
      count := b.count;
      for i := 0 to TARGETS
        modifies rec
        invariant forall k :: 0 <= k < i ==> rec[k] == b.rec[k]
      {
        rec[i] := b.rec[i];
      }
      assert rec[..] == b.rec;
    }
  }

  /** The whole-book predicate as the code computes it: one pass, each row against the ones before. */
  method ContentCheck(b: TargetBook) returns (ok: bool)
    ensures ok <==> ContentValid(b)
  {
    CountWitness(b.rec, Occupied);
    if b.count > TARGETS { return false; }
    var occupied := 0;
    for i := 0 to TARGETS
      invariant occupied == Count(b.rec[..i], Occupied)
      invariant forall k :: 0 <= k < i ==> RowValid(b.rec[k])
      invariant forall j, k :: 0 <= j < k < i ==> !Clash(b.rec[j], b.rec[k])
    {
      assert b.rec[..i + 1][..i] == b.rec[..i];
      if !RowValid(b.rec[i]) { return false; }
      if !Occupied(b.rec[i]) { continue; }
      occupied := occupied + 1;
      for j := 0 to i
        invariant forall k :: 0 <= k < j ==> !Clash(b.rec[k], b.rec[i])
      {
        if Clash(b.rec[j], b.rec[i]) { return false; }
      }
    }
    assert b.rec[..TARGETS] == b.rec;
    return b.count == occupied;
  }

  class TargetService {
    const store: TargetStore
    const busy: set<nat>

    constructor (store: TargetStore, busy: set<nat>)
      ensures this.store == store && this.busy == busy
    {
      this.store, this.busy := store, busy;
    }

    ghost function Value(book: TargetBlob): State
      requires book.Valid()
      reads store, book, book.rec
    {
      State(store.record, book.Value())
    }
    ghost function TheEnv(): Env
      reads store
    {
      Env(store.answers, store.accepts, busy)
    }

    /** Load into the caller's buffer; anything but a valid record leaves it empty. */
    method Load(book: TargetBlob) returns (s: RecordState)
      requires book.Valid()
      modifies book, book.rec
      ensures s == StateOf(store.answers, store.record)
      ensures book.Value() == LoadForWrite(store.record, store.answers).1
    {
      s := RecordIoFailed;
      if store.answers {
        match store.record {
          case Absent => s := RecordAbsent;
          case Corrupt => s := RecordInvalid;
          case Stored(b) =>
            book.Assign(b);
            var ok := ContentCheck(b);
            s := if ok then RecordOk else RecordInvalid;
        }
      }
      if s != RecordOk { book.Assign(EMPTY_BOOK); }
    }

    method AddTarget(book: TargetBlob, spec: Spec) returns (r: TargetResult)
      requires book.Valid()
      modifies book, book.rec, store`record
      ensures (Value(book), r) == Next(old(Value(book)), TheEnv(), Add(spec))
    {
      if !SpecValid(spec) { return Refused(BadArgs); }
      var s := Load(book);
      if s == RecordIoFailed { return Refused(StoreIoFailed); }
      if s == RecordInvalid { return Refused(StoreInvalid); }
      r := AddLoaded(book, spec);
    }

    /** The rest of an add, once the book is in the caller's buffer. */
    method AddLoaded(book: TargetBlob, spec: Spec) returns (r: TargetResult)
      requires book.Valid()
      modifies book, book.rec, store`record
      ensures (Value(book), r) ==
                Commit(old(store.record), TheEnv(), old(book.Value()), Propose(Add(spec), old(book.Value())))
    {
      var row := Composed(spec);
      var clash := FindClash(book, row);
      if clash { return Refused(Duplicate); }
      r := PlaceRow(book, row);
    }

    /** Put a new row into the lowest free slot of the loaded book. */
    method PlaceRow(book: TargetBlob, row: TargetRow) returns (r: TargetResult)
      requires book.Valid()
      modifies book, book.rec, store`record
      ensures var loaded := old(book.Value());
              var slot := LowestFree(loaded.rec);
              (Value(book), r) == Commit(old(store.record), TheEnv(), loaded,
                if slot == TARGETS then Refuse(Full) else Edit(slot, row, Count(loaded.rec[slot := row], Occupied)))
    {
      var slot := LowestSlot(book);
      if slot == TARGETS { return Refused(Full); }
      var was, wasCount := book.rec[slot], book.count;
      ghost var loaded := book.Value();
      book.rec[slot] := row;
      assert book.rec[..] == loaded.rec[slot := row];
      book.count := Population(book);
      r := CommitRow(book, slot, was, wasCount, loaded);
    }

    method FindClash(book: TargetBlob, row: TargetRow) returns (clash: bool)
      requires book.Valid()
      ensures clash == Clashes(book.rec[..], row)
    {
      for i := 0 to TARGETS
        invariant forall k :: 0 <= k < i ==> !Clash(book.rec[k], row)
      {
        if Clash(book.rec[i], row) {
          assert Clash(book.rec[..][i], row);
          return true;
        }
      }
      return false;
    }

    method LowestSlot(book: TargetBlob) returns (slot: nat)
      requires book.Valid()
      ensures slot == LowestFree(book.rec[..])
    {
      slot := 0;
      while slot < TARGETS && Occupied(book.rec[slot])
        invariant slot <= TARGETS && LowestFree(book.rec[..], slot) == LowestFree(book.rec[..])
      {
        slot := slot + 1;
      }
    }

    method SetTarget(book: TargetBlob, slot: nat, spec: Spec) returns (r: TargetResult)
      requires book.Valid()
      modifies book, book.rec, store`record
      ensures (Value(book), r) == Next(old(Value(book)), TheEnv(), Set(slot, spec))
    {
      if slot >= TARGETS { return Refused(BadArgs); }
      if slot in busy { return Refused(InUse); }
      var s := Load(book);
      if s == RecordIoFailed { return Refused(StoreIoFailed); }
      if s == RecordInvalid { return Refused(StoreInvalid); }
      if !Occupied(book.rec[slot]) { return Refused(NotFound); }
      var keyed := spec.(adminPub := book.rec[slot].adminPub);
      var row := Composed(keyed);
      for i := 0 to TARGETS
        invariant forall k :: 0 <= k < i && k != slot && Occupied(book.rec[k]) ==> !SameLabel(book.rec[k], row)
      {
        if i == slot || !Occupied(book.rec[i]) { continue; }
        if SameLabel(book.rec[i], row) {
          assert SameLabel(book.Value().rec[i], row);
          return Refused(Duplicate);
        }
      }
      var was, wasCount := book.rec[slot], book.count;
      ghost var loaded := book.Value();
      if !SpecValid(keyed) { return Refused(BadArgs); }
      book.rec[slot] := row;
      assert book.rec[..] == loaded.rec[slot := row];
      r := CommitRow(book, slot, was, wasCount, loaded);
    }

    method RemoveTarget(book: TargetBlob, slot: nat) returns (r: TargetResult)
      requires book.Valid()
      modifies book, book.rec, store`record
      ensures (Value(book), r) == Next(old(Value(book)), TheEnv(), Remove(slot))
    {
      if slot >= TARGETS { return Refused(BadArgs); }
      if slot in busy { return Refused(InUse); }
      var s := Load(book);
      if s == RecordIoFailed { return Refused(StoreIoFailed); }
      if s == RecordInvalid { return Refused(StoreInvalid); }
      if !Occupied(book.rec[slot]) { return Refused(NotFound); }
      var was, wasCount := book.rec[slot], book.count;
      ghost var loaded := book.Value();
      book.rec[slot] := ZERO_ROW;
      assert book.rec[..] == loaded.rec[slot := ZERO_ROW];
      book.count := Pred(wasCount);
      r := CommitRow(book, slot, was, wasCount, loaded);
    }

    method Recover(book: TargetBlob) returns (r: TargetResult)
      requires book.Valid()
      modifies book, book.rec, store`record
      ensures (Value(book), r) == Next(old(Value(book)), TheEnv(), Reset)
    {
      if busy != {} { return Refused(InUse); }
      var s := Load(book);
      book.Assign(EMPTY_BOOK);
      if s == RecordIoFailed { return Refused(StoreIoFailed); }
      if s != RecordInvalid { return Refused(NotInvalid); }
      var saved := store.Save(book.Value());
      if !saved { return Refused(NvSaveFailed); }
      return TargetResult(true, NoErr, 0, 0);
    }

    method Population(book: TargetBlob) returns (n: nat)
      requires book.Valid()
      ensures n == Count(book.rec[..], Occupied)
    {
      n := 0;
      for i := 0 to TARGETS
        invariant n == Count(book.rec[..i], Occupied)
      {
        assert book.rec[..i + 1][..i] == book.rec[..i];
        if Occupied(book.rec[i]) { n := n + 1; }
      }
      assert book.rec[..TARGETS] == book.rec[..];
    }

    /** The one commit path: whole-book validation, row-and-count comparison, at most one save, and the
        edited row put back on every failing arm. `loaded` is the book before the edit. */
    method CommitRow(book: TargetBlob, slot: nat, was: TargetRow, wasCount: nat, ghost loaded: TargetBook)
      returns (r: TargetResult)
      requires book.Valid() && slot < TARGETS
      requires was == loaded.rec[slot] && wasCount == loaded.count
      requires book.rec[..] == loaded.rec[slot := book.rec[slot]]
      modifies book, book.rec, store`record
      ensures (Value(book), r) ==
                Commit(old(store.record), TheEnv(), loaded, old(Edit(slot, book.rec[slot], book.count)))
    {
      var valid := ContentCheck(book.Value());
      if !valid {
        Restore(book, slot, was, wasCount, loaded);
        return Refused(StoreInvalid);
      }
      if book.count == wasCount && book.rec[slot] == was { return Refused(Unchanged); }
      var saved := store.Save(book.Value());
      if !saved {
        Restore(book, slot, was, wasCount, loaded);
        return Refused(NvSaveFailed);
      }
      return TargetResult(true, NoErr, slot, book.rec[slot].adminPub);
    }

    method Restore(book: TargetBlob, slot: nat, was: TargetRow, wasCount: nat, ghost loaded: TargetBook)
      requires book.Valid() && slot < TARGETS
      requires was == loaded.rec[slot] && wasCount == loaded.count
      requires book.rec[..] == loaded.rec[slot := book.rec[slot]]
      modifies book, book.rec
      ensures book.Value() == loaded
    {
      book.rec[slot] := was;
      book.count := wasCount;
      assert book.rec[..] == loaded.rec;
    }
  }
}
