/** The staged-configuration service as a state machine over three states of the covered fields:
    persisted (in the record), effective (in the running node) and draft (in the editor), with
    external writers free to interleave anywhere. */
module ConfigModel {
  import opened Common

  datatype Field = BleMode | E2eDm | IntroAttach | MobileAutoregister
  const FIELDS: nat := 4
  function Index(f: Field): nat {
    match f case BleMode => 0 case E2eDm => 1 case IntroAttach => 2 case MobileAutoregister => 3
  }
  const ALL_FIELDS: seq<Field> := [BleMode, E2eDm, IntroAttach, MobileAutoregister]

  type Values = v: seq<nat> | |v| == FIELDS witness [0, 0, 0, 0]

  /** The whole configuration record: the four covered fields, and everything this service does not
      know about. */
  datatype Record = Record(bleMode: nat, e2eDm: nat, introAttach: nat, mobileAutoregister: nat, rest: seq<nat>)

  function Covered(r: Record): Values { [r.bleMode, r.e2eDm, r.introAttach, r.mobileAutoregister] }
  function Overwrite(v: Values, r: Record): Record { Record(v[0], v[1], v[2], v[3], r.rest) }

  predicate FieldValid(f: Field, val: nat) { if f.BleMode? then val <= 2 else val <= 1 }
  predicate ValuesValid(v: Values) { forall i :: 0 <= i < FIELDS ==> FieldValid(ALL_FIELDS[i], v[i]) }

  /** Only `ble_mode` waits for a reboot; the other three are adopted while running. */
  predicate RebootClass(f: Field) { f.BleMode? }

  datatype Service = Service(open: bool, conflict: bool, baseline: Values, draft: Values)
  const CLOSED: Service := Service(false, false, [0, 0, 0, 0], [0, 0, 0, 0])

  /** The service, the record on the medium (None while there is no usable one), the running
      values, and how many write attempts the service has made. */
  datatype State = State(svc: Service, record: Option<Record>, effective: Values, writes: nat)

  datatype SaveResult = Saved | SavedReboot | NoChange | Invalid | Conflict | NvFailed | NotOpen

  datatype Event =
    | Open(answers: bool)
    | Set(field: Field, val: nat)
    | StageAll(values: Values)
    | Save(answers: bool, accepts: bool)
    | Discard(answers: bool)
    | Reload(answers: bool)
    | Note(written: Record)                 // a writer reports the record it has just written
    | ExternalWrite(record: Option<Record>) // the record changes under the service
    | ExternalApply(values: Values)         // the running values change under the service

  /** The field-wise three-way merge: an edited field keeps mine, an untouched one takes theirs. */
  function Merge(base: Values, mine: Values, theirs: Values): Values {
    seq(FIELDS, i requires 0 <= i < FIELDS => if mine[i] == base[i] then theirs[i] else mine[i])
  }

  predicate RebootRequired(s: State) { s.svc.open && s.svc.baseline[0] != s.effective[0] }

  function Bit(v: nat): nat { if v != 0 then 1 else 0 }
  /** Adopting the live-class fields of `v`; the reboot-class one is out of reach. */
  function Applied(effective: Values, v: Values): Values { [effective[0], Bit(v[1]), Bit(v[2]), Bit(v[3])] }

  function SaveStep(s: State, answers: bool, accepts: bool): (State, SaveResult) {
    var c := s.svc;
    if !c.open then (s, NotOpen)
    else if !ValuesValid(c.draft) then (s, Invalid)
    else if c.conflict then (s, Conflict)
    else if !answers || s.record.None? then (s, NvFailed)
    else if Covered(s.record.value) != c.baseline then (s.(svc := c.(conflict := true)), Conflict)
    else if c.draft == c.baseline then (s, NoChange)
    else if !accepts then (s.(writes := s.writes + 1), NvFailed)
    else
      var s' := State(c.(baseline := c.draft), Some(Overwrite(c.draft, s.record.value)),
                      Applied(s.effective, c.draft), s.writes + 1);
      (s', if RebootRequired(s') then SavedReboot else Saved)
  }

  function Next(s: State, e: Event): State {
    var c := s.svc;
    match e
    case Open(answers) =>
      if c.open || !answers || s.record.None? then s
      else s.(svc := Service(true, false, Covered(s.record.value), Covered(s.record.value)))
    case Set(field, val) =>
      if !c.open || !FieldValid(field, val) then s
      else s.(svc := c.(draft := c.draft[Index(field) := val]))
    case StageAll(values) => if c.open then s.(svc := c.(draft := values)) else s
    case Save(answers, accepts) => SaveStep(s, answers, accepts).0
    case Discard(answers) =>
      if !c.open || !answers || s.record.None? then s
      else s.(svc := Service(true, false, Covered(s.record.value), Covered(s.record.value)))
    case Reload(answers) =>
      if !c.open || !answers || s.record.None? then s
      else
        var now := Covered(s.record.value);
        s.(svc := Service(true, false, now, Merge(c.baseline, c.draft, now)))
    case Note(written) =>
      if c.open && Covered(written) != c.baseline then s.(svc := c.(conflict := true)) else s
    case ExternalWrite(record) => s.(record := record)
    case ExternalApply(values) => s.(effective := values)
  }

  function Run(s: State, es: seq<Event>): State
    decreases |es|
  {
    if es == [] then s else Run(Next(s, es[0]), es[1..])
  }

  // ---- one save ------------------------------------------------------------------------------------

  /** A save that changes the record replaces one whose covered fields are the recorded baseline,
      changes only the covered fields, to the validated draft; it is the one write attempt of its
      call; afterwards nothing is unsaved, the running live-class fields are the persisted ones, and
      the reboot-class one still runs as before. Everything else leaves record and running values alone. */
  lemma SaveNeverLosesAnUpdate(s: State, answers: bool, accepts: bool)
    ensures var (s', r) := SaveStep(s, answers, accepts);
            && s'.writes <= s.writes + 1
            && (r in {Saved, SavedReboot} ==>
                  && s.record.Some? && s'.record.Some? && !s.svc.conflict
                  && Covered(s.record.value) == s.svc.baseline
                  && Covered(s'.record.value) == s.svc.draft == s'.svc.baseline == s'.svc.draft
                  && s'.record.value.rest == s.record.value.rest && s'.writes == s.writes + 1
                  && ValuesValid(s.svc.draft) && s'.effective[1..] == s.svc.draft[1..]
                  && s'.effective[0] == s.effective[0]
                  && (r == SavedReboot <==> s.svc.draft[0] != s.effective[0]))
            && (r !in {Saved, SavedReboot} ==>
                  && s'.record == s.record && s'.effective == s.effective
                  && s'.svc.draft == s.svc.draft && s'.svc.baseline == s.svc.baseline)
            && (r !in {Saved, SavedReboot, NvFailed} ==> s'.writes == s.writes)
  {
    if SaveStep(s, answers, accepts).1 in {Saved, SavedReboot} {
      var d := s.svc.draft;
      assert forall i :: 0 <= i < FIELDS ==> FieldValid(ALL_FIELDS[i], d[i]);
      assert FieldValid(ALL_FIELDS[1], d[1]) && FieldValid(ALL_FIELDS[2], d[2]) && FieldValid(ALL_FIELDS[3], d[3]);
    }
  }

  // ---- the latch over every interleaving ------------------------------------------------------------

  /** A step that resolves a conflict: a discard or reload that could read the record. */
  predicate Resolves(s: State, e: Event) {
    (e.Discard? || e.Reload?) && e.answers && s.svc.open && s.record.Some?
  }
  /** A run in which no step resolves a conflict. */
  ghost predicate NothingResolves(s: State, es: seq<Event>)
    decreases |es|
  {
    es == [] || (!Resolves(s, es[0]) && NothingResolves(Next(s, es[0]), es[1..]))
  }

  /** Once raised, the marker stays raised through everything but a resolution, so no save of the run
      touches the record, the running values or the medium, even if a writer has put the old bytes
      back meanwhile. */
  lemma {:induction false} LatchHolds(s: State, es: seq<Event>)
    requires s.svc.open && s.svc.conflict && NothingResolves(s, es)
    ensures var t := Run(s, es);
            t.svc.open && t.svc.conflict && t.writes == s.writes && t.svc.baseline == s.svc.baseline
    ensures Run(s, es).record == LastExternal(s.record, es)
    decreases |es|
  {
    if es != [] { LatchHolds(Next(s, es[0]), es[1..]); }
  }

  /** What external writers alone would have left in the record. */
  function LastExternal(r: Option<Record>, es: seq<Event>): Option<Record>
    decreases |es|
  {
    if es == [] then r
    else LastExternal(if es[0].ExternalWrite? then es[0].record else r, es[1..])
  }

  /** A notified change and its silent reversal: the writer's report raises the marker, the old bytes
      come back, and every save until a reload or discard is still refused with the record untouched. */
  lemma NotifiedConflictBlocksSave(s: State, written: Record, es: seq<Event>, answers: bool, accepts: bool)
    requires s.svc.open && Covered(written) != s.svc.baseline
    requires NothingResolves(Next(s, Note(written)), es)
    ensures var t := Run(Next(s, Note(written)), es);
            var (t', r) := SaveStep(t, answers, accepts);
            t'.record == t.record && t'.effective == t.effective && t'.writes == t.writes && r in {Conflict, Invalid}
  {
    LatchHolds(Next(s, Note(written)), es);
  }

  // ---- the uncovered fields over every interleaving ----------------------------------------------------

  function Rest(r: Option<Record>): Option<seq<nat>> {
    match r case None => None case Some(x) => Some(x.rest)
  }

  /** Whatever the service does, the uncovered part of the record is always the one the last external
      writer left, or the initial one. */
  lemma {:induction false} UncoveredFieldsAreNeverTouched(s: State, es: seq<Event>)
    ensures Rest(Run(s, es).record) == Rest(LastExternal(s.record, es))
    decreases |es|
  {
    if es != [] {
      UncoveredFieldsAreNeverTouched(Next(s, es[0]), es[1..]);
      LastExternalRest(Next(s, es[0]).record, if es[0].ExternalWrite? then es[0].record else s.record, es[1..]);
    }
  }

  lemma {:induction false} LastExternalRest(a: Option<Record>, b: Option<Record>, es: seq<Event>)
    requires Rest(a) == Rest(b)
    ensures Rest(LastExternal(a, es)) == Rest(LastExternal(b, es))
    decreases |es|
  {
    if es != [] {
      LastExternalRest(if es[0].ExternalWrite? then es[0].record else a,
                       if es[0].ExternalWrite? then es[0].record else b, es[1..]);
    }
  }

  // ---- the merge --------------------------------------------------------------------------------------

  /** Reload is the three-way merge: an edited field keeps the operator's value, an untouched one takes
      the persisted value, the baseline becomes the persisted record and the marker is cleared. Doing it
      again changes nothing. */
  lemma ReloadMerges(s: State)
    requires s.svc.open && s.record.Some?
    ensures var t := Next(s, Reload(true));
            && t.svc.baseline == Covered(s.record.value) && !t.svc.conflict && t.record == s.record
            && (forall i :: 0 <= i < FIELDS ==>
                  && (s.svc.draft[i] != s.svc.baseline[i] ==> t.svc.draft[i] == s.svc.draft[i])
                  && (s.svc.draft[i] == s.svc.baseline[i] ==> t.svc.draft[i] == Covered(s.record.value)[i]))
            && Next(t, Reload(true)) == t
  {
    var t := Next(s, Reload(true));
    var now := Covered(s.record.value);
    assert Merge(now, t.svc.draft, now) == t.svc.draft;
  }

  /** A step that leaves the draft and the covered fields alone, in an open editor whose baseline is `base`
      and the record's: other fields written, running values changed, a matching report, another reload,
      anything refused. */
  predicate Quiet(e: Event, base: Values) {
    match e
    case ExternalWrite(record) => record.Some? && Covered(record.value) == base
    case ExternalApply(_) => true
    case Note(written) => Covered(written) == base
    case Open(_) => true
    case Reload(_) => true
    case Discard(answers) => !answers
    case Save(answers, accepts) => !answers || !accepts
    case Set(field, val) => !FieldValid(field, val)
    case StageAll(_) => false
  }

  /** The editor agrees with the record, and no conflict is marked. */
  predicate InStep(s: State) {
    s.svc.open && !s.svc.conflict && s.record.Some? && Covered(s.record.value) == s.svc.baseline
  }

  lemma {:induction false} QuietKeeps(s: State, es: seq<Event>)
    requires InStep(s) && forall i :: 0 <= i < |es| ==> Quiet(es[i], s.svc.baseline)
    ensures Run(s, es).svc == s.svc && InStep(Run(s, es))
    decreases |es|
  {
    if es != [] {
      var base, draft := s.svc.baseline, s.svc.draft;
      assert Merge(base, draft, base) == draft;
      assert Quiet(es[0], base);
      QuietKeeps(Next(s, es[0]), es[1..]);
    }
  }

  /** A good save in state `u` writes exactly `wanted` into the covered fields and leaves every other field
      as `writers` left it; it answers `no_change` when `wanted` is the baseline. */
  ghost predicate SavePersists(u: State, wanted: Values, writers: Option<Record>) {
    var (t, r) := SaveStep(u, true, true);
    && u.record.Some? && t.record == Some(Overwrite(wanted, u.record.value)) && Rest(t.record) == Rest(writers)
    && (r == NoChange <==> wanted == u.svc.baseline)
    && (r != NoChange ==> r == Saved || r == SavedReboot)
  }

  /** After a reload, and whatever happens that leaves draft and covered fields alone, a valid save
      persists exactly the merged values, and every uncovered field as the last external writer left it. */
  lemma SaveAfterReload(s: State, es: seq<Event>)
    requires s.svc.open && s.record.Some?
    requires ValuesValid(Merge(s.svc.baseline, s.svc.draft, Covered(s.record.value)))
    requires forall i :: 0 <= i < |es| ==> Quiet(es[i], Covered(s.record.value))
    ensures var u := Run(Next(s, Reload(true)), es);
            && u.svc.baseline == Covered(s.record.value)
            && SavePersists(u, Merge(s.svc.baseline, s.svc.draft, Covered(s.record.value)), LastExternal(s.record, es))
  {
    var base := Covered(s.record.value);
    var v := s.(svc := Service(true, false, base, Merge(s.svc.baseline, s.svc.draft, base)));
    ReloadIs(s, v);
    SaveAfterQuiet(v, es);
  }

  lemma ReloadIs(s: State, v: State)
    requires s.svc.open && s.record.Some?
    requires var base := Covered(s.record.value);
             v == s.(svc := Service(true, false, base, Merge(s.svc.baseline, s.svc.draft, base)))
    ensures Next(s, Reload(true)) == v
  {
  }

  lemma SaveAfterQuiet(v: State, es: seq<Event>)
    requires InStep(v) && ValuesValid(v.svc.draft)
    requires forall i :: 0 <= i < |es| ==> Quiet(es[i], v.svc.baseline)
    ensures Run(v, es).svc.baseline == v.svc.baseline
    ensures SavePersists(Run(v, es), v.svc.draft, LastExternal(v.record, es))
  {
    QuietKeeps(v, es);
    UncoveredFieldsAreNeverTouched(v, es);
    SaveInStep(Run(v, es));
  }

  lemma SaveInStep(u: State)
    requires InStep(u) && ValuesValid(u.svc.draft)
    ensures var (t, r) := SaveStep(u, true, true);
            && t.record == Some(Overwrite(u.svc.draft, u.record.value)) && Rest(t.record) == Rest(u.record)
            && (r == NoChange <==> u.svc.draft == u.svc.baseline)
            && (r != NoChange ==> r == Saved || r == SavedReboot)
  {
    assert Overwrite(Covered(u.record.value), u.record.value) == u.record.value;
  }

  /** The merge is fair to both sides: who changed nothing gets the other's values whole, equal edits
      agree, and edits of different fields are all kept. */
  lemma MergeLaws(base: Values, mine: Values, theirs: Values)
    ensures Merge(base, base, theirs) == theirs
    ensures Merge(base, mine, base) == mine
    ensures (forall i :: 0 <= i < FIELDS ==> mine[i] == base[i] || theirs[i] == base[i]) ==>
              Merge(base, mine, theirs) == Merge(base, theirs, mine)
    ensures forall i :: 0 <= i < FIELDS && mine[i] == base[i] ==> Merge(base, mine, theirs)[i] == theirs[i]
    ensures forall i :: 0 <= i < FIELDS && theirs[i] == base[i] ==> Merge(base, mine, theirs)[i] == mine[i]
  {
  }

  // ---- the baseline over every interleaving -------------------------------------------------------------

  /** A step after which editor and record agree: an open, discard or reload that read the record, or a
      save that wrote it. */
  predicate Syncs(s: State, e: Event) {
    match e
    case Open(answers) => !s.svc.open && answers && s.record.Some?
    case Save(answers, accepts) => SaveStep(s, answers, accepts).1 in {Saved, SavedReboot}
    case _ => Resolves(s, e)
  }

  /** The covered fields as the record held them right after the last such step; `before` if there is none. */
  function LastSynced(s: State, es: seq<Event>, before: Values): Values
    decreases |es|
  {
    if es == [] then before
    else
      var t := Next(s, es[0]);
      LastSynced(t, es[1..], if Syncs(s, es[0]) && t.record.Some? then Covered(t.record.value) else before)
  }

  /** Over every interleaving the baseline is what the record held when editor and record last agreed. */
  lemma {:induction false} BaselineIsLastSynced(s: State, es: seq<Event>)
    ensures Run(s, es).svc.baseline == LastSynced(s, es, s.svc.baseline)
    decreases |es|
  {
    if es != [] {
      assert forall r: Record :: Covered(Overwrite(s.svc.draft, r)) == s.svc.draft;
      assert Syncs(s, es[0]) ==> Next(s, es[0]).record.Some?;
      BaselineIsLastSynced(Next(s, es[0]), es[1..]);
    }
  }

  /** NO LOST UPDATE, OVER RUNS. After any interleaving, a save that writes replaces a record whose covered
      fields are those it held when the editor last agreed with it. */
  lemma SaveReplacesLastSynced(s: State, es: seq<Event>, answers: bool, accepts: bool)
    requires SaveStep(Run(s, es), answers, accepts).1 in {Saved, SavedReboot}
    ensures Run(s, es).record.Some? && Covered(Run(s, es).record.value) == LastSynced(s, es, s.svc.baseline)
  {
    BaselineIsLastSynced(s, es);
  }
}
