/** What the editor's draft holds, and what of it reaches the record, said of the record's named fields. */
module ConfigDrafts {
  import opened Common
  import opened ConfigModel

  /** The record's field of that name, and the record with it replaced. */
  function FieldOf(r: Record, f: Field): nat {
    match f
    case BleMode => r.bleMode
    case E2eDm => r.e2eDm
    case IntroAttach => r.introAttach
    case MobileAutoregister => r.mobileAutoregister
  }
  function WithField(r: Record, f: Field, val: nat): Record {
    match f
    case BleMode => r.(bleMode := val)
    case E2eDm => r.(e2eDm := val)
    case IntroAttach => r.(introAttach := val)
    case MobileAutoregister => r.(mobileAutoregister := val)
  }

  /** Setting one field of an editor that agrees with the record, and saving, changes that field of the
      record to that value and nothing else of it. */
  lemma SetThenSave(s: State, f: Field, val: nat)
    requires InStep(s) && s.svc.draft == s.svc.baseline && ValuesValid(s.svc.draft) && FieldValid(f, val)
    ensures var (t, r) := SaveStep(Next(s, Set(f, val)), true, true);
            && t.record == Some(WithField(s.record.value, f, val))
            && FieldOf(t.record.value, f) == val
            && (forall g: Field :: g != f ==> FieldOf(t.record.value, g) == FieldOf(s.record.value, g))
            && (r == NoChange <==> FieldOf(s.record.value, f) == val)
            && (r != NoChange ==> r == Saved || r == SavedReboot)
  {
    var u := Next(s, Set(f, val));
    var now := s.record.value;
    SetIsNamed(now, f, val);
    ValidSet(s.svc.draft, f, val);
    assert Covered(WithField(now, f, val)) == Covered(now) <==> FieldOf(now, f) == val;
    assert Overwrite(u.svc.draft, now) == WithField(now, f, val);
  }

  lemma SetIsNamed(r: Record, f: Field, val: nat)
    ensures Covered(r)[Index(f) := val] == Covered(WithField(r, f, val))
  {
  }

  lemma ValidSet(v: Values, f: Field, val: nat)
    requires ValuesValid(v) && FieldValid(f, val)
    ensures ValuesValid(v[Index(f) := val])
  {
    forall i | 0 <= i < FIELDS ensures FieldValid(ALL_FIELDS[i], v[Index(f) := val][i]) {
      assert FieldValid(ALL_FIELDS[i], v[i]);
    }
  }

  /** A value outside the field's domain, or an editor that is not open, changes nothing. */
  lemma BadSetIsRefused(s: State, f: Field, val: nat)
    requires !s.svc.open || (if f.BleMode? then val > 2 else val > 1)
    ensures Next(s, Set(f, val)) == s
  {
  }

  /** A saved draft is adopted field by field, the BLE mode excepted; that one is what a reboot waits for. */
  lemma SaveAdoptsNamedFields(s: State, answers: bool, accepts: bool)
    requires SaveStep(s, answers, accepts).1 == Saved || SaveStep(s, answers, accepts).1 == SavedReboot
    ensures var (t, r) := SaveStep(s, answers, accepts);
            && t.record.Some?
            && (var now := t.record.value;
                && t.effective[1] == now.e2eDm && t.effective[2] == now.introAttach
                && t.effective[3] == now.mobileAutoregister && t.effective[0] == s.effective[0]
                && (r == SavedReboot <==> now.bleMode != s.effective[0]))
  {
    SaveNeverLosesAnUpdate(s, answers, accepts);
    var d := s.svc.draft;
    assert FieldValid(ALL_FIELDS[1], d[1]) && FieldValid(ALL_FIELDS[2], d[2]) && FieldValid(ALL_FIELDS[3], d[3]);
  }

  // ---- the draft over every interleaving -----------------------------------------------------------

  /** The values of a draft as a record's fields. */
  function AsRecord(v: Values): Record { Record(v[0], v[1], v[2], v[3], []) }

  /** A reloaded field: the operator's value when it was edited, else the record's. */
  function Reloaded(base: Values, mine: Values, theirs: Record, f: Field): nat {
    if FieldOf(AsRecord(mine), f) != FieldOf(AsRecord(base), f) then FieldOf(AsRecord(mine), f) else FieldOf(theirs, f)
  }

  /** What one step makes of a draft: an open or discard that reads the record starts it afresh, an accepted
      set changes one named field, a staging replaces it, a reload merges it; all else leaves it alone. */
  predicate Redrafts(s: State, e: Event, now: Values) {
    var was := s.svc.draft;
    if e.Open? && !s.svc.open && e.answers && s.record.Some? then now == Covered(s.record.value)
    else if e.Discard? && Resolves(s, e) then now == Covered(s.record.value)
    else if e.Set? && s.svc.open && FieldValid(e.field, e.val) then
      AsRecord(now) == WithField(AsRecord(was), e.field, e.val)
    else if e.StageAll? && s.svc.open then now == e.values
    else if e.Reload? && Resolves(s, e) then
      forall f: Field :: FieldOf(AsRecord(now), f) == Reloaded(s.svc.baseline, was, s.record.value, f)
    else now == was
  }

  lemma NextRedrafts(s: State, e: Event)
    ensures Redrafts(s, e, Next(s, e).svc.draft)
  {
    if e.Set? { SetIsNamed(AsRecord(s.svc.draft), e.field, e.val); }
  }

  /** The drafts of a run, one more than it has steps. */
  function Drafts(s: State, es: seq<Event>): (ds: seq<Values>)
    ensures |ds| == |es| + 1
    decreases |es|
  {
    if es == [] then [s.svc.draft] else [s.svc.draft] + Drafts(Next(s, es[0]), es[1..])
  }

  /** Over every interleaving the draft is what the last open or discard read, changed by the accepted sets,
      stagings and reloads since, one step at a time. */
  lemma {:induction false} DraftLaw(s: State, es: seq<Event>)
    ensures Drafts(s, es)[|es|] == Run(s, es).svc.draft
    ensures forall i :: 0 <= i < |es| ==> Redrafts(Run(s, es[..i]), es[i], Drafts(s, es)[i + 1])
    ensures forall i :: 0 <= i <= |es| ==> Drafts(s, es)[i] == Run(s, es[..i]).svc.draft
    decreases |es|
  {
    if es != [] {
      var t, rest := Next(s, es[0]), es[1..];
      DraftLaw(t, rest);
      NextRedrafts(s, es[0]);
      forall i | 0 <= i <= |es| ensures Drafts(s, es)[i] == Run(s, es[..i]).svc.draft {
        if i > 0 { assert es[..i][0] == es[0] && es[..i][1..] == rest[..i - 1]; }
      }
      forall i | 0 <= i < |es| ensures Redrafts(Run(s, es[..i]), es[i], Drafts(s, es)[i + 1]) {
        if i > 0 { assert es[..i][0] == es[0] && es[..i][1..] == rest[..i - 1]; }
      }
    }
  }

  /** The last valid value a run sets `f` to; `before` when it sets none. */
  function LastSet(es: seq<Event>, f: Field, before: nat): nat
    decreases |es|
  {
    if es == [] then before
    else LastSet(es[1..], f, if es[0].Set? && es[0].field == f && FieldValid(f, es[0].val) then es[0].val else before)
  }

  /** In an open editor, through everything but stagings, discards and reloads, each field of the draft is
      what it was last set to. */
  lemma {:induction false} LastSetWins(s: State, es: seq<Event>, f: Field)
    requires s.svc.open && forall i :: 0 <= i < |es| ==> !es[i].StageAll? && !es[i].Discard? && !es[i].Reload?
    ensures FieldOf(AsRecord(Run(s, es).svc.draft), f) == LastSet(es, f, FieldOf(AsRecord(s.svc.draft), f))
    decreases |es|
  {
    if es != [] {
      NextRedrafts(s, es[0]);
      LastSetWins(Next(s, es[0]), es[1..], f);
    }
  }
}
