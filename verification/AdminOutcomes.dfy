/** What each verb of the remote-admin target answers, and exactly when it succeeds: said of the records
    and the environment alone, not of the gates and proposals the verbs are computed with. */
module AdminOutcomes {
  import opened Common
  import opened AdminRecords
  import opened AdminLive
  import opened AdminVerbs
  import opened AdminRuns

  // ---- the root ------------------------------------------------------------------------------------

  /** The stored root each verb is for: none, a usable one, or one that is there and cannot be used. */
  predicate VerbFits(v: IdVerb, id: Slot<AdminIdBlob>) {
    match v
    case Generate => id.Absent?
    case Rotate => RootUsable(id)
    case Recover => !id.Absent? && !RootUsable(id)
  }

  predicate GoodDraws(draws: seq<nat>, n: nat) { |draws| >= n && forall k :: 0 <= k < n ==> draws[k] != 0 }

  /** A root verb succeeds if and only if the store can be read, the stored root is the one it is for, the
      seed is live, ten good draws come and the save is accepted; then the seed is what is stored. */
  lemma MintRootSucceedsExactly(derive: Derive, w: World, env: Env, v: IdVerb, seed: Option<Key>)
    ensures var (w', r) := MintRoot(derive, w, env, v, seed);
            && (r.ok <==>
                  && env.idAnswers && VerbFits(v, w.id) && seed.Some? && seed.value != 0
                  && GoodDraws(env.draws, ACL_SLOTS) && env.accepts)
            && (if r.ok then w'.id == Stored(AdminIdBlob(0, seed.value)) else w' == w)
  {
    MintSucceeds(ALL_SLOTS, env.draws);
    CountWitness(ALL_SLOTS, IsSet);
  }

  /** What a root verb says when the stored root is not the one it is for. */
  lemma MintRootRefusals(derive: Derive, w: World, env: Env, v: IdVerb, seed: Option<Key>)
    ensures var err := MintRoot(derive, w, env, v, seed).1.err;
            && (err == IdStoreIoFailed <==> !env.idAnswers)
            && (err == AlreadyPresent <==> env.idAnswers && v.Generate? && RootUsable(w.id))
            && (err == IdAbsent <==> env.idAnswers && v.Rotate? && w.id.Absent?)
            && (err == IdNotInvalid <==> env.idAnswers && v.Recover? && (w.id.Absent? || RootUsable(w.id)))
            && (err == IdStoreInvalid <==> env.idAnswers && !v.Recover? && !w.id.Absent? && !RootUsable(w.id))
  {
  }

  /** The stored root changes only by the verb that is for it. */
  lemma RootChangesAsAsked(derive: Derive, w: World, e: Event)
    ensures Next(derive, w, e).id != w.id ==> e.step.Identity? && VerbFits(e.step.verb, w.id)
  {
    if e.step.Identity? { MintRootSucceedsExactly(derive, w, e.env, e.step.verb, e.step.seed); }
  }

  /** Over every run a usable stored root stays what it is until somebody asks to rotate it. */
  lemma {:induction false} UsableRootStays(derive: Derive, w: World, run: seq<Event>)
    requires RootUsable(w.id)
    requires forall i :: 0 <= i < |run| && run[i].step.Identity? ==> !run[i].step.verb.Rotate?
    ensures Run(derive, w, run).id == w.id
    decreases |run|
  {
    if run != [] {
      RootChangesAsAsked(derive, w, run[0]);
      UsableRootStays(derive, Next(derive, w, run[0]), run[1..]);
    }
  }

  // ---- the ACL verbs -------------------------------------------------------------------------------

  /** A record the verbs may edit: none yet, or a valid one. */
  ghost predicate Editable(acl: Slot<AclBlob>) { acl.Absent? || (acl.Stored? && AclContentValid(acl.blob)) }

  predicate OnlyOwner(rec: AclRows, slot: nat)
    requires slot < ACL_SLOTS
  {
    IsOwner(rec[slot]) && forall i :: 0 <= i < ACL_SLOTS && i != slot ==> !IsOwner(rec[i])
  }

  lemma OnlyOwnerCounts(rec: AclRows, slot: nat)
    requires slot < ACL_SLOTS && IsOwner(rec[slot])
    ensures Count(rec, IsOwner) == 1 <==> OnlyOwner(rec, slot)
  {
    var rest := rec[slot := EMPTY_ROW];
    CountUpdate(rec, slot, EMPTY_ROW, IsOwner);
    CountWitness(rest, IsOwner);
    if i :| 0 <= i < ACL_SLOTS && i != slot && IsOwner(rec[i]) {
      assert IsOwner(rest[i]);
      CountHas(rest, i, IsOwner);
    }
  }

  /** One slot in need takes one draw. */
  lemma OneNeed(need: Flags, slot: nat)
    requires slot < ACL_SLOTS && forall i :: 0 <= i < ACL_SLOTS && i != slot ==> !need[i]
    ensures Needs(need) == if need[slot] then 1 else 0
  {
    CountUpdate(need, slot, false, IsSet);
    CountWitness(need[slot := false], IsSet);
  }

  /** A composed change goes through if and only if the draw it needs comes and the save is accepted. */
  lemma ChangeGoesThrough(w: World, e: Event)
    requires Proposed(w, e).Change?
    ensures var p := Proposed(w, e);
            var (w', r) := Commit(w, e.env, p);
            && p.slot < ACL_SLOTS
            && (r.ok <==> (LiveRole(p.cand.rec[p.slot]) ==> GoodDraws(e.env.draws, 1)) && e.env.accepts)
            && (if r.ok then r.changed && r.slot == p.slot && w'.acl == Stored(p.cand) && w'.id == w.id else w' == w)
  {
    CandidateFits(w, e);
    var p := Proposed(w, e);
    var need := NeedsEpoch(Loaded(w.acl).rec, p.cand.rec);
    OneNeed(need, p.slot);
    MintSucceeds(need, e.env.draws);
  }

  /** A new controller fits: a key, an assignable role, a usable root stored, an ACL that may be edited with a
      free slot and no row of that key, and an owner among its rows afterwards. */
  ghost predicate Addable(w: World, env: Env, role: nat, key: Key) {
    var rec := Loaded(w.acl).rec;
    && (role == ROLE_OPERATOR || role == ROLE_OWNER) && key != 0
    && env.idAnswers && RootUsable(w.id) && env.aclAnswers && Editable(w.acl)
    && (forall i :: 0 <= i < ACL_SLOTS && Occupied(rec[i]) ==> rec[i].key != key)
    && (role == ROLE_OWNER || exists i :: 0 <= i < ACL_SLOTS && Occupied(rec[i]))
    && (exists i :: 0 <= i < ACL_SLOTS && !Occupied(rec[i]))
  }

  /** `acl add` succeeds exactly when the new controller fits, its draw comes and the save is accepted. The
      new row takes the lowest free slot. */
  lemma AddSucceedsExactly(w: World, env: Env, role: nat, key: Key)
    ensures var (w', r) := AclAdd(w, env, role, key);
            && (r.ok <==> Addable(w, env, role, key) && GoodDraws(env.draws, 1) && env.accepts)
            && (if r.ok then AddedAt(Loaded(w.acl).rec, w'.acl, r.slot, AclRow(key, role, 0)) else w' == w)
  {
    var e := Event(Add(role, key), env);
    AddComposesExactly(w, e);
    if Proposed(w, e).Change? {
      ChangeGoesThrough(w, e);
      assert !Occupied(Loaded(w.acl).rec[LowestFree(Loaded(w.acl).rec)]);
    }
  }

  predicate AddedAt(rec: AclRows, acl: Slot<AclBlob>, slot: nat, row: AclRow) {
    && slot < ACL_SLOTS && !Occupied(rec[slot]) && (forall i :: 0 <= i < slot ==> Occupied(rec[i]))
    && acl.Stored? && acl.blob.rec == rec[slot := row]
  }

  lemma AddComposesExactly(w: World, e: Event)
    requires e.step.Add?
    ensures Proposed(w, e).Change? <==> Addable(w, e.env, e.step.role, e.step.key)
  {
    EmptyAclValid();
    if Editable(w.acl) { RowComposesExactly(Loaded(w.acl), e.step.role, e.step.key); }
  }

  lemma RowComposesExactly(b: AclBlob, role: nat, key: Key)
    requires AclContentValid(b)
    ensures ProposeRow(b, role, key).Change? <==>
              && (forall i :: 0 <= i < ACL_SLOTS && Occupied(b.rec[i]) ==> b.rec[i].key != key)
              && (role == ROLE_OWNER || exists i :: 0 <= i < ACL_SLOTS && Occupied(b.rec[i]))
              && (exists i :: 0 <= i < ACL_SLOTS && !Occupied(b.rec[i]))
  {
    CensusIsPopulation(b);
    CountWitness(b.rec, Occupied);
    if i :| 0 <= i < ACL_SLOTS && Occupied(b.rec[i]) { CountHas(b.rec, i, Occupied); }
    assert LowestFree(b.rec) < ACL_SLOTS ==> !Occupied(b.rec[LowestFree(b.rec)]);
  }

  /** `acl set` succeeds exactly when the named row exists, no actor demotes itself and no last owner is
      demoted; a role that is there already changes nothing and needs neither draw nor save. */
  lemma SetSucceedsExactly(w: World, env: Env, slot: nat, role: nat, actor: Option<nat>)
    ensures var (w', r) := AclSet(w, env, slot, role, actor);
            && (r.ok <==>
                  && (role == ROLE_OPERATOR || role == ROLE_OWNER) && slot < ACL_SLOTS
                  && env.aclAnswers && w.acl.Stored? && AclContentValid(w.acl.blob) && Occupied(w.acl.blob.rec[slot])
                  && !(actor == Some(slot) && IsOwner(w.acl.blob.rec[slot]) && role == ROLE_OPERATOR)
                  && (w.acl.blob.rec[slot].role != role ==>
                        !OnlyOwner(w.acl.blob.rec, slot) && GoodDraws(env.draws, 1) && env.accepts))
            && (if r.ok && w.acl.blob.rec[slot].role != role
                then
                  && w'.acl.Stored?
                  && w'.acl.blob.rec == w.acl.blob.rec[slot := AclRow(w.acl.blob.rec[slot].key, role, 0)]
                else w' == w)
  {
    var e := Event(SetRole(slot, role, actor), env);
    if slot < ACL_SLOTS && w.acl.Stored? && AclContentValid(w.acl.blob) && IsOwner(w.acl.blob.rec[slot]) {
      OnlyOwnerCounts(w.acl.blob.rec, slot);
    }
    if Proposed(w, e).Change? {
      assert RowWellFormed(w.acl.blob.rec[slot]);
      ChangeGoesThrough(w, e);
    }
  }

  /** `acl remove` succeeds exactly when the named row exists, is not the actor's own and not the last
      owner's, and the save is accepted; it needs no draw, and the row is empty afterwards. */
  lemma RemoveSucceedsExactly(w: World, env: Env, slot: nat, actor: Option<nat>)
    ensures var (w', r) := AclRemove(w, env, slot, actor);
            && (r.ok <==>
                  && slot < ACL_SLOTS && env.aclAnswers && w.acl.Stored? && AclContentValid(w.acl.blob)
                  && Occupied(w.acl.blob.rec[slot]) && actor != Some(slot) && !OnlyOwner(w.acl.blob.rec, slot)
                  && env.accepts)
            && (if r.ok then w'.acl.Stored? && w'.acl.blob.rec == w.acl.blob.rec[slot := AclRow(0, ROLE_EMPTY, 0)]
                else w' == w)
  {
    var e := Event(Remove(slot, actor), env);
    if slot < ACL_SLOTS && w.acl.Stored? && AclContentValid(w.acl.blob) && IsOwner(w.acl.blob.rec[slot]) {
      OnlyOwnerCounts(w.acl.blob.rec, slot);
    }
    if Proposed(w, e).Change? { ChangeGoesThrough(w, e); }
  }

  /** `acl reset` succeeds exactly on a record that is there and cannot be used, and empties it. */
  lemma ResetSucceedsExactly(w: World, env: Env)
    ensures var (w', r) := AclReset(w, env);
            && (r.ok <==> env.aclAnswers && !w.acl.Absent? && !Editable(w.acl) && env.accepts)
            && (if r.ok then w'.acl == Stored(AclBlob(0, Fill(ACL_SLOTS, AclRow(0, ROLE_EMPTY, 0)))) else w' == w)
  {
  }

  // ---- requests ------------------------------------------------------------------------------------

  predicate HeldAs(s: Seen, slot: nat, id: nat) { s.Held? && s.slot == slot && s.id == id }

  /** A request is admitted if and only if the node accepts, its slot is in service, no entry of the pool
      holds it already and one is free; it then takes the first free entry with the credentials in service. */
  lemma AdmitExactly(live: Live, slot: nat, id: nat)
    ensures var t := Admit(live, slot, id);
            && (t != live <==>
                  && live.readiness == Ready && live.root.Some? && slot < ACL_SLOTS
                  && RowLive(live.acl[slot]) && live.epoch[slot] != 0
                  && (forall j :: 0 <= j < SEEN_SLOTS ==> !HeldAs(live.seen[j], slot, id))
                  && (exists j :: 0 <= j < SEEN_SLOTS && live.seen[j] == Free))
            && (t != live ==>
                  var j := FreeSeen(live.seen);
                  && j < SEEN_SLOTS && live.seen[j] == Free
                  && (var e := Held(slot, id, live.epoch[slot], live.root.value, live.acl[slot]);
                      t == live.(seen := live.seen[j := e])))
  {
    var j := FreeSeen(live.seen);
    if j < SEEN_SLOTS { assert live.seen[j := Held(slot, id, 0, NO_PAIR, NO_ROW)][j] != live.seen[j]; }
    if i :| 0 <= i < SEEN_SLOTS && live.seen[i] == Free { FirstFree(live.seen, 0, i); }
  }

  lemma {:induction false} FirstFree(seen: SeenPool, from: nat, i: nat)
    requires from <= i < SEEN_SLOTS && seen[i].Free?
    ensures FreeSeen(seen, from) <= i
    decreases i - from
  {
    if from < i && !seen[from].Free? { FirstFree(seen, from + 1, i); }
  }

  /** No request is in the pool twice. */
  ghost predicate NoReplays(seen: SeenPool) {
    forall i, j :: 0 <= i < j < SEEN_SLOTS && seen[i].Held? && seen[j].Held? ==>
      seen[i].slot != seen[j].slot || seen[i].id != seen[j].id
  }

  /** Installing frees entries and fills none. */
  predicate OnlyFrees(was: SeenPool, now: SeenPool) {
    forall j :: 0 <= j < SEEN_SLOTS ==> now[j] == was[j] || now[j] == Free
  }

  lemma NextAdmits(derive: Derive, w: World, e: Event)
    ensures !e.step.Request? ==> OnlyFrees(w.live.seen, Next(derive, w, e).live.seen)
  {
  }

  /** Over every run, as long as an admitted request is remembered, no repetition of it is admitted again. */
  lemma {:induction false} RunAdmitsOnce(derive: Derive, w: World, run: seq<Event>)
    requires NoReplays(w.live.seen)
    ensures NoReplays(Run(derive, w, run).live.seen)
    decreases |run|
  {
    if run != [] {
      var w' := Next(derive, w, run[0]);
      match run[0].step {
        case Request(slot, id) => AdmitExactly(w.live, slot, id);
        case _ => NextAdmits(derive, w, run[0]);
      }
      RunAdmitsOnce(derive, w', run[1..]);
    }
  }

  /** A rollover goes through if and only if its slot is in service and the draw is good and new; it then
      moves that slot's epoch to the draw, ends that slot's requests and touches nothing else. */
  lemma RolloverExactly(live: Live, slot: nat, draws: seq<nat>)
    requires Settled(live)
    ensures var t := Rollover(live, slot, draws);
            && t.root == live.root && t.acl == live.acl
            && (if slot < ACL_SLOTS && RowLive(live.acl[slot]) && live.epoch[slot] != 0
                   && GoodDraws(draws, 1) && draws[0] != live.epoch[slot] then
                  && t.epoch == live.epoch[slot := draws[0]]
                  && (forall j :: 0 <= j < SEEN_SLOTS ==>
                        t.seen[j] == if live.seen[j].Held? && live.seen[j].slot == slot then Free else live.seen[j])
                else t == live)
  {
  }
}
