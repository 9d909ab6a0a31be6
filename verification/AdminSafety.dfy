/** Safety of the remote-admin target over every run, boots that fail included: the node never
    accepts more than its records grant, no session outlives its credentials, each change touches
    exactly the slots it moved, and the ACL never loses its owners. */
module AdminSafety {
  import opened Common
  import opened AdminRecords
  import opened AdminLive
  import opened AdminVerbs
  import opened AdminRuns

  // ---- one step touches what it moved -------------------------------------------------------------

  /** An ACL edit that succeeds re-mints the epoch of the one slot it moved, or retires it, ends that
      slot's admitted requests, and leaves every other slot's row, epoch and requests exactly as they
      were. Anything else it answers leaves the whole world as it was. */
  lemma AclEditTouchesOneSlot(derive: Derive, w: World, e: Event)
    requires AclEdit(e.step) && Coherent(derive, w)
    ensures var (w', r) := Commit(w, e.env, Proposed(w, e));
            && w' == Next(derive, w, e)
            && (!r.changed ==> w' == w)
            && (r.changed ==>
                  && r.ok && r.slot < ACL_SLOTS && w'.live.root == w.live.root && w'.id == w.id
                  && (if RowLive(w'.live.acl[r.slot])
                      then e.env.draws != [] && w'.live.epoch[r.slot] == e.env.draws[0] != 0
                      else w'.live.epoch[r.slot] == 0)
                  && (forall i :: 0 <= i < ACL_SLOTS && i != r.slot ==>
                        w'.live.acl[i] == w.live.acl[i] && w'.live.epoch[i] == w.live.epoch[i])
                  && (forall j :: 0 <= j < SEEN_SLOTS ==>
                        w'.live.seen[j] == if w.live.seen[j].Held? && w.live.seen[j].slot == r.slot
                                           then Free else w.live.seen[j]))
  {
    var (w', r) := Commit(w, e.env, Proposed(w, e));
    if r.changed {
      CandidateFits(w, e);
      ProposedFromValid(w, e);
      var before, after := Loaded(w.acl).rec, Proposed(w, e).cand.rec;
      var need := NeedsEpoch(before, after);
      MintedEpochs(need, e.env.draws);
      NothingBefore(need[..r.slot]);
      ImageOfValid(Loaded(w.acl));
      assert w.live.acl == Image(before) by {
        if w.acl.Absent? { assert Image(before) == NO_ROWS; }
      }
    }
  }

  lemma NothingBefore(need: seq<bool>)
    requires forall i :: 0 <= i < |need| ==> !need[i]
    ensures Needs(need) == 0
  {
    CountWitness(need, IsSet);
  }

  /** A root change that succeeds installs the derived pair, puts the first ten draws in service in
      slot order, ends every admitted request and keeps the ACL; one that does not changes nothing. */
  lemma RootChangeTouchesEverySlot(derive: Derive, w: World, env: Env, v: IdVerb, seed: Option<Key>)
    ensures var (w', r) := MintRoot(derive, w, env, v, seed);
            && (!r.ok ==> w' == w)
            && (r.ok ==>
                  && seed.Some? && w'.live.root == Some(derive(seed.value)) && r.edPub == derive(seed.value).edPub
                  && RootUsable(w'.id) && w'.acl == w.acl && w'.live.acl == w.live.acl
                  && |env.draws| >= ACL_SLOTS
                  && (forall i :: 0 <= i < ACL_SLOTS ==> w'.live.epoch[i] == env.draws[i] != 0)
                  && (forall j :: 0 <= j < SEEN_SLOTS ==> w'.live.seen[j].Free?))
  {
    if Mint(ALL_SLOTS, env.draws).ok { AllDrawn(ALL_SLOTS, env.draws); }
  }

  /** When every slot needs an epoch, the draws go into service one by one. */
  lemma {:induction false} AllDrawn(need: seq<bool>, draws: seq<nat>)
    requires Mint(need, draws).ok && forall i :: 0 <= i < |need| ==> need[i]
    ensures |draws| >= |need|
    ensures forall i :: 0 <= i < |need| ==> Mint(need, draws).epochs[i] == draws[i] != 0
  {
    if need != [] { AllDrawn(need[1..], draws[1..]); }
  }

  // ---- never more than the records grant ------------------------------------------------------------

  /** Every admitted request still stands on the credentials it was authenticated with: the current
      root, the current row of its slot and that slot's current epoch. */
  ghost predicate SessionsCurrent(s: Live) {
    forall j :: 0 <= j < SEEN_SLOTS && s.seen[j].Held? ==>
      var e := s.seen[j];
      && e.slot < ACL_SLOTS && s.root == Some(e.pair)
      && RowLive(s.acl[e.slot]) && s.acl[e.slot] == e.row
      && s.epoch[e.slot] == e.epoch != 0
  }

  /** Each installed half is the one its record describes, or is missing; accepting is what the
      installed halves say; and no session is stale. */
  ghost predicate Safe(derive: Derive, w: World) {
    && (w.live.root == None || w.live.root == RootOf(derive, w.id))
    && (w.live.acl == NO_ROWS || w.live.acl == ImageOf(w.acl))
    && (w.live.readiness == Ready ==> Accepts(w.live.root, w.live.acl, w.live.epoch))
    && SessionsCurrent(w.live)
  }

  /** A node that accepts has both records to show for it. */
  lemma AcceptingIsProvisioned(derive: Derive, w: World)
    requires Safe(derive, w) && w.live.readiness == Ready
    ensures ProvisioningReady(w.id, w.acl)
  {
    ImageLive(w.acl);
  }

  /** Whatever was running before, a boot with any failure is safe. */
  lemma BootIsSafe(derive: Derive, w: World, env: Env)
    ensures Safe(derive, Boot(derive, w, env).0)
  {
  }

  /** Installing an ACL change ends every request whose slot moved, so the ones that stay are current. */
  lemma ChangeKeepsSessions(s: Live, before: AclRows, after: AclRows, epochs: Epochs)
    requires SessionsCurrent(s) && (s.acl == NO_ROWS || s.acl == Image(before))
    ensures SessionsCurrent(Install(s, AclPlan(after, epochs, Moved(before, after))))
  {
    var t := Install(s, AclPlan(after, epochs, Moved(before, after)));
    forall j | 0 <= j < SEEN_SLOTS && t.seen[j].Held?
      ensures var h := t.seen[j]; h.slot < ACL_SLOTS && t.acl[h.slot] == h.row && t.epoch[h.slot] == h.epoch
    {
      assert t.seen[j] == s.seen[j];
      var i := s.seen[j].slot;
      assert RowLive(s.acl[i]) && s.acl[i] == Image(before)[i];
    }
  }

  lemma AclEditKeepsSafe(derive: Derive, w: World, e: Event)
    requires AclEdit(e.step) && Safe(derive, w)
    ensures Safe(derive, Next(derive, w, e))
  {
    if Next(derive, w, e) != w {
      CandidateFits(w, e);
      ProposedFromValid(w, e);
      var before, cand := Loaded(w.acl), Proposed(w, e).cand;
      ImageOfValid(cand);
      ImageOfValid(before);
      assert w.live.acl == NO_ROWS || w.live.acl == Image(before.rec);
      ChangeKeepsSessions(w.live, before.rec, cand.rec, Mint(NeedsEpoch(before.rec, cand.rec), e.env.draws).epochs);
    }
  }

  lemma NextKeepsSafe(derive: Derive, w: World, e: Event)
    requires Safe(derive, w)
    ensures Safe(derive, Next(derive, w, e))
  {
    match e.step
    case PowerOn => BootIsSafe(derive, w, e.env);
    case Identity(verb, seed) => RootChangeTouchesEverySlot(derive, w, e.env, verb, seed);
    case ResetAcl =>
    case Request(slot, id) =>
    case NewSession(slot) =>
    case _ => AclEditKeepsSafe(derive, w, e);
  }

  /** Over every run, boots with unreadable records and refused draws included, the node never
      accepts without both records and no admitted request stands on a replaced root, row or epoch. */
  lemma {:induction false} RunKeepsSafe(derive: Derive, w: World, run: seq<Event>)
    requires Safe(derive, w)
    ensures Safe(derive, Run(derive, w, run))
    ensures Run(derive, w, run).live.readiness == Ready ==>
              ProvisioningReady(Run(derive, w, run).id, Run(derive, w, run).acl)
    decreases |run|
  {
    if run != [] {
      NextKeepsSafe(derive, w, run[0]);
      RunKeepsSafe(derive, Next(derive, w, run[0]), run[1..]);
    } else if w.live.readiness == Ready {
      AcceptingIsProvisioned(derive, w);
    }
  }

  // ---- the stored ACL over every run ------------------------------------------------------------------

  ghost predicate OwnedAcl(acl: Slot<AclBlob>) {
    acl.Stored? && AclContentValid(acl.blob) && HasOwner(acl.blob.rec)
  }

  /** A step leaves the stored ACL alone, replaces it by a candidate, or resets a corrupt one. */
  lemma NextAcl(derive: Derive, w: World, e: Event)
    ensures var acl := Next(derive, w, e).acl;
            || acl == w.acl
            || (AclEdit(e.step) && Proposed(w, e).Change? && acl == Stored(Proposed(w, e).cand))
            || (e.step.ResetAcl? && AclStateOf(true, w.acl) == RecordInvalid && acl == Stored(EMPTY_ACL))
  {
  }

  lemma NextKeepsOwner(derive: Derive, w: World, e: Event)
    requires OwnedAcl(w.acl)
    ensures OwnedAcl(Next(derive, w, e).acl)
  {
    NextAcl(derive, w, e);
    if AclEdit(e.step) && Proposed(w, e).Change? { CandidateFits(w, e); }
  }

  /** Once the stored ACL is valid with an owner it stays valid with an owner, over every run by any
      actors with any refusals. */
  lemma {:induction false} RunKeepsOwner(derive: Derive, w: World, run: seq<Event>)
    requires OwnedAcl(w.acl)
    ensures OwnedAcl(Run(derive, w, run).acl)
    decreases |run|
  {
    if run != [] {
      NextKeepsOwner(derive, w, run[0]);
      RunKeepsOwner(derive, Next(derive, w, run[0]), run[1..]);
    }
  }

  /** A run in which every edit of an existing row is asked for by the holder of slot `a`. */
  predicate OnlyActor(run: seq<Event>, a: nat) {
    forall i :: 0 <= i < |run| ==>
      && (run[i].step.SetRole? ==> run[i].step.actor == Some(a))
      && (run[i].step.Remove? ==> run[i].step.actor == Some(a))
  }

  /** The slot still holds the same key, with a role no lower than before. */
  predicate KeepsRow(was: AclRow, now: AclRow) {
    Occupied(now) && now.key == was.key && (now.role == was.role || IsOwner(now))
  }

  lemma NextKeepsActor(derive: Derive, w: World, e: Event, a: nat)
    requires OnlyActor([e], a) && a < ACL_SLOTS
    requires OwnedAcl(w.acl) && Occupied(w.acl.blob.rec[a])
    ensures var acl := Next(derive, w, e).acl;
            OwnedAcl(acl) && KeepsRow(w.acl.blob.rec[a], acl.blob.rec[a])
  {
    NextKeepsOwner(derive, w, e);
    NextAcl(derive, w, e);
    if AclEdit(e.step) && Proposed(w, e).Change? { ProposalKeepsActor(w, e, a); }
  }

  lemma ProposalKeepsActor(w: World, e: Event, a: nat)
    requires OnlyActor([e], a) && a < ACL_SLOTS
    requires OwnedAcl(w.acl) && Occupied(w.acl.blob.rec[a])
    requires AclEdit(e.step) && Proposed(w, e).Change?
    ensures KeepsRow(w.acl.blob.rec[a], Proposed(w, e).cand.rec[a])
  {
    assert [e][0] == e;
    CandidateValid(w, e);
  }

  /** No actor can remove or demote its own slot, by any sequence of requests: operator or owner, one whose
      slot edits are its own is still in that slot at the end, under the same key and no lower a role. */
  lemma {:induction false} ActorKeepsOwnSlot(derive: Derive, w: World, run: seq<Event>, a: nat)
    requires OnlyActor(run, a) && a < ACL_SLOTS
    requires OwnedAcl(w.acl) && Occupied(w.acl.blob.rec[a])
    ensures var acl := Run(derive, w, run).acl;
            OwnedAcl(acl) && KeepsRow(w.acl.blob.rec[a], acl.blob.rec[a])
    decreases |run|
  {
    if run != [] {
      NextKeepsActor(derive, w, run[0], a);
      ActorKeepsOwnSlot(derive, Next(derive, w, run[0]), run[1..], a);
    }
  }
}
