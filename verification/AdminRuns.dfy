/** What every run of the remote-admin target keeps: the running state follows the two durable
    records, sessions never outlive the credentials they were made with, and the stored ACL keeps
    its own rules. */
module AdminRuns {
  import opened Common
  import opened AdminRecords
  import opened AdminLive
  import opened AdminVerbs

  datatype Step =
    | PowerOn
    | Identity(verb: IdVerb, seed: Option<Key>)
    | Add(role: nat, key: Key)
    | SetRole(slot: nat, role: nat, actor: Option<nat>)
    | Remove(slot: nat, actor: Option<nat>)
    | ResetAcl
    | Request(slot: nat, id: nat)
    | NewSession(slot: nat)

  datatype Event = Event(step: Step, env: Env)

  ghost function Next(derive: Derive, w: World, e: Event): World {
    match e.step
    case PowerOn => Boot(derive, w, e.env).0
    case Identity(verb, seed) => MintRoot(derive, w, e.env, verb, seed).0
    case Add(role, key) => AclAdd(w, e.env, role, key).0
    case SetRole(slot, role, actor) => AclSet(w, e.env, slot, role, actor).0
    case Remove(slot, actor) => AclRemove(w, e.env, slot, actor).0
    case ResetAcl => AclReset(w, e.env).0
    case Request(slot, id) => w.(live := Admit(w.live, slot, id))
    case NewSession(slot) => w.(live := Rollover(w.live, slot, e.env.draws))
  }

  ghost function Run(derive: Derive, w: World, run: seq<Event>): World
    decreases |run|
  {
    if run == [] then w else Run(derive, Next(derive, w, run[0]), run[1..])
  }

  // ---- the ACL record over every run ------------------------------------------------------------

  /** The proposal an ACL step makes, for any of the three editing verbs. */
  ghost function Proposed(w: World, e: Event): Proposal {
    match e.step
    case Add(role, key) =>
      ProposeAdd(AdminIdStateOf(e.env.idAnswers, w.id), AclStateOf(e.env.aclAnswers, w.acl), Loaded(w.acl), role, key)
    case SetRole(slot, role, actor) => ProposeSet(AclStateOf(e.env.aclAnswers, w.acl), Loaded(w.acl), slot, role, actor)
    case Remove(slot, actor) => ProposeRemove(AclStateOf(e.env.aclAnswers, w.acl), Loaded(w.acl), slot, actor)
    case _ => Refuse(BadArgs)
  }
  predicate AclEdit(s: Step) { s.Add? || s.SetRole? || s.Remove? }

  /** In a valid record the two ways the code counts rows agree. */
  lemma CensusIsPopulation(b: AclBlob)
    requires AclContentValid(b)
    ensures Count(b.rec, LiveRole) == b.count
  {
    CountAgree(b.rec, b.rec, LiveRole, Occupied);
  }

  /** A candidate is only ever composed from a readable, valid (or absent, hence empty) record. */
  lemma ProposedFromValid(w: World, e: Event)
    requires Proposed(w, e).Change?
    ensures AclContentValid(Loaded(w.acl))
    ensures w.acl.Absent? || w.acl.Stored?
  {
    EmptyAclValid();
  }

  /** The row and slot each verb is asked for: an added row takes the lowest free slot, a role change moves
      the role of the named row alone, a removal empties the named row. */
  ghost predicate AsAsked(s: Step, b: AclBlob, slot: nat, row: AclRow) {
    match s
    case Add(role, key) => slot == LowestFree(b.rec) && row == AclRow(key, role, 0)
    case SetRole(named, role, _) => slot == named < ACL_SLOTS && row == b.rec[slot].(role := role)
    case Remove(named, _) => slot == named && row == EMPTY_ROW
    case _ => false
  }

  /** Every candidate the service composes is itself valid, so the check in the commit path never
      fails; it is the loaded record with the one row changed that the verb asked for, and it has an owner. */
  lemma CandidateValid(w: World, e: Event)
    requires Proposed(w, e).Change?
    ensures var p := Proposed(w, e);
            && AclContentValid(p.cand) && HasOwner(p.cand.rec)
            && p.slot < ACL_SLOTS && AsAsked(e.step, Loaded(w.acl), p.slot, p.cand.rec[p.slot])
            && (forall i :: 0 <= i < ACL_SLOTS && i != p.slot ==> p.cand.rec[i] == Loaded(w.acl).rec[i])
            && !RowSame(p.cand.rec[p.slot], Loaded(w.acl).rec[p.slot])
  {
    CandidateFits(w, e);
    CandidateAsAsked(w, e);
  }

  lemma CandidateAsAsked(w: World, e: Event)
    requires Proposed(w, e).Change?
    ensures var p := Proposed(w, e);
            p.slot < ACL_SLOTS && AsAsked(e.step, Loaded(w.acl), p.slot, p.cand.rec[p.slot])
  {
  }

  lemma CandidateFits(w: World, e: Event)
    requires Proposed(w, e).Change?
    ensures var p := Proposed(w, e);
            && AclContentValid(p.cand) && HasOwner(p.cand.rec)
            && p.slot < ACL_SLOTS
            && (forall i :: 0 <= i < ACL_SLOTS && i != p.slot ==> p.cand.rec[i] == Loaded(w.acl).rec[i])
            && !RowSame(p.cand.rec[p.slot], Loaded(w.acl).rec[p.slot])
  {
    ProposedFromValid(w, e);
    var b := Loaded(w.acl);
    CensusIsPopulation(b);
    var p := Proposed(w, e);
    match e.step
    case Add(role, key) =>
      AddKeepsValid(b, p.slot, AclRow(key, role, 0));
    case SetRole(slot, role, _) =>
      SetKeepsValid(b, slot, role);
      CountHas(b.rec, slot, Occupied);
    case Remove(slot, _) =>
      RemoveKeepsValid(b, slot);
  }

  /** The validity check of the commit path is never the refusal. */
  lemma CommitCheckNeverFails(w: World, e: Event)
    requires AclEdit(e.step)
    ensures Commit(w, e.env, Proposed(w, e)).1.err == StoreInvalid <==> Proposed(w, e) == Refuse(StoreInvalid)
  {
    if Proposed(w, e).Change? { CandidateFits(w, e); }
  }

  // ---- the running state follows the records ----------------------------------------------------

  function RootOf(derive: Derive, id: Slot<AdminIdBlob>): Option<KeyPair> {
    if RootUsable(id) then Some(derive(id.blob.seed)) else None
  }
  ghost function ImageOf(acl: Slot<AclBlob>): LiveRows {
    if AclUsable(acl) then Image(acl.blob.rec) else NO_ROWS
  }

  /** The running readiness is what its own fields say. */
  ghost predicate Settled(s: Live) {
    && s.occupied == Count(s.acl, RowLive)
    && s.readiness == if Accepts(s.root, s.acl, s.epoch) then Ready else Disabled
  }

  /** The running state is the one the two records describe: the derived root, the ACL image, and
      an epoch in service on every occupied row. */
  ghost predicate Coherent(derive: Derive, w: World) {
    && w.live.root == RootOf(derive, w.id)
    && w.live.acl == ImageOf(w.acl)
    && EpochsUsable(w.live.acl, w.live.epoch)
    && Settled(w.live)
  }

  /** A usable record's image has a live row; an unusable one's has none. */
  lemma ImageLive(acl: Slot<AclBlob>)
    ensures (exists i :: 0 <= i < ACL_SLOTS && RowLive(ImageOf(acl)[i])) <==> AclUsable(acl)
  {
    if AclUsable(acl) {
      CountWitness(acl.blob.rec, IsOwner);
      var i :| 0 <= i < ACL_SLOTS && IsOwner(acl.blob.rec[i]);
      assert RowLive(ImageOf(acl)[i]);
    }
  }

  /** A valid record's image is the image of its rows, usable or not. */
  lemma ImageOfValid(b: AclBlob)
    requires AclContentValid(b)
    ensures ImageOf(Stored(b)) == Image(b.rec)
    ensures AclUsable(Stored(b)) <==> HasOwner(b.rec)
  {
    UsableWhenNotEmpty(b);
    CountWitness(b.rec, IsOwner);
    if HasOwner(b.rec) {
      var i :| 0 <= i < |b.rec| && IsOwner(b.rec[i]);
      CountHas(b.rec, i, IsOwner);
    }
    if b.count == 0 { assert Image(b.rec) == NO_ROWS; }
  }

  /** Running readiness is provisioning readiness: the node accepts exactly when both records are
      usable. */
  lemma CoherentReadiness(derive: Derive, w: World)
    requires Coherent(derive, w)
    ensures w.live.readiness == Ready <==> ProvisioningReady(w.id, w.acl)
  {
    ImageLive(w.acl);
  }

  lemma AclEditKeepsCoherent(derive: Derive, w: World, e: Event)
    requires AclEdit(e.step) && Coherent(derive, w)
    ensures Coherent(derive, Next(derive, w, e))
  {
    var p := Proposed(w, e);
    var w' := Next(derive, w, e);
    assert w' == Commit(w, e.env, p).0;
    if w' != w {
      CandidateFits(w, e);
      ProposedFromValid(w, e);
      var before := Loaded(w.acl).rec;
      MintedEpochs(NeedsEpoch(before, p.cand.rec), e.env.draws);
      ImageOfValid(p.cand);
      ImageOfValid(Loaded(w.acl));
      assert ImageOf(w.acl) == Image(before) by {
        if w.acl.Absent? { assert Image(before) == NO_ROWS; }
      }
    }
  }

  lemma ResetKeepsCoherent(derive: Derive, w: World, env: Env)
    requires Coherent(derive, w)
    ensures Coherent(derive, AclReset(w, env).0)
  {
    EmptyAclValid();
    ImageOfValid(EMPTY_ACL);
    assert Image(EMPTY_ACL.rec) == NO_ROWS;
  }

  lemma MintRootKeepsCoherent(derive: Derive, w: World, env: Env, v: IdVerb, seed: Option<Key>)
    requires Coherent(derive, w)
    ensures Coherent(derive, MintRoot(derive, w, env, v, seed).0)
  {
    if Mint(ALL_SLOTS, env.draws).ok { MintedEpochs(ALL_SLOTS, env.draws); }
  }

  lemma SessionsKeepCoherent(derive: Derive, w: World, slot: nat, id: nat, draws: seq<nat>)
    requires Coherent(derive, w)
    ensures Coherent(derive, w.(live := Admit(w.live, slot, id)))
    ensures Coherent(derive, w.(live := Rollover(w.live, slot, draws)))
  {
  }

  // ---- boot ------------------------------------------------------------------------------------

  /** The draws a boot of this medium takes: ten for a usable root, else one per occupied row. */
  ghost function BootNeeds(w: World): Flags {
    if RootUsable(w.id) then ALL_SLOTS else if AclUsable(w.acl) then LiveNeeds(w.acl.blob.rec) else NO_SLOTS
  }
  ghost predicate Enough(need: seq<bool>, draws: seq<nat>) {
    Needs(need) <= |draws| && forall k :: 0 <= k < Needs(need) ==> draws[k] != 0
  }
  /** A boot that could read every usable record and got every draw it needed. */
  ghost predicate BootClean(w: World, env: Env) {
    && (RootUsable(w.id) ==> env.idAnswers)
    && (AclUsable(w.acl) ==> env.aclAnswers)
    && Enough(BootNeeds(w), env.draws)
  }

  /** The two records as this boot reads them. */
  ghost predicate RootRead(w: World, env: Env) { env.idAnswers && RootUsable(w.id) }
  ghost predicate AclRead(w: World, env: Env) { env.aclAnswers && AclUsable(w.acl) }

  /** The draws it takes for what it could read. */
  ghost function ReadNeeds(w: World, env: Env): Flags {
    if RootRead(w, env) then ALL_SLOTS else if AclRead(w, env) then LiveNeeds(w.acl.blob.rec) else NO_SLOTS
  }
  ghost function BootMint(w: World, env: Env): Minted {
    Mint(ReadNeeds(w, env), env.draws)
  }

  /** What a boot leaves running: the halves it could read, or nothing when a draw was refused. */
  lemma BootOutcome(derive: Derive, w: World, env: Env)
    ensures var live, m := Boot(derive, w, env).0.live, BootMint(w, env);
            && (!m.ok ==> live == CLEARED.(readiness := EntropyFailed))
            && (m.ok ==>
                  && live.root == (if RootRead(w, env) then RootOf(derive, w.id) else None)
                  && live.acl == (if AclRead(w, env) then ImageOf(w.acl) else NO_ROWS)
                  && live.epoch == (if AclRead(w, env) then m.epochs else NO_EPOCHS)
                  && Settled(live))
  {
  }

  /** A boot installs exactly what the medium describes if and only if it is clean. */
  lemma BootCoherentExactly(derive: Derive, w: World, env: Env)
    ensures Coherent(derive, Boot(derive, w, env).0) <==> BootClean(w, env)
  {
    if BootClean(w, env) {
      CleanBootIsCoherent(derive, w, env);
    } else {
      UncleanBootIsNot(derive, w, env);
    }
  }

  /** A boot that could read every usable record draws for exactly the rows it needs. */
  lemma CleanReadMints(w: World, env: Env)
    requires RootRead(w, env) == RootUsable(w.id) && AclRead(w, env) == AclUsable(w.acl)
    ensures BootMint(w, env).ok <==> Enough(BootNeeds(w), env.draws)
  {
    MintSucceeds(BootNeeds(w), env.draws);
  }

  lemma CleanBootIsCoherent(derive: Derive, w: World, env: Env)
    requires BootClean(w, env)
    ensures Coherent(derive, Boot(derive, w, env).0)
  {
    CleanReadMints(w, env);
    BootOutcome(derive, w, env);
    BootMints(w, env);
  }

  lemma UncleanBootIsNot(derive: Derive, w: World, env: Env)
    requires !BootClean(w, env)
    ensures !Coherent(derive, Boot(derive, w, env).0)
  {
    BootOutcome(derive, w, env);
    ImageLive(w.acl);
    if RootRead(w, env) == RootUsable(w.id) && AclRead(w, env) == AclUsable(w.acl) { CleanReadMints(w, env); }
  }

  /** What a boot reports is what it installed. */
  lemma BootReportsWhatItInstalled(derive: Derive, w: World, env: Env)
    ensures var (w', r) := Boot(derive, w, env);
            && r.state == w'.live.readiness
            && (r.state == Ready ==> r.slots == w'.live.occupied)
            && (r.state != Ready ==> r.slots == 0)
            && w'.id == w.id && w'.acl == w.acl
  {
    BootOutcome(derive, w, env);
    if BootMint(w, env).ok { ReadyAfterBoot(derive, w, env, Boot(derive, w, env).0.live); }
  }

  /** A boot that gets its draws ends ready exactly when it could read both halves. */
  lemma ReadyAfterBoot(derive: Derive, w: World, env: Env, live: Live)
    requires BootMint(w, env).ok && Settled(live)
    requires live.root == if RootRead(w, env) then RootOf(derive, w.id) else None
    requires live.acl == if AclRead(w, env) then ImageOf(w.acl) else NO_ROWS
    requires live.epoch == if AclRead(w, env) then BootMint(w, env).epochs else NO_EPOCHS
    ensures live.readiness == if RootRead(w, env) && AclRead(w, env) then Ready else Disabled
    ensures AclRead(w, env) ==> live.occupied == Count(w.acl.blob.rec, LiveRole)
  {
    BootMints(w, env);
    if AclRead(w, env) {
      ImageLive(w.acl);
      CountAgree(w.acl.blob.rec, Image(w.acl.blob.rec), LiveRole, RowLive);
    }
  }

  /** The rows a boot installs all get an epoch in service. */
  lemma BootMints(w: World, env: Env)
    ensures BootMint(w, env).ok && AclRead(w, env) ==> EpochsUsable(Image(w.acl.blob.rec), BootMint(w, env).epochs)
  {
    if BootMint(w, env).ok {
      MintedEpochs(ReadNeeds(w, env), env.draws);
    }
  }

  // ---- the headline property ---------------------------------------------------------------------

  predicate NoBoots(run: seq<Event>) { forall i :: 0 <= i < |run| ==> !run[i].step.PowerOn? }

  lemma NextKeepsCoherent(derive: Derive, w: World, e: Event)
    requires Coherent(derive, w) && !e.step.PowerOn?
    ensures Coherent(derive, Next(derive, w, e))
  {
    match e.step
    case Identity(verb, seed) => MintRootKeepsCoherent(derive, w, e.env, verb, seed);
    case ResetAcl => ResetKeepsCoherent(derive, w, e.env);
    case Request(slot, id) => SessionsKeepCoherent(derive, w, slot, id, e.env.draws);
    case NewSession(slot) => SessionsKeepCoherent(derive, w, slot, 0, e.env.draws);
    case _ => AclEditKeepsCoherent(derive, w, e);
  }

  /** Over every run of verbs, requests and rollovers, with any load, draw or save refused, the
      running state stays the one the records describe. */
  lemma {:induction false} RunKeepsCoherent(derive: Derive, w: World, run: seq<Event>)
    requires Coherent(derive, w) && NoBoots(run)
    ensures Coherent(derive, Run(derive, w, run))
    decreases |run|
  {
    if run != [] {
      NextKeepsCoherent(derive, w, run[0]);
      RunKeepsCoherent(derive, Next(derive, w, run[0]), run[1..]);
    }
  }

  /** The running root, ACL image and readiness equal what a fresh clean boot on the same medium
      would install, after any run from a clean boot. */
  lemma RunningEqualsFreshBoot(derive: Derive, w: World, env: Env, run: seq<Event>, again: Env)
    requires BootClean(w, env) && NoBoots(run)
    requires BootClean(Run(derive, Boot(derive, w, env).0, run), again)
    ensures var now := Run(derive, Boot(derive, w, env).0, run);
            var rebooted := Boot(derive, now, again).0;
            && now.live.root == rebooted.live.root && now.live.acl == rebooted.live.acl
            && now.live.occupied == rebooted.live.occupied
            && now.live.readiness == rebooted.live.readiness == Boot(derive, now, again).1.state
  {
    BootCoherentExactly(derive, w, env);
    RunKeepsCoherent(derive, Boot(derive, w, env).0, run);
    var now := Run(derive, Boot(derive, w, env).0, run);
    BootCoherentExactly(derive, now, again);
    BootReportsWhatItInstalled(derive, now, again);
  }

  /** Running readiness agrees with the two records. */
  ghost predicate ReadinessAgrees(w: World) {
    w.live.readiness == Ready <==> ProvisioningReady(w.id, w.acl)
  }

  const GOOD: Env := Env(true, true, true, Fill(ACL_SLOTS, 1))

  /** Ten good draws are enough for any mint. */
  lemma GoodDraws(need: seq<bool>)
    requires |need| == ACL_SLOTS
    ensures Mint(need, GOOD.draws).ok
  {
    MintSucceeds(need, GOOD.draws);
    CountWitness(need, IsSet);
  }

  /** A boot that is not clean leaves a half of the medium uninstalled: either the node has no root
      although the record is usable, or it has no rows although the ACL is. */
  lemma UncleanBootLosesAHalf(derive: Derive, w: World, env: Env)
    requires !BootClean(w, env)
    ensures var w' := Boot(derive, w, env).0;
            && w'.id == w.id && w'.acl == w.acl && w'.live.readiness != Ready
            && (RootUsable(w.id) || AclUsable(w.acl))
            && (!AclUsable(w.acl) ==> w'.live.root == None)
            && (!RootUsable(w.id) ==> w'.live.acl == NO_ROWS)
  {
    MintSucceeds(BootNeeds(w), env.draws);
    ImageLive(w.acl);
    CountWitness(NO_SLOTS, IsSet);
  }

  /** After an unclean boot some run of ordinary successful verbs ends with a node whose readiness
      disagrees with its records: an owner is added (after a reset, if the ACL is corrupt) while the
      root was left out, or a root is minted while the rows were left out. */
  lemma UncleanBootShows(derive: Derive, w: World, env: Env) returns (run: seq<Event>)
    requires !BootClean(w, env)
    ensures NoBoots(run) && !ReadinessAgrees(Run(derive, Boot(derive, w, env).0, run))
  {
    UncleanBootLosesAHalf(derive, w, env);
    var w1 := Boot(derive, w, env).0;
    if RootUsable(w.id) && AclUsable(w.acl) {
      run := [];
    } else if RootUsable(w.id) {
      run := OwnerWithoutRoot(derive, w1);
    } else {
      run := RootWithoutRows(derive, w1);
    }
  }

  lemma OwnerWithoutRoot(derive: Derive, w: World) returns (run: seq<Event>)
    requires RootUsable(w.id) && !AclUsable(w.acl) && w.live.root == None
    ensures NoBoots(run) && !ReadinessAgrees(Run(derive, w, run))
  {
    var add := Event(Add(ROLE_OWNER, 1), GOOD);
    if AclStateOf(true, w.acl) == RecordInvalid {
      OwnerAfterReset(derive, w);
      run := [Event(ResetAcl, GOOD), add];
    } else {
      FirstOwnerInstalls(w);
      RunOne(derive, w, add);
      run := [add];
    }
  }

  lemma OwnerAfterReset(derive: Derive, w: World)
    requires RootUsable(w.id) && AclStateOf(true, w.acl) == RecordInvalid && w.live.root == None
    ensures !ReadinessAgrees(Run(derive, w, [Event(ResetAcl, GOOD), Event(Add(ROLE_OWNER, 1), GOOD)]))
  {
    var add := Event(Add(ROLE_OWNER, 1), GOOD);
    var w2 := AclReset(w, GOOD).0;
    EmptyAclValid();
    ImageOfValid(EMPTY_ACL);
    FirstOwnerInstalls(w2);
    RunOne(derive, w2, add);
    assert [Event(ResetAcl, GOOD), add][1..] == [add];
  }

  lemma RootWithoutRows(derive: Derive, w: World) returns (run: seq<Event>)
    requires !RootUsable(w.id) && AclUsable(w.acl) && w.live.acl == NO_ROWS
    ensures NoBoots(run) && !ReadinessAgrees(Run(derive, w, run))
  {
    var e := Event(Identity(if w.id.Absent? then Generate else Recover, Some(1)), GOOD);
    GoodDraws(ALL_SLOTS);
    RunOne(derive, w, e);
    run := [e];
  }

  lemma RunOne(derive: Derive, w: World, e: Event)
    ensures Run(derive, w, [e]) == Next(derive, w, e)
  {
    assert [e][1..] == [];
  }

  /** Adding the first owner under good conditions succeeds and makes the ACL usable, but it never
      brings a root. */
  lemma FirstOwnerInstalls(w: World)
    requires RootUsable(w.id) && !AclUsable(w.acl) && AclStateOf(true, w.acl) in {RecordOk, RecordAbsent}
    requires w.live.root == None
    ensures var (w', r) := AclAdd(w, GOOD, ROLE_OWNER, 1);
            r.ok && w'.id == w.id && AclUsable(w'.acl) && w'.live.readiness == Disabled
  {
    var b := Loaded(w.acl);
    EmptyAclValid();
    UsableWhenNotEmpty(b);
    assert b == EMPTY_ACL;
    CensusIsPopulation(b);
    var e := Event(Add(ROLE_OWNER, 1), GOOD);
    assert Proposed(w, e).Change?;
    CandidateFits(w, e);
    ImageOfValid(Proposed(w, e).cand);
    GoodDraws(NeedsEpoch(b.rec, Proposed(w, e).cand.rec));
  }

  /** THE EXACT CONDITION. Whatever verbs succeed or fail after a boot, the node answers exactly when its
      two records say it should, if and only if that boot was clean: no usable record was unreadable and
      no needed draw refused. */
  lemma ReadinessTracksExactly(derive: Derive, w: World, env: Env)
    ensures BootClean(w, env) <==>
              forall run :: NoBoots(run) ==> ReadinessAgrees(Run(derive, Boot(derive, w, env).0, run))
  {
    if BootClean(w, env) {
      BootCoherentExactly(derive, w, env);
      forall run | NoBoots(run) ensures ReadinessAgrees(Run(derive, Boot(derive, w, env).0, run)) {
        RunKeepsCoherent(derive, Boot(derive, w, env).0, run);
        CoherentReadiness(derive, Run(derive, Boot(derive, w, env).0, run));
      }
    } else {
      var run := UncleanBootShows(derive, w, env);
    }
  }

  /** One concrete run: both records are usable, the first draw of the boot refuses, and afterwards
      `acl set` succeeds durably while the node still answers nobody. */
  lemma EntropyFailedBootCounterexample(derive: Derive)
    ensures var two := AclBlob(2, NO_ACL_ROWS[0 := AclRow(7, ROLE_OWNER, 0)][1 := AclRow(8, ROLE_OPERATOR, 0)]);
            var w := World(Stored(AdminIdBlob(0, 5)), Stored(two), CLEARED);
            var booted := Boot(derive, w, Env(true, true, true, [0])).0;
            var (w', r) := AclSet(booted, GOOD, 1, ROLE_OWNER, None);
            && r == AclResult(true, NoErr, 1, ROLE_OWNER, true)
            && ProvisioningReady(w'.id, w'.acl) && w'.live.readiness == Disabled
  {
    var rec: AclRows := NO_ACL_ROWS[0 := AclRow(7, ROLE_OWNER, 0)][1 := AclRow(8, ROLE_OPERATOR, 0)];
    var two := AclBlob(2, rec);
    assert AclContentValid(EMPTY_ACL) by { EmptyAclValid(); }
    AddKeepsValid(EMPTY_ACL, 0, AclRow(7, ROLE_OWNER, 0));
    AddKeepsValid(AclBlob(1, NO_ACL_ROWS[0 := AclRow(7, ROLE_OWNER, 0)]), 1, AclRow(8, ROLE_OPERATOR, 0));
    assert AclContentValid(two) && IsOwner(rec[0]);
    CountHas(rec, 0, IsOwner);
    var w := World(Stored(AdminIdBlob(0, 5)), Stored(two), CLEARED);
    var env := Env(true, true, true, [0]);
    assert !BootClean(w, env) by { CountHas(ALL_SLOTS, 0, IsSet); }
    UncleanBootLosesAHalf(derive, w, env);
    MintSucceeds(ALL_SLOTS, env.draws);
    CountHas(ALL_SLOTS, 0, IsSet);
    var booted := Boot(derive, w, env).0;
    var e := Event(SetRole(1, ROLE_OWNER, None), GOOD);
    assert Proposed(booted, e).Change?;
    CandidateFits(booted, e);
    ImageOfValid(Proposed(booted, e).cand);
    GoodDraws(NeedsEpoch(rec, Proposed(booted, e).cand.rec));
  }
}
