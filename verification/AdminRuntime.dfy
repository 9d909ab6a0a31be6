/** The running half in the code's own form: the session block a node keeps in memory, the install
    plan, the preparations that fill a plan slot by slot, and the object that owns the one plan. */
module AdminRuntime {
  import opened Common
  import opened AdminRecords
  import opened AdminLive
  import opened AdminVerbs

  /** The transient install plan, filled in place by the preparations. */
  class InstallPlan {
    var setRoot: bool
    var pair: KeyPair
    var clearRoot: bool
    var setAcl: bool
    const acl: array<LiveRow>
    const epoch: array<nat>
    const epochSet: array<bool>
    var invalidateAll: bool

    ghost predicate Valid() {
      acl.Length == ACL_SLOTS && epoch.Length == ACL_SLOTS && epochSet.Length == ACL_SLOTS
    }

    ghost function Value(): Plan
      requires Valid()
      reads this, acl, epoch, epochSet
    {
      Plan(setRoot, pair, clearRoot, setAcl, acl[..], epoch[..], epochSet[..], invalidateAll)
    }

    constructor ()
      ensures Valid() && fresh(acl) && fresh(epoch) && fresh(epochSet)
      ensures Value() == NO_PLAN
    {
      setRoot, pair, clearRoot, setAcl, invalidateAll := false, NO_PAIR, false, false, false;
      acl := new LiveRow[ACL_SLOTS](_ => NO_ROW);
      epoch := new nat[ACL_SLOTS](_ => 0);
      epochSet := new bool[ACL_SLOTS](_ => false);
      new;
      assert acl[..] == NO_ROWS && epoch[..] == NO_EPOCHS && epochSet[..] == NO_SLOTS;
    }

    /** Wipe every field. */
    method Scrub()
      requires Valid()
      modifies this, acl, epoch, epochSet
      ensures Value() == NO_PLAN
    {
      setRoot, pair, clearRoot, setAcl, invalidateAll := false, NO_PAIR, false, false, false;
      for i := 0 to ACL_SLOTS
        modifies acl, epoch, epochSet
        invariant forall k :: 0 <= k < i ==> acl[k] == NO_ROW && epoch[k] == 0 && !epochSet[k]
      {
        acl[i], epoch[i], epochSet[i] := NO_ROW, 0, false;
      }
      assert acl[..] == NO_ROWS && epoch[..] == NO_EPOCHS && epochSet[..] == NO_SLOTS;
    }
  }

  /** The node's session block, and the entropy its draws will deliver. */
  class RemoteSession {
    var root: Option<KeyPair>
    const acl: array<LiveRow>
    const epoch: array<nat>
    const seen: array<Seen>
    var occupied: nat
    var readiness: Readiness
    var draws: seq<nat>

    ghost predicate Valid() {
      acl.Length == ACL_SLOTS && epoch.Length == ACL_SLOTS && seen.Length == SEEN_SLOTS
    }

    ghost function Value(): Live
      requires Valid()
      reads this, acl, epoch, seen
    {
      Live(root, acl[..], epoch[..], seen[..], occupied, readiness)
    }

    constructor ()
      ensures Valid() && fresh(acl) && fresh(epoch) && fresh(seen)
      ensures Value() == CLEARED && draws == []
    {
      root, occupied, readiness, draws := None, 0, Disabled, [];
      acl := new LiveRow[ACL_SLOTS](_ => NO_ROW);
      epoch := new nat[ACL_SLOTS](_ => 0);
      seen := new Seen[SEEN_SLOTS](_ => Free);
      new;
      assert acl[..] == NO_ROWS && epoch[..] == NO_EPOCHS && seen[..] == NO_SEEN;
    }

    /** One checked draw: no retry, no fallback. */
    method DrawEpoch() returns (ok: bool, e: nat)
      modifies this`draws
      ensures (if ok then Some(e) else None, draws) == Draw(old(draws))
    {
      ok, e := false, 0;
      if draws != [] {
        e := draws[0];
        draws := draws[1..];
        ok := e != 0;
      }
    }

    method InvalidateSlot(slot: nat)
      requires Valid()
      modifies seen
      ensures forall j :: 0 <= j < SEEN_SLOTS ==>
                seen[j] == if old(seen[j]).Held? && old(seen[j]).slot == slot then Free else old(seen[j])
    {
      for j := 0 to SEEN_SLOTS
        invariant forall k :: 0 <= k < j ==>
                    seen[k] == if old(seen[k]).Held? && old(seen[k]).slot == slot then Free else old(seen[k])
        invariant forall k :: j <= k < SEEN_SLOTS ==> seen[k] == old(seen[k])
      {
        if seen[j].Held? && seen[j].slot == slot { seen[j] := Free; }
      }
    }

    method InvalidateEverything()
      requires Valid()
      modifies seen
      ensures forall j :: 0 <= j < SEEN_SLOTS ==> seen[j] == Free
    {
      for j := 0 to SEEN_SLOTS
        invariant forall k :: 0 <= k < j ==> seen[k] == Free
      {
        seen[j] := Free;
      }
    }

    /** Readiness is recomputed from the installed image, never promised. */
    method RecomputeReadiness()
      requires Valid()
      modifies this`occupied, this`readiness
      ensures Value() == Recomputed(old(Value()))
    {
      var n, usable := 0, true;
      for i := 0 to ACL_SLOTS
        invariant n == Count(acl[..i], RowLive)
        invariant usable <==> forall k :: 0 <= k < i && RowLive(acl[k]) ==> epoch[k] != 0
        invariant n > 0 <==> exists k :: 0 <= k < i && RowLive(acl[k])
      {
        assert acl[..i + 1][..i] == acl[..i];
        if RowLive(acl[i]) {
          n := n + 1;
          if epoch[i] == 0 { usable := false; }
        }
      }
      assert acl[..ACL_SLOTS] == acl[..];
      occupied := n;
      readiness := if root.Some? && n > 0 && usable then Ready else Disabled;
    }

    /** Put the prepared epochs in service, ending the work of exactly those slots. */
    method InstallEpochs(plan: InstallPlan)
      requires Valid() && plan.Valid() && plan.epoch != epoch
      modifies epoch, seen
      ensures forall k :: 0 <= k < ACL_SLOTS ==>
                epoch[k] == if plan.epochSet[k] then plan.epoch[k] else old(epoch[k])
      ensures forall j :: 0 <= j < SEEN_SLOTS ==>
                seen[j] == if old(seen[j]).Held? && old(seen[j]).slot < ACL_SLOTS && plan.epochSet[old(seen[j]).slot]
                           then Free else old(seen[j])
    {
      for i := 0 to ACL_SLOTS
        invariant forall k :: 0 <= k < i ==> epoch[k] == if plan.epochSet[k] then plan.epoch[k] else old(epoch[k])
        invariant forall k :: i <= k < ACL_SLOTS ==> epoch[k] == old(epoch[k])
        invariant forall j :: 0 <= j < SEEN_SLOTS ==>
                    seen[j] == if old(seen[j]).Held? && old(seen[j]).slot < i && plan.epochSet[old(seen[j]).slot]
                               then Free else old(seen[j])
      {
        if plan.epochSet[i] {
          epoch[i] := plan.epoch[i];
          InvalidateSlot(i);
        }
      }
    }

    /** Apply one prepared plan. Nothing here can fail. */
    method Install(plan: InstallPlan)
      requires Valid() && plan.Valid() && plan.acl != acl && plan.epoch != epoch
      modifies this`root, this`occupied, this`readiness, acl, epoch, seen
      ensures Value() == AdminLive.Install(old(Value()), old(plan.Value()))
    {
      ghost var was := Value();
      var rootMoved := plan.setRoot || plan.clearRoot;
      if plan.clearRoot {
        root := None;
      } else if plan.setRoot {
        root := Some(plan.pair);
      }
      if plan.setAcl {
        for i := 0 to ACL_SLOTS
          modifies acl
          invariant forall k :: 0 <= k < i ==> acl[k] == plan.acl[k]
        {
          acl[i] := plan.acl[i];
        }
        InstallEpochs(plan);
      } else {
        InstallEpochs(plan);
      }
      if rootMoved || plan.invalidateAll { InvalidateEverything(); }
      ghost var p := plan.Value();
      assert acl[..] == if p.setAcl then p.acl else was.acl;
      assert epoch[..] ==
        seq(ACL_SLOTS, i requires 0 <= i < ACL_SLOTS => if p.epochSet[i] then p.epoch[i] else was.epoch[i]);
      assert seen[..] ==
        seq(SEEN_SLOTS, j requires 0 <= j < SEEN_SLOTS => if EndsWork(p, was.seen[j]) then Free else was.seen[j]);
      RecomputeReadiness();
    }

    /** A refused draw at boot: wipe everything and record why the node stays closed. */
    method MarkEntropyFailed()
      requires Valid()
      modifies this`root, this`occupied, this`readiness, acl, epoch, seen
      ensures Value() == CLEARED.(readiness := EntropyFailed)
    {
      root, occupied, readiness := None, 0, EntropyFailed;
      for i := 0 to ACL_SLOTS
        modifies acl, epoch
        invariant forall k :: 0 <= k < i ==> acl[k] == NO_ROW && epoch[k] == 0
      {
        acl[i], epoch[i] := NO_ROW, 0;
      }
      InvalidateEverything();
      assert acl[..] == NO_ROWS && epoch[..] == NO_EPOCHS && seen[..] == NO_SEEN;
    }

    /** Admit an authenticated execute request, or leave the pool alone. */
    method Receive(slot: nat, id: nat)
      requires Valid()
      modifies seen
      ensures Value() == Admit(old(Value()), slot, id)
    {
      if !readiness.Ready? || slot >= ACL_SLOTS || !RowLive(acl[slot]) || epoch[slot] == 0 || root.None? { return; }
      for j := 0 to SEEN_SLOTS
        invariant forall k :: 0 <= k < j ==> !(seen[k].Held? && seen[k].slot == slot && seen[k].id == id)
      {
        if seen[j].Held? && seen[j].slot == slot && seen[j].id == id { return; }
      }
      var free := 0;
      while free < SEEN_SLOTS && !seen[free].Free?
        invariant 0 <= free <= SEEN_SLOTS
        invariant FreeSeen(seen[..], free) == FreeSeen(seen[..])
      {
        free := free + 1;
      }
      if free == SEEN_SLOTS { return; }
      ghost var was := Value();
      seen[free] := Held(slot, id, epoch[slot], root.value, acl[slot]);
      assert seen[..] == was.seen[free := seen[free]];
    }

    /** A session rollover of one slot, through the same plan and the same applier. */
    method NewSession(slot: nat)
      requires Valid()
      modifies this`draws, this`root, this`occupied, this`readiness, acl, epoch, seen
      ensures Value() == Rollover(old(Value()), slot, old(draws))
    {
      if slot >= ACL_SLOTS || !RowLive(acl[slot]) || epoch[slot] == 0 { return; }
      var drawn, e := DrawEpoch();
      if !drawn || e == epoch[slot] { return; }
      var plan := new InstallPlan();
      plan.epochSet[slot], plan.epoch[slot] := true, e;
      assert plan.epochSet[..] == NO_SLOTS[slot := true] && plan.epoch[..] == NO_EPOCHS[slot := e];
      Install(plan);
    }
  }

  // ---- preparations --------------------------------------------------------------------------------

  /** A mint already carried through some slots, continued by the rest. */
  ghost function Continue(done: seq<nat>, m: Minted): Minted { Minted(m.ok, done + m.epochs, m.rest) }

  /** One slot of a mint: a slot in need takes the next draw or refuses, any other gets 0. */
  lemma MintStep(done: seq<nat>, need: seq<bool>, i: nat, draws: seq<nat>)
    requires i < |need|
    ensures var (e, rest) := Draw(draws);
            var m := Continue(done, Mint(need[i..], draws));
            && (!need[i] ==> m == Continue(done + [0], Mint(need[i + 1..], draws)))
            && (need[i] && e.Some? ==> m == Continue(done + [e.value], Mint(need[i + 1..], rest)))
            && (need[i] && e.None? ==> !m.ok)
  {
    assert need[i..][1..] == need[i + 1..];
    var tail := Mint(need[i + 1..], if need[i] then Draw(draws).1 else draws).epochs;
    assert done + ([0] + tail) == done + [0] + tail;
    var e := Draw(draws).0;
    if e.Some? { assert done + ([e.value] + tail) == done + [e.value] + tail; }
  }

  method PrepareAclPlan(rt: RemoteSession, before: AclRows, after: AclRows, plan: InstallPlan) returns (ok: bool)
    requires rt.Valid() && plan.Valid() && plan.Value() == NO_PLAN
    modifies rt`draws, plan, plan.acl, plan.epoch, plan.epochSet
    ensures PrepareAcl(before, after, old(rt.draws)) == if ok then Some(plan.Value()) else None
  {
    plan.setAcl := true;
    ImageFromBlob(after, plan);
    ok := MintMoved(rt, before, after, plan);
  }

  /** One slot: nothing when it stayed, epoch 0 when it is empty now, a drawn one otherwise. */
  method MintSlot(rt: RemoteSession, plan: InstallPlan, i: nat, moved: bool, live: bool) returns (ok: bool, e: nat)
    requires rt.Valid() && plan.Valid() && i < ACL_SLOTS && plan.epoch[i] == 0
    modifies rt`draws, plan.epoch, plan.epochSet
    ensures if moved && live then (if ok then Some(e) else None, rt.draws) == Draw(old(rt.draws))
            else ok && e == 0 && rt.draws == old(rt.draws)
    ensures forall k :: 0 <= k < ACL_SLOTS && k != i ==>
              plan.epoch[k] == old(plan.epoch[k]) && plan.epochSet[k] == old(plan.epochSet[k])
    ensures plan.epochSet[i] == moved && (ok ==> plan.epoch[i] == e)
  {
    plan.epochSet[i] := moved;
    ok, e := true, 0;
    if moved && live { ok, e := rt.DrawEpoch(); }
    if ok && moved { plan.epoch[i] := e; }
  }

  /** Mark the slots that moved and draw an epoch for each one that is occupied after the move. */
  method MintMoved(rt: RemoteSession, before: AclRows, after: AclRows, plan: InstallPlan) returns (ok: bool)
    requires rt.Valid() && plan.Valid() && plan.epoch[..] == NO_EPOCHS
    modifies rt`draws, plan.epoch, plan.epochSet
    ensures ok == Mint(NeedsEpoch(before, after), old(rt.draws)).ok
    ensures ok ==>
              && plan.epoch[..] == Mint(NeedsEpoch(before, after), old(rt.draws)).epochs
              && plan.epochSet[..] == Moved(before, after)
  {
    ghost var need := NeedsEpoch(before, after);
    ghost var done: seq<nat> := [];
    assert need[0..] == need;
    for i := 0 to ACL_SLOTS
      invariant Mint(need, old(rt.draws)) == Continue(done, Mint(need[i..], rt.draws))
      invariant forall k :: 0 <= k < i ==> plan.epochSet[k] == !RowSame(before[k], after[k])
      invariant |done| == i && forall k :: 0 <= k < i ==> plan.epoch[k] == done[k]
      invariant forall k :: i <= k < ACL_SLOTS ==> plan.epoch[k] == 0
    {
      MintStep(done, need, i, rt.draws);
      var e;
      ok, e := MintSlot(rt, plan, i, !RowSame(before[i], after[i]), LiveRole(after[i]));
      if !ok { return; }
      done := done + [e];
    }
    assert need[ACL_SLOTS..] == [] && done + [] == done;
    assert plan.epoch[..] == done && plan.epochSet[..] == Moved(before, after);
    return true;
  }

  /** The one conversion from the durable rows to the live image. */
  method ImageFromBlob(rec: AclRows, plan: InstallPlan)
    requires plan.Valid()
    modifies plan.acl
    ensures plan.acl[..] == Image(rec)
  {
    for i := 0 to ACL_SLOTS
      invariant forall k :: 0 <= k < i ==> plan.acl[k] == ImageRow(rec[k])
    {
      plan.acl[i] := NO_ROW;
      if LiveRole(rec[i]) { plan.acl[i] := LiveRow(rec[i].key, rec[i].role); }
    }
  }

  method PrepareResetPlan(plan: InstallPlan)
    requires plan.Valid() && plan.Value() == NO_PLAN
    modifies plan, plan.acl, plan.epoch, plan.epochSet
    ensures plan.Value() == RESET_PLAN
  {
    plan.setAcl := true;
    ClearAclHalf(plan);
    plan.invalidateAll := true;
  }

  method ClearAclHalf(plan: InstallPlan)
    requires plan.Valid()
    modifies plan.acl, plan.epoch, plan.epochSet
    ensures plan.acl[..] == NO_ROWS && plan.epoch[..] == NO_EPOCHS && plan.epochSet[..] == ALL_SLOTS
  {
    for i := 0 to ACL_SLOTS
      invariant forall k :: 0 <= k < i ==> plan.acl[k] == NO_ROW && plan.epoch[k] == 0 && plan.epochSet[k]
    {
      plan.acl[i], plan.epoch[i], plan.epochSet[i] := NO_ROW, 0, true;
    }
  }

  method PrepareRootPlan(rt: RemoteSession, derive: Derive, seed: Key, plan: InstallPlan) returns (ok: bool)
    requires rt.Valid() && plan.Valid() && plan.Value().(invalidateAll := false) == NO_PLAN
    modifies rt`draws, plan, plan.epoch, plan.epochSet
    ensures PrepareRoot(derive, seed, old(rt.draws)) == if ok then Some(plan.Value()) else None
  {
    if seed == 0 { return false; }
    plan.pair := derive(seed);
    plan.setRoot := true;
    plan.invalidateAll := true;
    ok := MintEverySlot(rt, plan, ALL_SLOTS);
    if ok {
      assert plan.epochSet[..] == ALL_SLOTS;
      assert plan.Value() == RootPlan(derive(seed), plan.epoch[..]);
    }
  }

  /** The loop of a root change: one fresh epoch per slot, whether the slot holds a row or not. */
  method MintEverySlot(rt: RemoteSession, plan: InstallPlan, ghost need: seq<bool>) returns (ok: bool)
    requires rt.Valid() && plan.Valid() && |need| == ACL_SLOTS && forall i :: 0 <= i < ACL_SLOTS ==> need[i]
    modifies rt`draws, plan.epoch, plan.epochSet
    ensures ok == Mint(need, old(rt.draws)).ok
    ensures ok ==> Mint(need, old(rt.draws)) == Minted(true, plan.epoch[..], rt.draws)
    ensures ok ==> forall k :: 0 <= k < ACL_SLOTS ==> plan.epochSet[k]
  {
    assert need[0..] == need && plan.epoch[..0] == [];
    for i := 0 to ACL_SLOTS
      invariant Mint(need, old(rt.draws)) == Continue(plan.epoch[..i], Mint(need[i..], rt.draws))
      invariant forall k :: 0 <= k < i ==> plan.epochSet[k]
    {
      ghost var done := plan.epoch[..i];
      MintStep(done, need, i, rt.draws);
      var drawn, e := rt.DrawEpoch();
      if !drawn { return false; }
      plan.epoch[i] := e;
      plan.epochSet[i] := true;
      assert plan.epoch[..i + 1] == done + [e];
    }
    assert plan.epoch[..ACL_SLOTS] == plan.epoch[..] && need[ACL_SLOTS..] == [];
    assert plan.epoch[..] + [] == plan.epoch[..];
    return true;
  }

  /** The object that owns the one transient plan: prepare, then commit or discard. */
  class LiveInstall {
    const rt: RemoteSession
    const derive: Derive
    const plan: InstallPlan
    var armed: bool

    /** The plan and the session block are different objects of the right sizes. */
    ghost predicate Shape() {
      rt.Valid() && plan.Valid() && plan.acl != rt.acl && plan.epoch != rt.epoch
    }

    /** Armed or scrubbed: an unarmed object holds nothing that could be installed. */
    ghost predicate Valid()
      reads this, plan, plan.acl, plan.epoch, plan.epochSet
    {
      Shape() && (!armed ==> plan.Value() == NO_PLAN)
    }

    constructor (rt: RemoteSession, derive: Derive)
      requires rt.Valid()
      ensures Valid() && !armed && this.rt == rt && this.derive == derive
      ensures fresh(plan) && fresh(plan.acl) && fresh(plan.epoch) && fresh(plan.epochSet)
    {
      this.rt, this.derive, armed := rt, derive, false;
      plan := new InstallPlan();
    }

    method Discard()
      requires Shape()
      modifies this`armed, plan, plan.acl, plan.epoch, plan.epochSet
      ensures Valid() && !armed
    {
      plan.Scrub();
      armed := false;
    }

    /** Everything that can fail happens here and changes nothing that runs. */
    method PrepareRoot(seed: Key) returns (ok: bool)
      requires Valid()
      modifies this`armed, rt`draws, plan, plan.acl, plan.epoch, plan.epochSet
      ensures Valid() && armed == ok
      ensures AdminLive.PrepareRoot(derive, seed, old(rt.draws)) == if ok then Some(plan.Value()) else None
    {
      Discard();
      ok := PrepareRootPlan(rt, derive, seed, plan);
      if ok { armed := true; } else { Discard(); }
    }

    method PrepareAcl(before: AclRows, after: AclRows) returns (ok: bool)
      requires Valid()
      modifies this`armed, rt`draws, plan, plan.acl, plan.epoch, plan.epochSet
      ensures Valid() && armed == ok
      ensures AdminLive.PrepareAcl(before, after, old(rt.draws)) == if ok then Some(plan.Value()) else None
    {
      Discard();
      ok := PrepareAclPlan(rt, before, after, plan);
      if ok { armed := true; } else { Discard(); }
    }

    method PrepareAclReset()
      requires Valid()
      modifies this`armed, plan, plan.acl, plan.epoch, plan.epochSet
      ensures Valid() && armed && plan.Value() == RESET_PLAN
    {
      Discard();
      PrepareResetPlan(plan);
      armed := true;
    }

    /** Install what is armed; a commit after a refused preparation installs nothing. */
    method Commit()
      requires Valid()
      modifies this`armed, plan, plan.acl, plan.epoch, plan.epochSet
      modifies rt`root, rt`occupied, rt`readiness, rt.acl, rt.epoch, rt.seen
      ensures Valid() && !armed
      ensures rt.Value() == if old(armed) then Install(old(rt.Value()), old(plan.Value())) else old(rt.Value())
    {
      if armed { rt.Install(plan); }
      Discard();
    }
  }
}
