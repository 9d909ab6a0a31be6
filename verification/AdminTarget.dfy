/** One target node: its two stores, its session block, and the dispatch that runs each verb through
    the services. Every step of the code is the step `AdminRuns` reasons about. */
module AdminTarget {
  import opened AdminLive
  import opened AdminVerbs
  import opened AdminRuntime
  import opened AdminServices
  import opened AdminRuns

  class Target {
    const idStore: AdminIdStore
    const aclStore: AclStore
    const rt: RemoteSession
    const derive: Derive

    constructor (idStore: AdminIdStore, aclStore: AclStore, derive: Derive)
      ensures this.idStore == idStore && this.aclStore == aclStore && this.derive == derive
      ensures rt.Valid() && fresh(rt) && rt.Value() == CLEARED
    {
      this.idStore, this.aclStore, this.derive := idStore, aclStore, derive;
      rt := new RemoteSession();
    }

    ghost function World(): AdminVerbs.World
      requires rt.Valid()
      reads idStore, aclStore, rt, rt.acl, rt.epoch, rt.seen
    {
      AdminVerbs.World(idStore.record, aclStore.record, rt.Value())
    }
    ghost function Env(step: Step): AdminVerbs.Env
      reads idStore, aclStore, rt
    {
      AdminVerbs.Env(idStore.answers, aclStore.answers,
                     if step.Identity? then idStore.accepts else aclStore.accepts, rt.draws)
    }

    /** Run one step. The install object lives for exactly this call. */
    method Perform(step: Step)
      requires rt.Valid()
      modifies idStore`record, idStore`saves, aclStore`record, aclStore`saves
      modifies rt`draws, rt`root, rt`occupied, rt`readiness, rt.acl, rt.epoch, rt.seen
      ensures World() == Next(derive, old(World()), Event(step, old(Env(step))))
    {
      match step
      case PowerOn =>
        var report := BootInstall(idStore, aclStore, rt, derive);
      case Identity(verb, seed) =>
        var live := new LiveInstall(rt, derive);
        var identity := new AdminIdService(idStore, live);
        var r := identity.Perform(verb, seed, aclStore.record, aclStore.answers);
      case Add(_, _) => PerformAcl(step);
      case SetRole(_, _, _) => PerformAcl(step);
      case Remove(_, _) => PerformAcl(step);
      case ResetAcl => PerformAcl(step);
      case Request(slot, id) =>
        rt.Receive(slot, id);
      case NewSession(slot) =>
        rt.NewSession(slot);
    }

    /** An ACL verb; only `add` reads the identity record. */
    method PerformAcl(step: Step)
      requires rt.Valid() && (step.Add? || step.SetRole? || step.Remove? || step.ResetAcl?)
      modifies aclStore`record, aclStore`saves
      modifies rt`draws, rt`root, rt`occupied, rt`readiness, rt.acl, rt.epoch, rt.seen
      ensures World() == Next(derive, old(World()), Event(step, old(Env(step))))
    {
      var live := new LiveInstall(rt, derive);
      var acl := new AclService(aclStore, live);
      match step
      case Add(role, key) =>
        var identity := new AdminIdService(idStore, live);
        var idState := identity.State();
        var r := acl.Add(idState, role, key, idStore.record, idStore.answers);
      case SetRole(slot, role, actor) =>
        var r := acl.Set(slot, role, actor, idStore.record, idStore.answers);
      case Remove(slot, actor) =>
        var r := acl.Remove(slot, actor, idStore.record, idStore.answers);
      case ResetAcl =>
        var r := acl.Recover(idStore.record, idStore.answers);
    }
  }
}
