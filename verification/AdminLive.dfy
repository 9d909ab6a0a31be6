/** The running administration state of a target, the install plan that is the only way to
    change it, and the epoch draws a plan is prepared from — as values. */
module AdminLive {
  import opened Common
  import opened AdminRecords

  /** The pair derived from an administration seed; the derivation itself stays a parameter. */
  datatype KeyPair = KeyPair(xSecret: Key, edPub: Key)
  type Derive = Key -> KeyPair
  const NO_PAIR: KeyPair := KeyPair(0, 0)

  datatype LiveRow = LiveRow(key: Key, role: nat)
  const NO_ROW: LiveRow := LiveRow(0, ROLE_EMPTY)
  type LiveRows = s: seq<LiveRow> | |s| == ACL_SLOTS witness Fill(ACL_SLOTS, NO_ROW)
  type Epochs = s: seq<nat> | |s| == ACL_SLOTS witness Fill(ACL_SLOTS, 0)
  type Flags = s: seq<bool> | |s| == ACL_SLOTS witness Fill(ACL_SLOTS, false)

  const NO_ROWS: LiveRows := Fill(ACL_SLOTS, NO_ROW)
  const NO_EPOCHS: Epochs := Fill(ACL_SLOTS, 0)
  const ALL_SLOTS: Flags := Fill(ACL_SLOTS, true)
  const NO_SLOTS: Flags := Fill(ACL_SLOTS, false)

  /** A row of the pool of requests already admitted. The code records the slot, the request id
      and the epoch; the pair and the ACL row whose session key the request was authenticated
      with are remembered here as well, so that "no old session survives" can be stated. */
  datatype Seen = Free | Held(slot: nat, id: nat, epoch: nat, pair: KeyPair, row: LiveRow)
  const SEEN_SLOTS: nat := 16
  type SeenPool = s: seq<Seen> | |s| == SEEN_SLOTS witness Fill(SEEN_SLOTS, Free)
  const NO_SEEN: SeenPool := Fill(SEEN_SLOTS, Free)

  datatype Readiness = Disabled | Ready | EntropyFailed

  datatype Live = Live(root: Option<KeyPair>, acl: LiveRows, epoch: Epochs, seen: SeenPool,
                       occupied: nat, readiness: Readiness)

  const CLEARED: Live := Live(None, NO_ROWS, NO_EPOCHS, NO_SEEN, 0, Disabled)

  datatype Plan = Plan(setRoot: bool, pair: KeyPair, clearRoot: bool, setAcl: bool, acl: LiveRows,
                       epoch: Epochs, epochSet: Flags, invalidateAll: bool)

  const NO_PLAN: Plan := Plan(false, NO_PAIR, false, false, NO_ROWS, NO_EPOCHS, NO_SLOTS, false)

  predicate IsSet(b: bool) { b }
  /** How many slots of `need` are set: how many draws a mint takes. */
  ghost function Needs(need: seq<bool>): nat { Count(need, IsSet) }

  predicate RowLive(r: LiveRow) { r.role == ROLE_OPERATOR || r.role == ROLE_OWNER }

  // ---- the applier ---------------------------------------------------------------------------

  /** What it takes to answer: a pair to derive session keys from, somebody to answer, and no controller
      whose epoch is out of service. */
  ghost predicate Accepts(root: Option<KeyPair>, acl: LiveRows, epoch: Epochs) {
    && root.Some?
    && (exists i :: 0 <= i < ACL_SLOTS && RowLive(acl[i]))
    && EpochsUsable(acl, epoch)
  }
  ghost predicate EpochsUsable(acl: LiveRows, epoch: Epochs) {
    forall i :: 0 <= i < ACL_SLOTS && RowLive(acl[i]) ==> epoch[i] != 0
  }

  ghost function Recomputed(s: Live): Live {
    s.(occupied := Count(s.acl, RowLive),
       readiness := if Accepts(s.root, s.acl, s.epoch) then Ready else Disabled)
  }

  /** Whether installing `p` ends the admitted request `e`: a moved root or a whole
      invalidation ends all of them, a replaced epoch those of its slot. */
  predicate EndsWork(p: Plan, e: Seen) {
    p.setRoot || p.clearRoot || p.invalidateAll || (e.Held? && e.slot < ACL_SLOTS && p.epochSet[e.slot])
  }

  ghost function Install(s: Live, p: Plan): Live {
    Recomputed(Live(
      if p.clearRoot then None else if p.setRoot then Some(p.pair) else s.root,
      if p.setAcl then p.acl else s.acl,
      seq(ACL_SLOTS, i requires 0 <= i < ACL_SLOTS => if p.epochSet[i] then p.epoch[i] else s.epoch[i]),
      seq(SEEN_SLOTS, j requires 0 <= j < SEEN_SLOTS => if EndsWork(p, s.seen[j]) then Free else s.seen[j]),
      s.occupied, s.readiness))
  }

  // ---- epoch draws ---------------------------------------------------------------------------

  /** The outcome of minting epochs from what the entropy source will deliver: one value per
      slot (0 where none was needed), and the draws left over. */
  datatype Minted = Minted(ok: bool, epochs: seq<nat>, rest: seq<nat>)

  /** One checked draw: a missing or all-zero draw refuses, and is not retried. */
  function Draw(draws: seq<nat>): (Option<nat>, seq<nat>) {
    if draws == [] then (None, [])
    else if draws[0] == 0 then (None, draws[1..])
    else (Some(draws[0]), draws[1..])
  }

  /** Draw one epoch for each slot that needs one, in slot order, and stop at the first refusal. */
  ghost function Mint(need: seq<bool>, draws: seq<nat>): (m: Minted)
    ensures m.ok ==> |m.epochs| == |need|
  {
    if need == [] then Minted(true, [], draws)
    else if !need[0] then
      var m := Mint(need[1..], draws);
      m.(epochs := [0] + m.epochs)
    else
      var (e, rest) := Draw(draws);
      if e.None? then Minted(false, [], rest)
      else
        var m := Mint(need[1..], rest);
        m.(epochs := [e.value] + m.epochs)
  }

  /** A successful mint has a non-zero epoch for exactly the slots that needed one, and that
      epoch is the next unused draw: the i-th slot gets the draw counted by the needs before it. */
  lemma {:induction false} MintedEpochs(need: seq<bool>, draws: seq<nat>)
    requires Mint(need, draws).ok
    ensures |Mint(need, draws).epochs| == |need|
    ensures forall i :: 0 <= i < |need| ==> (Mint(need, draws).epochs[i] != 0 <==> need[i])
    ensures forall i :: 0 <= i < |need| && need[i] ==>
              Needs(need[..i]) < |draws| && Mint(need, draws).epochs[i] == draws[Needs(need[..i])]
  {
    if need != [] {
      MintedEpochs(need[1..], if need[0] then draws[1..] else draws);
      forall i | 0 <= i < |need|
        ensures Mint(need, draws).epochs[i] != 0 <==> need[i]
        ensures need[i] ==> Needs(need[..i]) < |draws| && Mint(need, draws).epochs[i] == draws[Needs(need[..i])]
      {
        MintedAt(need, draws, i);
      }
    }
  }

  /** The epoch of one slot, from the mint of the slots behind the first. */
  lemma MintedAt(need: seq<bool>, draws: seq<nat>, i: nat)
    requires i < |need| && Mint(need, draws).ok
    requires i > 0 ==>
               var rest := if need[0] then draws[1..] else draws;
               var m := Mint(need[1..], rest);
               && (m.epochs[i - 1] != 0 <==> need[i])
               && (need[i] ==> Needs(need[1..][..i - 1]) < |rest| && m.epochs[i - 1] == rest[Needs(need[1..][..i - 1])])
    ensures Mint(need, draws).epochs[i] != 0 <==> need[i]
    ensures need[i] ==> Needs(need[..i]) < |draws| && Mint(need, draws).epochs[i] == draws[Needs(need[..i])]
  {
    if i > 0 {
      NeedsFront(need[..i]);
      assert need[..i][1..] == need[1..][..i - 1];
    }
  }

  lemma {:induction false} NeedsFront(s: seq<bool>)
    requires s != []
    ensures Needs(s) == Needs(s[1..]) + if s[0] then 1 else 0
  {
    if |s| > 1 {
      NeedsFront(s[..|s| - 1]);
      assert s[..|s| - 1][1..] == s[1..][..|s[1..]| - 1];
    } else {
      assert s[..0] == [] && s[1..] == [];
    }
  }

  /** A mint succeeds exactly when the source delivers one non-zero draw per need. */
  lemma {:induction false} MintSucceeds(need: seq<bool>, draws: seq<nat>)
    ensures Mint(need, draws).ok <==>
              Needs(need) <= |draws| && forall k :: 0 <= k < Needs(need) ==> draws[k] != 0
  {
    if need != [] {
      var n := Needs(need);
      NeedsFront(need);
      if need[0] && draws != [] && draws[0] != 0 {
        MintSucceeds(need[1..], draws[1..]);
        if n <= |draws| {
          assert forall k :: 1 <= k < n ==> draws[k] == draws[1..][k - 1];
          assert forall k :: 0 <= k < n - 1 ==> draws[1..][k] == draws[k + 1];
        }
      } else if !need[0] {
        MintSucceeds(need[1..], draws);
      }
    }
  }

  // ---- plans -----------------------------------------------------------------------------------

  /** The live image of a durable row: an unrecognised role never becomes a live row. */
  function ImageRow(r: AclRow): LiveRow {
    if LiveRole(r) then LiveRow(r.key, r.role) else NO_ROW
  }
  function Image(rec: AclRows): LiveRows {
    seq(ACL_SLOTS, i requires 0 <= i < ACL_SLOTS => ImageRow(rec[i]))
  }

  predicate RowSame(a: AclRow, b: AclRow) { a.role == b.role && a.key == b.key }

  function Moved(before: AclRows, after: AclRows): Flags {
    seq(ACL_SLOTS, i requires 0 <= i < ACL_SLOTS => !RowSame(before[i], after[i]))
  }
  function NeedsEpoch(before: AclRows, after: AclRows): Flags {
    seq(ACL_SLOTS, i requires 0 <= i < ACL_SLOTS => !RowSame(before[i], after[i]) && LiveRole(after[i]))
  }

  /** The plan of an ACL change: the whole new image, and a replaced epoch for exactly the slots
      that moved. */
  function AclPlan(after: AclRows, epochs: Epochs, moved: Flags): Plan {
    Plan(false, NO_PAIR, false, true, Image(after), epochs, moved, false)
  }
  ghost function PrepareAcl(before: AclRows, after: AclRows, draws: seq<nat>): Option<Plan> {
    var m := Mint(NeedsEpoch(before, after), draws);
    if m.ok then Some(AclPlan(after, m.epochs, Moved(before, after))) else None
  }

  const RESET_PLAN: Plan := Plan(false, NO_PAIR, false, true, NO_ROWS, NO_EPOCHS, ALL_SLOTS, true)

  /** The plan of a root change: the derived pair and ten fresh epochs. */
  function RootPlan(pair: KeyPair, epochs: Epochs): Plan {
    Plan(true, pair, false, false, NO_ROWS, epochs, ALL_SLOTS, true)
  }
  ghost function PrepareRoot(derive: Derive, seed: Key, draws: seq<nat>): Option<Plan> {
    var m := Mint(ALL_SLOTS, draws);
    if seed != 0 && m.ok then Some(RootPlan(derive(seed), m.epochs)) else None
  }

  function LiveNeeds(rec: AclRows): Flags {
    seq(ACL_SLOTS, i requires 0 <= i < ACL_SLOTS => LiveRole(rec[i]))
  }

  /** The plan of a boot installs both halves. A usable root brings ten fresh epochs; without one
      every occupied row still gets its own. A half that is not usable installs its own cleared
      half. */
  function BootPlan(root: Option<KeyPair>, acl: LiveRows, epochs: Epochs): Plan {
    Plan(root.Some?, if root.Some? then root.value else NO_PAIR, root.None?, true, acl, epochs, ALL_SLOTS, true)
  }
  ghost function PrepareBoot(derive: Derive, rootOk: bool, seed: Key, aclOk: bool, acl: AclRows,
                             draws: seq<nat>): Option<Plan>
  {
    var need := if rootOk then ALL_SLOTS else if aclOk then LiveNeeds(acl) else NO_SLOTS;
    var m := Mint(need, draws);
    if (rootOk && seed == 0) || !m.ok then None
    else Some(BootPlan(if rootOk then Some(derive(seed)) else None,
                       if aclOk then Image(acl) else NO_ROWS,
                       if aclOk then m.epochs else NO_EPOCHS))
  }
}
