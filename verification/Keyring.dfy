/** The controller's management keyring: ten master seeds, addressed by slot. A seed is admitted only
    if the identity derived from it is new, which keeps principals distinct over every run. */
module Keyring {
  import opened Common

  const KEYS: nat := 10
  datatype KeyRow = KeyRow(seed: Key, reserved: nat)
  const NO_KEY: KeyRow := KeyRow(0, 0)
  type KeyRows = s: seq<KeyRow> | |s| == KEYS witness Fill(KEYS, NO_KEY)
  datatype KeyBlob = KeyBlob(count: nat, rec: KeyRows)
  const NO_KEYS: KeyRows := Fill(KEYS, NO_KEY)
  const EMPTY_RING: KeyBlob := KeyBlob(0, NO_KEYS)

  /** The public identity derived from a seed; the derivation stays a parameter. */
  type PubOf = Key -> Key

  predicate Occupied(r: KeyRow) { r.seed != 0 }

  ghost predicate ContentValid(b: KeyBlob) {
    && (forall i :: 0 <= i < KEYS ==> b.rec[i].reserved == 0)
    && (forall i, j :: 0 <= i < j < KEYS && Occupied(b.rec[i]) && Occupied(b.rec[j]) ==> b.rec[i].seed != b.rec[j].seed)
    && b.count == Count(b.rec, Occupied)
  }

  ghost function StateOf(answers: bool, slot: Slot<KeyBlob>): RecordState {
    if !answers then RecordIoFailed
    else match slot
      case Absent => RecordAbsent
      case Corrupt => RecordInvalid
      case Stored(b) => if ContentValid(b) then RecordOk else RecordInvalid
  }
  function Loaded(slot: Slot<KeyBlob>): KeyBlob {
    match slot case Stored(b) => b case _ => EMPTY_RING
  }

  datatype KeyErr =
    | NoErr | BadArgs | StoreInvalid | StoreIoFailed | NotInvalid | NotFound | AlreadyOccupied | Duplicate
    | BadMaterial | EntropyFailed | InUse | NvSaveFailed
  datatype KeyResult = KeyResult(ok: bool, err: KeyErr, slot: nat, pub: Key)
  function Refused(e: KeyErr): KeyResult { KeyResult(false, e, 0, 0) }

  /** What the environment answers during one call. `drawn` is what the seed source delivers. */
  datatype Env = Env(answers: bool, accepts: bool, busy: set<nat>, drawn: Option<Key>)

  datatype Op = Generate(slot: nat) | Import(slot: nat, seed: Key) | Remove(slot: nat) | Reset

  /** The seed an operation brings, or why it has none. */
  function Material(op: Op, env: Env): (Key, KeyErr) {
    match op
    case Generate(_) => if env.drawn.None? || env.drawn.value == 0 then (0, EntropyFailed) else (env.drawn.value, NoErr)
    case Import(_, seed) => if seed == 0 then (0, BadMaterial) else (seed, NoErr)
    case _ => (0, BadArgs)
  }

  ghost predicate Known(pubOf: PubOf, self: Key, b: KeyBlob, slot: nat, seed: Key) {
    || pubOf(seed) == self
    || exists i :: 0 <= i < KEYS && i != slot && Occupied(b.rec[i]) && pubOf(b.rec[i].seed) == pubOf(seed)
  }

  ghost function Mint(pubOf: PubOf, self: Key, record: Slot<KeyBlob>, env: Env, op: Op): (Slot<KeyBlob>, KeyResult)
    requires op.Generate? || op.Import?
  {
    var st := StateOf(env.answers, record);
    var b := Loaded(record);
    if op.slot >= KEYS then (record, Refused(BadArgs))
    else if st == RecordIoFailed then (record, Refused(StoreIoFailed))
    else if st == RecordInvalid then (record, Refused(StoreInvalid))
    else if Occupied(b.rec[op.slot]) then (record, Refused(AlreadyOccupied))
    else
      var (seed, err) := Material(op, env);
      if err != NoErr then (record, Refused(err))
      else if Known(pubOf, self, b, op.slot, seed) then (record, Refused(Duplicate))
      else
        var cand := KeyBlob(Count(b.rec, Occupied) + 1, b.rec[op.slot := KeyRow(seed, 0)]);
        if !ContentValid(cand) then (record, Refused(StoreInvalid))
        else if !env.accepts then (record, Refused(NvSaveFailed))
        else (Stored(cand), KeyResult(true, NoErr, op.slot, pubOf(seed)))
  }

  ghost function Next(pubOf: PubOf, self: Key, record: Slot<KeyBlob>, env: Env, op: Op): (Slot<KeyBlob>, KeyResult) {
    var st := StateOf(env.answers, record);
    match op
    case Remove(slot) =>
      var b := Loaded(record);
      if slot >= KEYS then (record, Refused(BadArgs))
      else if slot in env.busy then (record, Refused(InUse))
      else if st == RecordIoFailed then (record, Refused(StoreIoFailed))
      else if st == RecordInvalid then (record, Refused(StoreInvalid))
      else if st == RecordAbsent || !Occupied(b.rec[slot]) then (record, Refused(NotFound))
      else
        var cand := KeyBlob(Pred(Count(b.rec, Occupied)), b.rec[slot := NO_KEY]);
        if !ContentValid(cand) then (record, Refused(StoreInvalid))
        else if !env.accepts then (record, Refused(NvSaveFailed))
        else (Stored(cand), KeyResult(true, NoErr, slot, 0))
    case Reset =>
      if env.busy != {} then (record, Refused(InUse))
      else if st == RecordIoFailed then (record, Refused(StoreIoFailed))
      else if st != RecordInvalid then (record, Refused(NotInvalid))
      else if !env.accepts then (record, Refused(NvSaveFailed))
      else (Stored(EMPTY_RING), KeyResult(true, NoErr, 0, 0))
    case _ => Mint(pubOf, self, record, env, op)
  }

  datatype Call = Call(op: Op, env: Env)
  ghost function Run(pubOf: PubOf, self: Key, record: Slot<KeyBlob>, calls: seq<Call>): Slot<KeyBlob>
    decreases |calls|
  {
    if calls == [] then record
    else Run(pubOf, self, Next(pubOf, self, record, calls[0].env, calls[0].op).0, calls[1..])
  }

  // ---- theorems ------------------------------------------------------------------------------------

  lemma EmptyRingValid()
    ensures ContentValid(EMPTY_RING)
  {
    CountWitness(EMPTY_RING.rec, Occupied);
  }

  /** Different derived identities come from different seeds, so a seed whose identity is new keeps a
      valid ring valid; and emptying a slot always does. */
  lemma CandidateValid(pubOf: PubOf, self: Key, b: KeyBlob, slot: nat, seed: Key)
    requires ContentValid(b) && slot < KEYS
    ensures !Occupied(b.rec[slot]) && seed != 0 && !Known(pubOf, self, b, slot, seed) ==>
              ContentValid(KeyBlob(Count(b.rec, Occupied) + 1, b.rec[slot := KeyRow(seed, 0)]))
    ensures Occupied(b.rec[slot]) ==>
              b.count > 0 && ContentValid(KeyBlob(Pred(Count(b.rec, Occupied)), b.rec[slot := NO_KEY]))
  {
    CountUpdate(b.rec, slot, KeyRow(seed, 0), Occupied);
    CountUpdate(b.rec, slot, NO_KEY, Occupied);
    if Occupied(b.rec[slot]) { CountHas(b.rec, slot, Occupied); }
  }

  /** The check on the composed record never fails: `store_invalid` is answered only for a record that
      was invalid when it was loaded. */
  lemma FinalCheckNeverFails(pubOf: PubOf, self: Key, record: Slot<KeyBlob>, env: Env, op: Op)
    ensures Next(pubOf, self, record, env, op).1.err == StoreInvalid <==>
              && !op.Reset? && op.slot < KEYS && !(op.Remove? && op.slot in env.busy)
              && StateOf(env.answers, record) == RecordInvalid
  {
    EmptyRingValid();
    if StateOf(env.answers, record) in {RecordOk, RecordAbsent} && !op.Reset? && op.slot < KEYS {
      CandidateValid(pubOf, self, Loaded(record), op.slot, Material(op, env).0);
    }
  }

  /** The ring holds distinct principals, none of them this node itself, and `count` counts them. */
  ghost predicate Distinct(pubOf: PubOf, self: Key, record: Slot<KeyBlob>) {
    !record.Corrupt? &&
    var b := Loaded(record);
    && ContentValid(b)
    && (forall i :: 0 <= i < KEYS && Occupied(b.rec[i]) ==> pubOf(b.rec[i].seed) != self)
    && (forall i, j :: 0 <= i < j < KEYS && Occupied(b.rec[i]) && Occupied(b.rec[j]) ==>
          pubOf(b.rec[i].seed) != pubOf(b.rec[j].seed))
  }

  lemma NextKeepsDistinct(pubOf: PubOf, self: Key, record: Slot<KeyBlob>, env: Env, op: Op)
    requires Distinct(pubOf, self, record)
    ensures var (t, r) := Next(pubOf, self, record, env, op);
            && Distinct(pubOf, self, t)
            && (!r.ok ==> t == record)
            && (r.ok ==> r.slot < KEYS && forall i :: 0 <= i < KEYS && i != r.slot ==>
                  Loaded(t).rec[i] == Loaded(record).rec[i])
            && (r.ok && !op.Remove? ==> pubOf(Loaded(t).rec[r.slot].seed) == r.pub)
  {
    EmptyRingValid();
    if op.Generate? || op.Import? { MintKeepsDistinct(pubOf, self, record, env, op); }
  }

  lemma MintKeepsDistinct(pubOf: PubOf, self: Key, record: Slot<KeyBlob>, env: Env, op: Op)
    requires (op.Generate? || op.Import?) && Distinct(pubOf, self, record)
    ensures var (t, r) := Mint(pubOf, self, record, env, op);
            && Distinct(pubOf, self, t)
            && (!r.ok ==> t == record)
            && (r.ok ==>
                  && r.slot == op.slot < KEYS && pubOf(Loaded(t).rec[r.slot].seed) == r.pub
                  && Loaded(t).rec == Loaded(record).rec[r.slot := Loaded(t).rec[r.slot]])
  {
    var (t, r) := Mint(pubOf, self, record, env, op);
    if r.ok {
      NewKeyStaysDistinct(pubOf, self, Loaded(record), op.slot, Material(op, env).0);
    }
  }

  /** A material no other slot and not the node itself uses can be put into any slot. */
  lemma NewKeyStaysDistinct(pubOf: PubOf, self: Key, b: KeyBlob, slot: nat, seed: Key)
    requires slot < KEYS && !Known(pubOf, self, b, slot, seed)
    requires forall i, j :: 0 <= i < j < KEYS && Occupied(b.rec[i]) && Occupied(b.rec[j]) ==>
               pubOf(b.rec[i].seed) != pubOf(b.rec[j].seed)
    ensures var rec := b.rec[slot := KeyRow(seed, 0)];
            forall i, j :: 0 <= i < j < KEYS && Occupied(rec[i]) && Occupied(rec[j]) ==>
              pubOf(rec[i].seed) != pubOf(rec[j].seed)
  {
    forall i | 0 <= i < KEYS && i != slot && Occupied(b.rec[i]) ensures pubOf(b.rec[i].seed) != pubOf(seed) {}
  }

  /** Over every run from a node without a record, with any draws, imports, removals and failures: the
      stored identities are pairwise distinct and differ from the node's own. */
  lemma {:induction false} RunKeepsDistinct(pubOf: PubOf, self: Key, record: Slot<KeyBlob>, calls: seq<Call>)
    requires Distinct(pubOf, self, record)
    ensures Distinct(pubOf, self, Run(pubOf, self, record, calls))
    decreases |calls|
  {
    if calls != [] {
      NextKeepsDistinct(pubOf, self, record, calls[0].env, calls[0].op);
      RunKeepsDistinct(pubOf, self, Next(pubOf, self, record, calls[0].env, calls[0].op).0, calls[1..]);
    }
  }

  lemma FromNoRecord(pubOf: PubOf, self: Key, calls: seq<Call>)
    ensures Distinct(pubOf, self, Run(pubOf, self, Absent, calls))
  {
    EmptyRingValid();
    RunKeepsDistinct(pubOf, self, Absent, calls);
  }

  /** A key keeps its slot: over every run that does not remove `slot`, its seed stays where it is. */
  lemma {:induction false} SlotsNeverShift(pubOf: PubOf, self: Key, record: Slot<KeyBlob>, calls: seq<Call>, slot: nat)
    requires Distinct(pubOf, self, record) && slot < KEYS && Occupied(Loaded(record).rec[slot])
    requires forall i :: 0 <= i < |calls| ==> calls[i].op != Remove(slot)
    ensures Loaded(Run(pubOf, self, record, calls)).rec[slot] == Loaded(record).rec[slot]
    decreases |calls|
  {
    if calls != [] {
      NextKeepsDistinct(pubOf, self, record, calls[0].env, calls[0].op);
      var (t, r) := Next(pubOf, self, record, calls[0].env, calls[0].op);
      assert r.ok ==> r.slot != slot;
      SlotsNeverShift(pubOf, self, t, calls[1..], slot);
    }
  }

  // ---- what each call answers --------------------------------------------------------------------------

  /** A ring that may be changed: none yet, or a valid one. */
  ghost predicate Editable(record: Slot<KeyBlob>) { record.Absent? || (record.Stored? && ContentValid(record.blob)) }

  /** The seed a call brings: the imported one, or what the source delivers. */
  function Brought(op: Op, env: Env): Option<Key>
    requires op.Generate? || op.Import?
  {
    if op.Import? then Some(op.seed) else env.drawn
  }

  /** Generate and import succeed exactly when the slot is free, the seed live, its identity neither the
      node's own nor another slot's, and store and save go through; then that seed is in that slot. */
  lemma MintSucceedsExactly(pubOf: PubOf, self: Key, record: Slot<KeyBlob>, env: Env, op: Op)
    requires op.Generate? || op.Import?
    ensures var (t, r) := Next(pubOf, self, record, env, op);
            var rec, seed := Loaded(record).rec, Brought(op, env);
            && (r.ok <==>
                  && op.slot < KEYS && env.answers && Editable(record) && rec[op.slot].seed == 0
                  && seed.Some? && seed.value != 0 && pubOf(seed.value) != self
                  && (forall i :: 0 <= i < KEYS && rec[i].seed != 0 ==> pubOf(rec[i].seed) != pubOf(seed.value))
                  && env.accepts)
            && (if r.ok then
                  && t.Stored? && t.blob.rec == rec[op.slot := KeyRow(seed.value, 0)]
                  && r.slot == op.slot && r.pub == pubOf(seed.value)
                else t == record)
  {
    EmptyRingValid();
    if op.slot < KEYS && Editable(record) {
      CandidateValid(pubOf, self, Loaded(record), op.slot, Material(op, env).0);
    }
  }

  /** A removal succeeds exactly on an occupied slot nothing is bound to, and empties it. */
  lemma RemoveSucceedsExactly(pubOf: PubOf, self: Key, record: Slot<KeyBlob>, env: Env, slot: nat)
    ensures var (t, r) := Next(pubOf, self, record, env, Remove(slot));
            && (r.ok <==>
                  && slot < KEYS && slot !in env.busy && env.answers && record.Stored? && ContentValid(record.blob)
                  && record.blob.rec[slot].seed != 0 && env.accepts)
            && (if r.ok then t.Stored? && t.blob.rec == record.blob.rec[slot := KeyRow(0, 0)] else t == record)
  {
    if slot < KEYS && record.Stored? && ContentValid(record.blob) {
      CandidateValid(pubOf, self, record.blob, slot, 0);
    }
  }

  /** A reset succeeds exactly on a ring that is there and cannot be used, and empties it. */
  lemma ResetSucceedsExactly(pubOf: PubOf, self: Key, record: Slot<KeyBlob>, env: Env)
    ensures var (t, r) := Next(pubOf, self, record, env, Reset);
            && (r.ok <==> env.busy == {} && env.answers && !record.Absent? && !Editable(record) && env.accepts)
            && (if r.ok then t == Stored(KeyBlob(0, Fill(KEYS, KeyRow(0, 0)))) else t == record)
  {
  }

  // ---- the service -----------------------------------------------------------------------------------

  class KeyStore {
    var record: Slot<KeyBlob>
    var answers: bool
    var accepts: bool

    constructor (record: Slot<KeyBlob>)
      ensures this.record == record && answers && accepts
    {
      this.record, answers, accepts := record, true, true;
    }
    method Save(b: KeyBlob) returns (ok: bool)
      modifies this`record
      ensures ok == accepts && record == if ok then Stored(b) else old(record)
    {
      if accepts { record := Stored(b); }
      return accepts;
    }
  }

  method ContentCheck(b: KeyBlob) returns (ok: bool)
    ensures ok <==> ContentValid(b)
  {
    CountWitness(b.rec, Occupied);
    if b.count > KEYS { return false; }
    var occupied := 0;
    for i := 0 to KEYS
      invariant occupied == Count(b.rec[..i], Occupied)
      invariant forall k :: 0 <= k < i ==> b.rec[k].reserved == 0
      invariant forall j, k :: 0 <= j < k < i && Occupied(b.rec[j]) && Occupied(b.rec[k]) ==>
                  b.rec[j].seed != b.rec[k].seed
    {
      assert b.rec[..i + 1][..i] == b.rec[..i];
      if b.rec[i].reserved != 0 { return false; }
      if !Occupied(b.rec[i]) { continue; }
      occupied := occupied + 1;
      for j := 0 to i
        invariant forall k :: 0 <= k < j && Occupied(b.rec[k]) ==> b.rec[k].seed != b.rec[i].seed
      {
        if Occupied(b.rec[j]) && b.rec[j].seed == b.rec[i].seed { return false; }
      }
    }
    assert b.rec[..KEYS] == b.rec;
    return b.count == occupied;
  }

  method Population(b: KeyBlob) returns (n: nat)
    ensures n == Count(b.rec, Occupied)
  {
    n := 0;
    for i := 0 to KEYS
      invariant n == Count(b.rec[..i], Occupied)
    {
      assert b.rec[..i + 1][..i] == b.rec[..i];
      if Occupied(b.rec[i]) { n := n + 1; }
    }
    assert b.rec[..KEYS] == b.rec;
  }

  class KeyService {
    const store: KeyStore
    const pubOf: PubOf
    const self: Key
    const busy: set<nat>

    constructor (store: KeyStore, pubOf: PubOf, self: Key, busy: set<nat>)
      ensures this.store == store && this.pubOf == pubOf && this.self == self && this.busy == busy
    {
      this.store, this.pubOf, this.self, this.busy := store, pubOf, self, busy;
    }

    ghost function TheEnv(drawn: Option<Key>): Env
      reads store
    {
      Env(store.answers, store.accepts, busy, drawn)
    }

    method Classify() returns (s: RecordState, b: KeyBlob)
      ensures s == StateOf(store.answers, store.record)
      ensures s in {RecordOk, RecordAbsent} ==> b == Loaded(store.record)
    {
      b := EMPTY_RING;
      if !store.answers { return RecordIoFailed, b; }
      match store.record
      case Absent => s := RecordAbsent;
      case Corrupt => s := RecordInvalid;
      case Stored(blob) =>
        b := blob;
        var ok := ContentCheck(b);
        s := if ok then RecordOk else RecordInvalid;
    }

    /** Whether the identity of `seed` is this node's own or another slot's. */
    method IsKnown(b: KeyBlob, slot: nat, seed: Key) returns (known: bool)
      ensures known == Known(pubOf, self, b, slot, seed)
    {
      var candidate := pubOf(seed);
      if candidate == self { return true; }
      for i := 0 to KEYS
        invariant forall k :: 0 <= k < i && k != slot && Occupied(b.rec[k]) ==> pubOf(b.rec[k].seed) != candidate
      {
        if i == slot || !Occupied(b.rec[i]) { continue; }
        if pubOf(b.rec[i].seed) == candidate { return true; }
      }
      return false;
    }

    /** `generate` and `import` share this one path. `op` names the slot and, for an import, the seed. */
    method MintKey(op: Op, drawn: Option<Key>) returns (r: KeyResult)
      requires op.Generate? || op.Import?
      modifies store`record
      ensures (store.record, r) == Mint(pubOf, self, old(store.record), TheEnv(drawn), op)
    {
      if op.slot >= KEYS { return Refused(BadArgs); }
      var s, b := Classify();
      if s == RecordIoFailed { return Refused(StoreIoFailed); }
      if s == RecordInvalid { return Refused(StoreInvalid); }
      if Occupied(b.rec[op.slot]) { return Refused(AlreadyOccupied); }
      var seed: Key;
      if op.Import? {
        if op.seed == 0 { return Refused(BadMaterial); }
        seed := op.seed;
      } else {
        if drawn.None? || drawn.value == 0 { return Refused(EntropyFailed); }
        seed := drawn.value;
      }
      var known := IsKnown(b, op.slot, seed);
      if known { return Refused(Duplicate); }
      var n := Population(b);
      var cand := KeyBlob(n + 1, b.rec[op.slot := KeyRow(seed, 0)]);
      var valid := ContentCheck(cand);
      if !valid { return Refused(StoreInvalid); }
      var saved := store.Save(cand);
      if !saved { return Refused(NvSaveFailed); }
      return KeyResult(true, NoErr, op.slot, pubOf(seed));
    }

    method RemoveKey(slot: nat, ghost drawn: Option<Key>) returns (r: KeyResult)
      modifies store`record
      ensures (store.record, r) == Next(pubOf, self, old(store.record), TheEnv(drawn), Remove(slot))
    {
      if slot >= KEYS { return Refused(BadArgs); }
      if slot in busy { return Refused(InUse); }
      var s, b := Classify();
      if s == RecordIoFailed { return Refused(StoreIoFailed); }
      if s == RecordInvalid { return Refused(StoreInvalid); }
      if s == RecordAbsent || !Occupied(b.rec[slot]) { return Refused(NotFound); }
      var n := Population(b);
      var cand := KeyBlob(Pred(n), b.rec[slot := NO_KEY]);
      var valid := ContentCheck(cand);
      if !valid { return Refused(StoreInvalid); }
      var saved := store.Save(cand);
      if !saved { return Refused(NvSaveFailed); }
      return KeyResult(true, NoErr, slot, 0);
    }

    method RecoverRing(ghost drawn: Option<Key>) returns (r: KeyResult)
      modifies store`record
      ensures (store.record, r) == Next(pubOf, self, old(store.record), TheEnv(drawn), Reset)
    {
      if busy != {} { return Refused(InUse); }
      var s, b := Classify();
      if s == RecordIoFailed { return Refused(StoreIoFailed); }
      if s != RecordInvalid { return Refused(NotInvalid); }
      var saved := store.Save(EMPTY_RING);
      if !saved { return Refused(NvSaveFailed); }
      return KeyResult(true, NoErr, 0, 0);
    }

    /** The public identities of the occupied slots, and how many there are. */
    method ListKeys() returns (ok: bool, pubs: seq<Option<Key>>, count: nat)
      ensures ok == (StateOf(store.answers, store.record) == RecordOk)
      ensures ok ==> |pubs| == KEYS && count == store.record.blob.count
      ensures ok ==> forall i :: 0 <= i < KEYS ==>
                var row := store.record.blob.rec[i];
                pubs[i] == if Occupied(row) then Some(pubOf(row.seed)) else None
    {
      pubs, count := [], 0;
      var s, b := Classify();
      if s != RecordOk { return false, pubs, count; }
      for i := 0 to KEYS
        invariant |pubs| == i && count == Count(b.rec[..i], Occupied)
        invariant forall k :: 0 <= k < i ==>
                    pubs[k] == if Occupied(b.rec[k]) then Some(pubOf(b.rec[k].seed)) else None
      {
        assert b.rec[..i + 1][..i] == b.rec[..i];
        if Occupied(b.rec[i]) {
          pubs, count := pubs + [Some(pubOf(b.rec[i].seed))], count + 1;
        } else {
          pubs := pubs + [None];
        }
      }
      assert b.rec[..KEYS] == b.rec;
      return true, pubs, count;
    }
  }
}
