/** The persisted address book: sixteen records in insertion order, a merge that only upgrades, and
    an eviction that never takes a pinned record. */
module PeerBook {
  import opened Common

  const PEERS: nat := 16
  const NAME_BYTES: nat := 32
  const AUTHORITATIVE: nat := 1
  const PINNED: nat := 2

  type Name = s: string | |s| == NAME_BYTES witness Fill(NAME_BYTES, NUL)
  datatype PeerRec = PeerRec(hash: nat, key: Key, conf: nat, nameLen: nat, name: Name, pad: nat)
  const ZERO_REC: PeerRec := PeerRec(0, 0, 0, 0, Fill(NAME_BYTES, NUL), 0)

  type Recs = s: seq<PeerRec> | |s| == PEERS witness Fill(PEERS, ZERO_REC)
  datatype Book = Book(count: nat, rec: Recs)
  const EMPTY_BOOK: Book := Book(0, Fill(PEERS, ZERO_REC))

  /** One record offered to the book; an empty name carries no name. */
  datatype Offer = Offer(hash: nat, key: Key, conf: nat, name: string)

  datatype PeerPut = Unchanged | Updated | Inserted | Evicted | RefusedFull | RefusedConf

  predicate Restorable(conf: nat) { conf == AUTHORITATIVE || conf == PINNED }
  predicate IsPinned(r: PeerRec) { r.conf == PINNED }

  function Padded(s: string, n: nat): Name
    requires n <= NAME_BYTES && n <= |s|
  {
    s[..n] + Fill(NAME_BYTES - n, NUL)
  }

  /** The one conversion onto a record: the name is refreshed when one is carried, key and confidence
      move only upwards or on a pin, and every unused byte is zero. */
  function Merged(prev: PeerRec, o: Offer): PeerRec {
    var source := if o.name != "" then o.name else prev.name;
    var wanted := if o.name != "" then |o.name| else prev.nameLen;
    var n := if wanted > NAME_BYTES then NAME_BYTES else wanted;
    var upgrade := o.conf == PINNED || o.conf > prev.conf;
    PeerRec(o.hash, if upgrade then o.key else prev.key, if upgrade then o.conf else prev.conf, n, Padded(source, n), 0)
  }

  /** The first of the `count` records with this hash, or `count`. */
  function Find(rec: Recs, count: nat, hash: nat, i: nat := 0): (k: nat)
    requires i <= count <= PEERS
    ensures i <= k <= count && (k < count ==> rec[k].hash == hash)
    ensures forall j :: i <= j < k ==> rec[j].hash != hash
    decreases count - i
  {
    if i == count || rec[i].hash == hash then i else Find(rec, count, hash, i + 1)
  }

  /** The first record that is not pinned, or the book size. */
  function FirstUnpinned(rec: Recs, i: nat := 0): (k: nat)
    requires i <= PEERS
    ensures i <= k <= PEERS && (k < PEERS ==> !IsPinned(rec[k]))
    ensures forall j :: i <= j < k ==> IsPinned(rec[j])
    decreases PEERS - i
  {
    if i == PEERS || !IsPinned(rec[i]) then i else FirstUnpinned(rec, i + 1)
  }

  /** Element `v` taken out, the gap closed, and `x` appended. */
  function Shifted<T>(s: seq<T>, v: nat, x: T): (r: seq<T>)
    requires v < |s|
    ensures |r| == |s| && r[|s| - 1] == x
    ensures forall i :: 0 <= i < |s| - 1 ==> r[i] == s[if i < v then i else i + 1]
  {
    s[..v] + s[v + 1..] + [x]
  }

  function Put(b: Book, o: Offer): (Book, PeerPut) {
    if !Restorable(o.conf) then (b, RefusedConf)
    else
      var count := if b.count > PEERS then PEERS else b.count;
      var i := Find(b.rec, count, o.hash);
      if i < count then
        if IsPinned(b.rec[i]) && o.conf != PINNED then (Book(count, b.rec), Unchanged)
        else if Merged(b.rec[i], o) == b.rec[i] then (Book(count, b.rec), Unchanged)
        else (Book(count, b.rec[i := Merged(b.rec[i], o)]), Updated)
      else if count < PEERS then (Book(count + 1, b.rec[count := Merged(ZERO_REC, o)]), Inserted)
      else
        var v := FirstUnpinned(b.rec);
        if v == PEERS then (Book(count, b.rec), RefusedFull)
        else (Book(count, Shifted(b.rec, v, Merged(ZERO_REC, o))), Evicted)
  }

  function Run(b: Book, os: seq<Offer>): Book
    decreases |os|
  {
    if os == [] then b else Run(Put(b, os[0]).0, os[1..])
  }

  // ---- what every sequence of puts keeps ------------------------------------------------------------

  /** No hash twice, and only confidences that may be stored. */
  ghost predicate Good(b: Book) {
    && b.count <= PEERS
    && (forall i, j :: 0 <= i < j < b.count ==> b.rec[i].hash != b.rec[j].hash)
    && (forall i :: 0 <= i < b.count ==> Restorable(b.rec[i].conf))
  }

  lemma MergedKeepsHash(prev: PeerRec, o: Offer)
    requires Restorable(o.conf)
    ensures Merged(prev, o).hash == o.hash
    ensures prev == ZERO_REC || Restorable(prev.conf) ==> Restorable(Merged(prev, o).conf)
  {
  }

  lemma ShiftedRecords(b: Book, v: nat, r: PeerRec)
    requires Good(b) && b.count == PEERS && v < PEERS && Restorable(r.conf)
    requires forall i :: 0 <= i < PEERS ==> b.rec[i].hash != r.hash
    ensures Good(Book(PEERS, Shifted(b.rec, v, r)))
  {
    var rec := Shifted(b.rec, v, r);
    forall i | 0 <= i < PEERS - 1 ensures rec[i] == b.rec[if i < v then i else i + 1] {}
  }

  lemma PutKeepsGood(b: Book, o: Offer)
    requires Good(b)
    ensures Good(Put(b, o).0)
  {
    if Restorable(o.conf) {
      var i := Find(b.rec, b.count, o.hash);
      MergedKeepsHash(ZERO_REC, o);
      if i < b.count {
        MergedKeepsHash(b.rec[i], o);
      } else if b.count == PEERS && FirstUnpinned(b.rec) < PEERS {
        ShiftedRecords(b, FirstUnpinned(b.rec), Merged(ZERO_REC, o));
      }
    }
  }

  /** The book has a pinned record for `hash` under `key`. */
  ghost predicate Pins(b: Book, hash: nat, key: Key) {
    exists i :: 0 <= i < b.count <= PEERS && b.rec[i].hash == hash && IsPinned(b.rec[i]) && b.rec[i].key == key
  }

  /** A run in which nobody pins `hash` again. */
  predicate NoRepin(os: seq<Offer>, hash: nat) {
    forall i :: 0 <= i < |os| ==> os[i].hash != hash || os[i].conf != PINNED
  }

  /** An eviction leaves every pinned record in the book, at most one place further to the front. */
  lemma EvictionSpares(b: Book, o: Offer, i: nat) returns (k: nat)
    requires b.count == PEERS && Put(b, o).1 == Evicted && i < PEERS && IsPinned(b.rec[i])
    ensures k < PEERS && Put(b, o).0.count == PEERS && Put(b, o).0.rec[k] == b.rec[i]
  {
    var v := FirstUnpinned(b.rec);
    k := if i < v then i else i - 1;
    assert Put(b, o).0.rec == Shifted(b.rec, v, Merged(ZERO_REC, o));
  }

  lemma PutKeepsPin(b: Book, o: Offer, hash: nat, key: Key)
    requires Good(b) && Pins(b, hash, key)
    ensures Pins(Put(b, o).0, hash, if o.hash == hash && o.conf == PINNED then o.key else key)
  {
    var b' := Put(b, o).0;
    var i :| 0 <= i < b.count && b.rec[i].hash == hash && IsPinned(b.rec[i]) && b.rec[i].key == key;
    if Put(b, o).1 == Evicted {
      assert o.hash != hash;
      var k := EvictionSpares(b, o, i);
    } else if o.hash == hash && Restorable(o.conf) {
      assert Find(b.rec, b.count, hash) == i;
      assert b'.rec[i] == if o.conf == PINNED then Merged(b.rec[i], o) else b.rec[i];
    } else {
      assert b'.rec[i] == b.rec[i];
    }
  }

  /** The key of the last offer that pins `hash`; `key` when none does. */
  function LastPin(os: seq<Offer>, hash: nat, key: Key): Key
    decreases |os|
  {
    if os == [] then key
    else LastPin(os[1..], hash, if os[0].hash == hash && os[0].conf == PINNED then os[0].key else key)
  }

  /** A record once pinned stays in the book, pinned, through every sequence of offers, and its key is
      always the one it was last pinned with. */
  lemma {:induction false} PinnedIsForever(b: Book, os: seq<Offer>, hash: nat, key: Key)
    requires Good(b) && Pins(b, hash, key)
    ensures Good(Run(b, os)) && Pins(Run(b, os), hash, LastPin(os, hash, key))
    decreases |os|
  {
    if os != [] {
      PutKeepsGood(b, os[0]);
      PutKeepsPin(b, os[0], hash, key);
      var next := if os[0].hash == hash && os[0].conf == PINNED then os[0].key else key;
      PinnedIsForever(Put(b, os[0]).0, os[1..], hash, next);
    }
  }

  /** So without a new pin of that hash the key stays. */
  lemma PinnedKeyStays(b: Book, os: seq<Offer>, hash: nat, key: Key)
    requires Good(b) && Pins(b, hash, key) && NoRepin(os, hash)
    ensures Good(Run(b, os)) && Pins(Run(b, os), hash, key)
  {
    PinnedIsForever(b, os, hash, key);
    NoPinKeeps(os, hash, key);
  }

  lemma {:induction false} NoPinKeeps(os: seq<Offer>, hash: nat, key: Key)
    requires NoRepin(os, hash)
    ensures LastPin(os, hash, key) == key
    decreases |os|
  {
    if os != [] { NoPinKeeps(os[1..], hash, key); }
  }

  /** What one offer does to a record that survives it: its key changes only when the offer pins that
      hash, its confidence never goes down, and it moves at most one place towards the front. */
  lemma SurvivorsOnlyUpgrade(b: Book, o: Offer, i: nat, k: nat)
    requires Good(b) && i < b.count
    requires var b' := Put(b, o).0; k < b'.count && b'.rec[k].hash == b.rec[i].hash
    requires Put(b, o).1 == Evicted ==> b.rec[i].hash != o.hash
    ensures var r' := Put(b, o).0.rec[k];
            && (r'.key != b.rec[i].key ==> o.hash == b.rec[i].hash && o.conf == PINNED)
            && r'.conf >= b.rec[i].conf
            && (k == i || (k + 1 == i && Put(b, o).1 == Evicted))
  {
    var (b', r) := Put(b, o);
    PutKeepsGood(b, o);
    if r == Evicted {
      var v := FirstUnpinned(b.rec);
      var was := if k < v then k else k + 1;
      assert k < PEERS - 1 && b'.rec[k] == b.rec[was];
      assert was == i;
    } else {
      assert b'.rec[i].hash == b.rec[i].hash;
      assert k == i;
    }
  }

  /** The verdict says exactly what happened. A full refusal is a new hash in a book of sixteen pinned
      records; an eviction takes the first unpinned record of a full book and appends the new one;
      everything but a change leaves the records byte for byte as they were. */
  lemma VerdictExactly(b: Book, o: Offer)
    requires Good(b) && Restorable(o.conf)
    ensures var (b', r) := Put(b, o);
            && (r == RefusedFull <==>
                  IsNew(b, o.hash) && b.count == PEERS && forall i :: 0 <= i < PEERS ==> IsPinned(b.rec[i]))
            && (r == Inserted <==> IsNew(b, o.hash) && b.count < PEERS)
            && (r == Unchanged || r == Updated <==> !IsNew(b, o.hash))
            && (r == Unchanged || r == RefusedFull <==> b' == b)
            && (r == Evicted ==>
                  var v := FirstUnpinned(b.rec);
                  v < PEERS && b'.rec == b.rec[..v] + b.rec[v + 1..] + [Merged(ZERO_REC, o)])
  {
    var (b', r) := Put(b, o);
    var i := Find(b.rec, b.count, o.hash);
    assert IsNew(b, o.hash) <==> i == b.count;
    if i < b.count {
      assert b'.rec == b.rec <==> b'.rec[i] == b.rec[i];
    } else if b.count == PEERS && FirstUnpinned(b.rec) < PEERS {
      assert b'.rec[PEERS - 1].hash == o.hash;
    }
  }

  ghost predicate IsNew(b: Book, hash: nat)
    requires b.count <= PEERS
  {
    forall i :: 0 <= i < b.count ==> b.rec[i].hash != hash
  }

  /** Offering the same record twice writes at most once: the second offer is answered `unchanged`
      unless the first was refused. */
  lemma RepeatedOfferIsUnchanged(b: Book, o: Offer)
    requires Good(b) && Put(b, o).1 !in {RefusedConf, RefusedFull}
    ensures Put(Put(b, o).0, o) == (Put(b, o).0, Unchanged)
  {
    var (b', r) := Put(b, o);
    PutKeepsGood(b, o);
    var i := Find(b.rec, b.count, o.hash);
    var k := if i < b.count then i else if r == Inserted then b.count else PEERS - 1;
    assert b'.rec[k].hash == o.hash;
    assert Find(b'.rec, b'.count, o.hash) == k;
    MergeSettles(if i < b.count then b.rec[i] else ZERO_REC, o);
  }

  lemma MergeSettles(prev: PeerRec, o: Offer)
    requires Restorable(o.conf)
    ensures Merged(Merged(prev, o), o) == Merged(prev, o)
  {
    var r := Merged(prev, o);
    assert Padded(r.name, r.nameLen) == r.name;
  }

  /** Without the well-formedness of `count` the flash-wear promise fails, and exactly then: a put that
      answers `unchanged` leaves the bytes alone if and only if the count was not rotted past the book. */
  lemma UnchangedIsIdenticalExactly(b: Book, o: Offer)
    requires Put(b, o).1 == Unchanged
    ensures Put(b, o).0 == b <==> b.count <= PEERS
  {
  }

  /** A book as a rotted record can hold it: the count points one past the array. The offer is answered
      `unchanged`, and the book is no longer the one that was loaded. */
  lemma RottedCountIsClamped(key: Key)
    ensures var pinned := PeerRec(7, key, PINNED, 0, Fill(NAME_BYTES, NUL), 0);
            var b := Book(PEERS + 1, EMPTY_BOOK.rec[0 := pinned]);
            Put(b, Offer(7, key, AUTHORITATIVE, "")) == (Book(PEERS, b.rec), Unchanged) && Book(PEERS, b.rec) != b
  {
    var rec := EMPTY_BOOK.rec[0 := PeerRec(7, key, PINNED, 0, Fill(NAME_BYTES, NUL), 0)];
    assert Find(rec, PEERS, 7) == 0;
  }

  // ---- array order is insertion order ------------------------------------------------------------------

  /** The book, and for each hash the number of the put that last brought it in: as a new record, or in
      the place an eviction made. A put that finds the hash does not touch it. */
  datatype Dated = Dated(book: Book, at: map<nat, nat>, clock: nat)

  function PutDated(s: Dated, o: Offer): Dated {
    var (b, r) := Put(s.book, o);
    Dated(b, if r == Inserted || r == Evicted then s.at[o.hash := s.clock] else s.at, s.clock + 1)
  }

  function RunDated(s: Dated, os: seq<Offer>): Dated
    decreases |os|
  {
    if os == [] then s else RunDated(PutDated(s, os[0]), os[1..])
  }

  /** Every record has come in before now, and records further back have come in later. */
  ghost predicate Ordered(rec: seq<PeerRec>, count: nat, at: map<nat, nat>, clock: nat)
    requires count <= |rec|
  {
    && (forall i :: 0 <= i < count ==> rec[i].hash in at && at[rec[i].hash] < clock)
    && (forall i, j :: 0 <= i < j < count ==> at[rec[i].hash] < at[rec[j].hash])
  }
  ghost predicate InOrder(s: Dated) { Good(s.book) && Ordered(s.book.rec, s.book.count, s.at, s.clock) }

  /** The record in slot `i` is unpinned, and no unpinned record came in before it. */
  ghost predicate OldestUnpinned(s: Dated, i: nat)
    requires InOrder(s)
  {
    && i < s.book.count && !IsPinned(s.book.rec[i])
    && forall j :: 0 <= j < s.book.count && !IsPinned(s.book.rec[j]) ==>
         s.at[s.book.rec[i].hash] <= s.at[s.book.rec[j].hash]
  }

  lemma EvictionKeepsOrder(rec: Recs, v: nat, x: PeerRec, at: map<nat, nat>, clock: nat)
    requires v < PEERS && Ordered(rec, PEERS, at, clock)
    requires forall i :: 0 <= i < PEERS ==> rec[i].hash != x.hash
    ensures Ordered(Shifted(rec, v, x), PEERS, at[x.hash := clock], clock + 1)
  {
    var t := Shifted(rec, v, x);
    forall i | 0 <= i < PEERS - 1 ensures t[i] == rec[if i < v then i else i + 1] {}
  }

  lemma PutDatedKeepsOrder(s: Dated, o: Offer)
    requires InOrder(s)
    ensures InOrder(PutDated(s, o))
  {
    PutKeepsGood(s.book, o);
    if Put(s.book, o).1 == Evicted { EvictedInOrder(s, o); } else { KeptInOrder(s, o); }
  }

  lemma EvictedInOrder(s: Dated, o: Offer)
    requires InOrder(s) && Put(s.book, o).1 == Evicted
    ensures Put(s.book, o).0.count == PEERS
    ensures Ordered(Put(s.book, o).0.rec, PEERS, s.at[o.hash := s.clock], s.clock + 1)
  {
    MergedKeepsHash(ZERO_REC, o);
    EvictionKeepsOrder(s.book.rec, FirstUnpinned(s.book.rec), Merged(ZERO_REC, o), s.at, s.clock);
  }

  lemma KeptInOrder(s: Dated, o: Offer)
    requires InOrder(s) && Put(s.book, o).1 != Evicted
    ensures var (b, r) := Put(s.book, o);
            && b.count <= PEERS
            && Ordered(b.rec, b.count, if r == Inserted then s.at[o.hash := s.clock] else s.at, s.clock + 1)
  {
    SamePlaces(s.book, o);
    var (b, r) := Put(s.book, o);
    OrderStays(s.book, b, s.at, s.clock, if r == Inserted then Some(o.hash) else None);
  }

  lemma OrderStays(b: Book, b': Book, at: map<nat, nat>, clock: nat, last: Option<nat>)
    requires b.count <= b'.count <= PEERS && Ordered(b.rec, b.count, at, clock)
    requires forall i :: 0 <= i < b.count ==> b'.rec[i].hash == b.rec[i].hash
    requires if last.None? then b'.count == b.count
             else b'.count == b.count + 1 && b'.rec[b.count].hash == last.value &&
                  forall i :: 0 <= i < b.count ==> b.rec[i].hash != last.value
    ensures Ordered(b'.rec, b'.count, if last.None? then at else at[last.value := clock], clock + 1)
  {
  }

  /** A put that does not evict leaves every record the hash it had, and a new one goes last. */
  lemma SamePlaces(b: Book, o: Offer)
    requires Good(b) && Put(b, o).1 != Evicted
    ensures var (b', r) := Put(b, o);
            && (forall i :: 0 <= i < b.count ==> b'.rec[i].hash == b.rec[i].hash)
            && (if r == Inserted then
                  && b'.count == b.count + 1 && b'.rec[b.count].hash == o.hash
                  && forall i :: 0 <= i < b.count ==> b.rec[i].hash != o.hash
                else b'.count == b.count)
  {
  }

  /** Over every sequence of offers the array holds the records in the order their hashes came in. */
  lemma {:induction false} ArrayOrderIsInsertionOrder(s: Dated, os: seq<Offer>)
    requires InOrder(s)
    ensures InOrder(RunDated(s, os)) && RunDated(s, os).book == Run(s.book, os)
    decreases |os|
  {
    if os != [] {
      PutDatedKeepsOrder(s, os[0]);
      ArrayOrderIsInsertionOrder(PutDated(s, os[0]), os[1..]);
    }
  }

  /** So an eviction takes the oldest record that is not pinned, and that one alone. */
  lemma EvictsTheOldest(s: Dated, o: Offer) returns (v: nat)
    requires InOrder(s) && Put(s.book, o).1 == Evicted
    ensures OldestUnpinned(s, v)
    ensures Put(s.book, o).0.count == PEERS && OnlyLoses(s.book.rec, v, Put(s.book, o).0.rec)
  {
    v := FirstUnpinned(s.book.rec);
    MergedKeepsHash(ZERO_REC, o);
    assert Put(s.book, o).0.rec == Shifted(s.book.rec, v, Merged(ZERO_REC, o));
    ShiftedLoses(s.book.rec, v, Merged(ZERO_REC, o));
  }

  /** No record of `t` has the hash of `rec[v]`; every other record of `rec` is still there. */
  ghost predicate OnlyLoses(rec: Recs, v: nat, t: Recs)
    requires v < PEERS
  {
    && (forall k :: 0 <= k < PEERS ==> t[k].hash != rec[v].hash)
    && (forall i :: 0 <= i < PEERS && i != v ==> rec[i] in t)
  }

  lemma ShiftedLoses(rec: Recs, v: nat, x: PeerRec)
    requires v < PEERS && x.hash != rec[v].hash
    requires forall i, j :: 0 <= i < j < PEERS ==> rec[i].hash != rec[j].hash
    ensures OnlyLoses(rec, v, Shifted(rec, v, x))
  {
    var t := Shifted(rec, v, x);
    forall k | 0 <= k < PEERS - 1 ensures t[k].hash != rec[v].hash {
      assert t[k] == rec[if k < v then k else k + 1];
    }
    forall i | 0 <= i < PEERS && i != v ensures rec[i] in t {
      assert t[if i < v then i else i - 1] == rec[i];
    }
  }

  // ---- the book in place ---------------------------------------------------------------------------------

  class PeerBlob {
    var count: nat
    const rec: array<PeerRec>

    ghost predicate Valid() { rec.Length == PEERS }
    ghost function Value(): Book
      requires Valid()
      reads this, rec
    {
      Book(count, rec[..])
    }

    constructor ()
      ensures Valid() && fresh(rec) && Value() == EMPTY_BOOK && Good(Value())
    {
      count := 0;
      rec := new PeerRec[PEERS](_ => ZERO_REC);
      new;
      assert rec[..] == EMPTY_BOOK.rec;
    }

    /** Select, merge, insert or evict, in place. */
    method PutRecord(o: Offer) returns (r: PeerPut)
      requires Valid()
      modifies this`count, rec
      ensures (Value(), r) == Put(old(Value()), o)
    {
      if !Restorable(o.conf) { return RefusedConf; }
      if count > PEERS { count := PEERS; }
      var i := 0;
      while i < count && rec[i].hash != o.hash
        invariant i <= count && Find(rec[..], count, o.hash, i) == Find(rec[..], count, o.hash)
      {
        i := i + 1;
      }
      if i < count {
        if IsPinned(rec[i]) && o.conf != PINNED { return Unchanged; }
        var want := Merged(rec[i], o);
        if want == rec[i] { return Unchanged; }
        rec[i] := want;
        return Updated;
      }
      var newest := Merged(ZERO_REC, o);
      if count < PEERS {
        rec[count] := newest;
        count := count + 1;
        return Inserted;
      }
      r := Evict(newest);
    }

    /** Drop the oldest record that is not pinned, close the gap, and append. */
    method Evict(newest: PeerRec) returns (r: PeerPut)
      requires Valid()
      modifies rec
      ensures var v := FirstUnpinned(old(rec[..]));
              if v == PEERS then r == RefusedFull && rec[..] == old(rec[..])
              else r == Evicted && rec[..] == Shifted(old(rec[..]), v, newest)
    {
      var v := Victim();
      if v == PEERS { return RefusedFull; }
      Shift(v, newest);
      return Evicted;
    }

    method Victim() returns (v: nat)
      requires Valid()
      ensures v == FirstUnpinned(rec[..])
    {
      v := 0;
      while v < PEERS && IsPinned(rec[v])
        invariant v <= PEERS && FirstUnpinned(rec[..], v) == FirstUnpinned(rec[..])
      {
        v := v + 1;
      }
    }

    /** Close the gap at `v`, so that array order stays insertion order, and append. */
    method Shift(v: nat, newest: PeerRec)
      requires Valid() && v < PEERS
      modifies rec
      ensures rec[..] == Shifted(old(rec[..]), v, newest)
    {
      var i := v;
      while i + 1 < PEERS
        invariant v <= i < PEERS
        invariant forall k :: 0 <= k < v ==> rec[k] == old(rec[k])
        invariant forall k :: v <= k < i ==> rec[k] == old(rec[k + 1])
        invariant forall k :: i <= k < PEERS ==> rec[k] == old(rec[k])
      {
        rec[i] := rec[i + 1];
        i := i + 1;
      }
      rec[PEERS - 1] := newest;
    }
  }
}
