/** What the records of the peer book hold, said of the offers they came from. */
module PeerContents {
  import opened Common
  import opened PeerBook

  /** The first 32 bytes of a name, zeros behind it. */
  predicate HoldsName(r: PeerRec, name: string) {
    && r.nameLen == (if |name| > NAME_BYTES then NAME_BYTES else |name|)
    && r.name[..r.nameLen] == name[..r.nameLen]
    && forall i :: r.nameLen <= i < NAME_BYTES ==> r.name[i] == NUL
  }

  /** A new record is the last one and holds what was offered: hash, key, confidence and name. */
  lemma NewRecordHoldsOffer(b: Book, o: Offer)
    requires Good(b) && (Put(b, o).1 == Inserted || Put(b, o).1 == Evicted)
    ensures var b' := Put(b, o).0;
            && 0 < b'.count <= PEERS
            && (var r := b'.rec[b'.count - 1];
                r.hash == o.hash && r.key == o.key && r.conf == o.conf && HoldsName(r, o.name) && r.pad == 0)
  {
    MergedOntoNothing(o);
  }

  lemma MergedOntoNothing(o: Offer)
    requires Restorable(o.conf)
    ensures var r := Merged(ZERO_REC, o);
            r.hash == o.hash && r.key == o.key && r.conf == o.conf && HoldsName(r, o.name) && r.pad == 0
  {
  }

  /** An update touches the one record of that hash: a carried name replaces the old one, no name keeps it;
      a pin brings its key and marks the record pinned, anything else keeps key and confidence. */
  lemma UpdatedRecordHolds(b: Book, o: Offer) returns (i: nat)
    requires Good(b) && Put(b, o).1 == Updated
    ensures i < b.count && b.rec[i].hash == o.hash
    ensures var b' := Put(b, o).0;
            && b'.count == b.count && (forall k :: 0 <= k < PEERS && k != i ==> b'.rec[k] == b.rec[k])
            && (var was, now := b.rec[i], b'.rec[i];
                && now.hash == o.hash
                && (if o.name != "" then HoldsName(now, o.name)
                    else now.nameLen == (if was.nameLen > NAME_BYTES then NAME_BYTES else was.nameLen)
                         && now.name[..now.nameLen] == was.name[..now.nameLen])
                && (if o.conf == PINNED then now.key == o.key && now.conf == PINNED
                    else now.key == was.key && now.conf == was.conf == AUTHORITATIVE))
  {
    i := Find(b.rec, b.count, o.hash);
    assert Restorable(b.rec[i].conf);
  }

  /** A known hash is answered `unchanged` exactly when the offer would not pin a pinned record, or brings
      nothing the record does not hold already. */
  lemma UnchangedExactly(b: Book, o: Offer, i: nat)
    requires Good(b) && Restorable(o.conf) && i < b.count && b.rec[i].hash == o.hash
    requires HoldsName(b.rec[i], b.rec[i].name[..Min(b.rec[i].nameLen, NAME_BYTES)]) && b.rec[i].pad == 0
    ensures var r := b.rec[i];
            Put(b, o).1 == Unchanged <==>
              || (IsPinned(r) && o.conf != PINNED)
              || ((o.name == "" || HoldsName(r, o.name)) && (o.conf == PINNED ==> r.conf == PINNED && r.key == o.key))
  {
    var r := b.rec[i];
    assert Find(b.rec, b.count, o.hash) == i && Restorable(r.conf);
    SameMerge(r, o);
  }

  function Min(a: nat, b: nat): nat { if a < b then a else b }

  lemma SameMerge(r: PeerRec, o: Offer)
    requires Restorable(r.conf) && Restorable(o.conf) && r.hash == o.hash && r.pad == 0
    requires HoldsName(r, r.name[..Min(r.nameLen, NAME_BYTES)])
    ensures Merged(r, o) == r <==>
              (o.name == "" || HoldsName(r, o.name)) && (o.conf == PINNED ==> r.conf == PINNED && r.key == o.key)
  {
    var m := Merged(r, o);
    assert HoldsName(m, if o.name != "" then o.name else r.name[..r.nameLen]);
    if o.name == "" || HoldsName(r, o.name) { SameName(m, r, if o.name != "" then o.name else r.name[..r.nameLen]); }
  }

  lemma SameName(a: PeerRec, b: PeerRec, name: string)
    requires HoldsName(a, name) && HoldsName(b, name)
    ensures a.name == b.name && a.nameLen == b.nameLen
  {
    forall i | 0 <= i < NAME_BYTES ensures a.name[i] == b.name[i] {
      if i < a.nameLen { assert a.name[..a.nameLen][i] == b.name[..b.nameLen][i]; }
    }
  }

  /** A confidence that may not be stored is refused, and nothing else is. */
  lemma RefusedConfExactly(b: Book, o: Offer)
    ensures Put(b, o).1 == RefusedConf <==> o.conf != AUTHORITATIVE && o.conf != PINNED
    ensures Put(b, o).1 == RefusedConf ==> Put(b, o).0 == b
  {
  }

  // ---- whose key a record holds, over every run ----------------------------------------------------

  /** For each hash the key that brought it in, or its last pin since. */
  function Owed(b: Book, o: Offer, keys: map<nat, Key>): map<nat, Key> {
    var r := Put(b, o).1;
    if r == Inserted || r == Evicted || (o.conf == PINNED && (r == Updated || r == Unchanged))
    then keys[o.hash := o.key]
    else keys
  }
  function OwedAfter(b: Book, os: seq<Offer>, keys: map<nat, Key>): map<nat, Key>
    decreases |os|
  {
    if os == [] then keys else OwedAfter(Put(b, os[0]).0, os[1..], Owed(b, os[0], keys))
  }

  ghost predicate KeysOwed(b: Book, keys: map<nat, Key>) {
    b.count <= PEERS && forall i :: 0 <= i < b.count ==> b.rec[i].hash in keys && b.rec[i].key == keys[b.rec[i].hash]
  }

  lemma PutKeepsOwed(b: Book, o: Offer, keys: map<nat, Key>)
    requires Good(b) && KeysOwed(b, keys)
    ensures KeysOwed(Put(b, o).0, Owed(b, o, keys))
  {
    var (b', r) := Put(b, o);
    if r == Inserted || r == Evicted {
      NewRecordHoldsOffer(b, o);
      if r == Evicted { OthersStay(b, o); }
    } else if r == Updated {
      var i := UpdatedRecordHolds(b, o);
    } else if r == Unchanged && o.conf == PINNED {
      UnchangedPinHolds(b, o);
    }
  }

  /** Every record but the last of an eviction was in the book before. */
  lemma OthersStay(b: Book, o: Offer)
    requires Good(b) && Put(b, o).1 == Evicted
    ensures var b' := Put(b, o).0;
            b'.count == b.count == PEERS &&
            forall k :: 0 <= k < PEERS - 1 ==>
              exists j :: 0 <= j < PEERS && b'.rec[k] == b.rec[j] && b.rec[j].hash != o.hash
  {
    var v := FirstUnpinned(b.rec);
    var t := Put(b, o).0.rec;
    assert t == Shifted(b.rec, v, Merged(ZERO_REC, o));
    forall k | 0 <= k < PEERS - 1 ensures exists j :: 0 <= j < PEERS && t[k] == b.rec[j] && b.rec[j].hash != o.hash {
      assert t[k] == b.rec[if k < v then k else k + 1];
    }
  }

  lemma UnchangedPinHolds(b: Book, o: Offer)
    requires Good(b) && Put(b, o).1 == Unchanged && o.conf == PINNED
    ensures forall i :: 0 <= i < b.count && b.rec[i].hash == o.hash ==> b.rec[i].key == o.key
  {
    var i := Find(b.rec, b.count, o.hash);
    assert Merged(b.rec[i], o).key == o.key;
  }

  /** Over every sequence of offers from the empty book each record's key is that of the offer that brought
      its hash in, or of its last pin since. */
  lemma {:induction false} KeysAreTheOffered(b: Book, os: seq<Offer>, keys: map<nat, Key>)
    requires Good(b) && KeysOwed(b, keys)
    ensures Good(Run(b, os)) && KeysOwed(Run(b, os), OwedAfter(b, os, keys))
    decreases |os|
  {
    if os != [] {
      PutKeepsGood(b, os[0]);
      PutKeepsOwed(b, os[0], keys);
      KeysAreTheOffered(Put(b, os[0]).0, os[1..], Owed(b, os[0], keys));
    }
  }

  lemma FromEmptyBook(os: seq<Offer>)
    ensures Good(Run(EMPTY_BOOK, os)) && KeysOwed(Run(EMPTY_BOOK, os), OwedAfter(EMPTY_BOOK, os, map[]))
  {
    KeysAreTheOffered(EMPTY_BOOK, os, map[]);
  }
}
