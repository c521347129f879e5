/** Serialize, Unserialize and Clear (src/addrman.h) on the manager's tables. */
module AddrManDisk {
  import opened AddrManState
  import opened AddrManOps
  import opened AddrManTimes
  import opened AddrManCheck
  import opened AddrManLoaded
  import opened AddrManFile
  import opened AddrManRoundTrip
  import opened AddrMan

  // ---------- Saving ----------

  lemma {:induction false} IdsGrow(s: State, n: nat, m: nat, tried: bool)
    requires n <= m
    ensures |IdsBelow(s, n, tried)| <= |IdsBelow(s, m, tried)|
  {
    if n < m { IdsGrow(s, n, m - 1, tried); }
  }

  // The count has not been reached while there is still an entry to write.
  lemma RoomToWrite(s: State, id: nat, tried: bool)
    requires Inv(s, {}) && id < s.idCount && id in s.info && Written(s.info[id], tried)
    ensures |IdsBelow(s, id, tried)| < if tried then s.nTried else s.nNew
    ensures IdsBelow(s, id + 1, tried) == IdsBelow(s, id, tried) + [id]
  {
    hide Inv;
    IdsGrow(s, id + 1, s.idCount, tried);
    IdsCounted(s);
  }

  lemma RecordsSnoc(s: State, ids: seq<int>, id: int)
    requires (forall i :: 0 <= i < |ids| ==> ids[i] in s.info) && id in s.info
    ensures RecordsOf(s, ids + [id]) == RecordsOf(s, ids) + [RecordOf(s.info[id])]
  {
  }

  lemma SkipId(s: State, id: nat, tried: bool)
    requires !(id in s.info && Written(s.info[id], tried))
    ensures IdsBelow(s, id + 1, tried) == IdsBelow(s, id, tried)
  {
  }

  /** The written new entries, in the order of their ids, and mapUnkIds. */
  method WriteNew(m: AddressManager) returns (records: seq<Record>, unkIds: map<int, int>)
    requires Inv(m.S(), {})
    ensures records == RecordsOf(m.S(), WrittenIds(m.S(), false))
    ensures forall n :: n in m.mapInfo ==> n in unkIds && unkIds[n] == Rank(m.S(), n)
  {
    hide Inv, IdsBelow, Written;
    ghost var s := m.S();
    IdRange(s);
    records, unkIds := [], map[];
    var nIds := 0;
    IdsKnown(s, 0, false);
    NoIds(s, false);
    for id := 0 to m.nIdCount
      invariant AscendingIds(s, IdsBelow(s, id, false), id, false)
      invariant nIds == |records| && records == RecordsOf(s, IdsBelow(s, id, false))
      invariant forall n :: n in s.info && n < id ==> n in unkIds && unkIds[n] == Rank(s, n)
    {
      IdsKnown(s, id + 1, false);
      if id in m.mapInfo {
        unkIds := unkIds[id := nIds];
        if Written(m.mapInfo[id], false) {
          RoomToWrite(s, id, false);
          assert nIds != m.nNew;
          RecordsSnoc(s, IdsBelow(s, id, false), id);
          records := records + [RecordOf(m.mapInfo[id])];
          nIds := nIds + 1;
        } else {
          SkipId(s, id, false);
        }
      } else {
        SkipId(s, id, false);
      }
    }
  }

  lemma IdRange(s: State)
    requires Inv(s, {})
    ensures s.idCount >= 0 && forall n :: n in s.info ==> 0 <= n < s.idCount
  {
    forall n | n in s.info ensures 0 <= n < s.idCount {
      assert EntryIndexed(s, n);
    }
  }

  lemma NoIds(s: State, tried: bool)
    ensures IdsBelow(s, 0, tried) == []
  {
  }

  method WriteTried(m: AddressManager) returns (records: seq<Record>)
    requires Inv(m.S(), {})
    ensures records == RecordsOf(m.S(), WrittenIds(m.S(), true))
  {
    hide Inv, IdsBelow, Written;
    ghost var s := m.S();
    IdRange(s);
    records := [];
    var nIds := 0;
    IdsKnown(s, 0, true);
    NoIds(s, true);
    for id := 0 to m.nIdCount
      invariant AscendingIds(s, IdsBelow(s, id, true), id, true)
      invariant nIds == |records| && records == RecordsOf(s, IdsBelow(s, id, true))
    {
      IdsKnown(s, id + 1, true);
      if id in m.mapInfo && Written(m.mapInfo[id], true) {
        RoomToWrite(s, id, true);
        assert nIds != m.nTried;
        RecordsSnoc(s, IdsBelow(s, id, true), id);
        records := records + [RecordOf(m.mapInfo[id])];
        nIds := nIds + 1;
      } else {
        SkipId(s, id, true);
      }
    }
  }

  method Serialize(m: AddressManager) returns (f: File)
    requires Inv(m.S(), {})
    ensures f == SavedOf(m.S())
  {
    hide Inv, Rank, WrittenIds;
    ghost var s := m.S();
    var newRecords, unkIds := WriteNew(m);
    var triedRecords := WriteTried(m);
    var buckets: seq<seq<int>> := [];
    for bucket := 0 to NEW_BUCKET_COUNT
      invariant |buckets| == bucket && forall b :: 0 <= b < bucket ==> buckets[b] == Row(s, b, BUCKET_SIZE)
    {
      var row := [];
      for i := 0 to BUCKET_SIZE
        invariant row == Row(s, bucket, i)
      {
        if Slot(bucket, i) in m.vvNew {
          SlotFacts(s, Slot(bucket, i));
          row := row + [unkIds[m.vvNew[Slot(bucket, i)]]];
        }
      }
      buckets := buckets + [row];
    }
    f := File(1, 32, m.nKey, m.nNew, m.nTried, FlipBit30(NEW_BUCKET_COUNT), newRecords, triedRecords, buckets);
    assert f.buckets == seq(NEW_BUCKET_COUNT, b => Row(s, b, BUCKET_SIZE));
  }

  // ---------- Loading ----------

  /** Clear: everything but the pending collisions. */
  method Clear(m: AddressManager, key: Key)
    modifies m
    ensures m.S() == Empty(m.hash, key).(collisions := old(m.triedCollisions))
  {
    m.vRandom := [];
    m.nKey := key;
    m.vvNew := map[];
    m.vvTried := map[];
    m.nIdCount := 0;
    m.nTried := 0;
    m.nNew := 0;
    m.nLastGood := 1;
    m.mapInfo := map[];
    m.mapAddr := map[];
  }

  // What the fields hold while entries are read: the counters already have their final values.
  ghost function Reading(t: State, idCount: int, nNew: int, nTried: int, collisions: set<int>): State {
    t.(idCount := idCount, nNew := nNew, nTried := nTried, collisions := collisions)
  }

  method ReadNew(m: AddressManager, rs: seq<Record>, useTable: bool)
    requires m.mapInfo == map[] && m.mapAddr == map[] && m.vRandom == [] && m.vvNew == map[] && m.vvTried == map[]
    requires m.nIdCount == 0 && m.nLastGood == 1
    modifies m
    ensures m.S() == Reading(LoadAllNew(Empty(m.hash, old(m.nKey)), rs, useTable),
                             0, old(m.nNew), old(m.nTried), old(m.triedCollisions))
  {
    hide NewSlot, OnlyNew;
    ghost var e := Empty(m.hash, m.nKey);
    ghost var nNew, nTried, collisions := m.nNew, m.nTried, m.triedCollisions;
    for n := 0 to |rs|
      invariant m.S() == Reading(LoadAllNew(e, rs[..n], useTable), 0, nNew, nTried, collisions)
    {
      ghost var t := LoadAllNew(e, rs[..n], useTable);
      NewCount(e.hash, e.key, rs[..n], useTable);
      assert rs[..n + 1][..n] == rs[..n] && rs[..n + 1][n] == rs[n];
      ReadNewEntry(m, n, rs[n], useTable, t);
    }
    assert rs[..|rs|] == rs;
  }

  lemma NewCount(h: Hashes, key: Key, rs: seq<Record>, useTable: bool)
    ensures LoadAllNew(Empty(h, key), rs, useTable).idCount == |rs|
  {
    LoadAllNewEntries(h, key, rs, useTable);
  }

  method ReadNewEntry(m: AddressManager, n: int, r: Record, useTable: bool, ghost t: State)
    requires t.idCount == n && m.S() == Reading(t, m.nIdCount, m.nNew, m.nTried, m.triedCollisions)
    modifies m
    ensures m.S() == Reading(LoadNew(t, r, useTable),
                             old(m.nIdCount), old(m.nNew), old(m.nTried), old(m.triedCollisions))
  {
    hide NewSlot, LoadNew;
    LoadNewEffect(t, r, useTable);
    var info := InfoOf(r).(randomPos := |m.vRandom|);
    m.mapAddr := m.mapAddr[r.addr.ip := n];
    m.vRandom := m.vRandom + [n];
    if !useTable {
      var u := NewSlot(m.hash, m.nKey, r.addr, r.source);
      if u !in m.vvNew {
        m.vvNew := m.vvNew[u := n];
        info := info.(refCount := info.refCount + 1);
      }
    }
    m.mapInfo := m.mapInfo[n := info];
  }

  lemma LoadNewEffect(t: State, r: Record, useTable: bool)
    ensures var n, u := t.idCount, NewSlot(t.hash, t.key, r.addr, r.source);
            var placed := !useTable && u !in t.newTable;
            LoadNew(t, r, useTable) ==
            t.(idCount := n + 1,
               info := t.info[n := InfoOf(r).(randomPos := |t.random|, refCount := if placed then 1 else 0)],
               addr := t.addr[r.addr.ip := n], random := t.random + [n], nNew := t.nNew + 1,
               newTable := if placed then t.newTable[u := n] else t.newTable)
  {
    hide NewSlot;
  }

  /** Tried entries whose slot is taken are counted and dropped. */
  method ReadTried(m: AddressManager, rs: seq<Record>, ghost s: State)
    requires m.S() == s.(nTried := |rs|, collisions := m.triedCollisions) && s.nTried == 0
    modifies m
    ensures m.S() == LoadAllTried(s, rs).(collisions := old(m.triedCollisions))
  {
    hide LoadTried;
    var nLost := 0;
    ghost var collisions := m.triedCollisions;
    for n := 0 to |rs|
      invariant m.S() == LoadAllTried(s, rs[..n]).(nTried := |rs|, collisions := collisions)
      invariant LoadAllTried(s, rs[..n]).nTried == n - nLost
    {
      ghost var t := LoadAllTried(s, rs[..n]);
      assert rs[..n + 1][..n] == rs[..n] && rs[..n + 1][n] == rs[n];
      var lost := ReadTriedEntry(m, rs[n], t);
      if lost {
        nLost := nLost + 1;
      }
    }
    m.nTried := m.nTried - nLost;
    assert rs[..|rs|] == rs;
  }

  method ReadTriedEntry(m: AddressManager, r: Record, ghost t: State) returns (lost: bool)
    requires m.S() == t.(nTried := m.nTried, collisions := m.triedCollisions)
    modifies m
    ensures m.S() == LoadTried(t, r).(nTried := old(m.nTried), collisions := old(m.triedCollisions))
    ensures LoadTried(t, r).nTried == t.nTried + if lost then 0 else 1
  {
    hide TriedSlot;
    var k := TriedSlot(m.hash, m.nKey, r.addr);
    lost := k in m.vvTried;
    if !lost {
      LoadTriedEffect(t, r);
      m.mapInfo := m.mapInfo[m.nIdCount := InfoOf(r).(randomPos := |m.vRandom|, inTried := true)];
      m.vRandom := m.vRandom + [m.nIdCount];
      m.mapAddr := m.mapAddr[r.addr.ip := m.nIdCount];
      m.vvTried := m.vvTried[k := m.nIdCount];
      m.nIdCount := m.nIdCount + 1;
    }
  }

  method ReadRows(m: AddressManager, rows: seq<seq<int>>, nNew: int, useTable: bool, ghost s: State)
    requires m.S() == s.(collisions := m.triedCollisions) && forall n :: 0 <= n < nNew ==> n in m.mapInfo
    modifies m
    ensures m.S() == LoadRows(s, rows, nNew, useTable).(collisions := old(m.triedCollisions))
  {
    hide LoadSlot;
    ghost var collisions := m.triedCollisions;
    for bucket := 0 to |rows|
      invariant m.S() == LoadRows(s, rows[..bucket], nNew, useTable).(collisions := collisions)
      invariant forall n :: 0 <= n < nNew ==> n in m.mapInfo
    {
      ghost var t := LoadRows(s, rows[..bucket], nNew, useTable);
      var row := rows[bucket];
      for n := 0 to |row|
        invariant m.S() == LoadRow(t, bucket, row[..n], nNew, useTable).(collisions := collisions)
        invariant forall i :: 0 <= i < nNew ==> i in m.mapInfo
      {
        assert row[..n + 1][..n] == row[..n] && row[..n + 1][n] == row[n];
        ReadSlot(m, bucket, row[n], nNew, useTable, LoadRow(t, bucket, row[..n], nNew, useTable));
      }
      assert row[..|row|] == row;
      assert rows[..bucket + 1][..bucket] == rows[..bucket] && rows[..bucket + 1][bucket] == rows[bucket];
    }
    assert rows[..|rows|] == rows;
  }

  method ReadSlot(m: AddressManager, bucket: int, index: int, nNew: int, useTable: bool, ghost t: State)
    requires m.S() == t.(collisions := m.triedCollisions) && forall n :: 0 <= n < nNew ==> n in m.mapInfo
    modifies m
    ensures m.S() == LoadSlot(t, bucket, index, nNew, useTable).(collisions := old(m.triedCollisions))
    ensures forall n :: 0 <= n < nNew ==> n in m.mapInfo
  {
    if 0 <= index < nNew {
      var k := NewSlotIn(m.hash, m.nKey, m.mapInfo[index].addr, bucket);
      if useTable && k !in m.vvNew && m.mapInfo[index].refCount < NEW_BUCKETS_PER_ADDRESS {
        m.mapInfo := m.mapInfo[index := m.mapInfo[index].(refCount := m.mapInfo[index].refCount + 1)];
        m.vvNew := m.vvNew[k := index];
      }
    }
  }

  /** New entries left without a reference go. */
  method Prune(m: AddressManager, ghost s: State)
    requires Loadable(s) && m.S() == s.(collisions := m.triedCollisions)
    modifies m
    ensures s.idCount >= 0 && m.S() == Pruned(s, s.idCount).(collisions := old(m.triedCollisions))
  {
    hide Loadable, RandomOk, Erased, PrunedTo;
    AllHolesBelow(s);
    ghost var collisions := m.triedCollisions;
    for id := 0 to m.nIdCount
      invariant m.S() == Pruned(s, id).(collisions := collisions) && m.nIdCount == s.idCount
    {
      PrunedLoadable(s, id);
      ghost var t := Pruned(s, id);
      PruneStep(s, t, id);
      PrunedCount(s, id, t);
      PrunedLoadable(s, id + 1);
      PrunedCount(s, id + 1, Pruned(s, id + 1));
      if id in m.mapInfo && !m.mapInfo[id].inTried && m.mapInfo[id].refCount == 0 {
        ErasedCollisions(t, id, collisions);
        m.Delete(id);
      }
    }
  }

  lemma PrunedCount(s: State, n: int, t: State)
    requires PrunedTo(s, n, t)
    ensures t.idCount == s.idCount
  {
  }

  lemma ErasedCollisions(t: State, n: int, collisions: set<int>)
    requires n in t.info && RandomOk(t)
    ensures RandomOk(t.(collisions := collisions))
    ensures Erased(t.(collisions := collisions), n) == Erased(t, n).(collisions := collisions)
  {
    hide Swapped;
    assert EntryPlaced(t, n);
    forall m | m in t.info ensures EntryPlaced(t.(collisions := collisions), m) {
      assert EntryPlaced(t, m);
    }
    SwappedCollisions(t, t.info[n].randomPos, |t.random| - 1, collisions);
  }

  lemma SwappedCollisions(t: State, i: int, j: int, collisions: set<int>)
    requires 0 <= i < |t.random| && 0 <= j < |t.random| && t.random[i] in t.info && t.random[j] in t.info
    ensures Swapped(t.(collisions := collisions), i, j) == Swapped(t, i, j).(collisions := collisions)
  {
  }

  /** Unserialize. Whatever the records say, the manager comes back consistent but for the addresses, and with them
      exactly under the condition stated. In a debug build it ends with Check_, which logs an error. */
  method Unserialize(m: AddressManager, f: File, randomKey: Key, debug: bool) returns (threw: bool, err: int)
    requires Counted(f)
    modifies m
    ensures threw <==> f.keySize != 32
    ensures threw ==> m.S() == Empty(m.hash, randomKey).(collisions := old(m.triedCollisions)) && err == 0
    ensures !threw && !debug ==> m.S() == Loaded(m.hash, f).(collisions := old(m.triedCollisions)) && err == 0
    ensures !threw && debug ==> Left(Loaded(m.hash, f).(collisions := old(m.triedCollisions)), err, m.S())
    ensures !threw && debug ==>
              (err == 0 <==> f.key != 0 && TimesOk(Loaded(m.hash, f)) && UnsharedButZero(Filled(m.hash, f)))
    ensures !threw && debug && err == 0 ==> Inv(m.S(), {}) && TimesOk(m.S())
    ensures !threw && !debug ==> (Inv(m.S(), {}) <==> f.key != 0 && Unshared(Filled(m.hash, f)))
    ensures !threw && Inv(Loaded(m.hash, f), {}) ==>
              m.S() == Loaded(m.hash, f).(collisions := old(m.triedCollisions)) && Inv(m.S(), {})
  {
    hide Inv, LoadAllNew, LoadAllTried, LoadRows, Loadable, Pruned, Counted, Unshared, AddressesKnown,
        UnsharedButZero, Checked, TablesSized, TimesOk, Left, Read, NotTested, IdsFromCounter, AddressesOwned;
    Clear(m, randomKey);
    err := 0;
    if f.keySize != 32 {
      return true, 0;
    }
    CountedFacts(f);
    m.nKey := f.key;
    m.nNew := f.nNew;
    m.nTried := f.nTried;
    var useTable := UsesTable(f);
    ReadNew(m, f.newRecords, useTable);
    ghost var n := LoadAllNew(Empty(m.hash, f.key), f.newRecords, useTable);
    m.nIdCount := m.nNew;
    NewFacts(m.hash, f, useTable);
    ReadTried(m, f.triedRecords, n);
    EnteredLoadable(m.hash, f);
    NewPresent(Entered(m.hash, f), f.newRecords);
    ReadRows(m, f.buckets, f.nNew, useTable, Entered(m.hash, f));
    LoadedInvIff(m.hash, f);
    Prune(m, Filled(m.hash, f));
    ghost var t := Loaded(m.hash, f);
    CollisionsEither(t, m.triedCollisions);
    if debug {
      LoadedChecked(m.hash, f);
      CheckedEither(t, m.triedCollisions);
      ghost var u := m.S();
      err := Check(m);
      if Inv(u, {}) { LeftConsistent(u, err, m.S()); }
    }
    threw := false;
  }

  lemma CheckedEither(s: State, c: set<int>)
    ensures (Checked(s.(collisions := c)) <==> Checked(s)) && (TablesSized(s.(collisions := c)) <==> TablesSized(s))
    ensures Read(s.(collisions := c)) == Read(s).(collisions := c)
    ensures Inv(Read(s.(collisions := c)), {}) <==> Inv(Read(s), {})
    ensures TimesOk(Read(s.(collisions := c))) <==> TimesOk(Read(s))
  {
    hide Inv;
    ChecksEither(s, s.(collisions := c));
    CollisionsEither(Read(s), c);
    assert Read(s).(collisions := c).info == Read(s).info;
  }

  lemma ChecksEither(s: State, t: State)
    requires t == s.(collisions := t.collisions)
    ensures (Checked(t) <==> Checked(s)) && (TablesSized(t) <==> TablesSized(s))
  {
    hide TriedSlot, NewSlotIn;
    assert TriedIds(t) == TriedIds(s) && NewIds(t) == NewIds(s);
    forall n ensures Refs(t, n) == Refs(s, n) {
    }
    forall n | n in s.info ensures EntryChecked(t, n) <==> EntryChecked(s, n) {
      assert IdOf(t, s.info[n].addr.ip) == IdOf(s, s.info[n].addr.ip);
    }
  }

  lemma CollisionsEither(s: State, c: set<int>)
    ensures Inv(s.(collisions := c), {}) <==> Inv(s, {})
  {
    hide Inv;
    var t := s.(collisions := c);
    assert t.(collisions := s.collisions) == s;
    if Inv(s, {}) { CollisionsAside(s, c); }
    if Inv(t, {}) { CollisionsAside(t, s.collisions); }
  }

  lemma CountedFacts(f: File)
    requires Counted(f)
    ensures f.uBuckets >= 0 && f.nNew == |f.newRecords| && f.nTried == |f.triedRecords|
  {
  }

  lemma NewFacts(h: Hashes, f: File, useTable: bool)
    ensures var n := LoadAllNew(Empty(h, f.key), f.newRecords, useTable);
            n.idCount == |f.newRecords| == n.nNew && n.nTried == 0 && n.hash == h && n.key == f.key
  {
    LoadAllNewEntries(h, f.key, f.newRecords, useTable);
  }

  lemma NewPresent(t: State, rs: seq<Record>)
    requires NewFirst(t, rs)
    ensures forall i :: 0 <= i < |rs| ==> i in t.info
  {
    forall i | 0 <= i < |rs| ensures i in t.info {
      assert RecordOf(t.info[i]) == rs[i];
    }
  }

  /** Saved by one manager and loaded by another with the same hashes, everything is back. */
  method SaveAndLoad(m: AddressManager, other: AddressManager, randomKey: Key, debug: bool)
    requires Inv(m.S(), {}) && other.hash == m.hash && other != m
    modifies other
    ensures Inv(other.S(), {}) && SameUpToIds(m.S(), other.S())
  {
    hide Inv, WellFormed, Loaded, SavedOf;
    ghost var s := m.S();
    var f := Serialize(m);
    RoundTrip(s);
    KeySize(s);
    SavedCounted(s);
    var threw, err := Unserialize(other, f, randomKey, debug);
    SameAside(s, Loaded(s.hash, f), other.triedCollisions);
  }

  lemma SavedCounted(s: State)
    requires WellFormed(SavedOf(s)) && Inv(Loaded(s.hash, SavedOf(s)), {})
    ensures Counted(SavedOf(s)) && SavedOf(s).key != 0 && Unshared(Filled(s.hash, SavedOf(s)))
  {
    hide SavedOf, Inv, Loaded, Filled, Unshared;
    LoadedInvIff(s.hash, SavedOf(s));
  }

  lemma KeySize(s: State)
    ensures SavedOf(s).keySize == 32
  {
  }

  lemma SameAside(s: State, t: State, collisions: set<int>)
    requires SameUpToIds(s, t)
    ensures SameUpToIds(s, t.(collisions := collisions))
  {
    var u := t.(collisions := collisions);
    forall a | a in s.addr ensures SameEntry(s, u, a) {
      assert SameEntry(s, t, a);
    }
    forall k | k in s.newTable ensures SameAddress(s, s.newTable[k], u, u.newTable[k]) {
      assert SameAddress(s, s.newTable[k], t, t.newTable[k]);
    }
    forall k | k in s.triedTable ensures SameAddress(s, s.triedTable[k], u, u.triedTable[k]) {
      assert SameAddress(s, s.triedTable[k], t, t.triedTable[k]);
    }
  }
}
