/** Unserialize(Serialize(m)): nothing is lost and every slot is reproduced, up to ids, the order of
    vRandom and the fields that are not written (src/addrman.h). */
module AddrManRoundTrip {
  import opened Basics
  import opened AddrManState
  import opened AddrManFile

  /** The same manager under other ids, entry by entry through their addresses. */
  ghost predicate SameUpToIds(s: State, t: State) {
    && t.hash == s.hash && t.key == s.key && t.nNew == s.nNew && t.nTried == s.nTried
    && t.addr.Keys == s.addr.Keys
    && (forall a :: a in s.addr ==> SameEntry(s, t, a))
    && t.newTable.Keys == s.newTable.Keys && t.triedTable.Keys == s.triedTable.Keys
    && (forall k :: k in s.newTable ==> SameAddress(s, s.newTable[k], t, t.newTable[k]))
    && (forall k :: k in s.triedTable ==> SameAddress(s, s.triedTable[k], t, t.triedTable[k]))
  }

  ghost predicate SameEntry(s: State, t: State, a: NetAddr)
    requires a in s.addr && a in t.addr
  {
    && s.addr[a] in s.info && t.addr[a] in t.info
    && var e, f := s.info[s.addr[a]], t.info[t.addr[a]];
    RecordOf(e) == RecordOf(f) && e.refCount == f.refCount && e.inTried == f.inTried
  }

  ghost predicate SameAddress(s: State, n: int, t: State, m: int) {
    n in s.info && m in t.info && s.info[n].addr == t.info[m].addr
  }

  // ---------- The file of a consistent manager is well formed ----------

  lemma WrittenIffNew(s: State, n: int)
    requires Inv(s, {}) && n in s.info
    ensures Written(s.info[n], false) <==> !s.info[n].inTried
  {
    assert EntryOk(s.info[n], n in {});
  }

  lemma {:induction false} DistinctSize(ids: seq<int>, members: set<int>)
    requires forall i, j :: 0 <= i < j < |ids| ==> ids[i] < ids[j]
    requires forall n :: n in members <==> n in ids
    ensures |ids| == |members|
  {
    if ids == [] {
      assert forall n :: n in members ==> n in ids;
      assert members == {};
    } else {
      var last, init := ids[|ids| - 1], ids[..|ids| - 1];
      assert ids == init + [last];
      assert last in members && last !in init;
      DistinctSize(init, members - {last});
    }
  }

  lemma IdsCounted(s: State)
    requires Inv(s, {})
    ensures |WrittenIds(s, false)| == s.nNew && |WrittenIds(s, true)| == s.nTried
  {
    IdsAreThose(s, false, NewIds(s));
    IdsAreThose(s, true, TriedIds(s));
  }

  lemma IdsAreThose(s: State, tried: bool, members: set<int>)
    requires Inv(s, {}) && members == if tried then TriedIds(s) else NewIds(s)
    ensures |WrittenIds(s, tried)| == |members|
    ensures AscendingIds(s, WrittenIds(s, tried), s.idCount, tried)
    ensures forall n :: n in members <==> n in WrittenIds(s, tried)
  {
    hide TriedOk, NewOk, CountsOk, IdsBelow;
    var ids := WrittenIds(s, tried);
    IdsKnown(s, s.idCount, tried);
    forall n ensures n in members <==> n in ids {
      if n in members {
        assert EntryIndexed(s, n);
        WrittenIffNew(s, n);
        IdsComplete(s, s.idCount, tried, n);
      }
      if n in ids {
        var i :| 0 <= i < |ids| && ids[i] == n;
        WrittenIffNew(s, n);
      }
    }
    DistinctSize(ids, members);
  }

  lemma SavedIsWellFormed(s: State)
    requires Inv(s, {})
    ensures WellFormed(SavedOf(s)) && UsesTable(SavedOf(s))
  {
    hide TriedOk, NewOk, CountsOk, WrittenIds, Row;
    var f := SavedOf(s);
    IdsCounted(s);
    IdsAreThose(s, false, NewIds(s));
    IdsAreThose(s, true, TriedIds(s));
    var ns, ts := WrittenIds(s, false), WrittenIds(s, true);
    SavedDistinct(s, ns, ts);
  }

  lemma SavedDistinct(s: State, ns: seq<int>, ts: seq<int>)
    requires Inv(s, {}) && AscendingIds(s, ns, s.idCount, false) && AscendingIds(s, ts, s.idCount, true)
    ensures DistinctAddresses(RecordsOf(s, ns) + RecordsOf(s, ts))
  {
    hide TriedOk, NewOk, CountsOk;
    var all, ids := RecordsOf(s, ns) + RecordsOf(s, ts), ns + ts;
    forall i, j | 0 <= i < j < |all| ensures all[i].addr.ip != all[j].addr.ip {
      assert all[i] == RecordOf(s.info[ids[i]]) && all[j] == RecordOf(s.info[ids[j]]);
      assert EntryIndexed(s, ids[i]) && EntryIndexed(s, ids[j]);
      if i < |ns| <= j {
        WrittenIffNew(s, ids[i]);
        assert s.info[ids[j]].inTried;
      }
    }
  }

  // ---------- After both kinds of entries are read ----------

  ghost predicate BothRead(t: State, h: Hashes, key: Key, rs: seq<Record>, ts: seq<Record>) {
    && NewFirst(t, rs) && TriedNext(t, |rs|, ts)
    && t.idCount == |rs| + |ts| && t.nNew == |rs| && t.nTried == |ts| &&
        (forall n :: n in t.info <==> 0 <= n < |rs| + |ts|)
    && t.hash == h && t.key == key && t.newTable == map[]
    && forall k :: k in t.triedTable ==> exists j :: 0 <= j < |ts| && k == TriedSlot(h, key, ts[j].addr)
  }

  ghost predicate TriedNext(t: State, start: int, ts: seq<Record>) {
    forall j :: 0 <= j < |ts| ==> TriedAt(t, start + j, ts[j])
  }

  ghost predicate TriedAt(t: State, n: int, r: Record) {
    n in t.info && RecordOf(t.info[n]) == r && t.info[n].inTried
  }

  ghost predicate SlotsDiffer(h: Hashes, key: Key, ts: seq<Record>) {
    forall i, j :: 0 <= i < j < |ts| ==> TriedSlot(h, key, ts[i].addr) != TriedSlot(h, key, ts[j].addr)
  }

  lemma LoadTriedEffect(s: State, r: Record)
    requires TriedSlot(s.hash, s.key, r.addr) !in s.triedTable
    ensures var n := s.idCount;
            LoadTried(s, r) == s.(idCount := n + 1,
                                  info := s.info[n := InfoOf(r).(randomPos := |s.random|, inTried := true)],
                                  addr := s.addr[r.addr.ip := n], random := s.random + [n], nTried := s.nTried + 1,
                                  triedTable := s.triedTable[TriedSlot(s.hash, s.key, r.addr) := n])
  {
    hide TriedSlot;
    var t := Created(s, InfoOf(r));
    assert Promoted(t, s.idCount).info == s.info[s.idCount := InfoOf(r).(randomPos := |s.random|, inTried := true)];
  }

  lemma TriedNextSnoc(s: State, t: State, start: int, ts: seq<Record>, r: Record)
    requires TriedNext(s, start, ts) && s.idCount == start + |ts|
    requires s.idCount in t.info && RecordOf(t.info[s.idCount]) == r && t.info[s.idCount].inTried
    requires forall n :: n in s.info && n != s.idCount ==> n in t.info && t.info[n] == s.info[n]
    ensures TriedNext(t, start, ts + [r])
  {
    forall j | 0 <= j < |ts + [r]| ensures TriedAt(t, start + j, (ts + [r])[j]) {
      if j < |ts| {
        assert (ts + [r])[j] == ts[j];
        assert TriedAt(s, start + j, ts[j]);
      }
    }
  }

  lemma LoadTriedEntry(s: State, h: Hashes, key: Key, rs: seq<Record>, ts: seq<Record>, r: Record)
    requires BothRead(s, h, key, rs, ts) && SlotsDiffer(h, key, ts + [r])
    ensures BothRead(LoadTried(s, r), h, key, rs, ts + [r])
  {
    hide TriedSlot, LoadTried;
    var ts' := ts + [r];
    var k := TriedSlot(h, key, r.addr);
    assert k !in s.triedTable by {
      assert ts'[|ts|] == r && forall j :: 0 <= j < |ts| ==> ts'[j] == ts[j];
    }
    LoadTriedEffect(s, r);
    var t := LoadTried(s, r);
    forall i | 0 <= i < |rs| ensures i in t.info && RecordOf(t.info[i]) == rs[i] && !t.info[i].inTried {
      assert i in s.info && t.info[i] == s.info[i];
    }
    TriedNextSnoc(s, t, |rs|, ts, r);
    forall x | x in t.triedTable ensures exists j :: 0 <= j < |ts'| && x == TriedSlot(h, key, ts'[j].addr) {
      if x == k {
        assert x == TriedSlot(h, key, ts'[|ts|].addr);
      } else {
        var j :| 0 <= j < |ts| && x == TriedSlot(h, key, ts[j].addr);
        assert x == TriedSlot(h, key, ts'[j].addr);
      }
    }
  }

  lemma {:induction false} LoadAllTriedEntries(s: State, h: Hashes, key: Key, rs: seq<Record>, ts: seq<Record>)
    requires OnlyNew(s, h, key, rs, true) && SlotsDiffer(h, key, ts)
    ensures BothRead(LoadAllTried(s, ts), h, key, rs, ts)
  {
    hide OnlyNew, BothRead, LoadTried, TriedSlot;
    if ts == [] {
      NoneTried(s, h, key, rs);
    } else {
      var init := ts[..|ts| - 1];
      LoadAllTriedEntries(s, h, key, rs, init);
      assert ts == init + [ts[|ts| - 1]];
      LoadTriedEntry(LoadAllTried(s, init), h, key, rs, init, ts[|ts| - 1]);
    }
  }

  lemma NoneTried(s: State, h: Hashes, key: Key, rs: seq<Record>)
    requires OnlyNew(s, h, key, rs, true)
    ensures BothRead(s, h, key, rs, [])
  {
  }

  lemma SavedSlotsDiffer(s: State)
    requires Inv(s, {})
    ensures SlotsDiffer(s.hash, s.key, SavedOf(s).triedRecords)
  {
    hide IndexOk, NewOk, CountsOk, TriedSlot, WrittenIds, Row;
    IdsAreThose(s, true, TriedIds(s));
    var ts := WrittenIds(s, true);
    var rs := SavedOf(s).triedRecords;
    forall i, j | 0 <= i < j < |rs|
      ensures TriedSlot(s.hash, s.key, rs[i].addr) != TriedSlot(s.hash, s.key, rs[j].addr)
    {
      assert s.info[ts[i]].inTried && s.info[ts[j]].inTried;
    }
  }

  lemma SavedEntered(s: State)
    requires Inv(s, {})
    ensures var f := SavedOf(s); BothRead(Entered(s.hash, f), s.hash, s.key, f.newRecords, f.triedRecords)
  {
    hide Inv, BothRead, OnlyNew, LoadAllNew, LoadAllTried, WrittenIds, Row;
    var f := SavedOf(s);
    SavedIsWellFormed(s);
    SavedSlotsDiffer(s);
    LoadAllNewEntries(s.hash, s.key, f.newRecords, true);
    LoadAllTriedEntries(LoadAllNew(Empty(s.hash, s.key), f.newRecords, true), s.hash, s.key, f.newRecords,
        f.triedRecords);
  }

  // ---------- After the slots are read ----------

  /** The slots before position p of bucket b, with their entries renamed to ranks. */
  function SlotsBefore(s: State, b: int, p: int): map<Slot, int> {
    map k | k in s.newTable && (k.bucket < b || (k.bucket == b && k.pos < p)) :: Rank(s, s.newTable[k])
  }

  // The entries of s, written and read again, with the slots read so far.
  ghost predicate ReadUpTo(s: State, t: State, b: int, p: int) {
    && Loadable(t) && NewFirst(t, SavedOf(s).newRecords) && t.hash == s.hash && t.key == s.key
    && t.newTable == SlotsBefore(s, b, p)
  }

  lemma SlotFacts(s: State, k: Slot)
    requires Inv(s, {}) && k in s.newTable
    ensures var n := s.newTable[k];
            && n in s.info && 0 <= n < s.idCount && Written(s.info[n], false) &&
                s.info[n].refCount <= NEW_BUCKETS_PER_ADDRESS
            && k == NewSlotIn(s.hash, s.key, s.info[n].addr, k.bucket) && 0 <= k.bucket < NEW_BUCKET_COUNT &&
                0 <= k.pos < BUCKET_SIZE
            && Rank(s, n) < |WrittenIds(s, false)| && WrittenIds(s, false)[Rank(s, n)] == n
  {
    var n := s.newTable[k];
    assert EntryIndexed(s, n) && EntryOk(s.info[n], n in {});
    WrittenIffNew(s, n);
    RankIndex(s, n, s.idCount);
  }

  lemma RankInjective(s: State, k: Slot, j: Slot)
    requires Inv(s, {}) && k in s.newTable && j in s.newTable && Rank(s, s.newTable[k]) == Rank(s, s.newTable[j])
    ensures s.newTable[k] == s.newTable[j]
  {
    hide Inv, Rank, WrittenIds, NewSlotIn;
    SlotFacts(s, k);
    SlotFacts(s, j);
  }

  /** The references read so far are some of the entry's own, this slot not among them. */
  lemma RoomForSlot(s: State, t: State, k: Slot)
    requires Inv(s, {}) && ReadUpTo(s, t, k.bucket, k.pos) && k in s.newTable
    ensures var index := Rank(s, s.newTable[k]);
            index in t.info && t.info[index].refCount < NEW_BUCKETS_PER_ADDRESS && k !in t.newTable
  {
    hide Rank, WrittenIds, NewSlotIn, IndexOk, TriedOk, CountsOk, EntryOk, Row, SlotsBefore;
    var n := s.newTable[k];
    var index := Rank(s, n);
    SlotFacts(s, k);
    SavedRecord(s, index);
    assert index in t.info;
    BeforeFacts(s, k);
    assert Refs(t, index) <= Refs(s, n) - {k} by {
      forall j | j in Refs(t, index) ensures j in Refs(s, n) - {k} {
        BeforeAt(s, k.bucket, k.pos, j);
        RankInjective(s, j, k);
      }
    }
    SubsetSize(Refs(t, index), Refs(s, n) - {k});
    assert k in Refs(s, n);
  }

  lemma SavedRecord(s: State, index: nat)
    requires index < |WrittenIds(s, false)|
    ensures |SavedOf(s).newRecords| == |WrittenIds(s, false)|
    ensures SavedOf(s).newRecords[index] == RecordOf(s.info[WrittenIds(s, false)[index]])
  {
    hide WrittenIds, Row;
  }

  lemma BeforeFacts(s: State, k: Slot)
    ensures k !in SlotsBefore(s, k.bucket, k.pos)
  {
  }

  lemma BeforeAt(s: State, b: int, p: int, j: Slot)
    requires j in SlotsBefore(s, b, p)
    ensures j in s.newTable && SlotsBefore(s, b, p)[j] == Rank(s, s.newTable[j])
  {
  }

  lemma SlotsNext(s: State, b: int, p: int)
    ensures var k := Slot(b, p);
            SlotsBefore(s, b, p + 1) ==
              if k in s.newTable then SlotsBefore(s, b, p)[k := Rank(s, s.newTable[k])] else SlotsBefore(s, b, p)
  {
    hide Rank;
    var k := Slot(b, p);
    forall j | j in s.newTable && j != k ensures j in SlotsBefore(s, b, p + 1) <==> j in SlotsBefore(s, b, p) {
      assert j == Slot(j.bucket, j.pos);
    }
  }

  /** Reading an index back puts it into the slot it came from. */
  lemma SlotReproduced(s: State, t: State, b: int, p: nat)
    requires Inv(s, {}) && ReadUpTo(s, t, b, p) && 0 <= b < NEW_BUCKET_COUNT && Slot(b, p) in s.newTable
    ensures var u := LoadSlot(t, b, Rank(s, s.newTable[Slot(b, p)]), |SavedOf(s).newRecords|, true);
            ReadUpTo(s, u, b, p + 1) && SameEntries(t, u)
  {
    hide Inv, Rank, WrittenIds, Row, SlotsBefore, NewSlotIn, Loadable, NewFirst, SameEntries;
    var k := Slot(b, p);
    var n := s.newTable[k];
    var index := Rank(s, n);
    SlotFacts(s, k);
    RoomForSlot(s, t, k);
    SavedRecord(s, index);
    LoadSlotStep(t, b, index, SavedOf(s).newRecords, true);
    RecordAt(t, SavedOf(s).newRecords, index);
    assert t.info[index].addr == s.info[n].addr;
    SlotsNext(s, b, p);
  }

  lemma RecordAt(t: State, rs: seq<Record>, i: nat)
    requires NewFirst(t, rs) && i < |rs|
    ensures i in t.info && t.info[i].addr == rs[i].addr
  {
    assert RecordOf(t.info[i]) == rs[i];
  }

  lemma {:induction false} RowReproduced(s: State, t: State, b: int, p: nat)
    requires Inv(s, {}) && ReadUpTo(s, t, b, 0) && 0 <= b < NEW_BUCKET_COUNT
    ensures var u := LoadRow(t, b, Row(s, b, p), |SavedOf(s).newRecords|, true);
            ReadUpTo(s, u, b, p) && SameEntries(t, u)
  {
    hide Inv, ReadUpTo, SameEntries, LoadSlot, SavedOf, Rank;
    if p == 0 {
      SameEntriesSelf(t);
    } else {
      RowReproduced(s, t, b, p - 1);
      var n := |SavedOf(s).newRecords|;
      var before := LoadRow(t, b, Row(s, b, p - 1), n, true);
      if Slot(b, p - 1) in s.newTable {
        SlotReproduced(s, before, b, p - 1);
        RowSnoc(t, b, Row(s, b, p - 1), Rank(s, s.newTable[Slot(b, p - 1)]), n);
        SameEntriesTransitive(t, before, LoadSlot(before, b, Rank(s, s.newTable[Slot(b, p - 1)]), n, true));
      } else {
        SkipSlot(s, before, b, p - 1);
        assert Row(s, b, p) == Row(s, b, p - 1);
      }
    }
  }

  lemma RowSnoc(t: State, b: int, row: seq<int>, index: int, n: int)
    ensures LoadRow(t, b, row + [index], n, true) == LoadSlot(LoadRow(t, b, row, n, true), b, index, n, true)
  {
    hide LoadSlot;
    assert (row + [index])[..|row|] == row;
  }

  lemma SkipSlot(s: State, t: State, b: int, p: int)
    requires ReadUpTo(s, t, b, p) && Slot(b, p) !in s.newTable
    ensures ReadUpTo(s, t, b, p + 1)
  {
    hide Loadable, SlotsBefore;
    SlotsNext(s, b, p);
  }

  /** At the end of a bucket the next one begins. */
  lemma NextBucket(s: State, t: State, b: int)
    requires Inv(s, {}) && ReadUpTo(s, t, b, BUCKET_SIZE)
    ensures ReadUpTo(s, t, b + 1, 0)
  {
    hide Inv, Loadable, Rank;
    forall k | k in s.newTable ensures k.pos < BUCKET_SIZE && k.pos >= 0 {
      SlotFacts(s, k);
    }
    assert SlotsBefore(s, b + 1, 0) == SlotsBefore(s, b, BUCKET_SIZE);
  }

  lemma {:induction false} RowsReproduced(s: State, t: State, b: nat)
    requires Inv(s, {}) && ReadUpTo(s, t, 0, 0) && b <= NEW_BUCKET_COUNT
    ensures var f := SavedOf(s);
            |f.buckets| == NEW_BUCKET_COUNT &&
            var u := LoadRows(t, f.buckets[..b], |f.newRecords|, true); ReadUpTo(s, u, b, 0) && SameEntries(t, u)
  {
    hide Inv, ReadUpTo, SameEntries, LoadRow, Row;
    var f := SavedOf(s);
    if b == 0 {
      SameEntriesSelf(t);
    } else {
      RowsReproduced(s, t, b - 1);
      var n := |f.newRecords|;
      var before := LoadRows(t, f.buckets[..b - 1], n, true);
      var u := LoadRow(before, b - 1, Row(s, b - 1, BUCKET_SIZE), n, true);
      RowReproduced(s, before, b - 1, BUCKET_SIZE);
      NextBucket(s, u, b - 1);
      SameEntriesTransitive(t, before, u);
      assert f.buckets[..b][..b - 1] == f.buckets[..b - 1];
    }
  }

  // ---------- The round trip ----------

  lemma NothingRead(s: State)
    requires Inv(s, {})
    ensures ReadUpTo(s, Entered(s.hash, SavedOf(s)), 0, 0)
  {
    hide Inv, Loadable, WrittenIds, Row, Entered, NewFirst, Rank;
    SavedIsWellFormed(s);
    EnteredLoadable(s.hash, SavedOf(s));
    SavedEntered(s);
    forall k | k in s.newTable ensures k.bucket >= 0 && k.pos >= 0 {
      SlotFacts(s, k);
    }
    assert SlotsBefore(s, 0, 0) == map[];
  }

  lemma AllRead(s: State)
    requires Inv(s, {})
    ensures var t := Filled(s.hash, SavedOf(s));
            ReadUpTo(s, t, NEW_BUCKET_COUNT, 0) && SameEntries(Entered(s.hash, SavedOf(s)), t)
  {
    hide Inv, ReadUpTo, SameEntries, Entered, LoadRows, WrittenIds, Row;
    var f := SavedOf(s);
    NothingRead(s);
    SavedIsWellFormed(s);
    RowsReproduced(s, Entered(s.hash, f), NEW_BUCKET_COUNT);
    assert f.buckets[..NEW_BUCKET_COUNT] == f.buckets;
  }

  /** Every entry read back has all the references of the entry it came from. */
  lemma SameReferences(s: State, t: State, index: nat)
    requires Inv(s, {}) && ReadUpTo(s, t, NEW_BUCKET_COUNT, 0) && index < |WrittenIds(s, false)|
    ensures index in t.info && t.info[index].refCount == s.info[WrittenIds(s, false)[index]].refCount > 0
  {
    hide IndexOk, TriedOk, CountsOk, EntryOk, WrittenIds, Row, Rank, SlotsBefore, NewSlotIn;
    SavedRecord(s, index);
    var n := WrittenIds(s, false)[index];
    RankOfIndex(s, index);
    assert Refs(t, index) == Refs(s, n) by {
      forall k | k in Refs(t, index) ensures k in Refs(s, n) {
        BeforeAt(s, NEW_BUCKET_COUNT, 0, k);
        SlotFacts(s, k);
      }
      forall k | k in Refs(s, n) ensures k in Refs(t, index) {
        SlotFacts(s, k);
        InAll(s, k);
      }
    }
    IdsAreThose(s, false, NewIds(s));
    PositiveCount(s, n);
  }

  lemma PositiveCount(s: State, n: int)
    requires Inv(s, {}) && n in s.info && Written(s.info[n], false)
    ensures s.info[n].refCount > 0
  {
    assert EntryOk(s.info[n], n in {});
  }

  lemma InAll(s: State, k: Slot)
    requires k in s.newTable && k.bucket < NEW_BUCKET_COUNT
    ensures k in SlotsBefore(s, NEW_BUCKET_COUNT, 0) && SlotsBefore(s, NEW_BUCKET_COUNT, 0)[k] == Rank(s, s.newTable[k])
  {
  }

  lemma RankOfIndex(s: State, index: nat)
    requires Inv(s, {}) && index < |WrittenIds(s, false)|
    ensures Rank(s, WrittenIds(s, false)[index]) == index
  {
    hide Inv, Rank;
    IdsAreThose(s, false, NewIds(s));
    var ids := WrittenIds(s, false);
    RankIndex(s, ids[index], s.idCount);
    var r := Rank(s, ids[index]);
    assert ids[r] == ids[index];
  }

  /** So there is nothing to prune. */
  lemma NothingPruned(s: State)
    requires Inv(s, {})
    ensures Loaded(s.hash, SavedOf(s)) == Filled(s.hash, SavedOf(s))
  {
    hide Inv, ReadUpTo, SameEntries, Entered, Filled, WrittenIds, Row, IndexOk, Loadable;
    AllRead(s);
    SavedEntered(s);
    var t := Filled(s.hash, SavedOf(s));
    NoHolesLeft(s, t);
    if t.idCount >= 0 { PrunedNothing(t, t.idCount); }
  }

  lemma {:induction false} PrunedNothing(t: State, n: nat)
    requires Holes(t) == {}
    ensures Pruned(t, n) == t
  {
    hide Erased, RandomOk, Holes;
    if n > 0 { PrunedNothing(t, n - 1); }
  }

  lemma NoHolesLeft(s: State, t: State)
    requires Inv(s, {}) && ReadUpTo(s, t, NEW_BUCKET_COUNT, 0) && SameEntries(Entered(s.hash, SavedOf(s)), t)
    ensures Holes(t) == {}
  {
    hide Inv, ReadUpTo, Entered, WrittenIds, Row;
    SavedEntered(s);
    var e, f := Entered(s.hash, SavedOf(s)), SavedOf(s);
    forall n | n in t.info ensures t.info[n].inTried || t.info[n].refCount > 0 {
      assert n in e.info && t.info[n].(refCount := 0).inTried == e.info[n].(refCount := 0).inTried;
      if n < |f.newRecords| {
        SameReferences(s, t, n);
      } else {
        assert n == |f.newRecords| + (n - |f.newRecords|);
        assert RecordOf(e.info[n]) == f.triedRecords[n - |f.newRecords|];
      }
    }
  }

  /** The entry that comes back for an address. */
  lemma EntryReproduced(s: State, t: State, n: int)
    requires Inv(s, {}) && n in s.info && ReadUpTo(s, t, NEW_BUCKET_COUNT, 0) &&
              SameEntries(Entered(s.hash, SavedOf(s)), t)
    ensures exists m :: m in t.info && RecordOf(t.info[m]) == RecordOf(s.info[n]) &&
             t.info[m].refCount == s.info[n].refCount
                        && t.info[m].inTried == s.info[n].inTried
  {
    hide Inv, Entered, WrittenIds, Row, ReadUpTo;
    SavedEntered(s);
    var e, f := Entered(s.hash, SavedOf(s)), SavedOf(s);
    IdsAreThose(s, false, NewIds(s));
    IdsAreThose(s, true, TriedIds(s));
    if s.info[n].inTried {
      assert n in TriedIds(s);
      var ids := WrittenIds(s, true);
      var j :| 0 <= j < |ids| && ids[j] == n;
      var m := |f.newRecords| + j;
      assert RecordOf(e.info[m]) == f.triedRecords[j] == RecordOf(s.info[n]);
      CountsOfTried(s, t, n, m);
      SameRecord(e, t, m);
    } else {
      assert n in NewIds(s);
      var ids := WrittenIds(s, false);
      var i :| 0 <= i < |ids| && ids[i] == n;
      assert RecordOf(e.info[i]) == f.newRecords[i] == RecordOf(s.info[n]);
      SameReferences(s, t, i);
      SameRecord(e, t, i);
    }
  }

  lemma SameRecord(e: State, t: State, m: int)
    requires SameEntries(e, t) && m in e.info
    ensures m in t.info && RecordOf(t.info[m]) == RecordOf(e.info[m]) && t.info[m].inTried == e.info[m].inTried
  {
    var x, y := e.info[m].(refCount := 0), t.info[m].(refCount := 0);
    assert x == y && RecordOf(x) == RecordOf(e.info[m]) && RecordOf(y) == RecordOf(t.info[m]);
    assert x.inTried == e.info[m].inTried && y.inTried == t.info[m].inTried;
  }

  // Tried entries have no references.
  lemma CountsOfTried(s: State, t: State, n: int, m: int)
    requires Inv(s, {}) && n in s.info && s.info[n].inTried && ReadUpTo(s, t, NEW_BUCKET_COUNT, 0)
    requires SameEntries(Entered(s.hash, SavedOf(s)), t) && m in Entered(s.hash, SavedOf(s)).info
    requires Entered(s.hash, SavedOf(s)).info[m].inTried
    ensures m in t.info && t.info[m].refCount == s.info[n].refCount
  {
    hide Entered, IndexOk, TriedOk, NewOk, CountsOk, SlotsBefore, Row, WrittenIds;
    assert EntryOk(s.info[n], n in {});
    SameRecord(Entered(s.hash, SavedOf(s)), t, m);
    assert EntryOk(t.info[m], m in Holes(t));
  }

  lemma AddressesMatch(s: State, t: State)
    requires Inv(s, {}) && Inv(t, {}) && ReadUpTo(s, t, NEW_BUCKET_COUNT, 0) &&
              SameEntries(Entered(s.hash, SavedOf(s)), t)
    ensures t.addr.Keys == s.addr.Keys && forall a :: a in s.addr ==> SameEntry(s, t, a)
  {
    hide Entered, TriedOk, NewOk, CountsOk, WrittenIds, Row, ReadUpTo, EntryOk;
    forall a | a in s.addr ensures a in t.addr && SameEntry(s, t, a) {
      var n := s.addr[a];
      EntryReproduced(s, t, n);
      var m :| m in t.info && RecordOf(t.info[m]) == RecordOf(s.info[n]) && t.info[m].refCount == s.info[n].refCount
               && t.info[m].inTried == s.info[n].inTried;
      assert EntryIndexed(t, m) && RecordOf(t.info[m]).addr == RecordOf(s.info[n]).addr;
    }
    forall a | a in t.addr ensures a in s.addr {
      AddressKnown(s, t, t.addr[a]);
    }
    assert forall a :: a in t.addr.Keys <==> a in s.addr.Keys;
  }

  lemma AddressKnown(s: State, t: State, m: int)
    requires Inv(s, {}) && m in t.info && SameEntries(Entered(s.hash, SavedOf(s)), t)
    ensures t.info[m].addr.ip in s.addr
  {
    hide Entered, TriedOk, NewOk, CountsOk, WrittenIds, Row, EntryOk;
    SavedEntered(s);
    var e, f := Entered(s.hash, SavedOf(s)), SavedOf(s);
    SameRecord(e, t, m);
    assert RecordOf(t.info[m]).addr == RecordOf(e.info[m]).addr;
    if m < |f.newRecords| {
      assert RecordOf(e.info[m]) == f.newRecords[m];
      assert EntryIndexed(s, WrittenIds(s, false)[m]);
    } else {
      var j := m - |f.newRecords|;
      assert m == |f.newRecords| + j && RecordOf(e.info[m]) == f.triedRecords[j];
      assert EntryIndexed(s, WrittenIds(s, true)[j]);
    }
  }

  lemma NewTablesMatch(s: State, t: State)
    requires Inv(s, {}) && ReadUpTo(s, t, NEW_BUCKET_COUNT, 0)
    ensures t.newTable.Keys == s.newTable.Keys
    ensures forall k :: k in s.newTable ==> k in t.newTable && SameAddress(s, s.newTable[k], t, t.newTable[k])
  {
    hide Inv, Loadable, WrittenIds, Row, Rank, SlotsBefore;
    forall k | k in s.newTable ensures k in t.newTable && SameAddress(s, s.newTable[k], t, t.newTable[k]) {
      SlotFacts(s, k);
      InAll(s, k);
      var index := Rank(s, s.newTable[k]);
      SavedRecord(s, index);
      RecordAt(t, SavedOf(s).newRecords, index);
    }
    forall k | k in t.newTable ensures k in s.newTable {
      BeforeAt(s, NEW_BUCKET_COUNT, 0, k);
    }
  }

  lemma TriedTablesMatch(s: State, t: State)
    requires Inv(s, {}) && Inv(t, {}) && t.hash == s.hash && t.key == s.key && t.addr.Keys == s.addr.Keys
    requires forall a :: a in s.addr ==> SameEntry(s, t, a)
    ensures t.triedTable.Keys == s.triedTable.Keys
    ensures forall k :: k in s.triedTable ==> k in t.triedTable && SameAddress(s, s.triedTable[k], t, t.triedTable[k])
  {
    hide NewOk, CountsOk, EntryOk, TriedSlot;
    forall k | k in s.triedTable ensures k in t.triedTable && SameAddress(s, s.triedTable[k], t, t.triedTable[k]) {
      assert EntryIndexed(s, s.triedTable[k]);
      MatchingTried(s, t, k, s.info[s.triedTable[k]].addr.ip);
    }
    forall k | k in t.triedTable ensures k in s.triedTable {
      var m := t.triedTable[k];
      assert EntryIndexed(t, m);
      var a := t.info[m].addr.ip;
      assert SameEntry(s, t, a);
      var n := s.addr[a];
      assert RecordOf(s.info[n]).addr == RecordOf(t.info[m]).addr;
      assert s.info[n].inTried && TriedSlot(s.hash, s.key, s.info[n].addr) == k;
    }
    assert forall k :: k in t.triedTable.Keys <==> k in s.triedTable.Keys;
  }

  lemma MatchingTried(s: State, t: State, k: Slot, a: NetAddr)
    requires Inv(s, {}) && Inv(t, {}) && t.hash == s.hash && t.key == s.key
    requires k in s.triedTable && a == s.info[s.triedTable[k]].addr.ip && a in s.addr && a in t.addr &&
              SameEntry(s, t, a)
    ensures k in t.triedTable && SameAddress(s, s.triedTable[k], t, t.triedTable[k])
  {
    hide NewOk, CountsOk, EntryOk, TriedSlot;
    var n, m := s.triedTable[k], t.addr[a];
    assert EntryIndexed(s, n);
    assert RecordOf(s.info[n]).addr == RecordOf(t.info[m]).addr;
    assert t.info[m].inTried && TriedSlot(t.hash, t.key, t.info[m].addr) == k;
  }

  /** Saving and loading any consistent manager restores it, with no entry lost or pruned. */
  lemma RoundTrip(s: State)
    requires Inv(s, {})
    ensures WellFormed(SavedOf(s)) && Inv(Loaded(s.hash, SavedOf(s)), {})
    ensures SameUpToIds(s, Loaded(s.hash, SavedOf(s)))
  {
    hide Inv, Entered, Filled, Loaded, WellFormed, WrittenIds, Row, SameEntry, SameAddress, ReadUpTo, SameEntries;
    SavedIsWellFormed(s);
    LoadedInv(s.hash, SavedOf(s));
    NothingPruned(s);
    AllRead(s);
    var t := Loaded(s.hash, SavedOf(s));
    AddressesMatch(s, t);
    NewTablesMatch(s, t);
    HashKept(s, t);
    TriedTablesMatch(s, t);
  }

  lemma HashKept(s: State, t: State)
    requires Inv(s, {}) && ReadUpTo(s, t, NEW_BUCKET_COUNT, 0) && SameEntries(Entered(s.hash, SavedOf(s)), t)
    ensures t.hash == s.hash && t.key == s.key && t.nNew == s.nNew && t.nTried == s.nTried
  {
    hide Inv, Entered, WrittenIds, Row, Loadable;
    SavedEntered(s);
    IdsCounted(s);
  }
}
