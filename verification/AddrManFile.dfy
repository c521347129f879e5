/** The address manager's saved form (Serialize and Unserialize in src/addrman.h) on values. */
module AddrManFile {
  import opened AddrManState

  /** What of a CAddrInfo is written. */
  datatype Record = Record(addr: Service, time: int, services: bv64, source: NetAddr, lastSuccess: int, attempts: int)

  function RecordOf(e: Info): Record {
    Record(e.addr, e.time, e.services, e.source, e.lastSuccess, e.attempts)
  }

  function InfoOf(r: Record): Info {
    Info(r.addr, r.time, r.services, r.source, r.lastSuccess, 0, 0, r.attempts, 0, false, 0)
  }

  /** The stream, field by field; each bucket's row is preceded by its length there. */
  datatype File = File(version: int, keySize: int, key: Key, nNew: int, nTried: int, uBuckets: int,
                       newRecords: seq<Record>, triedRecords: seq<Record>, buckets: seq<seq<int>>)

  const BIT30 := 0x4000_0000

  // n ^ (1 << 30)
  function FlipBit30(n: nat): nat {
    if n / BIT30 % 2 == 1 then n - BIT30 else n + BIT30
  }

  // ---------- Saving ----------

  /** Ids below n that are written: referenced ones for the new part, tried ones for the other. */
  function IdsBelow(s: State, n: nat, tried: bool): seq<int> {
    if n == 0 then []
    else IdsBelow(s, n - 1, tried) + if n - 1 in s.info && Written(s.info[n - 1], tried) then [n - 1] else []
  }

  predicate Written(e: Info, tried: bool) {
    if tried then e.inTried else e.refCount != 0
  }

  /** mapUnkIds: how many new entries are written before this one. */
  function Rank(s: State, n: int): nat {
    if n < 0 then 0 else |IdsBelow(s, n, false)|
  }

  function RecordsOf(s: State, ids: seq<int>): seq<Record>
    requires forall i :: 0 <= i < |ids| ==> ids[i] in s.info
  {
    seq(|ids|, i requires 0 <= i < |ids| => RecordOf(s.info[ids[i]]))
  }

  /** The indices in the first p positions of a bucket. */
  function Row(s: State, b: int, p: nat): seq<int> {
    if p == 0 then []
    else Row(s, b, p - 1) + if Slot(b, p - 1) in s.newTable then [Rank(s, s.newTable[Slot(b, p - 1)])] else []
  }

  function WrittenIds(s: State, tried: bool): (ids: seq<int>)
    ensures forall i :: 0 <= i < |ids| ==> ids[i] in s.info
  {
    if s.idCount < 0 then []
    else
      IdsKnown(s, s.idCount, tried);
      IdsBelow(s, s.idCount, tried)
  }

  function SavedOf(s: State): File {
    File(1, 32, s.key, s.nNew, s.nTried, FlipBit30(NEW_BUCKET_COUNT),
         RecordsOf(s, WrittenIds(s, false)), RecordsOf(s, WrittenIds(s, true)),
         seq(NEW_BUCKET_COUNT, b => Row(s, b, BUCKET_SIZE)))
  }

  ghost predicate AscendingIds(s: State, ids: seq<int>, n: nat, tried: bool) {
    && (forall i :: 0 <= i < |ids| ==> 0 <= ids[i] < n && ids[i] in s.info && Written(s.info[ids[i]], tried))
    && (forall i, j :: 0 <= i < j < |ids| ==> ids[i] < ids[j])
  }

  lemma {:induction false} IdsKnown(s: State, n: nat, tried: bool)
    ensures AscendingIds(s, IdsBelow(s, n, tried), n, tried)
  {
    if n > 0 { IdsKnown(s, n - 1, tried); }
  }

  lemma {:induction false} IdsComplete(s: State, n: nat, tried: bool, m: nat)
    requires m < n && m in s.info && Written(s.info[m], tried)
    ensures m in IdsBelow(s, n, tried)
  {
    if m < n - 1 { IdsComplete(s, n - 1, tried, m); }
  }

  /** Each written new entry stands at its rank. */
  lemma {:induction false} RankIndex(s: State, n: nat, m: nat)
    requires n < m && n in s.info && Written(s.info[n], false)
    ensures Rank(s, n) < |IdsBelow(s, m, false)| && IdsBelow(s, m, false)[Rank(s, n)] == n
  {
    if n < m - 1 { RankIndex(s, n, m - 1); }
  }

  // ---------- Loading ----------

  function Empty(h: Hashes, key: Key): State {
    State(h, key, 0, map[], map[], [], map[], map[], 0, 0, 1, {})
  }

  function LoadNew(s: State, r: Record, useTable: bool): State {
    var t := Created(s, InfoOf(r));
    var u := NewSlot(s.hash, s.key, r.addr, r.source);
    if useTable || u in t.newTable then t else Referenced(t, s.idCount, u)
  }

  function LoadAllNew(s: State, rs: seq<Record>, useTable: bool): State {
    if rs == [] then s else LoadNew(LoadAllNew(s, rs[..|rs| - 1], useTable), rs[|rs| - 1], useTable)
  }

  function LoadTried(s: State, r: Record): State {
    if TriedSlot(s.hash, s.key, r.addr) in s.triedTable then s else Promoted(Created(s, InfoOf(r)), s.idCount)
  }

  function LoadAllTried(s: State, rs: seq<Record>): State {
    if rs == [] then s else LoadTried(LoadAllTried(s, rs[..|rs| - 1]), rs[|rs| - 1])
  }

  // One index of a bucket; those outside the new entries are skipped.
  function LoadSlot(s: State, b: int, index: int, nNew: int, useTable: bool): State {
    if !(0 <= index < nNew && index in s.info && useTable) then s
    else
      var k := NewSlotIn(s.hash, s.key, s.info[index].addr, b);
      if k !in s.newTable && s.info[index].refCount < NEW_BUCKETS_PER_ADDRESS then Referenced(s, index, k) else s
  }

  function LoadRow(s: State, b: int, row: seq<int>, nNew: int, useTable: bool): State {
    if row == [] then s
    else LoadSlot(LoadRow(s, b, row[..|row| - 1], nNew, useTable), b, row[|row| - 1], nNew, useTable)
  }

  function LoadRows(s: State, rows: seq<seq<int>>, nNew: int, useTable: bool): State {
    if rows == [] then s
    else LoadRow(LoadRows(s, rows[..|rows| - 1], nNew, useTable), |rows| - 1, rows[|rows| - 1], nNew, useTable)
  }

  function Holes(s: State): set<int> {
    set n | n in s.info && !s.info[n].inTried && s.info[n].refCount == 0
  }

  /** Everything in place but for new entries that no slot refers to, and for mapAddr. */
  ghost predicate Loadable(s: State) {
    && s.idCount >= 0 && RandomOk(s) && TriedOk(s) && NewOk(s) && CountsOk(s)
    && forall n :: n in s.info ==> EntryOk(s.info[n], n in Holes(s))
  }

  /** New entries below n without a reference are removed. */
  ghost function Pruned(s: State, n: nat): State {
    if n == 0 then s
    else
      var t := Pruned(s, n - 1);
      if n - 1 in Holes(t) && RandomOk(t) then Erased(t, n - 1) else t
  }

  function HolesBelow(s: State, n: int): set<int> { set m | m in Holes(s) && m < n }
  function AddressesOf(s: State, ids: set<int>): set<NetAddr> { set m | m in ids && m in s.info :: s.info[m].addr.ip }

  /** t is s without the holes below n, and without their addresses. */
  ghost predicate PrunedTo(s: State, n: int, t: State) {
    && t.hash == s.hash && t.key == s.key && t.idCount == s.idCount
    && t.info.Keys == s.info.Keys - HolesBelow(s, n) && t.addr == s.addr - AddressesOf(s, HolesBelow(s, n))
    && (forall m :: m in t.info ==> t.info[m].(randomPos := 0) == s.info[m].(randomPos := 0))
  }

  lemma {:induction false} PrunedLoadable(s: State, n: nat)
    requires Loadable(s)
    ensures Loadable(Pruned(s, n)) && PrunedTo(s, n, Pruned(s, n))
    ensures Holes(Pruned(s, n)) == Holes(s) - HolesBelow(s, n)
  {
    hide Loadable, Holes, HolesBelow, Erased, RandomOk, PrunedTo;
    if n == 0 {
      NotPruned(s);
    } else {
      PrunedLoadable(s, n - 1);
      PruneStep(s, Pruned(s, n - 1), n - 1);
    }
  }

  lemma NotPruned(s: State)
    requires Loadable(s)
    ensures HolesBelow(s, 0) == {} && PrunedTo(s, 0, s)
  {
    hide Loadable, HolesBelow, AddressesOf;
    NoHolesBelow(s);
    NoAddresses(s);
    assert s.info.Keys - {} == s.info.Keys && s.addr - {} == s.addr;
  }

  lemma NoHolesBelow(s: State)
    requires Loadable(s)
    ensures HolesBelow(s, 0) == {}
  {
    hide TriedOk, NewOk, CountsOk, EntryOk;
    forall m | m in s.info ensures m >= 0 {
      assert EntryPlaced(s, m);
    }
  }

  lemma NoAddresses(s: State)
    ensures AddressesOf(s, {}) == {}
  {
  }

  lemma PruneStep(s: State, t: State, n: int)
    requires Loadable(t) && PrunedTo(s, n, t) && Holes(t) == Holes(s) - HolesBelow(s, n)
    ensures RandomOk(t) && (n in Holes(t) ==> n in t.info)
    ensures var u := if n in Holes(t) then Erased(t, n) else t;
            Loadable(u) && PrunedTo(s, n + 1, u) && Holes(u) == Holes(s) - HolesBelow(s, n + 1)
  {
    hide RandomOk, TriedOk, NewOk, CountsOk, EntryOk, Erased;
    if n in Holes(t) {
      ErasedLoadable(t, n);
      ErasedEffect(t, n);
      assert HolesBelow(s, n + 1) == HolesBelow(s, n) + {n};
      AddressesMore(s, t, n);
      assert PrunedTo(s, n + 1, Erased(t, n)) by {
        forall m | m in Erased(t, n).info ensures Erased(t, n).info[m].(randomPos := 0) == s.info[m].(randomPos := 0) {
          assert t.info[m].(randomPos := 0) == s.info[m].(randomPos := 0);
        }
      }
    } else {
      assert HolesBelow(s, n + 1) == HolesBelow(s, n);
    }
  }

  lemma AddressesMore(s: State, t: State, n: int)
    requires PrunedTo(s, n, t) && n in Holes(s) && n in t.info
    ensures AddressesOf(s, HolesBelow(s, n) + {n}) == AddressesOf(s, HolesBelow(s, n)) + {t.info[n].addr.ip}
  {
    assert t.info[n].(randomPos := 0) == s.info[n].(randomPos := 0);
    assert t.info[n].(randomPos := 0).addr == t.info[n].addr && s.info[n].(randomPos := 0).addr == s.info[n].addr;
  }

  lemma ErasedLoadable(s: State, n: int)
    requires Loadable(s) && n in Holes(s)
    ensures Loadable(Erased(s, n)) && Holes(Erased(s, n)) == Holes(s) - {n}
  {
    hide RandomOk, Erased, TriedOk, NewOk, CountsOk, Lacks;
    ErasedEffect(s, n);
    var t := Erased(s, n);
    forall m | m in t.info ensures SameStanding(s.info[m], t.info[m]) {
      var e, f := s.info[m].(randomPos := 0), t.info[m].(randomPos := 0);
      assert e == f && SameStanding(s.info[m], e) && SameStanding(f, t.info[m]);
    }
    LacksOne(s, n, t);
    LacksTables(s, n, t);
    LacksCounts(s, n, t);
    assert Holes(t) == Holes(s) - {n};
    forall m | m in t.info ensures EntryOk(t.info[m], m in Holes(t)) {
      assert EntryOk(s.info[m], m in Holes(s));
    }
  }

  // t has one entry less, and the others are where they were.
  ghost predicate Lacks(s: State, n: int, t: State) {
    && (forall m :: m in t.info <==> m in s.info && m != n) && t.newTable == s.newTable && t.triedTable == s.triedTable
    && t.hash == s.hash && t.key == s.key && t.nTried == s.nTried && t.nNew == s.nNew - 1
    && forall m :: m in t.info ==> SameStanding(s.info[m], t.info[m])
  }

  predicate SameStanding(e: Info, f: Info) {
    f.addr == e.addr && f.inTried == e.inTried && f.refCount == e.refCount
  }

  lemma LacksOne(s: State, n: int, t: State)
    requires t.info.Keys == s.info.Keys - {n}
    requires t == s.(info := t.info, random := t.random, addr := t.addr, nNew := s.nNew - 1)
    requires forall m :: m in t.info ==> SameStanding(s.info[m], t.info[m])
    ensures Lacks(s, n, t)
  {
    forall m ensures m in t.info <==> m in s.info && m != n {
      assert m in t.info.Keys <==> m in s.info.Keys - {n};
    }
  }

  lemma LacksTables(s: State, n: int, t: State)
    requires Lacks(s, n, t) && n in Holes(s) && TriedOk(s) && NewOk(s)
    ensures TriedOk(t) && NewOk(t)
  {
    hide TriedSlot, NewSlotIn;
    assert Refs(s, n) == {};
    LacksTried(s, n, t);
    forall k | k in t.newTable ensures t.newTable[k] != n {
      assert k in Refs(s, s.newTable[k]);
    }
    forall m | m in t.info ensures t.info[m].refCount == |Refs(t, m)| {
      assert Refs(t, m) == Refs(s, m) && SameStanding(s.info[m], t.info[m]);
    }
  }

  lemma LacksTried(s: State, n: int, t: State)
    requires Lacks(s, n, t) && n in Holes(s) && TriedOk(s)
    ensures TriedOk(t)
  {
    hide TriedSlot;
    forall k | k in t.triedTable
      ensures t.triedTable[k] in t.info && t.info[t.triedTable[k]].inTried &&
               k == TriedSlot(t.hash, t.key, t.info[t.triedTable[k]].addr)
    {
      var m := s.triedTable[k];
      assert m in s.info && m != n;
      assert m in t.info && SameStanding(s.info[m], t.info[m]);
    }
    forall m | m in t.info && t.info[m].inTried
      ensures var k := TriedSlot(t.hash, t.key, t.info[m].addr); k in t.triedTable && t.triedTable[k] == m
    {
      assert SameStanding(s.info[m], t.info[m]) && m in s.info;
    }
  }

  lemma LacksCounts(s: State, n: int, t: State)
    requires Lacks(s, n, t) && n in Holes(s) && CountsOk(s)
    ensures CountsOk(t)
  {
    forall m ensures (m in NewIds(t) <==> m in NewIds(s) && m != n) && (m in TriedIds(t) <==> m in TriedIds(s)) {
      if m in t.info { assert SameStanding(s.info[m], t.info[m]); }
    }
    assert NewIds(t) == NewIds(s) - {n} && TriedIds(t) == TriedIds(s);
  }

  // ---------- Files that load to a consistent manager ----------

  /** All the counted parts are there. */
  ghost predicate Counted(f: File) {
    && f.uBuckets >= 0 && f.version >= 0
    && f.nNew == |f.newRecords| && f.nTried == |f.triedRecords| && |f.buckets| == Buckets(f)
  }

  /** And the records' addresses are all different, as in every file that was saved. */
  ghost predicate WellFormed(f: File) {
    Counted(f) && f.key != 0 && DistinctAddresses(f.newRecords + f.triedRecords)
  }

  ghost predicate DistinctAddresses(rs: seq<Record>) {
    forall i, j :: 0 <= i < j < |rs| ==> rs[i].addr.ip != rs[j].addr.ip
  }

  function Buckets(f: File): nat
    requires f.uBuckets >= 0
  {
    if f.version != 0 then FlipBit30(f.uBuckets) else f.uBuckets
  }

  // The saved slots are used only if the format and the number of buckets are today's.
  predicate UsesTable(f: File)
    requires f.uBuckets >= 0
  {
    f.version == 1 && Buckets(f) == NEW_BUCKET_COUNT
  }

  function Entered(h: Hashes, f: File): State
    requires f.uBuckets >= 0
  {
    LoadAllTried(LoadAllNew(Empty(h, f.key), f.newRecords, UsesTable(f)), f.triedRecords)
  }

  function Filled(h: Hashes, f: File): State
    requires f.uBuckets >= 0
  {
    LoadRows(Entered(h, f), f.buckets, f.nNew, UsesTable(f))
  }

  lemma EmptyLoadable(h: Hashes, key: Key)
    ensures Loadable(Empty(h, key)) && AddrOk(Empty(h, key))
  {
    var s := Empty(h, key);
    assert NewIds(s) == {} && TriedIds(s) == {} && Holes(s) == {};
  }

  /** Every address of an entry is known, and as that of an entry that has it. */
  ghost predicate AddressesKnown(s: State) {
    && (forall n :: n in s.info ==> s.info[n].addr.ip in s.addr)
    && (forall a :: a in s.addr ==> s.addr[a] in s.info && s.info[s.addr[a]].addr.ip == a)
  }

  // The effect of a further record on mapAddr.
  ghost predicate AddressAdded(s: State, a: NetAddr, t: State) {
    && (AddressesKnown(s) ==> AddressesKnown(t))
    && (AddrOk(s) && a !in s.addr ==> AddrOk(t))
    && t.addr.Keys <= s.addr.Keys + {a}
  }

  lemma CreatedAddress(s: State, e: Info)
    requires s.idCount !in s.info
    ensures AddressAdded(s, e.addr.ip, Created(s, e))
  {
  }

  lemma ReferencedLoadable(s: State, n: int, k: Slot)
    requires Loadable(s) && n in s.info && !s.info[n].inTried && s.info[n].refCount < NEW_BUCKETS_PER_ADDRESS
    requires k !in s.newTable && 0 <= k.bucket < NEW_BUCKET_COUNT &&
              k == NewSlotIn(s.hash, s.key, s.info[n].addr, k.bucket)
    ensures var t := Referenced(s, n, k);
            Loadable(t) && Holes(t) == Holes(s) - {n} && AddressAdded(s, s.info[n].addr.ip, t)
  {
    hide RandomOk, TriedOk, NewOk, CountsOk, TriedSlot, NewSlotIn;
    var t := Referenced(s, n, k);
    ReferencedNewOk(s, n, k);
    ReferencedTried(s, n, k);
    MovedRandom(s, n, t.info[n], t);
    CountNotNegative(s, n);
    assert Holes(t) == Holes(s) - {n};
    forall m | m in t.info ensures EntryOk(t.info[m], m in Holes(t)) {
      assert EntryOk(s.info[m], m in Holes(s));
    }
  }

  lemma ReferencedTried(s: State, n: int, k: Slot)
    requires TriedOk(s) && CountsOk(s) && n in s.info
    ensures TriedOk(Referenced(s, n, k)) && CountsOk(Referenced(s, n, k))
  {
    hide TriedSlot;
    var t := Referenced(s, n, k);
    assert NewIds(t) == NewIds(s) && TriedIds(t) == TriedIds(s);
  }

  lemma CountNotNegative(s: State, n: int)
    requires NewOk(s) && n in s.info
    ensures s.info[n].refCount >= 0
  {
  }

  lemma CreatedLoadable(s: State, e: Info)
    requires Loadable(s) && e.refCount == 0 && !e.inTried
    ensures s.idCount !in s.info && Loadable(Created(s, e)) && Holes(Created(s, e)) == Holes(s) + {s.idCount}
  {
    hide RandomOk, TriedOk, NewOk, CountsOk;
    CreatedRandom(s, e);
    CreatedTables(s, e);
    CreatedCounts(s, e);
    var t := Created(s, e);
    assert Holes(t) == Holes(s) + {s.idCount};
    forall m | m in t.info ensures EntryOk(t.info[m], m in Holes(t)) {
      if m != s.idCount { assert EntryOk(s.info[m], m in Holes(s)); }
    }
  }

  lemma LoadNewLoadable(s: State, r: Record, useTable: bool)
    requires Loadable(s)
    ensures Loadable(LoadNew(s, r, useTable)) && AddressAdded(s, r.addr.ip, LoadNew(s, r, useTable))
    ensures LoadNew(s, r, useTable).idCount == s.idCount + 1
  {
    hide Loadable, Holes, NewSlotIn, NewSlot, AddressesKnown, AddrOk;
    CreatedLoadable(s, InfoOf(r));
    CreatedAddress(s, InfoOf(r));
    var t := Created(s, InfoOf(r));
    var u := NewSlot(s.hash, s.key, r.addr, r.source);
    if !useTable && u !in t.newTable {
      NewSlotShape(s.hash, s.key, r.addr, r.source);
      ReferencedLoadable(t, s.idCount, u);
      ReferencedAddress(t, s.idCount, u);
    }
  }

  lemma ReferencedAddress(s: State, n: int, k: Slot)
    requires n in s.info
    ensures (AddrOk(s) ==> AddrOk(Referenced(s, n, k))) && (AddressesKnown(s) ==> AddressesKnown(Referenced(s, n, k)))
  {
  }

  lemma LoadTriedLoadable(s: State, r: Record)
    requires Loadable(s)
    ensures Loadable(LoadTried(s, r)) && AddressAdded(s, r.addr.ip, LoadTried(s, r))
  {
    hide Loadable, Holes, TriedSlot, AddressesKnown, AddrOk;
    if TriedSlot(s.hash, s.key, r.addr) !in s.triedTable {
      CreatedLoadable(s, InfoOf(r));
      CreatedAddress(s, InfoOf(r));
      PromotedLoadable(Created(s, InfoOf(r)), s.idCount);
    }
  }

  lemma PromotedLoadable(s: State, n: int)
    requires Loadable(s) && n in Holes(s) && TriedSlot(s.hash, s.key, s.info[n].addr) !in s.triedTable
    ensures var t := Promoted(s, n);
            && Loadable(t)
            && (AddrOk(s) ==> AddrOk(t)) && (AddressesKnown(s) ==> AddressesKnown(t))
  {
    hide RandomOk, TriedOk, NewOk, CountsOk, TriedSlot;
    var t := Promoted(s, n);
    MovedRandom(s, n, t.info[n], t);
    PromotedTables(s, n);
    PromotedCounts(s, n);
    assert Holes(t) == Holes(s) - {n};
    forall m | m in t.info ensures EntryOk(t.info[m], m in Holes(t)) {
      assert EntryOk(s.info[m], m in Holes(s));
    }
  }

  lemma LoadSlotLoadable(s: State, b: int, index: int, nNew: int, useTable: bool)
    requires Loadable(s) && (useTable ==> 0 <= b < NEW_BUCKET_COUNT)
    requires forall n :: 0 <= n < nNew && n in s.info ==> !s.info[n].inTried
    ensures var t := LoadSlot(s, b, index, nNew, useTable);
            Loadable(t) && SameEntries(s, t)
  {
    hide Loadable, Holes, AddressAdded, SameEntries;
    var t := LoadSlot(s, b, index, nNew, useTable);
    if t != s {
      var k := NewSlotIn(s.hash, s.key, s.info[index].addr, b);
      ReferencedLoadable(s, index, k);
      ReferencedSame(s, index, k);
    } else {
      SameEntriesSelf(s);
    }
  }

  lemma ReferencedSame(s: State, n: int, k: Slot)
    requires n in s.info
    ensures SameEntries(s, Referenced(s, n, k))
  {
  }

  lemma {:induction false} LoadAllNewLoadable(s: State, rs: seq<Record>, useTable: bool)
    requires Loadable(s) && AddressesKnown(s)
    ensures var t := LoadAllNew(s, rs, useTable);
            && Loadable(t) && t.idCount == s.idCount + |rs| && AddressesKnown(t)
            && t.addr.Keys <= s.addr.Keys + AddressesIn(rs)
            && (AddrOk(s) && DistinctAddresses(rs) && s.addr.Keys !! AddressesIn(rs) ==> AddrOk(t))
  {
    hide Loadable, LoadNew, AddressesKnown, AddrOk;
    if rs != [] {
      var init, r := rs[..|rs| - 1], rs[|rs| - 1];
      LoadAllNewLoadable(s, init, useTable);
      LoadNewLoadable(LoadAllNew(s, init, useTable), r, useTable);
      AddressesSnoc(rs);
    }
  }

  lemma {:induction false} LoadAllTriedLoadable(s: State, rs: seq<Record>)
    requires Loadable(s) && AddressesKnown(s)
    ensures var t := LoadAllTried(s, rs);
            && Loadable(t) && AddressesKnown(t) && t.addr.Keys <= s.addr.Keys + AddressesIn(rs)
            && (AddrOk(s) && DistinctAddresses(rs) && s.addr.Keys !! AddressesIn(rs) ==> AddrOk(t))
  {
    hide Loadable, LoadTried, AddressesKnown, AddrOk;
    if rs != [] {
      var init, r := rs[..|rs| - 1], rs[|rs| - 1];
      LoadAllTriedLoadable(s, init);
      LoadTriedLoadable(LoadAllTried(s, init), r);
      AddressesSnoc(rs);
    }
  }

  function AddressesIn(rs: seq<Record>): set<NetAddr> { set i | 0 <= i < |rs| :: rs[i].addr.ip }

  lemma AddressesSnoc(rs: seq<Record>)
    requires rs != []
    ensures var init, r := rs[..|rs| - 1], rs[|rs| - 1];
            && AddressesIn(rs) == AddressesIn(init) + {r.addr.ip}
            && (DistinctAddresses(rs) ==> DistinctAddresses(init) && r.addr.ip !in AddressesIn(init))
  {
    var init, r := rs[..|rs| - 1], rs[|rs| - 1];
    assert forall i :: 0 <= i < |init| ==> init[i] == rs[i];
    forall a | a in AddressesIn(rs) ensures a in AddressesIn(init) + {r.addr.ip} {
      var i :| 0 <= i < |rs| && rs[i].addr.ip == a;
      if i < |init| { assert init[i].addr.ip == a; }
    }
    forall a | a in AddressesIn(init) + {r.addr.ip} ensures a in AddressesIn(rs) {
      if a in AddressesIn(init) {
        var i :| 0 <= i < |init| && init[i].addr.ip == a;
        assert rs[i].addr.ip == a;
      } else {
        assert rs[|rs| - 1].addr.ip == a;
      }
    }
  }

  /** The first entries are the new records in order, with nothing tried among them. */
  ghost predicate NewFirst(t: State, rs: seq<Record>) {
    forall i :: 0 <= i < |rs| ==> i in t.info && RecordOf(t.info[i]) == rs[i] && !t.info[i].inTried
  }

  // A state that holds exactly the new records.
  ghost predicate OnlyNew(t: State, h: Hashes, key: Key, rs: seq<Record>, useTable: bool) {
    && NewFirst(t, rs) && t.idCount == |rs| == t.nNew && (forall n :: n in t.info <==> 0 <= n < |rs|)
    && t.triedTable == map[] && t.nTried == 0 && t.hash == h && t.key == key
    && (useTable ==> t.newTable == map[])
  }

  lemma LoadNewEntry(s: State, h: Hashes, key: Key, rs: seq<Record>, r: Record, useTable: bool)
    requires OnlyNew(s, h, key, rs, useTable)
    ensures OnlyNew(LoadNew(s, r, useTable), h, key, rs + [r], useTable)
  {
    hide NewSlot, NewSlotIn;
    var t := LoadNew(s, r, useTable);
    forall i | 0 <= i < |rs + [r]| ensures i in t.info && RecordOf(t.info[i]) == (rs + [r])[i] && !t.info[i].inTried {
      if i < |rs| { assert i in s.info && t.info[i] == s.info[i]; }
    }
  }

  lemma {:induction false} LoadAllNewEntries(h: Hashes, key: Key, rs: seq<Record>, useTable: bool)
    ensures OnlyNew(LoadAllNew(Empty(h, key), rs, useTable), h, key, rs, useTable)
  {
    hide LoadNew, OnlyNew;
    if rs == [] {
      NothingNew(h, key, useTable);
    } else {
      var init := rs[..|rs| - 1];
      LoadAllNewEntries(h, key, init, useTable);
      LoadNewEntry(LoadAllNew(Empty(h, key), init, useTable), h, key, init, rs[|rs| - 1], useTable);
      assert rs == init + [rs[|rs| - 1]];
    }
  }

  lemma NothingNew(h: Hashes, key: Key, useTable: bool)
    ensures OnlyNew(Empty(h, key), h, key, [], useTable)
  {
  }

  lemma {:induction false} LoadAllTriedKeeps(s: State, rs: seq<Record>)
    ensures var t := LoadAllTried(s, rs);
            && t.idCount >= s.idCount && t.newTable == s.newTable && t.hash == s.hash && t.key == s.key &&
                t.nNew == s.nNew
            && (forall n :: n in s.info && n < s.idCount ==> n in t.info && t.info[n] == s.info[n])
  {
    hide TriedSlot;
    if rs != [] { LoadAllTriedKeeps(s, rs[..|rs| - 1]); }
  }

  /** Loading slots changes nothing of the entries but their reference counts. */
  ghost predicate SameEntries(s: State, t: State) {
    && t.info.Keys == s.info.Keys && t.addr == s.addr && t.hash == s.hash && t.key == s.key
    && t.idCount == s.idCount && t.nNew == s.nNew && t.nTried == s.nTried && t.triedTable == s.triedTable
    && forall n :: n in s.info ==> t.info[n].(refCount := 0) == s.info[n].(refCount := 0)
  }

  lemma SameEntriesNew(s: State, t: State, rs: seq<Record>)
    requires SameEntries(s, t) && NewFirst(s, rs)
    ensures NewFirst(t, rs)
  {
    forall i | 0 <= i < |rs| ensures i in t.info && RecordOf(t.info[i]) == rs[i] && !t.info[i].inTried {
      assert i in s.info;
      var e, f := s.info[i].(refCount := 0), t.info[i].(refCount := 0);
      assert e == f && RecordOf(e) == RecordOf(s.info[i]) && RecordOf(f) == RecordOf(t.info[i]);
      assert e.inTried == s.info[i].inTried && f.inTried == t.info[i].inTried;
    }
  }

  lemma {:induction false} LoadRowLoadable(s: State, b: int, row: seq<int>, rs: seq<Record>, useTable: bool)
    requires Loadable(s) && NewFirst(s, rs) && (useTable ==> 0 <= b < NEW_BUCKET_COUNT)
    ensures var t := LoadRow(s, b, row, |rs|, useTable); Loadable(t) && NewFirst(t, rs) && SameEntries(s, t)
  {
    hide Loadable, LoadSlot, SameEntries, NewFirst;
    if row == [] {
      SameEntriesSelf(s);
    } else {
      LoadRowLoadable(s, b, row[..|row| - 1], rs, useTable);
      var t := LoadRow(s, b, row[..|row| - 1], |rs|, useTable);
      LoadSlotStep(t, b, row[|row| - 1], rs, useTable);
      SameEntriesTransitive(s, t, LoadSlot(t, b, row[|row| - 1], |rs|, useTable));
    }
  }

  lemma LoadSlotStep(s: State, b: int, index: int, rs: seq<Record>, useTable: bool)
    requires Loadable(s) && NewFirst(s, rs) && (useTable ==> 0 <= b < NEW_BUCKET_COUNT)
    ensures var t := LoadSlot(s, b, index, |rs|, useTable); Loadable(t) && NewFirst(t, rs) && SameEntries(s, t)
  {
    hide Loadable;
    LoadSlotLoadable(s, b, index, |rs|, useTable);
    SameEntriesNew(s, LoadSlot(s, b, index, |rs|, useTable), rs);
  }

  lemma SameEntriesSelf(s: State)
    ensures SameEntries(s, s)
  {
  }

  lemma SameEntriesTransitive(s: State, t: State, u: State)
    requires SameEntries(s, t) && SameEntries(t, u)
    ensures SameEntries(s, u)
  {
  }

  lemma {:induction false} LoadRowsLoadable(s: State, rows: seq<seq<int>>, rs: seq<Record>, useTable: bool)
    requires Loadable(s) && NewFirst(s, rs) && (useTable ==> |rows| <= NEW_BUCKET_COUNT)
    ensures var t := LoadRows(s, rows, |rs|, useTable); Loadable(t) && NewFirst(t, rs) && SameEntries(s, t)
  {
    hide Loadable, LoadRow, SameEntries, NewFirst;
    if rows == [] {
      SameEntriesSelf(s);
    } else {
      LoadRowsLoadable(s, rows[..|rows| - 1], rs, useTable);
      var t := LoadRows(s, rows[..|rows| - 1], |rs|, useTable);
      LoadRowLoadable(t, |rows| - 1, rows[|rows| - 1], rs, useTable);
      SameEntriesTransitive(s, t, LoadRow(t, |rows| - 1, rows[|rows| - 1], |rs|, useTable));
    }
  }

  ghost function Loaded(h: Hashes, f: File): State
    requires f.uBuckets >= 0
  {
    var s := Filled(h, f);
    if s.idCount < 0 then s else Pruned(s, s.idCount)
  }

  /** Where two of the entries read have the same address, neither is kept. */
  ghost predicate Unshared(s: State) {
    forall n, m :: n in s.info && m in s.info && n != m && s.info[n].addr.ip == s.info[m].addr.ip ==> n in Holes(s)
  }

  /** From every file Unserialize restores all but the addresses, and the whole invariant exactly if the key is not
      null and no entry that is kept shares its address with another one read. */
  lemma LoadedInvIff(h: Hashes, f: File)
    requires Counted(f)
    ensures Loadable(Filled(h, f)) && Loadable(Loaded(h, f)) && Holes(Loaded(h, f)) == {}
    ensures Inv(Loaded(h, f), {}) <==> f.key != 0 && Unshared(Filled(h, f))
  {
    hide Loadable, AddressesKnown, Unshared, Entered, Filled, Pruned, LoadRows, Holes, Inv, PrunedTo;
    EnteredLoadable(h, f);
    FilledFromEntered(h, f);
    var s := Filled(h, f);
    AllHolesBelow(s);
    PrunedLoadable(s, s.idCount);
    PrunedUnshared(s, Loaded(h, f));
    FullInv(Loaded(h, f));
    PrunedKey(s, Loaded(h, f), h, f);
  }

  lemma FilledFromEntered(h: Hashes, f: File)
    requires Counted(f) && Loadable(Entered(h, f)) && NewFirst(Entered(h, f), f.newRecords) &&
              AddressesKnown(Entered(h, f))
    ensures Loadable(Filled(h, f)) && AddressesKnown(Filled(h, f)) && SameEntries(Entered(h, f), Filled(h, f))
  {
    hide Loadable, NewFirst, Entered, LoadRows, SameEntries;
    LoadRowsLoadable(Entered(h, f), f.buckets, f.newRecords, UsesTable(f));
    SameEntriesAddresses(Entered(h, f), Filled(h, f));
  }

  lemma SameEntriesAddresses(s: State, t: State)
    requires SameEntries(s, t)
    ensures (AddressesKnown(s) ==> AddressesKnown(t)) && (AddrOk(s) ==> AddrOk(t))
  {
    forall n | n in t.info ensures t.info[n].addr == s.info[n].addr {
      assert t.info[n].(refCount := 0) == s.info[n].(refCount := 0);
      assert t.info[n].(refCount := 0).addr == t.info[n].addr && s.info[n].(refCount := 0).addr == s.info[n].addr;
    }
  }

  lemma AllHolesBelow(s: State)
    requires Loadable(s)
    ensures s.idCount >= 0 && HolesBelow(s, s.idCount) == Holes(s)
  {
    forall m | m in Holes(s) ensures m < s.idCount {
      assert EntryPlaced(s, m);
    }
  }

  lemma PrunedUnshared(s: State, t: State)
    requires Loadable(s) && AddressesKnown(s) && PrunedTo(s, s.idCount, t) && HolesBelow(s, s.idCount) == Holes(s)
    ensures AddrOk(t) <==> Unshared(s)
  {
    hide Loadable, Holes;
    forall n | n in t.info ensures n in s.info && n !in Holes(s) && t.info[n].addr == s.info[n].addr {
      assert t.info[n].(randomPos := 0) == s.info[n].(randomPos := 0);
      assert t.info[n].(randomPos := 0).addr == t.info[n].addr && s.info[n].(randomPos := 0).addr == s.info[n].addr;
    }
    HolesAreEntries(s);
    if AddrOk(t) { AddrOkUnshared(s, t); }
    if Unshared(s) { UnsharedAddrOk(s, t); }
  }

  lemma HolesAreEntries(s: State)
    ensures Holes(s) <= s.info.Keys
  {
  }

  lemma AddrOkUnshared(s: State, t: State)
    requires AddressesKnown(s) && AddrOk(t) && Holes(s) <= s.info.Keys
    requires t.info.Keys == s.info.Keys - Holes(s) && t.addr == s.addr - AddressesOf(s, Holes(s))
    requires forall n :: n in t.info ==> t.info[n].addr == s.info[n].addr
    ensures Unshared(s)
  {
    hide Holes;
    forall n, m | n in s.info && m in s.info && n != m && s.info[n].addr.ip == s.info[m].addr.ip ensures n in Holes(s) {
    }
  }

  lemma UnsharedAddrOk(s: State, t: State)
    requires AddressesKnown(s) && Unshared(s) && Holes(s) <= s.info.Keys
    requires t.info.Keys == s.info.Keys - Holes(s) && t.addr == s.addr - AddressesOf(s, Holes(s))
    requires forall n :: n in t.info ==> t.info[n].addr == s.info[n].addr
    ensures AddrOk(t)
  {
    hide Holes;
    forall n | n in t.info ensures t.info[n].addr.ip in t.addr && t.addr[t.info[n].addr.ip] == n {
      assert s.info[n].addr.ip !in AddressesOf(s, Holes(s));
      assert s.info[s.addr[s.info[n].addr.ip]].addr.ip == s.info[n].addr.ip;
    }
    forall m | m in Holes(s) ensures s.info[m].addr.ip !in t.addr {
      assert s.info[m].addr.ip in AddressesOf(s, Holes(s));
    }
  }

  lemma FullInv(s: State)
    requires Loadable(s) && Holes(s) == {}
    ensures Inv(s, {}) <==> s.key != 0 && AddrOk(s)
  {
    hide RandomOk, TriedOk, NewOk, CountsOk, EntryOk;
    IndexParts(s);
  }

  lemma PrunedKey(s: State, t: State, h: Hashes, f: File)
    requires Counted(f) && s == Filled(h, f) && PrunedTo(s, s.idCount, t) && SameEntries(Entered(h, f), s)
    ensures t.key == f.key && t.hash == h
  {
    hide LoadAllNew, LoadAllTried;
    LoadAllNewEntries(h, f.key, f.newRecords, UsesTable(f));
    LoadAllTriedKeeps(LoadAllNew(Empty(h, f.key), f.newRecords, UsesTable(f)), f.triedRecords);
  }

  // A file of the oldest version with two new records.
  function TwoRecords(key: Key, r: Record, r': Record): File {
    File(0, 32, key, 2, 0, 0, [r, r'], [], [])
  }

  /** Two records with one address: whatever the hashes, the first gets a slot and is kept, and mapAddr is wrong. */
  lemma RepeatedAddress(h: Hashes, key: Key, r: Record, r': Record)
    requires r.addr.ip == r'.addr.ip
    ensures Counted(TwoRecords(key, r, r')) && !Inv(Loaded(h, TwoRecords(key, r, r')), {})
  {
    hide NewSlot, Inv, Loaded;
    var f := TwoRecords(key, r, r');
    assert [r, r'][..1] == [r] && [r][..0] == [];
    assert LoadAllNew(Empty(h, key), [r], false) == LoadNew(Empty(h, key), r, false);
    var s := Filled(h, f);
    assert s == LoadNew(LoadNew(Empty(h, key), r, false), r', false);
    assert 0 in s.info && 1 in s.info && s.info[0].addr.ip == s.info[1].addr.ip && s.info[0].refCount == 1;
    assert 0 !in Holes(s);
    LoadedInvIff(h, f);
  }

  /** So every well-formed file, of any version and bucket count, restores the whole invariant. */
  lemma LoadedInv(h: Hashes, f: File)
    requires WellFormed(f)
    ensures Loadable(Filled(h, f)) && Inv(Loaded(h, f), {})
  {
    hide Loadable, AddressesKnown, Holes, Entered, Filled, Loaded, SameEntries, Inv;
    LoadedInvIff(h, f);
    EnteredLoadable(h, f);
    FilledFromEntered(h, f);
    SameEntriesAddresses(Entered(h, f), Filled(h, f));
    DistinctUnshared(Filled(h, f));
  }

  lemma DistinctUnshared(s: State)
    requires AddrOk(s)
    ensures Unshared(s)
  {
  }

  lemma EnteredLoadable(h: Hashes, f: File)
    requires Counted(f)
    ensures Loadable(Entered(h, f)) && NewFirst(Entered(h, f), f.newRecords) && AddressesKnown(Entered(h, f))
    ensures DistinctAddresses(f.newRecords + f.triedRecords) ==> AddrOk(Entered(h, f))
  {
    hide Loadable, LoadAllNew, LoadAllTried, AddressesKnown, AddrOk, AddressesIn, NewFirst, DistinctAddresses;
    var rs, ts := f.newRecords, f.triedRecords;
    EmptyLoadable(h, f.key);
    EmptyKnown(h, f.key);
    LoadAllNewLoadable(Empty(h, f.key), rs, UsesTable(f));
    var n := LoadAllNew(Empty(h, f.key), rs, UsesTable(f));
    LoadAllTriedLoadable(n, ts);
    EnteredNewFirst(h, f);
    if DistinctAddresses(rs + ts) { DistinctParts(rs, ts); }
  }

  lemma EmptyKnown(h: Hashes, key: Key)
    ensures AddressesKnown(Empty(h, key)) && Empty(h, key).addr.Keys == {}
  {
  }

  lemma EnteredNewFirst(h: Hashes, f: File)
    requires f.uBuckets >= 0
    ensures NewFirst(Entered(h, f), f.newRecords)
  {
    hide LoadAllNew, LoadAllTried;
    LoadAllNewEntries(h, f.key, f.newRecords, UsesTable(f));
    LoadAllTriedKeeps(LoadAllNew(Empty(h, f.key), f.newRecords, UsesTable(f)), f.triedRecords);
  }

  lemma DistinctParts(rs: seq<Record>, ts: seq<Record>)
    requires DistinctAddresses(rs + ts)
    ensures DistinctAddresses(rs) && DistinctAddresses(ts) && AddressesIn(rs) !! AddressesIn(ts)
  {
    var all := rs + ts;
    assert forall i :: 0 <= i < |rs| ==> all[i] == rs[i];
    assert forall i :: 0 <= i < |ts| ==> all[|rs| + i] == ts[i];
  }
}
