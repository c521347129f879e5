/** The tables of the address manager (src/addrman.h) as one value, the elementary
    updates of src/addrman.cpp on it, and the consistency that Check_ tests for. */
module AddrManState {
  import opened Basics

  const TRIED_BUCKET_COUNT := 256
  const NEW_BUCKET_COUNT := 1024
  const BUCKET_SIZE := 64
  const NEW_BUCKETS_PER_ADDRESS := 8
  const SET_TRIED_COLLISION_SIZE := 10

  type NetAddr = int            // an address without port
  type Key = int                // nKey; zero is the null key
  datatype Service = Service(ip: NetAddr, port: int)

  /** The keyed hashes behind the bucket functions, before reduction to a bucket or position. */
  datatype Hashes = Hashes(
    triedBucket: (Key, Service) -> int,
    newBucket: (Key, Service, NetAddr) -> int,
    triedPos: (Key, int, Service) -> int,
    newPos: (Key, int, Service) -> int)

  // A position in vvNew or vvTried.
  datatype Slot = Slot(bucket: int, pos: int)

  /** CAddrInfo: the address with its statistics. */
  datatype Info = Info(
    addr: Service, time: int, services: bv64, source: NetAddr,
    lastSuccess: int, lastTry: int, lastCountAttempt: int, attempts: int,
    refCount: int, inTried: bool, randomPos: int)

  /** CAddrMan.  `newTable` and `triedTable` are vvNew and vvTried without their -1 slots. */
  datatype State = State(
    hash: Hashes, key: Key, idCount: int,
    info: map<int, Info>, addr: map<NetAddr, int>, random: seq<int>,
    triedTable: map<Slot, int>, newTable: map<Slot, int>,
    nTried: int, nNew: int, lastGood: int, collisions: set<int>)

  function TriedSlot(h: Hashes, key: Key, a: Service): Slot {
    var b := h.triedBucket(key, a) % TRIED_BUCKET_COUNT;
    Slot(b, h.triedPos(key, b, a) % BUCKET_SIZE)
  }

  // GetBucketPosition(nKey, true, bucket)
  function NewSlotIn(h: Hashes, key: Key, a: Service, bucket: int): Slot {
    Slot(bucket, h.newPos(key, bucket, a) % BUCKET_SIZE)
  }

  function NewSlot(h: Hashes, key: Key, a: Service, source: NetAddr): Slot {
    NewSlotIn(h, key, a, h.newBucket(key, a, source) % NEW_BUCKET_COUNT)
  }

  /** The buckets and positions: 256 tried and 1024 new buckets of 64 places, each taken from its own hash. */
  lemma SlotsFromHashes(h: Hashes, key: Key, a: Service, source: NetAddr)
    ensures var t, u := TriedSlot(h, key, a), NewSlot(h, key, a, source);
            && 0 <= t.bucket < 256 && 0 <= t.pos < 64 && 0 <= u.bucket < 1024 && 0 <= u.pos < 64
            && (h.triedBucket(key, a) - t.bucket) % 256 == 0 && (h.triedPos(key, t.bucket, a) - t.pos) % 64 == 0
            && (h.newBucket(key, a, source) - u.bucket) % 1024 == 0 && (h.newPos(key, u.bucket, a) - u.pos) % 64 == 0
  {
  }

  lemma NewSlotShape(h: Hashes, key: Key, a: Service, source: NetAddr)
    ensures var u := NewSlot(h, key, a, source);
            0 <= u.bucket < NEW_BUCKET_COUNT && u == NewSlotIn(h, key, a, u.bucket)
  {
  }

  // ---------- The invariant ----------

  /** mapAddr inverts mapInfo and vRandom is a permutation of its ids. */
  ghost predicate IndexOk(s: State) {
    && |s.random| == |s.info|
    && (forall n :: n in s.info ==> EntryIndexed(s, n))
    && (forall a :: a in s.addr ==> s.addr[a] in s.info && s.info[s.addr[a]].addr.ip == a)
    && (forall i :: 0 <= i < |s.random| ==> s.random[i] in s.info && s.info[s.random[i]].randomPos == i)
  }

  ghost predicate EntryIndexed(s: State, n: int)
    requires n in s.info
  {
    var e := s.info[n];
    && 0 <= n < s.idCount
    && e.addr.ip in s.addr && s.addr[e.addr.ip] == n
    && 0 <= e.randomPos < |s.random| && s.random[e.randomPos] == n
  }

  /** The part of IndexOk that does not speak of addresses: vRandom is a permutation of the ids. */
  ghost predicate RandomOk(s: State) {
    && |s.random| == |s.info|
    && (forall n :: n in s.info ==> EntryPlaced(s, n))
    && (forall i :: 0 <= i < |s.random| ==> s.random[i] in s.info && s.info[s.random[i]].randomPos == i)
  }

  predicate EntryPlaced(s: State, n: int)
    requires n in s.info
  {
    0 <= n < s.idCount && Located(s, n)
  }

  // Its position in vRandom is its own.
  predicate Located(s: State, n: int)
    requires n in s.info
  {
    0 <= s.info[n].randomPos < |s.random| && s.random[s.info[n].randomPos] == n
  }

  /** And the part that does: mapAddr inverts mapInfo. */
  ghost predicate AddrOk(s: State) {
    && (forall n :: n in s.info ==> s.info[n].addr.ip in s.addr && s.addr[s.info[n].addr.ip] == n)
    && (forall a :: a in s.addr ==> s.addr[a] in s.info && s.info[s.addr[a]].addr.ip == a)
  }

  lemma IndexParts(s: State)
    ensures IndexOk(s) <==> RandomOk(s) && AddrOk(s)
  {
    if IndexOk(s) {
      forall n | n in s.info
        ensures EntryPlaced(s, n) && s.info[n].addr.ip in s.addr && s.addr[s.info[n].addr.ip] == n
      {
        assert EntryIndexed(s, n);
      }
    }
    if RandomOk(s) && AddrOk(s) {
      forall n | n in s.info ensures EntryIndexed(s, n) {
        assert EntryPlaced(s, n);
      }
    }
  }

  /** Holes are entries that, inside an operation, have no reference yet or any more. */
  ghost predicate EntryOk(e: Info, hole: bool) {
    && (e.inTried ==> e.refCount == 0 && !hole)
    && (!e.inTried ==> if hole then e.refCount == 0 else 1 <= e.refCount <= NEW_BUCKETS_PER_ADDRESS)
  }

  ghost predicate TriedOk(s: State) {
    && (forall k :: k in s.triedTable ==>
          s.triedTable[k] in s.info && s.info[s.triedTable[k]].inTried &&
              k == TriedSlot(s.hash, s.key, s.info[s.triedTable[k]].addr))
    && (forall n :: n in s.info && s.info[n].inTried ==>
          var k := TriedSlot(s.hash, s.key, s.info[n].addr); k in s.triedTable && s.triedTable[k] == n)
  }

  function Refs(s: State, n: int): set<Slot> {
    set k | k in s.newTable && s.newTable[k] == n
  }

  ghost predicate NewOk(s: State) {
    && (forall k :: k in s.newTable ==>
          && s.newTable[k] in s.info && !s.info[s.newTable[k]].inTried
          && 0 <= k.bucket < NEW_BUCKET_COUNT && k == NewSlotIn(s.hash, s.key, s.info[s.newTable[k]].addr, k.bucket))
    && (forall n :: n in s.info ==> s.info[n].refCount == |Refs(s, n)|)
  }

  function NewIds(s: State): set<int> { set n | n in s.info && !s.info[n].inTried }
  function TriedIds(s: State): set<int> { set n | n in s.info && s.info[n].inTried }

  ghost predicate CountsOk(s: State) {
    s.nNew == |NewIds(s)| && s.nTried == |TriedIds(s)|
  }

  /** A pending collision that is still known collides with an occupied tried slot. */
  ghost predicate CollisionsOk(s: State) {
    && |s.collisions| <= SET_TRIED_COLLISION_SIZE
    && forall n :: n in s.collisions ==>
         n < s.idCount && (n in s.info ==> TriedSlot(s.hash, s.key, s.info[n].addr) in s.triedTable)
  }

  ghost predicate Inv(s: State, holes: set<int>) {
    && s.key != 0 && s.idCount >= 0
    && holes <= s.info.Keys
    && IndexOk(s) && TriedOk(s) && NewOk(s) && CountsOk(s)
    && (forall n :: n in s.info ==> EntryOk(s.info[n], n in holes))
  }

  /** What holds between operations, whatever times they are given. */
  ghost predicate Consistent(s: State) {
    Inv(s, {}) && CollisionsOk(s)
  }

  /** What no operation undoes: filled tried slots stay filled, ids keep their address
      and are not used again. */
  ghost predicate Grows(s: State, t: State) {
    && t.hash == s.hash && t.key == s.key && s.idCount <= t.idCount
    && s.triedTable.Keys <= t.triedTable.Keys
    && forall n :: n in t.info && n < s.idCount ==> n in s.info && t.info[n].addr == s.info[n].addr
  }

  lemma GrowsKeepsCollisions(s: State, t: State)
    requires CollisionsOk(s) && Grows(s, t) && t.collisions <= s.collisions
    ensures CollisionsOk(t)
  {
    SubsetSize(t.collisions, s.collisions);
  }

  // ---------- Elementary updates ----------

  function SetInfo(s: State, n: int, e: Info): State { s.(info := s.info[n := e]) }

  function Created(s: State, e: Info): State {
    s.(idCount := s.idCount + 1,
       info := s.info[s.idCount := e.(randomPos := |s.random|)],
       addr := s.addr[e.addr.ip := s.idCount],
       random := s.random + [s.idCount],
       nNew := s.nNew + 1)
  }

  function Swapped(s: State, i: int, j: int): State
    requires 0 <= i < |s.random| && 0 <= j < |s.random|
    requires s.random[i] in s.info && s.random[j] in s.info
  {
    if i == j then s
    else
      var a, b := s.random[i], s.random[j];
      var info1 := s.info[a := s.info[a].(randomPos := j)];
      s.(info := info1[b := info1[b].(randomPos := i)], random := s.random[i := b][j := a])
  }

  /** Delete, which takes the entry's position and its address whatever mapAddr says. */
  function Erased(s: State, n: int): State
    requires n in s.info && RandomOk(s)
  {
    assert EntryPlaced(s, n);
    var t := Swapped(s, s.info[n].randomPos, |s.random| - 1);
    t.(random := t.random[..|t.random| - 1], addr := t.addr - {s.info[n].addr.ip}, info := t.info - {n},
       nNew := t.nNew - 1)
  }

  // The same where mapAddr is right.
  function Deleted(s: State, n: int): State
    requires n in s.info && IndexOk(s)
  {
    IndexParts(s);
    Erased(s, n)
  }

  function ClearedNew(s: State, k: Slot): State
    requires IndexOk(s) && (k in s.newTable ==> s.newTable[k] in s.info)
  {
    if k !in s.newTable then s
    else
      var n := s.newTable[k];
      var t := Unref(s, k);
      UnrefIndexed(s, k);
      if t.info[n].refCount == 0 then Deleted(t, n) else t
  }

  function Unref(s: State, k: Slot): State
    requires k in s.newTable && s.newTable[k] in s.info
  {
    var n := s.newTable[k];
    SetInfo(s, n, s.info[n].(refCount := s.info[n].refCount - 1)).(newTable := s.newTable - {k})
  }

  lemma UnrefIndexed(s: State, k: Slot)
    requires IndexOk(s) && k in s.newTable && s.newTable[k] in s.info
    ensures IndexOk(Unref(s, k))
  {
    TouchedIndexed(s, Unref(s, k));
  }

  function Referenced(s: State, n: int, k: Slot): State
    requires n in s.info
  {
    SetInfo(s, n, s.info[n].(refCount := s.info[n].refCount + 1)).(newTable := s.newTable[k := n])
  }

  // Removes the entry from every new bucket.
  function Unreferenced(s: State, n: int): State
    requires n in s.info
  {
    SetInfo(s, n, s.info[n].(refCount := 0))
      .(newTable := map k | k in s.newTable && s.newTable[k] != n :: s.newTable[k])
  }

  function Demoted(s: State, n: int): State
    requires n in s.info
  {
    SetInfo(s, n, s.info[n].(inTried := false))
      .(triedTable := s.triedTable - {TriedSlot(s.hash, s.key, s.info[n].addr)},
        nTried := s.nTried - 1, nNew := s.nNew + 1)
  }

  function Promoted(s: State, n: int): State
    requires n in s.info
  {
    SetInfo(s, n, s.info[n].(inTried := true))
      .(triedTable := s.triedTable[TriedSlot(s.hash, s.key, s.info[n].addr) := n],
        nTried := s.nTried + 1, nNew := s.nNew - 1)
  }

  // ---------- What they keep ----------

  // An update of statistics: address, position, reference count and table stay.
  predicate SamePlace(e: Info, f: Info) {
    f.addr == e.addr && f.randomPos == e.randomPos
  }

  // Two entries trade their positions in vRandom.
  lemma SwappedEffect(s: State, i: int, j: int)
    requires 0 <= i < |s.random| && 0 <= j < |s.random| && RandomOk(s)
    ensures Swapped(s, i, j).info.Keys == s.info.Keys
    ensures forall m :: m in s.info ==>
             Swapped(s, i, j).info[m] == s.info[m].(randomPos := Trade(s.info[m].randomPos, i, j))
    ensures Swapped(s, i, j) ==
             s.(info := Swapped(s, i, j).info, random := s.random[i := s.random[j]][j := s.random[i]])
  {
    assert EntryPlaced(s, s.random[i]) && EntryPlaced(s, s.random[j]);
    if i == j { assert s.random[i := s.random[j]][j := s.random[i]] == s.random; }
    forall m | m in s.info
      ensures Swapped(s, i, j).info[m] == s.info[m].(randomPos := Trade(s.info[m].randomPos, i, j))
    {
      assert EntryPlaced(s, m);
    }
  }

  function Trade(p: int, i: int, j: int): int { if p == i then j else if p == j then i else p }

  lemma SwappedIndexed(s: State, i: int, j: int)
    requires 0 <= i < |s.random| && 0 <= j < |s.random| && IndexOk(s)
    ensures IndexOk(Swapped(s, i, j)) && Reindexed(s, Swapped(s, i, j))
  {
    hide Swapped;
    IndexParts(s);
    SwappedEffect(s, i, j);
    var t := Swapped(s, i, j);
    assert |t.info| == |t.info.Keys| == |s.info.Keys| == |s.info|;
    forall m | m in t.info ensures EntryIndexed(t, m) {
      assert EntryIndexed(s, m);
    }
    forall q | 0 <= q < |t.random| ensures t.random[q] in t.info && t.info[t.random[q]].randomPos == q {
      assert t.random[q] == s.random[Trade(q, i, j)];
    }
    forall a | a in t.addr ensures t.info[t.addr[a]].addr.ip == a {
      var m := s.addr[a];
      assert t.info[m] == s.info[m].(randomPos := Trade(s.info[m].randomPos, i, j));
    }
    forall m | m in s.info ensures t.info[m].(randomPos := 0) == s.info[m].(randomPos := 0) {
      assert t.info[m] == s.info[m].(randomPos := Trade(s.info[m].randomPos, i, j));
    }
  }

  // The same entries but for their positions in vRandom.
  ghost predicate Reindexed(s: State, t: State) {
    && t.hash == s.hash && t.key == s.key && t.idCount == s.idCount && t.addr == s.addr
    && t.triedTable == s.triedTable && t.newTable == s.newTable && t.nTried == s.nTried && t.nNew == s.nNew
    && t.info.Keys == s.info.Keys
    && forall n :: n in s.info ==> t.info[n].(randomPos := 0) == s.info[n].(randomPos := 0)
  }

  lemma ReindexedInv(s: State, t: State, holes: set<int>)
    requires Inv(s, holes) && Reindexed(s, t) && IndexOk(t)
    ensures Inv(t, holes)
  {
    hide TriedSlot, NewSlotIn, IndexOk;
    forall n | n in t.info
      ensures t.info[n].addr == s.info[n].addr && t.info[n].inTried == s.info[n].inTried &&
               t.info[n].refCount == s.info[n].refCount
    {
      assert t.info[n].(randomPos := 0) == s.info[n].(randomPos := 0);
    }
    assert NewIds(t) == NewIds(s) && TriedIds(t) == TriedIds(s);
    forall n | n in t.info ensures EntryOk(t.info[n], n in holes) && t.info[n].refCount == |Refs(t, n)| {
      assert EntryOk(s.info[n], n in holes);
      assert t.info[n].(randomPos := 0) == s.info[n].(randomPos := 0);
      assert Refs(t, n) == Refs(s, n);
    }
  }

  // What Delete does once the entry has been swapped to the end of vRandom.
  function Dropped(s: State, n: int): State
    requires n in s.info && |s.random| > 0
  {
    s.(random := s.random[..|s.random| - 1], addr := s.addr - {s.info[n].addr.ip}, info := s.info - {n},
       nNew := s.nNew - 1)
  }

  lemma DroppedIndexed(s: State, n: int)
    requires IndexOk(s) && n in s.info && s.info[n].randomPos == |s.random| - 1
    ensures IndexOk(Dropped(s, n))
  {
    var t := Dropped(s, n);
    assert EntryIndexed(s, n);
    assert t.info.Keys == s.info.Keys - {n};
    assert |t.info| == |t.info.Keys| && |s.info| == |s.info.Keys|;
    forall m | m in t.info ensures EntryIndexed(t, m) {
      assert EntryIndexed(s, m);
    }
  }

  lemma DroppedInv(s: State, n: int, holes: set<int>)
    requires Inv(s, holes) && n in holes && |s.random| > 0 && s.info[n].randomPos == |s.random| - 1
    ensures Inv(Dropped(s, n), holes - {n})
  {
    hide TriedSlot, NewSlotIn, IndexOk;
    DroppedIndexed(s, n);
    var t := Dropped(s, n);
    assert EntryOk(s.info[n], true);
    assert Refs(s, n) == {};
    forall k | k in t.newTable ensures t.newTable[k] != n {
      assert k in Refs(s, s.newTable[k]);
    }
    forall m | m in t.info ensures EntryOk(t.info[m], m in holes - {n}) && t.info[m].refCount == |Refs(t, m)| {
      assert EntryOk(s.info[m], m in holes);
      assert Refs(t, m) == Refs(s, m);
    }
    assert NewIds(t) == NewIds(s) - {n} && TriedIds(t) == TriedIds(s);
  }

  function Without(s: State, n: int): State
    requires n in s.info
  {
    s.(info := s.info - {n}, addr := s.addr - {s.info[n].addr.ip}, nNew := s.nNew - 1)
  }

  lemma DeletedSwap(s: State, n: int) returns (t: State)
    requires IndexOk(s) && n in s.info
    ensures IndexOk(t) && Reindexed(s, t) && t.collisions == s.collisions && t.lastGood == s.lastGood
    ensures |t.random| > 0 && t.info[n].randomPos == |t.random| - 1
    ensures Deleted(s, n) == Dropped(t, n)
  {
    hide IndexOk, Swapped;
    IndexedEntry(s, n);
    var i, j := s.info[n].randomPos, |s.random| - 1;
    IndexParts(s);
    SwappedEffect(s, i, j);
    SwappedIndexed(s, i, j);
    t := Swapped(s, i, j);
  }

  lemma IndexedEntry(s: State, n: int)
    requires IndexOk(s) && n in s.info
    ensures EntryIndexed(s, n) && s.random[|s.random| - 1] in s.info
  {
  }

  /** Delete keeps all indexes and counters right and removes exactly that entry. */
  lemma DeletedInv(s: State, n: int, holes: set<int>)
    requires Inv(s, holes) && n in holes
    ensures Inv(Deleted(s, n), holes - {n})
    ensures Reindexed(Without(s, n), Deleted(s, n))
    ensures Deleted(s, n).collisions == s.collisions && Deleted(s, n).lastGood == s.lastGood
  {
    hide IndexOk, TriedOk, NewOk, CountsOk, EntryOk, Deleted, Reindexed;
    var t := DeletedSwap(s, n);
    ReindexedInv(s, t, holes);
    DroppedInv(t, n, holes);
    DroppedReindexed(s, t, n);
  }

  lemma DroppedReindexed(s: State, t: State, n: int)
    requires n in s.info && |t.random| > 0 && Reindexed(s, t)
    ensures Reindexed(Without(s, n), Dropped(t, n))
  {
    assert t.info[n].(randomPos := 0) == s.info[n].(randomPos := 0);
    assert t.info[n].addr == s.info[n].addr;
  }

  // The same entries in the same places; only statistics and new references differ.
  ghost predicate Touched(s: State, t: State) {
    && t.hash == s.hash && t.key == s.key && t.idCount == s.idCount && t.addr == s.addr && t.random == s.random
    && t.triedTable == s.triedTable && t.nTried == s.nTried && t.nNew == s.nNew
    && t.info.Keys == s.info.Keys
    && forall n :: n in s.info ==> SamePlace(s.info[n], t.info[n]) && t.info[n].inTried == s.info[n].inTried
  }

  lemma TouchedIndexed(s: State, t: State)
    requires IndexOk(s) && Touched(s, t)
    ensures IndexOk(t)
  {
    assert |t.info| == |t.info.Keys| == |s.info.Keys| == |s.info|;
    forall n | n in t.info ensures EntryIndexed(t, n) {
      assert EntryIndexed(s, n) && SamePlace(s.info[n], t.info[n]);
    }
    forall a | a in t.addr ensures t.info[t.addr[a]].addr.ip == a {
      var n := s.addr[a];
      assert SamePlace(s.info[n], t.info[n]);
    }
    forall i | 0 <= i < |t.random| ensures t.info[t.random[i]].randomPos == i {
      var n := s.random[i];
      assert SamePlace(s.info[n], t.info[n]);
    }
  }

  lemma TouchedInv(s: State, t: State, holes: set<int>, holes': set<int>)
    requires Inv(s, holes) && Touched(s, t) && NewOk(t) && holes' <= t.info.Keys
    requires forall n :: n in t.info ==> EntryOk(t.info[n], n in holes')
    ensures Inv(t, holes')
  {
    hide IndexOk, NewOk, TriedSlot, NewSlotIn;
    TouchedIndexed(s, t);
    forall n | n in t.info ensures t.info[n].addr == s.info[n].addr && t.info[n].inTried == s.info[n].inTried {
      assert SamePlace(s.info[n], t.info[n]);
    }
    assert NewIds(t) == NewIds(s) && TriedIds(t) == TriedIds(s);
  }

  lemma ReferencedInv(s: State, n: int, k: Slot, holes: set<int>)
    requires Inv(s, holes) && n in s.info && !s.info[n].inTried && s.info[n].refCount < NEW_BUCKETS_PER_ADDRESS
    requires k !in s.newTable && 0 <= k.bucket < NEW_BUCKET_COUNT &&
              k == NewSlotIn(s.hash, s.key, s.info[n].addr, k.bucket)
    ensures Inv(Referenced(s, n, k), holes - {n})
  {
    hide IndexOk, TriedOk, CountsOk, TriedSlot, NewSlotIn;
    var t := Referenced(s, n, k);
    forall m | m in t.info ensures EntryOk(t.info[m], m in holes - {n}) {
      assert EntryOk(s.info[m], m in holes);
    }
    ReferencedNewOk(s, n, k);
    TouchedInv(s, t, holes, holes - {n});
  }

  lemma ReferencedNewOk(s: State, n: int, k: Slot)
    requires NewOk(s) && n in s.info && !s.info[n].inTried
    requires k !in s.newTable && 0 <= k.bucket < NEW_BUCKET_COUNT &&
              k == NewSlotIn(s.hash, s.key, s.info[n].addr, k.bucket)
    ensures NewOk(Referenced(s, n, k))
  {
    hide TriedSlot, NewSlotIn, Refs;
    var t := Referenced(s, n, k);
    forall m | m in t.info ensures t.info[m].refCount == |Refs(t, m)| {
      RefsAdded(s, t, n, k, m);
    }
  }

  lemma RefsAdded(s: State, t: State, n: int, k: Slot, m: int)
    requires t.newTable == s.newTable[k := n] && k !in s.newTable
    ensures Refs(t, m) == if m == n then Refs(s, m) + {k} else Refs(s, m)
    ensures k !in Refs(s, m)
  {
  }

  lemma RefsRemoved(s: State, t: State, k: Slot, m: int)
    requires k in s.newTable && t.newTable == s.newTable - {k}
    ensures Refs(t, m) == if m == s.newTable[k] then Refs(s, m) - {k} else Refs(s, m)
  {
  }

  // IndexOk looks at nothing but ids, addresses and positions.
  lemma SameIndex(s: State, t: State)
    requires IndexOk(s) && t.info == s.info && t.addr == s.addr && t.random == s.random && t.idCount == s.idCount
    ensures IndexOk(t)
  {
    forall n | n in t.info ensures EntryIndexed(t, n) {
      assert EntryIndexed(s, n);
    }
  }

  /** t has lost no entry of s outside `lost`, and changed none but in position. */
  ghost predicate Keeps(s: State, t: State, lost: set<int>) {
    && t.hash == s.hash && t.key == s.key && t.idCount == s.idCount && t.triedTable == s.triedTable
    && t.collisions == s.collisions && t.lastGood == s.lastGood
    && (forall n :: n in t.info ==> n in s.info && t.info[n].addr == s.info[n].addr)
    && (forall n :: n in s.info && n !in lost ==>
        n in t.info && t.info[n].(randomPos := 0) == s.info[n].(randomPos := 0))
  }

  lemma DeletedKeeps(s: State, n: int, holes: set<int>)
    requires Inv(s, holes) && n in holes
    ensures Keeps(s, Deleted(s, n), {n}) && Deleted(s, n).newTable == s.newTable
  {
    hide IndexOk, TriedOk, NewOk, CountsOk, EntryOk, Deleted;
    DeletedInv(s, n, holes);
    var t := Deleted(s, n);
    var w := Without(s, n);
    forall m | m in t.info
      ensures m in s.info && t.info[m].addr == s.info[m].addr
      ensures t.info[m].(randomPos := 0) == s.info[m].(randomPos := 0)
    {
      assert m in w.info;
      assert t.info[m].(randomPos := 0) == w.info[m].(randomPos := 0);
      assert t.info[m].(randomPos := 0).addr == s.info[m].(randomPos := 0).addr;
    }
  }

  /** Clearing a new slot drops one reference and, with the last one, the entry. */
  lemma ClearedNewInv(s: State, k: Slot, holes: set<int>)
    requires Inv(s, holes)
    ensures Inv(ClearedNew(s, k), holes)
    ensures ClearedNew(s, k).newTable == s.newTable - {k}
    ensures Keeps(s, ClearedNew(s, k), if k in s.newTable then {s.newTable[k]} else {})
  {
    hide IndexOk, TriedOk, CountsOk, EntryOk, Deleted, TriedSlot, NewSlotIn;
    if k in s.newTable {
      var n := s.newTable[k];
      var t := Unref(s, k);
      UnrefInv(s, k, holes);
      if t.info[n].refCount == 0 {
        DeletedInv(t, n, holes + {n});
        DeletedKeeps(t, n, holes + {n});
        assert holes + {n} - {n} == holes;
      }
    }
  }

  lemma UnrefInv(s: State, k: Slot, holes: set<int>)
    requires Inv(s, holes) && k in s.newTable
    ensures var n := s.newTable[k];
            var t := Unref(s, k);
            && n !in holes
            && s.info[n].refCount > 0 && !s.info[n].inTried
            && Inv(t, if t.info[n].refCount == 0 then holes + {n} else holes)
  {
    hide IndexOk, TriedOk, CountsOk, TriedSlot, NewSlotIn;
    var n := s.newTable[k];
    var t := Unref(s, k);
    assert k in Refs(s, n);
    assert EntryOk(s.info[n], n in holes);
    var holes' := if t.info[n].refCount == 0 then holes + {n} else holes;
    forall m | m in t.info ensures EntryOk(t.info[m], m in holes') {
      assert EntryOk(s.info[m], m in holes);
    }
    forall m | m in t.info ensures t.info[m].refCount == |Refs(t, m)| {
      RefsRemoved(s, t, k, m);
    }
    TouchedInv(s, t, holes, holes');
  }

  // ---------- Create, and moving an entry between the tables ----------

  lemma CreatedIndexed(s: State, e: Info)
    requires IndexOk(s) && s.idCount >= 0 && e.addr.ip !in s.addr
    ensures IndexOk(Created(s, e))
  {
    hide EntryIndexed;
    var t := Created(s, e);
    IdUnused(s, s.idCount);
    assert t.info.Keys == s.info.Keys + {s.idCount};
    assert |t.info| == |t.info.Keys| && |s.info| == |s.info.Keys|;
    forall m | m in t.info ensures EntryIndexed(t, m) {
      CreatedEntry(s, e, m);
    }
  }

  lemma CreatedEntry(s: State, e: Info, m: int)
    requires IndexOk(s) && s.idCount >= 0 && e.addr.ip !in s.addr && m in Created(s, e).info
    ensures EntryIndexed(Created(s, e), m)
  {
    if m != s.idCount { assert EntryIndexed(s, m); }
  }

  lemma IdUnused(s: State, n: int)
    requires IndexOk(s) && n >= s.idCount
    ensures n !in s.info
  {
    forall m | m in s.info ensures m < n {
      assert EntryIndexed(s, m);
    }
  }

  /** A new entry enters every index; only its first reference is still missing. */
  lemma CreatedInv(s: State, e: Info, holes: set<int>)
    requires Inv(s, holes) && e.addr.ip !in s.addr
    requires e.refCount == 0 && !e.inTried
    ensures s.idCount !in s.info && Inv(Created(s, e), holes + {s.idCount})
  {
    hide IndexOk, TriedOk, NewOk, CountsOk;
    CreatedIndexed(s, e);
    IdUnused(s, s.idCount);
    CreatedTables(s, e);
    CreatedCounts(s, e);
    var t := Created(s, e);
    forall m | m in t.info ensures EntryOk(t.info[m], m in holes + {s.idCount}) {
      if m != s.idCount { assert EntryOk(s.info[m], m in holes); }
    }
  }

  lemma CreatedTables(s: State, e: Info)
    requires TriedOk(s) && NewOk(s) && s.idCount !in s.info && e.refCount == 0 && !e.inTried
    ensures TriedOk(Created(s, e)) && NewOk(Created(s, e))
  {
    hide TriedSlot, NewSlotIn;
    var t := Created(s, e);
    forall m | m in t.info ensures t.info[m].refCount == |Refs(t, m)| {
      assert Refs(t, m) == Refs(s, m);
      if m == s.idCount { assert Refs(s, m) == {}; }
    }
  }

  lemma CreatedCounts(s: State, e: Info)
    requires CountsOk(s) && s.idCount !in s.info && !e.inTried
    ensures CountsOk(Created(s, e))
  {
    var t := Created(s, e);
    assert NewIds(t) == NewIds(s) + {s.idCount} && TriedIds(t) == TriedIds(s);
  }

  lemma UnreferencedInv(s: State, n: int)
    requires Inv(s, {}) && n in s.info && !s.info[n].inTried
    ensures Inv(Unreferenced(s, n), {n})
  {
    hide IndexOk, TriedOk, CountsOk, TriedSlot, NewSlotIn;
    var t := Unreferenced(s, n);
    forall m | m in t.info ensures EntryOk(t.info[m], m in {n}) && t.info[m].refCount == |Refs(t, m)| {
      assert EntryOk(s.info[m], m in {});
      assert Refs(t, m) == if m == n then {} else Refs(s, m);
    }
    TouchedInv(s, t, {}, {n});
  }

  // Moving an entry between the tables leaves the indexes alone.
  lemma MovedIndexed(s: State, n: int, f: Info, t: State)
    requires IndexOk(s) && n in s.info && SamePlace(s.info[n], f)
    requires t.info == s.info[n := f] && t.addr == s.addr && t.random == s.random && t.idCount == s.idCount
    ensures IndexOk(t)
  {
    assert t.info.Keys == s.info.Keys;
    assert |t.info| == |t.info.Keys| == |s.info.Keys| == |s.info|;
    forall m | m in t.info ensures EntryIndexed(t, m) {
      assert EntryIndexed(s, m);
    }
  }

  lemma DemotedInv(s: State, n: int, holes: set<int>)
    requires Inv(s, holes) && n in s.info && s.info[n].inTried
    ensures Inv(Demoted(s, n), holes + {n})
    ensures TriedSlot(s.hash, s.key, s.info[n].addr) !in Demoted(s, n).triedTable
  {
    hide IndexOk, TriedOk, NewOk, CountsOk;
    var t := Demoted(s, n);
    MovedIndexed(s, n, t.info[n], t);
    assert EntryOk(s.info[n], n in holes);
    DemotedTables(s, n);
    DemotedCounts(s, n);
    forall m | m in t.info ensures EntryOk(t.info[m], m in holes + {n}) {
      assert EntryOk(s.info[m], m in holes);
    }
  }

  lemma DemotedTables(s: State, n: int)
    requires TriedOk(s) && NewOk(s) && n in s.info && s.info[n].inTried
    ensures TriedOk(Demoted(s, n)) && NewOk(Demoted(s, n))
  {
    hide TriedSlot, NewSlotIn;
    var t := Demoted(s, n);
    forall m | m in t.info ensures t.info[m].refCount == |Refs(t, m)| {
      assert Refs(t, m) == Refs(s, m);
    }
  }

  lemma DemotedCounts(s: State, n: int)
    requires CountsOk(s) && n in s.info && s.info[n].inTried
    ensures CountsOk(Demoted(s, n))
  {
    hide TriedSlot;
    var t := Demoted(s, n);
    assert NewIds(t) == NewIds(s) + {n} && TriedIds(t) == TriedIds(s) - {n};
  }

  lemma PromotedInv(s: State, n: int, holes: set<int>)
    requires Inv(s, holes) && n in holes
    requires TriedSlot(s.hash, s.key, s.info[n].addr) !in s.triedTable
    ensures Inv(Promoted(s, n), holes - {n})
  {
    hide IndexOk, TriedOk, NewOk, CountsOk, TriedSlot;
    var t := Promoted(s, n);
    MovedIndexed(s, n, t.info[n], t);
    assert EntryOk(s.info[n], true);
    PromotedTables(s, n);
    PromotedCounts(s, n);
    forall m | m in t.info ensures EntryOk(t.info[m], m in holes - {n}) {
      assert EntryOk(s.info[m], m in holes);
    }
  }

  lemma PromotedTables(s: State, n: int)
    requires TriedOk(s) && NewOk(s) && n in s.info && !s.info[n].inTried && s.info[n].refCount == 0
    requires TriedSlot(s.hash, s.key, s.info[n].addr) !in s.triedTable
    ensures TriedOk(Promoted(s, n)) && NewOk(Promoted(s, n))
  {
    hide TriedSlot, NewSlotIn;
    var t := Promoted(s, n);
    assert Refs(s, n) == {};
    forall m | m in t.info ensures t.info[m].refCount == |Refs(t, m)| {
      assert Refs(t, m) == Refs(s, m);
    }
    forall k | k in t.newTable ensures t.newTable[k] != n {
      assert k in Refs(s, s.newTable[k]);
    }
  }

  lemma PromotedCounts(s: State, n: int)
    requires CountsOk(s) && n in s.info && !s.info[n].inTried
    ensures CountsOk(Promoted(s, n))
  {
    hide TriedSlot;
    var t := Promoted(s, n);
    assert NewIds(t) == NewIds(s) - {n} && TriedIds(t) == TriedIds(s) + {n};
  }

  /** The entry in the tried slot, if any, goes back to its own new slot. */
  function Evicted(s: State, k: Slot, holes: set<int>): State
    requires Inv(s, holes)
  {
    if k !in s.triedTable then s
    else
      var was := s.triedTable[k];
      DemotedInv(s, was, holes);
      var d := Demoted(s, was);
      var u := NewSlot(d.hash, d.key, d.info[was].addr, d.info[was].source);
      Reentered(d, u, was, holes + {was})
  }

  // Takes a new slot for an entry that has no reference.
  function Reentered(s: State, u: Slot, n: int, holes: set<int>): State
    requires Inv(s, holes) && n in holes
  {
    ClearedNewInv(s, u, holes);
    HoleSurvives(s, u, holes, n);
    Referenced(ClearedNew(s, u), n, u)
  }

  // Entries without references are not what a slot holds.
  lemma HoleSurvives(s: State, u: Slot, holes: set<int>, n: int)
    requires Inv(s, holes) && n in holes
    ensures n in ClearedNew(s, u).info && ClearedNew(s, u).info[n].(randomPos := 0) == s.info[n].(randomPos := 0)
  {
    hide IndexOk, TriedOk, CountsOk, ClearedNew, TriedSlot, NewSlotIn;
    ClearedNewInv(s, u, holes);
    assert EntryOk(s.info[n], true);
    assert Refs(s, n) == {};
    if u in s.newTable { assert u in Refs(s, s.newTable[u]); }
  }

  // What t keeps of s besides the entry whose slot was cleared.
  ghost predicate Reenters(s: State, t: State) {
    && t.hash == s.hash && t.key == s.key && t.idCount == s.idCount && t.collisions == s.collisions
    && t.triedTable == s.triedTable && t.lastGood == s.lastGood
    && forall m :: m in t.info ==> m in s.info && t.info[m].addr == s.info[m].addr
  }

  lemma ReenteredInv(s: State, was: int, n: int)
    requires Inv(s, {n} + {was}) && n != was
    ensures var u := NewSlot(s.hash, s.key, s.info[was].addr, s.info[was].source);
            var t := Reentered(s, u, was, {n} + {was});
            && Inv(t, {n}) && Reenters(s, t) && t.info[n].(randomPos := 0) == s.info[n].(randomPos := 0)
            && was in t.info && !t.info[was].inTried && u in t.newTable && t.newTable[u] == was
  {
    hide IndexOk, TriedOk, CountsOk, ClearedNew, EntryOk, NewSlotIn, NewSlot;
    var u := NewSlot(s.hash, s.key, s.info[was].addr, s.info[was].source);
    ClearedNewInv(s, u, {n} + {was});
    HoleSurvives(s, u, {n} + {was}, was);
    HoleSurvives(s, u, {n} + {was}, n);
    var c := ClearedNew(s, u);
    EntryRefs(c, was, {n} + {was});
    assert c.info[was].(randomPos := 0).addr == s.info[was].addr;
    NewSlotShape(s.hash, s.key, s.info[was].addr, s.info[was].source);
    ReferencedInv(c, was, u, {n} + {was});
    assert {n} + {was} - {was} == {n};
  }

  /** An entry that had to leave the tried table is in the new table, at the slot its own source gives. */
  ghost predicate Returned(s: State, t: State, was: int) {
    && was in s.info && was in t.info && !t.info[was].inTried
    && var u := NewSlot(s.hash, s.key, s.info[was].addr, s.info[was].source);
       u in t.newTable && t.newTable[u] == was
  }

  lemma EvictedInv(s: State, k: Slot, n: int)
    requires Inv(s, {n}) && k == TriedSlot(s.hash, s.key, s.info[n].addr)
    ensures Inv(Evicted(s, k, {n}), {n}) && k !in Evicted(s, k, {n}).triedTable
    ensures Evicted(s, k, {n}).info[n].(randomPos := 0) == s.info[n].(randomPos := 0)
    ensures Grows(s.(triedTable := s.triedTable - {k}), Evicted(s, k, {n}))
    ensures Evicted(s, k, {n}).idCount == s.idCount && Evicted(s, k, {n}).collisions == s.collisions
    ensures Evicted(s, k, {n}).triedTable == s.triedTable - {k} && Evicted(s, k, {n}).lastGood == s.lastGood
    ensures k in s.triedTable ==> Returned(s, Evicted(s, k, {n}), s.triedTable[k])
  {
    hide IndexOk, NewOk, CountsOk, Reentered, EntryOk, TriedSlot, NewSlotIn, NewSlot;
    if k in s.triedTable {
      var was := s.triedTable[k];
      EntryRefs(s, n, {n});
      DemotedInv(s, was, {n});
      ReenteredInv(Demoted(s, was), was, n);
    }
  }

  lemma EntryRefs(s: State, n: int, holes: set<int>)
    requires Inv(s, holes) && n in holes
    ensures !s.info[n].inTried && s.info[n].refCount == 0
  {
    assert EntryOk(s.info[n], true);
  }

  /** MakeTried: drop all references, make room in the tried slot, move in. */
  function MadeTried(s: State, n: int): State
    requires Inv(s, {}) && n in s.info && !s.info[n].inTried
  {
    UnreferencedInv(s, n);
    var k := TriedSlot(s.hash, s.key, s.info[n].addr);
    EvictedInv(Unreferenced(s, n), k, n);
    Promoted(Evicted(Unreferenced(s, n), k, {n}), n)
  }

  lemma RivalDiffers(s: State, n: int)
    requires Inv(s, {}) && n in s.info && !s.info[n].inTried
    ensures forall k :: k in s.triedTable ==> s.triedTable[k] in s.info && s.triedTable[k] != n
  {
    hide IndexOk, CountsOk, NewOk, TriedSlot;
  }

  lemma MadeTriedInv(s: State, n: int)
    requires Inv(s, {}) && n in s.info && !s.info[n].inTried
    ensures Inv(MadeTried(s, n), {})
    ensures Grows(s, MadeTried(s, n))
    ensures MadeTried(s, n).idCount == s.idCount && MadeTried(s, n).collisions == s.collisions
    ensures n in MadeTried(s, n).info && MadeTried(s, n).info[n].inTried
    ensures var k := TriedSlot(s.hash, s.key, s.info[n].addr);
            && MadeTried(s, n).triedTable == s.triedTable[k := n] && MadeTried(s, n).lastGood == s.lastGood
            && (k in s.triedTable ==> Returned(s, MadeTried(s, n), s.triedTable[k]))
  {
    hide IndexOk, TriedOk, CountsOk, NewOk, EntryOk, Evicted, TriedSlot, NewSlot;
    if TriedSlot(s.hash, s.key, s.info[n].addr) in s.triedTable { RivalDiffers(s, n); }
    UnreferencedInv(s, n);
    var k := TriedSlot(s.hash, s.key, s.info[n].addr);
    var t := Unreferenced(s, n);
    EvictedInv(t, k, n);
    var e := Evicted(t, k, {n});
    assert e.info[n].(randomPos := 0).addr == t.info[n].addr;
    PromotedInv(e, n, {n});
    assert {n} - {n} == {};
  }

  // ---------- Positions without addresses ----------

  lemma SwappedRandom(s: State, i: int, j: int)
    requires 0 <= i < |s.random| && 0 <= j < |s.random| && RandomOk(s)
    ensures RandomOk(Swapped(s, i, j))
  {
    hide Swapped;
    SwappedEffect(s, i, j);
    var t := Swapped(s, i, j);
    assert |t.info| == |t.info.Keys| == |s.info.Keys| == |s.info|;
    forall m | m in t.info ensures EntryPlaced(t, m) {
      assert EntryPlaced(s, m);
    }
    forall q | 0 <= q < |t.random| ensures t.random[q] in t.info && t.info[t.random[q]].randomPos == q {
      assert t.random[q] == s.random[Trade(q, i, j)];
    }
  }

  lemma DroppedRandom(s: State, n: int)
    requires RandomOk(s) && n in s.info && |s.random| > 0 && s.info[n].randomPos == |s.random| - 1
    ensures RandomOk(Dropped(s, n))
  {
    var t := Dropped(s, n);
    assert EntryPlaced(s, n);
    assert t.info.Keys == s.info.Keys - {n};
    assert |t.info| == |t.info.Keys| && |s.info| == |s.info.Keys|;
    forall m | m in t.info ensures EntryPlaced(t, m) {
      assert EntryPlaced(s, m);
    }
  }

  /** Deleting an entry takes its position and its address, and nothing else. */
  lemma ErasedEffect(s: State, n: int)
    requires n in s.info && RandomOk(s)
    ensures var t := Erased(s, n);
            && RandomOk(t) && t.info.Keys == s.info.Keys - {n}
            && t == s.(info := t.info, random := t.random, addr := s.addr - {s.info[n].addr.ip}, nNew := s.nNew - 1)
            && forall m :: m in t.info ==> t.info[m].(randomPos := 0) == s.info[m].(randomPos := 0)
  {
    hide Swapped, RandomOk;
    PlacedLast(s, n);
    var i, j := s.info[n].randomPos, |s.random| - 1;
    SwappedEffect(s, i, j);
    SwappedRandom(s, i, j);
    var u := Swapped(s, i, j);
    assert u.info[n] == s.info[n].(randomPos := Trade(i, i, j));
    DroppedRandom(u, n);
    assert Erased(s, n) == Dropped(u, n);
    forall m | m in Erased(s, n).info ensures Erased(s, n).info[m].(randomPos := 0) == s.info[m].(randomPos := 0) {
      assert u.info[m] == s.info[m].(randomPos := Trade(s.info[m].randomPos, i, j));
    }
  }

  lemma PlacedLast(s: State, n: int)
    requires n in s.info && RandomOk(s)
    ensures EntryPlaced(s, n) && |s.random| > 0 && s.random[|s.random| - 1] in s.info
  {
  }

  lemma CreatedRandom(s: State, e: Info)
    requires RandomOk(s) && s.idCount >= 0
    ensures s.idCount !in s.info && RandomOk(Created(s, e))
  {
    hide EntryPlaced, Created;
    var t := Created(s, e);
    PlacedUnused(s);
    CreatedSize(s, e);
    forall m | m in t.info ensures EntryPlaced(t, m) {
      CreatedPlaced(s, e, m);
    }
    forall i | 0 <= i < |t.random| ensures t.random[i] in t.info && t.info[t.random[i]].randomPos == i {
      CreatedPosition(s, e, i);
    }
  }

  lemma CreatedSize(s: State, e: Info)
    requires |s.random| == |s.info| && s.idCount !in s.info
    ensures |Created(s, e).random| == |Created(s, e).info|
  {
    var t := Created(s, e);
    assert t.info.Keys == s.info.Keys + {s.idCount};
    assert |t.info| == |t.info.Keys| && |s.info| == |s.info.Keys|;
  }

  lemma CreatedPosition(s: State, e: Info, i: int)
    requires RandomOk(s) && s.idCount !in s.info && 0 <= i < |Created(s, e).random|
    ensures var t := Created(s, e); t.random[i] in t.info && t.info[t.random[i]].randomPos == i
  {
    hide EntryPlaced;
    if i < |s.random| { assert s.random[i] in s.info; }
  }

  lemma PlacedUnused(s: State)
    requires RandomOk(s)
    ensures s.idCount !in s.info
  {
    forall m | m in s.info ensures m < s.idCount {
      assert EntryPlaced(s, m);
    }
  }

  lemma CreatedPlaced(s: State, e: Info, m: int)
    requires RandomOk(s) && s.idCount >= 0 && m in Created(s, e).info
    ensures EntryPlaced(Created(s, e), m)
  {
    if m != s.idCount { assert EntryPlaced(s, m); }
  }

  lemma MovedRandom(s: State, n: int, f: Info, t: State)
    requires RandomOk(s) && n in s.info && f.randomPos == s.info[n].randomPos
    requires t.info == s.info[n := f] && t.random == s.random && t.idCount == s.idCount
    ensures RandomOk(t)
  {
    assert t.info.Keys == s.info.Keys;
    assert |t.info| == |t.info.Keys| == |s.info.Keys| == |s.info|;
    forall m | m in t.info ensures EntryPlaced(t, m) {
      assert EntryPlaced(s, m);
    }
  }
}
