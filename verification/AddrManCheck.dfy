/** Check_ (src/addrman.cpp, DEBUG_ADDRMAN): the consistency test that the source can run
    around every operation, and whole runs of operations in which it never complains. */
module AddrManCheck {
  import opened Basics
  import opened AddrManState
  import opened AddrManOps
  import opened AddrManTimes
  import opened AddrMan

  // ---------- How far a scan of a table has come ----------

  predicate Before(k: Slot, bucket: int, pos: int) {
    k.bucket < bucket || (k.bucket == bucket && k.pos < pos)
  }

  function TriedFrom(s: State, bucket: int, pos: int): set<int> {
    set n | n in s.info && s.info[n].inTried && !Before(TriedSlot(s.hash, s.key, s.info[n].addr), bucket, pos)
  }

  function RefsFrom(s: State, n: int, bucket: int, pos: int): set<Slot> {
    set k | k in s.newTable && s.newTable[k] == n && !Before(k, bucket, pos)
  }

  // What is left of mapNew when the scan reaches a position.
  function NewFrom(s: State, bucket: int, pos: int): map<int, int> {
    map n | n in NewIds(s) && RefsFrom(s, n, bucket, pos) != {} :: |RefsFrom(s, n, bucket, pos)|
  }

  lemma TriedScan(s: State, bucket: int, pos: int)
    requires TriedOk(s)
    ensures var k := Slot(bucket, pos);
            && (k in s.triedTable ==>
                 && s.triedTable[k] in TriedFrom(s, bucket, pos)
                 && k == TriedSlot(s.hash, s.key, s.info[s.triedTable[k]].addr)
                 && TriedFrom(s, bucket, pos + 1) == TriedFrom(s, bucket, pos) - {s.triedTable[k]})
            && (k !in s.triedTable ==> TriedFrom(s, bucket, pos + 1) == TriedFrom(s, bucket, pos))
  {
    hide TriedSlot;
    var k := Slot(bucket, pos);
    var now, next := TriedFrom(s, bucket, pos), TriedFrom(s, bucket, pos + 1);
    forall n ensures n in next <==> n in now && !(k in s.triedTable && s.triedTable[k] == n) {
      if n in s.info && s.info[n].inTried {
        var t := TriedSlot(s.hash, s.key, s.info[n].addr);
        assert Before(t, bucket, pos + 1) <==> Before(t, bucket, pos) || t == k;
      }
    }
    if k in s.triedTable {
      var n := s.triedTable[k];
      assert n in s.info && s.info[n].inTried;
      assert !Before(TriedSlot(s.hash, s.key, s.info[n].addr), bucket, pos);
      assert n in now;
      assert next == now - {s.triedTable[k]};
    } else {
      assert next == now;
    }
  }

  // Slots have positions in range, so the end of a bucket is the start of the next.
  lemma TriedNextBucket(s: State, bucket: int)
    ensures TriedFrom(s, bucket, BUCKET_SIZE) == TriedFrom(s, bucket + 1, 0)
    ensures TriedFrom(s, 0, 0) == TriedIds(s)
    ensures TriedFrom(s, TRIED_BUCKET_COUNT, 0) == {}
  {
    forall n
      ensures n in TriedFrom(s, bucket, BUCKET_SIZE) <==> n in TriedFrom(s, bucket + 1, 0)
      ensures n in TriedFrom(s, 0, 0) <==> n in TriedIds(s)
      ensures n !in TriedFrom(s, TRIED_BUCKET_COUNT, 0)
    {
      if n in s.info {
        var t := TriedSlot(s.hash, s.key, s.info[n].addr);
        assert 0 <= t.bucket < TRIED_BUCKET_COUNT && 0 <= t.pos < BUCKET_SIZE;
      }
    }
  }

  lemma RefsScan(s: State, n: int, bucket: int, pos: int)
    ensures var k := Slot(bucket, pos);
            RefsFrom(s, n, bucket, pos) ==
              if k in s.newTable && s.newTable[k] == n then RefsFrom(s, n, bucket, pos + 1) + {k}
              else RefsFrom(s, n, bucket, pos + 1)
    ensures Slot(bucket, pos) !in RefsFrom(s, n, bucket, pos + 1)
  {
  }

  lemma NewScan(s: State, bucket: int, pos: int)
    requires NewOk(s)
    ensures var k := Slot(bucket, pos);
            var m, m' := NewFrom(s, bucket, pos), NewFrom(s, bucket, pos + 1);
            && (k !in s.newTable ==> m' == m)
            && (k in s.newTable ==>
                 var n := s.newTable[k];
                 && n in m && k == NewSlotIn(s.hash, s.key, s.info[n].addr, bucket)
                 && m' == if m[n] == 1 then m - {n} else m[n := m[n] - 1])
  {
    hide NewSlotIn, RefsFrom;
    var k := Slot(bucket, pos);
    forall n ensures RefsFrom(s, n, bucket, pos) ==
              if k in s.newTable && s.newTable[k] == n then RefsFrom(s, n, bucket, pos + 1) + {k}
              else RefsFrom(s, n, bucket, pos + 1)
    {
      RefsScan(s, n, bucket, pos);
    }
    if k in s.newTable {
      var n := s.newTable[k];
      RefsScan(s, n, bucket, pos);
      assert n in NewIds(s);
      assert |RefsFrom(s, n, bucket, pos)| == |RefsFrom(s, n, bucket, pos + 1)| + 1;
    }
  }

  lemma NewNextBucket(s: State, bucket: int)
    requires NewOk(s)
    ensures NewFrom(s, bucket, BUCKET_SIZE) == NewFrom(s, bucket + 1, 0)
    ensures NewFrom(s, NEW_BUCKET_COUNT, 0) == map[]
  {
    forall k | k in s.newTable ensures 0 <= k.bucket < NEW_BUCKET_COUNT && 0 <= k.pos < BUCKET_SIZE {
      assert k == NewSlotIn(s.hash, s.key, s.info[s.newTable[k]].addr, k.bucket);
    }
    forall n ensures RefsFrom(s, n, bucket, BUCKET_SIZE) == RefsFrom(s, n, bucket + 1, 0) {
    }
    forall n ensures RefsFrom(s, n, NEW_BUCKET_COUNT, 0) == {} {
    }
  }

  lemma NewScanStart(s: State)
    requires NewOk(s) && forall n :: n in s.info && !s.info[n].inTried ==> s.info[n].refCount >= 1
    ensures NewFrom(s, 0, 0) == map n | n in NewIds(s) :: s.info[n].refCount
  {
    hide NewSlotIn;
    forall k | k in s.newTable ensures 0 <= k.bucket && 0 <= k.pos {
      SlotInRange(s, k);
    }
    forall n | n in NewIds(s) ensures RefsFrom(s, n, 0, 0) == Refs(s, n) && RefsFrom(s, n, 0, 0) != {} {
    }
  }

  lemma SlotInRange(s: State, k: Slot)
    requires NewOk(s) && k in s.newTable
    ensures 0 <= k.bucket < NEW_BUCKET_COUNT && 0 <= k.pos < BUCKET_SIZE
  {
    assert k == NewSlotIn(s.hash, s.key, s.info[s.newTable[k]].addr, k.bucket);
  }

  lemma SizesAddUp(s: State)
    requires Inv(s, {})
    ensures |s.random| == s.nTried + s.nNew
  {
    assert s.info.Keys == NewIds(s) + TriedIds(s);
    assert |s.info| == |s.info.Keys|;
  }

  // The entries seen by the first loop, all but `todo`.
  function TriedSeen(s: State, todo: set<int>): set<int> { TriedIds(s) - todo }
  function NewSeen(s: State, todo: set<int>): map<int, int> { map n | n in NewIds(s) - todo :: s.info[n].refCount }

  lemma SeenStep(s: State, todo: set<int>, n: int)
    requires n in todo && n in s.info
    ensures TriedSeen(s, todo - {n}) == if s.info[n].inTried then TriedSeen(s, todo) + {n} else TriedSeen(s, todo)
    ensures NewSeen(s, todo - {n}) ==
              if s.info[n].inTried then NewSeen(s, todo) else NewSeen(s, todo)[n := s.info[n].refCount]
  {
  }

  lemma SeenEnds(s: State)
    ensures TriedSeen(s, s.info.Keys) == {} && NewSeen(s, s.info.Keys) == map[]
    ensures TriedSeen(s, {}) == TriedIds(s) && NewSeen(s, {}) == map n | n in NewIds(s) :: s.info[n].refCount
  {
    assert TriedIds(s) <= s.info.Keys && NewIds(s) <= s.info.Keys;
  }

  // ---------- What the check accepts ----------

  /** What reading mapAddr with [] answers: id 0 for an address it does not know. */
  function IdOf(s: State, a: NetAddr): int { if a in s.addr then s.addr[a] else 0 }

  /** The tests on one entry. */
  predicate EntryChecked(s: State, n: int)
    requires n in s.info
  {
    var e := s.info[n];
    && (if e.inTried then e.lastSuccess != 0 && e.refCount == 0 else 1 <= e.refCount <= NEW_BUCKETS_PER_ADDRESS)
    && n == IdOf(s, e.addr.ip)
    && Located(s, n)
    && e.lastTry >= 0 && e.lastSuccess >= 0
  }

  /** All that Check_ tests for. */
  ghost predicate Checked(s: State) {
    && s.key != 0 && |s.random| == s.nTried + s.nNew && CountsOk(s)
    && (forall n :: n in s.info ==> EntryChecked(s, n))
    && TriedOk(s) && NewOk(s)
  }

  // The tables are arrays of these sizes.
  ghost predicate TablesSized(s: State) {
    && (forall k :: k in s.triedTable ==> 0 <= k.bucket < TRIED_BUCKET_COUNT && 0 <= k.pos < BUCKET_SIZE)
    && (forall k :: k in s.newTable ==> 0 <= k.bucket < NEW_BUCKET_COUNT && 0 <= k.pos < BUCKET_SIZE)
  }

  /** The invariant of all operations implies everything the check tests for, but for the times, which are tested
      too. */
  lemma ConsistentIsChecked(s: State)
    requires Inv(s, {})
    ensures TablesSized(s) && (Checked(s) <==> TimesOk(s))
  {
    hide CountsOk, NewSlotIn;
    SizesAddUp(s);
    forall n | n in s.info ensures EntryChecked(s, n) <==> EntryTimed(s.info[n]) {
      assert EntryOk(s.info[n], n in {}) && EntryIndexed(s, n);
    }
    forall k | k in s.newTable ensures 0 <= k.bucket < NEW_BUCKET_COUNT && 0 <= k.pos < BUCKET_SIZE {
      SlotInRange(s, k);
    }
    forall k | k in s.triedTable ensures 0 <= k.bucket < TRIED_BUCKET_COUNT && 0 <= k.pos < BUCKET_SIZE {
      assert k == TriedSlot(s.hash, s.key, s.info[s.triedTable[k]].addr);
    }
  }

  // ---------- What the check leaves out ----------

  /** What consistency asks for and Check_ does not look at: ids come from the counter, mapAddr has no
      entry of its own, and entry 0, which an unknown address reads as, has its address there. */
  ghost predicate NotTested(s: State) {
    IdsFromCounter(s) && AddressesOwned(s) && (0 in s.info ==> s.info[0].addr.ip in s.addr)
  }

  ghost predicate IdsFromCounter(s: State) {
    s.idCount >= 0 && forall n :: n in s.info ==> 0 <= n < s.idCount
  }

  ghost predicate AddressesOwned(s: State) {
    forall a :: a in s.addr ==> s.addr[a] in s.info && s.info[s.addr[a]].addr.ip == a
  }

  /** Answer 0 means consistent exactly when what is not tested holds as well. */
  lemma CheckedMeaning(s: State)
    ensures Inv(s, {}) && TimesOk(s) <==> Checked(s) && NotTested(s)
  {
    hide CountsOk, TriedOk, NewOk;
    if Inv(s, {}) && TimesOk(s) {
      ConsistentIsChecked(s);
      forall n | n in s.info ensures 0 <= n < s.idCount && s.info[n].addr.ip in s.addr {
        assert EntryIndexed(s, n);
      }
    }
    if Checked(s) && NotTested(s) {
      CheckedSizes(s);
      forall n | n in s.info ensures EntryIndexed(s, n) && EntryOk(s.info[n], n in {}) && EntryTimed(s.info[n]) {
        assert EntryChecked(s, n);
      }
      PositionsCovered(s);
    }
  }

  lemma CheckedSizes(s: State)
    requires CountsOk(s) && |s.random| == s.nTried + s.nNew
    ensures |s.random| == |s.info|
  {
    assert s.info.Keys == NewIds(s) + TriedIds(s);
    assert |s.info| == |s.info.Keys|;
  }

  /** Entries have positions of their own, so with as many positions as entries none is left over. */
  lemma PositionsCovered(s: State)
    requires |s.random| == |s.info| && forall n :: n in s.info ==> EntryChecked(s, n)
    ensures forall i :: 0 <= i < |s.random| ==> s.random[i] in s.info && s.info[s.random[i]].randomPos == i
  {
    forall n | n in s.info.Keys ensures Located(s, n) {
      assert EntryChecked(s, n);
    }
    var taken := Positions(s, s.info.Keys);
    assert taken <= Range(|s.random|);
    SubsetFull(taken, Range(|s.random|));
    forall i | 0 <= i < |s.random| ensures s.random[i] in s.info && s.info[s.random[i]].randomPos == i {
      assert i in Range(|s.random|);
    }
  }

  lemma {:induction false} Positions(s: State, ids: set<int>) returns (r: set<int>)
    requires ids <= s.info.Keys && forall n :: n in ids ==> Located(s, n)
    ensures |r| == |ids|
    ensures forall i :: i in r ==> 0 <= i < |s.random| && s.random[i] in ids && s.info[s.random[i]].randomPos == i
    decreases |ids|
  {
    if ids == {} {
      r := {};
    } else {
      var m := Member(ids);
      assert Located(s, m);
      var rest := Positions(s, ids - {m});
      assert s.info[m].randomPos !in rest;
      r := rest + {s.info[m].randomPos};
    }
  }

  function Forgotten(s: State, n: int): State
    requires n in s.info
  {
    s.(addr := s.addr - {s.info[n].addr.ip})
  }

  /** When mapAddr loses the address of an entry the check complains, unless that entry is entry 0. */
  lemma ForgottenAddress(s: State, n: int)
    requires Inv(s, {}) && TimesOk(s) && n in s.info
    ensures !Inv(Forgotten(s, n), {})
    ensures Checked(Forgotten(s, n)) <==> n == 0
  {
    hide TriedSlot, NewSlotIn;
    ConsistentIsChecked(s);
    var t := Forgotten(s, n);
    assert EntryChecked(s, n) && EntryIndexed(s, n);
    assert !EntryIndexed(t, n);
    assert NewIds(t) == NewIds(s) && TriedIds(t) == TriedIds(s);
    forall m | m in t.info ensures Refs(t, m) == Refs(s, m) && (EntryChecked(t, m) <==> m != n || n == 0) {
      assert EntryChecked(s, m) && EntryIndexed(s, m);
    }
  }

  // ---------- What the check leaves behind ----------

  /** Reading mapAddr for an entry also inserts what it answers. */
  function Looked(s: State, n: int): State
    requires n in s.info
  {
    s.(addr := s.addr[s.info[n].addr.ip := IdOf(s, s.info[n].addr.ip)])
  }

  /** The manager once every entry has been looked up with success: entry 0 has got its address. */
  function Read(s: State): State { if 0 in s.info then Looked(s, 0) else s }

  // The same but for addresses that are unknown and read as 0, or known as 0.
  ghost predicate ReadsAlike(s: State, t: State) {
    t == s.(addr := t.addr) && forall a :: IdOf(t, a) == IdOf(s, a)
  }

  lemma LookedAlike(s: State, n: int)
    requires n in s.info
    ensures ReadsAlike(s, Looked(s, n)) && ReadsAlike(s, Read(s))
    ensures s.info[n].addr.ip in s.addr ==> Looked(s, n) == s
    ensures IdOf(s, s.info[n].addr.ip) == n && n != 0 ==> Looked(s, n) == s
  {
    assert s.info[n].addr.ip in s.addr ==> s.addr[s.info[n].addr.ip := s.addr[s.info[n].addr.ip]] == s.addr;
  }

  lemma AlikeChecked(s: State, t: State)
    requires ReadsAlike(s, t)
    ensures (Checked(t) <==> Checked(s)) && (TablesSized(t) <==> TablesSized(s))
    ensures TriedIds(t) == TriedIds(s) && NewIds(t) == NewIds(s)
    ensures (TriedOk(t) <==> TriedOk(s)) && (NewOk(t) <==> NewOk(s))
    ensures forall n :: n in s.info ==> (EntryChecked(t, n) <==> EntryChecked(s, n))
  {
    hide TriedSlot, NewSlotIn;
    assert TriedIds(t) == TriedIds(s) && NewIds(t) == NewIds(s);
    forall n ensures Refs(t, n) == Refs(s, n) {
    }
    forall n | n in s.info ensures EntryChecked(t, n) <==> EntryChecked(s, n) {
      assert IdOf(t, s.info[n].addr.ip) == IdOf(s, s.info[n].addr.ip);
    }
  }

  /** A manager that the check accepts is consistent when it returns exactly if ids come from the counter and
      mapAddr has no entry of its own: the check repairs the address that it does not notice. */
  lemma CheckRepairs(s: State)
    requires Checked(s)
    ensures Inv(Read(s), {}) && TimesOk(Read(s)) <==> IdsFromCounter(s) && AddressesOwned(s)
  {
    hide Inv, TimesOk, Checked, TablesSized, EntryChecked, TriedOk, NewOk;
    if 0 in s.info {
      LookedAlike(s, 0);
      AlikeChecked(s, Read(s));
      ZeroReads(s);
    }
    CheckedMeaning(Read(s));
    ReadOwned(s);
  }

  // A passing entry 0 reads as 0.
  lemma ZeroReads(s: State)
    requires Checked(s) && 0 in s.info
    ensures IdOf(s, s.info[0].addr.ip) == 0
  {
    assert EntryChecked(s, 0);
  }

  lemma ReadOwned(s: State)
    requires 0 in s.info ==> IdOf(s, s.info[0].addr.ip) == 0
    ensures NotTested(Read(s)) <==> IdsFromCounter(s) && AddressesOwned(s)
  {
    var t := Read(s);
    assert IdsFromCounter(t) <==> IdsFromCounter(s);
    if AddressesOwned(t) {
      forall a | a in s.addr ensures s.addr[a] in s.info && s.info[s.addr[a]].addr.ip == a {
        assert a in t.addr;
      }
    }
  }

  // ---------- Check_ ----------

  /** What the first loop leaves of the manager: as it was, with entry 0 looked up, or with the one entry looked up
      as well whose address reads as another id. */
  ghost predicate Left(s: State, err: int, t: State) {
    || t == s || t == Read(s)
    || (err == -5 &&
        exists n :: n in s.info && IdOf(s, s.info[n].addr.ip) != n && (t == Looked(s, n) || t == Looked(Read(s), n)))
  }

  /** The tests of one entry: errors -1 to -6, -8 and -14. */
  method CheckEntry(m: AddressManager, n: int, ghost s: State) returns (err: int)
    requires n in m.mapInfo && (m.S() == s || m.S() == Read(s))
    modifies m`mapAddr
    ensures err == 0 <==> EntryChecked(s, n)
    ensures Left(s, err, m.S()) && (err == 0 ==> m.S() == if n == 0 then Read(s) else old(m.S()))
  {
    hide Read, Left;
    LeftAlone(s);
    SameOnceRead(s);
    var e := m.mapInfo[n];
    if e.inTried {
      if e.lastSuccess == 0 { return -1; }
      if e.refCount != 0 { return -2; }
    } else {
      if e.refCount < 0 || e.refCount > NEW_BUCKETS_PER_ADDRESS { return -3; }
      if e.refCount == 0 { return -4; }
    }
    LookedOnce(s, m.S(), n);
    var known := if e.addr.ip in m.mapAddr then m.mapAddr[e.addr.ip] else 0;
    m.mapAddr := m.mapAddr[e.addr.ip := known];
    assert m.S() == Looked(old(m.S()), n);
    if known != n { return -5; }
    if e.randomPos < 0 || e.randomPos >= |m.vRandom| || m.vRandom[e.randomPos] != n { return -14; }
    if e.lastTry < 0 { return -6; }
    if e.lastSuccess < 0 { return -8; }
    err := 0;
  }

  lemma SameOnceRead(s: State)
    ensures Read(s) == s.(addr := Read(s).addr)
  {
  }

  /** The loop over mapInfo and the two working sets. */
  method CheckEntries(m: AddressManager) returns (err: int, setTried: set<int>, mapNew: map<int, int>)
    modifies m`mapAddr
    ensures err == 0 <==> forall n :: n in m.mapInfo ==> EntryChecked(old(m.S()), n)
    ensures err == 0 ==> setTried == TriedIds(m.S()) && mapNew == map n | n in NewIds(m.S()) :: m.mapInfo[n].refCount
    ensures Left(old(m.S()), err, m.S()) && (err == 0 ==> m.S() == Read(old(m.S())))
  {
    hide TriedSeen, NewSeen, EntryChecked, Left, Read;
    err, setTried, mapNew := 0, {}, map[];
    ghost var s := m.S();
    SeenEnds(s);
    SameOnceRead(s);
    LeftAlone(s);
    var todo := m.mapInfo.Keys;
    while todo != {}
      invariant todo <= m.mapInfo.Keys && (m.S() == s || m.S() == Read(s))
      invariant 0 in s.info && 0 !in todo ==> m.S() == Read(s)
      invariant setTried == TriedSeen(s, todo) && mapNew == NewSeen(s, todo)
      invariant forall n :: n in m.mapInfo && n !in todo ==> EntryChecked(s, n)
      invariant err == 0
      decreases |todo|
    {
      ghost var member := Member(todo);
      var n :| n in todo;
      SeenStep(s, todo, n);
      err := CheckEntry(m, n, s);
      if err != 0 { return; }
      if m.mapInfo[n].inTried {
        setTried := setTried + {n};
      } else {
        mapNew := mapNew[n := m.mapInfo[n].refCount];
      }
      todo := todo - {n};
    }
    NothingRead(s);
    SameIds(s, m.S());
  }

  lemma NothingRead(s: State)
    ensures 0 !in s.info ==> Read(s) == s
  {
  }

  // Looking up one entry, after entry 0 has been looked up or before.
  lemma LookedOnce(s: State, t: State, n: int)
    requires n in s.info && (t == s || t == Read(s))
    ensures IdOf(t, s.info[n].addr.ip) == IdOf(s, s.info[n].addr.ip)
    ensures IdOf(s, s.info[n].addr.ip) == n ==>
              if n == 0 then Looked(t, n) == Read(s) else Looked(t, n) == t
    ensures IdOf(s, s.info[n].addr.ip) != n ==> Left(s, -5, Looked(t, n))
  {
    LookedAlike(s, n);
    LookedAlike(t, n);
    if 0 in s.info { LookedAlike(s, 0); }
  }

  lemma SameIds(s: State, t: State)
    requires t.info == s.info
    ensures TriedIds(t) == TriedIds(s) && NewIds(t) == NewIds(s)
  {
  }

  /** What the scan of the tried table has established when it reaches a position. */
  ghost predicate TriedPassed(s: State, left: set<int>, bucket: int, pos: int) {
    && left <= TriedIds(s)
    && (forall k :: k in s.triedTable && !(k.bucket < 0 || k.pos < 0) && Before(k, bucket, pos) ==> HoldsTried(s, k))
    && (forall n :: n in TriedIds(s) && n !in left ==>
          var k := TriedSlot(s.hash, s.key, s.info[n].addr); k in s.triedTable && s.triedTable[k] == n)
  }

  ghost predicate HoldsTried(s: State, k: Slot)
    requires k in s.triedTable
  {
    var n := s.triedTable[k];
    n in s.info && s.info[n].inTried && k == TriedSlot(s.hash, s.key, s.info[n].addr)
  }

  lemma TriedPassedAll(s: State)
    requires TriedPassed(s, {}, TRIED_BUCKET_COUNT, 0) && TablesSized(s)
    ensures TriedOk(s)
  {
    hide TriedSlot;
    forall k | k in s.triedTable ensures HoldsTried(s, k) {
    }
  }

  lemma TriedPassedNext(s: State, left: set<int>, bucket: int, pos: int)
    requires TriedPassed(s, left, bucket, pos) && bucket >= 0 && pos >= 0
    requires var k := Slot(bucket, pos); k in s.triedTable ==>
              s.triedTable[k] in left && k == TriedSlot(s.hash, s.key, s.info[s.triedTable[k]].addr)
    ensures var k := Slot(bucket, pos);
            TriedPassed(s, if k in s.triedTable then left - {s.triedTable[k]} else left, bucket, pos + 1)
  {
    hide TriedSlot;
    var k := Slot(bucket, pos);
    forall j | j in s.triedTable && !(j.bucket < 0 || j.pos < 0) && Before(j, bucket, pos + 1)
      ensures HoldsTried(s, j)
    {
      if !Before(j, bucket, pos) { assert j == k; }
    }
  }

  lemma TriedPassedBucket(s: State, left: set<int>, bucket: int)
    requires TriedPassed(s, left, bucket, BUCKET_SIZE) && TablesSized(s)
    ensures TriedPassed(s, left, bucket + 1, 0)
  {
    hide TriedSlot;
    forall j | j in s.triedTable && !(j.bucket < 0 || j.pos < 0) && Before(j, bucket + 1, 0) ensures HoldsTried(s, j) {
      assert Before(j, bucket, BUCKET_SIZE);
    }
  }

  lemma TriedPassedNone(s: State)
    ensures TriedPassed(s, TriedIds(s), 0, 0)
  {
  }

  /** The scan of vvTried: it ends with nothing left over exactly when every tried entry sits at its own slot. */
  method CheckTriedTable(m: AddressManager, tried: set<int>) returns (err: int, setTried: set<int>)
    requires tried == TriedIds(m.S()) && TablesSized(m.S())
    ensures err == 0 && setTried == {} <==> TriedOk(m.S())
  {
    hide TriedOk, TriedSlot, TriedFrom, TriedPassed, TablesSized;
    ghost var ok := TriedOk(m.S());
    setTried := tried;
    TriedNextBucket(m.S(), 0);
    TriedPassedNone(m.S());
    for n := 0 to TRIED_BUCKET_COUNT
      invariant ok ==> setTried == TriedFrom(m.S(), n, 0)
      invariant setTried <= TriedIds(m.S()) && TriedPassed(m.S(), setTried, n, 0)
    {
      for i := 0 to BUCKET_SIZE
        invariant ok ==> setTried == TriedFrom(m.S(), n, i)
        invariant setTried <= TriedIds(m.S()) && TriedPassed(m.S(), setTried, n, i)
      {
        if ok { TriedScan(m.S(), n, i); }
        var k := Slot(n, i);
        if k in m.vvTried {
          var id := m.vvTried[k];
          if id !in setTried { return -11, setTried; }
          var at := TriedSlot(m.hash, m.nKey, m.mapInfo[id].addr);
          if at.bucket != n { return -17, setTried; }
          if at.pos != i { return -18, setTried; }
          TriedPassedNext(m.S(), setTried, n, i);
          setTried := setTried - {id};
        } else {
          TriedPassedNext(m.S(), setTried, n, i);
        }
      }
      TriedNextBucket(m.S(), n);
      TriedPassedBucket(m.S(), setTried, n);
    }
    if setTried == {} { TriedPassedAll(m.S()); }
    err := 0;
  }

  // References at positions the scan has gone through.
  function RefsBefore(s: State, n: int, bucket: int, pos: int): set<Slot> {
    set k | k in s.newTable && s.newTable[k] == n && Before(k, bucket, pos)
  }

  function Count(left: map<int, int>, n: int): int { if n in left then left[n] else 0 }

  /** What the scan of the new table has established: reference counts are those left and those seen. */
  ghost predicate NewPassed(s: State, left: map<int, int>, bucket: int, pos: int) {
    && left.Keys <= NewIds(s) && (forall n :: n in left ==> left[n] >= 1)
    && (forall k :: k in s.newTable && Before(k, bucket, pos) ==> HoldsNew(s, k))
    && (forall n :: n in NewIds(s) ==> s.info[n].refCount == Count(left, n) + |RefsBefore(s, n, bucket, pos)|)
  }

  ghost predicate HoldsNew(s: State, k: Slot)
    requires k in s.newTable
  {
    var n := s.newTable[k];
    n in s.info && !s.info[n].inTried && k == NewSlotIn(s.hash, s.key, s.info[n].addr, k.bucket)
  }

  lemma NewPassedNone(s: State)
    requires TablesSized(s) && forall n :: n in s.info && !s.info[n].inTried ==> s.info[n].refCount >= 1
    ensures NewPassed(s, map n | n in NewIds(s) :: s.info[n].refCount, 0, 0)
  {
    hide NewSlotIn;
    forall n | n in NewIds(s) ensures RefsBefore(s, n, 0, 0) == {} {
    }
  }

  lemma NewPassedNext(s: State, left: map<int, int>, bucket: int, pos: int)
    requires NewPassed(s, left, bucket, pos)
    requires var k := Slot(bucket, pos);
             k in s.newTable ==>
               s.newTable[k] in left && k == NewSlotIn(s.hash, s.key, s.info[s.newTable[k]].addr, bucket)
    ensures var k := Slot(bucket, pos);
            NewPassed(s, if k !in s.newTable then left
                         else if left[s.newTable[k]] == 1 then left - {s.newTable[k]}
                         else left[s.newTable[k] := left[s.newTable[k]] - 1], bucket, pos + 1)
  {
    hide NewSlotIn, RefsBefore;
    var k := Slot(bucket, pos);
    forall j | j in s.newTable && Before(j, bucket, pos + 1) ensures HoldsNew(s, j) {
      if !Before(j, bucket, pos) { assert j == k; }
    }
    forall n | n in NewIds(s)
      ensures |RefsBefore(s, n, bucket, pos + 1)| ==
                |RefsBefore(s, n, bucket, pos)| + if k in s.newTable && s.newTable[k] == n then 1 else 0
    {
      RefsBeforeNext(s, n, bucket, pos);
    }
  }

  lemma RefsBeforeNext(s: State, n: int, bucket: int, pos: int)
    ensures var k := Slot(bucket, pos);
            && k !in RefsBefore(s, n, bucket, pos)
            && RefsBefore(s, n, bucket, pos + 1) ==
                 RefsBefore(s, n, bucket, pos) + if k in s.newTable && s.newTable[k] == n then {k} else {}
  {
  }

  lemma NewPassedBucket(s: State, left: map<int, int>, bucket: int)
    requires NewPassed(s, left, bucket, BUCKET_SIZE) && TablesSized(s)
    ensures NewPassed(s, left, bucket + 1, 0)
  {
    hide NewSlotIn;
    forall n | n in NewIds(s) ensures RefsBefore(s, n, bucket + 1, 0) == RefsBefore(s, n, bucket, BUCKET_SIZE) {
    }
  }

  lemma NewPassedAll(s: State)
    requires NewPassed(s, map[], NEW_BUCKET_COUNT, 0) && TablesSized(s)
    requires forall n :: n in s.info && s.info[n].inTried ==> s.info[n].refCount == 0
    ensures NewOk(s)
  {
    hide NewSlotIn;
    forall k | k in s.newTable ensures HoldsNew(s, k) {
    }
    forall n | n in s.info ensures s.info[n].refCount == |Refs(s, n)| {
      if s.info[n].inTried {
        assert Refs(s, n) == {};
      } else {
        assert Refs(s, n) == RefsBefore(s, n, NEW_BUCKET_COUNT, 0);
      }
    }
  }

  /** The scan of vvNew: no reference is left over exactly when every slot and reference count is right. */
  method CheckNewTable(m: AddressManager, refs: map<int, int>) returns (err: int, mapNew: map<int, int>)
    requires refs == (map n | n in NewIds(m.S()) :: m.mapInfo[n].refCount) && TablesSized(m.S())
    requires forall n :: n in m.mapInfo ==>
              if m.mapInfo[n].inTried then m.mapInfo[n].refCount == 0 else m.mapInfo[n].refCount >= 1
    ensures err == 0 && mapNew == map[] <==> NewOk(m.S())
  {
    hide NewOk, NewSlotIn, NewFrom, NewPassed, TablesSized;
    ghost var ok := NewOk(m.S());
    mapNew := refs;
    if ok { NewScanStart(m.S()); }
    NewPassedNone(m.S());
    for n := 0 to NEW_BUCKET_COUNT
      invariant ok ==> mapNew == NewFrom(m.S(), n, 0)
      invariant mapNew.Keys <= NewIds(m.S()) && NewPassed(m.S(), mapNew, n, 0)
    {
      for i := 0 to BUCKET_SIZE
        invariant ok ==> mapNew == NewFrom(m.S(), n, i)
        invariant mapNew.Keys <= NewIds(m.S()) && NewPassed(m.S(), mapNew, n, i)
      {
        if ok { NewScan(m.S(), n, i); }
        var k := Slot(n, i);
        if k in m.vvNew {
          var id := m.vvNew[k];
          if id !in mapNew { return -12, mapNew; }
          if NewSlotIn(m.hash, m.nKey, m.mapInfo[id].addr, n) != k { return -19, mapNew; }
          NewPassedNext(m.S(), mapNew, n, i);
          if mapNew[id] == 1 { mapNew := mapNew - {id}; } else { mapNew := mapNew[id := mapNew[id] - 1]; }
        } else {
          NewPassedNext(m.S(), mapNew, n, i);
        }
      }
      if ok { NewNextBucket(m.S(), n); }
      NewPassedBucket(m.S(), mapNew, n);
    }
    if ok { NewNextBucket(m.S(), 0); }
    if mapNew == map[] { NewPassedAll(m.S()); }
    err := 0;
  }

  /** Check_ answers 0 exactly for the states that pass all its tests, and then has looked entry 0 up. */
  method Check(m: AddressManager) returns (err: int)
    requires TablesSized(m.S())
    modifies m`mapAddr
    ensures err == 0 <==> Checked(old(m.S()))
    ensures err == 0 && NotTested(old(m.S())) <==> Inv(old(m.S()), {}) && TimesOk(old(m.S()))
    ensures Left(old(m.S()), err, m.S()) && (err == 0 ==> m.S() == Read(old(m.S())))
    ensures err == 0 ==>
              (Inv(m.S(), {}) && TimesOk(m.S()) <==> IdsFromCounter(old(m.S())) && AddressesOwned(old(m.S())))
  {
    hide TriedOk, NewOk, TablesSized, EntryChecked, NotTested, Inv, TimesOk, Left, Read, IdsFromCounter, AddressesOwned;
    ghost var s := m.S();
    LeftAlone(s);
    CheckedMeaning(s);
    if Checked(s) { CheckRepairs(s); }
    if |m.vRandom| != m.nTried + m.nNew { return -7; }
    var setTried, mapNew;
    err, setTried, mapNew := CheckEntries(m);
    if err != 0 { return; }
    ReadAlike(s);
    if |setTried| != m.nTried { return -9; }
    assert mapNew.Keys == NewIds(s);
    if |mapNew.Keys| != m.nNew { return -10; }
    ChecksOfEntries(s);
    err, setTried := CheckTriedTable(m, setTried);
    if err != 0 { return; }
    err, mapNew := CheckNewTable(m, mapNew);
    if err != 0 { return; }
    if |setTried| != 0 { return -13; }
    if |mapNew| != 0 { return -15; }
    assert mapNew == map[];
    if m.nKey == 0 { return -16; }
  }

  lemma LeftAlone(s: State)
    ensures forall err :: Left(s, err, s) && Left(s, err, Read(s))
  {
  }

  lemma ReadAlike(s: State)
    ensures Read(s).info == s.info && TriedIds(Read(s)) == TriedIds(s) && NewIds(Read(s)) == NewIds(s)
    ensures TablesSized(Read(s)) <==> TablesSized(s)
    ensures (TriedOk(Read(s)) <==> TriedOk(s)) && (NewOk(Read(s)) <==> NewOk(s))
  {
    hide TriedOk, NewOk, TablesSized, Checked, EntryChecked;
    if 0 in s.info {
      LookedAlike(s, 0);
      AlikeChecked(s, Read(s));
    }
  }

  lemma ChecksOfEntries(s: State)
    requires forall n :: n in s.info ==> EntryChecked(s, n)
    ensures forall n :: n in s.info ==> if s.info[n].inTried then s.info[n].refCount == 0 else s.info[n].refCount >= 1
  {
    forall n | n in s.info ensures if s.info[n].inTried then s.info[n].refCount == 0 else s.info[n].refCount >= 1 {
      assert EntryChecked(s, n);
    }
  }

  // ---------- Whole runs ----------

  datatype Op =
    | Add(a: Announced, source: NetAddr, penalty: int, now: int)
    | Good(addr: Service, testBeforeEvict: bool, time: int)
    | Attempt(addr: Service, countFailure: bool, time: int)
    | Connected(addr: Service, time: int)
    | SetServices(addr: Service, services: bv64)
    | GetAddr(now: int)
    | ResolveCollisions(now: int)
    | SelectTriedCollision

  // A time that a clock shows.
  predicate Timely(op: Op) {
    && (op.Good? ==> op.time > 0)
    && (op.Attempt? ==> op.time >= 0)
    && (op.ResolveCollisions? ==> op.now > 0)
  }

  method Perform(m: AddressManager, op: Op)
    requires Consistent(m.S())
    modifies m
    ensures Consistent(m.S()) && Grows(old(m.S()), m.S())
    ensures old(TimesOk(m.S())) && Timely(op) ==> TimesOk(m.S())
  {
    hide Inv, CollisionsOk, Grows, TimesOk, AfterAdd, AfterGood, AfterAttempt, AfterConnected, AfterSetServices,
        AfterResolveAll, Reindexed;
    ghost var s := m.S();
    match op {
      case Add(a, source, penalty, now) =>
        var _, lucky, _ := m.Add(a, source, penalty, now);
        if TimesOk(s) { AfterAddTimes(s, a, source, penalty, now, lucky); }
      case Good(a, test, time) =>
        m.Good(a, test, time);
        if TimesOk(s) { GoodTimes(s, a, test, time); }
      case Attempt(a, count, time) =>
        m.Attempt(a, count, time);
        if TimesOk(s) { StatisticsTimes(s, a, count, time, 0); }
      case Connected(a, time) =>
        m.Connected(a, time);
        if TimesOk(s) { StatisticsTimes(s, a, false, time, 0); }
      case SetServices(a, services) =>
        m.SetServices(a, services);
        if TimesOk(s) { StatisticsTimes(s, a, false, 0, services); }
      case GetAddr(now) =>
        var _, _ := m.GetAddr(now);
        ReindexedTimes(s, m.S());
        if TimesOk(s) { SameTimesOk(s, m.S()); }
      case ResolveCollisions(now) =>
        ghost var order := m.ResolveCollisions(now);
        if TimesOk(s) { AfterResolveAllTimes(s, order, m.isValid, now); }
      case SelectTriedCollision =>
        var _, _, _ := m.SelectTriedCollision();
        SameInfoTimes(s, m.S());
    }
  }

  lemma GoodTimes(s: State, a: Service, test: bool, time: int)
    requires Inv(s, {}) && TimesOk(s)
    ensures time > 0 ==> TimesOk(AfterGood(s, a, test, time))
  {
    hide TimesOk, AfterGood, TriedOk, NewOk, CountsOk;
    AfterGoodTimes(s, a, test, time);
  }

  lemma StatisticsTimes(s: State, a: Service, count: bool, time: int, services: bv64)
    requires Inv(s, {}) && TimesOk(s)
    ensures time >= 0 ==> TimesOk(AfterAttempt(s, a, count, time))
    ensures TimesOk(AfterConnected(s, a, time)) && TimesOk(AfterSetServices(s, a, services))
  {
    hide TimesOk, AfterAttempt, AfterConnected, AfterSetServices, TriedOk, NewOk, CountsOk;
    AfterAttemptTimes(s, a, count, time);
    AfterStatisticsTimes(s, a, time, services);
  }

  lemma SameInfoTimes(s: State, t: State)
    requires t.info == s.info
    ensures TimesOk(s) ==> TimesOk(t)
  {
  }

  /** The check on a consistent manager looks at the times only and changes nothing. */
  method CheckConsistent(m: AddressManager) returns (err: int)
    requires Consistent(m.S())
    modifies m`mapAddr
    ensures m.S() == old(m.S()) && (err == 0 <==> TimesOk(m.S()))
  {
    hide Inv, CollisionsOk, Checked, TablesSized, TimesOk, Left, Read, NotTested, IdsFromCounter, AddressesOwned;
    ghost var s := m.S();
    PassesCheck(s);
    err := Check(m);
    LeftConsistent(s, err, m.S());
  }

  /** Every run of operations keeps the tables consistent, whatever times it is given. After each of them the
      consistency check complains exactly if some time in an entry is wrong, so never while all times are timely. */
  method Run(m: AddressManager, ops: seq<Op>) returns (errors: seq<int>, ghost states: seq<State>)
    requires Consistent(m.S())
    modifies m
    ensures |errors| == |ops| && |states| == |ops| + 1 && states[0] == old(m.S()) && states[|ops|] == m.S()
    ensures forall i :: 0 <= i < |states| ==> Consistent(states[i]) && Grows(states[0], states[i])
    ensures forall i :: 0 <= i < |errors| ==> (errors[i] == 0 <==> TimesOk(states[i + 1]))
    ensures TimesOk(states[0]) && (forall op :: op in ops ==> Timely(op)) ==>
              forall i :: 0 <= i < |errors| ==> errors[i] == 0
  {
    hide Consistent, Grows, TimesOk, Timely;
    errors, states := [], [m.S()];
    GrowsReflexive(m.S());
    for i := 0 to |ops|
      invariant |errors| == i && |states| == i + 1 && states[0] == old(m.S()) && states[i] == m.S()
      invariant forall j :: 0 <= j <= i ==> Consistent(states[j]) && Grows(states[0], states[j])
      invariant forall j :: 0 <= j < i ==> (errors[j] == 0 <==> TimesOk(states[j + 1]))
      invariant TimesOk(states[0]) && (forall op :: op in ops ==> Timely(op)) ==>
                  forall j :: 0 <= j <= i ==> TimesOk(states[j])
    {
      Perform(m, ops[i]);
      GrowsTransitive(states[0], states[i], m.S());
      var err := CheckConsistent(m);
      errors, states := errors + [err], states + [m.S()];
    }
  }

  /** The check does not change a consistent manager. */
  lemma LeftConsistent(s: State, err: int, t: State)
    requires Inv(s, {}) && Left(s, err, t)
    ensures t == s
  {
    hide TriedOk, NewOk, CountsOk, EntryOk;
    forall n | n in s.info ensures s.info[n].addr.ip in s.addr && IdOf(s, s.info[n].addr.ip) == n && Looked(s, n) == s {
      assert EntryIndexed(s, n);
      LookedAlike(s, n);
    }
  }

  lemma PassesCheck(s: State)
    requires Consistent(s)
    ensures TablesSized(s) && (Checked(s) <==> TimesOk(s))
  {
    hide Inv;
    ConsistentIsChecked(s);
  }
}
