/** The operations of the address manager (src/addrman.cpp) on its tables as values,
    and what every one of them keeps. */
module AddrManOps {
  import opened AddrManState

  const HORIZON_DAYS := 30
  const RETRIES := 3
  const MAX_FAILURES := 10
  const MIN_FAIL_DAYS := 7
  const REPLACEMENT_HOURS := 4
  const GETADDR_MAX_PCT := 23
  const GETADDR_MAX := 2500
  const TEST_WINDOW := 40 * 60

  // CAddress: what peers announce.
  datatype Announced = Announced(addr: Service, time: int, services: bv64)

  predicate IsTerrible(e: Info, now: int) {
    if e.lastTry != 0 && e.lastTry >= now - 60 then false
    else
      || e.time > now + 10 * 60
      || e.time == 0 || now - e.time > HORIZON_DAYS * 24 * 60 * 60
      || (e.lastSuccess == 0 && e.attempts >= RETRIES)
      || (now - e.lastSuccess > MIN_FAIL_DAYS * 24 * 60 * 60 && e.attempts >= MAX_FAILURES)
  }

  function Max(a: int, b: int): int { if a < b then b else a }

  // ---------- The operations on the tables as values ----------

  /** Good_: note the success and, unless it is tried already or must first be tested
      against the entry it would evict, move the entry to the tried table. */
  function AfterGood(s: State, a: Service, testBeforeEvict: bool, time: int): State
    requires Inv(s, {})
  {
    var s0 := s.(lastGood := time);
    if a.ip !in s.addr || s.info[s.addr[a.ip]].addr != a then s0
    else
      var n := s.addr[a.ip];
      var s1 := SetInfo(s0, n, s.info[n].(lastSuccess := time, lastTry := time, attempts := 0));
      SucceededInv(s, n, time);
      if s1.info[n].inTried then s1
      else if testBeforeEvict && TriedSlot(s1.hash, s1.key, a) in s1.triedTable then
        if |s1.collisions| < SET_TRIED_COLLISION_SIZE then s1.(collisions := s1.collisions + {n}) else s1
      else MadeTried(s1, n)
  }

  lemma SucceededInv(s: State, n: int, time: int)
    requires Inv(s, {}) && n in s.info
    ensures Inv(SetInfo(s.(lastGood := time), n, s.info[n].(lastSuccess := time, lastTry := time, attempts := 0)), {})
  {
    hide IndexOk, TriedOk, CountsOk;
    StatisticsInv(s, n, s.info[n].(lastSuccess := time, lastTry := time, attempts := 0), time);
  }

  // Updating an entry's statistics disturbs nothing.
  lemma StatisticsInv(s: State, n: int, f: Info, lastGood: int)
    requires Inv(s, {}) && n in s.info && SamePlace(s.info[n], f)
    requires f.inTried == s.info[n].inTried && f.refCount == s.info[n].refCount
    ensures Inv(SetInfo(s, n, f).(lastGood := lastGood), {})
  {
    hide IndexOk, TriedOk, CountsOk, TriedSlot, NewSlotIn;
    var t := SetInfo(s, n, f).(lastGood := lastGood);
    forall m | m in t.info ensures EntryOk(t.info[m], m in {}) && t.info[m].refCount == |Refs(t, m)| {
      assert EntryOk(s.info[m], m in {});
      assert Refs(t, m) == Refs(s, m);
    }
    TouchedInv(s, t, {}, {});
  }

  /** Good keeps the tables consistent and no pending collision loses its rival. */
  lemma AfterGoodConsistent(s: State, a: Service, testBeforeEvict: bool, time: int)
    requires Consistent(s)
    ensures Consistent(AfterGood(s, a, testBeforeEvict, time))
    ensures Grows(s, AfterGood(s, a, testBeforeEvict, time))
  {
    hide IndexOk, TriedOk, CountsOk, NewOk, MadeTried, TriedSlot, EntryOk;
    var t := AfterGood(s, a, testBeforeEvict, time);
    IndexedByAddress(s, a.ip);
    if a.ip in s.addr && s.info[s.addr[a.ip]].addr == a {
      var n := s.addr[a.ip];
      var s1 := SetInfo(s.(lastGood := time), n, s.info[n].(lastSuccess := time, lastTry := time, attempts := 0));
      SucceededInv(s, n, time);
      assert Grows(s, s1);
      GrowsKeepsCollisions(s, s1);
      if !s1.info[n].inTried && !(testBeforeEvict && TriedSlot(s1.hash, s1.key, a) in s1.triedTable) {
        MadeTriedInv(s1, n);
        GrowsKeepsCollisions(s1, t);
      } else {
        CollisionAdded(s1, n, t);
      }
    } else {
      LastGoodInv(s, time);
    }
  }

  lemma IndexedByAddress(s: State, ip: NetAddr)
    requires IndexOk(s)
    ensures ip in s.addr ==> s.addr[ip] in s.info && 0 <= s.addr[ip] < s.idCount && s.info[s.addr[ip]].addr.ip == ip
  {
    if ip in s.addr { assert EntryIndexed(s, s.addr[ip]); }
  }

  lemma LastGoodInv(s: State, time: int)
    requires Inv(s, {})
    ensures Inv(s.(lastGood := time), {})
  {
    var t := s.(lastGood := time);
    forall n | n in t.info ensures EntryIndexed(t, n) {
      assert EntryIndexed(s, n);
    }
    assert NewIds(t) == NewIds(s) && TriedIds(t) == TriedIds(s);
    forall n ensures Refs(t, n) == Refs(s, n) {
    }
  }

  lemma CollisionAdded(s: State, n: int, t: State)
    requires Inv(s, {}) && CollisionsOk(s) && n in s.info
    requires t == s || (t == s.(collisions := s.collisions + {n}) && |s.collisions| < SET_TRIED_COLLISION_SIZE
                        && TriedSlot(s.hash, s.key, s.info[n].addr) in s.triedTable)
    ensures Inv(t, {}) && CollisionsOk(t)
  {
    if t != s {
      assert EntryIndexed(s, n);
      forall m | m in t.info ensures EntryIndexed(t, m) {
        assert EntryIndexed(s, m);
      }
      assert NewIds(t) == NewIds(s) && TriedIds(t) == TriedIds(s);
      forall m ensures Refs(t, m) == Refs(s, m) {
      }
    }
  }

  // ---------- Add_ ----------

  /** Enters a reference in the new slot given by the source, unless a better entry
      holds it; an entry left without any reference is deleted. */
  function Placed(s: State, n: int, source: NetAddr, now: int): State
    requires n in s.info && Inv(s, if s.info[n].refCount == 0 then {n} else {})
  {
    var k := NewSlot(s.hash, s.key, s.info[n].addr, source);
    if k in s.newTable && s.newTable[k] == n then s
    else if MayTake(s, n, k, now) then
      ClearedNewInv(s, k, if s.info[n].refCount == 0 then {n} else {});
      Referenced(ClearedNew(s, k), n, k)
    else if s.info[n].refCount == 0 then Deleted(s, n)
    else s
  }

  predicate MayTake(s: State, n: int, k: Slot, now: int)
    requires n in s.info && (k in s.newTable ==> s.newTable[k] in s.info)
  {
    k in s.newTable ==>
      var e := s.info[s.newTable[k]]; IsTerrible(e, now) || (e.refCount > 1 && s.info[n].refCount == 0)
  }

  // The branch of Placed that empties the slot and takes it.
  lemma TakenInv(s: State, n: int, k: Slot, holes: set<int>)
    requires Inv(s, holes) && holes <= {n} && n in s.info && (k in s.newTable ==> s.newTable[k] != n)
    requires !s.info[n].inTried && s.info[n].refCount < NEW_BUCKETS_PER_ADDRESS
    requires 0 <= k.bucket < NEW_BUCKET_COUNT && k == NewSlotIn(s.hash, s.key, s.info[n].addr, k.bucket)
    ensures n in ClearedNew(s, k).info
    ensures Inv(Referenced(ClearedNew(s, k), n, k), {})
    ensures Grows(s, Referenced(ClearedNew(s, k), n, k))
    ensures Referenced(ClearedNew(s, k), n, k).collisions == s.collisions
    ensures Referenced(ClearedNew(s, k), n, k).idCount == s.idCount
  {
    hide IndexOk, TriedOk, CountsOk, ClearedNew, EntryOk, TriedSlot, NewSlotIn;
    ClearedNewInv(s, k, holes);
    var c := ClearedNew(s, k);
    assert c.info[n].(randomPos := 0) == s.info[n].(randomPos := 0);
    assert c.info[n].(randomPos := 0).addr == s.info[n].addr;
    assert c.info[n].(randomPos := 0).refCount == s.info[n].refCount;
    assert c.info[n].(randomPos := 0).inTried == s.info[n].inTried;
    ReferencedInv(c, n, k, holes);
    assert holes - {n} == {};
  }

  lemma PlacedInv(s: State, n: int, source: NetAddr, now: int)
    requires n in s.info && !s.info[n].inTried && s.info[n].refCount < NEW_BUCKETS_PER_ADDRESS
    requires Inv(s, if s.info[n].refCount == 0 then {n} else {})
    ensures Inv(Placed(s, n, source, now), {})
    ensures Grows(s, Placed(s, n, source, now))
    ensures Placed(s, n, source, now).collisions == s.collisions && Placed(s, n, source, now).idCount == s.idCount
  {
    hide IndexOk, TriedOk, CountsOk, ClearedNew, Deleted, EntryOk, TriedSlot, NewSlotIn, NewSlot, IsTerrible;
    var holes := if s.info[n].refCount == 0 then {n} else {};
    var k := NewSlot(s.hash, s.key, s.info[n].addr, source);
    NewSlotShape(s.hash, s.key, s.info[n].addr, source);
    if k in s.newTable && s.newTable[k] == n {
      HeldHasRefs(s, k, n);
    } else if MayTake(s, n, k, now) {
      TakenInv(s, n, k, holes);
    } else if s.info[n].refCount == 0 {
      DeletedInv(s, n, holes);
      DeletedKeeps(s, n, holes);
      assert holes - {n} == {};
    }
  }

  lemma HeldHasRefs(s: State, k: Slot, n: int)
    requires NewOk(s) && k in s.newTable && s.newTable[k] == n
    ensures s.info[n].refCount > 0
  {
    assert k in Refs(s, n);
  }

  // The entry a first announcement creates.
  function FirstSeen(a: Announced, source: NetAddr, penalty: int): Info {
    Info(a.addr, Max(0, a.time - penalty), a.services, source, 0, 0, 0, 0, 0, false, -1)
  }

  // A known entry after another announcement.
  function SeenAgain(e: Info, a: Announced, penalty: int, now: int): Info {
    var interval := if now - a.time < 24 * 60 * 60 then 60 * 60 else 24 * 60 * 60;
    var newer := a.time != 0 && (e.time == 0 || e.time < a.time - interval - penalty);
    var time := if newer then Max(0, a.time - penalty) else e.time;
    e.(time := time, services := e.services | a.services)
  }

  /** One in how many announcements gains a reference, the more it has. */
  function Odds(refCount: nat): (n: nat)
    ensures n >= 1
  {
    if refCount == 0 then 1 else 2 * Odds(refCount - 1)
  }

  // Whether a known entry is a candidate for one more reference.
  predicate WantsReference(e: Info, a: Announced) {
    !(a.time == 0 || (e.time != 0 && a.time <= e.time)) && !e.inTried && e.refCount != NEW_BUCKETS_PER_ADDRESS
  }

  /** Add_ of a routable address.  `lucky` is the outcome of the stochastic test that a
      known entry has to pass to gain a reference. */
  function AfterAdd(s: State, a: Announced, source: NetAddr, penalty: int, now: int, lucky: bool): State
    requires Inv(s, {})
  {
    var p := if a.addr.ip == source then 0 else penalty;
    if a.addr.ip in s.addr then
      var n := s.addr[a.addr.ip];
      var e := SeenAgain(s.info[n], a, p, now);
      var s1 := SetInfo(s, n, e);
      SeenAgainInv(s, n, a, p, now);
      assert EntryOk(s1.info[n], n in {});
      if WantsReference(e, a) && lucky then Placed(s1, n, source, now) else s1
    else
      CreatedInv(s, FirstSeen(a, source, p), {});
      assert {} + {s.idCount} == {s.idCount};
      Placed(Created(s, FirstSeen(a, source, p)), s.idCount, source, now)
  }

  lemma SeenAgainInv(s: State, n: int, a: Announced, p: int, now: int)
    requires Inv(s, {}) && n in s.info
    ensures Inv(SetInfo(s, n, SeenAgain(s.info[n], a, p, now)), {})
  {
    hide IndexOk, TriedOk, CountsOk, NewOk;
    assert EntryOk(s.info[n], n in {});
    StatisticsInv(s, n, SeenAgain(s.info[n], a, p, now), s.lastGood);
    assert SetInfo(s, n, SeenAgain(s.info[n], a, p, now)).(lastGood := s.lastGood) ==
        SetInfo(s, n, SeenAgain(s.info[n], a, p, now));
  }

  lemma AfterAddConsistent(s: State, a: Announced, source: NetAddr, penalty: int, now: int, lucky: bool)
    requires Consistent(s)
    ensures Consistent(AfterAdd(s, a, source, penalty, now, lucky))
    ensures Grows(s, AfterAdd(s, a, source, penalty, now, lucky))
  {
    hide IndexOk, TriedOk, CountsOk, NewOk, Placed, TriedSlot, IsTerrible;
    var p := if a.addr.ip == source then 0 else penalty;
    var t := AfterAdd(s, a, source, penalty, now, lucky);
    IndexedByAddress(s, a.addr.ip);
    if a.addr.ip in s.addr {
      var n := s.addr[a.addr.ip];
      var e := SeenAgain(s.info[n], a, p, now);
      var s1 := SetInfo(s, n, e);
      SeenAgainInv(s, n, a, p, now);
      assert EntryOk(s1.info[n], n in {});
      if WantsReference(e, a) && lucky { PlacedInv(s1, n, source, now); }
    } else {
      var e := FirstSeen(a, source, p);
      CreatedInv(s, e, {});
      assert {} + {s.idCount} == {s.idCount};
      IdUnused(s, s.idCount);
      PlacedInv(Created(s, e), s.idCount, source, now);
    }
    GrowsKeepsCollisions(s, t);
  }

  // ---------- Updates of statistics ----------

  function AfterAttempt(s: State, a: Service, countFailure: bool, time: int): State
    requires IndexOk(s)
  {
    if a.ip !in s.addr || s.info[s.addr[a.ip]].addr != a then s
    else
      var e := s.info[s.addr[a.ip]].(lastTry := time);
      SetInfo(s, s.addr[a.ip],
              if countFailure && e.lastCountAttempt < s.lastGood
              then e.(lastCountAttempt := time, attempts := e.attempts + 1) else e)
  }

  function AfterConnected(s: State, a: Service, time: int): State
    requires IndexOk(s)
  {
    if a.ip !in s.addr || s.info[s.addr[a.ip]].addr != a then s
    else
      var e := s.info[s.addr[a.ip]];
      if time - e.time > 20 * 60 then SetInfo(s, s.addr[a.ip], e.(time := time)) else s
  }

  function AfterSetServices(s: State, a: Service, services: bv64): State
    requires IndexOk(s)
  {
    if a.ip !in s.addr || s.info[s.addr[a.ip]].addr != a then s
    else SetInfo(s, s.addr[a.ip], s.info[s.addr[a.ip]].(services := services))
  }

  lemma StatisticsConsistent(s: State, n: int, f: Info)
    requires Consistent(s) && n in s.info && SamePlace(s.info[n], f)
    requires f.inTried == s.info[n].inTried && f.refCount == s.info[n].refCount
    ensures Consistent(SetInfo(s, n, f)) && Grows(s, SetInfo(s, n, f))
  {
    hide IndexOk, TriedOk, CountsOk, NewOk, TriedSlot;
    assert EntryOk(s.info[n], n in {});
    StatisticsInv(s, n, f, s.lastGood);
    assert SetInfo(s, n, f).(lastGood := s.lastGood) == SetInfo(s, n, f);
    GrowsKeepsCollisions(s, SetInfo(s, n, f));
  }

  lemma CollisionsAside(s: State, c: set<int>)
    requires Inv(s, {})
    ensures Inv(s.(collisions := c), {})
  {
    hide TriedSlot, NewSlotIn;
    var t := s.(collisions := c);
    SameIndex(s, t);
    assert NewIds(t) == NewIds(s) && TriedIds(t) == TriedIds(s);
    forall m ensures Refs(t, m) == Refs(s, m) {
    }
  }

  /** A pending collision that is no longer wanted can be forgotten. */
  lemma CollisionRemoved(s: State, n: int)
    requires Consistent(s)
    ensures Consistent(s.(collisions := s.collisions - {n})) && Grows(s, s.(collisions := s.collisions - {n}))
  {
    hide Inv, TriedSlot;
    var t := s.(collisions := s.collisions - {n});
    CollisionsAside(s, s.collisions - {n});
    GrowsKeepsCollisions(s, t);
  }

  // ---------- Pending collisions ----------

  datatype Verdict = Keep | Forget | Replace

  /** What is to become of a pending collision: the tried entry it would evict is spared while it has
      connected within hours, replaced once it failed a test, or when no test came about in time. */
  function CollisionVerdict(s: State, n: int, valid: Service -> bool, now: int): Verdict {
    if n !in s.info || !valid(s.info[n].addr) then Forget
    else
      var k := TriedSlot(s.hash, s.key, s.info[n].addr);
      if k !in s.triedTable || s.triedTable[k] !in s.info then Replace
      else
        var rival := s.info[s.triedTable[k]];
        if now - rival.lastSuccess < REPLACEMENT_HOURS * (60 * 60) then Forget
        else if now - rival.lastTry < REPLACEMENT_HOURS * (60 * 60) then
          if now - rival.lastTry > 60 then Replace else Keep
        else if now - s.info[n].lastSuccess > TEST_WINDOW then Replace
        else Keep
  }

  function AfterResolve(s: State, n: int, valid: Service -> bool, now: int): State
    requires Inv(s, {})
  {
    match CollisionVerdict(s, n, valid, now)
    case Keep => s
    case Forget => s.(collisions := s.collisions - {n})
    case Replace =>
      var t := AfterGood(s, s.info[n].addr, false, now);
      t.(collisions := t.collisions - {n})
  }

  /** The collisions settled one after the other. */
  ghost function AfterResolveAll(s: State, order: seq<int>, valid: Service -> bool, now: int): State {
    if order == [] then s
    else
      var t := AfterResolveAll(s, order[..|order| - 1], valid, now);
      if Inv(t, {}) then AfterResolve(t, order[|order| - 1], valid, now) else t
  }

  lemma GrowsTransitive(s: State, t: State, u: State)
    requires Grows(s, t) && Grows(t, u)
    ensures Grows(s, u)
  {
  }

  /** A pending collision that is still known has an occupied tried slot, held by a known entry. */
  lemma CollisionHasRival(s: State, n: int)
    requires Consistent(s) && n in s.collisions && n in s.info
    ensures var k := TriedSlot(s.hash, s.key, s.info[n].addr); k in s.triedTable && s.triedTable[k] in s.info
  {
    hide IndexOk, NewOk, CountsOk, TriedSlot;
  }
}
