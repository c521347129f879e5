/** The times in the entries, which Check_ (src/addrman.cpp) tests as well: they are right exactly as long as the
    operations are given times that a clock can show. */
module AddrManTimes {
  import opened AddrManState
  import opened AddrManOps

  /** No negative time, and what is tried has been connected to. */
  predicate EntryTimed(e: Info) {
    e.lastTry >= 0 && e.lastSuccess >= 0 && (e.inTried ==> e.lastSuccess != 0)
  }

  ghost predicate TimesOk(s: State) {
    forall n :: n in s.info ==> EntryTimed(s.info[n])
  }

  // ---------- What the elementary updates keep ----------

  /** The same address, times, services and counts of attempts. */
  predicate SameTime(e: Info, f: Info) {
    f == e.(refCount := f.refCount, inTried := f.inTried, randomPos := f.randomPos) && (f.inTried ==> e.inTried)
  }

  /** No entry comes in, and none gets other statistics or gets tried. */
  ghost predicate SameTimes(s: State, t: State) {
    forall n :: n in t.info ==> n in s.info && SameTime(s.info[n], t.info[n])
  }

  lemma SameTimesTransitive(s: State, t: State, u: State)
    requires SameTimes(s, t) && SameTimes(t, u)
    ensures SameTimes(s, u)
  {
  }

  lemma SameTimesOk(s: State, t: State)
    requires SameTimes(s, t) && TimesOk(s)
    ensures TimesOk(t)
  {
    forall n | n in t.info ensures EntryTimed(t.info[n]) {
      assert EntryTimed(s.info[n]) && SameTime(s.info[n], t.info[n]);
    }
  }

  lemma ReindexedTimes(s: State, t: State)
    requires Reindexed(s, t)
    ensures SameTimes(s, t)
  {
    forall n | n in t.info ensures n in s.info && SameTime(s.info[n], t.info[n]) {
      var e, f := s.info[n].(randomPos := 0), t.info[n].(randomPos := 0);
      assert e == f && SameTime(s.info[n], e) && SameTime(f, t.info[n]);
    }
  }

  lemma DeletedTimes(s: State, n: int)
    requires n in s.info && IndexOk(s)
    ensures SameTimes(s, Deleted(s, n))
  {
    hide Swapped, Reindexed;
    var last := |s.random| - 1;
    IndexedEntry(s, n);
    SwappedIndexed(s, s.info[n].randomPos, last);
    ReindexedTimes(s, Swapped(s, s.info[n].randomPos, last));
  }

  lemma ClearedNewTimes(s: State, k: Slot)
    requires IndexOk(s) && (k in s.newTable ==> s.newTable[k] in s.info)
    ensures SameTimes(s, ClearedNew(s, k))
  {
    hide IndexOk, Deleted;
    if k in s.newTable {
      UnrefIndexed(s, k);
      DeletedTimes(Unref(s, k), s.newTable[k]);
    }
  }

  lemma EvictedTimes(s: State, k: Slot, holes: set<int>)
    requires Inv(s, holes)
    ensures SameTimes(s, Evicted(s, k, holes))
  {
    hide IndexOk, NewOk, CountsOk, EntryOk, ClearedNew, TriedSlot, NewSlot;
    if k in s.triedTable {
      var was := s.triedTable[k];
      DemotedInv(s, was, holes);
      var d := Demoted(s, was);
      var u := NewSlot(d.hash, d.key, d.info[was].addr, d.info[was].source);
      ReenteredTimes(d, u, was, holes + {was});
      SameTimesTransitive(s, d, Evicted(s, k, holes));
    }
  }

  lemma ReenteredTimes(s: State, u: Slot, n: int, holes: set<int>)
    requires Inv(s, holes) && n in holes
    ensures SameTimes(s, Reentered(s, u, n, holes))
  {
    hide IndexOk, TriedOk, CountsOk, EntryOk, ClearedNew, NewSlotIn;
    ClearedNewTimes(s, u);
    HoleSurvives(s, u, holes, n);
    SameTimesTransitive(s, ClearedNew(s, u), Reentered(s, u, n, holes));
  }

  /** Only the entry itself gets tried. */
  lemma MadeTriedTimes(s: State, n: int)
    requires Inv(s, {}) && n in s.info && !s.info[n].inTried
    ensures var t := MadeTried(s, n);
            && n in t.info && t.info[n].inTried
            && forall m :: m in t.info ==>
                m in s.info && SameTime(s.info[m], t.info[m].(inTried := t.info[m].inTried && m != n))
  {
    hide IndexOk, TriedOk, CountsOk, NewOk, EntryOk, Evicted, TriedSlot;
    UnreferencedInv(s, n);
    MadeTriedInv(s, n);
    var k := TriedSlot(s.hash, s.key, s.info[n].addr);
    var u := Unreferenced(s, n);
    EvictedInv(u, k, n);
    EvictedTimes(u, k, {n});
    SameTimesTransitive(s, u, Evicted(u, k, {n}));
  }

  // ---------- The operations ----------

  predicate Knows(s: State, a: Service)
    requires a.ip in s.addr ==> s.addr[a.ip] in s.info
  {
    a.ip in s.addr && s.info[s.addr[a.ip]].addr == a
  }

  /** Good with these arguments leaves the times right: the time is past 0, or it is 0 and the entry, not tried
      yet, stays so because it collides. */
  predicate GoodTimely(s: State, a: Service, testBeforeEvict: bool, time: int)
    requires a.ip in s.addr ==> s.addr[a.ip] in s.info
  {
    Knows(s, a) ==>
      || time > 0
      || (&& time == 0 && !s.info[s.addr[a.ip]].inTried
          && testBeforeEvict && TriedSlot(s.hash, s.key, a) in s.triedTable)
  }

  lemma AfterGoodTimes(s: State, a: Service, testBeforeEvict: bool, time: int)
    requires Inv(s, {}) && TimesOk(s)
    ensures TimesOk(AfterGood(s, a, testBeforeEvict, time)) <==> GoodTimely(s, a, testBeforeEvict, time)
  {
    hide IndexOk, TriedOk, CountsOk, NewOk, MadeTried, TriedSlot, EntryOk;
    IndexedByAddress(s, a.ip);
    var t := AfterGood(s, a, testBeforeEvict, time);
    if Knows(s, a) {
      var n := s.addr[a.ip];
      var s1 := SetInfo(s.(lastGood := time), n, s.info[n].(lastSuccess := time, lastTry := time, attempts := 0));
      SucceededInv(s, n, time);
      if !s1.info[n].inTried { MadeTriedTimes(s1, n); }
      assert n in t.info && t.info[n].lastTry == t.info[n].lastSuccess == time;
      forall m | m in t.info && m != n ensures EntryTimed(t.info[m]) {
        assert EntryTimed(s.info[m]);
      }
    }
  }

  lemma AfterAttemptTimes(s: State, a: Service, countFailure: bool, time: int)
    requires IndexOk(s) && TimesOk(s)
    ensures TimesOk(AfterAttempt(s, a, countFailure, time)) <==> !Knows(s, a) || time >= 0
  {
    var t := AfterAttempt(s, a, countFailure, time);
    if Knows(s, a) {
      assert EntryTimed(s.info[s.addr[a.ip]]);
      assert t.info[s.addr[a.ip]].lastTry == time;
    }
  }

  lemma AfterStatisticsTimes(s: State, a: Service, time: int, services: bv64)
    requires IndexOk(s) && TimesOk(s)
    ensures TimesOk(AfterConnected(s, a, time)) && TimesOk(AfterSetServices(s, a, services))
  {
    if Knows(s, a) {
      var n := s.addr[a.ip];
      assert n in s.info;
      assert EntryTimed(s.info[n]);
    }
  }

  lemma PlacedTimes(s: State, n: int, source: NetAddr, now: int)
    requires n in s.info && Inv(s, if s.info[n].refCount == 0 then {n} else {}) && !s.info[n].inTried
    requires s.info[n].refCount < NEW_BUCKETS_PER_ADDRESS
    ensures SameTimes(s, Placed(s, n, source, now))
  {
    hide IndexOk, TriedOk, CountsOk, EntryOk, ClearedNew, Deleted, NewSlotIn, NewSlot, IsTerrible;
    var holes := if s.info[n].refCount == 0 then {n} else {};
    var k := NewSlot(s.hash, s.key, s.info[n].addr, source);
    if k in s.newTable && s.newTable[k] == n {
    } else if MayTake(s, n, k, now) {
      NewSlotShape(s.hash, s.key, s.info[n].addr, source);
      TakenInv(s, n, k, holes);
      ClearedNewTimes(s, k);
      SameTimesTransitive(s, ClearedNew(s, k), Placed(s, n, source, now));
    } else if s.info[n].refCount == 0 {
      DeletedTimes(s, n);
    }
  }

  lemma AfterAddTimes(s: State, a: Announced, source: NetAddr, penalty: int, now: int, lucky: bool)
    requires Inv(s, {}) && TimesOk(s)
    ensures TimesOk(AfterAdd(s, a, source, penalty, now, lucky))
  {
    hide IndexOk, TriedOk, CountsOk, NewOk, Placed, TriedSlot, IsTerrible;
    var p := if a.addr.ip == source then 0 else penalty;
    var t := AfterAdd(s, a, source, penalty, now, lucky);
    IndexedByAddress(s, a.addr.ip);
    if a.addr.ip in s.addr {
      var n := s.addr[a.addr.ip];
      var e := SeenAgain(s.info[n], a, p, now);
      var s1 := SetInfo(s, n, e);
      SeenAgainInv(s, n, a, p, now);
      assert EntryOk(s1.info[n], n in {});
      assert EntryTimed(s.info[n]);
      if WantsReference(e, a) && lucky {
        PlacedTimes(s1, n, source, now);
        SameTimesOk(s1, t);
      }
    } else {
      var e := FirstSeen(a, source, p);
      CreatedInv(s, e, {});
      assert {} + {s.idCount} == {s.idCount};
      PlacedTimes(Created(s, e), s.idCount, source, now);
      SameTimesOk(Created(s, e), t);
    }
  }

  /** Settling a collision keeps the times right unless it replaces the rival at a time that is not past 0. */
  lemma AfterResolveTimes(s: State, n: int, valid: Service -> bool, now: int)
    requires Inv(s, {}) && TimesOk(s)
    ensures TimesOk(AfterResolve(s, n, valid, now)) <==> !CollisionVerdict(s, n, valid, now).Replace? || now > 0
  {
    hide IndexOk, TriedOk, CountsOk, NewOk, EntryOk, TriedSlot, AfterGood;
    if CollisionVerdict(s, n, valid, now).Replace? {
      IndexedEntry(s, n);
      AfterGoodTimes(s, s.info[n].addr, false, now);
      var t := AfterGood(s, s.info[n].addr, false, now);
      assert t.(collisions := t.collisions - {n}).info == t.info;
    }
  }

  /** Noting a success at a time that is not past 0 always leaves a wrong time behind. */
  lemma UntimelyGood(s: State, a: Service, time: int)
    requires Inv(s, {}) && time <= 0 && (a.ip in s.addr ==> s.addr[a.ip] in s.info) && Knows(s, a)
    ensures !TimesOk(AfterGood(s, a, false, time))
  {
    hide IndexOk, TriedOk, CountsOk, NewOk, MadeTried, TriedSlot, EntryOk;
    var n := s.addr[a.ip];
    var s1 := SetInfo(s.(lastGood := time), n, s.info[n].(lastSuccess := time, lastTry := time, attempts := 0));
    SucceededInv(s, n, time);
    if !s1.info[n].inTried { MadeTriedTimes(s1, n); }
    var t := AfterGood(s, a, false, time);
    assert n in t.info && t.info[n].inTried && t.info[n].lastSuccess == time;
    assert !EntryTimed(t.info[n]);
  }

  lemma UntimelyResolve(s: State, n: int, valid: Service -> bool, now: int)
    requires Inv(s, {}) && now <= 0
    ensures CollisionVerdict(s, n, valid, now).Replace? ==> !TimesOk(AfterResolve(s, n, valid, now))
    ensures !CollisionVerdict(s, n, valid, now).Replace? ==> (TimesOk(AfterResolve(s, n, valid, now)) <==> TimesOk(s))
  {
    hide IndexOk, TriedOk, CountsOk, NewOk, EntryOk, TriedSlot, AfterGood;
    if CollisionVerdict(s, n, valid, now).Replace? {
      IndexedEntry(s, n);
      UntimelyGood(s, s.info[n].addr, now);
      var t := AfterGood(s, s.info[n].addr, false, now);
      assert t.(collisions := t.collisions - {n}).info == t.info;
    } else if CollisionVerdict(s, n, valid, now).Forget? {
      assert AfterResolve(s, n, valid, now).info == s.info;
    }
  }

  /** Whether some collision of the run replaces its rival. */
  ghost predicate SomeReplaced(s: State, order: seq<int>, valid: Service -> bool, now: int) {
    exists i: nat :: i < |order| &&
      CollisionVerdict(AfterResolveAll(s, order[..i], valid, now), order[i], valid, now).Replace?
  }

  lemma AfterResolveConsistent(s: State, n: int, valid: Service -> bool, now: int)
    requires Consistent(s)
    ensures Consistent(AfterResolve(s, n, valid, now))
  {
    hide Inv, CollisionsOk, AfterGood;
    if CollisionVerdict(s, n, valid, now).Replace? {
      AfterGoodConsistent(s, s.info[n].addr, false, now);
      CollisionRemoved(AfterGood(s, s.info[n].addr, false, now), n);
    } else {
      CollisionRemoved(s, n);
    }
  }

  /** Settling all collisions keeps the times right exactly if none replaces its rival or the time is past 0. */
  lemma {:induction false} AfterResolveAllTimes(s: State, order: seq<int>, valid: Service -> bool, now: int)
    requires Consistent(s) && TimesOk(s)
    ensures Consistent(AfterResolveAll(s, order, valid, now))
    ensures TimesOk(AfterResolveAll(s, order, valid, now)) <==> now > 0 || !SomeReplaced(s, order, valid, now)
  {
    hide Inv, CollisionsOk, TimesOk, AfterResolve, CollisionVerdict, SomeReplaced;
    if order == [] {
      NoneReplaced(s, valid, now);
    } else {
      var init, n := order[..|order| - 1], order[|order| - 1];
      AfterResolveAllTimes(s, init, valid, now);
      var t := AfterResolveAll(s, init, valid, now);
      AfterResolveConsistent(t, n, valid, now);
      ReplacedSnoc(s, order, valid, now);
      if now > 0 {
        AfterResolveTimes(t, n, valid, now);
      } else {
        UntimelyResolve(t, n, valid, now);
      }
    }
  }

  lemma NoneReplaced(s: State, valid: Service -> bool, now: int)
    ensures !SomeReplaced(s, [], valid, now)
  {
  }

  lemma ReplacedSnoc(s: State, order: seq<int>, valid: Service -> bool, now: int)
    requires order != []
    ensures var init, n := order[..|order| - 1], order[|order| - 1];
            SomeReplaced(s, order, valid, now) <==>
              || SomeReplaced(s, init, valid, now)
              || CollisionVerdict(AfterResolveAll(s, init, valid, now), n, valid, now).Replace?
  {
    hide AfterResolveAll, CollisionVerdict;
    var init := order[..|order| - 1];
    assert forall i: nat :: i < |init| ==> init[i] == order[i] && init[..i] == order[..i];
    if SomeReplaced(s, init, valid, now) {
      var i: nat :| i < |init|
        && CollisionVerdict(AfterResolveAll(s, init[..i], valid, now), init[i], valid, now).Replace?;
      assert CollisionVerdict(AfterResolveAll(s, order[..i], valid, now), order[i], valid, now).Replace?;
    }
  }
}
