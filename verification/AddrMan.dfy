/** The address manager itself (src/addrman.cpp), its tables updated in place. */
module AddrMan {
  import opened Basics
  import opened AddrManState
  import opened AddrManOps
  import opened AddrManTimes
  import opened AddrManResolve

  class AddressManager {
    const hash: Hashes
    const isRoutable: Service -> bool
    const isValid: Service -> bool

    var nKey: Key
    var nIdCount: int
    var mapInfo: map<int, Info>
    var mapAddr: map<NetAddr, int>
    var vRandom: seq<int>
    var nTried: int
    var vvTried: map<Slot, int>     // slots that are not -1
    var nNew: int
    var vvNew: map<Slot, int>       // slots that are not -1
    var nLastGood: int
    var triedCollisions: set<int>

    ghost function S(): State
      reads this
    {
      State(hash, nKey, nIdCount, mapInfo, mapAddr, vRandom, vvTried, vvNew, nTried, nNew, nLastGood, triedCollisions)
    }

    /** An empty manager with a random key. */
    constructor (hash: Hashes, isRoutable: Service -> bool, isValid: Service -> bool, key: Key)
      requires key != 0
      ensures this.hash == hash && this.isRoutable == isRoutable && this.isValid == isValid
      ensures Consistent(S()) && mapInfo == map[]
    {
      this.hash, this.isRoutable, this.isValid := hash, isRoutable, isValid;
      nKey, nIdCount, mapInfo, mapAddr, vRandom := key, 0, map[], map[], [];
      nTried, vvTried, nNew, vvNew, nLastGood, triedCollisions := 0, map[], 0, map[], 1, {};
      new;
      assert NewIds(S()) == {} && TriedIds(S()) == {};
    }

    method RandomInt(max: int) returns (r: int)
      requires max > 0
      ensures 0 <= r < max
    {
      r :| 0 <= r < max;
    }

    method Find(ip: NetAddr) returns (found: bool, id: int)
      requires IndexOk(S())
      ensures found <==> ip in mapAddr
      ensures found ==> id == mapAddr[ip] && id in mapInfo
    {
      if ip !in mapAddr { return false, 0; }
      id := mapAddr[ip];
      found := id in mapInfo;
    }

    method Create(e: Info) returns (id: int)
      modifies this
      ensures S() == Created(old(S()), e).(nNew := old(nNew)) && id == old(nIdCount)
    {
      id := nIdCount;
      nIdCount := nIdCount + 1;
      mapInfo := mapInfo[id := e];
      mapAddr := mapAddr[e.addr.ip := id];
      mapInfo := mapInfo[id := mapInfo[id].(randomPos := |vRandom|)];
      vRandom := vRandom + [id];
    }

    method SwapRandom(pos1: int, pos2: int)
      requires RandomOk(S()) && 0 <= pos1 < |vRandom| && 0 <= pos2 < |vRandom|
      modifies this
      ensures S() == Swapped(old(S()), pos1, pos2)
    {
      if pos1 == pos2 { return; }
      var id1, id2 := vRandom[pos1], vRandom[pos2];
      assert id1 in mapInfo && id2 in mapInfo;
      mapInfo := mapInfo[id1 := mapInfo[id1].(randomPos := pos2)];
      mapInfo := mapInfo[id2 := mapInfo[id2].(randomPos := pos1)];
      vRandom := vRandom[pos1 := id2];
      vRandom := vRandom[pos2 := id1];
    }

    method Delete(id: int)
      requires RandomOk(S()) && id in mapInfo
      requires !mapInfo[id].inTried && mapInfo[id].refCount == 0     // asserted by the source
      modifies this
      ensures S() == Erased(old(S()), id)
      ensures old(IndexOk(S())) ==> S() == Deleted(old(S()), id)
    {
      hide Swapped, IndexOk;
      assert EntryPlaced(S(), id);
      var ip := mapInfo[id].addr.ip;
      SwapRandom(mapInfo[id].randomPos, |vRandom| - 1);
      SwappedLast(old(S()), id);
      vRandom := vRandom[..|vRandom| - 1];
      mapAddr := mapAddr - {ip};
      mapInfo := mapInfo - {id};
      nNew := nNew - 1;
    }

    /** Clears a position of the new table, deleting the entry with its last reference. */
    method ClearNew(k: Slot)
      requires IndexOk(S())
      requires k in vvNew ==> vvNew[k] in mapInfo && mapInfo[vvNew[k]].refCount > 0 && !mapInfo[vvNew[k]].inTried
      modifies this
      ensures S() == ClearedNew(old(S()), k)
    {
      hide Deleted, IndexOk;
      if k in vvNew {
        var idDelete := vvNew[k];
        UnrefIndexed(S(), k);
        mapInfo := mapInfo[idDelete := mapInfo[idDelete].(refCount := mapInfo[idDelete].refCount - 1)];
        vvNew := vvNew - {k};
        if mapInfo[idDelete].refCount == 0 {
          IndexParts(S());
          Delete(idDelete);
        }
      }
    }

    /** Moves an entry from the new buckets to its tried slot; what was there returns to
        a new bucket. */
    method MakeTried(id: int)
      requires Inv(S(), {}) && id in mapInfo && !mapInfo[id].inTried
      modifies this
      ensures S() == MadeTried(old(S()), id)
    {
      hide IndexOk, TriedOk, CountsOk, NewOk, EntryOk, Evicted, TriedSlot, NewSlotIn;
      ghost var s0 := S();
      UnreferencedInv(s0, id);
      RemoveFromNew(id);
      nNew := nNew - 1;
      assert mapInfo[id].refCount == 0;
      var k := TriedSlot(hash, nKey, mapInfo[id].addr);
      ghost var t0 := Unreferenced(s0, id);
      EvictedInv(t0, k, id);
      EvictTried(k, t0, id);
      assert k !in vvTried;
      vvTried := vvTried[k := id];
      nTried := nTried + 1;
      EvictedAddress(t0, k, id);
      mapInfo := mapInfo[id := mapInfo[id].(inTried := true)];
    }

    /** The loop of MakeTried over all new buckets. */
    method RemoveFromNew(id: int)
      requires Inv(S(), {}) && id in mapInfo
      modifies this
      ensures S() == Unreferenced(old(S()), id)
    {
      hide IndexOk, TriedOk, CountsOk, NewOk, EntryOk, NewSlotIn, RefsDropped, Unreferenced;
      ghost var s0 := S();
      RefsBelowNone(s0, id);
      for bucket := 0 to NEW_BUCKET_COUNT
        invariant nKey == s0.key && id in mapInfo && mapInfo[id].addr == s0.info[id].addr
        invariant S() == RefsDropped(s0, id, bucket)
      {
        var k := NewSlotIn(hash, nKey, mapInfo[id].addr, bucket);
        RefsBelowStep(s0, id, bucket);
        if k in vvNew && vvNew[k] == id {
          vvNew := vvNew - {k};
          mapInfo := mapInfo[id := mapInfo[id].(refCount := mapInfo[id].refCount - 1)];
        }
      }
      RefsBelowAll(s0, id);
    }

    /** Makes room in a tried slot.  At this point nNew no longer counts the entry that
        is moving in: the state is `t0` but for that. */
    method EvictTried(k: Slot, ghost t0: State, ghost id: int)
      requires Inv(t0, {id}) && k == TriedSlot(t0.hash, t0.key, t0.info[id].addr)
      requires S() == t0.(nNew := t0.nNew - 1)
      modifies this
      ensures S() == Evicted(t0, k, {id}).(nNew := Evicted(t0, k, {id}).nNew - 1)
    {
      hide IndexOk, CountsOk, NewOk, Reentered, EntryOk, TriedSlot, NewSlotIn, NewSlot;
      if k in vvTried {
        var idEvict := vvTried[k];
        assert idEvict in mapInfo;
        DemotedInv(t0, idEvict, {id});
        ghost var d := Demoted(t0, idEvict);
        mapInfo := mapInfo[idEvict := mapInfo[idEvict].(inTried := false)];
        vvTried := vvTried - {k};
        nTried := nTried - 1;
        var u := NewSlot(hash, nKey, mapInfo[idEvict].addr, mapInfo[idEvict].source);
        MoveToNew(u, idEvict, d, {id} + {idEvict});
      }
    }

    /** Enters an entry that has left the tried table into the new table again. */
    method MoveToNew(u: Slot, id: int, ghost d: State, ghost holes: set<int>)
      requires Inv(d, holes) && id in holes && S() == d.(nNew := d.nNew - 2)
      modifies this
      ensures S() == Reentered(d, u, id, holes).(nNew := Reentered(d, u, id, holes).nNew - 1)
    {
      hide IndexOk, TriedOk, CountsOk, NewOk, ClearedNew, EntryOk;
      ClearedNewInv(d, u, holes);
      HoleSurvives(d, u, holes, id);
      SlotHolder(d, u, holes);
      CountAside(d, u, d.nNew - 2);
      ClearNew(u);
      EntryRefs(ClearedNew(d, u), id, holes);
      assert u !in vvNew;
      mapInfo := mapInfo[id := mapInfo[id].(refCount := 1)];
      vvNew := vvNew[u := id];
      nNew := nNew + 1;
    }

    /** Finds a new bucket that holds the entry, starting at a random one.  There always
        is one: the "no bucket is found" exit of Good_ is never taken. */
    method FindNewBucket(id: int) returns (bucket: int)
      requires Inv(S(), {}) && id in mapInfo && !mapInfo[id].inTried
      ensures 0 <= bucket < NEW_BUCKET_COUNT
      ensures var k := NewSlotIn(hash, nKey, mapInfo[id].addr, bucket); k in vvNew && vvNew[k] == id
    {
      hide IndexOk, TriedOk, CountsOk, NewOk, EntryOk, NewSlotIn;
      var rnd := RandomInt(NEW_BUCKET_COUNT);
      bucket := -1;
      var n := 0;
      while n < NEW_BUCKET_COUNT && bucket == -1
        invariant 0 <= n <= NEW_BUCKET_COUNT
        invariant bucket == -1 ==> forall i :: 0 <= i < n ==> !HoldsAfter(S(), id, rnd, i)
        invariant bucket != -1 ==> 0 <= bucket < NEW_BUCKET_COUNT && HoldsIn(S(), id, bucket)
      {
        var b := (n + rnd) % NEW_BUCKET_COUNT;
        var k := NewSlotIn(hash, nKey, mapInfo[id].addr, b);
        if k in vvNew && vvNew[k] == id {
          bucket := b;
        }
        n := n + 1;
      }
      ghost var i := SomeBucketHolds(S(), id, rnd);
    }

    method Good(a: Service, testBeforeEvict: bool, time: int)
      requires Consistent(S())
      modifies this
      ensures S() == AfterGood(old(S()), a, testBeforeEvict, time)
      ensures Consistent(S()) && Grows(old(S()), S())
      ensures a.ip in old(mapAddr) ==> old(mapAddr)[a.ip] in old(mapInfo)
      ensures Credited(old(S()), S(), a, testBeforeEvict, time)
    {
      hide IndexOk, TriedOk, CountsOk, NewOk, EntryOk, MadeTried, TriedSlot, Grows, Credited;
      GoodEffect(S(), a, testBeforeEvict, time);
      AfterGoodConsistent(S(), a, testBeforeEvict, time);
      nLastGood := time;
      SameIndex(old(S()), S());
      var found, id := Find(a.ip);
      if !found || mapInfo[id].addr != a { return; }
      SucceededInv(old(S()), id, time);
      mapInfo := mapInfo[id := mapInfo[id].(lastSuccess := time, lastTry := time, attempts := 0)];
      if mapInfo[id].inTried { return; }
      var bucket := FindNewBucket(id);
      var k := TriedSlot(hash, nKey, mapInfo[id].addr);
      if testBeforeEvict && k in vvTried {
        if |triedCollisions| < SET_TRIED_COLLISION_SIZE {
          triedCollisions := triedCollisions + {id};
        }
      } else {
        MakeTried(id);
      }
    }

    method Add(a: Announced, source: NetAddr, timePenalty: int, now: int)
      returns (fNew: bool, ghost lucky: bool, ghost draw: int)
      requires Consistent(S())
      modifies this
      ensures !isRoutable(a.addr) ==> S() == old(S()) && !fNew
      ensures isRoutable(a.addr) ==> S() == AfterAdd(old(S()), a, source, timePenalty, now, lucky)
      ensures isRoutable(a.addr) ==> (fNew <==> old(a.addr.ip !in mapAddr))
      ensures isRoutable(a.addr) && old(a.addr.ip in mapAddr) ==>
                var e, p := old(mapInfo[mapAddr[a.addr.ip]]), if a.addr.ip == source then 0 else timePenalty;
                WantsReference(SeenAgain(e, a, p, now), a) ==> 0 <= draw < Odds(e.refCount) && (lucky <==> draw == 0)
      ensures Consistent(S()) && Grows(old(S()), S())
    {
      hide IndexOk, TriedOk, CountsOk, NewOk, Placed, Created, CollisionsOk;
      fNew, lucky, draw := false, false, 0;
      if !isRoutable(a.addr) {
        GrowsReflexive(S());
        return;
      }
      ghost var s0 := S();
      AfterAddConsistent(s0, a, source, timePenalty, now, true);
      AfterAddConsistent(s0, a, source, timePenalty, now, false);
      var found, id := Find(a.addr.ip);
      var penalty := if a.addr.ip == source then 0 else timePenalty;
      if found {
        SeenAgainInv(s0, id, a, penalty, now);
        var e := SeenAgain(mapInfo[id], a, penalty, now);
        mapInfo := mapInfo[id := e];
        assert EntryOk(S().info[id], id in {});
        if a.time == 0 || (e.time != 0 && a.time <= e.time) { return; }
        if e.inTried { return; }
        if e.refCount == NEW_BUCKETS_PER_ADDRESS { return; }
        var factor := 1;
        for n := 0 to e.refCount
          invariant factor == Odds(n)
        {
          factor := factor * 2;
        }
        if factor > 1 {
          var r := RandomInt(factor);
          draw := r;
          if r != 0 { return; }
        }
        lucky := true;
      } else {
        CreatedInv(s0, FirstSeen(a, source, penalty), {});
        assert {} + {s0.idCount} == {s0.idCount};
        id := Create(FirstSeen(a, source, penalty));
        nNew := nNew + 1;
        CreatedFacts(s0, FirstSeen(a, source, penalty));
        fNew := true;
      }
      Place(id, source, now);
    }

    /** The last part of Add_: one more reference, if its slot can be had. */
    method Place(id: int, source: NetAddr, now: int)
      requires id in mapInfo && !mapInfo[id].inTried && Inv(S(), if mapInfo[id].refCount == 0 then {id} else {})
      modifies this
      ensures S() == Placed(old(S()), id, source, now)
    {
      hide IndexOk, TriedOk, CountsOk, EntryOk, ClearedNew, Deleted, NewSlotIn, NewSlot, IsTerrible;
      ghost var s0 := S();
      ghost var holes := if mapInfo[id].refCount == 0 then {id} else {};
      var k := NewSlot(hash, nKey, mapInfo[id].addr, source);
      if k !in vvNew || vvNew[k] != id {
        var insert := k !in vvNew;
        if !insert {
          var existing := mapInfo[vvNew[k]];
          if IsTerrible(existing, now) || (existing.refCount > 1 && mapInfo[id].refCount == 0) {
            insert := true;
          }
        }
        if insert {
          ClearedNewInv(s0, k, holes);
          SlotHolder(s0, k, holes);
          ClearNew(k);
          mapInfo := mapInfo[id := mapInfo[id].(refCount := mapInfo[id].refCount + 1)];
          vvNew := vvNew[k := id];
        } else if mapInfo[id].refCount == 0 {
          IndexParts(S());
          Delete(id);
        }
      }
    }

    method Attempt(a: Service, countFailure: bool, time: int)
      requires Consistent(S())
      modifies this
      ensures S() == AfterAttempt(old(S()), a, countFailure, time)
      ensures Consistent(S()) && Grows(old(S()), S())
    {
      hide TriedOk, CountsOk, NewOk, CollisionsOk, EntryOk, Grows;
      GrowsReflexive(S());
      var found, id := Find(a.ip);
      if !found || mapInfo[id].addr != a { return; }
      StatisticsConsistent(S(), id, AfterAttempt(S(), a, countFailure, time).info[id]);
      mapInfo := mapInfo[id := mapInfo[id].(lastTry := time)];
      if countFailure && mapInfo[id].lastCountAttempt < nLastGood {
        mapInfo := mapInfo[id := mapInfo[id].(lastCountAttempt := time)];
        mapInfo := mapInfo[id := mapInfo[id].(attempts := mapInfo[id].attempts + 1)];
      }
      assert mapInfo == AfterAttempt(old(S()), a, countFailure, time).info;
    }

    method Connected(a: Service, time: int)
      requires Consistent(S())
      modifies this
      ensures S() == AfterConnected(old(S()), a, time)
      ensures Consistent(S()) && Grows(old(S()), S())
    {
      hide TriedOk, CountsOk, NewOk, CollisionsOk, Grows;
      GrowsReflexive(S());
      var found, id := Find(a.ip);
      if !found || mapInfo[id].addr != a { return; }
      if time - mapInfo[id].time > 20 * 60 {
        assert EntryOk(mapInfo[id], id in {});
        StatisticsConsistent(S(), id, mapInfo[id].(time := time));
        mapInfo := mapInfo[id := mapInfo[id].(time := time)];
      }
    }

    method SetServices(a: Service, services: bv64)
      requires Consistent(S())
      modifies this
      ensures S() == AfterSetServices(old(S()), a, services)
      ensures Consistent(S()) && Grows(old(S()), S())
    {
      hide TriedOk, CountsOk, NewOk, CollisionsOk, Grows;
      GrowsReflexive(S());
      var found, id := Find(a.ip);
      if !found || mapInfo[id].addr != a { return; }
      assert EntryOk(mapInfo[id], id in {});
      StatisticsConsistent(S(), id, mapInfo[id].(services := services));
      mapInfo := mapInfo[id := mapInfo[id].(services := services)];
    }

    /** A random choice of distinct known addresses of good quality, at most 23 percent
        of all and at most 2500; `ids` says which entries they come from. */
    method GetAddr(now: int) returns (vAddr: seq<Announced>, ghost ids: seq<int>)
      requires Consistent(S())
      modifies this
      ensures Consistent(S()) && Reindexed(old(S()), S()) && Grows(old(S()), S())
      ensures |vAddr| <= GETADDR_MAX && 100 * |vAddr| <= GETADDR_MAX_PCT * |vRandom|
      ensures |ids| == |vAddr| && forall i, j :: 0 <= i < j < |ids| ==> ids[i] != ids[j]
      ensures forall i :: 0 <= i < |ids| ==>
                && ids[i] in old(mapInfo) && !IsTerrible(old(mapInfo)[ids[i]], now)
                && vAddr[i] == Announce(old(mapInfo)[ids[i]])
      ensures |vAddr| == GETADDR_MAX || |vAddr| == GETADDR_MAX_PCT * |vRandom| / 100
              || forall n :: n in old(mapInfo) && !IsTerrible(old(mapInfo)[n], now) ==> n in ids
    {
      hide IndexOk, TriedOk, CountsOk, NewOk, EntryOk, CollisionsOk, Swapped, IsTerrible, Grows, Reindexed;
      GrowsReflexive(S());
      ReindexedReflexive(S());
      vAddr, ids := [], [];
      var nodes := GETADDR_MAX_PCT * |vRandom| / 100;
      if nodes > GETADDR_MAX { nodes := GETADDR_MAX; }
      var n := 0;
      while n < |vRandom| && |vAddr| < nodes
        invariant 0 <= n <= |vRandom| == |old(vRandom)| && |vAddr| <= nodes
        invariant Consistent(S()) && Reindexed(old(S()), S()) && Grows(old(S()), S())
        invariant Chosen(old(S()), S(), n, ids, vAddr, now)
      {
        var r := RandomInt(|vRandom| - n);
        r := r + n;
        SwapConsistent(old(S()), S(), n, r);
        ChosenSwapped(old(S()), S(), n, r, ids, vAddr, now);
        IndexParts(S());
        SwapRandom(n, r);
        var id := vRandom[n];
        SameQuality(old(S()), S(), id, now);
        ChosenNext(old(S()), S(), n, ids, vAddr, now);
        if !IsTerrible(mapInfo[id], now) {
          vAddr := vAddr + [Announce(mapInfo[id])];
          ids := ids + [id];
        }
        n := n + 1;
      }
      if |vAddr| < nodes { AllConsidered(old(S()), S(), ids, vAddr, now); }
    }

    /** Settles every pending collision, in some order.  A collision still known has an occupied
        tried slot, so the "not actually a collision anymore" branch is never taken. */
    method ResolveCollisions(now: int) returns (ghost order: seq<int>)
      requires Consistent(S())
      modifies this
      ensures Consistent(S()) && Grows(old(S()), S())
      ensures triedCollisions <= old(triedCollisions)
      ensures (forall n :: n in old(triedCollisions) <==> n in order) && |order| == |old(triedCollisions)|
      ensures S() == AfterResolveAll(old(S()), order, isValid, now)
      ensures Settling(old(S()), S(), order, isValid, now)
    {
      hide IndexOk, TriedOk, CountsOk, NewOk, EntryOk, TriedSlot, CollisionsOk, Grows, Inv, AfterResolve;
      hide Settling, Contends, Loses, Returned;
      GrowsReflexive(S());
      var todo := triedCollisions;
      order := [];
      while todo != {}
        invariant Consistent(S()) && Grows(old(S()), S())
        invariant todo <= triedCollisions <= old(triedCollisions)
        invariant (forall n :: n in old(triedCollisions) <==> n in todo || n in order) &&
                    |order| + |todo| == |old(triedCollisions)|
        invariant forall n :: n in order ==> n !in todo
        invariant forall i, j :: 0 <= i < j < |order| ==> order[i] != order[j]
        invariant S() == AfterResolveAll(old(S()), order, isValid, now)
        decreases |todo|
      {
        ghost var member := Member(todo);
        var idNew :| idNew in todo;
        ghost var s := S();
        assert (order + [idNew])[..|order|] == order;
        ResolveOne(idNew, now);
        GrowsTransitive(old(S()), s, S());
        order := order + [idNew];
        todo := todo - {idNew};
      }
      ResolvedAll(old(S()), order, isValid, now);
    }

    /** What ResolveCollisions does about one of them. */
    method ResolveOne(idNew: int, now: int)
      requires Consistent(S()) && idNew in triedCollisions
      modifies this
      ensures Consistent(S()) && Grows(old(S()), S())
      ensures S() == AfterResolve(old(S()), idNew, isValid, now)
      ensures triedCollisions == old(triedCollisions) || triedCollisions == old(triedCollisions) - {idNew}
      ensures old(idNew !in mapInfo || !isValid(mapInfo[idNew].addr)) ==>
                S() == old(S()).(collisions := old(triedCollisions) - {idNew})
      ensures old(idNew in mapInfo && isValid(mapInfo[idNew].addr)) ==>
                var k := TriedSlot(hash, nKey, old(mapInfo[idNew]).addr);
                && k in old(vvTried) && old(vvTried)[k] in old(mapInfo)
                && var idOld, rival, wants := old(vvTried)[k], old(mapInfo)[old(vvTried)[k]], old(mapInfo)[idNew];
                   if Loses(rival, wants, now) then
                     && vvTried == old(vvTried)[k := idNew] && triedCollisions == old(triedCollisions) - {idNew}
                     && idNew in mapInfo && mapInfo[idNew].lastSuccess == now
                     && (idOld != idNew ==> Returned(old(S()), S(), idOld))
                   else if Spared(rival, now) then S() == old(S()).(collisions := old(triedCollisions) - {idNew})
                   else S() == old(S())
    {
      hide IndexOk, TriedOk, CountsOk, NewOk, EntryOk, TriedSlot, CollisionsOk, Grows, AfterGood, Loses, Returned;
      if idNew in mapInfo { CollisionHasRival(S(), idNew); }
      if Contends(S(), idNew, isValid) { ResolveEffect(S(), idNew, isValid, now); }
      GrowsReflexive(S());
      var eraseCollision := false;
      if idNew !in mapInfo {
        eraseCollision := true;
      } else {
        var k := TriedSlot(hash, nKey, mapInfo[idNew].addr);
        CollisionHasRival(S(), idNew);
        assert k in vvTried && vvTried[k] in mapInfo;
        if !isValid(mapInfo[idNew].addr) {
          eraseCollision := true;
        } else {
          eraseCollision := TestRival(idNew, vvTried[k], now);
        }
      }
      if eraseCollision {
        ghost var s := S();
        CollisionRemoved(S(), idNew);
        triedCollisions := triedCollisions - {idNew};
        GrowsTransitive(old(S()), s, S());
      }
    }

    // The entry in the tried slot against the one that wants it.
    method TestRival(idNew: int, idOld: int, now: int) returns (eraseCollision: bool)
      requires Consistent(S()) && idNew in mapInfo && idOld in mapInfo && isValid(mapInfo[idNew].addr)
      requires var k := TriedSlot(hash, nKey, mapInfo[idNew].addr); k in vvTried && vvTried[k] == idOld
      modifies this
      ensures Consistent(S()) && Grows(old(S()), S()) && triedCollisions == old(triedCollisions)
      ensures var v := CollisionVerdict(old(S()), idNew, isValid, now);
              && (eraseCollision <==> !v.Keep?)
              && S() == if v.Replace? then AfterGood(old(S()), old(mapInfo[idNew]).addr, false, now) else old(S())
    {
      hide IndexOk, TriedOk, CountsOk, NewOk, EntryOk, TriedSlot, CollisionsOk, Grows, AfterGood;
      GoodCollisions(S(), mapInfo[idNew].addr, now);
      GrowsReflexive(S());
      var infoOld := mapInfo[idOld];
      eraseCollision := false;
      if now - infoOld.lastSuccess < REPLACEMENT_HOURS * (60 * 60) {
        eraseCollision := true;
      } else if now - infoOld.lastTry < REPLACEMENT_HOURS * (60 * 60) {
        if now - infoOld.lastTry > 60 {
          Good(mapInfo[idNew].addr, false, now);
          eraseCollision := true;
        }
      } else if now - mapInfo[idNew].lastSuccess > TEST_WINDOW {
        Good(mapInfo[idNew].addr, false, now);
        eraseCollision := true;
      }
    }

    /** A random entry that a pending collision would evict; an unknown id is dropped instead. */
    method SelectTriedCollision() returns (found: bool, id: int, ghost idNew: int)
      requires Consistent(S())
      modifies this
      ensures Consistent(S()) && Grows(old(S()), S()) && mapInfo == old(mapInfo)
      ensures found ==> triedCollisions == old(triedCollisions) && idNew in triedCollisions && idNew in mapInfo
      ensures found ==> var k := TriedSlot(hash, nKey, mapInfo[idNew].addr); k in vvTried && vvTried[k] == id
      ensures found ==> id in mapInfo && mapInfo[id].inTried
      ensures !found && old(triedCollisions) != {} ==>
                idNew in old(triedCollisions) && idNew !in mapInfo && triedCollisions == old(triedCollisions) - {idNew}
    {
      hide IndexOk, CountsOk, NewOk, EntryOk, TriedSlot, CollisionsOk, Grows;
      GrowsReflexive(S());
      if triedCollisions == {} { return false, 0, 0; }
      ghost var member := Member(triedCollisions);
      var pick :| pick in triedCollisions;
      idNew := pick;
      if pick !in mapInfo {
        CollisionRemoved(S(), pick);
        triedCollisions := triedCollisions - {pick};
        return false, 0, pick;
      }
      var k := TriedSlot(hash, nKey, mapInfo[pick].addr);
      CollisionHasRival(S(), pick);
      return true, vvTried[k], pick;
    }
  }

  // ---------- Steps of the proofs ----------

  ghost predicate HoldsIn(s: State, n: int, bucket: int)
    requires n in s.info
  {
    var k := NewSlotIn(s.hash, s.key, s.info[n].addr, bucket);
    k in s.newTable && s.newTable[k] == n
  }

  ghost predicate HoldsAfter(s: State, n: int, rnd: int, i: int)
    requires n in s.info
  {
    HoldsIn(s, n, (i + rnd) % NEW_BUCKET_COUNT)
  }

  // An entry of the new table has at least one reference, and scanning finds it.
  lemma SomeBucketHolds(s: State, n: int, rnd: int) returns (i: int)
    requires Inv(s, {}) && n in s.info && !s.info[n].inTried && 0 <= rnd < NEW_BUCKET_COUNT
    ensures 0 <= i < NEW_BUCKET_COUNT && HoldsAfter(s, n, rnd, i)
  {
    hide IndexOk, TriedOk, CountsOk, NewSlotIn;
    assert EntryOk(s.info[n], n in {});
    assert Refs(s, n) != {};
    var k :| k in Refs(s, n);
    i := (k.bucket - rnd) % NEW_BUCKET_COUNT;
  }

  lemma GrowsReflexive(s: State)
    ensures Grows(s, s)
  {
  }

  function Announce(e: Info): Announced { Announced(e.addr, e.time, e.services) }

  lemma ReindexedReflexive(s: State)
    ensures Reindexed(s, s)
  {
  }

  // A swap in vRandom, after others since s0.
  lemma SwapConsistent(s0: State, s: State, i: int, j: int)
    requires Consistent(s) && Reindexed(s0, s) && Grows(s0, s) && 0 <= i < |s.random| && 0 <= j < |s.random|
    ensures var t := Swapped(s, i, j);
            && Consistent(t) && Reindexed(s0, t) && Grows(s0, t)
            && t.random[i] in t.info && t.info[t.random[i]].randomPos == i && |t.random| == |s.random|
            && (forall m :: m in s.info ==> m in t.info && t.info[m].randomPos == Trade(s.info[m].randomPos, i, j))
  {
    SwappedEffect(s, i, j);
    SwappedIndexed(s, i, j);
    var t := Swapped(s, i, j);
    ReindexedInv(s, t, {});
    SwappedGrows(s0, s, t);
  }

  /** `ids` are distinct entries of s, among the first n of vRandom, of good quality in s0. */
  ghost predicate Chosen(s0: State, s: State, n: int, ids: seq<int>, vAddr: seq<Announced>, now: int) {
    && |ids| == |vAddr|
    && (forall i, j :: 0 <= i < j < |ids| ==> ids[i] != ids[j])
    && (forall i :: 0 <= i < |ids| ==>
          && ids[i] in s.info && s.info[ids[i]].randomPos < n && ids[i] in s0.info
          && !IsTerrible(s0.info[ids[i]], now) && vAddr[i] == Announce(s0.info[ids[i]]))
    && (forall i :: 0 <= i < n && i < |s.random| ==> Considered(s0, s.random[i], ids, now))
  }

  ghost predicate Considered(s0: State, n: int, ids: seq<int>, now: int) {
    n in s0.info && (IsTerrible(s0.info[n], now) || n in ids)
  }

  // With all of vRandom gone through, every good entry has been chosen.
  lemma AllConsidered(s0: State, s: State, ids: seq<int>, vAddr: seq<Announced>, now: int)
    requires Chosen(s0, s, |s.random|, ids, vAddr, now) && IndexOk(s) && Reindexed(s0, s)
    ensures forall n :: n in s0.info && !IsTerrible(s0.info[n], now) ==> n in ids
  {
    hide IsTerrible;
    forall n | n in s0.info && !IsTerrible(s0.info[n], now) ensures n in ids {
      assert EntryIndexed(s, n);
      assert Considered(s0, s.random[s.info[n].randomPos], ids, now);
    }
  }

  lemma ChosenSwapped(s0: State, s: State, n: int, r: int, ids: seq<int>, vAddr: seq<Announced>, now: int)
    requires Chosen(s0, s, n, ids, vAddr, now) && IndexOk(s) && 0 <= n <= r < |s.random|
    ensures Chosen(s0, Swapped(s, n, r), n, ids, vAddr, now)
  {
    hide IndexOk, Swapped, IsTerrible;
    SwapPreconditions(s, n, r);
    IndexParts(s);
    SwappedEffect(s, n, r);
    var t := Swapped(s, n, r);
    forall i | 0 <= i < |ids| ensures ids[i] in t.info && t.info[ids[i]].randomPos < n {
      var m := ids[i];
      assert m in s.info && m in t.info;
      assert Swapped(s, n, r).info[m] == s.info[m].(randomPos := Trade(s.info[m].randomPos, n, r));
    }
  }

  lemma SwapPreconditions(s: State, i: int, j: int)
    requires IndexOk(s) && 0 <= i < |s.random| && 0 <= j < |s.random|
    ensures s.random[i] in s.info && s.random[j] in s.info
  {
  }

  lemma ChosenNext(s0: State, s: State, n: int, ids: seq<int>, vAddr: seq<Announced>, now: int)
    requires Chosen(s0, s, n, ids, vAddr, now) && 0 <= n < |s.random|
    requires var id := s.random[n]; id in s.info && s.info[id].randomPos == n && id in s0.info
    ensures var id := s.random[n]; IsTerrible(s0.info[id], now) ==> Chosen(s0, s, n + 1, ids, vAddr, now)
    ensures var id := s.random[n]; !IsTerrible(s0.info[id], now) ==>
             Chosen(s0, s, n + 1, ids + [id], vAddr + [Announce(s0.info[id])], now)
  {
    hide IsTerrible;
  }

  lemma SwappedGrows(s0: State, s: State, t: State)
    requires CollisionsOk(s) && Reindexed(s0, s) && Reindexed(s, t) && Grows(s0, s) && t.collisions == s.collisions
    ensures Grows(s0, t) && CollisionsOk(t) && Reindexed(s0, t)
  {
    hide TriedSlot;
    forall n | n in s0.info
      ensures t.info[n].(randomPos := 0) == s0.info[n].(randomPos := 0) && t.info[n].addr == s.info[n].addr
    {
      assert t.info[n].(randomPos := 0) == s.info[n].(randomPos := 0) == s0.info[n].(randomPos := 0);
      assert t.info[n].(randomPos := 0).addr == s.info[n].(randomPos := 0).addr;
    }
    assert Grows(s, t);
    GrowsKeepsCollisions(s, t);
  }

  lemma SameQuality(s: State, t: State, n: int, now: int)
    requires Reindexed(s, t) && n in t.info
    ensures n in s.info && IsTerrible(t.info[n], now) == IsTerrible(s.info[n], now) &&
             Announce(t.info[n]) == Announce(s.info[n])
  {
    var a, b := t.info[n].(randomPos := 0), s.info[n].(randomPos := 0);
    assert a == b;
    assert t.info[n].lastTry == a.lastTry && t.info[n].time == a.time && t.info[n].lastSuccess == a.lastSuccess
           && t.info[n].attempts == a.attempts && t.info[n].addr == a.addr && t.info[n].services == a.services;
  }

  lemma CreatedFacts(s: State, e: Info)
    ensures var t := Created(s, e);
            && s.idCount in t.info && t.info[s.idCount].refCount == e.refCount && t.info[s.idCount].inTried == e.inTried
            && t.nNew == s.nNew + 1
  {
  }

  function RefsBelow(s: State, n: int, bucket: int): set<Slot> {
    set k | k in s.newTable && s.newTable[k] == n && k.bucket < bucket
  }

  // The loop of MakeTried after some buckets.
  function RefsDropped(s: State, n: int, bucket: int): State
    requires n in s.info
  {
    SetInfo(s, n, s.info[n].(refCount := s.info[n].refCount - |RefsBelow(s, n, bucket)|))
      .(newTable := map k | k in s.newTable && !(s.newTable[k] == n && k.bucket < bucket) :: s.newTable[k])
  }

  lemma RefsBelowNone(s: State, n: int)
    requires n in s.info && NewOk(s)
    ensures RefsDropped(s, n, 0) == s
  {
    hide NewSlotIn;
    assert RefsBelow(s, n, 0) == {};
    assert (map k | k in s.newTable && !(s.newTable[k] == n && k.bucket < 0) :: s.newTable[k]) == s.newTable;
    assert s.info[n := s.info[n]] == s.info;
  }

  // In each bucket an entry can only be at its hashed position.
  lemma RefsBelowStep(s: State, n: int, bucket: int)
    requires n in s.info && NewOk(s) && 0 <= bucket < NEW_BUCKET_COUNT
    ensures var k := NewSlotIn(s.hash, s.key, s.info[n].addr, bucket);
            var a, b := RefsDropped(s, n, bucket), RefsDropped(s, n, bucket + 1);
            b == if k in a.newTable && a.newTable[k] == n
                 then SetInfo(a, n, a.info[n].(refCount := a.info[n].refCount - 1)).(newTable := a.newTable - {k})
                 else a
  {
    hide RefsDropped;
    var k := NewSlotIn(s.hash, s.key, s.info[n].addr, bucket);
    assert k.bucket == bucket;
    OnlyOneInBucket(s, n, bucket, k);
    DropOne(s, n, bucket, k);
  }

  lemma OnlyOneInBucket(s: State, n: int, bucket: int, k: Slot)
    requires n in s.info && NewOk(s) && k == NewSlotIn(s.hash, s.key, s.info[n].addr, bucket)
    ensures forall j :: j in s.newTable && s.newTable[j] == n && j.bucket == bucket ==> j == k
  {
    hide NewSlotIn;
  }

  lemma DropOne(s: State, n: int, bucket: int, k: Slot)
    requires n in s.info && k.bucket == bucket
    requires forall j :: j in s.newTable && s.newTable[j] == n && j.bucket == bucket ==> j == k
    ensures var a, b := RefsDropped(s, n, bucket), RefsDropped(s, n, bucket + 1);
            b == if k in a.newTable && a.newTable[k] == n
                 then SetInfo(a, n, a.info[n].(refCount := a.info[n].refCount - 1)).(newTable := a.newTable - {k})
                 else a
  {
    var a, b := RefsDropped(s, n, bucket), RefsDropped(s, n, bucket + 1);
    if k in s.newTable && s.newTable[k] == n {
      assert RefsBelow(s, n, bucket + 1) == RefsBelow(s, n, bucket) + {k};
      assert b.newTable == a.newTable - {k};
    } else {
      assert RefsBelow(s, n, bucket + 1) == RefsBelow(s, n, bucket);
      assert b.newTable == a.newTable;
    }
  }

  lemma RefsBelowAll(s: State, n: int)
    requires n in s.info && NewOk(s)
    ensures RefsDropped(s, n, NEW_BUCKET_COUNT) == Unreferenced(s, n)
  {
    hide NewSlotIn;
    assert RefsBelow(s, n, NEW_BUCKET_COUNT) == Refs(s, n);
    assert RefsDropped(s, n, NEW_BUCKET_COUNT).newTable == Unreferenced(s, n).newTable;
  }

  lemma SlotHolder(s: State, k: Slot, holes: set<int>)
    requires Inv(s, holes)
    ensures k in s.newTable ==>
             s.newTable[k] in s.info && s.info[s.newTable[k]].refCount > 0 && !s.info[s.newTable[k]].inTried
  {
    hide IndexOk, TriedOk, CountsOk, NewSlotIn;
    if k in s.newTable { assert k in Refs(s, s.newTable[k]); }
  }

  // ClearNew does not look at nNew.
  lemma CountAside(s: State, k: Slot, nNew: int)
    requires IndexOk(s) && (k in s.newTable ==> s.newTable[k] in s.info)
    ensures IndexOk(s.(nNew := nNew))
    ensures ClearedNew(s.(nNew := nNew), k) == ClearedNew(s, k).(nNew := ClearedNew(s, k).nNew - s.nNew + nNew)
  {
    hide IndexOk, Deleted;
    SameIndex(s, s.(nNew := nNew));
    if k in s.newTable {
      UnrefIndexed(s, k);
      assert Unref(s.(nNew := nNew), k) == Unref(s, k).(nNew := nNew);
      DeletedCountAside(Unref(s, k), s.newTable[k], nNew);
    }
  }

  lemma DeletedCountAside(s: State, n: int, nNew: int)
    requires IndexOk(s) && n in s.info
    ensures IndexOk(s.(nNew := nNew))
    ensures Deleted(s.(nNew := nNew), n) == Deleted(s, n).(nNew := nNew - 1)
    ensures Deleted(s, n).nNew == s.nNew - 1
  {
    hide IndexOk;
    SameIndex(s, s.(nNew := nNew));
  }

  lemma EvictedAddress(t0: State, k: Slot, n: int)
    requires Inv(t0, {n}) && k == TriedSlot(t0.hash, t0.key, t0.info[n].addr)
    ensures Inv(Evicted(t0, k, {n}), {n})
    ensures var e := Evicted(t0, k, {n});
            e.info[n].addr == t0.info[n].addr && e.hash == t0.hash && e.key == t0.key
  {
    hide IndexOk, TriedOk, CountsOk, NewOk, EntryOk, Evicted, TriedSlot;
    EvictedInv(t0, k, n);
    assert Evicted(t0, k, {n}).info[n].(randomPos := 0).addr == t0.info[n].addr;
  }

  lemma SwappedLast(s: State, n: int)
    requires RandomOk(s) && n in s.info
    ensures EntryPlaced(s, n) && |s.random| > 0
    ensures |Swapped(s, s.info[n].randomPos, |s.random| - 1).random| == |s.random|
  {
    assert EntryPlaced(s, n);
  }
}
