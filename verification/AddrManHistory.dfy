/** What announcements, connections and failed attempts leave in an entry (Add_, Connected_, Attempt_ and SetServices_
    in src/addrman.cpp), as a caller can see it. */
module AddrManHistory {
  import opened AddrManState
  import opened AddrManOps
  import opened AddrManTimes

  /** Nothing but when the entry was seen and what it offers. */
  predicate OnlySeen(e: Info, f: Info) {
    f == e.(time := f.time, services := f.services)
  }

  predicate Includes(services: bv64, others: bv64) {
    services & others == others
  }

  lemma UnionIncludesLeft(x: bv64, y: bv64)
    ensures Includes(x | y, x)
  {
  }

  lemma UnionIncludesRight(x: bv64, y: bv64)
    ensures Includes(x | y, y)
  {
  }

  lemma UnionIsLeast(x: bv64, y: bv64, z: bv64)
    requires Includes(z, x) && Includes(z, y)
    ensures Includes(z, x | y)
  {
  }

  /** Another announcement loses no service bit and adds none but its own. */
  lemma SeenAgainServices(e: Info, a: Announced, penalty: int, now: int, z: bv64)
    ensures var f := SeenAgain(e, a, penalty, now);
            && Includes(f.services, e.services) && Includes(f.services, a.services)
            && (Includes(z, e.services) && Includes(z, a.services) ==> Includes(z, f.services))
  {
    hide Includes, SeenAgain;
    UnionIncludesLeft(e.services, a.services);
    UnionIncludesRight(e.services, a.services);
    if Includes(z, e.services) && Includes(z, a.services) { UnionIsLeast(e.services, a.services, z); }
    ServicesUnion(e, a, penalty, now);
  }

  lemma ServicesUnion(e: Info, a: Announced, penalty: int, now: int)
    ensures SeenAgain(e, a, penalty, now).services == e.services | a.services
  {
  }

  /** The time seen never goes back, moves to the announced one less the penalty, and only by more than the update
      interval, an hour or a day; nothing else but the services changes. */
  lemma SeenAgainTime(e: Info, a: Announced, penalty: int, now: int)
    ensures var f := SeenAgain(e, a, penalty, now);
            && OnlySeen(e, f) && f.time >= e.time && (f.time == e.time || f.time == 0 || f.time == a.time - penalty)
            && (e.time != 0 && f.time != e.time ==>
                  f.time > e.time + if now - a.time < 24 * 60 * 60 then 60 * 60 else 24 * 60 * 60)
  {
    var f := SeenAgain(e, a, penalty, now);
  }

  /** The entry of an address just added: one not known before has what was announced, the time less the penalty, no
      attempt or success and the source that announced it; one known before is the same but for this announcement.
      No other entry comes in, and none that stays has other statistics. */
  lemma AddEffect(s: State, a: Announced, source: NetAddr, penalty: int, now: int, lucky: bool, m: int)
    requires Inv(s, {}) && m in AfterAdd(s, a, source, penalty, now, lucky).info
    ensures var f := AfterAdd(s, a, source, penalty, now, lucky).info[m];
            var p := if a.addr.ip == source then 0 else penalty;
            if a.addr.ip in s.addr && m == s.addr[a.addr.ip] then SameTime(SeenAgain(s.info[m], a, p, now), f)
            else if a.addr.ip !in s.addr && m == s.idCount
            then SameTime(Info(a.addr, Max(0, a.time - p), a.services, source, 0, 0, 0, 0, 0, false, -1), f)
            else m in s.info && SameTime(s.info[m], f)
  {
    hide IndexOk, TriedOk, CountsOk, NewOk, Placed, TriedSlot, IsTerrible, SeenAgain;
    var p := if a.addr.ip == source then 0 else penalty;
    IndexedByAddress(s, a.addr.ip);
    if a.addr.ip in s.addr {
      var n := s.addr[a.addr.ip];
      var e := SeenAgain(s.info[n], a, p, now);
      var s1 := SetInfo(s, n, e);
      SeenAgainInv(s, n, a, p, now);
      assert EntryOk(s1.info[n], n in {});
      if WantsReference(e, a) && lucky { PlacedTimes(s1, n, source, now); }
    } else {
      var e := FirstSeen(a, source, p);
      CreatedInv(s, e, {});
      assert {} + {s.idCount} == {s.idCount};
      PlacedTimes(Created(s, e), s.idCount, source, now);
    }
  }

  /** A connection moves the time seen forward only, by more than 20 minutes, of the exact service only. */
  lemma ConnectedEffect(s: State, a: Service, time: int, n: int)
    requires IndexOk(s) && n in s.info
    ensures var t := AfterConnected(s, a, time);
            && t == s.(info := t.info) && t.info.Keys == s.info.Keys && OnlySeen(s.info[n], t.info[n])
            && t.info[n].services == s.info[n].services && t.info[n].time >= s.info[n].time
            && (t.info[n].time != s.info[n].time <==> s.info[n].addr == a && time > s.info[n].time + 20 * 60)
            && (t.info[n].time != s.info[n].time ==> t.info[n].time == time)
  {
    assert EntryIndexed(s, n);
  }

  lemma SetServicesEffect(s: State, a: Service, services: bv64, n: int)
    requires IndexOk(s) && n in s.info
    ensures var t := AfterSetServices(s, a, services);
            && t == s.(info := t.info) && t.info.Keys == s.info.Keys
            && t.info[n] == if s.info[n].addr == a then s.info[n].(services := services) else s.info[n]
  {
    assert EntryIndexed(s, n);
    IndexedByAddress(s, a.ip);
  }

  /** Not worth keeping, in days, hours and minutes. */
  lemma TerribleReasons(e: Info, now: int)
    ensures var minute, day := 60, 86400;
            var unseen := e.time == 0 || e.time > now + 10 * minute || e.time < now - 30 * day;
            var failed := if e.lastSuccess == 0 then e.attempts >= 3
                          else e.attempts >= 10 && e.lastSuccess < now - 7 * day;
            IsTerrible(e, now) <==> (unseen || failed) && (e.lastTry == 0 || e.lastTry < now - minute)
  {
  }

  /** An entry tried within the last minute is not terrible; one that is stays so until it is heard of or tried again,
      unless it was only seen too far in the future. */
  lemma TerribleStays(e: Info, now: int, later: int)
    requires now <= later && IsTerrible(e, now)
    ensures e.lastTry == 0 || e.lastTry < now - 60
    ensures e.time <= now + 10 * 60 ==> IsTerrible(e, later)
  {
  }

  // ---------- Who gives way in the new table ----------

  /** One more reference takes the slot that its source gives, exactly if that is free, its holder is terrible, or the
      holder has another reference and the entry none; an entry that is left without a reference goes, and no other
      does but a holder that lost its last one. */
  lemma PlacedEffect(s: State, n: int, source: NetAddr, now: int)
    requires n in s.info && Inv(s, if s.info[n].refCount == 0 then {n} else {}) && !s.info[n].inTried
    ensures var t, k := Placed(s, n, source, now), NewSlot(s.hash, s.key, s.info[n].addr, source);
            var held := k in s.newTable && s.newTable[k] != n;
            && (held ==> s.newTable[k] in s.info)
            && var takes := held ==>
                 (IsTerrible(s.info[s.newTable[k]], now)
                  || (s.info[s.newTable[k]].refCount >= 2 && s.info[n].refCount == 0));
               && t.newTable == (if takes then s.newTable[k := n] else s.newTable) && t.triedTable == s.triedTable
               && t.info.Keys == s.info.Keys
                    - (if held && takes && s.info[s.newTable[k]].refCount == 1 then {s.newTable[k]} else {})
                    - (if !takes && s.info[n].refCount == 0 then {n} else {})
  {
    hide IndexOk, TriedOk, CountsOk, EntryOk, Deleted, NewSlotIn, NewSlot, IsTerrible, TriedSlot;
    var holes := if s.info[n].refCount == 0 then {n} else {};
    var k := NewSlot(s.hash, s.key, s.info[n].addr, source);
    if k in s.newTable && s.newTable[k] == n {
      assert s.newTable[k := n] == s.newTable;
    } else if k in s.newTable {
      HolderEffect(s, k, holes);
      if !MayTake(s, n, k, now) && s.info[n].refCount == 0 { DeletedEffect(s, n); }
    }
  }

  /** A known entry gains a reference only from newer news, and never one that is tried or has eight; with luck it then
      takes the slot of that source if this is free. */
  lemma KnownReferences(s: State, a: Announced, source: NetAddr, penalty: int, now: int, lucky: bool)
    requires Inv(s, {}) && a.addr.ip in s.addr && s.addr[a.addr.ip] in s.info
    ensures var t, n := AfterAdd(s, a, source, penalty, now, lucky), s.addr[a.addr.ip];
            var e, p := s.info[n], if a.addr.ip == source then 0 else penalty;
            var seen, k := SeenAgain(e, a, p, now).time, NewSlot(s.hash, s.key, e.addr, source);
            var news := a.time != 0 && (seen == 0 || seen < a.time) && !e.inTried && e.refCount < 8;
            && (!news || !lucky ==> t.newTable == s.newTable && t.info.Keys == s.info.Keys)
            && (news && lucky && k !in s.newTable ==> t.newTable == s.newTable[k := n])
  {
    hide IndexOk, TriedOk, CountsOk, NewOk, Placed, NewSlot, IsTerrible, SeenAgain;
    var n, p := s.addr[a.addr.ip], if a.addr.ip == source then 0 else penalty;
    var s1 := SetInfo(s, n, SeenAgain(s.info[n], a, p, now));
    SeenAgainInv(s, n, a, p, now);
    SeenAgainTime(s.info[n], a, p, now);
    assert EntryOk(s.info[n], n in {}) && EntryOk(s1.info[n], n in {});
    if WantsReference(s1.info[n], a) && lucky { PlacedEffect(s1, n, source, now); }
  }

  lemma HolderEffect(s: State, k: Slot, holes: set<int>)
    requires Inv(s, holes) && k in s.newTable
    ensures var c, m := ClearedNew(s, k), s.newTable[k];
            && m in s.info && c.newTable == s.newTable - {k} && c.triedTable == s.triedTable
            && c.info.Keys == s.info.Keys - (if s.info[m].refCount == 1 then {m} else {})
            && m !in holes && s.info[m].refCount >= 1
  {
    hide IndexOk, TriedOk, CountsOk, EntryOk, Deleted, NewSlotIn, TriedSlot;
    var m := s.newTable[k];
    UnrefInv(s, k, holes);
    UnrefIndexed(s, k);
    if s.info[m].refCount == 1 { DeletedEffect(Unref(s, k), m); }
  }

  lemma DeletedEffect(s: State, n: int)
    requires n in s.info && IndexOk(s)
    ensures var t := Deleted(s, n);
            t.newTable == s.newTable && t.triedTable == s.triedTable && t.info.Keys == s.info.Keys - {n}
  {
    hide IndexOk, Swapped;
    IndexParts(s);
    ErasedEffect(s, n);
  }

  // ---------- Failed attempts between two successes ----------

  datatype Failure = Failure(addr: Service, counts: bool, time: int)

  function AfterFailures(s: State, calls: seq<Failure>): (t: State)
    requires IndexOk(s)
    ensures IndexOk(t) && t == s.(info := t.info) && t.info.Keys == s.info.Keys
    ensures forall n :: n in s.info ==> t.info[n].addr == s.info[n].addr
  {
    if calls == [] then s else
      var u, c := AfterFailures(s, calls[..|calls| - 1]), calls[|calls| - 1];
      AttemptEffect(u, c.addr, c.counts, c.time);
      AttemptIndexed(u, c.addr, c.counts, c.time);
      AfterAttempt(u, c.addr, c.counts, c.time)
  }

  /** An attempt concerns the exact service only, notes its time and counts once after the last success of any peer. */
  lemma AttemptEffect(s: State, a: Service, countFailure: bool, time: int)
    requires IndexOk(s)
    ensures var t := AfterAttempt(s, a, countFailure, time);
            && t == s.(info := t.info) && t.info.Keys == s.info.Keys
            && forall n :: n in s.info ==> EntryAttempted(s.info[n], t.info[n], s.lastGood, a, countFailure, time)
  {
    var t := AfterAttempt(s, a, countFailure, time);
    IndexedByAddress(s, a.ip);
    forall n | n in s.info ensures EntryAttempted(s.info[n], t.info[n], s.lastGood, a, countFailure, time) {
      assert EntryIndexed(s, n);
    }
  }

  lemma AttemptIndexed(s: State, a: Service, countFailure: bool, time: int)
    requires IndexOk(s)
    ensures IndexOk(AfterAttempt(s, a, countFailure, time))
  {
    hide EntryIndexed;
    TouchedIndexed(s, AfterAttempt(s, a, countFailure, time));
  }

  predicate EntryAttempted(e: Info, f: Info, lastGood: int, a: Service, countFailure: bool, time: int) {
    var counted := e.addr == a && countFailure && e.lastCountAttempt < lastGood;
    && f == e.(lastTry := f.lastTry, lastCountAttempt := f.lastCountAttempt, attempts := f.attempts)
    && f.lastTry == (if e.addr == a then time else e.lastTry)
    && f.attempts == e.attempts + (if counted then 1 else 0)
    && f.lastCountAttempt == if counted then time else e.lastCountAttempt
  }

  predicate SomeCounts(calls: seq<Failure>, a: Service) {
    exists i :: 0 <= i < |calls| && calls[i].addr == a && calls[i].counts
  }

  /** However many attempts fail between two successes, each entry's count goes up once at the most: by one exactly if
      some attempt on it counted and none had since the last success. */
  lemma {:induction false} FailuresCountOnce(s: State, calls: seq<Failure>, n: int)
    requires IndexOk(s) && n in s.info
    requires forall i :: 0 <= i < |calls| ==> calls[i].time >= s.lastGood
    ensures var e, f := s.info[n], AfterFailures(s, calls).info[n];
            var counted := e.lastCountAttempt < s.lastGood && SomeCounts(calls, e.addr);
            && f.attempts == e.attempts + (if counted then 1 else 0)
            && (if counted then f.lastCountAttempt >= s.lastGood else f.lastCountAttempt == e.lastCountAttempt)
  {
    hide IndexOk;
    if calls != [] {
      var init, c := calls[..|calls| - 1], calls[|calls| - 1];
      FailuresCountOnce(s, init, n);
      var u := AfterFailures(s, init);
      AttemptEffect(u, c.addr, c.counts, c.time);
      assert EntryAttempted(u.info[n], AfterFailures(s, calls).info[n], u.lastGood, c.addr, c.counts, c.time);
      SomeCountsSnoc(calls, s.info[n].addr);
    }
  }

  /** Times before the last success are what that takes: an attempt that counts counts again exactly for such a time. */
  lemma CountsAgainIff(s: State, n: int, time: int)
    requires IndexOk(s) && n in s.info && s.info[n].lastCountAttempt < s.lastGood
    ensures var f := Failure(s.info[n].addr, true, time);
            AfterFailures(s, [f, f]).info[n].attempts == s.info[n].attempts + if time < s.lastGood then 2 else 1
  {
    hide IndexOk, AfterFailures, AfterAttempt;
    var f := Failure(s.info[n].addr, true, time);
    FailuresNone(s);
    FailuresSnoc(s, [], f);
    FailuresSnoc(s, [f], f);
    assert [] + [f] == [f] && [f] + [f] == [f, f];
    var u := AfterFailures(s, [f]);
    AttemptEffect(s, f.addr, f.counts, f.time);
    AttemptEffect(u, f.addr, f.counts, f.time);
    assert EntryAttempted(s.info[n], u.info[n], s.lastGood, f.addr, f.counts, f.time);
    assert EntryAttempted(u.info[n], AfterFailures(s, [f, f]).info[n], s.lastGood, f.addr, f.counts, f.time);
  }

  lemma FailuresNone(s: State)
    requires IndexOk(s)
    ensures AfterFailures(s, []) == s
  {
  }

  lemma FailuresSnoc(s: State, calls: seq<Failure>, c: Failure)
    requires IndexOk(s)
    ensures AfterFailures(s, calls + [c]) == AfterAttempt(AfterFailures(s, calls), c.addr, c.counts, c.time)
  {
    hide IndexOk, AfterAttempt;
    assert (calls + [c])[..|calls|] == calls;
  }

  lemma SomeCountsSnoc(calls: seq<Failure>, a: Service)
    requires calls != []
    ensures var init, c := calls[..|calls| - 1], calls[|calls| - 1];
            SomeCounts(calls, a) <==> SomeCounts(init, a) || (c.addr == a && c.counts)
  {
    var init := calls[..|calls| - 1];
    if SomeCounts(init, a) {
      var i :| 0 <= i < |init| && init[i].addr == a && init[i].counts;
      assert calls[i].addr == a && calls[i].counts;
    }
    if SomeCounts(calls, a) {
      var i :| 0 <= i < |calls| && calls[i].addr == a && calls[i].counts;
      if i < |init| { assert init[i].addr == a && init[i].counts; }
    }
  }
}
