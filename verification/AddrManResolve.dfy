/** What settling pending collisions (ResolveCollisions_ in src/addrman.cpp) means for the tried table, in terms of the
    times of the entries before it. */
module AddrManResolve {
  import opened AddrManState
  import opened AddrManOps
  import opened AddrManTimes

  /** Good seen from the tables: an unknown service changes no entry. A known one has its times and count of attempts
      set. Unless it is tried already it takes its tried slot, and the entry there goes back to the new table; where
      that must be tested first, it becomes a pending collision while there are fewer than ten. No other entry's
      statistics change. */
  ghost predicate Credited(s: State, t: State, a: Service, testBeforeEvict: bool, time: int)
    requires a.ip in s.addr ==> s.addr[a.ip] in s.info
  {
    if !Knows(s, a) then t == s.(lastGood := time)
    else
      var n, k := s.addr[a.ip], TriedSlot(s.hash, s.key, a);
      var untried, crowded := !s.info[n].inTried, testBeforeEvict && k in s.triedTable;
      && t.lastGood == time && n in t.info && t.info[n].lastSuccess == t.info[n].lastTry == time
      && t.info[n].attempts == 0
      && t.triedTable == (if untried && !crowded then s.triedTable[k := n] else s.triedTable)
      && (untried && !crowded && k in s.triedTable ==> Returned(s, t, s.triedTable[k]))
      && t.collisions == (if untried && crowded && |s.collisions| < 10 then s.collisions + {n} else s.collisions)
      && (forall m :: m in t.info && m != n ==> m in s.info && SameTime(s.info[m], t.info[m]))
  }

  lemma GoodEffect(s: State, a: Service, testBeforeEvict: bool, time: int)
    requires Inv(s, {})
    ensures a.ip in s.addr ==> s.addr[a.ip] in s.info
    ensures Credited(s, AfterGood(s, a, testBeforeEvict, time), a, testBeforeEvict, time)
  {
    hide IndexOk, TriedOk, CountsOk, NewOk, MadeTried, TriedSlot, EntryOk, NewSlot;
    IndexedByAddress(s, a.ip);
    if Knows(s, a) { KnownGood(s, a, testBeforeEvict, time); }
  }

  lemma KnownGood(s: State, a: Service, testBeforeEvict: bool, time: int)
    requires Inv(s, {}) && a.ip in s.addr && s.addr[a.ip] in s.info && Knows(s, a)
    ensures Credited(s, AfterGood(s, a, testBeforeEvict, time), a, testBeforeEvict, time)
  {
    hide IndexOk, TriedOk, CountsOk, NewOk, MadeTried, TriedSlot, EntryOk, NewSlot;
    var n := s.addr[a.ip];
    var s1 := SetInfo(s.(lastGood := time), n, s.info[n].(lastSuccess := time, lastTry := time, attempts := 0));
    SucceededInv(s, n, time);
    if !s1.info[n].inTried {
      RivalDiffers(s1, n);
      MadeTriedInv(s1, n);
      MadeTriedTimes(s1, n);
    }
  }

  // ---------- One collision ----------

  predicate Spared(rival: Info, now: int) {
    now - rival.lastSuccess < 4 * 60 * 60
  }

  /** The entry in the slot has not connected for four hours, and either failed an attempt that is more than a minute
      and less than four hours old, or none was made while the other one has waited for 40 minutes. */
  predicate Loses(rival: Info, challenger: Info, now: int) {
    && now - rival.lastSuccess >= 4 * 60 * 60
    && (60 < now - rival.lastTry < 4 * 60 * 60
        || (now - rival.lastTry >= 4 * 60 * 60 && now - challenger.lastSuccess > 40 * 60))
  }

  predicate Contends(s: State, n: int, valid: Service -> bool) {
    && n in s.info && valid(s.info[n].addr)
    && var k := TriedSlot(s.hash, s.key, s.info[n].addr);
       k in s.triedTable && s.triedTable[k] in s.info
  }

  function Rival(s: State, n: int, valid: Service -> bool): int
    requires Contends(s, n, valid)
  {
    s.triedTable[TriedSlot(s.hash, s.key, s.info[n].addr)]
  }

  /** Settling one collision takes the rival's slot exactly if the rival loses, gives the collision up exactly if the
      rival loses or is spared, and otherwise leaves everything as it was. */
  lemma ResolveEffect(s: State, n: int, valid: Service -> bool, now: int)
    requires Inv(s, {}) && Contends(s, n, valid)
    ensures var t, rival, k := AfterResolve(s, n, valid, now), Rival(s, n, valid),
                TriedSlot(s.hash, s.key, s.info[n].addr);
            var lost := Loses(s.info[rival], s.info[n], now);
            && t.triedTable == (if lost then s.triedTable[k := n] else s.triedTable)
            && t.collisions == (if lost || Spared(s.info[rival], now) then s.collisions - {n} else s.collisions)
            && (lost ==> n in t.info && t.info[n].lastSuccess == t.info[n].lastTry == now)
            && (lost && rival != n ==> Returned(s, t, rival))
            && (lost ==> forall m :: m in t.info && m != n ==> m in s.info && SameTime(s.info[m], t.info[m]))
            && (!lost ==> t == s.(collisions := t.collisions))
  {
    hide IndexOk, CountsOk, NewOk, EntryOk, TriedSlot, AfterGood, NewSlot;
    var rival, a := Rival(s, n, valid), s.info[n].addr;
    if Loses(s.info[rival], s.info[n], now) {
      IndexedEntry(s, n);
      assert s.addr[a.ip] == n;
      GoodEffect(s, a, false, now);
      GoodCollisions(s, a, now);
      if s.info[n].inTried {
        assert s.triedTable[TriedSlot(s.hash, s.key, a)] == n;
      } else {
        RivalDiffers(s, n);
      }
    }
  }

  lemma GoodCollisions(s: State, a: Service, time: int)
    requires Inv(s, {})
    ensures AfterGood(s, a, false, time).collisions == s.collisions
  {
    hide IndexOk, TriedOk, CountsOk, NewOk, EntryOk, MadeTried, TriedSlot;
    IndexedByAddress(s, a.ip);
    if a.ip in s.addr && s.info[s.addr[a.ip]].addr == a {
      var n := s.addr[a.ip];
      SucceededInv(s, n, time);
      var s1 := SetInfo(s.(lastGood := time), n, s.info[n].(lastSuccess := time, lastTry := time, attempts := 0));
      if !s1.info[n].inTried { MadeTriedInv(s1, n); }
    }
  }

  /** An id that is gone or whose address is not valid is given up and changes nothing else. */
  lemma ResolveUnknown(s: State, n: int, valid: Service -> bool, now: int)
    requires Inv(s, {}) && (n !in s.info || !valid(s.info[n].addr))
    ensures AfterResolve(s, n, valid, now) == s.(collisions := s.collisions - {n})
  {
  }

  // ---------- All collisions, one after the other ----------

  /** The times of an entry, seen from before: as they were unless it took a slot. */
  predicate Ripened(e: Info, f: Info, done: bool, now: int) {
    f.addr == e.addr && ((f.lastTry == e.lastTry && f.lastSuccess == e.lastSuccess) || (done && f.lastSuccess == now))
  }

  /** A tried slot holds what it held, or a collision settled by then, whose rival lost to it. */
  ghost predicate SlotSettled(s: State, t: State, k: Slot, done: seq<int>, now: int)
    requires k in s.triedTable
  {
    && k in t.triedTable && s.triedTable[k] in s.info && t.triedTable[k] in t.info && t.triedTable[k] in s.info
    && var was, holder := s.triedTable[k], t.triedTable[k];
       was == holder ||
       (holder in done && t.info[holder].lastSuccess == now && Loses(s.info[was], s.info[holder], now))
  }

  /** A collision whose rival loses leaves its slot, if it is still known, with one of those settled; one that is
      still pending has a rival that neither lost nor is spared. */
  ghost predicate Decided(s: State, t: State, n: int, done: seq<int>, valid: Service -> bool, now: int) {
    && (n in t.info && Contends(s, n, valid) && Loses(s.info[Rival(s, n, valid)], s.info[n], now) ==>
          var k := TriedSlot(s.hash, s.key, s.info[n].addr); k in t.triedTable && t.triedTable[k] in done)
    && (n in t.collisions ==>
          && Contends(s, n, valid) && !Spared(s.info[Rival(s, n, valid)], now)
          && !Loses(s.info[Rival(s, n, valid)], s.info[n], now))
  }

  ghost predicate Settling(s: State, t: State, done: seq<int>, valid: Service -> bool, now: int) {
    && t.hash == s.hash && t.key == s.key && t.triedTable.Keys == s.triedTable.Keys && t.collisions <= s.collisions
    && (forall m :: m in t.info ==> m in s.info && Ripened(s.info[m], t.info[m], m in done, now))
    && (forall k :: k in s.triedTable ==> SlotSettled(s, t, k, done, now))
    && (forall n :: n in done ==> Decided(s, t, n, done, valid, now))
  }

  lemma SettlingStart(s: State, valid: Service -> bool, now: int)
    requires Consistent(s)
    ensures Settling(s, s, [], valid, now)
  {
    hide IndexOk, CountsOk, NewOk, TriedSlot;
  }

  /** What one collision does to the state, on the terms of ResolveEffect, for any pending one. */
  ghost predicate Turn(t: State, u: State, n: int, valid: Service -> bool, now: int) {
    && u.hash == t.hash && u.key == t.key && u.collisions <= t.collisions && u.triedTable.Keys == t.triedTable.Keys
    && (forall m :: m in u.info ==> m in t.info && Ripened(t.info[m], u.info[m], m == n, now))
    && (forall k :: k in u.triedTable ==> u.triedTable[k] in u.info)
    && if !Contends(t, n, valid)
       then u.info == t.info && u.triedTable == t.triedTable && n !in u.collisions
       else
         var rival, k := t.info[Rival(t, n, valid)], TriedSlot(t.hash, t.key, t.info[n].addr);
         if Loses(rival, t.info[n], now)
         then u.triedTable == t.triedTable[k := n] && n in u.info && u.info[n].lastSuccess == now && n !in u.collisions
         else u.info == t.info && u.triedTable == t.triedTable && (Spared(rival, now) ==> n !in u.collisions)
  }

  lemma ResolveTurn(t: State, n: int, valid: Service -> bool, now: int)
    requires Consistent(t) && (n in t.info ==> TriedSlot(t.hash, t.key, t.info[n].addr) in t.triedTable)
    ensures Consistent(AfterResolve(t, n, valid, now)) && Turn(t, AfterResolve(t, n, valid, now), n, valid, now)
  {
    hide IndexOk, CountsOk, NewOk, EntryOk, TriedSlot, AfterResolve, NewSlot, CollisionsOk;
    var u := AfterResolve(t, n, valid, now);
    AfterResolveConsistent(t, n, valid, now);
    if Contends(t, n, valid) {
      ResolveEffect(t, n, valid, now);
      if Loses(t.info[Rival(t, n, valid)], t.info[n], now) { ReplacedKeepsAddresses(t, n, valid, now); }
    } else {
      ResolveUnknown(t, n, valid, now);
    }
  }

  lemma ReplacedKeepsAddresses(t: State, n: int, valid: Service -> bool, now: int)
    requires Consistent(t) && Contends(t, n, valid) && Loses(t.info[Rival(t, n, valid)], t.info[n], now)
    ensures var u := AfterResolve(t, n, valid, now);
            u.hash == t.hash && u.key == t.key &&
            forall m :: m in u.info && m in t.info ==> u.info[m].addr == t.info[m].addr
  {
    hide TriedOk, CountsOk, NewOk, EntryOk, TriedSlot, AfterGood, CollisionsOk;
    AfterGoodConsistent(t, t.info[n].addr, false, now);
    forall m | m in t.info ensures m < t.idCount {
      assert EntryIndexed(t, m);
    }
  }

  // The rival at n's turn: the one from before with its times, or one of those settled, connected just now.
  lemma RivalAtTurn(s: State, t: State, done: seq<int>, valid: Service -> bool, now: int, n: int)
    requires Settling(s, t, done, valid, now) && n !in done && Contends(t, n, valid)
    ensures Contends(s, n, valid)
    ensures TriedSlot(t.hash, t.key, t.info[n].addr) == TriedSlot(s.hash, s.key, s.info[n].addr)
    ensures t.info[n].lastSuccess == s.info[n].lastSuccess
    ensures var was, r := Rival(s, n, valid), Rival(t, n, valid);
            || (was == r && t.info[r].lastTry == s.info[r].lastTry && t.info[r].lastSuccess == s.info[r].lastSuccess)
            || (r in done && t.info[r].lastSuccess == now)
  {
    hide TriedSlot;
    assert Ripened(s.info[n], t.info[n], false, now);
    var k := TriedSlot(s.hash, s.key, s.info[n].addr);
    assert SlotSettled(s, t, k, done, now);
    var r := t.triedTable[k];
    assert Ripened(s.info[r], t.info[r], r in done, now);
  }

  lemma SlotTurn(s: State, t: State, u: State, done: seq<int>, valid: Service -> bool, now: int, n: int, k: Slot)
    requires Settling(s, t, done, valid, now) && Turn(t, u, n, valid, now) && n !in done && k in s.triedTable
    ensures SlotSettled(s, u, k, done + [n], now)
  {
    hide TriedSlot;
    assert SlotSettled(s, t, k, done, now);
    if Contends(t, n, valid) { RivalAtTurn(s, t, done, valid, now, n); }
    var holder := u.triedTable[k];
    if holder in t.info && holder in u.info { assert Ripened(t.info[holder], u.info[holder], holder == n, now); }
  }

  lemma DecidedTurn(s: State, t: State, u: State, done: seq<int>, valid: Service -> bool, now: int, n: int, m: int)
    requires Settling(s, t, done, valid, now) && Turn(t, u, n, valid, now) && n !in done && (m == n || m in done)
    requires n in t.info ==> TriedSlot(t.hash, t.key, t.info[n].addr) in t.triedTable
    ensures Decided(s, u, m, done + [n], valid, now)
  {
    hide TriedSlot;
    if m == n {
      if n in t.info {
        assert Ripened(s.info[n], t.info[n], false, now);
        assert SlotSettled(s, t, TriedSlot(s.hash, s.key, s.info[n].addr), done, now);
        if Contends(t, n, valid) { RivalAtTurn(s, t, done, valid, now, n); }
      }
    } else {
      assert Decided(s, t, m, done, valid, now);
    }
  }

  lemma SettlingTurn(s: State, t: State, u: State, done: seq<int>, valid: Service -> bool, now: int, n: int)
    requires Settling(s, t, done, valid, now) && Turn(t, u, n, valid, now) && n !in done
    requires n in t.info ==> TriedSlot(t.hash, t.key, t.info[n].addr) in t.triedTable
    ensures Settling(s, u, done + [n], valid, now)
  {
    hide TriedSlot, SlotSettled, Decided, Contends;
    forall k | k in s.triedTable ensures SlotSettled(s, u, k, done + [n], now) {
      SlotTurn(s, t, u, done, valid, now, n, k);
    }
    forall m | m in done + [n] ensures Decided(s, u, m, done + [n], valid, now) {
      DecidedTurn(s, t, u, done, valid, now, n, m);
    }
    forall m | m in u.info ensures m in s.info && Ripened(s.info[m], u.info[m], m in done + [n], now) {
      assert Ripened(t.info[m], u.info[m], m == n, now) && Ripened(s.info[m], t.info[m], m in done, now);
    }
  }

  /** Settling any pending collisions in any order. */
  lemma {:induction false} ResolvedAll(s: State, order: seq<int>, valid: Service -> bool, now: int)
    requires Consistent(s) && (forall n :: n in order ==> n in s.collisions)
    requires forall i, j :: 0 <= i < j < |order| ==> order[i] != order[j]
    ensures Consistent(AfterResolveAll(s, order, valid, now))
    ensures Settling(s, AfterResolveAll(s, order, valid, now), order, valid, now)
  {
    hide Inv, CollisionsOk, AfterResolve, Settling, TriedSlot;
    if order == [] {
      SettlingStart(s, valid, now);
    } else {
      var init, n := order[..|order| - 1], order[|order| - 1];
      assert forall m :: m in init ==> m in order;
      ResolvedAll(s, init, valid, now);
      var t := AfterResolveAll(s, init, valid, now);
      assert n in order;
      StillContends(s, t, init, valid, now, n);
      ResolveTurn(t, n, valid, now);
      SettlingTurn(s, t, AfterResolve(t, n, valid, now), init, valid, now, n);
      assert order == init + [n];
    }
  }

  lemma StillContends(s: State, t: State, done: seq<int>, valid: Service -> bool, now: int, n: int)
    requires CollisionsOk(s) && n in s.collisions && Settling(s, t, done, valid, now)
    ensures n in t.info ==> TriedSlot(t.hash, t.key, t.info[n].addr) in t.triedTable
  {
    hide TriedSlot, SlotSettled, Decided;
    if n in t.info { assert Ripened(s.info[n], t.info[n], n in done, now); }
  }
}
