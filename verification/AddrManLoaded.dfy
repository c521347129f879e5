/** What a loaded manager is like: whether Check_, which Unserialize ends with (src/addrman.h), accepts it, and what
    the records of the file say about it. */
module AddrManLoaded {
  import opened AddrManState
  import opened AddrManTimes
  import opened AddrManFile
  import opened AddrManCheck

  // ---------- Check_ on a loaded manager ----------

  /** Where an entry other than entry 0 has the address of another one read, it is not kept. */
  ghost predicate UnsharedButZero(s: State) {
    forall n, m :: n in s.info && m in s.info && n != m && s.info[n].addr.ip == s.info[m].addr.ip ==>
      n == 0 || n in Holes(s)
  }

  // t is s without its holes and their addresses.
  ghost predicate Kept(s: State, t: State) {
    && (forall n :: n in t.info <==> n in s.info && n !in Holes(s))
    && (forall n :: n in t.info ==> t.info[n].addr == s.info[n].addr && SameTime(s.info[n], t.info[n]))
    && t.addr == s.addr - AddressesOf(s, Holes(s))
  }

  lemma LoadedKept(h: Hashes, f: File)
    requires Counted(f)
    ensures AddressesKnown(Filled(h, f)) && Kept(Filled(h, f), Loaded(h, f))
    ensures Loadable(Loaded(h, f)) && Holes(Loaded(h, f)) == {} && Loaded(h, f).key == f.key
  {
    hide Loadable, AddressesKnown, Entered, Filled, Pruned, LoadRows, Holes, PrunedTo, Kept, SameEntries;
    EnteredLoadable(h, f);
    FilledFromEntered(h, f);
    var s := Filled(h, f);
    AllHolesBelow(s);
    PrunedLoadable(s, s.idCount);
    PrunedKept(s, Loaded(h, f));
    PrunedKey(s, Loaded(h, f), h, f);
  }

  lemma PrunedKept(s: State, t: State)
    requires PrunedTo(s, s.idCount, t) && HolesBelow(s, s.idCount) == Holes(s)
    ensures Kept(s, t)
  {
    hide Holes, HolesBelow, AddressesOf;
    forall n ensures n in t.info <==> n in s.info && n !in Holes(s) {
      assert n in t.info.Keys <==> n in s.info.Keys - HolesBelow(s, s.idCount);
    }
    forall n | n in t.info ensures t.info[n].addr == s.info[n].addr && SameTime(s.info[n], t.info[n]) {
      var e, f := s.info[n].(randomPos := 0), t.info[n].(randomPos := 0);
      assert e == f && e.addr == s.info[n].addr && f.addr == t.info[n].addr;
      assert SameTime(s.info[n], e) && SameTime(f, t.info[n]);
    }
  }

  /** Every entry kept reads as itself exactly if no entry kept but entry 0 shares its address. */
  lemma KeptReads(s: State, t: State)
    requires AddressesKnown(s) && Kept(s, t)
    ensures (forall n :: n in t.info ==> IdOf(t, t.info[n].addr.ip) == n) <==> UnsharedButZero(s)
    ensures AddressesOwned(t)
  {
    hide Holes;
    forall m | m in Holes(s) && m in s.info ensures s.info[m].addr.ip !in t.addr {
      assert s.info[m].addr.ip in AddressesOf(s, Holes(s));
    }
    forall a | a in t.addr ensures t.addr[a] in t.info && t.info[t.addr[a]].addr.ip == a {
      var n := s.addr[a];
      assert n in s.info && s.info[n].addr.ip == a;
      assert n in t.info;
    }
    if forall n :: n in t.info ==> IdOf(t, t.info[n].addr.ip) == n {
      ReadsUnshared(s, t);
    }
    if UnsharedButZero(s) {
      forall n | n in t.info ensures IdOf(t, t.info[n].addr.ip) == n {
        UnsharedReads(s, t, n);
      }
    }
  }

  lemma ReadsUnshared(s: State, t: State)
    requires AddressesKnown(s) && Kept(s, t) && forall n :: n in t.info ==> IdOf(t, t.info[n].addr.ip) == n
    requires forall m :: m in Holes(s) && m in s.info ==> s.info[m].addr.ip !in t.addr
    ensures UnsharedButZero(s)
  {
    hide Holes;
    forall n, m | n in s.info && m in s.info && n != m && s.info[n].addr.ip == s.info[m].addr.ip && n != 0
      ensures n in Holes(s)
    {
    }
  }

  lemma UnsharedReads(s: State, t: State, n: int)
    requires AddressesKnown(s) && Kept(s, t) && UnsharedButZero(s) && n in t.info
    requires forall m :: m in Holes(s) && m in s.info ==> s.info[m].addr.ip !in t.addr
    ensures IdOf(t, t.info[n].addr.ip) == n
  {
    hide Holes;
    var a := s.info[n].addr.ip;
    var m := s.addr[a];
    assert m in s.info && s.info[m].addr.ip == a;
    if m != n && n == 0 {
      assert m in Holes(s);
    }
    if m == n {
      StillKnown(s, t, n);
    }
  }

  // An address is erased only with a hole that has it.
  lemma StillKnown(s: State, t: State, n: int)
    requires Kept(s, t) && UnsharedButZero(s) && n in t.info
    requires s.info[n].addr.ip in s.addr && s.addr[s.info[n].addr.ip] == n
    ensures IdOf(t, t.info[n].addr.ip) == n
  {
    hide Holes;
    var a := s.info[n].addr.ip;
    if a in AddressesOf(s, Holes(s)) {
      var m :| m in Holes(s) && m in s.info && s.info[m].addr.ip == a;
      assert n == 0;
    }
  }

  /** The check at the end of Unserialize accepts exactly the files with a key and right times whose entries kept, but
      for entry 0, share no address; and then leaves the manager consistent. */
  lemma LoadedChecked(h: Hashes, f: File)
    requires Counted(f)
    ensures var t := Loaded(h, f);
            && TablesSized(t)
            && (Checked(t) <==> f.key != 0 && TimesOk(t) && UnsharedButZero(Filled(h, f)))
            && (Checked(t) ==> Inv(Read(t), {}) && TimesOk(Read(t)))
  {
    hide Loadable, AddressesKnown, Kept, Loaded, Filled, UnsharedButZero, Checked, TimesOk, Holes, Inv, Read;
    LoadedKept(h, f);
    var s, t := Filled(h, f), Loaded(h, f);
    KeptReads(s, t);
    LoadableChecked(t);
    LoadableSized(t);
    if Checked(t) {
      CheckRepairs(t);
      LoadableIds(t);
    }
  }

  lemma LoadableIds(t: State)
    requires Loadable(t)
    ensures IdsFromCounter(t)
  {
    hide TriedOk, NewOk, CountsOk;
    forall n | n in t.info ensures 0 <= n < t.idCount {
      assert EntryPlaced(t, n);
    }
  }

  lemma LoadableSized(t: State)
    requires Loadable(t)
    ensures TablesSized(t)
  {
    hide RandomOk, CountsOk, EntryOk, NewSlotIn;
    forall k | k in t.newTable ensures 0 <= k.bucket < NEW_BUCKET_COUNT && 0 <= k.pos < BUCKET_SIZE {
      SlotInRange(t, k);
    }
    forall k | k in t.triedTable ensures 0 <= k.bucket < TRIED_BUCKET_COUNT && 0 <= k.pos < BUCKET_SIZE {
      assert k == TriedSlot(t.hash, t.key, t.info[t.triedTable[k]].addr);
    }
  }

  lemma LoadableChecked(t: State)
    requires Loadable(t) && Holes(t) == {}
    ensures Checked(t) <==> t.key != 0 && TimesOk(t) && forall n :: n in t.info ==> IdOf(t, t.info[n].addr.ip) == n
  {
    hide TriedOk, NewOk, Holes;
    CountsAddUp(t);
    forall n | n in t.info
      ensures EntryChecked(t, n) <==> EntryTimed(t.info[n]) && IdOf(t, t.info[n].addr.ip) == n
    {
      assert EntryOk(t.info[n], n in Holes(t)) && EntryPlaced(t, n);
    }
  }

  lemma CountsAddUp(t: State)
    requires RandomOk(t) && CountsOk(t)
    ensures |t.random| == t.nTried + t.nNew
  {
    assert t.info.Keys == NewIds(t) + TriedIds(t);
    assert |t.info| == |t.info.Keys|;
  }

  /** Two new records with one address: the check does not notice exactly if the key and the first record's time are
      right and the second record has the slot of the first. It is then pruned, and takes the address along. */
  lemma RepeatedUnnoticed(h: Hashes, key: Key, r: Record, r': Record)
    requires r.addr.ip == r'.addr.ip
    ensures var t := Loaded(h, TwoRecords(key, r, r'));
            && !Inv(t, {})
            && (Checked(t) <==>
                  && key != 0 && r.lastSuccess >= 0
                  && NewSlot(h, key, r.addr, r.source) == NewSlot(h, key, r'.addr, r'.source))
  {
    hide NewSlot, Inv, Loaded, Checked;
    var f := TwoRecords(key, r, r');
    RepeatedAddress(h, key, r, r');
    LoadedChecked(h, f);
    LoadedKept(h, f);
    TwoFilled(h, key, r, r');
    TwoKept(Filled(h, f), Loaded(h, f));
  }

  lemma TwoKept(s: State, t: State)
    requires s.info.Keys == {0, 1} && Kept(s, t) && s.info[0].addr.ip == s.info[1].addr.ip && 0 !in Holes(s)
    requires !s.info[0].inTried
    ensures UnsharedButZero(s) <==> 1 in Holes(s)
    ensures 1 in Holes(s) ==> (TimesOk(t) <==> EntryTimed(s.info[0]))
  {
    hide Holes;
    forall n ensures n in s.info <==> n == 0 || n == 1 {
      assert n in s.info.Keys <==> n in {0, 1};
    }
    assert 0 in t.info && SameTime(s.info[0], t.info[0]);
  }

  lemma TwoFilled(h: Hashes, key: Key, r: Record, r': Record)
    ensures var s := Filled(h, TwoRecords(key, r, r'));
            && s.info.Keys == {0, 1} && s.info[0].addr == r.addr && s.info[1].addr == r'.addr
            && EntryTimed(s.info[0]) == (r.lastSuccess >= 0) && !s.info[0].inTried && 0 !in Holes(s)
            && (1 in Holes(s) <==> NewSlot(h, key, r.addr, r.source) == NewSlot(h, key, r'.addr, r'.source))
  {
    hide NewSlot;
    assert [r, r'][..1] == [r] && [r][..0] == [];
    assert LoadAllNew(Empty(h, key), [r], false) == LoadNew(Empty(h, key), r, false);
    assert Filled(h, TwoRecords(key, r, r')) == LoadNew(LoadNew(Empty(h, key), r, false), r', false);
  }

  // ---------- Read off the records ----------

  function SlotOf(h: Hashes, key: Key, r: Record): Slot { NewSlot(h, key, r.addr, r.source) }

  /** No earlier new record has its slot, so it gets that slot when the table of the file is not used. */
  predicate FirstNew(h: Hashes, key: Key, rs: seq<Record>, i: nat)
    requires i < |rs|
  {
    forall j :: 0 <= j < i ==> SlotOf(h, key, rs[j]) != SlotOf(h, key, rs[i])
  }

  /** No earlier tried record has its slot, so it is read. */
  predicate FirstTried(h: Hashes, key: Key, ts: seq<Record>, j: nat)
    requires j < |ts|
  {
    forall k :: 0 <= k < j ==> TriedSlot(h, key, ts[k].addr) != TriedSlot(h, key, ts[j].addr)
  }

  /** A new record that gets its slot shares its address with no other new record, and a tried record that is read
      shares its address with no new record and no other tried record that is read. */
  ghost predicate RecordsUnshared(h: Hashes, key: Key, rs: seq<Record>, ts: seq<Record>) {
    && (forall i: nat, j: nat :: i < |rs| && j < |rs| && i != j && rs[i].addr.ip == rs[j].addr.ip ==>
          !FirstNew(h, key, rs, i))
    && (forall i: nat, j: nat :: i < |rs| && j < |ts| && FirstTried(h, key, ts, j) ==> rs[i].addr.ip != ts[j].addr.ip)
    && (forall i: nat, j: nat ::
          i < |ts| && j < |ts| && i != j && FirstTried(h, key, ts, i) && FirstTried(h, key, ts, j) ==>
            ts[i].addr.ip != ts[j].addr.ip)
  }

  // The slots taken are those of the records, each by the first one.
  ghost predicate SlotsTaken(t: State, h: Hashes, key: Key, rs: seq<Record>) {
    && SlotsOf(t.newTable.Keys, h, key, rs)
    && (forall i: nat :: i < |rs| ==> i in t.info && t.info[i].refCount == if FirstNew(h, key, rs, i) then 1 else 0)
  }

  lemma {:induction false} AllNewTaken(h: Hashes, key: Key, rs: seq<Record>)
    ensures SlotsTaken(LoadAllNew(Empty(h, key), rs, false), h, key, rs)
  {
    hide LoadNew, SlotsTaken, OnlyNew;
    if rs == [] {
      NoneTaken(h, key);
    } else {
      var init := rs[..|rs| - 1];
      AllNewTaken(h, key, init);
      LoadAllNewEntries(h, key, init, false);
      OneMoreTaken(LoadAllNew(Empty(h, key), init, false), h, key, init, rs[|rs| - 1]);
      assert rs == init + [rs[|rs| - 1]];
    }
  }

  lemma NoneTaken(h: Hashes, key: Key)
    ensures SlotsTaken(Empty(h, key), h, key, [])
  {
  }

  lemma FirstNewSnoc(h: Hashes, key: Key, rs: seq<Record>, r: Record, i: nat)
    requires i < |rs|
    ensures FirstNew(h, key, rs + [r], i) <==> FirstNew(h, key, rs, i)
  {
    assert forall j :: 0 <= j <= i ==> (rs + [r])[j] == rs[j];
  }

  lemma FirstNewLast(keys: set<Slot>, h: Hashes, key: Key, rs: seq<Record>, r: Record)
    requires SlotsOf(keys, h, key, rs)
    ensures FirstNew(h, key, rs + [r], |rs|) <==> SlotOf(h, key, r) !in keys
  {
    hide SlotOf;
    var after := rs + [r];
    assert forall j :: 0 <= j < |rs| ==> after[j] == rs[j];
    assert after[|rs|] == r;
    if SlotOf(h, key, r) in keys {
      var j: nat :| j < |rs| && SlotOf(h, key, rs[j]) == SlotOf(h, key, r);
      assert SlotOf(h, key, after[j]) == SlotOf(h, key, after[|rs|]);
    }
  }

  // The keys of the table are the slots of the records.
  ghost predicate SlotsOf(keys: set<Slot>, h: Hashes, key: Key, rs: seq<Record>) {
    && (forall j: nat :: j < |rs| ==> SlotOf(h, key, rs[j]) in keys)
    && (forall u :: u in keys ==> exists j: nat :: j < |rs| && SlotOf(h, key, rs[j]) == u)
  }

  lemma SlotsSnoc(keys: set<Slot>, h: Hashes, key: Key, rs: seq<Record>, r: Record)
    requires SlotsOf(keys, h, key, rs)
    ensures SlotsOf(keys + {SlotOf(h, key, r)}, h, key, rs + [r])
  {
    hide SlotOf;
    var after := rs + [r];
    assert forall j: nat :: j < |rs| ==> after[j] == rs[j];
    assert after[|rs|] == r;
    forall u | u in keys ensures exists j: nat :: j < |after| && SlotOf(h, key, after[j]) == u {
      var j: nat :| j < |rs| && SlotOf(h, key, rs[j]) == u;
      assert SlotOf(h, key, after[j]) == u;
    }
    assert SlotOf(h, key, after[|rs|]) == SlotOf(h, key, r);
  }

  lemma OneMoreTaken(s: State, h: Hashes, key: Key, rs: seq<Record>, r: Record)
    requires SlotsTaken(s, h, key, rs) && OnlyNew(s, h, key, rs, false)
    ensures SlotsTaken(LoadNew(s, r, false), h, key, rs + [r])
  {
    hide SlotOf, FirstNew, LoadNew, SlotsOf, NewFirst;
    var t, after := LoadNew(s, r, false), rs + [r];
    NewlyTaken(s, r);
    SlotsSnoc(s.newTable.Keys, h, key, rs, r);
    FirstNewLast(s.newTable.Keys, h, key, rs, r);
    forall i: nat | i < |after|
      ensures i in t.info && t.info[i].refCount == if FirstNew(h, key, after, i) then 1 else 0
    {
      if i < |rs| {
        FirstNewSnoc(h, key, rs, r, i);
        assert i in s.info && i in t.info.Keys;
      } else {
        assert i == s.idCount && i in t.info.Keys;
      }
    }
  }

  // What loading a new record does to the table.
  lemma NewlyTaken(s: State, r: Record)
    ensures var t, u := LoadNew(s, r, false), SlotOf(s.hash, s.key, r);
            && t.newTable.Keys == s.newTable.Keys + {u} && t.info.Keys == s.info.Keys + {s.idCount}
            && (forall i :: i in s.info && i != s.idCount ==> t.info[i] == s.info[i])
            && t.info[s.idCount].refCount == if u in s.newTable then 0 else 1
  {
    hide NewSlot;
  }

  // Each tried record that is read has an entry, found in its slot, and every entry from `base` on is such a one.
  ghost predicate TriedRead(t: State, h: Hashes, key: Key, base: int, ts: seq<Record>) {
    && (forall j: nat :: j < |ts| ==> TriedSlot(h, key, ts[j].addr) in t.triedTable)
    && (forall k :: k in t.triedTable ==> exists j: nat :: j < |ts| && TriedSlot(h, key, ts[j].addr) == k)
    && (forall j: nat :: j < |ts| && FirstTried(h, key, ts, j) ==> ReadAs(t, h, key, base, ts[j]))
    && (forall n :: n in t.info && n >= base ==>
          exists j: nat :: j < |ts| && FirstTried(h, key, ts, j) && EntryOf(t, h, key, ts[j]) == n)
  }

  function EntryOf(t: State, h: Hashes, key: Key, r: Record): int {
    var k := TriedSlot(h, key, r.addr);
    if k in t.triedTable then t.triedTable[k] else -1
  }

  predicate ReadAs(t: State, h: Hashes, key: Key, base: int, r: Record) {
    var n := EntryOf(t, h, key, r);
    n >= base && n in t.info && t.info[n].addr == r.addr && t.info[n].inTried
  }

  lemma {:induction false} AllTriedRead(s: State, h: Hashes, key: Key, ts: seq<Record>)
    requires s.hash == h && s.key == key && s.triedTable == map[] && s.idCount >= 0
    requires forall n :: n in s.info ==> n < s.idCount
    ensures var t := LoadAllTried(s, ts);
            && TriedRead(t, h, key, s.idCount, ts) && t.idCount >= s.idCount && t.hash == h && t.key == key
            && (forall n :: n in t.info ==> n < t.idCount)
            && (forall n :: n < s.idCount ==>
                  (n in t.info <==> n in s.info) && (n in s.info ==> t.info[n] == s.info[n]))
  {
    hide LoadTried, TriedRead;
    if ts == [] {
      NoneRead(s, h, key);
    } else {
      var init := ts[..|ts| - 1];
      AllTriedRead(s, h, key, init);
      OneMoreRead(LoadAllTried(s, init), h, key, s.idCount, init, ts[|ts| - 1]);
      assert ts == init + [ts[|ts| - 1]];
    }
  }

  lemma NoneRead(s: State, h: Hashes, key: Key)
    requires s.triedTable == map[] && forall n :: n in s.info ==> n < s.idCount
    ensures TriedRead(s, h, key, s.idCount, [])
  {
  }

  lemma FirstTriedSnoc(h: Hashes, key: Key, ts: seq<Record>, r: Record, j: nat)
    requires j < |ts|
    ensures (ts + [r])[j] == ts[j] && (FirstTried(h, key, ts + [r], j) <==> FirstTried(h, key, ts, j))
  {
    assert forall k :: 0 <= k <= j ==> (ts + [r])[k] == ts[k];
  }

  lemma FirstTriedLast(s: State, h: Hashes, key: Key, base: int, ts: seq<Record>, r: Record)
    requires TriedRead(s, h, key, base, ts)
    ensures (ts + [r])[|ts|] == r
    ensures FirstTried(h, key, ts + [r], |ts|) <==> TriedSlot(h, key, r.addr) !in s.triedTable
  {
    hide TriedSlot;
    var after := ts + [r];
    assert forall j :: 0 <= j < |ts| ==> after[j] == ts[j];
    if TriedSlot(h, key, r.addr) in s.triedTable {
      var j: nat :| j < |ts| && TriedSlot(h, key, ts[j].addr) == TriedSlot(h, key, r.addr);
      assert TriedSlot(h, key, after[j].addr) == TriedSlot(h, key, after[|ts|].addr);
    }
  }

  lemma OneMoreRead(s: State, h: Hashes, key: Key, base: int, ts: seq<Record>, r: Record)
    requires TriedRead(s, h, key, base, ts) && s.hash == h && s.key == key && base <= s.idCount
    requires forall n :: n in s.info ==> n < s.idCount
    ensures var t := LoadTried(s, r);
            && TriedRead(t, h, key, base, ts + [r]) && t.idCount >= s.idCount && t.hash == h && t.key == key
            && (forall n :: n in t.info ==> n < t.idCount)
            && (forall n :: n < s.idCount ==>
                  (n in t.info <==> n in s.info) && (n in s.info ==> t.info[n] == s.info[n]))
  {
    hide TriedSlot, FirstTried, TriedRead;
    var t, after := LoadTried(s, r), ts + [r];
    forall j: nat | j < |ts|
      ensures after[j] == ts[j] && (FirstTried(h, key, after, j) <==> FirstTried(h, key, ts, j))
    {
      FirstTriedSnoc(h, key, ts, r, j);
    }
    FirstTriedLast(s, h, key, base, ts, r);
    if TriedSlot(h, key, r.addr) in s.triedTable {
      SlotWasTaken(s, h, key, base, ts, r);
    } else {
      SlotWasFree(s, t, h, key, base, ts, r);
    }
  }

  // The record is lost.
  lemma SlotWasTaken(s: State, h: Hashes, key: Key, base: int, ts: seq<Record>, r: Record)
    requires TriedRead(s, h, key, base, ts) && TriedSlot(h, key, r.addr) in s.triedTable
    requires !FirstTried(h, key, ts + [r], |ts|)
    requires forall j: nat :: j < |ts| ==>
               (ts + [r])[j] == ts[j] && (FirstTried(h, key, ts + [r], j) <==> FirstTried(h, key, ts, j))
    ensures TriedRead(s, h, key, base, ts + [r])
  {
    hide TriedSlot, FirstTried, ReadAs, EntryOf;
    var after := ts + [r];
    forall k | k in s.triedTable ensures exists j: nat :: j < |after| && TriedSlot(h, key, after[j].addr) == k {
      var j: nat :| j < |ts| && TriedSlot(h, key, ts[j].addr) == k;
      assert TriedSlot(h, key, after[j].addr) == k;
    }
    forall n | n in s.info && n >= base
      ensures exists j: nat :: j < |after| && FirstTried(h, key, after, j) && EntryOf(s, h, key, after[j]) == n
    {
      var j: nat :| j < |ts| && FirstTried(h, key, ts, j) && EntryOf(s, h, key, ts[j]) == n;
      assert FirstTried(h, key, after, j) && EntryOf(s, h, key, after[j]) == n;
    }
  }

  // The record gets the next id.
  lemma SlotWasFree(s: State, t: State, h: Hashes, key: Key, base: int, ts: seq<Record>, r: Record)
    requires TriedRead(s, h, key, base, ts) && base <= s.idCount && s.idCount !in s.info
    requires FirstTried(h, key, ts + [r], |ts|)
    requires var k := TriedSlot(h, key, r.addr); k !in s.triedTable && t.triedTable == s.triedTable[k := s.idCount]
    requires t.info.Keys == s.info.Keys + {s.idCount} && forall n :: n in s.info ==> t.info[n] == s.info[n]
    requires t.info[s.idCount].addr == r.addr && t.info[s.idCount].inTried
    requires forall j: nat :: j < |ts| ==>
               (ts + [r])[j] == ts[j] && (FirstTried(h, key, ts + [r], j) <==> FirstTried(h, key, ts, j))
    ensures TriedRead(t, h, key, base, ts + [r])
  {
    hide TriedSlot, FirstTried;
    var after := ts + [r];
    assert after[|ts|] == r;
    forall j: nat | j < |ts| ensures EntryOf(t, h, key, ts[j]) == EntryOf(s, h, key, ts[j]) {
      assert TriedSlot(h, key, ts[j].addr) in s.triedTable;
    }
    forall k | k in t.triedTable ensures exists j: nat :: j < |after| && TriedSlot(h, key, after[j].addr) == k {
      if k in s.triedTable {
        var j: nat :| j < |ts| && TriedSlot(h, key, ts[j].addr) == k;
        assert TriedSlot(h, key, after[j].addr) == k;
      } else {
        assert TriedSlot(h, key, after[|ts|].addr) == k;
      }
    }
    forall j: nat | j < |after| && FirstTried(h, key, after, j) ensures ReadAs(t, h, key, base, after[j]) {
      if j < |ts| { assert ReadAs(s, h, key, base, ts[j]); }
    }
    forall n | n in t.info && n >= base
      ensures exists j: nat :: j < |after| && FirstTried(h, key, after, j) && EntryOf(t, h, key, after[j]) == n
    {
      if n in s.info {
        var j: nat :| j < |ts| && FirstTried(h, key, ts, j) && EntryOf(s, h, key, ts[j]) == n;
        assert FirstTried(h, key, after, j) && EntryOf(t, h, key, after[j]) == n;
      } else {
        assert n in s.info.Keys + {s.idCount};
        assert EntryOf(t, h, key, after[|ts|]) == n;
      }
    }
  }

  lemma {:induction false} RowNotUsed(s: State, b: int, row: seq<int>, nNew: int)
    ensures LoadRow(s, b, row, nNew, false) == s
  {
    if row != [] { RowNotUsed(s, b, row[..|row| - 1], nNew); }
  }

  lemma {:induction false} RowsNotUsed(s: State, rows: seq<seq<int>>, nNew: int)
    ensures LoadRows(s, rows, nNew, false) == s
  {
    if rows != [] {
      RowsNotUsed(s, rows[..|rows| - 1], nNew);
      RowNotUsed(s, |rows| - 1, rows[|rows| - 1], nNew);
    }
  }

  // What the loader's state before pruning says of the records, and nothing else.
  ghost predicate FromRecords(t: State, h: Hashes, key: Key, rs: seq<Record>, ts: seq<Record>) {
    && (forall i: nat :: i < |rs| ==> NewAs(t, h, key, rs, i))
    && (forall n :: n in t.info ==> n >= 0)
    && TriedRead(t, h, key, |rs|, ts)
  }

  predicate NewAs(t: State, h: Hashes, key: Key, rs: seq<Record>, i: nat)
    requires i < |rs|
  {
    && i in t.info && t.info[i].addr == rs[i].addr && !t.info[i].inTried
    && (i in Holes(t) <==> !FirstNew(h, key, rs, i))
  }

  lemma FilledFromRecords(h: Hashes, f: File)
    requires Counted(f) && !UsesTable(f)
    ensures FromRecords(Filled(h, f), h, f.key, f.newRecords, f.triedRecords)
  {
    hide LoadAllNew, LoadAllTried, LoadRows, TriedRead, FirstNew, SlotsTaken;
    var rs, ts := f.newRecords, f.triedRecords;
    var n := LoadAllNew(Empty(h, f.key), rs, false);
    LoadAllNewEntries(h, f.key, rs, false);
    AllNewTaken(h, f.key, rs);
    AllTriedRead(n, h, f.key, ts);
    RowsNotUsed(Entered(h, f), f.buckets, f.nNew);
    NewFromRecords(n, Filled(h, f), h, f.key, rs);
  }

  lemma NewFromRecords(n: State, t: State, h: Hashes, key: Key, rs: seq<Record>)
    requires SlotsTaken(n, h, key, rs) && OnlyNew(n, h, key, rs, false)
    requires forall i :: i < n.idCount ==> (i in t.info <==> i in n.info) && (i in n.info ==> t.info[i] == n.info[i])
    ensures forall i: nat :: i < |rs| ==> NewAs(t, h, key, rs, i)
    ensures forall i :: i in t.info ==> i >= 0
  {
    hide FirstNew;
    forall i: nat | i < |rs| ensures NewAs(t, h, key, rs, i) {
      assert i in n.info && RecordOf(n.info[i]) == rs[i];
      assert RecordOf(n.info[i]).addr == n.info[i].addr;
    }
  }

  /** With the records' own condition in place of the loader's. */
  lemma UnsharedRecords(t: State, h: Hashes, key: Key, rs: seq<Record>, ts: seq<Record>)
    requires FromRecords(t, h, key, rs, ts)
    ensures Unshared(t) <==> RecordsUnshared(h, key, rs, ts)
  {
    hide FirstNew, FirstTried, TriedSlot;
    if Unshared(t) {
      SharedNeither(t, h, key, rs, ts);
    }
    if RecordsUnshared(h, key, rs, ts) {
      forall n, m | n in t.info && m in t.info && n != m && t.info[n].addr.ip == t.info[m].addr.ip
        ensures n in Holes(t)
      {
        SharedIsHole(t, h, key, rs, ts, n, m);
      }
    }
  }

  lemma SharedIsHole(t: State, h: Hashes, key: Key, rs: seq<Record>, ts: seq<Record>, n: int, m: int)
    requires FromRecords(t, h, key, rs, ts) && RecordsUnshared(h, key, rs, ts)
    requires n in t.info && m in t.info && n != m && t.info[n].addr.ip == t.info[m].addr.ip
    ensures n in Holes(t)
  {
    hide FirstNew, FirstTried, TriedSlot, Holes;
    if n < |rs| { assert NewAs(t, h, key, rs, n); }
    if m < |rs| { assert NewAs(t, h, key, rs, m); }
    if n >= |rs| {
      var j := RecordRead(t, h, key, rs, ts, n);
      if m >= |rs| {
        var i := RecordRead(t, h, key, rs, ts, m);
      }
    } else if m >= |rs| {
      var i := RecordRead(t, h, key, rs, ts, m);
    }
  }

  // The record an entry of the tried part comes from.
  lemma RecordRead(t: State, h: Hashes, key: Key, rs: seq<Record>, ts: seq<Record>, n: int) returns (j: nat)
    requires FromRecords(t, h, key, rs, ts) && n in t.info && n >= |rs|
    ensures j < |ts| && FirstTried(h, key, ts, j) && EntryOf(t, h, key, ts[j]) == n && t.info[n].addr == ts[j].addr
  {
    hide FirstTried, TriedSlot, Holes;
    j :| j < |ts| && FirstTried(h, key, ts, j) && EntryOf(t, h, key, ts[j]) == n;
    assert ReadAs(t, h, key, |rs|, ts[j]);
  }

  lemma SharedNeither(t: State, h: Hashes, key: Key, rs: seq<Record>, ts: seq<Record>)
    requires FromRecords(t, h, key, rs, ts) && Unshared(t)
    ensures RecordsUnshared(h, key, rs, ts)
  {
    hide FirstNew, FirstTried, TriedSlot;
    forall i: nat, j: nat | i < |rs| && j < |rs| && i != j && rs[i].addr.ip == rs[j].addr.ip
      ensures !FirstNew(h, key, rs, i)
    {
      assert NewAs(t, h, key, rs, i) && NewAs(t, h, key, rs, j);
    }
    forall i: nat, j: nat | i < |rs| && j < |ts| && FirstTried(h, key, ts, j) ensures rs[i].addr.ip != ts[j].addr.ip {
      assert NewAs(t, h, key, rs, i);
      assert ReadAs(t, h, key, |rs|, ts[j]);
    }
    forall i: nat, j: nat | i < |ts| && j < |ts| && i != j && FirstTried(h, key, ts, i) && FirstTried(h, key, ts, j)
      ensures ts[i].addr.ip != ts[j].addr.ip
    {
      assert ReadAs(t, h, key, |rs|, ts[i]) && ReadAs(t, h, key, |rs|, ts[j]);
      SlotsDiffer(h, key, ts, i, j);
    }
  }

  lemma SlotsDiffer(h: Hashes, key: Key, ts: seq<Record>, i: nat, j: nat)
    requires i < |ts| && j < |ts| && i != j && FirstTried(h, key, ts, i) && FirstTried(h, key, ts, j)
    ensures TriedSlot(h, key, ts[i].addr) != TriedSlot(h, key, ts[j].addr)
  {
    hide TriedSlot;
  }

  /** For a file whose table is not used the condition of LoadedInvIff is one on the records. */
  lemma LoadedInvRecords(h: Hashes, f: File)
    requires Counted(f) && !UsesTable(f)
    ensures Inv(Loaded(h, f), {}) <==> f.key != 0 && RecordsUnshared(h, f.key, f.newRecords, f.triedRecords)
  {
    hide Inv, Loaded, Filled, FromRecords, Unshared, RecordsUnshared;
    LoadedInvIff(h, f);
    FilledFromRecords(h, f);
    UnsharedRecords(Filled(h, f), h, f.key, f.newRecords, f.triedRecords);
  }
}
