/** How many entries the tables of the address manager hold at most (src/addrman.h). */
module AddrManCapacity {
  import opened Basics
  import opened AddrManState

  function Place(k: Slot): int { k.bucket * BUCKET_SIZE + k.pos }

  predicate InTable(k: Slot, buckets: int) { 0 <= k.bucket < buckets && 0 <= k.pos < BUCKET_SIZE }

  lemma PlacesApart(k: Slot, j: Slot, buckets: int)
    requires InTable(k, buckets) && InTable(j, buckets) && Place(k) == Place(j)
    ensures k == j
  {
  }

  /** A slot for each id, no two alike, bounds how many there are. */
  lemma {:induction false} Pigeonhole(ids: set<int>, slots: map<int, Slot>, places: set<int>, buckets: int)
    requires forall n :: n in ids ==> n in slots && InTable(slots[n], buckets) && Place(slots[n]) in places
    requires forall n, m :: n in ids && m in ids && slots[n] == slots[m] ==> n == m
    ensures |ids| <= |places|
  {
    if ids != {} {
      var n := Member(ids);
      forall m | m in ids - {n} ensures Place(slots[m]) in places - {Place(slots[n])} {
        if Place(slots[m]) == Place(slots[n]) { PlacesApart(slots[m], slots[n], buckets); }
      }
      Pigeonhole(ids - {n}, slots, places - {Place(slots[n])}, buckets);
    }
  }

  lemma Fits(ids: set<int>, slots: map<int, Slot>, buckets: nat)
    requires forall n :: n in ids ==> n in slots && InTable(slots[n], buckets)
    requires forall n, m :: n in ids && m in ids && slots[n] == slots[m] ==> n == m
    ensures |ids| <= buckets * BUCKET_SIZE
  {
    Pigeonhole(ids, slots, Range(buckets * BUCKET_SIZE), buckets);
  }

  /** At most 16384 tried and 65536 new entries, however many are announced. */
  lemma Capacity(s: State)
    requires Inv(s, {})
    ensures s.nTried <= 16384 && s.nNew <= 65536 && |s.info| == s.nTried + s.nNew
  {
    hide IndexOk, TriedSlot, NewSlotIn;
    TriedCapacity(s);
    NewCapacity(s);
    assert s.info.Keys == NewIds(s) + TriedIds(s) && NewIds(s) !! TriedIds(s);
    assert |s.info| == |s.info.Keys|;
  }

  lemma TriedCapacity(s: State)
    requires TriedOk(s)
    ensures |TriedIds(s)| <= 16384
  {
    hide TriedSlot;
    var slots := map n | n in TriedIds(s) :: TriedSlot(s.hash, s.key, s.info[n].addr);
    forall n | n in TriedIds(s) ensures InTable(slots[n], TRIED_BUCKET_COUNT) {
      SlotsFromHashes(s.hash, s.key, s.info[n].addr, 0);
    }
    Fits(TriedIds(s), slots, TRIED_BUCKET_COUNT);
  }

  lemma NewCapacity(s: State)
    requires Inv(s, {})
    ensures |NewIds(s)| <= 65536
  {
    hide IndexOk, TriedOk, CountsOk, NewSlotIn, TriedSlot;
    var slots := map n | n in NewIds(s) :: SomeSlot(s, n);
    forall n | n in NewIds(s)
      ensures InTable(slots[n], NEW_BUCKET_COUNT) && slots[n] in s.newTable && s.newTable[slots[n]] == n
    {
      var k := SomeSlot(s, n);
      PositionInBucket(s.hash, s.key, s.info[n].addr, k.bucket);
    }
    Fits(NewIds(s), slots, NEW_BUCKET_COUNT);
  }

  lemma PositionInBucket(h: Hashes, key: Key, a: Service, bucket: int)
    ensures NewSlotIn(h, key, a, bucket).bucket == bucket && 0 <= NewSlotIn(h, key, a, bucket).pos < BUCKET_SIZE
  {
  }

  // One of the slots that refer to a new entry.
  ghost function SomeSlot(s: State, n: int): (k: Slot)
    requires Inv(s, {}) && n in NewIds(s)
    ensures k in s.newTable && s.newTable[k] == n
  {
    assert EntryOk(s.info[n], n in {});
    assert Refs(s, n) != {};
    var k :| k in Refs(s, n);
    k
  }
}
