/** The rolling bloom filter (CRollingBloomFilter in src/bloom.h and src/bloom.cpp). */
module RollingBloom {
  // ---------- Sixteen two-bit cells to a word ----------

  function GetBits(w: bv32, shift: bv32): bv32
    requires shift <= 30
  {
    (w >> shift) & 3
  }

  function PutBits(w: bv32, shift: bv32, v: bv32): bv32
    requires shift <= 30
  {
    (w & !((3 as bv32) << shift)) | (v << shift)
  }

  lemma PutThenGet(w: bv32, s: bv32, t: bv32, v: bv32)
    requires s <= 30 && t <= 30 && s & 1 == 0 && t & 1 == 0 && v < 4
    ensures GetBits(PutBits(w, s, v), t) == if s == t then v else GetBits(w, t)
  {
  }

  // Two bits for each cell number below sixteen.
  function Shift(cell: int): (s: bv32)
    requires 0 <= cell < 16
  {
    Double(cell as bv32)
  }

  function Double(x: bv32): bv32 { 2 * x }

  lemma DoubleFacts(x: bv32, y: bv32)
    requires x < 16 && y < 16
    ensures Double(x) <= 30 && Double(x) & 1 == 0 && (Double(x) == Double(y) <==> x == y)
  {
  }

  lemma CellNumber(i: int)
    requires 0 <= i < 16
    ensures (i as bv32) < 16 && (i as bv32) as int == i
  {
  }

  lemma ShiftFacts(i: int, j: int)
    requires 0 <= i < 16 && 0 <= j < 16
    ensures Shift(i) <= 30 && Shift(j) <= 30 && Shift(i) & 1 == 0 && Shift(j) & 1 == 0
    ensures Shift(i) == Shift(j) <==> i == j
  {
    hide Double;
    CellNumber(i);
    CellNumber(j);
    DoubleFacts(i as bv32, j as bv32);
    DoubleFacts(j as bv32, i as bv32);
  }

  /** The cell at a position of the packed words. */
  function Cell(words: seq<bv32>, p: int): (c: int)
    requires 0 <= p < 16 * |words|
    ensures 0 <= c < 4
  {
    ShiftFacts(p % 16, 0);
    BitsRange(words[p / 16], Shift(p % 16));
    GetBits(words[p / 16], Shift(p % 16)) as int
  }

  lemma BitsRange(w: bv32, s: bv32)
    requires s <= 30
    ensures 0 <= GetBits(w, s) as int < 4
  {
    hide GetBits;
    BitsSmall(w, s);
    SmallNumber(GetBits(w, s));
  }

  lemma BitsSmall(w: bv32, s: bv32)
    requires s <= 30
    ensures GetBits(w, s) < 4
  {
  }

  lemma SmallNumber(x: bv32)
    requires x < 4
    ensures 0 <= x as int < 4
  {
  }

  lemma CellOfPut(words: seq<bv32>, p: int, q: int, v: int)
    requires 0 <= p < 16 * |words| && 0 <= q < 16 * |words| && 0 <= v < 4
    requires Shift(p % 16) <= 30
    ensures var after := words[p / 16 := PutBits(words[p / 16], Shift(p % 16), v as bv32)];
            Cell(after, q) == if p == q then v else Cell(words, q)
  {
    hide GetBits, PutBits, Shift;
    var i, j := p % 16, q % 16;
    ShiftFacts(i, j);
    CellNumber(v);
    SmallValue(v);
    PutThenGet(words[p / 16], Shift(i), Shift(j), v as bv32);
  }

  lemma CellsOfPut(was: seq<bv32>, after: seq<bv32>, p: int, v: int)
    requires 0 <= p < 16 * |was| && 0 <= v < 4 && Shift(p % 16) <= 30
    requires after == was[p / 16 := PutBits(was[p / 16], Shift(p % 16), v as bv32)]
    ensures forall q :: 0 <= q < 16 * |was| ==> Cell(after, q) == if q == p then v else Cell(was, q)
  {
    hide GetBits, PutBits, Shift, Cell;
    forall q | 0 <= q < 16 * |was| ensures Cell(after, q) == if q == p then v else Cell(was, q) {
      CellOfPut(was, p, q, v);
    }
  }

  lemma WordIndex(p: int, words: int)
    requires 0 <= p < 16 * words
    ensures 0 <= p / 16 < words && p / 16 % words == p / 16
  {
  }

  lemma SmallValue(v: int)
    requires 0 <= v < 4
    ensures (v as bv32) < 4
  {
  }

  lemma ZeroCell(words: seq<bv32>, p: int)
    requires 0 <= p < 16 * |words| && words[p / 16] == 0
    ensures Cell(words, p) == 0
  {
    ShiftFacts(p % 16, 0);
    ZeroBits(Shift(p % 16));
  }

  lemma ZeroBits(s: bv32)
    requires s <= 30
    ensures GetBits(0, s) == 0
  {
  }

  // ---------- What the cells mean ----------

  type Key = seq<int>

  /** The generation number before g in the cycle 1, 2, 3. */
  function Previous(g: int): int { if g == 1 then 3 else g - 1 }

  /** The tag a cell carries when the last key that hit it is `age` insertions old. */
  function Tag(age: int, entries: int, perGeneration: int, generation: int): int {
    if age <= entries then generation
    else if age <= entries + perGeneration then Previous(generation)
    else if age <= entries + 2 * perGeneration then Previous(Previous(generation))
    else 0
  }

  class RollingBloomFilter {
    const nEntriesPerGeneration: int
    const nHashFuncs: int
    const murmur: (int, Key) -> nat
    const data: array<bv32>
    var nEntriesThisGeneration: int
    var nGeneration: int
    var nTweak: int
    ghost var history: seq<Key>   // every key inserted since the last reset

    function Hash(n: int, key: Key): (p: int)
      requires data.Length > 0
      reads this`nTweak
      ensures 0 <= p < 16 * data.Length
    {
      murmur((n * 0xFBA4_C795 + nTweak) % 0x1_0000_0000, key) % (data.Length * 16)
    }

    ghost predicate HitsBelow(key: Key, p: int, bound: int)
      requires data.Length > 0
      reads this`nTweak
    {
      exists n :: 0 <= n < bound && Hash(n, key) == p
    }

    ghost predicate Hits(key: Key, p: int)
      requires data.Length > 0
      reads this`nTweak
    {
      HitsBelow(key, p, nHashFuncs)
    }

    /** How many keys ago a position was last hit, counting the last key as one; more than all if never. */
    ghost function Age(keys: seq<Key>, p: int): (a: int)
      requires data.Length > 0
      reads this`nTweak
      ensures 1 <= a <= |keys| + 1
      ensures a <= |keys| ==> Hits(keys[|keys| - a], p)
      ensures forall i :: |keys| - a < i < |keys| ==> !Hits(keys[i], p)
    {
      if keys == [] then 1
      else if Hits(keys[|keys| - 1], p) then 1
      else 1 + Age(keys[..|keys| - 1], p)
    }

    // A position never hit carries no tag, however few keys there are.
    ghost function TagAt(p: int): int
      requires data.Length > 0
      reads this
    {
      if Age(history, p) > |history| then 0
      else Tag(Age(history, p), nEntriesThisGeneration, nEntriesPerGeneration, nGeneration)
    }

    ghost predicate Valid()
      reads this, data
    {
      && data.Length > 0 && nEntriesPerGeneration > 0 && nHashFuncs > 0 && 1 <= nGeneration <= 3
      && 0 <= nEntriesThisGeneration <= nEntriesPerGeneration
      && forall p :: 0 <= p < 16 * data.Length ==> Cell(data[..], p) == TagAt(p)
    }

    /** The number of hash functions and words come from the false-positive rate. */
    constructor (nElements: int, hashFuncs: int, words: int, hash: (int, Key) -> nat, tweak: int)
      requires nElements >= 1 && 1 <= hashFuncs <= 50 && words >= 1
      ensures Valid() && fresh(data) && history == []
      ensures nEntriesPerGeneration == (nElements + 1) / 2
    {
      nEntriesPerGeneration := (nElements + 1) / 2;
      nHashFuncs := hashFuncs;
      murmur := hash;
      data := new bv32[words];
      new;
      Reset(tweak);
    }

    method Reset(tweak: int)
      requires data.Length > 0 && nEntriesPerGeneration > 0 && nHashFuncs > 0
      modifies this, data
      ensures Valid() && history == []
    {
      nTweak := tweak;
      nEntriesThisGeneration := 0;
      nGeneration := 1;
      history := [];
      for i := 0 to data.Length
        invariant forall k :: 0 <= k < i ==> data[k] == 0
        invariant history == [] && nGeneration == 1 && nEntriesThisGeneration == 0
      {
        data[i] := 0;
      }
      forall p | 0 <= p < 16 * data.Length ensures Cell(data[..], p) == TagAt(p) {
        ZeroCell(data[..], p);
      }
    }

    method Get(p: int) returns (v: int)
      requires 0 <= p < 16 * data.Length
      ensures v == Cell(data[..], p)
    {
      hide GetBits, Shift;
      WordIndex(p, data.Length);
      ShiftFacts(p % 16, 0);
      v := GetBits(data[p / 16 % data.Length], Shift(p % 16)) as int;
    }

    method Put(p: int, v: int)
      requires 0 <= p < 16 * data.Length && 0 <= v < 4
      modifies data
      ensures forall q :: 0 <= q < 16 * data.Length ==>
               Cell(data[..], q) == if q == p then v else old(Cell(data[..], q))
    {
      hide GetBits, PutBits, Shift, Cell;
      ShiftFacts(p % 16, 0);
      WordIndex(p, data.Length);
      ghost var was := data[..];
      var at := p / 16 % data.Length;
      data[at] := PutBits(data[at], Shift(p % 16), v as bv32);
      assert data[..] == was[at := PutBits(was[at], Shift(p % 16), v as bv32)];
      CellsOfPut(was, data[..], p, v);
    }

    // put(Hash(n, key), nGeneration) for every hash function.
    method MarkKey(key: Key)
      requires data.Length > 0 && 1 <= nGeneration <= 3 && nHashFuncs > 0
      modifies data
      ensures forall p :: 0 <= p < 16 * data.Length ==>
                Cell(data[..], p) == if Hits(key, p) then nGeneration else old(Cell(data[..], p))
    {
      hide Cell, HitsBelow, Hash;
      ghost var was := data[..];
      HitsNone(key);
      for n := 0 to nHashFuncs
        invariant forall p :: 0 <= p < 16 * data.Length ==>
                    Cell(data[..], p) == if HitsBelow(key, p, n) then nGeneration else Cell(was, p)
      {
        var h := Hash(n, key);
        HitsNext(key, n);
        Put(h, nGeneration);
      }
    }

    method Insert(key: Key)
      requires Valid()
      modifies this, data
      ensures Valid() && history == old(history) + [key] && nTweak == old(nTweak)
      ensures nEntriesThisGeneration > 0
    {
      hide Cell, Tag, Age, HitsBelow, Hash;
      if nEntriesThisGeneration == nEntriesPerGeneration {
        NextGeneration();
      }
      nEntriesThisGeneration := nEntriesThisGeneration + 1;
      ghost var was := data[..];
      MarkKey(key);
      ghost var earlier := history;
      history := history + [key];
      forall p | 0 <= p < 16 * data.Length ensures Cell(data[..], p) == TagAt(p) {
        AgeOfLonger(earlier, key, p);
        OlderTag(Age(earlier, p), nEntriesThisGeneration - 1, nEntriesPerGeneration, nGeneration);
        NewestTag(nEntriesThisGeneration, nEntriesPerGeneration, nGeneration);
      }
    }

    lemma HitsNone(key: Key)
      requires data.Length > 0
      ensures forall p :: !HitsBelow(key, p, 0)
    {
    }

    lemma HitsNext(key: Key, n: int)
      requires data.Length > 0 && n >= 0
      ensures forall p :: HitsBelow(key, p, n + 1) <==> HitsBelow(key, p, n) || p == Hash(n, key)
    {
      hide Hash;
      forall p ensures HitsBelow(key, p, n + 1) <==> HitsBelow(key, p, n) || p == Hash(n, key) {
        if p == Hash(n, key) {
          assert 0 <= n < n + 1 && Hash(n, key) == p;
        }
      }
    }

    /** The wiping loop removes the tags of the generation whose number is reused. */
    method NextGeneration()
      requires Valid() && nEntriesThisGeneration == nEntriesPerGeneration
      modifies this, data
      ensures Valid() && nEntriesThisGeneration == 0
      ensures history == old(history) && nTweak == old(nTweak)
    {
      hide Cell, Tag, Age;
      ghost var was := data[..];
      ghost var g := nGeneration;
      nEntriesThisGeneration := 0;
      nGeneration := nGeneration + 1;
      if nGeneration == 4 {
        nGeneration := 1;
      }
      label rolled:
      for p := 0 to data.Length * 16
        invariant unchanged@rolled(this)
        invariant forall q :: 0 <= q < 16 * data.Length ==>
                    Cell(data[..], q) == if q < p && Cell(was, q) == nGeneration then 0 else Cell(was, q)
      {
        var v := Get(p);
        if v == nGeneration {
          Put(p, 0);
        }
      }
      forall p | 0 <= p < 16 * data.Length ensures Cell(data[..], p) == TagAt(p) {
        RolledTag(Age(history, p), nEntriesPerGeneration, g);
      }
    }

    lemma AgeOfLonger(keys: seq<Key>, key: Key, p: int)
      requires data.Length > 0
      ensures Age(keys + [key], p) == if Hits(key, p) then 1 else 1 + Age(keys, p)
    {
      assert (keys + [key])[..|keys|] == keys;
    }

    /** How far back the filter remembers: the current generation and the two before it. */
    ghost function Window(): int
      reads this
    {
      nEntriesThisGeneration + 2 * nEntriesPerGeneration
    }

    /** Every position of the key was hit by one of the remembered keys. */
    ghost predicate Covered(key: Key)
      requires data.Length > 0
      reads this
    {
      forall n :: 0 <= n < nHashFuncs ==>
          Age(history, Hash(n, key)) <= |history| && Age(history, Hash(n, key)) <= Window()
    }

    /** The n-th hash of one key and the m-th of another fall into the same of the 16 cells of each word. */
    ghost predicate Collide(n: int, key: Key, m: int, other: Key)
      requires data.Length > 0
      reads this`nTweak
    {
      murmur((0xFBA4_C795 * n + nTweak) % 0x1_0000_0000, key) % (16 * data.Length) ==
      murmur((0xFBA4_C795 * m + nTweak) % 0x1_0000_0000, other) % (16 * data.Length)
    }

    /** The n-th hash collides with one of the last Window() keys. */
    ghost predicate Remembered(n: int, key: Key)
      requires data.Length > 0
      reads this
    {
      exists i, m :: 0 <= i < |history| && |history| - i <= Window() && 0 <= m < nHashFuncs &&
        Collide(n, key, m, history[i])
    }

    lemma CollideIsHit(n: int, key: Key, other: Key)
      requires data.Length > 0
      ensures Hits(other, Hash(n, key)) <==> exists m :: 0 <= m < nHashFuncs && Collide(n, key, m, other)
    {
      forall m | 0 <= m < nHashFuncs ensures Collide(n, key, m, other) <==> Hash(m, other) == Hash(n, key) {
        SameHash(n, key, m, other);
      }
    }

    lemma SameHash(n: int, key: Key, m: int, other: Key)
      requires data.Length > 0
      ensures Collide(n, key, m, other) <==> Hash(m, other) == Hash(n, key)
    {
      assert n * 0xFBA4_C795 + nTweak == 0xFBA4_C795 * n + nTweak && data.Length * 16 == 16 * data.Length;
      assert m * 0xFBA4_C795 + nTweak == 0xFBA4_C795 * m + nTweak;
    }

    lemma RememberedIff(n: int, key: Key)
      requires data.Length > 0
      ensures Remembered(n, key) <==>
              Age(history, Hash(n, key)) <= |history| && Age(history, Hash(n, key)) <= Window()
    {
      hide Hash, Collide, Age;
      var p := Hash(n, key);
      var a := Age(history, p);
      if a <= |history| && a <= Window() {
        CollideIsHit(n, key, history[|history| - a]);
      }
      if Remembered(n, key) {
        var i, m :| 0 <= i < |history| && |history| - i <= Window() && 0 <= m < nHashFuncs &&
                    Collide(n, key, m, history[i]);
        CollideIsHit(n, key, history[i]);
        assert Hits(history[i], p);
      }
    }

    lemma CoveredIff(key: Key)
      requires data.Length > 0
      ensures Covered(key) <==> forall n :: 0 <= n < nHashFuncs ==> Remembered(n, key)
    {
      hide Age, Hash, Remembered;
      forall n | 0 <= n < nHashFuncs
        ensures Remembered(n, key) <==>
                Age(history, Hash(n, key)) <= |history| && Age(history, Hash(n, key)) <= Window()
      {
        RememberedIff(n, key);
      }
    }

    /** contains: whether each hash of the key collides with one of a key remembered. */
    method Contains(key: Key) returns (r: bool)
      requires Valid()
      ensures r <==> Covered(key)
      ensures r <==> forall n :: 0 <= n < nHashFuncs ==> Remembered(n, key)
    {
      hide Cell, Age, Hash, Remembered;
      r := true;
      for n := 0 to nHashFuncs
        invariant forall m :: 0 <= m < n ==>
                    Age(history, Hash(m, key)) <= |history| && Age(history, Hash(m, key)) <= Window()
      {
        var h := Hash(n, key);
        var v := Get(h);
        TagZero(Age(history, h), nEntriesThisGeneration, nEntriesPerGeneration, nGeneration);
        if v == 0 {
          CoveredIff(key);
          return false;
        }
      }
      CoveredIff(key);
    }

    /** Each of the last Window() keys, hence of the last two generations' worth, is contained. */
    lemma RecentIsCovered(i: int)
      requires Valid() && 0 <= i < |history| && |history| - i <= Window()
      ensures Covered(history[i])
    {
      hide Age, Hash;
      forall n | 0 <= n < nHashFuncs
        ensures Age(history, Hash(n, history[i])) <= |history| && Age(history, Hash(n, history[i])) <= Window()
      {
        assert Hits(history[i], Hash(n, history[i]));
      }
    }

    lemma LastElementsCovered(n: int, i: int)
      requires Valid() && n >= 1 && nEntriesPerGeneration == (n + 1) / 2
      requires 0 <= i < |history| && |history| - i <= n
      ensures data.Length > 0 && Covered(history[i])
    {
      hide Covered, Cell, Tag;
      RecentIsCovered(i);
    }
  }

  /** Any run of insertions into a filter made for n elements: the last n keys are all contained. */
  method InsertAll(f: RollingBloomFilter, n: int, keys: seq<Key>) returns (found: seq<bool>)
    requires f.Valid() && n >= 1 && f.nEntriesPerGeneration == (n + 1) / 2
    modifies f, f.data
    ensures f.Valid() && f.history == old(f.history) + keys
    ensures |found| == |keys| && forall i :: 0 <= i < |keys| && |keys| - i <= n ==> found[i]
  {
    hide RollingBloomFilter.Valid, RollingBloomFilter.Covered, RollingBloomFilter.Window;
    for i := 0 to |keys|
      invariant f.Valid() && f.history == old(f.history) + keys[..i]
    {
      f.Insert(keys[i]);
    }
    assert keys[..|keys|] == keys;
    found := [];
    for i := 0 to |keys|
      invariant f.Valid() && f.history == old(f.history) + keys
      invariant |found| == i && forall k :: 0 <= k < i && |keys| - k <= n ==> found[k]
    {
      if |keys| - i <= n {
        f.LastElementsCovered(n, |f.history| - |keys| + i);
      }
      var yes := f.Contains(keys[i]);
      found := found + [yes];
    }
  }

  lemma TagZero(age: int, entries: int, per: int, g: int)
    requires 1 <= g <= 3 && per > 0
    ensures Tag(age, entries, per, g) == 0 <==> age > entries + 2 * per
  {
  }

  lemma OlderTag(age: int, entries: int, per: int, g: int)
    ensures Tag(age + 1, entries + 1, per, g) == Tag(age, entries, per, g)
  {
  }

  lemma NewestTag(entries: int, per: int, g: int)
    requires entries >= 1
    ensures Tag(1, entries, per, g) == g
  {
  }

  lemma RolledTag(age: int, per: int, g: int)
    requires age >= 1 && 1 <= g <= 3 && per > 0
    ensures var next := if g == 3 then 1 else g + 1;
            Tag(age, 0, per, next) == if Tag(age, per, per, g) == next then 0 else Tag(age, per, per, g)
  {
  }
}
