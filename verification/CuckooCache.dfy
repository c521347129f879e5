/** The cuckoo cache with lazy garbage flags and epochs (src/cuckoocache.h). */
module CuckooCache {
  import opened Numbers
  import opened CuckooFlags

  // ---------- What the tables hold ----------

  /** The elements that are not up for collection. */
  ghost function Live<E(!new)>(table: seq<E>, garbage: seq<bool>): set<E>
    requires |table| == |garbage|
  {
    set i | 0 <= i < |table| && !garbage[i] :: table[i]
  }

  function Bit(b: bool): nat { if b then 1 else 0 }

  /** How many of the first n slots are in the current epoch and not garbage. */
  function Current(epoch: seq<bool>, garbage: seq<bool>, n: nat): (c: int)
    requires n <= |epoch| == |garbage|
    ensures 0 <= c <= n
  {
    if n == 0 then 0 else Current(epoch, garbage, n - 1) + Bit(epoch[n - 1] && !garbage[n - 1])
  }

  lemma {:induction false} CurrentUpdate(ep: seq<bool>, g: seq<bool>, ep': seq<bool>, g': seq<bool>, n: nat, at: nat)
    requires |ep| == |g| == |ep'| == |g'| && at < n <= |ep|
    requires forall i :: 0 <= i < n && i != at ==> ep[i] == ep'[i] && g[i] == g'[i]
    ensures Current(ep', g', n) == Current(ep, g, n) - Bit(ep[at] && !g[at]) + Bit(ep'[at] && !g'[at])
  {
    if at < n - 1 { CurrentUpdate(ep, g, ep', g', n - 1, at); } else { CurrentSame(ep, g, ep', g', n - 1); }
  }

  lemma {:induction false} CurrentSame(ep: seq<bool>, g: seq<bool>, ep': seq<bool>, g': seq<bool>, n: nat)
    requires |ep| == |g| == |ep'| == |g'| && n <= |ep|
    requires forall i :: 0 <= i < n ==> (ep[i] && !g[i]) == (ep'[i] && !g'[i])
    ensures Current(ep', g', n) == Current(ep, g, n)
  {
    if n > 0 { CurrentSame(ep, g, ep', g', n - 1); }
  }

  lemma {:induction false} CurrentNone(ep: seq<bool>, g: seq<bool>, n: nat)
    requires n <= |ep| == |g| && forall i :: 0 <= i < n ==> !ep[i]
    ensures Current(ep, g, n) == 0
  {
    if n > 0 { CurrentNone(ep, g, n - 1); }
  }

  /** Every element other than the blank one occurs at most once. */
  ghost predicate Distinct<E>(table: seq<E>, blank: E) {
    forall i, j :: 0 <= i < |table| && 0 <= j < |table| && table[i] == table[j] != blank ==> i == j
  }

  /** Overwriting a collectable slot adds one element. */
  lemma LiveFill<E(!new)>(t: seq<E>, g: seq<bool>, at: nat, e: E)
    requires |t| == |g| && at < |t| && g[at]
    ensures Live(t[at := e], g[at := false]) == Live(t, g) + {e}
  {
    var t', g' := t[at := e], g[at := false];
    forall x | x in Live(t, g) ensures x in Live(t', g') {
      var i :| 0 <= i < |t| && !g[i] && t[i] == x;
      assert t'[i] == x && !g'[i];
    }
    assert t'[at] == e && !g'[at];
  }

  /** Swapping a kept slot with the element in hand loses nothing. */
  lemma LiveSwap<E(!new)>(t: seq<E>, g: seq<bool>, at: nat, e: E)
    requires |t| == |g| && at < |t| && !g[at]
    ensures Live(t[at := e], g) + {t[at]} == Live(t, g) + {e}
  {
    var t' := t[at := e];
    forall x | x in Live(t, g) ensures x in Live(t', g) + {t[at]} {
      var i :| 0 <= i < |t| && !g[i] && t[i] == x;
      assert t'[i] == x || i == at;
    }
    forall x | x in Live(t', g) ensures x in Live(t, g) + {e} {
      var i :| 0 <= i < |t| && !g[i] && t'[i] == x;
      assert t[i] == x || i == at;
    }
    assert t'[at] == e && !g[at];
    assert t[at] in Live(t, g);
  }

  /** Marking a present slot as kept makes its element live. */
  lemma LiveKeep<E(!new)>(t: seq<E>, g: seq<bool>, at: nat)
    requires |t| == |g| && at < |t|
    ensures Live(t, g[at := false]) == Live(t, g) + {t[at]}
  {
    var g' := g[at := false];
    forall x | x in Live(t, g) ensures x in Live(t, g') {
      var i :| 0 <= i < |t| && !g[i] && t[i] == x;
      assert t[i] == x && !g'[i];
    }
    assert t[at] == t[at] && !g'[at];
  }

  // ---------- The cache ----------

  function Find(locs: seq<int>, x: int): (k: nat)
    ensures k <= |locs|
    ensures k < |locs| ==> locs[k] == x
    ensures k == |locs| ==> x !in locs
  {
    if locs == [] then 0 else if locs[0] == x then 0 else 1 + Find(locs[1..], x)
  }

  lemma {:induction false} FindMissing(locs: seq<int>, x: int)
    requires x !in locs
    ensures Find(locs, x) == |locs|
  {
    if locs != [] { FindMissing(locs[1..], x); }
  }

  /** The location displaced first is the second of the eight. */
  lemma FirstDisplaced(locs: seq<int>)
    requires |locs| == 8 && forall k :: 0 <= k < 8 ==> locs[k] >= 0
    ensures (1 + Find(locs, -1)) % 8 == 1
  {
    FindMissing(locs, -1);
  }

  /** The next location differs from the last one, unless the locations themselves repeat. */
  lemma NextDiffers(locs: seq<int>, last: int)
    requires |locs| == 8 && forall j, k :: 0 <= j < k < 8 ==> locs[j] != locs[k]
    ensures locs[(1 + Find(locs, last)) % 8] != last
  {
  }

  predicate Slots(at: seq<int>, n: nat) {
    forall i :: 0 <= i < |at| ==> 0 <= at[i] < n
  }

  /** The table and the element in hand once that element was exchanged for the content of each slot in turn. */
  function Swapped<E>(table: seq<E>, e: E, at: seq<int>): (r: (seq<E>, E))
    requires Slots(at, |table|)
    ensures |r.0| == |table|
  {
    if at == [] then (table, e) else
      var last := at[|at| - 1];
      var (t, x) := Swapped(table, e, at[..|at| - 1]);
      (t[last := x], t[last])
  }

  lemma {:induction false} SwappedSnoc<E>(table: seq<E>, e: E, at: seq<int>, slot: int)
    requires Slots(at, |table|) && 0 <= slot < |table|
    ensures var (t, x) := Swapped(table, e, at); Swapped(table, e, at + [slot]) == (t[slot := x], t[slot])
  {
    assert (at + [slot])[..|at|] == at;
  }

  lemma SwappedNone<E>(table: seq<E>, e: E)
    ensures Swapped(table, e, []) == (table, e)
  {
  }

  /** Exchanging never creates or destroys an element. */
  lemma {:induction false} SwappedKeeps<E>(table: seq<E>, e: E, at: seq<int>)
    requires Slots(at, |table|)
    ensures var (t, x) := Swapped(table, e, at); multiset(t) + multiset{x} == multiset(table) + multiset{e}
  {
    if at != [] { SwappedKeeps(table, e, at[..|at| - 1]); }
  }

  class Cache<E(==, !new)> {
    const blank: E                  // what a default-constructed slot holds
    const hash: (int, E) -> nat
    const size: nat
    const depthLimit: nat
    const epochSize: nat
    const flags: BitPackedFlags
    var table: seq<E>
    var epochFlags: seq<bool>
    var counter: int
    ghost var inserted: set<E>

    function Location(k: int, e: E): (loc: int)
      requires size > 0
      ensures 0 <= loc < size
    {
      BitAnd(hash(k, e), size - 1)
    }

    function ComputeHashes(e: E): (locs: seq<int>)
      requires size > 0
      ensures |locs| == 8 && forall k :: 0 <= k < 8 ==> locs[k] == Location(k, e)
    {
      seq(8, k => Location(k, e))
    }

    ghost predicate Located(e: E, at: int)
      requires size > 0
    {
      exists k :: 0 <= k < 8 && Location(k, e) == at
    }

    ghost function Garbage(): (g: seq<bool>)
      requires size <= 8 * flags.mem.Length
      reads flags.mem
      ensures |g| == size
    {
      seq(size, i requires 0 <= i < size reads flags.mem => flags.Flag(i))
    }

    /** The most that current entries and counter together may reach. */
    function Limit(): int {
      epochSize + if epochSize / 16 > 1 then epochSize / 16 else 1
    }

    /** How many insertions an element outlives at least. */
    function Lifetime(): nat { epochSize + 1 }

    /** Nowhere to go: none of the locations of e is collectable. */
    ghost predicate Crowded(e: E, garbage: seq<bool>)
      requires 0 < size == |garbage|
    {
      forall k :: 0 <= k < 8 ==> !garbage[Location(k, e)]
    }

    ghost predicate Scattered(e: E)
      requires size > 0
    {
      forall j, k :: 0 <= j < k < 8 ==> Location(j, e) != Location(k, e)
    }

    /** One displacement: x has nowhere to go and takes a location of its own, not the slot it just left. */
    ghost predicate Displaces(x: E, garbage: seq<bool>, last: int, at: int)
      requires 0 < size == |garbage|
    {
      && Crowded(x, garbage) && Located(x, at) && (Scattered(x) ==> at != last)
    }

    /** A run of displacements, starting with e at the second of its locations. */
    ghost predicate Chain(t: seq<E>, garbage: seq<bool>, e: E, at: seq<int>)
      requires 0 < size == |t| == |garbage| && Slots(at, size)
    {
      at == [] ||
        var first, n := at[..|at| - 1], |at| - 1;
        && Chain(t, garbage, e, first) && (n == 0 ==> at[0] == Location(1, e))
        && Displaces(Swapped(t, e, first).1, garbage, if n == 0 then -1 else at[n - 1], at[n])
    }

    /** x went into one of its locations that was collectable. */
    ghost predicate Settled(t: seq<E>, garbage: seq<bool>, x: E, t': seq<E>, garbage': seq<bool>)
      requires 0 < size == |t| == |garbage|
    {
      exists k :: 0 <= k < 8 && garbage[Location(k, x)]
                  && t' == t[Location(k, x) := x] && garbage' == garbage[Location(k, x) := false]
    }

    ghost predicate TakenBy(at: int, s: set<E>)
      requires size > 0
    {
      exists x :: x in s && (x == blank || Located(x, at))
    }

    /** Each location of e is one of some element of s too, of the blank one at least. */
    ghost predicate Surrounded(e: E, s: set<E>)
      requires size > 0
    {
      forall k :: 0 <= k < 8 ==> TakenBy(Location(k, e), s)
    }

    ghost predicate Shaped()
      reads this, flags.mem
    {
      && size > 0 && size <= 8 * flags.mem.Length && |table| == |epochFlags| == size && counter >= 0
      && depthLimit >= 1
      && (forall i :: 0 <= i < size && table[i] != blank ==> Located(table[i], i) && table[i] in inserted)
      && (forall i :: 0 <= i < size && !Garbage()[i] ==> table[i] in inserted)
      && Distinct(table, blank)
    }

    ghost function InEpoch(): int
      requires Shaped()
      reads this, flags.mem
    {
      Current(epochFlags, Garbage(), size)
    }

    ghost function LiveElements(): set<E>
      requires Shaped()
      reads this, flags.mem
    {
      Live(table, Garbage())
    }

    /** Stored, not collectable, and in the current epoch. */
    ghost predicate InCurrent(e: E)
      requires Shaped()
      reads this, flags.mem
    {
      exists i :: 0 <= i < size && table[i] == e && !Garbage()[i] && epochFlags[i]
    }

    ghost predicate Valid()
      reads this, flags.mem
    {
      Shaped() && epochSize > 0 && InEpoch() + counter <= Limit()
    }

    /** setup: a power of two of blank slots, all collectable. */
    constructor (depth: nat, b: E, h: (int, E) -> nat)
      requires depth >= 1
      ensures Valid() && fresh(flags) && fresh(flags.mem) && size == Pow(2, depth) && depthLimit == depth
      ensures counter == epochSize && (epochSize == 1 || epochSize == 45 * size / 100)
      ensures 45 * size <= 100 * epochSize + 99
      ensures forall k, e :: Location(k, e) == h(k, e) % size
      ensures inserted == {} && LiveElements() == {}
    {
      var n := Pow(2, depth);
      blank := b;
      hash := h;
      size := n;
      depthLimit := depth;
      flags := new BitPackedFlags(n);
      table := seq(n, _ => b);
      epochFlags := seq(n, _ => false);
      epochSize := if 45 * n / 100 > 1 then 45 * n / 100 else 1;
      counter := if 45 * n / 100 > 1 then 45 * n / 100 else 1;
      inserted := {};
      new;
      CurrentNone(epochFlags, Garbage(), size);
      forall k, e ensures Location(k, e) == h(k, e) % size {
        BitAndMask(h(k, e), depth);
      }
    }

    /** What is collectable once the epochs were checked. */
    ghost function Aged(): (g: seq<bool>)
      requires Valid()
      reads this, flags.mem
      ensures |g| == size
    {
      if counter == 0 && InEpoch() >= epochSize
      then seq(size, i requires 0 <= i < size && |epochFlags| == size && size <= 8 * flags.mem.Length
                       reads this, flags.mem => Garbage()[i] || !epochFlags[i])
      else Garbage()
    }

    // allow_erase
    method AllowErase(n: int)
      requires Shaped() && 0 <= n < size
      modifies flags.mem
      ensures Shaped() && Garbage() == old(Garbage())[n := true]
    {
      flags.BitSet(n);
    }

    // please_keep
    method PleaseKeep(n: int)
      requires Shaped() && 0 <= n < size && table[n] in inserted
      modifies flags.mem
      ensures Shaped() && Garbage() == old(Garbage())[n := false]
    {
      flags.BitUnset(n);
    }

    /** Ages the epochs once the cheap counter has run out and the current epoch is full. */
    method EpochCheck()
      requires Valid()
      modifies this, flags.mem
      ensures Shaped() && InEpoch() + counter + 1 <= Limit()
      ensures table == old(table) && inserted == old(inserted)
      ensures LiveElements() <= old(LiveElements())
      ensures old(counter) != 0 || old(InEpoch()) < epochSize ==>
                Garbage() == old(Garbage()) && epochFlags == old(epochFlags) && counter >= old(counter) - 1
      ensures old(counter) == 0 && old(InEpoch()) >= epochSize ==>
                && InEpoch() == 0 && counter == epochSize
                && forall i :: 0 <= i < size ==> Garbage()[i] == (old(Garbage())[i] || !old(epochFlags)[i])
    {
      if counter != 0 {
        counter := counter - 1;
        return;
      }
      var unused := CountUnused();
      if unused >= epochSize {
        StartEpoch();
        counter := epochSize;
      } else {
        var least := if epochSize / 16 > epochSize - unused then epochSize / 16 else epochSize - unused;
        counter := if least > 1 then least else 1;
      }
    }

    method CountUnused() returns (unused: int)
      requires Shaped()
      ensures unused == InEpoch()
    {
      unused := 0;
      for i := 0 to size
        invariant unused == Current(epochFlags, Garbage(), i)
      {
        var collectable := flags.BitIsSet(i);
        unused := unused + Bit(epochFlags[i] && !collectable);
      }
    }

    /** Old entries become collectable, current ones become old. */
    method StartEpoch()
      requires Shaped()
      modifies this, flags.mem
      ensures Shaped() && InEpoch() == 0
      ensures table == old(table) && inserted == old(inserted) && counter == old(counter)
      ensures LiveElements() <= old(LiveElements())
      ensures forall i :: 0 <= i < size ==> Garbage()[i] == (old(Garbage())[i] || !old(epochFlags)[i])
    {
      ghost var was, g := epochFlags, Garbage();
      for i := 0 to size
        invariant Shaped() && table == old(table) && inserted == old(inserted) && counter == old(counter)
        invariant forall k :: 0 <= k < i ==> !epochFlags[k] && Garbage()[k] == (g[k] || !was[k])
        invariant forall k :: i <= k < size ==> epochFlags[k] == was[k] && Garbage()[k] == g[k]
      {
        if epochFlags[i] {
          epochFlags := epochFlags[i := false];
        } else {
          AllowErase(i);
        }
      }
      CurrentNone(epochFlags, Garbage(), size);
      LiveShrinks(table, g, Garbage());
    }

    /** The placement part of insert. The live elements become the old ones and e, less at most one: the last in
        hand after depthLimit displacements, none of which found a collectable location. */
    method Place(e0: E) returns (ghost dropped: set<E>, ghost at: seq<int>)
      requires Shaped() && e0 in inserted
      modifies this, flags.mem
      ensures Shaped() && inserted == old(inserted) && counter == old(counter)
      ensures InEpoch() <= old(InEpoch()) + 1
      ensures |dropped| <= 1 && dropped <= old(LiveElements()) + {e0}
      ensures old(LiveElements()) + {e0} - dropped <= LiveElements() <= old(LiveElements()) + {e0}
      ensures forall x :: x == e0 || old(InCurrent(x)) ==> x in dropped || InCurrent(x)
      ensures forall x :: x in dropped && x != blank ==> x !in table
      ensures Slots(at, size) && |at| <= depthLimit && Chain(old(table), old(Garbage()), e0, at)
      ensures dropped != {} <==> |at| == depthLimit
      ensures var (t, x) := Swapped(old(table), e0, at);
              if dropped != {} then table == t && dropped == {x}
              else
                || Settled(t, old(Garbage()), x, table, Garbage())
                || (at == [] && table == old(table) && exists k :: 0 <= k < 8 && table[Location(k, e0)] == e0)
      ensures dropped != {} ==> Crowded(e0, old(Garbage()))
    {
      hide Live, Current, Distinct, Located, Location, InCurrent, Find;
      hide Slots, Chain, Swapped, Crowded, Settled, Reached;
      dropped, at := {}, [];
      ghost var live, current, t, g := LiveElements(), InEpoch(), table, Garbage();
      ReachedStart(t, g, e0);
      ReachedMeans(t, g, e0, at, table, e0, -1);
      var stored, _ := FindStored(e0);
      if stored != -1 {
        KeepSlot(stored);
        return;
      }
      var e, lastEpoch, lastLoc := e0, true, -1;
      for depth := 0 to depthLimit
        invariant Shaped() && inserted == old(inserted) && counter == old(counter) && Garbage() == g
        invariant e in inserted && (e == blank || e !in table)
        invariant LiveElements() + {e} == live + {e0}
        invariant InEpoch() + Bit(lastEpoch) == current + 1
        invariant forall x :: x == e0 || old(InCurrent(x)) ==> (x == e && lastEpoch) || InCurrent(x)
        invariant |at| == depth && Reached(t, g, e0, at, table, e, lastLoc)
      {
        var locs := ComputeHashes(e);
        var free := FindCollectable(locs);
        ReachedMeans(t, g, e0, at, table, e, lastLoc);
        if free < 8 {
          FillSlot(free, e, lastEpoch);
          return;
        }
        var k := (1 + Find(locs, lastLoc)) % 8;
        ReachedStep(t, g, e0, at, table, e, lastLoc, locs, k);
        lastLoc := locs[k];
        at := at + [lastLoc];
        e, lastEpoch := SwapSlot(k, e, lastEpoch);
      }
      ReachedMeans(t, g, e0, at, table, e, lastLoc);
      ChainStarts(t, g, e0, at);
      dropped := {e};
    }

    /** The displacements `at` lead from t with e0 in hand to u with x in hand, x fresh from slot `last`. */
    ghost predicate Reached(t: seq<E>, g: seq<bool>, e0: E, at: seq<int>, u: seq<E>, x: E, last: int) {
      && 0 < size == |t| == |g| && Slots(at, size) && last == (if at == [] then -1 else at[|at| - 1])
      && Chain(t, g, e0, at) && Swapped(t, e0, at) == (u, x)
    }

    lemma ReachedStart(t: seq<E>, g: seq<bool>, e0: E)
      requires 0 < size == |t| == |g|
      ensures Slots([], size) && Reached(t, g, e0, [], t, e0, -1)
    {
    }

    lemma ReachedMeans(t: seq<E>, g: seq<bool>, e0: E, at: seq<int>, u: seq<E>, x: E, last: int)
      requires Reached(t, g, e0, at, u, x, last)
      ensures Slots(at, |t|) && Slots(at, size) && Chain(t, g, e0, at) && Swapped(t, e0, at) == (u, x)
    {
      hide Chain, Swapped;
    }

    lemma {:induction false} ReachedStep(t: seq<E>, g: seq<bool>, e0: E, at: seq<int>, u: seq<E>, x: E, last: int,
                                         locs: seq<int>, k: int)
      requires Reached(t, g, e0, at, u, x, last) && locs == ComputeHashes(x) && k == (1 + Find(locs, last)) % 8
      requires |u| == size && forall j :: 0 <= j < 8 ==> !g[locs[j]]
      ensures Reached(t, g, e0, at + [locs[k]], u[locs[k] := x], u[locs[k]], locs[k])
    {
      hide Location, Displaces, Chain, Swapped, Find;
      assert at == [] ==> x == e0 by { SwappedNone(t, e0); }
      NextDisplaces(x, g, last, locs, k);
      ChainStep(t, g, e0, at, last, locs[k]);
      SwappedSnoc(t, e0, at, locs[k]);
    }

    lemma {:induction false} ChainStarts(t: seq<E>, g: seq<bool>, e0: E, at: seq<int>)
      requires 0 < size == |t| == |g| && Slots(at, size) && Chain(t, g, e0, at) && at != []
      ensures Crowded(e0, g)
    {
      if |at| > 1 { ChainStarts(t, g, e0, at[..|at| - 1]); }
    }

    lemma NextDisplaces(x: E, g: seq<bool>, last: int, locs: seq<int>, k: int)
      requires 0 < size == |g| && Crowded(x, g) && locs == ComputeHashes(x) && k == (1 + Find(locs, last)) % 8
      ensures Displaces(x, g, last, locs[k]) && (last == -1 ==> locs[k] == Location(1, x))
    {
      hide Location, Crowded;
      assert Located(x, locs[k]) by { assert Location(k, x) == locs[k]; }
      if Scattered(x) { NextDiffers(locs, last); }
      if last == -1 { FirstDisplaced(locs); }
    }

    lemma {:induction false} ChainStep(t: seq<E>, g: seq<bool>, e0: E, at: seq<int>, last: int, slot: int)
      requires 0 < size == |t| == |g| && Slots(at, size) && Chain(t, g, e0, at) && 0 <= slot < size
      requires last == if at == [] then -1 else at[|at| - 1]
      requires Displaces(Swapped(t, e0, at).1, g, last, slot) && (at == [] ==> slot == Location(1, e0))
      ensures Slots(at + [slot], size) && Chain(t, g, e0, at + [slot])
    {
      hide Location, Displaces, Swapped;
      var next := at + [slot];
      assert next[..|next| - 1] == at;
    }

    /** The first of its hash locations that holds e, if any. */
    ghost predicate FirstAt(e: E, k: int)
      requires Shaped()
      reads this, flags.mem
    {
      0 <= k < 8 && table[Location(k, e)] == e && forall j :: 0 <= j < k ==> table[Location(j, e)] != e
    }

    ghost predicate Released(e: E, before: seq<bool>, after: seq<bool>)
      requires Shaped() && |before| == size
      reads this, flags.mem
    {
      exists k :: FirstAt(e, k) && after == before[Location(k, e) := true]
    }

    /** That location, or -1; no slot at all holds a missing element. */
    method FindStored(e: E) returns (at: int, ghost k: int)
      requires Shaped()
      ensures at == -1 || (FirstAt(e, k) && at == Location(k, e))
      ensures at == -1 ==> forall j :: 0 <= j < 8 ==> table[Location(j, e)] != e
      ensures at == -1 ==> e == blank || e !in table
    {
      hide Location;
      var locs := ComputeHashes(e);
      for i := 0 to 8
        invariant forall j :: 0 <= j < i ==> table[Location(j, e)] != e
      {
        if table[locs[i]] == e {
          return locs[i], i;
        }
      }
      StoredAtLocation(e);
      return -1, 8;
    }

    /** The first collectable one of the locations, or 8. */
    method FindCollectable(locs: seq<int>) returns (k: int)
      requires Shaped() && |locs| == 8 && forall j :: 0 <= j < 8 ==> 0 <= locs[j] < size
      ensures 0 <= k <= 8
      ensures forall j :: 0 <= j < k ==> !Garbage()[locs[j]]
      ensures k < 8 ==> Garbage()[locs[k]]
    {
      k := 0;
      while k < 8
        invariant 0 <= k <= 8 && forall j :: 0 <= j < k ==> !Garbage()[locs[j]]
      {
        var collectable := flags.BitIsSet(locs[k]);
        if collectable {
          return;
        }
        k := k + 1;
      }
    }

    // The element is already there.
    method KeepSlot(at: int)
      requires Shaped() && 0 <= at < size && table[at] in inserted
      modifies this, flags.mem
      ensures Shaped() && inserted == old(inserted) && counter == old(counter)
      ensures InEpoch() <= old(InEpoch()) + 1
      ensures LiveElements() == old(LiveElements()) + {old(table)[at]}
      ensures forall x :: x == old(table)[at] || old(InCurrent(x)) ==> InCurrent(x)
      ensures table == old(table)
    {
      ghost var g, ep := Garbage(), epochFlags;
      PleaseKeep(at);
      epochFlags := epochFlags[at := true];
      LiveKeep(table, g, at);
      forall x | x == old(table)[at] || old(InCurrent(x)) ensures InCurrent(x) {
        if x == table[at] {
          assert table[at] == x && !Garbage()[at] && epochFlags[at];
        } else {
          ghost var i :| 0 <= i < size && old(table)[i] == x && !g[i] && ep[i];
          assert table[i] == x && !Garbage()[i] && epochFlags[i];
        }
      }
      CurrentUpdate(ep, g, epochFlags, Garbage(), size, at);
    }

    method FillSlot(k: int, e: E, lastEpoch: bool)
      requires Shaped() && 0 <= k < 8 && e in inserted && (e == blank || e !in table)
      requires Garbage()[Location(k, e)]
      modifies this, flags.mem
      ensures Shaped() && inserted == old(inserted) && counter == old(counter)
      ensures InEpoch() == old(InEpoch()) + Bit(lastEpoch)
      ensures LiveElements() == old(LiveElements()) + {e}
      ensures forall x :: (x == e && lastEpoch) || old(InCurrent(x)) ==> InCurrent(x)
      ensures Settled(old(table), old(Garbage()), e, table, Garbage())
    {
      var at := Location(k, e);
      ghost var g, ep := Garbage(), epochFlags;
      LiveFill(table, g, at, e);
      table := table[at := e];
      PleaseKeep(at);
      epochFlags := epochFlags[at := lastEpoch];
      CurrentUpdate(ep, g, epochFlags, Garbage(), size, at);
      forall x | (x == e && lastEpoch) || old(InCurrent(x)) ensures InCurrent(x) {
        if old(InCurrent(x)) {
          ghost var i :| 0 <= i < size && old(table)[i] == x && !g[i] && ep[i];
          assert table[i] == x && !Garbage()[i] && epochFlags[i];
        } else {
          assert table[at] == x && !Garbage()[at] && epochFlags[at];
        }
      }
    }

    method SwapSlot(k: int, e: E, lastEpoch: bool) returns (e': E, lastEpoch': bool)
      requires Shaped() && 0 <= k < 8 && e in inserted && (e == blank || e !in table)
      requires !Garbage()[Location(k, e)]
      modifies this
      ensures Shaped() && inserted == old(inserted) && counter == old(counter)
      ensures e' in inserted && (e' == blank || e' !in table)
      ensures table == old(table)[Location(k, e) := e] && e' == old(table)[Location(k, e)]
      ensures InEpoch() + Bit(lastEpoch') == old(InEpoch()) + Bit(lastEpoch)
      ensures LiveElements() + {e'} == old(LiveElements()) + {e}
      ensures forall x :: (x == e && lastEpoch) || old(InCurrent(x)) ==> (x == e' && lastEpoch') || InCurrent(x)
    {
      var at := Location(k, e);
      ghost var g, ep := Garbage(), epochFlags;
      LiveSwap(table, g, at, e);
      e', lastEpoch' := table[at], epochFlags[at];
      table := table[at := e];
      epochFlags := epochFlags[at := lastEpoch];
      CurrentUpdate(ep, g, epochFlags, Garbage(), size, at);
      forall x | (x == e && lastEpoch) || old(InCurrent(x)) ensures (x == e' && lastEpoch') || InCurrent(x) {
        if old(InCurrent(x)) {
          ghost var i :| 0 <= i < size && old(table)[i] == x && !g[i] && ep[i];
          if i != at { assert table[i] == x && !Garbage()[i] && epochFlags[i]; }
        } else {
          assert table[at] == x && !Garbage()[at] && epochFlags[at];
        }
      }
    }

    lemma StoredAtLocation(e: E)
      requires Shaped()
      ensures e != blank && e in table ==> exists k :: 0 <= k < 8 && table[Location(k, e)] == e
    {
      if e != blank && e in table {
        var i :| 0 <= i < size && table[i] == e;
        assert Located(table[i], i);
      }
    }

    /** What keeps a slot from being collected is an element inserted before. */
    lemma CrowdedSurrounded(e: E)
      requires Shaped()
      ensures Crowded(e, Garbage()) ==> Surrounded(e, inserted)
    {
      if Crowded(e, Garbage()) {
        forall k | 0 <= k < 8 ensures TakenBy(Location(k, e), inserted) {
          var x := table[Location(k, e)];
          assert x == blank || Located(x, Location(k, e));
        }
      }
    }

    /** insert. Only the start of an epoch and displacement take elements away: the first those of the last
        epoch, the second at most one. */
    method Insert(e: E)
      returns (ghost started: bool, ghost aged: set<E>, ghost dropped: set<E>, ghost at: seq<int>)
      requires Valid()
      modifies this, flags.mem
      ensures Valid() && inserted == old(inserted) + {e}
      ensures started <==> old(counter) == 0 && old(InEpoch()) >= epochSize
      ensures if started then counter == epochSize else counter >= old(counter) - 1
      ensures !started ==> aged == old(LiveElements())
      ensures started ==> forall x :: x in aged <==> old(InCurrent(x))
      ensures |dropped| <= 1 && dropped <= aged + {e}
      ensures aged + {e} - dropped <= LiveElements() <= aged + {e}
      ensures forall x :: x == e || (!started && old(InCurrent(x))) ==> x in dropped || InCurrent(x)
      ensures forall x :: x in dropped && x != blank ==> x !in table
      ensures Slots(at, size) && |at| <= depthLimit && Chain(old(table), old(Aged()), e, at)
      ensures dropped != {} <==> |at| == depthLimit
      ensures var (t, x) := Swapped(old(table), e, at);
              if dropped != {} then table == t && dropped == {x}
              else
                || Settled(t, old(Aged()), x, table, Garbage())
                || (at == [] && table == old(table) && exists k :: 0 <= k < 8 && table[Location(k, e)] == e)
      ensures dropped != {} ==> Crowded(e, old(Aged())) && Surrounded(e, old(inserted))
    {
      hide Current, Distinct, Located, Location, Chain, Swapped, Crowded, Surrounded, Slots, Settled;
      started := counter == 0 && InEpoch() >= epochSize;
      EpochCheck();
      aged := LiveElements();
      assert Garbage() == old(Aged());
      CrowdedSurrounded(e);
      inserted := inserted + {e};
      dropped, at := Place(e);
    }

    /** contains: whether one of its locations holds the element, which is whether it is stored and never so
        for one that was not inserted. Erasing releases the first such location. */
    method Contains(e: E, erase: bool) returns (r: bool)
      requires Valid()
      modifies flags.mem
      ensures Valid()
      ensures r <==> exists k :: 0 <= k < 8 && table[Location(k, e)] == e
      ensures e != blank ==> (r <==> e in table) && (r ==> e in inserted)
      ensures e != blank ==> LiveElements() == old(LiveElements()) - if r && erase then {e} else {}
      ensures if r && erase then Released(e, old(Garbage()), Garbage()) else Garbage() == old(Garbage())
      ensures forall x :: (x != e || !(r && erase)) && old(InCurrent(x)) ==> InCurrent(x)
      ensures forall x :: (x != e || !(r && erase)) && x in old(LiveElements()) ==> x in LiveElements()
    {
      hide Live, Current, Distinct, Located, Location, InCurrent;
      var at, k := FindStored(e);
      r := at != -1;
      if r && erase {
        ReleaseSlot(at);
        assert FirstAt(e, k);
      }
    }

    method ReleaseSlot(at: int)
      requires Shaped() && 0 <= at < size
      modifies flags.mem
      ensures Shaped() && Garbage() == old(Garbage())[at := true]
      ensures InEpoch() <= old(InEpoch())
      ensures table[at] != blank ==> LiveElements() == old(LiveElements()) - {table[at]}
      ensures forall x :: x != table[at] && old(InCurrent(x)) ==> InCurrent(x)
      ensures forall x :: x != table[at] && x in old(LiveElements()) ==> x in LiveElements()
    {
      hide Current, Distinct, Located;
      ghost var g := Garbage();
      AllowErase(at);
      CurrentUpdate(epochFlags, g, epochFlags, Garbage(), size, at);
      LiveErase(table, g, at, blank);
      forall x | x != table[at] && old(InCurrent(x)) ensures InCurrent(x) {
        ghost var i :| 0 <= i < size && table[i] == x && !g[i] && epochFlags[i];
        assert table[i] == x && !Garbage()[i] && epochFlags[i];
      }
    }
  }

  /** Releasing a slot removes its element, which is nowhere else unless it is the blank one. */
  lemma LiveErase<E(!new)>(t: seq<E>, g: seq<bool>, at: nat, blank: E)
    requires |t| == |g| && at < |t| && Distinct(t, blank)
    ensures Live(t, g) - {t[at]} <= Live(t, g[at := true])
    ensures t[at] != blank ==> Live(t, g[at := true]) == Live(t, g) - {t[at]}
  {
    var g' := g[at := true];
    forall x | x in Live(t, g) && x != t[at] ensures x in Live(t, g') {
      var i :| 0 <= i < |t| && !g[i] && t[i] == x;
      assert t[i] == x && !g'[i];
    }
  }

  lemma LiveShrinks<E(!new)>(t: seq<E>, g: seq<bool>, g': seq<bool>)
    requires |t| == |g| == |g'| && forall i :: 0 <= i < |t| && g[i] ==> g'[i]
    ensures Live(t, g') <= Live(t, g)
  {
  }

  // ---------- Whole runs ----------

  datatype Op<E> = Insert(e: E) | Query(e: E, erase: bool)

  ghost function InsertedBy<E(!new)>(ops: seq<Op<E>>): set<E> {
    set i | 0 <= i < |ops| && ops[i].Insert? :: ops[i].e
  }

  lemma InsertedSnoc<E(!new)>(ops: seq<Op<E>>, i: nat)
    requires i < |ops|
    ensures InsertedBy(ops[..i + 1]) == InsertedBy(ops[..i]) + if ops[i].Insert? then {ops[i].e} else {}
  {
    var a, b := ops[..i], ops[..i + 1];
    assert b == a + [ops[i]];
    forall x | x in InsertedBy(a) ensures x in InsertedBy(b) {
      var k :| 0 <= k < |a| && a[k].Insert? && a[k].e == x;
      assert b[k].Insert? && b[k].e == x;
    }
    if ops[i].Insert? { assert b[i].Insert? && b[i].e == ops[i].e; }
  }

  /** The number of insertions among operations a to b - 1. */
  function Inserts<E>(ops: seq<Op<E>>, a: nat, b: nat): nat
    requires b <= |ops|
    decreases b
  {
    if a >= b then 0 else Inserts(ops, a, b - 1) + Bit(ops[b - 1].Insert?)
  }

  /** Inserted by operation i, lost by none from it up to t, and at most `limit` insertions later. */
  ghost predicate Due<E(!new)>(limit: nat, ops: seq<Op<E>>, lost: seq<set<E>>, i: nat, t: nat) {
    && i < t <= |ops| && t <= |lost| && ops[i].Insert?
    && (forall k :: i <= k < t ==> ops[i].e !in lost[k])
    && Inserts(ops, i + 1, t) <= limit
  }

  /** What operation j may answer and lose: an insertion loses at most one element, and none unless the elements
      inserted before surround the new one; a query loses only the one it erases, and finds only what was inserted
      before and every element that is due. */
  ghost predicate Answered<E(!new)>(c: Cache<E>, before: set<E>, ops: seq<Op<E>>, found: seq<bool>,
                                    lost: seq<set<E>>, j: nat)
    requires c.size > 0 && j < |ops| && j < |found| && j < |lost|
  {
    match ops[j]
    case Insert(e) => |lost[j]| <= 1 && (lost[j] != {} ==> c.Surrounded(e, before + InsertedBy(ops[..j])))
    case Query(e, erase) =>
      && lost[j] == (if found[j] && erase then {e} else {})
      && (found[j] && e != c.blank ==> e in before + InsertedBy(ops[..j]))
      && (e != c.blank && (exists i: nat :: Due(c.Lifetime(), ops, lost, i, j) && ops[i].e == e) ==> found[j])
  }

  lemma AnsweredSnoc<E(!new)>(c: Cache<E>, before: set<E>, ops: seq<Op<E>>, found: seq<bool>,
                              lost: seq<set<E>>, yes: bool, gone: set<E>, j: nat)
    requires c.size > 0 && j < |ops| && j < |found| && j < |lost| && Answered(c, before, ops, found, lost, j)
    ensures Answered(c, before, ops, found + [yes], lost + [gone], j)
  {
    forall i: nat | Due(c.Lifetime(), ops, lost + [gone], i, j) ensures Due(c.Lifetime(), ops, lost, i, j) {
      DueEarlier(c.Lifetime(), ops, lost, gone, i, j);
    }
  }

  lemma AnsweredNow<E(!new)>(c: Cache<E>, before: set<E>, ops: seq<Op<E>>, found: seq<bool>,
                             lost: seq<set<E>>, yes: bool, gone: set<E>, t: nat)
    requires c.size > 0 && |found| == |lost| == t < |ops|
    requires if ops[t].Insert? then |gone| <= 1 else gone == if yes && ops[t].erase then {ops[t].e} else {}
    requires ops[t].Insert? && gone != {} ==> c.Surrounded(ops[t].e, before + InsertedBy(ops[..t]))
    requires ops[t].Query? && ops[t].e != c.blank && yes ==> ops[t].e in before + InsertedBy(ops[..t])
    requires ops[t].Query? && ops[t].e != c.blank && !yes ==>
               forall i: nat :: i < t && Due(c.Lifetime(), ops, lost, i, t) ==> ops[i].e != ops[t].e
    ensures Answered(c, before, ops, found + [yes], lost + [gone], t)
  {
    forall i: nat | Due(c.Lifetime(), ops, lost + [gone], i, t) ensures Due(c.Lifetime(), ops, lost, i, t) {
      DueEarlier(c.Lifetime(), ops, lost, gone, i, t);
    }
  }

  lemma DueEarlier<E(!new)>(limit: nat, ops: seq<Op<E>>, lost: seq<set<E>>, gone: set<E>, i: nat, j: nat)
    requires j <= |lost| && Due(limit, ops, lost + [gone], i, j)
    ensures Due(limit, ops, lost, i, j)
  {
    forall k | i <= k < j ensures ops[i].e !in lost[k] {
      assert (lost + [gone])[k] == lost[k];
    }
  }

  lemma DueStep<E(!new)>(limit: nat, ops: seq<Op<E>>, lost: seq<set<E>>, gone: set<E>, i: nat, t: nat)
    requires |lost| == t < |ops| && Due(limit, ops, lost + [gone], i, t + 1)
    ensures ops[i].Insert? && ops[i].e !in gone && Inserts(ops, i + 1, t + 1) <= limit
    ensures i == t ==> Inserts(ops, i + 1, t + 1) == 0
    ensures i < t ==> Due(limit, ops, lost, i, t)
    ensures i < t ==> Inserts(ops, i + 1, t + 1) == Inserts(ops, i + 1, t) + Bit(ops[t].Insert?)
  {
    assert (lost + [gone])[t] == gone;
    forall k | i <= k < t ensures ops[i].e !in lost[k] {
      assert (lost + [gone])[k] == lost[k];
    }
  }

  /** An element in the current epoch, or in the last one with the counter still protecting that. */
  ghost predicate Kept<E(!new)>(c: Cache<E>, x: E, since: nat)
    requires c.Shaped()
    reads c, c.flags.mem
  {
    c.InCurrent(x) || (x in c.LiveElements() && c.counter + since >= c.Lifetime())
  }

  lemma KeptIsLive<E(!new)>(c: Cache<E>, x: E, since: nat)
    requires c.Shaped() && Kept(c, x, since)
    ensures x in c.LiveElements()
  {
  }

  lemma LiveIsStored<E(!new)>(c: Cache<E>, x: E)
    requires c.Shaped() && x in c.LiveElements()
    ensures x in c.table
  {
  }

  method PerformInsert<E(==, !new)>(c: Cache<E>, e: E) returns (ghost lost: set<E>)
    requires c.Valid()
    modifies c, c.flags.mem
    ensures c.Valid() && c.inserted == old(c.inserted) + {e} && |lost| <= 1
    ensures lost != {} ==> c.Surrounded(e, old(c.inserted))
    ensures e !in lost ==> Kept(c, e, 0)
    ensures forall x, n: nat :: old(Kept(c, x, n)) && x !in lost && n < c.Lifetime() ==> Kept(c, x, n + 1)
  {
    hide Live, Cache.InCurrent, Cache.InEpoch, Cache.Surrounded;
    ghost var started, aged, dropped, at := c.Insert(e);
    lost := dropped;
  }

  method PerformQuery<E(==, !new)>(c: Cache<E>, e: E, erase: bool) returns (found: bool, ghost lost: set<E>)
    requires c.Valid()
    modifies c.flags.mem
    ensures c.Valid() && lost == if found && erase then {e} else {}
    ensures found && e != c.blank ==> e in c.inserted
    ensures e != c.blank && e in old(c.LiveElements()) ==> found
    ensures forall x, n: nat :: old(Kept(c, x, n)) && x !in lost ==> Kept(c, x, n)
  {
    hide Live, Cache.InCurrent, Cache.InEpoch;
    if e in c.LiveElements() { LiveIsStored(c, e); }
    found := c.Contains(e, erase);
    lost := if found && erase then {e} else {};
  }

  /** Any run keeps the invariant, with its epoch bound. A query finds only what was inserted before it, and finds
      an element for the next epochSize + 1 insertions unless it was displaced or erased. */
  method Run<E(==, !new)>(c: Cache<E>, ops: seq<Op<E>>) returns (found: seq<bool>, ghost lost: seq<set<E>>)
    requires c.Valid()
    modifies c, c.flags.mem
    ensures c.Valid() && c.InEpoch() + c.counter <= c.Limit()
    ensures c.inserted == old(c.inserted) + InsertedBy(ops) && |found| == |lost| == |ops|
    ensures forall j: nat :: j < |ops| ==> Answered(c, old(c.inserted), ops, found, lost, j)
    ensures forall i :: 0 <= i < |ops| && Due(c.Lifetime(), ops, lost, i, |ops|) ==> ops[i].e in c.LiveElements()
  {
    hide InsertedBy, Inserts, Due, Answered, Kept, Cache.Surrounded;
    ghost var limit := c.Lifetime();
    found, lost := [], [];
    InsertedNone<E>();
    for t := 0 to |ops|
      invariant c.Valid() && c.inserted == old(c.inserted) + InsertedBy(ops[..t]) && |found| == |lost| == t
      invariant forall j: nat :: j < t ==> Answered(c, old(c.inserted), ops, found, lost, j)
      invariant forall i :: 0 <= i < t && Due(limit, ops, lost, i, t) ==> Kept(c, ops[i].e, Inserts(ops, i + 1, t))
    {
      InsertedSnoc(ops, t);
      ghost var foundBefore, lostBefore := found, lost;
      forall i: nat | i < t && Due(limit, ops, lost, i, t) ensures ops[i].e in c.LiveElements() {
        KeptIsLive(c, ops[i].e, Inserts(ops, i + 1, t));
      }
      var yes := false;
      ghost var gone;
      match ops[t] {
        case Insert(e) => gone := PerformInsert(c, e);
        case Query(e, erase) => yes, gone := PerformQuery(c, e, erase);
      }
      found, lost := found + [yes], lost + [gone];
      forall j: nat | j < t ensures Answered(c, old(c.inserted), ops, found, lost, j) {
        AnsweredSnoc(c, old(c.inserted), ops, foundBefore, lostBefore, yes, gone, j);
      }
      forall i: nat | i <= t && Due(limit, ops, lost, i, t + 1) ensures Kept(c, ops[i].e, Inserts(ops, i + 1, t + 1)) {
        DueStep(limit, ops, lostBefore, gone, i, t);
      }
      AnsweredNow(c, old(c.inserted), ops, foundBefore, lostBefore, yes, gone, t);
    }
    forall i: nat | i < |ops| && Due(limit, ops, lost, i, |ops|) ensures ops[i].e in c.LiveElements() {
      KeptIsLive(c, ops[i].e, Inserts(ops, i + 1, |ops|));
    }
    assert ops[..|ops|] == ops;
  }

  lemma InsertedNone<E(!new)>()
    ensures InsertedBy<E>([]) == {}
  {
  }
}
