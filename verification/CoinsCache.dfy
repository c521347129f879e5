/** The coin caches themselves (src/coins.cpp) over the coin database
    (src/txdb.cpp, src/sapling/sapling_txdb.cpp), updated in place. */
module CoinsCache {
  import opened CoinsView
  import opened CoinsSpec

  // ---------- Merging a child's entries, one key at a time ----------

  ghost predicate MergedCoins(v: Coins, v0: Coins, child: map<OutPoint, CoinEntry>, rest: map<OutPoint, CoinEntry>) {
    forall o :: Lookup(v, o) == if o in child && o !in rest then child[o].coin else Lookup(v0, o)
  }

  lemma MergedCoinsAll(v: Coins, v0: Coins, child: map<OutPoint, CoinEntry>, rest: map<OutPoint, CoinEntry>)
    requires rest == map[] && MergedCoins(v, v0, child, rest) && AllUnspent(v) && CoinsOk(child, v0)
    ensures v == OverCoins(child, v0)
  {
    OverCoinsLookup(child, v0);
    LookupDeterminesView(v, OverCoins(child, v0));
  }

  lemma MergedCoinsStep(v: Coins, v0: Coins, child: map<OutPoint, CoinEntry>, rest: map<OutPoint, CoinEntry>,
      o: OutPoint, v': Coins)
    requires MergedCoins(v, v0, child, rest) && CoinsOk(child, v0)
    requires o in rest && o in child && rest[o] == child[o]
    requires v' == if child[o].isDirty then SetCoin(v, o, child[o].coin) else v
    ensures MergedCoins(v', v0, child, rest - {o})
  {
    assert CoinEntryOk(child[o], o, v0);
    forall p ensures Lookup(v', p) == if p in child && p !in rest - {o} then child[p].coin else Lookup(v0, p) {
      assert Lookup(v, p) == if p in child && p !in rest then child[p].coin else Lookup(v0, p);
    }
  }

  /** One iteration of the merge, on the parent's entries. */
  function MergeCoin(cache: map<OutPoint, CoinEntry>, o: OutPoint, e: CoinEntry): map<OutPoint, CoinEntry> {
    if !e.isDirty then cache
    else if o !in cache then
      if e.isFresh && e.coin.IsSpent() then cache else cache[o := CoinEntry(e.coin, true, e.isFresh)]
    else if cache[o].isFresh && e.coin.IsSpent() then cache - {o}
    else cache[o := CoinEntry(e.coin, true, cache[o].isFresh)]
  }

  /** Merging one well-flagged child entry keeps the parent's flags right and changes
      its view at that outpoint only, to the child's coin. */
  lemma MergeCoinOk(cache: map<OutPoint, CoinEntry>, base: Coins, o: OutPoint, e: CoinEntry)
    requires CoinsOk(cache, base) && CoinEntryOk(e, o, OverCoins(cache, base))
    ensures CoinsOk(MergeCoin(cache, o, e), base)
    ensures OverCoins(MergeCoin(cache, o, e), base) ==
            if e.isDirty then SetCoin(OverCoins(cache, base), o, e.coin) else OverCoins(cache, base)
  {
    OverCoinsLookup(cache, base);
    var v := OverCoins(cache, base);
    assert Lookup(v, o) == if o in cache then cache[o].coin else Lookup(base, o);
    if o in cache { assert CoinEntryOk(cache[o], o, base); }
    if e.isDirty {
      if o !in cache {
        if e.isFresh && e.coin.IsSpent() {
          assert v - {o} == v;
        } else {
          OverCoinsUpdate(cache, base, o, CoinEntry(e.coin, true, e.isFresh));
        }
      } else if cache[o].isFresh && e.coin.IsSpent() {
        OverCoinsErase(cache, base, o);
      } else {
        OverCoinsUpdate(cache, base, o, CoinEntry(e.coin, true, cache[o].isFresh));
      }
    }
  }

  function MergeAnchor(cache: map<Hash, AnchorEntry>, rt: Hash, e: AnchorEntry): map<Hash, AnchorEntry> {
    if !e.isDirty then cache
    else if rt !in cache then cache[rt := AnchorEntry(e.entered, e.tree, true)]
    else if cache[rt].entered != e.entered then cache[rt := AnchorEntry(e.entered, cache[rt].tree, true)]
    else cache
  }

  lemma OverAnchorsUpdate(cache: map<Hash, AnchorEntry>, base: Anchors, rootOf: SaplingTree -> Hash, rt: Hash,
      e: AnchorEntry)
    requires AnchorsOk(cache, base, rootOf) && AnchorEntryOk(e, rt, base, rootOf)
    ensures AnchorsOk(cache[rt := e], base, rootOf)
    ensures OverAnchors(cache[rt := e], base) == SetAnchor(OverAnchors(cache, base), rt, e.entered, e.tree)
  {
  }

  lemma MergeAnchorOk(cache: map<Hash, AnchorEntry>, base: Anchors, rootOf: SaplingTree -> Hash, rt: Hash,
      e: AnchorEntry)
    requires AnchorsOk(cache, base, rootOf) && Injective(rootOf)
    requires AnchorEntryOk(e, rt, OverAnchors(cache, base), rootOf)
    ensures AnchorsOk(MergeAnchor(cache, rt, e), base, rootOf)
    ensures OverAnchors(MergeAnchor(cache, rt, e), base) ==
            if e.isDirty then SetAnchor(OverAnchors(cache, base), rt, e.entered, e.tree) else OverAnchors(cache, base)
  {
    hide AnchorsOk, OverAnchors;
    if e.isDirty {
      if rt !in cache {
        OverAnchorsUpdate(cache, base, rootOf, rt, AnchorEntry(e.entered, e.tree, true));
      } else {
        CachedAnchor(cache, base, rootOf, rt);
        assert rootOf(cache[rt].tree) == rootOf(e.tree);
        OverAnchorsUpdate(cache, base, rootOf, rt, AnchorEntry(e.entered, cache[rt].tree, true));
        if cache[rt].entered == e.entered {
          SetAnchorAgain(cache, base, rt);
        }
      }
    }
  }

  lemma CachedAnchor(cache: map<Hash, AnchorEntry>, base: Anchors, rootOf: SaplingTree -> Hash, rt: Hash)
    requires AnchorsOk(cache, base, rootOf) && rt in cache
    ensures AnchorEntryOk(cache[rt], rt, base, rootOf)
  {
  }

  lemma SetAnchorAgain(cache: map<Hash, AnchorEntry>, base: Anchors, rt: Hash)
    requires rt in cache
    ensures SetAnchor(OverAnchors(cache, base), rt, cache[rt].entered, cache[rt].tree) == OverAnchors(cache, base)
  {
  }

  ghost predicate MergedAnchors(v: Anchors, v0: Anchors, child: map<Hash, AnchorEntry>, rest: map<Hash, AnchorEntry>) {
    && (forall rt :: rt in v <==> if rt in child && rt !in rest then child[rt].entered else rt in v0)
    && (forall rt :: rt in v ==> v[rt] == if rt in child && rt !in rest then child[rt].tree else v0[rt])
  }

  lemma MergedAnchorsAll(v: Anchors, v0: Anchors, child: map<Hash, AnchorEntry>, rest: map<Hash, AnchorEntry>)
    requires rest == map[] && MergedAnchors(v, v0, child, rest)
    ensures v == OverAnchors(child, v0)
  {
    assert forall rt :: rt in v <==> rt in OverAnchors(child, v0);
  }

  lemma MergedAnchorsNone(v0: Anchors, child: map<Hash, AnchorEntry>)
    ensures MergedAnchors(v0, v0, child, child)
  {
  }

  lemma MergedAnchorsStep(v: Anchors, v0: Anchors, child: map<Hash, AnchorEntry>, rest: map<Hash, AnchorEntry>,
                          rootOf: SaplingTree -> Hash, rt: Hash, v': Anchors)
    requires MergedAnchors(v, v0, child, rest) && AnchorsOk(child, v0, rootOf)
    requires rt in rest && rt in child && rest[rt] == child[rt]
    requires v' == if child[rt].isDirty then SetAnchor(v, rt, child[rt].entered, child[rt].tree) else v
    ensures MergedAnchors(v', v0, child, rest - {rt})
  {
    assert AnchorEntryOk(child[rt], rt, v0, rootOf);
  }

  function MergeNullifier(cache: map<Hash, NullifierEntry>, n: Hash, e: NullifierEntry): map<Hash, NullifierEntry> {
    if !e.isDirty || (n in cache && cache[n].entered == e.entered) then cache
    else cache[n := NullifierEntry(e.entered, true)]
  }

  lemma MergeNullifierOk(cache: map<Hash, NullifierEntry>, base: set<Hash>, n: Hash, e: NullifierEntry)
    requires NullifiersOk(cache, base)
    ensures NullifiersOk(MergeNullifier(cache, n, e), base)
    ensures OverNullifiers(MergeNullifier(cache, n, e), base) ==
            if e.isDirty then SetNullifier(OverNullifiers(cache, base), n, e.entered) else OverNullifiers(cache, base)
  {
  }

  ghost predicate MergedNullifiers(v: set<Hash>, v0: set<Hash>, child: map<Hash, NullifierEntry>,
      rest: map<Hash, NullifierEntry>) {
    forall n :: n in v <==> if n in child && n !in rest then child[n].entered else n in v0
  }

  function WriteAnchor(anchors: Anchors, rt: Hash, e: AnchorEntry, emptyRoot: Hash): Anchors {
    if !e.isDirty then anchors
    else if !e.entered then anchors - {rt}
    else if rt != emptyRoot then anchors[rt := e.tree]
    else anchors
  }

  /** The database's anchors are the view handed over, but for the empty root. */
  lemma WriteAnchorOk(anchors: Anchors, v: Anchors, rt: Hash, e: AnchorEntry, rootOf: SaplingTree -> Hash)
    requires Rooted(anchors, rootOf) && rootOf(e.tree) == rt
    requires anchors[rootOf(EMPTY_TREE) := EMPTY_TREE] == v[rootOf(EMPTY_TREE) := EMPTY_TREE]
    ensures Rooted(WriteAnchor(anchors, rt, e, rootOf(EMPTY_TREE)), rootOf)
    ensures WriteAnchor(anchors, rt, e, rootOf(EMPTY_TREE))[rootOf(EMPTY_TREE) := EMPTY_TREE] ==
            (if e.isDirty then SetAnchor(v, rt, e.entered, e.tree) else v)[rootOf(EMPTY_TREE) := EMPTY_TREE]
  {
    var emptyRoot := rootOf(EMPTY_TREE);
    var a, b := anchors[emptyRoot := EMPTY_TREE], v[emptyRoot := EMPTY_TREE];
    var a' := WriteAnchor(anchors, rt, e, emptyRoot);
    var v' := if e.isDirty then SetAnchor(v, rt, e.entered, e.tree) else v;
    forall x | x != emptyRoot ensures (x in a' <==> x in v') && (x in a' ==> a'[x] == v'[x]) {
      assert x in a <==> x in b;
      assert x in a ==> a[x] == b[x];
    }
    assert a'[emptyRoot := EMPTY_TREE] == v'[emptyRoot := EMPTY_TREE];
  }

  lemma MergedNullifiersStep(v: set<Hash>, v0: set<Hash>, child: map<Hash, NullifierEntry>,
      rest: map<Hash, NullifierEntry>, n: Hash, v': set<Hash>)
    requires MergedNullifiers(v, v0, child, rest) && NullifiersOk(child, v0)
    requires n in rest && n in child && rest[n] == child[n]
    requires v' == if child[n].isDirty then SetNullifier(v, n, child[n].entered) else v
    ensures MergedNullifiers(v', v0, child, rest - {n})
  {
  }

  lemma MergedNullifiersAll(v: set<Hash>, v0: set<Hash>, child: map<Hash, NullifierEntry>,
      rest: map<Hash, NullifierEntry>)
    requires rest == map[] && MergedNullifiers(v, v0, child, rest)
    ensures v == OverNullifiers(child, v0)
  {
  }

  // ---------- The bottom: CCoinsViewDB ----------

  class CoinsDB {
    const rootOf: SaplingTree -> Hash
    var coins: Coins
    var anchors: Anchors
    var nullifiers: set<Hash>
    var block: Hash
    var anchor: Hash

    constructor (rootOf: SaplingTree -> Hash)
      requires Injective(rootOf)
      ensures this.rootOf == rootOf && Valid()
      ensures Show() == View(map[], map[rootOf(EMPTY_TREE) := EMPTY_TREE], {}, NULL_HASH, rootOf(EMPTY_TREE))
    {
      this.rootOf := rootOf;
      coins, anchors, nullifiers, block, anchor := map[], map[], {}, NULL_HASH, rootOf(EMPTY_TREE);
    }

    ghost predicate Valid()
      reads this
    {
      AllUnspent(coins) && Rooted(anchors, rootOf) && Injective(rootOf)
    }

    function Show(): View
      reads this
    {
      View(coins, anchors[rootOf(EMPTY_TREE) := EMPTY_TREE], nullifiers, block, anchor)
    }

    method GetCoin(o: OutPoint) returns (found: bool, coin: Coin)
      ensures found <==> o in Show().coins
      ensures coin == Lookup(Show().coins, o)
    {
      found := o in coins;
      coin := if found then coins[o] else COIN_EMPTY;
    }

    method GetSaplingAnchorAt(rt: Hash) returns (found: bool, tree: SaplingTree)
      ensures found <==> rt in Show().anchors
      ensures found ==> tree == Show().anchors[rt]
    {
      if rt == rootOf(EMPTY_TREE) { return true, EMPTY_TREE; }
      found := rt in anchors;
      tree := if found then anchors[rt] else EMPTY_TREE;
    }

    method WriteCoins(child: map<OutPoint, CoinEntry>)
      requires CoinsOk(child, coins) && AllUnspent(coins)
      modifies this`coins
      ensures coins == OverCoins(child, old(coins))
      ensures AllUnspent(coins)
    {
      hide OverCoins, CoinsOk;
      var rest := child;
      while rest != map[]
        invariant rest.Keys <= child.Keys
        invariant forall o :: o in rest ==> rest[o] == child[o]
        invariant AllUnspent(coins) && MergedCoins(coins, old(coins), child, rest)
        decreases |rest|
      {
        var o :| o in rest;
        MergedCoinsStep(coins, old(coins), child, rest, o,
                        if child[o].isDirty then SetCoin(coins, o, child[o].coin) else coins);
        if rest[o].isDirty {
          if rest[o].coin.IsSpent() { coins := coins - {o}; } else { coins := coins[o := rest[o].coin]; }
        }
        rest := rest - {o};
      }
      MergedCoinsAll(coins, old(coins), child, rest);
    }

    method WriteAnchors(child: map<Hash, AnchorEntry>)
      requires Rooted(anchors, rootOf) && Injective(rootOf)
      requires AnchorsOk(child, Show().anchors, rootOf)
      modifies this`anchors
      ensures Rooted(anchors, rootOf)
      ensures Show().anchors == OverAnchors(child, old(Show().anchors))[rootOf(EMPTY_TREE) := EMPTY_TREE]
    {
      hide OverAnchors, MergedAnchors, SetAnchor, Rooted;
      var rest := child;
      ghost var emptyRoot := rootOf(EMPTY_TREE);
      ghost var v0 := Show().anchors;
      ghost var v := v0;   // the view the child hands over, with the empty root as the child says
      MergedAnchorsNone(v0, child);
      while rest != map[]
        invariant rest.Keys <= child.Keys
        invariant forall rt :: rt in rest ==> rest[rt] == child[rt]
        invariant Rooted(anchors, rootOf) && MergedAnchors(v, v0, child, rest)
        invariant Show().anchors == v[emptyRoot := EMPTY_TREE]
        decreases |rest|
      {
        var rt :| rt in rest;
        ghost var v' := if child[rt].isDirty then SetAnchor(v, rt, child[rt].entered, child[rt].tree) else v;
        MergedAnchorsStep(v, v0, child, rest, rootOf, rt, v');
        assert rootOf(child[rt].tree) == rt by { assert AnchorEntryOk(child[rt], rt, v0, rootOf); }
        WriteAnchorOk(anchors, v, rt, child[rt], rootOf);
        if rest[rt].isDirty {
          if !rest[rt].entered {
            anchors := anchors - {rt};
          } else if rt != rootOf(EMPTY_TREE) {
            anchors := anchors[rt := rest[rt].tree];
          }
        }
        v := v';
        rest := rest - {rt};
      }
      MergedAnchorsAll(v, v0, child, rest);
    }

    method WriteNullifiers(child: map<Hash, NullifierEntry>)
      requires NullifiersOk(child, nullifiers)
      modifies this`nullifiers
      ensures nullifiers == OverNullifiers(child, old(nullifiers))
    {
      var rest := child;
      while rest != map[]
        invariant rest.Keys <= child.Keys
        invariant forall n :: n in rest ==> rest[n] == child[n]
        invariant MergedNullifiers(nullifiers, old(nullifiers), child, rest)
        decreases |rest|
      {
        var n :| n in rest;
        if rest[n].isDirty {
          if rest[n].entered { nullifiers := nullifiers + {n}; } else { nullifiers := nullifiers - {n}; }
        }
        rest := rest - {n};
      }
    }

    method BatchWrite(l: Layer)
      requires Valid() && LayerOk(l, Show(), rootOf)
      requires l.block != NULL_HASH   // asserted by CCoinsViewDB::BatchWrite
      modifies this
      ensures Valid()
      ensures Show() == Flushed([Over(l, old(Show())), old(Show())], rootOf(EMPTY_TREE))[1]
      ensures coins == OverCoins(l.coins, old(coins)) && nullifiers == OverNullifiers(l.nullifiers, old(nullifiers))
      ensures block == l.block && anchor == if l.anchor != NULL_HASH then l.anchor else old(anchor)
    {
      WriteCoins(l.coins);
      WriteAnchors(l.anchors);
      WriteNullifiers(l.nullifiers);
      if l.anchor != NULL_HASH { anchor := l.anchor; }
      block := l.block;
    }
  }

  /** Caching what the base answered, spent or not, leaves the view as it was. */
  lemma FetchedOk(cache: map<OutPoint, CoinEntry>, base: Coins, o: OutPoint, c: Coin)
    requires CoinsOk(cache, base) && o !in cache && c == Lookup(base, o)
    ensures CoinsOk(cache[o := CoinEntry(c, false, c.IsSpent())], base)
    ensures OverCoins(cache[o := CoinEntry(c, false, c.IsSpent())], base) == OverCoins(cache, base)
    ensures Lookup(OverCoins(cache, base), o) == c
  {
    OverCoinsLookup(cache, base);
    OverCoinsUpdate(cache, base, o, CoinEntry(c, false, c.IsSpent()));
    assert SetCoin(OverCoins(cache, base), o, c) == OverCoins(cache, base);
  }

  lemma FetchedNullifierOk(cache: map<Hash, NullifierEntry>, base: set<Hash>, n: Hash, spent: bool)
    requires NullifiersOk(cache, base) && n !in cache && (spent <==> n in base)
    ensures NullifiersOk(cache[n := NullifierEntry(spent, false)], base)
    ensures OverNullifiers(cache[n := NullifierEntry(spent, false)], base) == OverNullifiers(cache, base)
    ensures n in OverNullifiers(cache, base) <==> spent
  {
  }

  // ---------- The merge loops of BatchWrite ----------

  lemma MergeStep(cache: map<OutPoint, CoinEntry>, base: Coins, v0: Coins,
                  child: map<OutPoint, CoinEntry>, rest: map<OutPoint, CoinEntry>, o: OutPoint)
    requires CoinsOk(cache, base) && CoinsOk(child, v0) && MergedCoins(OverCoins(cache, base), v0, child, rest)
    requires o in rest && o in child && rest[o] == child[o]
    ensures CoinsOk(MergeCoin(cache, o, child[o]), base)
    ensures MergedCoins(OverCoins(MergeCoin(cache, o, child[o]), base), v0, child, rest - {o})
  {
    var v := OverCoins(cache, base);
    OverCoinsLookup(cache, base);
    assert Lookup(v, o) == Lookup(v0, o);
    assert CoinEntryOk(child[o], o, v0);
    MergeCoinOk(cache, base, o, child[o]);
    MergedCoinsStep(v, v0, child, rest, o, OverCoins(MergeCoin(cache, o, child[o]), base));
  }

  lemma MergeAnchorStep(cache: map<Hash, AnchorEntry>, base: Anchors, v0: Anchors,
                        child: map<Hash, AnchorEntry>, rest: map<Hash, AnchorEntry>, rt: Hash,
                        rootOf: SaplingTree -> Hash)
    requires AnchorsOk(cache, base, rootOf) && AnchorsOk(child, v0, rootOf) && Injective(rootOf)
    requires MergedAnchors(OverAnchors(cache, base), v0, child, rest)
    requires rt in rest && rt in child && rest[rt] == child[rt]
    ensures AnchorsOk(MergeAnchor(cache, rt, child[rt]), base, rootOf)
    ensures MergedAnchors(OverAnchors(MergeAnchor(cache, rt, child[rt]), base), v0, child, rest - {rt})
  {
    assert AnchorEntryOk(child[rt], rt, v0, rootOf);
    MergeAnchorOk(cache, base, rootOf, rt, child[rt]);
    MergedAnchorsStep(OverAnchors(cache, base), v0, child, rest, rootOf, rt,
        OverAnchors(MergeAnchor(cache, rt, child[rt]), base));
  }

  /** The condition under which BatchWrite throws "FRESH flag misapplied". */
  ghost predicate Misapplied(child: map<OutPoint, CoinEntry>, cache: map<OutPoint, CoinEntry>) {
    exists o :: o in child && child[o].isDirty && child[o].isFresh && o in cache && !cache[o].coin.IsSpent()
  }

  /** The coin loop: merges the child's entries into the parent's, whose base shows `below`. */
  method BatchWriteCoins(child: map<OutPoint, CoinEntry>, parent: map<OutPoint, CoinEntry>, ghost below: Coins)
    returns (threw: bool, cache: map<OutPoint, CoinEntry>)
    requires CoinsOk(parent, below)
    ensures threw <==> Misapplied(child, parent)
    ensures !threw && CoinsOk(child, OverCoins(parent, below)) ==>
              CoinsOk(cache, below) && OverCoins(cache, below) == OverCoins(child, OverCoins(parent, below))
  {
    hide OverCoins, CoinsOk;
    ghost var v0 := OverCoins(parent, below);
    ghost var ok := CoinsOk(child, v0);
    cache := parent;
    var rest := child;
    while rest != map[]
      invariant rest.Keys <= child.Keys
      invariant forall o :: o in rest ==> rest[o] == child[o]
      invariant forall o :: o in rest ==> (o in cache <==> o in parent) && (o in cache ==> cache[o] == parent[o])
      invariant forall o :: o in child && o !in rest && child[o].isDirty && child[o].isFresh && o in parent ==>
                  parent[o].coin.IsSpent()
      invariant ok ==> CoinsOk(cache, below) && MergedCoins(OverCoins(cache, below), v0, child, rest)
      decreases |rest|
    {
      var o :| o in rest;
      var e := rest[o];
      ghost var cache0 := cache;
      if ok { MergeStep(cache, below, v0, child, rest, o); }
      if e.isDirty {
        if o !in cache {
          if !(e.isFresh && e.coin.IsSpent()) {
            cache := cache[o := CoinEntry(e.coin, true, e.isFresh)];
          }
        } else {
          if e.isFresh && !cache[o].coin.IsSpent() { return true, cache; }
          if cache[o].isFresh && e.coin.IsSpent() {
            cache := cache - {o};
          } else {
            cache := cache[o := CoinEntry(e.coin, true, cache[o].isFresh)];
          }
        }
      }
      assert cache == MergeCoin(cache0, o, e);
      rest := rest - {o};
    }
    if ok {
      OverCoinsLookup(cache, below);
      MergedCoinsAll(OverCoins(cache, below), v0, child, rest);
    }
    threw := false;
  }

  method BatchWriteAnchors(child: map<Hash, AnchorEntry>, parent: map<Hash, AnchorEntry>, ghost below: Anchors,
      ghost rootOf: SaplingTree -> Hash)
    returns (cache: map<Hash, AnchorEntry>)
    requires AnchorsOk(parent, below, rootOf) && Injective(rootOf)
    requires AnchorsOk(child, OverAnchors(parent, below), rootOf)
    ensures AnchorsOk(cache, below, rootOf)
    ensures OverAnchors(cache, below) == OverAnchors(child, OverAnchors(parent, below))
  {
    hide OverAnchors, AnchorsOk;
    ghost var v0 := OverAnchors(parent, below);
    cache := parent;
    var rest := child;
    while rest != map[]
      invariant rest.Keys <= child.Keys
      invariant forall rt :: rt in rest ==> rest[rt] == child[rt]
      invariant AnchorsOk(cache, below, rootOf)
      invariant MergedAnchors(OverAnchors(cache, below), v0, child, rest)
      decreases |rest|
    {
      var rt :| rt in rest;
      var e := rest[rt];
      ghost var cache0 := cache;
      MergeAnchorStep(cache, below, v0, child, rest, rt, rootOf);
      if e.isDirty {
        if rt !in cache {
          cache := cache[rt := AnchorEntry(e.entered, e.tree, true)];
        } else if cache[rt].entered != e.entered {
          cache := cache[rt := AnchorEntry(e.entered, cache[rt].tree, true)];
        }
      }
      assert cache == MergeAnchor(cache0, rt, e);
      rest := rest - {rt};
    }
    MergedAnchorsAll(OverAnchors(cache, below), v0, child, rest);
  }

  method BatchWriteNullifiers(child: map<Hash, NullifierEntry>, parent: map<Hash, NullifierEntry>,
      ghost below: set<Hash>)
    returns (cache: map<Hash, NullifierEntry>)
    requires NullifiersOk(parent, below)
    requires NullifiersOk(child, OverNullifiers(parent, below))
    ensures NullifiersOk(cache, below)
    ensures OverNullifiers(cache, below) == OverNullifiers(child, OverNullifiers(parent, below))
  {
    hide NullifiersOk, OverNullifiers;
    ghost var v0 := OverNullifiers(parent, below);
    cache := parent;
    var rest := child;
    while rest != map[]
      invariant rest.Keys <= child.Keys
      invariant forall n :: n in rest ==> rest[n] == child[n]
      invariant NullifiersOk(cache, below)
      invariant MergedNullifiers(OverNullifiers(cache, below), v0, child, rest)
      decreases |rest|
    {
      var n :| n in rest;
      var e := rest[n];
      ghost var cache0 := cache;
      MergeNullifierOk(cache, below, n, e);
      MergedNullifiersStep(OverNullifiers(cache, below), v0, child, rest, n,
          OverNullifiers(MergeNullifier(cache, n, e), below));
      if e.isDirty && (n !in cache || cache[n].entered != e.entered) {
        cache := cache[n := NullifierEntry(e.entered, true)];
      }
      assert cache == MergeNullifier(cache0, n, e);
      rest := rest - {n};
    }
    MergedNullifiersAll(OverNullifiers(cache, below), v0, child, rest);
  }

  // ---------- What adding and spending do to the entries of one cache ----------

  function AddedTo(cache: map<OutPoint, CoinEntry>, o: OutPoint, coin: Coin, overwrite: bool)
    : map<OutPoint, CoinEntry>
  {
    if Ignored(coin) then cache
    else if o !in cache then cache[o := CoinEntry(coin, true, !overwrite)]
    else cache[o := CoinEntry(coin, true, cache[o].isFresh || (!overwrite && !cache[o].isDirty))]
  }

  function SpentIn(cache: map<OutPoint, CoinEntry>, o: OutPoint): map<OutPoint, CoinEntry>
    requires o in cache
  {
    if cache[o].isFresh then cache - {o} else cache[o := CoinEntry(COIN_EMPTY, true, false)]
  }

  // ---------- CCoinsViewCache ----------

  class CoinsViewCache {
    const base: CoinsViewCache?   // null: this cache sits directly on the database
    const db: CoinsDB
    ghost const Repr: set<object>

    var hashBlock: Hash
    var hashSaplingAnchor: Hash
    var cacheCoins: map<OutPoint, CoinEntry>
    var cacheSaplingAnchors: map<Hash, AnchorEntry>
    var cacheSaplingNullifiers: map<Hash, NullifierEntry>

    function Fields(): Layer
      reads this
    {
      Layer(cacheCoins, cacheSaplingAnchors, cacheSaplingNullifiers, hashBlock, hashSaplingAnchor)
    }

    ghost predicate Linked()
      decreases Repr
    {
      && this in Repr && db in Repr
      && (base == null ==> Repr == {this, db})
      && (base != null ==> base in Repr && base.Repr == Repr - {this} && base.db == db && base.Linked())
    }

    /** The views under this cache, the database's last. */
    ghost function Below(): (vs: seq<View>)
      requires Linked()
      reads Repr
      ensures |vs| >= 1
      decreases Repr, 0
    {
      if base == null then [db.Show()] else base.Views()
    }

    /** This cache's view followed by those under it. */
    ghost function Views(): (vs: seq<View>)
      requires Linked()
      reads Repr
      ensures |vs| >= 2
      decreases Repr, 1
    {
      [Over(Fields(), Below()[0])] + Below()
    }

    /** The flags of this cache and of every cache below are right. */
    ghost predicate Valid()
      reads Repr
      decreases Repr
    {
      && Linked()
      && LayerOk(Fields(), Below()[0], db.rootOf)
      && (if base == null then db.Valid() else base.Valid())
    }

    ghost predicate BaseValid()
      reads Repr
    {
      Linked() && if base == null then db.Valid() else base.Valid()
    }

    /** Whether this cache or anything under it has an entry, be it a spent one. */
    ghost predicate HasEntry(o: OutPoint)
      requires Linked()
      reads Repr
      decreases Repr, 1
    {
      o in cacheCoins || BaseHasEntry(o)
    }

    ghost predicate BaseHasEntry(o: OutPoint)
      requires Linked()
      reads Repr
      decreases Repr, 0
    {
      if base == null then o in db.coins else base.HasEntry(o)
    }

    // What the base shows satisfies the assumptions on a base.
    lemma BelowOk()
      requires BaseValid()
      ensures AllUnspent(Below()[0].coins) && Rooted(Below()[0].anchors, db.rootOf) && Injective(db.rootOf)
      decreases Repr
    {
      if base != null {
        base.BelowOk();
        OverOk(base.Fields(), base.Below()[0], db.rootOf);
      }
    }

    /** A cache directly on the database. */
    constructor OnDatabase(db: CoinsDB)
      requires db.Valid()
      ensures Valid() && base == null && this.db == db && Repr == {this, db}
      ensures Views() == [db.Show().(block := NULL_HASH, anchor := NULL_HASH), db.Show()]
    {
      this.db, base := db, null;
      Repr := {this, db};
      hashBlock, hashSaplingAnchor := NULL_HASH, NULL_HASH;
      cacheCoins, cacheSaplingAnchors, cacheSaplingNullifiers := map[], map[], map[];
      new;
      OverEmptyLayer(Fields(), db.Show(), db.rootOf);
    }

    /** A cache on another cache. */
    constructor (base: CoinsViewCache)
      requires base.Valid()
      ensures Valid() && this.base == base && db == base.db && Repr == base.Repr + {this}
      ensures Views() == Apply(base.Views(), OpenChild, db.rootOf)
    {
      this.base, db := base, base.db;
      Repr := base.Repr + {this};
      hashBlock, hashSaplingAnchor := NULL_HASH, NULL_HASH;
      cacheCoins, cacheSaplingAnchors, cacheSaplingNullifiers := map[], map[], map[];
      new;
      BelowOk();
      OverEmptyLayer(Fields(), base.Views()[0], db.rootOf);
    }

    /** base->GetCoin, whichever kind of view the base is. */
    method BaseGetCoin(o: OutPoint) returns (found: bool, coin: Coin)
      requires Linked()
      modifies Repr
      ensures Fields() == old(Fields()) && (found <==> old(BaseHasEntry(o)))
      ensures old(Valid()) ==> Valid() && Below() == old(Below())
      ensures old(Valid()) ==> coin == Lookup(Below()[0].coins, o) && (o in Below()[0].coins ==> found)
      decreases Repr, 0
    {
      hide LayerOk, OverCoins, OverAnchors, OverNullifiers;
      if base == null {
        found, coin := db.GetCoin(o);
      } else {
        found, coin := base.GetCoin(o);
      }
    }

    /** Brings the entry for `o` into this cache if any view below has one. It asks nothing of the flags; where they
        are right, no view changes. */
    method FetchCoin(o: OutPoint) returns (found: bool)
      requires Linked()
      modifies Repr
      ensures (found <==> o in cacheCoins) && (found <==> old(HasEntry(o)))
      ensures Fields() == old(Fields()).(coins := cacheCoins) && cacheCoins - {o} == old(cacheCoins) - {o}
      ensures old(o in cacheCoins) ==> cacheCoins == old(cacheCoins) && Below() == old(Below())
      ensures old(Valid()) ==> Valid() && Views() == old(Views())
      ensures old(Valid()) && found ==> cacheCoins[o].coin == Lookup(Views()[0].coins, o)
      ensures old(Valid()) && !found ==> o !in Views()[0].coins
      decreases Repr, 1
    {
      hide AnchorsOk, NullifiersOk, OverCoins, OverAnchors, OverNullifiers;
      if o in cacheCoins {
        if Valid() { OverCoinsLookup(cacheCoins, Below()[0].coins); }
        return true;
      }
      var tmp: Coin;
      found, tmp := BaseGetCoin(o);
      if !found {
        if Valid() { OverCoinsLookup(cacheCoins, Below()[0].coins); }
        return;
      }
      if old(Valid()) { FetchedOk(cacheCoins, Below()[0].coins, o, tmp); }
      cacheCoins := cacheCoins[o := CoinEntry(tmp, false, tmp.IsSpent())];
    }

    /** Reports any entry, so possibly a spent one, for which it returns the empty coin. */
    method GetCoin(o: OutPoint) returns (found: bool, coin: Coin)
      requires Linked()
      modifies Repr
      ensures found <==> old(HasEntry(o))
      ensures old(Valid()) ==> Valid() && Views() == old(Views())
      ensures old(Valid()) ==> coin == Lookup(Views()[0].coins, o) && (o in Views()[0].coins ==> found)
      decreases Repr, 2
    {
      hide LayerOk, Over;
      found := FetchCoin(o);
      coin := if found then cacheCoins[o].coin else COIN_EMPTY;
    }

    method AccessCoin(o: OutPoint) returns (coin: Coin)
      requires Valid()
      modifies Repr
      ensures Valid() && Views() == old(Views())
      ensures coin == Lookup(Views()[0].coins, o)
    {
      hide LayerOk, Over;
      var found := FetchCoin(o);
      coin := if found then cacheCoins[o].coin else COIN_EMPTY;
    }

    method HaveCoin(o: OutPoint) returns (have: bool)
      requires Valid()
      modifies Repr
      ensures Valid() && Views() == old(Views())
      ensures have <==> o in Views()[0].coins
    {
      hide AnchorsOk, NullifiersOk, OverCoins, OverAnchors, OverNullifiers;
      var found := FetchCoin(o);
      have := found && !cacheCoins[o].coin.IsSpent();
      BelowOk();
      OverOk(Fields(), Below()[0], db.rootOf);
    }

    /** Whether AddCoin throws "Adding new coin that replaces non-pruned entry". */
    ghost predicate Replaces(o: OutPoint, coin: Coin, possibleOverwrite: bool)
      reads this
    {
      !possibleOverwrite && !Ignored(coin) && o in cacheCoins && !cacheCoins[o].coin.IsSpent()
    }

    /** Adds a coin.  Without the overwrite permission the base is not consulted, so
        the flags stay right exactly when the view had no unspent coin there (or the
        clash is noticed in this cache and thrown). */
    method AddCoin(o: OutPoint, coin: Coin, possibleOverwrite: bool) returns (threw: bool)
      requires Valid() && !coin.IsSpent()
      modifies this
      ensures Linked() && Below() == old(Below())
      ensures threw <==> old(Replaces(o, coin, possibleOverwrite))
      ensures threw ==> old(o in Views()[0].coins) && Fields() == old(Fields())
      ensures !threw ==> Fields() == old(Fields()).(coins := AddedTo(old(cacheCoins), o, coin, possibleOverwrite))
      ensures Valid() <==> (possibleOverwrite || Ignored(coin) || threw || old(o !in Views()[0].coins))
      ensures Valid() && !threw ==>
              Views() == if Ignored(coin) then old(Views())
                         else WithTop(old(Views()), old(Views()[0]).(coins := old(Views()[0].coins)[o := coin]))
    {
      hide AnchorsOk, NullifiersOk, OverCoins, OverAnchors, OverNullifiers;
      threw := false;
      ghost var below := Below()[0].coins;
      if coin.out.IsUnspendable() { return; }
      if coin.out.IsZerocoinMint() { return; }
      OverCoinsLookup(cacheCoins, below);
      assert Lookup(Views()[0].coins, o) == if o in cacheCoins then cacheCoins[o].coin else Lookup(below, o);
      var entry := if o in cacheCoins then cacheCoins[o] else CoinEntry(COIN_EMPTY, false, false);
      if o in cacheCoins { assert CoinEntryOk(cacheCoins[o], o, below); }
      var markFresh := false;
      if !possibleOverwrite {
        if !entry.coin.IsSpent() {
          return true;
        }
        markFresh := !entry.isDirty;
      }
      var entry' := CoinEntry(coin, true, entry.isFresh || markFresh);
      if possibleOverwrite || o !in Views()[0].coins {
        OverCoinsUpdate(cacheCoins, below, o, entry');
      }
      cacheCoins := cacheCoins[o := entry'];
      assert entry'.isFresh && o in below ==> !CoinEntryOk(cacheCoins[o], o, below);
    }

    /** Spends a coin and hands out what was there; absent coins are left alone. It asks nothing of the flags: an entry
        of this cache is spent as it stands, and where the flags are right the view loses the coin. */
    method SpendCoin(o: OutPoint) returns (moveout: Coin)
      requires Linked()
      modifies Repr
      ensures Linked() && Fields() == old(Fields()).(coins := cacheCoins) && cacheCoins - {o} == old(cacheCoins) - {o}
      ensures old(o in cacheCoins) ==> cacheCoins == SpentIn(old(cacheCoins), o) && Below() == old(Below())
      ensures old(o in cacheCoins) ==> moveout == old(cacheCoins)[o].coin
      ensures old(Valid()) ==> Valid() && moveout == old(Lookup(Views()[0].coins, o))
      ensures old(Valid()) ==> Views() == WithTop(old(Views()), old(Views()[0]).(coins := old(Views()[0].coins) - {o}))
    {
      hide AnchorsOk, NullifiersOk, OverCoins, OverAnchors, OverNullifiers;
      ghost var valid := Valid();
      var found := FetchCoin(o);
      ghost var below := Below()[0].coins;
      if !found {
        if valid {
          assert Views()[0].coins - {o} == Views()[0].coins;
          assert Views() == WithTop(Views(), Views()[0]);
        }
        return COIN_EMPTY;
      }
      moveout := cacheCoins[o].coin;
      ghost var was := cacheCoins;
      if valid {
        assert CoinEntryOk(cacheCoins[o], o, below);
        if cacheCoins[o].isFresh {
          OverCoinsErase(cacheCoins, below, o);
        } else {
          OverCoinsUpdate(cacheCoins, below, o, CoinEntry(COIN_EMPTY, true, false));
        }
      }
      if cacheCoins[o].isFresh {
        cacheCoins := cacheCoins - {o};
      } else {
        cacheCoins := cacheCoins[o := CoinEntry(COIN_EMPTY, true, false)];
      }
      assert cacheCoins == SpentIn(was, o);
    }

    method Uncache(o: OutPoint)
      requires Valid()
      modifies this
      ensures Valid() && Views() == old(Views())
      ensures var kept := old(o in cacheCoins && (cacheCoins[o].isDirty || cacheCoins[o].isFresh));
              Fields() == old(Fields()).(coins := if kept then old(cacheCoins) else old(cacheCoins) - {o})
    {
      hide AnchorsOk, NullifiersOk, OverCoins, OverAnchors, OverNullifiers;
      if o in cacheCoins && !cacheCoins[o].isDirty && !cacheCoins[o].isFresh {
        OverCoinsErase(cacheCoins, Below()[0].coins, o);
        cacheCoins := cacheCoins - {o};
      }
    }

    // ---------- Best block and best anchor ----------

    method GetBestBlock() returns (h: Hash)
      requires Valid()
      modifies Repr
      ensures Valid()
      ensures Views() == MemoBlock(old(Views())) && h == BestBlock(old(Views()))
      decreases Repr
    {
      hide CoinsOk, AnchorsOk, NullifiersOk, OverCoins, OverAnchors, OverNullifiers;
      if hashBlock == NULL_HASH {
        if base == null {
          hashBlock := db.block;
        } else {
          var b := base.GetBestBlock();
          hashBlock := b;
        }
      }
      return hashBlock;
    }

    method SetBestBlock(h: Hash)
      requires Valid()
      modifies this
      ensures Valid()
      ensures Views() == WithTop(old(Views()), old(Views()[0]).(block := h))
    {
      hide CoinsOk, AnchorsOk, NullifiersOk, OverCoins, OverAnchors, OverNullifiers;
      hashBlock := h;
    }

    method GetBestAnchor() returns (h: Hash)
      requires Valid()
      modifies Repr
      ensures Valid()
      ensures Views() == MemoAnchor(old(Views())) && h == BestAnchor(old(Views()))
      ensures cacheSaplingAnchors == old(cacheSaplingAnchors)
      ensures hashSaplingAnchor == h
      decreases Repr
    {
      hide CoinsOk, AnchorsOk, NullifiersOk, OverCoins, OverAnchors, OverNullifiers;
      if hashSaplingAnchor == NULL_HASH {
        if base == null {
          hashSaplingAnchor := db.anchor;
        } else {
          var b := base.GetBestAnchor();
          hashSaplingAnchor := b;
        }
      }
      return hashSaplingAnchor;
    }

    // ---------- Sapling ----------

    method BaseGetSaplingAnchorAt(rt: Hash) returns (found: bool, tree: SaplingTree)
      requires Valid()
      modifies Repr
      ensures Valid() && Fields() == old(Fields()) && Below() == old(Below())
      ensures found <==> rt in Below()[0].anchors
      ensures found ==> tree == Below()[0].anchors[rt]
      decreases Repr, 0
    {
      hide LayerOk, OverCoins, OverAnchors, OverNullifiers;
      if base == null {
        found, tree := db.GetSaplingAnchorAt(rt);
      } else {
        found, tree := base.GetSaplingAnchorAt(rt);
      }
    }

    method GetSaplingAnchorAt(rt: Hash) returns (found: bool, tree: SaplingTree)
      requires Valid()
      modifies Repr
      ensures Valid() && Views() == old(Views())
      ensures found <==> rt in Views()[0].anchors
      ensures found ==> tree == Views()[0].anchors[rt] && rt in cacheSaplingAnchors
      ensures hashSaplingAnchor == old(hashSaplingAnchor)
      decreases Repr, 1
    {
      hide CoinsOk, NullifiersOk, OverCoins, OverNullifiers;
      if rt in cacheSaplingAnchors {
        return cacheSaplingAnchors[rt].entered, cacheSaplingAnchors[rt].tree;
      }
      found, tree := BaseGetSaplingAnchorAt(rt);
      if !found { return; }
      ghost var below := Below()[0].anchors;
      OverAnchorsUpdate(cacheSaplingAnchors, below, db.rootOf, rt, AnchorEntry(true, tree, false));
      assert SetAnchor(OverAnchors(cacheSaplingAnchors, below), rt, true, tree) ==
          OverAnchors(cacheSaplingAnchors, below);
      cacheSaplingAnchors := cacheSaplingAnchors[rt := AnchorEntry(true, tree, false)];
    }

    method BaseGetNullifier(n: Hash) returns (spent: bool)
      requires Valid()
      modifies Repr
      ensures Valid() && Fields() == old(Fields()) && Below() == old(Below())
      ensures spent <==> n in Below()[0].nullifiers
      decreases Repr, 0
    {
      hide LayerOk, OverCoins, OverAnchors, OverNullifiers;
      if base == null {
        spent := n in db.nullifiers;
      } else {
        spent := base.GetNullifier(n);
      }
    }

    method GetNullifier(n: Hash) returns (spent: bool)
      requires Valid()
      modifies Repr
      ensures Valid() && Views() == old(Views())
      ensures spent <==> n in Views()[0].nullifiers
      decreases Repr, 1
    {
      hide CoinsOk, AnchorsOk, OverCoins, OverAnchors;
      if n in cacheSaplingNullifiers {
        return cacheSaplingNullifiers[n].entered;
      }
      spent := BaseGetNullifier(n);
      FetchedNullifierOk(cacheSaplingNullifiers, Below()[0].nullifiers, n, spent);
      cacheSaplingNullifiers := cacheSaplingNullifiers[n := NullifierEntry(spent, false)];
    }

    method PushAnchor(tree: SaplingTree)
      requires Valid()
      modifies Repr
      ensures Valid()
      ensures Views() == Push(old(Views()), tree, db.rootOf(tree))
    {
      hide CoinsOk, NullifiersOk, OverCoins, OverAnchors, OverNullifiers;
      var newrt := db.rootOf(tree);
      var currentRoot := GetBestAnchor();
      if currentRoot != newrt {
        OverAnchorsUpdate(cacheSaplingAnchors, Below()[0].anchors, db.rootOf, newrt, AnchorEntry(true, tree, true));
        cacheSaplingAnchors := cacheSaplingAnchors[newrt := AnchorEntry(true, tree, true)];
        hashSaplingAnchor := newrt;
      }
    }

    method PopAnchor(newrt: Hash)
      requires Valid()
      requires Legal(Views(), Op.PopAnchor(newrt))   // asserted by BringBestAnchorIntoCache
      modifies Repr
      ensures Valid()
      ensures Views() == Pop(old(Views()), newrt)
    {
      hide LayerOk, Over;
      MemoKeepsBest(Views());
      var currentRoot := GetBestAnchor();
      if currentRoot != newrt {
        var have, _ := GetSaplingAnchorAt(currentRoot);
        assert have;
        RemoveAnchor(currentRoot, newrt);
      }
    }

    /** Marks a cached anchor as unentered, to be propagated, and names the new best one. */
    method RemoveAnchor(rt: Hash, newrt: Hash)
      requires Valid() && rt in cacheSaplingAnchors
      modifies this
      ensures Valid()
      ensures Views() == WithTop(old(Views()),
               old(Views()[0]).(anchors := old(Views()[0].anchors) - {rt}, anchor := newrt))
    {
      hide CoinsOk, NullifiersOk, OverCoins, OverAnchors, OverNullifiers;
      ghost var below := Below()[0].anchors;
      assert AnchorEntryOk(cacheSaplingAnchors[rt], rt, below, db.rootOf);
      var entry := AnchorEntry(false, cacheSaplingAnchors[rt].tree, true);
      OverAnchorsUpdate(cacheSaplingAnchors, below, db.rootOf, rt, entry);
      cacheSaplingAnchors := cacheSaplingAnchors[rt := entry];
      hashSaplingAnchor := newrt;
    }

    method SetNullifiers(tx: Tx, spent: bool)
      requires Valid() && tx.Valid()
      modifies this
      ensures Valid()
      ensures Views() == WithTop(old(Views()),
               old(Views()[0]).(nullifiers := MarkAll(old(Views()[0].nullifiers), tx.spends, spent)))
    {
      hide CoinsOk, AnchorsOk, OverCoins, OverAnchors;
      ghost var below := Below()[0].nullifiers;
      if tx.hasSapData {
        for i := 0 to |tx.spends|
          invariant NullifiersOk(cacheSaplingNullifiers, below)
          invariant unchanged(`hashBlock, `hashSaplingAnchor, `cacheCoins, `cacheSaplingAnchors)
          invariant MarkAll(OverNullifiers(cacheSaplingNullifiers, below), tx.spends[i..], spent)
                    == MarkAll(old(OverNullifiers(cacheSaplingNullifiers, Below()[0].nullifiers)), tx.spends, spent)
        {
          var n := tx.spends[i].nullifier;
          ghost var v := OverNullifiers(cacheSaplingNullifiers, below);
          cacheSaplingNullifiers := cacheSaplingNullifiers[n := NullifierEntry(spent, true)];
          assert OverNullifiers(cacheSaplingNullifiers, below) == SetNullifier(v, n, spent);
          assert tx.spends[i..][1..] == tx.spends[i + 1..];
        }
      }
    }

    /** The checks on one spend: nullifier unspent, anchor known. */
    method HaveSpendRequirements(sd: SpendDescription) returns (ok: bool)
      requires Valid()
      modifies Repr
      ensures Valid() && Views() == old(Views())
      ensures ok <==> sd.nullifier !in Views()[0].nullifiers && sd.anchor in Views()[0].anchors
    {
      hide LayerOk, Over;
      var spent := GetNullifier(sd.nullifier);
      if spent { return false; }
      var have, _ := GetSaplingAnchorAt(sd.anchor);
      return have;
    }

    method HaveShieldedRequirements(tx: Tx) returns (ok: bool)
      requires Valid() && tx.Valid()
      modifies Repr
      ensures Valid() && Views() == old(Views())
      ensures ok <==> Acceptable(Views()[0], tx)
      ensures ok && tx.shielded ==> forall i :: 0 <= i < |tx.spends| ==>
                tx.spends[i].nullifier !in old(Views())[0].nullifiers && tx.spends[i].anchor in old(Views())[0].anchors
    {
      hide LayerOk, Over;
      if tx.shielded {
        ghost var v := Views()[0];
        for i := 0 to |tx.spends|
          invariant Valid() && Views() == old(Views())
          invariant forall j :: 0 <= j < i ==>
                      tx.spends[j].nullifier !in v.nullifiers && tx.spends[j].anchor in v.anchors
        {
          var good := HaveSpendRequirements(tx.spends[i]);
          if !good { return false; }
        }
      }
      return true;
    }

    // ---------- Write back ----------

    /** Takes a child's modifications.  It throws exactly on a misapplied FRESH flag. */
    method BatchWrite(l: Layer) returns (threw: bool)
      requires Valid()
      requires AnchorsOk(l.anchors, Views()[0].anchors, db.rootOf) && NullifiersOk(l.nullifiers, Views()[0].nullifiers)
      modifies this
      ensures threw <==> Misapplied(l.coins, old(cacheCoins))
      ensures !threw && CoinsOk(l.coins, old(Views()[0].coins)) ==>
                Valid() && Views() == WithTop(old(Views()), Over(l, old(Views()[0])))
    {
      hide CoinsOk, AnchorsOk, NullifiersOk, OverCoins, OverAnchors, OverNullifiers;
      BelowOk();
      ghost var below := Below()[0];
      var coins;
      threw, coins := BatchWriteCoins(l.coins, cacheCoins, below.coins);
      if threw {
        SetFields(Fields().(coins := coins));
        return;
      }
      var anchors := BatchWriteAnchors(l.anchors, cacheSaplingAnchors, below.anchors, db.rootOf);
      var nullifiers := BatchWriteNullifiers(l.nullifiers, cacheSaplingNullifiers, below.nullifiers);
      SetFields(Layer(coins, anchors, nullifiers, l.block, l.anchor));
    }

    /** Pushes the modifications to the base, whose view becomes this cache's view. */
    method Flush()
      requires Valid() && Legal(Views(), Op.Flush)
      modifies Repr
      ensures Valid()
      ensures Views() == Flushed(old(Views()), db.rootOf(EMPTY_TREE))
      ensures BestBlock(Below()) == BestBlock(Views()) && BestAnchor(Below()) == BestAnchor(Views())
      ensures Below()[0].coins == old(Views())[0].coins && Below()[0].nullifiers == old(Views())[0].nullifiers
    {
      hide LayerOk, OverCoins, OverAnchors, OverNullifiers;
      FlushedBaseAgrees(Views(), db.rootOf(EMPTY_TREE));
      BaseBatchWrite();
      BelowOk();
      SetFields(Layer(map[], map[], map[], hashBlock, hashSaplingAnchor));
      OverEmptyLayer(Fields(), Below()[0], db.rootOf);
    }

    /** base->BatchWrite with this cache's entries, whichever kind of view the base is. */
    method BaseBatchWrite()
      requires Valid() && Legal(Views(), Op.Flush)
      modifies Repr
      ensures BaseValid() && Fields() == old(Fields())
      ensures Below() == Flushed(old(Views()), db.rootOf(EMPTY_TREE))[1..]
    {
      hide CoinsOk, AnchorsOk, NullifiersOk, OverCoins, OverAnchors, OverNullifiers;
      if base == null {
        db.BatchWrite(Fields());
      } else {
        assert base.Valid() && Below()[0] == Over(base.Fields(), base.Below()[0]);
        NotMisapplied(cacheCoins, base.cacheCoins, base.Below()[0].coins);
        var threw := base.BatchWrite(Fields());
        assert !threw;
      }
    }

    method SetFields(l: Layer)
      requires BaseValid()
      modifies this
      ensures BaseValid() && Fields() == l && Below() == old(Below())
      ensures Valid() <==> LayerOk(l, Below()[0], db.rootOf)
    {
      hide LayerOk, Over;
      cacheCoins, cacheSaplingAnchors, cacheSaplingNullifiers := l.coins, l.anchors, l.nullifiers;
      hashBlock, hashSaplingAnchor := l.block, l.anchor;
    }
  }

  /** AddCoin without permission does not see a coin that only the base has: it is the one case in which spending
      the added coin does not leave the outpoint empty. The spend then forgets the coin, and the older one is back. */
  lemma BlindAddRevives(cache: map<OutPoint, CoinEntry>, base: Coins, o: OutPoint, newer: Coin, overwrite: bool)
    requires CoinsOk(cache, base) && !newer.IsSpent() && !Ignored(newer)
    requires !overwrite && o in cache ==> cache[o].coin.IsSpent()
    ensures var added := AddedTo(cache, o, newer, overwrite);
            var spent := SpentIn(added, o);
            && Lookup(OverCoins(added, base), o) == newer
            && (o in OverCoins(spent, base) <==> !overwrite && o !in cache && o in base)
            && (!overwrite && o !in cache && o in base ==>
                  spent == cache && Lookup(OverCoins(spent, base), o) == base[o] && !CoinsOk(added, base))
  {
    var added := AddedTo(cache, o, newer, overwrite);
    if o in cache { assert CoinEntryOk(cache[o], o, base); }
    if !overwrite && o !in cache && o in base {
      assert !CoinEntryOk(added[o], o, base);
      assert SpentIn(added, o) == cache;
    }
  }

  /** The same run of the two methods: unless the add throws, the outpoint is empty afterwards except in that case,
      and then every view is what it was before. */
  method AddThenSpend(c: CoinsViewCache, o: OutPoint, newer: Coin, overwrite: bool) returns (threw: bool)
    requires c.Valid() && !newer.IsSpent() && !Ignored(newer)
    modifies c.Repr
    ensures c.Linked() && (threw ==> c.Views() == old(c.Views()))
    ensures !threw ==>
              (o in c.Views()[0].coins <==> !overwrite && old(o !in c.cacheCoins && o in c.Below()[0].coins))
    ensures !threw && o in c.Views()[0].coins ==> c.Views() == old(c.Views())
  {
    hide AnchorsOk, NullifiersOk, OverCoins, OverAnchors, OverNullifiers, AddedTo, SpentIn;
    ghost var cache, base := c.cacheCoins, c.Below()[0].coins;
    threw := c.AddCoin(o, newer, overwrite);
    if threw { return; }
    BlindAddRevives(cache, base, o, newer, overwrite);
    AddedIsThere(cache, o, newer, overwrite);
    var _ := c.SpendCoin(o);
  }

  lemma AddedIsThere(cache: map<OutPoint, CoinEntry>, o: OutPoint, coin: Coin, overwrite: bool)
    requires !Ignored(coin)
    ensures o in AddedTo(cache, o, coin, overwrite)
  {
  }

  /** "FRESH flag misapplied" is unreachable while flags are right. */
  lemma NotMisapplied(child: map<OutPoint, CoinEntry>, cache: map<OutPoint, CoinEntry>, base: Coins)
    requires CoinsOk(cache, base) && CoinsOk(child, OverCoins(cache, base))
    ensures !Misapplied(child, cache)
  {
    forall o | o in child && child[o].isDirty && child[o].isFresh && o in cache ensures cache[o].coin.IsSpent() {
      assert CoinEntryOk(child[o], o, OverCoins(cache, base));
    }
  }

  // ---------- Whole runs ----------

  /** Every legal run of operations on a stack of caches of any depth shows, at every
      level, what the same run does to plain maps. */
  method Run(top: CoinsViewCache, ops: seq<Op>) returns (top': CoinsViewCache)
    requires top.Valid() && LegalRun(top.Views(), ops, top.db.rootOf)
    modifies top.Repr
    ensures top'.Valid() && top'.db == top.db
    ensures top'.Views() == ApplyAll(old(top.Views()), ops, top.db.rootOf)
  {
    hide LayerOk, OverCoins, OverAnchors, OverNullifiers;
    top' := top;
    for i := 0 to |ops|
      invariant top'.Valid() && top'.db == top.db && fresh(top'.Repr - top.Repr)
      invariant LegalRun(top'.Views(), ops[i..], top.db.rootOf)
      invariant ApplyAll(top'.Views(), ops[i..], top.db.rootOf) == ApplyAll(old(top.Views()), ops, top.db.rootOf)
    {
      assert ops[i..][0] == ops[i] && ops[i..][1..] == ops[i + 1..];
      top' := Perform(top', ops[i]);
    }
  }

  /** One operation on the cache in use. */
  method Perform(top: CoinsViewCache, op: Op) returns (top': CoinsViewCache)
    requires top.Valid() && Legal(top.Views(), op)
    modifies top.Repr
    ensures top'.Valid() && top'.db == top.db && fresh(top'.Repr - top.Repr)
    ensures top'.Views() == Apply(old(top.Views()), op, top.db.rootOf)
  {
    hide LayerOk, OverCoins, OverAnchors, OverNullifiers;
    top' := top;
    if IsCoinOp(op) {
      PerformCoins(top, op);
    } else if IsShieldedOp(op) {
      PerformShielded(top, op);
    } else {
      match op
      case Flush => top.Flush();
      case OpenChild => top' := new CoinsViewCache(top);
      case CloseChild => top' := top.base;
    }
  }

  predicate IsCoinOp(op: Op) {
    op.AddCoin? || op.SpendCoin? || op.HaveCoin? || op.AccessCoin? || op.Uncache? || op.GetBestBlock? ||
        op.SetBestBlock?
  }

  predicate IsShieldedOp(op: Op) {
    op.PushAnchor? || op.PopAnchor? || op.GetAnchorAt? || op.SetNullifiers? || op.GetNullifier? ||
        op.HaveShieldedRequirements?
  }

  method PerformCoins(top: CoinsViewCache, op: Op)
    requires top.Valid() && Legal(top.Views(), op) && IsCoinOp(op)
    modifies top.Repr
    ensures top.Valid() && top.Views() == Apply(old(top.Views()), op, top.db.rootOf)
  {
    hide LayerOk, OverCoins, OverAnchors, OverNullifiers;
    match op
    case AddCoin(o, coin, overwrite) => var _ := top.AddCoin(o, coin, overwrite);
    case SpendCoin(o) => var _ := top.SpendCoin(o);
    case HaveCoin(o) => var _ := top.HaveCoin(o);
    case AccessCoin(o) => var _ := top.AccessCoin(o);
    case Uncache(o) => top.Uncache(o);
    case GetBestBlock => var _ := top.GetBestBlock();
    case SetBestBlock(h) => top.SetBestBlock(h);
  }

  method PerformShielded(top: CoinsViewCache, op: Op)
    requires top.Valid() && Legal(top.Views(), op) && IsShieldedOp(op)
    modifies top.Repr
    ensures top.Valid() && top.Views() == Apply(old(top.Views()), op, top.db.rootOf)
  {
    hide LayerOk, OverCoins, OverAnchors, OverNullifiers;
    match op
    case PushAnchor(tree) => top.PushAnchor(tree);
    case PopAnchor(rt) => top.PopAnchor(rt);
    case GetAnchorAt(rt) => var _, _ := top.GetSaplingAnchorAt(rt);
    case SetNullifiers(tx, spent) => top.SetNullifiers(tx, spent);
    case GetNullifier(n) => var _ := top.GetNullifier(n);
    case HaveShieldedRequirements(tx) => var _ := top.HaveShieldedRequirements(tx);
  }
}
