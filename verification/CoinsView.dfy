/** The unspent-output view that a stack of write-back caches must present
    (src/coins.h, src/coins.cpp): coins, Sapling anchors, nullifiers and the two
    best hashes, first as plain maps, then as one cache layer over a base view. */
module CoinsView {

  // A uint256; zero is the null hash.
  newtype Hash = x: int | 0 <= x
  const NULL_HASH: Hash := 0

  const MAX_SCRIPT_SIZE := 10000
  const OP_RETURN := 0x6a
  const OP_ZEROCOINMINT := 0xc1

  datatype OutPoint = OutPoint(hash: Hash, n: nat)

  datatype TxOut = TxOut(value: int, script: seq<nat>) {
    predicate IsNull() { value == -1 }
    predicate IsUnspendable() {
      (|script| > 0 && script[0] == OP_RETURN) || |script| > MAX_SCRIPT_SIZE
    }
    predicate IsZerocoinMint() { |script| > 0 && script[0] == OP_ZEROCOINMINT }
  }

  datatype Coin = Coin(out: TxOut, height: nat, coinBase: bool, coinStake: bool) {
    predicate IsSpent() { out.IsNull() }
  }

  // What Coin::Clear() and the default constructor produce.
  const COIN_EMPTY := Coin(TxOut(-1, []), 0, false, false)

  datatype CoinEntry = CoinEntry(coin: Coin, isDirty: bool, isFresh: bool)

  // A note commitment tree; its root hash is computed by a function handed to the database.
  datatype SaplingTree = SaplingTree(leaves: seq<Hash>)
  const EMPTY_TREE := SaplingTree([])

  datatype AnchorEntry = AnchorEntry(entered: bool, tree: SaplingTree, isDirty: bool)

  datatype NullifierEntry = NullifierEntry(entered: bool, isDirty: bool)

  datatype SpendDescription = SpendDescription(nullifier: Hash, anchor: Hash)

  // `spends` is tx.sapData->vShieldedSpend, empty when there is no sapData.
  datatype Tx = Tx(hasSapData: bool, shielded: bool, spends: seq<SpendDescription>) {
    // IsShieldedTx() implies that sapData is present, and spends live in sapData.
    predicate Valid() { (shielded ==> hasSapData) && (!hasSapData ==> spends == []) }
  }

  type Coins = map<OutPoint, Coin>
  type Anchors = map<Hash, SaplingTree>

  /** What one view of the stack shows.  `block` and `anchor` are the view's own
      hashes: null means "ask the base". */
  datatype View = View(coins: Coins, anchors: Anchors, nullifiers: set<Hash>, block: Hash, anchor: Hash)

  /** The fields of one CCoinsViewCache. */
  datatype Layer = Layer(coins: map<OutPoint, CoinEntry>, anchors: map<Hash, AnchorEntry>,
                         nullifiers: map<Hash, NullifierEntry>, block: Hash, anchor: Hash)

  // ---------- Coins ----------

  function Lookup(v: Coins, o: OutPoint): Coin {
    if o in v then v[o] else COIN_EMPTY
  }

  ghost predicate AllUnspent(v: Coins) {
    forall o :: o in v ==> !v[o].IsSpent()
  }

  /** Two plain views that answer every AccessCoin alike are the same map. */
  lemma LookupDeterminesView(a: Coins, b: Coins)
    requires AllUnspent(a) && AllUnspent(b)
    requires forall o :: Lookup(a, o) == Lookup(b, o)
    ensures a == b
  {
    forall o ensures o in a <==> o in b {
      assert Lookup(a, o) == Lookup(b, o);
    }
    forall o | o in a ensures a[o] == b[o] {
      assert Lookup(a, o) == Lookup(b, o);
    }
  }

  function SetCoin(v: Coins, o: OutPoint, c: Coin): Coins {
    if c.IsSpent() then v - {o} else v[o := c]
  }

  /** The flag meanings of src/coins.h: DIRTY may differ from the base view, FRESH
      says the base view has no unspent coin there, no flag says it equals the base. */
  ghost predicate CoinEntryOk(e: CoinEntry, o: OutPoint, base: Coins) {
    && (e.coin.IsSpent() ==> e.coin == COIN_EMPTY)
    && (e.isFresh ==> o !in base)
    && (!e.isDirty ==> e.coin == Lookup(base, o) && (o !in base ==> e.isFresh))
  }

  ghost predicate CoinsOk(cache: map<OutPoint, CoinEntry>, base: Coins) {
    && AllUnspent(base)
    && forall o :: o in cache ==> CoinEntryOk(cache[o], o, base)
  }

  function OverCoins(cache: map<OutPoint, CoinEntry>, base: Coins): Coins {
    map o | o in cache.Keys + base.Keys && (o in cache ==> !cache[o].coin.IsSpent())
      :: if o in cache then cache[o].coin else base[o]
  }

  lemma OverCoinsLookup(cache: map<OutPoint, CoinEntry>, base: Coins)
    requires CoinsOk(cache, base)
    ensures AllUnspent(OverCoins(cache, base))
    ensures forall o :: Lookup(OverCoins(cache, base), o) == if o in cache then cache[o].coin else Lookup(base, o)
  {
    forall o ensures Lookup(OverCoins(cache, base), o) == if o in cache then cache[o].coin else Lookup(base, o) {
      if o in cache { assert CoinEntryOk(cache[o], o, base); }
    }
  }

  /** Replacing one cache entry changes the view at that outpoint only. */
  lemma OverCoinsUpdate(cache: map<OutPoint, CoinEntry>, base: Coins, o: OutPoint, e: CoinEntry)
    requires CoinsOk(cache, base) && CoinEntryOk(e, o, base)
    ensures CoinsOk(cache[o := e], base)
    ensures OverCoins(cache[o := e], base) == SetCoin(OverCoins(cache, base), o, e.coin)
  {
    OverCoinsLookup(cache, base);
    OverCoinsLookup(cache[o := e], base);
    LookupDeterminesView(OverCoins(cache[o := e], base), SetCoin(OverCoins(cache, base), o, e.coin));
  }

  /** Dropping an entry whose base has nothing unspent there removes the coin from the view. */
  lemma OverCoinsErase(cache: map<OutPoint, CoinEntry>, base: Coins, o: OutPoint)
    requires CoinsOk(cache, base)
    ensures CoinsOk(cache - {o}, base)
    ensures o !in base ==> OverCoins(cache - {o}, base) == OverCoins(cache, base) - {o}
    ensures o in cache && !cache[o].isDirty && !cache[o].isFresh ==>
             OverCoins(cache - {o}, base) == OverCoins(cache, base)
  {
    OverCoinsLookup(cache, base);
    OverCoinsLookup(cache - {o}, base);
    if o !in base {
      LookupDeterminesView(OverCoins(cache - {o}, base), OverCoins(cache, base) - {o});
    } else if o in cache && !cache[o].isDirty {
      assert CoinEntryOk(cache[o], o, base);
      LookupDeterminesView(OverCoins(cache - {o}, base), OverCoins(cache, base));
    }
  }

  // ---------- Sapling anchors ----------

  /** The root hash separates trees: collision freedom of the commitment tree's hash. */
  ghost predicate Injective(rootOf: SaplingTree -> Hash) {
    forall a, b :: rootOf(a) == rootOf(b) ==> a == b
  }

  // A root function that separates all trees: the leaves as one number, a bit run per leaf.
  function Shifted(h: nat, rest: nat): (r: nat)
    ensures r > 0
  {
    if h == 0 then 2 * rest + 1 else 2 * Shifted(h - 1, rest)
  }

  function LeavesCode(leaves: seq<Hash>): nat {
    if leaves == [] then 0 else Shifted(leaves[0] as nat, LeavesCode(leaves[1..]))
  }

  function TreeCode(tree: SaplingTree): Hash { LeavesCode(tree.leaves) as Hash }

  lemma {:induction false} ShiftedInjective(h: nat, a: nat, g: nat, b: nat)
    requires Shifted(h, a) == Shifted(g, b)
    ensures h == g && a == b
  {
    if h > 0 && g > 0 { ShiftedInjective(h - 1, a, g - 1, b); }
  }

  lemma {:induction false} LeavesCodeInjective(a: seq<Hash>, b: seq<Hash>)
    requires LeavesCode(a) == LeavesCode(b)
    ensures a == b
  {
    if a != [] && b != [] {
      ShiftedInjective(a[0] as nat, LeavesCode(a[1..]), b[0] as nat, LeavesCode(b[1..]));
      LeavesCodeInjective(a[1..], b[1..]);
      assert a == [a[0]] + a[1..] && b == [b[0]] + b[1..];
    }
  }

  /** The assumption on roots can be met. */
  lemma InjectiveRootExists()
    ensures Injective(TreeCode)
  {
    forall a, b | TreeCode(a) == TreeCode(b) ensures a == b {
      LeavesCodeInjective(a.leaves, b.leaves);
    }
  }

  ghost predicate Rooted(v: Anchors, rootOf: SaplingTree -> Hash) {
    forall rt :: rt in v ==> rootOf(v[rt]) == rt
  }

  ghost predicate AnchorEntryOk(e: AnchorEntry, rt: Hash, base: Anchors, rootOf: SaplingTree -> Hash) {
    && rootOf(e.tree) == rt
    && (!e.isDirty ==> e.entered && rt in base && base[rt] == e.tree)
  }

  ghost predicate AnchorsOk(cache: map<Hash, AnchorEntry>, base: Anchors, rootOf: SaplingTree -> Hash) {
    && Rooted(base, rootOf)
    && forall rt :: rt in cache ==> AnchorEntryOk(cache[rt], rt, base, rootOf)
  }

  function OverAnchors(cache: map<Hash, AnchorEntry>, base: Anchors): Anchors {
    map rt | rt in cache.Keys + base.Keys && (rt in cache ==> cache[rt].entered)
      :: if rt in cache then cache[rt].tree else base[rt]
  }

  function SetAnchor(v: Anchors, rt: Hash, entered: bool, tree: SaplingTree): Anchors {
    if entered then v[rt := tree] else v - {rt}
  }

  // ---------- Nullifiers ----------

  ghost predicate NullifiersOk(cache: map<Hash, NullifierEntry>, base: set<Hash>) {
    forall n :: n in cache && !cache[n].isDirty ==> (cache[n].entered <==> n in base)
  }

  function OverNullifiers(cache: map<Hash, NullifierEntry>, base: set<Hash>): set<Hash> {
    set n | n in cache.Keys + base && (n in cache ==> cache[n].entered)
  }

  function SetNullifier(v: set<Hash>, n: Hash, spent: bool): set<Hash> {
    if spent then v + {n} else v - {n}
  }

  // ---------- One layer over a view ----------

  ghost predicate LayerOk(l: Layer, base: View, rootOf: SaplingTree -> Hash) {
    && CoinsOk(l.coins, base.coins)
    && AnchorsOk(l.anchors, base.anchors, rootOf)
    && NullifiersOk(l.nullifiers, base.nullifiers)
  }

  function Over(l: Layer, base: View): View {
    View(OverCoins(l.coins, base.coins), OverAnchors(l.anchors, base.anchors),
         OverNullifiers(l.nullifiers, base.nullifiers), l.block, l.anchor)
  }

  /** A freshly constructed or flushed cache shows its base. */
  lemma OverEmptyLayer(l: Layer, base: View, rootOf: SaplingTree -> Hash)
    requires l.coins == map[] && l.anchors == map[] && l.nullifiers == map[]
    requires AllUnspent(base.coins) && Rooted(base.anchors, rootOf)
    ensures LayerOk(l, base, rootOf)
    ensures Over(l, base) == base.(block := l.block, anchor := l.anchor)
  {
    assert OverCoins(l.coins, base.coins) == base.coins;
    assert OverAnchors(l.anchors, base.anchors) == base.anchors;
    assert OverNullifiers(l.nullifiers, base.nullifiers) == base.nullifiers;
  }

  lemma OverOk(l: Layer, base: View, rootOf: SaplingTree -> Hash)
    requires LayerOk(l, base, rootOf)
    ensures AllUnspent(Over(l, base).coins) && Rooted(Over(l, base).anchors, rootOf)
  {
    OverCoinsLookup(l.coins, base.coins);
    forall rt | rt in OverAnchors(l.anchors, base.anchors)
      ensures rootOf(OverAnchors(l.anchors, base.anchors)[rt]) == rt
    {
      if rt in l.anchors { assert AnchorEntryOk(l.anchors[rt], rt, base.anchors, rootOf); }
    }
  }

}
