/** The reference behaviour of a stack of coin views: a sequence of plain views, the
    one in use first and the database last.  CoinsCache.dfy shows that the caches refine it. */
module CoinsSpec {
  import opened CoinsView

  // At least one cache above the database.
  type Views = vs: seq<View> | |vs| >= 2 witness [EMPTY_VIEW, EMPTY_VIEW]
  const EMPTY_VIEW := View(map[], map[], {}, NULL_HASH, NULL_HASH)

  // ---------- Best hashes: the first non-null one going down ----------

  function BestBlock(vs: seq<View>): Hash
    requires |vs| >= 1
  {
    if |vs| == 1 || vs[0].block != NULL_HASH then vs[0].block else BestBlock(vs[1..])
  }

  function BestAnchor(vs: seq<View>): Hash
    requires |vs| >= 1
  {
    if |vs| == 1 || vs[0].anchor != NULL_HASH then vs[0].anchor else BestAnchor(vs[1..])
  }

  /** Reading the best block fills in the null hashes passed on the way. */
  function MemoBlock(vs: seq<View>): (r: seq<View>)
    requires |vs| >= 1
    ensures |r| == |vs| && r[0].block == BestBlock(vs)
  {
    if |vs| == 1 || vs[0].block != NULL_HASH then vs
    else var rest := MemoBlock(vs[1..]); [vs[0].(block := rest[0].block)] + rest
  }

  function MemoAnchor(vs: seq<View>): (r: seq<View>)
    requires |vs| >= 1
    ensures |r| == |vs| && r[0].anchor == BestAnchor(vs)
  {
    if |vs| == 1 || vs[0].anchor != NULL_HASH then vs
    else var rest := MemoAnchor(vs[1..]); [vs[0].(anchor := rest[0].anchor)] + rest
  }

  // ---------- Operations on the stack of views ----------

  predicate Ignored(c: Coin) {
    c.out.IsUnspendable() || c.out.IsZerocoinMint()
  }

  datatype Op =
    | AddCoin(o: OutPoint, coin: Coin, overwrite: bool)
    | SpendCoin(o: OutPoint)
    | HaveCoin(o: OutPoint)
    | AccessCoin(o: OutPoint)
    | Uncache(o: OutPoint)
    | GetBestBlock
    | SetBestBlock(h: Hash)
    | PushAnchor(tree: SaplingTree)
    | PopAnchor(rt: Hash)
    | GetAnchorAt(rt: Hash)
    | SetNullifiers(tx: Tx, spent: bool)
    | GetNullifier(n: Hash)
    | HaveShieldedRequirements(tx: Tx)
    | Flush
    | OpenChild      // construct a new CCoinsViewCache over the current one
    | CloseChild     // let the current cache go out of scope

  function WithTop(vs: seq<View>, v: View): (r: seq<View>)
    requires |vs| >= 1
    ensures |r| == |vs|
  {
    [v] + vs[1..]
  }

  function MarkAll(v: set<Hash>, spends: seq<SpendDescription>, spent: bool): set<Hash>
    decreases spends
  {
    if spends == [] then v
    else MarkAll(SetNullifier(v, spends[0].nullifier, spent), spends[1..], spent)
  }

  function Push(vs: Views, tree: SaplingTree, rt: Hash): Views {
    var ws := MemoAnchor(vs);
    if ws[0].anchor == rt then ws
    else WithTop(ws, ws[0].(anchors := ws[0].anchors[rt := tree], anchor := rt))
  }

  function Pop(vs: Views, rt: Hash): Views {
    var ws := MemoAnchor(vs);
    if ws[0].anchor == rt then ws
    else WithTop(ws, ws[0].(anchors := ws[0].anchors - {ws[0].anchor}, anchor := rt))
  }

  /** Flush hands the view to the base as it is.  The database keeps the empty tree
      whatever is written, and keeps its best anchor when handed a null one. */
  function Flushed(vs: Views, emptyRoot: Hash): Views {
    var v := vs[0];
    if |vs| > 2 then [v, v] + vs[2..]
    else
      var d := v.(anchors := v.anchors[emptyRoot := EMPTY_TREE]);
      [d, if v.anchor == NULL_HASH then d.(anchor := vs[1].anchor) else d]
  }

  /** What the source demands of the caller of each operation. */
  predicate Legal(vs: Views, op: Op) {
    match op
    case AddCoin(o, coin, overwrite) =>
      !coin.IsSpent() && (!overwrite && !Ignored(coin) ==> o !in vs[0].coins)
    case PopAnchor(rt) => BestAnchor(vs) != rt ==> BestAnchor(vs) in vs[0].anchors
    case SetNullifiers(tx, _) => tx.Valid()
    case HaveShieldedRequirements(tx) => tx.Valid()
    case Flush => |vs| == 2 ==> vs[0].block != NULL_HASH
    case CloseChild => |vs| > 2
    case _ => true
  }

  function Apply(vs: Views, op: Op, rootOf: SaplingTree -> Hash): Views
    requires Legal(vs, op)
  {
    var v := vs[0];
    match op
    case AddCoin(o, coin, _) =>
      if Ignored(coin) then vs else WithTop(vs, v.(coins := v.coins[o := coin]))
    case SpendCoin(o) => WithTop(vs, v.(coins := v.coins - {o}))
    case GetBestBlock => MemoBlock(vs)
    case SetBestBlock(h) => WithTop(vs, v.(block := h))
    case PushAnchor(tree) => Push(vs, tree, rootOf(tree))
    case PopAnchor(rt) => Pop(vs, rt)
    case SetNullifiers(tx, spent) => WithTop(vs, v.(nullifiers := MarkAll(v.nullifiers, tx.spends, spent)))
    case Flush => Flushed(vs, rootOf(EMPTY_TREE))
    case OpenChild => [v.(block := NULL_HASH, anchor := NULL_HASH)] + vs
    case CloseChild => vs[1..]
    case HaveCoin(_) => vs
    case AccessCoin(_) => vs
    case Uncache(_) => vs
    case GetAnchorAt(_) => vs
    case GetNullifier(_) => vs
    case HaveShieldedRequirements(_) => vs
  }

  predicate LegalRun(vs: Views, ops: seq<Op>, rootOf: SaplingTree -> Hash)
    decreases ops
  {
    ops == [] || (Legal(vs, ops[0]) && LegalRun(Apply(vs, ops[0], rootOf), ops[1..], rootOf))
  }

  function ApplyAll(vs: Views, ops: seq<Op>, rootOf: SaplingTree -> Hash): Views
    requires LegalRun(vs, ops, rootOf)
    decreases ops
  {
    if ops == [] then vs else ApplyAll(Apply(vs, ops[0], rootOf), ops[1..], rootOf)
  }

  // ---------- Properties of the reference ----------

  lemma {:induction false} MemoKeepsBest(vs: seq<View>)
    requires |vs| >= 1
    ensures BestAnchor(MemoAnchor(vs)) == BestAnchor(vs)
    ensures MemoAnchor(vs)[0].coins == vs[0].coins
    ensures MemoAnchor(vs)[0].anchors == vs[0].anchors
    ensures MemoAnchor(vs)[0].nullifiers == vs[0].nullifiers
    ensures BestBlock(MemoAnchor(vs)) == BestBlock(vs)
  {
    if !(|vs| == 1 || vs[0].anchor != NULL_HASH) {
      MemoKeepsBest(vs[1..]);
      var rest := MemoAnchor(vs[1..]);
      assert MemoAnchor(vs)[1..] == rest;
    }
  }

  /** What a reader sees of PushAnchor and PopAnchor: the root given is the best anchor, a pushed one leads to its tree
      unless it was best before, a popped best one leads nowhere, and no other root changes. */
  lemma PushPopEffect(vs: Views, tree: SaplingTree, rt: Hash, other: Hash)
    requires rt != NULL_HASH && other != rt && other != BestAnchor(vs)
    ensures var push, pop, best := Push(vs, tree, rt), Pop(vs, rt), BestAnchor(vs);
            && BestAnchor(push) == BestAnchor(pop) == rt
            && (best != rt ==> rt in push[0].anchors && push[0].anchors[rt] == tree && best !in pop[0].anchors)
            && (best in push[0].anchors <==> best in vs[0].anchors) && (rt in pop[0].anchors <==> rt in vs[0].anchors)
            && (other in push[0].anchors) == (other in vs[0].anchors) == (other in pop[0].anchors)
            && (other in vs[0].anchors ==> push[0].anchors[other] == pop[0].anchors[other] == vs[0].anchors[other])
  {
    MemoKeepsBest(vs);
  }

  /** PopAnchor back to the previous root undoes PushAnchor exactly when the pushed
      root was the best anchor already or was not an anchor of the view yet. */
  lemma PopUndoesPush(vs: Views, tree: SaplingTree, rt: Hash)
    requires BestAnchor(vs) != NULL_HASH && rt != NULL_HASH
    ensures var after := Pop(Push(vs, tree, rt), BestAnchor(vs));
            && BestAnchor(after) == BestAnchor(vs)
            && after[0].coins == vs[0].coins && after[0].nullifiers == vs[0].nullifiers
            && (after[0].anchors == vs[0].anchors <==> rt == BestAnchor(vs) || rt !in vs[0].anchors)
  {
    MemoKeepsBest(vs);
    var ws := MemoAnchor(vs);
    var ps := Push(vs, tree, rt);
    assert MemoAnchor(ps) == ps;
    if rt != BestAnchor(vs) {
      assert ps[0].anchors == vs[0].anchors[rt := tree];
      var after := Pop(ps, BestAnchor(vs));
      assert after[0].anchors == vs[0].anchors[rt := tree] - {rt};
      if rt in vs[0].anchors {
        assert rt !in after[0].anchors;
      } else {
        assert after[0].anchors == vs[0].anchors;
      }
    }
  }

  /** Flush keeps the best block seen from the top unless a null hash is copied over a
      parent whose own block differs from the one below it (src/coins.cpp:302-304). */
  lemma FlushKeepsBestBlockIff(vs: Views, emptyRoot: Hash)
    requires Legal(vs, Flush)
    ensures BestBlock(Flushed(vs, emptyRoot)) == BestBlock(vs)
            <==> vs[0].block != NULL_HASH || BestBlock(vs[1..]) == BestBlock(vs[2..])
  {
    var fs := Flushed(vs, emptyRoot);
    if vs[0].block == NULL_HASH {
      assert |vs| > 2;
      assert BestBlock(vs) == BestBlock(vs[1..]);
      assert fs[1..] == [vs[0]] + vs[2..];
      assert fs[1..][1..] == vs[2..];
      assert BestBlock(fs) == BestBlock(fs[1..]) == BestBlock(vs[2..]);
    }
  }

  lemma FlushKeepsBestAnchorIff(vs: Views, emptyRoot: Hash)
    requires Legal(vs, Flush)
    ensures BestAnchor(Flushed(vs, emptyRoot)) == BestAnchor(vs)
            <==> vs[0].anchor != NULL_HASH || |vs| == 2 || BestAnchor(vs[1..]) == BestAnchor(vs[2..])
  {
    var fs := Flushed(vs, emptyRoot);
    if vs[0].anchor == NULL_HASH {
      assert BestAnchor(vs) == BestAnchor(vs[1..]);
      if |vs| > 2 {
        assert fs[1..] == [vs[0]] + vs[2..];
        assert fs[1..][1..] == vs[2..];
        assert BestAnchor(fs) == BestAnchor(fs[1..]) == BestAnchor(vs[2..]);
      } else {
        assert fs[1..] == [fs[1]];
      }
    }
  }

  /** The anchors seen from the top survive a Flush exactly when the base is not the
      database or the view still holds the empty tree at its root. */
  lemma FlushKeepsAnchorsIff(vs: Views, emptyRoot: Hash, rootOf: SaplingTree -> Hash)
    requires Rooted(vs[0].anchors, rootOf) && Injective(rootOf) && emptyRoot == rootOf(EMPTY_TREE)
    ensures Flushed(vs, emptyRoot)[0].anchors == vs[0].anchors <==> |vs| > 2 || emptyRoot in vs[0].anchors
    ensures Flushed(vs, emptyRoot)[0].coins == Flushed(vs, emptyRoot)[1].coins == vs[0].coins
    ensures Flushed(vs, emptyRoot)[0].nullifiers == Flushed(vs, emptyRoot)[1].nullifiers == vs[0].nullifiers
    ensures Flushed(vs, emptyRoot)[0].anchors == Flushed(vs, emptyRoot)[1].anchors
  {
    if |vs| == 2 && emptyRoot in vs[0].anchors {
      assert rootOf(vs[0].anchors[emptyRoot]) == rootOf(EMPTY_TREE);
      assert vs[0].anchors[emptyRoot := EMPTY_TREE] == vs[0].anchors;
    }
  }

  /** After a legal Flush the base by itself answers everything as the flushed view does, and nothing below it has
      changed. */
  lemma FlushedBaseAgrees(vs: Views, emptyRoot: Hash)
    requires Legal(vs, Flush)
    ensures var fs := Flushed(vs, emptyRoot);
            && |fs| == |vs| && fs[2..] == vs[2..]
            && BestBlock(fs[1..]) == BestBlock(fs) && BestAnchor(fs[1..]) == BestAnchor(fs)
            && fs[1].coins == fs[0].coins == vs[0].coins && fs[1].nullifiers == fs[0].nullifiers == vs[0].nullifiers
            && fs[1].anchors == fs[0].anchors
    ensures |vs| == 2 ==> BestBlock(Flushed(vs, emptyRoot)[1..]) == vs[0].block
    ensures |vs| == 2 ==> BestAnchor(Flushed(vs, emptyRoot)[1..]) == BestAnchor(vs)
  {
    var fs := Flushed(vs, emptyRoot);
    assert fs[1..][0] == fs[1];
  }

  /** A best block that is set and flushed is the one that the view and its base report. */
  lemma SetThenFlush(vs: Views, h: Hash, rootOf: SaplingTree -> Hash)
    requires h != NULL_HASH
    ensures var ws := Apply(vs, SetBestBlock(h), rootOf);
            && BestBlock(ws) == h && ws[1..] == vs[1..] && Legal(ws, Flush)
            && BestBlock(Apply(ws, Flush, rootOf)) == BestBlock(Apply(ws, Flush, rootOf)[1..]) == h
  {
    var ws := Apply(vs, SetBestBlock(h), rootOf);
    FlushedBaseAgrees(ws, rootOf(EMPTY_TREE));
    FlushKeepsBestBlockIff(ws, rootOf(EMPTY_TREE));
  }

  /** What a view never stores: data carriers, oversized scripts and Zerocoin mints. */
  lemma IgnoredScripts(c: Coin)
    ensures var script := c.out.script;
            Ignored(c) <==> |script| > 10000 || (|script| > 0 && (script[0] == 0x6a || script[0] == 0xc1))
  {
  }

  // ---------- Views that are thrown away ----------

  predicate Stacks(op: Op) {
    op.Flush? || op.OpenChild? || op.CloseChild?
  }

  /** The same stack to every reader, from the second view down. */
  ghost predicate SameBelow(vs: Views, ws: Views) {
    && |ws| == |vs| && BestBlock(ws[1..]) == BestBlock(vs[1..]) && BestAnchor(ws[1..]) == BestAnchor(vs[1..])
    && forall i :: 1 <= i < |vs| ==> SameMaps(vs[i], ws[i])
  }

  predicate SameMaps(v: View, w: View) {
    w.coins == v.coins && w.anchors == v.anchors && w.nullifiers == v.nullifiers
  }

  lemma {:induction false} MemoSame(vs: seq<View>)
    requires |vs| >= 1
    ensures BestBlock(MemoBlock(vs)) == BestBlock(MemoAnchor(vs)) == BestBlock(vs)
    ensures BestAnchor(MemoBlock(vs)) == BestAnchor(MemoAnchor(vs)) == BestAnchor(vs)
    ensures forall i :: 0 <= i < |vs| ==> SameMaps(vs[i], MemoBlock(vs)[i]) && SameMaps(vs[i], MemoAnchor(vs)[i])
  {
    if |vs| > 1 {
      MemoSame(vs[1..]);
      if vs[0].block == NULL_HASH { assert MemoBlock(vs)[1..] == MemoBlock(vs[1..]); }
      if vs[0].anchor == NULL_HASH { assert MemoAnchor(vs)[1..] == MemoAnchor(vs[1..]); }
    }
  }

  lemma MemoBelow(vs: Views)
    ensures SameBelow(vs, MemoBlock(vs)) && SameBelow(vs, MemoAnchor(vs))
  {
    MemoSame(vs);
    MemoSame(vs[1..]);
    if vs[0].block == NULL_HASH { assert MemoBlock(vs)[1..] == MemoBlock(vs[1..]); }
    else { assert MemoBlock(vs) == vs; }
    if vs[0].anchor == NULL_HASH { assert MemoAnchor(vs)[1..] == MemoAnchor(vs[1..]); }
    else { assert MemoAnchor(vs) == vs; }
  }

  /** Reading and writing a view leaves all below it as they were. */
  lemma OperationBelow(vs: Views, op: Op, rootOf: SaplingTree -> Hash)
    requires Legal(vs, op) && !Stacks(op)
    ensures SameBelow(vs, Apply(vs, op, rootOf))
  {
    hide MemoAnchor, MemoBlock, BestBlock, BestAnchor, MarkAll, Ignored;
    MemoBelow(vs);
    var ws := Apply(vs, op, rootOf);
    if op.PushAnchor? || op.PopAnchor? {
      assert ws[1..] == MemoAnchor(vs)[1..];
    } else if !op.GetBestBlock? {
      assert ws[1..] == vs[1..];
    }
  }

  lemma {:induction false} RunBelow(vs: Views, ops: seq<Op>, rootOf: SaplingTree -> Hash)
    requires LegalRun(vs, ops, rootOf) && forall op :: op in ops ==> !Stacks(op)
    ensures SameBelow(vs, ApplyAll(vs, ops, rootOf))
    decreases ops
  {
    hide Apply, BestBlock, BestAnchor;
    if ops != [] {
      assert ops[0] in ops && forall op :: op in ops[1..] ==> op in ops;
      OperationBelow(vs, ops[0], rootOf);
      RunBelow(Apply(vs, ops[0], rootOf), ops[1..], rootOf);
    }
  }

  /** A scratch view: whatever is done on it, closing it without a Flush leaves every answer as it was before. */
  lemma ScratchView(vs: Views, ops: seq<Op>, rootOf: SaplingTree -> Hash)
    requires LegalRun(Apply(vs, OpenChild, rootOf), ops, rootOf) && forall op :: op in ops ==> !Stacks(op)
    ensures var ws := ApplyAll(Apply(vs, OpenChild, rootOf), ops, rootOf);
            && Legal(ws, CloseChild)
            && var us := Apply(ws, CloseChild, rootOf);
               && |us| == |vs| && BestBlock(us) == BestBlock(vs) && BestAnchor(us) == BestAnchor(vs)
               && forall i :: 0 <= i < |vs| ==> SameMaps(vs[i], us[i])
  {
    hide BestBlock, BestAnchor, ApplyAll, LegalRun;
    var os := Apply(vs, OpenChild, rootOf);
    RunBelow(os, ops, rootOf);
    var ws := ApplyAll(os, ops, rootOf);
    assert os[1..] == vs;
    forall i | 0 <= i < |vs| ensures SameMaps(vs[i], ws[1..][i]) {
      assert SameMaps(os[i + 1], ws[i + 1]);
    }
  }

  // ---------- Coins over whole runs ----------

  /** The coin at o once the run is over, going by the run alone: what the last operation on o left there. */
  function LastCoin(ops: seq<Op>, o: OutPoint, first: Coin): Coin
    decreases ops
  {
    if ops == [] then first else
      var op := ops[|ops| - 1];
      if op.AddCoin? && op.o == o && !Ignored(op.coin) then op.coin
      else if op.SpendCoin? && op.o == o then COIN_EMPTY
      else LastCoin(ops[..|ops| - 1], o, first)
  }

  lemma {:induction false} LastCoinCons(ops: seq<Op>, o: OutPoint, first: Coin)
    requires ops != []
    ensures LastCoin(ops, o, first) == LastCoin(ops[1..], o, LastCoin(ops[..1], o, first))
  {
    if |ops| > 1 {
      var most := ops[..|ops| - 1];
      LastCoinCons(most, o, first);
      assert most[..1] == ops[..1] && most[1..] == ops[1..][..|ops| - 2];
    }
  }

  lemma {:induction false} MemoKeepsCoins(vs: seq<View>)
    requires |vs| >= 1
    ensures MemoAnchor(vs)[0].coins == MemoBlock(vs)[0].coins == vs[0].coins
  {
  }

  /** Reading, flushing, uncaching, nested views, anchors and nullifiers never change a coin: as long as no view is
      thrown away, each coin seen is the one that the last AddCoin or SpendCoin on its outpoint left. */
  lemma {:induction false} CoinAfterRun(vs: Views, ops: seq<Op>, rootOf: SaplingTree -> Hash, o: OutPoint)
    requires LegalRun(vs, ops, rootOf) && forall op :: op in ops ==> !op.CloseChild?
    ensures Lookup(ApplyAll(vs, ops, rootOf)[0].coins, o) == LastCoin(ops, o, Lookup(vs[0].coins, o))
    decreases ops
  {
    if ops != [] {
      var ws, first := Apply(vs, ops[0], rootOf), Lookup(vs[0].coins, o);
      assert ops[0] in ops && forall op :: op in ops[1..] ==> op in ops;
      MemoKeepsCoins(vs);
      assert ops[..1] == [ops[0]] && ops[..1][..0] == [];
      assert Lookup(ws[0].coins, o) == LastCoin(ops[..1], o, first);
      CoinAfterRun(ws, ops[1..], rootOf, o);
      LastCoinCons(ops, o, first);
    }
  }

  lemma {:induction false} MarkAllMembership(v: set<Hash>, spends: seq<SpendDescription>, spent: bool, n: Hash)
    ensures n in MarkAll(v, spends, spent) <==>
            if exists i :: 0 <= i < |spends| && spends[i].nullifier == n then spent else n in v
    decreases spends
  {
    if spends != [] {
      var w := SetNullifier(v, spends[0].nullifier, spent);
      MarkAllMembership(w, spends[1..], spent, n);
      if exists i :: 0 <= i < |spends| && spends[i].nullifier == n {
        var i :| 0 <= i < |spends| && spends[i].nullifier == n;
        if i > 0 { assert spends[1..][i - 1].nullifier == n; }
      } else {
        assert forall i :: 0 <= i < |spends[1..]| ==> spends[1..][i] == spends[i + 1];
      }
    }
  }

  predicate Mentions(op: Op, n: Hash) {
    op.SetNullifiers? && exists i :: 0 <= i < |op.tx.spends| && op.tx.spends[i].nullifier == n
  }

  predicate Unmarks(op: Op, n: Hash) {
    Mentions(op, n) && !op.spent
  }

  /** What HaveShieldedRequirements answers on a view. */
  predicate Acceptable(v: View, tx: Tx) {
    tx.shielded ==>
      forall i :: 0 <= i < |tx.spends| ==>
        tx.spends[i].nullifier !in v.nullifiers && tx.spends[i].anchor in v.anchors
  }

  /** The k views on top have the nullifier spent. */
  ghost predicate Holds(vs: Views, n: Hash, k: nat) {
    1 <= k <= |vs| && forall i :: 0 <= i < k ==> n in vs[i].nullifiers
  }

  /** They and no other. */
  ghost predicate HoldsOnly(vs: Views, n: Hash, k: nat) {
    Holds(vs, n, k) && forall i :: k <= i < |vs| ==> n !in vs[i].nullifiers
  }

  // How many views on top hold it after an operation that does not concern it.
  function NextHeld(op: Op, k: nat): nat {
    match op
    case OpenChild => k + 1
    case Flush => if k < 2 then 2 else k
    case CloseChild => if k >= 1 then k - 1 else 0
    case _ => k
  }

  /** Counting these views, the run never closes the last one. */
  predicate ClosesSafely(ops: seq<Op>, k: nat) {
    ops == [] || ((ops[0].CloseChild? ==> k >= 2) && ClosesSafely(ops[1..], NextHeld(ops[0], k)))
  }

  lemma {:induction false} MemoKeepsNullifiers(vs: seq<View>, i: nat)
    requires i < |vs|
    ensures MemoAnchor(vs)[i].nullifiers == MemoBlock(vs)[i].nullifiers == vs[i].nullifiers
  {
    if i > 0 { MemoKeepsNullifiers(vs[1..], i - 1); }
  }

  lemma HeldStep(vs: Views, op: Op, rootOf: SaplingTree -> Hash, n: Hash, k: nat)
    requires Legal(vs, op) && Holds(vs, n, k) && !Unmarks(op, n) && (op.CloseChild? ==> k >= 2)
    ensures Holds(Apply(vs, op, rootOf), n, NextHeld(op, k))
  {
    var ws := Apply(vs, op, rootOf);
    forall i: nat | i < |vs| ensures MemoAnchor(vs)[i].nullifiers == MemoBlock(vs)[i].nullifiers == vs[i].nullifiers {
      MemoKeepsNullifiers(vs, i);
    }
    if op.SetNullifiers? { MarkAllMembership(vs[0].nullifiers, op.tx.spends, op.spent, n); }
  }

  lemma HeldOnlyStep(vs: Views, op: Op, rootOf: SaplingTree -> Hash, n: Hash, k: nat)
    requires Legal(vs, op) && HoldsOnly(vs, n, k) && !Mentions(op, n) && (op.CloseChild? ==> k >= 2)
    ensures HoldsOnly(Apply(vs, op, rootOf), n, NextHeld(op, k))
  {
    HeldStep(vs, op, rootOf, n, k);
    forall i: nat | i < |vs| ensures MemoAnchor(vs)[i].nullifiers == MemoBlock(vs)[i].nullifiers == vs[i].nullifiers {
      MemoKeepsNullifiers(vs, i);
    }
    if op.SetNullifiers? { MarkAllMembership(vs[0].nullifiers, op.tx.spends, op.spent, n); }
  }

  /** A nullifier spent in the k views on top stays spent through any run that does not unmark it and never closes
      the last view that has it, whatever else is flushed, opened and thrown away in between, so every later
      shielded transaction that reuses it is rejected. */
  lemma {:induction false} NoDoubleSpend(vs: Views, ops: seq<Op>, rootOf: SaplingTree -> Hash, n: Hash, k: nat, tx: Tx,
      i: nat)
    requires LegalRun(vs, ops, rootOf)
    requires Holds(vs, n, k) && ClosesSafely(ops, k)
    requires forall op :: op in ops ==> !Unmarks(op, n)
    requires tx.shielded && i < |tx.spends| && tx.spends[i].nullifier == n
    ensures n in ApplyAll(vs, ops, rootOf)[0].nullifiers
    ensures !Acceptable(ApplyAll(vs, ops, rootOf)[0], tx)
    decreases ops
  {
    if ops != [] {
      assert ops[0] in ops;
      HeldStep(vs, ops[0], rootOf, n, k);
      assert forall op :: op in ops[1..] ==> op in ops;
      NoDoubleSpend(Apply(vs, ops[0], rootOf), ops[1..], rootOf, n, NextHeld(ops[0], k), tx, i);
    }
  }

  /** Spent in the view in use, now and after every operation of the run. */
  predicate SpentThroughout(vs: Views, ops: seq<Op>, rootOf: SaplingTree -> Hash, n: Hash)
    requires LegalRun(vs, ops, rootOf)
    decreases ops
  {
    n in vs[0].nullifiers && (ops == [] || SpentThroughout(Apply(vs, ops[0], rootOf), ops[1..], rootOf, n))
  }

  /** The condition is exact: when no view below has the nullifier and the run does not touch it, it stays spent
      throughout exactly if the last view that has it is never closed. */
  lemma {:induction false} SpentThroughoutIff(vs: Views, ops: seq<Op>, rootOf: SaplingTree -> Hash, n: Hash, k: nat)
    requires LegalRun(vs, ops, rootOf) && HoldsOnly(vs, n, k)
    requires forall op :: op in ops ==> !Mentions(op, n)
    ensures SpentThroughout(vs, ops, rootOf, n) <==> ClosesSafely(ops, k)
    decreases ops
  {
    if ops != [] {
      assert ops[0] in ops;
      assert forall op :: op in ops[1..] ==> op in ops;
      if ops[0].CloseChild? && k < 2 {
        assert Apply(vs, ops[0], rootOf)[0] == vs[1];
      } else {
        HeldOnlyStep(vs, ops[0], rootOf, n, k);
        SpentThroughoutIff(Apply(vs, ops[0], rootOf), ops[1..], rootOf, n, NextHeld(ops[0], k));
      }
    }
  }
}
