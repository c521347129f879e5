/** Selecting mempool transactions for a block (src/blockassembler.cpp). */
module BlockSelection {
  import opened Basics

  newtype Tx = x: int | true witness 0

  /** A mempool entry as the selection sees it at the height of the new block. */
  datatype Entry = Entry(fee: int, modifiedFee: int, size: nat, sigOps: nat, shielded: bool, final: bool,
                         priority: real, score: real, parents: set<Tx>)

  type Pool = map<Tx, Entry>

  const RESERVED_SIZE := 1000
  const RESERVED_SIGOPS := 100
  const MAX_SIGOPS := 40000
  const MAX_SHIELDED_SIZE := 750000
  const FREE_THRESHOLD := 576000000.0

  ghost predicate Closed(pool: Pool) {
    forall t :: t in pool ==> pool[t].parents <= pool.Keys
  }

  function Children(pool: Pool, t: Tx): set<Tx> {
    set c | c in pool && t in pool[c].parents
  }

  // ---------- Totals over the chosen transactions ----------

  datatype Weight = Size | SigOps | Fee | ShieldedSize

  function Weigh(pool: Pool, w: Weight, t: Tx): int {
    if t !in pool then 0
    else match w
      case Size => pool[t].size
      case SigOps => pool[t].sigOps
      case Fee => pool[t].fee
      case ShieldedSize => if pool[t].shielded then pool[t].size else 0
  }

  function Total(txs: seq<Tx>, pool: Pool, w: Weight): int {
    if txs == [] then 0 else Total(txs[..|txs| - 1], pool, w) + Weigh(pool, w, txs[|txs| - 1])
  }

  lemma TotalSnoc(txs: seq<Tx>, t: Tx, pool: Pool, w: Weight)
    ensures Total(txs + [t], pool, w) == Total(txs, pool, w) + Weigh(pool, w, t)
  {
    assert (txs + [t])[..|txs|] == txs;
  }

  ghost predicate NoRepeats(txs: seq<Tx>) {
    forall i, j :: 0 <= i < j < |txs| ==> txs[i] != txs[j]
  }

  /** Every transaction comes after all of its parents. */
  ghost predicate ParentsFirst(txs: seq<Tx>, pool: Pool) {
    forall i, p :: 0 <= i < |txs| && txs[i] in pool && p in pool[txs[i]].parents ==> p in txs[..i]
  }

  lemma ParentsFirstSnoc(txs: seq<Tx>, t: Tx, pool: Pool)
    requires ParentsFirst(txs, pool) && t in pool && forall p :: p in pool[t].parents ==> p in txs
    ensures ParentsFirst(txs + [t], pool)
  {
    var after := txs + [t];
    forall i, p | 0 <= i < |after| && after[i] in pool && p in pool[after[i]].parents ensures p in after[..i] {
      if i < |txs| {
        assert after[..i] == txs[..i];
      } else {
        assert after[..i] == txs;
      }
    }
  }

  /** The chosen transactions, the set of them and the template's two lists agree. */
  ghost predicate Listed(pool: Pool, vtx: seq<Tx>, inBlock: set<Tx>, fees: seq<int>, sigOps: seq<int>) {
    && (forall t :: t in inBlock <==> t in vtx) && inBlock <= pool.Keys
    && NoRepeats(vtx) && ParentsFirst(vtx, pool)
    && |fees| == |sigOps| == |vtx|
    && forall i :: 0 <= i < |vtx| ==> fees[i] == Weigh(pool, Fee, vtx[i]) && sigOps[i] == Weigh(pool, SigOps, vtx[i])
  }

  lemma ListedSnoc(pool: Pool, vtx: seq<Tx>, inBlock: set<Tx>, fees: seq<int>, sigOps: seq<int>, t: Tx)
    requires Listed(pool, vtx, inBlock, fees, sigOps) && t in pool && t !in inBlock && pool[t].parents <= inBlock
    ensures Listed(pool, vtx + [t], inBlock + {t}, fees + [pool[t].fee], sigOps + [pool[t].sigOps])
  {
    hide ParentsFirst;
    ParentsFirstSnoc(vtx, t, pool);
  }

  /** The running counters are the totals, the shielded one after what it carries over from earlier blocks, and
      the limits hold once anything is in. */
  ghost predicate Summed(pool: Pool, vtx: seq<Tx>, size: int, sigOps: int, fees: int, count: int, shielded: int,
                         carried: int, maxSize: int)
  {
    && size == RESERVED_SIZE + Total(vtx, pool, Size)
    && sigOps == RESERVED_SIGOPS + Total(vtx, pool, SigOps)
    && fees == Total(vtx, pool, Fee) && count == |vtx|
    && shielded == carried + Total(vtx, pool, ShieldedSize) <= MAX_SHIELDED_SIZE
    && 0 <= carried && 0 <= Total(vtx, pool, ShieldedSize)
    && (vtx != [] ==> size < maxSize && sigOps < MAX_SIGOPS)
  }

  lemma SummedSnoc(pool: Pool, vtx: seq<Tx>, size: int, sigOps: int, fees: int, count: int, shielded: int,
                   carried: int, maxSize: int, t: Tx)
    requires Summed(pool, vtx, size, sigOps, fees, count, shielded, carried, maxSize) && t in pool
    requires size + pool[t].size < maxSize && sigOps + pool[t].sigOps < MAX_SIGOPS
    requires pool[t].shielded ==> shielded + pool[t].size <= MAX_SHIELDED_SIZE
    ensures Summed(pool, vtx + [t], size + pool[t].size, sigOps + pool[t].sigOps, fees + pool[t].fee, count + 1,
                   shielded + Weigh(pool, ShieldedSize, t), carried, maxSize)
  {
    hide Total;
    TotalSnoc(vtx, t, pool, Size);
    TotalSnoc(vtx, t, pool, SigOps);
    TotalSnoc(vtx, t, pool, Fee);
    TotalSnoc(vtx, t, pool, ShieldedSize);
  }

  lemma FewerLeft(all: set<Tx>, was: set<Tx>, t: Tx)
    requires t in all && t !in was
    ensures |all - (was + {t})| < |all - was|
  {
    assert all - was == all - (was + {t}) + {t};
  }

  class BlockAssembler {
    const pool: Pool
    const nBlockMaxSize: int
    const nBlockMinSize: int
    const nBlockPrioritySize: int
    const minRelayFee: nat -> int
    const saplingMaintenance: bool
    var vtx: seq<Tx>              // the mempool transactions appended so far
    var vTxFees: seq<int>
    var vTxSigOps: seq<int>
    var nBlockSize: int
    var nBlockTx: int
    var nBlockSigOps: int
    var nFees: int
    var inBlock: set<Tx>
    var lastFewTxs: int
    var blockFinished: bool
    var nSizeShielded: int
    ghost var carried: int        // the shielded size that earlier blocks have left behind

    ghost predicate Valid()
      reads this
    {
      Closed(pool) && Listed(pool, vtx, inBlock, vTxFees, vTxSigOps)
      && Summed(pool, vtx, nBlockSize, nBlockSigOps, nFees, nBlockTx, nSizeShielded, carried, nBlockMaxSize)
    }

    constructor (mempool: Pool, maxSizeArg: int, minSizeArg: int, prioritySizeArg: int, minFee: nat -> int,
                 maintenance: bool)
      requires Closed(mempool)
      ensures Valid() && vtx == [] && pool == mempool && carried == 0
      ensures nSizeShielded == 0 && minRelayFee == minFee && saplingMaintenance == maintenance
      ensures nBlockMaxSize == if maxSizeArg < 1000 then 1000 else if maxSizeArg > 1999000 then 1999000 else maxSizeArg
      ensures nBlockMinSize == if minSizeArg < nBlockMaxSize then minSizeArg else nBlockMaxSize
      ensures nBlockPrioritySize == if prioritySizeArg < nBlockMaxSize then prioritySizeArg else nBlockMaxSize
    {
      pool := mempool;
      var capped := if maxSizeArg < 2000000 - 1000 then maxSizeArg else 2000000 - 1000;
      var largest := if capped > 1000 then capped else 1000;
      nBlockMaxSize := largest;
      nBlockMinSize := if minSizeArg < largest then minSizeArg else largest;
      nBlockPrioritySize := if prioritySizeArg < largest then prioritySizeArg else largest;
      minRelayFee := minFee;
      saplingMaintenance := maintenance;
      nSizeShielded := 0;
      new;
      ResetBlock();
    }

    /** The shielded size is not reset: what it counts so far is carried over. */
    method ResetBlock()
      requires Closed(pool) && 0 <= nSizeShielded <= MAX_SHIELDED_SIZE
      modifies this
      ensures Valid() && vtx == [] && inBlock == {} && !blockFinished && lastFewTxs == 0
      ensures carried == nSizeShielded == old(nSizeShielded)
    {
      inBlock := {};
      nBlockSize := 1000;
      nBlockSigOps := 100;
      nBlockTx := 0;
      nFees := 0;
      lastFewTxs := 0;
      blockFinished := false;
      vtx, vTxFees, vTxSigOps := [], [], [];
      carried := nSizeShielded;
    }

    ghost predicate Depends(t: Tx)
      requires t in pool
      reads this`inBlock
    {
      exists p :: p in pool[t].parents && p !in inBlock
    }

    method IsStillDependent(t: Tx) returns (r: bool)
      requires t in pool
      ensures r <==> Depends(t)
    {
      var parents := pool[t].parents;
      while parents != {}
        invariant parents <= pool[t].parents
        invariant forall p :: p in pool[t].parents && p !in parents ==> p in inBlock
        decreases |parents|
      {
        ghost var some := Member(parents);
        var p :| p in parents;
        if p !in inBlock {
          return true;
        }
        parents := parents - {p};
      }
      return false;
    }

    /** What still fits: as the block grows, a transaction that does not fit never fits again. */
    predicate Fits(t: Tx)
      requires t in pool
      reads this`nBlockSize, this`nSizeShielded, this`nBlockSigOps
    {
      var e := pool[t];
      && !(e.shielded && saplingMaintenance) && nBlockSize + e.size < nBlockMaxSize
      && !(e.shielded && nSizeShielded + e.size > MAX_SHIELDED_SIZE)
      && nBlockSigOps + e.sigOps < MAX_SIGOPS && e.final
    }

    /** The same with the block's own shielded size. */
    ghost predicate FitsAlone(t: Tx)
      requires t in pool
      reads this
    {
      var e := pool[t];
      && !(e.shielded && saplingMaintenance) && nBlockSize + e.size < nBlockMaxSize
      && !(e.shielded && Total(vtx, pool, ShieldedSize) + e.size > MAX_SHIELDED_SIZE)
      && nBlockSigOps + e.sigOps < MAX_SIGOPS && e.final
    }

    /** What fits after these transactions, from their totals. */
    ghost predicate Room(before: seq<Tx>, shielded: int, u: Tx)
      requires u in pool
    {
      var e := pool[u];
      && !(e.shielded && saplingMaintenance) && e.final
      && RESERVED_SIZE + Total(before, pool, Size) + e.size < nBlockMaxSize
      && RESERVED_SIGOPS + Total(before, pool, SigOps) + e.sigOps < MAX_SIGOPS
      && (e.shielded ==> shielded + Total(before, pool, ShieldedSize) + e.size <= MAX_SHIELDED_SIZE)
    }

    /** What can come next after these transactions: all its parents are among them and there is room. */
    ghost predicate Available(before: seq<Tx>, shielded: int, u: Tx) {
      u in pool && u !in before && (forall p :: p in pool[u].parents ==> p in before) && Room(before, shielded, u)
    }

    ghost predicate BestByScore(before: seq<Tx>, shielded: int, t: Tx) {
      t in pool && forall u :: Available(before, shielded, u) ==> pool[u].score <= pool[t].score
    }

    ghost predicate BestByPriority(before: seq<Tx>, shielded: int, t: Tx) {
      t in pool && forall u :: Available(before, shielded, u) ==> pool[u].priority <= pool[t].priority
    }

    /** It pays the relay fee, or the block is below the size that is filled whatever the fees. */
    predicate Pays(before: seq<Tx>, t: Tx) {
      t in pool &&
        (pool[t].modifiedFee >= minRelayFee(pool[t].size) || RESERVED_SIZE + Total(before, pool, Size) < nBlockMinSize)
    }

    /** From the n-th on, each was the best by score of all that could come next, and pays. */
    ghost predicate ChosenByScore(txs: seq<Tx>, n: nat, shielded: int) {
      forall i :: n <= i < |txs| ==> BestByScore(txs[..i], shielded, txs[i]) && Pays(txs[..i], txs[i])
    }

    /** The first n were each the best by priority of all that could come next. */
    ghost predicate ChosenByPriority(txs: seq<Tx>, n: nat, shielded: int)
      requires n <= |txs|
    {
      forall i :: 0 <= i < n ==> BestByPriority(txs[..i], shielded, txs[i])
    }

    /** Above the free threshold, and with it there is still room for priorities. */
    predicate GoesOn(txs: seq<Tx>, t: Tx) {
      t in pool && pool[t].priority > FREE_THRESHOLD && RESERVED_SIZE + Total(txs, pool, Size) < nBlockPrioritySize
    }

    ghost predicate PriorityGoesOn(txs: seq<Tx>, n: int)
      requires n <= |txs|
    {
      forall i :: 0 <= i < n ==> GoesOn(txs[..i + 1], txs[i])
    }

    lemma ScoreSnoc(txs: seq<Tx>, n: nat, shielded: int, t: Tx)
      requires ChosenByScore(txs, n, shielded) && n <= |txs| && BestByScore(txs, shielded, t) && Pays(txs, t)
      ensures ChosenByScore(txs + [t], n, shielded)
    {
      hide BestByScore, Pays;
      var after := txs + [t];
      forall i | n <= i < |after| ensures BestByScore(after[..i], shielded, after[i]) && Pays(after[..i], after[i]) {
        assert after[..i] == if i < |txs| then txs[..i] else txs;
      }
    }

    lemma PrioritySnoc(txs: seq<Tx>, shielded: int, t: Tx)
      requires ChosenByPriority(txs, |txs|, shielded) && BestByPriority(txs, shielded, t)
      ensures ChosenByPriority(txs + [t], |txs| + 1, shielded)
    {
      hide BestByPriority;
      var after := txs + [t];
      forall i | 0 <= i < |after| ensures BestByPriority(after[..i], shielded, after[i]) {
        assert after[..i] == if i < |txs| then txs[..i] else txs;
      }
    }

    lemma PriorityGoesSnoc(txs: seq<Tx>, t: Tx)
      requires PriorityGoesOn(txs, |txs|)
      ensures PriorityGoesOn(txs + [t], |txs|)
      ensures GoesOn(txs + [t], t) ==> PriorityGoesOn(txs + [t], |txs| + 1)
    {
      hide GoesOn;
      var after := txs + [t];
      assert after[..|txs| + 1] == after;
      assert forall i :: 0 <= i <= |txs| ==> after[..i] == txs[..i];
    }

    lemma PriorityPrefix(txs: seq<Tx>, more: seq<Tx>, shielded: int)
      requires txs <= more && ChosenByPriority(txs, |txs|, shielded) && PriorityGoesOn(txs, |txs| - 1)
      ensures ChosenByPriority(more, |txs|, shielded) && PriorityGoesOn(more, |txs| - 1)
    {
      hide BestByPriority, GoesOn;
      assert forall i :: 0 <= i <= |txs| ==> more[..i] == txs[..i];
    }

    lemma FitsIsRoom(u: Tx)
      requires Valid() && u in pool
      ensures Fits(u) <==> Room(vtx, carried, u)
    {
    }

    /** The next one tried is the best by score of all that can come next. */
    lemma NextIsBest(t: Tx, waiting: set<Tx>, queue: seq<Tx>, rest: seq<Tx>)
      requires Valid() && Waits(waiting) && Accounted(waiting, queue + [t], rest) && Ahead(t, queue) && Ahead(t, rest)
      ensures BestByScore(vtx, carried, t)
    {
      hide Room, Fits, Summed;
      forall u | Available(vtx, carried, u) ensures pool[u].score <= pool[t].score {
        FitsIsRoom(u);
        assert u !in inBlock && !Depends(u);
      }
    }

    lemma PriorityIsBest(heap: seq<(real, Tx)>, at: int, waiting: map<Tx, real>)
      requires Valid() && Waits(waiting.Keys) && Accounted(waiting.Keys, TxsOf(heap), []) && 0 <= at < |heap|
      requires Separate(pool, inBlock, heap, waiting) && forall k :: 0 <= k < |heap| ==> heap[k].0 <= heap[at].0
      ensures BestByPriority(vtx, carried, heap[at].1)
    {
      hide Room, Fits, Summed;
      assert Queued(pool, inBlock, heap[at]);
      forall u | Available(vtx, carried, u) ensures pool[u].priority <= pool[heap[at].1].priority {
        FitsIsRoom(u);
        assert u !in inBlock && !Depends(u) && u in TxsOf(heap);
        var k :| 0 <= k < |heap| && heap[k].1 == u;
        assert Queued(pool, inBlock, heap[k]);
      }
    }

    /** The counter is the block's own exactly when nothing is carried over. Otherwise the block also refuses the
        shielded transactions that would fit but for what is carried over, and no others. */
    lemma CarriedRefuses(t: Tx)
      requires Valid() && t in pool
      ensures nSizeShielded == Total(vtx, pool, ShieldedSize) <==> carried == 0
      ensures Fits(t) <==> FitsAlone(t) && (pool[t].shielded ==> nSizeShielded + pool[t].size <= MAX_SHIELDED_SIZE)
      ensures carried == 0 ==> (Fits(t) <==> FitsAlone(t))
    {
    }

    predicate TooLarge(t: Tx)
      requires t in pool
      reads this
    {
      !(pool[t].shielded && saplingMaintenance) && nBlockSize + pool[t].size >= nBlockMaxSize
    }

    /** Failing to fit this one closes the block: no room, too many tries near the end, or no signature operations
        left. */
    predicate Fills(t: Tx)
      requires t in pool
      reads this
    {
      var e := pool[t];
      || (TooLarge(t) && (nBlockSize > nBlockMaxSize - 100 || lastFewTxs > 50))
      || (!TooLarge(t) && !(e.shielded && (saplingMaintenance || nSizeShielded + e.size > MAX_SHIELDED_SIZE))
          && nBlockSigOps + e.sigOps >= MAX_SIGOPS && nBlockSigOps > MAX_SIGOPS - 2)
    }

    /** The block is finished only because some transaction closes it. */
    ghost predicate Finishes()
      reads this
    {
      blockFinished ==> exists t :: t in pool && Fills(t)
    }

    method TestForBlock(t: Tx) returns (r: bool)
      requires t in pool
      modifies this`lastFewTxs, this`blockFinished
      ensures r <==> Fits(t)
      ensures blockFinished <==> old(blockFinished) || old(Fills(t))
      ensures r ==> blockFinished == old(blockFinished)
      ensures lastFewTxs == old(lastFewTxs) +
                if TooLarge(t) && !old(Fills(t)) && nBlockSize > nBlockMaxSize - 1000 then 1 else 0
      ensures (old(Valid()) ==> Valid()) && (!old(blockFinished) ==> Finishes())
      ensures old(lastFewTxs) <= 51 ==> lastFewTxs <= 51
      ensures !r && !blockFinished && !(pool[t].shielded && saplingMaintenance) && nBlockSize > nBlockMaxSize - 1000 &&
                nBlockSize + pool[t].size >= nBlockMaxSize ==>
                  nBlockSize <= nBlockMaxSize - 100 && lastFewTxs == old(lastFewTxs) + 1
    {
      var e := pool[t];
      if e.shielded && saplingMaintenance {
        return false;
      }
      if nBlockSize + e.size >= nBlockMaxSize {
        if nBlockSize > nBlockMaxSize - 100 || lastFewTxs > 50 {
          blockFinished := true;
          return false;
        }
        if nBlockSize > nBlockMaxSize - 1000 {
          lastFewTxs := lastFewTxs + 1;
        }
        return false;
      }
      if e.shielded && nSizeShielded + e.size > MAX_SHIELDED_SIZE {
        return false;
      }
      if nBlockSigOps + e.sigOps >= MAX_SIGOPS {
        if nBlockSigOps > MAX_SIGOPS - 2 {
          blockFinished := true;
          return false;
        }
        return false;
      }
      return e.final;
    }

    method AddToBlock(t: Tx)
      requires Valid() && t in pool && t !in inBlock && !Depends(t) && Fits(t)
      modifies this
      ensures Valid() && vtx == old(vtx) + [t] && inBlock == old(inBlock) + {t}
      ensures blockFinished == old(blockFinished) && lastFewTxs == old(lastFewTxs) && carried == old(carried)
      ensures nSizeShielded == old(nSizeShielded) + Weigh(pool, ShieldedSize, t)
      ensures forall u :: u in pool && !old(Fits(u)) ==> !Fits(u)
    {
      hide Listed, Summed;
      var e := pool[t];
      SummedSnoc(pool, vtx, nBlockSize, nBlockSigOps, nFees, nBlockTx, nSizeShielded, carried, nBlockMaxSize, t);
      assert pool[t].parents <= inBlock by { assert forall p :: p in pool[t].parents ==> p in inBlock; }
      ListedSnoc(pool, vtx, inBlock, vTxFees, vTxSigOps, t);
      vtx := vtx + [t];
      vTxFees := vTxFees + [e.fee];
      vTxSigOps := vTxSigOps + [e.sigOps];
      nBlockSize := nBlockSize + e.size;
      nBlockTx := nBlockTx + 1;
      nBlockSigOps := nBlockSigOps + e.sigOps;
      nFees := nFees + e.fee;
      if e.shielded {
        nSizeShielded := nSizeShielded + e.size;
      }
      inBlock := inBlock + {t};
    }

    // The highest score leaves the queue first.
    method PopScore(queue: seq<Tx>) returns (t: Tx, rest: seq<Tx>)
      requires queue != [] && forall k :: 0 <= k < |queue| ==> queue[k] in pool
      ensures t in queue && |rest| == |queue| - 1
      ensures t in pool && forall k :: 0 <= k < |rest| ==> rest[k] in pool
      ensures forall x :: x in queue <==> x == t || x in rest
      ensures forall k :: 0 <= k < |queue| ==> pool[queue[k]].score <= pool[t].score
    {
      var best := 0;
      for i := 1 to |queue|
        invariant 0 <= best < |queue| && forall k :: 0 <= k < i ==> pool[queue[k]].score <= pool[queue[best]].score
      {
        if pool[queue[i]].score > pool[queue[best]].score {
          best := i;
        }
      }
      t, rest := queue[best], queue[..best] + queue[best + 1..];
      assert queue == queue[..best] + [t] + queue[best + 1..];
    }

    // Postponed children of an added transaction are tried again.
    method ReleaseChildren(t: Tx, waiting: set<Tx>, queue: seq<Tx>) returns (waiting': set<Tx>, queue': seq<Tx>)
      requires forall k :: 0 <= k < |queue| ==> queue[k] in pool
      ensures waiting' == waiting - Children(pool, t)
      ensures forall x :: x in queue' <==> x in queue || (x in waiting && x in Children(pool, t))
      ensures forall k :: 0 <= k < |queue'| ==> queue'[k] in pool
    {
      waiting', queue' := waiting, queue;
      var children := Children(pool, t);
      while children != {}
        invariant children <= Children(pool, t)
        invariant waiting' == waiting - (Children(pool, t) - children)
        invariant forall k :: 0 <= k < |queue'| ==> queue'[k] in pool
        invariant forall x :: x in queue' <==> x in queue || (x in waiting && x in Children(pool, t) - children)
        decreases |children|
      {
        ghost var some := Member(children);
        var child :| child in children;
        if child in waiting' {
          queue' := queue' + [child];
          waiting' := waiting' - {child};
        }
        children := children - {child};
      }
    }

    /** Everything still waiting has a parent outside the block. */
    ghost predicate Waits(waiting: set<Tx>)
      reads this`inBlock
    {
      forall t :: t in waiting ==> t in pool && t !in inBlock && Depends(t)
    }

    /** A transaction is accounted for when it is in the block, waiting, still to be tried, or does not fit. */
    ghost predicate Accounted(waiting: set<Tx>, queue: seq<Tx>, rest: seq<Tx>)
      reads this`inBlock, this`nBlockSize, this`nSizeShielded, this`nBlockSigOps
    {
      forall t :: t in pool ==> t in inBlock || t in waiting || t in queue || t in rest || !Fits(t)
    }

    /** Its score is at least that of all of these. */
    ghost predicate Ahead(t: Tx, others: seq<Tx>) {
      t in pool && forall k :: 0 <= k < |others| && others[k] in pool ==> pool[others[k]].score <= pool[t].score
    }

    ghost predicate AllAhead(txs: set<Tx>, others: seq<Tx>) {
      forall t :: t in txs ==> Ahead(t, others)
    }

    // The listing by mining score.
    ghost predicate ByScore(order: seq<Tx>) {
      && (forall k :: 0 <= k < |order| ==> order[k] in pool) && (forall t :: t in pool ==> t in order)
      && forall i, j :: 0 <= i < j < |order| ==> pool[order[j]].score <= pool[order[i]].score
    }

    // A postponed transaction if there is one, else the next by score: the best of all still to be tried.
    method NextByScore(order: seq<Tx>, mi: int, queue: seq<Tx>) returns (t: Tx, mi': int, queue': seq<Tx>)
      requires 0 <= mi <= |order| && (mi < |order| || queue != []) && ByScore(order)
      requires (forall k :: 0 <= k < |queue| ==> queue[k] in pool) && AllAhead(Elements(queue), order[mi..])
      ensures mi <= mi' <= |order| && |order| - mi' + |queue'| == |order| - mi + |queue| - 1
      ensures t in pool && forall k :: 0 <= k < |queue'| ==> queue'[k] in pool
      ensures forall x :: x in queue || x in order[mi..] ==> x == t || x in queue' || x in order[mi'..]
      ensures Elements(queue') <= Elements(queue) && Ahead(t, queue') && Ahead(t, order[mi'..])
    {
      if queue == [] {
        t, mi', queue' := order[mi], mi + 1, queue;
        assert order[mi..] == [t] + order[mi'..];
      } else {
        mi' := mi;
        t, queue' := PopScore(queue);
        ElementsWithin(queue', queue, {});
        assert t in Elements(queue);
        forall k | 0 <= k < |queue'| ensures pool[queue'[k]].score <= pool[t].score {
          assert queue'[k] in queue';
          var i :| 0 <= i < |queue| && queue[i] == queue'[k];
        }
      }
    }

    function Elements(queue: seq<Tx>): set<Tx> { set x | x in queue }

    lemma ElementsWithin(queue: seq<Tx>, was: seq<Tx>, more: set<Tx>)
      requires forall x :: x in queue ==> x in was || x in more
      ensures Elements(queue) <= Elements(was) + more
    {
      forall x | x in Elements(queue) ensures x in Elements(was) + more {
        assert x in queue;
      }
    }

    lemma AheadLater(txs: set<Tx>, order: seq<Tx>, mi: int, mi': int)
      requires 0 <= mi <= mi' <= |order| && AllAhead(txs, order[mi..])
      ensures AllAhead(txs, order[mi'..])
    {
      assert order[mi'..] == order[mi..][mi' - mi..];
    }

    /** Everything else that fits and was not postponed has no higher score than the one it stopped at. */
    ghost predicate StoppedAt(t: Tx, waiting: set<Tx>)
      reads this
    {
      && t in pool && t !in inBlock && !Depends(t) && !Pays(vtx, t)
      && forall u :: u in pool && u !in inBlock && u !in waiting && Fits(u) ==> pool[u].score <= pool[t].score
    }

    lemma StopsAtBest(t: Tx, waiting: set<Tx>, queue: seq<Tx>, rest: seq<Tx>)
      requires t in pool && t !in inBlock && !Depends(t) && !Pays(vtx, t)
      requires Accounted(waiting, queue + [t], rest) && Ahead(t, queue) && Ahead(t, rest)
      ensures StoppedAt(t, waiting)
    {
      hide Fits, Depends, Pays;
    }

    /** One round of addScoreTxs for t, which is in neither queue: block it, postpone it, or find that it does not
        fit. */
    method TryScore(t: Tx, waiting: set<Tx>, queue: seq<Tx>, ghost rest: seq<Tx>)
      returns (waiting': set<Tx>, queue': seq<Tx>, stop: bool)
      requires Valid() && t in pool && Waits(waiting) && forall k :: 0 <= k < |queue| ==> queue[k] in pool
      requires Accounted(waiting, queue + [t], rest) && !blockFinished
      modifies this
      ensures Valid() && (vtx == old(vtx) || vtx == old(vtx) + [t]) && Waits(waiting') && carried == old(carried) &&
               Finishes()
      ensures forall k :: 0 <= k < |queue'| ==> queue'[k] in pool
      ensures vtx != old(vtx) ==> pool[t].modifiedFee >= minRelayFee(pool[t].size) || old(nBlockSize) < nBlockMinSize
      ensures vtx != old(vtx) ==> Pays(old(vtx), t)
      ensures stop <==> old(t !in inBlock && !Depends(t) && !Pays(vtx, t))
      ensures stop ==> vtx == old(vtx) && t !in inBlock && !Depends(t) && !Pays(vtx, t)
      ensures Accounted(waiting', if stop then queue' + [t] else queue', rest)
      ensures waiting' <= waiting + {t} && Elements(queue') <= Elements(queue) + waiting
      ensures if vtx == old(vtx) then inBlock == old(inBlock) && queue' == queue
              else old(t !in inBlock) && inBlock == old(inBlock) + {t}
    {
      hide Listed, Summed;
      SizeIsTotal();
      waiting', queue', stop := waiting, queue, false;
      if t in inBlock {
        return;
      }
      var dependent := IsStillDependent(t);
      if dependent {
        waiting' := waiting + {t};
        return;
      }
      if pool[t].modifiedFee < minRelayFee(pool[t].size) && nBlockSize >= nBlockMinSize {
        stop := true;
        return;
      }
      var fits := TestForBlock(t);
      if fits {
        ghost var was := inBlock;
        AddToBlock(t);
        waiting', queue' := ReleaseChildren(t, waiting, queue);
        ElementsWithin(queue', queue, waiting);
        StillWaiting(waiting', t, was);
      }
    }

    /** addScoreTxs. `done` is false when it stopped at a full block or a low fee rate. */
    method AddScoreTxs(order: seq<Tx>) returns (waiting: set<Tx>, done: bool)
      requires Valid() && ByScore(order) && Finishes()
      modifies this
      ensures Valid() && old(vtx) <= vtx && carried == old(carried) && Finishes()
      ensures Waits(waiting)
      ensures done ==> Accounted(waiting, [], [])
      ensures !done ==> blockFinished || exists t :: StoppedAt(t, waiting)
      ensures ChosenByScore(vtx, |old(vtx)|, carried)
    {
      hide Listed, Summed, Waits, Fits, StoppedAt, Ahead, Finishes, BestByScore, Pays, Depends, ChosenByScore;
      ChosenNone(|vtx|);
      NoneWaits();
      waiting := {};
      var queue, mi := [], 0;
      while !blockFinished && (mi < |order| || queue != [])
        invariant Valid() && old(vtx) <= vtx && carried == old(carried) && Finishes() && 0 <= mi <= |order|
        invariant Waits(waiting) && forall k :: 0 <= k < |queue| ==> queue[k] in pool
        invariant Accounted(waiting, queue, order[mi..]) && AllAhead(waiting + Elements(queue), order[mi..])
        invariant ChosenByScore(vtx, |old(vtx)|, carried)
        decreases |pool.Keys - inBlock|, |order| - mi + |queue|
      {
        var t, stop;
        ghost var mi0, known := mi, waiting + Elements(queue);
        t, mi, queue := NextByScore(order, mi, queue);
        AheadLater(known, order, mi0, mi);
        ghost var was, before := inBlock, vtx;
        NextIsBest(t, waiting, queue, order[mi..]);
        waiting, queue, stop := TryScore(t, waiting, queue, order[mi..]);
        if vtx != before { ScoreSnoc(before, |old(vtx)|, carried, t); }
        if stop {
          StopsAtBest(t, waiting, queue, order[mi..]);
          return waiting, false;
        }
        if t in inBlock && t !in was {
          FewerLeft(pool.Keys, was, t);
        }
      }
      done := !blockFinished;
    }

    lemma ChosenNone(n: nat)
      requires n == |vtx|
      ensures ChosenByScore(vtx, n, carried)
    {
    }

    lemma SizeIsTotal()
      requires Valid()
      ensures nBlockSize == RESERVED_SIZE + Total(vtx, pool, Size)
    {
    }

    lemma NoneWaits()
      ensures Waits({})
    {
    }

    lemma StillWaiting(waiting: set<Tx>, t: Tx, was: set<Tx>)
      requires inBlock == was + {t} && waiting !! Children(pool, t)
      requires forall x :: x in waiting ==>
                 x in pool && x !in was && x != t && exists p :: p in pool[x].parents && p !in was
      ensures Waits(waiting)
    {
      forall x | x in waiting ensures Depends(x) {
        var p :| p in pool[x].parents && p !in was;
        assert x !in Children(pool, t);
      }
    }

    /** It or one of its ancestors outside the block does not fit. */
    ghost predicate Starved(t: Tx, rank: Tx -> nat)
      requires t in pool && Closed(pool) && Ranked(pool, rank)
      reads this
      decreases rank(t)
    {
      !Fits(t) || exists p :: p in pool[t].parents && p !in inBlock && Starved(p, rank)
    }

    /** With no cycle among parents, a finished selection left out only what is starved. */
    lemma {:induction false} NothingForgotten(waiting: set<Tx>, t: Tx, rank: Tx -> nat)
      requires Closed(pool) && Ranked(pool, rank) && Waits(waiting) && Accounted(waiting, [], [])
      requires t in pool && t !in inBlock
      ensures Starved(t, rank)
      decreases rank(t)
    {
      if Fits(t) {
        var p :| p in pool[t].parents && p !in inBlock;
        NothingForgotten(waiting, p, rank);
      }
    }

    // ---------- By priority ----------

    // The highest priority leaves the heap first.
    method PopPriority(heap: seq<(real, Tx)>) returns (best: (real, Tx), rest: seq<(real, Tx)>)
      requires heap != []
      ensures best in heap && |rest| == |heap| - 1
      ensures forall k :: 0 <= k < |heap| ==> heap[k].0 <= best.0
      ensures exists at :: 0 <= at < |heap| && best == heap[at] && rest == heap[..at] + heap[at + 1..]
    {
      var at := 0;
      for i := 1 to |heap|
        invariant 0 <= at < |heap| && forall k :: 0 <= k < i ==> heap[k].0 <= heap[at].0
      {
        if heap[i].0 > heap[at].0 {
          at := i;
        }
      }
      best, rest := heap[at], heap[..at] + heap[at + 1..];
    }

    function TxsOf(heap: seq<(real, Tx)>): seq<Tx> {
      seq(|heap|, i requires 0 <= i < |heap| => heap[i].1)
    }

    method ReleasePriority(t: Tx, waiting: map<Tx, real>, heap: seq<(real, Tx)>)
      returns (waiting': map<Tx, real>, heap': seq<(real, Tx)>)
      requires Separate(pool, inBlock, heap, waiting)
      ensures Separate(pool, inBlock, heap', waiting')
      ensures waiting'.Keys == waiting.Keys - Children(pool, t)
      ensures forall x :: x in TxsOf(heap) || (x in waiting && x in Children(pool, t)) ==> x in TxsOf(heap')
    {
      waiting', heap' := waiting, heap;
      var children := Children(pool, t);
      while children != {}
        invariant children <= Children(pool, t) && Separate(pool, inBlock, heap', waiting')
        invariant waiting'.Keys == waiting.Keys - (Children(pool, t) - children)
        invariant forall x :: x in TxsOf(heap) || (x in waiting && x in Children(pool, t) - children) ==>
                    x in TxsOf(heap')
        decreases |children|
      {
        ghost var some := Member(children);
        var child :| child in children;
        if child in waiting' {
          PushedTxs(heap', (waiting'[child], child));
          heap' := heap' + [(waiting'[child], child)];
          waiting' := waiting' - {child};
        }
        children := children - {child};
      }
    }

    lemma PushedTxs(heap: seq<(real, Tx)>, e: (real, Tx))
      ensures TxsOf(heap + [e]) == TxsOf(heap) + [e.1]
    {
    }

    method PriorityHeap(order: seq<Tx>) returns (heap: seq<(real, Tx)>)
      requires inBlock == {} && NoRepeats(order) && forall k :: 0 <= k < |order| ==> order[k] in pool
      ensures Separate(pool, inBlock, heap, map[]) && TxsOf(heap) == order
    {
      heap := [];
      for i := 0 to |order|
        invariant |heap| == i && forall k :: 0 <= k < i ==> heap[k] == (pool[order[k]].priority, order[k])
      {
        heap := heap + [(pool[order[i]].priority, order[i])];
      }
    }

    /** Enough room taken for priorities, or only transactions below the free threshold left. */
    ghost predicate PriorityDone(t: Tx)
      reads this
    {
      t in pool && t in inBlock && (nBlockSize >= nBlockPrioritySize || pool[t].priority <= FREE_THRESHOLD)
    }

    // Accounting for t as the last one to be tried.
    lemma AccountedOne(waiting: set<Tx>, queue: seq<Tx>, t: Tx)
      requires Accounted(waiting, queue + [t], []) && t in pool
      ensures t in inBlock || !Fits(t) ==> Accounted(waiting, queue, [])
      ensures Accounted(waiting + {t}, queue, [])
    {
      hide Fits;
    }

    lemma WaitsOne(waiting: set<Tx>, t: Tx)
      requires Waits(waiting) && t in pool && t !in inBlock && Depends(t)
      ensures Waits(waiting + {t})
    {
    }

    lemma AccountedReleased(waiting: set<Tx>, queue: seq<Tx>, released: set<Tx>, queue': seq<Tx>)
      requires Accounted(waiting, queue, [])
      requires forall x :: x in queue || (x in waiting && x in released) ==> x in queue'
      ensures Accounted(waiting - released, queue', [])
    {
      hide Fits;
    }

    /** One round of addPriorityTxs for t, which has left the heap. */
    method TryPriority(priority: real, t: Tx, waiting: map<Tx, real>, heap: seq<(real, Tx)>)
      returns (waiting': map<Tx, real>, heap': seq<(real, Tx)>, stop: bool)
      requires Valid() && Separate(pool, inBlock, [(priority, t)] + heap, waiting)
      requires Waits(waiting.Keys) && Accounted(waiting.Keys, TxsOf(heap) + [t], []) && !blockFinished
      modifies this
      ensures Valid() && (vtx == old(vtx) || vtx == old(vtx) + [t]) && carried == old(carried) && Finishes()
      ensures Separate(pool, inBlock, heap', waiting')
      ensures if vtx == old(vtx) then inBlock == old(inBlock) && heap' == heap
              else old(t !in inBlock) && inBlock == old(inBlock) + {t}
      ensures vtx != old(vtx) ==> (stop <==> !GoesOn(vtx, t))
      ensures stop ==> PriorityDone(t) && vtx != old(vtx)
      ensures !stop ==> Waits(waiting'.Keys) && Accounted(waiting'.Keys, TxsOf(heap'), [])
    {
      hide Listed, Summed, TxsOf, Separate, GoesOn, PriorityDone, Accounted, Waits, Depends, Fits;
      waiting', heap', stop := waiting, heap, false;
      SeparateHead(pool, inBlock, (priority, t), heap, waiting);
      if t in inBlock {
        assert false;
      }
      var dependent := IsStillDependent(t);
      if dependent {
        waiting' := waiting[t := priority];
        assert waiting'.Keys == waiting.Keys + {t};
        AccountedOne(waiting.Keys, TxsOf(heap), t);
        WaitsOne(waiting.Keys, t);
        return;
      }
      var fits := TestForBlock(t);
      AccountedOne(waiting.Keys, TxsOf(heap), t);
      if fits {
        waiting', heap', stop := TakePriority(priority, t, waiting, heap);
      }
    }

    // It goes into the block, and its postponed children are tried again.
    method TakePriority(priority: real, t: Tx, waiting: map<Tx, real>, heap: seq<(real, Tx)>)
      returns (waiting': map<Tx, real>, heap': seq<(real, Tx)>, stop: bool)
      requires Valid() && t in pool && t !in inBlock && t !in waiting && !Depends(t) && Fits(t) &&
                priority == pool[t].priority
      requires Separate(pool, inBlock + {t}, heap, waiting)
      requires Waits(waiting.Keys) && Accounted(waiting.Keys, TxsOf(heap) + [t], []) && !blockFinished
      modifies this
      ensures Valid() && vtx == old(vtx) + [t] && inBlock == old(inBlock) + {t} && carried == old(carried) && Finishes()
      ensures Separate(pool, inBlock, heap', waiting')
      ensures stop <==> !GoesOn(vtx, t)
      ensures stop ==> PriorityDone(t)
      ensures !stop ==> Waits(waiting'.Keys) && Accounted(waiting'.Keys, TxsOf(heap'), [])
    {
      hide Listed, Summed, TxsOf, Separate;
      waiting', heap', stop := waiting, heap, false;
      ghost var was := inBlock;
      AddToBlock(t);
      SizeIsTotal();
      if nBlockSize >= nBlockPrioritySize || !(priority > FREE_THRESHOLD) {
        stop := true;
        return;
      }
      AccountedOne(waiting.Keys, TxsOf(heap), t);
      waiting', heap' := ReleasePriority(t, waiting, heap);
      AccountedReleased(waiting.Keys, TxsOf(heap), Children(pool, t), TxsOf(heap'));
      StillWaiting(waiting'.Keys, t, was);
    }

    lemma PoppedFirst(heap: seq<(real, Tx)>, at: int, waiting: map<Tx, real>)
      requires Separate(pool, inBlock, heap, waiting) && 0 <= at < |heap|
      ensures Separate(pool, inBlock, [heap[at]] + (heap[..at] + heap[at + 1..]), waiting)
      ensures forall x :: x in TxsOf(heap) ==> x in TxsOf(heap[..at] + heap[at + 1..]) + [heap[at].1]
    {
      var rest := heap[..at] + heap[at + 1..];
      forall x | x in TxsOf(heap) ensures x in TxsOf(rest) + [heap[at].1] {
        var i :| 0 <= i < |heap| && heap[i].1 == x;
        if i < at { assert TxsOf(rest)[i] == x; }
        if i > at { assert TxsOf(rest)[i - 1] == x; }
      }
    }

    /** addPriorityTxs, on a block without mempool transactions; its assertion is never reached. It ends with all
        transactions accounted for, or with the block full, or with its share of the block used. */
    method AddPriorityTxs(order: seq<Tx>) returns (waiting: map<Tx, real>, done: bool)
      requires Valid() && inBlock == {} && NoRepeats(order) && Finishes()
      requires (forall k :: 0 <= k < |order| ==> order[k] in pool) && forall t :: t in pool ==> t in order
      modifies this
      ensures Valid() && old(vtx) <= vtx && carried == old(carried) && Finishes()
      ensures done ==> Waits(waiting.Keys) && Accounted(waiting.Keys, [], [])
      ensures !done ==> nBlockPrioritySize == 0 || blockFinished || exists t :: PriorityDone(t)
      ensures ChosenByPriority(vtx, |vtx|, carried) && PriorityGoesOn(vtx, |vtx| - 1)
      ensures nBlockPrioritySize == 0 ==> vtx == []
    {
      hide Listed, Summed, Fits, Waits, PriorityDone, TxsOf, Separate, Finishes, BestByPriority, GoesOn;
      NothingYet();
      waiting, done := map[], false;
      if nBlockPrioritySize == 0 {
        return;
      }
      var heap := PriorityHeap(order);
      NoneWaits();
      NoTxs();
      assert waiting.Keys == {};
      while heap != [] && !blockFinished
        invariant Valid() && old(vtx) <= vtx && carried == old(carried) && Finishes() &&
                    Separate(pool, inBlock, heap, waiting)
        invariant Waits(waiting.Keys) && Accounted(waiting.Keys, TxsOf(heap), [])
        invariant ChosenByPriority(vtx, |vtx|, carried) && PriorityGoesOn(vtx, |vtx|)
        decreases |pool.Keys - inBlock|, |heap|
      {
        var best, rest := PopPriority(heap);
        ghost var at :| 0 <= at < |heap| && best == heap[at] && rest == heap[..at] + heap[at + 1..];
        PoppedFirst(heap, at, waiting);
        HeapMember(heap, at, waiting);
        var stop;
        ghost var was, before := inBlock, vtx;
        PriorityIsBest(heap, at, waiting);
        PrioritySnoc(vtx, carried, best.1);
        PriorityGoesSnoc(vtx, best.1);
        waiting, heap, stop := TryPriority(best.0, best.1, waiting, rest);
        if stop {
          return;
        }
        if best.1 in inBlock && best.1 !in was {
          FewerLeft(pool.Keys, was, best.1);
        }
      }
      done := !blockFinished;
    }

    lemma NothingYet()
      requires Valid() && inBlock == {}
      ensures vtx == []
    {
      hide Listed, Summed;
      if vtx != [] { FirstListed(); }
    }

    lemma FirstListed()
      requires Valid() && vtx != []
      ensures vtx[0] in inBlock
    {
    }

    lemma NoTxs()
      ensures TxsOf([]) == []
    {
    }

    lemma HeapMember(heap: seq<(real, Tx)>, at: int, waiting: map<Tx, real>)
      requires Separate(pool, inBlock, heap, waiting) && 0 <= at < |heap|
      ensures heap[at].1 in pool
    {
    }

    lemma FeesBalance()
      requires Valid()
      ensures |vTxFees| == |vtx| && Sum(vTxFees) == nFees
    {
      hide ParentsFirst, NoRepeats, Total, Sum;
      FeesTotal(pool, vtx, vTxFees);
    }

    /** The template of a proof-of-work block: n transactions by priority, then the others by score, each the best that
        could come next; the fees of the coinbase entry balance all the others. */
    method CreateNewBlock(order: seq<Tx>, byScore: seq<Tx>)
      returns (fees: seq<int>, waiting: set<Tx>, done: bool, ghost n: nat)
      requires Closed(pool) && 0 <= nSizeShielded <= MAX_SHIELDED_SIZE
      requires NoRepeats(order)
      requires (forall k :: 0 <= k < |order| ==> order[k] in pool) && forall t :: t in pool ==> t in order
      requires ByScore(byScore)
      modifies this
      ensures Valid() && Finishes() && Waits(waiting) && (done ==> Accounted(waiting, [], [])) &&
               carried == old(nSizeShielded)
      ensures !done ==> blockFinished || exists t :: StoppedAt(t, waiting)
      ensures |fees| == |vtx| + 1 && fees[0] == -nFees && fees[1..] == vTxFees && Sum(fees) == 0
      ensures n <= |vtx| && ChosenByPriority(vtx, n, carried) && PriorityGoesOn(vtx, n - 1)
      ensures ChosenByScore(vtx, n, carried)
      ensures nBlockPrioritySize == 0 ==> n == 0
    {
      hide Listed, Summed, Fits, Depends, Sum, ChosenByPriority, PriorityGoesOn, ChosenByScore;
      ResetBlock();
      var _, _ := AddPriorityTxs(order);
      n := |vtx|;
      ghost var first := vtx;
      waiting, done := AddScoreTxs(byScore);
      PriorityPrefix(first, vtx, carried);
      fees := [-1] + vTxFees;
      fees := fees[0 := -nFees];
      FeesBalance();
      assert fees == [-nFees] + vTxFees;
      SumCons(-nFees, vTxFees);
    }
  }

  function Sum(xs: seq<int>): int {
    if xs == [] then 0 else Sum(xs[..|xs| - 1]) + xs[|xs| - 1]
  }

  lemma {:induction false} SumCons(x: int, xs: seq<int>)
    ensures Sum([x] + xs) == x + Sum(xs)
  {
    if xs == [] {
      assert [x] + xs == [x] && [x][..0] == [];
    } else {
      assert ([x] + xs)[..|xs|] == [x] + xs[..|xs| - 1];
      SumCons(x, xs[..|xs| - 1]);
    }
  }

  lemma {:induction false} FeesTotal(pool: Pool, vtx: seq<Tx>, fees: seq<int>)
    requires |fees| == |vtx| && forall i :: 0 <= i < |vtx| ==> fees[i] == Weigh(pool, Fee, vtx[i])
    ensures Sum(fees) == Total(vtx, pool, Fee)
  {
    if vtx != [] { FeesTotal(pool, vtx[..|vtx| - 1], fees[..|fees| - 1]); }
  }

  /** No transaction is twice in the heap, none of the heap or the waiting map is in the block,
      and all are kept with their own priority. */
  ghost predicate Separate(pool: Pool, inBlock: set<Tx>, heap: seq<(real, Tx)>, waiting: map<Tx, real>) {
    && (forall i, j :: 0 <= i < j < |heap| ==> heap[i].1 != heap[j].1)
    && (forall i :: 0 <= i < |heap| ==> Queued(pool, inBlock, heap[i]) && heap[i].1 !in waiting)
    && (forall t :: t in waiting ==> Queued(pool, inBlock, (waiting[t], t)))
  }

  ghost predicate Queued(pool: Pool, inBlock: set<Tx>, e: (real, Tx)) {
    e.1 in pool && e.1 !in inBlock && e.0 == pool[e.1].priority
  }

  /** The head can be left out, postponed or put into the block. */
  lemma SeparateHead(pool: Pool, inBlock: set<Tx>, e: (real, Tx), heap: seq<(real, Tx)>, waiting: map<Tx, real>)
    requires Separate(pool, inBlock, [e] + heap, waiting)
    ensures Queued(pool, inBlock, e) && e.1 !in waiting
    ensures Separate(pool, inBlock, heap, waiting) && Separate(pool, inBlock, heap, waiting[e.1 := e.0])
    ensures Separate(pool, inBlock + {e.1}, heap, waiting)
  {
    var both := [e] + heap;
    assert both[0] == e && forall k :: 0 <= k < |heap| ==> both[k + 1] == heap[k];
  }

  // A shielded transaction of more than half the shielded limit that nothing else keeps out of a block.
  predicate Bulky(e: Entry) {
    && e.shielded && e.final && e.parents == {} && e.modifiedFee >= 0
    && MAX_SHIELDED_SIZE < 2 * e.size <= 2 * MAX_SHIELDED_SIZE && RESERVED_SIGOPS + e.sigOps < MAX_SIGOPS
  }

  /** A largest block without fee limit over a pool with this one transaction. */
  ghost predicate OnlyFor(a: BlockAssembler, t: Tx, e: Entry)
    reads a
  {
    a.Valid() && a.pool == map[t := e] && a.nBlockMaxSize == 1999000 && a.minRelayFee(e.size) == 0 &&
        !a.saplingMaintenance
  }

  lemma AloneInBlock(a: BlockAssembler, t: Tx, e: Entry)
    requires OnlyFor(a, t, e)
    ensures a.vtx == [] || a.vtx == [t]
  {
    hide Summed;
    if a.vtx != [] {
      var last := |a.vtx| - 1;
      assert a.vtx[0] in a.inBlock && a.vtx[last] in a.inBlock;
      assert a.vtx[0] == a.vtx[last] == t;
    }
  }

  lemma AloneTotals(t: Tx, e: Entry)
    ensures forall w :: Total([], map[t := e], w) == 0
    ensures Total([t], map[t := e], ShieldedSize) == if e.shielded then e.size else 0
  {
    TotalSnoc([], t, map[t := e], ShieldedSize);
    assert [] + [t] == [t];
  }

  lemma BulkyIsTaken(a: BlockAssembler, t: Tx, e: Entry, waiting: set<Tx>, done: bool)
    requires Bulky(e) && OnlyFor(a, t, e) && a.carried == 0 && a.Finishes() && a.Waits(waiting)
    requires if done then a.Accounted(waiting, [], []) else a.blockFinished || exists t :: a.StoppedAt(t, waiting)
    ensures a.vtx == [t] && a.nSizeShielded == e.size
  {
    hide Listed, Total;
    AloneInBlock(a, t, e);
    AloneTotals(t, e);
    assert t in a.inBlock <==> t in a.vtx by { AloneListed(a, t, e); }
  }

  lemma AloneListed(a: BlockAssembler, t: Tx, e: Entry)
    requires OnlyFor(a, t, e)
    ensures t in a.inBlock <==> t in a.vtx
  {
  }

  lemma BulkyIsRefused(a: BlockAssembler, t: Tx, e: Entry)
    requires Bulky(e) && OnlyFor(a, t, e) && a.carried == e.size
    ensures a.vtx == [] && a.FitsAlone(t) && !a.Fits(t)
  {
    hide Listed, Total;
    AloneInBlock(a, t, e);
    AloneTotals(t, e);
  }

  /** What is carried over at work: two blocks in a row on one assembler. The first takes the transaction; the
      second is empty and refuses it, though it fits that block. */
  method TwoBlocks(t: Tx, e: Entry) returns (a: BlockAssembler, first: seq<Tx>, second: seq<Tx>)
    requires Bulky(e)
    ensures first == [t] && second == a.vtx == [] && OnlyFor(a, t, e) && a.FitsAlone(t) && !a.Fits(t)
  {
    hide Listed, Total, BlockAssembler.Fits, BlockAssembler.FitsAlone, BlockAssembler.StoppedAt,
        BlockAssembler.Finishes;
    a := new BlockAssembler(map[t := e], 1999000, 0, 0, _ => 0, false);
    var _, waiting, done, _ := a.CreateNewBlock([t], [t]);
    BulkyIsTaken(a, t, e, waiting, done);
    first := a.vtx;
    var _, _, _, _ := a.CreateNewBlock([t], [t]);
    BulkyIsRefused(a, t, e);
    second := a.vtx;
  }

  /** Parents rank below their children: there is no cycle. */
  ghost predicate Ranked(pool: Pool, rank: Tx -> nat) {
    forall t, p :: t in pool && p in pool[t].parents ==> rank(p) < rank(t)
  }
}
