/** The block index skip list and the active chain (src/chain.h, src/chain.cpp). */
module Chain {
  import opened Numbers
  import opened SkipList

  // ---------- Block index entries ----------

  /** A linked entry: its parent, height, times and work never change, its skip pointer is filled in later. */
  class BlockIndex {
    const pprev: BlockIndex?
    const nHeight: int
    const nTime: int
    const nTimeMax: int
    const proof: nat             // GetBlockProof
    const nChainWork: int
    var pskip: BlockIndex?

    constructor (prev: BlockIndex?, time: int, proof: nat)
      ensures pprev == prev && pskip == null && nTime == time && this.proof == proof
      ensures nHeight == (if prev == null then 0 else prev.nHeight + 1) && Accumulated(this)
    {
      pprev := prev;
      nHeight := if prev == null then 0 else prev.nHeight + 1;
      nTime := time;
      this.proof := proof;
      nTimeMax := if prev != null && prev.nTimeMax > time then prev.nTimeMax else time;
      nChainWork := (if prev == null then 0 else prev.nChainWork) + proof;
      pskip := null;
    }

    /** The walk along parents, in at most 1 + 2 + ... + b steps for a height below 2^b. */
    method GetAncestor(height: int, ghost tree: set<BlockIndex>) returns (r: BlockIndex?, ghost steps: nat)
      requires Grown(tree) && this in tree
      ensures height < 0 || height > nHeight <==> r == null
      ensures 0 <= height <= nHeight ==> r == Ancestor(this, height) && r in tree
      ensures forall b: nat :: nHeight < Pow(2, b) ==> steps <= Triangle(b)
    {
      hide Steps, GetSkipHeight, Pow, Triangle, Ancestor, Rooted, Grown;
      HeightInTree(tree, this);
      steps := 0;
      if height > nHeight || height < 0 {
        return null, 0;
      }
      var walk: BlockIndex := this;
      var heightWalk := nHeight;
      while heightWalk > height
        invariant walk in tree && walk.nHeight == heightWalk >= height && Rooted(walk) && Rooted(this)
        invariant Ancestor(walk, height) == Ancestor(this, height)
        invariant steps + Steps(heightWalk, height) == Steps(nHeight, height)
      {
        StepsNext(heightWalk, height);
        steps := steps + 1;
        var heightSkip := GetSkipHeight(heightWalk);
        var heightSkipPrev := GetSkipHeight(heightWalk - 1);
        if heightSkip == height ||
           (heightSkip > height && !(heightSkipPrev < heightSkip - 2 && heightSkipPrev >= height)) {
          SkipInTree(tree, walk, height);
          walk := walk.pskip;
          heightWalk := heightSkip;
        } else {
          ParentInTree(tree, walk, height);
          walk := walk.pprev;
          heightWalk := heightWalk - 1;
        }
      }
      StepsBounds(nHeight, height);
      HeightInTree(tree, walk);
      return walk, steps;
    }

    /** The parent is already in the tree; afterwards this entry may join it. */
    method BuildSkip(ghost tree: set<BlockIndex>)
      requires Grown(tree) && this !in tree && Rooted(this) && (pprev != null ==> pprev in tree)
      modifies this`pskip
      ensures Grown(tree + {this})
    {
      if pprev != null {
        AncestorInTree(tree, pprev, GetSkipHeight(nHeight));
        var a, _ := pprev.GetAncestor(GetSkipHeight(nHeight), tree);
        pskip := a;
      }
    }
  }

  /** Maximal time and work take the parent's over. */
  ghost predicate Accumulated(b: BlockIndex) {
    && b.nTimeMax == (if b.pprev != null && b.pprev.nTimeMax > b.nTime then b.pprev.nTimeMax else b.nTime)
    && b.nChainWork == (if b.pprev == null then 0 else b.pprev.nChainWork) + b.proof
  }

  /** Heights count the blocks below. */
  ghost predicate Rooted(b: BlockIndex)
    decreases b.nHeight
  {
    b.nHeight >= 0 && Accumulated(b) &&
    if b.pprev == null then b.nHeight == 0
    else b.pprev.nHeight == b.nHeight - 1 && Rooted(b.pprev)
  }

  /** nTimeMax is the latest time on the way from the first block, and nChainWork the sum of the proofs. */
  lemma {:induction false} TimeMaxMeaning(b: BlockIndex)
    requires Rooted(b)
    ensures forall h: nat :: h <= b.nHeight ==> Ancestor(b, h).nTime <= b.nTimeMax
    ensures exists h: nat :: h <= b.nHeight && Ancestor(b, h).nTime == b.nTimeMax
    decreases b.nHeight
  {
    if b.pprev == null || b.pprev.nTimeMax <= b.nTime {
      assert Ancestor(b, b.nHeight).nTime == b.nTimeMax;
    }
    if b.pprev != null {
      TimeMaxMeaning(b.pprev);
      forall h: nat | h <= b.nHeight ensures Ancestor(b, h).nTime <= b.nTimeMax {
        if h < b.nHeight { assert Ancestor(b, h) == Ancestor(b.pprev, h); }
      }
      if b.pprev.nTimeMax > b.nTime {
        var h: nat :| h <= b.pprev.nHeight && Ancestor(b.pprev, h).nTime == b.pprev.nTimeMax;
        assert Ancestor(b, h).nTime == b.nTimeMax;
      }
    }
  }

  ghost function WorkBelow(b: BlockIndex, height: nat): nat
    requires Rooted(b) && height <= b.nHeight + 1
  {
    if height == 0 then 0 else WorkBelow(b, height - 1) + Ancestor(b, height - 1).proof
  }

  lemma {:induction false} ChainWorkMeaning(b: BlockIndex, h: nat)
    requires Rooted(b) && h <= b.nHeight
    ensures Ancestor(b, h).nChainWork == WorkBelow(b, h + 1)
    decreases h
  {
    hide Rooted, Ancestor;
    AncestorAccumulates(b, h);
    if h > 0 { ChainWorkMeaning(b, h - 1); }
  }

  lemma AncestorAccumulates(b: BlockIndex, h: nat)
    requires Rooted(b) && h <= b.nHeight
    ensures Accumulated(Ancestor(b, h)) && Ancestor(b, h).pprev == if h == 0 then null else Ancestor(b, h - 1)
  {
    ParentOfAncestor(b, h);
  }

  /** The naive walk along parents. */
  ghost function Ancestor(b: BlockIndex, height: nat): (a: BlockIndex)
    requires Rooted(b) && height <= b.nHeight
    ensures Rooted(a) && a.nHeight == height
    decreases b.nHeight
  {
    if height == b.nHeight then b else Ancestor(b.pprev, height)
  }

  ghost predicate SkipOk(b: BlockIndex)
    requires Rooted(b)
    reads b
  {
    b.pprev != null ==> b.pskip == Ancestor(b.pprev, GetSkipHeight(b.nHeight))
  }

  /** A set of entries closed under parents, each with its skip pointer built. */
  ghost predicate Grown(tree: set<BlockIndex>)
    reads tree
  {
    forall b <- tree :: Rooted(b) && (b.pprev != null ==> b.pprev in tree) && SkipOk(b)
  }

  lemma {:induction false} AncestorOfAncestor(b: BlockIndex, mid: nat, height: nat)
    requires Rooted(b) && height <= mid <= b.nHeight
    ensures Ancestor(Ancestor(b, mid), height) == Ancestor(b, height)
    decreases b.nHeight
  {
    if mid < b.nHeight { AncestorOfAncestor(b.pprev, mid, height); }
  }

  lemma {:induction false} AncestorInTree(tree: set<BlockIndex>, b: BlockIndex, height: nat)
    requires Grown(tree) && b in tree && height <= b.nHeight
    ensures Ancestor(b, height) in tree
    decreases b.nHeight
  {
    if height < b.nHeight { AncestorInTree(tree, b.pprev, height); }
  }

  lemma HeightInTree(tree: set<BlockIndex>, b: BlockIndex)
    requires Grown(tree) && b in tree
    ensures b.nHeight >= 0 && Rooted(b) && Ancestor(b, b.nHeight) == b
  {
  }

  lemma ParentInTree(tree: set<BlockIndex>, b: BlockIndex, height: nat)
    requires Grown(tree) && b in tree && height < b.nHeight
    ensures Rooted(b) && b.pprev != null && b.pprev in tree && Rooted(b.pprev) && b.pprev.nHeight == b.nHeight - 1
    ensures Ancestor(b.pprev, height) == Ancestor(b, height)
  {
  }

  lemma SkipInTree(tree: set<BlockIndex>, b: BlockIndex, height: nat)
    requires Grown(tree) && b in tree && height <= GetSkipHeight(b.nHeight) < b.nHeight
    ensures Rooted(b) && b.pskip != null && b.pskip in tree && Rooted(b.pskip) &&
             b.pskip.nHeight == GetSkipHeight(b.nHeight)
    ensures Ancestor(b.pskip, height) == Ancestor(b, height)
  {
    hide GetSkipHeight;
    AncestorOfAncestor(b.pprev, GetSkipHeight(b.nHeight), height);
    AncestorInTree(tree, b.pprev, GetSkipHeight(b.nHeight));
  }

  /** mapBlockIndex: every block seen, by hash. */
  class BlockMap {
    var mapBlockIndex: map<int, BlockIndex>
    var pindexBestHeader: BlockIndex?

    ghost predicate Valid()
      reads this, mapBlockIndex.Values
    {
      Grown(mapBlockIndex.Values) && MostWork(mapBlockIndex.Values, pindexBestHeader)
    }

    constructor ()
      ensures Valid() && mapBlockIndex == map[]
    {
      mapBlockIndex := map[];
      pindexBestHeader := null;
    }

    /** A known block is returned as it is; a new one is linked to its parent, if that is known, with its skip
        pointer built and its times and work accumulated, so the tree stays one for GetAncestor and the best header
        one of most work, which only more work replaces. */
    method AddToBlockIndex(hash: int, hashPrevBlock: int, time: int, proof: nat) returns (b: BlockIndex)
      requires Valid()
      modifies this
      ensures Valid() && mapBlockIndex == old(mapBlockIndex)[hash := b]
      ensures if old(hash in mapBlockIndex) then b == old(mapBlockIndex[hash]) else fresh(b)
      ensures old(hash !in mapBlockIndex) ==>
                b.pprev == if old(hashPrevBlock in mapBlockIndex) then old(mapBlockIndex[hashPrevBlock]) else null
      ensures old(hash !in mapBlockIndex) ==> b.nTime == time && b.proof == proof && Accumulated(b)
      ensures old(hash !in mapBlockIndex) ==> b.nHeight == if b.pprev == null then 0 else b.pprev.nHeight + 1
      ensures pindexBestHeader == old(pindexBestHeader) ||
              (old(hash !in mapBlockIndex) && pindexBestHeader == b
               && (old(pindexBestHeader) != null ==> old(pindexBestHeader).nChainWork < b.nChainWork))
    {
      hide Grown, Rooted, MostWork;
      if hash in mapBlockIndex {
        assert mapBlockIndex == mapBlockIndex[hash := mapBlockIndex[hash]];
        return mapBlockIndex[hash];
      }
      ghost var tree := mapBlockIndex.Values;
      var prev: BlockIndex? := if hashPrevBlock in mapBlockIndex then mapBlockIndex[hashPrevBlock] else null;
      if prev != null {
        assert prev in tree;
        HeightInTree(tree, prev);
      }
      b := new BlockIndex(prev, time, proof);
      LinkedRooted(b);
      MostWorkAdded(tree, pindexBestHeader, b);
      b.BuildSkip(tree);
      AddedValues(mapBlockIndex, hash, b);
      mapBlockIndex := mapBlockIndex[hash := b];
      if pindexBestHeader == null || pindexBestHeader.nChainWork < b.nChainWork {
        pindexBestHeader := b;
      }
    }
  }

  lemma LinkedRooted(b: BlockIndex)
    requires Accumulated(b) && b.nHeight == (if b.pprev == null then 0 else b.pprev.nHeight + 1)
    requires b.pprev != null ==> b.pprev.nHeight >= 0 && Rooted(b.pprev)
    ensures Rooted(b)
  {
  }

  lemma MostWorkAdded(tree: set<BlockIndex>, best: BlockIndex?, b: BlockIndex)
    requires MostWork(tree, best)
    ensures MostWork(tree + {b}, if best == null || best.nChainWork < b.nChainWork then b else best)
  {
  }

  // One of those with the most work.
  ghost predicate MostWork(tree: set<BlockIndex>, best: BlockIndex?) {
    if best == null then tree == {} else best in tree && forall b <- tree :: b.nChainWork <= best.nChainWork
  }

  lemma AddedValues<K, V>(m: map<K, V>, k: K, b: V)
    requires k !in m
    ensures m[k := b].Values == m.Values + {b}
  {
    var t := m[k := b];
    forall x | x in m.Values + {b} ensures x in t.Values {
      if x in m.Values {
        var j :| j in m && m[j] == x;
        assert j in t && t[j] == x;
      } else {
        assert k in t && t[k] == x;
      }
    }
  }

  // ---------- Common ancestors ----------

  ghost predicate IsAncestor(a: BlockIndex, b: BlockIndex)
    requires Rooted(b)
  {
    0 <= a.nHeight <= b.nHeight && a == Ancestor(b, a.nHeight)
  }

  lemma ParentOfAncestor(b: BlockIndex, height: nat)
    requires Rooted(b) && height <= b.nHeight
    ensures Ancestor(b, height).pprev == if height == 0 then null else Ancestor(b, height - 1)
    decreases b.nHeight
  {
    if height < b.nHeight { ParentOfAncestor(b.pprev, height); }
  }

  lemma AncestorSelf(b: BlockIndex)
    requires Rooted(b)
    ensures b.nHeight >= 0 && Ancestor(b, b.nHeight) == b
  {
  }

  /** The highest common ancestor, or null for blocks of different trees; the assertion holds. */
  method LastCommonAncestor(pa: BlockIndex, pb: BlockIndex, ghost tree: set<BlockIndex>) returns (r: BlockIndex?)
    requires Grown(tree) && pa in tree && pb in tree
    ensures r != null ==> IsAncestor(r, pa) && IsAncestor(r, pb)
    ensures forall h :: 0 <= h <= pa.nHeight && h <= pb.nHeight && Ancestor(pa, h) == Ancestor(pb, h) ==>
              r != null && h <= r.nHeight
  {
    hide Ancestor, Rooted;
    AncestorSelf(pa);
    AncestorSelf(pb);
    var a: BlockIndex?, b: BlockIndex? := pa, pb;
    ghost var steps;
    if pa.nHeight > pb.nHeight {
      a, steps := pa.GetAncestor(pb.nHeight, tree);
    } else if pb.nHeight > pa.nHeight {
      b, steps := pb.GetAncestor(pa.nHeight, tree);
    }
    ghost var low := if pa.nHeight < pb.nHeight then pa.nHeight else pb.nHeight;
    ghost var next := low;   // the height of a and b, or -1
    while a != b && a != null && b != null
      invariant -1 <= next <= low
      invariant next == -1 ==> a == null && b == null
      invariant next >= 0 ==> a == Ancestor(pa, next) && b == Ancestor(pb, next)
      invariant forall h :: next < h <= low ==> Ancestor(pa, h) != Ancestor(pb, h)
      decreases next
    {
      ParentOfAncestor(pa, next);
      ParentOfAncestor(pb, next);
      a := a.pprev;
      b := b.pprev;
      next := next - 1;
    }
    assert a == b;
    return a;
  }

  // ---------- The active chain ----------

  class ActiveChain {
    var vChain: seq<BlockIndex?>

    /** Entry h is at height h and is the parent of entry h + 1. */
    ghost predicate Valid()
      reads this
    {
      forall h :: 0 <= h < |vChain| ==> EntryOk(vChain, h)
    }

    constructor ()
      ensures Valid() && vChain == []
    {
      vChain := [];
    }

    function At(height: int): BlockIndex?
      reads this
    {
      if height < 0 || height >= |vChain| then null else vChain[height]
    }

    function Height(): int
      reads this
    {
      |vChain| - 1
    }

    predicate Contains(b: BlockIndex)
      reads this
    {
      At(b.nHeight) == b
    }

    function Next(b: BlockIndex): BlockIndex?
      reads this
    {
      if Contains(b) then At(b.nHeight + 1) else null
    }

    /** A block's successor is its child on this chain; only the tip and foreign blocks have none. */
    lemma NextIsChild(b: BlockIndex)
      requires Valid()
      ensures Next(b) != null <==> Contains(b) && b.nHeight < Height()
      ensures Next(b) != null ==> Next(b).pprev == b
    {
      if Contains(b) && b.nHeight < Height() {
        assert EntryOk(vChain, b.nHeight + 1);
      }
    }

    /** The binary search over nTimeMax finds the first block of the chain with a time of at least t. */
    method FindEarliestAtLeast(t: int) returns (r: BlockIndex?)
      requires Valid()
      ensures r == null ==> forall h :: 0 <= h < |vChain| ==> TimeAt(vChain, h) < t
      ensures r != null ==> Contains(r) && 0 <= r.nHeight && r.nTime >= t
      ensures r != null ==> forall h :: 0 <= h < r.nHeight && h < |vChain| ==> TimeAt(vChain, h) < t
    {
      hide Rooted;
      var first, count := 0, |vChain|;
      while count > 0
        invariant 0 <= first <= first + count <= |vChain|
        invariant first > 0 ==> vChain[first - 1] != null && vChain[first - 1].nTimeMax < t
        invariant first + count < |vChain| ==> vChain[first + count] != null && vChain[first + count].nTimeMax >= t
      {
        var step := count / 2;
        assert EntryOk(vChain, first + step);
        if vChain[first + step].nTimeMax < t {
          first := first + step + 1;
          count := count - step - 1;
        } else {
          count := step;
        }
      }
      if first > 0 { TimesBelow(vChain, first - 1, t); }
      if first == |vChain| { return null; }
      FirstLate(vChain, first, t);
      return vChain[first];
    }

    /** The chain becomes exactly the ancestors of the new tip. */
    method SetTip(tip: BlockIndex?)
      requires Valid() && (tip != null ==> Rooted(tip))
      modifies this
      ensures Valid()
      ensures tip == null ==> vChain == []
      ensures tip != null ==>
                |vChain| == tip.nHeight + 1 && forall h :: 0 <= h < |vChain| ==> vChain[h] == Ancestor(tip, h)
    {
      hide Ancestor, Rooted;
      if tip == null {
        vChain := [];
        return;
      }
      AncestorSelf(tip);
      ghost var was := vChain;
      Resize(tip.nHeight + 1);
      var p: BlockIndex? := tip;
      ghost var next := tip.nHeight;   // the height of p, or -1
      while p != null && vChain[p.nHeight] != p
        invariant |vChain| == tip.nHeight + 1 && -1 <= next <= tip.nHeight
        invariant if next == -1 then p == null else p == Ancestor(tip, next)
        invariant forall h :: next < h <= tip.nHeight ==> vChain[h] == Ancestor(tip, h)
        invariant forall h :: 0 <= h <= next ==> vChain[h] == if h < |was| then was[h] else null
        decreases next
      {
        vChain := vChain[p.nHeight := p];
        ParentOfAncestor(tip, next);
        p := p.pprev;
        next := next - 1;
      }
      if p != null {
        OldPart(was, tip, next);
      }
      ChainOfTip(vChain, tip);
    }

    // vChain.resize
    method Resize(size: nat)
      modifies this
      ensures |vChain| == size
      ensures forall h :: 0 <= h < size ==> vChain[h] == if h < |old(vChain)| then old(vChain[h]) else null
    {
      if size <= |vChain| {
        vChain := vChain[..size];
      } else {
        vChain := vChain + seq(size - |vChain|, _ => null);
      }
    }

    // By position on this chain, else along the skip list.
    method StepDown(p: BlockIndex, height: nat, ghost tree: set<BlockIndex>) returns (q: BlockIndex)
      requires Valid() && Grown(tree) && Rooted(p) && (p in tree || Contains(p)) && height <= p.nHeight
      ensures Rooted(q) && q == Ancestor(p, height) && (q in tree || Contains(q))
    {
      hide Ancestor, Rooted;
      if Contains(p) {
        EntriesAreAncestors(vChain, p.nHeight, height);
        return At(height);
      }
      ghost var steps;
      q, steps := p.GetAncestor(height, tree);
    }

    /** Blocks at the locator's heights, found in the chain where possible and by the skip list elsewhere. */
    method GetLocator(b: BlockIndex?, ghost tree: set<BlockIndex>) returns (have: seq<BlockIndex>)
      requires Valid() && Grown(tree) && (b != null ==> b in tree)
      ensures b == null && vChain == [] ==> have == []
      ensures b != null ==> LocatesFrom(have, b)
      ensures b == null && vChain != [] ==> vChain[|vChain| - 1] != null && LocatesFrom(have, vChain[|vChain| - 1])
    {
      hide Ancestor, Rooted, HeightsOf, LocatesFrom;
      assert vChain != [] ==> EntryOk(vChain, |vChain| - 1);
      var p := b;
      if p == null {
        p := At(Height());
      }
      if p == null {
        return [];
      }
      have := Locate(p, tree);
    }

    method Locate(start: BlockIndex, ghost tree: set<BlockIndex>) returns (have: seq<BlockIndex>)
      requires Valid() && Grown(tree) && Rooted(start) && (start in tree || Contains(start))
      ensures LocatesFrom(have, start)
    {
      hide Ancestor, Rooted, HeightsOf, LocatorHeights, IsAncestor;
      have := [];
      HeightsOfNone();
      AncestorSelf(start);
      var p, step := start, 1;
      while p.nHeight != 0
        invariant Rooted(p) && (p in tree || Contains(p)) && step > 0
        invariant 0 <= p.nHeight <= start.nHeight && p == Ancestor(start, p.nHeight)
        invariant LocatorHeights(start.nHeight, 1, 0) == HeightsOf(have) + LocatorHeights(p.nHeight, step, |have|)
        invariant forall i :: 0 <= i < |have| ==> IsAncestor(have[i], start)
        decreases p.nHeight
      {
        HeightsSnoc(have, p);
        LocatorStep(p.nHeight, step, |have|);
        FoundAncestor(p, start);
        have := have + [p];
        var height := if p.nHeight - step > 0 then p.nHeight - step else 0;
        AncestorOfAncestor(start, p.nHeight, height);
        p := StepDown(p, height, tree);
        if |have| > 10 {
          step := step * 2;
        }
      }
      HeightsSnoc(have, p);
      LocatorStep(0, step, |have|);
      FoundAncestor(p, start);
      have := have + [p];
    }

    /** The highest ancestor of b on this chain, or null when there is none. */
    method FindFork(b: BlockIndex?, ghost tree: set<BlockIndex>) returns (r: BlockIndex?)
      requires Valid() && Grown(tree) && (b != null ==> b in tree)
      ensures b == null ==> r == null
      ensures b != null && r != null ==> IsAncestor(r, b) && Contains(r)
      ensures b != null ==> forall h :: 0 <= h <= b.nHeight && Contains(Ancestor(b, h)) ==> r != null && h <= r.nHeight
    {
      hide Ancestor, Rooted;
      if b == null {
        return null;
      }
      AncestorSelf(b);
      r := b;
      if b.nHeight > Height() {
        ghost var steps;
        r, steps := b.GetAncestor(Height(), tree);
      }
      ghost var next := if b.nHeight > Height() then Height() else b.nHeight;
      while r != null && !Contains(r)
        invariant -1 <= next <= b.nHeight
        invariant if next == -1 then r == null else r == Ancestor(b, next)
        invariant forall h :: next < h <= b.nHeight ==> !Contains(Ancestor(b, h))
        decreases next
      {
        ParentOfAncestor(b, next);
        r := r.pprev;
        next := next - 1;
      }
    }
  }

  // ---------- Locator heights ----------

  /** The heights a locator visits: steps of one at first, doubling after ten entries, genesis last. */
  function LocatorHeights(height: nat, step: nat, have: nat): (hs: seq<int>)
    requires step > 0
    decreases height
  {
    if height == 0 then [0]
    else [height] + LocatorHeights(if height > step then height - step else 0,
                                   if have >= 10 then 2 * step else step, have + 1)
  }

  function HeightsOf(blocks: seq<BlockIndex>): seq<int> {
    seq(|blocks|, i requires 0 <= i < |blocks| => blocks[i].nHeight)
  }

  lemma LocatorStep(height: nat, step: nat, have: nat)
    requires step > 0
    ensures LocatorHeights(height, step, have) ==
            if height == 0 then [0]
            else [height] + LocatorHeights(if height > step then height - step else 0,
                                           if have >= 10 then 2 * step else step, have + 1)
  {
  }

  lemma FoundAncestor(p: BlockIndex, start: BlockIndex)
    requires Rooted(start) && 0 <= p.nHeight <= start.nHeight && p == Ancestor(start, p.nHeight)
    ensures IsAncestor(p, start)
  {
  }

  lemma HeightsOfNone()
    ensures HeightsOf([]) == []
  {
  }

  lemma HeightsSnoc(blocks: seq<BlockIndex>, b: BlockIndex)
    ensures HeightsOf(blocks + [b]) == HeightsOf(blocks) + [b.nHeight]
  {
  }

  ghost predicate LocatesFrom(have: seq<BlockIndex>, b: BlockIndex) {
    && Rooted(b) && HeightsOf(have) == LocatorHeights(b.nHeight, 1, 0)
    && forall i :: 0 <= i < |have| ==> IsAncestor(have[i], b)
  }

  /** A locator starts at its block, descends strictly and ends at genesis. */
  lemma {:induction false} LocatorDescends(height: nat, step: nat, have: nat)
    requires step > 0
    ensures var hs := LocatorHeights(height, step, have);
            && |hs| > 0 && hs[0] == height && hs[|hs| - 1] == 0
            && forall i :: 0 < i < |hs| ==> 0 <= hs[i] < hs[i - 1]
    decreases height
  {
    if height > 0 {
      var next := if height > step then height - step else 0;
      var step' := if have >= 10 then 2 * step else step;
      LocatorDescends(next, step', have + 1);
      var hs, rest := LocatorHeights(height, step, have), LocatorHeights(next, step', have + 1);
      forall i | 0 < i < |hs| ensures 0 <= hs[i] < hs[i - 1] {
        assert hs[i] == rest[i - 1];
        if i > 1 { assert hs[i - 1] == rest[i - 2]; }
      }
    }
  }

  lemma {:induction false} DoublingSteps(height: nat, step: nat, have: nat)
    requires step > 0 && have >= 10
    ensures var n := |LocatorHeights(height, step, have)|; n >= 2 ==> height > step * (Pow(2, n - 2) - 1)
    decreases height
  {
    if height > 0 {
      var next := if height > step then height - step else 0;
      DoublingSteps(next, 2 * step, have + 1);
      var n := 1 + |LocatorHeights(next, 2 * step, have + 1)|;
      if n > 2 {
        var p := Pow(2, n - 3);
        assert Pow(2, n - 2) == 2 * p;
        assert step * (2 * p - 1) == 2 * step * (p - 1) + step;
      }
    }
  }

  lemma {:induction false} SingleSteps(height: nat, have: nat)
    requires have <= 10
    ensures var n := |LocatorHeights(height, 1, have)|;
            n >= 12 - have ==> height >= 10 - have && n == 10 - have + |LocatorHeights(height - (10 - have), 1, 10)|
    decreases 10 - have
  {
    if have < 10 && height > 0 { SingleSteps(height - 1, have + 1); }
  }

  /** Its length is logarithmic in the height: at most 11 + log2(height - 10) entries beyond the first. */
  lemma LocatorIsShort(height: nat)
    ensures var n := |LocatorHeights(height, 1, 0)|; n >= 12 ==> Pow(2, n - 12) <= height - 10
  {
    hide LocatorHeights, Pow;
    var n := |LocatorHeights(height, 1, 0)|;
    SingleSteps(height, 0);
    if n >= 12 { DoublingSteps(height - 10, 1, 10); }
  }

  // ---------- Valid chains ----------

  ghost predicate EntryOk(chain: seq<BlockIndex?>, h: int)
    requires 0 <= h < |chain|
  {
    && chain[h] != null && chain[h].nHeight == h && Rooted(chain[h])
    && (h > 0 ==> chain[h].pprev == chain[h - 1])
  }

  /** Every entry of a valid chain is the tip's ancestor at its height. */
  lemma {:induction false} EntriesAreAncestors(chain: seq<BlockIndex?>, top: nat, h: nat)
    requires (forall i :: 0 <= i < |chain| ==> EntryOk(chain, i)) && h <= top < |chain|
    ensures EntryOk(chain, top) && chain[h] == Ancestor(chain[top], h)
    decreases top
  {
    if h < top { EntriesAreAncestors(chain, top - 1, h); }
  }

  // Where the walk stops early, the old entries below are already the right ones.
  lemma OldPart(was: seq<BlockIndex?>, tip: BlockIndex, height: nat)
    requires (forall i :: 0 <= i < |was| ==> EntryOk(was, i)) && Rooted(tip)
    requires height <= tip.nHeight && height < |was| && was[height] == Ancestor(tip, height)
    ensures forall h :: 0 <= h <= height ==> was[h] == Ancestor(tip, h)
  {
    hide Ancestor, Rooted;
    forall h | 0 <= h <= height ensures was[h] == Ancestor(tip, h) {
      EntriesAreAncestors(was, height, h);
      AncestorOfAncestor(tip, height, h);
    }
  }

  lemma ChainOfTip(chain: seq<BlockIndex?>, tip: BlockIndex)
    requires Rooted(tip) && |chain| == tip.nHeight + 1
    requires forall h :: 0 <= h < |chain| ==> chain[h] == Ancestor(tip, h)
    ensures forall h :: 0 <= h < |chain| ==> EntryOk(chain, h)
  {
    hide Ancestor, Rooted;
    forall h | 0 <= h < |chain| ensures EntryOk(chain, h) {
      ParentOfAncestor(tip, h);
    }
  }

  ghost function TimeAt(chain: seq<BlockIndex?>, h: int): int
    requires 0 <= h < |chain|
  {
    if chain[h] == null then 0 else chain[h].nTime
  }

  /** A maximal time below t means that all times up to there are. */
  lemma {:induction false} TimesBelow(chain: seq<BlockIndex?>, top: nat, t: int)
    requires (forall i :: 0 <= i < |chain| ==> EntryOk(chain, i)) && top < |chain|
    requires chain[top] != null && chain[top].nTimeMax < t
    ensures forall h :: 0 <= h <= top ==> TimeAt(chain, h) < t
    decreases top
  {
    assert EntryOk(chain, top) && Accumulated(chain[top]);
    if top > 0 { TimesBelow(chain, top - 1, t); }
  }

  // The first block whose maximal time is late is late itself.
  lemma FirstLate(chain: seq<BlockIndex?>, h: nat, t: int)
    requires (forall i :: 0 <= i < |chain| ==> EntryOk(chain, i)) && h < |chain|
    requires chain[h] != null && chain[h].nTimeMax >= t
    requires h > 0 ==> chain[h - 1] != null && chain[h - 1].nTimeMax < t
    ensures chain[h].nHeight == h && chain[h].nTime >= t
  {
    assert EntryOk(chain, h) && Accumulated(chain[h]);
    if h == 0 { NoParent(chain[h]); }
  }

  lemma NoParent(b: BlockIndex)
    requires Rooted(b) && b.nHeight == 0
    ensures b.pprev == null
  {
  }
}
