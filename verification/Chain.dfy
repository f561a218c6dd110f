/**
The block index and the active chain: ancestors by skip list, setting the tip, the fork
with another branch and the block locator.
*/
module Chain {
  import opened Numbers
  import opened Bits
  import opened Results

  // ---------------------------------------------------------------- skip heights

  /** The value of the lowest one bit. */
  ghost function LowestOne(n: nat): nat
    requires n > 0
  {
    if n % 2 == 1 then 1 else 2 * LowestOne(n / 2)
  }

  function InvertLowestOne(n: nat): nat
  {
    if n == 0 then 0 else And(n, n - 1)
  }

  lemma {:induction false} AndSelf(n: nat)
    ensures And(n, n) == n
  {
    if n > 0 {
      AndSelf(n / 2);
    }
  }

  /** Exactly the lowest one bit is removed. */
  lemma {:induction false} InvertsLowest(n: nat)
    requires n > 0
    ensures 0 < LowestOne(n) <= n
    ensures InvertLowestOne(n) == n - LowestOne(n)
  {
    if n % 2 == 1 {
      AndSelf(n / 2);
      assert (n - 1) / 2 == n / 2;
    } else {
      InvertsLowest(n / 2);
      assert (n - 1) / 2 == n / 2 - 1 && (n - 1) % 2 == 1;
    }
  }

  function GetSkipHeight(height: nat): nat
  {
    if height < 2 then 0
    else if And(height, 1) != 0 then InvertLowestOne(InvertLowestOne(height - 1)) + 1
    else InvertLowestOne(height)
  }

  /** Every skip goes strictly down, which makes the walk end. */
  lemma SkipsDown(height: nat)
    requires height > 0
    ensures GetSkipHeight(height) < height
  {
    hide And;
    if height >= 2 {
      InvertsLowest(height);
      InvertsLowest(height - 1);
      if InvertLowestOne(height - 1) > 0 {
        InvertsLowest(InvertLowestOne(height - 1));
      }
    }
  }

  // ---------------------------------------------------------------- the block tree

  class BlockIndex {
    const pprev: BlockIndex?
    const nHeight: int
    const hash: nat
    var pskip: BlockIndex?

    constructor (pprev: BlockIndex?, nHeight: int, hash: nat)
      ensures this.pprev == pprev && this.nHeight == nHeight && this.hash == hash && pskip == null
    {
      this.pprev, this.nHeight, this.hash, pskip := pprev, nHeight, hash, null;
    }

    /** The block at the given height on the way to the genesis block, or null. */
    method GetAncestor(height: int, ghost tree: set<BlockIndex>) returns (r: BlockIndex?)
      requires Linked(tree) && Skips(tree) && this in tree
      ensures height < 0 || height > nHeight ==> r == null
      ensures 0 <= height <= nHeight ==> r == Ancestor(tree, this, height)
    {
      if height > nHeight || height < 0 {
        return null;
      }
      var pindexWalk := this;
      var heightWalk := nHeight;
      while heightWalk > height
        invariant pindexWalk in tree && pindexWalk.nHeight == heightWalk >= height
        invariant Ancestor(tree, pindexWalk, height) == Ancestor(tree, this, height)
      {
        var heightSkip := GetSkipHeight(heightWalk);
        var heightSkipPrev := GetSkipHeight(heightWalk - 1);
        SkipsDown(heightWalk);
        if pindexWalk.pskip != null &&
           (heightSkip == height ||
            (heightSkip > height && !(heightSkipPrev < heightSkip - 2 && heightSkipPrev >= height))) {
          AncestorOfAncestor(tree, pindexWalk, heightSkip, height);
          pindexWalk := pindexWalk.pskip;
          heightWalk := heightSkip;
        } else {
          pindexWalk := pindexWalk.pprev;
          heightWalk := heightWalk - 1;
        }
      }
      r := pindexWalk;
    }

    /** Sets the skip link, which keeps the tree's invariant. */
    method BuildSkip(ghost tree: set<BlockIndex>)
      requires Linked(tree) && Skips(tree) && this in tree
      modifies this`pskip
      ensures Linked(tree) && Skips(tree)
      ensures pprev == null ==> pskip == old(pskip)
      ensures pprev != null ==> (SkipsDown(nHeight); pskip == Ancestor(tree, this, GetSkipHeight(nHeight)))
    {
      if pprev != null {
        SkipsDown(nHeight);
        pskip := pprev.GetAncestor(GetSkipHeight(nHeight), tree);
      }
    }
  }

  /** Every block but the genesis blocks has a predecessor one lower, in the tree. */
  ghost predicate Linked(tree: set<BlockIndex>)
  {
    forall b :: b in tree ==>
      && b.nHeight >= 0 && (b.pprev == null <==> b.nHeight == 0)
      && (b.pprev != null ==> b.pprev in tree && b.pprev.nHeight == b.nHeight - 1)
  }

  /** Walking back one block at a time to the given height. */
  ghost function Ancestor(tree: set<BlockIndex>, b: BlockIndex, height: nat): (r: BlockIndex)
    requires Linked(tree) && b in tree && height <= b.nHeight
    ensures r in tree && r.nHeight == height
    decreases b.nHeight
  {
    if height == b.nHeight then b else Ancestor(tree, b.pprev, height)
  }

  /** Every skip link is null or leads to the ancestor at the skip height. */
  ghost predicate Skips(tree: set<BlockIndex>)
    requires Linked(tree)
    reads tree`pskip
  {
    forall b :: b in tree && b.nHeight > 0 && b.pskip != null ==>
      (SkipsDown(b.nHeight); b.pskip == Ancestor(tree, b, GetSkipHeight(b.nHeight)))
  }

  lemma {:induction false} AncestorOfAncestor(tree: set<BlockIndex>, b: BlockIndex, i: nat, j: nat)
    requires Linked(tree) && b in tree && j <= i <= b.nHeight
    ensures Ancestor(tree, Ancestor(tree, b, i), j) == Ancestor(tree, b, j)
    decreases b.nHeight
  {
    if i < b.nHeight {
      AncestorOfAncestor(tree, b.pprev, i, j);
    }
  }

  lemma AncestorOfSelf(tree: set<BlockIndex>, b: BlockIndex)
    requires Linked(tree) && b in tree
    ensures b.nHeight >= 0 && Ancestor(tree, b, b.nHeight) == b
  {
  }

  lemma Parent(tree: set<BlockIndex>, start: BlockIndex, b: BlockIndex)
    requires Linked(tree) && start in tree && b in tree
    requires b.nHeight <= start.nHeight && b == Ancestor(tree, start, b.nHeight)
    ensures b.pprev == null ==> b.nHeight == 0
    ensures b.pprev != null ==> b.pprev in tree && 0 <= b.pprev.nHeight == b.nHeight - 1
    ensures b.pprev != null ==> b.pprev == Ancestor(tree, start, b.pprev.nHeight)
  {
    if b.pprev != null {
      AncestorOfAncestor(tree, start, b.nHeight, b.nHeight - 1);
    }
  }

  lemma {:induction false} AncestorInLargerTree(tree: set<BlockIndex>, larger: set<BlockIndex>, b: BlockIndex, h: nat)
    requires Linked(tree) && Linked(larger) && tree <= larger && b in tree && h <= b.nHeight
    ensures Ancestor(larger, b, h) == Ancestor(tree, b, h)
    decreases b.nHeight
  {
    if h < b.nHeight {
      AncestorInLargerTree(tree, larger, b.pprev, h);
    }
  }

  /** A new block with its links set and no skip link yet may join the tree. */
  lemma TreeGrows(tree: set<BlockIndex>, b: BlockIndex)
    requires Linked(tree) && Skips(tree) && b !in tree && b.pskip == null
    requires if b.pprev == null then b.nHeight == 0 else b.pprev in tree && b.nHeight == b.pprev.nHeight + 1
    ensures Linked(tree + {b}) && Skips(tree + {b})
  {
    var larger := tree + {b};
    forall x | x in larger && x.nHeight > 0 && x.pskip != null
      ensures (SkipsDown(x.nHeight); x.pskip == Ancestor(larger, x, GetSkipHeight(x.nHeight)))
    {
      SkipsDown(x.nHeight);
      AncestorInLargerTree(tree, larger, x, GetSkipHeight(x.nHeight));
    }
  }

  // ---------------------------------------------------------------- the active chain

  class CChain {
    var vChain: seq<BlockIndex?>

    constructor ()
      ensures vChain == []
    {
      vChain := [];
    }

    /** The chain is empty or holds the tip's ancestor at every height. */
    ghost predicate Valid(tree: set<BlockIndex>)
      requires Linked(tree)
      reads this
    {
      vChain == [] || exists tip :: tip in tree && vChain == Branch(tree, tip)
    }

    function Tip(): BlockIndex?
      reads this
    {
      if |vChain| > 0 then vChain[|vChain| - 1] else null
    }

    function At(nHeight: int): BlockIndex?
      reads this
    {
      if nHeight < 0 || nHeight >= |vChain| then null else vChain[nHeight]
    }

    predicate Contains(b: BlockIndex)
      reads this
    {
      At(b.nHeight) == b
    }

    function Height(): int
      reads this
    {
      |vChain| - 1
    }

    function Next(b: BlockIndex): BlockIndex?
      reads this
    {
      if Contains(b) then At(b.nHeight + 1) else null
    }

    /** The chain with the given tip; the loop stops at the first block that is already in place. */
    method SetTip(pindex: BlockIndex?, ghost tree: set<BlockIndex>)
      requires Linked(tree) && Valid(tree) && (pindex != null ==> pindex in tree)
      modifies this
      ensures Valid(tree)
      ensures pindex == null ==> vChain == []
      ensures pindex != null ==> vChain == Branch(tree, pindex)
    {
      if pindex == null {
        vChain := [];
        return;
      }
      ghost var before := vChain;
      vChain := Resized(vChain, pindex.nHeight + 1);
      var walk: BlockIndex? := pindex;
      while walk != null && vChain[walk.nHeight] != walk
        invariant walk != null ==> walk in tree && walk.nHeight <= pindex.nHeight
        invariant walk != null ==> walk == Ancestor(tree, pindex, walk.nHeight)
        invariant |vChain| == pindex.nHeight + 1
        invariant forall h :: Level(walk) < h <= pindex.nHeight ==> vChain[h] == Ancestor(tree, pindex, h)
        invariant forall h :: 0 <= h <= Level(walk) ==> vChain[h] == if h < |before| then before[h] else null
        decreases Level(walk)
      {
        vChain := vChain[walk.nHeight := walk];
        Parent(tree, pindex, walk);
        walk := walk.pprev;
      }
      if walk != null {
        forall h | 0 <= h <= walk.nHeight ensures vChain[h] == Ancestor(tree, pindex, h) {
          ChainHolds(tree, before, walk, h);
          AncestorOfAncestor(tree, pindex, walk.nHeight, h);
        }
      }
      assert vChain == Branch(tree, pindex);
    }

    /** The highest block that is both in the chain and an ancestor of the argument, or the argument itself. */
    method FindFork(pindex: BlockIndex?, ghost tree: set<BlockIndex>) returns (r: BlockIndex?)
      requires Linked(tree) && Skips(tree) && Valid(tree) && (pindex != null ==> pindex in tree)
      ensures pindex == null ==> r == null
      ensures pindex != null && r != null ==>
        && r in tree && r.nHeight <= pindex.nHeight && r == Ancestor(tree, pindex, r.nHeight) && Contains(r)
        && forall h :: r.nHeight < h <= pindex.nHeight ==> !Contains(Ancestor(tree, pindex, h))
      ensures pindex != null && r == null ==>
        forall h :: 0 <= h <= pindex.nHeight ==> !Contains(Ancestor(tree, pindex, h))
    {
      hide Linked, Skips, Ancestor, Branch, Valid;
      if pindex == null {
        return null;
      }
      AncestorOfSelf(tree, pindex);
      r := pindex;
      if r.nHeight > Height() {
        r := r.GetAncestor(Height(), tree);
      }
      while r != null && !Contains(r)
        invariant r != null ==> r in tree && 0 <= r.nHeight <= pindex.nHeight && r == Ancestor(tree, pindex, r.nHeight)
        invariant forall h :: Level(r) < h <= pindex.nHeight ==> !Contains(Ancestor(tree, pindex, h))
        decreases Level(r)
      {
        Parent(tree, pindex, r);
        r := r.pprev;
      }
    }

    /** An ancestor, looked up in the chain if the block is part of it and by skip list otherwise. */
    method StepBack(b: BlockIndex, nHeight: nat, ghost tree: set<BlockIndex>) returns (r: BlockIndex)
      requires Linked(tree) && Skips(tree) && Valid(tree) && b in tree && nHeight <= b.nHeight
      ensures r == Ancestor(tree, b, nHeight)
    {
      hide Linked, Skips, Ancestor, Branch;
      var next: BlockIndex?;
      if Contains(b) {
        ChainHolds(tree, vChain, b, nHeight);
        next := At(nHeight);
      } else {
        next := b.GetAncestor(nHeight, tree);
      }
      r := next;
    }

    /** Where a locator starts: at the given block, or else at the tip. */
    function Start(pindex: BlockIndex?): BlockIndex?
      reads this
    {
      if pindex == null then Tip() else pindex
    }

    /**
    The hashes of the start and of its ancestors at the locator heights. The step is an
    `int` in the code; `fits` tells whether every value it takes is one.
    */
    method GetLocator(pindex: BlockIndex?, ghost tree: set<BlockIndex>) returns (vHave: seq<nat>, ghost fits: bool)
      requires Linked(tree) && Skips(tree) && Valid(tree) && (pindex != null ==> pindex in tree)
      ensures Start(pindex) == null <==> pindex == null && vChain == []
      ensures Start(pindex) == null ==> vHave == [] && fits
      ensures Start(pindex) != null ==> Start(pindex) in tree && 0 <= Start(pindex).nHeight
      ensures Start(pindex) != null ==> Lists(tree, Start(pindex), LocatorHeights(Start(pindex).nHeight, 0, 1), vHave)
      ensures Start(pindex) != null ==> (fits <==> Start(pindex).nHeight <= 0x4000_0000 + 9)
    {
      hide Linked, Skips, Ancestor, Branch, LocatorHeights, StepsFit, Lists, NextHeight, NextStep;
      var nStep: nat := 1;
      vHave, fits := [], true;
      var start := Start(pindex);
      TipInTree(tree, vChain);
      if start == null {
        return;
      }
      AncestorOfSelf(tree, start);
      StepsFitExactly(start.nHeight);
      ListsNone(tree, start);
      var walk := start;
      ghost var done: seq<nat> := [];
      assert LocatorHeights(start.nHeight, 0, 1) == done + LocatorHeights(walk.nHeight, |vHave|, nStep);
      while true
        invariant walk in tree && 0 <= walk.nHeight <= start.nHeight && walk == Ancestor(tree, start, walk.nHeight)
        invariant nStep > 0 && Lists(tree, start, done, vHave)
        invariant LocatorHeights(start.nHeight, 0, 1) == done + LocatorHeights(walk.nHeight, |vHave|, nStep)
        invariant StepsFit(start.nHeight, 0, 1) <==> fits && StepsFit(walk.nHeight, |vHave|, nStep)
        decreases walk.nHeight
      {
        LocatorStep(walk.nHeight, |vHave|, nStep);
        ListsNext(tree, start, done, vHave, walk);
        fits := fits && nStep <= INT_MAX;
        vHave := vHave + [walk.hash];
        ghost var before, height: nat := done, walk.nHeight;
        done := done + [height];
        if walk.nHeight == 0 {
          return;
        }
        var nHeight := NextHeight(walk.nHeight, nStep);
        AncestorOfAncestor(tree, start, walk.nHeight, nHeight);
        walk := StepBack(walk, nHeight, tree);
        nStep := NextStep(|vHave|, nStep);
        Regroup(before, height, LocatorHeights(walk.nHeight, |vHave|, nStep));
      }
    }
  }

  function Level(b: BlockIndex?): int
  {
    if b == null then -1 else b.nHeight
  }

  /** The tip and all its ancestors, by height. */
  ghost function Branch(tree: set<BlockIndex>, tip: BlockIndex): (r: seq<BlockIndex?>)
    requires Linked(tree) && tip in tree
    ensures |r| == tip.nHeight + 1 && r[tip.nHeight] == tip
  {
    seq(tip.nHeight + 1, h requires 0 <= h <= tip.nHeight => Ancestor(tree, tip, h))
  }

  function Resized(s: seq<BlockIndex?>, n: nat): (r: seq<BlockIndex?>)
    ensures |r| == n && forall i :: 0 <= i < n ==> r[i] == if i < |s| then s[i] else null
  {
    if n <= |s| then s[..n] else s + seq(n - |s|, _ => null)
  }

  /** Two branches that meet at a block are the same below it. */
  lemma ChainHolds(tree: set<BlockIndex>, vChain: seq<BlockIndex?>, b: BlockIndex, h: nat)
    requires Linked(tree) && b in tree && h <= b.nHeight < |vChain| && vChain[b.nHeight] == b
    requires exists tip :: tip in tree && vChain == Branch(tree, tip)
    ensures vChain[h] == Ancestor(tree, b, h)
  {
    var tip :| tip in tree && vChain == Branch(tree, tip);
    AncestorOfAncestor(tree, tip, b.nHeight, h);
  }

  /** The successor of a block of the chain is the block that has it as predecessor. */
  lemma NextIsSuccessor(tree: set<BlockIndex>, c: CChain, b: BlockIndex)
    requires Linked(tree) && c.Valid(tree) && b in tree && c.Contains(b)
    ensures c.Next(b) == null <==> b == c.Tip()
    ensures c.Next(b) != null ==> c.Next(b) in tree && c.Next(b).pprev == b
  {
    var tip :| tip in tree && c.vChain == Branch(tree, tip);
    if b.nHeight < tip.nHeight {
      var next := Ancestor(tree, tip, b.nHeight + 1);
      Parent(tree, tip, next);
    }
  }

  /** Comparison of chains by their sizes and last blocks; on two empty ones it reads before the start. */
  function Compared(a: CChain, b: CChain): Option<bool>
    reads a, b
  {
    if |a.vChain| != |b.vChain| then Some(false)
    else if |a.vChain| == 0 then None
    else Some(a.vChain[|a.vChain| - 1] == b.vChain[|b.vChain| - 1])
  }

  /** It decides equality of chains, except that two empty ones cannot be compared. */
  lemma TipsDecide(tree: set<BlockIndex>, a: CChain, b: CChain)
    requires Linked(tree) && a.Valid(tree) && b.Valid(tree)
    ensures Compared(a, b) == None <==> a.vChain == [] && b.vChain == []
    ensures Compared(a, b) != None ==> (Compared(a, b) == Some(true) <==> a.vChain == b.vChain)
  {
    if Compared(a, b) == Some(true) {
      var x :| x in tree && a.vChain == Branch(tree, x);
      var y :| y in tree && b.vChain == Branch(tree, y);
      assert x == y;
    }
  }

  // ---------------------------------------------------------------- locators

  /** The hashes of the ancestors of the start at the given heights. */
  ghost predicate Lists(tree: set<BlockIndex>, start: BlockIndex, heights: seq<nat>, hashes: seq<nat>)
    requires Linked(tree) && start in tree
  {
    && |hashes| == |heights|
    && forall i :: 0 <= i < |heights| ==>
      heights[i] <= start.nHeight && hashes[i] == Ancestor(tree, start, heights[i]).hash
  }

  lemma Regroup(a: seq<nat>, x: nat, b: seq<nat>)
    ensures a + ([x] + b) == a + [x] + b
  {
  }

  lemma ListsNone(tree: set<BlockIndex>, start: BlockIndex)
    requires Linked(tree) && start in tree
    ensures Lists(tree, start, [], [])
  {
  }

  lemma ListsNext(tree: set<BlockIndex>, start: BlockIndex, heights: seq<nat>, hashes: seq<nat>, b: BlockIndex)
    requires Linked(tree) && start in tree && Lists(tree, start, heights, hashes)
    requires 0 <= b.nHeight <= start.nHeight && b == Ancestor(tree, start, b.nHeight)
    ensures Lists(tree, start, heights + [b.nHeight], hashes + [b.hash])
  {
    hide Linked, Ancestor;
  }

  function NextHeight(height: nat, nStep: nat): (h: nat)
    requires nStep > 0
    ensures h <= height && (height > 0 ==> h < height)
  {
    if height > nStep then height - nStep else 0
  }

  /** The step doubles once more than ten entries are listed. */
  function NextStep(n: nat, nStep: nat): (r: nat)
    ensures r >= nStep
  {
    if n > 10 then nStep * 2 else nStep
  }

  /** The heights still to be listed after n entries, with the given step. */
  ghost function LocatorHeights(height: nat, n: nat, nStep: nat): (r: seq<nat>)
    requires nStep > 0
    ensures |r| > 0 && r[0] == height && r[|r| - 1] == 0
    decreases height
  {
    if height == 0 then [0]
    else [height] + LocatorHeights(NextHeight(height, nStep), n + 1, NextStep(n + 1, nStep))
  }

  lemma LocatorStep(height: nat, n: nat, nStep: nat)
    requires nStep > 0
    ensures height == 0 ==> LocatorHeights(height, n, nStep) == [0]
    ensures height > 0 ==>
      LocatorHeights(height, n, nStep)
      == [height] + LocatorHeights(NextHeight(height, nStep), n + 1, NextStep(n + 1, nStep))
    ensures StepsFit(height, n, nStep) <==>
      nStep <= INT_MAX && (height == 0 || StepsFit(NextHeight(height, nStep), n + 1, NextStep(n + 1, nStep)))
  {
  }

  lemma TipInTree(tree: set<BlockIndex>, vChain: seq<BlockIndex?>)
    requires Linked(tree) && (vChain == [] || exists tip :: tip in tree && vChain == Branch(tree, tip))
    ensures vChain != [] ==> vChain[|vChain| - 1] != null && vChain[|vChain| - 1] in tree
  {
  }

  lemma {:induction false} LocatorDescends(height: nat, n: nat, nStep: nat)
    requires nStep > 0
    ensures var r := LocatorHeights(height, n, nStep);
      (forall i :: 0 <= i < |r| ==> r[i] <= height) && forall i, j :: 0 <= i < j < |r| ==> r[j] < r[i]
    decreases height
  {
    if height > 0 {
      var next, step := NextHeight(height, nStep), NextStep(n + 1, nStep);
      LocatorDescends(next, n + 1, step);
      assert LocatorHeights(height, n, nStep) == [height] + LocatorHeights(next, n + 1, step);
    }
  }

  /** How far down j doubling steps lead. */
  function Reach(nStep: nat, j: nat): nat
    decreases j
  {
    if j == 0 then 0 else nStep + Reach(nStep * 2, j - 1)
  }

  lemma {:induction false} ReachIs(nStep: nat, j: nat)
    ensures Reach(nStep, j) == Shl(nStep, j) - nStep
    decreases j
  {
    if j > 0 {
      ReachIs(nStep * 2, j - 1);
      ShlShl(nStep, 1, j - 1);
    }
  }

  /** Once the step doubles, the entries that follow are as many as doubling steps are needed. */
  lemma {:induction false} DoublingLength(height: nat, n: nat, nStep: nat)
    requires nStep > 0 && n >= 10
    ensures var j := |LocatorHeights(height, n, nStep)| - 1;
      Reach(nStep, j) >= height && (j > 0 ==> Reach(nStep, j - 1) < height)
    decreases height
  {
    if height > 0 {
      DoublingLength(NextHeight(height, nStep), n + 1, nStep * 2);
    }
  }

  lemma {:induction false} FirstEntries(height: nat, n: nat)
    requires n <= 10
    ensures height <= 10 - n ==> |LocatorHeights(height, n, 1)| == height + 1
    ensures height >= 10 - n ==>
      |LocatorHeights(height, n, 1)| == 10 - n + |LocatorHeights(height - (10 - n), 10, 1)|
    decreases 10 - n
  {
    if n < 10 && height > 0 {
      FirstEntries(height - 1, n + 1);
    }
  }

  /** The exact number of entries: one per block down to height ten, then the logarithm of the height. */
  lemma LocatorLength(height: nat)
    ensures var count := |LocatorHeights(height, 0, 1)|;
      && (height < 10 ==> count == height + 1)
      && (height >= 10 ==> count >= 11 && Pow2(count - 11) >= height - 9)
      && (height >= 10 && count > 11 ==> Pow2(count - 12) < height - 9)
  {
    FirstEntries(height, 0);
    if height >= 10 {
      var j := |LocatorHeights(height - 10, 10, 1)| - 1;
      DoublingLength(height - 10, 10, 1);
      ReachIs(1, j);
      ShlPow(0, j);
      if j > 0 {
        ReachIs(1, j - 1);
        ShlPow(0, j - 1);
      }
    }
  }

  lemma LocatorBound(height: nat, log: nat)
    requires Pow2(log) >= height + 1
    ensures |LocatorHeights(height, 0, 1)| <= 12 + log
  {
    LocatorLength(height);
    var count := |LocatorHeights(height, 0, 1)|;
    if height >= 10 && count > 12 + log {
      PowMonotone(2, log, count - 12);
    }
  }

  /** Every value that the step takes is a 32-bit signed number. */
  ghost predicate StepsFit(height: nat, n: nat, nStep: nat)
    requires nStep > 0
    decreases height
  {
    nStep <= INT_MAX && (height > 0 ==>
      StepsFit(NextHeight(height, nStep), n + 1, NextStep(n + 1, nStep)))
  }

  lemma {:induction false} DoublingFits(height: nat, n: nat, nStep: nat)
    requires nStep > 0 && n >= 10
    ensures StepsFit(height, n, nStep) <==> Shl(nStep, |LocatorHeights(height, n, nStep)| - 1) <= INT_MAX
    decreases height
  {
    if height > 0 {
      var next := NextHeight(height, nStep);
      DoublingFits(next, n + 1, nStep * 2);
      var j := |LocatorHeights(next, n + 1, nStep * 2)| - 1;
      ShlShl(nStep, 1, j);
      ReachIs(nStep, j + 1);
    }
  }

  lemma {:induction false} FirstStepsFit(height: nat, n: nat)
    requires n <= 10
    ensures StepsFit(height, n, 1) <==> height <= 10 - n || StepsFit(height - (10 - n), 10, 1)
    decreases 10 - n
  {
    if n < 10 && height > 0 {
      FirstStepsFit(height - 1, n + 1);
    }
  }

  /** The step stays a 32-bit number exactly up to this height. */
  lemma StepsFitExactly(height: nat)
    ensures StepsFit(height, 0, 1) <==> height <= 0x4000_0000 + 9
  {
    FirstStepsFit(height, 0);
    if height > 10 {
      var j := |LocatorHeights(height - 10, 10, 1)| - 1;
      DoublingFits(height - 10, 10, 1);
      FirstEntries(height, 0);
      LocatorLength(height);
      ShlPow(0, j);
      Pow30();
      if j <= 30 {
        PowMonotone(2, j, 30);
      } else {
        PowMonotone(2, 31, j);
        PowMonotone(2, 30, j - 1);
      }
    }
  }

  lemma Pow30()
    ensures Pow2(30) == 0x4000_0000 && Pow2(31) == 0x8000_0000
  {
    assert Pow2(10) == 1024;
    PowAdd(2, 10, 10);
    PowAdd(2, 20, 10);
  }
}
