/**
 The block tree with its skip list, and the active chain as an array over heights.
 */
module Chain {
  import opened Numbers
  import opened SkipList

  // ------------------------------------------------------------------ the block tree

  class BlockIndex {
    const pprev: BlockIndex?
    const nHeight: nat
    var pskip: BlockIndex?

    constructor (prev: BlockIndex?)
      ensures pprev == prev && nHeight == (if prev == null then 0 else prev.nHeight + 1) && pskip == null
    {
      pprev := prev;
      nHeight := if prev == null then 0 else prev.nHeight + 1;
      pskip := null;
    }
  }

  /** Following `pprev` reaches a block without predecessor at height zero. */
  ghost predicate Rooted(b: BlockIndex)
    decreases b.nHeight
  {
    if b.pprev == null then b.nHeight == 0 else b.nHeight == b.pprev.nHeight + 1 && Rooted(b.pprev)
  }

  /** The block at height `h` reached by walking `pprev`. */
  ghost function Ancestor(b: BlockIndex, h: nat): (r: BlockIndex)
    requires Rooted(b) && h <= b.nHeight
    ensures Rooted(r) && r.nHeight == h
    decreases b.nHeight
  {
    if h == b.nHeight then b else Ancestor(b.pprev, h)
  }

  lemma {:induction false} AncestorOfAncestor(b: BlockIndex, h: nat, k: nat)
    requires Rooted(b) && k <= h <= b.nHeight
    ensures Ancestor(Ancestor(b, h), k) == Ancestor(b, k)
    decreases b.nHeight
  {
    if h < b.nHeight {
      AncestorOfAncestor(b.pprev, h, k);
    }
  }

  lemma AncestorStep(b: BlockIndex, h: nat)
    requires Rooted(b) && h < b.nHeight
    ensures Ancestor(b, h + 1).pprev == Ancestor(b, h)
  {
    AncestorOfAncestor(b, h + 1, h);
  }

  lemma AncestorAbove(b: BlockIndex, h: nat)
    requires Rooted(b)
    ensures b.pprev != null && h < b.nHeight ==> Ancestor(b, h) == Ancestor(b.pprev, h)
  {
  }

  /** One step along `pprev` is one step down, from any height but zero. */
  lemma Parent(b: BlockIndex, h: nat)
    requires Rooted(b) && h <= b.nHeight
    ensures Ancestor(b, h).pprev == if h == 0 then null else Ancestor(b, h - 1)
  {
    if h > 0 {
      AncestorStep(b, h - 1);
    }
  }

  /** A set of blocks with their predecessors, whose skip pointers are right where they are set. */
  ghost predicate Indexed(blocks: set<BlockIndex>)
    reads blocks
  {
    forall b <- blocks ::
      && Rooted(b)
      && (b.pprev != null ==> b.pprev in blocks)
      && (b.pskip != null ==> b.nHeight > 0 && b.pskip == Ancestor(b, GetSkipHeight(b.nHeight)))
  }

  lemma {:induction false} AncestorIndexed(blocks: set<BlockIndex>, b: BlockIndex, h: nat)
    requires Indexed(blocks) && b in blocks && h <= b.nHeight
    ensures Ancestor(b, h) in blocks
    decreases b.nHeight
  {
    if h < b.nHeight {
      AncestorIndexed(blocks, b.pprev, h);
    }
  }

  lemma StartOfWalk(blocks: set<BlockIndex>, b: BlockIndex)
    requires Indexed(blocks) && b in blocks
    ensures Rooted(b) && Ancestor(b, b.nHeight) == b
  {
  }

  /** Where the two pointers of an ancestor lead. */
  lemma WalkStep(blocks: set<BlockIndex>, b: BlockIndex, h: nat)
    requires Indexed(blocks) && b in blocks && Rooted(b) && 0 < h <= b.nHeight
    ensures var w := Ancestor(b, h);
            && w.pprev == Ancestor(b, h - 1) && w.pprev in blocks
            && (w.pskip != null ==> w.pskip == Ancestor(b, GetSkipHeight(h)) && w.pskip in blocks)
            && (Linked(blocks) ==> w.pskip != null)
  {
    hide GetSkipHeight;
    AncestorIndexed(blocks, b, h);
    AncestorIndexed(blocks, b, GetSkipHeight(h));
    AncestorOfAncestor(b, h, GetSkipHeight(h));
    AncestorStep(b, h - 1);
  }

  /** Every block with a predecessor has its skip pointer. */
  ghost predicate Linked(blocks: set<BlockIndex>)
    reads blocks
  {
    forall b <- blocks :: b.pprev != null ==> b.pskip != null
  }

  /**
   The ancestor at a height, found through skip pointers; null outside the heights
   of the block's chain.  `steps` counts the iterations of the loop.
   */
  method GetAncestor(b: BlockIndex, height: int, ghost blocks: set<BlockIndex>) returns (r: BlockIndex?, ghost steps: nat)
    requires Indexed(blocks) && b in blocks
    ensures r == null <==> height > b.nHeight || height < 0
    ensures 0 <= height <= b.nHeight ==> r == Ancestor(b, height) && r in blocks
    ensures 0 <= height <= b.nHeight && Linked(blocks) ==> steps == Steps(b.nHeight, height)
    ensures Linked(blocks) && b.nHeight < 0x4_0000 ==> steps <= 110
  {
    hide Steps, GetSkipHeight, MaxSteps, Pow2, Indexed, Linked, Ancestor, Rooted;
    steps := 0;
    if height > b.nHeight || height < 0 {
      return null, steps;
    }
    var pindexWalk, heightWalk := b, b.nHeight;
    StartOfWalk(blocks, b);
    while heightWalk > height
      invariant height <= heightWalk <= b.nHeight && Rooted(b) && pindexWalk == Ancestor(b, heightWalk) && pindexWalk in blocks
      invariant Linked(blocks) ==> steps + Steps(heightWalk, height) == Steps(b.nHeight, height)
      decreases heightWalk
    {
      OneMore(heightWalk, height);
      steps := steps + 1;
      var heightSkip := GetSkipHeight(heightWalk);
      var heightSkipPrev := GetSkipHeight(heightWalk - 1);
      WalkStep(blocks, b, heightWalk);
      if pindexWalk.pskip != null
         && (heightSkip == height || (heightSkip > height && !(heightSkipPrev < heightSkip - 2 && heightSkipPrev >= height)))
      {
        pindexWalk := pindexWalk.pskip;
        heightWalk := heightSkip;
      } else {
        pindexWalk := pindexWalk.pprev;
        heightWalk := heightWalk - 1;
      }
    }
    NoMore(height);
    MaxFor18();
    if b.nHeight < 0x4_0000 {
      StepsBounded(18, b.nHeight, height);
    }
    return pindexWalk, steps;
  }

  class BlockTree {
    var blocks: set<BlockIndex>

    ghost predicate Valid()
      reads this, blocks
    {
      Indexed(blocks) && Linked(blocks)
    }

    constructor ()
      ensures Valid() && blocks == {}
    {
      blocks := {};
    }

    /** A new block on top of `prev`, with its skip pointer built. */
    method Add(prev: BlockIndex?) returns (b: BlockIndex)
      requires Valid() && (prev != null ==> prev in blocks)
      modifies this
      ensures Valid() && fresh(b) && b.pprev == prev && blocks == old(blocks) + {b}
      ensures prev != null ==> Rooted(b) && b.pskip == Ancestor(b, GetSkipHeight(b.nHeight))
    {
      b := new BlockIndex(prev);
      BuildSkip(b);
      blocks := blocks + {b};
    }

    method BuildSkip(b: BlockIndex)
      requires Valid() && Rooted(b) && (b.pprev != null ==> b.pprev in blocks)
      modifies b
      ensures b.pprev == null ==> b.pskip == old(b.pskip)
      ensures b.pprev != null ==> b.pskip == Ancestor(b, GetSkipHeight(b.nHeight))
      ensures b in blocks ==> Valid()
    {
      hide Steps, GetSkipHeight, Ancestor;
      AncestorAbove(b, GetSkipHeight(b.nHeight));
      if b.pprev != null {
        ghost var steps;
        b.pskip, steps := GetAncestor(b.pprev, GetSkipHeight(b.nHeight), blocks);
      }
    }
  }

  // ---------------------------------------------------------------- the active chain

  function Min(a: int, b: int): int {
    if a < b then a else b
  }

  /** `v` is the path from the genesis block to its last block. */
  ghost predicate Path(v: seq<BlockIndex?>) {
    forall h :: 0 <= h < |v| ==>
                  v[h] != null && Rooted(v[h]) && v[h].nHeight == h && (h > 0 ==> v[h].pprev == v[h - 1])
  }

  lemma {:induction false} PathAncestors(v: seq<BlockIndex?>, h: nat, k: nat)
    requires Path(v) && k <= h < |v|
    ensures v[k] == Ancestor(v[h], k)
    decreases h
  {
    if k < h {
      PathAncestors(v, h - 1, k);
    }
  }

  class ActiveChain {
    var vChain: seq<BlockIndex?>

    ghost predicate Valid()
      reads this
    {
      Path(vChain)
    }

    constructor ()
      ensures Valid() && vChain == []
    {
      vChain := [];
    }

    function Tip(): (r: BlockIndex?)
      reads this
      ensures Valid() ==> (r == null <==> vChain == [])
    {
      if |vChain| > 0 then vChain[|vChain| - 1] else null
    }

    function Height(): (r: int)
      reads this
      ensures Valid() ==> r == if Tip() == null then -1 else Tip().nHeight
    {
      |vChain| - 1
    }

    /** `operator[]` */
    function At(nHeight: int): (r: BlockIndex?)
      reads this
      ensures Valid() && 0 <= nHeight <= Height() ==> r == Ancestor(Tip(), nHeight)
    {
      if nHeight < 0 || nHeight >= |vChain| then null
      else
        assert Valid() ==> vChain[nHeight] == Ancestor(Tip(), nHeight) by {
          if Valid() {
            PathAncestors(vChain, |vChain| - 1, nHeight);
          }
        }
        vChain[nHeight]
    }

    predicate Contains(pindex: BlockIndex)
      reads this
      ensures Valid() ==> Contains(pindex) == (pindex in vChain)
    {
      At(pindex.nHeight) == pindex
    }

    /** The child in the chain of a block of the chain. */
    function Next(pindex: BlockIndex): (r: BlockIndex?)
      reads this
      ensures Valid() ==> (r != null <==> pindex in vChain && pindex != Tip())
      ensures Valid() && r != null ==> r in vChain && r.pprev == pindex
    {
      if Contains(pindex) then At(pindex.nHeight + 1) else null
    }

    /** Makes the chain the whole path to `pindex`, rewriting it only down to where it already agrees. */
    method SetTip(pindex: BlockIndex?)
      requires Valid() && (pindex != null ==> Rooted(pindex))
      modifies this
      ensures Valid() && Tip() == pindex
    {
      if pindex == null {
        vChain := [];
        return;
      }
      ghost var was := vChain;
      var n := pindex.nHeight + 1;
      vChain := if n <= |vChain| then vChain[..n] else vChain + seq(n - |vChain|, _ => null);
      var p: BlockIndex? := pindex;
      while p != null && vChain[p.nHeight] != p
        invariant |vChain| == n
        invariant p != null ==> p.nHeight < n && p == Ancestor(pindex, p.nHeight)
        invariant forall h :: (if p == null then -1 else p.nHeight) < h < n ==> vChain[h] == Ancestor(pindex, h)
        invariant forall h :: 0 <= h <= (if p == null then -1 else p.nHeight) ==> vChain[h] == if h < |was| then was[h] else null
        decreases if p == null then 0 else p.nHeight + 1
      {
        vChain := vChain[p.nHeight := p];
        if p.nHeight > 0 {
          AncestorStep(pindex, p.nHeight - 1);
        }
        p := p.pprev;
      }
      Spliced(was, vChain, pindex, p);
    }

    /** The last block of the chain among the ancestors of a block. */
    method FindFork(pindex: BlockIndex?, ghost blocks: set<BlockIndex>) returns (r: BlockIndex?)
      requires Valid() && Indexed(blocks) && (pindex != null ==> pindex in blocks)
      ensures r != null ==> pindex != null && r in vChain && r.nHeight <= pindex.nHeight && r == Ancestor(pindex, r.nHeight)
      ensures pindex != null ==> Rooted(pindex) && OffChainAbove(vChain, pindex, HeightOf(r))
    {
      hide Ancestor, Rooted, Indexed, Path, OffChainAbove;
      if pindex == null {
        return null;
      }
      IndexedRooted(blocks);
      AncestorSelf(pindex);
      OffChainBegins(vChain, pindex);
      r := pindex;
      if pindex.nHeight > Height() {
        ghost var steps;
        r, steps := GetAncestor(pindex, Height(), blocks);
      }
      while r != null && !Contains(r)
        invariant r != null ==> r.nHeight <= pindex.nHeight && r == Ancestor(pindex, r.nHeight)
        invariant OffChainAbove(vChain, pindex, HeightOf(r))
        decreases HeightOf(r)
      {
        OffChainDown(vChain, pindex, r.nHeight);
        Parent(pindex, r.nHeight);
        r := r.pprev;
      }
    }
  }

  /** No ancestor of `b` above height `k` is in the chain. */
  ghost predicate OffChainAbove(v: seq<BlockIndex?>, b: BlockIndex, k: int)
    requires Rooted(b)
  {
    forall h :: 0 <= h && k < h <= b.nHeight ==> Ancestor(b, h) !in v
  }

  lemma OffChainBegins(v: seq<BlockIndex?>, b: BlockIndex)
    requires Path(v) && Rooted(b)
    ensures OffChainAbove(v, b, Min(b.nHeight, |v| - 1))
  {
  }

  lemma OffChainDown(v: seq<BlockIndex?>, b: BlockIndex, k: nat)
    requires Path(v) && Rooted(b) && k <= b.nHeight && OffChainAbove(v, b, k) && Ancestor(b, k) !in v
    ensures OffChainAbove(v, b, k - 1)
  {
  }

  /** Rewriting stopped at a block that was already in its place. */
  lemma Spliced(was: seq<BlockIndex?>, v: seq<BlockIndex?>, tip: BlockIndex, p: BlockIndex?)
    requires Path(was) && Rooted(tip) && |v| == tip.nHeight + 1
    requires p != null ==> p.nHeight <= tip.nHeight && p == Ancestor(tip, p.nHeight) && v[p.nHeight] == p
    requires forall h :: (if p == null then -1 else p.nHeight) < h < |v| ==> v[h] == Ancestor(tip, h)
    requires forall h :: 0 <= h <= (if p == null then -1 else p.nHeight) ==> v[h] == if h < |was| then was[h] else null
    ensures Path(v) && v[tip.nHeight] == tip
  {
    forall h | 0 <= h < |v| ensures v[h] == Ancestor(tip, h) {
      if p != null && h <= p.nHeight {
        PathAncestors(was, p.nHeight, h);
        AncestorOfAncestor(tip, p.nHeight, h);
      }
    }
    forall h | 0 < h < |v| ensures v[h].pprev == v[h - 1] {
      AncestorStep(tip, h - 1);
    }
  }

  /** `a` and `b` have no common ancestor above height `k`. */
  ghost predicate ApartAbove(a: BlockIndex, b: BlockIndex, k: int)
    requires Rooted(a) && Rooted(b)
  {
    forall h :: 0 <= h && k < h <= a.nHeight && h <= b.nHeight ==> Ancestor(a, h) != Ancestor(b, h)
  }

  /** A block's height, or -1 for no block. */
  function HeightOf(b: BlockIndex?): int {
    if b == null then -1 else b.nHeight
  }

  /** The highest block two blocks descend from, if any. */
  method LastCommonAncestor(a: BlockIndex, b: BlockIndex, ghost blocks: set<BlockIndex>) returns (r: BlockIndex?)
    requires Indexed(blocks) && a in blocks && b in blocks
    ensures r != null ==> r.nHeight <= Min(a.nHeight, b.nHeight) && r == Ancestor(a, r.nHeight) == Ancestor(b, r.nHeight)
    ensures ApartAbove(a, b, HeightOf(r))
  {
    hide Ancestor, Rooted, Indexed, ApartAbove;
    IndexedRooted(blocks);
    ApartBegins(a, b);
    var pa: BlockIndex?, pb: BlockIndex? := a, b;
    AncestorSelf(a);
    AncestorSelf(b);
    ghost var steps;
    if pa.nHeight > pb.nHeight {
      pa, steps := GetAncestor(pa, pb.nHeight, blocks);
    } else if pb.nHeight > pa.nHeight {
      pb, steps := GetAncestor(pb, pa.nHeight, blocks);
    }
    while pa != pb && pa != null && pb != null
      invariant HeightOf(pa) == HeightOf(pb) <= Min(a.nHeight, b.nHeight)
      invariant pa != null ==> pa == Ancestor(a, pa.nHeight) && pb == Ancestor(b, pb.nHeight)
      invariant ApartAbove(a, b, HeightOf(pa))
      decreases HeightOf(pa)
    {
      Parent(a, pa.nHeight);
      Parent(b, pb.nHeight);
      ApartDown(a, b, pa.nHeight);
      pa := pa.pprev;
      pb := pb.pprev;
    }
    assert pa == pb;
    return pa;
  }

  lemma ApartBegins(a: BlockIndex, b: BlockIndex)
    requires Rooted(a) && Rooted(b)
    ensures ApartAbove(a, b, Min(a.nHeight, b.nHeight))
  {
  }

  lemma ApartDown(a: BlockIndex, b: BlockIndex, k: nat)
    requires Rooted(a) && Rooted(b) && k <= a.nHeight && k <= b.nHeight && ApartAbove(a, b, k) && Ancestor(a, k) != Ancestor(b, k)
    ensures ApartAbove(a, b, k - 1)
  {
  }

  lemma IndexedRooted(blocks: set<BlockIndex>)
    requires Indexed(blocks)
    ensures forall b <- blocks :: Rooted(b)
  {
  }

  lemma AncestorSelf(b: BlockIndex)
    requires Rooted(b)
    ensures Ancestor(b, b.nHeight) == b
  {
  }

  // -------------------------------------------------------------------------- locators

  /** How far back entry `i` of a locator is from the entry before it. */
  function LocatorStep(i: nat): nat {
    if i <= 11 then 1 else Pow2(i - 11)
  }

  /** Entry `i` of a locator, after the entry `prev`. */
  ghost predicate LocatorEntry(start: BlockIndex, prev: BlockIndex, next: BlockIndex, i: nat)
    requires Rooted(start)
  {
    && next.nHeight < prev.nHeight <= start.nHeight && next == Ancestor(start, next.nHeight)
    && next.nHeight == if prev.nHeight > LocatorStep(i) then prev.nHeight - LocatorStep(i) else 0
  }

  /** Ancestors of `start` at strictly falling heights: the first dozen one apart, then at doubling distances. */
  ghost predicate LocatorFrom(start: BlockIndex, have: seq<BlockIndex>)
    requires Rooted(start)
  {
    && |have| > 0 && have[0] == start
    && forall i, j :: 0 <= i < |have| && 0 <= j < |have| && j == i + 1 ==> LocatorEntry(start, have[i], have[j], j)
  }

  lemma LocatorMore(start: BlockIndex, have: seq<BlockIndex>, next: BlockIndex)
    requires Rooted(start) && LocatorFrom(start, have) && LocatorEntry(start, have[|have| - 1], next, |have|)
    ensures LocatorFrom(start, have + [next])
  {
  }

  lemma {:induction false} LocatorFalls(start: BlockIndex, have: seq<BlockIndex>, i: nat, j: nat)
    requires Rooted(start) && LocatorFrom(start, have) && i < j < |have|
    ensures have[j].nHeight < have[i].nHeight <= start.nHeight && have[j] == Ancestor(start, have[j].nHeight)
    decreases j
  {
    assert LocatorEntry(start, have[j - 1], have[j], j);
    if i < j - 1 {
      LocatorFalls(start, have, i, j - 1);
    }
  }

  /** The blocks whose hashes make the locator, from the tip when no block is given. */
  method GetLocator(chain: ActiveChain, from: BlockIndex?, ghost blocks: set<BlockIndex>) returns (vHave: seq<BlockIndex>)
    requires chain.Valid() && Indexed(blocks) && (from != null ==> from in blocks)
    requires forall b <- chain.vChain :: b in blocks
    ensures var start := if from == null then chain.Tip() else from;
            if start == null then vHave == []
            else Rooted(start) && LocatorFrom(start, vHave) && vHave[|vHave| - 1].nHeight == 0
  {
    vHave := [];
    if from != null {
      vHave := LocatorOf(chain, from, blocks);
    } else if chain.Tip() != null {
      vHave := LocatorOf(chain, chain.Tip(), blocks);
    }
  }

  method LocatorOf(chain: ActiveChain, start: BlockIndex, ghost blocks: set<BlockIndex>) returns (vHave: seq<BlockIndex>)
    requires chain.Valid() && Indexed(blocks) && start in blocks
    ensures Rooted(start) && LocatorFrom(start, vHave) && vHave[|vHave| - 1].nHeight == 0
  {
    hide Ancestor, Rooted, Indexed, LocatorFrom, LocatorStep, Path;
    IndexedRooted(blocks);
    var nStep := 1;
    vHave := [];
    var pindex: BlockIndex := start;
    LocatorStarts(start);
    while true
      invariant pindex.nHeight <= start.nHeight && pindex == Ancestor(start, pindex.nHeight)
      invariant LocatorFrom(start, vHave + [pindex])
      invariant nStep == LocatorStep(|vHave| + 1)
      decreases pindex.nHeight
    {
      vHave := vHave + [pindex];
      if pindex.nHeight == 0 {
        return;
      }
      var nHeight := if pindex.nHeight - nStep > 0 then pindex.nHeight - nStep else 0;
      StepBack(start, pindex, nHeight, blocks);
      StepDoubles(|vHave|);
      if chain.Contains(pindex) {
        ChainAncestor(chain.vChain, pindex, nHeight);
        pindex := chain.At(nHeight);
      } else {
        ghost var steps;
        pindex, steps := GetAncestor(pindex, nHeight, blocks);
      }
      LocatorMore(start, vHave, pindex);
      if |vHave| > 10 {
        nStep := nStep * 2;
      }
    }
  }

  lemma StepBack(start: BlockIndex, b: BlockIndex, h: nat, blocks: set<BlockIndex>)
    requires Indexed(blocks) && start in blocks && h <= b.nHeight <= start.nHeight && b == Ancestor(start, b.nHeight)
    ensures b in blocks && Rooted(b) && Ancestor(b, h) == Ancestor(start, h) && Ancestor(b, h).nHeight == h
  {
    AncestorOfAncestor(start, b.nHeight, h);
    AncestorIndexed(blocks, start, b.nHeight);
  }

  lemma ChainAncestor(v: seq<BlockIndex?>, b: BlockIndex, h: nat)
    requires Path(v) && h <= b.nHeight < |v| && v[b.nHeight] == b && Rooted(b)
    ensures v[h] == Ancestor(b, h)
  {
    PathAncestors(v, b.nHeight, h);
  }

  lemma LocatorStarts(b: BlockIndex)
    requires Rooted(b)
    ensures LocatorFrom(b, [] + [b]) && LocatorStep(1) == 1 && Ancestor(b, b.nHeight) == b
  {
  }

  lemma StepDoubles(n: nat)
    requires n > 0
    ensures LocatorStep(n + 1) == LocatorStep(n) * (if n > 10 then 2 else 1) && LocatorStep(n) > 0
  {
  }
}
