/** The active chain: an array of blocks by height, kept in step with the block tree. */
module ActiveChain {
  import opened Basics
  import opened BlockTree

  /** Slot i holds the tip's ancestor at height i. */
  ghost predicate IsChain(v: seq<BlockIndex?>) {
    v != [] ==>
      var tip := v[|v| - 1];
      && tip != null && tip.Valid() && tip.nHeight == |v| - 1
      && forall i :: 0 <= i < |v| ==> v[i] == Ancestor(tip, i)
  }

  // ---------------------------------------------------------------- the locator, on values

  /** The blocks a locator names from b on: one step back, then exponentially more once k exceeds ten. */
  ghost function LocatorBlocks(b: BlockIndex, step: nat, k: nat): (r: seq<BlockIndex>)
    requires b.Linked() && step > 0
    ensures |r| > 0 && r[0] == b
    decreases b.nHeight
  {
    if b.nHeight == 0 then [b] else
      [b] + LocatorBlocks(Ancestor(b, Max(b.nHeight - step, 0)), if k + 1 > 10 then 2 * step else step, k + 1)
  }

  /** The heights alone. */
  function LocatorHeights(h: nat, step: nat, k: nat): (r: seq<nat>)
    requires step > 0
    ensures |r| > 0 && r[0] == h
  {
    if h == 0 then [0] else
      [h] + LocatorHeights(Max(h - step, 0), if k + 1 > 10 then 2 * step else step, k + 1)
  }

  function Hashes(bs: seq<BlockIndex>): seq<nat> {
    seq(|bs|, i requires 0 <= i < |bs| => bs[i].hash)
  }

  /** Every block named is the start's ancestor at the height that the start's height alone determines. */
  lemma {:induction false} LocatorAncestors(b: BlockIndex, step: nat, k: nat)
    requires b.Linked() && step > 0
    ensures |LocatorBlocks(b, step, k)| == |LocatorHeights(b.nHeight, step, k)|
    ensures forall i :: 0 <= i < |LocatorBlocks(b, step, k)| ==>
              && 0 <= LocatorHeights(b.nHeight, step, k)[i] <= b.nHeight
              && LocatorBlocks(b, step, k)[i] == Ancestor(b, LocatorHeights(b.nHeight, step, k)[i])
    decreases b.nHeight
  {
    if b.nHeight > 0 {
      var h' := Max(b.nHeight - step, 0);
      var b' := Ancestor(b, h');
      var step' := if k + 1 > 10 then 2 * step else step;
      LocatorAncestors(b', step', k + 1);
      var bs, hs := LocatorBlocks(b', step', k + 1), LocatorHeights(h', step', k + 1);
      forall i | 0 <= i < |bs| ensures hs[i] <= h' && bs[i] == Ancestor(b, hs[i]) {
        AncestorCompose(b, h', hs[i]);
      }
    }
  }

  /** Heights strictly decrease and end at the genesis block. */
  lemma {:induction false} LocatorDecreases(h: nat, step: nat, k: nat)
    requires step > 0
    ensures var r := LocatorHeights(h, step, k);
            && r[|r| - 1] == 0
            && forall i :: 0 <= i < |r| - 1 ==> r[i] > r[i + 1]
    decreases h
  {
    if h > 0 {
      var h', step' := Max(h - step, 0), if k + 1 > 10 then 2 * step else step;
      LocatorDecreases(h', step', k + 1);
      var t := LocatorHeights(h', step', k + 1);
      assert forall i :: 0 <= i < |t| ==> ([h] + t)[i + 1] == t[i];
    }
  }

  /** step * (2^k - 1), the distance that k doubling steps cover */
  function Reach(step: nat, k: nat): nat
    decreases k
  {
    if k == 0 then 0 else step + Reach(2 * step, k - 1)
  }

  lemma DoubleOnce(step: nat, p: nat)
    ensures step * (2 * p - 1) == step + 2 * step * (p - 1)
  {
    assert 2 * step * (p - 1) == 2 * (step * (p - 1));
    assert step * (2 * p - 1) == 2 * (step * p) - step;
    assert step * (p - 1) == step * p - step;
  }

  lemma {:induction false} ReachPow(k: nat, step: nat)
    ensures Reach(step, k) == step * (Pow2(k) - 1)
    decreases k
  {
    if k > 0 {
      ReachPow(k - 1, 2 * step);
      DoubleOnce(step, Pow2(k - 1));
    }
  }

  /** Once steps double, k of them cover Reach(step, k). */
  lemma {:induction false} DoublingLength(h: nat, step: nat, k: nat, j: nat)
    requires step > 0 && k >= 10 && h <= Reach(step, j)
    ensures |LocatorHeights(h, step, k)| <= 1 + j
    decreases j
  {
    if h > 0 {
      DoublingLength(Max(h - step, 0), 2 * step, k + 1, j - 1);
    }
  }

  /** Floor of the binary logarithm. */
  function Log2(x: nat): (r: nat)
    requires x > 0
    ensures Pow2(r) <= x < Pow2(r + 1)
  {
    if x == 1 then 0 else 1 + Log2(x / 2)
  }

  lemma {:induction false} SingleSteps(h: nat, k: nat)
    requires k <= 10
    ensures h <= 10 - k ==> |LocatorHeights(h, 1, k)| == h + 1
    ensures h > 10 - k ==> |LocatorHeights(h, 1, k)| == 10 - k + |LocatorHeights(h - (10 - k), 1, 10)|
    decreases 10 - k
  {
    if h > 0 && k < 10 {
      SingleSteps(h - 1, k + 1);
    }
  }

  /** While the step is one the locator names every block. */
  lemma {:induction false} NearestHeights(h: nat, k: nat, i: nat)
    requires k <= 10 && i <= 11 - k && i <= h
    ensures i < |LocatorHeights(h, 1, k)| && LocatorHeights(h, 1, k)[i] == h - i
    decreases i
  {
    if i > 0 && k < 10 {
      NearestHeights(h - 1, k + 1, i - 1);
    }
  }

  /** The step taken from entry i on. */
  function StepAt(step: nat, k: nat, i: nat): nat
    decreases i
  {
    if i == 0 then step else StepAt(if k + 1 > 10 then 2 * step else step, k + 1, i - 1)
  }

  lemma {:induction false} GapAt(h: nat, step: nat, k: nat, i: nat)
    requires step > 0 && i + 1 < |LocatorHeights(h, step, k)|
    ensures var r := LocatorHeights(h, step, k); r[i + 1] == Max(r[i] - StepAt(step, k, i), 0)
    decreases i
  {
    if i > 0 {
      GapAt(Max(h - step, 0), if k + 1 > 10 then 2 * step else step, k + 1, i - 1);
    }
  }

  lemma {:induction false} StepsDouble(step: nat, k: nat, i: nat)
    ensures k >= 10 ==> StepAt(step, k, i) == step * Pow2(i)
    ensures k <= 10 ==> StepAt(step, k, i) == step * if k + i <= 10 then 1 else Pow2(k + i - 10)
    decreases i
  {
    if i > 0 {
      if k >= 10 {
        StepsDouble(2 * step, k + 1, i - 1);
        assert (2 * step) * Pow2(i - 1) == step * (2 * Pow2(i - 1));
      } else {
        StepsDouble(step, k + 1, i - 1);
      }
    }
  }

  /** Eleven steps of one block, and then each twice the one before, down to the genesis block. */
  lemma LocatorGaps(h: nat, i: nat)
    requires i + 1 < |LocatorHeights(h, 1, 0)|
    ensures var r := LocatorHeights(h, 1, 0);
            r[i + 1] == Max(r[i] - (if i <= 10 then 1 else Pow2(i - 10)), 0)
  {
    GapAt(h, 1, 0, i);
    StepsDouble(1, 0, i);
  }

  /** A locator from height h has at most 12 + log2(h + 1) entries, and starts with the twelve nearest heights. */
  lemma LocatorLength(h: nat)
    ensures |LocatorHeights(h, 1, 0)| <= 12 + Log2(h + 1)
    ensures forall i :: 0 <= i <= 11 && i <= h ==>
              i < |LocatorHeights(h, 1, 0)| && LocatorHeights(h, 1, 0)[i] == h - i
  {
    SingleSteps(h, 0);
    forall i | 0 <= i <= 11 && i <= h
      ensures i < |LocatorHeights(h, 1, 0)| && LocatorHeights(h, 1, 0)[i] == h - i
    {
      NearestHeights(h, 0, i);
    }
    if h > 10 {
      var j := Log2(h + 1);
      ReachPow(j, 2);
      assert Reach(1, j + 1) == 1 + Reach(2, j);
      DoublingLength(h - 10, 1, 10, j + 1);
    }
  }

  // ---------------------------------------------------------------- the chain object

  class Chain {
    var vChain: seq<BlockIndex?>

    ghost predicate Valid()
      reads this
    {
      IsChain(vChain)
    }

    constructor ()
      ensures Valid() && vChain == []
    {
      vChain := [];
    }

    function Tip(): BlockIndex?
      reads this
    {
      if |vChain| > 0 then vChain[|vChain| - 1] else null
    }

    function Height(): int
      reads this
    {
      |vChain| - 1
    }

    function At(nHeight: int): BlockIndex?
      reads this
    {
      if nHeight < 0 || nHeight >= |vChain| then null else vChain[nHeight]
    }

    predicate Contains(pindex: BlockIndex)
      reads this
    {
      At(pindex.nHeight) == pindex
    }

    function Next(pindex: BlockIndex): BlockIndex?
      reads this
    {
      if Contains(pindex) then At(pindex.nHeight + 1) else null
    }

    /** Next is the successor in this chain; there is one unless the block is not in the chain or is its tip. */
    lemma NextIsSuccessor(pindex: BlockIndex)
      requires Valid()
      ensures Next(pindex) != null <==> Contains(pindex) && pindex != Tip()
      ensures Next(pindex) != null ==> Next(pindex).pprev == pindex && Contains(Next(pindex))
    {
      if Contains(pindex) && pindex != Tip() {
        StepBack(Tip(), pindex.nHeight + 1);
      }
    }

    /** Comparing length and tip alone compares the chains; two empty ones have no tip to compare. */
    lemma SameTipSameChain(other: Chain)
      requires Valid() && other.Valid() && (vChain != [] || other.vChain != [])
      ensures |vChain| == |other.vChain| && Tip() == other.Tip() <==> vChain == other.vChain
    {
    }

    /** Make pindex the tip, rewriting slots only down to the first that already matches. */
    method SetTip(pindex: BlockIndex?)
      requires Valid() && (pindex != null ==> pindex.Valid())
      modifies this
      ensures Valid() && Tip() == pindex
      ensures pindex == null ==> vChain == []
      ensures pindex != null ==> |vChain| == pindex.nHeight + 1
                                 && forall i :: 0 <= i < |vChain| ==> vChain[i] == Ancestor(pindex, i)
    {
      if pindex == null {
        vChain := [];
        return;
      }
      hide IsChain, Rewritten;
      ghost var was := vChain;
      vChain := Resize(vChain, pindex.nHeight + 1);
      var p: BlockIndex? := pindex;
      NothingRewritten(vChain, was, pindex);
      while p != null && vChain[p.nHeight] != p
        invariant |vChain| == pindex.nHeight + 1
        invariant p != null ==> p.Linked() && p.nHeight <= pindex.nHeight && p == Ancestor(pindex, p.nHeight)
        invariant Rewritten(vChain, was, pindex, if p == null then -1 else p.nHeight)
        decreases if p == null then -1 else p.nHeight
      {
        RewriteOne(vChain, was, pindex, p.nHeight);
        vChain := vChain[p.nHeight := p];
        if p.nHeight > 0 {
          StepBack(pindex, p.nHeight);
        }
        p := p.pprev;
      }
      RewriteEnds(vChain, was, pindex, if p == null then -1 else p.nHeight);
      ChainIsValid(vChain, pindex);
    }

    /** The hashes of a locator from pindex, or from the tip if none is given. */
    method GetLocator(pindexIn: BlockIndex?) returns (vHave: seq<nat>)
      requires Valid() && (pindexIn != null ==> pindexIn.Valid())
      ensures var start := if pindexIn == null then Tip() else pindexIn;
              vHave == if start == null then [] else Hashes(LocatorBlocks(start, 1, 0))
    {
      hide LocatorBlocks, Hashes, IsChain;
      var nStep := 1;
      vHave := [];
      var pindex := if pindexIn == null then Tip() else pindexIn;
      if pindex == null {
        return;
      }
      TipLinked(vChain);
      ghost var start: BlockIndex := pindex;
      assert [] + Hashes(LocatorBlocks(start, 1, 0)) == Hashes(LocatorBlocks(start, 1, 0));
      while true
        invariant pindex != null && pindex.Valid() && nStep > 0
        invariant Hashes(LocatorBlocks(start, 1, 0)) == vHave + Hashes(LocatorBlocks(pindex, nStep, |vHave|))
        decreases pindex.nHeight
      {
        ghost var before := vHave;
        vHave := vHave + [pindex.hash];
        if pindex.nHeight == 0 {
          LocatorEnds(pindex, nStep, |before|);
          break;
        }
        var nHeight := Max(pindex.nHeight - nStep, 0);
        AncestorValid(pindex, nHeight);
        ghost var here := pindex;
        if Contains(pindex) {
          OwnAncestor(vChain, pindex, nHeight);
          pindex := At(nHeight);
        } else {
          pindex := pindex.GetAncestor(nHeight);
        }
        LocatorUnfolds(here, pindex, nStep, before);
        if |vHave| > 10 {
          nStep := nStep * 2;
        }
      }
    }

    /** The highest block that is both in this chain and an ancestor of pindex, if there is one. */
    method FindFork(pindexIn: BlockIndex) returns (r: BlockIndex?)
      requires Valid() && pindexIn.Valid()
      ensures r != null ==> r.nHeight <= pindexIn.nHeight && r == Ancestor(pindexIn, r.nHeight) && Contains(r)
      ensures forall h :: 0 <= h <= pindexIn.nHeight && h < |vChain| && (r == null || r.nHeight < h)
                ==> vChain[h] != Ancestor(pindexIn, h)
    {
      var pindex: BlockIndex? := pindexIn;
      if pindex.nHeight > Height() {
        if Height() >= 0 {
          AncestorValid(pindex, Height());
        }
        pindex := pindex.GetAncestor(Height());
      }
      while pindex != null && !Contains(pindex)
        invariant pindex != null ==> pindex.nHeight <= pindexIn.nHeight && pindex.Linked()
                                     && pindex == Ancestor(pindexIn, pindex.nHeight)
        invariant forall h :: 0 <= h <= pindexIn.nHeight && h < |vChain| && (pindex == null || pindex.nHeight < h)
                    ==> vChain[h] != Ancestor(pindexIn, h)
        decreases if pindex == null then -1 else pindex.nHeight
      {
        if pindex.nHeight > 0 {
          StepBack(pindexIn, pindex.nHeight);
        }
        pindex := pindex.pprev;
      }
      r := pindex;
    }
  }

  /** vector::resize: cut off, or pad with null */
  function Resize(v: seq<BlockIndex?>, n: nat): (r: seq<BlockIndex?>)
    ensures |r| == n
    ensures forall i :: 0 <= i < n ==> r[i] == if i < |v| then v[i] else null
  {
    if n <= |v| then v[..n] else v + seq(n - |v|, _ => null)
  }

  /** Slots above k hold the ancestors of the new tip, the others what they held before. */
  ghost predicate Rewritten(v: seq<BlockIndex?>, was: seq<BlockIndex?>, tip: BlockIndex, k: int)
    requires tip.Linked()
  {
    && |v| == tip.nHeight + 1 && -1 <= k <= tip.nHeight
    && (forall i :: k < i < |v| ==> v[i] == Ancestor(tip, i))
    && (forall i :: 0 <= i <= k ==> v[i] == if i < |was| then was[i] else null)
  }

  lemma NothingRewritten(v: seq<BlockIndex?>, was: seq<BlockIndex?>, tip: BlockIndex)
    requires tip.Linked() && v == Resize(was, tip.nHeight + 1)
    ensures Rewritten(v, was, tip, tip.nHeight)
  {
  }

  lemma RewriteOne(v: seq<BlockIndex?>, was: seq<BlockIndex?>, tip: BlockIndex, k: nat)
    requires tip.Linked() && Rewritten(v, was, tip, k)
    ensures k < |v| && k <= tip.nHeight && Rewritten(v[k := Ancestor(tip, k)], was, tip, k - 1)
  {
  }

  lemma RewriteEnds(v: seq<BlockIndex?>, was: seq<BlockIndex?>, tip: BlockIndex, k: int)
    requires tip.Linked() && IsChain(was) && Rewritten(v, was, tip, k)
    requires k >= 0 ==> k < |v| && k <= tip.nHeight && v[k] == Ancestor(tip, k)
    ensures forall i :: 0 <= i < |v| ==> v[i] == Ancestor(tip, i)
  {
    hide IsChain;
    if k >= 0 {
      OldSlotsAgree(was, tip, k);
    }
  }

  /** If an old slot already holds the new tip's ancestor, so does every slot below it. */
  lemma OldSlotsAgree(was: seq<BlockIndex?>, tip: BlockIndex, k: int)
    requires IsChain(was) && tip.Linked() && 0 <= k < |was| && k <= tip.nHeight
    requires was[k] == Ancestor(tip, k)
    ensures forall i :: 0 <= i <= k ==> was[i] == Ancestor(tip, i)
  {
    forall i | 0 <= i <= k ensures was[i] == Ancestor(tip, i) {
      AncestorsMeet(tip, was[|was| - 1], k, i);
    }
  }

  lemma ChainIsValid(v: seq<BlockIndex?>, tip: BlockIndex)
    requires tip.Valid() && |v| == tip.nHeight + 1
    requires forall i :: 0 <= i < |v| ==> v[i] == Ancestor(tip, i)
    ensures IsChain(v) && v[|v| - 1] == tip
  {
    assert v[|v| - 1] == Ancestor(tip, |v| - 1);
  }

  lemma StepBack(b: BlockIndex, h: int)
    requires b.Linked() && 0 < h <= b.nHeight
    ensures Ancestor(b, h).pprev == Ancestor(b, h - 1)
  {
    AncestorCompose(b, h, h - 1);
    var a := Ancestor(b, h);
    assert Ancestor(a, h - 1) == Ancestor(a.pprev, h - 1);
  }

  lemma TipLinked(v: seq<BlockIndex?>)
    requires IsChain(v)
    ensures |v| > 0 ==> v[|v| - 1] != null && v[|v| - 1].Valid()
  {
  }

  lemma OwnAncestor(v: seq<BlockIndex?>, b: BlockIndex, h: int)
    requires IsChain(v) && b.Linked() && 0 <= h <= b.nHeight < |v| && v[b.nHeight] == b
    ensures v[h] == Ancestor(b, h)
  {
    AncestorsMeet(b, v[|v| - 1], b.nHeight, h);
  }

  lemma LocatorEnds(b: BlockIndex, step: nat, k: nat)
    requires b.Linked() && step > 0 && b.nHeight == 0
    ensures Hashes(LocatorBlocks(b, step, k)) == [b.hash]
  {
  }

  lemma LocatorUnfolds(b: BlockIndex, b': BlockIndex, step: nat, have: seq<nat>)
    requires b.Linked() && step > 0 && b.nHeight > 0
    requires b' == Ancestor(b, Max(b.nHeight - step, 0))
    ensures have + Hashes(LocatorBlocks(b, step, |have|))
            == (have + [b.hash]) + Hashes(LocatorBlocks(b', if |have| + 1 > 10 then 2 * step else step, |have| + 1))
  {
    var t := LocatorBlocks(b', if |have| + 1 > 10 then 2 * step else step, |have| + 1);
    assert LocatorBlocks(b, step, |have|) == [b] + t;
    assert Hashes([b] + t) == [b.hash] + Hashes(t);
  }
}
