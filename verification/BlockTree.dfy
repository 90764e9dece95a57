/** Block index entries: a tree of blocks linked by pprev, with skip pointers for fast ancestor search. */
module BlockTree {
  import opened Basics

  /** a & b */
  function BitAnd(a: nat, b: nat): (r: nat)
    ensures r <= a && r <= b
  {
    if a == 0 || b == 0 then 0 else 2 * BitAnd(a / 2, b / 2) + (a % 2) * (b % 2)
  }

  /** Turn the lowest one bit into a zero: n & (n - 1), which is 0 for n == 0. */
  function InvertLowestOne(n: nat): nat {
    if n == 0 then 0 else BitAnd(n, n - 1)
  }

  function GetSkipHeight(height: nat): (r: nat)
    ensures height > 0 ==> r < height
  {
    if height < 2 then 0
    else if height % 2 == 1 then InvertLowestOne(InvertLowestOne(height - 1)) + 1
    else InvertLowestOne(height)
  }

  lemma {:induction false} BitAndSelf(n: nat)
    ensures BitAnd(n, n) == n
  {
    if n > 0 {
      BitAndSelf(n / 2);
    }
  }

  lemma LowestOfOdd(q: nat)
    ensures InvertLowestOne(2 * q + 1) == 2 * q
  {
    BitAndSelf(q);
  }

  lemma LowestOfEven(m: nat)
    requires m > 0
    ensures InvertLowestOne(2 * m) == 2 * InvertLowestOne(m)
  {
    var n := 2 * m;
    assert n / 2 == m && (n - 1) / 2 == m - 1 && n % 2 == 0;
  }

  /** An odd number times a power of two loses its lowest one bit. */
  lemma {:induction false} ClearsLowestOne(q: nat, k: nat)
    ensures InvertLowestOne((2 * q + 1) * Pow2(k)) == 2 * q * Pow2(k)
    decreases k
  {
    hide InvertLowestOne;
    if k == 0 {
      LowestOfOdd(q);
    } else {
      Doubled(2 * q + 1, Pow2(k - 1));
      Doubled(2 * q, Pow2(k - 1));
      Positive(2 * q + 1, k - 1);
      ClearsLowestOne(q, k - 1);
      LowestOfEven((2 * q + 1) * Pow2(k - 1));
    }
  }

  lemma Doubled(x: nat, p: nat)
    ensures x * (2 * p) == 2 * (x * p)
  {
  }

  lemma {:induction false} Positive(x: nat, k: nat)
    requires x > 0
    ensures x * Pow2(k) > 0
  {
    if k > 0 {
      Positive(x, k - 1);
      Doubled(x, Pow2(k - 1));
    }
  }

  lemma SkipOfEven(n: nat, m: nat)
    requires n == 2 * m && m > 0
    ensures GetSkipHeight(n) == InvertLowestOne(n) && GetSkipHeight(n + 1) == InvertLowestOne(InvertLowestOne(n)) + 1
  {
    hide InvertLowestOne;
  }

  /** An even height skips to where its lowest one bit is cleared, an odd one to where its two lowest above the last are. */
  lemma SkipHeightExact(q: nat, k: nat)
    requires k > 0
    ensures var n := (2 * q + 1) * Pow2(k);
            && GetSkipHeight(n) == 2 * q * Pow2(k)
            && GetSkipHeight(n + 1) == InvertLowestOne(2 * q * Pow2(k)) + 1
  {
    hide InvertLowestOne, GetSkipHeight;
    ClearsLowestOne(q, k);
    Doubled(2 * q + 1, Pow2(k - 1));
    Positive(2 * q + 1, k - 1);
    SkipOfEven((2 * q + 1) * Pow2(k), (2 * q + 1) * Pow2(k - 1));
  }

  /** An entry is complete once it is in the index, so its links do not change. */
  class BlockIndex {
    const pprev: BlockIndex?
    const pskip: BlockIndex?
    const nHeight: nat
    const hash: nat

    /** Heights count the links back to a block without predecessor. */
    ghost predicate Linked()
      decreases nHeight
    {
      if nHeight == 0 then pprev == null
      else pprev != null && pprev.nHeight == nHeight - 1 && pprev.Linked()
    }

    /** Linked, and every skip pointer on the way back leads to the ancestor at the skip height. */
    ghost predicate Valid()
      decreases nHeight
    {
      && Linked()
      && (nHeight > 0 ==> pprev.Valid() && pskip == Ancestor(this, GetSkipHeight(nHeight)))
    }

    /** Enter a block into the index on top of prev and build its skip pointer. */
    constructor (prev: BlockIndex?, blockHash: nat)
      requires prev != null ==> prev.Valid()
      ensures Valid() && pprev == prev && hash == blockHash
      ensures nHeight == if prev == null then 0 else prev.nHeight + 1
    {
      pprev, hash := prev, blockHash;
      if prev == null {
        nHeight := 0;
        pskip := null;
      } else {
        nHeight := prev.nHeight + 1;
        var skip := prev.GetAncestor(GetSkipHeight(prev.nHeight + 1));
        pskip := skip;
      }
    }

    /** Walk back, by skip pointer where that does not overshoot, to the ancestor at the given height. */
    method GetAncestor(height: int) returns (r: BlockIndex?)
      requires Valid()
      ensures if 0 <= height <= nHeight then r == Ancestor(this, height) else r == null
    {
      if height > nHeight || height < 0 {
        return null;
      }
      var pindexWalk: BlockIndex := this;
      var heightWalk := nHeight;
      while heightWalk > height
        invariant pindexWalk.Valid() && pindexWalk.nHeight == heightWalk
        invariant height <= heightWalk <= nHeight
        invariant Ancestor(pindexWalk, height) == Ancestor(this, height)
      {
        var heightSkip := GetSkipHeight(heightWalk);
        var heightSkipPrev := GetSkipHeight(heightWalk - 1);
        if heightSkip == height ||
           (heightSkip > height && !(heightSkipPrev < heightSkip - 2 && heightSkipPrev >= height)) {
          AncestorValid(pindexWalk, heightSkip);
          AncestorCompose(pindexWalk, heightSkip, height);
          pindexWalk := pindexWalk.pskip;
          heightWalk := heightSkip;
        } else {
          pindexWalk := pindexWalk.pprev;
          heightWalk := heightWalk - 1;
        }
      }
      r := pindexWalk;
    }
  }

  /** The ancestor of b at height h, by following pprev. */
  ghost function Ancestor(b: BlockIndex, h: int): (r: BlockIndex)
    requires b.Linked() && 0 <= h <= b.nHeight
    ensures r.Linked() && r.nHeight == h
    decreases b.nHeight
  {
    if h == b.nHeight then b else Ancestor(b.pprev, h)
  }

  lemma {:induction false} AncestorCompose(b: BlockIndex, k: int, h: int)
    requires b.Linked() && 0 <= h <= k <= b.nHeight
    ensures Ancestor(Ancestor(b, k), h) == Ancestor(b, h)
    decreases b.nHeight
  {
    if k < b.nHeight {
      AncestorCompose(b.pprev, k, h);
    }
  }

  lemma {:induction false} AncestorValid(b: BlockIndex, h: int)
    requires b.Valid() && 0 <= h <= b.nHeight
    ensures Ancestor(b, h).Valid()
    decreases b.nHeight
  {
    if h < b.nHeight {
      AncestorValid(b.pprev, h);
    }
  }

  /** Two chains that meet at one height agree below it. */
  lemma AncestorsMeet(a: BlockIndex, b: BlockIndex, k: int, h: int)
    requires a.Linked() && b.Linked() && 0 <= h <= k <= a.nHeight && k <= b.nHeight
    requires Ancestor(a, k) == Ancestor(b, k)
    ensures Ancestor(a, h) == Ancestor(b, h)
  {
    AncestorCompose(a, k, h);
    AncestorCompose(b, k, h);
  }
}
