/** Encoding and decoding: the round trip through packed bytes, and the size of the encoding. */
module MerkleRoundTrip {
  import opened MerkleTree

  // ---------------------------------------------------------------- matches

  /** The masked transaction ids of the leaves lo..hi, in order. */
  function Matched(txids: seq<Digest>, mask: seq<bool>, lo: nat, hi: nat): seq<Digest>
    requires hi <= |txids| == |mask|
    decreases hi
  {
    if lo >= hi then [] else
      Matched(txids, mask, lo, hi - 1) + if mask[hi - 1] then [txids[hi - 1]] else []
  }

  lemma {:induction false} MatchedSplits(txids: seq<Digest>, mask: seq<bool>, lo: nat, mid: nat, hi: nat)
    requires lo <= mid <= hi <= |txids| == |mask|
    ensures Matched(txids, mask, lo, hi) == Matched(txids, mask, lo, mid) + Matched(txids, mask, mid, hi)
    decreases hi
  {
    if mid < hi {
      MatchedSplits(txids, mask, lo, mid, hi - 1);
    }
  }

  lemma {:induction false} MatchedNone(txids: seq<Digest>, mask: seq<bool>, lo: nat, hi: nat)
    requires lo <= hi <= |txids| == |mask|
    requires forall p :: lo <= p < hi ==> !mask[p]
    ensures Matched(txids, mask, lo, hi) == []
    decreases hi
  {
    if lo < hi {
      MatchedNone(txids, mask, lo, hi - 1);
    }
  }

  // ---------------------------------------------------------------- equal siblings

  /** Some node that the encoder descends into has two children with the same digest. */
  predicate Twins(h: nat, pos: nat, txids: seq<Digest>, mask: seq<bool>)
    requires |mask| == |txids| && Shl(pos, h) < |txids|
    decreases h
  {
    h > 0 && ParentOfMatch(h, pos, mask) && (
      Children(pos, h);
      WidthSpec(|txids|, 2 * pos + 1, h - 1);
      || Twins(h - 1, 2 * pos, txids, mask)
      || (2 * pos + 1 < Width(|txids|, h - 1) && (
            || Twins(h - 1, 2 * pos + 1, txids, mask)
            || CalcHash(h - 1, 2 * pos, txids) == CalcHash(h - 1, 2 * pos + 1, txids))))
  }

  ghost predicate Distinct(txids: seq<Digest>) {
    forall i, j :: 0 <= i < j < |txids| ==> txids[i] != txids[j]
  }

  /** Equal digests at one height have equal first leaves. */
  lemma {:induction false} EqualHashesEqualLeaves(h: nat, p: nat, q: nat, txids: seq<Digest>)
    requires Shl(p, h) < |txids| && Shl(q, h) < |txids|
    requires CalcHash(h, p, txids) == CalcHash(h, q, txids)
    ensures txids[Shl(p, h)] == txids[Shl(q, h)]
    decreases h
  {
    if h > 0 {
      EqualHashesEqualLeaves(h - 1, 2 * p, 2 * q, txids);
    }
  }

  lemma {:induction false} DistinctNoTwins(h: nat, pos: nat, txids: seq<Digest>, mask: seq<bool>)
    requires |mask| == |txids| && Shl(pos, h) < |txids| && Distinct(txids)
    ensures !Twins(h, pos, txids, mask)
    decreases h
  {
    if h > 0 && ParentOfMatch(h, pos, mask) {
      Children(pos, h);
      WidthSpec(|txids|, 2 * pos + 1, h - 1);
      DistinctNoTwins(h - 1, 2 * pos, txids, mask);
      if 2 * pos + 1 < Width(|txids|, h - 1) {
        DistinctNoTwins(h - 1, 2 * pos + 1, txids, mask);
        if CalcHash(h - 1, 2 * pos, txids) == CalcHash(h - 1, 2 * pos + 1, txids) {
          EqualHashesEqualLeaves(h - 1, 2 * pos, 2 * pos + 1, txids);
        }
      }
    }
  }

  // ---------------------------------------------------------------- one subtree

  /** The slice of xs from i is `part`, possibly followed by more. */
  ghost predicate At<T>(xs: seq<T>, i: nat, part: seq<T>) {
    i + |part| <= |xs| && xs[i..i + |part|] == part
  }

  lemma AtSplits<T>(xs: seq<T>, i: nat, a: seq<T>, b: seq<T>)
    requires At(xs, i, a + b)
    ensures At(xs, i, a) && At(xs, i + |a|, b)
  {
    assert xs[i..i + |a|] == (a + b)[..|a|];
    assert xs[i + |a|..i + |a| + |b|] == (a + b)[|a|..];
  }

  /** The decoder's cursor after a subtree that the encoder wrote. */
  function Past(h: nat, pos: nat, txids: seq<Digest>, mask: seq<bool>, c: Cursor): Cursor
    requires |mask| == |txids| && Shl(pos, h) < |txids|
  {
    var (b, hs) := Build(h, pos, txids, mask);
    Cursor(c.bits + |b|, c.hashes + |hs|,
           c.matches + Matched(txids, mask, Shl(pos, h), Upper(h, pos, |txids|)),
           c.bad || Twins(h, pos, txids, mask))
  }

  lemma UpperAbove(h: nat, pos: nat, n: nat)
    requires Shl(pos, h) < n
    ensures Shl(pos, h) <= Upper(h, pos, n)
    ensures h == 0 ==> Upper(h, pos, n) == pos + 1
  {
    ShlAdd(pos, 1, h);
    ShlPositive(h);
  }

  /** A leaf, or a subtree without matches, takes one bit and one hash. */
  lemma ExtractLeaf(h: nat, pos: nat, txids: seq<Digest>, mask: seq<bool>, vBits: seq<bool>, vHash: seq<Digest>, c: Cursor)
    requires |mask| == |txids| && Shl(pos, h) < |txids|
    requires h == 0 || !ParentOfMatch(h, pos, mask)
    requires At(vBits, c.bits, Build(h, pos, txids, mask).0)
    requires At(vHash, c.hashes, Build(h, pos, txids, mask).1)
    ensures Extract(h, pos, |txids|, vBits, vHash, c) == (CalcHash(h, pos, txids), Past(h, pos, txids, mask, c))
  {
    UpperAbove(h, pos, |txids|);
    var f := ParentOfMatch(h, pos, mask);
    assert vBits[c.bits..c.bits + 1][0] == f;
    assert vHash[c.hashes..c.hashes + 1][0] == CalcHash(h, pos, txids);
    if !f {
      MatchedNone(txids, mask, Shl(pos, h), Upper(h, pos, |txids|));
      assert c.matches + [] == c.matches;
    } else {
      assert Matched(txids, mask, pos, pos) == [];
      assert Matched(txids, mask, pos, pos + 1) == [txids[pos]];
    }
  }

  /** What the encoder wrote for a subtree decodes to its digest, its masked leaves, and the twin check. */
  ghost predicate Decodes(h: nat, pos: nat, txids: seq<Digest>, mask: seq<bool>, vBits: seq<bool>, vHash: seq<Digest>, c: Cursor)
    requires |mask| == |txids| && Shl(pos, h) < |txids|
  {
    Extract(h, pos, |txids|, vBits, vHash, c) == (CalcHash(h, pos, txids), Past(h, pos, txids, mask, c))
  }

  lemma PastBoth(h: nat, pos: nat, txids: seq<Digest>, mask: seq<bool>, c: Cursor)
    requires |mask| == |txids| && Shl(pos, h) < |txids| && h > 0 && ParentOfMatch(h, pos, mask)
    requires Shl(2 * pos + 1, h - 1) < |txids| && Shl(2 * pos, h - 1) < |txids|
    ensures var c2 := Past(h - 1, 2 * pos, txids, mask, c.(bits := c.bits + 1));
            var c3 := Past(h - 1, 2 * pos + 1, txids, mask, c2);
            var twin := CalcHash(h - 1, 2 * pos, txids) == CalcHash(h - 1, 2 * pos + 1, txids);
            Past(h, pos, txids, mask, c) == c3.(bad := c3.bad || twin)
  {
    hide Build, CalcHash, ParentOfMatch, Matched, Width;
    var n := |txids|;
    Children(pos, h);
    WidthSpec(n, 2 * pos + 1, h - 1);
    BuildBoth(h, pos, txids, mask);
    assert Shl(2 * pos + 1 + 1, h - 1) == Shl(pos + 1, h);
    MatchedSplits(txids, mask, Shl(pos, h), Shl(2 * pos + 1, h - 1), Upper(h, pos, n));
  }

  lemma PastOne(h: nat, pos: nat, txids: seq<Digest>, mask: seq<bool>, c: Cursor)
    requires |mask| == |txids| && Shl(pos, h) < |txids| && h > 0 && ParentOfMatch(h, pos, mask)
    requires Shl(2 * pos + 1, h - 1) >= |txids| && Shl(2 * pos, h - 1) < |txids|
    ensures Past(h, pos, txids, mask, c) == Past(h - 1, 2 * pos, txids, mask, c.(bits := c.bits + 1))
  {
    Children(pos, h);
    WidthSpec(|txids|, 2 * pos + 1, h - 1);
  }

  lemma {:induction false} ExtractBuilt(h: nat, pos: nat, txids: seq<Digest>, mask: seq<bool>, vBits: seq<bool>, vHash: seq<Digest>, c: Cursor)
    requires |mask| == |txids| && Shl(pos, h) < |txids|
    requires At(vBits, c.bits, Build(h, pos, txids, mask).0)
    requires At(vHash, c.hashes, Build(h, pos, txids, mask).1)
    ensures Decodes(h, pos, txids, mask, vBits, vHash, c)
    decreases h, 1
  {
    UpperAbove(h, pos, |txids|);
    if h == 0 || !ParentOfMatch(h, pos, mask) {
      ExtractLeaf(h, pos, txids, mask, vBits, vHash, c);
    } else {
      Children(pos, h);
      WidthSpec(|txids|, 2 * pos + 1, h - 1);
      if 2 * pos + 1 < Width(|txids|, h - 1) {
        ExtractBoth(h, pos, txids, mask, vBits, vHash, c);
      } else {
        ExtractOne(h, pos, txids, mask, vBits, vHash, c);
      }
    }
  }

  lemma ExtractUnfolds(h: nat, pos: nat, n: nat, vBits: seq<bool>, vHash: seq<Digest>, c: Cursor, left: Digest, right: Digest, c2: Cursor, c3: Cursor)
    requires h > 0 && c.bits < |vBits| && vBits[c.bits] && 2 * pos + 1 < Width(n, h - 1)
    requires Extract(h - 1, 2 * pos, n, vBits, vHash, c.(bits := c.bits + 1)) == (left, c2)
    requires Extract(h - 1, 2 * pos + 1, n, vBits, vHash, c2) == (right, c3)
    ensures Extract(h, pos, n, vBits, vHash, c) == (Node(left, right), c3.(bad := c3.bad || right == left))
  {
  }

  lemma AtBoth(h: nat, pos: nat, txids: seq<Digest>, mask: seq<bool>, vBits: seq<bool>, vHash: seq<Digest>, c: Cursor)
    requires |mask| == |txids| && Shl(pos, h) < |txids| && h > 0 && ParentOfMatch(h, pos, mask)
    requires Shl(2 * pos + 1, h - 1) < |txids| && Shl(2 * pos, h - 1) < |txids|
    requires At(vBits, c.bits, Build(h, pos, txids, mask).0)
    requires At(vHash, c.hashes, Build(h, pos, txids, mask).1)
    ensures var (lb, lh) := Build(h - 1, 2 * pos, txids, mask);
            var (rb, rh) := Build(h - 1, 2 * pos + 1, txids, mask);
            && c.bits < |vBits| && vBits[c.bits]
            && At(vBits, c.bits + 1, lb) && At(vBits, c.bits + 1 + |lb|, rb)
            && At(vHash, c.hashes, lh) && At(vHash, c.hashes + |lh|, rh)
  {
    hide Build, ParentOfMatch, Width, Shl;
    WidthSpec(|txids|, 2 * pos + 1, h - 1);
    BuildBoth(h, pos, txids, mask);
    var (lb, lh) := Build(h - 1, 2 * pos, txids, mask);
    var (rb, rh) := Build(h - 1, 2 * pos + 1, txids, mask);
    assert [true] + lb + rb == [true] + (lb + rb);
    AtSplits(vBits, c.bits, [true], lb + rb);
    AtSplits(vBits, c.bits + 1, lb, rb);
    AtSplits(vHash, c.hashes, lh, rh);
    assert vBits[c.bits..c.bits + 1][0];
  }

  lemma {:induction false} ExtractBoth(h: nat, pos: nat, txids: seq<Digest>, mask: seq<bool>, vBits: seq<bool>, vHash: seq<Digest>, c: Cursor)
    requires |mask| == |txids| && Shl(pos, h) < |txids| && h > 0 && ParentOfMatch(h, pos, mask)
    requires Shl(2 * pos + 1, h - 1) < |txids| && Shl(2 * pos, h - 1) < |txids|
    requires At(vBits, c.bits, Build(h, pos, txids, mask).0)
    requires At(vHash, c.hashes, Build(h, pos, txids, mask).1)
    ensures Decodes(h, pos, txids, mask, vBits, vHash, c)
    decreases h, 0
  {
    hide Build, Extract, CalcHash, Twins, ParentOfMatch, Matched, Shl, Width, Upper, At;
    WidthSpec(|txids|, 2 * pos + 1, h - 1);
    CalcBoth(h, pos, txids);
    AtBoth(h, pos, txids, mask, vBits, vHash, c);
    var c1 := c.(bits := c.bits + 1);
    ExtractBuilt(h - 1, 2 * pos, txids, mask, vBits, vHash, c1);
    var c2 := Past(h - 1, 2 * pos, txids, mask, c1);
    ExtractBuilt(h - 1, 2 * pos + 1, txids, mask, vBits, vHash, c2);
    var left, right := CalcHash(h - 1, 2 * pos, txids), CalcHash(h - 1, 2 * pos + 1, txids);
    var c3 := Past(h - 1, 2 * pos + 1, txids, mask, c2);
    ExtractUnfolds(h, pos, |txids|, vBits, vHash, c, left, right, c2, c3);
    PastBoth(h, pos, txids, mask, c);
  }

  lemma {:induction false} ExtractOne(h: nat, pos: nat, txids: seq<Digest>, mask: seq<bool>, vBits: seq<bool>, vHash: seq<Digest>, c: Cursor)
    requires |mask| == |txids| && Shl(pos, h) < |txids| && h > 0 && ParentOfMatch(h, pos, mask)
    requires Shl(2 * pos + 1, h - 1) >= |txids| && Shl(2 * pos, h - 1) < |txids|
    requires At(vBits, c.bits, Build(h, pos, txids, mask).0)
    requires At(vHash, c.hashes, Build(h, pos, txids, mask).1)
    ensures Decodes(h, pos, txids, mask, vBits, vHash, c)
    decreases h, 0
  {
    WidthSpec(|txids|, 2 * pos + 1, h - 1);
    PastOne(h, pos, txids, mask, c);
    var lb := Build(h - 1, 2 * pos, txids, mask).0;
    AtSplits(vBits, c.bits, [true], lb);
    assert vBits[c.bits..c.bits + 1][0];
    ExtractBuilt(h - 1, 2 * pos, txids, mask, vBits, vHash, c.(bits := c.bits + 1));
  }

  // ---------------------------------------------------------------- the size of the encoding

  /** How many nodes with a single child the encoder descends into. */
  function Singles(h: nat, pos: nat, txids: seq<Digest>, mask: seq<bool>): nat
    requires |mask| == |txids| && Shl(pos, h) < |txids|
    decreases h
  {
    if h == 0 || !ParentOfMatch(h, pos, mask) then 0 else
      Children(pos, h);
      WidthSpec(|txids|, 2 * pos + 1, h - 1);
      var left := Singles(h - 1, 2 * pos, txids, mask);
      if 2 * pos + 1 < Width(|txids|, h - 1) then left + Singles(h - 1, 2 * pos + 1, txids, mask) else left + 1
  }

  function CountMatches(mask: seq<bool>, lo: nat, hi: nat): nat
    requires hi <= |mask|
    decreases hi
  {
    if lo >= hi then 0 else CountMatches(mask, lo, hi - 1) + if mask[hi - 1] then 1 else 0
  }

  lemma {:induction false} CountSplits(mask: seq<bool>, lo: nat, mid: nat, hi: nat)
    requires lo <= mid <= hi <= |mask|
    ensures CountMatches(mask, lo, hi) == CountMatches(mask, lo, mid) + CountMatches(mask, mid, hi)
    decreases hi
  {
    if mid < hi {
      CountSplits(mask, lo, mid, hi - 1);
    }
  }

  lemma {:induction false} CountPositive(mask: seq<bool>, lo: nat, hi: nat, p: nat)
    requires lo <= p < hi <= |mask| && mask[p]
    ensures CountMatches(mask, lo, hi) > 0
    decreases hi
  {
    if p < hi - 1 {
      CountPositive(mask, lo, hi - 1, p);
    }
  }

  /** One bit per visited node: exactly one more than twice the hashes less two, plus the single-child nodes. */
  lemma {:induction false} BitCount(h: nat, pos: nat, txids: seq<Digest>, mask: seq<bool>)
    requires |mask| == |txids| && Shl(pos, h) < |txids|
    ensures var (b, hs) := Build(h, pos, txids, mask);
            |b| == 2 * |hs| - 1 + Singles(h, pos, txids, mask) && |hs| >= 1
    decreases h
  {
    if h > 0 && ParentOfMatch(h, pos, mask) {
      Children(pos, h);
      WidthSpec(|txids|, 2 * pos + 1, h - 1);
      BitCount(h - 1, 2 * pos, txids, mask);
      if 2 * pos + 1 < Width(|txids|, h - 1) {
        BitCount(h - 1, 2 * pos + 1, txids, mask);
      }
    }
  }

  /** At most one hash per leaf. */
  lemma {:induction false} HashesPerLeaf(h: nat, pos: nat, txids: seq<Digest>, mask: seq<bool>)
    requires |mask| == |txids| && Shl(pos, h) < |txids|
    ensures Shl(pos, h) + |Build(h, pos, txids, mask).1| <= Upper(h, pos, |txids|)
    ensures (forall p :: 0 <= p < |mask| ==> mask[p]) ==>
            Shl(pos, h) + |Build(h, pos, txids, mask).1| == Upper(h, pos, |txids|)
    decreases h
  {
    hide Build, CalcHash, Width, Shl, Upper;
    var n := |txids|;
    if h == 0 {
      LeafRange(pos, n);
      BuildStops(h, pos, txids, mask);
    } else {
      UpperChildren(h, pos, n);
      if !ParentOfMatch(h, pos, mask) {
        BuildStops(h, pos, txids, mask);
        FirstLeafBelow(h, pos, mask);
      } else {
        HashesPerLeaf(h - 1, 2 * pos, txids, mask);
        if 2 * pos + 1 >= Width(n, h - 1) {
          BuildOne(h, pos, txids, mask);
        } else {
          BuildBoth(h, pos, txids, mask);
          HashesPerLeaf(h - 1, 2 * pos + 1, txids, mask);
        }
      }
    }
  }

  lemma FirstLeafBelow(h: nat, pos: nat, mask: seq<bool>)
    ensures Shl(pos, h) < |mask| && mask[Shl(pos, h)] ==> ParentOfMatch(h, pos, mask)
  {
    ShlAdd(pos, 1, h);
    ShlPositive(h);
  }

  /** m * h, unrolled over the levels */
  function PerLevel(m: nat, h: nat): nat { if h == 0 then 0 else m + PerLevel(m, h - 1) }

  lemma {:induction false} PerLevelProduct(m: nat, h: nat)
    ensures PerLevel(m, h) == m * h
  {
    if h > 0 {
      PerLevelProduct(m, h - 1);
      assert m * h == m * (h - 1) + m;
    }
  }

  lemma {:induction false} PerLevelAdd(a: nat, b: nat, h: nat)
    ensures PerLevel(a + b, h) == PerLevel(a, h) + PerLevel(b, h)
  {
    if h > 0 {
      PerLevelAdd(a, b, h - 1);
    }
  }

  lemma CountOfParent(h: nat, pos: nat, mask: seq<bool>)
    requires ParentOfMatch(h, pos, mask)
    ensures CountMatches(mask, Shl(pos, h), Upper(h, pos, |mask|)) > 0
  {
    var p :| Shl(pos, h) <= p < Shl(pos + 1, h) && p < |mask| && mask[p];
    CountPositive(mask, Shl(pos, h), Upper(h, pos, |mask|), p);
  }

  /** At most one hash, and one more per match and level. */
  lemma {:induction false} HashesPerMatch(h: nat, pos: nat, txids: seq<Digest>, mask: seq<bool>)
    requires |mask| == |txids| && Shl(pos, h) < |txids|
    ensures |Build(h, pos, txids, mask).1| <= 1 + PerLevel(CountMatches(mask, Shl(pos, h), Upper(h, pos, |txids|)), h)
    decreases h
  {
    hide Build, CalcHash, Width, CountMatches, ParentOfMatch, Shl, Upper;
    var n := |txids|;
    if h == 0 || !ParentOfMatch(h, pos, mask) {
      BuildStops(h, pos, txids, mask);
    } else {
      var m := CountMatches(mask, Shl(pos, h), Upper(h, pos, n));
      UpperChildren(h, pos, n);
      CountOfParent(h, pos, mask);
      HashesPerMatch(h - 1, 2 * pos, txids, mask);
      if 2 * pos + 1 >= Width(n, h - 1) {
        BuildOne(h, pos, txids, mask);
      } else {
        BuildBoth(h, pos, txids, mask);
        HashesPerMatch(h - 1, 2 * pos + 1, txids, mask);
        CountSplits(mask, Shl(pos, h), Shl(2 * pos + 1, h - 1), Upper(h, pos, n));
        var a := CountMatches(mask, Shl(pos, h), Shl(2 * pos + 1, h - 1));
        PerLevelAdd(a, m - a, h - 1);
      }
    }
  }

  /** Single-child nodes lie on the right edge, one per level at most. */
  lemma {:induction false} SinglesOnEdge(h: nat, pos: nat, txids: seq<Digest>, mask: seq<bool>)
    requires |mask| == |txids| && Shl(pos, h) < |txids|
    ensures Singles(h, pos, txids, mask) <= h
    ensures Shl(pos + 1, h) <= |txids| ==> Singles(h, pos, txids, mask) == 0
    decreases h
  {
    if h > 0 && ParentOfMatch(h, pos, mask) {
      Children(pos, h);
      WidthSpec(|txids|, 2 * pos + 1, h - 1);
      SinglesOnEdge(h - 1, 2 * pos, txids, mask);
      if 2 * pos + 1 < Width(|txids|, h - 1) {
        assert Shl(2 * pos + 1 + 1, h - 1) == Shl(pos + 1, h);
        SinglesOnEdge(h - 1, 2 * pos + 1, txids, mask);
      }
    }
  }

  /** A node of height k with one child, above a match: what a caller can look for in the mask. */
  ghost predicate SingleAboveMatch(k: nat, q: nat, mask: seq<bool>) {
    k > 0 && Shl(q, k) < |mask| <= Shl(2 * q + 1, k - 1) && ParentOfMatch(k, q, mask)
  }

  /** Node (k, q) is in the subtree of node (h, pos). */
  ghost predicate Below(k: nat, q: nat, h: nat, pos: nat) {
    k <= h && Shl(pos, h) <= Shl(q, k) && Shl(q + 1, k) <= Shl(pos + 1, h)
  }

  lemma {:induction false} SinglesFound(h: nat, pos: nat, txids: seq<Digest>, mask: seq<bool>) returns (k: nat, q: nat)
    requires |mask| == |txids| && Shl(pos, h) < |txids| && Singles(h, pos, txids, mask) > 0
    ensures k <= h && SingleAboveMatch(k, q, mask)
    decreases h
  {
    Children(pos, h);
    WidthSpec(|txids|, 2 * pos + 1, h - 1);
    if 2 * pos + 1 >= Width(|txids|, h - 1) {
      k, q := h, pos;
    } else if Singles(h - 1, 2 * pos, txids, mask) > 0 {
      k, q := SinglesFound(h - 1, 2 * pos, txids, mask);
    } else {
      k, q := SinglesFound(h - 1, 2 * pos + 1, txids, mask);
    }
  }

  lemma {:induction false} ShlMonotone(x: nat, y: nat, h: nat)
    ensures x < y ==> Shl(x, h) < Shl(y, h)
    ensures x <= y ==> Shl(x, h) <= Shl(y, h)
    decreases h
  {
    if h > 0 {
      ShlMonotone(2 * x, 2 * y, h - 1);
    }
  }

  lemma BelowIsAbove(h: nat, pos: nat, k: nat, q: nat, mask: seq<bool>)
    requires Below(k, q, h, pos) && ParentOfMatch(k, q, mask)
    ensures ParentOfMatch(h, pos, mask)
  {
    var p :| Shl(q, k) <= p < Shl(q + 1, k) && p < |mask| && mask[p];
    assert Shl(pos, h) <= p < Shl(pos + 1, h);
  }

  /** A node strictly below another is below one of its children. */
  lemma BelowChild(h: nat, pos: nat, k: nat, q: nat)
    requires Below(k, q, h, pos) && k < h
    ensures Below(k, q, h - 1, 2 * pos) || Below(k, q, h - 1, 2 * pos + 1)
  {
    Children(pos, h);
    assert Shl(2 * pos + 1 + 1, h - 1) == Shl(pos + 1, h);
    var mid := Shl(2 * pos + 1, h - 1);
    if Shl(q, k) < mid < Shl(q + 1, k) {
      ShlCompose(2 * pos + 1, h - 1 - k, k);
      var x := Shl(2 * pos + 1, h - 1 - k);
      ShlMonotone(x, q + 1, k);
      ShlMonotone(q, x, k);
      ShlMonotone(q + 1, x, k);
      ShlMonotone(x, q, k);
    }
  }

  lemma {:induction false} SinglesCounted(h: nat, pos: nat, txids: seq<Digest>, mask: seq<bool>, k: nat, q: nat)
    requires |mask| == |txids| && Shl(pos, h) < |txids|
    requires Below(k, q, h, pos) && SingleAboveMatch(k, q, mask)
    ensures Singles(h, pos, txids, mask) > 0
    decreases h
  {
    BelowIsAbove(h, pos, k, q, mask);
    Children(pos, h);
    WidthSpec(|txids|, 2 * pos + 1, h - 1);
    if k == h {
      ShlMonotone(pos, q, h);
      ShlMonotone(q, pos, h);
      ShlMonotone(q + 1, pos + 1, h);
      ShlMonotone(pos + 1, q + 1, h);
      assert q == pos;
    } else {
      BelowChild(h, pos, k, q);
      if 2 * pos + 1 < Width(|txids|, h - 1) {
        if Below(k, q, h - 1, 2 * pos) {
          SinglesCounted(h - 1, 2 * pos, txids, mask, k, q);
        } else {
          SinglesCounted(h - 1, 2 * pos + 1, txids, mask, k, q);
        }
      }
    }
  }

  lemma HeightSpans(n: nat)
    ensures n <= Shl(1, Height(n))
  {
    HeightCovers(n, 0);
  }

  lemma RootCoversAll(n: nat, k: nat, q: nat)
    requires n > 0 && k <= Height(n) && Shl(q, k) < n
    ensures Below(k, q, Height(n), 0)
  {
    hide Height, Shl;
    var h := Height(n);
    ShlZero(h);
    HeightSpans(n);
    ShlCompose(1, h - k, k);
    ShlMonotone(Shl(1, h - k), q, k);
    ShlMonotone(q + 1, Shl(1, h - k), k);
  }

  // ---------------------------------------------------------------- order of the hashes

  /** A node of the tree. */
  datatype Place = Place(h: nat, pos: nat)

  /** Nodes that cover the leaves from lo to hi without gap, from left to right. */
  ghost predicate Tiles(nodes: seq<Place>, lo: nat, hi: nat, n: nat)
    decreases |nodes|
  {
    if nodes == [] then lo == hi
    else
      var k := |nodes| - 1;
      && Shl(nodes[k].pos, nodes[k].h) < n && Upper(nodes[k].h, nodes[k].pos, n) == hi
      && Tiles(nodes[..k], lo, Shl(nodes[k].pos, nodes[k].h), n)
  }

  lemma {:induction false} TilesAppend(a: seq<Place>, b: seq<Place>, lo: nat, mid: nat, hi: nat, n: nat)
    requires Tiles(a, lo, mid, n) && Tiles(b, mid, hi, n)
    ensures Tiles(a + b, lo, hi, n)
    decreases |b|
  {
    if b == [] {
      assert a + b == a;
    } else {
      var k := |b| - 1;
      TilesAppend(a, b[..k], lo, mid, Shl(b[k].pos, b[k].h), n);
      assert (a + b)[..|a + b| - 1] == a + b[..k];
    }
  }

  /** Each hash is the digest of its node, and a node above a leaf has no match below. */
  ghost predicate Covered(nodes: seq<Place>, hashes: seq<Digest>, txids: seq<Digest>, mask: seq<bool>) {
    && |nodes| == |hashes|
    && forall i :: 0 <= i < |nodes| ==>
         && Shl(nodes[i].pos, nodes[i].h) < |txids| && hashes[i] == CalcHash(nodes[i].h, nodes[i].pos, txids)
         && (nodes[i].h > 0 ==> !ParentOfMatch(nodes[i].h, nodes[i].pos, mask))
  }

  /** The stored hashes cover the leaves of a subtree from left to right. */
  lemma {:induction false} BuildTiles(h: nat, pos: nat, txids: seq<Digest>, mask: seq<bool>) returns (nodes: seq<Place>)
    requires |mask| == |txids| && Shl(pos, h) < |txids|
    ensures Tiles(nodes, Shl(pos, h), Upper(h, pos, |txids|), |txids|)
    ensures Covered(nodes, Build(h, pos, txids, mask).1, txids, mask)
    decreases h
  {
    hide Build, CalcHash, Width, Shl, Upper, ParentOfMatch;
    var n := |txids|;
    if h == 0 || !ParentOfMatch(h, pos, mask) {
      BuildStops(h, pos, txids, mask);
      nodes := [Place(h, pos)];
      assert nodes[..0] == [];
    } else {
      UpperChildren(h, pos, n);
      nodes := BuildTiles(h - 1, 2 * pos, txids, mask);
      if 2 * pos + 1 < Width(n, h - 1) {
        BuildBoth(h, pos, txids, mask);
        var more := BuildTiles(h - 1, 2 * pos + 1, txids, mask);
        TilesAppend(nodes, more, Shl(pos, h), Shl(2 * pos + 1, h - 1), Upper(h, pos, n), n);
        nodes := nodes + more;
      } else {
        BuildOne(h, pos, txids, mask);
      }
    }
  }

  /** The hashes of an encoding are digests of nodes that cover the transactions from left to right, matches only by leaves. */
  lemma EncodedInOrder(txids: seq<Digest>, mask: seq<bool>) returns (nodes: seq<Place>)
    requires |mask| == |txids| > 0
    ensures Tiles(nodes, 0, |txids|, |txids|) && Covered(nodes, Encode(txids, mask).1, txids, mask)
  {
    hide Build, Tiles, Covered;
    var h := Height(|txids|);
    ShlZero(h);
    HeightSpans(|txids|);
    nodes := BuildTiles(h, 0, txids, mask);
  }

  /** With every leaf matched the bits say so from the root down, and the hashes are the ids themselves. */
  lemma TwoMatched(a: Digest, b: Digest, first: bool)
    ensures Encode([a, b], [first, true]) == ([true, first, true], [a, b])
  {
    var t, m := [a, b], [first, true];
    assert Height(2) == 1;
    assert m[1] && m[0] == first && Shl(0, 0) == 0 && Shl(1, 0) == 1 && Shl(1, 1) == 2;
    assert ParentOfMatch(1, 0, m) && ParentOfMatch(0, 1, m) && (ParentOfMatch(0, 0, m) <==> first);
    assert Width(2, 0) == 2;
    var h, left, right := Height(|t|), 0, 1;
    assert Build(0, left, t, m) == ([first], [a]) && Build(0, right, t, m) == ([true], [b]);
    BuildBoth(h, left, t, m);
    assert [true] + [first] + [true] == [true, first, true] && [a] + [b] == [a, b];
  }

  // ---------------------------------------------------------------- main results

  /** The documented bounds on the number of hashes N: at most n, and at most 1 + m * h. */
  lemma EncodedHashes(txids: seq<Digest>, mask: seq<bool>)
    requires |mask| == |txids| > 0
    ensures 1 <= |Encode(txids, mask).1| <= |txids|
    ensures |Encode(txids, mask).1| <= 1 + CountMatches(mask, 0, |mask|) * Height(|txids|)
  {
    var n, h := |txids|, Height(|txids|);
    ShlZero(h);
    HeightCovers(n, 0);
    HashesPerLeaf(h, 0, txids, mask);
    HashesPerMatch(h, 0, txids, mask);
    BitCount(h, 0, txids, mask);
    PerLevelProduct(CountMatches(mask, 0, n), h);
  }

  /** With N hashes the encoder writes at least N and at most 2N - 1 + h flag bits. */
  lemma EncodedBits(txids: seq<Digest>, mask: seq<bool>)
    requires |mask| == |txids| > 0
    ensures var (b, hs) := Encode(txids, mask); |hs| <= |b| <= 2 * |hs| - 1 + Height(|txids|)
  {
    var h := Height(|txids|);
    ShlZero(h);
    BitCount(h, 0, txids, mask);
    SinglesOnEdge(h, 0, txids, mask);
  }

  /**
   The documented bound of 2N - 1 flag bits holds exactly when no single-child node lies
   above a match.
   */
  lemma DocumentedBitBound(txids: seq<Digest>, mask: seq<bool>)
    requires |mask| == |txids| > 0
    ensures var (b, hs) := Encode(txids, mask);
            |b| <= 2 * |hs| - 1 <==> !(exists k: nat, q: nat :: k <= Height(|txids|) && SingleAboveMatch(k, q, mask))
  {
    var h := Height(|txids|);
    ShlZero(h);
    BitCount(h, 0, txids, mask);
    if Singles(h, 0, txids, mask) > 0 {
      var k, q := SinglesFound(h, 0, txids, mask);
      assert SingleAboveMatch(k, q, mask);
    }
    forall k: nat, q: nat | k <= h && SingleAboveMatch(k, q, mask)
      ensures Singles(h, 0, txids, mask) > 0
    {
      RootCoversAll(|txids|, k, q);
      SinglesCounted(h, 0, txids, mask, k, q);
    }
  }

  /** Three transactions with only the last one matched take four flag bits for two hashes. */
  lemma DocumentedBitBoundFails(a: Digest, b: Digest, c: Digest)
    ensures var (bits, hs) := Encode([a, b, c], [false, false, true]); |bits| == 4 && |hs| == 2
  {
    var t, m := [a, b, c], [false, false, true];
    assert Height(3) == 2;
    assert m[2];
    assert ParentOfMatch(2, 0, m) && !ParentOfMatch(1, 0, m) && ParentOfMatch(1, 1, m);
    assert Width(3, 1) == 2 && Width(3, 0) == 3;
    assert |Build(1, 1, t, m).0| == 2 && |Build(1, 1, t, m).1| == 1;
    assert |Build(1, 0, t, m).0| == 1 && |Build(1, 0, t, m).1| == 1;
  }

  /** Bytes of the variable-length count that precedes a vector. */
  function CompactSize(x: nat): nat {
    if x < 253 then 1 else if x <= 0xFFFF then 3 else if x <= 0xFFFF_FFFF then 5 else 9
  }

  /** Bytes of the serialized tree: count, hashes and flag bytes, the two vectors with their lengths. */
  function SerializedSize(txids: seq<Digest>, mask: seq<bool>): nat
    requires |mask| == |txids| > 0
  {
    var (b, hs) := Encode(txids, mask);
    4 + CompactSize(|hs|) + 32 * |hs| + CompactSize((|b| + 7) / 8) + (|b| + 7) / 8
  }

  /** 10 + ceil(32.25 * N) */
  function DocumentedSize(hashes: nat): nat { 10 + 32 * hashes + (hashes + 3) / 4 }

  /** Singles(h, 0, ..), the single-child nodes above a match in the whole tree. */
  function AllSingles(txids: seq<Digest>, mask: seq<bool>): nat
    requires |mask| == |txids| > 0
  {
    ShlZero(Height(|txids|));
    Singles(Height(|txids|), 0, txids, mask)
  }

  lemma EncodedExactly(txids: seq<Digest>, mask: seq<bool>)
    requires |mask| == |txids| > 0
    ensures var (b, hs) := Encode(txids, mask);
            |hs| >= 1 && |b| == 2 * |hs| - 1 + AllSingles(txids, mask) && AllSingles(txids, mask) <= Height(|txids|)
  {
    var h := Height(|txids|);
    ShlZero(h);
    BitCount(h, 0, txids, mask);
    SinglesOnEdge(h, 0, txids, mask);
    EncodedHashes(txids, mask);
  }

  /** What the size of N hashes and s single-child nodes comes to, against the documented guarantee. */
  lemma SizeArithmetic(n: nat, s: nat)
    requires n >= 1 && s <= 32
    ensures var f := (2 * n + 6 + s) / 8;
            4 + CompactSize(n) + 32 * n + CompactSize(f) + f <= DocumentedSize(n) <==>
            n < 253 || (n <= 0xFFFF && (2 * n + 6) % 8 + s < if f < 253 then 24 else 8)
  {
  }

  /**
   Exactly when the documented size guarantee holds, for any 32-bit number of transactions:
   always below 253 hashes, never above 65535, and in between when the single-child nodes do
   not push the flag bits over a byte boundary (over the third one while the count of flag
   bytes still takes one byte).
   */
  lemma SizeExact(txids: seq<Digest>, mask: seq<bool>)
    requires |mask| == |txids| > 0 && |txids| <= 0xFFFF_FFFF
    ensures var hashes, singles := |Encode(txids, mask).1|, AllSingles(txids, mask);
            SerializedSize(txids, mask) <= DocumentedSize(hashes) <==>
            hashes < 253 ||
            (hashes <= 0xFFFF && (2 * hashes + 6) % 8 + singles < if (2 * hashes + 6 + singles) / 8 < 253 then 24 else 8)
  {
    hide Encode, CompactSize, DocumentedSize, AllSingles, Height;
    EncodedExactly(txids, mask);
    Height32(|txids|);
    SizeArithmetic(|Encode(txids, mask).1|, AllSingles(txids, mask));
  }

  lemma Height32(n: nat)
    requires n <= 0xFFFF_FFFF
    ensures Height(n) <= 32
  {
    hide Shl, Width, HeightFrom;
    var ten, k := 10, 32;
    Powers(1);
    Powers(0x400);
    Powers(0x10_0000);
    Powers(0x4000_0000);
    ShlCompose(1, ten, ten);
    ShlCompose(1, 2 * ten, ten);
    ShlCompose(1, 3 * ten, 2);
    HeightLeast(n, 0, k);
  }

  lemma Powers(x: nat)
    ensures Shl(x, 1) == 2 * x && Shl(x, 2) == 4 * x && Shl(x, 3) == 8 * x && Shl(x, 4) == 16 * x && Shl(x, 5) == 32 * x
    ensures Shl(x, 6) == 64 * x && Shl(x, 7) == 128 * x && Shl(x, 8) == 256 * x && Shl(x, 9) == 512 * x && Shl(x, 10) == 1024 * x
  {
    assert Shl(x, 1) == 2 * x;
    forall h | 1 <= h < 10 ensures Shl(x, h + 1) == 2 * Shl(x, h) { ShlDouble(x, h); }
    assert Shl(x, 5) == 32 * x;
  }

  lemma {:induction false} HeightLeast(n: nat, h: nat, k: nat)
    requires h <= k && n <= Shl(1, k)
    ensures HeightFrom(n, h) <= k
    decreases k - h
  {
    WidthSpec(n, 1, h);
    if Width(n, h) > 1 && h < k {
      HeightLeast(n, h + 1, k);
    }
  }

  /** With every leaf matched, only the rightmost child of a node can have single-child nodes below it. */
  lemma RightEdge(h: nat, pos: nat, txids: seq<Digest>, mask: seq<bool>)
    requires |mask| == |txids| && h > 0 && Shl(pos, h) < |txids| && forall p :: 0 <= p < |mask| ==> mask[p]
    ensures Shl(2 * pos, h - 1) < |txids|
    ensures Singles(h, pos, txids, mask) ==
            if Shl(2 * pos + 1, h - 1) < |txids| then Singles(h - 1, 2 * pos + 1, txids, mask)
            else 1 + Singles(h - 1, 2 * pos, txids, mask)
  {
    Children(pos, h);
    WidthSpec(|txids|, 2 * pos + 1, h - 1);
    assert mask[Shl(pos, h)];
    assert ParentOfMatch(h, pos, mask);
    SinglesOnEdge(h - 1, 2 * pos, txids, mask);
  }

  lemma Height1012(n: nat)
    requires n == 1012
    ensures Height(n) == 10
  {
    Powers(1);
    HeightLeast(n, 0, 10);
    HeightCovers(n, 0);
    if Height(n) <= 9 {
      ShlMonotoneHeight(Height(n), 9);
    }
  }

  /** A block of 1012 transactions, all matched, serializes to one byte more than the documented hard guarantee. */
  lemma DocumentedSizeFails(txids: seq<Digest>, mask: seq<bool>)
    requires |mask| == |txids| == 1012 && forall p :: 0 <= p < |mask| ==> mask[p]
    ensures SerializedSize(txids, mask) == DocumentedSize(|Encode(txids, mask).1|) + 1
  {
    var h := Height(|txids|);
    Height1012(|txids|);
    SinglesOf1012(h, txids, mask);
    HeightCovers(|txids|, 0);
    BitCount(h, 0, txids, mask);
    HashesPerLeaf(h, 0, txids, mask);
  }

  lemma {:induction false} ShlMonotoneHeight(a: nat, b: nat)
    requires a <= b
    ensures Shl(1, a) <= Shl(1, b)
  {
    ShlCompose(1, b - a, a);
    ShlPositive(b - a);
    ShlMonotone(1, Shl(1, b - a), a);
  }

  /** A right-edge node of a full 1012-leaf tree whose right child exists, or does not. */
  lemma Edge1012(h: nat, pos: nat, txids: seq<Digest>, mask: seq<bool>)
    requires |mask| == |txids| == 1012 && forall p :: 0 <= p < |mask| ==> mask[p]
    requires 1 <= h <= 10
    requires Shl(pos, h) < 1012
    ensures Shl(2 * pos + 1, h - 1) < 1012 ==> Singles(h, pos, txids, mask) == Singles(h - 1, 2 * pos + 1, txids, mask)
    ensures Shl(2 * pos + 1, h - 1) >= 1012 ==>
              Shl(2 * pos, h - 1) < 1012 && Singles(h, pos, txids, mask) == 1 + Singles(h - 1, 2 * pos, txids, mask)
  {
    RightEdge(h, pos, txids, mask);
  }

  lemma SinglesLow1012(txids: seq<Digest>, mask: seq<bool>)
    requires |mask| == |txids| == 1012 && forall p :: 0 <= p < |mask| ==> mask[p]
    ensures Shl(31, 5) == 992 && Singles(5, 31, txids, mask) == 2
  {
    hide Singles, Shl;
    Powers(31);
    Powers(63);
    Powers(126);
    Powers(127);
    Powers(252);
    Powers(253);
    Edge1012(5, 31, txids, mask);
    Edge1012(4, 63, txids, mask);
    Edge1012(3, 126, txids, mask);
    SinglesOnEdge(2, 252, txids, mask);
  }

  lemma {:induction false} RightPath(h: nat, pos: nat, k: nat, txids: seq<Digest>, mask: seq<bool>)
    requires |mask| == |txids| && forall p :: 0 <= p < |mask| ==> mask[p]
    requires k <= h && Shl(pos, h) < |txids|
    requires Shl(pos + 1, k) > 0 && Shl(Shl(pos + 1, k) - 1, h - k) < |txids|
    ensures Singles(h, pos, txids, mask) == Singles(h - k, Shl(pos + 1, k) - 1, txids, mask)
    decreases k
  {
    hide Singles;
    if k > 0 {
      Children(pos, h);
      assert 2 * (pos + 1) == 2 * pos + 1 + 1;
      assert Shl(pos + 1, k) == Shl(2 * pos + 1 + 1, k - 1);
      ShlAdd(2 * pos + 1, 1, k - 1);
      ShlPositive(k - 1);
      ShlMonotone(Shl(2 * pos + 1, k - 1), Shl(pos + 1, k) - 1, h - k);
      ShlCompose(2 * pos + 1, k - 1, h - k);
      RightEdge(h, pos, txids, mask);
      RightPath(h - 1, 2 * pos + 1, k - 1, txids, mask);
    }
  }

  lemma SinglesOf1012(h: nat, txids: seq<Digest>, mask: seq<bool>)
    requires |mask| == |txids| == 1012 && (forall p :: 0 <= p < |mask| ==> mask[p]) && h == 10
    ensures Shl(0, h) == 0 && Singles(h, 0, txids, mask) == 2
  {
    hide Singles;
    var k, pos := 5, 0;
    ShlZero(h);
    Powers(1);
    SinglesLow1012(txids, mask);
    RightPath(h, pos, k, txids, mask);
  }

  /**
   The round trip, for every transaction list and mask, through packed bytes and with the
   padding bits they bring: the decoder accepts exactly the lists without equal siblings
   under a match, and then returns the Merkle root and the masked ids in order.
   */
  lemma RoundTrip(txids: seq<Digest>, mask: seq<bool>, bytes: seq<bv8>, maxBlockSize: nat)
    requires 0 < |txids| == |mask| && |txids| <= maxBlockSize / 60
    requires Packs(Encode(txids, mask).0, bytes)
    ensures Shl(0, Height(|txids|)) < |txids|
    ensures var twins := Twins(Height(|txids|), 0, txids, mask);
            Decode(|txids|, Unpack(bytes), Encode(txids, mask).1, false, maxBlockSize)
            == Decoded(if twins then Zero else Root(txids), Matched(txids, mask, 0, |txids|), twins)
  {
    var n, h := |txids|, Height(|txids|);
    var (b, hs) := Encode(txids, mask);
    ShlZero(h);
    HeightCovers(n, 0);
    UnpackPacked(b, bytes);
    EncodedHashes(txids, mask);
    EncodedBits(txids, mask);
    ExtractBuilt(h, 0, txids, mask, Unpack(bytes), hs, Cursor(0, 0, [], false));
    assert [] + Matched(txids, mask, 0, n) == Matched(txids, mask, 0, n);
  }

  /** In particular, for distinct ids the equal-siblings check never fires. */
  lemma RoundTripDistinct(txids: seq<Digest>, mask: seq<bool>, bytes: seq<bv8>, maxBlockSize: nat)
    requires 0 < |txids| == |mask| && |txids| <= maxBlockSize / 60 && Distinct(txids)
    requires Packs(Encode(txids, mask).0, bytes)
    ensures Decode(|txids|, Unpack(bytes), Encode(txids, mask).1, false, maxBlockSize)
            == Decoded(Root(txids), Matched(txids, mask, 0, |txids|), false)
  {
    RoundTrip(txids, mask, bytes, maxBlockSize);
    DistinctNoTwins(Height(|txids|), 0, txids, mask);
  }
}
