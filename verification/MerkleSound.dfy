/**
 What the decoder's answer says about a true transaction list.  Bits, hashes and the number of
 transactions all come from the same bytes and are arbitrary here.
 */
module MerkleSound {
  import opened MerkleTree

  ghost predicate Increasing(ps: seq<nat>, lo: nat, hi: nat) {
    && (forall i :: 0 <= i < |ps| ==> lo <= ps[i] < hi)
    && (forall i, j :: 0 <= i < j < |ps| ==> ps[i] < ps[j])
  }

  /** The elements of a list at the given positions. */
  function Select(txids: seq<Digest>, ps: seq<nat>): seq<Digest>
    requires forall i :: 0 <= i < |ps| ==> ps[i] < |txids|
  {
    seq(|ps|, i requires 0 <= i < |ps| => txids[ps[i]])
  }

  lemma SelectAppend(txids: seq<Digest>, ps: seq<nat>, qs: seq<nat>, lo: nat, mid: nat, hi: nat)
    requires lo <= mid <= hi <= |txids| && Increasing(ps, lo, mid) && Increasing(qs, mid, hi)
    ensures Increasing(ps + qs, lo, hi)
    ensures Select(txids, ps + qs) == Select(txids, ps) + Select(txids, qs)
  {
  }

  /** An error stays: a clean traversal was clean before. */
  lemma {:induction false} BadSticks(h: nat, pos: nat, n: nat, vBits: seq<bool>, vHash: seq<Digest>, c: Cursor)
    ensures c.bad ==> Extract(h, pos, n, vBits, vHash, c).1.bad
    decreases h
  {
    if c.bits < |vBits| && h > 0 && vBits[c.bits] {
      var c1 := c.(bits := c.bits + 1);
      BadSticks(h - 1, 2 * pos, n, vBits, vHash, c1);
      BadSticks(h - 1, 2 * pos + 1, n, vBits, vHash, Extract(h - 1, 2 * pos, n, vBits, vHash, c1).1);
    }
  }

  /** The parts of a clean traversal that descends, with two children or with one. */
  lemma ExtractDescends(h: nat, pos: nat, n: nat, vBits: seq<bool>, vHash: seq<Digest>, c: Cursor)
    requires h > 0 && c.bits < |vBits| && vBits[c.bits] && !Extract(h, pos, n, vBits, vHash, c).1.bad
    ensures var c1 := c.(bits := c.bits + 1);
            var (left, c2) := Extract(h - 1, 2 * pos, n, vBits, vHash, c1);
            && !c2.bad
            && if 2 * pos + 1 < Width(n, h - 1)
               then
                 var (right, c3) := Extract(h - 1, 2 * pos + 1, n, vBits, vHash, c2);
                 !c3.bad && left != right && Extract(h, pos, n, vBits, vHash, c) == (Node(left, right), c3)
               else Extract(h, pos, n, vBits, vHash, c) == (Node(left, left), c2)
  {
    hide Width;
    var c1 := c.(bits := c.bits + 1);
    BadSticks(h - 1, 2 * pos + 1, n, vBits, vHash, Extract(h - 1, 2 * pos, n, vBits, vHash, c1).1);
  }

  /** A clean traversal has a bit to read, and where it does not descend it takes one hash, a matched id at a set bit of a leaf. */
  lemma StopsClean(h: nat, pos: nat, n: nat, vBits: seq<bool>, vHash: seq<Digest>, c: Cursor)
    requires !Extract(h, pos, n, vBits, vHash, c).1.bad
    ensures c.bits < |vBits|
    ensures h == 0 || !vBits[c.bits] ==>
              var (digest, c') := Extract(h, pos, n, vBits, vHash, c);
              c'.matches == if h == 0 && vBits[c.bits] then c.matches + [digest] else c.matches
  {
    hide Width;
  }

  /** The digests of a node's children, a missing right one standing for its sibling. */
  lemma CalcChildren(h: nat, pos: nat, txids: seq<Digest>)
    requires Shl(pos, h) < |txids| && h > 0
    ensures Shl(2 * pos, h - 1) < |txids|
    ensures CalcHash(h, pos, txids) ==
            Node(CalcHash(h - 1, 2 * pos, txids),
                 if Shl(2 * pos + 1, h - 1) < |txids| then CalcHash(h - 1, 2 * pos + 1, txids)
                 else CalcHash(h - 1, 2 * pos, txids))
  {
    hide Width;
    Children(pos, h);
    WidthSpec(|txids|, 2 * pos + 1, h - 1);
  }

  /** The positions below a node the traversal does not descend into: its own at a leaf, or none. */
  lemma SelectOne(h: nat, pos: nat, txids: seq<Digest>, ps: seq<nat>)
    requires Shl(pos, h) < |txids| && (ps == [] || (h == 0 && ps == [pos]))
    ensures Increasing(ps, Shl(pos, h), Upper(h, pos, |txids|))
    ensures Select(txids, ps) == if ps == [] then [] else [CalcHash(h, pos, txids)]
  {
    if h == 0 {
      LeafRange(pos, |txids|);
      AtLeaf(pos, txids);
    }
  }

  lemma Widen(ps: seq<nat>, lo: nat, mid: nat, hi: nat)
    requires Increasing(ps, lo, mid) && mid <= hi
    ensures Increasing(ps, lo, hi)
  {
  }

  /**
   A subtree that decodes cleanly to the true digest yields true leaves in order, whatever
   number of transactions the decoder was told.  A right child that only the decoder expects
   would equal its sibling, which is an error.
   */
  lemma {:induction false} ExtractSound(h: nat, pos: nat, n: nat, txids: seq<Digest>, vBits: seq<bool>, vHash: seq<Digest>, c: Cursor)
    returns (ps: seq<nat>)
    requires Shl(pos, h) < |txids|
    requires !Extract(h, pos, n, vBits, vHash, c).1.bad
    requires Extract(h, pos, n, vBits, vHash, c).0 == CalcHash(h, pos, txids)
    ensures Increasing(ps, Shl(pos, h), Upper(h, pos, |txids|))
    ensures Extract(h, pos, n, vBits, vHash, c).1.matches == c.matches + Select(txids, ps)
    decreases h
  {
    hide Width, Shl, Upper, Extract, CalcHash, Increasing, Select;
    StopsClean(h, pos, n, vBits, vHash, c);
    var f := vBits[c.bits];
    var c1 := c.(bits := c.bits + 1);
    if h == 0 || !f {
      ps := if h == 0 && f then [pos] else [];
      SelectOne(h, pos, txids, ps);
    } else {
      UpperChildren(h, pos, |txids|);
      CalcChildren(h, pos, txids);
      ExtractDescends(h, pos, n, vBits, vHash, c);
      var c2 := Extract(h - 1, 2 * pos, n, vBits, vHash, c1).1;
      ps := ExtractSound(h - 1, 2 * pos, n, txids, vBits, vHash, c1);
      if 2 * pos + 1 < Width(n, h - 1) {
        var qs := ExtractSound(h - 1, 2 * pos + 1, n, txids, vBits, vHash, c2);
        SelectAppend(txids, ps, qs, Shl(pos, h), Shl(2 * pos + 1, h - 1), Upper(h, pos, |txids|));
        ps := ps + qs;
      } else {
        Widen(ps, Shl(pos, h), Upper(h - 1, 2 * pos, |txids|), Upper(h, pos, |txids|));
      }
    }
  }

  // ---------------------------------------------------------------- other levels

  /** The digests of the nodes at height d. */
  function Level(txids: seq<Digest>, d: nat): seq<Digest> {
    seq(Width(|txids|, d), p requires 0 <= p < Width(|txids|, d) => (WidthSpec(|txids|, p, d); CalcHash(d, p, txids)))
  }

  lemma LevelZero(txids: seq<Digest>)
    ensures Level(txids, 0) == txids
  {
  }

  /** The nodes of a level are the leaves of a tree with the same digests above them. */
  lemma {:induction false} LevelTree(h: nat, pos: nat, txids: seq<Digest>, d: nat)
    requires Shl(pos, h + d) < |txids|
    ensures Shl(pos, h) < |Level(txids, d)| && CalcHash(h, pos, Level(txids, d)) == CalcHash(h + d, pos, txids)
    decreases h
  {
    hide Width, CalcHash;
    ShlCompose(pos, h, d);
    WidthSpec(|txids|, Shl(pos, h), d);
    if h == 0 {
      AtLeaf(pos, Level(txids, d));
    } else {
      CalcChildren(h, pos, Level(txids, d));
      CalcChildren(h + d, pos, txids);
      LevelTree(h - 1, 2 * pos, txids, d);
      ShlCompose(2 * pos + 1, h - 1, d);
      WidthSpec(|txids|, Shl(2 * pos + 1, h - 1), d);
      if Shl(2 * pos + 1, h - 1 + d) < |txids| {
        LevelTree(h - 1, 2 * pos + 1, txids, d);
      }
    }
  }

  lemma AtLeaf(pos: nat, txids: seq<Digest>)
    requires pos < |txids|
    ensures Shl(pos, 0) == pos && CalcHash(0, pos, txids) == txids[pos]
  {
  }

  /** A digest that is no node has nothing below it to extract. */
  lemma {:induction false} ExtractBelow(h: nat, k: nat, pos: nat, n: nat, txids: seq<Digest>, vBits: seq<bool>, vHash: seq<Digest>, c: Cursor)
    requires k < h && Shl(pos, k) < |txids| && forall p :: 0 <= p < |txids| ==> !txids[p].Node?
    requires !Extract(h, pos, n, vBits, vHash, c).1.bad
    requires Extract(h, pos, n, vBits, vHash, c).0 == CalcHash(k, pos, txids)
    ensures Extract(h, pos, n, vBits, vHash, c).1.matches == c.matches
    decreases h
  {
    hide Width;
    if vBits[c.bits] {
      var c1 := c.(bits := c.bits + 1);
      ExtractDescends(h, pos, n, vBits, vHash, c);
      var c2 := Extract(h - 1, 2 * pos, n, vBits, vHash, c1).1;
      if k > 0 {
        CalcChildren(k, pos, txids);
        ExtractBelow(h - 1, k - 1, 2 * pos, n, txids, vBits, vHash, c1);
        if 2 * pos + 1 < Width(n, h - 1) {
          ExtractBelow(h - 1, k - 1, 2 * pos + 1, n, txids, vBits, vHash, c2);
        }
      }
    }
  }

  // ---------------------------------------------------------------- when the decoder accepts

  /** The cursors only move forward, and stay within the bits and hashes. */
  lemma {:induction false} CursorsInside(h: nat, pos: nat, n: nat, vBits: seq<bool>, vHash: seq<Digest>, c: Cursor)
    requires c.bits <= |vBits| && c.hashes <= |vHash|
    ensures var c' := Extract(h, pos, n, vBits, vHash, c).1;
            c.bits <= c'.bits <= |vBits| && c.hashes <= c'.hashes <= |vHash|
    decreases h
  {
    hide Width;
    if c.bits < |vBits| && h > 0 && vBits[c.bits] {
      var c1 := c.(bits := c.bits + 1);
      CursorsInside(h - 1, 2 * pos, n, vBits, vHash, c1);
      CursorsInside(h - 1, 2 * pos + 1, n, vBits, vHash, Extract(h - 1, 2 * pos, n, vBits, vHash, c1).1);
    }
  }

  /**
   Exactly when the decoder answers with the digest of its traversal instead of zero: the number
   of transactions is positive and small enough for a block, there are no more hashes than
   transactions and no more than bits, the traversal met no error, it used every hash, and it
   used a bit of every flag byte.
   */
  lemma AcceptsExactly(n: nat, vBits: seq<bool>, vHash: seq<Digest>, bad: bool, maxBlockSize: nat)
    ensures var (root, c) := Extract(Height(n), 0, n, vBits, vHash, Cursor(0, 0, [], bad));
            var ok :=
              && 0 < n && 60 * n <= maxBlockSize && |vHash| <= n && |vHash| <= |vBits| && !c.bad
              && c.hashes == |vHash| && (|vBits| > 0 ==> 8 * ((|vBits| - 1) / 8) < c.bits);
            Decode(n, vBits, vHash, bad, maxBlockSize).root == if ok then root else Zero
  {
    hide Extract, Height;
    var c := Extract(Height(n), 0, n, vBits, vHash, Cursor(0, 0, [], bad)).1;
    CursorsInside(Height(n), 0, n, vBits, vHash, Cursor(0, 0, [], bad));
    LastByteUsed(|vBits|, c.bits);
  }

  lemma LastByteUsed(size: nat, used: nat)
    requires used <= size
    ensures (size > 0 ==> 8 * ((size - 1) / 8) < used) <==> (used + 7) / 8 == (size + 7) / 8
  {
  }

  // ---------------------------------------------------------------- main results

  /** The decoder succeeded, with the root of the true list. */
  ghost predicate Accepts(n: nat, txids: seq<Digest>, vBits: seq<bool>, vHash: seq<Digest>, bad: bool, maxBlockSize: nat)
    requires |txids| > 0
  {
    var d := Decode(n, vBits, vHash, bad, maxBlockSize);
    d.root != Zero && d.root == Root(txids)
  }

  lemma AcceptsExtract(n: nat, txids: seq<Digest>, vBits: seq<bool>, vHash: seq<Digest>, bad: bool, maxBlockSize: nat)
    requires |txids| > 0 && Accepts(n, txids, vBits, vHash, bad, maxBlockSize)
    ensures var (root, c) := Extract(Height(n), 0, n, vBits, vHash, Cursor(0, 0, [], bad));
            && !c.bad && root == Root(txids)
            && Decode(n, vBits, vHash, bad, maxBlockSize).matches == c.matches
  {
    hide Extract, Height, Root;
  }

  /**
   If the decoder answers with the root of the true list, and the number of transactions it was
   told gives a tree at most as high, what it extracted are the digests of nodes at the level
   where that tree ends, at strictly increasing positions.
   */
  lemma DecodeLevel(n: nat, txids: seq<Digest>, vBits: seq<bool>, vHash: seq<Digest>, bad: bool, maxBlockSize: nat)
    returns (ps: seq<nat>)
    requires |txids| > 0 && Accepts(n, txids, vBits, vHash, bad, maxBlockSize) && Height(n) <= Height(|txids|)
    ensures var level := Level(txids, Height(|txids|) - Height(n));
            Increasing(ps, 0, |level|) && Decode(n, vBits, vHash, bad, maxBlockSize).matches == Select(level, ps)
  {
    hide Extract, CalcHash, Decode, Level, Height, Accepts;
    var h, d := Height(n), Height(|txids|) - Height(n);
    AcceptsExtract(n, txids, vBits, vHash, bad, maxBlockSize);
    ShlZero(h);
    ShlZero(h + d);
    LevelTree(h, 0, txids, d);
    ps := ExtractSound(h, 0, n, Level(txids, d), vBits, vHash, Cursor(0, 0, [], bad));
  }

  /**
   Decoder soundness: if the number of transactions it was told gives a tree as high as the
   true one, what it extracted are members of the true list, at strictly increasing positions.
   */
  lemma DecodeSound(n: nat, txids: seq<Digest>, vBits: seq<bool>, vHash: seq<Digest>, bad: bool, maxBlockSize: nat)
    returns (ps: seq<nat>)
    requires |txids| > 0 && Accepts(n, txids, vBits, vHash, bad, maxBlockSize) && Height(n) == Height(|txids|)
    ensures Increasing(ps, 0, |txids|)
    ensures Decode(n, vBits, vHash, bad, maxBlockSize).matches == Select(txids, ps)
  {
    LevelZero(txids);
    ps := DecodeLevel(n, txids, vBits, vHash, bad, maxBlockSize);
  }

  /** A number that gives a higher tree extracts nothing, as long as no transaction id is the digest of a node. */
  lemma DecodeDeeper(n: nat, txids: seq<Digest>, vBits: seq<bool>, vHash: seq<Digest>, bad: bool, maxBlockSize: nat)
    requires |txids| > 0 && Accepts(n, txids, vBits, vHash, bad, maxBlockSize) && Height(n) > Height(|txids|)
    requires forall p :: 0 <= p < |txids| ==> !txids[p].Node?
    ensures Decode(n, vBits, vHash, bad, maxBlockSize).matches == []
  {
    hide Extract, CalcHash, Decode, Height, Accepts;
    AcceptsExtract(n, txids, vBits, vHash, bad, maxBlockSize);
    ShlZero(Height(|txids|));
    ExtractBelow(Height(n), Height(|txids|), 0, n, txids, vBits, vHash, Cursor(0, 0, [], bad));
  }

  function Size(d: Digest): nat {
    match d
    case Node(left, right) => 1 + Size(left) + Size(right)
    case _ => 0
  }

  /** A node is larger than any leaf below it. */
  lemma {:induction false} LargerThanLeaves(h: nat, pos: nat, txids: seq<Digest>, p: nat)
    requires Shl(pos, h) <= p < Upper(h, pos, |txids|)
    ensures Shl(pos, h) < |txids| && Size(CalcHash(h, pos, txids)) >= Size(txids[p]) + h
    decreases h
  {
    if h == 0 {
      LeafRange(pos, |txids|);
    } else {
      hide Shl, Upper, CalcHash;
      UpperChildren(h, pos, |txids|);
      CalcChildren(h, pos, txids);
      if p < Upper(h - 1, 2 * pos, |txids|) {
        LargerThanLeaves(h - 1, 2 * pos, txids, p);
      } else {
        LargerThanLeaves(h - 1, 2 * pos + 1, txids, p);
      }
    }
  }

  /** The root of more than one transaction is none of their ids. */
  lemma RootIsNoId(txids: seq<Digest>)
    requires |txids| > 1
    ensures Root(txids) !in txids
  {
    var h := Height(|txids|);
    ShlZero(h);
    HeightCovers(|txids|, 0);
    assert h > 0;
    forall p | 0 <= p < |txids| ensures txids[p] != Root(txids) {
      LargerThanLeaves(h, 0, txids, p);
    }
  }

  /** The height matters: told of one transaction, the decoder takes the root of any longer list for an id. */
  lemma RootTakenForId(txids: seq<Digest>)
    requires |txids| > 1
    ensures Decode(1, [true], [Root(txids)], false, 60) == Decoded(Root(txids), [Root(txids)], false)
    ensures Root(txids) !in txids
  {
    assert Height(1) == 0;
    RootIsNoId(txids);
  }
}
