/** The Merkle root of a block, computed level by level, and what it has to do with the partial tree's recursion. */
module BlockRoot {
  import opened Basics
  import opened MerkleTree
  import opened MerkleSound

  /** The level above: neighbours hashed together in order, a last one without neighbour with itself. */
  function PairUp(level: seq<Digest>): (r: seq<Digest>)
    ensures |r| == (|level| + 1) / 2
  {
    seq((|level| + 1) / 2, i requires 0 <= i < (|level| + 1) / 2 =>
      Node(level[2 * i], level[Min(2 * i + 1, |level| - 1)]))
  }

  /** Level by level, up to the one that is a single digest. */
  function BottomUp(level: seq<Digest>): Digest
    decreases |level|
  {
    if level == [] then Zero else if |level| == 1 then level[0] else BottomUp(PairUp(level))
  }

  /** Two equal digests end a level of even size. */
  predicate EndsInTwins(level: seq<Digest>) {
    |level| >= 2 && |level| % 2 == 0 && level[|level| - 2] == level[|level| - 1]
  }

  /** They do so at this level or at one above it. */
  predicate TwinsAbove(level: seq<Digest>)
    decreases |level|
  {
    |level| > 1 && (EndsInTwins(level) || TwinsAbove(PairUp(level)))
  }

  // ---------------------------------------------------------------- levels of the recursion

  lemma WidthAbove(n: nat, d: nat)
    ensures Width(n, d + 1) == (Width(n, d) + 1) / 2
  {
    hide Width, Shl;
    var w, v := Width(n, d + 1), Width(n, d);
    HalfWidth(n, d, w);
    HalfWidth(n, d, (v + 1) / 2);
    if w > 0 {
      HalfWidth(n, d, w - 1);
    }
    if (v + 1) / 2 > 0 {
      HalfWidth(n, d, (v + 1) / 2 - 1);
    }
  }

  lemma HalfWidth(n: nat, d: nat, p: nat)
    ensures p < Width(n, d + 1) <==> 2 * p < Width(n, d)
  {
    WidthSpec(n, p, d + 1);
    WidthSpec(n, 2 * p, d);
  }

  /** Hashing the neighbours of a level gives the level above. */
  lemma LevelAbove(txids: seq<Digest>, d: nat)
    requires |Level(txids, d)| > 0
    ensures PairUp(Level(txids, d)) == Level(txids, d + 1)
  {
    hide Width, CalcHash;
    var n, a, b := |txids|, Level(txids, d), Level(txids, d + 1);
    WidthAbove(n, d);
    forall i | 0 <= i < |b| ensures PairUp(a)[i] == b[i] {
      WidthSpec(n, i, d + 1);
      CalcChildren(d + 1, i, txids);
      WidthSpec(n, 2 * i, d);
      WidthSpec(n, 2 * i + 1, d);
    }
  }

  lemma {:induction false} RootOfLevel(txids: seq<Digest>, d: nat)
    requires |txids| > 0 && d <= Height(|txids|)
    ensures BottomUp(Level(txids, d)) == Root(txids)
    decreases Height(|txids|) - d
  {
    hide Width, CalcHash, Height, Level;
    LevelSizes(txids, d);
    if d < Height(|txids|) {
      LevelAbove(txids, d);
      RootOfLevel(txids, d + 1);
    } else {
      LevelTop(txids);
    }
  }

  lemma LevelTop(txids: seq<Digest>)
    requires |txids| > 0
    ensures |Level(txids, Height(|txids|))| == 1 && Level(txids, Height(|txids|))[0] == Root(txids)
  {
    hide CalcHash, Width;
    var h := Height(|txids|);
    ShlZero(h);
    LevelSizes(txids, h);
  }

  /** A level has one node exactly at the height. */
  lemma LevelSizes(txids: seq<Digest>, d: nat)
    requires |txids| > 0 && d <= Height(|txids|)
    ensures |Level(txids, d)| >= 1 && (|Level(txids, d)| == 1 <==> d == Height(|txids|))
  {
    hide CalcHash;
    var n := |txids|;
    ShlZero(d);
    WidthSpec(n, 0, d);
    WidthSpec(n, 1, d);
    HeightCovers(n, 0);
    HeightIsFirst(n, 0, d);
    WidthSpec(n, 1, Height(n));
  }

  lemma {:induction false} HeightIsFirst(n: nat, h: nat, d: nat)
    requires h <= d < HeightFrom(n, h) || d == HeightFrom(n, h)
    ensures d < HeightFrom(n, h) ==> Width(n, d) > 1
    decreases n - Shl(1, h)
  {
    WidthSpec(n, 1, h);
    ShlDouble(1, h);
    ShlPositive(h);
    if Width(n, h) > 1 && d > h {
      HeightIsFirst(n, h + 1, d);
    }
  }

  /** The root that a block is given bottom up is the one that partial trees are checked against. */
  lemma RootBottomUp(txids: seq<Digest>)
    requires |txids| > 0
    ensures BottomUp(txids) == Root(txids)
  {
    hide Height;
    LevelZero(txids);
    RootOfLevel(txids, 0);
  }

  // ---------------------------------------------------------------- the block's own computation

  /** One level: hash the neighbours among the last `size` digests, which start at j, onto the end. */
  method HashLevel(tree: seq<Digest>, j: nat, size: nat) returns (tree': seq<Digest>, mutated: bool)
    requires size > 1 && j + size == |tree|
    ensures tree' == tree + PairUp(tree[j..])
    ensures mutated <==> EndsInTwins(tree[j..])
  {
    tree', mutated := tree, false;
    var i := 0;
    ghost var level := tree[j..];
    while i < size
      invariant i % 2 == 0 && i <= size + 1
      invariant tree' == tree + PairUp(level)[..i / 2]
      invariant mutated <==> i >= size && EndsInTwins(level)
    {
      var i2 := Min(i + 1, size - 1);
      assert tree'[j + i] == level[i] && tree'[j + i2] == level[i2];
      if i2 == i + 1 && i2 + 1 == size && tree'[j + i] == tree'[j + i2] {
        mutated := true;
      }
      assert PairUp(level)[i / 2] == Node(level[i], level[i2]);
      assert PairUp(level)[..i / 2 + 1] == PairUp(level)[..i / 2] + [PairUp(level)[i / 2]];
      tree' := tree' + [Node(tree'[j + i], tree'[j + i2])];
      i := i + 2;
    }
    assert PairUp(level)[..i / 2] == PairUp(level);
  }

  /** The root of a block's transaction ids, and whether equal digests met at the end of a level. */
  method BuildMerkleTree(txids: seq<Digest>) returns (root: Digest, mutated: bool)
    ensures root == if txids == [] then Zero else Root(txids)
    ensures mutated <==> TwinsAbove(txids)
  {
    hide Root, PairUp;
    var tree, j := txids, 0;
    assert tree[j..] == txids;
    mutated := false;
    var size := |txids|;
    while size > 1
      invariant 0 <= j && 0 <= size && j + size == |tree| && (size == 0 <==> txids == []) && (txids == [] ==> tree == [])
      invariant BottomUp(tree[j..]) == BottomUp(txids)
      invariant TwinsAbove(txids) <==> mutated || TwinsAbove(tree[j..])
      decreases size
    {
      var twins: bool;
      ghost var level := tree[j..];
      tree, twins := HashLevel(tree, j, size);
      assert tree[j + size..] == PairUp(level);
      mutated := mutated || twins;
      j := j + size;
      size := (size + 1) / 2;
    }
    if txids != [] {
      RootBottomUp(txids);
      assert tree[j..] == [tree[|tree| - 1]];
    }
    root := if tree == [] then Zero else tree[|tree| - 1];
  }
}
