/**
 The partial Merkle tree format: a depth-first encoding of a Merkle tree with a mask of
 matched leaves, and its decoder.  Hashing is ideal: a digest is a term, so two digests are
 equal only if they were built the same way.  Transaction ids are arbitrary digests.
 */
module MerkleTree {
  import opened Basics

  datatype Digest = Zero | Atom(id: nat) | Node(left: Digest, right: Digest)

  // ---------------------------------------------------------------- shifts

  /** x << h */
  function Shl(x: nat, h: nat): nat
    decreases h
  {
    if h == 0 then x else Shl(2 * x, h - 1)
  }

  /** x >> h */
  function Shr(x: nat, h: nat): nat { if h == 0 then x else Shr(x / 2, h - 1) }

  /** The number of nodes at height h over n leaves. */
  function Width(n: nat, h: nat): nat {
    ShlPositive(h);
    Shr(n + Shl(1, h) - 1, h)
  }

  lemma {:induction false} ShlDouble(x: nat, h: nat)
    ensures Shl(2 * x, h) == 2 * Shl(x, h)
    decreases h
  {
    if h > 0 {
      ShlDouble(2 * x, h - 1);
    }
  }

  lemma {:induction false} ShlAdd(x: nat, y: nat, h: nat)
    ensures Shl(x + y, h) == Shl(x, h) + Shl(y, h)
    decreases h
  {
    if h > 0 {
      ShlAdd(2 * x, 2 * y, h - 1);
    }
  }

  lemma {:induction false} ShlPositive(h: nat)
    ensures Shl(1, h) >= 1
  {
    if h > 0 {
      ShlDouble(1, h - 1);
      ShlPositive(h - 1);
    }
  }

  lemma {:induction false} ShlZero(h: nat)
    ensures Shl(0, h) == 0
  {
    if h > 0 {
      ShlZero(h - 1);
    }
  }

  lemma {:induction false} ShlCompose(x: nat, a: nat, b: nat)
    ensures Shl(x, a + b) == Shl(Shl(x, a), b)
    decreases a
  {
    if a > 0 {
      ShlCompose(2 * x, a - 1, b);
    }
  }

  /** The leaves below a node, and below its two children. */
  lemma Children(pos: nat, h: nat)
    requires h > 0
    ensures Shl(2 * pos, h - 1) == Shl(pos, h)
    ensures Shl(2 * pos + 2, h - 1) == Shl(pos + 1, h)
    ensures Shl(pos, h) < Shl(2 * pos + 1, h - 1) < Shl(pos + 1, h)
  {
    ShlAdd(2 * pos, 1, h - 1);
    ShlAdd(2 * pos + 1, 1, h - 1);
    ShlPositive(h - 1);
    assert 2 * (pos + 1) == 2 * pos + 2;
  }

  lemma {:induction false} ShrSpec(x: nat, k: nat, h: nat)
    ensures k <= Shr(x, h) <==> Shl(k, h) <= x
  {
    if h > 0 {
      ShrSpec(x / 2, k, h - 1);
      ShlDouble(k, h - 1);
    }
  }

  /** A position is within a level's width exactly when its first leaf exists. */
  lemma WidthSpec(n: nat, pos: nat, h: nat)
    ensures pos < Width(n, h) <==> Shl(pos, h) < n
  {
    ShlPositive(h);
    ShrSpec(n + Shl(1, h) - 1, pos + 1, h);
    ShlAdd(pos, 1, h);
  }

  // ---------------------------------------------------------------- the tree

  function CalcHash(h: nat, pos: nat, txids: seq<Digest>): Digest
    requires Shl(pos, h) < |txids|
    decreases h
  {
    if h == 0 then txids[pos] else
      Children(pos, h);
      WidthSpec(|txids|, 2 * pos + 1, h - 1);
      var left := CalcHash(h - 1, 2 * pos, txids);
      var right := if 2 * pos + 1 < Width(|txids|, h - 1) then CalcHash(h - 1, 2 * pos + 1, txids) else left;
      Node(left, right)
  }

  lemma CalcBoth(h: nat, pos: nat, txids: seq<Digest>)
    requires Shl(pos, h) < |txids| && h > 0 && 2 * pos + 1 < Width(|txids|, h - 1)
    ensures Shl(2 * pos, h - 1) < |txids| && Shl(2 * pos + 1, h - 1) < |txids|
    ensures CalcHash(h, pos, txids) == Node(CalcHash(h - 1, 2 * pos, txids), CalcHash(h - 1, 2 * pos + 1, txids))
  {
    hide Width;
    Children(pos, h);
    WidthSpec(|txids|, 2 * pos + 1, h - 1);
  }

  /** The height the encoder and the decoder climb to: the first level of at most one node. */
  function HeightFrom(n: nat, h: nat): nat
    decreases n - Shl(1, h)
  {
    WidthSpec(n, 1, h);
    ShlDouble(1, h);
    ShlPositive(h);
    if Width(n, h) > 1 then HeightFrom(n, h + 1) else h
  }

  function Height(n: nat): nat { HeightFrom(n, 0) }

  lemma {:induction false} HeightCovers(n: nat, h: nat)
    ensures HeightFrom(n, h) >= h && n <= Shl(1, HeightFrom(n, h))
    decreases n - Shl(1, h)
  {
    WidthSpec(n, 1, h);
    ShlDouble(1, h);
    ShlPositive(h);
    if Width(n, h) > 1 {
      HeightCovers(n, h + 1);
    }
  }

  /** The root of the Merkle tree over a transaction list. */
  function Root(txids: seq<Digest>): Digest
    requires |txids| > 0
  {
    ShlZero(Height(|txids|));
    CalcHash(Height(|txids|), 0, txids)
  }

  /** The node is a matched leaf or above one. */
  predicate ParentOfMatch(h: nat, pos: nat, mask: seq<bool>) {
    exists p :: Shl(pos, h) <= p < Shl(pos + 1, h) && p < |mask| && mask[p]
  }

  // ---------------------------------------------------------------- encoder

  /** The flag bits and the hashes that the encoder appends for one subtree. */
  function Build(h: nat, pos: nat, txids: seq<Digest>, mask: seq<bool>): (seq<bool>, seq<Digest>)
    requires |mask| == |txids| && Shl(pos, h) < |txids|
    decreases h
  {
    var f := ParentOfMatch(h, pos, mask);
    if h == 0 || !f then ([f], [CalcHash(h, pos, txids)]) else
      Children(pos, h);
      WidthSpec(|txids|, 2 * pos + 1, h - 1);
      var (lb, lh) := Build(h - 1, 2 * pos, txids, mask);
      if 2 * pos + 1 < Width(|txids|, h - 1) then
        var (rb, rh) := Build(h - 1, 2 * pos + 1, txids, mask);
        ([f] + lb + rb, lh + rh)
      else
        ([f] + lb, lh)
  }

  /** What the encoder appends at a node where it stops, with two children, and with one. */
  lemma BuildStops(h: nat, pos: nat, txids: seq<Digest>, mask: seq<bool>)
    requires |mask| == |txids| && Shl(pos, h) < |txids| && (h == 0 || !ParentOfMatch(h, pos, mask))
    ensures Build(h, pos, txids, mask) == ([ParentOfMatch(h, pos, mask)], [CalcHash(h, pos, txids)])
  {
  }

  lemma BuildBoth(h: nat, pos: nat, txids: seq<Digest>, mask: seq<bool>)
    requires |mask| == |txids| && Shl(pos, h) < |txids| && h > 0 && ParentOfMatch(h, pos, mask)
    requires 2 * pos + 1 < Width(|txids|, h - 1)
    ensures Shl(2 * pos, h - 1) < |txids| && Shl(2 * pos + 1, h - 1) < |txids|
    ensures var (lb, lh) := Build(h - 1, 2 * pos, txids, mask);
            var (rb, rh) := Build(h - 1, 2 * pos + 1, txids, mask);
            Build(h, pos, txids, mask) == ([true] + lb + rb, lh + rh)
  {
    hide ParentOfMatch, Width, CalcHash;
    Children(pos, h);
    WidthSpec(|txids|, 2 * pos + 1, h - 1);
  }

  lemma BuildOne(h: nat, pos: nat, txids: seq<Digest>, mask: seq<bool>)
    requires |mask| == |txids| && Shl(pos, h) < |txids| && h > 0 && ParentOfMatch(h, pos, mask)
    requires 2 * pos + 1 >= Width(|txids|, h - 1)
    ensures Shl(2 * pos, h - 1) < |txids|
    ensures var (lb, lh) := Build(h - 1, 2 * pos, txids, mask);
            Build(h, pos, txids, mask) == ([true] + lb, lh)
  {
    hide ParentOfMatch, Width, CalcHash;
    Children(pos, h);
  }

  function Encode(txids: seq<Digest>, mask: seq<bool>): (seq<bool>, seq<Digest>)
    requires |mask| == |txids| > 0
  {
    ShlZero(Height(|txids|));
    Build(Height(|txids|), 0, txids, mask)
  }

  // ---------------------------------------------------------------- decoder

  /** The cursors and results that the decoder threads through its traversal. */
  datatype Cursor = Cursor(bits: nat, hashes: nat, matches: seq<Digest>, bad: bool)

  /** The decoder on arbitrary bits and hashes; it goes on after an error, with digest Zero. */
  function Extract(h: nat, pos: nat, n: nat, vBits: seq<bool>, vHash: seq<Digest>, c: Cursor): (Digest, Cursor)
    decreases h
  {
    if c.bits >= |vBits| then (Zero, c.(bad := true)) else
      var f := vBits[c.bits];
      var c1 := c.(bits := c.bits + 1);
      if h == 0 || !f then
        if c1.hashes >= |vHash| then (Zero, c1.(bad := true)) else
          var hash := vHash[c1.hashes];
          (hash, c1.(hashes := c1.hashes + 1, matches := if h == 0 && f then c1.matches + [hash] else c1.matches))
      else
        var (left, c2) := Extract(h - 1, 2 * pos, n, vBits, vHash, c1);
        if 2 * pos + 1 < Width(n, h - 1) then
          var (right, c3) := Extract(h - 1, 2 * pos + 1, n, vBits, vHash, c2);
          (Node(left, right), c3.(bad := c3.bad || right == left))
        else
          (Node(left, left), c2)
  }

  /** What the decoder returns, the matches it leaves behind, and its error flag. */
  datatype Decoded = Decoded(root: Digest, matches: seq<Digest>, bad: bool)

  /** Every check of the decoder around the traversal; the root is Zero on failure. */
  function Decode(n: nat, vBits: seq<bool>, vHash: seq<Digest>, bad: bool, maxBlockSize: nat): Decoded {
    if n == 0 || n > maxBlockSize / 60 || |vHash| > n || |vBits| < |vHash| then Decoded(Zero, [], bad) else
      var (root, c) := Extract(Height(n), 0, n, vBits, vHash, Cursor(0, 0, [], bad));
      if c.bad || (c.bits + 7) / 8 != (|vBits| + 7) / 8 || c.hashes != |vHash| then
        Decoded(Zero, c.matches, c.bad)
      else
        Decoded(root, c.matches, c.bad)
  }

  // ---------------------------------------------------------------- flag bytes

  /** 1 << k in a byte */
  function Mask(k: nat): bv8
    requires k < 8
  {
    if k == 0 then 1 else if k == 1 then 2 else if k == 2 then 4 else if k == 3 then 8
    else if k == 4 then 16 else if k == 5 then 32 else if k == 6 then 64 else 128
  }

  predicate TestBit(b: bv8, k: nat)
    requires k < 8
  {
    b & Mask(k) != 0
  }

  lemma SetBit(b: bv8, k: nat, v: bool, j: nat)
    requires k < 8 && j < 8
    ensures TestBit(b | (if v then Mask(k) else 0), j) <==> TestBit(b, j) || (v && j == k)
  {
  }

  /** Bit p of a byte string, least significant first within each byte. */
  predicate BitAt(bytes: seq<bv8>, p: nat)
    requires p < 8 * |bytes|
  {
    TestBit(bytes[p / 8], p % 8)
  }

  /** Setting one bit of a byte string leaves the others as they are. */
  lemma SetBitAt(bytes: seq<bv8>, p: nat, v: bool, q: nat)
    requires p < 8 * |bytes| && q < 8 * |bytes|
    ensures var b := bytes[p / 8] | (if v then Mask(p % 8) else 0);
            BitAt(bytes[p / 8 := b], q) <==> BitAt(bytes, q) || (v && q == p)
  {
    hide TestBit, Mask;
    if q / 8 == p / 8 {
      SetBit(bytes[p / 8], p % 8, v, q % 8);
      assert q == 8 * (q / 8) + q % 8 && p == 8 * (p / 8) + p % 8;
    }
  }

  /** Flag bits packed eight to a byte, least significant first, zero padded. */
  ghost predicate Packs(bits: seq<bool>, bytes: seq<bv8>) {
    && |bytes| == (|bits| + 7) / 8
    && forall p :: 0 <= p < 8 * |bytes| ==> (BitAt(bytes, p) <==> p < |bits| && bits[p])
  }

  function Unpack(bytes: seq<bv8>): seq<bool> {
    seq(8 * |bytes|, p requires 0 <= p < 8 * |bytes| => BitAt(bytes, p))
  }

  /** Reading packed bits back gives them again, padded with fewer than eight zero bits. */
  lemma UnpackPacked(bits: seq<bool>, bytes: seq<bv8>)
    requires Packs(bits, bytes)
    ensures |bits| <= |Unpack(bytes)| < |bits| + 8
    ensures Unpack(bytes)[..|bits|] == bits
    ensures forall p :: |bits| <= p < |Unpack(bytes)| ==> !Unpack(bytes)[p]
  {
  }

  predicate BitOn(bits: seq<bool>, p: nat) { p < |bits| && bits[p] }

  /** The number that n bits from position p on stand for, the first one weighing one and each next one twice as much. */
  function BitSum(bits: seq<bool>, p: nat, n: nat): nat
    decreases n
  {
    if n == 0 then 0 else BitSum(bits, p, n - 1) + Bit(BitOn(bits, p + n - 1), Pow2(n - 1))
  }

  lemma ByteBits(b: bv8)
    ensures b as int == EightBits(TestBit(b, 0), TestBit(b, 1), TestBit(b, 2), TestBit(b, 3),
                                  TestBit(b, 4), TestBit(b, 5), TestBit(b, 6), TestBit(b, 7))
  {
  }

  lemma SumOfEight(bits: seq<bool>, p: nat)
    ensures BitSum(bits, p, 8) == EightBits(BitOn(bits, p), BitOn(bits, p + 1), BitOn(bits, p + 2), BitOn(bits, p + 3),
                                            BitOn(bits, p + 4), BitOn(bits, p + 5), BitOn(bits, p + 6), BitOn(bits, p + 7))
  {
    hide BitOn, Bit;
    assert Pow2(3) == 8 && Pow2(5) == 32 && Pow2(7) == 128;
    assert BitSum(bits, p, 4) == Bit(BitOn(bits, p), 1) + Bit(BitOn(bits, p + 1), 2) + Bit(BitOn(bits, p + 2), 4) + Bit(BitOn(bits, p + 3), 8);
  }

  /** A byte whose bits are given by a sequence, from position p on, is their number. */
  lemma ByteOfBits(b: bv8, bits: seq<bool>, p: nat)
    requires forall j :: 0 <= j < 8 ==> (TestBit(b, j) <==> BitOn(bits, p + j))
    ensures b as int == BitSum(bits, p, 8)
  {
    hide TestBit, BitSum, BitOn, EightBits;
    ByteBits(b);
    SumOfEight(bits, p);
    assert TestBit(b, 0) == BitOn(bits, p + 0) && TestBit(b, 1) == BitOn(bits, p + 1);
    assert TestBit(b, 2) == BitOn(bits, p + 2) && TestBit(b, 3) == BitOn(bits, p + 3);
    assert TestBit(b, 4) == BitOn(bits, p + 4) && TestBit(b, 5) == BitOn(bits, p + 5);
    assert TestBit(b, 6) == BitOn(bits, p + 6) && TestBit(b, 7) == BitOn(bits, p + 7);
  }

  lemma BitInByte(bytes: seq<bv8>, i: nat, j: nat)
    requires i < |bytes| && j < 8
    ensures 8 * i + j < 8 * |bytes| && (BitAt(bytes, 8 * i + j) <==> TestBit(bytes[i], j))
  {
    hide TestBit;
    assert (8 * i + j) / 8 == i && (8 * i + j) % 8 == j;
  }

  /** As a number, each packed byte is the sum of 2^j over the flag bits 8 * i + j that are set. */
  lemma PackedValue(bits: seq<bool>, bytes: seq<bv8>, i: nat)
    requires Packs(bits, bytes) && i < |bytes|
    ensures bytes[i] as int == BitSum(bits, 8 * i, 8)
  {
    hide TestBit, BitAt, BitSum;
    forall j | 0 <= j < 8 ensures TestBit(bytes[i], j) <==> BitOn(bits, 8 * i + j) {
      BitInByte(bytes, i, j);
    }
    ByteOfBits(bytes[i], bits, 8 * i);
  }

  /** Unpacked bits are the binary digits of the bytes. */
  lemma UnpackedValue(bytes: seq<bv8>, i: nat)
    requires i < |bytes|
    ensures bytes[i] as int == BitSum(Unpack(bytes), 8 * i, 8)
  {
    hide TestBit, BitAt, BitSum;
    forall j | 0 <= j < 8 ensures TestBit(bytes[i], j) <==> BitOn(Unpack(bytes), 8 * i + j) {
      BitInByte(bytes, i, j);
    }
    ByteOfBits(bytes[i], Unpack(bytes), 8 * i);
  }

  /** Eight bits are determined by their number, so that the two laws pin each other's direction. */
  lemma {:induction false} BitsOfNumber(a: seq<bool>, b: seq<bool>, p: nat, n: nat)
    requires p + n <= |a| && p + n <= |b| && BitSum(a, p, n) == BitSum(b, p, n)
    ensures a[p..p + n] == b[p..p + n]
    decreases n
  {
    if n > 0 {
      SumBelow(a, p, n - 1);
      SumBelow(b, p, n - 1);
      BitsOfNumber(a, b, p, n - 1);
      assert a[p..p + n] == a[p..p + n - 1] + [a[p + n - 1]];
      assert b[p..p + n] == b[p..p + n - 1] + [b[p + n - 1]];
    }
  }

  lemma {:induction false} SumBelow(bits: seq<bool>, p: nat, n: nat)
    ensures BitSum(bits, p, n) < Pow2(n)
    decreases n
  {
    if n > 0 {
      SumBelow(bits, p, n - 1);
    }
  }

  // ---------------------------------------------------------------- the leaves below a node

  function Upper(h: nat, pos: nat, n: nat): (r: nat)
    ensures r <= n
  {
    if Shl(pos + 1, h) < n then Shl(pos + 1, h) else n
  }

  /** The leaves below a node are those below its children, in order. */
  lemma UpperChildren(h: nat, pos: nat, n: nat)
    requires h > 0 && Shl(pos, h) < n
    ensures Shl(2 * pos, h - 1) == Shl(pos, h) < Upper(h, pos, n)
    ensures 2 * pos + 1 < Width(n, h - 1) <==> Shl(2 * pos + 1, h - 1) < n
    ensures if Shl(2 * pos + 1, h - 1) < n
            then Upper(h - 1, 2 * pos, n) == Shl(2 * pos + 1, h - 1) && Upper(h - 1, 2 * pos + 1, n) == Upper(h, pos, n)
            else Upper(h - 1, 2 * pos, n) == Upper(h, pos, n)
    ensures Shl(pos, h) < Shl(2 * pos + 1, h - 1) && (Shl(2 * pos + 1, h - 1) < n ==> Shl(2 * pos + 1, h - 1) < Upper(h, pos, n))
  {
    hide Width;
    Children(pos, h);
    WidthSpec(n, 2 * pos + 1, h - 1);
    assert Shl(2 * pos + 1 + 1, h - 1) == Shl(pos + 1, h);
  }

  lemma LeafRange(pos: nat, n: nat)
    ensures Shl(pos, 0) == pos && (pos < n ==> Upper(0, pos, n) == pos + 1)
  {
  }
}
