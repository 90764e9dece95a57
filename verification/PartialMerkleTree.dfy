/** The partial Merkle tree object: traversals that append to its vectors and advance cursors, and its byte form. */
module PartialMerkleTree {
  import opened MerkleTree
  import opened MerkleRoundTrip

  method ComputeHeight(n: nat) returns (nHeight: nat)
    ensures nHeight == Height(n)
    ensures n <= Shl(1, nHeight)
  {
    nHeight := 0;
    while Width(n, nHeight) > 1
      invariant HeightFrom(n, nHeight) == Height(n)
      decreases n - Shl(1, nHeight)
    {
      WidthSpec(n, 1, nHeight);
      ShlDouble(1, nHeight);
      ShlPositive(nHeight);
      nHeight := nHeight + 1;
    }
    HeightCovers(n, 0);
  }

  /** Whether a node is the parent of at least one matched id. */
  method ScanMatches(height: nat, pos: nat, vMatch: seq<bool>) returns (fParentOfMatch: bool)
    requires Shl(pos, height) < |vMatch|
    ensures fParentOfMatch == ParentOfMatch(height, pos, vMatch)
  {
    fParentOfMatch := false;
    var p := Shl(pos, height);
    ShlAdd(pos, 1, height);
    while p < Shl(pos + 1, height) && p < |vMatch|
      invariant Shl(pos, height) <= p <= |vMatch| && p <= Shl(pos + 1, height)
      invariant fParentOfMatch <==> exists q :: Shl(pos, height) <= q < p && vMatch[q]
    {
      fParentOfMatch := fParentOfMatch || vMatch[p];
      p := p + 1;
    }
  }

  lemma EncodeIsBuild(txids: seq<Digest>, mask: seq<bool>, h: nat)
    requires 0 < |txids| == |mask| && h == Height(|txids|) && Shl(0, h) < |txids|
    ensures [] + Build(h, 0, txids, mask).0 == Encode(txids, mask).0
    ensures [] + Build(h, 0, txids, mask).1 == Encode(txids, mask).1
  {
  }

  /** The first p flag bits are packed, and no other bit is set. */
  ghost predicate PackedTo(bits: seq<bool>, bytes: seq<bv8>, p: nat) {
    p <= |bits| && forall q :: 0 <= q < 8 * |bytes| ==> (BitAt(bytes, q) <==> q < p && bits[q])
  }

  lemma PackNone(bits: seq<bool>, bytes: seq<bv8>)
    requires forall i :: 0 <= i < |bytes| ==> bytes[i] == 0
    ensures PackedTo(bits, bytes, 0)
  {
    forall j | 0 <= j < 8 ensures !TestBit(0, j) {}
  }

  lemma PackOne(bits: seq<bool>, bytes: seq<bv8>, p: nat, b: bv8)
    requires PackedTo(bits, bytes, p) && p < |bits| && p < 8 * |bytes|
    requires b == bytes[p / 8] | (if bits[p] then Mask(p % 8) else 0)
    ensures PackedTo(bits, bytes[p / 8 := b], p + 1)
  {
    hide BitAt, Mask;
    var bytes' := bytes[p / 8 := b];
    forall q | 0 <= q < 8 * |bytes'| ensures BitAt(bytes', q) <==> q < p + 1 && bits[q] {
      SetBitAt(bytes, p, bits[p], q);
    }
  }

  lemma PackAll(bits: seq<bool>, bytes: seq<bv8>)
    requires PackedTo(bits, bytes, |bits|) && |bytes| == (|bits| + 7) / 8
    ensures Packs(bits, bytes)
  {
  }

  class Tree {
    var nTransactions: nat
    var vBits: seq<bool>
    var vHash: seq<Digest>
    var fBad: bool

    /** Build a tree from transaction ids and a mask that selects some of them. */
    constructor (vTxid: seq<Digest>, vMatch: seq<bool>)
      requires 0 < |vTxid| == |vMatch|
      ensures nTransactions == |vTxid| && !fBad
      ensures vBits == Encode(vTxid, vMatch).0 && vHash == Encode(vTxid, vMatch).1
    {
      nTransactions, vBits, vHash, fBad := |vTxid|, [], [], false;
      new;
      var nHeight := ComputeHeight(nTransactions);
      ShlZero(nHeight);
      TraverseAndBuild(nHeight, 0, vTxid, vMatch);
      EncodeIsBuild(vTxid, vMatch, nHeight);
    }

    constructor Empty()
      ensures nTransactions == 0 && vBits == [] && vHash == [] && fBad
    {
      nTransactions, vBits, vHash, fBad := 0, [], [], true;
    }

    method TraverseAndBuild(height: nat, pos: nat, vTxid: seq<Digest>, vMatch: seq<bool>)
      requires |vMatch| == |vTxid| == nTransactions && Shl(pos, height) < nTransactions
      modifies this`vBits, this`vHash
      ensures vBits == old(vBits) + Build(height, pos, vTxid, vMatch).0
      ensures vHash == old(vHash) + Build(height, pos, vTxid, vMatch).1
      decreases height
    {
      hide Build, CalcHash, ParentOfMatch, Shl, Width;
      var fParentOfMatch := ScanMatches(height, pos, vMatch);
      vBits := vBits + [fParentOfMatch];
      if height == 0 || !fParentOfMatch {
        BuildStops(height, pos, vTxid, vMatch);
        vHash := vHash + [CalcHash(height, pos, vTxid)];
      } else if 2 * pos + 1 < Width(nTransactions, height - 1) {
        BuildBoth(height, pos, vTxid, vMatch);
        ghost var (lb, lh) := Build(height - 1, 2 * pos, vTxid, vMatch);
        ghost var (rb, rh) := Build(height - 1, 2 * pos + 1, vTxid, vMatch);
        TraverseAndBuild(height - 1, 2 * pos, vTxid, vMatch);
        TraverseAndBuild(height - 1, 2 * pos + 1, vTxid, vMatch);
        assert vBits == old(vBits) + ([true] + lb + rb);
        assert vHash == old(vHash) + (lh + rh);
      } else {
        BuildOne(height, pos, vTxid, vMatch);
        ghost var (lb, lh) := Build(height - 1, 2 * pos, vTxid, vMatch);
        TraverseAndBuild(height - 1, 2 * pos, vTxid, vMatch);
        assert vBits == old(vBits) + ([true] + lb);
      }
    }

    /** The cursors are passed in and handed back, as the original passes them by reference. */
    method TraverseAndExtract(height: nat, pos: nat, nBitsUsed: nat, nHashUsed: nat, vMatch: seq<Digest>)
      returns (hash: Digest, nBitsUsed': nat, nHashUsed': nat, vMatch': seq<Digest>)
      modifies this`fBad
      ensures (hash, Cursor(nBitsUsed', nHashUsed', vMatch', fBad))
              == Extract(height, pos, nTransactions, vBits, vHash, Cursor(nBitsUsed, nHashUsed, vMatch, old(fBad)))
      decreases height
    {
      hide Width;
      nBitsUsed', nHashUsed', vMatch' := nBitsUsed, nHashUsed, vMatch;
      if nBitsUsed' >= |vBits| {
        fBad := true;
        hash := Zero;
        return;
      }
      var fParentOfMatch := vBits[nBitsUsed'];
      nBitsUsed' := nBitsUsed' + 1;
      if height == 0 || !fParentOfMatch {
        if nHashUsed' >= |vHash| {
          fBad := true;
          hash := Zero;
          return;
        }
        hash := vHash[nHashUsed'];
        nHashUsed' := nHashUsed' + 1;
        if height == 0 && fParentOfMatch {
          vMatch' := vMatch' + [hash];
        }
      } else {
        var left, right: Digest;
        left, nBitsUsed', nHashUsed', vMatch' := TraverseAndExtract(height - 1, 2 * pos, nBitsUsed', nHashUsed', vMatch');
        if 2 * pos + 1 < Width(nTransactions, height - 1) {
          right, nBitsUsed', nHashUsed', vMatch' := TraverseAndExtract(height - 1, 2 * pos + 1, nBitsUsed', nHashUsed', vMatch');
          if right == left {
            fBad := true;
          }
        } else {
          right := left;
        }
        hash := Node(left, right);
      }
    }

    method ExtractMatches(maxBlockSize: nat) returns (root: Digest, vMatch: seq<Digest>)
      modifies this`fBad
      ensures Decoded(root, vMatch, fBad) == Decode(nTransactions, vBits, vHash, old(fBad), maxBlockSize)
    {
      vMatch := [];
      if nTransactions == 0 {
        return Zero, vMatch;
      }
      if nTransactions > maxBlockSize / 60 {
        return Zero, vMatch;
      }
      if |vHash| > nTransactions {
        return Zero, vMatch;
      }
      if |vBits| < |vHash| {
        return Zero, vMatch;
      }
      var nHeight := ComputeHeight(nTransactions);
      var nBitsUsed, nHashUsed := 0, 0;
      root, nBitsUsed, nHashUsed, vMatch := TraverseAndExtract(nHeight, 0, nBitsUsed, nHashUsed, vMatch);
      if fBad {
        return Zero, vMatch;
      }
      if (nBitsUsed + 7) / 8 != (|vBits| + 7) / 8 {
        return Zero, vMatch;
      }
      if nHashUsed != |vHash| {
        return Zero, vMatch;
      }
    }

    /** Writing: the transaction count and the hashes go out as they are, the flag bits packed into bytes. */
    method WriteBytes() returns (vBytes: seq<bv8>)
      ensures Packs(vBits, vBytes)
    {
      hide PackedTo, BitAt, Mask;
      var bytes := new bv8[(|vBits| + 7) / 8](_ => 0);
      PackNone(vBits, bytes[..]);
      for p := 0 to |vBits|
        invariant PackedTo(vBits, bytes[..], p)
      {
        ghost var before := bytes[..];
        bytes[p / 8] := bytes[p / 8] | (if vBits[p] then Mask(p % 8) else 0);
        PackOne(vBits, before, p, bytes[p / 8]);
        assert bytes[..] == before[p / 8 := bytes[p / 8]];
      }
      vBytes := bytes[..];
      PackAll(vBits, vBytes);
    }

    /** Reading: every bit of every byte becomes a flag, and the error flag is cleared. */
    method ReadBytes(total: nat, hashes: seq<Digest>, vBytes: seq<bv8>)
      modifies this
      ensures nTransactions == total && vHash == hashes && vBits == Unpack(vBytes) && !fBad
    {
      nTransactions, vHash := total, hashes;
      var bits := new bool[8 * |vBytes|];
      for p := 0 to bits.Length
        invariant nTransactions == total && vHash == hashes
        invariant forall q :: 0 <= q < p ==> bits[q] == BitAt(vBytes, q)
      {
        bits[p] := vBytes[p / 8] & Mask(p % 8) != 0;
      }
      vBits := bits[..];
      fBad := false;
    }
  }

  /** Write a tree, read it into another one, extract: the root and the selected ids come back. */
  method Relay(vTxid: seq<Digest>, vMatch: seq<bool>, maxBlockSize: nat) returns (root: Digest, matches: seq<Digest>)
    requires 0 < |vTxid| == |vMatch| && |vTxid| <= maxBlockSize / 60 && Distinct(vTxid)
    ensures root == Root(vTxid)
    ensures matches == Matched(vTxid, vMatch, 0, |vTxid|)
  {
    var sent := new Tree(vTxid, vMatch);
    var bytes := sent.WriteBytes();
    var received := new Tree.Empty();
    received.ReadBytes(sent.nTransactions, sent.vHash, bytes);
    RoundTripDistinct(vTxid, vMatch, bytes, maxBlockSize);
    root, matches := received.ExtractMatches(maxBlockSize);
  }
}
