/** The deterministic generator of section 3.2 of RFC 6979, as the object that produces its output call by call. */
module Rfc6979 {
  import opened BigEndian
  import opened Sha256
  import opened Hmac

  // ---------------------------------------------------------------- the generator, on values

  datatype Drbg = Drbg(K: seq<byte>, V: seq<byte>)

  /** K = HMAC_K(V || sep || seed); V = HMAC_K(V) */
  function Update(core: Core, d: Drbg, sep: byte, seed: seq<byte>): Drbg {
    var k := HmacOf(core, d.K, d.V + [sep] + seed);
    Drbg(k, HmacOf(core, k, d.V))
  }

  /** Steps b to g: from the secret and the message, concatenated in seed. */
  function Instantiate(core: Core, seed: seq<byte>): Drbg {
    var d := Drbg(seq(32, _ => 0x00), seq(32, _ => 0x01));
    Update(core, Update(core, d, 0x00, seed), 0x01, seed)
  }

  /** Step h.2: V = HMAC_K(V) */
  function Advance(core: Core, d: Drbg): Drbg { d.(V := HmacOf(core, d.K, d.V)) }

  /** The generator after n more blocks. */
  function AdvanceMany(core: Core, d: Drbg, n: nat): Drbg {
    if n == 0 then d else Advance(core, AdvanceMany(core, d, n - 1))
  }

  lemma AdvancedSize(core: Core, d: Drbg, n: nat)
    requires n > 0
    ensures |AdvanceMany(core, d, n).V| == 32
  {
    hide HmacOf;
  }

  /** T after n blocks: V after each of them, concatenated. */
  function Blocks(core: Core, d: Drbg, n: nat): (r: seq<byte>)
    ensures |r| == 32 * n
    decreases n
  {
    if n == 0 then [] else
      AdvancedSize(core, d, n);
      Blocks(core, d, n - 1) + AdvanceMany(core, d, n).V
  }

  /** How many blocks an output of n bytes takes. */
  function BlockCount(n: nat): nat { (n + 31) / 32 }

  /** Before every candidate but the first, step h.3 stirs the state. */
  function Stirred(core: Core, d: Drbg, first: bool): Drbg {
    if first then d else Update(core, d, 0x00, [])
  }

  /** The generator after a sequence of requests of the given lengths. */
  function After(core: Core, seed: seq<byte>, lens: seq<nat>): Drbg {
    if lens == [] then Instantiate(core, seed) else
      var k := |lens| - 1;
      AdvanceMany(core, Stirred(core, After(core, seed, lens[..k]), k == 0), BlockCount(lens[k]))
  }

  /** The candidate of n bytes that follows requests of the given lengths. */
  function Candidate(core: Core, seed: seq<byte>, lens: seq<nat>, n: nat): (r: seq<byte>)
    ensures |r| == n
  {
    Blocks(core, Stirred(core, After(core, seed, lens), lens == []), BlockCount(n))[..n]
  }

  // ---------------------------------------------------------------- the object

  class Generator {
    const core: Core
    var K: seq<byte>
    var V: seq<byte>
    var retry: bool
    ghost const seed: seq<byte>
    ghost var lens: seq<nat>

    ghost predicate Valid()
      reads this
    {
      Drbg(K, V) == After(core, seed, lens) && retry == (lens != [])
    }

    constructor (core: Core, key: seq<byte>, msg: seq<byte>)
      ensures Valid() && this.core == core && seed == key + msg && lens == []
    {
      hide HmacOf, Concat;
      var v := seq(32, _ => 0x01 as byte);
      var k := seq(32, _ => 0x00 as byte);
      k := MacOfPieces(core, k, [v, [0x00], key, msg]);
      FourPieces(v, [0x00], key, msg);
      ghost var v0 := v;
      v := MacOfPieces(core, k, [v]);
      OnePiece(v0);
      ghost var v1 := v;
      k := MacOfPieces(core, k, [v, [0x01], key, msg]);
      FourPieces(v1, [0x01], key, msg);
      v := MacOfPieces(core, k, [v]);
      OnePiece(v1);
      this.core, this.seed, lens := core, key + msg, [];
      K, V, retry := k, v, false;
    }

    /** K = HMAC_K(V || 0x00); V = HMAC_K(V) */
    method Stir()
      modifies this
      ensures Drbg(K, V) == Update(core, Drbg(old(K), old(V)), 0x00, [])
      ensures retry == old(retry) && lens == old(lens)
    {
      hide HmacOf;
      TwoPieces(V, [0x00]);
      OnePiece(V);
      K := MacOfPieces(core, K, [V, [0x00]]);
      V := MacOfPieces(core, K, [V]);
    }

    /** Emit n bytes, one block of V after the other, the last one cut short. */
    method Fill(n: nat) returns (output: seq<byte>)
      modifies this
      ensures Drbg(K, V) == AdvanceMany(core, Drbg(old(K), old(V)), BlockCount(n))
      ensures output == Blocks(core, Drbg(old(K), old(V)), BlockCount(n))[..n]
      ensures retry == old(retry) && lens == old(lens)
    {
      hide HmacOf, Blocks, AdvanceMany;
      ghost var d := Drbg(K, V);
      NoBlocks(core, d);
      output := [];
      var outputlen := n;
      ghost var i := 0;
      while outputlen > 0
        invariant |output| + outputlen == n
        invariant |output| == if 32 * i < n then 32 * i else n
        invariant i <= BlockCount(n) && (outputlen == 0 ==> i == BlockCount(n))
        invariant Drbg(K, V) == AdvanceMany(core, d, i)
        invariant output == Blocks(core, d, i)[..|output|]
        invariant retry == old(retry) && lens == old(lens)
      {
        OnePiece(V);
        NextBlock(core, d, i);
        V := MacOfPieces(core, K, [V]);
        var len := if outputlen < 32 then outputlen else 32;
        AppendBlock(core, d, i, V, output, len);
        i := i + 1;
        output := output + V[..len];
        outputlen := outputlen - len;
      }
    }

    /** The next output of n bytes; later calls continue the sequence of candidates. */
    method Generate(n: nat) returns (output: seq<byte>)
      requires Valid()
      modifies this
      ensures Valid() && lens == old(lens) + [n]
      ensures output == Candidate(core, seed, old(lens), n)
    {
      hide HmacOf;
      if retry {
        Stir();
      }
      output := Fill(n);
      lens := lens + [n];
      assert lens[..|lens| - 1] == old(lens);
      retry := true;
    }
  }

  lemma NoBlocks(core: Core, d: Drbg)
    ensures AdvanceMany(core, d, 0) == d && Blocks(core, d, 0) == []
  {
  }

  lemma NextBlock(core: Core, d: Drbg, i: nat)
    ensures AdvanceMany(core, d, i + 1) == Advance(core, AdvanceMany(core, d, i))
    ensures Blocks(core, d, i)[..32 * i] == Blocks(core, d, i)
  {
    hide HmacOf;
  }

  lemma AppendBlock(core: Core, d: Drbg, i: nat, v: seq<byte>, output: seq<byte>, len: nat)
    requires v == AdvanceMany(core, d, i + 1).V && |v| == 32 && len <= 32
    requires output == Blocks(core, d, i)
    ensures output + v[..len] == Blocks(core, d, i + 1)[..32 * i + len]
  {
    hide HmacOf, AdvanceMany;
    assert Blocks(core, d, i + 1) == output + v;
  }

  lemma OnePiece(a: seq<byte>)
    ensures Concat([a]) == a
  {
    assert [a][..0] == [];
  }

  lemma TwoPieces(a: seq<byte>, b: seq<byte>)
    ensures Concat([a, b]) == a + b + []
  {
    assert [a, b][..1] == [a];
    OnePiece(a);
  }

  lemma FourPieces(a: seq<byte>, b: seq<byte>, c: seq<byte>, d: seq<byte>)
    ensures Concat([a, b, c, d]) == a + b + (c + d)
  {
    assert [a, b, c, d][..3] == [a, b, c] && [a, b, c][..2] == [a, b];
    TwoPieces(a, b);
  }
}
