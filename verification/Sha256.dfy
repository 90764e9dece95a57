/**
 SHA-256 as a stream: bytes are fed in pieces of any size, buffered, and compressed block by
 block.  The compression function and the initial state are parameters.
 */
module Sha256 {
  import Arithmetic
  import opened BigEndian

  /** The eight words of chaining state, and one 64-byte block. */
  type word = x: int | 0 <= x < 0x1_0000_0000
  type State = s: seq<word> | |s| == 8 witness [0, 0, 0, 0, 0, 0, 0, 0]
  type Block = b: seq<byte> | |b| == 64 witness seq(64, _ => 0)

  datatype Core = Core(init: State, compress: (State, Block) -> State)

  const TWO64: nat := 0x1_0000_0000_0000_0000

  // ---------------------------------------------------------------- the hash of a whole message

  /** Compress the blocks of a message one after the other. */
  function Absorb(core: Core, s: State, m: seq<byte>): State
    requires |m| % 64 == 0
    decreases |m|
  {
    if m == [] then s else Absorb(core, core.compress(s, m[..64]), m[64..])
  }

  /** The number of zero bytes in the padding of an n-byte message. */
  function PadZeros(n: nat): nat { (119 - n % 64) % 64 }

  /** A one bit, z zero bytes and the length complete an n-byte message to whole blocks. */
  predicate PadFits(n: nat, z: nat) { (n + 1 + z + 8) % 64 == 0 }

  function Zeros(n: nat): (r: seq<byte>)
    ensures |r| == n
  {
    seq(n, _ => 0)
  }

  /** The length of an n-byte message in bits, in eight bytes. */
  function LengthField(n: nat): (r: seq<byte>)
    ensures |r| == 8
  {
    BE64((8 * n) % TWO64)
  }

  /** What follows an n-byte message: a one bit, zeros and the length. */
  function Padding(n: nat): (r: seq<byte>)
    ensures |r| == 9 + PadZeros(n)
  {
    hide PadZeros, LengthField;
    [0x80] + Zeros(PadZeros(n)) + LengthField(n)
  }

  lemma PadWhole(n: nat, whole: nat)
    requires whole == n + 9 + PadZeros(n)
    ensures whole % 64 == 0
  {
    hide PadZeros;
    PadZerosLeast(n);
    assert whole == n + 1 + PadZeros(n) + 8;
  }

  /** The message with a one bit, zeros and its length in bits: section 5.1.1 of FIPS 180-4. */
  function Padded(m: seq<byte>): (r: seq<byte>)
    ensures |r| % 64 == 0
  {
    hide *;
    var r := m + Padding(|m|);
    PadWhole(|m|, |r|);
    r
  }

  function Output(s: State): (r: seq<byte>)
    ensures |r| == 32
  {
    BE32(s[0]) + BE32(s[1]) + BE32(s[2]) + BE32(s[3]) + BE32(s[4]) + BE32(s[5]) + BE32(s[6]) + BE32(s[7])
  }

  /** Four bytes of output for each word of state, each the word's value with the most significant byte first. */
  lemma OutputWords(s: State, i: nat)
    requires i < 8
    ensures BEValue(Output(s)[4 * i..4 * i + 4]) == s[i]
  {
    hide BE32;
    assert Output(s)[4 * i..4 * i + 4] == BE32(s[i]);
    Value32(s[i]);
  }

  /** The padded message: the message, a byte 128, zeros, and eight bytes whose value is its length in bits. */
  lemma PaddedLayout(m: seq<byte>)
    ensures var r, n := Padded(m), |m|;
            && |r| % 64 == 0 && n + 9 <= |r| < n + 9 + 64
            && r[..n] == m && r[n] as int == 128
            && (forall i :: n < i < |r| - 8 ==> r[i] as int == 0)
            && BEValue(r[|r| - 8..]) == (8 * n) % TWO64
  {
    hide BE64;
    var r, n, x := Padded(m), |m|, (8 * |m|) % TWO64;
    assert r[|r| - 8..] == BE64(x);
    Value64(x);
    forall i | n < i < |r| - 8 ensures r[i] as int == 0 {
      assert r[i] == 0;
    }
  }

  function Hash(core: Core, m: seq<byte>): (r: seq<byte>)
    ensures |r| == 32
  {
    Output(Absorb(core, core.init, Padded(m)))
  }

  /** The padding is the shortest that leaves room for the one bit and the length. */
  lemma PadZerosLeast(n: nat)
    ensures PadFits(n, PadZeros(n))
    ensures forall z :: 0 <= z < PadZeros(n) ==> !PadFits(n, z)
  {
    hide PadFits;
    PadZerosLeast64(n % 64, 0);
    PadFitsRest(n, PadZeros(n));
    forall z | 0 <= z < PadZeros(n) ensures !PadFits(n, z) {
      PadFitsRest(n, z);
      PadZerosLeast64(n % 64, z);
    }
  }

  lemma PadFitsRest(n: nat, z: nat)
    ensures PadFits(n, z) <==> (n % 64 + z + 9) % 64 == 0
  {
    var x := n % 64 + z + 9;
    Arithmetic.SameRemainder(x, n / 64, 64);
    assert n + 1 + z + 8 == x + 64 * (n / 64);
  }

  lemma PadZerosLeast64(r: nat, z: nat)
    requires r < 64
    ensures (r + PadZeros(r) + 9) % 64 == 0
    ensures z < PadZeros(r) ==> (r + z + 9) % 64 != 0
  {
  }

  lemma {:induction false} AbsorbAppend(core: Core, s: State, a: seq<byte>, b: seq<byte>)
    requires |a| % 64 == 0 && |b| % 64 == 0
    ensures |a + b| % 64 == 0
    ensures Absorb(core, s, a + b) == Absorb(core, Absorb(core, s, a), b)
    decreases |a|
  {
    if a == [] {
      assert a + b == b;
    } else {
      assert (a + b)[..64] == a[..64] && (a + b)[64..] == a[64..] + b;
      AbsorbAppend(core, core.compress(s, a[..64]), a[64..], b);
    }
  }

  lemma AbsorbBlock(core: Core, s: State, a: seq<byte>, b: Block)
    requires |a| % 64 == 0
    ensures |a + b| % 64 == 0
    ensures Absorb(core, s, a + b) == core.compress(Absorb(core, s, a), b)
  {
    AbsorbAppend(core, s, a, b);
    assert b[..64] == b && b[64..] == [];
    assert Absorb(core, Absorb(core, s, a), b) == Absorb(core, core.compress(Absorb(core, s, a), b), []);
  }

  // ---------------------------------------------------------------- the streaming object

  /** The part of a message that fills whole blocks. */
  function Full(m: seq<byte>): (r: nat)
    ensures r <= |m|
  {
    |m| - |m| % 64
  }

  /** The object's state after the message msg: whole blocks compressed, the rest in the buffer. */
  ghost predicate Represents(core: Core, s: State, buf: seq<byte>, bytes: nat, msg: seq<byte>) {
    && |buf| == 64
    && bytes == |msg| % TWO64
    && s == Absorb(core, core.init, msg[..Full(msg)])
    && buf[..|msg| % 64] == msg[Full(msg)..]
  }

  /** Counting modulo 2^64 loses nothing that the blocks and the length field need. */
  lemma CountMod(n: nat, k: nat)
    ensures (n % TWO64) % 64 == n % 64
    ensures (n % TWO64 + k) % TWO64 == (n + k) % TWO64
    ensures (8 * (n % TWO64)) % TWO64 == (8 * n) % TWO64
  {
    var q, r := n / TWO64, n % TWO64;
    assert n == r + TWO64 * q;
    Arithmetic.SameRemainder(r, q * 0x400_0000_0000_0000, 64);
    Arithmetic.SameRemainder(r + k, q, TWO64);
    Arithmetic.SameRemainder(8 * r, 8 * q, TWO64);
  }

  lemma FilledMessage(msg: seq<byte>, data: seq<byte>)
    requires |msg| % 64 != 0 && |data| == 64 - |msg| % 64
    ensures var m, full := msg + data, Full(msg);
            && |m| % 64 == 0 && Full(m) == |m| && m[..Full(m)] == m && m[Full(m)..] == []
            && full % 64 == 0 && m == msg[..full] + (msg[full..] + data)
  {
    var m := msg + data;
    Arithmetic.Remainder(|m|, 64, |msg| / 64 + 1, 0);
    assert msg == msg[..Full(msg)] + msg[Full(msg)..];
  }

  lemma Filled(core: Core, s: State, buf: seq<byte>, bytes: nat, msg: seq<byte>, data: seq<byte>, buf': seq<byte>)
    requires Represents(core, s, buf, bytes, msg) && |msg| % 64 != 0 && |data| == 64 - |msg| % 64
    requires buf' == buf[..|msg| % 64] + data
    ensures |msg + data| % 64 == 0
    ensures Represents(core, core.compress(s, buf'), buf', (bytes + |data|) % TWO64, msg + data)
  {
    hide Absorb, Full;
    CountMod(|msg|, |data|);
    FilledMessage(msg, data);
    AbsorbBlock(core, core.init, msg[..Full(msg)], buf');
  }

  lemma Kept(core: Core, s: State, buf: seq<byte>, bytes: nat, msg: seq<byte>, data: seq<byte>, buf': seq<byte>)
    requires Represents(core, s, buf, bytes, msg) && |msg| % 64 + |data| < 64
    requires |buf'| == 64 && buf'[..|msg| % 64 + |data|] == buf[..|msg| % 64] + data
    ensures Represents(core, s, buf', (bytes + |data|) % TWO64, msg + data)
  {
    hide Absorb;
    CountMod(|msg|, |data|);
    var m := msg + data;
    Arithmetic.Remainder(|m|, 64, |msg| / 64, |msg| % 64 + |data|);
    assert Full(m) == Full(msg);
    assert m[..Full(m)] == msg[..Full(msg)];
    assert m[Full(m)..] == msg[Full(msg)..] + data;
  }

  lemma Buffered(core: Core, s: State, buf: seq<byte>, bytes: nat, msg: seq<byte>)
    requires Represents(core, s, buf, bytes, msg)
    ensures bytes % 64 == |msg| % 64 && (8 * bytes) % TWO64 == (8 * |msg|) % TWO64
  {
    CountMod(|msg|, 0);
  }

  lemma AllAbsorbed(core: Core, s: State, buf: seq<byte>, bytes: nat, msg: seq<byte>)
    requires Represents(core, s, buf, bytes, msg) && |msg| % 64 == 0
    ensures s == Absorb(core, core.init, msg)
  {
    assert msg[..Full(msg)] == msg;
  }

  class Hasher {
    const core: Core
    var s: State
    const buf: array<byte>
    var bytes: nat
    ghost var msg: seq<byte>

    ghost predicate Valid()
      reads this, buf
    {
      buf.Length == 64 && Represents(core, s, buf[..], bytes, msg)
    }

    constructor (core: Core)
      ensures Valid() && fresh(buf) && msg == [] && this.core == core
    {
      this.core := core;
      s := core.init;
      buf := new byte[64];
      bytes := 0;
      msg := [];
    }

    method Reset()
      requires Valid()
      modifies this
      ensures Valid() && msg == []
    {
      bytes := 0;
      s := core.init;
      msg := [];
    }

    /** Top up a partly filled buffer to a whole block and compress it. */
    method FillBuffer(data: seq<byte>)
      requires Valid() && |msg| % 64 != 0 && |data| == 64 - |msg| % 64
      modifies this, buf
      ensures Valid() && msg == old(msg) + data && |msg| % 64 == 0
    {
      hide Represents;
      Buffered(core, s, buf[..], bytes, msg);
      var bufsize := bytes % 64;
      forall i | bufsize <= i < 64 {
        buf[i] := data[i - bufsize];
      }
      assert buf[..] == old(buf[..])[..bufsize] + data;
      Filled(core, s, old(buf[..]), bytes, msg, data, buf[..]);
      bytes := (bytes + |data|) % TWO64;
      s := core.compress(s, buf[..]);
      msg := msg + data;
    }

    /** Compress a block straight from the source. */
    method CompressBlock(data: seq<byte>)
      requires Valid() && |msg| % 64 == 0 && |data| == 64
      modifies this
      ensures Valid() && msg == old(msg) + data && |msg| % 64 == 0
    {
      CountMod(|msg|, 64);
      assert msg[..Full(msg)] == msg;
      AbsorbBlock(core, core.init, msg, data);
      s := core.compress(s, data);
      bytes := (bytes + 64) % TWO64;
      msg := msg + data;
      assert msg[..Full(msg)] == msg;
    }

    /** Keep a short piece in the buffer. */
    method Keep(data: seq<byte>)
      requires Valid() && |msg| % 64 + |data| < 64
      modifies this, buf
      ensures Valid() && msg == old(msg) + data
    {
      hide Represents;
      Buffered(core, s, buf[..], bytes, msg);
      var bufsize := bytes % 64;
      forall i | bufsize <= i < bufsize + |data| {
        buf[i] := data[i - bufsize];
      }
      assert buf[..bufsize + |data|] == old(buf[..])[..bufsize] + data;
      Kept(core, s, old(buf[..]), bytes, msg, data, buf[..]);
      bytes := (bytes + |data|) % TWO64;
      msg := msg + data;
    }

    method Write(data: seq<byte>)
      requires Valid()
      modifies this, buf
      ensures Valid() && msg == old(msg) + data
    {
      hide Represents;
      Buffered(core, s, buf[..], bytes, msg);
      var bufsize := bytes % 64;
      var d := 0;
      if bufsize != 0 && bufsize + |data| >= 64 {
        d := 64 - bufsize;
        FillBuffer(data[..d]);
        bufsize := 0;
      }
      while |data| >= d + 64
        invariant 0 <= d <= |data|
        invariant Valid() && msg == old(msg) + data[..d]
        invariant |msg| % 64 == bufsize && (bufsize != 0 ==> d == 0 && bufsize + |data| < 64)
      {
        CompressBlock(data[d..d + 64]);
        assert data[..d] + data[d..d + 64] == data[..d + 64];
        d := d + 64;
      }
      if |data| > d {
        Keep(data[d..]);
        assert data[..d] + data[d..] == data;
      } else {
        assert data[..d] == data;
      }
    }

    method Finalize() returns (hash: seq<byte>)
      requires Valid()
      modifies this, buf
      ensures Valid()
      ensures hash == Hash(core, old(msg))
    {
      hide Represents, Absorb, BE64;
      Buffered(core, s, buf[..], bytes, msg);
      ghost var m := msg;
      var sizedesc := BE64((8 * bytes) % TWO64);
      var pad := [0x80] + Zeros(63);
      var z := (119 - bytes % 64) % 64;
      Write(pad[..1 + z]);
      assert pad[..1 + z] == [0x80] + Zeros(z);
      Write(sizedesc);
      assert msg == Padded(m);
      AllAbsorbed(core, s, buf[..], bytes, msg);
      hash := Output(s);
    }
  }
}
