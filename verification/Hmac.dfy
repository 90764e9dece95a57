/** HMAC-SHA-256 over two streaming hashers. */
module Hmac {
  import opened BigEndian
  import opened Sha256

  /** The key as one block: padded with zeros, hashed first if it is longer than a block. */
  function BlockKey(core: Core, key: seq<byte>): (r: Block) {
    if |key| <= 64 then key + Zeros(64 - |key|) else Hash(core, key) + Zeros(32)
  }

  function XorAll(b: seq<byte>, x: byte): (r: seq<byte>)
    ensures |r| == |b|
  {
    seq(|b|, i requires 0 <= i < |b| => b[i] ^ x)
  }

  /** H(K xor opad, H(K xor ipad, text)): section 2 of RFC 2104. */
  function HmacOf(core: Core, key: seq<byte>, text: seq<byte>): (r: seq<byte>)
    ensures |r| == 32
  {
    var k := BlockKey(core, key);
    Hash(core, XorAll(k, 0x5c) + Hash(core, XorAll(k, 0x36) + text))
  }

  method XorInPlace(a: array<byte>, x: byte)
    modifies a
    ensures a[..] == XorAll(old(a[..]), x)
  {
    for n := 0 to a.Length
      invariant forall j :: 0 <= j < n ==> a[j] == old(a[j]) ^ x
      invariant forall j :: n <= j < a.Length ==> a[j] == old(a[j])
    {
      a[n] := a[n] ^ x;
    }
  }

  /** A block that starts with the given bytes and goes on with zeros. */
  method ZeroExtend(bytes: seq<byte>) returns (a: array<byte>)
    requires |bytes| <= 64
    ensures fresh(a) && a[..] == bytes + Zeros(64 - |bytes|)
  {
    a := new byte[64];
    forall i | 0 <= i < |bytes| { a[i] := bytes[i]; }
    forall i | |bytes| <= i < 64 { a[i] := 0; }
  }

  method MakeBlockKey(core: Core, key: seq<byte>) returns (rkey: array<byte>)
    ensures fresh(rkey) && rkey[..] == BlockKey(core, key)
  {
    hide Hash, Zeros;
    if |key| <= 64 {
      rkey := ZeroExtend(key);
    } else {
      var h := Started(core, key);
      var digest := h.Finalize();
      rkey := ZeroExtend(digest);
    }
  }

  lemma AppendNothing(a: seq<byte>)
    ensures a + [] == a
  {
  }

  lemma Assoc(a: seq<byte>, b: seq<byte>, c: seq<byte>)
    ensures (a + b) + c == a + (b + c)
  {
  }

  class Mac {
    const outer: Hasher
    const inner: Hasher
    ghost const core: Core
    ghost const key: seq<byte>
    ghost var text: seq<byte>

    ghost predicate Valid()
      reads this, outer, inner, outer.buf, inner.buf
    {
      && outer != inner && outer.buf != inner.buf
      && outer.Valid() && inner.Valid()
      && outer.core == core && inner.core == core
      && outer.msg == XorAll(BlockKey(core, key), 0x5c)
      && inner.msg == XorAll(BlockKey(core, key), 0x36) + text
    }

    constructor (core: Core, key: seq<byte>)
      ensures Valid() && this.core == core && this.key == key && text == []
      ensures fresh(outer) && fresh(inner) && fresh(outer.buf) && fresh(inner.buf)
    {
      hide Hash, BlockKey, XorAll;
      var rkey := MakeBlockKey(core, key);
      ghost var k := BlockKey(core, key);
      XorInPlace(rkey, 0x5c);
      var o := Started(core, rkey[..]);
      XorInPlace(rkey, 0x5c ^ 0x36);
      XorTwice(k);
      var i := Started(core, rkey[..]);
      this.core, this.key, text := core, key, [];
      outer, inner := o, i;
      AppendNothing(XorAll(k, 0x36));
    }

    method Write(data: seq<byte>)
      requires Valid()
      modifies this, inner, inner.buf
      ensures Valid() && text == old(text) + data
    {
      Assoc(XorAll(BlockKey(core, key), 0x36), text, data);
      inner.Write(data);
      text := text + data;
    }

    method Finalize() returns (hash: seq<byte>)
      requires Valid()
      modifies outer, inner, outer.buf, inner.buf
      ensures hash == HmacOf(core, key, old(text))
    {
      var temp := inner.Finalize();
      outer.Write(temp);
      hash := outer.Finalize();
    }
  }

  lemma XorTwice(k: seq<byte>)
    ensures XorAll(XorAll(k, 0x5c), 0x5c ^ 0x36) == XorAll(k, 0x36)
  {
    forall n | 0 <= n < |k| ensures (k[n] ^ 0x5c) ^ (0x5c ^ 0x36) == k[n] ^ 0x36 {}
  }

  /** A new hasher that has taken its first piece. */
  method Started(core: Core, data: seq<byte>) returns (h: Hasher)
    ensures h.Valid() && h.core == core && h.msg == data && fresh(h) && fresh(h.buf)
  {
    h := new Hasher(core);
    h.Write(data);
    assert [] + data == data;
  }

  /** Key a MAC, feed it the pieces in turn, and finish it. */
  method MacOfPieces(core: Core, key: seq<byte>, pieces: seq<seq<byte>>) returns (hash: seq<byte>)
    ensures hash == HmacOf(core, key, Concat(pieces))
  {
    hide Hash, BlockKey, XorAll;
    var mac := new Mac(core, key);
    for i := 0 to |pieces|
      invariant mac.Valid() && mac.core == core && mac.key == key && mac.text == Concat(pieces[..i])
      invariant fresh(mac) && fresh(mac.inner) && fresh(mac.outer) && fresh(mac.inner.buf) && fresh(mac.outer.buf)
    {
      assert pieces[..i + 1][..i] == pieces[..i];
      mac.Write(pieces[i]);
    }
    assert pieces[..|pieces|] == pieces;
    hash := mac.Finalize();
  }

  function Concat(pieces: seq<seq<byte>>): seq<byte> {
    if pieces == [] then [] else Concat(pieces[..|pieces| - 1]) + pieces[|pieces| - 1]
  }
}
