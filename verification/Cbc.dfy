/** Cipher block chaining with optional padding, over an abstract 16-byte block permutation. */
module Cbc {
  import opened BigEndian

  type Block = b: seq<byte> | |b| == 16 witness seq(16, _ => 0)

  /** A block cipher under one key: decryption undoes encryption. */
  datatype Cipher = Cipher(encrypt: Block -> Block, decrypt: Block -> Block)

  ghost predicate Inverse(c: Cipher) {
    forall b: Block :: c.decrypt(c.encrypt(b)) == b
  }

  // ---------------------------------------------------------------- the mode, on values

  function XorByte(a: byte, b: byte): byte { a ^ b }

  function Xor(a: Block, b: Block): (r: Block) {
    seq(16, i requires 0 <= i < 16 => XorByte(a[i], b[i]))
  }

  lemma XorCancels(a: Block, b: Block)
    ensures Xor(Xor(a, b), b) == a && Xor(Xor(a, b), a) == b && Xor(a, b) == Xor(b, a)
  {
  }

  /** The block before position k of a ciphertext: the previous one, or the initialisation vector. */
  function Prev(iv: Block, d: seq<byte>, k: nat): Block
    requires k % 16 == 0 && k <= |d|
  {
    if k == 0 then iv else d[k - 16..k]
  }

  /** Each ciphertext block is the encryption of its plaintext block xor the previous ciphertext block. */
  function Chain(c: Cipher, iv: Block, p: seq<byte>): (r: seq<byte>)
    requires |p| % 16 == 0
    ensures |r| == |p|
    decreases |p|
  {
    if p == [] then [] else
      var k := |p| - 16;
      var d := Chain(c, iv, p[..k]);
      d + c.encrypt(Xor(Prev(iv, d, k), p[k..]))
  }

  function Unchain(c: Cipher, iv: Block, d: seq<byte>): (r: seq<byte>)
    requires |d| % 16 == 0
    ensures |r| == |d|
    decreases |d|
  {
    if d == [] then [] else
      var k := |d| - 16;
      Unchain(c, iv, d[..k]) + Xor(c.decrypt(d[k..]), Prev(iv, d, k))
  }

  /** Between one and sixteen bytes, each holding their number. */
  function PadSize(n: nat): (r: nat)
    ensures 1 <= r <= 16 && (n + r) % 16 == 0
  {
    16 - n % 16
  }

  function Padding(k: nat): (r: seq<byte>)
    requires k <= 16
    ensures |r| == k
  {
    seq(k, _ => k as bv8)
  }

  /** What is encrypted for a message: the message, or the message with its padding. */
  function Plain(p: seq<byte>, pad: bool): seq<byte> {
    if pad then p + Padding(PadSize(|p|)) else p
  }

  /** The length that the padding of a decrypted text announces, if the text ends in well-formed padding. */
  ghost predicate WellPadded(t: seq<byte>, k: nat) {
    1 <= k <= 16 && k <= |t| && t[|t| - k..] == Padding(k)
  }

  /** The length n that decryption reports for a decrypted text t. */
  ghost predicate Stripped(t: seq<byte>, pad: bool, n: nat) {
    if !pad then n == |t|
    else if exists k: nat :: WellPadded(t, k) then n <= |t| && WellPadded(t, |t| - n)
    else n == 0
  }

  lemma {:induction false} UnchainChain(c: Cipher, iv: Block, p: seq<byte>)
    requires Inverse(c) && |p| % 16 == 0
    ensures Unchain(c, iv, Chain(c, iv, p)) == p
    decreases |p|
  {
    hide Xor;
    if p != [] {
      var k := |p| - 16;
      var q, last: Block := p[..k], p[k..];
      UnchainChain(c, iv, q);
      var d := Chain(c, iv, p);
      var prev := Prev(iv, d, k);
      assert d[..k] == Chain(c, iv, q);
      assert prev == Prev(iv, Chain(c, iv, q), k);
      assert d[k..] == c.encrypt(Xor(prev, last));
      XorCancels(prev, last);
      assert p == q + last;
    }
  }

  lemma {:induction false} ChainPrefix(c: Cipher, iv: Block, p: seq<byte>, k: nat)
    requires |p| % 16 == 0 && k % 16 == 0 && k <= |p|
    ensures Chain(c, iv, p)[..k] == Chain(c, iv, p[..k])
    decreases |p|
  {
    hide Xor;
    if k == |p| {
      assert p[..k] == p;
    } else {
      var n := |p| - 16;
      ChainPrefix(c, iv, p[..n], k);
      assert p[..n][..k] == p[..k];
    }
  }

  /** Each ciphertext block is the encryption of a plaintext block mixed with the ciphertext block before it, or with the vector. */
  lemma ChainBlocks(c: Cipher, iv: Block, p: seq<byte>, k: nat)
    requires |p| % 16 == 0 && k % 16 == 0 && k + 16 <= |p|
    ensures var d := Chain(c, iv, p);
            d[k..k + 16] == c.encrypt(Xor(if k == 0 then iv else d[k - 16..k], p[k..k + 16]))
  {
    hide Xor, Chain;
    var d, block := Chain(c, iv, p), p[k..k + 16];
    ChainPrefix(c, iv, p, k + 16);
    ChainPrefix(c, iv, p, k);
    assert p[..k] + block == p[..k + 16];
    ChainStep(c, iv, p[..k], block);
    assert d[k..k + 16] == d[..k + 16][k..];
    if k > 0 {
      assert d[k - 16..k] == d[..k][k - 16..k];
    }
  }

  // ---------------------------------------------------------------- encryption, in place

  lemma ChainStep(c: Cipher, iv: Block, p: seq<byte>, last: Block)
    requires |p| % 16 == 0
    ensures |p + last| % 16 == 0
    ensures Chain(c, iv, p + last) == Chain(c, iv, p) + c.encrypt(Xor(Prev(iv, Chain(c, iv, p), |p|), last))
  {
    var q := p + last;
    assert q[..|q| - 16] == p && q[|q| - 16..] == last;
  }

  /** mixed ^= block, byte by byte, for the first n bytes of the block from position `from`. */
  method XorRange(mixed: array<byte>, block: Block, from: nat, to: nat)
    requires mixed.Length == 16 && from <= to <= 16
    modifies mixed
    ensures forall j :: 0 <= j < 16 ==> mixed[j] == if from <= j < to then XorByte(old(mixed[j]), block[j]) else old(mixed[j])
  {
    for i := from to to
      invariant forall j :: 0 <= j < 16 ==> mixed[j] == if from <= j < i then XorByte(old(mixed[j]), block[j]) else old(mixed[j])
    {
      mixed[i] := XorByte(mixed[i], block[i]);
    }
  }

  /** mixed ^= block, its bytes up to split first and then the rest. */
  method MixBlock(mixed: array<byte>, block: Block, split: nat)
    requires mixed.Length == 16 && split <= 16
    modifies mixed
    ensures mixed[..] == Xor(old(mixed[..]), block)
  {
    hide XorByte;
    XorRange(mixed, block, 0, split);
    XorRange(mixed, block, split, 16);
  }

  /** A buffer with some bytes written over. */
  function Overlay(s: seq<byte>, at: nat, e: seq<byte>): (r: seq<byte>)
    requires at + |e| <= |s|
    ensures |r| == |s|
  {
    s[..at] + e + s[at + |e|..]
  }

  lemma OverlayParts(s: seq<byte>, at: nat, e: seq<byte>)
    requires at + |e| <= |s|
    ensures Overlay(s, at, e)[..at + |e|] == s[..at] + e
    ensures Overlay(s, at, e)[at + |e|..] == s[at + |e|..]
    ensures |e| == |s| ==> Overlay(s, at, e) == e
  {
  }

  method CopyBlock(e: Block, out: array<byte>, at: nat)
    requires at + 16 <= out.Length
    modifies out
    ensures out[..] == Overlay(old(out[..]), at, e)
  {
    forall i | at <= i < at + 16 {
      out[i] := e[i - at];
    }
  }

  /** After the plaintext prefix p: what has been written, and the block that the next one is mixed with. */
  ghost predicate Chained(c: Cipher, iv: Block, p: seq<byte>, written: seq<byte>, mixed: seq<byte>) {
    |p| % 16 == 0 && written == Chain(c, iv, p) && mixed == Prev(iv, Chain(c, iv, p), |p|)
  }

  lemma ChainedStep(c: Cipher, iv: Block, p: seq<byte>, written: seq<byte>, mixed: Block, block: Block)
    requires Chained(c, iv, p, written, mixed)
    ensures Chained(c, iv, p + block, written + c.encrypt(Xor(mixed, block)), c.encrypt(Xor(mixed, block)))
  {
    ChainStep(c, iv, p, block);
    var d := Chain(c, iv, p + block);
    assert d[|p|..|p| + 16] == c.encrypt(Xor(mixed, block));
  }

  /** Mix a block in (its bytes up to split, then the rest), encrypt it to out, and keep it for the next block. */
  method EncryptBlock(c: Cipher, ghost iv: Block, ghost p: seq<byte>, block: Block, split: nat,
                      mixed: array<byte>, out: array<byte>, at: nat)
    requires mixed.Length == 16 && mixed != out && split <= 16 && at + 16 <= out.Length
    requires Chained(c, iv, p, out[..at], mixed[..])
    modifies mixed, out
    ensures Chained(c, iv, p + block, out[..at + 16], mixed[..])
    ensures out[..] == Overlay(old(out[..]), at, mixed[..])
  {
    hide Chained, Xor, Overlay;
    ghost var before := out[..];
    ChainedStep(c, iv, p, out[..at], mixed[..], block);
    MixBlock(mixed, block, split);
    var e := c.encrypt(mixed[..]);
    CopyBlock(e, out, at);
    OverlayParts(before, at, e);
    OverlayParts(mixed[..], 0, e);
    CopyBlock(e, mixed, 0);
  }

  /** All whole blocks of the data, which may be in the output buffer itself. */
  method EncryptWhole(c: Cipher, iv: Block, data: array<byte>, size: nat, mixed: array<byte>, out: array<byte>) returns (written: nat)
    requires size <= data.Length && data != mixed && mixed != out && mixed.Length == 16
    requires size - size % 16 <= out.Length && mixed[..] == iv
    modifies mixed, out
    ensures written == size - size % 16
    ensures Chained(c, iv, old(data[..written]), out[..written], mixed[..])
    ensures out[written..] == old(out[..])[written..] && data[written..size] == old(data[written..size])
  {
    hide Chained, Overlay;
    ghost var text := data[..size];
    NothingChained(c, iv, out[..0]);
    written := 0;
    while written + 16 <= size
      invariant written <= size && written % 16 == 0
      invariant Chained(c, iv, text[..written], out[..written], mixed[..])
      invariant out[written..] == old(out[..])[written..] && data[written..size] == text[written..]
    {
      var block := data[written..written + 16];
      FirstOf(data[..], text, written, size);
      assert text[..written] + block == text[..written + 16];
      ghost var before := out[..];
      EncryptBlock(c, iv, text[..written], block, 16, mixed, out, written);
      OverlayParts(before, written, mixed[..]);
      written := written + 16;
      Shorter(before, out[..], old(out[..]), written);
      if data == out {
        RestOfText(old(data[..]), data[..], written, size);
      }
    }
    assert old(data[..written]) == text[..written] && text[written..] == old(data[written..size]);
  }

  lemma FirstOf(data: seq<byte>, text: seq<byte>, w: nat, size: nat)
    requires w + 16 <= size <= |data| && size == |text| && data[w..size] == text[w..]
    ensures data[w..w + 16] == text[w..w + 16]
  {
    assert data[w..w + 16] == data[w..size][..16];
    assert text[w..w + 16] == text[w..][..16];
  }

  lemma RestOfText(was: seq<byte>, now: seq<byte>, w: nat, size: nat)
    requires w <= size <= |was| == |now| && now[w..] == was[w..]
    ensures now[w..size] == was[..size][w..]
  {
    assert now[w..size] == now[w..][..size - w];
    assert was[..size][w..] == was[w..][..size - w];
  }

  lemma NothingChained(c: Cipher, iv: Block, none: seq<byte>)
    requires none == []
    ensures Chained(c, iv, [], none, iv)
  {
  }

  lemma PlainSplits(text: seq<byte>, w: nat)
    requires w == |text| - |text| % 16
    ensures text[..w] + (text[w..] + Padding(16 - |text| % 16)) == Plain(text, true)
    ensures |Plain(text, true)| == w + 16
    ensures |text| % 16 == 0 ==> text[..w] == Plain(text, false)
  {
  }

  lemma ChainedWhole(c: Cipher, iv: Block, p: seq<byte>, written: seq<byte>, mixed: seq<byte>)
    requires Chained(c, iv, p, written, mixed)
    ensures |p| % 16 == 0 && written == Chain(c, iv, p)
  {
  }

  method NewBlock(b: Block) returns (a: array<byte>)
    ensures fresh(a) && a.Length == 16 && a[..] == b
  {
    a := new byte[16](i requires 0 <= i < 16 => b[i]);
  }

  /** Whole blocks, and with padding one more. */
  method EncryptAll(c: Cipher, iv: Block, data: array<byte>, size: nat, pad: bool, out: array<byte>) returns (written: nat)
    requires size <= data.Length && |Plain(data[..size], pad)| <= out.Length && (pad || size % 16 == 0)
    modifies out
    ensures var p := Plain(old(data[..size]), pad);
            && |p| % 16 == 0 && written == |p| <= out.Length
            && out[..written] == Chain(c, iv, p)
            && out[written..] == old(out[..])[written..]
  {
    var padsize := size % 16;
    hide Chain, Padding, Chained, Plain, Overlay;
    ghost var w, text := size - padsize, data[..size];
    PlainSplits(text, w);
    assert text[..w] == data[..w] && text[w..] == data[w..size];
    var mixed := NewBlock(iv);
    written := EncryptWhole(c, iv, data, size, mixed, out);
    if pad {
      var tail := data[written..size] + Padding(16 - padsize);
      assert text[..w] + tail == Plain(text, true);
      ghost var before := out[..];
      EncryptBlock(c, iv, text[..w], tail, padsize, mixed, out, written);
      OverlayParts(before, written, mixed[..]);
      written := written + 16;
      Shorter(before, out[..], old(out[..]), written);
    }
    ChainedWhole(c, iv, Plain(text, pad), out[..written], mixed[..]);
  }

  method CBCEncrypt(c: Cipher, iv: Block, data: array?<byte>, size: nat, pad: bool, out: array?<byte>) returns (written: nat)
    requires data != null ==> size <= data.Length
    requires data != null && out != null ==> |Plain(data[..size], pad)| <= out.Length
    modifies if out == null then {} else {out}
    ensures data == null || size == 0 || out == null || (!pad && size % 16 != 0) ==>
              written == 0 && (out != null ==> out[..] == old(out[..]))
    ensures data != null && size > 0 && out != null && (pad || size % 16 == 0) ==>
              var p := Plain(old(data[..size]), pad);
              && |p| % 16 == 0 && written == |p| <= out.Length
              && out[..written] == Chain(c, iv, p)
              && out[written..] == old(out[..])[written..]
  {
    written := 0;
    var padsize := size % 16;
    if data == null || size == 0 || out == null {
      return;
    }
    if !pad && padsize != 0 {
      return;
    }
    written := EncryptAll(c, iv, data, size, pad, out);
  }

  // ---------------------------------------------------------------- decryption

  lemma {:induction false} UnchainStep(c: Cipher, iv: Block, d: seq<byte>, k: nat)
    requires k % 16 == 0 && k + 16 <= |d|
    ensures Unchain(c, iv, d[..k + 16]) == Unchain(c, iv, d[..k]) + Xor(c.decrypt(d[k..k + 16]), Prev(iv, d, k))
  {
    var e := d[..k + 16];
    assert e[..k] == d[..k] && e[k..] == d[k..k + 16];
    assert Prev(iv, e, k) == Prev(iv, d, k);
  }

  /**
   All blocks of the data.  The previous ciphertext block is read from the data again, so in the
   output buffer itself it is the plaintext that was written over it.
   */
  method DecryptWhole(c: Cipher, iv: Block, data: array<byte>, size: nat, out: array<byte>)
    requires size % 16 == 0 && size <= data.Length && size <= out.Length
    modifies out
    ensures out[..size] == Decrypted(c, iv, old(data[..size]), data == out)
    ensures out[size..] == old(out[..])[size..]
  {
    hide DecryptedTo, Decrypted, Xor, Overlay;
    ghost var d := data[..size];
    var written := 0;
    DecryptedStart(c, iv, d, data[..], out[..], data == out);
    while written != size
      invariant written <= size && written % 16 == 0
      invariant DecryptedTo(c, iv, d, data[..], out[..], written, data == out)
      invariant out[written..] == old(out[..])[written..]
    {
      var block := data[written..written + 16];
      var prev := if written == 0 then iv else data[written - 16..written];
      ghost var before, was := out[..], data[..];
      CopyBlock(Xor(c.decrypt(block), prev), out, written);
      OverlayParts(before, written, Xor(c.decrypt(block), prev));
      DecryptedCopied(c, iv, d, was, data[..], before, out[..], written, data == out);
      written := written + 16;
      Shorter(before, out[..], old(out[..]), written);
    }
    DecryptedDone(c, iv, d, data[..], out[..], data == out);
  }

  /** The plaintext, or what becomes of it when it is written over the ciphertext. */
  function Decrypted(c: Cipher, iv: Block, d: seq<byte>, onto: bool): (r: seq<byte>)
    requires |d| % 16 == 0
    ensures |r| == |d|
  {
    if onto then UnchainOnto(c, iv, d) else Unchain(c, iv, d)
  }

  /** Each block is mixed with the plaintext block before it. */
  function UnchainOnto(c: Cipher, iv: Block, d: seq<byte>): (r: seq<byte>)
    requires |d| % 16 == 0
    ensures |r| == |d|
    decreases |d|
  {
    if d == [] then [] else
      var k := |d| - 16;
      var before := UnchainOnto(c, iv, d[..k]);
      before + Xor(c.decrypt(d[k..]), Prev(iv, before, k))
  }

  lemma DecryptedNothing(c: Cipher, iv: Block, d: seq<byte>, onto: bool)
    ensures d[..0] == [] && Decrypted(c, iv, d[..0], onto) == []
  {
  }

  lemma DecryptedStep(c: Cipher, iv: Block, d: seq<byte>, k: nat, onto: bool)
    requires k % 16 == 0 && k + 16 <= |d|
    ensures var before := Decrypted(c, iv, d[..k], onto);
            var prev := if k == 0 then iv else if onto then before[k - 16..] else d[k - 16..k];
            Decrypted(c, iv, d[..k + 16], onto) == before + Xor(c.decrypt(d[k..k + 16]), prev)
  {
    hide Xor;
    if onto {
      var e := d[..k + 16];
      assert e[..k] == d[..k] && e[k..] == d[k..k + 16];
      var before := UnchainOnto(c, iv, d[..k]);
      assert k > 0 ==> before[k - 16..k] == before[k - 16..];
    } else {
      UnchainStep(c, iv, d, k);
    }
  }

  /** The step, with the blocks read from the data as it is by then. */
  lemma DecryptedNext(c: Cipher, iv: Block, d: seq<byte>, now: seq<byte>, k: nat, onto: bool)
    requires k % 16 == 0 && k + 16 <= |d| <= |now| && now[k..|d|] == d[k..]
    requires if onto then now[..k] == Decrypted(c, iv, d[..k], onto) else now[..|d|] == d
    ensures Decrypted(c, iv, d[..k + 16], onto) ==
            Decrypted(c, iv, d[..k], onto) + Xor(c.decrypt(now[k..k + 16]), if k == 0 then iv else now[k - 16..k])
  {
    hide Decrypted, Xor;
    FirstOf(now, d, k, |d|);
    DecryptedStep(c, iv, d, k, onto);
    if k > 0 {
      if onto {
        assert now[k - 16..k] == now[..k][k - 16..];
      } else {
        assert now[k - 16..k] == now[..|d|][k - 16..k];
      }
    }
  }

  /** The first k bytes are decrypted; the rest of the data is still to be read. */
  ghost predicate DecryptedTo(c: Cipher, iv: Block, d: seq<byte>, data: seq<byte>, out: seq<byte>, k: nat, onto: bool) {
    && |d| % 16 == 0 && k % 16 == 0 && k <= |d| <= |data| && |d| <= |out|
    && out[..k] == Decrypted(c, iv, d[..k], onto) && data[k..|d|] == d[k..]
    && if onto then data == out else data[..|d|] == d
  }

  lemma DecryptedStart(c: Cipher, iv: Block, d: seq<byte>, data: seq<byte>, out: seq<byte>, onto: bool)
    requires |d| % 16 == 0 && |d| <= |data| && |d| <= |out| && d == data[..|d|] && (onto ==> data == out)
    ensures DecryptedTo(c, iv, d, data, out, 0, onto)
  {
    DecryptedNothing(c, iv, d, onto);
  }

  lemma DecryptedDone(c: Cipher, iv: Block, d: seq<byte>, data: seq<byte>, out: seq<byte>, onto: bool)
    requires DecryptedTo(c, iv, d, data, out, |d|, onto)
    ensures out[..|d|] == Decrypted(c, iv, d, onto)
  {
    assert d[..|d|] == d;
  }

  lemma Shorter(before: seq<byte>, now: seq<byte>, start: seq<byte>, k: nat)
    requires 16 <= k <= |before| == |now| == |start| && now[k..] == before[k..] && before[k - 16..] == start[k - 16..]
    ensures now[k..] == start[k..]
  {
    assert before[k..] == before[k - 16..][16..] && start[k..] == start[k - 16..][16..];
  }

  lemma DecryptedCopied(c: Cipher, iv: Block, d: seq<byte>, was: seq<byte>, data: seq<byte>, before: seq<byte>, out: seq<byte>, k: nat, onto: bool)
    requires DecryptedTo(c, iv, d, was, before, k, onto) && k + 16 <= |d| && |out| == |before| && |data| == |was|
    requires out[..k + 16] == before[..k] + Xor(c.decrypt(was[k..k + 16]), if k == 0 then iv else was[k - 16..k])
    requires out[k + 16..] == before[k + 16..] && if onto then data == out else data == was
    ensures DecryptedTo(c, iv, d, data, out, k + 16, onto)
  {
    hide Decrypted, Xor;
    DecryptedNext(c, iv, d, was, k, onto);
    if onto {
      assert data[k + 16..|d|] == before[k + 16..][..|d| - k - 16] == was[k..|d|][16..];
    } else {
      assert data[k + 16..|d|] == was[k..|d|][16..];
    }
    assert d[k + 16..] == d[k..][16..];
  }

  /** Every block but the last decrypts to itself. */
  ghost predicate FixedBlocks(c: Cipher, iv: Block, d: seq<byte>)
    requires |d| % 16 == 0
  {
    d != [] ==> Unchain(c, iv, d)[..|d| - 16] == d[..|d| - 16]
  }

  lemma XorInjective(x: Block, a: Block, b: Block)
    requires Xor(x, a) == Xor(x, b)
    ensures a == b
  {
    XorCancels(x, a);
    XorCancels(x, b);
  }

  lemma LastBlock(iv: Block, d: seq<byte>, o: seq<byte>, t: seq<byte>, k: nat)
    requires 16 <= k <= |d| && k % 16 == 0 && |o| == |t| == k
    ensures Prev(iv, o, k) == o[k - 16..] && Prev(iv, d, k) == d[..k][k - 16..]
    ensures t == d[..k] <==> t[..k - 16] == d[..k][..k - 16] && t[k - 16..] == d[..k][k - 16..]
  {
    assert t == t[..k - 16] + t[k - 16..];
    assert d[..k] == d[..k][..k - 16] + d[..k][k - 16..];
  }

  /** Decrypting a buffer onto itself gives the plaintext exactly when every block but the last decrypts to itself. */
  lemma {:induction false} OntoExact(c: Cipher, iv: Block, d: seq<byte>)
    requires |d| % 16 == 0
    ensures UnchainOnto(c, iv, d) == Unchain(c, iv, d) <==> FixedBlocks(c, iv, d)
    decreases |d|
  {
    hide Xor;
    if d != [] {
      var k := |d| - 16;
      var u, v := UnchainOnto(c, iv, d), Unchain(c, iv, d);
      var p, o, t := d[..k], UnchainOnto(c, iv, d[..k]), Unchain(c, iv, d[..k]);
      var last := c.decrypt(d[k..]);
      OntoExact(c, iv, p);
      assert u == o + Xor(last, Prev(iv, o, k)) && v == t + Xor(last, Prev(iv, d, k));
      assert u[..k] == o && v[..k] == t;
      assert u[k..] == Xor(last, Prev(iv, o, k)) && v[k..] == Xor(last, Prev(iv, d, k));
      assert u == v <==> o == t && u[k..] == v[k..];
      if k > 0 {
        LastBlock(iv, d, o, t, k);
        if u == v {
          XorInjective(last, Prev(iv, o, k), Prev(iv, d, k));
        }
      }
    }
  }

  lemma UnchainNothing(c: Cipher, iv: Block, d: seq<byte>)
    ensures d[..0] == [] && Unchain(c, iv, d[..0]) == []
  {
  }

  function Value(b: byte): nat { b as int }

  /** With a cipher that changes nothing and an initialisation vector of ones, no two blocks decrypt onto themselves. */
  lemma OntoFails(d: seq<byte>)
    requires |d| == 32
    ensures var c, iv := Cipher(b => b, b => b), seq(16, _ => 1 as byte);
            Inverse(c) && UnchainOnto(c, iv, d) != Unchain(c, iv, d)
  {
    var c, iv := Cipher(b => b, b => b), seq(16, _ => 1 as byte);
    OntoExact(c, iv, d);
    UnchainStep(c, iv, d, 0);
    UnchainNothing(c, iv, d);
    assert d[..32] == d;
    UnchainStep(c, iv, d, 16);
    var t := Unchain(c, iv, d);
    assert t[0] == XorByte(d[0], 1);
    OneBit(d[0]);
    assert t[..16][0] != d[..16][0];
  }

  lemma OneBit(b: byte)
    ensures XorByte(b, 1) != b
  {
  }

  lemma PadByte(k: nat, b: byte)
    requires k <= 16
    ensures b == k as bv8 <==> Value(b) == k
  {
  }

  /** The padding check, without early exit: the number of padding bytes, or a failure. */
  method CheckPadding(t: seq<byte>) returns (padsize: nat, fail: bool)
    requires |t| >= 16
    ensures fail <==> !(exists k: nat :: WellPadded(t, k))
    ensures !fail ==> WellPadded(t, padsize)
  {
    hide Value, WellPadded;
    var pos := |t| - 1;
    padsize := Value(t[pos]);
    fail := padsize == 0 || padsize > 16;
    if fail {
      padsize := 0;
    }
    ghost var bad := fail;
    for i := 16 downto 0
      invariant pos == |t| - 17 + i
      invariant fail <==> bad || exists q :: pos < q < |t| && q >= |t| - padsize && Value(t[q]) != padsize
    {
      fail := fail || (i + 1 > 16 - padsize && Value(t[pos]) != padsize);
      pos := pos - 1;
    }
    if !fail {
      AllPadBytes(t, padsize);
    } else {
      forall k: nat ensures !WellPadded(t, k) {
        if WellPadded(t, k) {
          NoOtherPadding(t, k);
        }
      }
    }
  }

  lemma AllPadBytes(t: seq<byte>, k: nat)
    requires 1 <= k <= 16 <= |t| && forall q :: |t| - k <= q < |t| ==> Value(t[q]) == k
    ensures WellPadded(t, k)
  {
    hide Value;
    forall q | |t| - k <= q < |t| ensures t[q] == k as bv8 {
      PadByte(k, t[q]);
    }
  }

  /** Well-formed padding has the number of its bytes in each of them. */
  lemma NoOtherPadding(t: seq<byte>, k: nat)
    requires |t| >= 16 && WellPadded(t, k)
    ensures 1 <= k <= 16 && Value(t[|t| - 1]) == k
    ensures forall q :: |t| - k <= q < |t| ==> Value(t[q]) == k
  {
    hide Value;
    forall q | |t| - k <= q < |t| ensures Value(t[q]) == k {
      assert t[q] == t[|t| - k..][q - (|t| - k)];
      PadByte(k, t[q]);
    }
  }

  lemma StrippedPad(t: seq<byte>, k: nat)
    requires WellPadded(t, k)
    ensures k <= |t| && Stripped(t, true, |t| - k)
  {
  }

  method CBCDecrypt(c: Cipher, iv: Block, data: array?<byte>, size: nat, pad: bool, out: array?<byte>) returns (written: nat)
    requires data != null ==> size <= data.Length
    requires data != null && out != null ==> size <= out.Length
    modifies if out == null then {} else {out}
    ensures data == null || size == 0 || out == null || size % 16 != 0 ==>
              written == 0 && (out != null ==> out[..] == old(out[..]))
    ensures data != null && size > 0 && out != null && size % 16 == 0 ==>
              var t := Decrypted(c, iv, old(data[..size]), data == out);
              && out[..size] == t
              && out[size..] == old(out[..])[size..]
              && Stripped(t, pad, written)
  {
    if data == null || size == 0 || out == null {
      return 0;
    }
    if size % 16 != 0 {
      return 0;
    }
    hide Decrypted, WellPadded;
    DecryptWhole(c, iv, data, size, out);
    written := size;
    if pad {
      var padsize, fail := CheckPadding(out[..size]);
      if !fail {
        StrippedPad(out[..size], padsize);
      }
      written := if fail then 0 else written - padsize;
    }
  }

  // ---------------------------------------------------------------- main results

  lemma PlainWellPadded(p: seq<byte>)
    ensures WellPadded(Plain(p, true), PadSize(|p|))
  {
  }

  /** On values: what decryption reports for a padded message is the message's own length. */
  lemma StripsPadding(p: seq<byte>, pad: bool, n: nat)
    requires Stripped(Plain(p, pad), pad, n)
    ensures n == |p| && Plain(p, pad)[..n] == p
  {
    if pad {
      PlainWellPadded(p);
      NoOtherPadding(Plain(p, pad), PadSize(|p|));
      NoOtherPadding(Plain(p, pad), |Plain(p, pad)| - n);
    }
  }

  /** Encrypt a byte string into a buffer of its own. */
  method EncryptBytes(c: Cipher, iv: Block, text: seq<byte>, pad: bool) returns (d: seq<byte>)
    requires text != [] && (pad || |text| % 16 == 0)
    ensures |Plain(text, pad)| % 16 == 0 && d == Chain(c, iv, Plain(text, pad))
  {
    var data := new byte[|text|](i requires 0 <= i < |text| => text[i]);
    assert data[..|text|] == text;
    var out := new byte[|text| + 16];
    var written := CBCEncrypt(c, iv, data, |text|, pad, out);
    d := out[..written];
  }

  /** Decrypt whole blocks into a buffer of their own and keep the bytes that were announced. */
  method DecryptBytes(c: Cipher, iv: Block, d: seq<byte>, pad: bool) returns (text: seq<byte>)
    requires d != [] && |d| % 16 == 0
    ensures var t := Unchain(c, iv, d);
            |text| <= |t| && text == t[..|text|] && Stripped(t, pad, |text|)
  {
    var data := new byte[|d|](i requires 0 <= i < |d| => d[i]);
    assert data[..|d|] == d;
    var out := new byte[|d|];
    var written := CBCDecrypt(c, iv, data, |d|, pad, out);
    ghost var t := Unchain(c, iv, d);
    assert Stripped(t, pad, written);
    text := out[..written];
    assert out[..|d|] == t;
  }

  /** Decrypting what was encrypted gives back the bytes, padded or in whole blocks. */
  method RoundTrip(c: Cipher, iv: Block, text: seq<byte>, pad: bool) returns (back: seq<byte>)
    requires Inverse(c) && text != [] && (pad || |text| % 16 == 0)
    ensures back == text
  {
    var d := EncryptBytes(c, iv, text, pad);
    back := DecryptBytes(c, iv, d, pad);
    UnchainChain(c, iv, Plain(text, pad));
    StripsPadding(text, pad, |back|);
  }
}
