/** Numbers as bytes with the most significant one first. */
module BigEndian {
  import Arithmetic
  import opened Basics

  type byte = bv8

  function Digit(b: bool, weight: byte): byte { if b then weight else 0 }

  /** A byte from its eight binary digits. */
  function FromDigits(a: bool, b: bool, c: bool, d: bool, e: bool, f: bool, g: bool, h: bool): byte {
    Digit(a, 1) | Digit(b, 2) | Digit(c, 4) | Digit(d, 8) | Digit(e, 16) | Digit(f, 32) | Digit(g, 64) | Digit(h, 128)
  }

  lemma FromDigitsValue(a: bool, b: bool, c: bool, d: bool, e: bool, f: bool, g: bool, h: bool)
    ensures FromDigits(a, b, c, d, e, f, g, h) as int == EightBits(a, b, c, d, e, f, g, h)
  {
  }

  predicate Odd(x: nat) { x % 2 == 1 }

  /** The low byte of a number, from the digits that halving it leaves. */
  function LowByte(x: nat): byte {
    var (x1, x2, x3) := (x / 2, x / 2 / 2, x / 2 / 2 / 2);
    var (x4, x5, x6, x7) := (x3 / 2, x3 / 2 / 2, x3 / 2 / 2 / 2, x3 / 2 / 2 / 2 / 2);
    FromDigits(Odd(x), Odd(x1), Odd(x2), Odd(x3), Odd(x4), Odd(x5), Odd(x6), Odd(x7))
  }

  lemma OddSplit(x: nat)
    ensures x == 2 * (x / 2) + Bit(Odd(x), 1)
  {
  }

  lemma DigitsValue(x: nat, x1: nat, x2: nat, x3: nat, x4: nat, x5: nat, x6: nat, x7: nat)
    requires x1 == x / 2 && x2 == x1 / 2 && x3 == x2 / 2 && x4 == x3 / 2
    requires x5 == x4 / 2 && x6 == x5 / 2 && x7 == x6 / 2
    ensures EightBits(Odd(x), Odd(x1), Odd(x2), Odd(x3), Odd(x4), Odd(x5), Odd(x6), Odd(x7)) == x % 256
  {
    hide Odd;
    OddSplit(x);
    OddSplit(x1);
    OddSplit(x2);
    OddSplit(x3);
    OddSplit(x4);
    OddSplit(x5);
    OddSplit(x6);
    OddSplit(x7);
    var r := EightBits(Odd(x), Odd(x1), Odd(x2), Odd(x3), Odd(x4), Odd(x5), Odd(x6), Odd(x7));
    assert x == 256 * (x7 / 2) + r;
    Remainder(x7 / 2, r);
  }

  lemma Remainder(q: nat, r: nat)
    requires r < 256
    ensures (256 * q + r) % 256 == r
  {
  }

  lemma LowByteValue(x: nat)
    ensures LowByte(x) as int == x % 256
  {
    hide FromDigits, EightBits, Odd;
    var (x1, x2, x3) := (x / 2, x / 2 / 2, x / 2 / 2 / 2);
    var (x4, x5, x6, x7) := (x3 / 2, x3 / 2 / 2, x3 / 2 / 2 / 2, x3 / 2 / 2 / 2 / 2);
    DigitsValue(x, x1, x2, x3, x4, x5, x6, x7);
    FromDigitsValue(Odd(x), Odd(x1), Odd(x2), Odd(x3), Odd(x4), Odd(x5), Odd(x6), Odd(x7));
  }

  /** The n low bytes of a number. */
  function BE(x: nat, n: nat): (r: seq<byte>)
    ensures |r| == n
    decreases n
  {
    if n == 0 then [] else BE(x / 256, n - 1) + [LowByte(x)]
  }

  /** The number that bytes stand for, the first one weighing most. */
  function BEValue(b: seq<byte>): nat {
    if b == [] then 0 else (b[0] as int) * Pow256(|b| - 1) + BEValue(b[1..])
  }

  lemma {:induction false} ValueSnoc(b: seq<byte>, c: byte)
    ensures BEValue(b + [c]) == 256 * BEValue(b) + c as int
  {
    var d := b + [c];
    if b == [] {
      assert d[1..] == [];
    } else {
      assert d[1..] == b[1..] + [c];
      ValueSnoc(b[1..], c);
      Scale(b[0] as int, Pow256(|b| - 1));
    }
  }

  lemma Scale(x: nat, p: nat)
    ensures x * (256 * p) == 256 * (x * p)
  {
  }

  /** Reading the n low bytes of a number back gives it modulo 256^n. */
  lemma {:induction false} BERoundTrip(x: nat, n: nat)
    ensures BEValue(BE(x, n)) == x % Pow256(n)
    decreases n
  {
    if n > 0 {
      hide LowByte, BEValue;
      LowByteValue(x);
      BERoundTrip(x / 256, n - 1);
      ValueSnoc(BE(x / 256, n - 1), LowByte(x));
      Arithmetic.DigitSplit(x, Pow256(n - 1));
    }
  }

  function BE32(x: nat): (r: seq<byte>)
    ensures |r| == 4
  {
    BE(x, 4)
  }

  function BE64(x: nat): (r: seq<byte>)
    ensures |r| == 8
  {
    BE(x, 8)
  }

  lemma Value32(x: nat)
    requires x < 0x1_0000_0000
    ensures BEValue(BE32(x)) == x
  {
    hide BE, BEValue, Pow256;
    var n := 4;
    BERoundTrip(x, n);
    PowFour();
  }

  lemma PowFour()
    ensures Pow256(4) == 0x1_0000_0000
  {
    assert Pow256(2) == 0x1_0000;
  }

  lemma PowEight()
    ensures Pow256(8) == 0x1_0000_0000_0000_0000
  {
    PowFour();
    assert Pow256(6) == 0x1_0000_0000_0000;
  }

  lemma Value64(x: nat)
    requires x < 0x1_0000_0000_0000_0000
    ensures BEValue(BE64(x)) == x
  {
    hide BE, BEValue, Pow256;
    var n := 8;
    BERoundTrip(x, n);
    PowEight();
  }
}
