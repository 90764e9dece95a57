/** Remainders and quotients, as far as the other modules need them. */
module Arithmetic {
  /** A remainder below the divisor is the remainder. */
  lemma Remainder(x: int, d: int, q: int, r: int)
    requires 0 <= r < d && x == d * q + r
    ensures x % d == r
  {
    var q', r' := x / d, x % d;
    var k := q' - q;
    assert d * k == r - r';
    assert k >= 1 ==> d * k >= d;
    assert k <= -1 ==> d * k <= -d;
  }

  lemma SameRemainder(x: int, q: int, d: int)
    requires d > 0
    ensures (x + d * q) % d == x % d
  {
    var p := x / d;
    assert x == d * p + x % d;
    assert d * (p + q) == d * p + d * q;
    Remainder(x + d * q, d, p + q, x % d);
  }

  lemma DigitSplit(x: nat, p: nat)
    requires p > 0
    ensures x % (256 * p) == x % 256 + 256 * ((x / 256) % p)
  {
    var q, r := (x / 256) / p, (x / 256) % p;
    assert x == 256 * (q * p + r) + x % 256;
    assert x == (256 * p) * q + (256 * r + x % 256);
    assert 256 * r + 256 <= 256 * p;
    Remainder(x, 256 * p, q, 256 * r + x % 256);
  }
}
