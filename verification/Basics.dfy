/** What several components share. */
module Basics {
  datatype Option<T> = None | Some(value: T)

  /** Transaction hashes, of which only equality matters here. */
  type Hash = nat

  function Max(a: int, b: int): int { if a < b then b else a }

  function Min(a: int, b: int): int { if a < b then a else b }

  function Pow2(k: nat): nat { if k == 0 then 1 else 2 * Pow2(k - 1) }

  function Pow256(k: nat): (r: nat)
    ensures r > 0
  {
    if k == 0 then 1 else 256 * Pow256(k - 1)
  }

  function Bit(b: bool, weight: nat): nat { if b then weight else 0 }

  /** The number of eight binary digits, the first one weighing one. */
  function EightBits(a: bool, b: bool, c: bool, d: bool, e: bool, f: bool, g: bool, h: bool): nat {
    Bit(a, 1) + Bit(b, 2) + Bit(c, 4) + Bit(d, 8) + Bit(e, 16) + Bit(f, 32) + Bit(g, 64) + Bit(h, 128)
  }
}
