/** What several modules share: optional values, the smaller of two numbers, powers of two. */
module Basics {

  datatype Option<+T> = None | Some(value: T)

  function Min(a: nat, b: nat): nat { if a < b then a else b }

  function Pow2(n: nat): (p: nat)
    ensures p > 0
  {
    if n == 0 then 1 else 2 * Pow2(n - 1)
  }

  /** The number of values of a 32-bit word. */
  const WORD := 0x1_0000_0000
}
