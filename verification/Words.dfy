/**
 Machine arithmetic shared by the other modules: 64-bit and signed 32-bit
 numbers, powers of two, page boundaries.
 */
module Words {
  const WORD := 0x1_0000_0000_0000_0000

  const HALF := 0x1_0000_0000

  function U64(x: int): nat { x % WORD }

  /** Conversion to a signed 32-bit integer. */
  function Int32(x: int): int {
    var y := x % HALF;
    if y < 0x8000_0000 then y else y - HALF
  }

  function Pow2(k: nat): (p: nat)
    ensures p > 0
  {
    if k == 0 then 1 else 2 * Pow2(k - 1)
  }

  /** The next page boundary. */
  function AlignUp(x: nat): nat { if x % 4096 != 0 then x + (4096 - x % 4096) else x }
}
