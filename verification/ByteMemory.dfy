/**
 Memory byte by byte, and the loops over it: `zero_memory` of loader/loader.c and
 the forward `memcpy` that loader and kernel share.
 */
module ByteMemory {
  type byte = x: nat | x < 256

  /** A byte never written reads as zero. */
  type Ram = map<nat, byte>

  function ByteAt(m: Ram, a: nat): byte { if a in m then m[a] else 0 }

  /** `zero_memory`. */
  function Zero(m: Ram, a: nat, n: nat): Ram
    decreases n
  {
    if n == 0 then m else Zero(m[a := 0], a + 1, n - 1)
  }

  /** `memcpy`, forward and byte by byte. */
  function Copy(m: Ram, dst: nat, src: nat, n: nat): Ram
    decreases n
  {
    if n == 0 then m else Copy(m[dst := ByteAt(m, src)], dst + 1, src + 1, n - 1)
  }

  predicate Apart(a: nat, n: nat, b: nat, k: nat) { a + n <= b || b + k <= a }

  lemma {:induction false} ZeroIs(m: Ram, a: nat, n: nat, x: nat)
    ensures ByteAt(Zero(m, a, n), x) == if a <= x < a + n then 0 else ByteAt(m, x)
    decreases n
  {
    if n > 0 { ZeroIs(m[a := 0], a + 1, n - 1, x); }
  }

  /** A copy to a place apart sets it to the source bytes and changes no other byte. */
  lemma {:induction false} CopyIs(m: Ram, dst: nat, src: nat, n: nat, x: nat)
    requires Apart(dst, n, src, n)
    ensures ByteAt(Copy(m, dst, src, n), x) == if dst <= x < dst + n then ByteAt(m, x - dst + src) else ByteAt(m, x)
    decreases n
  {
    if n > 0 { CopyIs(m[dst := ByteAt(m, src)], dst + 1, src + 1, n - 1, x); }
  }
}
