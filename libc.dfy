/**
 * The C library's seeded generator as the index pickers use it: one
 * srand(seed) call, then a run of rand() calls. Its internals are foreign
 * code, so a Rand value stands for them: rand(seed, k) is the k-th number
 * (counting from 0) that rand() returns after srand(seed).
 */
module Libc {
  type Rand = (nat, nat) -> nat

  /** The conversion (unsigned int)x of a 64-bit block ID: x reduced modulo 2^32. */
  function Unsigned32(x: int): (r: nat)
    ensures r < 0x1_0000_0000
    ensures (x - r) % 0x1_0000_0000 == 0
  {
    x % 0x1_0000_0000
  }
}
