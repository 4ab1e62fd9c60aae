/** Unsigned 32-bit machine words, as `uint32_t` arithmetic behaves in C:
    every sum and difference is reduced modulo 2^32. */
module Word32 {

  const Modulus: int := 0x1_0000_0000

  type u32 = x: int | 0 <= x < 0x1_0000_0000

  /** `a + b` on `uint32_t`: the sum wraps around at most once. */
  function Add(a: u32, b: u32): (r: u32)
    ensures a + b < Modulus ==> r == a + b
    ensures a + b >= Modulus ==> r == a + b - Modulus
  {
    (a + b) % Modulus
  }

  /** `a - b` on `uint32_t`: the difference that, added back to `b`, gives `a`. */
  function Sub(a: u32, b: u32): (r: u32)
    ensures Add(b, r) == a
  {
    if a >= b then a - b else a - b + Modulus
  }

  /** The remainder modulo 2^32 is the one value in range that differs from `x`
      by a multiple of 2^32. */
  lemma ModUnique(x: int, k: int, r: int)
    requires 0 <= r < Modulus
    requires x == k * Modulus + r
    ensures x % Modulus == r
  {
  }
}
