/** Unsigned 32-bit words. */
module Unsigned {

  const MODULUS := 0x1_0000_0000

  function U32(x: int): (r: nat)
    ensures r < MODULUS
    ensures 0 <= x < MODULUS ==> r == x
    ensures -MODULUS <= x < 0 ==> r == x + MODULUS
  {
    x % MODULUS
  }
}
