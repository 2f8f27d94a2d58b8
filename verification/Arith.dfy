/** Products and conversions to a 32-bit int, shared by the other modules. */
module Arith {
  const WORD32 := 0x1_0000_0000
  const HALF32 := 0x8000_0000

  lemma MulMono(a: int, b: int, c: int)
    requires a <= b && 0 <= c
    ensures a * c <= b * c
  {
  }

  /** An integer stored in an int: its residue in -2^31 .. 2^31. */
  function AsInt(n: int): (r: int)
    ensures -HALF32 <= r < HALF32 && (0 <= n ==> r <= n)
  {
    if n % WORD32 < HALF32 then n % WORD32 else n % WORD32 - WORD32
  }

  /** An index or a length survives the conversion exactly below 2^31. */
  lemma AsIntIsExactBelow2G(n: nat)
    ensures AsInt(n) == n <==> n < HALF32
  {
  }
}
