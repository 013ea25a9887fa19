/**
 * The 64-bit signed integer `share_type` of the ledger. Dafny integers are
 * unbounded, so the two's-complement wrap-around of the C++ arithmetic is
 * written out explicitly by `Wrap`.
 */
module Int64 {
  const Min: int := -0x8000_0000_0000_0000
  const Max: int := 0x7FFF_FFFF_FFFF_FFFF
  const Modulus: int := 0x1_0000_0000_0000_0000

  type I64 = x: int | Min <= x <= Max

  /** The value a 64-bit register holds after computing `x`: `x` reduced modulo 2^64 into [Min, Max]. */
  function Wrap(x: int): (r: I64)
    ensures Min <= x <= Max ==> r == x
    ensures Max < x <= Max + Modulus ==> r == x - Modulus
    ensures Min - Modulus <= x < Min ==> r == x + Modulus
    decreases if x > Max then x - Max else if x < Min then Min - x else 0
  {
    if x > Max then Wrap(x - Modulus)
    else if x < Min then Wrap(x + Modulus)
    else x
  }

  /** Whatever `x` is, the wrapped value differs from it by a multiple of 2^64. */
  lemma {:induction false} WrapCongruent(x: int)
    ensures (x - Wrap(x)) % Modulus == 0
    decreases if x > Max then x - Max else if x < Min then Min - x else 0
  {
    if x > Max {
      WrapCongruent(x - Modulus);
    } else if x < Min {
      WrapCongruent(x + Modulus);
    }
  }
}
