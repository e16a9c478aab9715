/** Two's complement 32-bit integers, as C#'s `int`, with the unchecked
    negation that `-x` performs outside a `checked` context. */
module Int32 {

  const MinValue: int := -0x8000_0000
  const MaxValue: int := 0x7FFF_FFFF

  /** C#'s `int` (System.Int32). */
  newtype int32 = x: int | -0x8000_0000 <= x < 0x8000_0000

  /** Unchecked `-x`: the int32 that is congruent to the mathematical
      negation modulo 2^32; `int.MinValue` therefore negates to itself. */
  function Negate(x: int32): (r: int32)
    ensures (r as int + x as int) % 0x1_0000_0000 == 0
  {
    if x as int == MinValue then x else -x
  }

  /** The sign of a comparison result: -1, 0 or 1. */
  function Sign(x: int32): (s: int)
    ensures s == -1 || s == 0 || s == 1
    ensures (s < 0 <==> x < 0) && (s == 0 <==> x == 0) && (s > 0 <==> x > 0)
  {
    if x < 0 then -1 else if x > 0 then 1 else 0
  }

  /** Unchecked negation is determined by its congruence: no other int32
      is congruent to `-x` modulo 2^32. */
  lemma NegateUnique(x: int32, y: int32)
    requires (y as int + x as int) % 0x1_0000_0000 == 0
    ensures y == Negate(x)
  {
  }

  /** Away from `int.MinValue`, unchecked negation is exact negation and
      flips the sign. */
  lemma NegateExact(x: int32)
    requires x as int != MinValue
    ensures Negate(x) as int == -(x as int)
    ensures Sign(Negate(x)) == -Sign(x)
  {
  }

  /** At `int.MinValue` unchecked negation wraps: the result is still
      `int.MinValue`, so the sign is NOT flipped. */
  lemma NegateMinValue(x: int32)
    requires x as int == MinValue
    ensures Negate(x) == x
    ensures Sign(Negate(x)) == Sign(x) == -1
  {
  }
}
