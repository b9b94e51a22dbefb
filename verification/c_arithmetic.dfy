/** The C operators / and % on ints: the quotient is truncated towards zero. The divisors here are positive. */
module CArithmetic {

  function Quot(a: int, b: int): int
    requires b > 0
  {
    if a >= 0 then a / b else -((-a) / b)
  }

  function Rem(a: int, b: int): int
    requires b > 0
  {
    a - b * Quot(a, b)
  }

  lemma Truncated(a: int, b: int)
    requires b > 0
    ensures a == b * Quot(a, b) + Rem(a, b) && -b < Rem(a, b) < b
  {}
}
