/** Small facts about products of reals, each stated on its own so that the
    solver meets one nonlinear step at a time. */
module Arith {

  lemma Distribute(a: real, b: real, x: real)
    ensures (a - b) * x == a * x - b * x
  {
  }

  lemma PositiveProduct(a: real, x: real)
    requires a > 0.0 && x > 0.0
    ensures a * x > 0.0
  {
  }

  lemma NonNegativeProduct(a: real, x: real)
    requires a >= 0.0 && x > 0.0
    ensures a * x >= 0.0
  {
  }

  lemma PositiveFactor(a: real, x: real)
    requires x > 0.0 && a * x > 0.0
    ensures a > 0.0
  {
  }
}
