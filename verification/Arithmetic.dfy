/** Exact products, named so that facts about one product carry over to equal ones.

    Money, weights and factors are reals, and their products are what the solver finds hardest. With
    the product behind a name, each nonlinear fact is proved once, here, and used by name elsewhere. */
module Arithmetic {

  function Times(x: real, y: real): real {
    x * y
  }

  lemma TimesPositive(x: real, y: real)
    requires x > 0.0 && y > 0.0
    ensures Times(x, y) > 0.0
  {
  }

  lemma TimesNonNegative(x: real, y: real)
    requires x >= 0.0 && y >= 0.0
    ensures Times(x, y) >= 0.0
  {
  }

  lemma TimesCommutes(x: real, y: real)
    ensures Times(x, y) == Times(y, x)
  {
  }

  lemma TimesAssociates(x: real, y: real, z: real)
    ensures Times(Times(x, y), z) == Times(x, Times(y, z))
  {
  }

  lemma TimesUnits(x: real)
    ensures Times(x, 0.0) == 0.0 && Times(0.0, x) == 0.0 && Times(x, 1.0) == x
  {
  }

  lemma TimesOverSum(m: real, x: real, y: real)
    ensures Times(m, x + y) == Times(m, x) + Times(m, y)
  {
  }

  lemma TimesOverDifference(m: real, x: real, y: real)
    ensures Times(m, x - y) == Times(m, x) - Times(m, y)
  {
  }

  lemma TimesNegated(p: real, n: int)
    ensures Times(p, (-n) as real) == -Times(p, n as real)
  {
  }

  lemma QuotientNonNegative(x: real, y: real)
    requires x >= 0.0 && y > 0.0
    ensures x / y >= 0.0
  {
  }
}
