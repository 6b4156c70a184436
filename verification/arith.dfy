/** Sign facts about products and quotients of reals that the solver does
    not find on its own. */
module RealArith {
  lemma {:induction false} MulPositive(a: real, b: real)
    requires a > 0.0 && b > 0.0
    ensures a * b > 0.0
  {
  }

  /** Comparing q * y with y tells how q compares with 1, for y > 0. */
  lemma {:induction false} Scaled(q: real, y: real)
    requires y > 0.0
    ensures q > 1.0 <==> q * y > y
    ensures q == 1.0 <==> q * y == y
    ensures q >= 0.0 <==> q * y >= 0.0
    ensures q > 0.0 <==> q * y > 0.0
  {
    if q > 1.0 {
      MulPositive(q - 1.0, y);
    } else if q < 1.0 {
      MulPositive(1.0 - q, y);
    }
    if q < 0.0 {
      MulPositive(-q, y);
    } else if q > 0.0 {
      MulPositive(q, y);
    }
  }

  lemma {:induction false} QuotientVersusOne(x: real, y: real)
    requires x >= 0.0 && y > 0.0
    ensures x / y >= 0.0
    ensures x / y > 1.0 <==> x > y
    ensures x / y == 1.0 <==> x == y
  {
    Scaled(x / y, y);
  }

  lemma {:induction false} QuotientSign(a: real, y: real)
    requires y > 0.0
    ensures a / y > 0.0 <==> a > 0.0
    ensures a / y < 0.0 <==> a < 0.0
  {
    Scaled(a / y, y);
  }
}
