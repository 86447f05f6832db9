/** Products of reals under a name, and the facts about their signs that the proofs use one at a time. */
module Reals {

  function Abs(x: real): real {
    if x < 0.0 then -x else x
  }

  /** A product under a name, so that equal factors give equal products at once. */
  function Times(x: real, y: real): real {
    x * y
  }

  lemma ZeroProduct(x: real, y: real)
    requires x * y == 0.0 && y != 0.0
    ensures x == 0.0
  {
    assert x == x * y / y;
  }

  lemma PositiveProduct(x: real, y: real, p: real)
    requires x > 0.0 && y > 0.0 && p == x * y
    ensures p > 0.0
  {
  }

  lemma SquareNonzero(r: real, rr: real)
    requires r != 0.0 && rr == r * r
    ensures rr > 0.0
  {
    if r > 0.0 {
      PositiveProduct(r, r, rr);
    } else {
      PositiveProduct(-r, -r, rr);
    }
  }

  lemma SquareNonnegative(r: real, rr: real)
    requires rr == r * r
    ensures rr >= 0.0
  {
    if r != 0.0 {
      SquareNonzero(r, rr);
    }
  }

  lemma NonzeroProduct(x: real, y: real, p: real)
    requires x != 0.0 && y != 0.0 && p == x * y
    ensures p != 0.0
  {
    if p == 0.0 {
      ZeroProduct(x, y);
    }
  }

  lemma FactorNonzero(x: real, y: real, p: real)
    requires p == x * y && p != 0.0
    ensures x != 0.0
  {
  }

  lemma NonnegativeProduct(x: real, y: real)
    requires x >= 0.0 && y >= 0.0
    ensures x * y >= 0.0
  {
  }

  lemma PositiveQuotient(x: real, r: real, p: real)
    requires r > 0.0 && x * r == p
    ensures p > 0.0 ==> x > 0.0
    ensures p >= 0.0 ==> x >= 0.0
    ensures p <= 0.0 ==> x <= 0.0
  {
    if x > 0.0 {
      PositiveProduct(x, r, p);
    } else if x < 0.0 {
      PositiveProduct(-x, r, -p);
    }
  }
}
