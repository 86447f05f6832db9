/** Products of integers under a name, and their monotonicity. */
module Integers {

  /** A product under a name, so that equal factors give equal products at once. */
  function Times(x: int, y: int): int {
    x * y
  }

  lemma MulMonotone(x: int, y: int, z: int)
    requires x >= 0 && y <= z
    ensures x * y <= x * z
  {
    assert x * (z - y) >= 0;
  }
}
