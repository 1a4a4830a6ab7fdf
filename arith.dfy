/** Facts about multiplication that the solver does not find on its own. */
module Arith {

  /** Multiplying by a natural number keeps the order. */
  lemma MulMonotone(factor: nat, x: int, y: int)
    ensures x <= y ==> factor * x <= factor * y
  {
    if x <= y {
      assert factor * y == factor * x + factor * (y - x);
    }
  }
}
