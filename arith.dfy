/** Arithmetic facts the solver does not find by itself: monotonicity of multiplication. */
module Arith {

  lemma MulLeq(a: nat, b: nat, c: nat)
    requires a <= b
    ensures a * c <= b * c
  {
  }
}
