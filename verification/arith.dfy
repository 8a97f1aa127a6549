/**
 * Facts about natural-number division shared by both codecs: quotient and
 * remainder are determined by any decomposition whose remainder is below
 * the divisor.
 */
module Arith {

  /** The quotient is the only multiplier that leaves a remainder below the divisor. */
  lemma DivUnique(v: nat, d: nat, a: nat, s: nat)
    requires d > 0 && v == d * a + s && s < d
    ensures v / d == a && v % d == s
  {
    var a' := v / d;
    assert v == d * a' + v % d;
    if a' < a {
      MulMono(d, a' + 1, a);
    } else if a' > a {
      MulMono(d, a + 1, a');
    }
  }

  /** Multiplying by a natural number keeps the order. */
  lemma {:induction false} MulMono(d: nat, x: nat, y: nat)
    requires x <= y
    ensures d * x <= d * y
    decreases y - x
  {
    if x < y {
      MulMono(d, x, y - 1);
      assert d * y == d * (y - 1) + d;
    }
  }
}
