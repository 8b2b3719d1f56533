/** Real-number helpers shared by the projection and the filter models. */
module Reals {

  /** fabs */
  function Abs(x: real): (r: real)
    ensures r >= 0.0
    ensures r == x || r == -x
  {
    if x < 0.0 then -x else x
  }

  /** Negating a factor of a quotient's numerator negates the quotient. */
  lemma NegatedQuotient(a: real, b: real, q: real)
    requires q != 0.0
    ensures (a * -b) / q == -((a * b) / q)
    ensures (-b * a) / q == -((b * a) / q)
  {
    assert a * -b == -(a * b);
    assert -b * a == -(b * a);
  }

  /** A product with a negated factor is the negated product. */
  lemma NegatedProduct(r: real, a: real, b: real)
    requires b == -a
    ensures r * b == -(r * a)
  {
  }
}
