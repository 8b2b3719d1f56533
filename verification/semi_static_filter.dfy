/** The decision rule of semi_static_filter: given the computed value `det`
    of an expression and the computed error bound of that value, report the
    sign of the expression when the bound lets it be known, and
    `SignUncertain` otherwise. Both values are modelled as reals; rounding
    in their computation is not modelled. */
module SemiStaticFilter {
  import opened Reals

  /** The results of `apply`: the signs 1, -1 and 0, and the constant
      sign_uncertain. */
  datatype Sign = Positive | Negative | Zero | SignUncertain {
    /** The integer `apply` returns for a definite sign. */
    function Value(): int
      requires this != SignUncertain
    {
      match this
      case Positive => 1
      case Negative => -1
      case Zero => 0
    }

    /** The sign of the negated value; an uncertain sign stays uncertain. */
    function Negate(): (s: Sign)
      ensures s == SignUncertain <==> this == SignUncertain
      ensures this != SignUncertain ==> s.Value() == -this.Value()
    {
      match this
      case Positive => Negative
      case Negative => Positive
      case Zero => Zero
      case SignUncertain => SignUncertain
    }
  }

  /** The true sign of a real number. */
  function SignOf(v: real): (s: Sign)
    ensures s != SignUncertain
    ensures s.Value() == 1 <==> v > 0.0
    ensures s.Value() == -1 <==> v < 0.0
  {
    if v > 0.0 then Positive else if v < 0.0 then Negative else Zero
  }

  /** semi_static_filter::apply on the computed `det` and `errorBound`.
      Each of the four outcomes fires under exactly the condition stated
      below. The rule is sound: whenever every value within `errorBound` of
      `det` could be the exact one, a definite answer is the sign of each
      of them. It is complete for a strict margin: if |det| exceeds the
      bound, the answer is definite. */
  function Apply(det: real, errorBound: real): (r: Sign)
    ensures r == Positive <==> det > errorBound
    ensures r == Negative <==> det <= errorBound && det < -errorBound
    ensures r == Zero <==> errorBound == 0.0 && det == 0.0
    ensures r == SignUncertain <==> -errorBound <= det <= errorBound && !(errorBound == 0.0 && det == 0.0)
    ensures errorBound >= 0.0 && r != SignUncertain ==> r == SignOf(det)
    ensures forall exact :: Abs(det - exact) <= errorBound && r != SignUncertain ==> r == SignOf(exact)
    ensures Abs(det) > errorBound ==> r != SignUncertain
  {
    if det > errorBound then
      Positive
    else if det < -errorBound then
      Negative
    else if errorBound == 0.0 && det == 0.0 then
      Zero
    else
      SignUncertain
  }

  /** A value exactly at the error bound cannot be decided: the answer is
      uncertain, and rightly so, since the exact value may then be zero.
      The comparison in `apply` is strict although the comment above the
      filter speaks of "larger than or equal to"; the non-strict rule would
      report a sign here that the value zero, which lies within the bound,
      does not have. */
  lemma BoundaryIsUncertain(det: real, errorBound: real)
    requires errorBound > 0.0 && Abs(det) == errorBound
    ensures Apply(det, errorBound) == SignUncertain
    ensures Abs(det - 0.0) <= errorBound && SignOf(det) != SignOf(0.0)
  {
  }

  /** For a non-negative bound, negating det negates a definite answer and
      leaves an uncertain one uncertain. */
  lemma ApplyNegation(det: real, errorBound: real)
    requires errorBound >= 0.0
    ensures Apply(-det, errorBound) == Apply(det, errorBound).Negate()
  {
  }

  /** arg_count: the number of arguments the filter reads, the larger of the
      highest argument indices of the expression and the error expression. */
  function ArgCount(exprMaxArg: nat, errorExprMaxArg: nat): (n: nat)
    ensures n >= exprMaxArg && n >= errorExprMaxArg
    ensures n == exprMaxArg || n == errorExprMaxArg
  {
    if exprMaxArg > errorExprMaxArg then exprMaxArg else errorExprMaxArg
  }
}
