/**
 The integer-division tutorial program: `intDivision` returns a quotient, a
 remainder and an error, and `main` reports one of three outcomes for it.
 Console output is not modelled; what `main` would print is the `Outcome`.
 */
module Tutorial2 {
  import opened GoArith

  datatype Option<+T> = None | Some(value: T)

  /** The non-nil `error` returned for a zero divisor. Its message text is not modelled. */
  datatype DivError = DivideByZero

  /** The three results of `intDivision`; `err == None` is Go's nil error. */
  datatype Division = Division(result: int, remainder: int, err: Option<DivError>)

  /** What `main` reports: the error, the quotient of an exact division, or the
      quotient with its nonzero remainder. */
  datatype Outcome =
    | Failed(err: DivError)
    | Exact(quotient: int)
    | WithRemainder(quotient: int, remainder: int)

  /** `intDivision` over unbounded integers. A zero divisor yields (0, 0, error);
      any other divisor yields Go's truncated quotient and remainder and nil. */
  function IntDivision(numerator: int, denominator: int): (d: Division)
    ensures d.err.Some? <==> denominator == 0
    ensures denominator == 0 ==> d.result == 0 && d.remainder == 0
    ensures denominator != 0 ==>
              IsTruncatedDivision(numerator, denominator, d.result, d.remainder)
  {
    if denominator == 0 then
      Division(0, 0, Some(DivideByZero))
    else
      Division(Quot(numerator, denominator), Rem(numerator, denominator), None)
  }

  /** `intDivision` on Go's 64-bit `int`: the same, except that the most negative
      value divided by -1 wraps around. */
  function IntDivision64(numerator: int, denominator: int): (d: Division)
    requires IsInt64(numerator) && IsInt64(denominator)
    ensures IsInt64(d.result) && IsInt64(d.remainder)
    ensures !(numerator == MinInt64 && denominator == -1) ==>
              d == IntDivision(numerator, denominator)
    ensures numerator == MinInt64 && denominator == -1 ==>
              d == Division(MinInt64, 0, None)
  {
    if denominator == 0 then
      Division(0, 0, Some(DivideByZero))
    else
      Int64Division(numerator, denominator);
      Division(Quot64(numerator, denominator), Rem64(numerator, denominator), None)
  }

  /** The `switch` in `main`: its cases are tried in order, so an error wins over
      the remainder test, and exactly one outcome is chosen. */
  function Classify(d: Division): (o: Outcome)
    ensures o.Failed? <==> d.err.Some?
    ensures o.Exact? <==> d.err.None? && d.remainder == 0
    ensures o.WithRemainder? <==> d.err.None? && d.remainder != 0
    ensures !o.Failed? ==> o.quotient == d.result
    ensures o.WithRemainder? ==> o.remainder == d.remainder
  {
    match d.err
    case Some(e) => Failed(e)
    case None => if d.remainder == 0 then Exact(d.result) else WithRemainder(d.result, d.remainder)
  }

  /** The outcome `main` reports for any operands: an error exactly for a zero
      divisor, an exact quotient exactly when the divisor divides the dividend,
      and otherwise Go's truncated quotient with a nonzero remainder. */
  lemma ReportedOutcome(numerator: int, denominator: int)
    ensures Classify(IntDivision(numerator, denominator)).Failed? <==> denominator == 0
    ensures Classify(IntDivision(numerator, denominator)).Exact? <==>
              denominator != 0 && numerator % denominator == 0
    ensures Classify(IntDivision(numerator, denominator)).Exact? ==>
              Classify(IntDivision(numerator, denominator)).quotient * denominator == numerator
    ensures Classify(IntDivision(numerator, denominator)).WithRemainder? ==>
              var o := Classify(IntDivision(numerator, denominator));
              o.remainder != 0 &&
              IsTruncatedDivision(numerator, denominator, o.quotient, o.remainder)
  {
    if denominator != 0 {
      EuclideanRelation(numerator, denominator);
    }
  }

  /** The program's own run: 10 divided by 2 is exact with quotient 5. */
  function MainOutcome(): (o: Outcome)
    ensures o == Exact(5)
  {
    Classify(IntDivision(10, 2))
  }

  /** Worked cases of Go's rule: the four sign combinations of 5 and 3, and
      -7 divided by 2, which truncates to -3 with remainder -1 where Euclidean
      division would give -4 and 1. */
  lemma TruncationExamples()
    ensures IntDivision(5, 3) == Division(1, 2, None)
    ensures IntDivision(-5, 3) == Division(-1, -2, None)
    ensures IntDivision(5, -3) == Division(-1, 2, None)
    ensures IntDivision(-5, -3) == Division(1, -2, None)
    ensures IntDivision(-7, 2) == Division(-3, -1, None)
    ensures -7 / 2 == -4 && -7 % 2 == 1
  {
  }
}
