/** Accuracy of addition and subtraction: error bounds, nearest-even rounding and exact cases. */
module FloatAddTheorems {
  import opened Powers
  import opened FloatFormat
  import opened FloatAdd
  import opened FloatAddError

  /** How far a word is from the exact sum. */
  function SumError(f: Format, c: nat, a: nat, b: nat): nat {
    Abs(Value(f, c) - ExactSum(f, a, b))
  }

  /** Rounding error and alignment error add up. */
  lemma ErrorSplit(r: int, g: int, m: int, unit: int, s: int)
    ensures (r * unit - s) * g == (r * g - m) * unit + (m * unit - s * g)
  {
    MulDistribute(r * unit, -s, g);
    MulDistribute(r * g, -m, unit);
    MulAssoc(r, unit, g);
    MulAssoc(r, g, unit);
    MulCommute(unit, g);
  }

  lemma ErrorTriangle(r: nat, g: nat, m: nat, unit: nat, s: nat)
    ensures Abs(r * unit - s) * g <= Abs(r * g - m) * unit + Abs(m * unit - s * g)
    ensures m * unit == s * g ==> Abs(r * unit - s) * g == Abs(r * g - m) * unit
  {
    ErrorSplit(r, g, m, unit, s);
    AbsScale(r * unit - s, g);
    AbsScale(r * g - m, unit);
  }

  lemma RoundGap(d: nat, g: nat, x: nat, unit: nat)
    requires 2 * x <= g && d * g < x * unit + 2 * unit
    ensures 2 * g * d < (g + 4) * unit
  {
    MulMonotone(2 * x, g, unit);
    MulAssoc(2, x, unit);
    MulDistribute(g, 4, unit);
    MulCommute(g, d);
    MulAssoc(2, g, d);
  }

  /** The rounded significand against the magnitude of the exact sum. */
  lemma RoundedSumClose(f: Format, a: nat, b: nat, e: nat)
    requires AlignedSum(f, a, b) != 0 && NormalisedSum(f, a, b).exp == e
    ensures var r, g, s := RoundEven(f, NormalisedSum(f, a, b).m), GuardUnit(f), Abs(ExactSum(f, a, b));
            Hidden(f) <= r <= 2 * Hidden(f) && 2 * g * Abs(r * Pow2(e) - s) < (g + 4) * Pow2(e)
  {
    var m := NormalisedSum(f, a, b).m;
    NormalisedSumClose(f, a, b, e);
    RoundEvenBounds(f, m);
    var r, g, s := RoundEven(f, m), GuardUnit(f), Abs(ExactSum(f, a, b));
    ErrorTriangle(r, g, m, Pow2(e), s);
    RoundGap(Abs(r * Pow2(e) - s), g, Abs(r * g - m), Pow2(e));
  }

  /** The operands go through the adder proper: both words non-zero, exponents close, exact sum not zero. */
  predicate Rounds(f: Format, a: nat, b: nat) {
    a != 0 && b != 0 && Near(f, a, b) && ExactSum(f, a, b) != 0
  }

  /** The exponent the code packs stays in range; sums that skip the adder or vanish have none. */
  predicate SumInRange(f: Format, a: nat, b: nat) {
    Rounds(f, a, b) ==>
      (AlignedSumSign(f, a, b); InRange(f, SumExponent(f, a, b)))
  }

  lemma RoundedSumValue(f: Format, a: nat, b: nat)
    requires Rounds(f, a, b) && SumInRange(f, a, b)
    ensures AlignedSum(f, a, b) != 0
    ensures var r, e := RoundEven(f, NormalisedSum(f, a, b).m), NormalisedSum(f, a, b).exp;
            e >= 0 && Normal(f, SumWord(f, a, b)) && Exponent(f, SumWord(f, a, b)) >= e
            && Value(f, SumWord(f, a, b)) == Sgn(ExactSum(f, a, b) < 0) * (r * Pow2(e))
            && Mantissa(f, SumWord(f, a, b)) == if r == 2 * Hidden(f) then Hidden(f) else r
  {
    AlignedSumSign(f, a, b);
    FormatBounds(f);
    var e := NormalisedSum(f, a, b).exp;
    PackedValue(f, AlignedSum(f, a, b) < 0, SumExponent(f, a, b), SumMantissa(f, a, b));
    if RoundEven(f, NormalisedSum(f, a, b).m) == 2 * Hidden(f) {
      MulAssoc(Hidden(f), 2, Pow2(e));
    }
  }

  lemma SignedDistance(s: int, x: nat, negative: bool)
    requires s < 0 <==> negative
    ensures Abs(Sgn(negative) * x - s) == Abs(x - Abs(s))
    ensures Abs(Sgn(!negative) * x - s) == x + Abs(s)
  {
  }

  /** An operand more than prec + 1 binades below contributes less than a quarter unit. */
  lemma FarOperand(f: Format, a: nat, b: nat)
    requires FarAbove(f, a, b)
    ensures 4 * Magnitude(f, b) < Pow2(Exponent(f, a))
  {
    Pow2Monotone(Exponent(f, b) + f.prec + 2, Exponent(f, a));
    Pow2Add(f.prec, Exponent(f, b));
    assert Pow2(Exponent(f, b) + f.prec + 2) == 4 * Pow2(f.prec + Exponent(f, b));
    MultiplesApart(Mantissa(f, b), Pow2(f.prec), Pow2(Exponent(f, b)));
  }

  lemma FarSum(f: Format, a: nat, b: nat)
    requires FarAbove(f, a, b)
    ensures 4 * SumError(f, a, a, b) < Pow2(Exponent(f, a)) && ExactSum(f, a, b) != 0
  {
    FarOperand(f, a, b);
    MulMonotone(1, Mantissa(f, a), Pow2(Exponent(f, a)));
  }

  /**
   For normal operands and an in-range result, addition is off by less than
   1/2 + 2/2^Guard units in the last place of the result; opposite operands
   give the word 0.
  */
  lemma AdditionError(f: Format, a: nat, b: nat)
    requires Normal(f, a) && Normal(f, b) && SumInRange(f, a, b)
    ensures var r, g := SumWord(f, a, b), GuardUnit(f);
            if ExactSum(f, a, b) == 0 then r == 0
            else Normal(f, r) && 2 * g * SumError(f, r, a, b) < (g + 4) * Pow2(Exponent(f, r))
  {
    NormalIsNonzero(f, a);
    NormalIsNonzero(f, b);
    AlignedSumSign(f, a, b);
    var r, g := SumWord(f, a, b), GuardUnit(f);
    if FarAbove(f, a, b) {
      FarSum(f, a, b);
      QuarterUnit(g, SumError(f, a, a, b), Pow2(Exponent(f, a)));
    } else if FarAbove(f, b, a) {
      FarSum(f, b, a);
      QuarterUnit(g, SumError(f, b, b, a), Pow2(Exponent(f, b)));
    } else if ExactSum(f, a, b) != 0 {
      NearSumError(f, a, b);
    }
  }

  lemma NearSumError(f: Format, a: nat, b: nat)
    requires Rounds(f, a, b) && SumInRange(f, a, b)
    ensures var r, g := SumWord(f, a, b), GuardUnit(f);
            Normal(f, r) && 2 * g * SumError(f, r, a, b) < (g + 4) * Pow2(Exponent(f, r))
  {
    RoundedSumValue(f, a, b);
    var e := NormalisedSum(f, a, b).exp;
    var k := RoundEven(f, NormalisedSum(f, a, b).m);
    RoundedSumClose(f, a, b, e);
    SignedDistance(ExactSum(f, a, b), k * Pow2(e), ExactSum(f, a, b) < 0);
    WiderUnit(GuardUnit(f), SumError(f, SumWord(f, a, b), a, b), e, Exponent(f, SumWord(f, a, b)));
  }

  lemma WiderUnit(g: nat, d: nat, e: nat, x: nat)
    requires e <= x && 2 * g * d < (g + 4) * Pow2(e)
    ensures 2 * g * d < (g + 4) * Pow2(x)
  {
    Pow2Monotone(e, x);
    MulMonotone(Pow2(e), Pow2(x), g + 4);
    MulCommute(Pow2(e), g + 4);
    MulCommute(Pow2(x), g + 4);
  }

  lemma QuarterUnit(g: nat, d: nat, unit: nat)
    requires g > 0 && 4 * d < unit
    ensures 2 * g * d < (g + 4) * unit
  {
    MulMonotone(4 * d + 1, unit, g);
    MulAssoc(2, g, d);
    assert (4 * d + 1) * g == 4 * (g * d) + g;
    assert (g + 4) * unit == unit * g + 4 * unit;
  }

  /** The bounds for the two formats: 17/32 and 129/256 of a unit in the last place. */
  lemma AdditionErrorInUlps(f: Format, a: nat, b: nat)
    requires f == SINGLE || f == DOUBLE
    requires Normal(f, a) && Normal(f, b) && SumInRange(f, a, b) && ExactSum(f, a, b) != 0
    ensures var r := SumWord(f, a, b);
            if f == SINGLE then 32 * SumError(f, r, a, b) < 17 * Pow2(Exponent(f, r))
            else 256 * SumError(f, r, a, b) < 129 * Pow2(Exponent(f, r))
  {
    AdditionError(f, a, b);
    var r := SumWord(f, a, b);
    InUlps(f, SumError(f, r, a, b), Pow2(Exponent(f, r)));
  }

  lemma InUlps(f: Format, d: nat, u: nat)
    requires f == SINGLE || f == DOUBLE
    requires 2 * GuardUnit(f) * d < (GuardUnit(f) + 4) * u
    ensures if f == SINGLE then 32 * d < 17 * u else 256 * d < 129 * u
  {
    assert Pow2(Guard(SINGLE)) == 64 && Pow2(Guard(DOUBLE)) == 512;
  }

  lemma SumErrorParts(f: Format, c: nat, a: nat, b: nat)
    ensures var s := ExactSum(f, a, b);
            SumError(f, c, a, b)
            == if Negative(f, c) == (s < 0) then Abs(Magnitude(f, c) - Abs(s)) else Magnitude(f, c) + Abs(s)
  {
    SignedDistance(ExactSum(f, a, b), Magnitude(f, c), ExactSum(f, a, b) < 0);
  }
}
