/** Exact results of the adder, and `__subsf3` / `__subdf3`. */
module FloatSubtract {
  import opened Powers
  import opened FloatFormat
  import opened FloatAdd
  import opened FloatAddError
  import opened FloatAddTheorems
  import Rounding

  /** Two different normal numbers are at least half a unit of either apart. */
  lemma Separated(f: Format, a: nat, c: nat)
    requires Value(f, a) != Value(f, c)
    ensures 2 * Abs(Value(f, a) - Value(f, c)) >= Pow2(Exponent(f, a))
  {
    var m, e, m', e' := Mantissa(f, a), Exponent(f, a), Mantissa(f, c), Exponent(f, c);
    MulMonotone(Hidden(f), m, Pow2(e));
    MulMonotone(1, Hidden(f), Pow2(e));
    if Negative(f, a) == Negative(f, c) {
      if e' < e {
        Rounding.BelowBinade(f.prec, m', e', e);
        MulAssoc(2, Hidden(f), Pow2(e));
      } else {
        Pow2Add(e' - e, e);
        MulAssoc(m', Pow2(e' - e), Pow2(e));
        MultiplesApart(m, m' * Pow2(e' - e), Pow2(e));
      }
    }
  }

  /** A sum that is itself a normal number never takes the early exit. */
  lemma ExactSumIsNear(f: Format, a: nat, b: nat, c: nat)
    requires Value(f, c) == ExactSum(f, a, b)
    ensures Near(f, a, b)
  {
    MulMonotone(1, Mantissa(f, a), Pow2(Exponent(f, a)));
    MulMonotone(1, Mantissa(f, b), Pow2(Exponent(f, b)));
    if FarAbove(f, a, b) {
      FarSum(f, a, b);
      Separated(f, a, c);
    } else if FarAbove(f, b, a) {
      FarSum(f, b, a);
      Separated(f, b, c);
    }
  }

  /** Cancellation down to a negative exponent leaves less than the smallest normal number. */
  lemma NegativeExponentIsTiny(f: Format, a: nat, b: nat)
    requires AlignedSum(f, a, b) != 0 && Exponent(f, a) > 0 && Exponent(f, b) > 0
    requires NormalisedSum(f, a, b).exp < 0
    ensures Abs(ExactSum(f, a, b)) < Hidden(f)
  {
    AlignedSumBounds(f, a, b);
    var s, t, x := NormalisedSum(f, a, b), TopExponent(f, a, b), Abs(AlignedSum(f, a, b));
    NormaliseDoubles(f, x, t);
    if ExponentGap(f, a, b) > Guard(f) {
      LittleCancellation(f, a, b);
      DoublingCount(x, t - s.exp, Top(f));
    } else {
      AlignedSumExact(f, a, b);
      AbsScale(AlignedSum(f, a, b), Pow2(t));
      AbsScale(ExactSum(f, a, b), GuardUnit(f));
      TinySum(x, t, t - s.exp, Hidden(f), GuardUnit(f), Abs(ExactSum(f, a, b)));
    }
  }

  lemma TinySum(x: nat, t: nat, n: nat, h: nat, g: nat, s: nat)
    requires t < n && g > 0 && x * Pow2(n) < 2 * (h * g) && x * Pow2(t) == s * g
    ensures s < h
  {
    Pow2StrictlyMonotone(t, n);
    MulMonotone(2 * Pow2(t), Pow2(n), x);
    MulDouble(Pow2(t), x);
    CancelFactor(s, h, g);
  }

  /** The binade of the normalised sum is not above the binade of an exactly representable sum. */
  lemma ExactSumUnit(f: Format, a: nat, b: nat, e: nat, m: nat, c: nat)
    requires AlignedSum(f, a, b) != 0 && NormalisedSum(f, a, b).exp == e
    requires m < Pow2(f.prec) && Abs(ExactSum(f, a, b)) == m * Pow2(c)
    ensures c >= e
  {
    NormalisedSumClose(f, a, b, e);
    HalfGuard(f);
    if c < e {
      Rounding.BelowBinade(f.prec, m, c, e);
      GapContradiction(Hidden(f), GuardUnit(f), NormalisedSum(f, a, b).m, Pow2(e), m * Pow2(c));
    }
  }

  lemma GapContradiction(h: nat, g: nat, m: nat, unit: nat, s: nat)
    requires g >= 64 && unit > 0 && h * g <= m && Abs(m * unit - s * g) < 2 * unit
    ensures 2 * s + unit > 2 * h * unit
  {
    MulMonotone(h * g, m, unit);
    MulAssoc(h, g, unit);
    MulAssoc(h, unit, g);
    MulCommute(g, unit);
    MulMonotone(64, g, unit);
    MulDistribute(2 * s, unit, g);
    MulDouble(s, g);
    MulDouble(h * unit, g);
    MulAssoc(2, h, unit);
    CancelFactor(2 * (h * unit), 2 * s + unit, g);
  }

  lemma SameMultiple(k: nat, j: nat, g: nat, unit: nat)
    requires g >= 64 && unit > 0 && 2 * g * Abs(k * unit - j * unit) < (g + 4) * unit
    ensures k == j
  {
    MultiplesApart(k, j, unit);
    if k != j {
      MulMonotone(unit, Abs(k * unit - j * unit), 2 * g);
      MulMonotone(g + 4, 2 * g, unit);
      MulCommute(2 * g, unit);
      MulCommute(2 * g, Abs(k * unit - j * unit));
    }
  }

  lemma SameScaled(k: nat, m: nat, g: nat, x: nat, e: nat)
    requires e <= x && g >= 64 && 2 * g * Abs(k * Pow2(e) - m * Pow2(x)) < (g + 4) * Pow2(e)
    ensures k == m * Pow2(x - e)
  {
    Pow2Add(x - e, e);
    MulAssoc(m, Pow2(x - e), Pow2(e));
    SameMultiple(k, m * Pow2(x - e), g, Pow2(e));
  }

  /** When the exact sum of two normal numbers is a normal number, addition returns it. */
  lemma AdditionExact(f: Format, a: nat, b: nat, c: nat)
    requires Normal(f, a) && Normal(f, b) && Normal(f, c) && Value(f, c) == ExactSum(f, a, b)
    ensures SumWord(f, a, b) == c
  {
    NormalIsNonzero(f, a);
    NormalIsNonzero(f, b);
    ExactSumIsNear(f, a, b, c);
    AlignedSumSign(f, a, b);
    MulMonotone(Hidden(f), Mantissa(f, c), Pow2(Exponent(f, c)));
    MulMonotone(1, Pow2(Exponent(f, c)), Hidden(f));
    if NormalisedSum(f, a, b).exp < 0 {
      NegativeExponentIsTiny(f, a, b);
    }
    ExactMantissa(f, a, b, c);
    FieldsDetermine(f, c);
  }

  /** The sum of two numbers, either of them possibly 0, is returned exactly whenever it is a number of the format. */
  lemma AdditionExactWithZero(f: Format, a: nat, b: nat, c: nat)
    requires Numeric(f, a) && Numeric(f, b) && Numeric(f, c) && Number(f, c) == Number(f, a) + Number(f, b)
    ensures SumWord(f, a, b) == c
  {
    if a == 0 {
      NumberInjective(f, b, c);
    } else if b == 0 {
      NumberInjective(f, a, c);
    } else if c == 0 {
      AlignedSumSign(f, a, b);
      if FarAbove(f, a, b) {
        FarSum(f, a, b);
      } else if FarAbove(f, b, a) {
        FarSum(f, b, a);
      }
    } else {
      AdditionExact(f, a, b, c);
    }
  }

  lemma ExactMantissa(f: Format, a: nat, b: nat, c: nat)
    requires AlignedSum(f, a, b) != 0 && NormalisedSum(f, a, b).exp >= 0 && Value(f, c) == ExactSum(f, a, b)
    ensures SumMantissa(f, a, b) == Mantissa(f, c) && SumExponent(f, a, b) == Exponent(f, c)
  {
    var e, m, x := NormalisedSum(f, a, b).exp, Mantissa(f, c), Exponent(f, c);
    var k := RoundEven(f, NormalisedSum(f, a, b).m);
    MulMonotone(0, m, Pow2(x));
    assert Abs(ExactSum(f, a, b)) == m * Pow2(x);
    ExactSumUnit(f, a, b, e, m, x);
    RoundedSumClose(f, a, b, e);
    HalfGuard(f);
    SameScaled(k, m, GuardUnit(f), x, e);
    Rounding.ShiftWithinBinade(Hidden(f), m, k, x - e);
  }

  /** The word with the sign bit flipped. */
  function Flip(f: Format, b: nat): nat
    requires Word(f, b)
  {
    Compose(f, !Negative(f, b), Exponent(f, b), Mantissa(f, b) - Hidden(f))
  }

  /** `__subsf3` and `__subdf3`: flip the sign and add; a zero word counts as zero on either side. */
  method Subtract(f: Format, a: nat, b: nat) returns (r: nat)
    requires Word(f, a) && Word(f, b)
    ensures r == DifferenceWord(f, a, b)
  {
    if b == 0 {
      return a;
    }
    var flipped := Flip(f, b);
    if a == 0 {
      return flipped;
    }
    FlipIsWord(f, b);
    r := Add(f, a, flipped);
  }

  function DifferenceWord(f: Format, a: nat, b: nat): nat
    requires Word(f, b)
  {
    if b == 0 then a else if a == 0 then Flip(f, b) else SumWord(f, a, Flip(f, b))
  }

  lemma FlipIsWord(f: Format, b: nat)
    requires Word(f, b)
    ensures Word(f, Flip(f, b)) && Value(f, Flip(f, b)) == -Value(f, b) && Exponent(f, Flip(f, b)) == Exponent(f, b)
  {
    PackInField(f, !Negative(f, b), Exponent(f, b), Mantissa(f, b) - Hidden(f));
    PackFields(f, !Negative(f, b), Exponent(f, b), Mantissa(f, b) - Hidden(f));
  }

  /** Every multiple of a normal unit that is short enough and not too small is a normal number. */
  lemma {:induction false} Representable(f: Format, negative: bool, m: nat, e: nat) returns (c: nat)
    requires 0 < m < 2 * Hidden(f) && InRange(f, e) && m * Pow2(e) >= 2 * Hidden(f)
    ensures Normal(f, c) && Value(f, c) == Sgn(negative) * (m * Pow2(e))
    decreases e
  {
    if m >= Hidden(f) {
      c := Pack(f, negative, e, m - Hidden(f));
      FormatBounds(f);
      PackedValue(f, negative, e, m);
    } else {
      CancelFactor(2, Pow2(e), m);
      assert Pow2(1) == 2;
      MulAssoc(m, 2, Pow2(e - 1));
      c := Representable(f, negative, 2 * m, e - 1);
    }
  }

  /** x and y have the same sign and are within a factor of two. */
  predicate WithinFactorTwo(f: Format, x: nat, y: nat) {
    Negative(f, x) == Negative(f, y) && Magnitude(f, x) <= 2 * Magnitude(f, y) && Magnitude(f, y) <= 2 * Magnitude(f, x)
  }

  /** The difference of two such numbers is a short multiple of the smaller unit. */
  lemma DifferenceIsShort(m: nat, e: nat, n: nat, d: nat, h: nat) returns (k: int)
    requires h <= m < 2 * h && h <= n < 2 * h && e >= d
    requires m * Pow2(e) <= 2 * (n * Pow2(d)) && n * Pow2(d) <= 2 * (m * Pow2(e))
    ensures m * Pow2(e) - n * Pow2(d) == k * Pow2(d) && -2 * h < k < 2 * h
  {
    var t := m * Pow2(e - d);
    Pow2Add(e - d, d);
    MulAssoc(m, Pow2(e - d), Pow2(d));
    MulMonotone(1, Pow2(e - d), m);
    k := t - n;
    MulDistribute(t, n, Pow2(d));
    MulDouble(n, Pow2(d));
    CancelFactor(t, 2 * n, Pow2(d));
  }

  lemma ShortDifference(f: Format, x: nat, y: nat) returns (k: int, e: nat)
    requires Normal(f, x) && Normal(f, y) && WithinFactorTwo(f, x, y)
    ensures InRange(f, e) && -2 * Hidden(f) < k < 2 * Hidden(f) && Value(f, x) - Value(f, y) == k * Pow2(e)
  {
    if Exponent(f, x) >= Exponent(f, y) {
      e := Exponent(f, y);
      k := DifferenceIsShort(Mantissa(f, x), Exponent(f, x), Mantissa(f, y), e, Hidden(f));
    } else {
      e := Exponent(f, x);
      k := DifferenceIsShort(Mantissa(f, y), Exponent(f, y), Mantissa(f, x), e, Hidden(f));
      assert (-k) * Pow2(e) == -(k * Pow2(e));
      k := -k;
    }
    if Negative(f, x) {
      assert (-k) * Pow2(e) == -(k * Pow2(e));
      k := -k;
    }
  }

  /**
   Subtraction of normal numbers of one sign within a factor of two is exact
   as long as the difference is zero or stays normal; x - x is the word 0.
  */
  lemma SubtractionExact(f: Format, x: nat, y: nat)
    requires Normal(f, x) && Normal(f, y) && WithinFactorTwo(f, x, y)
    ensures x == y ==> DifferenceWord(f, x, y) == 0
    ensures Abs(Value(f, x) - Value(f, y)) >= 2 * Hidden(f) ==>
              Normal(f, DifferenceWord(f, x, y)) && Value(f, DifferenceWord(f, x, y)) == Value(f, x) - Value(f, y)
  {
    NormalIsNonzero(f, x);
    NormalIsNonzero(f, y);
    FlipIsWord(f, y);
    var y' := Flip(f, y);
    NormalIsNonzero(f, y');
    AlignedSumSign(f, x, y');
    if Abs(Value(f, x) - Value(f, y)) >= 2 * Hidden(f) {
      var k, e := ShortDifference(f, x, y);
      AbsScale(k, Pow2(e));
      var c := Representable(f, k < 0, Abs(k), e);
      assert (-k) * Pow2(e) == -(k * Pow2(e));
      AdditionExact(f, x, y', c);
    }
  }

  lemma FlipIsNormal(f: Format, y: nat)
    requires Normal(f, y)
    ensures Normal(f, Flip(f, y)) && Number(f, Flip(f, y)) == -Number(f, y) && Flip(f, y) != 0
  {
    FlipIsWord(f, y);
    NormalIsNonzero(f, y);
    NormalIsNonzero(f, Flip(f, y));
  }

  /**
   The difference of two numbers, either of them possibly 0, is returned exactly
   whenever it is a number of the format: x - 0 is x, 0 - y is -y, x - x is +0.
  */
  lemma SubtractionExactWithZero(f: Format, x: nat, y: nat, c: nat)
    requires Numeric(f, x) && Numeric(f, y) && Numeric(f, c) && Number(f, c) == Number(f, x) - Number(f, y)
    ensures DifferenceWord(f, x, y) == c
  {
    if y == 0 {
      NumberInjective(f, x, c);
    } else {
      FlipIsNormal(f, y);
      if x == 0 {
        NumberInjective(f, Flip(f, y), c);
      } else {
        AdditionExactWithZero(f, x, Flip(f, y), c);
      }
    }
  }
}
