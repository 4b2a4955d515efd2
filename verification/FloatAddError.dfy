/** How close the adder comes to the exact sum. */
module FloatAddError {
  import opened Powers
  import opened FloatFormat
  import opened FloatAdd

  function ExactSum(f: Format, a: nat, b: nat): int {
    Value(f, a) + Value(f, b)
  }

  function TopExponent(f: Format, a: nat, b: nat): nat {
    Larger(Exponent(f, a), Exponent(f, b))
  }

  function ExponentGap(f: Format, a: nat, b: nat): nat {
    Abs(Exponent(f, a) - Exponent(f, b))
  }

  lemma AddendValue(f: Format, a: nat)
    ensures Value(f, a) * GuardUnit(f) == Addend(f, a) * Pow2(Exponent(f, a))
  {
    SignedShift(Sgn(Negative(f, a)), Mantissa(f, a), Pow2(Exponent(f, a)), GuardUnit(f));
  }

  lemma SignedShift(s: int, m: int, e: int, g: int)
    ensures s * (m * e) * g == s * (m * g) * e
  {
    MulAssoc(s, m * e, g);
    MulAssoc(s, m * g, e);
    assert m * e * g == m * g * e;
  }

  /** Aligning loses nothing but the floor of the shifted operand. */
  lemma AlignedFloor(x: int, e1: nat, y: int, e2: nat)
    requires e1 >= e2
    ensures var q, exact := x + y / Pow2(e1 - e2), x * Pow2(e1) + y * Pow2(e2);
            q * Pow2(e1) <= exact < (q + 1) * Pow2(e1)
  {
    var d := Pow2(e1 - e2);
    FloorBounds(y, d);
    Pow2Add(e1 - e2, e2);
    var t := y / d;
    MulMonotone(t * d, y, Pow2(e2));
    MulMonotone(y + 1, (t + 1) * d, Pow2(e2));
    MulAssoc(t, d, Pow2(e2));
    MulAssoc(t + 1, d, Pow2(e2));
    MulDistribute(y, 1, Pow2(e2));
    MulDistribute(x, t, Pow2(e1));
    MulDistribute(x, t + 1, Pow2(e1));
  }

  /** The aligned sum with the operand of the larger exponent first. */
  lemma AlignedParts(f: Format, a: nat, b: nat)
    requires Exponent(f, a) >= Exponent(f, b)
    ensures AlignedSum(f, a, b) == Addend(f, a) + Addend(f, b) / Pow2(Exponent(f, a) - Exponent(f, b))
  {
    assert Pow2(0) == 1;
  }

  lemma ExactSumInUnits(f: Format, a: nat, b: nat)
    ensures ExactSum(f, a, b) * GuardUnit(f)
            == Addend(f, a) * Pow2(Exponent(f, a)) + Addend(f, b) * Pow2(Exponent(f, b))
  {
    AddendValue(f, a);
    AddendValue(f, b);
    MulDistribute(Value(f, a), Value(f, b), GuardUnit(f));
  }

  /** The aligned sum is the floor of the exact sum, in units of 2^(TopExponent - Guard). */
  lemma AlignedSumFloor(f: Format, a: nat, b: nat)
    ensures var q, unit, exact := AlignedSum(f, a, b), Pow2(TopExponent(f, a, b)), ExactSum(f, a, b) * GuardUnit(f);
            q * unit <= exact < (q + 1) * unit
  {
    SumOrder(f, a, b);
    ExactSumInUnits(f, a, b);
    var a', b' := if Exponent(f, a) >= Exponent(f, b) then a else b, if Exponent(f, a) >= Exponent(f, b) then b else a;
    AlignedParts(f, a', b');
    AlignedFloor(Addend(f, a'), Exponent(f, a'), Addend(f, b'), Exponent(f, b'));
  }

  /** A shift that the guard bits can absorb is exact, and leaves spare zero bits. */
  lemma ShiftWithinGuard(s: int, m: nat, guard: nat, d: nat)
    requires d <= guard
    ensures var x := s * (m * Pow2(guard));
            x / Pow2(d) == s * m * Pow2(guard - d) && (x / Pow2(d)) * Pow2(d) == x
            && (d < guard ==> (x / Pow2(d)) % 2 == 0)
  {
    var k := s * m * Pow2(guard - d);
    Pow2Add(guard - d, d);
    MulAssoc(s, m, Pow2(guard));
    MulAssoc(s * m, Pow2(guard - d), Pow2(d));
    FloorUnique(k * Pow2(d), Pow2(d), k);
    if d < guard {
      EvenFactor(s * m, Pow2(guard - d - 1));
    }
  }

  lemma EvenFactor(x: int, y: int)
    ensures (x * (2 * y)) % 2 == 0
  {
    assert x * (2 * y) == 2 * (x * y);
  }

  lemma ExactWhenDivisible(x: int, e1: nat, y: int, e2: nat)
    requires e1 >= e2 && (y / Pow2(e1 - e2)) * Pow2(e1 - e2) == y
    ensures (x + y / Pow2(e1 - e2)) * Pow2(e1) == x * Pow2(e1) + y * Pow2(e2)
  {
    var t := y / Pow2(e1 - e2);
    Pow2Add(e1 - e2, e2);
    MulAssoc(t, Pow2(e1 - e2), Pow2(e2));
    MulDistribute(x, t, Pow2(e1));
  }

  lemma AddendEven(f: Format, a: nat)
    ensures Addend(f, a) % 2 == 0
  {
    MulAssoc(Sgn(Negative(f, a)), Mantissa(f, a), GuardUnit(f));
    EvenFactor(Sgn(Negative(f, a)) * Mantissa(f, a), Pow2(Guard(f) - 1));
  }

  /** With exponents at most Guard apart the aligned sum is exact; closer still, it is even. */
  lemma AlignedSumExact(f: Format, a: nat, b: nat)
    requires ExponentGap(f, a, b) <= Guard(f)
    ensures AlignedSum(f, a, b) * Pow2(TopExponent(f, a, b)) == ExactSum(f, a, b) * GuardUnit(f)
    ensures ExponentGap(f, a, b) < Guard(f) ==> AlignedSum(f, a, b) % 2 == 0
  {
    SumOrder(f, a, b);
    if Exponent(f, a) >= Exponent(f, b) {
      OrderedSumExact(f, a, b);
      OrderedSumEven(f, a, b);
    } else {
      OrderedSumExact(f, b, a);
      OrderedSumEven(f, b, a);
    }
  }

  lemma EvenSum(x: int, y: int)
    requires x % 2 == 0 && y % 2 == 0
    ensures (x + y) % 2 == 0
  {
  }

  lemma AddendShift(f: Format, b: nat, d: nat)
    requires d < Guard(f)
    ensures (Addend(f, b) / Pow2(d)) % 2 == 0
  {
    ShiftWithinGuard(Sgn(Negative(f, b)), Mantissa(f, b), Guard(f), d);
  }

  lemma OrderedSumExact(f: Format, a: nat, b: nat)
    requires Exponent(f, b) <= Exponent(f, a) <= Exponent(f, b) + Guard(f)
    ensures AlignedSum(f, a, b) * Pow2(Exponent(f, a)) == ExactSum(f, a, b) * GuardUnit(f)
  {
    AlignedParts(f, a, b);
    ExactSumInUnits(f, a, b);
    ShiftWithinGuard(Sgn(Negative(f, b)), Mantissa(f, b), Guard(f), Exponent(f, a) - Exponent(f, b));
    ExactWhenDivisible(Addend(f, a), Exponent(f, a), Addend(f, b), Exponent(f, b));
  }

  lemma OrderedSumEven(f: Format, a: nat, b: nat)
    requires Exponent(f, b) <= Exponent(f, a)
    ensures Exponent(f, a) < Exponent(f, b) + Guard(f) ==> AlignedSum(f, a, b) % 2 == 0
  {
    var d := Exponent(f, a) - Exponent(f, b);
    AlignedParts(f, a, b);
    AddendEven(f, a);
    if d < Guard(f) {
      AddendShift(f, b, d);
      EvenSum(Addend(f, a), Addend(f, b) / Pow2(d));
    }
  }

  /** Without the carry step, normalising only doubles. */
  lemma {:induction false} NormaliseDoubles(f: Format, x: nat, exp: int)
    requires 0 < x < 2 * Top(f)
    ensures var s := Normalise(f, x, exp); s.exp <= exp && s.m == x * Pow2(exp - s.exp)
    decreases 2 * Top(f) - x
  {
    if x < Top(f) {
      NormaliseDoubles(f, 2 * x, exp - 1);
      var s := Normalise(f, x, exp);
      MulAssoc(x, 2, Pow2(exp - 1 - s.exp));
    } else {
      assert x * Pow2(0) == x;
    }
  }

  lemma FarShift(x: int, d: nat, top: nat)
    requires Abs(x) < 2 * top && d >= 128 && top >= 64
    ensures 2 * Abs(x / d) <= top
  {
    var q := x / d;
    FloorBounds(x, d);
    if q > 0 {
      MulMonotone(128, d, q);
    } else if q < -1 {
      MulMonotone(128, d, -(q + 1));
      assert (q + 1) * d == -(-(q + 1) * d);
    }
  }

  lemma TopIsWide(f: Format)
    ensures Top(f) >= 64 && Hidden(f) >= 64 && Hidden(f) % 2 == 0
  {
    HalfGuard(f);
    Pow2Monotone(6, f.prec - 1);
    assert Pow2(6) == 64;
    MulMonotone(1, Hidden(f), GuardUnit(f));
  }

  /** Beyond the guard bits there is at most one bit of cancellation. */
  lemma LittleCancellation(f: Format, a: nat, b: nat)
    requires ExponentGap(f, a, b) > Guard(f)
    ensures 2 * Abs(AlignedSum(f, a, b)) >= Top(f)
  {
    AddendBounds(f, a);
    AddendBounds(f, b);
    TopIsWide(f);
    Pow2Monotone(7, ExponentGap(f, a, b));
    assert Pow2(7) == 128;
    if Exponent(f, a) > Exponent(f, b) {
      FarShift(Addend(f, b), Pow2(ExponentGap(f, a, b)), Top(f));
    } else {
      FarShift(Addend(f, a), Pow2(ExponentGap(f, a, b)), Top(f));
    }
  }

  /** The aligned sum vanishes exactly when the exact sum does, and has its sign. */
  lemma AlignedSumSign(f: Format, a: nat, b: nat)
    ensures AlignedSum(f, a, b) == 0 <==> ExactSum(f, a, b) == 0
    ensures AlignedSum(f, a, b) < 0 <==> ExactSum(f, a, b) < 0
  {
    AlignedSumFloor(f, a, b);
    var q, unit, s, g := AlignedSum(f, a, b), Pow2(TopExponent(f, a, b)), ExactSum(f, a, b), GuardUnit(f);
    SignOfFloor(q, unit, s, g);
    if q == 0 {
      TopIsWide(f);
      if ExponentGap(f, a, b) > Guard(f) {
        LittleCancellation(f, a, b);
      } else {
        AlignedSumExact(f, a, b);
        CancelFactor(s, 0, g);
      }
    }
  }

  lemma SignOfFloor(q: int, unit: nat, s: int, g: nat)
    requires unit > 0 && g > 0 && q * unit <= s * g < (q + 1) * unit
    ensures q < 0 <==> s < 0
    ensures s == 0 ==> q == 0
  {
    if q < 0 {
      MulMonotone(q + 1, 0, unit);
      CancelFactor(s, 0, g);
    } else {
      MulMonotone(0, q, unit);
      CancelFactor(0, s, g);
      if s == 0 && q > 0 { MulMonotone(1, q, unit); }
    }
  }

  /** Normalising keeps the value up to the one bit the carry step drops. */
  lemma NormalisedValue(f: Format, a: nat, b: nat, e: nat)
    requires AlignedSum(f, a, b) != 0 && NormalisedSum(f, a, b).exp == e
    ensures var m, x, t := NormalisedSum(f, a, b).m, Abs(AlignedSum(f, a, b)), TopExponent(f, a, b);
            if x < 2 * Top(f)
            then m * Pow2(e) == x * Pow2(t) && (ExponentGap(f, a, b) > Guard(f) ==> Pow2(t) <= 2 * Pow2(e))
            else m == x / 2 && e == t + 1
  {
    AlignedSumBounds(f, a, b);
    var s, x, t := NormalisedSum(f, a, b), Abs(AlignedSum(f, a, b)), TopExponent(f, a, b);
    if x < 2 * Top(f) {
      NormaliseDoubles(f, x, t);
      Pow2Add(t - e, e);
      MulAssoc(x, Pow2(t - e), Pow2(e));
      if ExponentGap(f, a, b) > Guard(f) {
        LittleCancellation(f, a, b);
        DoublingCount(x, t - e, Top(f));
        Pow2Monotone(t, e + 1);
      }
    }
  }

  lemma DoublingCount(x: nat, k: nat, top: nat)
    requires top > 0 && 2 * x >= top && x * Pow2(k) < 2 * top
    ensures k <= 1
  {
    if k >= 2 {
      Pow2Monotone(2, k);
      MulMonotone(4, Pow2(k), x);
    }
  }

  lemma MagnitudeOfFloor(q: int, unit: nat, exact: int)
    requires q * unit <= exact < (q + 1) * unit && q != 0
    requires q < 0 ==> exact < 0
    requires q > 0 ==> exact >= 0
    ensures Abs(Abs(q) * unit - Abs(exact)) < unit
  {
    assert (q + 1) * unit == q * unit + unit;
    assert (-q) * unit == -(q * unit);
  }

  /**
   The normalised sum is within two guard units of the exact sum, and exact
   when the exponents differ by less than Guard.
  */
  lemma NormalisedSumClose(f: Format, a: nat, b: nat, e: nat)
    requires AlignedSum(f, a, b) != 0 && NormalisedSum(f, a, b).exp == e
    ensures var gap := Abs(NormalisedSum(f, a, b).m * Pow2(e) - Abs(ExactSum(f, a, b)) * GuardUnit(f));
            gap < 2 * Pow2(e) && (ExponentGap(f, a, b) < Guard(f) ==> gap == 0)
  {
    AlignedMagnitudeClose(f, a, b);
    NormalisedValue(f, a, b, e);
    var t, x := TopExponent(f, a, b), Abs(AlignedSum(f, a, b));
    if x >= 2 * Top(f) {
      HalvedValue(x, NormalisedSum(f, a, b).m, Pow2(t));
    }
  }

  /** The aligned magnitude is within one unit of the exact one, and exact up to a gap of Guard. */
  lemma AlignedMagnitudeClose(f: Format, a: nat, b: nat)
    requires AlignedSum(f, a, b) != 0
    ensures var unit, x := Pow2(TopExponent(f, a, b)), Abs(AlignedSum(f, a, b));
            var gap := Abs(x * unit - Abs(ExactSum(f, a, b)) * GuardUnit(f));
            gap < unit && (ExponentGap(f, a, b) <= Guard(f) ==> gap == 0)
            && (ExponentGap(f, a, b) < Guard(f) ==> x % 2 == 0)
  {
    AlignedSumFloor(f, a, b);
    AlignedSumSign(f, a, b);
    MagnitudeClose(AlignedSum(f, a, b), Pow2(TopExponent(f, a, b)), ExactSum(f, a, b), GuardUnit(f));
    if ExponentGap(f, a, b) <= Guard(f) {
      AlignedSumExact(f, a, b);
      AbsEven(AlignedSum(f, a, b));
    }
  }

  lemma AbsEven(q: int)
    ensures Abs(q) % 2 == 0 <==> q % 2 == 0
  {
  }

  lemma MagnitudeClose(q: int, unit: nat, s: int, g: nat)
    requires q * unit <= s * g < (q + 1) * unit && q != 0 && g > 0 && (q < 0 <==> s < 0)
    ensures Abs(Abs(q) * unit - Abs(s) * g) < unit
    ensures q * unit == s * g ==> Abs(q) * unit == Abs(s) * g
  {
    AbsScale(s, g);
    AbsScale(q, unit);
    NonnegativeProduct(s, g);
    MagnitudeOfFloor(q, unit, s * g);
  }

  lemma NonnegativeProduct(s: int, g: nat)
    requires g > 0
    ensures s * g < 0 <==> s < 0
  {
    if s < 0 {
      MulMonotone(s, -1, g);
    } else {
      MulMonotone(0, s, g);
    }
  }

  lemma HalvedValue(x: nat, m: nat, unit: nat)
    requires m == x / 2
    ensures x * unit - unit <= m * (2 * unit) <= x * unit
    ensures x % 2 == 0 ==> m * (2 * unit) == x * unit
  {
    assert m * (2 * unit) == (2 * m) * unit;
    assert (x - 1) * unit == x * unit - unit;
  }
}
