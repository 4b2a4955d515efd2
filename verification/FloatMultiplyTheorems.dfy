/** Exactly when multiplication returns the nearest number. */
module FloatMultiplyTheorems {
  import opened Powers
  import opened FloatFormat
  import opened FloatMultiply
  import Rounding

  /** The part of the significands' product below the bits the routine keeps. */
  function SplitSquare(f: Format): nat {
    Pow2(f.low) * Pow2(f.low)
  }

  function SignificandProduct(f: Format, a: nat, b: nat): nat {
    HighProduct(Mantissa(f, a), Mantissa(f, b))
  }

  /**
   The kept bits y read just below half a unit, and what was dropped would have
   carried them over it: the product is beyond the middle, the rounding is not.
  */
  predicate TieMissed(f: Format, a: nat, b: nat) {
    var y, half := TopBits(f, a, b), HalfUnit(f, TopBits(f, a, b));
    half > 0 && y % (2 * half) == half - 1 && SignificandProduct(f, a, b) > 4 * (y + 1) * SplitSquare(f)
  }

  /** A result is nearest when no normal word is nearer to the exact product. */
  ghost predicate NearestProduct(f: Format, r: nat, a: nat, b: nat) {
    forall c :: Normal(f, c) ==> ProductError(f, r, a, b) <= ProductError(f, c, a, b)
  }

  predicate Largest(f: Format, r: nat) {
    Exponent(f, r) == Pow2(f.expBits) - 2 && Mantissa(f, r) == 2 * Hidden(f) - 1
  }

  // ----- on significands

  /** With y = q * 2half + t, everything is a multiple of s away from the rounded product. */
  lemma HalfUnitSplit(q: int, t: nat, half: nat, s: nat, p: nat)
    requires half >= 1 && s > 0 && t < 2 * half && 4 * (2 * half * q + t) * s <= p < (4 * (2 * half * q + t) + 6) * s
    ensures t < half ==>
              (2 * Abs(8 * half * q * s - p) <= 8 * half * s
               <==> !(t == half - 1 && p > 4 * (2 * half * q + t + 1) * s))
    ensures t >= half ==> 2 * Abs(8 * half * (q + 1) * s - p) <= 8 * half * s
    ensures t < half && p > 4 * (2 * half * q + t + 1) * s && t == half - 1 ==>
              8 * half * q * s + 4 * half * s < p < 8 * half * (q + 1) * s
  {
    Terms(half, q, t, s);
    DroppedRoom(t, half, s);
    SplitCases(t, half, s, half * q * s, t * s, half * s, p);
  }

  /** Room the dropped part t keeps to half a unit. */
  lemma DroppedRoom(t: nat, half: nat, s: nat)
    requires half >= 1 && t < 2 * half
    ensures s <= half * s && 0 <= t * s <= 2 * (half * s) - s
    ensures if t < half - 1 then t * s + 2 * s <= half * s
            else if t < half then t * s + s == half * s
            else half * s <= t * s
  {
    MulMonotone(1, half, s);
    MulMonotone(0, t, s);
    MulMonotone(t + 1, 2 * half, s);
    MulDistribute(t, 1, s);
    MulAssoc(2, half, s);
    if t < half - 1 {
      MulMonotone(t + 2, half, s);
      MulDistribute(t, 2, s);
    } else if t >= half {
      MulMonotone(half, t, s);
    }
  }

  /** `HalfUnitSplit` on the products z = half * q * s, x = t * s and h = half * s. */
  lemma SplitCases(t: nat, half: nat, s: nat, z: int, x: int, h: int, p: int)
    requires s > 0 && s <= h && 0 <= x <= 2 * h - s && 8 * z + 4 * x <= p < 8 * z + 4 * x + 6 * s
    requires if t < half - 1 then x + 2 * s <= h else if t < half then x + s == h else h <= x
    ensures t < half ==> (2 * Abs(8 * z - p) <= 8 * h <==> !(t == half - 1 && p > 8 * z + 4 * x + 4 * s))
    ensures t >= half ==> 2 * Abs(8 * z + 8 * h - p) <= 8 * h
    ensures t == half - 1 && p > 8 * z + 4 * x + 4 * s ==> 8 * z + 4 * h < p < 8 * z + 8 * h
  {
  }

  lemma Terms(half: int, q: int, t: int, s: int)
    ensures 4 * (2 * half * q + t) * s == 8 * (half * q * s) + 4 * (t * s)
    ensures (4 * (2 * half * q + t) + 6) * s == 8 * (half * q * s) + 4 * (t * s) + 6 * s
    ensures 4 * (2 * half * q + t + 1) * s == 8 * (half * q * s) + 4 * (t * s) + 4 * s
    ensures 8 * half * q * s == 8 * (half * q * s) && 8 * half * (q + 1) * s == 8 * (half * q * s) + 8 * (half * s)
    ensures 8 * half * s == 8 * (half * s) && 4 * half * s == 4 * (half * s)
  {
    var w := half * q;
    MulAssoc(2, half, q);
    MulDistribute(2 * w, t, s);
    MulAssoc(2, w, s);
    MulAssoc(4, 2 * half * q + t, s);
    MulDistribute(4 * (2 * half * q + t), 6, s);
    MulDistribute(2 * half * q + t, 1, s);
    MulAssoc(4, 2 * half * q + t + 1, s);
    MulAssoc(8, half, q);
    MulAssoc(8, w, s);
    MulAssoc(8, half, q + 1);
    MulCommute(half, q + 1);
    MulDistribute(q, 1, half);
    MulCommute(q, half);
    MulAssoc(8, w + half, s);
    MulDistribute(w, half, s);
    MulAssoc(8, half, s);
    MulAssoc(4, half, s);
  }

  lemma HalfUnitParts(y: nat, half: nat, s: nat, p: nat, q: nat, t: nat, r: nat, u: nat)
    requires half >= 1 && s > 0 && 4 * y * s <= p < (4 * y + 6) * s
    requires y == 2 * half * q + t && t < 2 * half && u == 8 * half * s && r == if t < half then q else q + 1
    ensures var missed := t == half - 1 && p > 4 * (y + 1) * s;
            (2 * Abs(r * u - p) <= u <==> !missed) && (missed ==> 2 * (r * u) + u < 2 * p < 2 * ((r + 1) * u))
  {
    HalfUnitSplit(q, t, half, s, p);
    UnitTimes(half, q, s);
    UnitTimes(half, q + 1, s);
    assert 2 * (4 * half * s) == 8 * half * s by { Terms(half, q, t, s); }
  }

  /** Adding half a unit and shifting leaves more than half a unit of error exactly when the tie is missed. */
  lemma HalfUnitIff(y: nat, half: nat, s: nat, p: nat)
    requires half >= 1 && s > 0 && 4 * y * s <= p < (4 * y + 6) * s
    ensures var r, u := (y + half) / (2 * half), 8 * half * s;
            var missed := y % (2 * half) == half - 1 && p > 4 * (y + 1) * s;
            (2 * Abs(r * u - p) <= u <==> !missed)
            && (missed ==> 2 * (r * u) + u < 2 * p < 2 * ((r + 1) * u) && r == y / (2 * half))
  {
    var g, q, t := 2 * half, y / (2 * half), y % (2 * half);
    DividedParts(y, g, q, t);
    MulCommute(q, g);
    RoundUp(q, t, half);
    HalfUnitParts(y, half, s, p, q, t, (y + half) / g, 8 * half * s);
  }

  lemma RoundUp(q: nat, t: nat, half: nat)
    requires half >= 1 && t < 2 * half
    ensures (2 * half * q + t + half) / (2 * half) == if t < half then q else q + 1
  {
    MulCommute(2 * half, q);
    if t < half {
      SplitQuotient(q, 2 * half, t + half);
    } else {
      MulDistribute(q, 1, 2 * half);
      SplitQuotient(q + 1, 2 * half, t - half);
    }
  }

  lemma UnitTimes(half: nat, q: int, s: nat)
    ensures q * (8 * half * s) == 8 * half * q * s
  {
    MulAssoc(8 * half, q, s);
    MulCommute(q, s);
    MulAssoc(8 * half, s, q);
    MulCommute(q, 8 * half * s);
  }

  /** On the significands of two words. */
  lemma RoundedProductIff(f: Format, a: nat, b: nat)
    ensures var r, u, p := RoundedProduct(f, a, b), Pow2(UnitExponent(f, a, b)), SignificandProduct(f, a, b);
            (2 * Abs(r * u - p) <= u <==> !TieMissed(f, a, b))
            && (TieMissed(f, a, b) ==> 2 * (r * u) + u < 2 * p < 2 * ((r + 1) * u) && r < 2 * Hidden(f))
  {
    TopBitsRange(f, a, b);
    UnitSize(f, a, b);
    var y := TopBits(f, a, b);
    HalfUnitIff(y, HalfUnit(f, y), SplitSquare(f), SignificandProduct(f, a, b));
    BelowCarry(y, 2 * HalfUnit(f, y), Hidden(f));
  }

  lemma BelowCarry(y: nat, g: nat, h: nat)
    requires g > 0 && y < 2 * h * g
    ensures y / g < 2 * h
  {
    FloorBounds(y, g);
    CancelFactor(y / g, 2 * h, g);
  }

  // ----- on words

  /** A multiple k of the rounding unit, as a word of the right sign, against the exact product. */
  lemma CandidateError(f: Format, a: nat, b: nat, c: nat, k: nat, e: nat)
    requires e == ScaleExponent(f, a, b) && Magnitude(f, c) == k * Pow2(e)
    requires Negative(f, c) == (Negative(f, a) != Negative(f, b))
    ensures ProductError(f, c, a, b)
         == Pow2(Exponent(f, a) + Exponent(f, b)) * Abs(k * Pow2(UnitExponent(f, a, b)) - SignificandProduct(f, a, b))
  {
    FormatBounds(f);
    SignedProductError(f, c, a, b);
    var u, q := UnitExponent(f, a, b), Exponent(f, a) + Exponent(f, b);
    CommonFactor(Mantissa(f, a), Exponent(f, a), Mantissa(f, b), Exponent(f, b), k, e, Excess(f) + f.prec, u);
    FactorOut(Pow2(q), k * Pow2(u), SignificandProduct(f, a, b));
  }

  predicate Multiplies(f: Format, a: nat, b: nat) {
    Normal(f, a) && Normal(f, b) && InRange(f, ProductExponent(f, a, b))
  }

  /** The result as a multiple of the rounding unit. */
  lemma ResultParts(f: Format, a: nat, b: nat) returns (e: nat)
    requires Multiplies(f, a, b)
    ensures var r := ProductWord(f, a, b);
            e == ScaleExponent(f, a, b) && Normal(f, r) && Negative(f, r) == (Negative(f, a) != Negative(f, b))
            && Magnitude(f, r) == RoundedProduct(f, a, b) * Pow2(e)
            && Exponent(f, r) == ProductExponent(f, a, b) && Mantissa(f, r) == ProductMantissa(f, a, b)
  {
    FormatBounds(f);
    PackedValue(f, Negative(f, a) != Negative(f, b), ProductExponent(f, a, b), ProductMantissa(f, a, b));
    e := ScaleExponent(f, a, b);
    CarriedMagnitude(f, a, b, e);
  }

  /** The rounding unit in the units products are compared in. */
  lemma UnitScaled(f: Format, a: nat, b: nat, e: nat)
    requires e == ScaleExponent(f, a, b)
    ensures Excess(f) >= 0
    ensures Pow2(e) * Pow2(Excess(f) + f.prec)
         == Pow2(Exponent(f, a) + Exponent(f, b)) * Pow2(UnitExponent(f, a, b))
  {
    FormatBounds(f);
    CommonFactor(0, Exponent(f, a), 0, Exponent(f, b), 0, e, Excess(f) + f.prec, UnitExponent(f, a, b));
  }

  /** The error is at most half a rounding unit exactly when no tie is missed. */
  lemma RoundingUnitIff(f: Format, a: nat, b: nat, e: nat)
    requires Multiplies(f, a, b) && e == ScaleExponent(f, a, b)
    ensures Excess(f) >= 0
    ensures 2 * ProductError(f, ProductWord(f, a, b), a, b) <= Pow2(e) * Pow2(Excess(f) + f.prec)
            <==> !TieMissed(f, a, b)
  {
    var e' := ResultParts(f, a, b);
    var k, u := RoundedProduct(f, a, b), Pow2(UnitExponent(f, a, b));
    RoundedProductIff(f, a, b);
    CandidateError(f, a, b, ProductWord(f, a, b), k, e);
    UnitScaled(f, a, b, e);
    CompareScaled(Pow2(Exponent(f, a) + Exponent(f, b)), Abs(k * u - SignificandProduct(f, a, b)), u);
  }

  /** The error is at most half a unit in the last place of the result exactly when no tie is missed. */
  lemma MultiplicationHalfUlp(f: Format, a: nat, b: nat)
    requires Multiplies(f, a, b)
    ensures var r := ProductWord(f, a, b);
            2 * ProductError(f, r, a, b) <= ProductUlp(f, r) <==> !TieMissed(f, a, b)
  {
    var e := ResultParts(f, a, b);
    RoundingUnitIff(f, a, b, e);
    RoundedProductIff(f, a, b);
    UlpGrows(e, ProductExponent(f, a, b), Pow2(Excess(f) + f.prec), 1);
  }

  // ----- against every other word

  function ExactProduct(f: Format, a: nat, b: nat): nat {
    HighProduct(Magnitude(f, a), Magnitude(f, b))
  }

  /** Errors of a word of the product's sign, and of one of the other sign. */
  lemma ErrorBySign(f: Format, c: nat, a: nat, b: nat)
    ensures Excess(f) >= 0
    ensures var x, p := Magnitude(f, c) * Pow2(Excess(f) + f.prec), ExactProduct(f, a, b);
            ProductError(f, c, a, b)
            == if Negative(f, c) == (Negative(f, a) != Negative(f, b)) then Abs(x - p) else x + p
  {
    FormatBounds(f);
    SgnProduct(Negative(f, a), Negative(f, b), Magnitude(f, a), Magnitude(f, b));
    MulAssoc(Sgn(Negative(f, c)), Magnitude(f, c), Pow2(Excess(f) + f.prec));
    var x := HighProduct(Magnitude(f, c), Pow2(Excess(f) + f.prec));
    SignedGap(Negative(f, c), Negative(f, a) != Negative(f, b), x, ExactProduct(f, a, b));
  }

  lemma SignedGap(s: bool, t: bool, x: nat, p: nat)
    ensures Abs(Sgn(s) * x - Sgn(t) * p) == if s == t then Abs(x - p) else x + p
  {
  }

  /** The exact product is not below the binade of the rounding unit. */
  lemma ProductBinade(f: Format, a: nat, b: nat, e: nat)
    requires e == ScaleExponent(f, a, b)
    ensures Excess(f) >= 0
    ensures Hidden(f) * (Pow2(e) * Pow2(Excess(f) + f.prec)) <= ExactProduct(f, a, b)
  {
    UnitScaled(f, a, b, e);
    BelowOneUnit(f, a, b);
    var w, u, p := Pow2(Exponent(f, a) + Exponent(f, b)), Pow2(UnitExponent(f, a, b)), SignificandProduct(f, a, b);
    FourFactors(Mantissa(f, a), Pow2(Exponent(f, a)), Mantissa(f, b), Pow2(Exponent(f, b)));
    Pow2Add(Exponent(f, a), Exponent(f, b));
    ScaledBinade(Hidden(f), u, p, w);
  }

  lemma ScaledBinade(h: nat, u: nat, p: nat, w: nat)
    requires h * u <= p
    ensures h * (w * u) <= w * p
  {
    MulMonotone(h * u, p, w);
    MulAssoc(h, u, w);
    MulCommute(u, w);
    MulCommute(p, w);
  }

  lemma WithinHalfUnitIsNearest(f: Format, a: nat, b: nat, c: nat)
    requires Multiplies(f, a, b) && !TieMissed(f, a, b)
    ensures ProductError(f, ProductWord(f, a, b), a, b) <= ProductError(f, c, a, b)
  {
    var e := ResultParts(f, a, b);
    var den := Pow2(Excess(f) + f.prec);
    RoundingUnitIff(f, a, b, e);
    ProductBinade(f, a, b, e);
    ErrorBySign(f, ProductWord(f, a, b), a, b);
    ErrorBySign(f, c, a, b);
    Rounding.HalfUnitIsNearest(f.prec, RoundedProduct(f, a, b), e, ExactProduct(f, a, b), den, Mantissa(f, c),
        Exponent(f, c));
    MulMonotone(1, Hidden(f), Pow2(e) * den);
    MulMonotone(0, Magnitude(f, c), den);
  }

  /** After a missed tie the next larger significand is nearer; it exists unless the result is the largest number. */
  lemma NextIsNearer(f: Format, a: nat, b: nat) returns (c: nat)
    requires Multiplies(f, a, b) && TieMissed(f, a, b) && !Largest(f, ProductWord(f, a, b))
    ensures Normal(f, c) && ProductError(f, c, a, b) < ProductError(f, ProductWord(f, a, b), a, b)
  {
    var e := ResultParts(f, a, b);
    RoundedProductIff(f, a, b);
    var k := RoundedProduct(f, a, b) + 1;
    c := PackedMultiple(f, Negative(f, a) != Negative(f, b), k, e);
    CandidateError(f, a, b, c, k, e);
    CandidateError(f, a, b, ProductWord(f, a, b), k - 1, e);
    var w, u := Pow2(Exponent(f, a) + Exponent(f, b)), Pow2(UnitExponent(f, a, b));
    NearerAbove(k - 1, u, SignificandProduct(f, a, b), w);
  }

  lemma NearerAbove(r: nat, u: nat, p: nat, w: nat)
    requires w > 0 && 2 * (r * u) + u < 2 * p < 2 * ((r + 1) * u)
    ensures w * Abs((r + 1) * u - p) < w * Abs(r * u - p)
  {
    MulDistribute(r, 1, u);
    MulMonotone(Abs((r + 1) * u - p) + 1, Abs(r * u - p), w);
    MulDistribute(Abs((r + 1) * u - p), 1, w);
    MulCommute(w, Abs((r + 1) * u - p));
    MulCommute(w, Abs(r * u - p));
  }

  /** Nothing is nearer than the largest number to a product beyond it. */
  lemma LargestIsNearest(f: Format, a: nat, b: nat, c: nat)
    requires Multiplies(f, a, b) && TieMissed(f, a, b) && Largest(f, ProductWord(f, a, b)) && Normal(f, c)
    ensures ProductError(f, ProductWord(f, a, b), a, b) <= ProductError(f, c, a, b)
  {
    var e := ResultParts(f, a, b);
    var r, den := ProductWord(f, a, b), Pow2(Excess(f) + f.prec);
    LargestMagnitude(f, r, c);
    MulMonotone(Magnitude(f, c), Magnitude(f, r), den);
    MulMonotone(0, Magnitude(f, c), den);
    ErrorBySign(f, r, a, b);
    ErrorBySign(f, c, a, b);
    ResultBelow(f, a, b, e);
  }

  lemma LargestMagnitude(f: Format, r: nat, c: nat)
    requires Largest(f, r) && Normal(f, c)
    ensures Magnitude(f, c) <= Magnitude(f, r)
  {
    Pow2Monotone(Exponent(f, c), Exponent(f, r));
    MulMonotone(Mantissa(f, c), Mantissa(f, r), Pow2(Exponent(f, c)));
    MulCommute(Mantissa(f, r), Pow2(Exponent(f, c)));
    MulCommute(Mantissa(f, r), Pow2(Exponent(f, r)));
    MulMonotone(Pow2(Exponent(f, c)), Pow2(Exponent(f, r)), Mantissa(f, r));
  }

  /** A missed tie leaves the result below the exact product. */
  lemma ResultBelow(f: Format, a: nat, b: nat, e: nat)
    requires Multiplies(f, a, b) && TieMissed(f, a, b) && e == ScaleExponent(f, a, b)
    ensures Excess(f) >= 0
    ensures RoundedProduct(f, a, b) * Pow2(e) * Pow2(Excess(f) + f.prec) <= ExactProduct(f, a, b)
  {
    FormatBounds(f);
    RoundedProductIff(f, a, b);
    var k, u, p := RoundedProduct(f, a, b), UnitExponent(f, a, b), SignificandProduct(f, a, b);
    CommonFactor(Mantissa(f, a), Exponent(f, a), Mantissa(f, b), Exponent(f, b), k, e, Excess(f) + f.prec, u);
    MulMonotone(k * Pow2(u), p, Pow2(Exponent(f, a) + Exponent(f, b)));
    MulCommute(k * Pow2(u), Pow2(Exponent(f, a) + Exponent(f, b)));
    MulCommute(p, Pow2(Exponent(f, a) + Exponent(f, b)));
  }

  /**
   For normal operands and an in-range result, no normal number is nearer to
   the exact product than the result, exactly when no tie is missed or the
   result is already the largest number.
  */
  lemma MultiplicationNearestIff(f: Format, a: nat, b: nat)
    requires Multiplies(f, a, b)
    ensures NearestProduct(f, ProductWord(f, a, b), a, b)
            <==> !TieMissed(f, a, b) || Largest(f, ProductWord(f, a, b))
  {
    if !TieMissed(f, a, b) {
      forall c | Normal(f, c) ensures ProductError(f, ProductWord(f, a, b), a, b) <= ProductError(f, c, a, b) {
        WithinHalfUnitIsNearest(f, a, b, c);
      }
    } else if Largest(f, ProductWord(f, a, b)) {
      forall c | Normal(f, c) ensures ProductError(f, ProductWord(f, a, b), a, b) <= ProductError(f, c, a, b) {
        LargestIsNearest(f, a, b, c);
      }
    } else {
      var c := NextIsNearer(f, a, b);
    }
  }
}
