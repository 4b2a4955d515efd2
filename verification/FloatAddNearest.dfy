/** Exactly when addition returns the nearest number. */
module FloatAddNearest {
  import opened Powers
  import opened FloatFormat
  import opened FloatAdd
  import opened FloatAddError
  import opened FloatAddTheorems
  import Rounding

  /**
   The guard bits read exactly half a unit, bits were lost in aligning or
   carrying, and the even rule moves away from the exact sum.
  */
  predicate TieLost(f: Format, a: nat, b: nat) {
    Rounds(f, a, b) &&
    (AlignedSumSign(f, a, b);
     var s, g := NormalisedSum(f, a, b), GuardUnit(f);
     s.exp >= 0 && LosesTie(s.m, g, s.m * Pow2(s.exp), Abs(ExactSum(f, a, b)) * g))
  }

  /** The same on the normalised significand y, what it stands for, and what is exact. */
  predicate LosesTie(y: nat, g: nat, kept: int, exact: int)
    requires g > 0
  {
    y % g == g / 2 && kept != exact && (y / g % 2 == 1) != (exact > kept)
  }

  /** How far what is kept may be from the exact sum: below a unit, or two when the significand was doubled. */
  predicate Close(y: nat, unit: nat, exact: int) {
    Abs(y * unit - exact) < if y % 2 == 0 then 2 * unit else unit
  }

  // ----- on significands

  /** Room a guard value keeps to half a group and to a whole one; an even one keeps twice as much to half. */
  lemma GuardRoom(t: nat, half: nat, unit: nat)
    requires half >= 32 && half % 2 == 0 && t < 2 * half
    ensures var room := if t % 2 == 0 then 2 * unit else unit;
            if t < half then t * unit + room <= half * unit
            else if t > half then half * unit + room <= t * unit
            else t * unit == half * unit
    ensures 0 <= t * unit <= 2 * (half * unit) - unit && 2 * unit < half * unit + 1
  {
    var k := if t % 2 == 0 then 2 else 1;
    if t < half {
      MulMonotone(t + k, half, unit);
    } else if t > half {
      MulMonotone(half + k, t, unit);
      MulDistribute(half, k, unit);
    }
    MulDistribute(t, k, unit);
    MulMonotone(0, t, unit);
    MulMonotone(t + 1, 2 * half, unit);
    MulDistribute(t, 1, unit);
    MulAssoc(2, half, unit);
    MulMonotone(2, half, unit);
  }

  /** Rounding to even w + x (x in guard units, h half a group), where exact is what should have been rounded. */
  lemma EvenSplit(even: bool, x: int, h: int, room: int, exact: int, w: int)
    requires x == h || x + room <= h || h + room <= x
    requires room > 0 && room <= h && 0 <= x <= 2 * h - room / 2 && Abs(w + x - exact) < room
    ensures var tie, kept := x == h, w + x;
            if x < h || (tie && even)
            then (Abs(w - exact) <= h <==> !(tie && exact > kept)) && (tie && exact > kept ==> exact < w + 2 * h)
                 && (Abs(w - exact) == h ==> tie)
            else (Abs(w + 2 * h - exact) <= h <==> !(tie && exact < kept)) && (tie && exact < kept ==> w < exact)
                 && (Abs(w + 2 * h - exact) == h ==> tie)
  {
  }

  lemma EvenRound(q: nat, t: nat, half: nat)
    requires half >= 1 && t < 2 * half
    ensures var bias := if q % 2 == 1 then half else half - 1;
            (q * (2 * half) + t + bias) / (2 * half) == if t < half || (t == half && q % 2 == 0) then q else q + 1
  {
    var g, bias := 2 * half, if q % 2 == 1 then half else half - 1;
    if t + bias < g {
      SplitQuotient(q, g, t + bias);
    } else {
      MulDistribute(q, 1, g);
      SplitQuotient(q + 1, g, t + bias - g);
    }
  }

  /** What rounding to z (r guard groups) means: h is half a group, kept what rounding started from. */
  predicate RoundsTo(q: int, tie: bool, kept: int, exact: int, r: int, z: int, h: int) {
    var lost := tie && kept != exact && (q % 2 == 1) != (exact > kept);
    (Abs(z - exact) <= h <==> !lost)
    && (Abs(z - exact) == h ==> r % 2 == 0)
    && (lost ==> r % 2 == 0 && if exact > kept
                               then r == q && -2 * h < z - exact < -h
                               else r == q + 1 && h < z - exact < 2 * h)
  }

  lemma GroupTerms(q: int, t: int, half: int, g: int, unit: int)
    requires g == 2 * half
    ensures (q * g + t) * unit == q * g * unit + t * unit
    ensures (q + 1) * g * unit == q * g * unit + 2 * (half * unit)
  {
    MulDistribute(q * g, t, unit);
    MulDistribute(q, 1, g);
    MulDistribute(q * g, g, unit);
    MulAssoc(2, half, unit);
  }

  /** Rounding to even against the exact sum, both in guard units. */
  lemma EvenTie(y: nat, q: nat, t: nat, half: nat, g: nat, unit: nat, exact: int, kept: int, r: nat, z: int, h: int)
    requires half >= 32 && half % 2 == 0 && unit > 0 && g == 2 * half && t < g && h == half * unit
    requires y == q * g + t && kept == y * unit && z == r * g * unit
    requires Abs(kept - exact) < if t % 2 == 0 then 2 * unit else unit
    requires r == if t < half || (t == half && q % 2 == 0) then q else q + 1
    ensures RoundsTo(q, t == half, kept, exact, r, z, h)
  {
    GroupTerms(q, t, half, g, unit);
    GuardRoom(t, half, unit);
    EvenSplit(q % 2 == 0, t * unit, h, if t % 2 == 0 then 2 * unit else unit, exact, q * g * unit);
  }

  /** Rounding on the exact sum s itself, with unit standing for one in the last place. */
  predicate RoundsEven(y: nat, g: nat, unit: nat, s: int, r: int)
    requires g > 0
  {
    var lost := LosesTie(y, g, y * unit, s * g);
    (2 * Abs(r * unit - s) <= unit <==> !lost)
    && (2 * Abs(r * unit - s) == unit ==> r % 2 == 0)
    && (lost ==> r % 2 == 0 && if s * g > y * unit
                               then r == y / g && 2 * (r * unit) + unit < 2 * s < 2 * ((r + 1) * unit)
                               else r == y / g + 1 && 2 * ((r - 1) * unit) < 2 * s < 2 * (r * unit) - unit)
  }

  lemma EvenTieUnscaled(y: nat, g: nat, unit: nat, s: int, r: nat, bias: nat)
    requires g >= 64 && g % 4 == 0 && unit > 0 && Close(y, unit, s * g)
    requires bias == (if y / g % 2 == 1 then g / 2 else g / 2 - 1) && r == (y + bias) / g
    ensures RoundsEven(y, g, unit, s, r)
  {
    var q, t, half := y / g, y % g, g / 2;
    DividedParts(y, g, q, t);
    Halved(g);
    RoundedQuotient(y, g, q, t, bias, r);
    var z, h := r * g * unit, half * unit;
    EvenTieParts(y, g, half, unit, s * g, r, q, t, z, h);
    Descale(y, g, unit, s, r, q, t == half, y * unit, s * g, z, h);
  }

  lemma Halved(g: nat)
    requires g % 4 == 0
    ensures g == 2 * (g / 2) && g / 2 % 2 == 0
  {
  }

  lemma RoundedQuotient(y: nat, g: nat, q: nat, t: nat, bias: nat, r: nat)
    requires g >= 2 && g % 2 == 0 && y == q * g + t && t < g && r == (y + bias) / g
    requires bias == if q % 2 == 1 then g / 2 else g / 2 - 1
    ensures r == if t < g / 2 || (t == g / 2 && q % 2 == 0) then q else q + 1
  {
    EvenRound(q, t, g / 2);
  }

  lemma EvenTieParts(y: nat, g: nat, half: nat, unit: nat, exact: int, r: nat, q: nat, t: nat, z: int, h: int)
    requires half >= 32 && half % 2 == 0 && g == 2 * half && unit > 0 && Close(y, unit, exact) && y == q * g + t
             && t < g
    requires r == if t < half || (t == half && q % 2 == 0) then q else q + 1
    requires z == r * g * unit && h == half * unit
    ensures RoundsTo(q, t == half, y * unit, exact, r, z, h)
  {
    SameParity(y, q, g, t);
    EvenTie(y, q, t, half, g, unit, exact, y * unit, r, z, h);
  }

  lemma SameParity(y: nat, q: nat, g: nat, t: nat)
    requires g % 2 == 0 && y == q * g + t
    ensures y % 2 == t % 2
  {
    MulDouble(q, g / 2);
  }

  lemma Descale(y: nat, g: nat, unit: nat, s: int, r: int, q: int, tie: bool, kept: int, exact: int, z: int, h: int)
    requires g > 0 && g % 2 == 0 && RoundsTo(q, tie, kept, exact, r, z, h)
    requires q == y / g && tie == (y % g == g / 2) && kept == y * unit && exact == s * g
    requires z == r * g * unit && h == g / 2 * unit
    ensures RoundsEven(y, g, unit, s, r)
  {
    Unscale(r, g, unit, s, g / 2, z - exact, h);
  }

  lemma Unscale(r: int, g: nat, unit: nat, s: int, half: nat, x: int, h: int)
    requires g == 2 * half && half > 0 && x == r * g * unit - s * g && h == half * unit
    ensures (Abs(x) <= h <==> 2 * Abs(r * unit - s) <= unit) && (Abs(x) == h <==> 2 * Abs(r * unit - s) == unit)
            && (x < -h <==> 2 * (r * unit) + unit < 2 * s) && (x > h <==> 2 * s < 2 * (r * unit) - unit)
            && (x > -2 * h <==> s < (r + 1) * unit) && (x < 2 * h <==> (r - 1) * unit < s)
  {
    var d := r * unit - s;
    MulAssoc(r, g, unit);
    MulCommute(g, unit);
    MulAssoc(r, unit, g);
    MulDistribute(r * unit, s, g);
    MulAssoc(2, half, d);
    MulCommute(g, d);
    MulDistribute(r, 1, unit);
    ScaledDistance(half, d, unit, x, h);
  }

  /** x is 2 * half * d, and h is half units. */
  lemma ScaledDistance(half: nat, d: int, unit: int, x: int, h: int)
    requires half > 0 && x == 2 * (half * d) && h == half * unit
    ensures (Abs(x) <= h <==> 2 * Abs(d) <= unit) && (Abs(x) == h <==> 2 * Abs(d) == unit)
    ensures (x < -h <==> 2 * d < -unit) && (x > h <==> 2 * d > unit) && (x > -2 * h <==> d > -unit)
            && (x < 2 * h <==> d < unit)
  {
    MulDouble(half, d);
    MulDouble(half, unit);
    MulNegate(half, unit);
    ScaledOrder(2 * d, unit, half);
    ScaledOrder(unit, 2 * d, half);
    ScaledOrder(2 * d, -unit, half);
    ScaledOrder(-unit, 2 * d, half);
    ScaledOrder(d, unit, half);
    ScaledOrder(-unit, d, half);
  }

  lemma MulNegate(x: int, y: int)
    ensures x * -y == -(x * y)
  {
  }

  lemma ScaledOrder(x: int, y: int, half: int)
    requires half > 0
    ensures x < y <==> half * x < half * y
  {
    MulCommute(half, x);
    MulCommute(half, y);
    CancelFactor(x, y, half);
    if x < y {
      MulMonotone(x + 1, y, half);
      MulDistribute(x, 1, half);
    }
  }

  // ----- on words

  /** Doubling a sum that lost less than one of its units leaves an even significand, or loses less than one still. */
  lemma DoubledClose(m: nat, e: nat, x: nat, t: nat, exact: int)
    requires m * Pow2(e) == x * Pow2(t) && Abs(x * Pow2(t) - exact) < Pow2(t)
    requires Pow2(t) <= 2 * Pow2(e) || x * Pow2(t) == exact
    ensures Close(m, Pow2(e), exact)
  {
    if x * Pow2(t) != exact && e < t {
      Pow2StrictlyMonotone(e, t);
      MulDouble(x, Pow2(e));
      CancelFactor(m, 2 * x, Pow2(e));
    } else if t <= e {
      Pow2Monotone(t, e);
    }
  }

  lemma CarriedClose(m: nat, e: nat, x: nat, t: nat, exact: int)
    requires m == x / 2 && e == t + 1 && Abs(x * Pow2(t) - exact) < Pow2(t)
    ensures Close(m, Pow2(e), exact)
  {
    HalvedValue(x, m, Pow2(t));
  }

  lemma NormalisedClose(f: Format, a: nat, b: nat, e: nat)
    requires AlignedSum(f, a, b) != 0 && NormalisedSum(f, a, b).exp == e
    ensures Close(NormalisedSum(f, a, b).m, Pow2(e), Abs(ExactSum(f, a, b)) * GuardUnit(f))
  {
    AlignedMagnitudeClose(f, a, b);
    NormalisedValue(f, a, b, e);
    var m, t, x := NormalisedSum(f, a, b).m, TopExponent(f, a, b), Abs(AlignedSum(f, a, b));
    var exact := Abs(ExactSum(f, a, b)) * GuardUnit(f);
    if x < 2 * Top(f) {
      DoubledClose(m, e, x, t, exact);
    } else {
      CarriedClose(m, e, x, t, exact);
    }
  }

  /** The rounding step on the sum of two words. */
  lemma SumRounds(f: Format, a: nat, b: nat, e: nat)
    requires AlignedSum(f, a, b) != 0 && NormalisedSum(f, a, b).exp == e
    ensures var y := NormalisedSum(f, a, b).m;
            RoundsEven(y, GuardUnit(f), Pow2(e), Abs(ExactSum(f, a, b)), RoundEven(f, y))
  {
    NormalisedClose(f, a, b, e);
    GuardQuarter(f);
    var y := NormalisedSum(f, a, b).m;
    EvenTieUnscaled(y, GuardUnit(f), Pow2(e), Abs(ExactSum(f, a, b)), RoundEven(f, y), RoundingBias(f, y));
  }

  lemma GuardQuarter(f: Format)
    ensures GuardUnit(f) % 4 == 0 && GuardUnit(f) >= 64
  {
    HalfGuard(f);
    FourTimes(Guard(f));
  }

  lemma FourTimes(n: nat)
    requires n >= 2
    ensures Pow2(n) % 4 == 0
  {
    var x := Pow2(n - 2);
    assert Pow2(n - 1) == 2 * x;
    assert Pow2(n) == x * 4;
    SplitQuotient(x, 4, 0);
  }

  /** Where the exact magnitude s is, seen from k units: in the binade of the unit, or barely below it. */
  predicate Placed(h: nat, k: int, unit: nat, s: int) {
    h * unit <= s || (k == h && 4 * (h * unit - s) < unit)
  }

  lemma PlacedSum(h: nat, g: nat, y: nat, unit: nat, s: nat, r: nat, bias: nat)
    requires g >= 64 && g % 2 == 0 && h > 0 && unit > 0 && h * g <= y && Close(y, unit, s * g)
    requires bias < g && r == (y + bias) / g
    ensures Placed(h, r, unit, s)
  {
    MulAssoc(h, g, unit);
    MulCommute(g, unit);
    MulAssoc(h, unit, g);
    if s < h * unit {
      MulMonotone(s + 1, h * unit, g);
      MulDistribute(s, 1, g);
      SameParity(h * g, h, g, 0);
      JustBelow(y, h * g, unit, s * g);
      SplitQuotient(h, g, bias);
      MulDistribute(h * unit, s, g);
      MulMonotone(64, g, h * unit - s);
      MulCommute(g, h * unit - s);
    }
  }

  lemma JustBelow(y: nat, top: nat, unit: nat, exact: int)
    requires top <= y && top % 2 == 0 && Close(y, unit, exact) && exact < top * unit
    ensures y == top && top * unit - exact < 2 * unit
  {
    MulDistribute(y, top, unit);
    if y >= top + 2 {
      MulMonotone(2, y - top, unit);
    }
  }

  /** A candidate of the right sign is not nearer than k units within half a unit, and as near only at a tie. */
  lemma PlacedNearest(prec: nat, k: nat, e: nat, s: nat, m: nat, c: nat)
    requires prec > 0 && m < Pow2(prec) && s > 0 && Placed(Pow2(prec - 1), k, Pow2(e), s)
    requires 2 * Abs(k * Pow2(e) - s) <= Pow2(e)
    ensures Abs(k * Pow2(e) - s) <= Abs(m * Pow2(c) - s)
    ensures m * Pow2(c) != k * Pow2(e) && Abs(k * Pow2(e) - s) == Abs(m * Pow2(c) - s) ==>
            2 * Abs(k * Pow2(e) - s) == Pow2(e)
  {
    if Pow2(prec - 1) * Pow2(e) <= s {
      Rounding.HalfUnitIsNearest(prec, k, e, s, 1, m, c);
    } else if c < e {
      Rounding.BelowBinade(prec, m, c, e);
      MulAssoc(2, Pow2(prec - 1), Pow2(e));
    } else {
      Pow2Add(c - e, e);
      MulAssoc(m, Pow2(c - e), Pow2(e));
      Rounding.NearestMultiple(m * Pow2(c - e), k, Pow2(e), s);
    }
  }

  /** The result as k units of 2^e, placed and near enough to the exact sum. */
  predicate Parts(f: Format, r: nat, s: int, k: nat, e: nat) {
    Normal(f, r) && Value(f, r) == Sgn(s < 0) * (k * Pow2(e)) && s != 0 && (k % 2 == 0 ==> Mantissa(f, r) % 2 == 0)
    && Placed(Hidden(f), k, Pow2(e), Abs(s))
  }

  lemma FarParts(f: Format, a: nat, b: nat)
    requires Normal(f, a) && FarAbove(f, a, b)
    ensures Parts(f, a, ExactSum(f, a, b), Mantissa(f, a), Exponent(f, a))
    ensures 4 * Abs(Magnitude(f, a) - Abs(ExactSum(f, a, b))) < Pow2(Exponent(f, a))
    ensures SumError(f, a, a, b) == Abs(Magnitude(f, a) - Abs(ExactSum(f, a, b)))
  {
    FarSum(f, a, b);
    var m, u, s := Mantissa(f, a), Pow2(Exponent(f, a)), ExactSum(f, a, b);
    MulMonotone(Hidden(f), m, u);
    MulMonotone(1, Hidden(f), u);
    SignedDistance(s, Magnitude(f, a), s < 0);
    if m > Hidden(f) {
      MulMonotone(Hidden(f) + 1, m, u);
      MulDistribute(Hidden(f), 1, u);
    }
  }

  lemma NearParts(f: Format, a: nat, b: nat) returns (k: nat, e: nat)
    requires Rounds(f, a, b) && SumInRange(f, a, b)
    ensures AlignedSum(f, a, b) != 0 && k == RoundEven(f, NormalisedSum(f, a, b).m) && e == NormalisedSum(f, a, b).exp
    ensures Parts(f, SumWord(f, a, b), ExactSum(f, a, b), k, e)
    ensures SumError(f, SumWord(f, a, b), a, b) == Abs(k * Pow2(e) - Abs(ExactSum(f, a, b)))
  {
    RoundedSumValue(f, a, b);
    e, k := NormalisedSum(f, a, b).exp, RoundEven(f, NormalisedSum(f, a, b).m);
    RoundedSumPlaced(f, a, b, e);
    EvenHidden(f);
    MulMonotone(0, k, Pow2(e));
    SignedDistance(ExactSum(f, a, b), k * Pow2(e), ExactSum(f, a, b) < 0);
  }

  lemma EvenHidden(f: Format)
    ensures Hidden(f) % 2 == 0
  {
    FourTimes(f.prec - 1);
  }

  lemma RoundedSumPlaced(f: Format, a: nat, b: nat, e: nat)
    requires AlignedSum(f, a, b) != 0 && NormalisedSum(f, a, b).exp == e
    ensures Placed(Hidden(f), RoundEven(f, NormalisedSum(f, a, b).m), Pow2(e), Abs(ExactSum(f, a, b)))
  {
    var y := NormalisedSum(f, a, b).m;
    NormalisedClose(f, a, b, e);
    PlacedRound(f, y, Pow2(e), Abs(ExactSum(f, a, b)));
  }

  lemma PlacedRound(f: Format, y: nat, unit: nat, s: nat)
    requires unit > 0 && Top(f) <= y && Close(y, unit, s * GuardUnit(f))
    ensures Placed(Hidden(f), RoundEven(f, y), unit, s)
  {
    BiasBelowGroup(f, y);
    PlacedSum(Hidden(f), GuardUnit(f), y, unit, s, RoundEven(f, y), RoundingBias(f, y));
  }

  lemma BiasBelowGroup(f: Format, y: nat)
    ensures RoundingBias(f, y) < GuardUnit(f) && GuardUnit(f) >= 64 && GuardUnit(f) % 2 == 0
  {
    HalfGuard(f);
  }

  // ----- the theorems

  /** Any other word is at least as far from the sum as a result within half a unit; equally far only at a tie. */
  lemma AgainstWord(f: Format, a: nat, b: nat, r: nat, k: nat, e: nat, c: nat)
    requires Parts(f, r, ExactSum(f, a, b), k, e) && SumError(f, r, a, b) == Abs(k * Pow2(e) - Abs(ExactSum(f, a, b)))
    requires 2 * SumError(f, r, a, b) <= Pow2(e) && Normal(f, c) && c != r
    ensures SumError(f, r, a, b) <= SumError(f, c, a, b)
    ensures SumError(f, r, a, b) == SumError(f, c, a, b) ==> 2 * SumError(f, r, a, b) == Pow2(e)
  {
    var s := Abs(ExactSum(f, a, b));
    SumErrorParts(f, c, a, b);
    PlacedNearest(f.prec, k, e, s, Mantissa(f, c), Exponent(f, c));
    if Value(f, c) == Value(f, r) {
      ValueInjective(f, c, r);
    }
    OppositeIsFar(Hidden(f), k, Pow2(e), s);
    MulMonotone(1, Mantissa(f, c), Pow2(Exponent(f, c)));
  }

  lemma OppositeIsFar(h: nat, k: nat, unit: nat, s: nat)
    requires h > 0 && Placed(h, k, unit, s) && 2 * Abs(k * unit - s) <= unit
    ensures 2 * Abs(k * unit - s) <= 2 * s
  {
    MulMonotone(1, h, unit);
  }

  /**
   No normal number is nearer to the exact sum than the result unless a tie is
   lost, and when another one is as near the result is the even one.  The early
   returns lose no tie.
  */
  lemma AdditionNearest(f: Format, a: nat, b: nat, c: nat)
    requires Normal(f, a) && Normal(f, b) && SumInRange(f, a, b)
    requires ExactSum(f, a, b) != 0 && !TieLost(f, a, b)
    requires Normal(f, c) && c != SumWord(f, a, b)
    ensures var r := SumWord(f, a, b);
            SumError(f, r, a, b) <= SumError(f, c, a, b)
            && (SumError(f, r, a, b) == SumError(f, c, a, b) ==> Mantissa(f, r) % 2 == 0)
  {
    NormalIsNonzero(f, a);
    NormalIsNonzero(f, b);
    if FarAbove(f, a, b) {
      FarParts(f, a, b);
      AgainstWord(f, a, b, a, Mantissa(f, a), Exponent(f, a), c);
    } else if FarAbove(f, b, a) {
      FarParts(f, b, a);
      AgainstWord(f, b, a, b, Mantissa(f, b), Exponent(f, b), c);
    } else {
      var k, e := NearParts(f, a, b);
      SumRounds(f, a, b, e);
      AgainstWord(f, a, b, SumWord(f, a, b), k, e, c);
    }
  }

  /** With exponents less than Guard apart (at most 5, or 8) no tie is lost. */
  lemma NoTieLostWithinGuard(f: Format, a: nat, b: nat)
    requires ExponentGap(f, a, b) < Guard(f)
    ensures !TieLost(f, a, b)
  {
    if Rounds(f, a, b) {
      AlignedSumSign(f, a, b);
      var e := NormalisedSum(f, a, b).exp;
      if e >= 0 {
        NormalisedSumClose(f, a, b, e);
      }
    }
  }

  /** Bits are lost only well above the smallest exponent. */
  lemma LostHighUp(f: Format, a: nat, b: nat, e: nat)
    requires Normal(f, a) && Normal(f, b) && AlignedSum(f, a, b) != 0 && NormalisedSum(f, a, b).exp == e
    requires NormalisedSum(f, a, b).m * Pow2(e) != Abs(ExactSum(f, a, b)) * GuardUnit(f)
    ensures e >= 1
  {
    HalfGuard(f);
    TopIsWide(f);
    AlignedMagnitudeClose(f, a, b);
    NormalisedValue(f, a, b, e);
    if e == 0 {
      DoublesBack(TopExponent(f, a, b));
    }
  }

  lemma DoublesBack(t: nat)
    requires Pow2(t) <= 2
    ensures t <= 1
  {
    if t >= 2 {
      Pow2Monotone(2, t);
    }
  }

  /** A lost tie has the neighbour on the other side nearer. */
  lemma NeighbourIsNearer(f: Format, a: nat, b: nat) returns (c: nat)
    requires Normal(f, a) && Normal(f, b) && SumInRange(f, a, b) && TieLost(f, a, b)
    ensures Normal(f, c) && SumError(f, c, a, b) < SumError(f, SumWord(f, a, b), a, b)
  {
    var k, e := NearParts(f, a, b);
    SumRounds(f, a, b, e);
    var s, y, g := ExactSum(f, a, b), NormalisedSum(f, a, b).m, GuardUnit(f);
    LostHighUp(f, a, b, e);
    GroupRange(Hidden(f), g, y);
    var j := if Abs(s) * g > y * Pow2(e) then k + 1 else k - 1;
    c := PackedMultiple(f, s < 0, j, e);
    SignedDistance(s, j * Pow2(e), s < 0);
    MulDistribute(k, 1, Pow2(e));
  }

  lemma GroupRange(h: nat, g: nat, y: nat)
    requires g > 0 && h * g <= y < 2 * (h * g)
    ensures h <= y / g < 2 * h
  {
    FloorBounds(y, g);
    MulAssoc(2, h, g);
    CancelFactor(h, y / g + 1, g);
    CancelFactor(y / g, 2 * h, g);
  }

  /** The result is nearest when no normal word is nearer to the exact sum. */
  ghost predicate NearestSum(f: Format, r: nat, a: nat, b: nat) {
    forall c :: Normal(f, c) ==> SumError(f, r, a, b) <= SumError(f, c, a, b)
  }

  /**
   For normal operands, an in-range result and a sum that is not zero, no normal
   number is nearer to the exact sum than the result exactly when no tie is lost.
  */
  lemma AdditionNearestIff(f: Format, a: nat, b: nat)
    requires Normal(f, a) && Normal(f, b) && SumInRange(f, a, b) && ExactSum(f, a, b) != 0
    ensures NearestSum(f, SumWord(f, a, b), a, b) <==> !TieLost(f, a, b)
  {
    if TieLost(f, a, b) {
      var c := NeighbourIsNearer(f, a, b);
    } else {
      forall c | Normal(f, c) ensures SumError(f, SumWord(f, a, b), a, b) <= SumError(f, c, a, b) {
        if c != SumWord(f, a, b) {
          AdditionNearest(f, a, b, c);
        }
      }
    }
  }
}
