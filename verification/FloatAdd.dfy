/** `__addsf3`, `__adddf3` and the subtractions built on them: aligned addition with guard bits. */
module FloatAdd {
  import opened Powers
  import opened FloatFormat

  function GuardUnit(f: Format): nat { Pow2(Guard(f)) }

  /** Weight of the hidden bit once the guard bits are appended: 2^29 and 2^61. */
  function Top(f: Format): nat { Hidden(f) * GuardUnit(f) }

  /** The signed significand with its guard bits. */
  function Addend(f: Format, a: nat): int {
    Sgn(Negative(f, a)) * (Mantissa(f, a) * GuardUnit(f))
  }

  function Larger(x: nat, y: nat): nat {
    if x > y then x else y
  }

  /** Exponents this far apart and farther skip the addition. */
  predicate FarAbove(f: Format, a: nat, b: nat) {
    Exponent(f, a) > Exponent(f, b) + f.prec + 1
  }

  predicate Near(f: Format, a: nat, b: nat) {
    !FarAbove(f, a, b) && !FarAbove(f, b, a)
  }

  /** The operand with the smaller exponent is shifted down arithmetically, that is towards minus infinity. */
  function AlignedSum(f: Format, a: nat, b: nat): int {
    if Exponent(f, a) > Exponent(f, b)
    then Addend(f, a) + Addend(f, b) / Pow2(Exponent(f, a) - Exponent(f, b))
    else Addend(f, a) / Pow2(Exponent(f, b) - Exponent(f, a)) + Addend(f, b)
  }

  datatype Scaled = Scaled(m: nat, exp: int)

  /** The normalise-up loop and the first normalise-down step. */
  function Normalise(f: Format, x: nat, exp: int): (s: Scaled)
    requires 0 < x < 4 * Top(f)
    ensures Top(f) <= s.m < 2 * Top(f)
    decreases 4 * Top(f) - x
  {
    if x < Top(f) then Normalise(f, 2 * x, exp - 1)
    else if x >= 2 * Top(f) then Scaled(x / 2, exp + 1)
    else Scaled(x, exp)
  }

  /** Round to even: half a unit, or just below half when the last kept bit is clear. */
  function RoundingBias(f: Format, y: nat): nat {
    HalfGuard(f);
    if (y / GuardUnit(f)) % 2 == 1 then GuardUnit(f) / 2 else GuardUnit(f) / 2 - 1
  }

  function RoundEven(f: Format, y: nat): nat {
    FloorBounds(y + RoundingBias(f, y), GuardUnit(f));
    CancelFactor(-1, (y + RoundingBias(f, y)) / GuardUnit(f), GuardUnit(f));
    (y + RoundingBias(f, y)) / GuardUnit(f)
  }

  lemma HalfGuard(f: Format)
    ensures GuardUnit(f) % 2 == 0 && GuardUnit(f) >= 64
  {
    Pow2Monotone(6, Guard(f));
    assert Pow2(6) == 64;
    assert GuardUnit(f) == 2 * Pow2(Guard(f) - 1);
  }

  lemma AddendBounds(f: Format, a: nat)
    ensures Top(f) <= Abs(Addend(f, a)) < 2 * Top(f)
  {
    MulMonotone(Hidden(f), Mantissa(f, a), GuardUnit(f));
    MultiplesApart(Mantissa(f, a), 2 * Hidden(f), GuardUnit(f));
    MulAssoc(2, Hidden(f), GuardUnit(f));
  }

  /** Shifting down arithmetically does not make a number longer. */
  lemma ShiftDownBounds(x: int, d: nat, top: nat)
    requires Abs(x) < top && d > 0
    ensures Abs(x / d) < top
  {
    var q := x / d;
    FloorBounds(x, d);
    MulMonotone(1, d, top);
    MulMonotone(1, d, top - 1);
    CancelFactor(q, top, d);
    assert (1 - top) * d == d - top * d;
    CancelFactor(1 - top, q + 1, d);
  }

  lemma AlignedSumBounds(f: Format, a: nat, b: nat)
    ensures Abs(AlignedSum(f, a, b)) < 4 * Top(f)
  {
    AddendBounds(f, a);
    AddendBounds(f, b);
    if Exponent(f, a) > Exponent(f, b) {
      ShiftDownBounds(Addend(f, b), Pow2(Exponent(f, a) - Exponent(f, b)), 2 * Top(f));
    } else {
      ShiftDownBounds(Addend(f, a), Pow2(Exponent(f, b) - Exponent(f, a)), 2 * Top(f));
    }
  }

  /** The normalised sum, before rounding. */
  function NormalisedSum(f: Format, a: nat, b: nat): (s: Scaled)
    requires AlignedSum(f, a, b) != 0
    ensures Top(f) <= s.m < 2 * Top(f)
  {
    AlignedSumBounds(f, a, b);
    Normalise(f, Abs(AlignedSum(f, a, b)), Larger(Exponent(f, a), Exponent(f, b)))
  }

  /** Rounding moves by at most half a unit, to the even neighbour on a tie, and by at most one binade. */
  lemma RoundEvenBounds(f: Format, y: nat)
    requires Top(f) <= y < 2 * Top(f)
    ensures var r, g := RoundEven(f, y), GuardUnit(f);
            Hidden(f) <= r <= 2 * Hidden(f) && 2 * Abs(r * g - y) <= g && (2 * Abs(r * g - y) == g ==> r % 2 == 0)
  {
    HalfGuard(f);
    NearestEven(y, GuardUnit(f) / 2, RoundingBias(f, y));
    var r, g := RoundEven(f, y), GuardUnit(f);
    MulAssoc(2, Hidden(f), g);
    CancelFactor(Hidden(f) - 1, r, g);
    CancelFactor(r, 2 * Hidden(f) + 1, g);
    MulDistribute(Hidden(f), 1, g);
    MulDistribute(2 * Hidden(f), 1, g);
  }

  lemma NearestEven(y: nat, half: nat, bias: nat)
    requires half > 0 && bias == if (y / (2 * half)) % 2 == 1 then half else half - 1
    ensures var g := 2 * half; var r := (y + bias) / g;
            2 * Abs(r * g - y) <= g && (2 * Abs(r * g - y) == g ==> r % 2 == 0)
  {
    FloorBounds(y, 2 * half);
    NearestEvenFrom(y, half, y / (2 * half), 2 * half, bias);
  }

  lemma NearestEvenFrom(y: nat, half: nat, q: int, g: nat, bias: nat)
    requires half > 0 && g == 2 * half && q * g <= y < (q + 1) * g
    requires bias == if q % 2 == 1 then half else half - 1
    ensures var r := (y + bias) / g; 2 * Abs(r * g - y) <= g && (2 * Abs(r * g - y) == g ==> r % 2 == 0)
  {
    var base := q * g;
    assert (q + 1) * g == base + g && (q + 2) * g == base + 2 * g;
    if y + bias < base + g {
      FloorUnique(y + bias, g, q);
    } else {
      FloorUnique(y + bias, g, q + 1);
    }
  }

  function SumMantissa(f: Format, a: nat, b: nat): (m: nat)
    requires AlignedSum(f, a, b) != 0
    ensures Hidden(f) <= m < 2 * Hidden(f)
  {
    var r := RoundEven(f, NormalisedSum(f, a, b).m);
    RoundEvenBounds(f, NormalisedSum(f, a, b).m);
    if r == 2 * Hidden(f) then Hidden(f) else r
  }

  function SumExponent(f: Format, a: nat, b: nat): int
    requires AlignedSum(f, a, b) != 0
  {
    var s := NormalisedSum(f, a, b);
    s.exp + (if RoundEven(f, s.m) == 2 * Hidden(f) then 1 else 0)
  }

  function SumWord(f: Format, a: nat, b: nat): nat {
    if a == 0 then b
    else if b == 0 then a
    else if FarAbove(f, a, b) then a
    else if FarAbove(f, b, a) then b
    else if AlignedSum(f, a, b) == 0 then 0
    else Pack(f, AlignedSum(f, a, b) < 0, SumExponent(f, a, b), SumMantissa(f, a, b) - Hidden(f))
  }

  /** The operands can be swapped, bit for bit and for any two words. */
  lemma SumCommutes(f: Format, a: nat, b: nat)
    ensures SumWord(f, a, b) == SumWord(f, b, a)
  {
    SumOrder(f, a, b);
  }

  lemma SumOrder(f: Format, a: nat, b: nat)
    ensures AlignedSum(f, a, b) == AlignedSum(f, b, a)
  {
  }

  /** Second normalise-down step and the final shift, for a rounding that carried. */
  lemma CarryShift(f: Format, z: nat)
    requires z / GuardUnit(f) == 2 * Hidden(f)
    ensures z >= 2 * Top(f) && (z / 2) / GuardUnit(f) == Hidden(f)
  {
    var g := GuardUnit(f);
    FloorBounds(z, g);
    MulAssoc(2, Hidden(f), g);
    assert (2 * Hidden(f) + 1) * g == 2 * Top(f) + g;
    assert (Hidden(f) + 1) * g == Top(f) + g;
    FloorUnique(z / 2, g, Hidden(f));
  }

  lemma NoCarryShift(f: Format, z: nat)
    requires z / GuardUnit(f) < 2 * Hidden(f)
    ensures z < 2 * Top(f)
  {
    FloorBounds(z, GuardUnit(f));
    MulAssoc(2, Hidden(f), GuardUnit(f));
    MulMonotone(z / GuardUnit(f) + 1, 2 * Hidden(f), GuardUnit(f));
  }

  method Add(f: Format, a: nat, b: nat) returns (r: nat)
    requires Word(f, a) && Word(f, b)
    ensures r == SumWord(f, a, b)
  {
    if a == 0 {
      return b;
    }
    if b == 0 {
      return a;
    }
    var exp1, exp2 := Exponent(f, a), Exponent(f, b);
    if exp1 > exp2 + f.prec + 1 {
      return a;
    }
    if exp2 > exp1 + f.prec + 1 {
      return b;
    }
    var mant1, mant2 := Mantissa(f, a) * GuardUnit(f), Mantissa(f, b) * GuardUnit(f);
    if Negative(f, a) {
      mant1 := -mant1;
    }
    if Negative(f, b) {
      mant2 := -mant2;
    }
    assert mant1 == Addend(f, a) && mant2 == Addend(f, b);
    if exp1 > exp2 {
      mant2 := mant2 / Pow2(exp1 - exp2);
    } else {
      mant1 := mant1 / Pow2(exp2 - exp1);
      exp1 := exp2;
    }
    mant1 := mant1 + mant2;
    assert mant1 == AlignedSum(f, a, b);
    var sign := mant1 < 0;
    if mant1 < 0 {
      mant1 := -mant1;
    } else if mant1 == 0 {
      return 0;
    }
    AlignedSumBounds(f, a, b);
    mant1, exp1 := NormaliseUp(f, mant1, exp1);
    if mant1 >= 2 * Top(f) {
      mant1 := mant1 / 2;
      exp1 := exp1 + 1;
    }
    assert Scaled(mant1, exp1) == NormalisedSum(f, a, b);
    RoundEvenBounds(f, mant1);
    mant1 := mant1 + RoundingBias(f, mant1);
    if mant1 / GuardUnit(f) == 2 * Hidden(f) {
      CarryShift(f, mant1);
    } else {
      NoCarryShift(f, mant1);
    }
    if mant1 >= 2 * Top(f) {
      mant1 := mant1 / 2;
      exp1 := exp1 + 1;
    }
    mant1 := mant1 / GuardUnit(f);
    mant1 := mant1 - Hidden(f);
    r := Pack(f, sign, exp1, mant1);
  }

  /** The loop of the adder; it ends because the sum is not zero. */
  method NormaliseUp(f: Format, mant: nat, exp: int) returns (m: nat, e: int)
    requires 0 < mant < 4 * Top(f)
    ensures Top(f) <= m < 4 * Top(f)
    ensures Normalise(f, mant, exp) == Normalise(f, m, e)
  {
    m, e := mant, exp;
    while m < Top(f)
      invariant 0 < m < 4 * Top(f)
      invariant Normalise(f, mant, exp) == Normalise(f, m, e)
      decreases Top(f) - m
    {
      m := 2 * m;
      e := e - 1;
    }
  }
}
