/** Operands of both formats on which multiplication and addition miss the nearest number. */
module FloatLimits {
  import opened Powers
  import opened FloatFormat
  import opened FloatMultiply
  import opened FloatMultiplyTheorems
  import opened FloatAdd
  import opened FloatAddError
  import opened FloatAddTheorems
  import opened FloatAddNearest

  // ----- multiplication

  /** The constants of the two formats. */
  lemma SingleNumbers()
    ensures Hidden(SINGLE) == 0x80_0000 && Pow2(SINGLE.low) == 0x100 && Guard(SINGLE) == 6 && Pow2(4) == 16
  {
    assert Pow2(8) == 0x100;
    Pow2Add(8, 8);
    assert Pow2(7) == 0x80 && Pow2(16) == 0x1_0000;
    Pow2Add(16, 7);
  }

  lemma DoubleNumbers()
    ensures Hidden(DOUBLE) == 0x10_0000_0000_0000 && Pow2(DOUBLE.low) == 0x20_0000 && Guard(DOUBLE) == 9
    ensures Pow2(7) == 128
  {
    assert Pow2(10) == 0x400;
    Pow2Add(10, 11);
    Pow2Add(21, 21);
    Pow2Add(42, 10);
  }

  /** Significands whose dropped products would have carried the kept bits over a tie. */
  function FirstFactor(f: Format): nat {
    if f == SINGLE then 0x80_0805 else 0x10_0000_003F_FFFF
  }

  function SecondFactor(f: Format): nat {
    if f == SINGLE then 0x80_07FD else 0x10_0000_201F_FFFF
  }

  lemma MissedByNumbers(f: Format, a: nat, b: nat, m1: nat, m2: nat, split: nat, x: nat, half: nat)
    requires Mantissa(f, a) == m1 && Mantissa(f, b) == m2 && Pow2(f.low) == split
    requires split > 0 && PartialProducts(split, m1, m2) == x
    requires x / 4 < Hidden(f) * Pow2(Guard(f)) && Pow2(Guard(f) - 2) == half
    requires x / 4 % (2 * half) == half - 1 && m1 * m2 > 4 * (x / 4 + 1) * (split * split)
    ensures TieMissed(f, a, b) && !Upper(f, TopBits(f, a, b))
  {
    assert TopBits(f, a, b) == x / 4;
  }

  lemma SingleFactors()
    ensures PartialProducts(0x100, 0x80_0805, 0x80_07FD) == 0x4008_013F
  {
  }

  lemma DoubleFactors()
    ensures PartialProducts(0x20_0000, 0x10_0000_003F_FFFF, 0x10_0000_201F_FFFF) == 0x4000_0081_7FFF_F9FF
  {
  }

  lemma FactorsMissTie(f: Format, a: nat, b: nat)
    requires f == SINGLE || f == DOUBLE
    requires Mantissa(f, a) == FirstFactor(f) && Mantissa(f, b) == SecondFactor(f)
    ensures TieMissed(f, a, b) && !Upper(f, TopBits(f, a, b))
  {
    if f == SINGLE {
      SingleMiss(f, a, b);
    } else {
      DoubleMiss(f, a, b);
    }
  }

  lemma SingleMiss(f: Format, a: nat, b: nat)
    requires f == SINGLE && Mantissa(f, a) == 0x80_0805 && Mantissa(f, b) == 0x80_07FD
    ensures TieMissed(f, a, b) && !Upper(f, TopBits(f, a, b))
  {
    SingleNumbers();
    SingleFactors();
    assert Pow2(6) == 64;
    MissedByNumbers(f, a, b, 0x80_0805, 0x80_07FD, 0x100, 0x4008_013F, 16);
  }

  lemma DoubleMiss(f: Format, a: nat, b: nat)
    requires f == DOUBLE && Mantissa(f, a) == 0x10_0000_003F_FFFF && Mantissa(f, b) == 0x10_0000_201F_FFFF
    ensures TieMissed(f, a, b) && !Upper(f, TopBits(f, a, b))
  {
    DoubleNumbers();
    DoubleFactors();
    assert Pow2(9) == 512;
    MissedByNumbers(f, a, b, 0x10_0000_003F_FFFF, 0x10_0000_201F_FFFF, 0x20_0000, 0x4000_0081_7FFF_F9FF, 128);
  }

  lemma Operand(f: Format, m: nat, exp: nat) returns (a: nat)
    requires Hidden(f) <= m < 2 * Hidden(f) && InRange(f, exp)
    ensures Normal(f, a) && !Negative(f, a) && Exponent(f, a) == exp && Mantissa(f, a) == m
    ensures Value(f, a) == m * Pow2(exp)
  {
    FormatBounds(f);
    PackedValue(f, false, exp, m);
    a := Pack(f, false, exp, m - Hidden(f));
  }

  /** In both formats there are operands whose product another normal number approximates better. */
  lemma MultiplicationMissesNearest(f: Format) returns (a: nat, b: nat, c: nat)
    requires f == SINGLE || f == DOUBLE
    ensures Multiplies(f, a, b) && Normal(f, ProductWord(f, a, b)) && Normal(f, c)
    ensures ProductError(f, c, a, b) < ProductError(f, ProductWord(f, a, b), a, b)
  {
    FactorRange(f);
    FormatBounds(f);
    a := Operand(f, FirstFactor(f), Excess(f));
    b := Operand(f, SecondFactor(f), Excess(f));
    FactorsMissTie(f, a, b);
    MiddleExponent(f, a, b);
    c := NextIsNearer(f, a, b);
  }

  lemma MiddleExponent(f: Format, a: nat, b: nat)
    requires Normal(f, a) && Normal(f, b) && Exponent(f, a) == Excess(f) && Exponent(f, b) == Excess(f)
    ensures Multiplies(f, a, b) && Normal(f, ProductWord(f, a, b)) && !Largest(f, ProductWord(f, a, b))
  {
    FormatBounds(f);
    var e := ResultParts(f, a, b);
  }

  lemma FactorRange(f: Format)
    requires f == SINGLE || f == DOUBLE
    ensures Hidden(f) <= FirstFactor(f) < 2 * Hidden(f) && Hidden(f) <= SecondFactor(f) < 2 * Hidden(f)
  {
    if f == SINGLE {
      SingleNumbers();
    } else {
      DoubleNumbers();
    }
  }

  // ----- addition

  /** Powers the sample operands are made of. */
  lemma SamplePowers(f: Format) returns (i: nat)
    ensures Hidden(f) == 2 * GuardUnit(f) * (2 * i) && i > 0 && GuardUnit(f) >= 64 && GuardUnit(f) % 4 == 0
    ensures Hidden(f) % 4 == 0
  {
    GuardQuarter(f);
    var n := f.prec - f.expBits;
    i := Pow2(n - 1);
    Pow2Add(n, f.expBits - 1);
    MulCommute(2 * i, 2 * GuardUnit(f));
    FourTimes(f.prec - 1);
  }

  /** Aligned by exactly the guard bits, the sum carries, and the carry drops its last bit. */
  lemma SampleSum(f: Format, a: nat, b: nat)
    requires !Negative(f, a) && Exponent(f, a) == 1 + Guard(f) && Mantissa(f, a) == 2 * Hidden(f) - 1
    requires !Negative(f, b) && Exponent(f, b) == 1 && Mantissa(f, b) == Hidden(f) + 2 * GuardUnit(f) + 1
    ensures AlignedSum(f, a, b) == 2 * Top(f) + Hidden(f) + GuardUnit(f) + 1
  {
    var h, g := Hidden(f), GuardUnit(f);
    HalfGuard(f);
    MulDistribute(2 * h, 1, g);
    MulAssoc(2, h, g);
    SplitQuotient(h + 2 * g + 1, g, 0);
    assert Addend(f, b) / g == h + 2 * g + 1;
  }

  lemma SampleNormalised(f: Format, a: nat, b: nat)
    requires Exponent(f, a) == 1 + Guard(f) && Exponent(f, b) == 1
    requires AlignedSum(f, a, b) == 2 * Top(f) + Hidden(f) + GuardUnit(f) + 1
    ensures NormalisedSum(f, a, b) == Scaled(Top(f) + Hidden(f) / 2 + GuardUnit(f) / 2, 2 + Guard(f))
  {
    var i := SamplePowers(f);
    AlignedSumBounds(f, a, b);
    EvenHalf(Hidden(f));
    EvenHalf(GuardUnit(f));
    OddHalf(Top(f), Hidden(f) / 2, GuardUnit(f) / 2);
  }

  lemma EvenHalf(h: nat)
    requires h % 4 == 0
    ensures h == 2 * (h / 2)
  {
    var q := h / 4;
    FloorBounds(h, 4);
    SplitQuotient(q * 2, 2, 0);
  }

  lemma OddHalf(t: nat, x: nat, y: nat)
    ensures (2 * t + 2 * x + 2 * y + 1) / 2 == t + x + y
  {
  }

  /** The even group below the tie, and the exact sum above it. */
  lemma SampleTie(y: nat, h: nat, g: nat, i: nat)
    requires g >= 64 && g % 4 == 0 && h == 2 * g * (2 * i) && y == h * g + h / 2 + g / 2
    ensures y % g == g / 2 && y / g % 2 == 0
  {
    MulAssoc(2, g, 2 * i);
    MulCommute(g, 2 * i);
    SplitQuotient(2 * i * g, 2, 0);
    MulDistribute(h, 2 * i, g);
    SplitQuotient(h + 2 * i, g, g / 2);
    EvenGroup(h, g, i);
  }

  lemma EvenGroup(h: nat, g: nat, i: nat)
    requires h == 2 * g * (2 * i)
    ensures (h + 2 * i) % 2 == 0
  {
    MulAssoc(2, g, 2 * i);
  }

  lemma SampleExact(f: Format, a: nat, b: nat)
    requires !Negative(f, a) && Exponent(f, a) == 1 + Guard(f) && Mantissa(f, a) == 2 * Hidden(f) - 1
    requires !Negative(f, b) && Exponent(f, b) == 1 && Mantissa(f, b) == Hidden(f) + 2 * GuardUnit(f) + 1
    ensures ExactSum(f, a, b) == 2 * (2 * Top(f) + Hidden(f) + GuardUnit(f) + 1)
  {
    var h, g := Hidden(f), GuardUnit(f);
    assert Pow2(1 + Guard(f)) == 2 * g;
    MulDouble(2 * h - 1, g);
    MulDistribute(2 * h, 1, g);
    MulAssoc(2, h, g);
  }

  /** What the two sides of the comparison in `LosesTie` come to. */
  lemma SampleAbove(t: nat, h: nat, g: nat, y: nat, u: nat, s: nat)
    requires h % 4 == 0 && g % 4 == 0 && g > 0 && u == 4 * g
    requires y == t + h / 2 + g / 2 && s == 2 * (2 * t + h + g + 1)
    ensures y * u < s * g
  {
    MulAssoc(y, 4, g);
    MulMonotone(4 * y + 1, s, g);
    MulDistribute(4 * y, 1, g);
  }

  lemma SampleLosesTie(f: Format, a: nat, b: nat)
    requires a != 0 && b != 0
    requires !Negative(f, a) && Exponent(f, a) == 1 + Guard(f) && Mantissa(f, a) == 2 * Hidden(f) - 1
    requires !Negative(f, b) && Exponent(f, b) == 1 && Mantissa(f, b) == Hidden(f) + 2 * GuardUnit(f) + 1
    ensures TieLost(f, a, b) && AlignedSum(f, a, b) != 0 && NormalisedSum(f, a, b).exp == 2 + Guard(f)
  {
    var i := SamplePowers(f);
    SampleSum(f, a, b);
    SampleNormalised(f, a, b);
    SampleExact(f, a, b);
    var y, h, g := NormalisedSum(f, a, b).m, Hidden(f), GuardUnit(f);
    SampleTie(y, h, g, i);
    assert Pow2(2 + Guard(f)) == 4 * g by { Pow2Add(2, Guard(f)); }
    SampleAbove(Top(f), h, g, y, 4 * g, ExactSum(f, a, b));
    TopIsWide(f);
  }

  /**
   In every format there are operands with exponents exactly Guard apart, one
   more than `NoTieLostWithinGuard` allows, whose sum another normal number
   approximates better.
  */
  lemma AdditionMissesNearest(f: Format) returns (a: nat, b: nat, c: nat)
    ensures Normal(f, a) && Normal(f, b) && SumInRange(f, a, b) && ExponentGap(f, a, b) == Guard(f)
    ensures Normal(f, SumWord(f, a, b)) && Normal(f, c)
    ensures SumError(f, c, a, b) < SumError(f, SumWord(f, a, b), a, b)
  {
    a, b := SampleOperands(f);
    SampleLosesTie(f, a, b);
    SampleInRange(f, a, b);
    c := NeighbourIsNearer(f, a, b);
    RoundedSumValue(f, a, b);
  }

  lemma SampleOperands(f: Format) returns (a: nat, b: nat)
    ensures Normal(f, a) && Normal(f, b) && ExponentGap(f, a, b) == Guard(f) && a != 0 && b != 0
    ensures !Negative(f, a) && Exponent(f, a) == 1 + Guard(f) && Mantissa(f, a) == 2 * Hidden(f) - 1
    ensures !Negative(f, b) && Exponent(f, b) == 1 && Mantissa(f, b) == Hidden(f) + 2 * GuardUnit(f) + 1
  {
    var i := SamplePowers(f);
    LowExponents(f);
    SampleFits(Hidden(f), GuardUnit(f), i);
    a := Operand(f, 2 * Hidden(f) - 1, 1 + Guard(f));
    b := Operand(f, Hidden(f) + 2 * GuardUnit(f) + 1, 1);
    NormalIsNonzero(f, a);
    NormalIsNonzero(f, b);
  }

  lemma LowExponents(f: Format)
    ensures Guard(f) + 6 <= Pow2(f.expBits)
  {
    Exponential(f.expBits - 1);
  }

  lemma SampleInRange(f: Format, a: nat, b: nat)
    requires AlignedSum(f, a, b) != 0 && NormalisedSum(f, a, b).exp == 2 + Guard(f)
    ensures SumInRange(f, a, b)
  {
    LowExponents(f);
  }

  lemma {:induction false} Exponential(n: nat)
    ensures n < Pow2(n)
  {
    if n > 0 {
      Exponential(n - 1);
    }
  }

  lemma SampleFits(h: nat, g: nat, i: nat)
    requires h == 2 * g * (2 * i) && i > 0 && g >= 64
    ensures 2 * g + 1 < h
  {
    MulMonotone(2, 2 * i, 2 * g);
    MulCommute(2 * g, 2 * i);
  }
}
