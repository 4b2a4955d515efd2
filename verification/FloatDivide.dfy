/** `__divsf3` and `__divdf3`: restoring division, rounded by adding one to an extra bit. */
module FloatDivide {
  import opened Powers
  import opened FloatFormat
  import Rounding

  /** The numerator is doubled when it is the smaller one, so the quotient has prec + 1 bits. */
  function Aligned(f: Format, a: nat, b: nat): (n: nat)
    ensures Mantissa(f, b) <= n < 2 * Mantissa(f, b)
  {
    if Mantissa(f, a) < Mantissa(f, b) then 2 * Mantissa(f, a) else Mantissa(f, a)
  }

  function QuotientExponent(f: Format, a: nat, b: nat): int {
    Exponent(f, a) - Exponent(f, b) + Excess(f) + (if Mantissa(f, a) < Mantissa(f, b) then 0 else 1)
  }

  /** Rounding the prec + 1 bit quotient never carries past the hidden bit. */
  function QuotientMantissa(f: Format, a: nat, b: nat): (m: nat)
    ensures Hidden(f) <= m < 2 * Hidden(f)
  {
    QuotientBounds(Hidden(f), Aligned(f, a, b), Mantissa(f, b));
    (Aligned(f, a, b) * Pow2(f.prec) / Mantissa(f, b) + 1) / 2
  }

  function QuotientWord(f: Format, a: nat, b: nat): nat {
    Pack(f, Negative(f, a) != Negative(f, b), QuotientExponent(f, a, b), QuotientMantissa(f, a, b) - Hidden(f))
  }

  lemma QuotientBounds(h: nat, n: nat, d: nat)
    requires h <= d < 2 * h && d <= n < 2 * d
    ensures h <= (n * (2 * h) / d + 1) / 2 < 2 * h
  {
    var q := n * (2 * h) / d;
    FloorBounds(n * (2 * h), d);
    MulMonotone(d, n, 2 * h);
    CancelFactor(2 * h, q + 1, d);
    MulMonotone(n, 2 * d - 1, 2 * h);
    MulCommute(d, 2 * h);
    MulDistribute(4 * h, 1, d);
    MulDistribute(2 * d, 1, 2 * h);
    MulAssoc(2, d, 2 * h);
    MulAssoc(2, 2 * h, d);
    CancelFactor(q, 4 * h - 1, d);
  }

  /** The repeated subtraction: `result |= mask` adds a bit that is still clear. */
  method ShiftSubtract(f: Format, n: nat, d: nat) returns (result: nat)
    requires 0 < d <= n < 2 * d
    ensures result == n * Pow2(f.prec) / d
  {
    var rest := n;
    var mask := Pow2(f.prec);
    result := 0;
    ghost var unit := 2 * mask;
    ghost var multiple := 0;
    ghost var left: nat := f.prec + 1;
    while mask != 0
      invariant 0 <= rest < 2 * d
      invariant if left == 0 then mask == 0 && unit == 1 else mask == Pow2(left - 1) && unit == 2 * mask
      invariant result == multiple * unit
      invariant 2 * (n * Pow2(f.prec)) == 2 * (result * d) + rest * unit
      decreases left
    {
      BitStep(result, mask, d, rest, multiple);
      if rest >= d {
        result := result + mask;
        rest := rest - d;
        multiple := 2 * multiple + 1;
      } else {
        multiple := 2 * multiple;
      }
      rest := 2 * rest;
      unit := mask;
      mask := mask / 2;
      left := left - 1;
    }
    LastRest(n * Pow2(f.prec), d, result, rest, unit);
  }

  /** Setting one bit of the quotient, or leaving it clear, and doubling what is left of the numerator. */
  lemma BitStep(result: int, bit: int, d: int, rest: int, multiple: int)
    requires result == multiple * (2 * bit)
    ensures 2 * (result * d) + rest * (2 * bit) == 2 * ((result + bit) * d) + (2 * (rest - d)) * bit
    ensures 2 * (result * d) + rest * (2 * bit) == 2 * (result * d) + (2 * rest) * bit
    ensures result + bit == (2 * multiple + 1) * bit && result == (2 * multiple) * bit
  {
  }

  lemma LastRest(t: int, d: int, q: int, rest: int, unit: int)
    requires 0 <= rest < 2 * d && unit == 1 && 2 * t == 2 * (q * d) + rest * unit
    ensures q == t / d
  {
    assert (q + 1) * d == q * d + d;
    FloorUnique(t, d, q);
  }

  /** What both routines do once neither operand word is zero. */
  method DivideNonzero(f: Format, a: nat, b: nat) returns (r: nat)
    ensures r == QuotientWord(f, a, b)
  {
    var exp := Exponent(f, a) - Exponent(f, b) + Excess(f);
    var sign := Negative(f, a) != Negative(f, b);
    var m1, m2 := Mantissa(f, a), Mantissa(f, b);
    if m1 < m2 {
      m1 := 2 * m1;
      exp := exp - 1;
    }
    var result := ShiftSubtract(f, m1, m2);
    result := result + 1;
    exp := exp + 1;
    result := result / 2;
    assert result == QuotientMantissa(f, a, b);
    result := result - Hidden(f);
    r := Pack(f, sign, exp, result);
  }

  /** `__divsf3` returns an integer constant for a zero divisor, which the compiler converts by value. */
  datatype Quotient = Bits(word: nat) | IntegerConstant(value: nat)

  method DivSf3(a: nat, b: nat) returns (q: Quotient)
    requires Word(SINGLE, a) && Word(SINGLE, b)
    ensures b == 0 ==> q == IntegerConstant(if Negative(SINGLE, a) then 0xFFFF_FFFF else 0x7FFF_FFFF)
    ensures b != 0 ==> q == Bits(if a == 0 then 0 else QuotientWord(SINGLE, a, b))
  {
    if b == 0 {
      assert !Negative(SINGLE, 0) by { SmallQuotient(0, Hidden(SINGLE)); SmallQuotient(0, Pow2(SINGLE.expBits)); }
      q := IntegerConstant(if Negative(SINGLE, a) != Negative(SINGLE, b) then 0xFFFF_FFFF else 0x7FFF_FFFF);
    } else if a == 0 {
      q := Bits(0);
    } else {
      var r := DivideNonzero(SINGLE, a, b);
      q := Bits(r);
    }
  }

  method DivDf3(a: nat, b: nat) returns (r: nat)
    requires Word(DOUBLE, a) && Word(DOUBLE, b)
    ensures a == 0 ==> r == if b == 0 then 0x7FFF_FFFF_FFFF_FFFF else 0
    ensures a != 0 && b == 0 ==> r == Pack(DOUBLE, Negative(DOUBLE, a), 2047, 0)
    ensures a != 0 && b != 0 ==> r == QuotientWord(DOUBLE, a, b)
  {
    if a == 0 {
      r := if b == 0 then 0x7FFF_FFFF_FFFF_FFFF else 0;
    } else if b == 0 {
      r := Pack(DOUBLE, Negative(DOUBLE, a), 2047, 0);
    } else {
      r := DivideNonzero(DOUBLE, a, b);
    }
  }

  /** The rounded quotient is strictly within half a unit: with d below 2^prec no quotient is a tie. */
  lemma NoTie(h: nat, prec: nat, n: nat, d: nat)
    requires prec > 0 && h == Pow2(prec - 1) && h <= d < 2 * h && d <= n < 2 * d
    ensures Abs(2 * ((n * (2 * h) / d + 1) / 2) * d - n * (2 * h)) < d
  {
    var t := n * (2 * h);
    var q := t / d;
    FloorBounds(t, d);
    MulDistribute(q, 1, d);
    if q % 2 == 1 {
      FloorBelow(n, h, d, q);
      OddFactor(prec, q, d, n);
    }
    HalfOfFloor(q, d, t);
  }

  lemma FloorBelow(n: nat, h: nat, d: nat, q: int)
    requires d > 0 && q == n * (2 * h) / d
    ensures q >= 0
  {
    MulMonotone(0, n, 2 * h);
    FloorBounds(n * (2 * h), d);
    CancelFactor(-1, q, d);
  }

  /** Halving q + 1 leaves the remainder, or its distance to d. */
  lemma HalfOfFloor(q: int, d: nat, t: int)
    requires q * d <= t < q * d + d && (q % 2 == 1 ==> t != q * d)
    ensures Abs(2 * ((q + 1) / 2) * d - t) < d
  {
    MulDistribute(q, 1, d);
    if q % 2 == 0 {
      assert 2 * ((q + 1) / 2) == q;
    } else {
      assert 2 * ((q + 1) / 2) == q + 1;
    }
  }

  lemma OddTimesOdd(q: nat, d: nat)
    requires q % 2 == 1 && d % 2 == 1
    ensures (q * d) % 2 == 1
  {
    var k := q / 2;
    assert q == 2 * k + 1;
    assert q * d == 2 * (k * d) + d;
  }

  /** An odd number times something below 2^prec is not a multiple of 2^prec. */
  lemma {:induction false} OddFactor(prec: nat, q: nat, d: nat, n: nat)
    requires q % 2 == 1 && 0 < d < Pow2(prec)
    ensures q * d != n * Pow2(prec)
  {
    if prec > 0 {
      Regroup(n, 2, Pow2(prec - 1));
      MulAssoc(2, n, Pow2(prec - 1));
      if d % 2 == 1 {
        OddTimesOdd(q, d);
      } else {
        Regroup(q, 2, d / 2);
        MulAssoc(2, q, d / 2);
        OddFactor(prec - 1, q, d / 2, n);
      }
    }
  }

  /** Numerator and denominator over a common unit c; m1, e1 and m2, e2 are the operands, n the aligned numerator. */
  lemma CommonUnit(m1: nat, e1: nat, m2: nat, e2: nat, x: nat, p: nat, e: nat, n: nat) returns (c: nat)
    requires x > 0 && e > 0
    requires (n == m1 && e + e2 == e1 + x + 1) || (n == 2 * m1 && e + e2 == e1 + x)
    ensures c > 0
    ensures Pow2(e) * (m2 * Pow2(e2)) == 2 * c * m2
    ensures (m1 * Pow2(e1)) * Pow2(x + p) == c * (n * Pow2(p))
  {
    c := Pow2(e + e2 - 1);
    Pow2Add(e, e2);
    Regroup(Pow2(e), m2, Pow2(e2));
    Pow2Add(e1, x + p);
    Pow2Add(e1 + x, p);
    assert e1 + (x + p) == (e1 + x) + p;
    MulAssoc(m1, Pow2(e1), Pow2(x + p));
    MulAssoc(m1, Pow2(e1 + x), Pow2(p));
    assert m1 * Pow2(e1 + x) == n * c by {
      if n == 2 * m1 { MulAssoc(2, m1, c); Regroup(m1, 2, c); }
    }
    Regroup(n, c, Pow2(p));
    MulAssoc(c, n, Pow2(p));
  }

  lemma Regroup(x: int, y: int, z: int)
    ensures x * (y * z) == (x * z) * y
  {
  }

  /** The error bound of the significand, carried over to magnitudes. */
  lemma QuotientDistance(f: Format, a: nat, b: nat)
    requires InRange(f, Exponent(f, a)) && InRange(f, QuotientExponent(f, a, b))
    ensures var e, num, den := QuotientExponent(f, a, b), Magnitude(f, a) * Pow2(Excess(f) + f.prec), Magnitude(f, b);
            2 * Rounding.Distance(QuotientMantissa(f, a, b) * Pow2(e), num, den) < Pow2(e) * den
            && Hidden(f) * (Pow2(e) * den) <= num
  {
    FormatBounds(f);
    var e, n, m2, m := QuotientExponent(f, a, b), Aligned(f, a, b), Mantissa(f, b), QuotientMantissa(f, a, b);
    var c := CommonUnit(Mantissa(f, a), Exponent(f, a), m2, Exponent(f, b), Excess(f), f.prec, e, n);
    NoTie(Hidden(f), f.prec, n, m2);
    MulAssoc(m, Pow2(e), Magnitude(f, b));
    ScaledGap(c, m, m2, n * (2 * Hidden(f)));
    ScaledOrder(c, Hidden(f), m2, n);
  }

  lemma ScaledGap(c: nat, m: nat, m2: nat, t: nat)
    requires c > 0 && Abs(2 * m * m2 - t) < m2
    ensures 2 * Abs(m * (2 * c * m2) - c * t) < 2 * c * m2
  {
    var gap := 2 * m * m2 - t;
    assert m * (2 * c * m2) - c * t == c * gap;
    MulMonotone(gap, m2 - 1, c);
    MulMonotone(1 - m2, gap, c);
  }

  lemma ScaledOrder(c: nat, h: nat, m2: nat, n: nat)
    requires m2 <= n
    ensures h * (2 * c * m2) <= c * (n * (2 * h))
  {
    MulMonotone(m2, n, 2 * h * c);
  }

  /** How far a word is from the exact quotient a / b, times the (positive) magnitude of b. */
  function QuotientError(f: Format, c: nat, a: nat, b: nat): nat {
    Abs(Value(f, c) * Value(f, b) - Value(f, a) * Pow2(Excess(f) + f.prec))
  }

  /**
   Division is correctly rounded: for normal operands and a quotient whose
   exponent is in range, every other normal number is strictly farther from
   the exact quotient than the returned one.
  */
  lemma DivisionCorrectlyRounded(f: Format, a: nat, b: nat, c: nat)
    requires Normal(f, a) && Normal(f, b) && InRange(f, QuotientExponent(f, a, b))
    requires Normal(f, c) && c != QuotientWord(f, a, b)
    ensures Normal(f, QuotientWord(f, a, b))
    ensures QuotientError(f, QuotientWord(f, a, b), a, b) < QuotientError(f, c, a, b)
  {
    var r, e, m := QuotientWord(f, a, b), QuotientExponent(f, a, b), QuotientMantissa(f, a, b);
    PackedValue(f, Negative(f, a) != Negative(f, b), e, m);
    SignedError(f, r, a, b);
    SignedError(f, c, a, b);
    if Value(f, c) == Value(f, r) {
      ValueInjective(f, c, r);
    }
    MagnitudesDecide(f, a, b, Negative(f, c) == Negative(f, r), Mantissa(f, c), Exponent(f, c));
  }

  /** The nearest-number argument on magnitudes; a candidate of the wrong sign is off by at least the whole value. */
  lemma MagnitudesDecide(f: Format, a: nat, b: nat, sameSign: bool, m: nat, e: nat)
    requires InRange(f, Exponent(f, a)) && InRange(f, QuotientExponent(f, a, b))
    requires m < 2 * Hidden(f)
    ensures var r := QuotientMantissa(f, a, b) * Pow2(QuotientExponent(f, a, b));
            var num, den := Magnitude(f, a) * Pow2(Excess(f) + f.prec), Magnitude(f, b);
            if sameSign
            then m * Pow2(e) != r ==> Rounding.Distance(r, num, den) < Rounding.Distance(m * Pow2(e), num, den)
            else Rounding.Distance(r, num, den) < m * Pow2(e) * den + num
  {
    FormatBounds(f);
    var k, q := QuotientMantissa(f, a, b), QuotientExponent(f, a, b);
    var num, den := Magnitude(f, a) * Pow2(Excess(f) + f.prec), Magnitude(f, b);
    QuotientDistance(f, a, b);
    Rounding.StrictlyNearest(f.prec, k, q, num, den, m, e);
  }

  lemma SignedError(f: Format, c: nat, a: nat, b: nat)
    ensures var num, den := Magnitude(f, a) * Pow2(Excess(f) + f.prec), Magnitude(f, b);
            QuotientError(f, c, a, b) ==
              if Negative(f, c) == (Negative(f, a) != Negative(f, b)) then Rounding.Distance(Magnitude(f, c), num, den)
              else Magnitude(f, c) * den + num
  {
    SignedGap(Negative(f, c), Negative(f, b), Negative(f, a), Magnitude(f, c), Magnitude(f, b), Magnitude(f, a),
              Pow2(Excess(f) + f.prec));
  }

  lemma SignedGap(sc: bool, sb: bool, sa: bool, c: nat, den: nat, a: nat, scale: nat)
    ensures Abs((Sgn(sc) * c) * (Sgn(sb) * den) - (Sgn(sa) * a) * scale)
            == if sc == (sa != sb) then Abs(c * den - a * scale) else c * den + a * scale
  {
    SgnProduct(sc, sb, c, den);
    MulAssoc(Sgn(sa), a, scale);
  }
}
