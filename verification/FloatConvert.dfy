/**
 Conversions of `floatlib.c`: `__floatsidf`, `__floatdidf`, `__fixdfsi`,
 `__extendsfdf2` and `__truncdfsf2`.
*/
module FloatConvert {
  import opened Words
  import opened Powers
  import opened FloatFormat

  /** Doublings that bring a positive integer up to the top bit, `bits - 1`. */
  function Shifts(bits: nat, a: nat): (k: nat)
    requires bits > 0 && 0 < a < Pow2(bits)
    ensures k < bits && Pow2(bits - 1) <= a * Pow2(k) < Pow2(bits)
    decreases Pow2(bits) - a
  {
    if 2 * a >= Pow2(bits) then 0
    else
      MulDouble(a, Pow2(Shifts(bits, 2 * a)));
      ShiftsBound(bits, a, 1 + Shifts(bits, 2 * a));
      1 + Shifts(bits, 2 * a)
  }

  lemma ShiftsBound(bits: nat, a: nat, k: nat)
    requires a > 0 && a * Pow2(k) < Pow2(bits)
    ensures k < bits
  {
    MulMonotone(1, a, Pow2(k));
    if bits <= k { Pow2Monotone(bits, k); }
  }

  /** The bits of the normalised integer that fit the significand; a wider integer is cut off. */
  function Significand(f: Format, bits: nat, m: nat): nat {
    if bits <= f.prec then m * Pow2(f.prec - bits) else m / Pow2(bits - f.prec)
  }

  lemma SignificandRange(f: Format, bits: nat, m: nat)
    requires bits > 0 && Pow2(bits - 1) <= m < Pow2(bits)
    ensures Hidden(f) <= Significand(f, bits, m) < 2 * Hidden(f)
  {
    if bits <= f.prec {
      Pow2Add(bits - 1, f.prec - bits);
      MulMonotone(Pow2(bits - 1), m, Pow2(f.prec - bits));
      MultiplesApart(m, Pow2(bits), Pow2(f.prec - bits));
      Pow2Add(bits, f.prec - bits);
    } else {
      var d := Pow2(bits - f.prec);
      Pow2Add(f.prec - 1, bits - f.prec);
      Pow2Add(f.prec, bits - f.prec);
      FloorBounds(m, d);
      CancelFactor(Hidden(f), m / d + 1, d);
      CancelFactor(m / d, 2 * Hidden(f), d);
    }
  }

  /** A normalised integer that took k doublings, packed. */
  function PackInteger(f: Format, bits: nat, negative: bool, k: nat, m: nat): nat
    requires bits > 0 && Pow2(bits - 1) <= m < Pow2(bits)
  {
    SignificandRange(f, bits, m);
    Pack(f, negative, bits + Excess(f) - k, Significand(f, bits, m) - Hidden(f))
  }

  /** The word for an integer of at most `bits` bits (31 for long, 63 for INT64). */
  function FromInteger(f: Format, bits: nat, n: int): nat
    requires bits > 0 && Abs(n) < Pow2(bits)
  {
    if n == 0 then 0
    else
      var k := Shifts(bits, Abs(n));
      PackInteger(f, bits, n < 0, k, Abs(n) * Pow2(k))
  }

  /** The coarse and the fine normalising loop; doubling past the top bit never happens. */
  method NormaliseInteger(bits: nat, coarse: nat, step: nat, a: nat) returns (m: nat, k: nat)
    requires step > 0 && coarse + step < bits
    requires 0 < a < Pow2(bits)
    ensures k == Shifts(bits, a) && m == a * Pow2(k)
  {
    m, k := a, 0;
    assert Pow2(0) == 1;
    while m < Pow2(coarse)
      invariant 0 < m < Pow2(bits) && m == a * Pow2(k)
      invariant Shifts(bits, a) == k + Shifts(bits, m)
      decreases Pow2(bits) - m
    {
      CoarseStep(bits, coarse, step, a, m, k);
      m := m * Pow2(step);
      k := k + step;
    }
    while m < Pow2(bits - 1)
      invariant 0 < m < Pow2(bits) && m == a * Pow2(k)
      invariant Shifts(bits, a) == k + Shifts(bits, m)
      decreases Pow2(bits) - m
    {
      MulDouble(a, Pow2(k));
      m := 2 * m;
      k := k + 1;
    }
  }

  lemma CoarseStep(bits: nat, coarse: nat, step: nat, a: nat, m: nat, k: nat)
    requires step > 0 && coarse + step < bits && 0 < m < Pow2(coarse) && m == a * Pow2(k)
    ensures m < m * Pow2(step) < Pow2(bits) && m < Pow2(bits) && m * Pow2(step) == a * Pow2(k + step)
    ensures Shifts(bits, m) == step + Shifts(bits, m * Pow2(step))
  {
    Pow2Monotone(1, step);
    MulMonotone(2, Pow2(step), m);
    Pow2Monotone(coarse, bits);
    Pow2Add(coarse, step);
    MultiplesApart(m, Pow2(coarse), Pow2(step));
    Pow2Monotone(coarse + step, bits);
    Pow2Add(k, step);
    MulAssoc(a, Pow2(k), Pow2(step));
    ShiftsAdd(bits, m, step);
  }

  lemma {:induction false} ShiftsAdd(bits: nat, m: nat, j: nat)
    requires 0 < m && m * Pow2(j) < Pow2(bits)
    ensures bits > 0 && m < Pow2(bits) && 0 < m * Pow2(j) && Shifts(bits, m) == j + Shifts(bits, m * Pow2(j))
    decreases j
  {
    MulMonotone(1, Pow2(j), m);
    MulMonotone(1, m, Pow2(j));
    if j > 0 {
      MulDouble(m, Pow2(j - 1));
      MulMonotone(1, Pow2(j - 1), 2 * m);
      ShiftsAdd(bits, 2 * m, j - 1);
    } else {
      assert m * Pow2(0) == m;
    }
  }

  /** HIDDEND, in the upper word of a double. */
  const HIDDEND := 0x10_0000

  lemma DoubleConstants()
    ensures Hidden(DOUBLE) == HIDDEND * WORD && Pow2(DOUBLE.expBits) == 0x800 && Pow2(31) * 2 == WORD
  {
    assert Pow2(16) == 0x1_0000;
    Pow2Add(16, 16);
    Pow2Add(16, 4);
    Pow2Add(20, 32);
    assert Pow2(32) == WORD && Pow2(20) == HIDDEND;
    assert Pow2(11) == 0x800;
  }

  /** `__floatsidf`, up to the two halves it stores; -2^31 is not an input because the loops never end on it. */
  method FloatSiDf(n: int) returns (upper: nat, lower: nat)
    requires Abs(n) < Pow2(31)
    ensures upper < WORD && lower < WORD && upper * WORD + lower == FromInteger(DOUBLE, 31, n)
  {
    DoubleConstants();
    if n == 0 {
      return 0, 0;
    }
    var sign := if n < 0 then 0x8000_0000 else 0;
    var a := if n < 0 then -n else n;
    var m, k := NormaliseInteger(31, 24, 4, a);
    var exp := 31 + Excess(DOUBLE) - k;
    SignificandRange(DOUBLE, 31, m);
    IntegerExponent(31, k);
    IntegerHalves(m, n < 0, exp);
    upper := sign + exp * HIDDEND + (m / 0x400 - HIDDEND);
    lower := m * 0x40_0000 % WORD;
  }

  lemma IntegerExponent(bits: nat, k: nat)
    requires k < bits <= 64
    ensures 1022 < bits + Excess(DOUBLE) - k < 1100
  {
    assert Pow2(10) == 1024;
  }

  /** The two stored halves make up the packed word. */
  lemma IntegerHalves(m: nat, negative: bool, exp: nat)
    requires Pow2(30) <= m < Pow2(31) && exp < 0x800
    ensures m / 0x400 >= HIDDEND
    ensures var upper := (if negative then 0x8000_0000 else 0) + exp * HIDDEND + (m / 0x400 - HIDDEND);
            var lower := m * 0x40_0000 % WORD;
            upper < WORD && Significand(DOUBLE, 31, m) >= Hidden(DOUBLE)
            && upper * WORD + lower == Pack(DOUBLE, negative, exp, Significand(DOUBLE, 31, m) - Hidden(DOUBLE))
  {
    DoubleConstants();
    assert Pow2(31) == 2 * Pow2(30);
    assert Pow2(22) == 0x40_0000;
    SignificandRange(DOUBLE, 31, m);
    PackInField(DOUBLE, negative, exp, Significand(DOUBLE, 31, m) - Hidden(DOUBLE));
    SplitQuotient(m / 0x400, WORD, (m % 0x400) * 0x40_0000);
    assert m * 0x40_0000 == (m / 0x400) * WORD + (m % 0x400) * 0x40_0000;
  }

  /** `__floatdidf`; the 64-bit word is assembled in one piece and the low ten bits of the integer are cut off. */
  method FloatDiDf(n: int) returns (word: nat)
    requires Abs(n) < Pow2(63)
    ensures word == FromInteger(DOUBLE, 63, n)
  {
    if n == 0 {
      return 0;
    }
    var a := if n < 0 then -n else n;
    var m, k := NormaliseInteger(63, 54, 8, a);
    word := AssembleWide(m, n < 0, k);
  }

  method AssembleWide(m: nat, negative: bool, k: nat) returns (word: nat)
    requires Pow2(62) <= m < Pow2(63) && k < 63
    ensures word == PackInteger(DOUBLE, 63, negative, k, m)
  {
    var exp := 63 + Excess(DOUBLE) - k;
    IntegerExponent(63, k);
    WideWord(m, negative, exp);
    PackIntegerParts(DOUBLE, 63, negative, k, m, exp);
    word := ((if negative then 0x800 else 0) + exp) * Hidden(DOUBLE) + (m / 0x400 - Hidden(DOUBLE));
  }

  lemma PackIntegerParts(f: Format, bits: nat, negative: bool, k: nat, m: nat, exp: int)
    requires bits > 0 && Pow2(bits - 1) <= m < Pow2(bits) && exp == bits + Excess(f) - k
    ensures Significand(f, bits, m) >= Hidden(f)
    ensures PackInteger(f, bits, negative, k, m) == Pack(f, negative, exp, Significand(f, bits, m) - Hidden(f))
  {
    SignificandRange(f, bits, m);
  }

  /** The word as assembled is the packed word. */
  lemma WideWord(m: nat, negative: bool, exp: nat)
    requires Pow2(62) <= m < Pow2(63) && exp < 0x800
    ensures m / 0x400 == Significand(DOUBLE, 63, m) >= Hidden(DOUBLE)
    ensures ((if negative then 0x800 else 0) + exp) * Hidden(DOUBLE) + (m / 0x400 - Hidden(DOUBLE))
         == Pack(DOUBLE, negative, exp, Significand(DOUBLE, 63, m) - Hidden(DOUBLE))
  {
    SignificandRange(DOUBLE, 63, m);
    assert Pow2(10) == 0x400;
    assert Pow2(11) == 0x800;
    PackInField(DOUBLE, negative, exp, Significand(DOUBLE, 63, m) - Hidden(DOUBLE));
  }

  /** m * 2^(bits + excess - k), cut to the significand, in the common unit 2^(excess + prec - k). */
  lemma IntegerValue(prec: nat, bits: nat, a: nat, k: nat, x: nat, s: nat)
    requires k < bits && k <= x
    requires s == if bits <= prec then a * Pow2(k) * Pow2(prec - bits) else a * Pow2(k) / Pow2(bits - prec)
    ensures s * Pow2(bits + x - k) <= a * Pow2(x + prec) < s * Pow2(bits + x - k) + Pow2(bits + x - k)
    ensures bits <= prec || (a < Pow2(prec) && Pow2(bits - 1) <= a * Pow2(k)) ==>
            s * Pow2(bits + x - k) == a * Pow2(x + prec)
  {
    var m := a * Pow2(k);
    if bits <= prec {
      Pow2Add(prec - bits, bits + x - k);
      Pow2Add(k, prec + x - k);
      MulAssoc(m, Pow2(prec - bits), Pow2(bits + x - k));
      MulAssoc(a, Pow2(k), Pow2(prec + x - k));
    } else {
      WideInteger(prec, bits, a, k, x, s);
    }
  }

  lemma WideInteger(prec: nat, bits: nat, a: nat, k: nat, x: nat, s: nat)
    requires prec < bits && k <= x && s == a * Pow2(k) / Pow2(bits - prec)
    ensures s * Pow2(bits + x - k) <= a * Pow2(x + prec) < s * Pow2(bits + x - k) + Pow2(bits + x - k)
    ensures a < Pow2(prec) && Pow2(bits - 1) <= a * Pow2(k) ==> s * Pow2(bits + x - k) == a * Pow2(x + prec)
  {
    var m, d, u := a * Pow2(k), Pow2(bits - prec), Pow2(prec + x - k);
    Pow2Add(bits - prec, prec + x - k);
    Pow2Add(k, prec + x - k);
    MulAssoc(a, Pow2(k), u);
    ScaledFloor(m, d, s, u);
    if a < Pow2(prec) && Pow2(bits - 1) <= m {
      EnoughShifts(prec, bits, a, k);
      NothingCut(a, k, bits - prec);
    }
  }

  /** A floor, its remainder and its divisor on a larger scale. */
  lemma ScaledFloor(m: nat, d: nat, s: nat, u: nat)
    requires d > 0 && u > 0 && s == m / d
    ensures s * (d * u) <= m * u < s * (d * u) + d * u
    ensures m == s * d ==> s * (d * u) == m * u
  {
    MulAssoc(s, d, u);
    FloorBounds(m, d);
    MulMonotone(s * d, m, u);
    MulDistribute(s, 1, d);
    MulDistribute(s * d, d, u);
    MultiplesApart(m, s * d + d, u);
  }

  lemma NothingCut(a: nat, k: nat, c: nat)
    requires c <= k
    ensures a * Pow2(k) == a * Pow2(k) / Pow2(c) * Pow2(c)
  {
    Pow2Add(k - c, c);
    MulAssoc(a, Pow2(k - c), Pow2(c));
    SplitQuotient(a * Pow2(k - c), Pow2(c), 0);
  }

  lemma EnoughShifts(prec: nat, bits: nat, a: nat, k: nat)
    requires prec < bits && a < Pow2(prec) && Pow2(bits - 1) <= a * Pow2(k)
    ensures k >= bits - prec
  {
    Pow2Add(prec, k);
    MultiplesApart(a, Pow2(prec), Pow2(k));
    if prec + k <= bits - 1 { Pow2Monotone(prec + k, bits - 1); }
  }

  /** The scale of `Value`: a word stands for Value / Scale. */
  function Scale(f: Format): nat {
    FormatBounds(f);
    Pow2(Excess(f) + f.prec)
  }

  /**
   An integer of up to 31 (or 63) bits is converted with its sign, never away
   from zero, with an error below one unit in the last place, and exactly when
   it has at most `prec` bits.
  */
  lemma FromIntegerValue(f: Format, bits: nat, n: int)
    requires 0 < bits <= 64 && 0 < Abs(n) < Pow2(bits)
    ensures var w := FromInteger(f, bits, n);
            Normal(f, w) && Negative(f, w) == (n < 0)
            && Magnitude(f, w) <= Abs(n) * Scale(f) < Magnitude(f, w) + Pow2(Exponent(f, w))
            && (bits <= f.prec || Abs(n) < Pow2(f.prec) ==> Value(f, w) == n * Scale(f))
            && Exponent(f, w) == bits + Excess(f) - Shifts(bits, Abs(n))
  {
    FormatBounds(f);
    var a := Abs(n);
    var k := Shifts(bits, a);
    SignificandRange(f, bits, a * Pow2(k));
    var s := Significand(f, bits, a * Pow2(k));
    PackedValue(f, n < 0, bits + Excess(f) - k, s);
    IntegerValue(f.prec, bits, a, k, Excess(f), s);
    MulAssoc(Sgn(n < 0), a, Scale(f));
  }

  /** An integer of at most `prec` bits, 0 included, becomes the word for exactly that number. */
  lemma IntegerNumber(f: Format, bits: nat, n: int)
    requires 0 < bits <= 64 && Abs(n) < Pow2(bits) && (bits <= f.prec || Abs(n) < Pow2(f.prec))
    ensures Numeric(f, FromInteger(f, bits, n)) && Number(f, FromInteger(f, bits, n)) == n * Scale(f)
  {
    if n != 0 {
      FromIntegerValue(f, bits, n);
      NormalIsNonzero(f, FromInteger(f, bits, n));
    }
  }

  function Signed(negative: bool, x: int): int {
    if negative then -x else x
  }

  /** The value of a word, cut to an integer towards zero. */
  function Truncated(f: Format, w: nat): int {
    Signed(Negative(f, w), Magnitude(f, w) / Scale(f))
  }

  /** Truncation into the range of a 32-bit long. */
  function Clamp(n: int): int {
    if n > 0x7FFF_FFFF then 0x7FFF_FFFF else if n < -0x8000_0000 then -0x8000_0000 else n
  }

  /** `__fixdfsi` (the library has it for DOUBLE): MANTD is the top 31 bits of the significand. */
  function FixToLong(f: Format, w: nat): int
    requires f.prec > 31
  {
    if w == 0 then 0
    else
      FixParts(Negative(f, w), Exponent(f, w) - Excess(f) - 31, Mantissa(f, w) / Pow2(f.prec - 31))
  }

  /** `__fixdfsi` on sign, shift and MANTD. */
  function FixParts(negative: bool, exp: int, l: int): int {
    if exp > 0 then (if negative then -0x8000_0000 else 0x7FFF_FFFF)
    else if exp < 0 && exp > -32 && l != 0 then Signed(negative, l / Pow2(-exp))
    else 0
  }

  /** MANTD as the code cuts it from the two halves of a double. */
  function Mantd(upper: nat, lower: nat): nat {
    (upper % HIDDEND + HIDDEND) * 0x400 + lower / 0x40_0000
  }

  lemma MantdIsTop(upper: nat, lower: nat)
    requires upper < WORD && lower < WORD
    ensures Mantd(upper, lower) == Mantissa(DOUBLE, upper * WORD + lower) / Pow2(DOUBLE.prec - 31)
  {
    DoubleConstants();
    assert Pow2(22) == 0x40_0000;
    var w := upper * WORD + lower;
    assert w == (upper / HIDDEND) * (HIDDEND * WORD) + (upper % HIDDEND) * WORD + lower;
    SplitQuotient(upper / HIDDEND, HIDDEND * WORD, (upper % HIDDEND) * WORD + lower);
  }

  lemma NestedFloor(m: nat, c: nat, d: nat)
    requires c > 0 && d > 0
    ensures c * d > 0 && m / (c * d) == m / c / d
  {
    MulMonotone(1, c, d);
    var q := m / c / d;
    FloorBounds(m, c);
    FloorBounds(m / c, d);
    MulMonotone(q * d, m / c, c);
    MulMonotone(m / c + 1, (q + 1) * d, c);
    MulAssoc(q, d, c);
    MulAssoc(q + 1, d, c);
    MulCommute(d, c);
    FloorUnique(m, c * d, q);
  }

  /** A magnitude over the scale is the significand shifted down. */
  lemma ShiftedDown(m: nat, e: nat, t: nat)
    requires e <= t
    ensures m * Pow2(e) / Pow2(t) == m / Pow2(t - e)
  {
    Pow2Add(t - e, e);
    NestedFloor(m * Pow2(e), Pow2(e), Pow2(t - e));
    MulCommute(Pow2(e), Pow2(t - e));
    SplitQuotient(m, Pow2(e), 0);
  }

  lemma LargeMagnitude(h: nat, m: nat, e: nat, t: nat, prec: nat)
    requires prec >= 32 && h == Pow2(prec - 1) && h <= m && e + prec >= t + 32
    ensures m * Pow2(e) / Pow2(t) >= Pow2(31)
  {
    Pow2Add(prec - 1, e);
    MulMonotone(h, m, Pow2(e));
    Pow2Monotone(t + 31, prec - 1 + e);
    Pow2Add(31, t);
    FloorBounds(m * Pow2(e), Pow2(t));
    CancelFactor(Pow2(31), m * Pow2(e) / Pow2(t) + 1, Pow2(t));
  }

  lemma TopBitsOfMantissa(f: Format, m: nat)
    requires f.prec > 31 && Hidden(f) <= m < 2 * Hidden(f)
    ensures Pow2(30) <= m / Pow2(f.prec - 31) < Pow2(31)
  {
    Pow2Add(30, f.prec - 31);
    Pow2Add(31, f.prec - 31);
    FloorBounds(m, Pow2(f.prec - 31));
    CancelFactor(Pow2(30), m / Pow2(f.prec - 31) + 1, Pow2(f.prec - 31));
    CancelFactor(m / Pow2(f.prec - 31), Pow2(31), Pow2(f.prec - 31));
  }

  /** Magnitude of the truncated value, by the exponent the routine tests. */
  lemma TruncatedMagnitude(f: Format, w: nat)
    requires f.prec > 31
    ensures var exp, l, t := Exponent(f, w) - Excess(f) - 31, Mantissa(f, w) / Pow2(f.prec - 31),
            Magnitude(f, w) / Scale(f);
            if exp > 0 then t >= Pow2(31)
            else t == l / Pow2(-exp) && (exp == 0 ==> t > 0) && (exp <= -32 ==> t == 0) && t < Pow2(31)
  {
    FormatBounds(f);
    var m, e, x := Mantissa(f, w), Exponent(f, w), Excess(f);
    var exp, l := e - x - 31, m / Pow2(f.prec - 31);
    TopBitsOfMantissa(f, m);
    if exp > 0 {
      LargeMagnitude(Hidden(f), m, e, x + f.prec, f.prec);
    } else {
      ShiftedDown(m, e, x + f.prec);
      Pow2Add(f.prec - 31, -exp);
      NestedFloor(m, Pow2(f.prec - 31), Pow2(-exp));
      SmallAfterShift(l, -exp);
    }
  }

  lemma SmallAfterShift(l: nat, j: nat)
    requires Pow2(30) <= l < Pow2(31)
    ensures 0 <= l / Pow2(j) < Pow2(31)
    ensures j == 0 ==> l / Pow2(j) > 0
    ensures j >= 32 ==> l / Pow2(j) == 0
  {
    QuotientBelow(l, Pow2(31), Pow2(j));
    if j == 0 {
      SplitQuotient(l, 1, 0);
    }
    if j >= 32 {
      Pow2Monotone(31, j);
      SmallQuotient(l, Pow2(j));
    }
  }

  lemma QuotientBelow(l: nat, top: nat, d: nat)
    requires d > 0 && l < top
    ensures 0 <= l / d < top
  {
    FloorBounds(l, d);
    CancelFactor(-1, l / d, d);
    MulMonotone(1, d, top);
    MulCommute(d, top);
    CancelFactor(l / d, top, d);
  }

  /**
   `__fixdfsi` truncates towards zero and saturates for every normal number,
   except exactly when its exponent is the one it does not shift for: there,
   that is for magnitudes from 2^30 up to 2^31, it returns 0.
  */
  lemma FixTruncates(f: Format, w: nat)
    requires f.prec > 31 && Normal(f, w)
    ensures FixToLong(f, w) == Clamp(Truncated(f, w)) <==> Exponent(f, w) != Excess(f) + 31
    ensures Exponent(f, w) == Excess(f) + 31 ==> FixToLong(f, w) == 0
  {
    LongMax();
    NormalIsNonzero(f, w);
    TruncatedMagnitude(f, w);
    TopBitsOfMantissa(f, Mantissa(f, w));
    var exp, l := Exponent(f, w) - Excess(f) - 31, Mantissa(f, w) / Pow2(f.prec - 31);
    FixPartsTruncate(Negative(f, w), exp, l, Magnitude(f, w) / Scale(f));
  }

  lemma FixPartsTruncate(negative: bool, exp: int, l: nat, t: int)
    requires l > 0
    requires if exp > 0 then t >= 0x8000_0000
             else t == l / Pow2(-exp) && (exp == 0 ==> t > 0) && (exp <= -32 ==> t == 0) && t < 0x8000_0000
    ensures FixParts(negative, exp, l) == Clamp(Signed(negative, t)) <==> exp != 0
    ensures exp == 0 ==> FixParts(negative, exp, l) == 0
  {
    if exp < 0 {
      FloorBounds(l, Pow2(-exp));
      CancelFactor(-1, l / Pow2(-exp), Pow2(-exp));
    }
  }

  lemma LongMax()
    ensures Pow2(31) == 0x8000_0000 && Pow2(30) == 0x4000_0000
  {
    assert Pow2(10) == 0x400;
    Pow2Add(10, 10);
    Pow2Add(20, 10);
    assert Pow2(31) == 2 * Pow2(30);
  }

  /** Converting to double and back gives the integer exactly when its magnitude is below 2^30, and 0 otherwise. */
  lemma IntegerRoundTrip(f: Format, n: int)
    requires f.prec > 31 && Abs(n) < Pow2(31)
    ensures FixToLong(f, FromInteger(f, 31, n)) == if Abs(n) < Pow2(30) then n else 0
  {
    if n != 0 {
      var w := FromInteger(f, 31, n);
      FromIntegerValue(f, 31, n);
      TopShift(31, Abs(n));
      FixTruncates(f, w);
      ExactTruncation(f, w, n);
      LongMax();
    }
  }

  lemma ExactTruncation(f: Format, w: nat, n: int)
    requires Value(f, w) == n * Scale(f) && Negative(f, w) == (n < 0)
    ensures Truncated(f, w) == n
  {
    MulAssoc(Sgn(n < 0), Abs(n), Scale(f));
    assert Magnitude(f, w) == Abs(n) * Scale(f);
    SplitQuotient(Abs(n), Scale(f), 0);
  }

  lemma TopShift(bits: nat, a: nat)
    requires bits > 0 && 0 < a < Pow2(bits)
    ensures Shifts(bits, a) == 0 <==> a >= Pow2(bits - 1)
  {
  }

  /** The longer format has room for the exponents and fractions of the shorter one. */
  predicate Widens(s: Format, d: Format) {
    s.prec + 2 <= d.prec && Excess(s) <= Excess(d) && s.expBits <= d.expBits
  }

  /** `__extendsfdf2` (SINGLE to DOUBLE): exponent rebased, fraction moved to the top of the longer one. */
  function Extend(s: Format, d: Format, w: nat): nat
    requires Widens(s, d)
  {
    if w == 0 then 0
    else
      Pack(d, Negative(s, w), Exponent(s, w) - Excess(s) + Excess(d),
           (Mantissa(s, w) - Hidden(s)) * Pow2(d.prec - s.prec))
  }

  /** Significand of `__truncdfsf2`: one bit more than fits is kept, one is added, and the sum is halved. */
  function HalfUp(s: Format, d: Format, w: nat): int
    requires Widens(s, d)
  {
    (Mantissa(d, w) / Pow2(d.prec - s.prec - 1) + 1) / 2
  }

  /**
   `__truncdfsf2` (DOUBLE to SINGLE).  A carry to 2^24 escapes the overflow mask
   0xFE000000, and packing then ORs it into the exponent field.
  */
  function Truncate(s: Format, d: Format, w: nat): nat
    requires Widens(s, d)
  {
    if w == 0 then 0
    else
      var exp := Exponent(d, w) - Excess(d) + Excess(s);
      var m := HalfUp(s, d, w);
      HalfUpRange(s, d, w);
      if m == 2 * Hidden(s) then Pack(s, Negative(d, w), if (exp / 2) % 2 == 1 then exp else exp + 2, 0)
      else Pack(s, Negative(d, w), exp, m - Hidden(s))
  }

  lemma HalfUpRange(s: Format, d: Format, w: nat)
    requires Widens(s, d)
    ensures Hidden(s) <= HalfUp(s, d, w) <= 2 * Hidden(s)
    ensures HalfUp(s, d, w) == 2 * Hidden(s) <==> Mantissa(d, w) / Pow2(d.prec - s.prec - 1) == 4 * Hidden(s) - 1
  {
    var m, c := Mantissa(d, w), Pow2(d.prec - s.prec - 1);
    Pow2Add(s.prec, d.prec - s.prec - 1);
    Pow2Add(s.prec + 1, d.prec - s.prec - 1);
    HalfRange(m, c, Hidden(s));
  }

  lemma HalfRange(m: nat, c: nat, h: nat)
    requires c > 0 && 2 * h * c <= m < 4 * h * c
    ensures h <= (m / c + 1) / 2 <= 2 * h && ((m / c + 1) / 2 == 2 * h <==> m / c == 4 * h - 1)
  {
    FloorBounds(m, c);
    CancelFactor(2 * h, m / c + 1, c);
    CancelFactor(m / c, 4 * h, c);
  }

  /** The two halves `__extendsfdf2` stores make up the packed double. */
  lemma ExtendHalves(w: nat)
    requires Word(SINGLE, w) && w != 0
    ensures Widens(SINGLE, DOUBLE)
    ensures var exp, m := Exponent(SINGLE, w) - Excess(SINGLE) + Excess(DOUBLE), Mantissa(SINGLE, w);
            var upper := (if Negative(SINGLE, w) then 0x8000_0000 else 0) + exp * HIDDEND + (m - 0x80_0000) / 8;
            var lower := m * 0x2000_0000 % WORD;
            upper * WORD + lower == Extend(SINGLE, DOUBLE, w)
  {
    SingleConstants();
    DoubleConstants();
    var exp, m := Exponent(SINGLE, w) - Excess(SINGLE) + Excess(DOUBLE), Mantissa(SINGLE, w);
    PackInField(DOUBLE, Negative(SINGLE, w), exp, (m - 0x80_0000) * 0x2000_0000);
    SplitQuotient(m / 8, WORD, (m % 8) * 0x2000_0000);
  }

  lemma SingleConstants()
    ensures Hidden(SINGLE) == 0x80_0000 && Pow2(SINGLE.expBits) == 0x100 && Excess(SINGLE) == 126
            && Excess(DOUBLE) == 1022
    ensures Pow2(DOUBLE.prec - SINGLE.prec) == 0x2000_0000
  {
    assert Pow2(8) == 0x100 && Pow2(7) == 0x80 && Pow2(10) == 0x400;
    Pow2Add(8, 8);
    Pow2Add(16, 7);
    Pow2Add(16, 13);
    assert Pow2(13) == 0x2000;
  }

  /** Widening is exact: the same number, and a normal one. */
  lemma ExtendExact(s: Format, d: Format, w: nat)
    requires Widens(s, d) && Normal(s, w)
    ensures var r := Extend(s, d, w);
            Normal(d, r) && Magnitude(d, r) * Scale(s) == Magnitude(s, w) * Scale(d)
            && Negative(d, r) == Negative(s, w) && Exponent(d, r) == Exponent(s, w) - Excess(s) + Excess(d)
            && Mantissa(d, r) == Mantissa(s, w) * Pow2(d.prec - s.prec)
  {
    FormatBounds(s);
    FormatBounds(d);
    NormalIsNonzero(s, w);
    var e, m, k := Exponent(s, w) - Excess(s) + Excess(d), Mantissa(s, w), d.prec - s.prec;
    Pow2Add(s.prec - 1, k);
    WidenedSignificand(Hidden(s), m, Pow2(k));
    PackedValue(d, Negative(s, w), e, m * Pow2(k));
    GatherTwice(m, k, e, Excess(s) + s.prec);
    GatherScale(m, Exponent(s, w), Excess(d) + d.prec);
  }

  lemma WidenedSignificand(h: nat, m: nat, p: nat)
    requires h <= m < 2 * h && p > 0
    ensures h * p <= m * p < 2 * (h * p) && (m - h) * p == m * p - h * p
  {
    MulDistribute(m, h, p);
    MultiplesApart(m, 2 * h, p);
    MulMonotone(h, m, p);
    MulDouble(h, p);
  }

  lemma GatherTwice(m: int, k: nat, e: nat, x: nat)
    ensures m * Pow2(k) * Pow2(e) * Pow2(x) == m * Pow2(k + e + x)
  {
    GatherScale(m, k, e);
    GatherScale(m, k + e, x);
  }

  lemma GatherScale(m: int, e: nat, x: nat)
    ensures m * Pow2(e) * Pow2(x) == m * Pow2(e + x)
  {
    Pow2Add(e, x);
    MulAssoc(m, Pow2(e), Pow2(x));
  }

  /** Widening keeps the number a word stands for, 0 included. */
  lemma WideningKeepsNumber(s: Format, d: Format, w: nat)
    requires Widens(s, d) && Numeric(s, w)
    ensures var r := Extend(s, d, w); Numeric(d, r) && Number(d, r) * Scale(s) == Number(s, w) * Scale(d)
  {
    if w != 0 {
      ExtendExact(s, d, w);
      NormalIsNonzero(d, Extend(s, d, w));
      MulAssoc(Sgn(Negative(s, w)), Magnitude(s, w), Scale(d));
      MulAssoc(Sgn(Negative(s, w)), Magnitude(d, Extend(s, d, w)), Scale(s));
    }
  }

  /** Narrowing a widened number gives back every bit. */
  lemma ExtendTruncateRoundTrip(s: Format, d: Format, w: nat)
    requires Widens(s, d) && Numeric(s, w)
    ensures Truncate(s, d, Extend(s, d, w)) == w
  {
    if w != 0 {
      NormalRoundTrip(s, d, w);
    }
  }

  lemma NormalRoundTrip(s: Format, d: Format, w: nat)
    requires Widens(s, d) && Normal(s, w)
    ensures Truncate(s, d, Extend(s, d, w)) == w
  {
    ExtendExact(s, d, w);
    NormalIsNonzero(d, Extend(s, d, w));
    var m, k := Mantissa(s, w), d.prec - s.prec;
    MulDouble(m, Pow2(k - 1));
    SplitQuotient(2 * m, Pow2(k - 1), 0);
    FieldsDetermine(s, w);
  }

  /** The exponent `__truncdfsf2` rebases to. */
  function NarrowExponent(s: Format, d: Format, w: nat): int {
    Exponent(d, w) - Excess(d) + Excess(s)
  }

  /** How far the narrowed number is from the original, times the two scales. */
  function TruncateError(s: Format, d: Format, w: nat): nat
    requires Widens(s, d)
  {
    Abs(Magnitude(s, Truncate(s, d, w)) * Scale(d) - Magnitude(d, w) * Scale(s))
  }

  /** Half-up rounding of m by c + 1 bits is within half a unit; a lost carry is off by many. */
  lemma HalfUpGap(m: nat, c: nat, h: nat)
    requires c > 0 && h >= 2 && 2 * h * c <= m < 4 * h * c
    ensures var t := m / c; 2 * Abs((t + 1) / 2 * (2 * c) - m) <= 2 * c
    ensures m / c == 4 * h - 1 ==> 2 * Abs(h * (2 * c) - m) > 2 * c && 2 * Abs(4 * h * (2 * c) - m) > 2 * c
  {
    var t := m / c;
    FloorBounds(m, c);
    MulDistribute(t, 1, c);
    var k := (t + 1) / 2;
    MulDouble(k, c);
    if t % 2 == 0 {
      assert 2 * k == t;
    } else {
      assert 2 * k == t + 1;
    }
    if t == 4 * h - 1 {
      MulDouble(h, c);
      MulDouble(4 * h, c);
      MulMonotone(2, h, c);
      MulDistribute(4 * h, 1, c);
      MulAssoc(4, h, c);
    }
  }

  /** A significand k packed at the narrowed exponent, against the original, over a common factor. */
  lemma NarrowedGap(m: nat, e: nat, xs: nat, k: nat, x: nat, xd: nat, c: nat) returns (u: nat)
    requires x + xd == e + xs + c
    ensures u > 0
    ensures Abs(k * Pow2(x) * Pow2(xd) - m * Pow2(e) * Pow2(xs)) == u * Abs(k * Pow2(c) - m)
    ensures Pow2(x) * Pow2(xd) == u * Pow2(c)
  {
    u := Pow2(e + xs);
    GatherScale(k, x, xd);
    GatherScale(m, e, xs);
    Pow2Add(x, xd);
    Pow2Add(c, e + xs);
    CommonUnit(k, m, Pow2(c), u, k * Pow2(x) * Pow2(xd), m * Pow2(e) * Pow2(xs));
    MulCommute(u, Pow2(c));
  }

  lemma CommonUnit(k: int, m: int, p: nat, u: nat, kx: int, me: int)
    requires kx == k * (p * u) && me == m * u
    ensures Abs(kx - me) == u * Abs(k * p - m)
  {
    MulAssoc(k, p, u);
    MulCommute(k * p, u);
    MulCommute(m, u);
    FactorOut(u, k * p, m);
  }

  /**
   Narrowing keeps the sign, and rounds to within half a unit in the last place
   exactly when the top prec + 1 bits of the significand are not all ones.
  */
  lemma TruncateRoundsUnlessCarry(s: Format, d: Format, w: nat)
    requires Widens(s, d) && Normal(d, w) && InRange(s, NarrowExponent(s, d, w))
    ensures 2 * TruncateError(s, d, w) <= Pow2(NarrowExponent(s, d, w)) * Scale(d)
            <==> Mantissa(d, w) / Pow2(d.prec - s.prec - 1) != 4 * Hidden(s) - 1
    ensures Negative(s, Truncate(s, d, w)) == Negative(d, w)
  {
    FormatBounds(s);
    FormatBounds(d);
    var k := NarrowedMagnitude(s, d, w);
    NarrowedSignificand(s, d, w, k);
    var c, m := d.prec - s.prec, Mantissa(d, w);
    var u := NarrowedGap(m, Exponent(d, w), Excess(s) + s.prec, k, NarrowExponent(s, d, w), Excess(d) + d.prec, c);
    CompareScaled(u, Abs(k * Pow2(c) - m), Pow2(c));
  }

  /**
   A double with every significand bit set, in the middle of the exponent range,
   is not rounded to within half a unit.
  */
  lemma AllOnesLoseCarry(s: Format, d: Format) returns (w: nat)
    requires Widens(s, d)
    ensures Normal(d, w) && Mantissa(d, w) == 2 * Hidden(d) - 1 && InRange(s, NarrowExponent(s, d, w))
    ensures 2 * TruncateError(s, d, w) > Pow2(NarrowExponent(s, d, w)) * Scale(d)
  {
    w := AllOnes(d);
    MiddleInRange(s);
    TopBitsAllOnes(s, d);
    TruncateRoundsUnlessCarry(s, d, w);
  }

  lemma AllOnes(d: Format) returns (w: nat)
    ensures Normal(d, w) && Mantissa(d, w) == 2 * Hidden(d) - 1 && Exponent(d, w) == Excess(d)
  {
    MiddleInRange(d);
    PackedValue(d, false, Excess(d), 2 * Hidden(d) - 1);
    w := Pack(d, false, Excess(d), Hidden(d) - 1);
  }

  lemma MiddleInRange(f: Format)
    ensures InRange(f, Excess(f))
  {
    FormatBounds(f);
  }

  lemma TopBitsAllOnes(s: Format, d: Format)
    requires Widens(s, d)
    ensures (2 * Hidden(d) - 1) / Pow2(d.prec - s.prec - 1) == 4 * Hidden(s) - 1
  {
    Pow2Add(s.prec + 1, d.prec - s.prec - 1);
    TopOnes(4 * Hidden(s), Pow2(d.prec - s.prec - 1));
  }

  lemma TopOnes(t: nat, c: nat)
    requires c > 0
    ensures (t * c - 1) / c == t - 1
  {
    MulDistribute(t, 1, c);
    FloorUnique(t * c - 1, c, t - 1);
  }

  lemma NarrowedSignificand(s: Format, d: Format, w: nat, k: nat)
    requires Widens(s, d)
    requires HalfUp(s, d, w) != 2 * Hidden(s) ==> k == HalfUp(s, d, w)
    requires HalfUp(s, d, w) == 2 * Hidden(s) ==> k == Hidden(s) || k == 4 * Hidden(s)
    ensures 2 * Abs(k * Pow2(d.prec - s.prec) - Mantissa(d, w)) <= Pow2(d.prec - s.prec)
            <==> Mantissa(d, w) / Pow2(d.prec - s.prec - 1) != 4 * Hidden(s) - 1
  {
    HalfUpRange(s, d, w);
    Pow2Add(s.prec, d.prec - s.prec - 1);
    MulAssoc(2, Hidden(s), Pow2(d.prec - s.prec - 1));
    MulAssoc(4, Hidden(s), Pow2(d.prec - s.prec - 1));
    HalfUpGap(Mantissa(d, w), Pow2(d.prec - s.prec - 1), Hidden(s));
  }

  /** Setting a clear bit 1 does not leave the exponent field. */
  lemma TwoAboveFits(x: nat, n: nat, q: nat)
    requires n == 2 * (2 * q) && x <= n - 2 && (x / 2) % 2 != 1
    ensures x + 2 < n
  {
  }

  /** The magnitude actually packed, in units of the rebased exponent: correct, halved or doubled. */
  lemma NarrowedMagnitude(s: Format, d: Format, w: nat) returns (k: nat)
    requires Widens(s, d) && Normal(d, w) && InRange(s, NarrowExponent(s, d, w))
    ensures HalfUp(s, d, w) != 2 * Hidden(s) ==> k == HalfUp(s, d, w)
    ensures HalfUp(s, d, w) == 2 * Hidden(s) ==>
              k == if NarrowExponent(s, d, w) / 2 % 2 == 1 then Hidden(s) else 4 * Hidden(s)
    ensures Magnitude(s, Truncate(s, d, w)) == k * Pow2(NarrowExponent(s, d, w))
    ensures Negative(s, Truncate(s, d, w)) == Negative(d, w)
  {
    FormatBounds(s);
    NormalIsNonzero(d, w);
    HalfUpRange(s, d, w);
    var x := NarrowExponent(s, d, w);
    if HalfUp(s, d, w) != 2 * Hidden(s) {
      k := HalfUp(s, d, w);
      PackedValue(s, Negative(d, w), x, k);
    } else if (x / 2) % 2 == 1 {
      k := Hidden(s);
      PackedValue(s, Negative(d, w), x, k);
    } else {
      k := 4 * Hidden(s);
      TwoAboveFits(x, Pow2(s.expBits), Pow2(s.expBits - 2));
      PackedValue(s, Negative(d, w), x + 2, Hidden(s));
      MulDouble(Hidden(s), Pow2(x + 1));
      MulDouble(2 * Hidden(s), Pow2(x));
    }
  }
}
