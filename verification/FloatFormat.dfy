/**
 The two word layouts of `floatlib.c`.

 The single- and double-precision routines are the same algorithms with
 different constants, so a `Format` collects the constants and every routine is
 modelled once for both.  A word is a number below 2^(prec + expBits); the C
 macros SIGN, EXP, MANT and PACK become functions that cut the word by division
 and remainder, which is what a shift and a contiguous mask do.
*/
module FloatFormat {
  import opened Powers

  /**
   `prec` counts significand bits with the hidden bit, `low` is the split point
   of the multiplier, `orsSign` tells PACK (which ORs the sign) from PACKD_LL
   (which adds it).
  */
  datatype Layout = Layout(prec: nat, expBits: nat, low: nat, orsSign: bool)

  /** All the routines need of the constants; the multiplier splits a word in the middle. */
  type Format = l: Layout | l.prec >= 24 && l.expBits >= 8 && l.prec > l.expBits
      && 2 * (l.prec - l.low) == l.prec + l.expBits
    witness Layout(24, 8, 8, true)

  const SINGLE: Format := Layout(24, 8, 8, true)
  const DOUBLE: Format := Layout(53, 11, 21, false)

  /** EXCESS (126) and EXCESSD (1022). */
  function Excess(f: Format): int { Pow2(f.expBits - 1) - 2 }

  /** Bits the adder keeps below the significand: 6 and 9. */
  function Guard(f: Format): nat { f.expBits - 2 }

  /** HIDDEN and HIDDEND_LL. */
  function Hidden(f: Format): nat { Pow2(f.prec - 1) }

  predicate Word(f: Format, bits: int) {
    0 <= bits < Pow2(f.prec + f.expBits)
  }

  function Negative(f: Format, bits: nat): bool {
    (bits / Hidden(f)) / Pow2(f.expBits) % 2 == 1
  }

  function Exponent(f: Format, bits: nat): (e: nat)
    ensures e < Pow2(f.expBits)
  {
    (bits / Hidden(f)) % Pow2(f.expBits)
  }

  /** The significand with the hidden bit switched on, whatever the exponent field holds. */
  function Mantissa(f: Format, bits: nat): (m: nat)
    ensures Hidden(f) <= m < 2 * Hidden(f) == Pow2(f.prec)
  {
    bits % Hidden(f) + Hidden(f)
  }

  function Compose(f: Format, negative: bool, exp: nat, fraction: nat): nat {
    ((if negative then Pow2(f.expBits) else 0) + exp) * Hidden(f) + fraction
  }

  /**
   PACK and PACKD_LL for any exponent: shifting the exponent into place keeps
   one bit more than the field holds.  Where that bit meets the sign, PACK
   ORs and PACKD_LL adds.
  */
  function Pack(f: Format, negative: bool, exp: int, fraction: nat): nat {
    var field := exp % Pow2(f.expBits + 1);
    var spill := field >= Pow2(f.expBits);
    var sign := if f.orsSign then negative || spill else negative != spill;
    Compose(f, sign, field % Pow2(f.expBits), fraction)
  }

  /** The exponents of normal numbers: the field is neither all zeros nor all ones. */
  predicate InRange(f: Format, exp: int) {
    1 <= exp <= Pow2(f.expBits) - 2
  }

  predicate Normal(f: Format, bits: int) {
    Word(f, bits) && InRange(f, Exponent(f, bits))
  }

  function Sgn(negative: bool): int {
    if negative then -1 else 1
  }

  /** Magnitude of a normal number in units of 2^-(Excess + prec), an exact integer. */
  function Magnitude(f: Format, bits: nat): nat {
    Mantissa(f, bits) * Pow2(Exponent(f, bits))
  }

  /** The number a word stands for, in units of 2^-(Excess + prec). */
  function Value(f: Format, bits: nat): int {
    Sgn(Negative(f, bits)) * Magnitude(f, bits)
  }

  /** The words the laws of arithmetic are about: +0 and the normal numbers. */
  predicate Numeric(f: Format, bits: int) {
    bits == 0 || Normal(f, bits)
  }

  /** The number such a word stands for. */
  function Number(f: Format, bits: nat): int {
    if bits == 0 then 0 else Value(f, bits)
  }

  lemma FormatBounds(f: Format)
    ensures Pow2(f.expBits) >= 256 && Excess(f) >= 126
    ensures Pow2(f.expBits) == 2 * Excess(f) + 4
    ensures Pow2(f.prec) == 2 * Hidden(f)
    ensures Pow2(f.prec + f.expBits) == 2 * Pow2(f.expBits) * Hidden(f)
  {
    Pow2Monotone(8, f.expBits);
    assert Pow2(8) == 256;
    Pow2Add(f.expBits, f.prec);
    assert Pow2(f.expBits) * (2 * Hidden(f)) == 2 * Pow2(f.expBits) * Hidden(f);
  }

  /** Three stacked fields are read back by two divisions. */
  lemma FieldsApart(sign: bool, exp: nat, n: nat, fraction: nat, h: nat)
    requires exp < n && fraction < h
    ensures var top := (if sign then n else 0) + exp;
            var w := top * h + fraction;
            w / h == top && w % h == fraction && top % n == exp && (top / n % 2 == 1) == sign && w < 2 * n * h
  {
    var top := (if sign then n else 0) + exp;
    SplitQuotient(top, h, fraction);
    SplitQuotient(if sign then 1 else 0, n, exp);
    MultiplesApart(top, 2 * n, h);
  }

  lemma PackInField(f: Format, negative: bool, exp: int, fraction: nat)
    requires 0 <= exp < Pow2(f.expBits)
    ensures Pack(f, negative, exp, fraction) == Compose(f, negative, exp, fraction)
  {
    SmallQuotient(exp, Pow2(f.expBits + 1));
    SmallQuotient(exp, Pow2(f.expBits));
  }

  /** Packing an exponent that fits its field is read back field by field. */
  lemma PackFields(f: Format, negative: bool, exp: int, fraction: nat)
    requires 0 <= exp < Pow2(f.expBits) && fraction < Hidden(f)
    ensures var w := Pack(f, negative, exp, fraction);
            Word(f, w) && Negative(f, w) == negative && Exponent(f, w) == exp
            && Mantissa(f, w) == Hidden(f) + fraction
  {
    FormatBounds(f);
    FieldsApart(negative, exp, Pow2(f.expBits), fraction, Hidden(f));
    PackInField(f, negative, exp, fraction);
  }

  /** The sign bit, the exponent field and the fraction are the whole word. */
  lemma FieldsTogether(w: nat, n: nat, h: nat)
    requires n > 0 && h > 0 && w < 2 * n * h
    ensures w == ((if w / h / n % 2 == 1 then n else 0) + w / h % n) * h + w % h
  {
    var q := w / h;
    DividedParts(w, h, q, w % h);
    CancelFactor(q, 2 * n, h);
    DividedParts(q, n, q / n, q % n);
    CancelFactor(q / n, 2, n);
  }

  /** A word is determined by its three fields. */
  lemma FieldsDetermine(f: Format, w: nat)
    requires Word(f, w)
    ensures w == Pack(f, Negative(f, w), Exponent(f, w), Mantissa(f, w) - Hidden(f))
  {
    FormatBounds(f);
    FieldsTogether(w, Pow2(f.expBits), Hidden(f));
    PackInField(f, Negative(f, w), Exponent(f, w), Mantissa(f, w) - Hidden(f));
  }

  lemma PackedValue(f: Format, negative: bool, exp: int, m: nat)
    requires 0 <= exp < Pow2(f.expBits) && Hidden(f) <= m < 2 * Hidden(f)
    ensures var w := Pack(f, negative, exp, m - Hidden(f));
            Word(f, w) && Exponent(f, w) == exp && Negative(f, w) == negative && Mantissa(f, w) == m
            && Magnitude(f, w) == m * Pow2(exp)
  {
    PackFields(f, negative, exp, m - Hidden(f));
  }

  /** A word for k units of 2^e, one binade up when k has grown out of its own. */
  lemma PackedMultiple(f: Format, negative: bool, k: nat, e: nat) returns (c: nat)
    requires Hidden(f) <= k <= 2 * Hidden(f) && InRange(f, e) && (k == 2 * Hidden(f) ==> InRange(f, e + 1))
    ensures Normal(f, c) && Negative(f, c) == negative && Magnitude(f, c) == k * Pow2(e)
  {
    FormatBounds(f);
    if k < 2 * Hidden(f) {
      PackedValue(f, negative, e, k);
      c := Pack(f, negative, e, k - Hidden(f));
    } else {
      PackedValue(f, negative, e + 1, Hidden(f));
      MulAssoc(Hidden(f), 2, Pow2(e));
      c := Pack(f, negative, e + 1, 0);
    }
  }

  /** Sums and products of signed magnitudes: a product is negative when one factor is. */
  lemma SgnProduct(s: bool, t: bool, x: int, y: int)
    ensures (Sgn(s) * x) * (Sgn(t) * y) == Sgn(s != t) * (x * y)
  {
  }

  lemma NormalisedMagnitude(h: nat, m: nat, e: nat, m': nat, e': nat)
    requires h <= m < 2 * h && h <= m' < 2 * h && e < e'
    ensures m * Pow2(e) < m' * Pow2(e')
  {
    Pow2StrictlyMonotone(e, e');
    MultiplesApart(m, 2 * h, Pow2(e));
    MulDouble(h, Pow2(e));
    MulCommute(h, 2 * Pow2(e));
    MulMonotone(2 * Pow2(e), Pow2(e'), h);
    MulCommute(h, Pow2(e'));
    MulMonotone(h, m', Pow2(e'));
  }

  lemma SignAndSize(s: bool, x: nat, t: bool, y: nat)
    requires x > 0 && y > 0 && Sgn(s) * x == Sgn(t) * y
    ensures x == y && s == t
  {
  }

  lemma NormalIsNonzero(f: Format, a: nat)
    requires Normal(f, a)
    ensures a != 0 && Value(f, a) != 0
  {
    SmallQuotient(0, Hidden(f));
    SmallQuotient(0, Pow2(f.expBits));
    MulMonotone(1, Mantissa(f, a), Pow2(Exponent(f, a)));
  }

  /** +0 and the normal words stand for different numbers. */
  lemma NumberInjective(f: Format, a: nat, b: nat)
    requires Numeric(f, a) && Numeric(f, b) && Number(f, a) == Number(f, b)
    ensures a == b
  {
    if a != 0 {
      NormalIsNonzero(f, a);
    }
    if b != 0 {
      NormalIsNonzero(f, b);
    }
    if a != 0 && b != 0 {
      ValueInjective(f, a, b);
    }
  }

  /** No two normal words stand for the same number. */
  lemma ValueInjective(f: Format, a: nat, b: nat)
    requires Normal(f, a) && Normal(f, b) && Value(f, a) == Value(f, b)
    ensures a == b
  {
    var m, e, m', e' := Mantissa(f, a), Exponent(f, a), Mantissa(f, b), Exponent(f, b);
    MulMonotone(1, m, Pow2(e));
    MulMonotone(1, m', Pow2(e'));
    SignAndSize(Negative(f, a), Magnitude(f, a), Negative(f, b), Magnitude(f, b));
    if e < e' {
      NormalisedMagnitude(Hidden(f), m, e, m', e');
    } else if e' < e {
      NormalisedMagnitude(Hidden(f), m', e', m, e);
    } else {
      MultiplesApart(m, m', Pow2(e));
    }
    FieldsDetermine(f, a);
    FieldsDetermine(f, b);
  }
}
