/** `__mulsf3` and `__muldf3`: a split multiplication that never forms the low-by-low product. */
module FloatMultiply {
  import opened Powers
  import opened FloatFormat
  import Rounding

  /** A cross product of a low and a high part, shifted down: it loses less than one unit. */
  function CrossTerm(low: nat, high: nat, split: nat): (t: nat)
    requires split > 0
    ensures t * split <= low * high < (t + 1) * split
  {
    FloorBounds(low * high, split);
    CancelFactor(-1, HighProduct(low, high) / split, split);
    HighProduct(low, high) / split
  }

  function HighProduct(high1: nat, high2: nat): (p: nat)
    ensures p == high1 * high2
  {
    MulMonotone(0, high1, high2);
    high1 * high2
  }

  /** The three partial products the code adds. */
  function PartialProducts(split: nat, m1: nat, m2: nat): nat
    requires split > 0
  {
    HighProduct(m1 / split, m2 / split) + CrossTerm(m1 % split, m2 / split, split)
        + CrossTerm(m2 % split, m1 / split, split)
  }

  function TopBits(f: Format, a: nat, b: nat): nat {
    PartialProducts(Pow2(f.low), Mantissa(f, a), Mantissa(f, b)) / 4
  }

  /** Whether the product reached the upper binade: bit 29, or bit 61, of the shifted sum. */
  predicate Upper(f: Format, y: nat) {
    y >= Hidden(f) * Pow2(Guard(f))
  }

  /** Half a unit in the last place of the significand. */
  function HalfUnit(f: Format, y: nat): nat {
    if Upper(f, y) then Pow2(Guard(f) - 1) else Pow2(Guard(f) - 2)
  }

  function RoundTop(f: Format, y: nat): nat {
    (y + HalfUnit(f, y)) / (2 * HalfUnit(f, y))
  }

  /** The significand before the check for a rounding carry. */
  function RoundedProduct(f: Format, a: nat, b: nat): (m: nat)
    ensures Hidden(f) <= m <= 2 * Hidden(f)
  {
    TopBitsRange(f, a, b);
    RoundedShift(TopBits(f, a, b), HalfUnit(f, TopBits(f, a, b)), Hidden(f));
    RoundTop(f, TopBits(f, a, b))
  }

  /** Exponent that goes with `RoundedProduct`. */
  function ScaleExponent(f: Format, a: nat, b: nat): int {
    Exponent(f, a) + Exponent(f, b) - Excess(f) - (if Upper(f, TopBits(f, a, b)) then 0 else 1)
  }

  predicate Carries(f: Format, a: nat, b: nat) {
    RoundedProduct(f, a, b) == 2 * Hidden(f)
  }

  function ProductExponent(f: Format, a: nat, b: nat): int {
    ScaleExponent(f, a, b) + (if Carries(f, a, b) then 1 else 0)
  }

  function ProductMantissa(f: Format, a: nat, b: nat): (m: nat)
    ensures Hidden(f) <= m < 2 * Hidden(f)
  {
    if Carries(f, a, b) then Hidden(f) else RoundedProduct(f, a, b)
  }

  function ProductWord(f: Format, a: nat, b: nat): nat {
    Pack(f, Negative(f, a) != Negative(f, b), ProductExponent(f, a, b), ProductMantissa(f, a, b) - Hidden(f))
  }

  /** The truncations lose less than three units: one per cross product and one for the missing low product. */
  lemma PartialProductsLose(split: nat, m1: nat, m2: nat)
    requires split > 0
    ensures var x := PartialProducts(split, m1, m2); x * (split * split) <= m1 * m2 < (x + 3) * (split * split)
  {
    var h1, l1, h2, l2 := m1 / split, m1 % split, m2 / split, m2 % split;
    DividedParts(m1, split, h1, l1);
    DividedParts(m2, split, h2, l2);
    SplitProduct(split, h1, l1, h2, l2, CrossTerm(l1, h2, split), CrossTerm(l2, h1, split));
  }

  /** On significands in a common binade, the sum stays in two binades. */
  lemma PartialProductsBounds(split: nat, half: nat, m1: nat, m2: nat)
    requires split > 0 && half * split <= m1 < 2 * half * split && half * split <= m2 < 2 * half * split
    ensures var x := PartialProducts(split, m1, m2);
            x * (split * split) <= m1 * m2 < (x + 3) * (split * split) && half * half <= x < 4 * (half * half)
  {
    PartialProductsLose(split, m1, m2);
    HighPart(m1, split, half);
    HighPart(m2, split, half);
    ProductOrder(half, m1 / split, half, m2 / split);
    UpperBound(split, half, m1, m2, PartialProducts(split, m1, m2));
  }

  lemma UpperBound(split: nat, half: nat, m1: nat, m2: nat, x: int)
    requires split > 0 && half > 0 && m1 < 2 * half * split && m2 < 2 * half * split && x * (split * split) <= m1 * m2
    ensures x < 4 * (half * half)
  {
    var top := 2 * half * split;
    ProductOrder(m1, top - 1, m2, top - 1);
    UpperCorner(half, split);
    CancelFactor(x, 4 * (half * half), split * split);
  }

  lemma UpperCorner(half: nat, split: nat)
    requires half * split > 0
    ensures (2 * half * split - 1) * (2 * half * split - 1) < 4 * (half * half) * (split * split)
  {
    var c := half * split;
    assert (2 * c - 1) * (2 * c - 1) == 4 * (c * c) - 4 * c + 1;
    assert c * c == (half * half) * (split * split);
  }

  lemma HighPart(m: nat, split: nat, half: nat)
    requires split > 0 && half * split <= m
    ensures m / split >= half && m == (m / split) * split + m % split && m % split < split
  {
    FloorBounds(m, split);
    CancelFactor(half, m / split + 1, split);
  }

  lemma ProductOrder(x: nat, x': nat, y: nat, y': nat)
    requires x <= x' && y <= y'
    ensures x * y <= x' * y'
  {
    MulMonotone(x, x', y);
    MulMonotone(y, y', x');
  }

  lemma SplitProduct(s: nat, h1: nat, l1: nat, h2: nat, l2: nat, t1: nat, t2: nat)
    requires l1 < s && l2 < s
    requires t1 * s <= l1 * h2 < (t1 + 1) * s && t2 * s <= l2 * h1 < (t2 + 1) * s
    ensures var x := h1 * h2 + t1 + t2; var p := (h1 * s + l1) * (h2 * s + l2);
            x * (s * s) <= p < (x + 3) * (s * s)
  {
    Expand(s, h1, l1, h2, l2);
    CrossBound(l1 * h2, t1, s);
    CrossBound(l2 * h1, t2, s);
    MulMonotone(0, l1, l2);
    ProductOrder(l1, s - 1, l2, s - 1);
    assert (s - 1) * (s - 1) == s * s - 2 * s + 1;
    Distribute(h1 * h2, t1, t2, s * s);
  }

  lemma Distribute(x: int, y: int, z: int, s: int)
    ensures (x + y + z) * s == x * s + y * s + z * s && (x + y + z + 3) * s == x * s + y * s + z * s + 3 * s
  {
  }

  lemma Expand(s: int, h1: int, l1: int, h2: int, l2: int)
    ensures (h1 * s + l1) * (h2 * s + l2) == h1 * h2 * (s * s) + (l1 * h2) * s + (l2 * h1) * s + l1 * l2
  {
    var y := h2 * s + l2;
    assert (h1 * s + l1) * y == h1 * s * y + l1 * y;
    assert h1 * s * y == h1 * h2 * (s * s) + (l2 * h1) * s;
    assert l1 * y == (l1 * h2) * s + l1 * l2;
  }

  lemma CrossBound(c: int, t: int, s: nat)
    requires t * s <= c < (t + 1) * s
    ensures t * (s * s) <= c * s <= t * (s * s) + s * s - s
  {
    MulMonotone(t * s, c, s);
    MulMonotone(c, (t + 1) * s - 1, s);
    MulAssoc(t, s, s);
    MulAssoc(t + 1, s, s);
    assert ((t + 1) * s - 1) * s == (t + 1) * s * s - s;
  }

  /** Powers the split point and the guard bits are made of. */
  lemma SplitPowers(f: Format)
    ensures f.prec > f.low && Guard(f) >= 6
    ensures Hidden(f) == Pow2(f.prec - f.low - 1) * Pow2(f.low)
    ensures Hidden(f) * Pow2(Guard(f)) * 8 == 4 * (Pow2(f.prec - f.low - 1) * Pow2(f.prec - f.low - 1))
    ensures Pow2(Guard(f)) == 2 * Pow2(Guard(f) - 1) && Pow2(Guard(f) - 1) == 2 * Pow2(Guard(f) - 2)
    ensures 4 * Pow2(Guard(f)) * (Pow2(f.low) * Pow2(f.low)) == Pow2(f.prec)
  {
    var k := f.prec - f.low - 1;
    Pow2Add(k, f.low);
    Pow2Add(k, k);
    Pow2Add(f.prec - 1, Guard(f));
    assert f.prec - 1 + Guard(f) == 2 * k - 1;
    assert Pow2(2 * k) == 2 * Pow2(2 * k - 1);
    Pow2Add(f.low, f.low);
    Pow2Add(Guard(f), 2 * f.low);
    assert Guard(f) + 2 * f.low == f.prec - 2;
    assert Pow2(f.prec) == 4 * Pow2(f.prec - 2);
    MulAssoc(4, Pow2(Guard(f)), Pow2(f.low) * Pow2(f.low));
  }

  lemma TopBitsRange(f: Format, a: nat, b: nat)
    ensures Guard(f) >= 6
    ensures var y := TopBits(f, a, b); var s := Pow2(f.low) * Pow2(f.low); var p := Mantissa(f, a) * Mantissa(f, b);
            4 * y * s <= p < (4 * y + 6) * s
    ensures var y := TopBits(f, a, b); var g := 2 * HalfUnit(f, y); Hidden(f) * g <= y < 2 * Hidden(f) * g
  {
    var m1, m2 := Mantissa(f, a), Mantissa(f, b);
    PartialProductsOfWords(f, m1, m2);
    var x := PartialProducts(Pow2(f.low), m1, m2);
    QuarterBounds(x, Pow2(f.low) * Pow2(f.low), m1 * m2);
    HalfUnitFits(f, x);
  }

  lemma PartialProductsOfWords(f: Format, m1: nat, m2: nat)
    requires Hidden(f) <= m1 < 2 * Hidden(f) && Hidden(f) <= m2 < 2 * Hidden(f)
    ensures Guard(f) >= 6
    ensures var x := PartialProducts(Pow2(f.low), m1, m2); var s := Pow2(f.low) * Pow2(f.low);
            x * s <= m1 * m2 < (x + 3) * s && 2 * (Hidden(f) * Pow2(Guard(f))) <= x < 8 * (Hidden(f) * Pow2(Guard(f)))
  {
    SplitPowers(f);
    MulAssoc(2, Pow2(f.prec - f.low - 1), Pow2(f.low));
    PartialProductsBounds(Pow2(f.low), Pow2(f.prec - f.low - 1), m1, m2);
  }

  lemma HalfUnitFits(f: Format, x: nat)
    requires 2 * (Hidden(f) * Pow2(Guard(f))) <= x < 8 * (Hidden(f) * Pow2(Guard(f)))
    ensures var y := x / 4; var g := 2 * HalfUnit(f, y); Hidden(f) * g <= y < 2 * Hidden(f) * g
  {
    MulDouble(Hidden(f), Pow2(Guard(f) - 1));
    MulAssoc(2, Hidden(f), 2 * HalfUnit(f, x / 4));
  }

  lemma QuarterBounds(x: nat, s: nat, p: int)
    requires x * s <= p < (x + 3) * s
    ensures var y := x / 4; 4 * y * s <= p < (4 * y + 6) * s
  {
    MulMonotone(4 * (x / 4), x, s);
    MulMonotone(x + 3, 4 * (x / 4) + 6, s);
  }

  /** Adding half a unit and shifting: the result is within half a unit and at most one bit longer. */
  lemma RoundedShift(y: nat, half: nat, h: nat)
    requires half > 0 && h * (2 * half) <= y < 2 * h * (2 * half)
    ensures var r := (y + half) / (2 * half); h <= r <= 2 * h && y - half < r * (2 * half) <= y + half
  {
    var g := 2 * half;
    var r := (y + half) / g;
    FloorBounds(y + half, g);
    assert (r + 1) * g == r * g + g;
    CancelFactor(h, r + 1, g);
    assert (2 * h + 1) * g == 2 * h * g + g;
    CancelFactor(r, 2 * h + 1, g);
  }

  /** One high-by-high multiply and two cross multiplies. */
  method SplitMultiply(split: nat, m1: nat, m2: nat) returns (result: nat)
    requires split > 0
    ensures result * (split * split) <= m1 * m2 < (result + 3) * (split * split)
    ensures result == PartialProducts(split, m1, m2)
  {
    PartialProductsLose(split, m1, m2);
    result := HighProduct(m1 / split, m2 / split);
    result := result + CrossTerm(m1 % split, m2 / split, split);
    result := result + CrossTerm(m2 % split, m1 / split, split);
  }

  /** Both routines return a zero word as soon as one operand word is zero. */
  method Multiply(f: Format, a: nat, b: nat) returns (r: nat)
    requires Word(f, a) && Word(f, b)
    ensures r == if a == 0 || b == 0 then 0 else ProductWord(f, a, b)
  {
    if a == 0 || b == 0 {
      return 0;
    }
    var sign := Negative(f, a) != Negative(f, b);
    var exp := Exponent(f, a) - Excess(f);
    exp := exp + Exponent(f, b);
    var result := SplitMultiply(Pow2(f.low), Mantissa(f, a), Mantissa(f, b));
    result := result / 4;
    assert result == TopBits(f, a, b);
    if Upper(f, result) {
      result := (result + Pow2(Guard(f) - 1)) / (2 * Pow2(Guard(f) - 1));
    } else {
      result := (result + Pow2(Guard(f) - 2)) / (2 * Pow2(Guard(f) - 2));
      exp := exp - 1;
    }
    assert result == RoundedProduct(f, a, b) && exp == ScaleExponent(f, a, b);
    if result >= 2 * Hidden(f) {
      result := result / 2;
      exp := exp + 1;
    }
    assert result == ProductMantissa(f, a, b) && exp == ProductExponent(f, a, b);
    result := result - Hidden(f);
    r := Pack(f, sign, exp, result);
  }

  /** The sum of the partial products fits the unsigned word it is kept in. */
  lemma PartialProductsFit(f: Format, a: nat, b: nat)
    ensures PartialProducts(Pow2(f.low), Mantissa(f, a), Mantissa(f, b)) < Pow2(f.prec + f.expBits)
  {
    SplitPowers(f);
    var k := f.prec - f.low - 1;
    MulAssoc(2, Pow2(k), Pow2(f.low));
    PartialProductsBounds(Pow2(f.low), Pow2(k), Mantissa(f, a), Mantissa(f, b));
    Pow2Add(k, k);
    assert f.prec + f.expBits == 2 * k + 2;
  }

  lemma ProductCommutes(f: Format, a: nat, b: nat)
    ensures ProductWord(f, a, b) == ProductWord(f, b, a)
  {
    PartialProductsCommute(Pow2(f.low), Mantissa(f, a), Mantissa(f, b));
    assert TopBits(f, a, b) == TopBits(f, b, a);
  }

  lemma PartialProductsCommute(split: nat, m1: nat, m2: nat)
    requires split > 0
    ensures PartialProducts(split, m1, m2) == PartialProducts(split, m2, m1)
  {
    MulCommute(m1 / split, m2 / split);
  }

  /** log2 of the unit of the rounded product, relative to the product of the significands. */
  function UnitExponent(f: Format, a: nat, b: nat): nat {
    if Upper(f, TopBits(f, a, b)) then f.prec else f.prec - 1
  }

  /** The shift-and-round step measured against the exact product p of the significands; s is split^2. */
  lemma ShiftGap(y: nat, half: nat, s: nat, p: nat, r: nat)
    requires s > 0 && 4 * y * s <= p < (4 * y + 6) * s
    requires y - half < r * (2 * half) <= y + half
    ensures 2 * Abs(r * (8 * half * s) - p) < 8 * half * s + 12 * s
  {
    var z := r * (2 * half);
    FourfoldUnits(r, half, s, y, z);
    MulMonotone(y - half + 1, z, 4 * s);
    MulMonotone(z, y + half, 4 * s);
  }

  lemma FourfoldUnits(r: nat, half: nat, s: nat, y: nat, z: nat)
    requires z == r * (2 * half)
    ensures r * (8 * half * s) == z * (4 * s)
    ensures (y + half) * (4 * s) == 4 * y * s + 4 * half * s
    ensures (y - half) * (4 * s) == 4 * y * s - 4 * half * s
    ensures (y - half + 1) * (4 * s) == 4 * y * s - 4 * half * s + 4 * s
    ensures 2 * (4 * half * s) == 8 * half * s && (4 * y + 6) * s == 4 * y * s + 6 * s
  {
    MulAssoc(r, 2 * half, 4 * s);
    MulAssoc(2 * half, 4, s);
    MulDistribute(y, half, 4 * s);
    MulDistribute(y - half, 1, 4 * s);
    MulAssoc(y, 4, s);
    MulAssoc(half, 4, s);
    MulAssoc(2, 4 * half, s);
    MulDistribute(4 * y, 6, s);
  }

  /** Significand error: below 1/2 + 3/2^Guard of a unit, and the product is not below the binade of its unit. */
  lemma SignificandError(f: Format, a: nat, b: nat)
    ensures var g, u, p := Pow2(Guard(f)), Pow2(UnitExponent(f, a, b)), Mantissa(f, a) * Mantissa(f, b);
            2 * g * Abs(RoundedProduct(f, a, b) * u - p) < (g + 6) * u && Hidden(f) * u <= p
  {
    SplitPowers(f);
    TopBitsRange(f, a, b);
    UnitSize(f, a, b);
    var y := TopBits(f, a, b);
    RoundedShift(y, HalfUnit(f, y), Hidden(f));
    ShiftError(Pow2(Guard(f)), HalfUnit(f, y), y, HighProduct(Pow2(f.low), Pow2(f.low)),
               HighProduct(Mantissa(f, a), Mantissa(f, b)),
               RoundedProduct(f, a, b), Hidden(f), Pow2(UnitExponent(f, a, b)));
  }

  lemma ShiftError(g: nat, half: nat, y: nat, s: nat, p: nat, r: nat, h: nat, u: nat)
    requires s > 0 && g > 0 && g <= 4 * half && u == 8 * half * s
    requires 4 * y * s <= p < (4 * y + 6) * s
    requires y - half < r * (2 * half) <= y + half && h * (2 * half) <= y
    ensures 2 * g * Abs(r * u - p) < (g + 6) * u && h * u <= p
  {
    ShiftGap(y, half, s, p, r);
    ScaledGap(g, half, s, r, p, u);
    LowerEnd(h, half, y, s);
  }

  lemma ScaledGap(g: nat, half: nat, s: nat, r: nat, p: nat, u: nat)
    requires g > 0 && u == 8 * half * s && g <= 4 * half && 2 * Abs(r * u - p) < u + 12 * s
    ensures 2 * g * Abs(r * u - p) < (g + 6) * u
  {
    RelativeGap(g, half, s, Abs(r * u - p), u);
  }

  lemma UnitSize(f: Format, a: nat, b: nat)
    ensures Pow2(UnitExponent(f, a, b)) == 8 * HalfUnit(f, TopBits(f, a, b)) * (Pow2(f.low) * Pow2(f.low))
  {
    SplitPowers(f);
    EightHalves(Pow2(Guard(f) - 1), Pow2(f.low) * Pow2(f.low));
    EightHalves(Pow2(Guard(f) - 2), Pow2(f.low) * Pow2(f.low));
  }

  lemma EightHalves(half: nat, s: nat)
    ensures 4 * (2 * half) * s == 8 * half * s && 4 * (4 * half) * s == 2 * (8 * half * s)
  {
  }

  lemma RelativeGap(g: nat, half: nat, s: nat, d: nat, u: nat)
    requires g > 0 && u == 8 * half * s && g <= 4 * half && 2 * d < u + 12 * s
    ensures 2 * g * d < (g + 6) * u
  {
    MulAssoc(8, half, s);
    MulMonotone(g, 4 * half, s);
    MulAssoc(4, half, s);
    MulCommute(g, s);
    GapTerms(g, s, d, u);
  }

  lemma GapTerms(g: nat, s: nat, d: nat, u: nat)
    requires g > 0 && 2 * d < u + 12 * s && 2 * (s * g) <= u
    ensures 2 * g * d < (g + 6) * u
  {
    MulMonotone(2 * d + 1, u + 12 * s, g);
    MulDistribute(2 * d, 1, g);
    MulDistribute(u, 12 * s, g);
    MulAssoc(12, s, g);
    MulAssoc(2, d, g);
    MulAssoc(2, g, d);
    MulCommute(g, d);
    MulDistribute(g, 6, u);
    MulCommute(g, u);
  }

  lemma LowerEnd(h: nat, half: nat, y: nat, s: nat)
    requires h * (2 * half) <= y
    ensures h * (8 * half * s) <= 4 * y * s
  {
    MulMonotone(h * (2 * half), y, 4 * s);
    assert h * (2 * half) * (4 * s) == h * (8 * half * s);
  }

  /** How far a word is from the exact product a * b. */
  function ProductError(f: Format, c: nat, a: nat, b: nat): nat {
    Abs(Value(f, c) * Pow2(Excess(f) + f.prec) - Value(f, a) * Value(f, b))
  }

  /** A candidate k * 2^e of the right sign, against the product of two values. */
  lemma SignedProductError(f: Format, c: nat, a: nat, b: nat)
    requires Negative(f, c) == (Negative(f, a) != Negative(f, b))
    ensures ProductError(f, c, a, b)
            == Abs(Magnitude(f, c) * Pow2(Excess(f) + f.prec) - Magnitude(f, a) * Magnitude(f, b))
  {
    var s := Sgn(Negative(f, c));
    SgnProduct(Negative(f, a), Negative(f, b), Magnitude(f, a), Magnitude(f, b));
    MulAssoc(s, Magnitude(f, c), Pow2(Excess(f) + f.prec));
  }

  /** m1 * 2^e1 times m2 * 2^e2, and k * 2^e times the scale, over the common factor 2^(e1 + e2). */
  lemma CommonFactor(m1: int, e1: nat, m2: int, e2: nat, k: int, e: nat, scale: nat, u: nat)
    requires e + scale == e1 + e2 + u
    ensures (m1 * Pow2(e1)) * (m2 * Pow2(e2)) == Pow2(e1 + e2) * (m1 * m2)
    ensures (k * Pow2(e)) * Pow2(scale) == Pow2(e1 + e2) * (k * Pow2(u))
    ensures Pow2(e) * Pow2(scale) == Pow2(e1 + e2) * Pow2(u)
  {
    Pow2Add(e1, e2);
    Pow2Add(e, scale);
    Pow2Add(e1 + e2, u);
    FourFactors(m1, Pow2(e1), m2, Pow2(e2));
    MulAssoc(k, Pow2(e), Pow2(scale));
    MulAssoc(k, Pow2(e1 + e2), Pow2(u));
    MulAssoc(Pow2(e1 + e2), k, Pow2(u));
  }

  lemma FourFactors(x: int, y: int, z: int, w: int)
    ensures (x * y) * (z * w) == (y * w) * (x * z)
  {
    MulAssoc(x, y, z * w);
    MulAssoc(y, w, x * z);
    assert y * (z * w) == z * (y * w);
  }

  lemma ScaledError(c: nat, x: int, y: int, g: nat, u: nat)
    requires c > 0 && 2 * g * Abs(x - y) < (g + 6) * u
    ensures 2 * g * Abs(c * x - c * y) < (g + 6) * (c * u)
  {
    FactorOut(c, x, y);
    MulAssoc(2 * g, Abs(x - y), c);
    MulAssoc(g + 6, u, c);
    MulCommute(c, Abs(x - y));
    MulCommute(c, u);
    MulMonotone(2 * g * Abs(x - y) + 1, (g + 6) * u, c);
    MulDistribute(2 * g * Abs(x - y), 1, c);
  }

  /** The magnitudes of the result, against the operands' product. */
  lemma MagnitudeError(f: Format, a: nat, b: nat, e: nat)
    requires e == ScaleExponent(f, a, b)
    ensures var g, scale := Pow2(Guard(f)), Excess(f) + f.prec;
            2 * g * Abs(RoundedProduct(f, a, b) * Pow2(e) * Pow2(scale) - Magnitude(f, a) * Magnitude(f, b))
            < (g + 6) * (Pow2(e) * Pow2(scale))
  {
    FormatBounds(f);
    var k, u := RoundedProduct(f, a, b), UnitExponent(f, a, b);
    var m1, e1, m2, e2 := Mantissa(f, a), Exponent(f, a), Mantissa(f, b), Exponent(f, b);
    CommonFactor(m1, e1, m2, e2, k, e, Excess(f) + f.prec, u);
    SignificandError(f, a, b);
    ScaledError(Pow2(e1 + e2), k * Pow2(u), m1 * m2, Pow2(Guard(f)), Pow2(u));
  }

  /** One unit in the last place of a word, in the units products are compared in. */
  function ProductUlp(f: Format, c: nat): nat {
    FormatBounds(f);
    HighProduct(Pow2(Exponent(f, c)), Pow2(Excess(f) + f.prec))
  }

  /**
   For normal operands with an in-range result, multiplication is off by less
   than 1/2 + 3/2^Guard units in the last place of the result.
  */
  lemma MultiplicationError(f: Format, a: nat, b: nat)
    requires Normal(f, a) && Normal(f, b) && InRange(f, ProductExponent(f, a, b))
    ensures var r, g := ProductWord(f, a, b), Pow2(Guard(f));
            Normal(f, r) && Negative(f, r) == (Negative(f, a) != Negative(f, b))
            && 2 * g * ProductError(f, r, a, b) < (g + 6) * ProductUlp(f, r)
  {
    FormatBounds(f);
    var r, g := ProductWord(f, a, b), Pow2(Guard(f));
    PackedValue(f, Negative(f, a) != Negative(f, b), ProductExponent(f, a, b), ProductMantissa(f, a, b));
    var e := ScaleExponent(f, a, b);
    MagnitudeError(f, a, b, e);
    CarriedMagnitude(f, a, b, e);
    SignedProductError(f, r, a, b);
    UlpGrows(e, Exponent(f, r), Pow2(Excess(f) + f.prec), g + 6);
  }

  lemma CarriedMagnitude(f: Format, a: nat, b: nat, e: nat)
    requires e == ScaleExponent(f, a, b)
    ensures ProductMantissa(f, a, b) * Pow2(ProductExponent(f, a, b)) == RoundedProduct(f, a, b) * Pow2(e)
  {
    if Carries(f, a, b) {
      MulAssoc(Hidden(f), 2, Pow2(e));
    }
  }

  lemma UlpGrows(e: nat, e': nat, scale: nat, g: nat)
    requires e <= e'
    ensures g * (Pow2(e) * scale) <= g * (Pow2(e') * scale)
  {
    Pow2Monotone(e, e');
    MulMonotone(Pow2(e), Pow2(e'), scale);
    MulMonotone(Pow2(e) * scale, Pow2(e') * scale, g);
  }

  /** The bounds for the two formats: 35/64 and 259/512 of a unit in the last place. */
  lemma MultiplicationErrorInUlps(f: Format, a: nat, b: nat)
    requires f == SINGLE || f == DOUBLE
    requires Normal(f, a) && Normal(f, b) && InRange(f, ProductExponent(f, a, b))
    ensures var r := ProductWord(f, a, b);
            if f == SINGLE then 64 * ProductError(f, r, a, b) < 35 * ProductUlp(f, r)
            else 512 * ProductError(f, r, a, b) < 259 * ProductUlp(f, r)
  {
    MultiplicationError(f, a, b);
    var r := ProductWord(f, a, b);
    InUlps(f, ProductError(f, r, a, b), ProductUlp(f, r));
  }

  lemma InUlps(f: Format, d: nat, u: nat)
    requires f == SINGLE || f == DOUBLE
    requires 2 * Pow2(Guard(f)) * d < (Pow2(Guard(f)) + 6) * u
    ensures if f == SINGLE then 64 * d < 35 * u else 512 * d < 259 * u
  {
    assert Pow2(Guard(SINGLE)) == 64 && Pow2(Guard(DOUBLE)) == 512;
  }

  lemma CloseMultiples(k: int, j: int, u: nat)
    requires Abs(k * u - j * u) < u
    ensures k == j
  {
    MultiplesApart(j, k, u);
  }

  lemma SmallGap(g: nat, d: nat, u: nat)
    requires g >= 6 && 2 * g * d < (g + 6) * u
    ensures d < u
  {
    MulMonotone(g + 6, 2 * g, u);
    MulAssoc(2, g, d);
    assert 2 * g * d == d * (2 * g);
    CancelFactor(d, u, 2 * g);
  }

  lemma UnitNotFiner(prec: nat, m: nat, t: nat, p: nat, q: nat, u: nat)
    requires prec > 0 && m < Pow2(prec) && m * Pow2(t) == Pow2(q) * p && Pow2(prec - 1) * Pow2(u) <= p
    ensures t >= q + u
  {
    var h := Pow2(prec - 1);
    MulCommute(Pow2(q), p);
    Pow2Add(u, q);
    MulAssoc(h, Pow2(u), Pow2(q));
    MulMonotone(h * Pow2(u), p, Pow2(q));
    if t < u + q {
      Rounding.FinerCandidate(prec, m, t, u + q);
    }
  }

  /** An exact value m * 2^t == p * 2^q with p in the binade of 2^u is m shifted up by j units of 2^u. */
  lemma UnitOfExact(prec: nat, m: nat, t: nat, p: nat, q: nat, u: nat) returns (j: nat)
    requires prec > 0 && m < Pow2(prec) && m * Pow2(t) == Pow2(q) * p && Pow2(prec - 1) * Pow2(u) <= p
    ensures t == q + u + j && p == m * Pow2(j) * Pow2(u)
  {
    UnitNotFiner(prec, m, t, p, q, u);
    MulCommute(Pow2(q), p);
    j := t - u - q;
    Pow2Add(j, u);
    Pow2Add(j + u, q);
    MulAssoc(m, Pow2(j), Pow2(u));
    MulAssoc(m, Pow2(j + u), Pow2(q));
    CancelFactor(p, m * Pow2(j + u), Pow2(q));
  }

  lemma ZeroErrorSign(f: Format, c: nat, a: nat, b: nat)
    requires ProductError(f, c, a, b) == 0
    ensures Negative(f, c) == (Negative(f, a) != Negative(f, b))
  {
    SgnProduct(Negative(f, a), Negative(f, b), Magnitude(f, a), Magnitude(f, b));
    MulAssoc(Sgn(Negative(f, c)), Magnitude(f, c), Pow2(Excess(f) + f.prec));
    PositiveProduct(Magnitude(f, c), Pow2(Excess(f) + f.prec));
    PositiveProduct(Magnitude(f, a), Magnitude(f, b));
  }

  lemma PositiveProduct(x: nat, y: nat)
    requires x > 0 && y > 0
    ensures x * y > 0
  {
  }

  /** When the exact product is a normal number, the routine returns that number. */
  lemma MultiplicationExact(f: Format, a: nat, b: nat, c: nat)
    requires Normal(f, a) && Normal(f, b) && Normal(f, c)
    requires ProductError(f, c, a, b) == 0
    ensures ProductWord(f, a, b) == c
  {
    var e, k := Exponent(f, c), RoundedProduct(f, a, b);
    ZeroErrorSign(f, c, a, b);
    var j := ExactSignificand(f, a, b, c);
    Rounding.ShiftWithinBinade(Hidden(f), Mantissa(f, c), k, j);
    assert ProductExponent(f, a, b) == e && ProductMantissa(f, a, b) == Mantissa(f, c);
    FieldsDetermine(f, c);
  }

  /** The product of two numbers, 0 among them, is returned exactly whenever it is a number of the format. */
  lemma MultiplicationExactWithZero(f: Format, a: nat, b: nat, c: nat)
    requires Numeric(f, a) && Numeric(f, b) && Numeric(f, c)
    requires Excess(f) >= 0 && Number(f, c) * Pow2(Excess(f) + f.prec) == Number(f, a) * Number(f, b)
    ensures (if a == 0 || b == 0 then 0 else ProductWord(f, a, b)) == c
  {
    if a == 0 || b == 0 {
      if c != 0 {
        NormalIsNonzero(f, c);
        NonzeroProduct(Number(f, c), Pow2(Excess(f) + f.prec));
      }
    } else {
      NormalIsNonzero(f, a);
      NormalIsNonzero(f, b);
      NonzeroProduct(Number(f, a), Number(f, b));
      MultiplicationExact(f, a, b, c);
    }
  }

  lemma NonzeroProduct(x: int, y: int)
    requires x != 0 && y != 0
    ensures x * y != 0
  {
  }

  lemma ExactSignificand(f: Format, a: nat, b: nat, c: nat) returns (j: nat)
    requires ProductError(f, c, a, b) == 0 && Negative(f, c) == (Negative(f, a) != Negative(f, b))
    ensures RoundedProduct(f, a, b) == Mantissa(f, c) * Pow2(j)
    ensures Exponent(f, c) == ScaleExponent(f, a, b) + j
  {
    FormatBounds(f);
    var p, q := Mantissa(f, a) * Mantissa(f, b), Exponent(f, a) + Exponent(f, b);
    var m, u := Mantissa(f, c), UnitExponent(f, a, b);
    ExactEquation(f, a, b, c);
    BelowOneUnit(f, a, b);
    j := UnitOfExact(f.prec, m, Exponent(f, c) + Excess(f) + f.prec, p, q, u);
    CloseMultiples(RoundedProduct(f, a, b), m * Pow2(j), Pow2(u));
  }

  lemma BelowOneUnit(f: Format, a: nat, b: nat)
    ensures var u, p := Pow2(UnitExponent(f, a, b)), Mantissa(f, a) * Mantissa(f, b);
            Abs(RoundedProduct(f, a, b) * u - p) < u && Hidden(f) * u <= p
  {
    SignificandError(f, a, b);
    GuardIsWide(f);
    var u := Pow2(UnitExponent(f, a, b));
    SmallGap(Pow2(Guard(f)), Abs(RoundedProduct(f, a, b) * u - Mantissa(f, a) * Mantissa(f, b)), u);
  }

  lemma ExactEquation(f: Format, a: nat, b: nat, c: nat)
    requires ProductError(f, c, a, b) == 0 && Negative(f, c) == (Negative(f, a) != Negative(f, b))
    ensures Excess(f) >= 0
    ensures Mantissa(f, c) * Pow2(Exponent(f, c) + Excess(f) + f.prec)
            == Pow2(Exponent(f, a) + Exponent(f, b)) * (Mantissa(f, a) * Mantissa(f, b))
  {
    FormatBounds(f);
    SignedProductError(f, c, a, b);
    GatherPowers(Mantissa(f, c), Exponent(f, c), Excess(f) + f.prec,
                 Mantissa(f, a), Exponent(f, a), Mantissa(f, b), Exponent(f, b));
  }

  lemma GatherPowers(m: nat, e: nat, scale: nat, m1: nat, e1: nat, m2: nat, e2: nat)
    requires (m * Pow2(e)) * Pow2(scale) == (m1 * Pow2(e1)) * (m2 * Pow2(e2))
    ensures m * Pow2(e + scale) == Pow2(e1 + e2) * (m1 * m2)
  {
    Pow2Add(e1, e2);
    FourFactors(m1, Pow2(e1), m2, Pow2(e2));
    Pow2Add(e, scale);
    MulAssoc(m, Pow2(e), Pow2(scale));
  }

  lemma GuardIsWide(f: Format)
    ensures Pow2(Guard(f)) >= 64
  {
    Pow2Monotone(6, Guard(f));
    assert Pow2(6) == 64;
  }
}
