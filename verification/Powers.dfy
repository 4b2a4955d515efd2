/** Powers of two and the few facts of multiplication the other modules lean on. */
module Powers {

  function Pow2(n: nat): (r: nat)
    ensures r > 0
  {
    if n == 0 then 1 else 2 * Pow2(n - 1)
  }

  function Abs(x: int): (r: int)
    ensures r >= 0
  {
    if x < 0 then -x else x
  }

  lemma {:induction false} Pow2Add(a: nat, b: nat)
    ensures Pow2(a + b) == Pow2(a) * Pow2(b)
  {
    if a > 0 {
      Pow2Add(a - 1, b);
      assert Pow2(a + b) == 2 * Pow2(a - 1 + b);
      MulAssoc(2, Pow2(a - 1), Pow2(b));
    }
  }

  lemma {:induction false} Pow2Monotone(a: nat, b: nat)
    requires a <= b
    ensures Pow2(a) <= Pow2(b)
    decreases b
  {
    if a < b {
      Pow2Monotone(a, b - 1);
    }
  }

  lemma Pow2StrictlyMonotone(a: nat, b: nat)
    requires a < b
    ensures 2 * Pow2(a) <= Pow2(b)
  {
    Pow2Monotone(a + 1, b);
  }

  lemma MulAssoc(x: int, y: int, z: int)
    ensures (x * y) * z == x * (y * z)
  {
  }

  lemma MulCommute(x: int, y: int)
    ensures x * y == y * x
  {
  }

  lemma MulDouble(x: int, y: int)
    ensures x * (2 * y) == 2 * (x * y) && (2 * x) * y == 2 * (x * y)
  {
  }

  lemma MulDistribute(x: int, y: int, z: int)
    ensures (x + y) * z == x * z + y * z && (x - y) * z == x * z - y * z
  {
  }

  lemma MulMonotone(x: int, y: int, z: int)
    requires x <= y && z >= 0
    ensures x * z <= y * z
  {
  }

  /** A positive common factor can be dropped from a comparison. */
  lemma CancelFactor(x: int, y: int, z: int)
    requires z > 0
    ensures x * z < y * z ==> x < y
    ensures x * z <= y * z ==> x <= y
    ensures x * z == y * z ==> x == y
  {
    if x < y {
      MulMonotone(x + 1, y, z);
    } else if x > y {
      MulMonotone(y + 1, x, z);
    }
  }

  /** Distinct multiples of a unit are at least a unit apart. */
  lemma MultiplesApart(j: int, k: int, unit: nat)
    ensures j > k ==> j * unit >= k * unit + unit
    ensures j < k ==> j * unit <= k * unit - unit
  {
    if j > k {
      MulMonotone(k + 1, j, unit);
    } else if j < k {
      MulMonotone(j, k - 1, unit);
    }
  }

  /** Floor division by a positive number is the only integer with the floor property. */
  lemma FloorUnique(n: int, d: int, q: int)
    requires d > 0
    requires q * d <= n < (q + 1) * d
    ensures n / d == q
  {
    var f := n / d;
    assert f * d <= n < (f + 1) * d;
    if f < q {
      MulMonotone(f + 1, q, d);
    } else if f > q {
      MulMonotone(q + 1, f, d);
    }
  }

  lemma FloorBounds(n: int, d: int)
    requires d > 0
    ensures (n / d) * d <= n < (n / d + 1) * d
  {
  }

  /** Dividing `q * d + r` by `d` takes the two parts apart again. */
  lemma SplitQuotient(q: int, d: int, r: int)
    requires 0 <= r < d
    ensures (q * d + r) / d == q && (q * d + r) % d == r
  {
    FloorUnique(q * d + r, d, q);
    assert q * d + r == ((q * d + r) / d) * d + (q * d + r) % d;
  }

  lemma SmallQuotient(x: int, d: int)
    requires 0 <= x < d
    ensures x / d == 0 && x % d == x
  {
    SplitQuotient(0, d, x);
  }

  /** Quotient and remainder of a natural number. */
  lemma DividedParts(n: nat, d: nat, q: int, r: int)
    requires d > 0 && q == n / d && r == n % d
    ensures q >= 0 && 0 <= r < d && n == q * d + r
  {
    FloorBounds(n, d);
    CancelFactor(-1, q, d);
  }

  lemma AbsScale(s: int, g: nat)
    ensures Abs(s * g) == Abs(s) * g
  {
    if s < 0 {
      assert (-s) * g == -(s * g);
      MulMonotone(s, 0, g);
    } else {
      MulMonotone(0, s, g);
    }
  }

  lemma FactorOut(u: nat, x: int, y: int)
    ensures Abs(u * x - u * y) == u * Abs(x - y)
  {
    MulCommute(u, x);
    MulCommute(u, y);
    MulDistribute(x, y, u);
    AbsScale(x - y, u);
    MulCommute(u, Abs(x - y));
  }

  lemma CompareScaled(u: nat, d: nat, c: nat)
    requires u > 0
    ensures 2 * (u * d) <= u * c <==> 2 * d <= c
  {
    MulDouble(u, d);
    MulCommute(u, 2 * d);
    MulCommute(u, c);
    CancelFactor(2 * d, c, u);
    if 2 * d <= c { MulMonotone(2 * d, c, u); }
  }

  function Power(base: nat, n: nat): nat {
    if n == 0 then 1 else base * Power(base, n - 1)
  }
}
