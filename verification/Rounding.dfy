/**
 What it means to round well, independently of any routine.

 The exact result is a fraction `num / den` (both positive), the rounded one is
 `k * 2^e`, and candidates are `m * 2^c` with a `prec`-bit significand.
*/
module Rounding {
  import opened Powers

  /** Distance of a candidate from the exact fraction, times `den`. */
  function Distance(value: int, num: int, den: int): (d: nat) {
    Abs(value * den - num)
  }

  lemma UnitSplit(k: int, e: nat, den: int)
    ensures k * Pow2(e) * den == k * (Pow2(e) * den)
  {
    MulAssoc(k, Pow2(e), den);
  }

  /** Among the multiples of a unit, none beats one that is within half a unit. */
  lemma NearestMultiple(j: int, k: int, unit: nat, num: int)
    requires 2 * Abs(k * unit - num) <= unit
    ensures Abs(k * unit - num) <= Abs(j * unit - num)
    ensures j != k && Abs(j * unit - num) == Abs(k * unit - num) ==> 2 * Abs(k * unit - num) == unit
  {
    MultiplesApart(j, k, unit);
  }

  /** Candidates with a finer exponent stay below the binade the exact value lies in. */
  lemma FinerCandidate(prec: nat, m: nat, c: nat, e: nat)
    requires prec > 0 && m < Pow2(prec) && c < e
    ensures m * Pow2(c) < Pow2(prec - 1) * Pow2(e)
  {
    Pow2StrictlyMonotone(c, e);
    MulMonotone(2 * Pow2(c), Pow2(e), Pow2(prec - 1));
    assert Pow2(prec - 1) * Pow2(e) >= Pow2(prec) * Pow2(c) by {
      assert Pow2(prec) * Pow2(c) == Pow2(prec - 1) * (2 * Pow2(c));
    }
    MultiplesApart(m, Pow2(prec), Pow2(c));
  }

  /**
   A multiple `k` of 2^e within half a unit of `num / den` is a nearest
   number with a `prec`-bit significand, provided the exact value is not
   below the binade of 2^e; a different candidate can only be as near when
   the exact value is a tie.
  */
  lemma HalfUnitIsNearest(prec: nat, k: int, e: nat, num: int, den: nat, m: nat, c: nat)
    requires prec > 0 && den > 0 && m < Pow2(prec)
    requires 2 * Distance(k * Pow2(e), num, den) <= Pow2(e) * den
    requires Pow2(prec - 1) * (Pow2(e) * den) <= num
    ensures Distance(k * Pow2(e), num, den) <= Distance(m * Pow2(c), num, den)
    ensures m * Pow2(c) != k * Pow2(e) && Distance(m * Pow2(c), num, den) == Distance(k * Pow2(e), num, den)
            ==> 2 * Distance(k * Pow2(e), num, den) == Pow2(e) * den && c >= e
  {
    var unit := Pow2(e) * den;
    UnitSplit(k, e, den);
    if c >= e {
      Pow2Add(c - e, e);
      var j := m * Pow2(c - e);
      assert j * Pow2(e) == m * Pow2(c) by { MulAssoc(m, Pow2(c - e), Pow2(e)); }
      UnitSplit(j, e, den);
      NearestMultiple(j, k, unit, num);
    } else {
      var b := Pow2(prec - 1);
      UnitSplit(b, e, den);
      NearestMultiple(b, k, unit, num);
      FinerCandidate(prec, m, c, e);
      MultiplesApart(m * Pow2(c), b * Pow2(e), den);
      assert m * Pow2(c) * den < b * unit <= num;
    }
  }

  /**
   Strictly within half a unit, the rounded value beats every other candidate,
   and those of the other sign as well.
  */
  lemma StrictlyNearest(prec: nat, k: int, e: nat, num: int, den: nat, m: nat, c: nat)
    requires prec > 0 && den > 0 && m < Pow2(prec)
    requires 2 * Distance(k * Pow2(e), num, den) < Pow2(e) * den
    requires Pow2(prec - 1) * (Pow2(e) * den) <= num
    ensures m * Pow2(c) != k * Pow2(e) ==> Distance(k * Pow2(e), num, den) < Distance(m * Pow2(c), num, den)
    ensures Distance(k * Pow2(e), num, den) < m * Pow2(c) * den + num
  {
    HalfUnitIsNearest(prec, k, e, num, den, m, c);
    MulMonotone(1, Pow2(prec - 1), Pow2(e) * den);
    MulMonotone(0, m * Pow2(c), den);
  }

  /** A significand below the hidden bit's binade, at a finer exponent, stays half a unit away from that binade. */
  lemma BelowBinade(prec: nat, m: nat, c: nat, e: nat)
    requires m < Pow2(prec) && c < e
    ensures 2 * (m * Pow2(c)) + Pow2(e) <= Pow2(prec) * Pow2(e)
  {
    Pow2StrictlyMonotone(c, e);
    MulMonotone(2 * Pow2(c), Pow2(e), m);
    MulDouble(Pow2(c), m);
    MulMonotone(m + 1, Pow2(prec), Pow2(e));
    MulDistribute(m, 1, Pow2(e));
  }

  /** Shifting a normalised significand and landing in [h, 2h] shifts by at most one. */
  lemma ShiftWithinBinade(h: nat, m: nat, k: nat, j: nat)
    requires 0 < h <= m < 2 * h && k <= 2 * h && k == m * Pow2(j)
    ensures if k == 2 * h then j == 1 && m == h else j == 0 && m == k
  {
    var i := if j < 2 then j else 2;
    Pow2Monotone(i, j);
    MulMonotone(Pow2(i), Pow2(j), m);
  }
}
