/** Positional notation, shared by the printers (any radix from 2) and the parser (radix 2 to 36). */
module Digits {
  import opened Powers

  /** Value of a character that is no digit in any radix. */
  const NO_DIGIT := 36

  /** Digits beyond z run on through the character codes, in an 8-bit char. */
  function DigitChar(d: nat): (c: char)
    ensures d < NO_DIGIT ==> DigitValue(c) == d
  {
    if d > 9 then ((d - 10 + 'a' as int) % 0x100) as char else (d + '0' as int) as char
  }

  function DigitValue(c: char): nat {
    if '0' <= c <= '9' then c as int - '0' as int
    else if 'a' <= c <= 'z' then c as int - 'a' as int + 10
    else if 'A' <= c <= 'Z' then c as int - 'A' as int + 10
    else NO_DIGIT
  }

  /** Numerals, most significant digit first. */
  function Numeral(n: nat, radix: nat): (s: string)
    requires 2 <= radix
    ensures |s| > 0
    decreases n
  {
    if n < radix then [DigitChar(n)]
    else
      QuotientShrinks(n, radix);
      Numeral(n / radix, radix) + [DigitChar(n % radix)]
  }

  lemma QuotientShrinks(n: nat, radix: nat)
    requires 2 <= radix && n > 0
    ensures 0 <= n / radix < n && 0 <= n % radix < radix && n == n / radix * radix + n % radix
  {
    FloorBounds(n, radix);
    CancelFactor(-1, n / radix, radix);
    if n / radix >= n {
      MulMonotone(n, n / radix, radix);
      MulMonotone(2, radix, n);
    }
  }

  /** The number a string of digits denotes. */
  function NumeralValue(s: string, radix: nat): nat {
    if s == [] then 0 else NumeralValue(s[..|s| - 1], radix) * radix + DigitValue(s[|s| - 1])
  }

  predicate AllDigits(s: string, radix: nat) {
    forall i :: 0 <= i < |s| ==> DigitValue(s[i]) < radix
  }

  /** Reading a numeral back gives the number. */
  lemma {:induction false} NumeralRoundTrip(n: nat, radix: nat)
    requires 2 <= radix <= 36
    ensures NumeralValue(Numeral(n, radix), radix) == n && AllDigits(Numeral(n, radix), radix)
    decreases n
  {
    if n < radix {
      assert NumeralValue([], radix) == 0;
    } else {
      QuotientShrinks(n, radix);
      NumeralRoundTrip(n / radix, radix);
      LastDigitValue(Numeral(n / radix, radix), DigitChar(n % radix), radix);
    }
  }

  lemma LastDigitValue(s: string, c: char, radix: nat)
    ensures NumeralValue(s + [c], radix) == NumeralValue(s, radix) * radix + DigitValue(c)
    ensures AllDigits(s, radix) && DigitValue(c) < radix ==> AllDigits(s + [c], radix)
  {
    assert (s + [c])[..|s|] == s;
  }

  /** A numeral starts with the digit zero only when it is the numeral of zero. */
  lemma {:induction false} NumeralLead(n: nat, radix: nat)
    requires 2 <= radix <= 36
    ensures Numeral(n, radix)[0] == '0' <==> n == 0
    ensures n == 0 ==> Numeral(n, radix) == "0"
    decreases n
  {
    if n >= radix {
      QuotientShrinks(n, radix);
      FloorBounds(n, radix);
      CancelFactor(0, n / radix, radix);
      NumeralLead(n / radix, radix);
    }
  }

  /** Digits of a radix in lower case, without leading zeros. */
  predicate Canonical(s: string, radix: nat) {
    && s != "" && AllDigits(s, radix) && (|s| > 1 ==> s[0] != '0')
    && forall i :: 0 <= i < |s| ==> !('A' <= s[i] <= 'Z')
  }

  /** The numeral of a number is the only such text that denotes it. */
  lemma {:induction false} NumeralUnique(s: string, radix: nat, n: nat)
    requires 2 <= radix <= 36 && Canonical(s, radix) && NumeralValue(s, radix) == n
    ensures s == Numeral(n, radix)
    decreases |s|, 1
  {
    var k := |s| - 1;
    var t := s[..k];
    DigitCharOf(s[k]);
    if k == 0 {
      assert NumeralValue(t, radix) == 0;
    } else {
      assert t[0] == s[0];
      LeadCounts(t, radix, NumeralValue(t, radix));
      DigitBehind(NumeralValue(t, radix), DigitValue(s[k]), radix, n);
      assert s == t + [s[k]];
    }
  }

  /** Digits that do not start with a zero are the numeral of a number that is not zero. */
  lemma {:induction false} LeadCounts(t: string, radix: nat, v: nat)
    requires 2 <= radix <= 36 && Canonical(t, radix) && t[0] != '0' && NumeralValue(t, radix) == v
    ensures v > 0 && t == Numeral(v, radix)
    decreases |t|, 2
  {
    NumeralUnique(t, radix, v);
    NumeralLead(v, radix);
  }

  lemma DigitBehind(v: nat, d: nat, radix: nat, n: nat)
    requires 2 <= radix && v > 0 && d < radix && n == v * radix + d
    ensures Numeral(n, radix) == Numeral(v, radix) + [DigitChar(d)]
  {
    MulMonotone(1, v, radix);
    SplitQuotient(v, radix, d);
  }

  lemma DigitCharOf(c: char)
    requires DigitValue(c) < NO_DIGIT && !('A' <= c <= 'Z')
    ensures DigitChar(DigitValue(c)) == c
  {
  }

  lemma {:induction false} NumeralCanonical(n: nat, radix: nat)
    requires 2 <= radix <= 36
    ensures Canonical(Numeral(n, radix), radix)
    decreases n
  {
    NumeralRoundTrip(n, radix);
    NumeralLead(n, radix);
    if n >= radix {
      QuotientShrinks(n, radix);
      NumeralCanonical(n / radix, radix);
    }
  }

  /** A longer run of digits never denotes a smaller number. */
  lemma {:induction false} PrefixValue(s: string, k: nat, radix: nat)
    requires k <= |s| && radix >= 1
    ensures NumeralValue(s[..k], radix) <= NumeralValue(s, radix)
    decreases |s|
  {
    if k == |s| {
      assert s[..k] == s;
    } else {
      var t := s[..|s| - 1];
      PrefixValue(t, k, radix);
      assert t[..k] == s[..k];
      MulMonotone(1, radix, NumeralValue(t, radix));
    }
  }

  /** Numerals of numbers below radix^len have at most len digits. */
  lemma {:induction false} NumeralLength(n: nat, radix: nat, len: nat)
    requires 2 <= radix && n < Power(radix, len) && len > 0
    ensures |Numeral(n, radix)| <= len
    decreases len
  {
    if n >= radix && len > 1 {
      QuotientShrinks(n, radix);
      CancelFactor(n / radix, Power(radix, len - 1), radix);
      MulCommute(radix, Power(radix, len - 1));
      NumeralLength(n / radix, radix, len - 1);
    }
  }

  /** Digits with a negative marker, as printed by `xtoa`. */
  function SignedText(negative: bool, n: nat, radix: nat): string
    requires 2 <= radix
  {
    (if negative then "-" else "") + Numeral(n, radix)
  }

  function Reversed(s: string): (r: string)
    ensures |r| == |s|
  {
    if s == [] then [] else [s[|s| - 1]] + Reversed(s[..|s| - 1])
  }

  lemma {:induction false} ReversedAt(s: string, k: nat)
    requires k < |s|
    ensures Reversed(s)[k] == s[|s| - 1 - k]
  {
    if k > 0 {
      ReversedAt(s[..|s| - 1], k - 1);
    }
  }
}
