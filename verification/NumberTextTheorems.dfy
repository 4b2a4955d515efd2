/** What the parser promises for every string, and how it undoes the printers. */
module NumberTextTheorems {
  import opened Words
  import opened Powers
  import opened Digits
  import opened NumberText

  /** The number a string denotes, of any size, with its sign. */
  function TrueValue(s: string, base: int): int
    requires ValidBase(base)
  {
    var l := LayoutOf(s, base);
    if l.negative then 0 - DigitRun(s, l) else DigitRun(s, l)
  }

  function ClampLong(n: int): int {
    if n > LONG_MAX then LONG_MAX else if n < -LONG_MAX - 1 then -LONG_MAX - 1 else n
  }

  lemma SignedWord(magnitude: nat, negative: bool)
    requires magnitude <= Limit(negative, false)
    ensures Signed32(WithSign(negative, magnitude)) == if negative then 0 - magnitude else magnitude
  {
  }

  /** `std_strtol` returns the true value clamped to the long range, and reports ERANGE exactly when it had to clamp. */
  lemma StrtolSaturates(s: string, base: int)
    requires ValidBase(base)
    ensures Signed32(ParsedWord(s, base, false)) == ClampLong(TrueValue(s, base))
    ensures OutOfRange(s, base, false) <==> !IsLong(TrueValue(s, base))
  {
    var l := LayoutOf(s, base);
    SignedWord(Smaller(DigitRun(s, l), Limit(l.negative, false)), l.negative);
  }

  /** ULONG_MAX when the digits do not fit, otherwise the (negated) value modulo 2^32. */
  function SaturatedWord(s: string, base: int): nat
    requires ValidBase(base)
  {
    var l := LayoutOf(s, base);
    if DigitRun(s, l) > ULONG_MAX then ULONG_MAX else WithSign(l.negative, DigitRun(s, l))
  }

  /**
   `std_strtoul` returns that value, except exactly for a minus sign in front
   of digits that do not fit: it negates the saturated value too, which gives 1.
  */
  lemma StrtoulSaturates(s: string, base: int)
    requires ValidBase(base)
    ensures ParsedWord(s, base, true) == SaturatedWord(s, base)
            <==> !(LayoutOf(s, base).negative && DigitRun(s, LayoutOf(s, base)) > ULONG_MAX)
    ensures !LayoutOf(s, base).negative ==>
            ParsedWord(s, base, true) == Smaller(DigitRun(s, LayoutOf(s, base)), ULONG_MAX)
    ensures OutOfRange(s, base, true) <==> DigitRun(s, LayoutOf(s, base)) > ULONG_MAX
    ensures LayoutOf(s, base).negative && OutOfRange(s, base, true) ==> ParsedWord(s, base, true) == 1
  {
    assert WithSign(true, ULONG_MAX) == 1;
  }

  predicate AllSpaces(s: string) {
    forall i :: 0 <= i < |s| ==> IsSpace(s[i])
  }

  /** Nothing after the digits, or a character that ends the number and is no radix mark. */
  predicate Ends(rest: string, radix: nat) {
    rest == "" || (DigitValue(rest[0]) >= radix && !HexMark(rest[0]))
  }

  lemma {:induction false} SkipPad(s: string, i: nat, n: nat)
    requires i <= n <= |s| && AllSpaces(s[i..n]) && !IsSpace(At(s, n))
    ensures SkipSpaces(s, i) == n
    decreases n - i
  {
    if i < n {
      assert s[i] == s[i..n][0];
      assert s[i + 1..n] == s[i..n][1..];
      SkipPad(s, i + 1, n);
    }
  }

  lemma {:induction false} RunOfDigits(s: string, i: nat, n: nat, radix: nat)
    requires 2 <= radix <= 36 && i <= n <= |s|
    requires AllDigits(s[i..n], radix) && DigitValue(At(s, n)) >= radix
    ensures DigitsEnd(s, i, radix) == n
    decreases n - i
  {
    if i < n {
      assert s[i] == s[i..n][0];
      assert s[i + 1..n] == s[i..n][1..];
      RunOfDigits(s, i + 1, n, radix);
    }
  }

  function SignMark(negative: bool): string {
    if negative then "-" else ""
  }

  /** pad, sign, prefix, digits, rest. */
  function Written(pad: string, negative: bool, prefix: string, digits: string, rest: string): string {
    pad + SignMark(negative) + prefix + digits + rest
  }

  /** A digit is neither white space nor a sign. */
  lemma DigitIsPlain(c: char)
    requires DigitValue(c) < 36
    ensures !IsSpace(c) && c != '-' && c != '+'
  {
  }

  /** The characters of a written number, by position. */
  lemma WrittenParts(pad: string, negative: bool, prefix: string, digits: string, rest: string)
    requires digits != ""
    ensures var s := Written(pad, negative, prefix, digits, rest); var body := prefix + digits;
            var j := |pad| + |SignMark(negative)|; var k := j + |prefix|;
            s[..|pad|] == pad && s[k..k + |digits|] == digits && k + |digits| <= |s|
            && At(s, |pad|) == (if negative then '-' else body[0])
            && At(s, j) == body[0] && At(s, j + 1) == At(body + rest, 1)
            && At(s, k + |digits|) == At(rest, 0)
  {
  }

  /** The prefix is the one the base asks for; without one, base 0 means octal or decimal by the first digit. */
  predicate PrefixFits(prefix: string, lead: char, base: int, radix: nat) {
    if prefix == "" then base == radix || (base == 0 && radix == (if lead == '0' then 8 else 10))
    else radix == 16 && (prefix == "0x" || prefix == "0X") && (base == 0 || base == 16)
  }

  lemma WrittenPrefix(pad: string, negative: bool, prefix: string, digits: string, rest: string, base: int, radix: nat)
    requires AllSpaces(pad) && digits != "" && 2 <= radix <= 36 && AllDigits(digits, radix) && Ends(rest, radix)
    requires ValidBase(base) && PrefixFits(prefix, digits[0], base, radix)
    ensures var s := Written(pad, negative, prefix, digits, rest);
            PrefixOf(s, base) == (negative, radix, |pad| + |SignMark(negative)| + |prefix|)
  {
    var s := Written(pad, negative, prefix, digits, rest);
    var j := |pad| + |SignMark(negative)|;
    WrittenParts(pad, negative, prefix, digits, rest);
    DigitIsPlain(digits[0]);
    assert s[0..|pad|] == s[..|pad|];
    SkipPad(s, 0, |pad|);
    if prefix == "" {
      assert prefix + digits == digits;
      NoAccidentalMark(digits, rest, radix);
      UnmarkedPrefix(s, base, negative, radix, |pad|, j);
    } else {
      assert (prefix + digits)[0] == '0' && HexMark(At(prefix + digits + rest, 1));
      MarkedPrefix(s, base, negative, |pad|, j);
    }
  }

  /** Behind the white space at n stands a minus sign or the number itself, which starts at j. */
  predicate SignAt(s: string, negative: bool, n: nat, j: nat) {
    && SkipSpaces(s, 0) == n && (At(s, n) == '-' <==> negative) && At(s, n) != '+'
    && j == n + if negative then 1 else 0
  }

  lemma UnmarkedPrefix(s: string, base: int, negative: bool, radix: nat, n: nat, j: nat)
    requires SignAt(s, negative, n, j) && 2 <= radix <= 36 && (radix <= 16 ==> !HexMark(At(s, j + 1)))
    requires base == radix || (base == 0 && radix == (if At(s, j) == '0' then 8 else 10))
    ensures PrefixOf(s, base) == (negative, radix, j)
  {
  }

  lemma MarkedPrefix(s: string, base: int, negative: bool, n: nat, j: nat)
    requires SignAt(s, negative, n, j) && At(s, j) == '0' && HexMark(At(s, j + 1)) && (base == 0 || base == 16)
    ensures PrefixOf(s, base) == (negative, 16, j + 2)
  {
  }

  /** White space, an optional minus sign, a radix prefix and digits are taken apart as written. */
  lemma WrittenLayout(pad: string, negative: bool, prefix: string, digits: string, rest: string, base: int, radix: nat)
    requires AllSpaces(pad) && digits != "" && 2 <= radix <= 36 && AllDigits(digits, radix) && Ends(rest, radix)
    requires ValidBase(base) && PrefixFits(prefix, digits[0], base, radix)
    ensures var s := Written(pad, negative, prefix, digits, rest); var first := |pad| + |SignMark(negative)| + |prefix|;
            LayoutOf(s, base) == Layout(negative, radix, first, first + |digits|)
            && DigitRun(s, LayoutOf(s, base)) == NumeralValue(digits, radix)
  {
    WrittenParts(pad, negative, prefix, digits, rest);
    WrittenPrefix(pad, negative, prefix, digits, rest, base, radix);
    var first := |pad| + |SignMark(negative)| + |prefix|;
    LayoutOfRun(Written(pad, negative, prefix, digits, rest), base, negative, radix, first, digits);
  }

  lemma LayoutOfRun(s: string, base: int, negative: bool, radix: nat, first: nat, digits: string)
    requires ValidBase(base) && PrefixOf(s, base) == (negative, radix, first)
    requires 2 <= radix <= 36 && digits != "" && AllDigits(digits, radix) && first + |digits| <= |s|
    requires s[first..first + |digits|] == digits && DigitValue(At(s, first + |digits|)) >= radix
    ensures LayoutOf(s, base) == Layout(negative, radix, first, first + |digits|)
    ensures DigitRun(s, LayoutOf(s, base)) == NumeralValue(digits, radix)
  {
    RunLayout(s, first, digits, radix);
  }

  lemma RunLayout(s: string, first: nat, digits: string, radix: nat)
    requires 2 <= radix <= 36 && digits != "" && AllDigits(digits, radix) && first + |digits| <= |s|
    requires s[first..first + |digits|] == digits && DigitValue(At(s, first + |digits|)) >= radix
    ensures DigitsEnd(s, first, radix) == first + |digits|
    ensures RunValue(s, first, first + |digits|, radix) == NumeralValue(digits, radix)
  {
    RunOfDigits(s, first, first + |digits|, radix);
  }

  /** Digits of a radix below 34 are not followed by an x that could be taken for a radix mark. */
  lemma NoAccidentalMark(digits: string, rest: string, radix: nat)
    requires digits != "" && AllDigits(digits, radix) && Ends(rest, radix)
    ensures radix <= 16 ==> !HexMark(At(digits + rest, 1))
  {
    if |digits| == 1 {
      assert At(digits + rest, 1) == At(rest, 0);
    } else {
      assert At(digits + rest, 1) == digits[1];
    }
  }

  /** The parser reads back a number written in any radix, with white space before and anything but a digit after. */
  lemma WrittenNumberParses(pad: string, negative: bool, prefix: string, digits: string, rest: string, base: int,
      radix: nat)
    requires AllSpaces(pad) && digits != "" && 2 <= radix <= 36 && AllDigits(digits, radix) && Ends(rest, radix)
    requires ValidBase(base) && PrefixFits(prefix, digits[0], base, radix)
    requires NumeralValue(digits, radix) <= ULONG_MAX
    ensures var s := Written(pad, negative, prefix, digits, rest);
            ParsedWord(s, base, true) == WithSign(negative, NumeralValue(digits, radix))
            && ParsedEnd(s, base) == |s| - |rest|
            && !OutOfRange(s, base, true)
            && TrueValue(s, base) == if negative then 0 - NumeralValue(digits, radix) else NumeralValue(digits, radix)
  {
    WrittenLayout(pad, negative, prefix, digits, rest, base, radix);
  }

  /** `std_strtoul` of `std_ultoa` gives the value back, consuming all the text, in every radix. */
  lemma UltoaRoundTrip(v: nat, radix: nat)
    requires v <= ULONG_MAX && 2 <= radix <= 36
    ensures var s := Numeral(v, radix);
            ParsedWord(s, radix, true) == v && ParsedEnd(s, radix) == |s| && !OutOfRange(s, radix, true)
  {
    var s := Numeral(v, radix);
    NumeralRoundTrip(v, radix);
    assert Written("", false, "", s, "") == s;
    WrittenNumberParses("", false, "", s, "", radix, radix);
  }

  /**
   `std_strtol` of `std_ltoa` gives every long back in radix 10; in the other
   radices a negative number is printed as its 32-bit pattern, which
   `std_strtoul` reads back.
  */
  lemma LtoaRoundTrip(v: int, radix: nat)
    requires IsLong(v) && 2 <= radix <= 36
    ensures var s := LongText(v, radix);
            (radix == 10 ==> Signed32(ParsedWord(s, 10, false)) == v && !OutOfRange(s, 10, false))
            && (radix != 10 ==> ParsedWord(s, radix, true) == Mod32(v))
            && ParsedEnd(s, radix) == |s|
  {
    if radix == 10 {
      DecimalRoundTrip(v, 10);
    } else {
      UltoaRoundTrip(Mod32(v), radix);
    }
  }

  lemma DecimalRoundTrip(v: int, radix: nat)
    requires IsLong(v) && radix == 10
    ensures var s := LongText(v, radix);
            TrueValue(s, radix) == v && ParsedEnd(s, radix) == |s|
            && Signed32(ParsedWord(s, radix, false)) == v && !OutOfRange(s, radix, false)
  {
    var digits := Numeral(Abs(v), radix);
    NumeralRoundTrip(Abs(v), radix);
    PlainLongText(v, radix);
    WrittenNumberParses("", v < 0, "", digits, "", radix, radix);
    StrtolSaturates(LongText(v, radix), radix);
  }

  lemma PlainLongText(v: int, radix: nat)
    requires IsLong(v) && radix == 10
    ensures LongText(v, radix) == Written("", v < 0, "", Numeral(Abs(v), radix), "")
  {
    if v >= 0 {
      SmallQuotient(v, 0x1_0000_0000);
    }
  }
}
