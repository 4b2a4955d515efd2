/**
 `std_strtol` and `std_strtoul` against ISO/IEC 9899:1999, section 7.20.1.4.  The
 subject sequence is defined here from the text of the standard, as the longest
 initial part of the string that has the expected form; the scan of the code
 plays no part in it.
*/
module NumberTextStandard {
  import opened Words
  import opened Powers
  import opened Digits
  import opened NumberText
  import opened NumberTextTheorems

  // ----- the expected form

  /** The white space of section 7.4.1.10: blank, tab, new-line, vertical tab, form feed and carriage return. */
  lemma WhiteSpace(c: char)
    ensures IsSpace(c) <==> c in " \t\n\U{0B}\U{0C}\r"
  {
  }

  predicate IsSign(c: char) {
    c == '-' || c == '+'
  }

  /** A sequence without its optional sign. */
  function Body(t: string): string {
    if t != "" && IsSign(t[0]) then t[1..] else t
  }

  /** The integer constants of section 6.4.4.1, without suffixes. */
  predicate DecimalConstant(u: string) {
    u != "" && u[0] != '0' && AllDigits(u, 10)
  }

  predicate OctalConstant(u: string) {
    u != "" && u[0] == '0' && AllDigits(u, 8)
  }

  predicate HexConstant(u: string) {
    |u| >= 3 && u[0] == '0' && HexMark(u[1]) && AllDigits(u[2..], 16)
  }

  /** The expected form of a sequence without sign, for base 0 and for bases 2 to 36. */
  predicate ExpectedBody(u: string, base: int) {
    if base == 0 then DecimalConstant(u) || OctalConstant(u) || HexConstant(u)
    else (base > 0 && u != "" && AllDigits(u, base)) || (base == 16 && HexConstant(u))
  }

  predicate Expected(t: string, base: int) {
    ExpectedBody(Body(t), base)
  }

  /** The greatest number from w to e with a property; -1 without one. */
  function LastWhere(p: nat -> bool, w: nat, e: nat): (n: int)
    requires w <= e
    ensures n == -1 || (w <= n <= e && p(n))
    decreases e
  {
    if p(e) then e else if e == w then -1 else LastWhere(p, w, e - 1)
  }

  /** The places where a sequence of the expected form that starts behind the white space can end. */
  function SubjectEnds(s: string, base: int): nat -> bool {
    n => SkipSpaces(s, 0) <= n <= |s| && Expected(s[SkipSpaces(s, 0)..n], base)
  }

  /** End of the subject sequence, the longest of them; -1 without one. */
  function SubjectEnd(s: string, base: int): (n: int)
    ensures n == -1 || SkipSpaces(s, 0) <= n <= |s|
  {
    LastWhere(SubjectEnds(s, base), SkipSpaces(s, 0), |s|)
  }

  /** Where the standard sets the end pointer: behind the subject sequence, or at the start without one. */
  function StandardEnd(s: string, base: int): nat {
    if SubjectEnd(s, base) < 0 then 0 else SubjectEnd(s, base)
  }

  function BodyValue(u: string, base: int): nat {
    if HexConstant(u) && (base == 0 || base == 16) then NumeralValue(u[2..], 16)
    else if base == 0 then NumeralValue(u, if OctalConstant(u) then 8 else 10)
    else if base > 0 then NumeralValue(u, base)
    else 0
  }

  /** The value of the subject sequence, of any size; 0 without one. */
  function StandardValue(s: string, base: int): int {
    var w := SkipSpaces(s, 0);
    if SubjectEnd(s, base) < 0 then 0
    else
      var t := s[w..SubjectEnd(s, base)];
      if t != "" && t[0] == '-' then 0 - BodyValue(Body(t), base) else BodyValue(Body(t), base)
  }

  // ----- longest sequences

  lemma {:induction false} LastIs(p: nat -> bool, w: nat, e: nat, n: nat)
    requires w <= n <= e && p(n) && forall k :: n < k <= e ==> !p(k)
    ensures LastWhere(p, w, e) == n
    decreases e
  {
    if n < e {
      LastIs(p, w, e - 1, n);
    }
  }

  lemma {:induction false} LastNone(p: nat -> bool, w: nat, e: nat)
    requires w <= e && forall k :: w <= k <= e ==> !p(k)
    ensures LastWhere(p, w, e) == -1
    decreases e
  {
    if w < e {
      LastNone(p, w, e - 1);
    }
  }

  // ----- what the scan finds has the expected form, and nothing longer has

  /** Where the text without sign starts. */
  function BodyStart(s: string): (j: nat)
    ensures SkipSpaces(s, 0) <= j <= |s|
  {
    var w := SkipSpaces(s, 0);
    if IsSign(At(s, w)) then w + 1 else w
  }

  lemma BodyOf(s: string, e: nat)
    requires SkipSpaces(s, 0) <= e <= |s|
    ensures Body(s[SkipSpaces(s, 0)..e]) == if e >= BodyStart(s) then s[BodyStart(s)..e] else ""
  {
  }

  /** A 0x mark with no hexadecimal digit behind it. */
  predicate Dangling(s: string, base: int) {
    var j := BodyStart(s);
    (base == 0 || base == 16) && Marked(s, j) && DigitValue(At(s, j + 2)) >= 16
  }

  predicate Marked(s: string, j: nat) {
    At(s, j) == '0' && HexMark(At(s, j + 1))
  }

  lemma EmptyIsNot(base: int)
    ensures !ExpectedBody("", base)
  {
  }

  /** Digits of the radix the scan settles on, from j to last, in the three situations of the scan. */
  lemma PlainRun(s: string, j: nat, base: int, radix: nat, last: nat)
    requires ValidBase(base) && radix == DetectedBase(s, j, base) && !(radix == 16 && Marked(s, j))
    requires last == DigitsEnd(s, j, radix) && j <= |s|
    ensures last <= |s|
    ensures j < last ==>
              ExpectedBody(s[j..last], base) && BodyValue(s[j..last], base) == NumeralValue(s[j..last], radix)
    ensures forall e :: last < e <= |s| ==> !ExpectedBody(s[j..e], base)
  {
    if j < last {
      PlainRunExpected(s, j, base, radix, last);
    }
    forall e | last < e <= |s| ensures !ExpectedBody(s[j..e], base) {
      PlainRunStops(s, j, base, radix, last, e);
    }
  }

  lemma PlainRunExpected(s: string, j: nat, base: int, radix: nat, last: nat)
    requires ValidBase(base) && radix == DetectedBase(s, j, base) && !(radix == 16 && Marked(s, j))
    requires last == DigitsEnd(s, j, radix) && j < last <= |s|
    ensures ExpectedBody(s[j..last], base) && BodyValue(s[j..last], base) == NumeralValue(s[j..last], radix)
  {
    var u := s[j..last];
    assert u[0] == s[j];
    assert AllDigits(u, radix);
    if |u| >= 3 {
      assert u[1] == s[j + 1];
    }
  }

  lemma PlainRunStops(s: string, j: nat, base: int, radix: nat, last: nat, e: nat)
    requires ValidBase(base) && radix == DetectedBase(s, j, base) && !(radix == 16 && Marked(s, j))
    requires j <= last < e <= |s| && DigitValue(s[last]) >= radix
    ensures !ExpectedBody(s[j..e], base)
  {
    var u := s[j..e];
    assert u[last - j] == s[last] && u[0] == s[j];
    if |u| >= 2 {
      assert u[1] == s[j + 1];
    }
  }

  /** The same behind a 0x mark. */
  lemma MarkedRun(s: string, j: nat, base: int, last: nat)
    requires (base == 0 || base == 16) && Marked(s, j) && last == DigitsEnd(s, j + 2, 16) && j + 2 <= |s|
    ensures last <= |s|
    ensures j + 2 < last ==>
              ExpectedBody(s[j..last], base) && BodyValue(s[j..last], base) == NumeralValue(s[j + 2..last], 16)
    ensures forall e :: last < e <= |s| ==> !ExpectedBody(s[j..e], base)
    ensures last == j + 2 ==> !ExpectedBody(s[j..j + 2], base)
    ensures ExpectedBody(s[j..j + 1], base) && BodyValue(s[j..j + 1], base) == 0
  {
    MarkedZero(s, j, base);
    if j + 2 < last {
      var u := s[j..last];
      assert u[2..] == s[j + 2..last] && u[0] == s[j] && u[1] == s[j + 1];
    }
    forall e | last <= e <= |s| && (last == e ==> last == j + 2) ensures !ExpectedBody(s[j..e], base) {
      MarkedRunStops(s, j, base, last, e);
    }
  }

  lemma MarkedZero(s: string, j: nat, base: int)
    requires (base == 0 || base == 16) && Marked(s, j) && j + 2 <= |s|
    ensures ExpectedBody(s[j..j + 1], base) && BodyValue(s[j..j + 1], base) == 0
  {
    assert s[j..j + 1] == "0";
    assert NumeralValue("0"[..0], 8) == 0 && NumeralValue("0"[..0], 16) == 0;
  }

  lemma MarkedRunStops(s: string, j: nat, base: int, last: nat, e: nat)
    requires (base == 0 || base == 16) && Marked(s, j) && last == DigitsEnd(s, j + 2, 16)
    requires last <= e <= |s| && (last == e ==> last == j + 2)
    ensures !ExpectedBody(s[j..e], base)
  {
    var u := s[j..e];
    assert u[0] == s[j] && u[1] == s[j + 1];
    if last < e {
      assert u[2..][last - (j + 2)] == s[last];
    }
  }

  // ----- the scan against the subject sequence

  /** A run from the start of the body to last that nothing longer of the expected form covers. */
  lemma SubjectIs(s: string, base: int, last: nat)
    requires BodyStart(s) < last <= |s| && ExpectedBody(s[BodyStart(s)..last], base)
    requires forall e :: last < e <= |s| ==> !ExpectedBody(s[BodyStart(s)..e], base)
    ensures SubjectEnd(s, base) == last
    ensures StandardValue(s, base)
         == if At(s, SkipSpaces(s, 0)) == '-' then 0 - BodyValue(s[BodyStart(s)..last], base)
            else BodyValue(s[BodyStart(s)..last], base)
  {
    var w := SkipSpaces(s, 0);
    BodyOf(s, last);
    forall k | last < k <= |s| ensures !SubjectEnds(s, base)(k) {
      BodyOf(s, k);
    }
    LastIs(SubjectEnds(s, base), w, |s|, last);
    SubjectValue(s, base, last);
  }

  lemma SubjectValue(s: string, base: int, last: nat)
    requires BodyStart(s) < last <= |s| && SubjectEnd(s, base) == last
    ensures StandardValue(s, base)
         == if At(s, SkipSpaces(s, 0)) == '-' then 0 - BodyValue(s[BodyStart(s)..last], base)
            else BodyValue(s[BodyStart(s)..last], base)
  {
    var w := SkipSpaces(s, 0);
    BodyOf(s, last);
    assert s[w..last][0] == s[w];
  }

  lemma NoSubject(s: string, base: int)
    requires forall e :: BodyStart(s) <= e <= |s| ==> !ExpectedBody(s[BodyStart(s)..e], base)
    ensures SubjectEnd(s, base) == -1 && StandardValue(s, base) == 0
  {
    var w := SkipSpaces(s, 0);
    forall k | w <= k <= |s| ensures !SubjectEnds(s, base)(k) {
      BodyOf(s, k);
      EmptyIsNot(base);
    }
    LastNone(SubjectEnds(s, base), w, |s|);
  }

  /** The layout of the scan, by where the body starts. */
  lemma LayoutByBody(s: string, base: int)
    requires ValidBase(base)
    ensures var l, j := LayoutOf(s, base), BodyStart(s);
            l.negative == (At(s, SkipSpaces(s, 0)) == '-') && l.radix == DetectedBase(s, j, base)
            && l.first == (if l.radix == 16 && Marked(s, j) then j + 2 else j)
            && l.last == DigitsEnd(s, l.first, l.radix)
  {
  }

  /** Value and end of the subject sequence, from the layout the scan finds. */
  lemma SubjectOfLayout(s: string, base: int)
    requires ValidBase(base)
    ensures StandardValue(s, base) == TrueValue(s, base)
    ensures StandardEnd(s, base) == if Dangling(s, base) then BodyStart(s) + 1 else ParsedEnd(s, base)
  {
    LayoutByBody(s, base);
    var l, j := LayoutOf(s, base), BodyStart(s);
    if l.radix == 16 && Marked(s, j) {
      MarkedLayout(s, base, l, j);
    } else {
      PlainLayout(s, base, l, j);
    }
  }

  lemma PlainLayout(s: string, base: int, l: Layout, j: nat)
    requires ValidBase(base) && l == LayoutOf(s, base) && j == BodyStart(s)
    requires l.radix == DetectedBase(s, j, base) && !(l.radix == 16 && Marked(s, j))
    requires l.negative == (At(s, SkipSpaces(s, 0)) == '-') && l.first == j && l.last == DigitsEnd(s, j, l.radix)
    ensures StandardValue(s, base) == TrueValue(s, base)
    ensures !Dangling(s, base) && StandardEnd(s, base) == ParsedEnd(s, base)
  {
    PlainRun(s, j, base, l.radix, l.last);
    if j < l.last {
      SubjectIs(s, base, l.last);
    } else {
      assert s[j..j] == "";
      EmptyIsNot(base);
      NoSubject(s, base);
    }
  }

  lemma MarkedLayout(s: string, base: int, l: Layout, j: nat)
    requires ValidBase(base) && l == LayoutOf(s, base) && j == BodyStart(s)
    requires l.radix == DetectedBase(s, j, base) == 16 && Marked(s, j)
    requires l.negative == (At(s, SkipSpaces(s, 0)) == '-') && l.first == j + 2 && l.last == DigitsEnd(s, j + 2, 16)
    ensures StandardValue(s, base) == TrueValue(s, base)
    ensures StandardEnd(s, base) == if Dangling(s, base) then j + 1 else ParsedEnd(s, base)
  {
    MarkedRun(s, j, base, l.last);
    SubjectIs(s, base, if j + 2 < l.last then l.last else j + 1);
  }

  // ----- the theorems

  /**
   `std_strtol` returns what the standard asks for and reports ERANGE when the
   standard does; its end pointer is the standard's exactly when there is no 0x
   mark without a hexadecimal digit behind it.
  */
  lemma StrtolMeetsStandard(s: string, base: int)
    requires ValidBase(base)
    ensures Signed32(ParsedWord(s, base, false)) == ClampLong(StandardValue(s, base))
    ensures OutOfRange(s, base, false) <==> !IsLong(StandardValue(s, base))
    ensures ParsedEnd(s, base) == StandardEnd(s, base) <==> !Dangling(s, base)
  {
    StrtolSaturates(s, base);
    SubjectOfLayout(s, base);
    if Dangling(s, base) {
      DanglingEnd(s, base);
    }
  }

  lemma DanglingEnd(s: string, base: int)
    requires ValidBase(base) && Dangling(s, base)
    ensures ParsedEnd(s, base) == 0
  {
    LayoutByBody(s, base);
  }

  /** What the standard asks of strtoul: ULONG_MAX for a value that does not fit, negation in 32 bits otherwise. */
  function StandardUnsigned(s: string, base: int): nat {
    var v := StandardValue(s, base);
    if Abs(v) > ULONG_MAX then ULONG_MAX else Mod32(v)
  }

  /**
   `std_strtoul` returns that value exactly when the text does not have a minus
   sign in front of a number that does not fit; range errors and end pointer are
   as for `std_strtol`.
  */
  lemma StrtoulMeetsStandard(s: string, base: int)
    requires ValidBase(base)
    ensures ParsedWord(s, base, true) == StandardUnsigned(s, base) <==> StandardValue(s, base) >= -ULONG_MAX
    ensures OutOfRange(s, base, true) <==> Abs(StandardValue(s, base)) > ULONG_MAX
    ensures ParsedEnd(s, base) == StandardEnd(s, base) <==> !Dangling(s, base)
  {
    StrtoulByValue(s, base);
    SubjectOfLayout(s, base);
    if Dangling(s, base) {
      DanglingEnd(s, base);
    }
  }

  lemma StrtoulByValue(s: string, base: int)
    requires ValidBase(base)
    ensures var v := TrueValue(s, base);
            ParsedWord(s, base, true) == (if Abs(v) > ULONG_MAX then ULONG_MAX else Mod32(v)) <==> v >= -ULONG_MAX
    ensures OutOfRange(s, base, true) <==> Abs(TrueValue(s, base)) > ULONG_MAX
  {
    StrtoulSaturates(s, base);
  }

  /** 2^32 behind a minus sign: the saturated value is negated to 1. */
  lemma MinusOverflowGivesOne()
    ensures ParsedWord("-4294967296", 10, true) == 1 && StandardUnsigned("-4294967296", 10) == ULONG_MAX
  {
    var s, digits := "-4294967296", "4294967296";
    DecimalValue(digits);
    WrittenLayout("", true, "", digits, "", 10, 10);
    assert Written("", true, "", digits, "") == s;
    StrtoulSaturates(s, 10);
    SubjectOfLayout(s, 10);
  }

  lemma DecimalValue(digits: string)
    requires digits == "4294967296"
    ensures NumeralValue(digits, 10) == 0x1_0000_0000 && AllDigits(digits, 10)
  {
    assert NumeralValue(digits[..0], 10) == 0;
    assert digits[..10] == digits;
    assert NumeralValue(digits[..1], 10) == 4 by { assert digits[..1][..0] == digits[..0]; }
    assert NumeralValue(digits[..2], 10) == 42 by { assert digits[..2][..1] == digits[..1]; }
    assert NumeralValue(digits[..3], 10) == 429 by { assert digits[..3][..2] == digits[..2]; }
    assert NumeralValue(digits[..4], 10) == 4294 by { assert digits[..4][..3] == digits[..3]; }
    assert NumeralValue(digits[..5], 10) == 42949 by { assert digits[..5][..4] == digits[..4]; }
    assert NumeralValue(digits[..6], 10) == 429496 by { assert digits[..6][..5] == digits[..5]; }
    assert NumeralValue(digits[..7], 10) == 4294967 by { assert digits[..7][..6] == digits[..6]; }
    assert NumeralValue(digits[..8], 10) == 42949672 by { assert digits[..8][..7] == digits[..7]; }
    assert NumeralValue(digits[..9], 10) == 429496729 by { assert digits[..9][..8] == digits[..8]; }
    assert NumeralValue(digits[..10], 10) == 4294967296 by { assert digits[..10][..9] == digits[..9]; }
  }

  /** "0xg": the subject sequence is "0", but the code gives up at the start. */
  lemma LoneMarkGivesUp()
    ensures Dangling("0xg", 0) && Dangling("0xg", 16)
    ensures StandardEnd("0xg", 0) == StandardEnd("0xg", 16) == 1
    ensures ParsedEnd("0xg", 0) == ParsedEnd("0xg", 16) == 0
  {
    SubjectOfLayout("0xg", 0);
    SubjectOfLayout("0xg", 16);
    DanglingEnd("0xg", 0);
    DanglingEnd("0xg", 16);
  }
}
