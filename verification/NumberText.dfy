/** `xtoa` with its wrappers, and `strtoxl` with `std_strtol` and `std_strtoul`. */
module NumberText {
  import opened Words
  import opened Powers
  import opened Digits

  const ULONG_MAX := 0xFFFF_FFFF
  const LONG_MAX := 0x7FFF_FFFF
  const ERANGE := 34

  predicate IsLong(n: int) { -LONG_MAX - 1 <= n <= LONG_MAX }

  // ----- printing

  /** Negation of an unsigned long. */
  function Negated(val: nat, isNeg: bool): nat {
    if isNeg then Mod32(0 - val) else val
  }

  /** The text `xtoa` leaves in the buffer. */
  function XtoaText(val: nat, radix: nat, isNeg: bool): string
    requires 2 <= radix
  {
    SignedText(isNeg, Negated(val, isNeg), radix)
  }

  method Xtoa(val: nat, buf: array<char>, radix: nat, isNeg: bool)
    requires val <= ULONG_MAX && 2 <= radix
    requires |XtoaText(val, radix, isNeg)| < buf.Length
    modifies buf
    ensures var t := XtoaText(val, radix, isNeg);
            buf[..|t|] == t && buf[|t|] == '\0' && forall k :: |t| < k < buf.Length ==> buf[k] == old(buf[k])
  {
    if isNeg {
      buf[0] := '-';
      WriteNumeral(buf, 1, Negated(val, true), radix);
      assert buf[..1] == "-";
    } else {
      WriteNumeral(buf, 0, val, radix);
    }
  }

  /** Everything after the sign: digits in reverse, the terminator, and the reversal. */
  method WriteNumeral(buf: array<char>, first: nat, n: nat, radix: nat)
    requires 2 <= radix && first + |Numeral(n, radix)| < buf.Length
    modifies buf
    ensures var end := first + |Numeral(n, radix)|;
            buf[first..end] == Numeral(n, radix) && buf[end] == '\0'
            && forall k :: 0 <= k < first || end < k < buf.Length ==> buf[k] == old(buf[k])
  {
    var p := StoreDigits(buf, first, n, radix);
    TerminateAndReverse(buf, first, p, Numeral(n, radix));
  }

  method TerminateAndReverse(buf: array<char>, first: nat, end: nat, ghost text: string)
    requires first < end < buf.Length && buf[first..end] == Reversed(text)
    modifies buf
    ensures buf[first..end] == text && buf[end] == '\0'
    ensures forall k :: 0 <= k < first || end < k < buf.Length ==> buf[k] == old(buf[k])
  {
    ghost var digits := buf[first..end];
    buf[end] := '\0';
    assert buf[first..end] == digits;
    ReverseInPlace(buf, first, end);
    ReversedTwice(text);
  }

  /** The digit loop: least significant digit first. */
  method StoreDigits(buf: array<char>, first: nat, val: nat, radix: nat) returns (p: nat)
    requires 2 <= radix && first + |Numeral(val, radix)| < buf.Length
    modifies buf
    ensures p == first + |Numeral(val, radix)|
    ensures buf[first..p] == Reversed(Numeral(val, radix))
    ensures forall k :: 0 <= k < first ==> buf[k] == old(buf[k])
    ensures forall k :: p <= k < buf.Length ==> buf[k] == old(buf[k])
  {
    ghost var stored := "";
    p := first;
    var n: nat := val;
    while true
      invariant first <= p && Numeral(val, radix) == Numeral(n, radix) + Reversed(stored)
      invariant p + |Numeral(n, radix)| == first + |Numeral(val, radix)|
      invariant buf[first..p] == stored
      invariant forall k :: 0 <= k < first || p <= k < buf.Length ==> buf[k] == old(buf[k])
      decreases n
    {
      QuotientStep(n, radix, stored);
      var digit: nat := n % radix;
      n := n / radix;
      StoreDigit(buf, first, p, DigitChar(digit));
      stored := stored + [DigitChar(digit)];
      p := p + 1;
      if n == 0 {
        assert Numeral(val, radix) == Reversed(stored);
        break;
      }
    }
    ReversedTwice(stored);
  }

  method StoreDigit(buf: array<char>, first: nat, p: nat, c: char)
    requires first <= p < buf.Length
    modifies buf
    ensures buf[first..p + 1] == old(buf[first..p]) + [c]
    ensures forall k :: 0 <= k < first || p < k < buf.Length ==> buf[k] == old(buf[k])
  {
    buf[p] := c;
  }

  lemma ReversedSnoc(s: string, c: char)
    ensures Reversed(s + [c]) == [c] + Reversed(s)
  {
    assert (s + [c])[..|s|] == s;
  }

  /** Moving the last digit from the number to the digits already stored. */
  lemma QuotientStep(n: nat, radix: nat, stored: string)
    requires 2 <= radix
    ensures 0 <= n % radix < radix && 0 <= n / radix && (n > 0 ==> n / radix < n)
    ensures var rest := Reversed(stored + [DigitChar(n % radix)]);
            if n / radix == 0 then Numeral(n, radix) + Reversed(stored) == rest && |Numeral(n, radix)| == 1
            else Numeral(n, radix) + Reversed(stored) == Numeral(n / radix, radix) + rest
                 && |Numeral(n, radix)| == |Numeral(n / radix, radix)| + 1
  {
    if n < radix {
      SmallQuotient(n, radix);
      ReversedSnoc(stored, DigitChar(n));
    } else {
      QuotientShrinks(n, radix);
      FloorBounds(n, radix);
      CancelFactor(0, n / radix, radix);
      ReversedSnoc(stored, DigitChar(n % radix));
      SeqAssoc(Numeral(n / radix, radix), [DigitChar(n % radix)], Reversed(stored));
    }
  }

  lemma SeqAssoc(a: string, b: string, c: string)
    ensures a + b + c == a + (b + c)
  {
  }

  lemma {:induction false} ReversedTwice(s: string)
    ensures Reversed(Reversed(s)) == s
  {
    forall k | 0 <= k < |s| ensures Reversed(Reversed(s))[k] == s[k] {
      ReversedAt(Reversed(s), k);
      ReversedAt(s, |s| - 1 - k);
    }
  }

  /** The swap loop; it runs at least once, so the stretch is not empty. */
  method ReverseInPlace(buf: array<char>, first: nat, end: nat)
    requires first < end <= buf.Length
    modifies buf
    ensures buf[first..end] == Reversed(old(buf[first..end]))
    ensures forall k :: 0 <= k < first || end <= k < buf.Length ==> buf[k] == old(buf[k])
  {
    ghost var was := buf[..];
    var lo, hi := first, end - 1;
    while true
      invariant first <= lo && lo + hi == first + end - 1
      invariant lo <= hi < end
      invariant PartlyReversed(buf[..], was, first, end, lo, hi)
      decreases hi - lo
    {
      MirrorStep(buf[..], was, first, end, lo, hi);
      Swap(buf, lo, hi);
      hi := hi - 1;
      lo := lo + 1;
      if lo >= hi {
        break;
      }
    }
    MiddleStays(buf[..], was, first, end, lo, hi);
    ReversalComplete(buf[first..end], was[first..end]);
  }

  /** What place k holds while lo..hi is still to be mirrored. */
  function Mirrored(was: string, first: nat, end: nat, lo: nat, hi: int, k: nat): char
    requires end <= |was| && k < |was|
  {
    if first <= k < end && (k < lo || hi < k) then was[first + end - 1 - k] else was[k]
  }

  predicate PartlyReversed(now: string, was: string, first: nat, end: nat, lo: nat, hi: int)
  {
    |now| == |was| && end <= |now|
    && forall k :: 0 <= k < |now| ==> now[k] == Mirrored(was, first, end, lo, hi, k)
  }

  lemma MiddleStays(now: string, was: string, first: nat, end: nat, lo: nat, hi: int)
    requires lo + hi == first + end - 1 && hi <= lo <= hi + 2 && PartlyReversed(now, was, first, end, lo, hi)
    ensures end <= |now| == |was|
    ensures forall k :: 0 <= k < |now| ==> now[k] == Mirrored(was, first, end, end, first - 1, k)
  {
  }

  /** The content after swapping two places. */
  function Swapped(now: string, lo: nat, hi: nat): (r: string)
    requires lo <= hi < |now|
    ensures |r| == |now|
  {
    now[lo := now[hi]][hi := now[lo]]
  }

  lemma MirrorStep(now: string, was: string, first: nat, end: nat, lo: nat, hi: nat)
    requires first <= lo <= hi < end && lo + hi == first + end - 1 && PartlyReversed(now, was, first, end, lo, hi)
    ensures PartlyReversed(Swapped(now, lo, hi), was, first, end, lo + 1, hi - 1)
  {
    var next := Swapped(now, lo, hi);
    forall k | 0 <= k < |now| ensures next[k] == Mirrored(was, first, end, lo + 1, hi - 1, k) {
      assert now[k] == Mirrored(was, first, end, lo, hi, k);
    }
  }

  method Swap(buf: array<char>, lo: nat, hi: nat)
    requires lo <= hi < buf.Length
    modifies buf
    ensures buf[..] == Swapped(old(buf[..]), lo, hi)
  {
    buf[lo], buf[hi] := buf[hi], buf[lo];
  }

  lemma ReversalComplete(now: string, was: string)
    requires |now| == |was| && forall k :: 0 <= k < |was| ==> now[k] == was[|was| - 1 - k]
    ensures now == Reversed(was)
  {
    forall k | 0 <= k < |was| ensures now[k] == Reversed(was)[k] {
      ReversedAt(was, k);
    }
  }

  /** What `std_ltoa` and `std_itoa` print: a minus sign in radix 10 only, the 32-bit pattern otherwise. */
  function LongText(val: int, radix: nat): string
    requires IsLong(val) && 2 <= radix
  {
    if radix == 10 && val < 0 then SignedText(true, -val, 10) else Numeral(Mod32(val), radix)
  }

  lemma NegatedLong(val: int)
    requires IsLong(val) && val < 0
    ensures Negated(Mod32(val), true) == -val
  {
  }

  method Ltoa(val: int, buf: array<char>, radix: nat)
    requires IsLong(val) && 2 <= radix && |LongText(val, radix)| < buf.Length
    modifies buf
    ensures var t := LongText(val, radix);
            buf[..|t|] == t && buf[|t|] == '\0' && forall k :: |t| < k < buf.Length ==> buf[k] == old(buf[k])
  {
    if radix == 10 && val < 0 {
      NegatedLong(val);
      Xtoa(Mod32(val), buf, radix, true);
    } else {
      Xtoa(Mod32(val), buf, radix, false);
    }
  }

  method Ultoa(val: nat, buf: array<char>, radix: nat)
    requires val <= ULONG_MAX && 2 <= radix && |Numeral(val, radix)| < buf.Length
    modifies buf
    ensures var t := Numeral(val, radix);
            buf[..|t|] == t && buf[|t|] == '\0' && forall k :: |t| < k < buf.Length ==> buf[k] == old(buf[k])
  {
    Xtoa(val, buf, radix, false);
  }

  // ----- parsing

  /** A C string: the characters, then the terminator. */
  function At(s: string, i: nat): char {
    if i < |s| then s[i] else '\0'
  }

  /** `std_isspace`: blank and the control characters 9 to 13. */
  predicate IsSpace(c: char) {
    c == ' ' || 9 <= c as int <= 13
  }

  function SkipSpaces(s: string, i: nat): (j: nat)
    requires i <= |s|
    ensures i <= j <= |s| && !IsSpace(At(s, j))
    ensures forall k :: i <= k < j ==> IsSpace(s[k])
    decreases |s| - i
  {
    if IsSpace(At(s, i)) then SkipSpaces(s, i + 1) else i
  }

  /** End of the run of digits of a radix that starts at i. */
  function DigitsEnd(s: string, i: nat, radix: nat): (j: nat)
    requires 2 <= radix <= 36
    ensures i <= j && (i <= |s| ==> j <= |s|) && DigitValue(At(s, j)) >= radix
    ensures forall k :: i <= k < j ==> k < |s| && DigitValue(s[k]) < radix
    decreases |s| - i
  {
    if DigitValue(At(s, i)) < radix then DigitsEnd(s, i + 1, radix) else i
  }

  /** Where the sign, the radix prefix and the digits are. */
  datatype Layout = Layout(negative: bool, radix: nat, first: nat, last: nat)

  predicate ValidBase(base: int) {
    base == 0 || 2 <= base <= 36
  }

  predicate HexMark(c: char) {
    c == 'x' || c == 'X'
  }

  function DetectedBase(s: string, i: nat, base: int): (r: nat)
    requires ValidBase(base)
    ensures 2 <= r <= 36
  {
    if base != 0 then base
    else if At(s, i) == '0' then (if HexMark(At(s, i + 1)) then 16 else 8)
    else 10
  }

  /** Sign, radix and the index of the first digit. */
  function PrefixOf(s: string, base: int): (p: (bool, nat, nat))
    requires ValidBase(base)
    ensures 2 <= p.1 <= 36
  {
    var i := SkipSpaces(s, 0);
    var j := if At(s, i) == '-' || At(s, i) == '+' then i + 1 else i;
    var radix := DetectedBase(s, j, base);
    (At(s, i) == '-', radix, if radix == 16 && At(s, j) == '0' && HexMark(At(s, j + 1)) then j + 2 else j)
  }

  function LayoutOf(s: string, base: int): (l: Layout)
    requires ValidBase(base)
    ensures 2 <= l.radix <= 36 && l.first <= l.last && (l.first < l.last ==> l.last <= |s|)
  {
    var p := PrefixOf(s, base);
    Layout(p.0, p.1, p.2, DigitsEnd(s, p.2, p.1))
  }

  /** The number the digits denote, of any length. */
  function DigitRun(s: string, l: Layout): nat
    requires l.first <= l.last && (l.first < l.last ==> l.last <= |s|)
  {
    RunValue(s, l.first, l.last, l.radix)
  }

  function RunValue(s: string, first: nat, last: nat, radix: nat): nat
    requires first <= last && (first < last ==> last <= |s|)
  {
    if first == last then 0 else NumeralValue(s[first..last], radix)
  }

  /** Largest magnitude the caller accepts for that sign. */
  function Limit(negative: bool, isUnsigned: bool): nat {
    if isUnsigned then ULONG_MAX else if negative then LONG_MAX + 1 else LONG_MAX
  }

  function Smaller(x: nat, y: nat): nat {
    if x < y then x else y
  }

  /** The 32-bit word `strtoxl` returns. */
  function ParsedWord(s: string, base: int, isUnsigned: bool): nat {
    if !ValidBase(base) then 0
    else
      var l := LayoutOf(s, base);
      WithSign(l.negative, Smaller(DigitRun(s, l), Limit(l.negative, isUnsigned)))
  }

  /** The last step negates the 32-bit word. */
  function WithSign(negative: bool, magnitude: nat): nat {
    if negative then Mod32(0 - magnitude) else magnitude
  }

  /** Where `*pend` is set; back to the start when there was no digit. */
  function ParsedEnd(s: string, base: int): nat {
    if !ValidBase(base) then 0
    else
      var l := LayoutOf(s, base);
      if l.first == l.last then 0 else l.last
  }

  predicate OutOfRange(s: string, base: int, isUnsigned: bool) {
    ValidBase(base) &&
    var l := LayoutOf(s, base);
    DigitRun(s, l) > Limit(l.negative, isUnsigned)
  }

  class Parser {
    /** The global `errno`. */
    var errno: int

    method StrToXl(s: string, base: int, isUnsigned: bool) returns (word: nat, end: nat)
      modifies this
      ensures word == ParsedWord(s, base, isUnsigned) && end == ParsedEnd(s, base)
      ensures errno == if OutOfRange(s, base, isUnsigned) then ERANGE else old(errno)
    {
      if base < 0 || base == 1 || base > 36 {
        return 0, 0;
      }
      var negative, radix, cur := ScanPrefix(s, base);
      ghost var l := LayoutOf(s, base);
      var nadd, overflow, last := Accumulate(s, cur, radix);
      TallyLimit(DigitRun(s, l), nadd, overflow, Limit(negative, isUnsigned));
      end := if last == cur then 0 else last;
      if overflow || nadd > Limit(negative, isUnsigned) {
        errno := ERANGE;
        nadd := Limit(negative, isUnsigned);
      }
      assert nadd == Smaller(DigitRun(s, l), Limit(negative, isUnsigned));
      word := WithSign(negative, nadd);
    }

    /** White space, one sign, and the radix prefix. */
    method ScanPrefix(s: string, base: int) returns (negative: bool, radix: nat, cur: nat)
      requires ValidBase(base)
      ensures PrefixOf(s, base) == (negative, radix, cur)
    {
      cur := 0;
      while IsSpace(At(s, cur))
        invariant cur <= |s| && SkipSpaces(s, 0) == SkipSpaces(s, cur)
        decreases |s| - cur
      {
        cur := cur + 1;
      }
      negative := false;
      if At(s, cur) == '-' {
        negative := true;
        cur := cur + 1;
      } else if At(s, cur) == '+' {
        cur := cur + 1;
      }
      radix := if base == 0 then 10 else base;
      if base == 0 && At(s, cur) == '0' {
        radix := if HexMark(At(s, cur + 1)) then 16 else 8;
      }
      if radix == 16 && At(s, cur) == '0' && HexMark(At(s, cur + 1)) {
        cur := cur + 2;
      }
    }

    /** The digit loop, which stops adding once a digit would not fit. */
    method Accumulate(s: string, first: nat, radix: nat) returns (nadd: nat, overflow: bool, last: nat)
      requires 2 <= radix <= 36
      ensures last == DigitsEnd(s, first, radix)
      ensures Tally(RunValue(s, first, last, radix), nadd, overflow)
    {
      var maxval := ULONG_MAX / radix;
      nadd, overflow, last := 0, false, first;
      while DigitValue(At(s, last)) < radix
        invariant first <= last && DigitsEnd(s, first, radix) == DigitsEnd(s, last, radix)
        invariant first < last ==> last <= |s|
        invariant Tally(RunValue(s, first, last, radix), nadd, overflow)
        decreases |s| - last
      {
        var val := DigitValue(At(s, last));
        TallyStep(RunValue(s, first, last, radix), nadd, overflow, val, radix);
        DigitGrows(s, first, last, radix);
        if nadd < maxval || (nadd == maxval && val <= ULONG_MAX % radix) {
          nadd := nadd * radix + val;
        } else {
          overflow := true;
        }
        last := last + 1;
      }
    }
  }

  /** The accumulator against the true value of the digits read so far. */
  predicate Tally(value: nat, nadd: nat, overflow: bool) {
    nadd <= ULONG_MAX && overflow == (value > ULONG_MAX) && (!overflow ==> nadd == value)
  }

  lemma TallyLimit(value: nat, nadd: nat, overflow: bool, limit: nat)
    requires Tally(value, nadd, overflow) && limit <= ULONG_MAX
    ensures overflow || nadd > limit <==> value > limit
    ensures value <= limit ==> nadd == value
  {
  }

  /** The overflow test, against the quotient and the remainder of ULONG_MAX, is exact. */
  lemma TallyStep(value: nat, nadd: nat, overflow: bool, val: nat, radix: nat)
    requires radix > 0 && val < radix && Tally(value, nadd, overflow)
    ensures var fits := nadd < ULONG_MAX / radix || (nadd == ULONG_MAX / radix && val <= ULONG_MAX % radix);
            0 <= nadd * radix && 0 <= value * radix
            && Tally(value * radix + val, if fits then nadd * radix + val else nadd, overflow || !fits)
  {
    MulMonotone(0, nadd, radix);
    MulMonotone(0, value, radix);
    var q, r := ULONG_MAX / radix, ULONG_MAX % radix;
    assert ULONG_MAX == q * radix + r;
    MultiplesApart(nadd, q, radix);
    MulMonotone(1, radix, value);
  }

  lemma DigitGrows(s: string, first: nat, last: nat, radix: nat)
    requires first <= last < |s|
    ensures RunValue(s, first, last + 1, radix) == RunValue(s, first, last, radix) * radix + DigitValue(s[last])
  {
    var t := s[first..last + 1];
    assert t[..|t| - 1] == s[first..last];
    assert NumeralValue([], radix) == 0;
  }
}
