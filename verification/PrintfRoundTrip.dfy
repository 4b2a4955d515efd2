/** From a format string through `std_sprintf` and back through `std_strtoul`. */
module PrintfRoundTrip {
  import opened Words
  import opened Digits
  import opened NumberText
  import opened NumberTextTheorems
  import opened Printf
  import opened PrintfEngine
  import opened PrintfTheorems

  predicate AllFlags(flags: string) {
    forall i :: 0 <= i < |flags| ==> IsFlag(flags[i])
  }

  /** A width as written: decimal digits, the first of which would be a flag if it were 0. */
  predicate WidthText(width: string) {
    (forall i :: 0 <= i < |width| ==> IsDigit(width[i])) && (width != "" ==> width[0] != '0')
  }

  /** The flags taken one after the other. */
  function SetFlags(flags: string, spec: Spec): Spec {
    if flags == "" then spec else SetFlags(flags[1..], SetFlag(flags[0], spec))
  }

  /** A width read in int arithmetic. */
  function WidthValue(width: string, n: int): (r: int)
    requires IsLong(n) && forall i :: 0 <= i < |width| ==> IsDigit(width[i])
    ensures IsLong(r)
  {
    if width == "" then n else WidthValue(width[1..], Signed32(10 * n + DigitOf(width[0])))
  }

  function FormatSpec(flags: string, width: string): Spec
    requires WidthText(width)
  {
    var spec := SetFlags(flags, PLAIN);
    if width == "" then spec else spec.(width := WidthValue(width, 0))
  }

  /** A percent sign, flags, a width and a conversion character. */
  function Format(flags: string, width: string, conv: char): string {
    "%" + flags + width + [conv]
  }

  // ----- the scan

  lemma {:induction false} ScansFlags(fmt: string, pos: nat, flags: string, next: nat, spec: Spec, args: seq<Arg>)
    requires AllFlags(flags) && pos + |flags| < |fmt| && fmt[pos..pos + |flags|] == flags
    ensures ScanSpec(fmt, Scan(At(fmt, pos), pos + 1, next, spec), args)
         == ScanSpec(fmt, Scan(At(fmt, pos + |flags|), pos + |flags| + 1, next, SetFlags(flags, spec)), args)
    decreases |flags|
  {
    if flags != "" {
      assert fmt[pos] == fmt[pos..pos + |flags|][0];
      assert fmt[pos + 1..pos + |flags|] == fmt[pos..pos + |flags|][1..];
      ScansFlags(fmt, pos + 1, flags[1..], next, SetFlag(flags[0], spec), args);
    }
  }

  lemma {:induction false} ReadsDigits(fmt: string, pos: nat, width: string, n: int)
    requires IsLong(n) && forall i :: 0 <= i < |width| ==> IsDigit(width[i])
    requires pos + |width| < |fmt| && fmt[pos..pos + |width|] == width && !IsDigit(fmt[pos + |width|])
    ensures ReadDigits(fmt, At(fmt, pos), pos + 1, n)
         == Number(WidthValue(width, n), fmt[pos + |width|], pos + |width| + 1)
    decreases |width|
  {
    if width != "" {
      assert fmt[pos] == fmt[pos..pos + |width|][0];
      assert fmt[pos + 1..pos + |width|] == fmt[pos..pos + |width|][1..];
      ReadsDigits(fmt, pos + 1, width[1..], Signed32(10 * n + DigitOf(width[0])));
    }
  }

  /** A conversion character ends the scan. */
  predicate EndsScan(c: char) {
    !IsFlag(c) && c != '*' && c != '.' && !IsDigit(c) && c != '\0'
  }

  lemma ScansWidth(fmt: string, pos: nat, width: string, spec: Spec, args: seq<Arg>)
    requires WidthText(width) && pos + |width| < |fmt| && fmt[pos..pos + |width|] == width
    requires EndsScan(fmt[pos + |width|])
    ensures ScanSpec(fmt, Scan(At(fmt, pos), pos + 1, 0, spec), args)
         == Scan(fmt[pos + |width|], pos + |width| + 1, 0,
                 if width == "" then spec else spec.(width := WidthValue(width, 0)))
  {
    if width != "" {
      assert fmt[pos] == fmt[pos..pos + |width|][0];
      ReadsDigits(fmt, pos, width, 0);
    }
  }

  lemma ScansFormat(flags: string, width: string, conv: char, rest: string, args: seq<Arg>)
    requires AllFlags(flags) && WidthText(width) && EndsScan(conv)
    ensures var fmt := Format(flags, width, conv);
            ScanAfter(fmt + rest, 0, 0, args) == Scan(conv, |fmt|, 0, FormatSpec(flags, width))
  {
    var fmt := Format(flags, width, conv) + rest;
    assert fmt[1..1 + |flags|] == flags;
    assert fmt[1 + |flags|..1 + |flags| + |width|] == width;
    ScansFlags(fmt, 1, flags, 0, PLAIN, args);
    ScansWidth(fmt, 1 + |flags|, width, SetFlags(flags, PLAIN), args);
  }

  lemma {:induction false} FlagsCoherent(flags: string, spec: Spec)
    requires Coherent(spec) && spec.prec == -1
    ensures Coherent(SetFlags(flags, spec)) && SetFlags(flags, spec).prec == -1
    decreases |flags|
  {
    if flags != "" {
      UpdatesCoherent(spec, flags[0], 0);
      FlagsCoherent(flags[1..], SetFlag(flags[0], spec));
    }
  }

  lemma FormatCoherent(flags: string, width: string)
    requires WidthText(width)
    ensures Coherent(FormatSpec(flags, width)) && FormatSpec(flags, width).prec == -1
  {
    FlagsCoherent(flags, PLAIN);
  }

  // ----- the run

  /** The conversions whose output tells its own radix. */
  predicate Describes(spec: Spec, conv: char) {
    conv == 'u' || (spec.alt && (conv == 'o' || conv == 'x' || conv == 'X'))
  }

  function NumberFieldOf(spec: Spec, conv: char, u: nat): Action {
    if conv == 'u' then UnsignedField(spec, u, 10, 'u')
    else if conv == 'o' then UnsignedField(spec, u, 8, 'o')
    else HexField(spec, u, conv)
  }

  /** A run over one conversion writes its field and nothing else. */
  lemma RunsOneField(fmt: string, s: Scan, args: seq<Arg>, act: Action)
    requires |fmt| > 0 && fmt[0] == '%' && s == ScanAfter(fmt, 0, 0, args) && s.pos == |fmt|
    requires Convert(s, args) == (act, 1) && act.Field?
    ensures Run(fmt, 0, 0, args, START) == Progress(FieldCells(act), Signed32(FieldWidth(act)), [])
  {
    var p := Emit(START, FieldCells(act), FieldWidth(act));
    assert fmt[0..0] == "" && fmt[|fmt|..|fmt|] == "";
    assert Emit(START, [], 0) == START && Emit(p, [], 0) == p;
    assert OneTurn(fmt, 0, 0, args, START) == More(p, |fmt|, s.next + 1);
    assert OneTurn(fmt, |fmt|, s.next + 1, args, p) == Done(p);
  }

  /** What a number conversion prints, from its flags, width, conversion character and argument. */
  function PrintedText(flags: string, width: string, conv: char, args: seq<Arg>): string
    requires WidthText(width)
  {
    var spec := FormatSpec(flags, width);
    FieldText(NumberFieldOf(spec, conv, UnsignedArg(spec, WordArg(args, 0))))
  }

  lemma {:induction false} NaturalSizeSmall(spec: Spec, conv: char, u: nat)
    requires u <= ULONG_MAX && Coherent(spec) && spec.prec == -1 && Describes(spec, conv)
    ensures NaturalSize(NumberFieldOf(spec, conv, u)) <= 14
  {
    DigitsFitBuffer(u, if conv == 'u' then 10 else if conv == 'o' then 8 else 16);
  }

  /**
   Every format made of a percent sign, flags, a width and u, #o, #x or #X, with
   zero fill off: the output is text that is read back in base 0 as the
   argument, and the count is the length of that text.
  */
  lemma FormattedNumberParses(flags: string, width: string, conv: char, args: seq<Arg>)
    requires AllFlags(flags) && WidthText(width) && Describes(FormatSpec(flags, width), conv)
    requires !FormatSpec(flags, width).zero
    ensures var text := PrintedText(flags, width, conv, args);
            var r := Run(Format(flags, width, conv), 0, 0, args, START);
            r.cells == AsCells(text) && r.ret == |text| <= LONG_MAX
            && ParsedWord(text, 0, true) == UnsignedArg(FormatSpec(flags, width), WordArg(args, 0))
            && !OutOfRange(text, 0, true)
  {
    var spec, fmt := FormatSpec(flags, width), Format(flags, width, conv);
    var u := UnsignedArg(spec, WordArg(args, 0));
    var f := NumberFieldOf(spec, conv, u);
    ScansFormat(flags, width, conv, "", args);
    assert fmt + "" == fmt;
    FormatCoherent(flags, width);
    ConvertsNumber(Scan(conv, |fmt|, 0, spec), args);
    RunsOneField(fmt, ScanAfter(fmt, 0, 0, args), args, f);
    PrintedNumberParses(f, spec, u);
    NaturalSizeSmall(spec, conv, u);
    FieldLength(f);
    CountIsLengthIff(fmt, args);
  }

  predicate NoNul(s: string) {
    forall i :: 0 <= i < |s| ==> s[i] != '\0'
  }

  lemma JoinedNoNul(a: string, b: string)
    requires NoNul(a) && NoNul(b)
    ensures NoNul(a + b)
  {
  }

  lemma WrittenNoNul(pad: string, prefix: string, digits: string, rest: string)
    requires NoNul(pad) && NoNul(prefix) && NoNul(digits) && NoNul(rest)
    ensures NoNul(Written(pad, false, prefix, digits, rest))
  {
    JoinedNoNul(pad, "");
    JoinedNoNul(pad + "", prefix);
    JoinedNoNul(pad + "" + prefix, digits);
    JoinedNoNul(pad + "" + prefix + digits, rest);
  }

  lemma DigitsNoNul(s: string, radix: nat)
    requires AllDigits(s, radix) && radix <= NO_DIGIT
    ensures NoNul(s)
  {
    forall i | 0 <= i < |s| ensures s[i] != '\0' {
      assert DigitValue(s[i]) < radix;
    }
  }

  /** Printed text has no NUL in it. */
  lemma PlainText(flags: string, width: string, conv: char, args: seq<Arg>)
    requires WidthText(width) && Describes(FormatSpec(flags, width), conv) && !FormatSpec(flags, width).zero
    ensures NoNul(PrintedText(flags, width, conv, args))
  {
    var spec := FormatSpec(flags, width);
    var u := UnsignedArg(spec, WordArg(args, 0));
    var f := NumberFieldOf(spec, conv, u);
    FormatCoherent(flags, width);
    var radix := SelfDescribingIsReadable(f, spec, u);
    DigitsNoNul(f.text, radix);
    var pad := Blanks(Gap(f));
    WrittenNoNul(if f.spec.left then "" else pad, PrefixText(f), f.text, if f.spec.left then pad else "");
  }

  lemma ConvertsNumber(s: Scan, args: seq<Arg>)
    requires s.ch == 'u' || s.ch == 'o' || s.ch == 'x' || s.ch == 'X'
    ensures Convert(s, args) == (NumberFieldOf(s.spec, s.ch, UnsignedArg(s.spec, WordArg(args, s.next))), 1)
  {
  }

  // ----- in memory

  lemma {:induction false} CStringOf(text: string, rest: string)
    requires forall i :: 0 <= i < |text| ==> text[i] != '\0'
    requires rest != "" && rest[0] == '\0'
    ensures CString(text + rest) == text
    decreases |text|
  {
    if text == "" {
      assert text + rest == rest;
    } else {
      assert (text + rest)[1..] == text[1..] + rest;
      CStringOf(text[1..], rest);
    }
  }

  /** Text laid over memory and terminated is the string that starts there. */
  lemma StringInMemory(was: string, at: nat, text: string)
    requires at + |text| < |was| && forall i :: 0 <= i < |text| ==> text[i] != '\0'
    ensures CString(Over(was, at, AsCells(text))[at + |text| := '\0'][at..]) == text
  {
    var now := Over(was, at, AsCells(text))[at + |text| := '\0'];
    assert now[at..at + |text|] == text;
    assert now[at..] == text + now[at + |text|..];
    CStringOf(text, now[at + |text|..]);
  }

  /** Printing a number and parsing what then stands in memory gives the number back. */
  method PrintThenParse(memory: array<char>, pbuf: nat, flags: string, width: string, conv: char, args: seq<Arg>,
                        parser: Parser) returns (word: nat)
    requires AllFlags(flags) && WidthText(width) && Describes(FormatSpec(flags, width), conv)
    requires !FormatSpec(flags, width).zero
    requires pbuf + |PrintedText(flags, width, conv, args)| < memory.Length
    modifies memory, parser
    ensures CString(memory[pbuf..]) == PrintedText(flags, width, conv, args)
    ensures word == UnsignedArg(FormatSpec(flags, width), WordArg(args, 0)) && parser.errno == old(parser.errno)
  {
    FormattedNumberParses(flags, width, conv, args);
    ghost var was, text := memory[..], PrintedText(flags, width, conv, args);
    var count := Sprintf(memory, pbuf, Format(flags, width, conv), args);
    PlainText(flags, width, conv, args);
    StringInMemory(was, pbuf, text);
    var end;
    word, end := parser.StrToXl(CString(memory[pbuf..]), 0, true);
  }

  // ----- output that does not fit an int

  /** The largest int as a width. */
  const LONGEST := "2147483647"

  lemma LongestWidth(w: string)
    requires w == LONGEST
    ensures WidthText(w) && WidthValue(w, 0) == LONG_MAX
  {
    LongestHead(w);
    WidthSnoc(w, 5, 21474);
    WidthSnoc(w, 6, 214748);
    WidthSnoc(w, 7, 2147483);
    WidthSnoc(w, 8, 21474836);
    WidthSnoc(w, 9, 214748364);
    assert w[..10] == w;
  }

  lemma LongestHead(w: string)
    requires w == LONGEST
    ensures WidthText(w) && WidthValue(w[..5], 0) == 21474
  {
    WidthSnoc(w, 0, 0);
    WidthSnoc(w, 1, 2);
    WidthSnoc(w, 2, 21);
    WidthSnoc(w, 3, 214);
    WidthSnoc(w, 4, 2147);
  }

  /** One digit more. */
  lemma WidthSnoc(w: string, k: nat, n: int)
    requires k < |w| && (forall i :: 0 <= i < |w| ==> IsDigit(w[i])) && IsLong(n)
    requires k > 0 ==> WidthValue(w[..k], 0) == n
    requires k == 0 ==> n == 0
    ensures WidthValue(w[..k + 1], 0) == Signed32(10 * n + DigitOf(w[k]))
  {
    assert w[..k + 1] == w[..k] + [w[k]];
    WidthDigitsFrom(w[..k], [w[k]], 0);
    assert [w[k]][1..] == "";
  }

  lemma {:induction false} WidthDigitsFrom(a: string, b: string, n: int)
    requires forall i :: 0 <= i < |a| ==> IsDigit(a[i])
    requires forall i :: 0 <= i < |b| ==> IsDigit(b[i])
    requires IsLong(n)
    ensures WidthValue(a + b, n) == WidthValue(b, WidthValue(a, n))
    decreases |a|
  {
    if a == "" {
      assert a + b == b;
    } else {
      assert (a + b)[1..] == a[1..] + b;
      WidthDigitsFrom(a[1..], b, Signed32(10 * n + DigitOf(a[0])));
    }
  }

  /** One conversion and then a character of literal text. */
  lemma RunsFieldAndChar(fmt: string, s: Scan, args: seq<Arg>, act: Action)
    requires |fmt| > 1 && fmt[0] == '%' && s == ScanAfter(fmt, 0, 0, args) && s.pos == |fmt| - 1
    requires Convert(s, args) == (act, 1) && act.Field?
    requires var c := fmt[|fmt| - 1]; c != '%' && c != '\0'
    ensures Run(fmt, 0, 0, args, START).ret == Signed32(Signed32(FieldWidth(act)) + 1)
    ensures |Run(fmt, 0, 0, args, START).cells| == |FieldCells(act)| + 1
  {
    var p, n := Emit(START, FieldCells(act), FieldWidth(act)), |fmt|;
    assert fmt[0..0] == "" && Emit(START, [], 0) == START;
    assert OneTurn(fmt, 0, 0, args, START) == More(p, n - 1, s.next + 1);
    assert LiteralEnd(fmt, n - 1) == n;
    assert OneTurn(fmt, n - 1, s.next + 1, args, p) == Done(Emit(p, Stored(fmt[n - 1..n]), 1));
  }

  /**
   2^31 - 1 columns and one more character: the count turns negative, and the
   terminator would be stored 2^31 bytes in front of the buffer.
  */
  lemma CountTurnsNegative(args: seq<Arg>)
    ensures var r := Run(Format("", LONGEST, 'u') + "!", 0, 0, args, START);
            r.ret == -0x8000_0000 && |r.cells| == 0x8000_0000
  {
    LongestWidth(LONGEST);
    var spec, fmt := FormatSpec("", LONGEST), Format("", LONGEST, 'u') + "!";
    var s := Scan('u', |fmt| - 1, 0, spec);
    ScansFormat("", LONGEST, 'u', "!", args);
    ConvertsNumber(s, args);
    var f := NumberFieldOf(spec, 'u', UnsignedArg(spec, WordArg(args, 0)));
    FormatCoherent("", LONGEST);
    NaturalSizeSmall(spec, 'u', UnsignedArg(spec, WordArg(args, 0)));
    FieldLength(f);
    RunsFieldAndChar(fmt, s, args, f);
  }
}
