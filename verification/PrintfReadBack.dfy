/** What the integer conversions print is read back by `std_strtol` and `std_strtoul`. */
module PrintfReadBack {
  import opened Words
  import opened Powers
  import opened Digits
  import opened NumberText
  import opened NumberTextTheorems
  import opened Printf
  import opened PrintfEngine
  import opened PrintfTheorems
  import opened PrintfRoundTrip
  import opened PrintfStandard

  predicate IsMark(mark: string) {
    mark == "" || mark == "-" || mark == "+"
  }

  /** A radix mark is only there in radix 16. */
  predicate IsPrefix(prefix: string, radix: nat) {
    prefix == "" || (radix == 16 && (prefix == "0x" || prefix == "0X"))
  }

  function Parts(pad: string, mark: string, prefix: string, digits: string, rest: string): string {
    pad + mark + prefix + digits + rest
  }

  lemma PartsAt(s: string, pad: string, mark: string, prefix: string, digits: string, rest: string)
    requires s == Parts(pad, mark, prefix, digits, rest)
    ensures var j := |pad| + |mark|; var k := j + |prefix|;
            k + |digits| <= |s| && s[..|pad|] == pad && s[k..k + |digits|] == digits
            && At(s, |pad|) == At(mark + prefix + digits + rest, 0) && At(s, j) == At(prefix + digits + rest, 0)
            && At(s, j + 1) == At(prefix + digits + rest, 1) && At(s, k + |digits|) == At(rest, 0)
  {
  }

  /** White space alone denotes 0. */
  lemma BlankIsZero(s: string, radix: nat)
    requires AllSpaces(s) && 2 <= radix <= 36
    ensures TrueValue(s, radix) == 0 && !LayoutOf(s, radix).negative
  {
    assert s[0..|s|] == s;
    SkipPad(s, 0, |s|);
    assert At(s, |s|) == '\0';
  }

  /** The prefix of a text that is not blank throughout. */
  lemma PartsPrefix(s: string, pad: string, mark: string, prefix: string, digits: string, rest: string, radix: nat)
    requires s == Parts(pad, mark, prefix, digits, rest) && AllSpaces(pad) && IsMark(mark) && IsPrefix(prefix, radix)
    requires 8 <= radix <= 16 && AllDigits(digits, radix) && AllSpaces(rest) && mark + prefix + digits != ""
    ensures PrefixOf(s, radix) == (mark == "-", radix, |pad| + |mark| + |prefix|)
  {
    PartsAt(s, pad, mark, prefix, digits, rest);
    assert s[0..|pad|] == s[..|pad|];
    FirstIsNoSpace(mark, prefix, digits, rest, radix);
    SkipPad(s, 0, |pad|);
    NoSecondSign(prefix, digits, rest, radix);
  }

  lemma FirstIsNoSpace(mark: string, prefix: string, digits: string, rest: string, radix: nat)
    requires IsMark(mark) && IsPrefix(prefix, radix) && AllDigits(digits, radix) && radix <= 16
    requires mark + prefix + digits != ""
    ensures var c := At(mark + prefix + digits + rest, 0);
            !IsSpace(c) && (c == '-' <==> mark == "-") && (c == '+' <==> mark == "+")
  {
    if mark == "" && prefix == "" {
      assert mark + prefix + digits + rest == digits + rest;
      DigitIsPlain(digits[0]);
    } else if mark == "" {
      assert (mark + prefix + digits + rest)[0] == prefix[0];
    } else {
      assert (mark + prefix + digits + rest)[0] == mark[0];
    }
  }

  /** Only a radix mark looks like one. */
  lemma NoSecondSign(prefix: string, digits: string, rest: string, radix: nat)
    requires IsPrefix(prefix, radix) && AllDigits(digits, radix) && radix <= 16 && AllSpaces(rest)
    ensures var t := prefix + digits + rest;
            At(t, 0) == '0' && HexMark(At(t, 1)) <==> prefix != ""
  {
    var t := prefix + digits + rest;
    if prefix != "" {
      assert t[0] == prefix[0] && t[1] == prefix[1];
    } else if |digits| >= 2 {
      assert t[1] == digits[1] && DigitValue(digits[1]) < radix;
    } else if |digits| == 1 && rest != "" {
      assert t[1] == rest[0];
    } else if |digits| == 0 && rest != "" {
      assert t[0] == rest[0];
    }
  }

  /** Blanks, sign, radix mark, digits and blanks denote what the digits do, with the sign. */
  lemma PartsValue(s: string, pad: string, mark: string, prefix: string, digits: string, rest: string, radix: nat)
    requires s == Parts(pad, mark, prefix, digits, rest) && AllSpaces(pad) && IsMark(mark) && IsPrefix(prefix, radix)
    requires 8 <= radix <= 16 && AllDigits(digits, radix) && AllSpaces(rest)
    ensures TrueValue(s, radix) == if mark == "-" then 0 - NumeralValue(digits, radix) else NumeralValue(digits, radix)
    ensures LayoutOf(s, radix).negative <==> mark == "-"
  {
    if mark + prefix + digits == "" {
      assert s == pad + rest;
      BlankIsZero(s, radix);
    } else {
      PartsPrefix(s, pad, mark, prefix, digits, rest, radix);
      PartsAt(s, pad, mark, prefix, digits, rest);
      RestEndsDigits(rest, radix);
      DigitsDenote(s, radix, |pad| + |mark| + |prefix|, digits);
    }
  }

  lemma RestEndsDigits(rest: string, radix: nat)
    requires AllSpaces(rest) && radix <= 36
    ensures DigitValue(At(rest, 0)) >= radix
  {
  }

  lemma DigitsDenote(s: string, radix: nat, first: nat, digits: string)
    requires 2 <= radix <= 36 && PrefixOf(s, radix).1 == radix && PrefixOf(s, radix).2 == first
    requires AllDigits(digits, radix) && first + |digits| <= |s| && s[first..first + |digits|] == digits
    requires DigitValue(At(s, first + |digits|)) >= radix
    ensures DigitRun(s, LayoutOf(s, radix)) == NumeralValue(digits, radix)
  {
    RunOfDigits(s, first, first + |digits|, radix);
  }

  // ----- the text of a conversion

  lemma {:induction false} ZerosDenote(n: int, s: string, radix: nat)
    requires radix > 0 && AllDigits(s, radix)
    ensures NumeralValue(Zeros(n) + s, radix) == NumeralValue(s, radix) && AllDigits(Zeros(n) + s, radix)
    decreases n
  {
    if n > 0 {
      var t := Zeros(n - 1) + s;
      ZerosDenote(n - 1, s, radix);
      OneZeroMore(n, s);
      LeadingZero(t, radix);
      ZeroIsDigit(t, radix);
    } else {
      assert Zeros(n) + s == s;
    }
  }

  lemma OneZeroMore(n: int, s: string)
    requires n > 0
    ensures Zeros(n) + s == "0" + (Zeros(n - 1) + s)
  {
  }

  lemma ZeroIsDigit(s: string, radix: nat)
    requires radix > 0 && AllDigits(s, radix)
    ensures AllDigits("0" + s, radix)
  {
  }

  /** Digits of a radix that denote a number. */
  predicate Denotes(s: string, radix: nat, n: nat) {
    AllDigits(s, radix) && NumeralValue(s, radix) == n
  }

  lemma FiguresDenote(u: nat, radix: nat, upper: bool)
    requires 2 <= radix <= 16
    ensures Denotes(Figures(u, radix, upper), radix, u)
  {
    FiguresAreDigits(u, radix, upper);
    NumeralRoundTrip(u, radix);
    UpperCaseValue(Numeral(u, radix), radix);
    UpperCaseDigits(Numeral(u, radix), radix);
  }

  lemma IntegerDigitsDenote(u: nat, radix: nat, upper: bool, prec: int)
    requires 2 <= radix <= 16
    ensures Denotes(IntegerDigits(u, radix, upper, prec), radix, u)
  {
    if u == 0 && prec == 0 {
      NothingDenotesZero(radix);
    } else {
      FiguresDenote(u, radix, upper);
      PaddedDenotes(Figures(u, radix, upper), prec, radix, u);
    }
  }

  lemma NothingDenotesZero(radix: nat)
    ensures Denotes("", radix, 0)
  {
  }

  lemma PaddedDenotes(s: string, prec: int, radix: nat, u: nat)
    requires radix > 0 && Denotes(s, radix, u)
    ensures Denotes(Zeros(prec - |s|) + s, radix, u)
  {
    ZerosDenote(prec - |s|, s, radix);
  }

  lemma OctalDigitsDenote(q: Request, u: nat)
    ensures Denotes(OctalDigits(q, u), 8, u)
  {
    var s := IntegerDigits(u, 8, false, q.prec);
    IntegerDigitsDenote(u, 8, false, q.prec);
    ZerosDenote(1, s, 8);
    assert Zeros(1) + s == "0" + s;
  }

  /** A justified text is blanks, prefix, digits with zero fill, and blanks. */
  lemma JustifiedParts(q: Request, zeros: bool, blank: string, mark: string, prefix: string, body: string)
    returns (pad: string, fill: int, rest: string)
    ensures Justified(q, zeros, blank + mark + prefix, body)
         == Parts(pad + blank, mark, prefix, Zeros(fill) + body, rest)
    ensures AllSpaces(pad) && AllSpaces(rest) && (fill > 0 ==> zeros)
  {
    var front := blank + mark + prefix;
    var gap := if q.width > |front| + |body| then q.width - |front| - |body| else 0;
    if q.left {
      pad, fill, rest := "", 0, Blanks(gap);
      assert Zeros(0) + body == body && "" + blank == blank;
    } else if zeros {
      pad, fill, rest := "", gap, "";
      FiveParts(blank, mark, prefix, Zeros(gap), body);
    } else {
      pad, fill, rest := Blanks(gap), 0, "";
      assert Zeros(0) + body == body;
      FourParts(Blanks(gap), blank, mark, prefix, body);
    }
  }

  lemma FiveParts(blank: string, mark: string, prefix: string, zeros: string, body: string)
    ensures blank + mark + prefix + zeros + body == Parts("" + blank, mark, prefix, zeros + body, "")
  {
  }

  lemma FourParts(pad: string, blank: string, mark: string, prefix: string, body: string)
    ensures pad + (blank + mark + prefix) + body == Parts(pad + blank, mark, prefix, body, "")
  {
  }

  lemma JustifiedReads(q: Request, zeros: bool, blank: string, mark: string, prefix: string, body: string, radix: nat,
      n: nat)
    requires AllSpaces(blank) && IsMark(mark) && IsPrefix(prefix, radix) && 8 <= radix <= 16 && Denotes(body, radix, n)
    ensures var s := Justified(q, zeros, blank + mark + prefix, body);
            TrueValue(s, radix) == (if mark == "-" then 0 - n else n) && (LayoutOf(s, radix).negative <==> mark == "-")
  {
    var pad, fill, rest := JustifiedParts(q, zeros, blank, mark, prefix, body);
    ZerosDenote(fill, body, radix);
    var s := Justified(q, zeros, blank + mark + prefix, body);
    PartsValue(s, pad + blank, mark, prefix, Zeros(fill) + body, rest, radix);
  }

  // ----- reading it

  lemma SignedReads(q: Request, v: int)
    requires IsLong(v)
    ensures TrueValue(SignedIntegerText(q, v), 10) == v
  {
    IntegerDigitsDenote(Abs(v), 10, false, q.prec);
    SignReads(q, q.zero && q.prec < 0, SignOf(q, v), IntegerDigits(Abs(v), 10, false, q.prec), Abs(v));
  }

  /** A blank for a sign is white space. */
  lemma SignReads(q: Request, zeros: bool, sign: string, body: string, n: nat)
    requires (sign == " " || IsMark(sign)) && Denotes(body, 10, n)
    ensures TrueValue(Justified(q, zeros, sign, body), 10) == if sign == "-" then 0 - n else n
  {
    if sign == " " {
      assert " " + "" + "" == sign;
      JustifiedReads(q, zeros, " ", "", "", body, 10, n);
    } else {
      assert "" + sign + "" == sign;
      JustifiedReads(q, zeros, "", sign, "", body, 10, n);
    }
  }

  lemma UnsignedReads(q: Request, prefix: string, body: string, radix: nat, u: nat)
    requires IsPrefix(prefix, radix) && 8 <= radix <= 16 && Denotes(body, radix, u)
    ensures var s := IntegerText(q, prefix, body); TrueValue(s, radix) == u && !LayoutOf(s, radix).negative
  {
    assert "" + "" + prefix == prefix;
    JustifiedReads(q, q.zero && q.prec < 0, "", "", prefix, body, radix, u);
  }

  predicate IsSigned(conv: char) {
    conv == 'd' || conv == 'i' || conv == 'D'
  }

  predicate IsUnsigned(conv: char) {
    conv == 'u' || conv == 'U' || conv == 'o' || conv == 'O' || conv == 'x' || conv == 'X' || conv == 'p'
  }

  function RadixOf(conv: char): nat {
    match conv
    case 'o' => 8
    case 'O' => 8
    case 'x' => 16
    case 'X' => 16
    case 'p' => 16
    case _ => 10
  }

  /** The number a directive converts. */
  function ConvertedValue(d: Directive, next: nat, args: seq<Arg>): int {
    var q, w := RequestOf(d, next, args), WordArg(args, ArgIndex(d, next));
    if IsSigned(d.conv) then SignedValue(q, w) else if d.conv == 'p' then w % WORD else UnsignedValue(q, w)
  }

  /** Whatever the flags, the width and the precision, `std_strtol` in base 10 reads a signed conversion back. */
  lemma SignedReadsBack(d: Directive, next: nat, args: seq<Arg>)
    requires IsSigned(d.conv)
    ensures var s := DirectiveText(d, next, args);
            Signed32(ParsedWord(s, 10, false)) == ConvertedValue(d, next, args) && !OutOfRange(s, 10, false)
  {
    var q, w := RequestOf(d, next, args), WordArg(args, ArgIndex(d, next));
    ShortMeans(w);
    SignedReads(q, SignedValue(q, w));
    StrtolSaturates(DirectiveText(d, next, args), 10);
  }

  lemma UnsignedBody(d: Directive, next: nat, args: seq<Arg>)
    requires IsUnsigned(d.conv)
    ensures var s, radix := DirectiveText(d, next, args), RadixOf(d.conv);
            TrueValue(s, radix) == ConvertedValue(d, next, args) && !LayoutOf(s, radix).negative
  {
    var q, u := RequestOf(d, next, args), ConvertedValue(d, next, args);
    var prefix, body := UnsignedParts(d, next, args, q, u);
    UnsignedReads(q, prefix, body, RadixOf(d.conv), u);
  }

  /** Radix mark and digits of an unsigned conversion. */
  lemma UnsignedParts(d: Directive, next: nat, args: seq<Arg>, q: Request, u: int)
    returns (prefix: string, body: string)
    requires IsUnsigned(d.conv) && q == RequestOf(d, next, args) && u == ConvertedValue(d, next, args)
    ensures DirectiveText(d, next, args) == IntegerText(q, prefix, body) && u >= 0
    ensures IsPrefix(prefix, RadixOf(d.conv)) && Denotes(body, RadixOf(d.conv), u)
  {
    prefix := "";
    if d.conv == 'u' || d.conv == 'U' {
      body := DecimalParts(d, next, args, q, u);
    } else if d.conv == 'o' || d.conv == 'O' {
      body := OctalParts(d, next, args, q, u);
    } else if d.conv == 'p' {
      prefix := "0x";
      body := PointerParts(d, next, args, q, u);
    } else {
      prefix, body := HexParts(d, next, args, q, u);
    }
  }

  lemma DecimalParts(d: Directive, next: nat, args: seq<Arg>, q: Request, u: int) returns (body: string)
    requires d.conv == 'u' || d.conv == 'U'
    requires q == RequestOf(d, next, args) && u == ConvertedValue(d, next, args)
    ensures DirectiveText(d, next, args) == IntegerText(q, "", body) && u >= 0 && Denotes(body, 10, u)
  {
    IntegerDigitsDenote(u, 10, false, q.prec);
    body := IntegerDigits(u, 10, false, q.prec);
  }

  lemma OctalParts(d: Directive, next: nat, args: seq<Arg>, q: Request, u: int) returns (body: string)
    requires d.conv == 'o' || d.conv == 'O'
    requires q == RequestOf(d, next, args) && u == ConvertedValue(d, next, args)
    ensures DirectiveText(d, next, args) == IntegerText(q, "", body) && u >= 0 && Denotes(body, 8, u)
  {
    OctalDigitsDenote(q, u);
    body := OctalDigits(q, u);
  }

  lemma HexParts(d: Directive, next: nat, args: seq<Arg>, q: Request, u: int) returns (prefix: string, body: string)
    requires d.conv == 'x' || d.conv == 'X'
    requires q == RequestOf(d, next, args) && u == ConvertedValue(d, next, args)
    ensures DirectiveText(d, next, args) == IntegerText(q, prefix, body) && u >= 0
    ensures IsPrefix(prefix, 16) && Denotes(body, 16, u)
  {
    IntegerDigitsDenote(u, 16, d.conv == 'X', q.prec);
    body := IntegerDigits(u, 16, d.conv == 'X', q.prec);
    prefix := HexPrefix(q, u, d.conv);
    HexText(d, next, args, q, u);
  }

  lemma PointerParts(d: Directive, next: nat, args: seq<Arg>, q: Request, u: int) returns (body: string)
    requires d.conv == 'p' && q == RequestOf(d, next, args) && u == ConvertedValue(d, next, args)
    ensures DirectiveText(d, next, args) == IntegerText(q, "0x", body) && u >= 0 && Denotes(body, 16, u)
  {
    IntegerDigitsDenote(u, 16, false, q.prec);
    body := IntegerDigits(u, 16, false, q.prec);
  }

  /** And `std_strtoul` in the radix of the conversion reads an unsigned one back. */
  lemma UnsignedReadsBack(d: Directive, next: nat, args: seq<Arg>)
    requires IsUnsigned(d.conv)
    ensures var s, radix := DirectiveText(d, next, args), RadixOf(d.conv);
            ParsedWord(s, radix, true) == ConvertedValue(d, next, args) && !OutOfRange(s, radix, true)
  {
    UnsignedBody(d, next, args);
    StrtoulSaturates(DirectiveText(d, next, args), RadixOf(d.conv));
    WordValue(d, next, args);
  }

  lemma WordValue(d: Directive, next: nat, args: seq<Arg>)
    requires IsUnsigned(d.conv)
    ensures 0 <= ConvertedValue(d, next, args) <= ULONG_MAX
  {
  }

  // ----- through memory

  lemma NoNulParts(a: string, b: string, c: string)
    requires NoNul(a) && NoNul(b) && NoNul(c)
    ensures NoNul(a + b + c)
  {
  }

  lemma JustifiedNoNul(q: Request, zeros: bool, prefix: string, body: string)
    requires NoNul(prefix) && NoNul(body)
    ensures NoNul(Justified(q, zeros, prefix, body))
  {
    var gap := if q.width > |prefix| + |body| then q.width - |prefix| - |body| else 0;
    if q.left {
      NoNulParts(prefix, body, Blanks(gap));
    } else if zeros {
      NoNulParts(prefix, Zeros(gap), body);
    } else {
      NoNulParts(Blanks(gap), prefix, body);
    }
  }

  lemma IntegerNoNul(q: Request, prefix: string, body: string, radix: nat, n: nat)
    requires NoNul(prefix) && Denotes(body, radix, n) && radix <= 16
    ensures NoNul(IntegerText(q, prefix, body))
  {
    DigitsNoNul(body, radix);
    JustifiedNoNul(q, q.zero && q.prec < 0, prefix, body);
  }

  lemma NumberHasNoNul(d: Directive, next: nat, args: seq<Arg>)
    requires IsSigned(d.conv) || IsUnsigned(d.conv)
    ensures NoNul(DirectiveText(d, next, args))
  {
    var q, w := RequestOf(d, next, args), WordArg(args, ArgIndex(d, next));
    var v := SignedValue(q, w);
    if IsSigned(d.conv) {
      IntegerDigitsDenote(Abs(v), 10, false, q.prec);
      IntegerNoNul(q, SignOf(q, v), IntegerDigits(Abs(v), 10, false, q.prec), 10, Abs(v));
    } else {
      var prefix, body := UnsignedParts(d, next, args, q, ConvertedValue(d, next, args));
      IntegerNoNul(q, prefix, body, RadixOf(d.conv), ConvertedValue(d, next, args));
    }
  }

  lemma OneDirective(d: Directive, args: seq<Arg>)
    requires Conforming([Piece("", d)], 0, args) && d.conv != 'n'
    ensures var text := DirectiveText(d, 0, args);
            Run(DirectiveFormat(d), 0, 0, args, START) == Progress(AsCells(text), |text|, [])
  {
    var pieces, text := [Piece("", d)], DirectiveText(d, 0, args);
    assert pieces[1..] == [] && FormatText([], "") == "" && Meaning([], "", NextArg(d, 0), args) == "";
    assert FormatText(pieces, "") == DirectiveFormat(d);
    assert Meaning(pieces, "", 0, args) == text;
    assert CountsStored(pieces, 0, args, 0) == [];
    FormatMeetsStandard(pieces, "", args);
  }

  /** Printing an integer with any conversion and parsing what then stands in memory gives the value back. */
  method PrintThenRead(memory: array<char>, pbuf: nat, d: Directive, args: seq<Arg>, parser: Parser)
    returns (count: int, value: int)
    requires (IsSigned(d.conv) || IsUnsigned(d.conv)) && Conforming([Piece("", d)], 0, args)
    requires pbuf + |DirectiveText(d, 0, args)| < memory.Length
    modifies memory, parser
    ensures CString(memory[pbuf..]) == DirectiveText(d, 0, args) && count == |DirectiveText(d, 0, args)|
    ensures value == ConvertedValue(d, 0, args) && parser.errno == old(parser.errno)
  {
    ghost var text := DirectiveText(d, 0, args);
    OneDirective(d, args);
    NumberHasNoNul(d, 0, args);
    count := PrintText(memory, pbuf, DirectiveFormat(d), args, text);
    if IsSigned(d.conv) {
      SignedReadsBack(d, 0, args);
      value := ReadLong(CString(memory[pbuf..]), parser);
    } else {
      UnsignedReadsBack(d, 0, args);
      var word, end := parser.StrToXl(CString(memory[pbuf..]), RadixOf(d.conv), true);
      value := word;
    }
  }

  /** `std_strtol` in base 10. */
  method ReadLong(s: string, parser: Parser) returns (value: int)
    modifies parser
    ensures value == Signed32(ParsedWord(s, 10, false))
    ensures parser.errno == if OutOfRange(s, 10, false) then ERANGE else old(parser.errno)
  {
    var word, end := parser.StrToXl(s, 10, false);
    value := Signed32(word);
  }

  /** A format that prints text without a NUL leaves that text as a string in memory. */
  method PrintText(memory: array<char>, pbuf: nat, fmt: string, args: seq<Arg>, ghost text: string)
    returns (count: int)
    requires Run(fmt, 0, 0, args, START) == Progress(AsCells(text), |text|, []) && NoNul(text)
    requires pbuf + |text| < memory.Length
    modifies memory
    ensures count == |text| && CString(memory[pbuf..]) == text
  {
    ghost var was := memory[..];
    count := Sprintf(memory, pbuf, fmt, args);
    StringInMemory(was, pbuf, text);
  }
}
