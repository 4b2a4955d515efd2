/**
 `_out_stream` against ISO/IEC 9899:1999, section 7.19.6.1.  What a format
 prints is defined here from the text of the standard; the flags, switches and
 labels of the code play no part in it.
*/
module PrintfStandard {
  import opened Words
  import opened Powers
  import opened Digits
  import opened NumberText
  import opened Printf
  import opened PrintfEngine
  import opened PrintfTheorems
  import opened PrintfRoundTrip

  // ----- formats

  /** A field width or a precision: left out, written in digits, or taken from the arguments. */
  datatype Size = Omitted | Given(digits: string) | Star

  /** A percent sign, flags, a width, a precision, a length modifier and a conversion character. */
  datatype Directive = Directive(flags: string, width: Size, prec: Size, modifier: string, conv: char)

  /** Literal text and the directive behind it. */
  datatype Piece = Piece(before: string, directive: Directive)

  predicate OnlyFrom(s: string, allowed: string) {
    forall i :: 0 <= i < |s| ==> s[i] in allowed
  }

  predicate DigitText(s: string) {
    forall i :: 0 <= i < |s| ==> IsDigit(s[i])
  }

  predicate WellFormed(d: Directive) {
    && OnlyFrom(d.flags, "-+ #0") && OnlyFrom(d.modifier, "hl") && EndsScan(d.conv)
    && (d.width.Given? ==> d.width.digits != "" && WidthText(d.width.digits))
    && (d.prec.Given? ==> DigitText(d.prec.digits))
  }

  function SizeText(s: Size): string {
    match s
    case Omitted => ""
    case Given(digits) => digits
    case Star => "*"
  }

  function PrecText(s: Size): string {
    if s.Omitted? then "" else "." + SizeText(s)
  }

  function DirectiveFormat(d: Directive): string {
    "%" + d.flags + SizeText(d.width) + PrecText(d.prec) + d.modifier + [d.conv]
  }

  function FormatText(pieces: seq<Piece>, tail: string): string {
    if pieces == [] then tail
    else pieces[0].before + DirectiveFormat(pieces[0].directive) + FormatText(pieces[1..], tail)
  }

  /** Text that stands for itself. */
  predicate Literal(s: string) {
    forall i :: 0 <= i < |s| ==> s[i] != '%' && s[i] != '\0'
  }

  // ----- what the standard makes of a directive

  /** What the flags, the width and the precision ask for; a precision of -1 is none. */
  datatype Request = Request(left: bool, plus: bool, blank: bool, alt: bool, zero: bool, width: nat, prec: int,
                             short: bool)

  function StarCount(s: Size): nat {
    if s.Star? then 1 else 0
  }

  /** A negative width argument is a - flag followed by a positive width. */
  function WidthAsked(d: Directive, next: nat, args: seq<Arg>): int {
    match d.width
    case Omitted => 0
    case Given(digits) => NumeralValue(digits, 10)
    case Star => WordArg(args, next)
  }

  /** A negative precision argument is taken as if the precision were left out. */
  function PrecAsked(d: Directive, next: nat, args: seq<Arg>): int {
    match d.prec
    case Omitted => -1
    case Given(digits) => NumeralValue(digits, 10)
    case Star =>
      var n := WordArg(args, next + StarCount(d.width));
      if n < 0 then -1 else n
  }

  /** An argument is cut to a short by `h`, unless it is a long. */
  function RequestOf(d: Directive, next: nat, args: seq<Arg>): Request {
    var w := WidthAsked(d, next, args);
    Request('-' in d.flags || w < 0, '+' in d.flags, ' ' in d.flags, '#' in d.flags, '0' in d.flags, Abs(w),
            PrecAsked(d, next, args), 'h' in d.modifier && !('l' in d.modifier || AlwaysLong(d.conv)))
  }

  /** The argument that is converted, behind those of the width and the precision. */
  function ArgIndex(d: Directive, next: nat): nat {
    next + StarCount(d.width) + StarCount(d.prec)
  }

  /** D, O and U are short for ld, lo and lu. */
  predicate AlwaysLong(conv: char) {
    conv == 'D' || conv == 'O' || conv == 'U'
  }

  predicate TakesArg(conv: char) {
    || conv == 'c' || conv == 'd' || conv == 'i' || conv == 'D' || conv == 'n' || conv == 'o' || conv == 'O'
    || conv == 'p' || conv == 's' || conv == 'u' || conv == 'U' || conv == 'x' || conv == 'X'
  }

  function NextArg(d: Directive, next: nat): nat {
    ArgIndex(d, next) + if TakesArg(d.conv) then 1 else 0
  }

  function ToShort(n: int): int {
    (n + 0x8000) % 0x1_0000 - 0x8000
  }

  function SignedValue(q: Request, w: int): int {
    if q.short then ToShort(w) else w
  }

  function UnsignedValue(q: Request, w: int): nat {
    if q.short then w % 0x1_0000 else w % WORD
  }

  /** Digits of a radix up to 16; the letters are ABCDEF for X and abcdef otherwise. */
  function Figures(u: nat, radix: nat, upper: bool): (s: string)
    requires 2 <= radix <= 16
    ensures |s| > 0
    decreases u
  {
    var letters := if upper then "0123456789ABCDEF" else "0123456789abcdef";
    if u < radix then [letters[u]]
    else
      QuotientShrinks(u, radix);
      Figures(u / radix, radix, upper) + [letters[u % radix]]
  }

  function Zeros(n: int): string {
    if n <= 0 then "" else seq(n, i => '0')
  }

  /** The precision is the least number of digits; zero with a precision of zero has none. */
  function IntegerDigits(u: nat, radix: nat, upper: bool, prec: int): string
    requires 2 <= radix <= 16
  {
    if u == 0 && prec == 0 then ""
    else
      var s := Figures(u, radix, upper);
      Zeros(prec - |s|) + s
  }

  /** The alternative form of an octal number starts with a zero. */
  function OctalDigits(q: Request, u: nat): string {
    var s := IntegerDigits(u, 8, false, q.prec);
    if q.alt && (s == "" || s[0] != '0') then "0" + s else s
  }

  /** A sign for negative numbers; for others the one the flags ask for, + overriding blank. */
  function SignOf(q: Request, v: int): string {
    if v < 0 then "-" else if q.plus then "+" else if q.blank then " " else ""
  }

  function HexPrefix(q: Request, u: nat, conv: char): string {
    if q.alt && u != 0 then ['0', conv] else ""
  }

  /**
   Padded to the field width: blanks on the right with -, else zeros behind the
   sign or the radix prefix if they are asked for, else blanks on the left.
  */
  function Justified(q: Request, zeros: bool, prefix: string, body: string): string {
    var gap := if q.width > |prefix| + |body| then q.width - |prefix| - |body| else 0;
    if q.left then prefix + body + Blanks(gap)
    else if zeros then prefix + Zeros(gap) + body
    else Blanks(gap) + prefix + body
  }

  /** A precision makes the 0 flag ignored. */
  function IntegerText(q: Request, prefix: string, body: string): string {
    Justified(q, q.zero && q.prec < 0, prefix, body)
  }

  /** The bytes of a string up to its end, no more of them than the precision. */
  function StringBody(q: Request, p: TextPointer): string {
    var s := if p.Null? then "0" else CString(p.chars);
    if 0 <= q.prec < |s| then s[..q.prec] else s
  }

  function SignedIntegerText(q: Request, v: int): string {
    IntegerText(q, SignOf(q, v), IntegerDigits(Abs(v), 10, false, q.prec))
  }

  /** What a directive prints. */
  function DirectiveText(d: Directive, next: nat, args: seq<Arg>): string {
    var q, w := RequestOf(d, next, args), WordArg(args, ArgIndex(d, next));
    var u := UnsignedValue(q, w);
    match d.conv
    case 'd' => SignedIntegerText(q, SignedValue(q, w))
    case 'i' => SignedIntegerText(q, SignedValue(q, w))
    case 'D' => SignedIntegerText(q, SignedValue(q, w))
    case 'u' => IntegerText(q, "", IntegerDigits(u, 10, false, q.prec))
    case 'U' => IntegerText(q, "", IntegerDigits(u, 10, false, q.prec))
    case 'o' => IntegerText(q, "", OctalDigits(q, u))
    case 'O' => IntegerText(q, "", OctalDigits(q, u))
    case 'x' => IntegerText(q, HexPrefix(q, u, 'x'), IntegerDigits(u, 16, false, q.prec))
    case 'X' => IntegerText(q, HexPrefix(q, u, 'X'), IntegerDigits(u, 16, true, q.prec))
    case 'p' => IntegerText(q, "0x", IntegerDigits(w % WORD, 16, false, q.prec))
    case 's' => Justified(q, q.zero, "", StringBody(q, TextArg(args, ArgIndex(d, next))))
    case 'c' => Justified(q, q.zero, "", [(w % 0x100) as char])
    case 'n' => ""
    case _ => Justified(q, q.zero, "", [d.conv])
  }

  function PieceText(piece: Piece, next: nat, args: seq<Arg>): string {
    piece.before + DirectiveText(piece.directive, next, args)
  }

  /** The output of a format, its directives taking the arguments from left to right. */
  function Meaning(pieces: seq<Piece>, tail: string, next: nat, args: seq<Arg>): string {
    if pieces == [] then tail
    else
      PieceText(pieces[0], next, args) + Meaning(pieces[1..], tail, NextArg(pieces[0].directive, next), args)
  }

  /** What %n stores: the number of characters printed before it, cut to a short with `h`. */
  function CountHere(d: Directive, next: nat, args: seq<Arg>, printed: nat): seq<(nat, int)> {
    if d.conv == 'n' then
      [(ArgIndex(d, next), if RequestOf(d, next, args).short then ToShort(printed) else printed)]
    else []
  }

  function CountsStored(pieces: seq<Piece>, next: nat, args: seq<Arg>, printed: nat): seq<(nat, int)> {
    if pieces == [] then []
    else
      var d, total := pieces[0].directive, printed + |PieceText(pieces[0], next, args)|;
      CountHere(d, next, args, printed + |pieces[0].before|)
      + CountsStored(pieces[1..], NextArg(d, next), args, total)
  }

  // ----- the scan of a directive

  /** The scan from a position, its first character read. */
  function ScanFrom(fmt: string, pos: nat, next: nat, spec: Spec, args: seq<Arg>): Scan
    requires pos <= |fmt|
  {
    ScanSpec(fmt, Scan(At(fmt, pos), pos + 1, next, spec), args)
  }

  /** What the scan makes of the parts of a directive, one after the other. */
  function WithWidth(spec: Spec, d: Directive, next: nat, args: seq<Arg>): Spec
    requires WellFormed(d)
  {
    match d.width
    case Omitted => spec
    case Given(digits) => spec.(width := WidthValue(digits, 0))
    case Star => WidthFromArg(spec, WordArg(args, next))
  }

  function WithPrec(spec: Spec, d: Directive, next: nat, args: seq<Arg>): Spec
    requires WellFormed(d)
  {
    match d.prec
    case Omitted => spec
    case Given(digits) => PrecFrom(spec, WidthValue(digits, 0))
    case Star => PrecFrom(spec, WordArg(args, next + StarCount(d.width)))
  }

  function ScannedSpec(d: Directive, next: nat, args: seq<Arg>): Spec
    requires WellFormed(d)
  {
    SetFlags(d.modifier, WithPrec(WithWidth(SetFlags(d.flags, PLAIN), d, next, args), d, next, args))
  }

  lemma ScansSize(fmt: string, pos: nat, next: nat, spec: Spec, args: seq<Arg>, d: Directive)
    requires WellFormed(d) && var t := SizeText(d.width); pos + |t| < |fmt| && fmt[pos..pos + |t|] == t
    requires !IsDigit(fmt[pos + |SizeText(d.width)|])
    ensures ScanFrom(fmt, pos, next, spec, args)
         == ScanFrom(fmt, pos + |SizeText(d.width)|, next + StarCount(d.width), WithWidth(spec, d, next, args), args)
  {
    if d.width.Star? {
      assert fmt[pos] == fmt[pos..pos + 1][0];
    } else if d.width.Given? {
      var t := d.width.digits;
      assert fmt[pos] == fmt[pos..pos + |t|][0];
      ReadsDigits(fmt, pos, t, 0);
    }
  }

  lemma ScansPrec(fmt: string, pos: nat, next: nat, spec: Spec, args: seq<Arg>, d: Directive)
    requires WellFormed(d) && var t := PrecText(d.prec); pos + |t| < |fmt| && fmt[pos..pos + |t|] == t
    requires !IsDigit(fmt[pos + |PrecText(d.prec)|]) && fmt[pos + |PrecText(d.prec)|] != '*'
    ensures ScanFrom(fmt, pos, next + StarCount(d.width), spec, args)
         == ScanFrom(fmt, pos + |PrecText(d.prec)|, ArgIndex(d, next), WithPrec(spec, d, next, args), args)
  {
    var t := PrecText(d.prec);
    if d.prec.Star? {
      assert fmt[pos] == fmt[pos..pos + |t|][0] && fmt[pos + 1] == fmt[pos..pos + |t|][1];
    } else if d.prec.Given? {
      assert fmt[pos] == fmt[pos..pos + |t|][0];
      assert fmt[pos + 1..pos + |t|] == fmt[pos..pos + |t|][1..];
      ScansDigits(fmt, pos, next + StarCount(d.width), spec, args, d.prec.digits);
    }
  }

  lemma ScansDigits(fmt: string, pos: nat, next: nat, spec: Spec, args: seq<Arg>, digits: string)
    requires DigitText(digits) && pos + 1 + |digits| < |fmt|
    requires fmt[pos] == '.' && fmt[pos + 1..pos + 1 + |digits|] == digits
    requires !IsDigit(fmt[pos + 1 + |digits|]) && fmt[pos + 1 + |digits|] != '*'
    ensures ScanFrom(fmt, pos, next, spec, args)
         == ScanFrom(fmt, pos + 1 + |digits|, next, PrecFrom(spec, WidthValue(digits, 0)), args)
  {
    var e := pos + 1 + |digits|;
    if digits != "" {
      assert fmt[pos + 1] == fmt[pos + 1..e][0];
    }
    ReadsDigits(fmt, pos + 1, digits, 0);
    PrecisionTurn(fmt, pos, next, spec, args, WidthValue(digits, 0), e);
  }

  /** The case of the dot, with a precision in digits. */
  lemma PrecisionTurn(fmt: string, pos: nat, next: nat, spec: Spec, args: seq<Arg>, n: int, e: nat)
    requires pos + 1 <= e < |fmt| && fmt[pos] == '.' && fmt[pos + 1] != '*' && IsLong(n)
    requires ReadDigits(fmt, At(fmt, pos + 1), pos + 2, 0) == Number(n, fmt[e], e + 1)
    ensures ScanFrom(fmt, pos, next, spec, args) == ScanFrom(fmt, e, next, PrecFrom(spec, n), args)
  {
  }

  lemma OnlyFlags(s: string, allowed: string)
    requires OnlyFrom(s, allowed) && (allowed == "-+ #0" || allowed == "hl")
    ensures AllFlags(s)
  {
  }

  /** Where the parts of a directive are in the format. */
  lemma DirectiveParts(fmt: string, pos: nat, d: Directive)
    requires var t := DirectiveFormat(d); pos + |t| <= |fmt| && fmt[pos..pos + |t|] == t
    ensures var a := pos + 1; var b := a + |d.flags|; var c := b + |SizeText(d.width)|;
            var e := c + |PrecText(d.prec)|; var f := e + |d.modifier|;
            f + 1 == pos + |DirectiveFormat(d)| && fmt[pos] == '%' && fmt[a..b] == d.flags
            && fmt[b..c] == SizeText(d.width) && fmt[c..e] == PrecText(d.prec) && fmt[e..f] == d.modifier
            && fmt[f] == d.conv
  {
    SixParts(fmt, pos, "%", d.flags, SizeText(d.width), PrecText(d.prec), d.modifier, [d.conv]);
    var f := pos + |DirectiveFormat(d)| - 1;
    assert fmt[pos] == fmt[pos..pos + 1][0] && fmt[f] == fmt[f..f + 1][0];
  }

  lemma SixParts(s: string, p: nat, t0: string, t1: string, t2: string, t3: string, t4: string, t5: string)
    requires var t := t0 + t1 + t2 + t3 + t4 + t5; p + |t| <= |s| && s[p..p + |t|] == t
    ensures var a := p + |t0|; var b := a + |t1|; var c := b + |t2|; var e := c + |t3|; var f := e + |t4|;
            f + |t5| <= |s| && s[p..a] == t0 && s[a..b] == t1 && s[b..c] == t2 && s[c..e] == t3 && s[e..f] == t4
            && s[f..f + |t5|] == t5
  {
    TwoParts(s, p, t0 + t1 + t2 + t3 + t4, t5);
    TwoParts(s, p, t0 + t1 + t2 + t3, t4);
    TwoParts(s, p, t0 + t1 + t2, t3);
    TwoParts(s, p, t0 + t1, t2);
    TwoParts(s, p, t0, t1);
  }

  lemma TwoParts(s: string, p: nat, t: string, u: string)
    requires p + |t + u| <= |s| && s[p..p + |t + u|] == t + u
    ensures s[p..p + |t|] == t && s[p + |t|..p + |t| + |u|] == u
  {
    SubSlice(s, p, t + u, 0, |t|);
    SubSlice(s, p, t + u, |t|, |t + u|);
    assert (t + u)[0..|t|] == t && (t + u)[|t|..|t + u|] == u;
  }

  lemma SubSlice(s: string, pos: nat, t: string, i: nat, j: nat)
    requires pos + |t| <= |s| && s[pos..pos + |t|] == t && i <= j <= |t|
    ensures s[pos + i..pos + j] == t[i..j]
  {
    forall k | i <= k < j ensures s[pos + k] == t[k] {
      assert s[pos + k] == s[pos..pos + |t|][k];
    }
  }

  /** What stands where a part starts that may be empty. */
  lemma FirstOf(fmt: string, pos: nat, part: string)
    requires pos + |part| < |fmt| && fmt[pos..pos + |part|] == part
    ensures fmt[pos] == if part == "" then fmt[pos + |part|] else part[0]
  {
    if part != "" {
      assert fmt[pos] == fmt[pos..pos + |part|][0];
    }
  }

  /** The parts of a directive from its width on stand at a place. */
  predicate TailAt(fmt: string, b: nat, d: Directive) {
    var c := b + |SizeText(d.width)|; var e := c + |PrecText(d.prec)|; var f := e + |d.modifier|;
    && f < |fmt| && fmt[b..c] == SizeText(d.width) && fmt[c..e] == PrecText(d.prec) && fmt[e..f] == d.modifier
    && fmt[f] == d.conv && !IsDigit(fmt[c]) && !IsDigit(fmt[e]) && fmt[e] != '*'
  }

  lemma TailStands(fmt: string, pos: nat, d: Directive)
    requires WellFormed(d) && var t := DirectiveFormat(d); pos + |t| <= |fmt| && fmt[pos..pos + |t|] == t
    ensures TailAt(fmt, pos + 1 + |d.flags|, d)
  {
    DirectiveParts(fmt, pos, d);
    var c := pos + 1 + |d.flags| + |SizeText(d.width)|;
    NoDigitBehind(fmt, c, PrecText(d.prec), d.modifier, d.conv);
  }

  /** Neither a width nor a precision is followed by a digit. */
  lemma NoDigitBehind(fmt: string, c: nat, prec: string, modifier: string, conv: char)
    requires prec == "" || prec[0] == '.'
    requires OnlyFrom(modifier, "hl") && EndsScan(conv)
    requires var e := c + |prec|; var f := e + |modifier|;
             f < |fmt| && fmt[c..e] == prec && fmt[e..f] == modifier && fmt[f] == conv
    ensures !IsDigit(fmt[c]) && !IsDigit(fmt[c + |prec|]) && fmt[c + |prec|] != '*'
  {
    FirstOf(fmt, c + |prec|, modifier);
    FirstOf(fmt, c, prec);
  }

  /** Length of a directive from its width on. */
  function TailLength(d: Directive): nat {
    |SizeText(d.width)| + |PrecText(d.prec)| + |d.modifier| + 1
  }

  /** The scan of a directive takes its parts one after the other. */
  lemma ScansDirective(fmt: string, pos: nat, d: Directive, next: nat, args: seq<Arg>)
    requires WellFormed(d) && var t := DirectiveFormat(d); pos + |t| <= |fmt| && fmt[pos..pos + |t|] == t
    ensures ScanAfter(fmt, pos, next, args)
         == Scan(d.conv, pos + |DirectiveFormat(d)|, ArgIndex(d, next), ScannedSpec(d, next, args))
  {
    DirectiveParts(fmt, pos, d);
    TailStands(fmt, pos, d);
    OnlyFlags(d.flags, "-+ #0");
    ScansParts(fmt, pos + 1, d, next, PLAIN, args);
  }

  lemma ScansParts(fmt: string, a: nat, d: Directive, next: nat, spec: Spec, args: seq<Arg>)
    requires WellFormed(d) && AllFlags(d.flags) && TailAt(fmt, a + |d.flags|, d)
    requires a + |d.flags| <= |fmt| && fmt[a..a + |d.flags|] == d.flags
    ensures ScanFrom(fmt, a, next, spec, args)
         == Scan(d.conv, a + |d.flags| + TailLength(d), ArgIndex(d, next),
                 SetFlags(d.modifier, WithPrec(WithWidth(SetFlags(d.flags, spec), d, next, args), d, next, args)))
  {
    ScansLeading(fmt, a, d.flags, next, spec, args);
    ScansTail(fmt, a + |d.flags|, d, next, SetFlags(d.flags, spec), args);
  }

  lemma ScansLeading(fmt: string, a: nat, flags: string, next: nat, spec: Spec, args: seq<Arg>)
    requires AllFlags(flags) && a + |flags| < |fmt| && fmt[a..a + |flags|] == flags
    ensures ScanFrom(fmt, a, next, spec, args) == ScanFrom(fmt, a + |flags|, next, SetFlags(flags, spec), args)
  {
    ScansFlags(fmt, a, flags, next, spec, args);
  }

  /** The scan from the width on. */
  lemma ScansTail(fmt: string, b: nat, d: Directive, next: nat, spec: Spec, args: seq<Arg>)
    requires WellFormed(d) && TailAt(fmt, b, d)
    ensures ScanFrom(fmt, b, next, spec, args)
            == Scan(d.conv, b + TailLength(d), ArgIndex(d, next),
                    SetFlags(d.modifier, WithPrec(WithWidth(spec, d, next, args), d, next, args)))
  {
    OnlyFlags(d.modifier, "hl");
    ScansSize(fmt, b, next, spec, args, d);
    ScansPrecTail(fmt, b + |SizeText(d.width)|, d, next, WithWidth(spec, d, next, args), args);
  }

  /** The scan from the precision on. */
  lemma ScansPrecTail(fmt: string, c: nat, d: Directive, next: nat, spec: Spec, args: seq<Arg>)
    requires WellFormed(d) && AllFlags(d.modifier)
    requires var e := c + |PrecText(d.prec)|; var f := e + |d.modifier|;
             f < |fmt| && fmt[c..e] == PrecText(d.prec) && fmt[e..f] == d.modifier && fmt[f] == d.conv
             && !IsDigit(fmt[e]) && fmt[e] != '*'
    ensures ScanFrom(fmt, c, next + StarCount(d.width), spec, args)
            == Scan(d.conv, c + |PrecText(d.prec)| + |d.modifier| + 1, ArgIndex(d, next),
                    SetFlags(d.modifier, WithPrec(spec, d, next, args)))
  {
    ScansPrec(fmt, c, next, spec, args, d);
    ScansModifier(fmt, c + |PrecText(d.prec)|, d, ArgIndex(d, next), WithPrec(spec, d, next, args), args);
  }

  lemma ScansModifier(fmt: string, e: nat, d: Directive, next: nat, spec: Spec, args: seq<Arg>)
    requires AllFlags(d.modifier) && EndsScan(d.conv)
    requires var f := e + |d.modifier|; f < |fmt| && fmt[e..f] == d.modifier && fmt[f] == d.conv
    ensures ScanFrom(fmt, e, next, spec, args)
            == Scan(d.conv, e + |d.modifier| + 1, next, SetFlags(d.modifier, spec))
  {
    ScansFlags(fmt, e, d.modifier, next, spec, args);
  }

  // ----- the spec it leaves

  /** The flags that occur in a text, whatever their order and number. */
  datatype Flags = Flags(left: bool, alt: bool, zero: bool, plus: bool, blank: bool, long: bool, short: bool)

  function FlagsIn(s: string): Flags {
    Flags('-' in s, '#' in s, '0' in s, '+' in s, ' ' in s, 'l' in s, 'h' in s)
  }

  function Also(c: char, f: Flags): Flags {
    Flags(c == '-' || f.left, c == '#' || f.alt, c == '0' || f.zero, c == '+' || f.plus, c == ' ' || f.blank,
          c == 'l' || f.long, c == 'h' || f.short)
  }

  lemma InHead(s: string, c: char)
    requires s != ""
    ensures c in s <==> c == s[0] || c in s[1..]
  {
    assert s == [s[0]] + s[1..];
  }

  lemma FlagsInHead(s: string)
    requires s != ""
    ensures FlagsIn(s) == Also(s[0], FlagsIn(s[1..]))
  {
    InHead(s, '-');
    InHead(s, '#');
    InHead(s, '0');
    InHead(s, '+');
    InHead(s, ' ');
    InHead(s, 'l');
    InHead(s, 'h');
  }

  /** What flags make of a spec. */
  predicate FlagsGive(f: Flags, spec: Spec, r: Spec) {
    && r.left == (spec.left || f.left) && r.alt == (spec.alt || f.alt) && r.zero == ((spec.zero || f.zero) && !r.left)
    && r.sign == (if f.plus then '+' else if spec.sign == '\0' && f.blank then ' ' else spec.sign)
    && r.long == (spec.long || f.long) && r.short == (spec.short || f.short)
    && r.width == spec.width && r.prec == spec.prec && r.hex == spec.hex
  }

  /** Flags taken one after the other have the effect of the set of them. */
  lemma {:induction false} FlagsMean(flags: string, spec: Spec)
    requires !(spec.left && spec.zero)
    ensures FlagsGive(FlagsIn(flags), spec, SetFlags(flags, spec))
    decreases |flags|
  {
    if flags != "" {
      FlagsMean(flags[1..], SetFlag(flags[0], spec));
      FlagsInHead(flags);
      FlagThenFlags(flags[0], FlagsIn(flags[1..]), spec, SetFlags(flags, spec));
    }
  }

  /** One flag more in front. */
  lemma FlagThenFlags(c: char, f: Flags, spec: Spec, r: Spec)
    requires !(spec.left && spec.zero) && FlagsGive(f, SetFlag(c, spec), r)
    ensures FlagsGive(Also(c, f), spec, r)
  {
    OneFlag(c, spec);
    TwoSteps(c, f, spec, SetFlag(c, spec), r);
  }

  lemma OneFlag(c: char, spec: Spec)
    requires !(spec.left && spec.zero)
    ensures FlagsGive(Also(c, Flags(false, false, false, false, false, false, false)), spec, SetFlag(c, spec))
  {
  }

  lemma TwoSteps(c: char, f: Flags, spec: Spec, m: Spec, r: Spec)
    requires FlagsGive(Also(c, Flags(false, false, false, false, false, false, false)), spec, m)
    requires FlagsGive(f, m, r)
    ensures FlagsGive(Also(c, f), spec, r)
  {
  }

  /** A width or a precision that fits an int is read as the number it denotes. */
  lemma {:induction false} SizeValue(digits: string)
    requires DigitText(digits) && NumeralValue(digits, 10) <= LONG_MAX
    ensures WidthValue(digits, 0) == NumeralValue(digits, 10)
    decreases |digits|
  {
    if digits != "" {
      var n := |digits| - 1;
      PrefixValue(digits, n, 10);
      SizeValue(digits[..n]);
      WidthSnoc(digits, n, WidthValue(digits[..n], 0));
      assert digits[..n + 1] == digits;
    }
  }

  /** The spec of a conversion is what was asked for. */
  predicate Carries(spec: Spec, q: Request) {
    && spec.left == q.left && spec.alt == q.alt && spec.zero == (q.zero && !q.left)
    && spec.sign == (if q.plus then '+' else if q.blank then ' ' else '\0')
    && spec.width == q.width && spec.prec == q.prec && !spec.hex
  }

  /** Width and precision are ints. */
  predicate IntSizes(q: Request) {
    q.width <= LONG_MAX && q.prec <= LONG_MAX
  }

  lemma WidthMeans(spec: Spec, d: Directive, next: nat, args: seq<Arg>)
    requires WellFormed(d) && Abs(WidthAsked(d, next, args)) <= LONG_MAX && spec.width == 0
    ensures var w := WidthAsked(d, next, args); var r := WithWidth(spec, d, next, args);
            r == if w < 0 then spec.(width := Abs(w), left := true, zero := false) else spec.(width := w)
  {
    if d.width.Given? {
      SizeValue(d.width.digits);
    }
  }

  lemma PrecMeans(spec: Spec, d: Directive, next: nat, args: seq<Arg>)
    requires WellFormed(d) && PrecAsked(d, next, args) <= LONG_MAX && spec.prec == -1
    ensures WithPrec(spec, d, next, args) == spec.(prec := PrecAsked(d, next, args))
  {
    if d.prec.Given? {
      SizeValue(d.prec.digits);
    }
  }

  lemma NotIn(s: string, allowed: string, c: char)
    requires OnlyFrom(s, allowed) && c !in allowed
    ensures c !in s
  {
  }

  lemma SpecMeans(d: Directive, next: nat, args: seq<Arg>)
    requires WellFormed(d) && IntSizes(RequestOf(d, next, args))
    ensures var spec := ScannedSpec(d, next, args);
            Carries(spec, RequestOf(d, next, args)) && spec.long == ('l' in d.modifier)
            && spec.short == ('h' in d.modifier)
  {
    var first := SetFlags(d.flags, PLAIN);
    FlagsMean(d.flags, PLAIN);
    NotIn(d.flags, "-+ #0", 'l');
    NotIn(d.flags, "-+ #0", 'h');
    var second := WithWidth(first, d, next, args);
    WidthMeans(first, d, next, args);
    PrecMeans(second, d, next, args);
    var third := WithPrec(second, d, next, args);
    FlagsMean(d.modifier, third);
    ModifierOnly(d.modifier);
  }

  lemma ModifierOnly(s: string)
    requires OnlyFrom(s, "hl")
    ensures '-' !in s && '+' !in s && ' ' !in s && '#' !in s && '0' !in s
  {
  }

  // ----- the field it lays out

  lemma {:induction false} FiguresAreDigits(u: nat, radix: nat, upper: bool)
    requires 2 <= radix <= 16
    ensures Figures(u, radix, upper) == NumeralIn(u, radix, upper)
    decreases u
  {
    LastDigit(u, radix, upper);
    Letter(u % radix, upper);
    if u < radix {
      SmallQuotient(u, radix);
    } else {
      QuotientShrinks(u, radix);
      NotSmall(u, radix);
      FiguresAreDigits(u / radix, radix, upper);
    }
  }

  lemma NotSmall(u: nat, radix: nat)
    requires 2 <= radix <= u
    ensures u / radix != 0
  {
    FloorBounds(u, radix);
  }

  lemma Letter(d: nat, upper: bool)
    requires d < 16
    ensures DigitIn(d, upper) == if upper then "0123456789ABCDEF"[d] else "0123456789abcdef"[d]
  {
    UpperCaseAt([DigitChar(d)]);
  }

  lemma CellsJoin(a: string, b: string)
    ensures AsCells(a + b) == AsCells(a) + AsCells(b)
  {
  }

  lemma PaddingCells(n: nat)
    ensures Repeat(' ', n) == AsCells(Blanks(n)) && Repeat('0', n) == AsCells(Zeros(n)) && |Zeros(n)| == n
  {
  }

  /** A field whose parts are those of a justified text is that text. */
  lemma FieldIsJustified(f: Action, q: Request, zeros: bool, prefix: string, body: string)
    requires f.Field? && f.spec.left == q.left && (!q.left ==> f.spec.zero == zeros) && f.spec.width == q.width
    requires Prefix(f.spec, f.mark) == AsCells(prefix)
    requires Repeat('0', DigitPadding(|f.text|, f.dprec)) + Stored(f.text) == AsCells(body)
    requires |prefix| + |body| <= LONG_MAX && q.width <= LONG_MAX
    ensures FieldCells(f) == AsCells(Justified(q, zeros, prefix, body))
    ensures FieldWidth(f) == |Justified(q, zeros, prefix, body)|
  {
    SizeIs(f, prefix, body);
    JustifiedCells(q, zeros, prefix, body, Gap(f));
    BodyTogether(f, AsCells(prefix), AsCells(body));
    PaddingCells(Gap(f));
  }

  lemma BodyTogether(f: Action, prefix: seq<Cell>, body: seq<Cell>)
    requires f.Field? && Prefix(f.spec, f.mark) == prefix
    requires Repeat('0', DigitPadding(|f.text|, f.dprec)) + Stored(f.text) == body
    ensures FieldCells(f)
         == (if f.spec.left then prefix + body + Repeat(' ', Gap(f))
             else if f.spec.zero then prefix + Repeat('0', Gap(f)) + body
             else Repeat(' ', Gap(f)) + prefix + body)
  {
  }

  lemma JustifiedCells(q: Request, zeros: bool, prefix: string, body: string, gap: nat)
    requires gap == if q.width > |prefix| + |body| then q.width - |prefix| - |body| else 0
    ensures AsCells(Justified(q, zeros, prefix, body))
         == (if q.left then AsCells(prefix) + AsCells(body) + AsCells(Blanks(gap))
             else if zeros then AsCells(prefix) + AsCells(Zeros(gap)) + AsCells(body)
             else AsCells(Blanks(gap)) + AsCells(prefix) + AsCells(body))
  {
    if q.left {
      ThreeParts(prefix, body, Blanks(gap));
    } else if zeros {
      ThreeParts(prefix, Zeros(gap), body);
    } else {
      ThreeParts(Blanks(gap), prefix, body);
    }
  }

  lemma ThreeParts(a: string, b: string, c: string)
    ensures AsCells(a + b + c) == AsCells(a) + AsCells(b) + AsCells(c)
  {
    CellsJoin(a, b);
    CellsJoin(a + b, c);
  }

  lemma SizeIs(f: Action, prefix: string, body: string)
    requires f.Field? && Prefix(f.spec, f.mark) == AsCells(prefix)
    requires Repeat('0', DigitPadding(|f.text|, f.dprec)) + Stored(f.text) == AsCells(body)
    requires |prefix| + |body| <= LONG_MAX && 0 <= f.spec.width <= LONG_MAX
    ensures FieldSize(f) == |prefix| + |body|
    ensures Gap(f) == if f.spec.width > |prefix| + |body| then f.spec.width - |prefix| - |body| else 0
  {
    assert |AsCells(body)| == |body|;
    assert DigitPadding(|f.text|, f.dprec) + |f.text| == |body|;
  }

  /** Precision zeros and digits without a NUL. */
  lemma BodyCells(text: string, prec: int)
    requires NoNul(text)
    ensures Repeat('0', DigitPadding(|text|, prec)) + Stored(text) == AsCells(Zeros(prec - |text|) + text)
  {
    StoredText(text);
    PaddingCells(DigitPadding(|text|, prec));
    CellsJoin(Zeros(prec - |text|), text);
  }

  lemma FiguresHaveNoNul(u: nat, radix: nat, upper: bool)
    requires 2 <= radix <= 16
    ensures NoNul(NumeralIn(u, radix, upper)) && NoNul("0" + NumeralIn(u, radix, upper))
    ensures NumeralIn(u, radix, upper)[0] == '0' <==> u == 0
    ensures u == 0 ==> NumeralIn(u, radix, upper) == "0"
  {
    NumeralRoundTrip(u, radix);
    NumeralLead(u, radix);
    DigitsNoNul(Numeral(u, radix), radix);
    UpperCaseAt(Numeral(u, radix));
    UpperCaseDigits(Numeral(u, radix), radix);
    DigitsNoNul(NumeralIn(u, radix, upper), radix);
  }

  /** The digits of a number conversion without an alternative form. */
  lemma NumberCells(u: nat, radix: nat, spec: Spec, upper: bool)
    requires 2 <= radix <= 16 && (radix != 8 || !spec.alt)
    ensures var text := NumberBody(u, radix, spec, upper);
            Repeat('0', DigitPadding(|text|, spec.prec)) + Stored(text)
            == AsCells(IntegerDigits(u, radix, upper, spec.prec))
  {
    FiguresAreDigits(u, radix, upper);
    FiguresHaveNoNul(u, radix, upper);
    if u == 0 && spec.prec == 0 {
      BodyCells("", 0);
      assert Zeros(0) + "" == "";
    } else {
      BodyCells(NumeralIn(u, radix, upper), spec.prec);
    }
  }

  /** The digits of %o and %#o. */
  lemma OctalCells(u: nat, spec: Spec, q: Request)
    requires spec.alt == q.alt && spec.prec == q.prec && !(q.alt && q.prec == 0 && u == 0)
    ensures var text := NumberBody(u, 8, spec, false);
            Repeat('0', DigitPadding(|text|, spec.prec)) + Stored(text) == AsCells(OctalDigits(q, u))
  {
    FiguresAreDigits(u, 8, false);
    FiguresHaveNoNul(u, 8, false);
    if !q.alt || u == 0 {
      NumberCells(u, 8, spec.(alt := false), false);
    } else {
      AlternativeOctal(Numeral(u, 8), u, spec, q);
    }
  }

  lemma AlternativeOctal(s: string, u: nat, spec: Spec, q: Request)
    requires u > 0 && spec.alt && q.alt && spec.prec == q.prec
    requires s == Numeral(u, 8) == Figures(u, 8, false) && NoNul("0" + s) && s[0] != '0'
    ensures var text := NumberBody(u, 8, spec, false);
            Repeat('0', DigitPadding(|text|, spec.prec)) + Stored(text) == AsCells(OctalDigits(q, u))
  {
    BodyCells("0" + s, spec.prec);
    LeadingZeroFits(s, q.prec);
  }

  /** A zero in front counts as one of the zeros of the precision. */
  lemma LeadingZeroFits(s: string, prec: int)
    requires s != "" && s[0] != '0'
    ensures var t := Zeros(prec - |s|) + s;
            Zeros(prec - |"0" + s|) + ("0" + s) == if t[0] != '0' then "0" + t else t
  {
    var t := "0" + s;
    if prec > |s| {
      assert Zeros(prec - |s|) + s == Zeros(prec - |t|) + t;
    }
  }

  /** A number field, once its prefix and its digits are known. */
  lemma IntegerField(f: Action, spec: Spec, q: Request, u: nat, radix: nat, mark: char, prefix: string, body: string)
    requires 2 <= radix <= 16 && f == NumberField(spec, u, radix, mark)
    requires spec.left == q.left && spec.zero == (q.zero && !q.left) && spec.width == q.width && spec.prec == q.prec
    requires Prefix(spec, mark) == AsCells(prefix)
    requires var text := NumberBody(u, radix, spec, mark == 'X');
             Repeat('0', DigitPadding(|text|, spec.prec)) + Stored(text) == AsCells(body)
    requires |IntegerText(q, prefix, body)| <= LONG_MAX
    ensures FieldCells(f) == AsCells(IntegerText(q, prefix, body))
    ensures FieldWidth(f) == |IntegerText(q, prefix, body)|
  {
    JustifiedLength(q, q.zero && q.prec < 0, prefix, body);
    FieldIsJustified(f, q, q.zero && q.prec < 0, prefix, body);
  }

  lemma JustifiedLength(q: Request, zeros: bool, prefix: string, body: string)
    ensures |Justified(q, zeros, prefix, body)|
            == if q.width > |prefix| + |body| then q.width else |prefix| + |body|
  {
  }

  lemma SignedMeans(spec: Spec, q: Request, v: int, mark: char)
    requires Carries(spec, q) && IsLong(v) && mark != 'X' && |SignedIntegerText(q, v)| <= LONG_MAX
    ensures FieldCells(SignedField(spec, v, mark)) == AsCells(SignedIntegerText(q, v))
    ensures FieldWidth(SignedField(spec, v, mark)) == |SignedIntegerText(q, v)|
  {
    var signed := if v < 0 then spec.(sign := '-') else spec;
    NumberCells(Abs(v), 10, signed, false);
    assert Prefix(signed, mark) == AsCells(SignOf(q, v));
    SmallQuotient(Abs(v), WORD);
    IntegerField(SignedField(spec, v, mark), signed, q, Abs(v), 10, mark, SignOf(q, v),
                 IntegerDigits(Abs(v), 10, false, q.prec));
  }

  lemma DecimalMeans(spec: Spec, q: Request, u: nat, mark: char)
    requires Carries(spec, q) && mark != 'X'
    requires |IntegerText(q, "", IntegerDigits(u, 10, false, q.prec))| <= LONG_MAX
    ensures var text := IntegerText(q, "", IntegerDigits(u, 10, false, q.prec));
            FieldCells(UnsignedField(spec, u, 10, mark)) == AsCells(text)
            && FieldWidth(UnsignedField(spec, u, 10, mark)) == |text|
  {
    var plain := spec.(sign := '\0');
    NumberCells(u, 10, plain, false);
    assert Prefix(plain, mark) == AsCells("");
    IntegerField(UnsignedField(spec, u, 10, mark), plain, q, u, 10, mark, "", IntegerDigits(u, 10, false, q.prec));
  }

  /** Hexadecimal, with the prefix its spec asks for. */
  lemma HexMeans(spec: Spec, q: Request, u: nat, mark: char, prefixed: bool)
    requires Carries(spec, q) && (mark == 'x' || mark == 'X')
    requires var prefix := if prefixed then ['0', mark] else "";
             |IntegerText(q, prefix, IntegerDigits(u, 16, mark == 'X', q.prec))| <= LONG_MAX
    ensures var prefix := if prefixed then ['0', mark] else "";
            var text := IntegerText(q, prefix, IntegerDigits(u, 16, mark == 'X', q.prec));
            var f := UnsignedField(spec.(hex := prefixed), u, 16, mark);
            FieldCells(f) == AsCells(text) && FieldWidth(f) == |text|
  {
    var plain := spec.(hex := prefixed, sign := '\0');
    var prefix := if prefixed then ['0', mark] else "";
    NumberCells(u, 16, plain, mark == 'X');
    assert Prefix(plain, mark) == AsCells(prefix);
    IntegerField(UnsignedField(spec.(hex := prefixed), u, 16, mark), plain, q, u, 16, mark, prefix,
                 IntegerDigits(u, 16, mark == 'X', q.prec));
  }

  lemma OctalMeans(spec: Spec, q: Request, u: nat, mark: char)
    requires Carries(spec, q) && mark != 'X' && !(q.alt && q.prec == 0 && u == 0)
    requires |IntegerText(q, "", OctalDigits(q, u))| <= LONG_MAX
    ensures var text := IntegerText(q, "", OctalDigits(q, u));
            FieldCells(UnsignedField(spec, u, 8, mark)) == AsCells(text)
            && FieldWidth(UnsignedField(spec, u, 8, mark)) == |text|
  {
    var plain := spec.(sign := '\0');
    OctalCells(u, plain, q);
    assert Prefix(plain, mark) == AsCells("");
    IntegerField(UnsignedField(spec, u, 8, mark), plain, q, u, 8, mark, "", OctalDigits(q, u));
  }

  lemma TextMeans(spec: Spec, q: Request, s: string, mark: char)
    requires Carries(spec, q) && NoNul(s) && |Justified(q, q.zero, "", s)| <= LONG_MAX
    ensures var text := Justified(q, q.zero, "", s);
            FieldCells(TextField(spec, s, mark)) == AsCells(text) && FieldWidth(TextField(spec, s, mark)) == |text|
  {
    var f := TextField(spec, s, mark);
    BodyCells(s, 0);
    assert Zeros(0 - |s|) + s == s;
    assert Prefix(f.spec, mark) == AsCells("");
    JustifiedLength(q, q.zero, "", s);
    FieldIsJustified(f, q, q.zero, "", s);
  }

  // ----- a directive, and a format

  /**
   Where the code departs from the standard: zero in the alternative octal form
   with a precision of zero, and the character NUL.
  */
  predicate Departs(d: Directive, next: nat, args: seq<Arg>) {
    var q, w := RequestOf(d, next, args), WordArg(args, ArgIndex(d, next));
    || ((d.conv == 'o' || d.conv == 'O') && q.alt && q.prec == 0 && UnsignedValue(q, w) == 0)
    || (d.conv == 'c' && w % 0x100 == 0)
  }

  /** What comes out fits an int, and so do the sizes that go in. */
  predicate Fits(d: Directive, next: nat, args: seq<Arg>) {
    IntSizes(RequestOf(d, next, args)) && |DirectiveText(d, next, args)| <= LONG_MAX
  }

  lemma ArgsMean(d: Directive, q: Request, spec: Spec, w: int)
    requires IsLong(w) && spec.short == ('h' in d.modifier) && spec.long == ('l' in d.modifier || AlwaysLong(d.conv))
    requires q.short == ('h' in d.modifier && !('l' in d.modifier || AlwaysLong(d.conv)))
    ensures SignedArg(spec, w) == SignedValue(q, w) && UnsignedArg(spec, w) == UnsignedValue(q, w)
    ensures IsLong(SignedValue(q, w))
  {
    ShortMeans(w);
  }

  /** The number congruent to another mod 2^16 that fits a short. */
  lemma ShortMeans(w: int)
    ensures -0x8000 <= ToShort(w) < 0x8000
    ensures ToShort(w) == if w % 0x1_0000 >= 0x8000 then w % 0x1_0000 - 0x1_0000 else w % 0x1_0000
  {
    var q, r := w / 0x1_0000, w % 0x1_0000;
    assert w == q * 0x1_0000 + r;
    if r >= 0x8000 {
      SplitQuotient(q + 1, 0x1_0000, r - 0x8000);
    } else {
      SplitQuotient(q, 0x1_0000, r + 0x8000);
    }
  }

  /** The state of the scan at a directive's conversion character. */
  predicate ScannedTo(s: Scan, d: Directive, next: nat, args: seq<Arg>) {
    && s.ch == d.conv && s.next == ArgIndex(d, next) && Carries(s.spec, RequestOf(d, next, args))
    && s.spec.long == ('l' in d.modifier) && s.spec.short == ('h' in d.modifier)
  }

  /** The field of a conversion has a text, and that many arguments are taken. */
  predicate Prints(c: (Action, nat), conv: char, text: string) {
    && c.1 == (if TakesArg(conv) then 1 else 0) && c.0.Field?
    && FieldCells(c.0) == AsCells(text) && FieldWidth(c.0) == |text|
  }

  lemma SignedDirective(s: Scan, d: Directive, next: nat, args: seq<Arg>)
    requires ScannedTo(s, d, next, args) && Fits(d, next, args) && (d.conv == 'd' || d.conv == 'i' || d.conv == 'D')
    ensures Prints(Convert(s, args), d.conv, DirectiveText(d, next, args))
  {
    var q, w := RequestOf(d, next, args), WordArg(args, s.next);
    var spec := if d.conv == 'D' then s.spec.(long := true) else s.spec;
    ArgsMean(d, q, spec, w);
    SignedMeans(spec, q, SignedValue(q, w), d.conv);
  }

  lemma DecimalDirective(s: Scan, d: Directive, next: nat, args: seq<Arg>)
    requires ScannedTo(s, d, next, args) && Fits(d, next, args) && (d.conv == 'u' || d.conv == 'U')
    ensures Prints(Convert(s, args), d.conv, DirectiveText(d, next, args))
  {
    var q, w := RequestOf(d, next, args), WordArg(args, s.next);
    var spec := if d.conv == 'U' then s.spec.(long := true) else s.spec;
    var u := UnsignedValue(q, w);
    ArgsMean(d, q, spec, w);
    DecimalConversion(s, spec, args, u);
    DecimalText(d, next, args, q, u);
    DecimalMeans(spec, q, u, d.conv);
  }

  lemma DecimalConversion(s: Scan, spec: Spec, args: seq<Arg>, u: nat)
    requires s.ch == 'u' || s.ch == 'U'
    requires spec == (if s.ch == 'U' then s.spec.(long := true) else s.spec)
    requires u == UnsignedArg(spec, WordArg(args, s.next))
    ensures Convert(s, args) == (UnsignedField(spec, u, 10, s.ch), 1)
  {
  }

  lemma DecimalText(d: Directive, next: nat, args: seq<Arg>, q: Request, u: nat)
    requires q == RequestOf(d, next, args) && u == UnsignedValue(q, WordArg(args, ArgIndex(d, next)))
    requires d.conv == 'u' || d.conv == 'U'
    ensures DirectiveText(d, next, args) == IntegerText(q, "", IntegerDigits(u, 10, false, q.prec))
  {
  }

  lemma OctalDirective(s: Scan, d: Directive, next: nat, args: seq<Arg>)
    requires ScannedTo(s, d, next, args) && Fits(d, next, args) && (d.conv == 'o' || d.conv == 'O')
    requires !Departs(d, next, args)
    ensures Prints(Convert(s, args), d.conv, DirectiveText(d, next, args))
  {
    var q, w := RequestOf(d, next, args), WordArg(args, s.next);
    var spec := if d.conv == 'O' then s.spec.(long := true) else s.spec;
    ArgsMean(d, q, spec, w);
    OctalMeans(spec, q, UnsignedValue(q, w), d.conv);
  }

  lemma HexDirective(s: Scan, d: Directive, next: nat, args: seq<Arg>)
    requires ScannedTo(s, d, next, args) && Fits(d, next, args) && (d.conv == 'x' || d.conv == 'X')
    ensures Prints(Convert(s, args), d.conv, DirectiveText(d, next, args))
  {
    var q, w := RequestOf(d, next, args), WordArg(args, s.next);
    ArgsMean(d, q, s.spec, w);
    var u := UnsignedValue(q, w);
    HexConversion(s, args, u);
    HexText(d, next, args, q, u);
    HexMeans(s.spec, q, u, d.conv, q.alt && u != 0);
  }

  lemma HexConversion(s: Scan, args: seq<Arg>, u: nat)
    requires !s.spec.hex && (s.ch == 'x' || s.ch == 'X') && u == UnsignedArg(s.spec, WordArg(args, s.next))
    ensures Convert(s, args) == (UnsignedField(s.spec.(hex := s.spec.alt && u != 0), u, 16, s.ch), 1)
  {
  }

  lemma HexText(d: Directive, next: nat, args: seq<Arg>, q: Request, u: nat)
    requires q == RequestOf(d, next, args) && u == UnsignedValue(q, WordArg(args, ArgIndex(d, next)))
    requires d.conv == 'x' || d.conv == 'X'
    ensures DirectiveText(d, next, args)
         == IntegerText(q, if q.alt && u != 0 then ['0', d.conv] else "",
                        IntegerDigits(u, 16, d.conv == 'X', q.prec))
  {
  }

  lemma PointerDirective(s: Scan, d: Directive, next: nat, args: seq<Arg>)
    requires ScannedTo(s, d, next, args) && Fits(d, next, args) && d.conv == 'p'
    ensures Prints(Convert(s, args), d.conv, DirectiveText(d, next, args))
  {
    var q, w := RequestOf(d, next, args), WordArg(args, s.next);
    HexMeans(s.spec, q, Mod32(w), 'x', true);
  }

  lemma StringDirective(s: Scan, d: Directive, next: nat, args: seq<Arg>)
    requires ScannedTo(s, d, next, args) && Fits(d, next, args) && d.conv == 's'
    ensures Prints(Convert(s, args), d.conv, DirectiveText(d, next, args))
  {
    var q := RequestOf(d, next, args);
    TextMeans(s.spec, q, StringBody(q, TextArg(args, s.next)), 's');
  }

  lemma CharDirective(s: Scan, d: Directive, next: nat, args: seq<Arg>)
    requires ScannedTo(s, d, next, args) && Fits(d, next, args) && d.conv == 'c' && !Departs(d, next, args)
    ensures Prints(Convert(s, args), d.conv, DirectiveText(d, next, args))
  {
    var q, w := RequestOf(d, next, args), WordArg(args, s.next);
    var c := (w % 0x100) as char;
    assert c != '\0';
    CharConversion(s, args, c);
    TextMeans(s.spec, q, [c], 'c');
  }

  lemma CharConversion(s: Scan, args: seq<Arg>, c: char)
    requires s.ch == 'c' && c == (WordArg(args, s.next) % 0x100) as char
    ensures Convert(s, args) == (TextField(s.spec, [c], 'c'), 1)
  {
  }

  lemma OtherDirective(s: Scan, d: Directive, next: nat, args: seq<Arg>)
    requires ScannedTo(s, d, next, args) && Fits(d, next, args) && !TakesArg(d.conv) && d.conv != '\0'
    ensures Prints(Convert(s, args), d.conv, DirectiveText(d, next, args))
  {
    TextMeans(s.spec, RequestOf(d, next, args), [d.conv], d.conv);
  }

  /** Every directive the standard and the code agree on prints its text. */
  lemma DirectivePrints(s: Scan, d: Directive, next: nat, args: seq<Arg>)
    requires ScannedTo(s, d, next, args) && Fits(d, next, args) && !Departs(d, next, args)
    requires d.conv != 'n' && d.conv != '\0'
    ensures Prints(Convert(s, args), d.conv, DirectiveText(d, next, args))
  {
    if d.conv == 'd' || d.conv == 'i' || d.conv == 'D' {
      SignedDirective(s, d, next, args);
    } else if d.conv == 'u' || d.conv == 'U' {
      DecimalDirective(s, d, next, args);
    } else if d.conv == 'o' || d.conv == 'O' {
      OctalDirective(s, d, next, args);
    } else if d.conv == 'x' || d.conv == 'X' {
      HexDirective(s, d, next, args);
    } else if d.conv == 'p' {
      PointerDirective(s, d, next, args);
    } else if d.conv == 's' {
      StringDirective(s, d, next, args);
    } else if d.conv == 'c' {
      CharDirective(s, d, next, args);
    } else {
      OtherDirective(s, d, next, args);
    }
  }

  lemma JustifiedHasBody(q: Request, zeros: bool, c: char)
    ensures Justified(q, zeros, "", [c]) != Justified(q, false, "", "") || (c == ' ' && q.width > 0) || zeros
  {
    var gap := if q.width > 1 then q.width - 1 else 0;
    if q.left {
      assert Justified(q, zeros, "", [c])[0] == c;
    } else if !zeros {
      assert Justified(q, zeros, "", [c])[gap] == c;
    }
  }

  lemma OctalZeroDeparts(s: Scan, d: Directive, next: nat, args: seq<Arg>)
    requires ScannedTo(s, d, next, args) && Fits(d, next, args) && Departs(d, next, args) && d.conv != 'c'
    ensures !Prints(Convert(s, args), d.conv, DirectiveText(d, next, args))
  {
    var q, w := RequestOf(d, next, args), WordArg(args, s.next);
    var spec := if d.conv == 'O' then s.spec.(long := true) else s.spec;
    ArgsMean(d, q, spec, w);
    NothingPrinted(UnsignedField(spec, 0, 8, d.conv), spec.(sign := '\0'), q, d.conv);
    assert OctalDigits(q, 0) == "0";
    JustifiedHasBody(q, false, '0');
    SameCells(Justified(q, false, "", ""), Justified(q, false, "", "0"));
  }

  /** Zero with a precision of zero is no digit at all, even with `#`. */
  lemma NothingPrinted(f: Action, spec: Spec, q: Request, mark: char)
    requires f == NumberField(spec, 0, 8, mark) && spec.prec == 0 && spec.sign == '\0' && !spec.hex
    requires spec.left == q.left && spec.width == q.width <= LONG_MAX
    ensures FieldCells(f) == AsCells(Justified(q, false, "", ""))
  {
    BodyCells("", 0);
    FieldIsJustified(f, q, false, "", "");
  }

  lemma SameCells(a: string, b: string)
    ensures AsCells(a) == AsCells(b) <==> a == b
  {
    if AsCells(a) == AsCells(b) {
      assert |a| == |AsCells(a)| == |b|;
      forall i | 0 <= i < |a| ensures a[i] == b[i] {
        assert AsCells(a)[i] == Put(a[i]) && AsCells(b)[i] == Put(b[i]);
      }
    }
  }

  lemma NulCharDeparts(s: Scan, d: Directive, next: nat, args: seq<Arg>)
    requires ScannedTo(s, d, next, args) && d.conv == 'c' && Departs(d, next, args)
    ensures !Prints(Convert(s, args), d.conv, DirectiveText(d, next, args))
  {
    var f := Convert(s, args).0;
    assert f.text == ['\0'] && Stored(f.text) == [Kept];
    KeptInField(f);
    NoKeptInText(DirectiveText(d, next, args));
  }

  lemma KeptInField(f: Action)
    requires f.Field? && Stored(f.text) == [Kept]
    ensures Kept in FieldCells(f)
  {
    var front := (if !f.spec.left && !f.spec.zero then Repeat(' ', Gap(f)) else []) + Prefix(f.spec, f.mark)
                 + (if !f.spec.left && f.spec.zero then Repeat('0', Gap(f)) else [])
                 + Repeat('0', DigitPadding(|f.text|, f.dprec));
    assert FieldCells(f)[|front|] == Kept;
  }

  lemma NoKeptInText(s: string)
    ensures Kept !in AsCells(s)
  {
  }

  /** A directive prints what the standard asks for exactly when it is neither of the two exceptions. */
  lemma DirectiveMeetsStandard(fmt: string, pos: nat, d: Directive, next: nat, args: seq<Arg>)
    requires WellFormed(d) && var t := DirectiveFormat(d); pos + |t| <= |fmt| && fmt[pos..pos + |t|] == t
    requires Fits(d, next, args) && d.conv != 'n'
    ensures var s := ScanAfter(fmt, pos, next, args);
            s.pos == pos + |DirectiveFormat(d)|
            && (Prints(Convert(s, args), d.conv, DirectiveText(d, next, args)) <==> !Departs(d, next, args))
  {
    var s := ScanAfter(fmt, pos, next, args);
    ScansDirective(fmt, pos, d, next, args);
    SpecMeans(d, next, args);
    if !Departs(d, next, args) {
      DirectivePrints(s, d, next, args);
    } else if d.conv == 'c' {
      NulCharDeparts(s, d, next, args);
    } else {
      OctalZeroDeparts(s, d, next, args);
    }
  }

  // ----- a whole format

  /** Every directive is well formed and fits, and none is an exception. */
  predicate Conforming(pieces: seq<Piece>, next: nat, args: seq<Arg>) {
    pieces == [] ||
    var d := pieces[0].directive;
    && Literal(pieces[0].before) && WellFormed(d) && Fits(d, next, args) && !Departs(d, next, args)
    && Conforming(pieces[1..], NextArg(d, next), args)
  }

  lemma {:induction false} LiteralText(fmt: string, pos: nat, text: string)
    requires Literal(text) && pos + |text| <= |fmt| && fmt[pos..pos + |text|] == text
    requires pos + |text| == |fmt| || fmt[pos + |text|] == '%'
    ensures LiteralEnd(fmt, pos) == pos + |text|
    decreases |text|
  {
    if text != "" {
      assert fmt[pos] == fmt[pos..pos + |text|][0];
      assert fmt[pos + 1..pos + |text|] == fmt[pos..pos + |text|][1..];
      LiteralText(fmt, pos + 1, text[1..]);
    }
  }

  /** Text and stored counts added to the output, the count being its length. */
  function After(p: Progress, text: string, counts: seq<(nat, int)>): Progress {
    Progress(p.cells + AsCells(text), |p.cells| + |text|, p.counts + counts)
  }

  lemma AfterTwice(p: Progress, a: string, b: string, c: seq<(nat, int)>, d: seq<(nat, int)>)
    ensures After(After(p, a, c), b, d) == After(p, a + b, c + d) && |After(p, a, c).cells| == |p.cells| + |a|
  {
    CellsJoin(a, b);
  }

  lemma LiteralEmitted(p: Progress, lit: string)
    requires Literal(lit) && p.ret == |p.cells| && |p.cells| + |lit| <= LONG_MAX
    ensures Emit(p, Stored(lit), |lit|) == After(p, lit, [])
  {
    StoredText(lit);
  }

  lemma FieldEmitted(p: Progress, lit: string, s: Scan, c: (Action, nat), conv: char, text: string)
    requires Prints(c, conv, text) && |p.cells| + |lit| + |text| <= LONG_MAX
    ensures Perform(After(p, lit, []), s, c.0, c.1) == More(After(p, lit + text, []), s.pos, s.next + c.1)
  {
    CellsJoin(lit, text);
  }

  /** A turn over literal text and a directive that prints. */
  lemma TurnPrints(fmt: string, pos: nat, e: nat, next: nat, args: seq<Arg>, p: Progress, conv: char, text: string)
    requires pos <= e < |fmt| && LiteralEnd(fmt, pos) == e && fmt[e] == '%' && Literal(fmt[pos..e])
    requires Prints(Convert(ScanAfter(fmt, e, next, args), args), conv, text)
    requires p.ret == |p.cells| && |p.cells| + (e - pos) + |text| <= LONG_MAX
    ensures var s := ScanAfter(fmt, e, next, args);
            OneTurn(fmt, pos, next, args, p)
            == More(After(p, fmt[pos..e] + text, []), s.pos, s.next + if TakesArg(conv) then 1 else 0)
  {
    var s := ScanAfter(fmt, e, next, args);
    LiteralEmitted(p, fmt[pos..e]);
    FieldEmitted(p, fmt[pos..e], s, Convert(s, args), conv, text);
    TurnInTwo(fmt, pos, next, args, p);
  }

  /** A turn over literal text and %n. */
  lemma TurnCounts(fmt: string, pos: nat, e: nat, next: nat, args: seq<Arg>, p: Progress)
    requires pos <= e < |fmt| && LiteralEnd(fmt, pos) == e && fmt[e] == '%' && Literal(fmt[pos..e])
    requires ScanAfter(fmt, e, next, args).ch == 'n'
    requires p.ret == |p.cells| && |p.cells| + (e - pos) <= LONG_MAX
    ensures var s := ScanAfter(fmt, e, next, args); var count := |p.cells| + (e - pos);
            var stored := [(s.next, if s.spec.short && !s.spec.long then ToShort(count) else count)];
            OneTurn(fmt, pos, next, args, p) == More(After(p, fmt[pos..e], stored), s.pos, s.next + 1)
  {
    var s, count := ScanAfter(fmt, e, next, args), |p.cells| + (e - pos);
    LiteralEmitted(p, fmt[pos..e]);
    ShortMeans(count);
    assert CountValue(s.spec, count) == if s.spec.short && !s.spec.long then ToShort(count) else count;
    TurnInTwo(fmt, pos, next, args, p);
  }

  /** Literal text at the end of a format. */
  lemma TailPrints(fmt: string, pos: nat, next: nat, args: seq<Arg>, p: Progress)
    requires pos <= |fmt| && Literal(fmt[pos..]) && p.ret == |p.cells| && |p.cells| + (|fmt| - pos) <= LONG_MAX
    ensures Run(fmt, pos, next, args, p) == After(p, fmt[pos..], [])
  {
    assert fmt[pos..|fmt|] == fmt[pos..];
    LiteralText(fmt, pos, fmt[pos..]);
    LiteralEmitted(p, fmt[pos..]);
  }

  /** One piece of a format. */
  lemma PiecePrints(fmt: string, pos: nat, piece: Piece, next: nat, args: seq<Arg>, p: Progress)
    requires var d := piece.directive; var text := piece.before + DirectiveFormat(d);
             WellFormed(d) && pos + |text| <= |fmt| && fmt[pos..pos + |text|] == text
    requires Literal(piece.before) && Fits(piece.directive, next, args) && !Departs(piece.directive, next, args)
    requires p.ret == |p.cells| && |p.cells| + |PieceText(piece, next, args)| <= LONG_MAX
    ensures var d := piece.directive;
            OneTurn(fmt, pos, next, args, p)
            == More(AfterPiece(p, piece, next, args), pos + |piece.before + DirectiveFormat(d)|, NextArg(d, next))
  {
    var d, e := piece.directive, pos + |piece.before|;
    PieceReady(fmt, pos, piece);
    PieceScanned(fmt, e, d, next, args);
    if d.conv == 'n' {
      CountingPiece(fmt, pos, e, piece, next, args, p);
    } else {
      PrintingPiece(fmt, pos, e, piece, next, args, p);
    }
  }

  lemma CountingPiece(fmt: string, pos: nat, e: nat, piece: Piece, next: nat, args: seq<Arg>, p: Progress)
    requires pos <= e < |fmt| && LiteralEnd(fmt, pos) == e && fmt[e] == '%' && Literal(piece.before)
    requires fmt[pos..e] == piece.before && piece.directive.conv == 'n'
    requires var s, d := ScanAfter(fmt, e, next, args), piece.directive;
             s.ch == 'n' && s.next == ArgIndex(d, next)
             && (s.spec.short && !s.spec.long) == RequestOf(d, next, args).short
    requires p.ret == |p.cells| && |p.cells| + |piece.before| <= LONG_MAX
    ensures OneTurn(fmt, pos, next, args, p)
         == More(AfterPiece(p, piece, next, args), ScanAfter(fmt, e, next, args).pos, NextArg(piece.directive, next))
  {
    TurnCounts(fmt, pos, e, next, args, p);
    NothingBehind(piece.before, piece.directive, next, args);
  }

  lemma PrintingPiece(fmt: string, pos: nat, e: nat, piece: Piece, next: nat, args: seq<Arg>, p: Progress)
    requires pos <= e < |fmt| && LiteralEnd(fmt, pos) == e && fmt[e] == '%' && Literal(piece.before)
    requires fmt[pos..e] == piece.before && piece.directive.conv != 'n'
    requires var s, d := ScanAfter(fmt, e, next, args), piece.directive;
             s.next == ArgIndex(d, next) && Prints(Convert(s, args), d.conv, DirectiveText(d, next, args))
    requires p.ret == |p.cells| && |p.cells| + |PieceText(piece, next, args)| <= LONG_MAX
    ensures OneTurn(fmt, pos, next, args, p)
         == More(AfterPiece(p, piece, next, args), ScanAfter(fmt, e, next, args).pos, NextArg(piece.directive, next))
  {
    TurnPrints(fmt, pos, e, next, args, p, piece.directive.conv, DirectiveText(piece.directive, next, args));
  }

  lemma NothingBehind(before: string, d: Directive, next: nat, args: seq<Arg>)
    requires d.conv == 'n'
    ensures before + DirectiveText(d, next, args) == before
  {
  }

  lemma PieceScanned(fmt: string, e: nat, d: Directive, next: nat, args: seq<Arg>)
    requires WellFormed(d) && var t := DirectiveFormat(d); e + |t| <= |fmt| && fmt[e..e + |t|] == t
    requires Fits(d, next, args) && !Departs(d, next, args)
    ensures var s := ScanAfter(fmt, e, next, args);
            s.ch == d.conv && s.pos == e + |DirectiveFormat(d)| && s.next == ArgIndex(d, next)
            && (d.conv == 'n' ==> (s.spec.short && !s.spec.long) == RequestOf(d, next, args).short)
            && (d.conv != 'n' ==> Prints(Convert(s, args), d.conv, DirectiveText(d, next, args)))
  {
    ScansDirective(fmt, e, d, next, args);
    SpecMeans(d, next, args);
    if d.conv != 'n' {
      DirectivePrints(ScanAfter(fmt, e, next, args), d, next, args);
    }
  }

  lemma PieceReady(fmt: string, pos: nat, piece: Piece)
    requires var text := piece.before + DirectiveFormat(piece.directive);
             pos + |text| <= |fmt| && fmt[pos..pos + |text|] == text
    requires Literal(piece.before)
    ensures var e := pos + |piece.before|; var t := DirectiveFormat(piece.directive);
            e + |t| == pos + |piece.before + t|
            && fmt[pos..e] == piece.before && e + |t| <= |fmt| && fmt[e..e + |t|] == t && e < |fmt| && fmt[e] == '%'
            && LiteralEnd(fmt, pos) == e
  {
    PieceParts(fmt, pos, piece);
    LiteralText(fmt, pos, piece.before);
  }

  lemma PieceParts(fmt: string, pos: nat, piece: Piece)
    requires var text := piece.before + DirectiveFormat(piece.directive);
             pos + |text| <= |fmt| && fmt[pos..pos + |text|] == text
    ensures var e := pos + |piece.before|; var t := DirectiveFormat(piece.directive);
            fmt[pos..e] == piece.before && e + |t| <= |fmt| && fmt[e..e + |t|] == t && e < |fmt| && fmt[e] == '%'
  {
    var before, t := piece.before, DirectiveFormat(piece.directive);
    TwoParts(fmt, pos, before, t);
    assert fmt[pos + |before|] == fmt[pos + |before|..pos + |before| + |t|][0];
  }

  /**
   Every format made of literal text and directives prints what the standard
   asks for: the texts of its pieces one after the other, with the arguments
   taken from left to right, the count equal to the length, and with %n storing the
   number of characters printed before it.
  */
  lemma {:induction false} FormatPrints(fmt: string, pos: nat, pieces: seq<Piece>, tail: string, next: nat,
      args: seq<Arg>, p: Progress)
    requires pos <= |fmt| && fmt[pos..] == FormatText(pieces, tail) && Literal(tail) && Conforming(pieces, next, args)
    requires p.ret == |p.cells| && |p.cells| + |Meaning(pieces, tail, next, args)| <= LONG_MAX
    ensures Run(fmt, pos, next, args, p)
         == After(p, Meaning(pieces, tail, next, args), CountsStored(pieces, next, args, |p.cells|))
    decreases |pieces|
  {
    if pieces == [] {
      TailPrints(fmt, pos, next, args, p);
    } else {
      Remains(pieces, tail, next, args, p);
      var e, n, q := FirstPiece(fmt, pos, pieces, tail, next, args, p);
      FormatPrints(fmt, e, pieces[1..], tail, n, args, q);
      AfterFirst(pieces, tail, next, args, p, q, n);
    }
  }

  lemma AfterFirst(pieces: seq<Piece>, tail: string, next: nat, args: seq<Arg>, p: Progress, q: Progress, n: nat)
    requires pieces != [] && n == NextArg(pieces[0].directive, next) && q == AfterPiece(p, pieces[0], next, args)
    ensures After(q, Meaning(pieces[1..], tail, n, args), CountsStored(pieces[1..], n, args, |q.cells|))
         == After(p, Meaning(pieces, tail, next, args), CountsStored(pieces, next, args, |p.cells|))
  {
    var text, printed := PieceText(pieces[0], next, args), |p.cells|;
    var here := CountHere(pieces[0].directive, next, args, printed + |pieces[0].before|);
    var later := CountsStored(pieces[1..], n, args, |q.cells|);
    CellsAfter(p, q, text, here);
    MeaningStep(pieces, tail, next, args, n, text);
    CountsStep(pieces, next, args, n, printed, |q.cells|, text, here);
    JoinPieces(p, q, text, Meaning(pieces[1..], tail, n, args), here, later, Meaning(pieces, tail, next, args),
               CountsStored(pieces, next, args, printed));
  }

  lemma CellsAfter(p: Progress, q: Progress, text: string, here: seq<(nat, int)>)
    requires q == After(p, text, here)
    ensures |q.cells| == |p.cells| + |text|
  {
  }

  lemma MeaningStep(pieces: seq<Piece>, tail: string, next: nat, args: seq<Arg>, n: nat, text: string)
    requires pieces != [] && n == NextArg(pieces[0].directive, next) && text == PieceText(pieces[0], next, args)
    ensures Meaning(pieces, tail, next, args) == text + Meaning(pieces[1..], tail, n, args)
  {
  }

  lemma CountsStep(pieces: seq<Piece>, next: nat, args: seq<Arg>, n: nat, printed: nat, total: nat,
      text: string, here: seq<(nat, int)>)
    requires pieces != [] && n == NextArg(pieces[0].directive, next)
    requires text == PieceText(pieces[0], next, args) && total == printed + |text|
    requires here == CountHere(pieces[0].directive, next, args, printed + |pieces[0].before|)
    ensures CountsStored(pieces, next, args, printed) == here + CountsStored(pieces[1..], n, args, total)
  {
  }

  lemma JoinPieces(p: Progress, q: Progress, text: string, more: string, here: seq<(nat, int)>,
      later: seq<(nat, int)>, all: string, counts: seq<(nat, int)>)
    requires q == After(p, text, here) && all == text + more && counts == here + later
    ensures After(q, more, later) == After(p, all, counts)
  {
    AfterTwice(p, text, more, here, later);
  }

  function AfterPiece(p: Progress, piece: Piece, next: nat, args: seq<Arg>): Progress {
    After(p, PieceText(piece, next, args), CountHere(piece.directive, next, args, |p.cells| + |piece.before|))
  }

  /** The first piece of a format, and what is left to do. */
  lemma FirstPiece(fmt: string, pos: nat, pieces: seq<Piece>, tail: string, next: nat, args: seq<Arg>, p: Progress)
    returns (e: nat, n: nat, q: Progress)
    requires pieces != [] && pos <= |fmt| && fmt[pos..] == FormatText(pieces, tail) && Conforming(pieces, next, args)
    requires p.ret == |p.cells| && |p.cells| + |PieceText(pieces[0], next, args)| <= LONG_MAX
    ensures e <= |fmt| && fmt[e..] == FormatText(pieces[1..], tail)
    ensures n == NextArg(pieces[0].directive, next) && q == AfterPiece(p, pieces[0], next, args)
    ensures Run(fmt, pos, next, args, p) == Run(fmt, e, n, args, q)
  {
    var head := pieces[0].before + DirectiveFormat(pieces[0].directive);
    HeadAndRest(fmt, pos, head, FormatText(pieces[1..], tail));
    e, n, q := pos + |head|, NextArg(pieces[0].directive, next), AfterPiece(p, pieces[0], next, args);
    PieceRun(fmt, pos, pieces[0], next, args, p, q, e, n);
  }

  lemma Remains(pieces: seq<Piece>, tail: string, next: nat, args: seq<Arg>, p: Progress)
    requires pieces != [] && Conforming(pieces, next, args)
    requires |p.cells| + |Meaning(pieces, tail, next, args)| <= LONG_MAX
    ensures var q := AfterPiece(p, pieces[0], next, args); var n := NextArg(pieces[0].directive, next);
            q.ret == |q.cells| && |q.cells| + |Meaning(pieces[1..], tail, n, args)| <= LONG_MAX
            && Conforming(pieces[1..], n, args)
    ensures |p.cells| + |PieceText(pieces[0], next, args)| <= LONG_MAX
  {
  }

  lemma PieceRun(fmt: string, pos: nat, piece: Piece, next: nat, args: seq<Arg>, p: Progress, q: Progress, e: nat,
      n: nat)
    requires var d := piece.directive; var text := piece.before + DirectiveFormat(d);
             WellFormed(d) && pos + |text| <= |fmt| && fmt[pos..pos + |text|] == text && e == pos + |text|
    requires Literal(piece.before) && Fits(piece.directive, next, args) && !Departs(piece.directive, next, args)
    requires p.ret == |p.cells| && |p.cells| + |PieceText(piece, next, args)| <= LONG_MAX
    requires n == NextArg(piece.directive, next) && q == AfterPiece(p, piece, next, args)
    ensures Run(fmt, pos, next, args, p) == Run(fmt, e, n, args, q)
  {
    PiecePrints(fmt, pos, piece, next, args, p);
    RunStep(fmt, pos, next, args, p, q, e, n);
  }

  lemma RunStep(fmt: string, pos: nat, next: nat, args: seq<Arg>, p: Progress, q: Progress, e: nat, n: nat)
    requires pos <= |fmt| && e <= |fmt| && OneTurn(fmt, pos, next, args, p) == More(q, e, n)
    ensures Run(fmt, pos, next, args, p) == Run(fmt, e, n, args, q)
  {
  }

  lemma HeadAndRest(fmt: string, pos: nat, head: string, rest: string)
    requires pos <= |fmt| && fmt[pos..] == head + rest
    ensures pos + |head| <= |fmt| && fmt[pos..pos + |head|] == head && fmt[pos + |head|..] == rest
  {
    assert |fmt[pos..]| == |head| + |rest|;
    assert fmt[pos..pos + |head|] == fmt[pos..][..|head|];
    assert fmt[pos + |head|..] == fmt[pos..][|head|..];
  }

  /** `FormatPrints` for a whole run. */
  lemma FormatMeetsStandard(pieces: seq<Piece>, tail: string, args: seq<Arg>)
    requires Literal(tail) && Conforming(pieces, 0, args) && |Meaning(pieces, tail, 0, args)| <= LONG_MAX
    ensures var text := Meaning(pieces, tail, 0, args);
            Run(FormatText(pieces, tail), 0, 0, args, START)
            == Progress(AsCells(text), |text|, CountsStored(pieces, 0, args, 0))
  {
    var fmt, start := FormatText(pieces, tail), START;
    assert fmt[0..] == fmt;
    FormatPrints(fmt, 0, pieces, tail, 0, args, start);
    var text := Meaning(pieces, tail, 0, args);
    assert [] + AsCells(text) == AsCells(text);
    assert [] + CountsStored(pieces, 0, args, 0) == CountsStored(pieces, 0, args, 0);
  }
}
