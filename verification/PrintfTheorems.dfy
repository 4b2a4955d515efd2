/** Length conservation of printf, its field layout, and reading its numbers back. */
module PrintfTheorems {
  import opened Words
  import opened Digits
  import opened NumberText
  import opened NumberTextTheorems
  import opened Printf
  import opened PrintfEngine

  lemma CongruentSum(x: int, y: int, x': int, y': int)
    requires Congruent(x, y) && Congruent(x', y')
    ensures Congruent(x + x', y + y')
  {
  }

  lemma WrapCongruent(n: int)
    ensures Congruent(n, Signed32(n)) && Congruent(Signed32(n), n)
  {
  }

  lemma UnsignedCongruent(n: int)
    ensures Congruent(Mod32(n), n)
  {
  }

  /** The field before any 32-bit wrap. */
  function NaturalSize(f: Action): nat
    requires f.Field?
  {
    |f.text| + |Prefix(f.spec, f.mark)| + DigitPadding(|f.text|, f.dprec)
  }

  lemma FieldParts(f: Action)
    requires f.Field?
    ensures |FieldCells(f)| == NaturalSize(f) + Gap(f)
  {
  }

  /**
   A field occupies max(width, fieldsz) bytes: as 32-bit quantities always,
   exactly when the field itself fits an int.
  */
  lemma FieldLength(f: Action)
    requires f.Field? && IsLong(f.spec.width)
    ensures Congruent(|FieldCells(f)|, FieldWidth(f))
    ensures NaturalSize(f) <= LONG_MAX ==>
              |FieldCells(f)| == if f.spec.width > NaturalSize(f) then f.spec.width else NaturalSize(f)
  {
    FieldParts(f);
    WrapCongruent(NaturalSize(f));
    if f.spec.width > FieldSize(f) {
      UnsignedCongruent(f.spec.width - FieldSize(f));
      CongruentSum(NaturalSize(f), FieldSize(f), Gap(f), f.spec.width - FieldSize(f));
    }
  }

  /** What a scan keeps: left adjustment and zero fill are never both on, and width and precision are ints. */
  predicate Coherent(spec: Spec) {
    !(spec.left && spec.zero) && IsLong(spec.width) && IsLong(spec.prec) && spec.prec >= -1 && !spec.hex
  }

  lemma UpdatesCoherent(spec: Spec, ch: char, n: int)
    requires Coherent(spec) && IsLong(n)
    ensures Coherent(SetFlag(ch, spec)) && Coherent(WidthFromArg(spec, n)) && Coherent(PrecFrom(spec, n))
    ensures Coherent(spec.(width := n))
  {
  }

  lemma {:induction false} ScanCoherent(fmt: string, s: Scan, args: seq<Arg>)
    requires InFormat(fmt, s.ch, s.pos) && Coherent(s.spec)
    ensures Coherent(ScanSpec(fmt, s, args).spec)
    decreases |fmt| + 2 - s.pos
  {
    UpdatesCoherent(s.spec, s.ch, WordArg(args, s.next));
    if IsFlag(s.ch) {
      ScanCoherent(fmt, Scan(At(fmt, s.pos), s.pos + 1, s.next, SetFlag(s.ch, s.spec)), args);
    } else if s.ch == '*' {
      var spec := WidthFromArg(s.spec, WordArg(args, s.next));
      ScanCoherent(fmt, Scan(At(fmt, s.pos), s.pos + 1, s.next + 1, spec), args);
    } else if s.ch == '.' {
      if At(fmt, s.pos) == '*' {
        var spec := PrecFrom(s.spec, WordArg(args, s.next));
        ScanCoherent(fmt, Scan(At(fmt, s.pos + 1), s.pos + 2, s.next + 1, spec), args);
      } else {
        var d := ReadDigits(fmt, At(fmt, s.pos), s.pos + 1, 0);
        UpdatesCoherent(s.spec, s.ch, d.n);
        ScanCoherent(fmt, Scan(d.ch, d.pos, s.next, PrecFrom(s.spec, d.n)), args);
      }
    } else if IsDigit(s.ch) {
      var d := ReadDigits(fmt, s.ch, s.pos, 0);
      UpdatesCoherent(s.spec, s.ch, d.n);
      ScanCoherent(fmt, Scan(d.ch, d.pos, s.next, s.spec.(width := d.n)), args);
    }
  }

  predicate Balanced(p: Progress) {
    Congruent(|p.cells|, p.ret) && IsLong(p.ret)
  }

  lemma ScanAfterCoherent(fmt: string, e: nat, next: nat, args: seq<Arg>)
    requires e < |fmt|
    ensures Coherent(ScanAfter(fmt, e, next, args).spec)
  {
    ScanCoherent(fmt, Scan(At(fmt, e + 1), e + 2, next, PLAIN), args);
  }

  lemma PerformConserves(q: Progress, s: Scan, act: Action, used: nat)
    requires Balanced(q) && Coherent(s.spec) && Keeps(act, s.spec)
    ensures var t := Perform(q, s, act, used); Balanced(t.p) && q.cells <= t.p.cells
  {
    if act.Field? {
      FieldLength(act);
      EmitConserves(q, FieldCells(act), FieldWidth(act));
    }
  }

  lemma TurnConserves(fmt: string, pos: nat, next: nat, args: seq<Arg>, p: Progress)
    requires pos <= |fmt| && Balanced(p)
    ensures var t := OneTurn(fmt, pos, next, args, p); Balanced(t.p) && p.cells <= t.p.cells
  {
    var e := LiteralEnd(fmt, pos);
    var q := Emit(p, Stored(fmt[pos..e]), e - pos);
    EmitConserves(p, Stored(fmt[pos..e]), e - pos);
    if At(fmt, e) != '\0' {
      var s := ScanAfter(fmt, e, next, args);
      ScanAfterCoherent(fmt, e, next, args);
      var c := Convert(s, args);
      PerformConserves(q, s, c.0, c.1);
    }
  }

  /**
   Length is conserved: for every format and argument list, the count returned
   and the distance the output pointer moved agree as 32-bit quantities.
  */
  lemma {:induction false} RunConserves(fmt: string, pos: nat, next: nat, args: seq<Arg>, p: Progress)
    requires pos <= |fmt| && Balanced(p)
    ensures var r := Run(fmt, pos, next, args, p); Balanced(r) && p.cells <= r.cells
    decreases |fmt| - pos
  {
    TurnConserves(fmt, pos, next, args, p);
    var t := OneTurn(fmt, pos, next, args, p);
    if t.More? {
      RunConserves(fmt, t.pos, t.next, args, t.p);
    }
  }

  lemma EmitConserves(p: Progress, cells: seq<Cell>, count: int)
    requires Congruent(|p.cells|, p.ret) && Congruent(|cells|, count)
    ensures var q := Emit(p, cells, count); Congruent(|q.cells|, q.ret) && IsLong(q.ret) && p.cells <= q.cells
  {
    CongruentSum(|p.cells|, p.ret, |cells|, count);
    WrapCongruent(p.ret + count);
    CongruentSum(|p.cells| + |cells|, p.ret + count, 0, 0);
    Transitive(|p.cells| + |cells|, p.ret + count, Signed32(p.ret + count));
  }

  lemma Transitive(x: int, y: int, z: int)
    requires Congruent(x, y) && Congruent(y, z)
    ensures Congruent(x, z)
  {
  }

  /** For output that fits an int the count is the length. */
  lemma ReturnIsLength(fmt: string, pos: nat, next: nat, args: seq<Arg>, p: Progress)
    requires pos <= |fmt| && Balanced(p)
    ensures var r := Run(fmt, pos, next, args, p); |r.cells| <= LONG_MAX ==> r.ret == |r.cells|
  {
    RunConserves(fmt, pos, next, args, p);
    BalancedLength(Run(fmt, pos, next, args, p));
  }

  lemma BalancedLength(p: Progress)
    requires Balanced(p)
    ensures |p.cells| <= LONG_MAX ==> p.ret == |p.cells|
  {
  }

  /** The count is the length exactly when the output fits an int. */
  lemma CountIsLengthIff(fmt: string, args: seq<Arg>)
    ensures var r := Run(fmt, 0, 0, args, START); r.ret == |r.cells| <==> |r.cells| <= LONG_MAX
  {
    var start := START;
    RunConserves(fmt, 0, 0, args, start);
    BalancedLength(Run(fmt, 0, 0, args, start));
  }

  /**
   `std_sprintf`: the fields, and a NUL at the index the count gives.  That
   place is right behind the last field exactly when the output fits an int.
  */
  method Sprintf(memory: array<char>, pbuf: nat, fmt: string, args: seq<Arg>) returns (count: int)
    requires var r := Run(fmt, 0, 0, args, START);
             pbuf + |r.cells| <= memory.Length && 0 <= pbuf + r.ret < memory.Length
    modifies memory
    ensures count == Run(fmt, 0, 0, args, START).ret
    ensures memory[..] == Over(old(memory[..]), pbuf, Run(fmt, 0, 0, args, START).cells)[pbuf + count := '\0']
    ensures count == |Run(fmt, 0, 0, args, START).cells| <==> |Run(fmt, 0, 0, args, START).cells| <= LONG_MAX
  {
    CountIsLengthIff(fmt, args);
    var counts;
    count, counts := PrintfEngine.OutStream(memory, pbuf, fmt, args);
    memory[pbuf + count] := '\0';
  }

  function Blanks(n: nat): string {
    seq(n, i => ' ')
  }

  /** The digits and the radix prefix of an unsigned conversion, as the parser sees them. */
  function PrefixText(f: Action): string
    requires f.Field?
  {
    if f.spec.hex then ['0', f.mark] else ""
  }

  function FieldText(f: Action): string
    requires f.Field?
  {
    var pad := Blanks(Gap(f));
    Written(if f.spec.left then "" else pad, false, PrefixText(f), f.text, if f.spec.left then pad else "")
  }

  /** Without sign, zero fill and precision a field is blanks, prefix, text, blanks. */
  lemma PlainField(f: Action)
    requires f.Field? && f.spec.sign == '\0' && !f.spec.zero && f.dprec < 0
    requires forall i :: 0 <= i < |f.text| ==> f.text[i] != '\0'
    ensures FieldCells(f) == AsCells(FieldText(f))
  {
    StoredText(f.text);
  }

  lemma {:induction false} UpperCaseValue(s: string, radix: nat)
    ensures NumeralValue(UpperCase(s), radix) == NumeralValue(s, radix)
    decreases |s|
  {
    if s != [] {
      var t, c := s[..|s| - 1], s[|s| - 1];
      assert s == t + [c];
      UpperCaseValue(t, radix);
      UpperCaseAppend(t, [c]);
      UpperCaseAt([c]);
      LastDigitValue(t, c, radix);
      LastDigitValue(UpperCase(t), UpperCase([c])[0], radix);
    }
  }

  lemma UpperCaseDigits(s: string, radix: nat)
    requires AllDigits(s, radix)
    ensures AllDigits(UpperCase(s), radix)
  {
    UpperCaseAt(s);
  }

  lemma {:induction false} UpperCaseAt(s: string)
    ensures forall i :: 0 <= i < |s| ==>
              UpperCase(s)[i] == (if 'a' <= s[i] <= 'z' then (s[i] as int - 32) as char else s[i])
              && DigitValue(UpperCase(s)[i]) == DigitValue(s[i])
  {
    if s != [] {
      UpperCaseAt(s[1..]);
    }
  }

  lemma {:induction false} LeadingZero(s: string, radix: nat)
    ensures NumeralValue("0" + s, radix) == NumeralValue(s, radix)
    decreases |s|
  {
    if s == [] {
      assert "0" + s == "0";
      assert NumeralValue("0"[..0], radix) == 0;
    } else {
      var t := s[..|s| - 1];
      LeadingZero(t, radix);
      assert ("0" + s)[..|s|] == "0" + t;
    }
  }

  /** The unsigned conversions whose text carries its own radix: %u, %#o, %#x and %#X. */
  predicate SelfDescribing(f: Action, spec: Spec, u: nat) {
    || f == UnsignedField(spec, u, 10, 'u')
    || (spec.alt && f == UnsignedField(spec, u, 8, 'o'))
    || (spec.alt && (f == HexField(spec, u, 'x') || f == HexField(spec, u, 'X')))
  }

  /** What the parser needs of such a field. */
  predicate Readable(f: Action, u: nat, radix: nat) {
    f.Field? && f.spec.sign == '\0' && !f.spec.zero && f.dprec == -1
    && 8 <= radix <= 16 && f.text != "" && AllDigits(f.text, radix) && NumeralValue(f.text, radix) == u
    && PrefixFits(PrefixText(f), f.text[0], 0, radix)
  }

  lemma ReadableDecimal(spec: Spec, u: nat)
    requires Coherent(spec) && !spec.zero && spec.prec == -1
    ensures Readable(UnsignedField(spec, u, 10, 'u'), u, if u == 0 then 8 else 10)
  {
    NumeralRoundTrip(u, 10);
    NumeralLead(u, 10);
    assert NumeralValue([], 8) == 0;
  }

  lemma ReadableOctal(spec: Spec, u: nat)
    requires Coherent(spec) && !spec.zero && spec.prec == -1 && spec.alt
    ensures Readable(UnsignedField(spec, u, 8, 'o'), u, 8)
  {
    var s := Numeral(u, 8);
    NumeralRoundTrip(u, 8);
    LeadingZero(s, 8);
    assert AllDigits("0" + s, 8);
    var f := UnsignedField(spec, u, 8, 'o');
    assert f.text == if s[0] != '0' then "0" + s else s;
  }

  lemma ReadableHex(spec: Spec, u: nat, upper: bool)
    requires Coherent(spec) && !spec.zero && spec.prec == -1 && spec.alt
    ensures Readable(HexField(spec, u, if upper then 'X' else 'x'), u, if u == 0 then 8 else 16)
  {
    NumeralRoundTrip(u, 16);
    NumeralLead(u, 16);
    UpperCaseValue(Numeral(u, 16), 16);
    UpperCaseDigits(Numeral(u, 16), 16);
    UpperCaseAt(Numeral(u, 16));
    assert NumeralValue([], 8) == 0;
  }

  lemma SelfDescribingIsReadable(f: Action, spec: Spec, u: nat) returns (radix: nat)
    requires Coherent(spec) && !spec.zero && spec.prec == -1 && SelfDescribing(f, spec, u)
    ensures Readable(f, u, radix)
  {
    if f == UnsignedField(spec, u, 10, 'u') {
      ReadableDecimal(spec, u);
      radix := if u == 0 then 8 else 10;
    } else if f == UnsignedField(spec, u, 8, 'o') {
      ReadableOctal(spec, u);
      radix := 8;
    } else {
      ReadableHex(spec, u, f == HexField(spec, u, 'X'));
      radix := if u == 0 then 8 else 16;
    }
  }

  /**
   %u, %#o, %#x and %#X without precision and zero fill, at any width, adjusted
   left or right, are read back by `std_strtoul` in base 0.
  */
  lemma PrintedNumberParses(f: Action, spec: Spec, u: nat)
    requires u <= ULONG_MAX && Coherent(spec) && !spec.zero && spec.prec == -1 && SelfDescribing(f, spec, u)
    ensures f.Field? && FieldCells(f) == AsCells(FieldText(f))
    ensures ParsedWord(FieldText(f), 0, true) == u && !OutOfRange(FieldText(f), 0, true)
    ensures ParsedEnd(FieldText(f), 0) == |FieldText(f)| - (if f.spec.left then Gap(f) else 0)
  {
    var radix := SelfDescribingIsReadable(f, spec, u);
    forall i | 0 <= i < |f.text| ensures f.text[i] != '\0' {
      assert DigitValue(f.text[i]) < radix;
    }
    PlainField(f);
    var pad := Blanks(Gap(f));
    var left, right := if f.spec.left then "" else pad, if f.spec.left then pad else "";
    WrittenNumberParses(left, false, PrefixText(f), f.text, right, 0, radix);
  }
}
