/**
 The printf engine `_out_stream` and `std_sprintf`.

 An argument slot can be fetched as an int or as a string pointer, as va_arg
 does; a slot past the end of the list reads as 0.  The output is the stretch
 of memory the pointer has moved over: a cell is a stored character, or a byte
 the pointer skipped.
*/
module Printf {
  import opened Words
  import opened Digits
  import opened NumberText

  datatype Arg = Arg(word: int, text: TextPointer)
  datatype TextPointer = Null | Text(chars: string)

  datatype Cell = Put(c: char) | Kept

  /** Flags, width, precision and sign of one conversion. */
  datatype Spec = Spec(long: bool, short: bool, alt: bool, left: bool, zero: bool, width: int, prec: int, sign: char,
                       hex: bool)

  const PLAIN := Spec(false, false, false, false, false, 0, -1, '\0', false)

  /** Equal as 32-bit quantities. */
  predicate Congruent(x: int, y: int) {
    (x - y) % WORD == 0
  }

  function WordArg(args: seq<Arg>, i: nat): (n: int)
    ensures IsLong(n)
  {
    if i < |args| then Signed32(args[i].word) else 0
  }

  function TextArg(args: seq<Arg>, i: nat): TextPointer {
    if i < |args| then args[i].text else Null
  }

  predicate IsDigit(c: char) { '0' <= c <= '9' }

  function DigitOf(c: char): nat
    requires IsDigit(c)
  {
    c as int - '0' as int
  }

  // ----- reading the format

  /** Where the scan stands: the conversion character just read, the position after it, the next argument. */
  datatype Scan = Scan(ch: char, pos: nat, next: nat, spec: Spec)

  predicate InFormat(fmt: string, ch: char, pos: nat) {
    pos <= |fmt| + 1 && (ch != '\0' ==> pos <= |fmt|)
  }

  datatype Number = Number(n: int, ch: char, pos: nat)

  /** Decimal digits of a width or a precision, in int arithmetic. */
  function ReadDigits(fmt: string, ch: char, pos: nat, n: int): (r: Number)
    requires InFormat(fmt, ch, pos) && IsLong(n)
    ensures InFormat(fmt, r.ch, r.pos) && pos <= r.pos && IsLong(r.n)
    ensures !IsDigit(r.ch) && (IsDigit(ch) ==> pos < r.pos)
    decreases |fmt| + 2 - pos
  {
    if IsDigit(ch) then ReadDigits(fmt, At(fmt, pos), pos + 1, Signed32(10 * n + DigitOf(ch))) else Number(n, ch, pos)
  }

  /** A negative width argument means left adjustment. */
  function WidthFromArg(spec: Spec, w: int): Spec {
    if w >= 0 then spec.(width := w) else spec.(width := Signed32(0 - w), left := true, zero := false)
  }

  function PrecFrom(spec: Spec, n: int): Spec {
    spec.(prec := if n < 0 then -1 else n)
  }

  /** The effect of a character that is a complete flag by itself. */
  function SetFlag(ch: char, spec: Spec): Spec {
    match ch
    case ' ' => if spec.sign == '\0' then spec.(sign := ' ') else spec
    case '#' => spec.(alt := true)
    case '-' => spec.(left := true, zero := false)
    case '+' => spec.(sign := '+')
    case '0' => if spec.left then spec else spec.(zero := true)
    case 'h' => spec.(short := true)
    case 'l' => spec.(long := true)
    case _ => spec
  }

  predicate IsFlag(ch: char) {
    ch == ' ' || ch == '#' || ch == '-' || ch == '+' || ch == '0' || ch == 'h' || ch == 'l'
  }

  /** Flags, widths and precisions up to the conversion character. */
  function ScanSpec(fmt: string, s: Scan, args: seq<Arg>): (r: Scan)
    requires InFormat(fmt, s.ch, s.pos)
    ensures InFormat(fmt, r.ch, r.pos) && s.pos <= r.pos
    decreases |fmt| + 2 - s.pos
  {
    if IsFlag(s.ch) then
      ScanSpec(fmt, Scan(At(fmt, s.pos), s.pos + 1, s.next, SetFlag(s.ch, s.spec)), args)
    else if s.ch == '*' then
      ScanSpec(fmt, Scan(At(fmt, s.pos), s.pos + 1, s.next + 1, WidthFromArg(s.spec, WordArg(args, s.next))), args)
    else if s.ch == '.' then
      if At(fmt, s.pos) == '*' then
        ScanSpec(fmt, Scan(At(fmt, s.pos + 1), s.pos + 2, s.next + 1, PrecFrom(s.spec, WordArg(args, s.next))), args)
      else
        var d := ReadDigits(fmt, At(fmt, s.pos), s.pos + 1, 0);
        ScanSpec(fmt, Scan(d.ch, d.pos, s.next, PrecFrom(s.spec, d.n)), args)
    else if IsDigit(s.ch) then
      var d := ReadDigits(fmt, s.ch, s.pos, 0);
      ScanSpec(fmt, Scan(d.ch, d.pos, s.next, s.spec.(width := d.n)), args)
    else s
  }

  // ----- converting

  /** What one conversion asks for. */
  datatype Action =
    | Field(spec: Spec, text: string, dprec: int, mark: char)
    | StoreCount
    | Stop

  /** The layout flags of a conversion come from its spec; only zero fill can be switched off. */
  predicate Keeps(act: Action, spec: Spec) {
    act.Field? ==> act.spec.left == spec.left && act.spec.width == spec.width && (act.spec.zero ==> spec.zero)
  }

  function SignedArg(spec: Spec, w: int): int {
    if !spec.long && spec.short then (if w % 0x1_0000 >= 0x8000 then w % 0x1_0000 - 0x1_0000 else w % 0x1_0000) else w
  }

  function UnsignedArg(spec: Spec, w: int): (u: nat)
    ensures u <= ULONG_MAX
  {
    if !spec.long && spec.short then w % 0x1_0000 else Mod32(w)
  }

  function UpperCase(s: string): (r: string)
    ensures |r| == |s|
  {
    if s == [] then [] else
      [if 'a' <= s[0] <= 'z' then (s[0] as int - 32) as char else s[0]] + UpperCase(s[1..])
  }

  /** Digits of an integer conversion; an explicit precision of zero prints zero as nothing. */
  function NumberBody(u: nat, radix: nat, spec: Spec, upper: bool): string
    requires 2 <= radix <= 36
  {
    if u == 0 && spec.prec == 0 then ""
    else
      var s := if upper then UpperCase(Numeral(u, radix)) else Numeral(u, radix);
      if radix == 8 && spec.alt && s[0] != '0' then "0" + s else s
  }

  /** A precision switches zero fill off. */
  function NumberField(spec: Spec, u: nat, radix: nat, mark: char): (act: Action)
    requires 2 <= radix <= 36
    ensures Keeps(act, spec)
  {
    Field(spec.(zero := spec.zero && spec.prec < 0), NumberBody(u, radix, spec, mark == 'X'), spec.prec, mark)
  }

  function SignedField(spec: Spec, v: int, mark: char): (act: Action)
    ensures Keeps(act, spec)
  {
    if v < 0 then NumberField(spec.(sign := '-'), Mod32(0 - v), 10, mark)
    else NumberField(spec, Mod32(v), 10, mark)
  }

  function UnsignedField(spec: Spec, u: nat, radix: nat, mark: char): (act: Action)
    requires 2 <= radix <= 36
    ensures Keeps(act, spec)
  {
    NumberField(spec.(sign := '\0'), u, radix, mark)
  }

  function TextField(spec: Spec, s: string, mark: char): (act: Action)
    ensures Keeps(act, spec)
  {
    Field(spec.(sign := '\0'), s, 0, mark)
  }

  /** A C string stops at its first NUL. */
  function CString(s: string): (r: string)
    ensures r <= s && forall i :: 0 <= i < |r| ==> r[i] != '\0'
  {
    if s == [] || s[0] == '\0' then [] else [s[0]] + CString(s[1..])
  }

  function StringArg(p: TextPointer): string {
    if p.Null? then "0" else CString(p.chars)
  }

  function CutTo(s: string, prec: int): string {
    if 0 <= prec < |s| then s[..prec] else s
  }

  /** The conversion a character stands for, and how many arguments it takes. */
  function Convert(s: Scan, args: seq<Arg>): (r: (Action, nat))
    ensures Keeps(r.0, s.spec) && (r.0.Stop? <==> s.ch == '\0')
  {
    var w := WordArg(args, s.next);
    match s.ch
    case 'c' => (TextField(s.spec, [(w % 256) as char], 'c'), 1)
    case 'D' => (SignedField(s.spec.(long := true), SignedArg(s.spec.(long := true), w), 'D'), 1)
    case 'd' => (SignedField(s.spec, SignedArg(s.spec, w), 'd'), 1)
    case 'i' => (SignedField(s.spec, SignedArg(s.spec, w), 'i'), 1)
    case 'n' => (StoreCount, 1)
    case 'O' => (UnsignedField(s.spec.(long := true), UnsignedArg(s.spec.(long := true), w), 8, 'O'), 1)
    case 'o' => (UnsignedField(s.spec, UnsignedArg(s.spec, w), 8, 'o'), 1)
    case 'p' => (UnsignedField(s.spec.(hex := true), Mod32(w), 16, 'x'), 1)
    case 's' => (TextField(s.spec, CutTo(StringArg(TextArg(args, s.next)), s.spec.prec), 's'), 1)
    case 'U' => (UnsignedField(s.spec.(long := true), UnsignedArg(s.spec.(long := true), w), 10, 'U'), 1)
    case 'u' => (UnsignedField(s.spec, UnsignedArg(s.spec, w), 10, 'u'), 1)
    case 'X' => (HexField(s.spec, UnsignedArg(s.spec, w), 'X'), 1)
    case 'x' => (HexField(s.spec, UnsignedArg(s.spec, w), 'x'), 1)
    case '\0' => (Stop, 0)
    case _ => (TextField(s.spec, [s.ch], s.ch), 0)
  }

  /** The 0x prefix is printed only in front of a non-zero value. */
  function HexField(spec: Spec, u: nat, mark: char): (act: Action)
    ensures Keeps(act, spec)
  {
    UnsignedField(if spec.alt && u != 0 then spec.(hex := true) else spec, u, 16, mark)
  }

  // ----- laying out a field

  function Repeat(c: char, n: nat): (r: seq<Cell>)
    ensures |r| == n && forall i :: 0 <= i < n ==> r[i] == Put(c)
  {
    seq(n, i => Put(c))
  }

  /** `out_mem` stops storing at a NUL but moves on by the full count. */
  function Stored(s: string): (r: seq<Cell>)
    ensures |r| == |s|
  {
    if s == [] then [] else if s[0] == '\0' then seq(|s|, i => Kept) else [Put(s[0])] + Stored(s[1..])
  }

  /** Stored text, cell by cell. */
  function AsCells(s: string): seq<Cell> {
    seq(|s|, i requires 0 <= i < |s| => Put(s[i]))
  }

  lemma {:induction false} StoredText(s: string)
    requires forall i :: 0 <= i < |s| ==> s[i] != '\0'
    ensures Stored(s) == AsCells(s)
  {
    if s != [] {
      StoredText(s[1..]);
      assert AsCells(s) == [Put(s[0])] + AsCells(s[1..]);
    }
  }

  function Prefix(spec: Spec, mark: char): seq<Cell> {
    if spec.sign != '\0' then [Put(spec.sign)] else if spec.hex then [Put('0'), Put(mark)] else []
  }

  function DigitPadding(size: nat, dprec: int): nat {
    if dprec > size then dprec - size else 0
  }

  /** Everything but the padding to the field width, in int arithmetic. */
  function FieldSize(f: Action): int
    requires f.Field?
  {
    Signed32(|f.text| + |Prefix(f.spec, f.mark)| + DigitPadding(|f.text|, f.dprec))
  }

  /** Padding to the field width, as the unsigned count `out_pad` takes. */
  function Gap(f: Action): (n: nat)
    requires f.Field?
  {
    if f.spec.width > FieldSize(f) then Mod32(f.spec.width - FieldSize(f)) else 0
  }

  function FieldCells(f: Action): seq<Cell>
    requires f.Field?
  {
    (if !f.spec.left && !f.spec.zero then Repeat(' ', Gap(f)) else [])
    + Prefix(f.spec, f.mark)
    + (if !f.spec.left && f.spec.zero then Repeat('0', Gap(f)) else [])
    + Repeat('0', DigitPadding(|f.text|, f.dprec))
    + Stored(f.text)
    + (if f.spec.left then Repeat(' ', Gap(f)) else [])
  }

  function FieldWidth(f: Action): int
    requires f.Field?
  {
    if f.spec.width > FieldSize(f) then f.spec.width else FieldSize(f)
  }

  /** The value %n stores, cut to the type its flags name. */
  function CountValue(spec: Spec, ret: int): int {
    if spec.long || !spec.short then ret
    else if ret % 0x1_0000 >= 0x8000 then ret % 0x1_0000 - 0x1_0000
    else ret % 0x1_0000
  }

  // ----- the whole run

  /** Output so far, the running count, and the values %n has stored, with the argument that pointed at the place. */
  datatype Progress = Progress(cells: seq<Cell>, ret: int, counts: seq<(nat, int)>)

  function LiteralEnd(fmt: string, pos: nat): (e: nat)
    requires pos <= |fmt|
    ensures pos <= e <= |fmt| && (At(fmt, e) == '%' || At(fmt, e) == '\0')
    decreases |fmt| - pos
  {
    if At(fmt, pos) != '\0' && At(fmt, pos) != '%' then LiteralEnd(fmt, pos + 1) else pos
  }

  function Emit(p: Progress, cells: seq<Cell>, count: int): Progress {
    Progress(p.cells + cells, Signed32(p.ret + count), p.counts)
  }

  /** One turn of the outer loop either ends the run or leaves the scan further on. */
  datatype Turn = Done(p: Progress) | More(p: Progress, pos: nat, next: nat)

  /** What a conversion does to the output. */
  function Perform(q: Progress, s: Scan, act: Action, used: nat): Turn {
    match act
    case Stop => Done(q)
    case StoreCount => More(q.(counts := q.counts + [(s.next, CountValue(s.spec, q.ret))]), s.pos, s.next + used)
    case Field(_, _, _, _) => More(Emit(q, FieldCells(act), FieldWidth(act)), s.pos, s.next + used)
  }

  /** A conversion starts behind its percent sign with nothing set. */
  function ScanAfter(fmt: string, e: nat, next: nat, args: seq<Arg>): (s: Scan)
    requires e < |fmt|
    ensures InFormat(fmt, s.ch, s.pos) && e + 2 <= s.pos
  {
    ScanSpec(fmt, Scan(At(fmt, e + 1), e + 2, next, PLAIN), args)
  }

  function OneTurn(fmt: string, pos: nat, next: nat, args: seq<Arg>, p: Progress): (t: Turn)
    requires pos <= |fmt|
    ensures t.More? ==> pos < t.pos <= |fmt|
  {
    var e := LiteralEnd(fmt, pos);
    var q := Emit(p, Stored(fmt[pos..e]), e - pos);
    if At(fmt, e) == '\0' then Done(q)
    else
      var s := ScanAfter(fmt, e, next, args);
      var c := Convert(s, args);
      Perform(q, s, c.0, c.1)
  }

  /** The output of the rest of a format, from a position and an argument index. */
  function Run(fmt: string, pos: nat, next: nat, args: seq<Arg>, p: Progress): Progress
    requires pos <= |fmt|
    decreases |fmt| - pos
  {
    var t := OneTurn(fmt, pos, next, args, p);
    if t.Done? then t.p else Run(fmt, t.pos, t.next, args, t.p)
  }

  const START := Progress([], 0, [])
}
