/** The loops of `_out_stream`, against `Printf.Run`, and the digit loops over its local buffer. */
module PrintfEngine {
  import opened Words
  import opened Powers
  import opened Digits
  import opened NumberText
  import opened Printf

  /** The digit loop of a width or a precision. */
  method ScanDigits(fmt: string, ch0: char, pos0: nat) returns (n: int, ch: char, pos: nat)
    requires InFormat(fmt, ch0, pos0)
    ensures Number(n, ch, pos) == ReadDigits(fmt, ch0, pos0, 0)
  {
    n, ch, pos := 0, ch0, pos0;
    while IsDigit(ch)
      invariant InFormat(fmt, ch, pos) && IsLong(n)
      invariant ReadDigits(fmt, ch, pos, n) == ReadDigits(fmt, ch0, pos0, 0)
      decreases |fmt| + 2 - pos
    {
      n := Signed32(10 * n + DigitOf(ch));
      ch := At(fmt, pos);
      pos := pos + 1;
    }
  }

  /** The rflag and reswitch labels: one character a turn, or a run of digits. */
  method ScanFlags(fmt: string, pos0: nat, next0: nat, args: seq<Arg>) returns (s: Scan)
    requires 0 < pos0 <= |fmt| + 1 && (pos0 <= |fmt| || At(fmt, pos0 - 1) == '\0')
    ensures s == ScanSpec(fmt, Scan(At(fmt, pos0 - 1), pos0, next0, PLAIN), args)
  {
    s := Scan(At(fmt, pos0 - 1), pos0, next0, PLAIN);
    ghost var goal := ScanSpec(fmt, s, args);
    while IsFlag(s.ch) || s.ch == '*' || s.ch == '.' || IsDigit(s.ch)
      invariant InFormat(fmt, s.ch, s.pos) && ScanSpec(fmt, s, args) == goal
      decreases |fmt| + 2 - s.pos
    {
      if IsFlag(s.ch) {
        s := Scan(At(fmt, s.pos), s.pos + 1, s.next, SetFlag(s.ch, s.spec));
      } else if s.ch == '*' {
        s := Scan(At(fmt, s.pos), s.pos + 1, s.next + 1, WidthFromArg(s.spec, WordArg(args, s.next)));
      } else if s.ch == '.' && At(fmt, s.pos) == '*' {
        s := Scan(At(fmt, s.pos + 1), s.pos + 2, s.next + 1, PrecFrom(s.spec, WordArg(args, s.next)));
      } else if s.ch == '.' {
        var n, ch, pos := ScanDigits(fmt, At(fmt, s.pos), s.pos + 1);
        s := Scan(ch, pos, s.next, PrecFrom(s.spec, n));
      } else {
        var n, ch, pos := ScanDigits(fmt, s.ch, s.pos);
        s := Scan(ch, pos, s.next, s.spec.(width := n));
      }
    }
  }

  /** Literal text up to a percent sign or the end. */
  method ScanLiteral(fmt: string, mark: nat) returns (pos: nat)
    requires mark <= |fmt|
    ensures pos == LiteralEnd(fmt, mark)
  {
    pos := mark;
    while At(fmt, pos) != '\0' && At(fmt, pos) != '%'
      invariant mark <= pos <= |fmt| && LiteralEnd(fmt, mark) == LiteralEnd(fmt, pos)
      decreases |fmt| - pos
    {
      pos := pos + 1;
    }
  }

  // ----- memory

  /** Memory after cells have been laid over it from an address on. */
  function Over(was: string, at: nat, cells: seq<Cell>): (now: string)
    requires at + |cells| <= |was|
    ensures |now| == |was|
  {
    seq(|was|, k requires 0 <= k < |was| =>
      if at <= k < at + |cells| && cells[k - at].Put? then cells[k - at].c else was[k])
  }

  lemma OverAppend(was: string, at: nat, a: seq<Cell>, b: seq<Cell>)
    requires at + |a + b| <= |was|
    ensures Over(Over(was, at, a), at + |a|, b) == Over(was, at, a + b)
  {
  }

  lemma OverNothing(was: string, at: nat, n: nat)
    requires at + n <= |was|
    ensures Over(was, at, []) == was && Over(was, at, seq(n, i => Kept)) == was
  {
  }

  /** `out_byte`. */
  method OutByte(memory: array<char>, pbuf: nat, c: char) returns (n: nat)
    requires pbuf < memory.Length
    modifies memory
    ensures n == 1 && memory[..] == Over(old(memory[..]), pbuf, [Put(c)])
  {
    memory[pbuf] := c;
    n := 1;
  }

  /** `out_pad`: one character, a number of times. */
  method OutPad(memory: array<char>, pbuf: nat, c: char, num: nat) returns (n: nat)
    requires pbuf + num <= memory.Length
    modifies memory
    ensures n == num && memory[..] == Over(old(memory[..]), pbuf, Repeat(c, num))
  {
    ghost var was := memory[..];
    var i := 0;
    OverNothing(was, pbuf, 0);
    assert Repeat(c, 0) == [];
    while i < num
      invariant i <= num && memory[..] == Over(was, pbuf, Repeat(c, i))
    {
      assert Repeat(c, i + 1) == Repeat(c, i) + [Put(c)];
      OverAppend(was, pbuf, Repeat(c, i), [Put(c)]);
      var one := OutByte(memory, pbuf + i, c);
      i := i + one;
    }
    n := num;
  }

  /** What `Stored` is up to a place without a NUL before it, and when a NUL stands there. */
  lemma {:induction false} StoredUpTo(s: string, i: nat)
    requires i <= |s| && forall k :: 0 <= k < i ==> s[k] != '\0'
    ensures Stored(s) == AsCells(s[..i]) + Stored(s[i..])
  {
    if i == 0 {
      assert s[0..] == s && AsCells(s[..0]) == [];
    } else {
      StoredUpTo(s[1..], i - 1);
      assert s[1..][i - 1..] == s[i..];
      assert AsCells(s[..i]) == [Put(s[0])] + AsCells(s[1..][..i - 1]);
    }
  }

  /** `out_mem`: copies up to a NUL, and moves on by the full count. */
  method OutMem(memory: array<char>, pbuf: nat, s: string) returns (n: nat)
    requires pbuf + |s| <= memory.Length
    modifies memory
    ensures n == |s| && memory[..] == Over(old(memory[..]), pbuf, Stored(s))
  {
    ghost var was := memory[..];
    var i := 0;
    OverNothing(was, pbuf, 0);
    assert AsCells(s[..0]) == [];
    while i < |s| && s[i] != '\0'
      invariant i <= |s| && forall k :: 0 <= k < i ==> s[k] != '\0'
      invariant memory[..] == Over(was, pbuf, AsCells(s[..i]))
    {
      assert AsCells(s[..i + 1]) == AsCells(s[..i]) + [Put(s[i])];
      OverAppend(was, pbuf, AsCells(s[..i]), [Put(s[i])]);
      var one := OutByte(memory, pbuf + i, s[i]);
      i := i + one;
    }
    StoredUpTo(s, i);
    OverAppend(was, pbuf, AsCells(s[..i]), Stored(s[i..]));
    OverNothing(memory[..], pbuf + i, |s| - i);
    n := |s|;
  }

  // ----- one conversion

  /** The number label: an explicit precision switches zero fill off, and the digits go through the local buffer. */
  method ConvertNumber(spec: Spec, u: nat, radix: nat, mark: char) returns (act: Action)
    requires u <= ULONG_MAX && (radix == 8 || radix == 10 || radix == 16)
    ensures act == NumberField(spec, u, radix, mark)
  {
    var dprec := spec.prec;
    var zero := spec.zero && dprec < 0;
    var buf, cp := NumberToBuffer(u, radix, spec, mark == 'X');
    act := Field(spec.(zero := zero), buf[cp..32], dprec, mark);
  }

  method ConvertSigned(spec: Spec, v: int, mark: char) returns (act: Action)
    requires IsLong(v)
    ensures act == SignedField(spec, v, mark)
  {
    if v < 0 {
      act := ConvertNumber(spec.(sign := '-'), Mod32(0 - v), 10, mark);
    } else {
      act := ConvertNumber(spec, Mod32(v), 10, mark);
    }
  }

  method ConvertUnsigned(spec: Spec, u: nat, radix: nat, mark: char) returns (act: Action)
    requires u <= ULONG_MAX && (radix == 8 || radix == 10 || radix == 16)
    ensures act == UnsignedField(spec, u, radix, mark)
  {
    act := ConvertNumber(spec.(sign := '\0'), u, radix, mark);
  }

  lemma SignedArgIsLong(spec: Spec, w: int)
    requires IsLong(w)
    ensures IsLong(SignedArg(spec, w))
  {
  }

  /** The integer cases of the conversion switch. */
  method ConvertInteger(s: Scan, w: int) returns (act: Action)
    requires IsLong(w) && s.ch in "DdiOopUuXx"
    ensures forall args | WordArg(args, s.next) == w :: Convert(s, args) == (act, 1)
  {
    var spec := if s.ch in "DOU" then s.spec.(long := true) else s.spec;
    SignedArgIsLong(spec, w);
    match s.ch {
      case 'D' => act := ConvertSigned(spec, SignedArg(spec, w), 'D');
      case 'd' => act := ConvertSigned(spec, SignedArg(spec, w), 'd');
      case 'i' => act := ConvertSigned(spec, SignedArg(spec, w), 'i');
      case 'O' => act := ConvertUnsigned(spec, UnsignedArg(spec, w), 8, 'O');
      case 'o' => act := ConvertUnsigned(spec, UnsignedArg(spec, w), 8, 'o');
      case 'p' => act := ConvertUnsigned(spec.(hex := true), Mod32(w), 16, 'x');
      case 'U' => act := ConvertUnsigned(spec, UnsignedArg(spec, w), 10, 'U');
      case 'u' => act := ConvertUnsigned(spec, UnsignedArg(spec, w), 10, 'u');
      case _ =>
        var u := UnsignedArg(spec, w);
        act := ConvertUnsigned(if spec.alt && u != 0 then spec.(hex := true) else spec, u, 16, s.ch);
    }
  }

  /** The conversion switch. */
  method ConvertArg(s: Scan, args: seq<Arg>) returns (act: Action, used: nat)
    ensures (act, used) == Convert(s, args)
  {
    var w := WordArg(args, s.next);
    if s.ch in "DdiOopUuXx" {
      act := ConvertInteger(s, w);
      used := 1;
    } else {
      var c := Convert(s, args);
      act, used := c.0, c.1;
    }
  }

  // ----- laying out a field

  function PadCells(wanted: bool, c: char, num: nat): seq<Cell> {
    if wanted then Repeat(c, num) else []
  }

  /** Padding that depends on the flags. */
  method PadIf(memory: array<char>, outbuf0: nat, wanted: bool, c: char, num: nat) returns (outbuf: nat)
    requires outbuf0 + |PadCells(wanted, c, num)| <= memory.Length
    modifies memory
    ensures outbuf == outbuf0 + |PadCells(wanted, c, num)|
    ensures memory[..] == Over(old(memory[..]), outbuf0, PadCells(wanted, c, num))
  {
    outbuf := outbuf0;
    OverNothing(memory[..], outbuf0, 0);
    if wanted {
      var n := OutPad(memory, outbuf0, c, num);
      outbuf := outbuf + n;
    }
  }

  function FrontCells(f: Action, gap: nat): seq<Cell>
    requires f.Field?
  {
    PadCells(!f.spec.left && !f.spec.zero, ' ', gap) + Prefix(f.spec, f.mark)
    + PadCells(!f.spec.left && f.spec.zero, '0', gap)
  }

  /** The part of a field in front of its digits: padding, sign or radix prefix, zero padding. */
  method LayOutFront(memory: array<char>, outbuf0: nat, f: Action, gap: nat) returns (outbuf: nat)
    requires f.Field? && outbuf0 + |FrontCells(f, gap)| <= memory.Length
    modifies memory
    ensures outbuf == outbuf0 + |FrontCells(f, gap)|
    ensures memory[..] == Over(old(memory[..]), outbuf0, FrontCells(f, gap))
  {
    ghost var was := memory[..];
    ghost var blanks := PadCells(!f.spec.left && !f.spec.zero, ' ', gap);
    ghost var prefix, zeros := Prefix(f.spec, f.mark), PadCells(!f.spec.left && f.spec.zero, '0', gap);
    outbuf := PadIf(memory, outbuf0, !f.spec.left && !f.spec.zero, ' ', gap);
    outbuf := LayOutPrefix(memory, outbuf, f.spec, f.mark);
    OverAppend(was, outbuf0, blanks, prefix);
    outbuf := PadIf(memory, outbuf, !f.spec.left && f.spec.zero, '0', gap);
    OverAppend(was, outbuf0, blanks + prefix, zeros);
  }

  method LayOutPrefix(memory: array<char>, outbuf0: nat, spec: Spec, mark: char) returns (outbuf: nat)
    requires outbuf0 + |Prefix(spec, mark)| <= memory.Length
    modifies memory
    ensures outbuf == outbuf0 + |Prefix(spec, mark)|
    ensures memory[..] == Over(old(memory[..]), outbuf0, Prefix(spec, mark))
  {
    outbuf := outbuf0;
    ghost var was := memory[..];
    OverNothing(was, outbuf0, 0);
    if spec.sign != '\0' {
      var n := OutByte(memory, outbuf, spec.sign);
      outbuf := outbuf + n;
    } else if spec.hex {
      var n := OutByte(memory, outbuf, '0');
      outbuf := outbuf + n;
      n := OutByte(memory, outbuf, mark);
      outbuf := outbuf + n;
      OverAppend(was, outbuf0, [Put('0')], [Put(mark)]);
    }
  }

  /** Precision zeros, the text itself, and padding on the right. */
  function BackCells(f: Action, gap: nat): seq<Cell>
    requires f.Field?
  {
    Repeat('0', DigitPadding(|f.text|, f.dprec)) + Stored(f.text) + PadCells(f.spec.left, ' ', gap)
  }

  method LayOutBack(memory: array<char>, outbuf0: nat, f: Action, gap: nat, dpad: nat) returns (outbuf: nat)
    requires f.Field? && dpad == DigitPadding(|f.text|, f.dprec) && outbuf0 + |BackCells(f, gap)| <= memory.Length
    modifies memory
    ensures outbuf == outbuf0 + |BackCells(f, gap)|
    ensures memory[..] == Over(old(memory[..]), outbuf0, BackCells(f, gap))
  {
    ghost var was := memory[..];
    outbuf := LayOutDigits(memory, outbuf0, f.text, dpad);
    outbuf := PadIf(memory, outbuf, f.spec.left, ' ', gap);
    OverAppend(was, outbuf0, Repeat('0', dpad) + Stored(f.text), PadCells(f.spec.left, ' ', gap));
  }

  method LayOutDigits(memory: array<char>, outbuf0: nat, text: string, dpad: nat) returns (outbuf: nat)
    requires outbuf0 + dpad + |text| <= memory.Length
    modifies memory
    ensures outbuf == outbuf0 + dpad + |text|
    ensures memory[..] == Over(old(memory[..]), outbuf0, Repeat('0', dpad) + Stored(text))
  {
    ghost var was := memory[..];
    var n := OutPad(memory, outbuf0, '0', dpad);
    outbuf := outbuf0 + n;
    n := OutMem(memory, outbuf, text);
    outbuf := outbuf + n;
    OverAppend(was, outbuf0, Repeat('0', dpad), Stored(text));
  }

  method LayOutCells(memory: array<char>, outbuf0: nat, f: Action, gap: nat, dpad: nat) returns (outbuf: nat)
    requires f.Field? && dpad == DigitPadding(|f.text|, f.dprec)
    requires outbuf0 + |FrontCells(f, gap) + BackCells(f, gap)| <= memory.Length
    modifies memory
    ensures outbuf == outbuf0 + |FrontCells(f, gap) + BackCells(f, gap)|
    ensures memory[..] == Over(old(memory[..]), outbuf0, FrontCells(f, gap) + BackCells(f, gap))
  {
    ghost var was := memory[..];
    outbuf := LayOutFront(memory, outbuf0, f, gap);
    outbuf := LayOutBack(memory, outbuf, f, gap, dpad);
    OverAppend(was, outbuf0, FrontCells(f, gap), BackCells(f, gap));
  }

  lemma FieldHalves(f: Action)
    requires f.Field?
    ensures FieldCells(f) == FrontCells(f, Gap(f)) + BackCells(f, Gap(f))
  {
  }

  /** The size of a field before padding to its width, and the zeros its precision asks for. */
  method MeasureField(f: Action) returns (fieldsz: int, dpad: nat)
    requires f.Field?
    ensures fieldsz == FieldSize(f) && dpad == DigitPadding(|f.text|, f.dprec)
  {
    var size := |f.text|;
    dpad := if f.dprec - size < 0 then 0 else f.dprec - size;
    fieldsz := size;
    if f.spec.sign != '\0' {
      fieldsz := fieldsz + 1;
    } else if f.spec.hex {
      fieldsz := fieldsz + 2;
    }
    fieldsz := Signed32(fieldsz + dpad);
  }

  /** The whole field: sizes in int arithmetic, then the pieces; returns what is added to the count. */
  method LayOut(memory: array<char>, outbuf0: nat, f: Action) returns (outbuf: nat, added: int)
    requires f.Field? && outbuf0 + |FieldCells(f)| <= memory.Length
    modifies memory
    ensures outbuf == outbuf0 + |FieldCells(f)| && added == FieldWidth(f)
    ensures memory[..] == Over(old(memory[..]), outbuf0, FieldCells(f))
  {
    var fieldsz, dpad := MeasureField(f);
    var gap := if f.spec.width > fieldsz then Mod32(f.spec.width - fieldsz) else 0;
    FieldHalves(f);
    outbuf := LayOutCells(memory, outbuf0, f, gap, dpad);
    added := if f.spec.width > fieldsz then f.spec.width else fieldsz;
  }

  // ----- the outer loop

  /** The locals of `_out_stream` that outlive one conversion. */
  datatype Locals = Locals(outbuf: nat, ret: int, counts: seq<(nat, int)>, pos: nat, next: nat)

  /** With the cells written so far, the locals are a progress. */
  function Reached(l: Locals, cells: seq<Cell>): Progress {
    Progress(cells, l.ret, l.counts)
  }

  /** The pointer stands behind the cells, which lie over what memory held at the start. */
  ghost predicate Shows(now: string, was: string, pbuf: nat, l: Locals, cells: seq<Cell>) {
    l.outbuf == pbuf + |cells| <= |was| && now == Over(was, pbuf, cells)
  }

  /** The locals after a turn say where the run goes on. */
  ghost predicate Follows(l: Locals, done: bool, cells: seq<Cell>, t: Turn) {
    done == t.Done? && Reached(l, cells) == t.p && (t.More? ==> l.pos == t.pos && l.next == t.next)
  }

  lemma ShowsMore(now: string, was: string, pbuf: nat, l: Locals, cells: seq<Cell>, more: seq<Cell>, l': Locals)
    requires Shows(now, was, pbuf, l, cells) && l.outbuf + |more| <= |was| && l'.outbuf == l.outbuf + |more|
    ensures |now| == |was|
    ensures Shows(Over(now, l.outbuf, more), was, pbuf, l', cells + more)
  {
    OverAppend(was, pbuf, cells, more);
  }

  /** One conversion, once its flags have been read. */
  method PerformConversion(memory: array<char>, l: Locals, s: Scan, args: seq<Arg>,
                 ghost was: string, ghost pbuf: nat, ghost cells: seq<Cell>)
    returns (l': Locals, done: bool, ghost cells': seq<Cell>)
    requires Shows(memory[..], was, pbuf, l, cells)
    requires pbuf + |ConversionAt(s, args, Reached(l, cells)).p.cells| <= memory.Length
    modifies memory
    ensures Follows(l', done, cells', ConversionAt(s, args, Reached(l, cells)))
    ensures Shows(memory[..], was, pbuf, l', cells')
  {
    var act, used := ConvertArg(s, args);
    cells' := cells;
    match act {
      case Stop =>
        return l, true, cells;
      case StoreCount =>
        var counts := l.counts + [(s.next, CountValue(s.spec, l.ret))];
        return l.(counts := counts, pos := s.pos, next := s.next + used), false, cells;
      case Field(_, _, _, _) =>
        ghost var now := memory[..];
        var outbuf, added := LayOut(memory, l.outbuf, act);
        l' := Locals(outbuf, Signed32(l.ret + added), l.counts, s.pos, s.next + used);
        ShowsMore(now, was, pbuf, l, cells, FieldCells(act), l');
        return l', false, cells + FieldCells(act);
    }
  }

  /** Literal text, copied as it stands. */
  method CopyLiteral(memory: array<char>, l: Locals, fmt: string,
                     ghost was: string, ghost pbuf: nat, ghost cells: seq<Cell>)
    returns (l': Locals, ghost cells': seq<Cell>)
    requires l.pos <= |fmt| && Shows(memory[..], was, pbuf, l, cells)
    requires l.outbuf + (LiteralEnd(fmt, l.pos) - l.pos) <= memory.Length
    modifies memory
    ensures var e := LiteralEnd(fmt, l.pos);
            l'.pos == e && l'.next == l.next
            && Reached(l', cells') == Emit(Reached(l, cells), Stored(fmt[l.pos..e]), e - l.pos)
    ensures Shows(memory[..], was, pbuf, l', cells')
  {
    ghost var now := memory[..];
    var e := ScanLiteral(fmt, l.pos);
    var n := OutMem(memory, l.outbuf, fmt[l.pos..e]);
    l' := Locals(l.outbuf + n, Signed32(l.ret + n), l.counts, e, l.next);
    cells' := cells + Stored(fmt[l.pos..e]);
    ShowsMore(now, was, pbuf, l, cells, Stored(fmt[l.pos..e]), l');
  }

  lemma PerformExtends(q: Progress, s: Scan, act: Action, used: nat)
    ensures q.cells <= Perform(q, s, act, used).p.cells
  {
  }

  lemma TurnExtends(fmt: string, pos: nat, next: nat, args: seq<Arg>, p: Progress)
    requires pos <= |fmt|
    ensures var e := LiteralEnd(fmt, pos);
            |p.cells| + (e - pos) <= |OneTurn(fmt, pos, next, args, p).p.cells|
  {
    var e := LiteralEnd(fmt, pos);
    var q := Emit(p, Stored(fmt[pos..e]), e - pos);
    if At(fmt, e) != '\0' {
      var s := ScanAfter(fmt, e, next, args);
      PerformExtends(q, s, Convert(s, args).0, Convert(s, args).1);
    }
  }

  /** Later turns only add output. */
  lemma {:induction false} RunExtends(fmt: string, pos: nat, next: nat, args: seq<Arg>, p: Progress)
    requires pos <= |fmt|
    ensures |OneTurn(fmt, pos, next, args, p).p.cells| <= |Run(fmt, pos, next, args, p).cells|
    decreases |fmt| - pos
  {
    var t := OneTurn(fmt, pos, next, args, p);
    if t.More? {
      RunExtends(fmt, t.pos, t.next, args, t.p);
      TurnExtends(fmt, t.pos, t.next, args, t.p);
    }
  }

  /** A turn behind its literal text. */
  function RestOfTurn(fmt: string, e: nat, next: nat, args: seq<Arg>, q: Progress): Turn
    requires e <= |fmt|
  {
    if At(fmt, e) == '\0' then Done(q)
    else ConversionAt(ScanAfter(fmt, e, next, args), args, q)
  }

  function ConversionAt(s: Scan, args: seq<Arg>, q: Progress): Turn {
    Perform(q, s, Convert(s, args).0, Convert(s, args).1)
  }

  lemma TurnInTwo(fmt: string, pos: nat, next: nat, args: seq<Arg>, p: Progress)
    requires pos <= |fmt|
    ensures var e := LiteralEnd(fmt, pos);
            OneTurn(fmt, pos, next, args, p) == RestOfTurn(fmt, e, next, args, Emit(p, Stored(fmt[pos..e]), e - pos))
  {
  }

  method FinishTurn(memory: array<char>, l: Locals, fmt: string, args: seq<Arg>,
                    ghost was: string, ghost pbuf: nat, ghost cells: seq<Cell>)
    returns (l': Locals, done: bool, ghost cells': seq<Cell>)
    requires l.pos <= |fmt| && Shows(memory[..], was, pbuf, l, cells)
    requires pbuf + |RestOfTurn(fmt, l.pos, l.next, args, Reached(l, cells)).p.cells| <= memory.Length
    modifies memory
    ensures Follows(l', done, cells', RestOfTurn(fmt, l.pos, l.next, args, Reached(l, cells)))
    ensures Shows(memory[..], was, pbuf, l', cells')
  {
    if At(fmt, l.pos) == '\0' {
      return l, true, cells;
    }
    var s := ScanFlags(fmt, l.pos + 2, l.next, args);
    assert s == ScanAfter(fmt, l.pos, l.next, args);
    l', done, cells' := PerformConversion(memory, l, s, args, was, pbuf, cells);
  }

  /** One turn: literal text, then one conversion. */
  method Advance(memory: array<char>, l: Locals, fmt: string, args: seq<Arg>,
                 ghost was: string, ghost pbuf: nat, ghost cells: seq<Cell>)
    returns (l': Locals, done: bool, ghost cells': seq<Cell>)
    requires l.pos <= |fmt| && Shows(memory[..], was, pbuf, l, cells)
    requires pbuf + |OneTurn(fmt, l.pos, l.next, args, Reached(l, cells)).p.cells| <= memory.Length
    modifies memory
    ensures Follows(l', done, cells', OneTurn(fmt, l.pos, l.next, args, Reached(l, cells)))
    ensures Shows(memory[..], was, pbuf, l', cells')
  {
    TurnExtends(fmt, l.pos, l.next, args, Reached(l, cells));
    TurnInTwo(fmt, l.pos, l.next, args, Reached(l, cells));
    l', cells' := CopyLiteral(memory, l, fmt, was, pbuf, cells);
    l', done, cells' := FinishTurn(memory, l', fmt, args, was, pbuf, cells');
  }

  /** The whole output: memory from pbuf on, and the count; the counts of %n are returned beside it. */
  method OutStream(memory: array<char>, pbuf: nat, fmt: string, args: seq<Arg>)
    returns (ret: int, counts: seq<(nat, int)>)
    requires pbuf + |Run(fmt, 0, 0, args, START).cells| <= memory.Length
    modifies memory
    ensures memory[..] == Over(old(memory[..]), pbuf, Run(fmt, 0, 0, args, START).cells)
    ensures ret == Run(fmt, 0, 0, args, START).ret && counts == Run(fmt, 0, 0, args, START).counts
  {
    ghost var was, cells := memory[..], [];
    var l := Locals(pbuf, 0, [], 0, 0);
    OverNothing(was, pbuf, 0);
    RunExtends(fmt, 0, 0, args, START);
    TurnExtends(fmt, 0, 0, args, START);
    while true
      invariant l.pos <= |fmt| && Shows(memory[..], was, pbuf, l, cells)
      invariant Run(fmt, l.pos, l.next, args, Reached(l, cells)) == Run(fmt, 0, 0, args, START)
      decreases |fmt| - l.pos
    {
      RunExtends(fmt, l.pos, l.next, args, Reached(l, cells));
      var done;
      l, done, cells := Advance(memory, l, fmt, args, was, pbuf, cells);
      if done {
        return l.ret, l.counts;
      }
    }
  }

  /** 2^32 has eleven octal digits, and no more in any larger radix. */
  lemma DigitsFitBuffer(u: nat, radix: nat)
    requires u <= ULONG_MAX && 8 <= radix <= 36
    ensures |Numeral(u, radix)| <= 11
  {
    PowerMonotone(8, radix, 11);
    PowerEight();
    NumeralLength(u, radix, 11);
  }

  lemma PowerEight()
    ensures Power(8, 11) > ULONG_MAX
  {
    assert Power(8, 4) == 4096;
    assert Power(8, 8) == 8 * (8 * (8 * (8 * Power(8, 4))));
    assert Power(8, 11) == 8 * (8 * (8 * Power(8, 8)));
  }

  lemma {:induction false} PowerMonotone(a: nat, b: nat, n: nat)
    requires a <= b
    ensures Power(a, n) <= Power(b, n)
  {
    if n > 0 {
      PowerMonotone(a, b, n - 1);
      MulMonotone(Power(a, n - 1), Power(b, n - 1), a);
      MulMonotone(a, b, Power(b, n - 1));
      MulCommute(Power(a, n - 1), a);
      MulCommute(Power(b, n - 1), a);
    }
  }

  function DigitIn(d: nat, upper: bool): char
    requires d < 36
  {
    if upper then UpperCase([DigitChar(d)])[0] else DigitChar(d)
  }

  function NumeralIn(u: nat, radix: nat, upper: bool): string
    requires 2 <= radix <= 36
  {
    if upper then UpperCase(Numeral(u, radix)) else Numeral(u, radix)
  }

  lemma {:induction false} UpperCaseAppend(s: string, t: string)
    ensures UpperCase(s + t) == UpperCase(s) + UpperCase(t)
  {
    if s == [] {
      assert s + t == t;
    } else {
      assert (s + t)[1..] == s[1..] + t;
      UpperCaseAppend(s[1..], t);
    }
  }

  /** Taking the last digit off a numeral. */
  lemma LastDigit(u: nat, radix: nat, upper: bool)
    requires 2 <= radix <= 36
    ensures 0 <= u % radix < radix && 0 <= u / radix && (u > 0 ==> u / radix < u)
    ensures if u / radix == 0 then NumeralIn(u, radix, upper) == [DigitIn(u % radix, upper)]
            else NumeralIn(u, radix, upper) == NumeralIn(u / radix, radix, upper) + [DigitIn(u % radix, upper)]
  {
    if u < radix {
      SmallQuotient(u, radix);
    } else {
      QuotientShrinks(u, radix);
      FloorBounds(u, radix);
      CancelFactor(0, u / radix, radix);
      UpperCaseAppend(Numeral(u / radix, radix), [DigitChar(u % radix)]);
    }
  }

  /**
   The number branch fills its 33-byte buffer downwards from index 32: the
   index never leaves the buffer, and what it points at is the number's text.
  */
  method NumberToBuffer(u: nat, radix: nat, spec: Spec, upper: bool) returns (buf: array<char>, cp: nat)
    requires u <= ULONG_MAX && (radix == 8 || radix == 10 || radix == 16)
    ensures buf.Length == 33 && cp <= 32 && buf[cp..32] == NumberBody(u, radix, spec, upper)
  {
    buf := new char[33](_ => '\0');
    cp := 32;
    if u == 0 && spec.prec == 0 {
      return;
    }
    DigitsFitBuffer(u, radix);
    cp := StoreBackwards(buf, u, radix, upper);
    if radix == 8 && spec.alt && buf[cp] != '0' {
      cp := cp - 1;
      buf[cp] := '0';
    }
  }

  method StoreBefore(buf: array<char>, end: nat, d: char) returns (cp: nat)
    requires buf.Length == 33 && 1 <= end <= 32
    modifies buf
    ensures cp == end - 1 && buf[cp..32] == [d] + old(buf[end..32])
  {
    cp := end - 1;
    buf[cp] := d;
  }

  method StoreBackwards(buf: array<char>, u: nat, radix: nat, upper: bool) returns (cp: nat)
    requires buf.Length == 33 && 2 <= radix <= 36 && |Numeral(u, radix)| <= 31
    modifies buf
    ensures 1 <= cp <= 32 && buf[cp..32] == NumeralIn(u, radix, upper)
  {
    cp := 32;
    var n: nat := u;
    while true
      invariant cp <= 32 && |Numeral(n, radix)| == |Numeral(u, radix)| - (32 - cp)
      invariant NumeralIn(u, radix, upper) == NumeralIn(n, radix, upper) + buf[cp..32]
      decreases n
    {
      LastDigit(n, radix, upper);
      var d := DigitIn(n % radix, upper);
      ghost var tail := buf[cp..32];
      ghost var before := NumeralIn(n, radix, upper);
      n := n / radix;
      cp := StoreBefore(buf, cp, d);
      if n == 0 {
        assert NumeralIn(u, radix, upper) == buf[cp..32];
        break;
      }
      SeqAssoc(NumeralIn(n, radix, upper), [d], tail);
    }
  }
}
