/**
 ELF relocation: `__dlarch_rel` for ARM and i386, the walk of one table in
 `__dldynamic_rel`, and the choice of ranges in `_ELF_DYNAMIC_DO_RELOC`.

 Memory is an array of 32-bit words; the address of word i is 4 * i.  The
 relocation tables are read from that same memory.
*/
module Relocation {
  import opened Words
  import opened Powers

  predicate Is32(n: int) { 0 <= n < WORD }

  datatype Arch = Arm | I386

  /** A table entry: `r_offset` and the two parts of `r_info`. */
  datatype Record = Record(offset: nat, kind: nat, symbol: nat)

  /** What a patch does to its word; COPY is not modelled. */
  datatype Effect = Relative | Absolute | Replace | Branch24 | PcRelative | Nothing

  function EffectOf(arch: Arch, kind: nat): Effect {
    match arch
    case Arm =>
      if kind == 23 then Relative
      else if kind == 21 || kind == 22 then Replace
      else if kind == 2 then Absolute
      else if kind == 1 then Branch24
      else Nothing
    case I386 =>
      if kind == 8 then Relative
      else if kind == 6 || kind == 7 then Replace
      else if kind == 1 then Absolute
      else if kind == 2 then PcRelative
      else Nothing
  }

  function CopyKind(arch: Arch): nat {
    if arch == Arm then 20 else 5
  }

  /**
   The module being relocated: architecture, load address, the symbol lookup,
   and `fix_bad_pc24`, whose body the sources leave empty.
  */
  datatype Env = Env(arch: Arch, base: nat, lookup: nat -> nat, veneer: (nat, nat) -> nat)

  function Place(env: Env, r: Record): nat {
    Mod32(env.base + r.offset)
  }

  // ----- one patch

  /** A 24-bit field as a signed number. */
  function SignExtend24(field: nat): int {
    if field >= 0x80_0000 then field - 0x100_0000 else field
  }

  predicate Branchable(v: nat) {
    v < 0x200_0000 || v >= 0xFE00_0000
  }

  /** Distance a branch instruction is to cover, before and after the out-of-range detour. */
  function BranchDistance(value: nat, place: nat, word: nat): nat {
    Mod32(value - place + 4 * SignExtend24(word % 0x100_0000))
  }

  function PatchBranch(env: Env, value: nat, place: nat, word: nat): nat {
    var direct := BranchDistance(value, place, word);
    var distance := if Branchable(direct) then direct else BranchDistance(env.veneer(place, value), place, word);
    word / 0x100_0000 * 0x100_0000 + distance / 4 % 0x100_0000
  }

  function Patch(env: Env, r: Record, word: nat): nat {
    var value := env.lookup(r.symbol);
    match EffectOf(env.arch, r.kind)
    case Relative => Mod32(word + env.base)
    case Absolute => Mod32(word + value)
    case Replace => Mod32(value)
    case PcRelative => Mod32(word + value - Place(env, r))
    case Branch24 => PatchBranch(env, value, Place(env, r), word)
    case Nothing => word
  }

  /**
   After an in-range branch patch the opcode byte is kept, and the branch hits
   its target exactly when that is word aligned.
  */
  lemma BranchHitsTarget(env: Env, value: nat, place: nat, word: nat)
    requires Is32(word) && Branchable(BranchDistance(value, place, word))
    ensures var w := PatchBranch(env, value, place, word);
            w / 0x100_0000 == word / 0x100_0000 && Is32(w)
            && (Mod32(place + 4 * SignExtend24(w % 0x100_0000)) == Mod32(value + 4 * SignExtend24(word % 0x100_0000))
                <==> (value - place) % 4 == 0)
  {
    var d := BranchDistance(value, place, word);
    var old24 := SignExtend24(word % 0x100_0000);
    var w := PatchBranch(env, value, place, word);
    SplitQuotient(word / 0x100_0000, 0x100_0000, d / 4 % 0x100_0000);
    FieldOfDistance(d);
    SameModulo(place + 4 * SignExtend24(w % 0x100_0000), value + 4 * old24, place, d);
    DistanceAlignment(value - place, old24);
  }

  /** The 24-bit field holds the distance up to its last two bits. */
  lemma FieldOfDistance(d: nat)
    requires Is32(d) && Branchable(d)
    ensures Mod32(4 * SignExtend24(d / 4 % 0x100_0000)) == d - d % 4
  {
    if d < 0x200_0000 {
      SmallQuotient(d / 4, 0x100_0000);
    } else {
      SplitQuotient(0x3F, 0x100_0000, d / 4 - 0x3F00_0000);
    }
  }

  lemma DistanceAlignment(gap: int, addend: int)
    ensures Mod32(gap + 4 * addend) % 4 == gap % 4
  {
  }

  lemma SameModulo(x: int, y: int, place: int, d: nat)
    requires Is32(d) && d == Mod32(y - place)
    ensures Mod32(x) == Mod32(y) <==> Mod32(x - place) == d
  {
  }

  /** After an i386 PC-relative patch, place plus word is symbol value plus the old word. */
  lemma PcRelativeHitsTarget(env: Env, r: Record, word: nat)
    requires env.arch == I386 && r.kind == 2
    ensures Mod32(Place(env, r) + Patch(env, r, word)) == Mod32(env.lookup(r.symbol) + word)
  {
    ModAdd(Place(env, r), word + env.lookup(r.symbol) - Place(env, r));
  }

  // ----- by relocation type

  /** R_ARM_ABS32 and R_386_32: the symbol value is added to what stood there. */
  lemma AbsoluteAddsSymbol(env: Env, r: Record, word: nat)
    requires (env.arch == Arm && r.kind == 2) || (env.arch == I386 && r.kind == 1)
    ensures Mod32(Patch(env, r, word) - word) == Mod32(env.lookup(r.symbol)) && Touches(env, r)
  {
    ModShift(word, env.lookup(r.symbol));
  }

  /** R_ARM_RELATIVE and R_386_RELATIVE: the load address is added to what stood there. */
  lemma RelativeAddsBase(env: Env, r: Record, word: nat)
    requires (env.arch == Arm && r.kind == 23) || (env.arch == I386 && r.kind == 8)
    ensures Mod32(Patch(env, r, word) - word) == Mod32(env.base) && Touches(env, r)
  {
    ModShift(word, env.base);
  }

  /** GLOB_DAT and JUMP_SLOT (21 and 22 on ARM, 6 and 7 on i386): the symbol value, whatever stood there. */
  lemma SlotHoldsSymbol(env: Env, r: Record, word: nat)
    requires env.arch == Arm ==> r.kind == 21 || r.kind == 22
    requires env.arch == I386 ==> r.kind == 6 || r.kind == 7
    ensures Patch(env, r, word) == Mod32(env.lookup(r.symbol)) && Touches(env, r)
  {
  }

  /** R_ARM_PC24, in range: the opcode byte stays, and the branch hits its target exactly when that is word aligned. */
  lemma ArmBranchHitsTarget(env: Env, r: Record, word: nat)
    requires env.arch == Arm && r.kind == 1 && Is32(word)
    requires InBranchRange(env.lookup(r.symbol) - Place(env, r) + 4 * SignExtend24(word % 0x100_0000))
    ensures Touches(env, r)
    ensures var w, value := Patch(env, r, word), env.lookup(r.symbol);
            w / 0x100_0000 == word / 0x100_0000 && Is32(w)
            && (Mod32(Place(env, r) + 4 * SignExtend24(w % 0x100_0000))
                == Mod32(value + 4 * SignExtend24(word % 0x100_0000))
                <==> (value - Place(env, r)) % 4 == 0)
  {
    InRangeBranches(env.lookup(r.symbol) - Place(env, r) + 4 * SignExtend24(word % 0x100_0000));
    BranchHitsTarget(env, env.lookup(r.symbol), Place(env, r), word);
  }

  /** R_ARM_PC24, out of range: the branch goes to what `fix_bad_pc24` gives, if that is in range. */
  lemma FarBranchHitsVeneer(env: Env, r: Record, word: nat)
    requires env.arch == Arm && r.kind == 1 && Is32(word)
    requires !InBranchRange(env.lookup(r.symbol) - Place(env, r) + 4 * SignExtend24(word % 0x100_0000))
    requires var veneer := env.veneer(Place(env, r), env.lookup(r.symbol));
             InBranchRange(veneer - Place(env, r) + 4 * SignExtend24(word % 0x100_0000))
             && (veneer - Place(env, r)) % 4 == 0
    ensures var w, veneer := Patch(env, r, word), env.veneer(Place(env, r), env.lookup(r.symbol));
            w / 0x100_0000 == word / 0x100_0000
            && Mod32(Place(env, r) + 4 * SignExtend24(w % 0x100_0000))
               == Mod32(veneer + 4 * SignExtend24(word % 0x100_0000))
  {
    var value, place := env.lookup(r.symbol), Place(env, r);
    var veneer := env.veneer(place, value);
    InRangeBranches(env.lookup(r.symbol) - Place(env, r) + 4 * SignExtend24(word % 0x100_0000));
    InRangeBranches(env.veneer(place, value) - Place(env, r) + 4 * SignExtend24(word % 0x100_0000));
    BranchHitsTarget(env, veneer, place, word);
    assert PatchBranch(env, value, place, word) == PatchBranch(env, veneer, place, word);
  }

  /** A distance a 24-bit word offset can express, as a 32-bit quantity. */
  predicate InBranchRange(distance: int) {
    -0x200_0000 <= Signed32(distance) < 0x200_0000
  }

  /** The test of the top seven bits accepts exactly the distances in range. */
  lemma InRangeBranches(distance: int)
    ensures Branchable(Mod32(distance)) <==> InBranchRange(distance)
  {
  }

  /** NONE and the types the code does not know leave the word alone. */
  lemma OtherTypesDoNothing(env: Env, r: Record, word: nat)
    requires env.arch == Arm ==> r.kind !in {1, 2, 20, 21, 22, 23}
    requires env.arch == I386 ==> r.kind !in {1, 2, 5, 6, 7, 8}
    ensures Patch(env, r, word) == word && !Touches(env, r)
  {
  }

  lemma ModShift(x: int, y: int)
    ensures Mod32(Mod32(x + y) - x) == Mod32(y)
  {
    ModAdd(-x, x + y);
  }

  lemma ModAdd(x: int, y: int)
    ensures Mod32(x + Mod32(y)) == Mod32(x + y)
  {
  }

  // ----- a pass over records

  /** Index of the word an address names. */
  function Slot(env: Env, r: Record): nat {
    Place(env, r) / 4
  }

  predicate Touches(env: Env, r: Record) {
    EffectOf(env.arch, r.kind) != Nothing
  }

  /** The record asks for nothing the model leaves out: a patched word is aligned and inside memory. */
  predicate Supported(env: Env, r: Record, size: nat) {
    r.kind != CopyKind(env.arch) && (Touches(env, r) ==> Place(env, r) % 4 == 0 && Slot(env, r) < size)
  }

  function ApplyOne(env: Env, words: seq<nat>, r: Record): (w: seq<nat>)
    requires Supported(env, r, |words|)
    ensures |w| == |words|
  {
    if Touches(env, r) then words[Slot(env, r) := Patch(env, r, words[Slot(env, r)])] else words
  }

  predicate AllSupported(env: Env, records: seq<Record>, size: nat) {
    forall r :: r in records ==> Supported(env, r, size)
  }

  /** The records applied first to last. */
  function ApplyAll(env: Env, words: seq<nat>, records: seq<Record>): (w: seq<nat>)
    requires AllSupported(env, records, |words|)
    ensures |w| == |words|
  {
    if records == [] then words
    else ApplyOne(env, ApplyAll(env, words, records[..|records| - 1]), records[|records| - 1])
  }

  lemma ApplyAllAppend(env: Env, words: seq<nat>, a: seq<Record>, r: Record)
    requires AllSupported(env, a + [r], |words|)
    ensures AllSupported(env, a, |words|)
    ensures ApplyAll(env, words, a + [r]) == ApplyOne(env, ApplyAll(env, words, a), r)
  {
    assert (a + [r])[..|a|] == a;
    assert forall x :: x in a ==> x in a + [r];
    assert r in a + [r];
  }

  lemma {:induction false} ApplyAllConcat(env: Env, words: seq<nat>, a: seq<Record>, b: seq<Record>)
    requires AllSupported(env, a, |words|) && AllSupported(env, b, |words|)
    ensures AllSupported(env, a + b, |words|)
    ensures ApplyAll(env, words, a + b) == ApplyAll(env, ApplyAll(env, words, a), b)
    decreases |b|
  {
    if b == [] {
      assert a + b == a;
    } else {
      var b' := b[..|b| - 1];
      ApplyAllConcat(env, words, a, b');
      assert (a + b)[..|a + b| - 1] == a + b';
    }
  }

  /** No two patching records aim at the same word. */
  predicate Disjoint(env: Env, records: seq<Record>) {
    forall i, j :: 0 <= i < j < |records| && Touches(env, records[i]) && Touches(env, records[j]) ==>
                     Slot(env, records[i]) != Slot(env, records[j])
  }

  predicate Targets(env: Env, records: seq<Record>, slot: nat) {
    exists r :: r in records && Touches(env, r) && Slot(env, r) == slot
  }

  /** Words nobody aims at stay as they are. */
  lemma {:induction false} UntargetedUnchanged(env: Env, words: seq<nat>, records: seq<Record>, slot: nat)
    requires AllSupported(env, records, |words|) && slot < |words| && !Targets(env, records, slot)
    ensures ApplyAll(env, words, records)[slot] == words[slot]
    decreases |records|
  {
    if records != [] {
      var front, r := records[..|records| - 1], records[|records| - 1];
      assert r in records && forall x :: x in front ==> x in records;
      UntargetedUnchanged(env, words, front, slot);
    }
  }

  /** With disjoint targets a targeted word is patched once, from its original content. */
  lemma {:induction false} TargetPatchedOnce(env: Env, words: seq<nat>, records: seq<Record>, i: nat)
    requires AllSupported(env, records, |words|) && Disjoint(env, records)
    requires i < |records| && Touches(env, records[i])
    ensures Supported(env, records[i], |words|)
    ensures ApplyAll(env, words, records)[Slot(env, records[i])] == Patch(env, records[i], words[Slot(env, records[i])])
    decreases |records|
  {
    var front, last := records[..|records| - 1], records[|records| - 1];
    var slot := Slot(env, records[i]);
    assert forall x :: x in front ==> x in records;
    assert records[i] in records && last in records;
    if i == |records| - 1 {
      forall r | r in front && Touches(env, r) ensures Slot(env, r) != slot {
        var j :| 0 <= j < |front| && front[j] == r;
        assert records[j] == r;
      }
      UntargetedUnchanged(env, words, front, slot);
    } else {
      assert front[i] == records[i];
      TargetPatchedOnce(env, words, front, i);
    }
  }

  /** What a word must be after its record was applied, by architecture and type. */
  predicate Relocated(env: Env, r: Record, before: nat, after: nat) {
    var value, place := env.lookup(r.symbol), Place(env, r);
    match env.arch
    case Arm =>
      (r.kind == 23 ==> Mod32(after - before) == Mod32(env.base))
      && (r.kind == 2 ==> Mod32(after - before) == Mod32(value))
      && (r.kind == 21 || r.kind == 22 ==> after == Mod32(value))
      && (r.kind == 1 && InBranchRange(value - place + 4 * SignExtend24(before % 0x100_0000))
          && (value - place) % 4 == 0 ==>
            after / 0x100_0000 == before / 0x100_0000
            && Mod32(place + 4 * SignExtend24(after % 0x100_0000))
               == Mod32(value + 4 * SignExtend24(before % 0x100_0000)))
    case I386 =>
      (r.kind == 8 ==> Mod32(after - before) == Mod32(env.base))
      && (r.kind == 1 ==> Mod32(after - before) == Mod32(value))
      && (r.kind == 6 || r.kind == 7 ==> after == Mod32(value))
      && (r.kind == 2 ==> Mod32(place + after) == Mod32(value + before))
  }

  lemma PatchRelocates(env: Env, r: Record, word: nat)
    requires Is32(word)
    ensures Relocated(env, r, word, Patch(env, r, word))
  {
    if (env.arch == Arm && r.kind == 23) || (env.arch == I386 && r.kind == 8) {
      RelativeAddsBase(env, r, word);
    } else if (env.arch == Arm && r.kind == 2) || (env.arch == I386 && r.kind == 1) {
      AbsoluteAddsSymbol(env, r, word);
    } else if (env.arch == Arm && r.kind in {21, 22}) || (env.arch == I386 && r.kind in {6, 7}) {
      SlotHoldsSymbol(env, r, word);
    } else if env.arch == I386 && r.kind == 2 {
      PcRelativeHitsTarget(env, r, word);
    } else if env.arch == Arm && r.kind == 1
              && InBranchRange(env.lookup(r.symbol) - Place(env, r) + 4 * SignExtend24(word % 0x100_0000)) {
      ArmBranchHitsTarget(env, r, word);
    }
  }

  /** After a whole pass over disjoint targets every record has done what its type asks for. */
  lemma PassRelocates(env: Env, words: seq<nat>, records: seq<Record>, i: nat)
    requires AllSupported(env, records, |words|) && Disjoint(env, records)
    requires i < |records| && Touches(env, records[i])
    requires forall k :: 0 <= k < |words| ==> Is32(words[k])
    ensures var slot := Slot(env, records[i]);
            slot < |words| && Relocated(env, records[i], words[slot], ApplyAll(env, words, records)[slot])
  {
    TargetPatchedOnce(env, words, records, i);
    var slot := Slot(env, records[i]);
    PatchRelocates(env, records[i], words[slot]);
  }

  /** A record aims at the word its offset names from the load address on. */
  lemma SlotOfTarget(env: Env, r: Record)
    ensures Place(env, r) == (env.base + r.offset) % 0x1_0000_0000 && Slot(env, r) == Place(env, r) / 4
  {
  }

  /**
   The order of the records does not matter: two lists with the same records
   and disjoint targets leave the same memory.
  */
  lemma OrderDoesNotMatter(env: Env, words: seq<nat>, a: seq<Record>, b: seq<Record>)
    requires AllSupported(env, a, |words|) && AllSupported(env, b, |words|)
    requires Disjoint(env, a) && Disjoint(env, b)
    requires forall r :: Touches(env, r) ==> (r in a <==> r in b)
    ensures ApplyAll(env, words, a) == ApplyAll(env, words, b)
  {
    forall slot: nat | slot < |words| ensures ApplyAll(env, words, a)[slot] == ApplyAll(env, words, b)[slot] {
      if Targets(env, a, slot) {
        var r :| r in a && Touches(env, r) && Slot(env, r) == slot;
        var i :| 0 <= i < |a| && a[i] == r;
        var j :| 0 <= j < |b| && b[j] == r;
        TargetPatchedOnce(env, words, a, i);
        TargetPatchedOnce(env, words, b, j);
      } else {
        UntargetedUnchanged(env, words, a, slot);
        UntargetedUnchanged(env, words, b, slot);
      }
    }
  }

  /**
   A shuffled table of disjoint targets is still disjoint, so every permutation
   of the records gives the same memory.
  */
  lemma PermutationDoesNotMatter(env: Env, words: seq<nat>, a: seq<Record>, b: seq<Record>)
    requires multiset(a) == multiset(b) && AllSupported(env, a, |words|) && Disjoint(env, a)
    ensures AllSupported(env, b, |words|) && ApplyAll(env, words, a) == ApplyAll(env, words, b)
  {
    forall r ensures r in a <==> r in b {
      assert r in multiset(a) <==> r in a;
      assert r in multiset(b) <==> r in b;
    }
    forall i, j | 0 <= i < j < |b| && Touches(env, b[i]) && Touches(env, b[j])
      ensures Slot(env, b[i]) != Slot(env, b[j])
    {
      TwoPositions(b, i, j);
      assert b[i] in b && b[j] in b;
      if b[i] != b[j] {
        assert b[i] in a && b[j] in a;
        var p :| 0 <= p < |a| && a[p] == b[i];
        var q :| 0 <= q < |a| && a[q] == b[j];
        assert p < q || q < p;
      } else {
        TwicePresent(a, b[i]);
      }
    }
    OrderDoesNotMatter(env, words, a, b);
  }

  lemma TwoPositions(s: seq<Record>, i: nat, j: nat)
    requires i < j < |s|
    ensures s[i] == s[j] ==> multiset(s)[s[i]] >= 2
  {
    assert s == s[..i] + [s[i]] + s[i + 1..j] + [s[j]] + s[j + 1..];
  }

  lemma TwicePresent(s: seq<Record>, r: Record)
    requires multiset(s)[r] >= 2
    ensures exists p, q :: 0 <= p < q < |s| && s[p] == r && s[q] == r
  {
    var p :| 0 <= p < |s| && s[p] == r;
    var rest := s[..p] + s[p + 1..];
    assert s == s[..p] + [s[p]] + s[p + 1..];
    assert multiset(s) == multiset(rest) + multiset{r};
    assert r in rest;
    var k :| 0 <= k < |rest| && rest[k] == r;
    if k < p {
      assert s[k] == r;
    } else {
      assert s[k + 1] == r;
    }
  }

  // ----- tables in memory

  const RECORD_WORDS := 2

  function RecordAt(words: seq<nat>, index: nat): Record
    requires index + 1 < |words|
  {
    Record(words[index], words[index + 1] % 0x100, words[index + 1] / 0x100)
  }

  /** What `ELF32_R_SYM` and `ELF32_R_TYPE` take apart is what the linker put together. */
  lemma RecordReadBack(words: seq<nat>, index: nat, r: Record)
    requires index + 1 < |words| && r.kind < 0x100
    requires words[index] == r.offset && words[index + 1] == 0x100 * r.symbol + r.kind
    ensures RecordAt(words, index) == r
  {
    SplitQuotient(r.symbol, 0x100, r.kind);
  }

  /** A table is a first word and a count of records. */
  datatype Table = Table(index: nat, count: nat)

  predicate InMemory(t: Table, size: nat) {
    t.index + RECORD_WORDS * t.count <= size
  }

  function Records(words: seq<nat>, t: Table): (r: seq<Record>)
    requires InMemory(t, |words|)
    ensures |r| == t.count
    decreases t.count
  {
    if t.count == 0 then []
    else
      Records(words, Table(t.index, t.count - 1)) + [RecordAt(words, t.index + RECORD_WORDS * (t.count - 1))]
  }

  /** No record aims at a word of the table. */
  predicate Outside(env: Env, records: seq<Record>, t: Table) {
    forall r :: r in records && Touches(env, r) ==> !(t.index <= Slot(env, r) < t.index + RECORD_WORDS * t.count)
  }

  /** A table that no patch touches reads the same afterwards. */
  lemma {:induction false} RecordsUnchanged(words: seq<nat>, words': seq<nat>, t: Table)
    requires InMemory(t, |words|) && |words'| == |words|
    requires forall k :: t.index <= k < t.index + RECORD_WORDS * t.count ==> words'[k] == words[k]
    ensures Records(words', t) == Records(words, t)
    decreases t.count
  {
    if t.count > 0 {
      RecordsUnchanged(words, words', Table(t.index, t.count - 1));
    }
  }

  lemma {:induction false} RecordsPrefix(words: seq<nat>, t: Table, n: nat)
    requires InMemory(t, |words|) && n <= t.count
    ensures Records(words, Table(t.index, n)) == Records(words, t)[..n]
    decreases t.count
  {
    if n < t.count {
      RecordsPrefix(words, Table(t.index, t.count - 1), n);
    } else {
      assert Records(words, t)[..n] == Records(words, t);
    }
  }

  lemma PassKeepsTable(env: Env, words: seq<nat>, records: seq<Record>, t: Table)
    requires AllSupported(env, records, |words|) && InMemory(t, |words|) && Outside(env, records, t)
    ensures Records(ApplyAll(env, words, records), t) == Records(words, t)
  {
    forall k | t.index <= k < t.index + RECORD_WORDS * t.count ensures ApplyAll(env, words, records)[k] == words[k] {
      UntargetedUnchanged(env, words, records, k);
    }
    RecordsUnchanged(words, ApplyAll(env, words, records), t);
  }

  /** Adjacent tables are one table. */
  lemma {:induction false} AdjacentTables(words: seq<nat>, a: Table, b: Table)
    requires InMemory(a, |words|) && InMemory(b, |words|) && b.index == a.index + RECORD_WORDS * a.count
    ensures Records(words, Table(a.index, a.count + b.count)) == Records(words, a) + Records(words, b)
    decreases b.count
  {
    if b.count == 0 {
      assert Records(words, a) + [] == Records(words, a);
    } else {
      AdjacentTables(words, a, Table(b.index, b.count - 1));
      var r := RecordAt(words, b.index + RECORD_WORDS * (b.count - 1));
      assert Records(words, Table(a.index, a.count + b.count))
          == Records(words, Table(a.index, a.count + b.count - 1)) + [r];
      assert Records(words, a) + (Records(words, Table(b.index, b.count - 1)) + [r])
          == Records(words, a) + Records(words, Table(b.index, b.count - 1)) + [r];
    }
  }

  // ----- the code that patches memory in place

  /** `__dlarch_rel`: patches the word of one record. */
  method Rel(mem: array<nat>, env: Env, r: Record)
    requires Supported(env, r, mem.Length)
    modifies mem
    ensures mem[..] == ApplyOne(env, old(mem[..]), r)
  {
    var place: int := Place(env, r);
    var value: int := env.lookup(r.symbol);
    match EffectOf(env.arch, r.kind) {
      case Relative => mem[place / 4] := Mod32(mem[place / 4] + env.base);
      case Replace => mem[place / 4] := Mod32(value);
      case Absolute => mem[place / 4] := Mod32(mem[place / 4] + value);
      case PcRelative => mem[place / 4] := Mod32(mem[place / 4] + value - place);
      case Branch24 =>
        var addend := SignExtend24(mem[place / 4] % 0x100_0000);
        var newvalue: nat := Mod32(value - place + 4 * addend);
        if !Branchable(newvalue) {
          newvalue := Mod32(env.veneer(place, value) - place + 4 * addend);
        }
        mem[place / 4] := mem[place / 4] / 0x100_0000 * 0x100_0000 + newvalue / 4 % 0x100_0000;
      case Nothing =>
    }
  }

  /** Records in a range of `size` bytes; a rest of less than a record counts as one. */
  function TableOf(start: nat, size: nat): Table {
    Table(start / 4, (size + 7) / 8)
  }

  /** A table the walk may use: aligned, in memory, with patches that are modelled and miss the table. */
  predicate Walkable(env: Env, words: seq<nat>, start: nat, size: nat) {
    start % 4 == 0 && InMemory(TableOf(start, size), |words|)
    && AllSupported(env, Records(words, TableOf(start, size)), |words|)
    && Outside(env, Records(words, TableOf(start, size)), TableOf(start, size))
  }

  /**
   `__dldynamic_rel`: reads each record from memory just before it is applied,
   while earlier records have already patched that memory.
  */
  method DynamicRel(mem: array<nat>, env: Env, reladdr: nat, relsize: nat)
    requires Walkable(env, mem[..], reladdr, relsize)
    modifies mem
    ensures mem[..] == ApplyAll(env, old(mem[..]), Records(old(mem[..]), TableOf(reladdr, relsize)))
  {
    ghost var words, t := mem[..], TableOf(reladdr, relsize);
    ghost var records := Records(words, t);
    ghost var i: nat := 0;
    var r := reladdr;
    while r < reladdr + relsize
      invariant i <= t.count && r == reladdr + 8 * i
      invariant AllSupported(env, records[..i], |words|)
      invariant mem[..] == ApplyAll(env, words, records[..i])
    {
      assert i < t.count;
      NextRecord(env, words, mem[..], t, i);
      var index := r / 4;
      assert index == t.index + RECORD_WORDS * i;
      var record := Record(mem[index], mem[index + 1] % 0x100, mem[index + 1] / 0x100);
      assert record == RecordAt(mem[..], index);
      Rel(mem, env, record);
      r, i := r + 8, i + 1;
    }
    assert i == t.count;
    assert records[..i] == records;
  }

  lemma PrefixSupported(env: Env, records: seq<Record>, i: nat, t: Table, size: nat)
    requires i <= |records| && AllSupported(env, records, size) && Outside(env, records, t)
    ensures AllSupported(env, records[..i], size) && Outside(env, records[..i], t)
  {
    assert forall x :: x in records[..i] ==> x in records;
  }

  /** After i records memory still holds record i of the original table, and applying it gives i + 1 records. */
  lemma NextRecord(env: Env, words: seq<nat>, now: seq<nat>, t: Table, i: nat)
    requires InMemory(t, |words|) && i < t.count
    requires AllSupported(env, Records(words, t), |words|) && Outside(env, Records(words, t), t)
    requires AllSupported(env, Records(words, t)[..i], |words|) && now == ApplyAll(env, words, Records(words, t)[..i])
    ensures AllSupported(env, Records(words, t)[..i + 1], |words|)
    ensures RecordAt(now, t.index + RECORD_WORDS * i) == Records(words, t)[i]
    ensures ApplyAll(env, words, Records(words, t)[..i + 1]) == ApplyOne(env, now, Records(words, t)[i])
  {
    var records := Records(words, t);
    PrefixSupported(env, records, i, t, |words|);
    PrefixSupported(env, records, i + 1, t, |words|);
    assert records[..i + 1] == records[..i] + [records[i]];
    ApplyAllAppend(env, words, records[..i], records[i]);
    PassKeepsTable(env, words, records[..i], t);
    RecordsPrefix(now, t, i + 1);
  }

  // ----- choosing the ranges

  /** A dynamic-section entry, when present. */
  datatype Entry = Absent | Present(value: nat)

  const DT_REL := 17

  /** The `l_info` entries the macro reads. */
  datatype Info = Info(rel: Entry, relSize: nat, pltRel: Entry, jmpRel: nat, pltSize: nat)

  /** Where the REL table is; nowhere and empty without the entry. */
  function RelStart(info: Info): nat { if info.rel.Present? then info.rel.value else 0 }
  function RelSize(info: Info): nat { if info.rel.Present? then info.relSize else 0 }

  /** Whether the PLT table is to be walked in this pass. */
  predicate PltWanted(info: Info, testRel: bool) {
    info.pltRel.Present? && (!testRel || info.pltRel.value == DT_REL)
  }

  function PltSize(info: Info, testRel: bool): nat {
    if PltWanted(info, testRel) then info.pltSize else 0
  }

  /** The records of both tables, REL first. */
  function BothTables(words: seq<nat>, info: Info, testRel: bool): seq<Record>
    requires InMemory(TableOf(RelStart(info), RelSize(info)), |words|)
    requires InMemory(TableOf(info.jmpRel, PltSize(info, testRel)), |words|)
  {
    Records(words, TableOf(RelStart(info), RelSize(info)))
        + Records(words, TableOf(info.jmpRel, PltSize(info, testRel)))
  }

  /** The PLT table is walked when there is one, unless its records are to be of REL type and are not. */
  lemma TablesWalked(words: seq<nat>, info: Info, testRel: bool)
    requires InMemory(TableOf(RelStart(info), RelSize(info)), |words|)
    requires InMemory(TableOf(info.jmpRel, info.pltSize), |words|)
    ensures var rel, plt := Records(words, TableOf(RelStart(info), RelSize(info))),
                            Records(words, TableOf(info.jmpRel, info.pltSize));
            var both := BothTables(words, info, testRel);
            (info.pltRel == Present(17) || (info.pltRel.Present? && !testRel) ==> both == rel + plt)
            && (info.pltRel == Absent || (info.pltRel != Present(17) && testRel) ==> both == rel)
  {
  }

  /** Both tables are whole records in memory, together below 2 GiB, and no record aims into either. */
  predicate Relocatable(env: Env, words: seq<nat>, info: Info, testRel: bool) {
    var rel, plt := TableOf(RelStart(info), RelSize(info)), TableOf(info.jmpRel, PltSize(info, testRel));
    RelStart(info) % 4 == 0 && info.jmpRel % 4 == 0
    && RelSize(info) % 8 == 0 && PltSize(info, testRel) % 8 == 0
    && RelSize(info) + PltSize(info, testRel) < 0x8000_0000
    && InMemory(rel, |words|) && InMemory(plt, |words|) && |words| < 0x4000_0000
    && AllSupported(env, BothTables(words, info, testRel), |words|)
    && Outside(env, BothTables(words, info, testRel), rel)
    && Outside(env, BothTables(words, info, testRel), plt)
  }

  /** What two walks need and what they come to. */
  lemma TwoWalks(env: Env, words: seq<nat>, info: Info, testRel: bool)
    requires Relocatable(env, words, info, testRel)
    ensures Walkable(env, words, RelStart(info), RelSize(info))
    ensures var w := ApplyAll(env, words, Records(words, TableOf(RelStart(info), RelSize(info))));
            Walkable(env, w, info.jmpRel, PltSize(info, testRel))
            && AllSupported(env, BothTables(words, info, testRel), |words|)
            && ApplyAll(env, w, Records(w, TableOf(info.jmpRel, PltSize(info, testRel))))
               == ApplyAll(env, words, BothTables(words, info, testRel))
  {
    var rel, plt := TableOf(RelStart(info), RelSize(info)), TableOf(info.jmpRel, PltSize(info, testRel));
    var a, b := Records(words, rel), Records(words, plt);
    assert forall r :: r in a || r in b ==> r in a + b;
    PassKeepsTable(env, words, a, plt);
    ApplyAllConcat(env, words, a, b);
  }

  /** One walk over both tables is what adjacency amounts to. */
  lemma OneWalk(env: Env, words: seq<nat>, info: Info, testRel: bool)
    requires Relocatable(env, words, info, testRel) && PltWanted(info, testRel)
    requires Mod32(RelStart(info) + RelSize(info)) == info.jmpRel
    ensures Walkable(env, words, RelStart(info), RelSize(info) + info.pltSize)
    ensures Records(words, TableOf(RelStart(info), RelSize(info) + info.pltSize)) == BothTables(words, info, testRel)
  {
    var rel, plt := TableOf(RelStart(info), RelSize(info)), TableOf(info.jmpRel, info.pltSize);
    Adjacent(RelStart(info), RelSize(info), info.jmpRel, info.pltSize, |words|);
    AdjacentTables(words, rel, plt);
  }

  /** Address arithmetic behind `OneWalk`. */
  lemma Adjacent(start: nat, size: nat, next: nat, nextSize: nat, length: nat)
    requires start % 4 == 0 && size % 8 == 0 && nextSize % 8 == 0 && length < 0x4000_0000
    requires InMemory(TableOf(start, size), length) && Mod32(start + size) == next
    ensures start + size == next
    ensures TableOf(next, nextSize).index == TableOf(start, size).index + RECORD_WORDS * TableOf(start, size).count
    ensures TableOf(start, size + nextSize)
         == Table(TableOf(start, size).index, TableOf(start, size).count + TableOf(next, nextSize).count)
  {
  }

  /** The PLT table is wanted, and taken to begin where the REL table ends. */
  predicate Joins(info: Info, doLazy: bool, testRel: bool) {
    PltWanted(info, testRel) && !doLazy && Mod32(RelStart(info) + Signed32(RelSize(info))) == info.jmpRel
  }

  function FirstSize(info: Info, doLazy: bool, testRel: bool): int {
    var size := Signed32(RelSize(info));
    if Joins(info, doLazy, testRel) then Signed32(size + info.pltSize) else size
  }

  function SecondSize(info: Info, doLazy: bool, testRel: bool): int {
    if Joins(info, doLazy, testRel) then 0 else Signed32(PltSize(info, testRel))
  }

  /** The two ranges of the macro: the tables apart, or joined in the first range. */
  method ChooseRanges(info: Info, doLazy: bool, testRel: bool)
    returns (start0: nat, size0: int, start1: nat, size1: int)
    ensures start0 == RelStart(info) && size0 == FirstSize(info, doLazy, testRel)
    ensures size1 == SecondSize(info, doLazy, testRel) && (size1 > 0 ==> start1 == info.jmpRel)
  {
    start0, size0, start1, size1 := 0, 0, 0, 0;
    if info.rel.Present? {
      start0, size0 := info.rel.value, Signed32(info.relSize);
    }
    if info.pltRel.Present? && (!testRel || info.pltRel.value == DT_REL) {
      if doLazy || Mod32(start0 + size0) != info.jmpRel {
        start1, size1 := info.jmpRel, Signed32(info.pltSize);
      } else {
        size0 := Signed32(size0 + info.pltSize);
      }
    }
  }

  /** Memory after the guarded walk of one range. */
  function Walked(env: Env, words: seq<nat>, start: nat, size: int): (w: seq<nat>)
    requires size > 0 ==> Walkable(env, words, start, size)
    ensures |w| == |words|
  {
    if size > 0 then ApplyAll(env, words, Records(words, TableOf(start, size))) else words
  }

  lemma NothingWalked(env: Env, words: seq<nat>, start: nat)
    requires InMemory(TableOf(start, 0), |words|)
    ensures Records(words, TableOf(start, 0)) == []
  {
  }

  method WalkRange(mem: array<nat>, env: Env, start: nat, size: int)
    requires size > 0 ==> Walkable(env, mem[..], start, size)
    modifies mem
    ensures mem[..] == Walked(env, old(mem[..]), start, size)
  {
    if size > 0 {
      DynamicRel(mem, env, start, size);
    }
  }

  /** Tables walked apart leave the memory of both tables. */
  lemma ApartMeansBoth(env: Env, words: seq<nat>, info: Info, testRel: bool)
    requires Relocatable(env, words, info, testRel)
    ensures Walkable(env, words, RelStart(info), RelSize(info))
    ensures var w := Walked(env, words, RelStart(info), RelSize(info));
            var plt := PltSize(info, testRel);
            (plt > 0 ==> Walkable(env, w, info.jmpRel, plt))
            && AllSupported(env, BothTables(words, info, testRel), |words|)
            && Walked(env, w, info.jmpRel, plt) == ApplyAll(env, words, BothTables(words, info, testRel))
  {
    TwoWalks(env, words, info, testRel);
    if RelSize(info) == 0 {
      NothingWalked(env, words, RelStart(info));
    }
    if PltSize(info, testRel) == 0 {
      NothingWalked(env, Walked(env, words, RelStart(info), RelSize(info)), info.jmpRel);
    }
  }

  /** So do adjacent tables walked as one. */
  lemma JoinedMeansBoth(env: Env, words: seq<nat>, info: Info, testRel: bool)
    requires Relocatable(env, words, info, testRel) && PltWanted(info, testRel)
    requires Mod32(RelStart(info) + RelSize(info)) == info.jmpRel
    ensures Walkable(env, words, RelStart(info), RelSize(info) + info.pltSize)
    ensures AllSupported(env, BothTables(words, info, testRel), |words|)
    ensures Walked(env, words, RelStart(info), RelSize(info) + info.pltSize)
         == ApplyAll(env, words, BothTables(words, info, testRel))
  {
    OneWalk(env, words, info, testRel);
    if RelSize(info) + info.pltSize == 0 {
      NothingWalked(env, words, RelStart(info));
    }
  }

  /** Both ranges can be walked, the second one in the memory the first one leaves. */
  predicate RangesWalkable(env: Env, words: seq<nat>, info: Info, doLazy: bool, testRel: bool) {
    var size0, size1 := FirstSize(info, doLazy, testRel), SecondSize(info, doLazy, testRel);
    (size0 > 0 ==> Walkable(env, words, RelStart(info), size0))
    && (size1 > 0 ==> Walkable(env, Walked(env, words, RelStart(info), size0), info.jmpRel, size1))
  }

  /** Memory after the walks. */
  function RangesWalked(env: Env, words: seq<nat>, info: Info, doLazy: bool, testRel: bool): seq<nat>
    requires RangesWalkable(env, words, info, doLazy, testRel)
  {
    Walked(env, Walked(env, words, RelStart(info), FirstSize(info, doLazy, testRel)),
           info.jmpRel, SecondSize(info, doLazy, testRel))
  }

  /**
   For tables of whole records that no record aims into, it makes no difference
   whether the ranges were joined: memory ends as if the records of both original
   tables had been applied in turn.
  */
  lemma RangesMeanBoth(env: Env, words: seq<nat>, info: Info, doLazy: bool, testRel: bool)
    requires Relocatable(env, words, info, testRel)
    ensures RangesWalkable(env, words, info, doLazy, testRel)
    ensures AllSupported(env, BothTables(words, info, testRel), |words|)
    ensures RangesWalked(env, words, info, doLazy, testRel) == ApplyAll(env, words, BothTables(words, info, testRel))
  {
    SmallSizes(info, doLazy, testRel);
    if Joins(info, doLazy, testRel) {
      JoinedMeansBoth(env, words, info, testRel);
      RangesFrom(env, words, info, doLazy, testRel, RelSize(info) + info.pltSize, 0);
    } else {
      ApartMeansBoth(env, words, info, testRel);
      RangesFrom(env, words, info, doLazy, testRel, RelSize(info), PltSize(info, testRel));
    }
  }

  /** Sizes together below 2 GiB are kept as they are. */
  lemma SmallSizes(info: Info, doLazy: bool, testRel: bool)
    requires RelSize(info) + PltSize(info, testRel) < 0x8000_0000
    ensures if Joins(info, doLazy, testRel)
            then Mod32(RelStart(info) + RelSize(info)) == info.jmpRel && PltWanted(info, testRel)
                 && FirstSize(info, doLazy, testRel) == RelSize(info) + info.pltSize
                 && SecondSize(info, doLazy, testRel) == 0
            else FirstSize(info, doLazy, testRel) == RelSize(info)
                 && SecondSize(info, doLazy, testRel) == PltSize(info, testRel)
  {
  }

  lemma RangesFrom(env: Env, words: seq<nat>, info: Info, doLazy: bool, testRel: bool, size0: nat, size1: nat)
    requires FirstSize(info, doLazy, testRel) == size0 && SecondSize(info, doLazy, testRel) == size1
    requires size0 > 0 ==> Walkable(env, words, RelStart(info), size0)
    requires size1 > 0 ==> Walkable(env, Walked(env, words, RelStart(info), size0), info.jmpRel, size1)
    ensures RangesWalkable(env, words, info, doLazy, testRel)
    ensures RangesWalked(env, words, info, doLazy, testRel)
         == Walked(env, Walked(env, words, RelStart(info), size0), info.jmpRel, size1)
  {
  }

  /**
   `_ELF_DYNAMIC_DO_RELOC`: one walk when the PLT table directly follows the
   REL table and binding is not lazy, two walks otherwise.
  */
  method DoReloc(mem: array<nat>, env: Env, info: Info, doLazy: bool, testRel: bool)
    requires RangesWalkable(env, mem[..], info, doLazy, testRel)
    modifies mem
    ensures mem[..] == RangesWalked(env, old(mem[..]), info, doLazy, testRel)
    ensures Relocatable(env, old(mem[..]), info, testRel) ==>
              AllSupported(env, BothTables(old(mem[..]), info, testRel), mem.Length)
              && mem[..] == ApplyAll(env, old(mem[..]), BothTables(old(mem[..]), info, testRel))
  {
    var start0, size0, start1, size1 := ChooseRanges(info, doLazy, testRel);
    ghost var whole := Relocatable(env, mem[..], info, testRel);
    if whole {
      RangesMeanBoth(env, mem[..], info, doLazy, testRel);
    }
    WalkRange(mem, env, start0, size0);
    WalkRange(mem, env, start1, size1);
  }
}
