/**
 The DMA half of the bootloader download: `WaitDownload` programs the first two
 transfers, and `IsrDma2` programs each further one while its predecessor runs.
*/
module DmaDownload {
  import opened Words
  import opened Powers

  const CHUNK := 0x8_0000
  const EP3_PKT_SIZE := 64
  const COUNT_FIELD := 0x10_0000

  /** Above the count: handshake, interrupt at the end of a transfer, request 4, hardware requests, autoreload. */
  const MODE_BITS := 0xA48

  /** One transfer: where it starts and how many bytes it moves. */
  datatype Segment = Segment(dst: nat, count: nat)

  function Address(address: nat, offset: int): (a: nat)
    ensures a < WORD
  {
    (address + offset) % WORD
  }

  /** The first transfer and the first reload; nothing when the first packet was all. */
  function StartSegments(address: nat, size: nat): seq<Segment> {
    if size <= EP3_PKT_SIZE then []
    else if size <= CHUNK then
      [Segment(Address(address, EP3_PKT_SIZE - 8), size - EP3_PKT_SIZE),
          Segment(Address(address, size - EP3_PKT_SIZE), 0)]
    else
      [Segment(Address(address, EP3_PKT_SIZE - 8), CHUNK - EP3_PKT_SIZE),
       Segment(Address(address, CHUNK - 8), if size > 2 * CHUNK then CHUNK else size - CHUNK)]
  }

  /** The reload an interrupt programs when `total` bytes are accounted for. */
  function Reload(address: nat, size: nat, total: nat): Segment
    requires total < size
  {
    if total + CHUNK < size then
      var next := total + CHUNK;
      Segment(Address(address, next - 8), if next + CHUNK < size then CHUNK else size - next)
    else Segment(Address(address, size - 8), 0)
  }

  /** Everything programmed by start-up and the first k interrupts, in order. */
  function Programmed(address: nat, size: nat, k: nat): seq<Segment> {
    if k == 0 then StartSegments(address, size)
    else Programmed(address, size, k - 1) + (if k * CHUNK >= size then [] else [Reload(address, size, k * CHUNK)])
  }

  function Total(size: nat, k: nat): nat {
    if size <= EP3_PKT_SIZE || k * CHUNK >= size then size else k * CHUNK
  }

  /** `totalDmaCount` after k interrupts, in the 32-bit arithmetic of the handler. */
  function CodeTotal(size: nat, k: nat): nat {
    if size <= EP3_PKT_SIZE then size
    else if k == 0 then 0
    else
      var t := CodeTotal(size, k - 1);
      if t >= size || Mod32(t + CHUNK) >= size then size else Mod32(t + CHUNK)
  }

  /** Sizes for which the handler's sums do not wrap around. */
  predicate NoWrap(size: nat) {
    size + CHUNK <= WORD
  }

  lemma {:induction false} CodeTotalNoWrap(size: nat, k: nat)
    requires NoWrap(size)
    ensures CodeTotal(size, k) == Total(size, k)
  {
    if k > 0 {
      CodeTotalNoWrap(size, k - 1);
    }
  }

  /** With a size above that, the count goes back to 0 before it can reach the size. */
  lemma {:induction false} CodeTotalWraps(size: nat, k: nat)
    requires size < WORD && !NoWrap(size)
    ensures CodeTotal(size, k) < size && CodeTotal(size, k) % CHUNK == 0
  {
    if k > 0 {
      CodeTotalWraps(size, k - 1);
      NextMultiple(CodeTotal(size, k - 1), size);
    }
  }

  lemma NextMultiple(t: nat, size: nat)
    requires t < size < WORD && t % CHUNK == 0 && !NoWrap(size)
    ensures Mod32(t + CHUNK) < size && Mod32(t + CHUNK) % CHUNK == 0
  {
    var q := t / CHUNK;
    assert t == q * CHUNK && q < 0x2000;
    if q + 1 == 0x2000 {
      assert t + CHUNK == WORD;
    } else {
      SmallQuotient(t + CHUNK, WORD);
      SplitQuotient(q + 1, CHUNK, 0);
    }
  }

  /** The download ends if and only if its size leaves room for one more segment below 2^32. */
  lemma DownloadEndsIff(size: nat)
    requires 0 < size < WORD
    ensures (exists k :: CodeTotal(size, k) == size) <==> NoWrap(size)
  {
    if NoWrap(size) {
      CodeTotalNoWrap(size, size);
      MulMonotone(1, CHUNK, size);
      assert CodeTotal(size, size) == size;
    } else {
      forall k ensures CodeTotal(size, k) != size {
        CodeTotalWraps(size, k);
      }
    }
  }

  /** `Reload` in the 32-bit arithmetic of the handler. */
  function CodeReload(address: nat, size: nat, total: nat): (r: Segment)
    requires total < size < WORD && CHUNK < size
    ensures r.count <= CHUNK
    ensures NoWrap(size) ==> r == Reload(address, size, total)
  {
    var next := Mod32(total + CHUNK);
    if next < size then
      Segment(Address(address, next - 8), if Mod32(next + CHUNK) < size then CHUNK else size - next)
    else Segment(Address(address, size - 8), 0)
  }

  lemma ProgrammedNext(address: nat, size: nat, k: nat)
    requires NoWrap(size) && EP3_PKT_SIZE < size && CodeTotal(size, k) < size
    ensures Programmed(address, size, k + 1)
         == Programmed(address, size, k)
            + if CodeTotal(size, k + 1) == size then [] else [Reload(address, size, CodeTotal(size, k + 1))]
    ensures CodeTotal(size, k + 1) == Total(size, k + 1) <= size
  {
    CodeTotalNoWrap(size, k);
    CodeTotalNoWrap(size, k + 1);
  }

  class Downloader {
    var address: nat
    var size: nat
    /** `totalDmaCount`. */
    var total: nat
    /** The DMA destination and control registers; the low 20 bits of the latter are the count. */
    var dst: nat
    var con: nat
    /** Whether endpoint 3 is back in interrupt mode. */
    var interruptMode: bool
    ghost var interrupts: nat
    ghost var log: seq<Segment>

    ghost predicate Valid()
      reads this
    {
      0 < size < WORD && address < WORD && total == CodeTotal(size, interrupts)
      && (NoWrap(size) ==> log == Programmed(address, size, interrupts) && total == Total(size, interrupts))
      && (interruptMode <==> total == size && interrupts > 0)
    }

    /** Replaces the count field and keeps the mode bits. */
    method Program(d: nat, count: nat)
      requires count < COUNT_FIELD
      modifies this`dst, this`con, this`log
      ensures dst == d && con % COUNT_FIELD == count && con / COUNT_FIELD == old(con) / COUNT_FIELD
      ensures log == old(log) + [Segment(d, count)]
    {
      dst := d;
      con := con - con % COUNT_FIELD + count;
      log := log + [Segment(d, count)];
    }

    /** `ConfigEp3DmaMode`: the count is cut to its field before it is stored. */
    method ConfigDmaMode(d: nat, count: nat)
      modifies this`dst, this`con, this`log
      ensures dst == d && con % COUNT_FIELD == count % COUNT_FIELD && con / COUNT_FIELD == MODE_BITS
      ensures log == old(log) + [Segment(d, count % COUNT_FIELD)]
    {
      dst := d;
      con := MODE_BITS * COUNT_FIELD + count % COUNT_FIELD;
      log := log + [Segment(d, count % COUNT_FIELD)];
    }

    constructor Start(address: nat, size: nat)
      requires 0 < size < WORD && address < WORD
      ensures Valid() && interrupts == 0 && this.size == size && this.address == address
    {
      this.address, this.size, this.total := address, size, if size > EP3_PKT_SIZE then 0 else size;
      dst, con, interruptMode := 0, 0, false;
      interrupts, log := 0, [];
      new;
      if size <= EP3_PKT_SIZE {
        return;
      } else if size <= CHUNK {
        ConfigDmaMode(Address(address, EP3_PKT_SIZE - 8), size - EP3_PKT_SIZE);
        Program(Address(address, size - EP3_PKT_SIZE), 0);
      } else {
        ConfigDmaMode(Address(address, EP3_PKT_SIZE - 8), CHUNK - EP3_PKT_SIZE);
        if size > CHUNK * 2 {
          Program(Address(address, CHUNK - 8), CHUNK);
        } else {
          Program(Address(address, CHUNK - 8), size - CHUNK);
        }
      }
    }

    /** `IsrDma2`. */
    method Interrupt()
      requires Valid() && total < size
      modifies this
      ensures Valid() && interrupts == old(interrupts) + 1 && size == old(size) && address == old(address)
    {
      ghost var exact := NoWrap(size);
      if exact {
        ProgrammedNext(address, size, interrupts);
      }
      interrupts := interrupts + 1;
      total := Mod32(total + CHUNK);
      if total >= size {
        total := size;
        interruptMode := true;
      } else {
        ProgramReload();
      }
    }

    /** The segment after the one that now runs. */
    method ProgramReload()
      requires total < size < WORD && CHUNK < size
      modifies this`dst, this`con, this`log
      ensures log == old(log) + [CodeReload(address, size, total)]
    {
      if Mod32(total + CHUNK) < size {
        var next := Mod32(total + CHUNK);
        if Mod32(next + CHUNK) < size {
          Program(Address(address, next - 8), CHUNK);
        } else {
          Program(Address(address, next - 8), size - next);
        }
      } else {
        Program(Address(address, size - 8), 0);
      }
    }
  }

  /** The polling loop with the interrupts that end it: `rounds` of them are taken. */
  method Download(address: nat, size: nat) returns (d: Downloader, rounds: nat)
    requires 0 < size && NoWrap(size) && address < WORD
    ensures d.Valid() && d.size == size && d.address == address && d.total == size
    ensures rounds == d.interrupts == if size <= EP3_PKT_SIZE then 0 else (size + CHUNK - 1) / CHUNK
    ensures d.interruptMode <==> size > EP3_PKT_SIZE
  {
    d := new Downloader.Start(address, size);
    rounds := 0;
    while d.total < size
      invariant d.Valid() && d.size == size && d.address == address && fresh(d) && rounds == d.interrupts
      invariant rounds > 0 ==> EP3_PKT_SIZE < size && (rounds - 1) * CHUNK < size
      decreases size + CHUNK - rounds * CHUNK
    {
      d.Interrupt();
      rounds := rounds + 1;
    }
  }

  // ----- what the transfers cover

  /** n consecutive addresses. */
  function Range(first: nat, n: nat): (r: seq<nat>)
    ensures |r| == n && forall i :: 0 <= i < n ==> r[i] == first + i
  {
    seq(n, i requires 0 <= i < n => first + i)
  }

  /** The address of every byte moved, in the order the bytes arrive. */
  function Addresses(segments: seq<Segment>): seq<nat> {
    if segments == [] then []
    else Addresses(segments[..|segments| - 1]) + Range(segments[|segments| - 1].dst, segments[|segments| - 1].count)
  }

  lemma AddressesAppend(segments: seq<Segment>, s: Segment)
    ensures Addresses(segments + [s]) == Addresses(segments) + Range(s.dst, s.count)
  {
    assert (segments + [s])[..|segments|] == segments;
  }

  function Covered(size: nat, k: nat): nat {
    if (k + 2) * CHUNK < size then (k + 2) * CHUNK else size
  }

  lemma TwoSegments(s: Segment, t: Segment)
    ensures Addresses([s, t]) == Range(s.dst, s.count) + Range(t.dst, t.count)
  {
    AddressesAppend([], s);
    AddressesAppend([s], t);
    assert [] + [s] == [s] && [s] + [t] == [s, t];
  }

  lemma AddressNoWrap(address: nat, offset: nat)
    requires address + offset < WORD
    ensures Address(address, offset) == address + offset
  {
    SmallQuotient(address + offset, WORD);
  }

  lemma StartCovers(address: nat, size: nat)
    requires EP3_PKT_SIZE < size && address + size <= WORD
    ensures Addresses(StartSegments(address, size)) == Range(address + 56, Covered(size, 0) - 64)
  {
    AddressNoWrap(address, 56);
    if size <= CHUNK {
      TwoSegments(Segment(address + 56, size - 64), Segment(Address(address, size - 64), 0));
    } else {
      var more := if size > 2 * CHUNK then CHUNK else size - CHUNK;
      AddressNoWrap(address, CHUNK - 8);
      TwoSegments(Segment(address + 56, CHUNK - 64), Segment(address + (CHUNK - 8), more));
      RangeAppend(address + 56, CHUNK - 64, more);
    }
  }

  lemma RangeAppend(first: nat, m: nat, n: nat)
    ensures Range(first, m) + Range(first + m, n) == Range(first, m + n)
  {
  }

  lemma ReloadExtends(address: nat, size: nat, k: nat)
    requires EP3_PKT_SIZE < size && address + size <= WORD && 0 < k && k * CHUNK < size
    ensures var r := Reload(address, size, k * CHUNK);
            Range(address + 56, Covered(size, k - 1) - 64) + Range(r.dst, r.count)
                == Range(address + 56, Covered(size, k) - 64)
  {
    var r := Reload(address, size, k * CHUNK);
    assert r.dst == address + Covered(size, k - 1) - 8 && r.count == Covered(size, k) - Covered(size, k - 1);
    RangeAppend(address + 56, Covered(size, k - 1) - 64, r.count);
  }

  /** After k interrupts the transfers programmed so far run without gap or overlap from byte 56 of the image on. */
  lemma {:induction false} SegmentsTile(address: nat, size: nat, k: nat)
    requires EP3_PKT_SIZE < size && address + size <= WORD
    ensures Addresses(Programmed(address, size, k)) == Range(address + 56, Covered(size, k) - 64)
  {
    if k == 0 {
      StartCovers(address, size);
    } else {
      SegmentsTile(address, size, k - 1);
      if k * CHUNK < size {
        AddressesAppend(Programmed(address, size, k - 1), Reload(address, size, k * CHUNK));
        ReloadExtends(address, size, k);
      } else {
        assert Programmed(address, size, k) == Programmed(address, size, k - 1);
      }
    }
  }

  /**
   When the download ends, the i-th byte after the first packet has gone to
   byte 56 + i of the image, for every byte up to size - 8 and no other.
  */
  lemma DownloadCovers(address: nat, size: nat, k: nat)
    requires EP3_PKT_SIZE < size && address + size <= WORD && Total(size, k) == size
    ensures Addresses(Programmed(address, size, k)) == Range(address + 56, size - 64)
  {
    SegmentsTile(address, size, k);
  }

  /** Every count fits the 20-bit field. */
  lemma {:induction false} CountsFit(address: nat, size: nat, k: nat)
    requires EP3_PKT_SIZE < size
    ensures forall s :: s in Programmed(address, size, k) ==> s.count <= CHUNK < COUNT_FIELD
  {
    if k > 0 {
      CountsFit(address, size, k - 1);
    }
  }

  /** Until the last interrupt there is always one transfer programmed beyond the running one. */
  lemma {:induction false} OneAhead(address: nat, size: nat, k: nat)
    requires EP3_PKT_SIZE < size && k * CHUNK < size
    ensures |Programmed(address, size, k)| == k + 2
  {
    if k > 0 {
      OneAhead(address, size, k - 1);
    }
  }
}
