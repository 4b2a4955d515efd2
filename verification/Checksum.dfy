/**
 Receiving the image and checking it: the byte-by-byte path that sums while it
 reads the FIFO, and the path that sums the finished image word by word.
*/
module Checksum {
  import opened Words
  import opened Packets

  const SUM := 0x1_0000

  /** A byte promoted to int. */
  function Int(b: byte): int { b }

  /** The 16-bit trailer, low byte first. */
  function Trailer(image: seq<byte>, size: nat): nat
    requires 10 <= size <= |image| + 8
  {
    Int(image[size - 10]) + 0x100 * Int(image[size - 9])
  }

  /** Sum of bytes, unbounded. */
  function ByteSum(s: seq<byte>): nat {
    if s == [] then 0 else ByteSum(s[..|s| - 1]) + s[|s| - 1]
  }

  lemma {:induction false} ByteSumAppend(s: seq<byte>, t: seq<byte>)
    ensures ByteSum(s + t) == ByteSum(s) + ByteSum(t)
    decreases |t|
  {
    if t == [] {
      assert s + t == s;
    } else {
      var t' := t[..|t| - 1];
      ByteSumAppend(s, t');
      assert (s + t)[..|s + t| - 1] == s + t';
    }
  }

  class Receiver {
    /** Memory from the download address on, and the running 16-bit sum. */
    var image: seq<byte>
    var checkSum: nat

    ghost predicate Valid()
      reads this
    {
      checkSum == ByteSum(image) % SUM
    }

    constructor ()
      ensures Valid() && image == []
    {
      image, checkSum := [], 0;
    }

    /** `RdPktEp3_CheckSum` and the receive loop: each FIFO byte is stored and added. */
    method ReadPacket(fifo: seq<byte>)
      requires Valid()
      modifies this
      ensures Valid() && image == old(image) + fifo
    {
      var i := 0;
      while i < |fifo|
        invariant 0 <= i <= |fifo| && image == old(image) + fifo[..i]
        invariant Valid()
      {
        ghost var before := image;
        image := image + [fifo[i]];
        checkSum := (checkSum + fifo[i]) % SUM;
        assert image[..|image| - 1] == before;
        ReducedStep(ByteSum(before), fifo[i]);
        i := i + 1;
      }
    }

    /** Packets until the image has its size - 8 bytes; `first` is what the first packet held after the 8-byte head. */
    method Receive(first: seq<byte>, packets: seq<seq<byte>>, size: nat) returns (used: nat)
      requires Valid() && image == []
      requires |first| + |Joined(packets)| >= size - 8
      modifies this
      ensures Valid() && used <= |packets| && image == first + Joined(packets[..used]) && |image| >= size - 8
      ensures forall u :: 0 <= u < used ==> |first + Joined(packets[..u])| < size - 8
    {
      ReadPacket(first);
      used := 0;
      while |image| < size - 8
        invariant Valid() && used <= |packets| && image == first + Joined(packets[..used])
        invariant forall u :: 0 <= u < used ==> |first + Joined(packets[..u])| < size - 8
        decreases |packets| - used
      {
        WholePrefix(packets, used);
        assert packets[..used + 1][..used] == packets[..used];
        ReadPacket(packets[used]);
        used := used + 1;
      }
    }

    /** The byte path: the sum includes the two trailer bytes, which are taken off again in 16-bit arithmetic. */
    method CheckRunningSum(size: nat) returns (ok: bool)
      requires Valid() && size >= 10 && |image| == size - 8
      modifies this`checkSum
      ensures ok == Accepted(image, size) && checkSum == DataSum(image, size)
    {
      TrailerOff(image, size);
      checkSum := (checkSum - image[size - 10] - image[size - 9]) % SUM;
      ok := checkSum == Trailer(image, size);
    }
  }

  /** Sum of the size - 10 data bytes, which both paths must arrive at. */
  function DataSum(image: seq<byte>, size: nat): nat
    requires 10 <= size <= |image| + 8
  {
    ByteSum(image[..size - 10]) % SUM
  }

  /** The trailer holds that sum, low byte first. */
  predicate Accepted(image: seq<byte>, size: nat)
    requires 10 <= size <= |image| + 8
  {
    DataSum(image, size) == Trailer(image, size)
  }

  /** Data with two bytes behind it is accepted when these are its sum, the low byte first. */
  lemma TrailerDecides(data: seq<byte>, low: byte, high: byte)
    ensures Accepted(data + [low, high], |data| + 10) <==> Int(low) + 256 * Int(high) == ByteSum(data) % 65536
  {
    assert (data + [low, high])[..|data|] == data;
  }

  lemma TrailerOff(image: seq<byte>, size: nat)
    requires size >= 10 && |image| == size - 8
    ensures (ByteSum(image) % SUM - image[size - 10] - image[size - 9]) % SUM == DataSum(image, size)
  {
    var data := image[..size - 10];
    assert image[..|image| - 1] == data + [image[size - 10]];
    assert (data + [image[size - 10]])[..|data|] == data;
    ReducedDifference(ByteSum(image), Int(image[size - 10]) + Int(image[size - 9]));
  }

  lemma ReducedDifference(n: nat, d: nat)
    ensures (n % SUM - d) % SUM == (n - d) % SUM
  {
  }

  /** A little-endian word of memory. */
  function WordAt(image: seq<byte>, k: nat): nat
    requires k + 4 <= |image|
  {
    Int(image[k]) + 0x100 * Int(image[k + 1]) + 0x1_0000 * Int(image[k + 2]) + 0x100_0000 * Int(image[k + 3])
  }

  lemma WordBytes(image: seq<byte>, k: nat)
    requires k + 4 <= |image|
    ensures var w := WordAt(image, k);
            w % 0x100 == image[k] && w / 0x100 % 0x100 == image[k + 1]
            && w / 0x1_0000 % 0x100 == image[k + 2] && w / 0x100_0000 % 0x100 == image[k + 3]
  {
    var d := Int(image[k + 3]);
    var c := Int(image[k + 2]) + 0x100 * d;
    var b := Int(image[k + 1]) + 0x100 * c;
    LowByte(Int(image[k]), b);
    LowByte(Int(image[k + 1]), c);
    LowByte(Int(image[k + 2]), d);
    LowByte(Int(image[k + 3]), 0);
    ShiftTwice(Int(image[k]) + 0x100 * b);
  }

  lemma LowByte(r: nat, q: nat)
    requires r < 0x100
    ensures (r + 0x100 * q) % 0x100 == r && (r + 0x100 * q) / 0x100 == q
  {
  }

  lemma ShiftTwice(w: nat)
    ensures w / 0x1_0000 == w / 0x100 / 0x100 && w / 0x100_0000 == w / 0x100 / 0x100 / 0x100
  {
  }

  /** The four additions of one turn of the word loop. */
  function AddWord(cs: nat, temp: nat): nat {
    ((((cs + temp % 0x100) % SUM + temp / 0x100 % 0x100) % SUM + temp / 0x1_0000 % 0x100) % SUM
        + temp / 0x100_0000 % 0x100) % SUM
  }

  lemma AddWordSums(image: seq<byte>, k: nat)
    requires k + 4 <= |image|
    ensures AddWord(ByteSum(image[..k]) % SUM, WordAt(image, k)) == ByteSum(image[..k + 4]) % SUM
  {
    WordBytes(image, k);
    FourMore(image, k);
  }

  /**
   The word path over a finished image: whole words up to the last word
   boundary, then the remaining bytes, in 16-bit arithmetic.
  */
  method SumByWords(image: seq<byte>, address: nat, size: nat) returns (cs: nat)
    requires 10 <= size <= |image| + 8 && address % 4 == 0 && address + size < WORD
    ensures cs == DataSum(image, size)
  {
    var j := (address + size - 10) / 4 * 4;
    cs := SumWholeWords(image, address, j);
    var i := j;
    j := address + size - 10;
    while i < j
      invariant address <= i <= j
      invariant cs == ByteSum(image[..i - address]) % SUM
    {
      OneMore(image, i - address);
      cs := (cs + image[i - address]) % SUM;
      i := i + 1;
    }
  }

  method SumWholeWords(image: seq<byte>, address: nat, j: nat) returns (cs: nat)
    requires address % 4 == 0 && j % 4 == 0 && address <= j <= address + |image|
    ensures cs == ByteSum(image[..j - address]) % SUM
  {
    cs := 0;
    var i := address;
    while i < j
      invariant address <= i <= j && i % 4 == 0
      invariant cs == ByteSum(image[..i - address]) % SUM
    {
      WordsFit(i, j);
      var temp := WordAt(image, i - address);
      AddWordSums(image, i - address);
      cs := AddBytes(cs, temp);
      i := i + 4;
    }
  }

  lemma WordsFit(i: nat, j: nat)
    requires i % 4 == 0 && j % 4 == 0 && i < j
    ensures i + 4 <= j && (i + 4) % 4 == 0
  {
  }

  /** The four byte additions of one turn. */
  method AddBytes(sum: nat, temp: nat) returns (cs: nat)
    ensures cs == AddWord(sum, temp)
  {
    cs := (sum + temp % 0x100) % SUM;
    cs := (cs + temp / 0x100 % 0x100) % SUM;
    cs := (cs + temp / 0x1_0000 % 0x100) % SUM;
    cs := (cs + temp / 0x100_0000 % 0x100) % SUM;
  }

  lemma OneMore(image: seq<byte>, k: nat)
    requires k < |image|
    ensures ByteSum(image[..k + 1]) == ByteSum(image[..k]) + image[k]
    ensures ByteSum(image[..k + 1]) % SUM == (ByteSum(image[..k]) % SUM + image[k]) % SUM
  {
    assert image[..k + 1][..k] == image[..k];
    ReducedStep(ByteSum(image[..k]), image[k]);
  }

  lemma FourMore(image: seq<byte>, k: nat)
    requires k + 4 <= |image|
    ensures var s := ByteSum(image[..k]) % SUM;
            ByteSum(image[..k + 4]) % SUM
            == ((((s + image[k]) % SUM + image[k + 1]) % SUM + image[k + 2]) % SUM + image[k + 3]) % SUM
  {
    OneMore(image, k);
    OneMore(image, k + 1);
    OneMore(image, k + 2);
    OneMore(image, k + 3);
  }

  method CheckByWords(image: seq<byte>, address: nat, size: nat) returns (ok: bool)
    requires 10 <= size <= |image| + 8 && address % 4 == 0 && address + size < WORD
    ensures ok == Accepted(image, size)
  {
    var cs := SumByWords(image, address, size);
    ok := cs == Trailer(image, size);
  }

  /**
   The two paths accept the same images: however the payload is split into
   packets, the byte path over the packets and the word path over the image
   they add up to give one verdict, and it is whether the trailer holds the sum.
  */
  method PathsAgree(first: seq<byte>, packets: seq<seq<byte>>, address: nat, size: nat)
      returns (bytes: bool, words: bool)
    requires size >= 10 && |first + Joined(packets)| == size - 8 && address % 4 == 0 && address + size < WORD
    ensures bytes == words == Accepted(first + Joined(packets), size)
  {
    var r := new Receiver();
    var used := r.Receive(first, packets, size);
    PrefixOfJoined(packets, used);
    assert r.image == first + Joined(packets);
    bytes := r.CheckRunningSum(size);
    words := CheckByWords(r.image, address, size);
  }

  lemma {:induction false} PrefixOfJoined(packets: seq<seq<byte>>, used: nat)
    requires used <= |packets|
    ensures Joined(packets[..used]) <= Joined(packets)
    decreases |packets|
  {
    if used == |packets| {
      assert packets[..used] == packets;
    } else {
      var p := packets[..|packets| - 1];
      PrefixOfJoined(p, used);
      assert p[..used] == packets[..used];
    }
  }

  /** Changing a single data byte is always noticed: the sums differ by less than 256. */
  lemma SingleByteDetected(image: seq<byte>, size: nat, k: nat, b: byte)
    requires 10 <= size <= |image| + 8 && k < size - 10 && b != image[k] && Accepted(image, size)
    ensures !Accepted(image[k := b], size)
  {
    var data := image[..size - 10];
    var changed := image[k := b];
    assert data == data[..k] + ([data[k]] + data[k + 1..]);
    assert changed[..size - 10] == data[..k] + ([b] + data[k + 1..]);
    ByteSumAppend(data[..k], [data[k]] + data[k + 1..]);
    ByteSumAppend(data[..k], [b] + data[k + 1..]);
    ByteSumAppend([data[k]], data[k + 1..]);
    ByteSumAppend([b], data[k + 1..]);
    assert ByteSum([b]) == b && ByteSum([data[k]]) == data[k];
    DifferentResidues(ByteSum(data), ByteSum(changed[..size - 10]));
  }

  lemma DifferentResidues(m: nat, n: nat)
    requires m != n && -256 < m - n < 256
    ensures m % SUM != n % SUM
  {
  }

  lemma WholePrefix(packets: seq<seq<byte>>, used: nat)
    requires used <= |packets|
    ensures used == |packets| ==> packets[..used] == packets
  {
  }

  lemma ReducedStep(n: nat, b: nat)
    ensures (n % SUM + b) % SUM == (n + b) % SUM
  {
  }
}
