/** Packets on the bus, and what they add up to. */
module Packets {
  import opened Words

  /** All the bytes of the packets, in order. */
  function Joined(packets: seq<seq<byte>>): seq<byte> {
    if packets == [] then [] else Joined(packets[..|packets| - 1]) + packets[|packets| - 1]
  }

  lemma JoinedAppend(packets: seq<seq<byte>>, p: seq<byte>)
    ensures Joined(packets + [p]) == Joined(packets) + p
  {
    assert (packets + [p])[..|packets|] == packets;
  }
}
