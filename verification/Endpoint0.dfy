/** The control endpoint: `Ep0Handler` decodes a setup packet and feeds the answer out in packets of eight bytes. */
module Endpoint0 {
  import opened Words
  import opened Packets

  const PKT := 8

  // Standard request codes and descriptor types.
  const GET_STATUS := 0
  const CLEAR_FEATURE := 1
  const SET_FEATURE := 3
  const SET_ADDRESS := 5
  const GET_DESCRIPTOR := 6
  const GET_CONFIGURATION := 8
  const SET_CONFIGURATION := 9
  const GET_INTERFACE := 10
  const SET_INTERFACE := 11
  const SYNCH_FRAME := 12
  const DEVICE_TYPE := 1
  const CONFIGURATION_TYPE := 2
  const STRING_TYPE := 3
  const INTERFACE_TYPE := 4
  const ENDPOINT_TYPE := 5

  /** `ep0State`; the index is the packet number, or which string or status byte. */
  datatype State =
    | Init
    | Device(k: nat)
    | Config(k: nat)
    | ConfigOnly(k: nat)
    | InterfaceOnly(k: nat)
    | EndpointOnly(k: nat)
    | Text(k: nat)
    | InterfaceGet
    | ConfigSet
    | Status(k: nat)

  /** The flags of EP0_CSR the handler looks at. */
  datatype Csr = Csr(outReady: bool, setupEnd: bool, sentStall: bool)

  /** What it writes back to EP0_CSR. */
  datatype Command = ClearSetupEnd | ClearSentStall | ServicedOut | ServicedOutDataEnd | InReady | InReadyDataEnd

  datatype Setup = Setup(requestType: byte, request: byte, valueL: byte, valueH: byte,
                         indexL: byte, indexH: byte, lengthL: byte, lengthH: byte)

  function SetupOf(fifo: seq<byte>): Setup
    requires |fifo| == 8
  {
    Setup(fifo[0], fifo[1], fifo[2], fifo[3], fifo[4], fifo[5], fifo[6], fifo[7])
  }

  predicate IsEndpoint0(indexL: byte) { indexL % 0x80 == 0 }
  predicate IsEndpoint1In(indexL: byte) { indexL >= 0x80 && indexL % 0x10 == 1 }
  predicate IsEndpoint3Out(indexL: byte) { indexL < 0x80 && indexL % 0x10 == 3 }

  /** The data state a setup packet selects, or Init when the request has no data stage. */
  function Selected(s: Setup): State {
    if s.request == GET_DESCRIPTOR then
      if s.valueH == DEVICE_TYPE then Device(0)
      else if s.valueH == CONFIGURATION_TYPE then
        if s.lengthL + 0x100 * (s.lengthH as int) > 9 then Config(0) else ConfigOnly(0)
      else if s.valueH == STRING_TYPE then (if s.valueL <= 2 then Text(s.valueL) else Init)
      else if s.valueH == INTERFACE_TYPE then InterfaceOnly(0)
      else if s.valueH == ENDPOINT_TYPE then (if s.valueL % 0x10 <= 1 then EndpointOnly(s.valueL % 0x10) else Init)
      else Init
    else if s.request == GET_CONFIGURATION then ConfigSet
    else if s.request == GET_INTERFACE then InterfaceGet
    else if s.request == GET_STATUS then
      if s.requestType == 0x80 then Status(0)
      else if s.requestType == 0x81 then Status(1)
      else if s.requestType == 0x82 then
        if IsEndpoint3Out(s.indexL) then Status(4)
        else if IsEndpoint1In(s.indexL) then Status(3)
        else if IsEndpoint0(s.indexL) then Status(2)
        else Init
      else Init
    else Init
  }

  /** Setup packets the handler does not acknowledge at all. */
  predicate Unanswered(s: Setup) {
    || s.request == SYNCH_FRAME
    || (s.request == GET_DESCRIPTOR && !(DEVICE_TYPE <= s.valueH <= ENDPOINT_TYPE))
    || (s.request == GET_STATUS && !(0x80 <= s.requestType <= 0x82))
  }

  /**
   What a setup packet is acknowledged with: a request that asks for data is
   taken from the FIFO, even when what it asks for does not exist; one that does
   not is taken and finished.
  */
  predicate Acknowledged(s: Setup, commands: seq<Command>) {
    if Unanswered(s) then commands == []
    else if s.request in {GET_DESCRIPTOR, GET_CONFIGURATION, GET_INTERFACE, GET_STATUS} then commands == [ServicedOut]
    else commands == [ServicedOutDataEnd]
  }

  // ----- what a host may expect, from the requests it has sent

  /** Whether a request names endpoint 0, endpoint 1 IN or endpoint 3 OUT. */
  predicate Names(indexL: byte, endpoint: nat) {
    (endpoint == 0 && IsEndpoint0(indexL)) || (endpoint == 1 && IsEndpoint1In(indexL))
    || (endpoint == 3 && IsEndpoint3Out(indexL))
  }

  /** The endpoint's feature as the last SET_FEATURE or CLEAR_FEATURE left it. */
  function Halted(history: seq<Setup>, endpoint: nat): byte {
    if history == [] then 0
    else
      var s := history[|history| - 1];
      if (s.request == 3 || s.request == 1) && s.requestType == 2 && s.valueL == 0 && Names(s.indexL, endpoint)
      then (if s.request == 3 then 1 else 0)
      else Halted(history[..|history| - 1], endpoint)
  }

  /** Remote wake-up as the last SET_FEATURE or CLEAR_FEATURE left it. */
  function Wakeup(history: seq<Setup>): bool {
    if history == [] then false
    else
      var s := history[|history| - 1];
      if (s.request == 3 || s.request == 1) && s.requestType == 0 && s.valueL == 1 then s.request == 3
      else Wakeup(history[..|history| - 1])
  }

  /** The value the last request with a given code carried, 0 without one. */
  function LastValue(history: seq<Setup>, request: nat): byte {
    if history == [] then 0
    else if history[|history| - 1].request == request then history[|history| - 1].valueL
    else LastValue(history[..|history| - 1], request)
  }

  /** The requests that have an answer, by their bytes. */
  predicate Answerable(s: Setup) {
    || (s.request == 6 && (s.valueH in {1, 2, 4} || (s.valueH == 3 && s.valueL < 3)
                           || (s.valueH == 5 && s.valueL % 16 < 2)))
    || s.request == 8 || s.request == 10
    || (s.request == 0 && (s.requestType in {0x80, 0x81}
                           || (s.requestType == 0x82 && exists e :: e in {0, 1, 3} && Names(s.indexL, e))))
  }

  /** A descriptor of the requested type and of its own length; the joined configuration has its total length. */
  predicate IsDescriptor(s: Setup, answer: seq<byte>) {
    |answer| >= 4 && answer[1] == s.valueH
    && if s.valueH == 2 && s.lengthL + 0x100 * (s.lengthH as int) > 9
       then answer[0] == 9 && |answer| == answer[2] + 0x100 * (answer[3] as int)
       else |answer| == answer[0]
  }

  /** The endpoint descriptors describe endpoint 1 IN and endpoint 3 OUT, in that order. */
  predicate OfIndex(s: Setup, answer: seq<byte>) {
    s.valueH == 5 ==> |answer| >= 3 && answer[2] == if s.valueL % 16 == 0 then 0x81 else 0x03
  }

  /** The answer to a request other than GET_DESCRIPTOR, after the requests in `history`. */
  predicate IsCurrent(s: Setup, history: seq<Setup>, selfPowered: bool, answer: seq<byte>) {
    && (s.request == 8 ==> answer == [LastValue(history, 9)])
    && (s.request == 10 ==> answer == [LastValue(history, 11)])
    && (s.request == 0 && s.requestType == 0x80 ==>
          |answer| == 1 && (answer[0] % 2 == 1 <==> selfPowered) && (answer[0] / 2 == 1 <==> Wakeup(history))
          && answer[0] < 4)
    && (s.request == 0 && s.requestType == 0x81 ==> answer == [0])
    && (s.request == 0 && s.requestType == 0x82 ==>
          forall e :: e in {0, 1, 3} && Names(s.indexL, e) ==> answer == [Halted(history, e)])
  }

  /** Endpoint addresses name at most one endpoint, whatever bits 4 to 6 hold. */
  lemma EndpointAddresses(indexL: byte)
    ensures Names(indexL, 0) <==> indexL in {0x00, 0x80}
    ensures Names(indexL, 1) <==> indexL in {0x81, 0x91, 0xA1, 0xB1, 0xC1, 0xD1, 0xE1, 0xF1}
    ensures Names(indexL, 3) <==> indexL in {0x03, 0x13, 0x23, 0x33, 0x43, 0x53, 0x63, 0x73}
  {
  }

  /** One request more in the history. */
  lemma RememberOne(h: seq<Setup>, s: Setup)
    ensures LastValue(h + [s], 9) == if s.request == SET_CONFIGURATION then s.valueL else LastValue(h, 9)
    ensures LastValue(h + [s], 11) == if s.request == SET_INTERFACE then s.valueL else LastValue(h, 11)
    ensures Wakeup(h + [s]) == if s.requestType == 0 && s.valueL == 1 && s.request == SET_FEATURE then true
                               else if s.requestType == 0 && s.valueL == 1 && s.request == CLEAR_FEATURE then false
                               else Wakeup(h)
    ensures forall e :: Halted(h + [s], e)
                     == if (s.request == SET_FEATURE || s.request == CLEAR_FEATURE) && s.requestType == 2
                           && s.valueL == 0 && Names(s.indexL, e)
                        then (if s.request == SET_FEATURE then 1 else 0)
                        else Halted(h, e)
  {
    assert (h + [s])[..|h|] == h;
  }

  lemma StatusRemembers(h: seq<Setup>, s: Setup, status: seq<byte>, wakeup: bool)
    requires |status| == 5
    requires status[2] == Halted(h, 0) && status[3] == Halted(h, 1) && status[4] == Halted(h, 3)
    ensures var after := StatusAfter(s, status, wakeup, true);
            |after| == 5 && after[2] == Halted(h + [s], 0) && after[3] == Halted(h + [s], 1)
            && after[4] == Halted(h + [s], 3)
  {
    RememberOne(h, s);
    EndpointAddresses(s.indexL);
  }

  lemma AnswerableIff(s: Setup)
    ensures Selected(s) != Init <==> Answerable(s)
  {
    EndpointAddresses(s.indexL);
  }

  // ----- the descriptor tables

  /** Vendor 0x5345, product 0x1234, USB 1.10. */
  function DeviceDescriptor(): (d: seq<byte>)
    ensures |d| == 18 && d[0] == 18 && d[1] == 1
  {
    [0x12, DEVICE_TYPE, 0x10, 0x01, 0xFF, 0, 0, 8, 0x45, 0x53, 0x34, 0x12, 0, 1, 1, 2, 0, 1]
  }

  /** One interface, self-powered. */
  function ConfigurationDescriptor(): (d: seq<byte>)
    ensures |d| == 9 && d[0] == 9 && d[1] == 2 && d[2] == 32 && d[3] == 0
  {
    [9, CONFIGURATION_TYPE, 0x20, 0, 1, 1, 0, 0xC0, 25]
  }

  function InterfaceDescriptor(): (d: seq<byte>)
    ensures |d| == 9 && d[0] == 9 && d[1] == 4
  {
    [9, INTERFACE_TYPE, 0, 0, 2, 0xFF, 0, 0, 0]
  }

  /** Bulk endpoints 1 IN and 3 OUT. */
  function EndpointDescriptors(): (d: seq<seq<byte>>)
    ensures |d| == 2 && |d[0]| == 7 && |d[1]| == 7
    ensures d[0][0] == 7 && d[0][1] == 5 && d[0][2] == 0x81
    ensures d[1][0] == 7 && d[1][1] == 5 && d[1][2] == 0x03
  {
    [[7, ENDPOINT_TYPE, 0x81, 2, 64, 0, 0], [7, ENDPOINT_TYPE, 3, 2, 64, 0, 0]]
  }

  /** The Unicode string "System MCU". */
  function MakerString(): (d: seq<byte>)
    ensures |d| == 22 && d[0] == 22 && d[1] == 3
  {
    [22, STRING_TYPE, 0x53, 0, 0x79, 0, 0x73, 0, 0x74, 0, 0x65, 0, 0x6D, 0, 0x20, 0, 0x4D, 0, 0x43, 0, 0x55, 0]
  }

  /** The Unicode string "SEC S3C2410X Test B/D". */
  function ProductString(): (d: seq<byte>)
    ensures |d| == 44 && d[0] == 44 && d[1] == 3
  {
    var name: seq<byte> := [44, STRING_TYPE, 0x53, 0, 0x45, 0, 0x43, 0, 0x20, 0, 0x53, 0, 0x33, 0, 0x43, 0];
    var model: seq<byte> := [0x32, 0, 0x34, 0, 0x31, 0, 0x30, 0, 0x58, 0, 0x20, 0, 0x54, 0, 0x65, 0];
    var rest: seq<byte> := [0x73, 0, 0x74, 0, 0x20, 0, 0x42, 0, 0x2F, 0, 0x44, 0];
    name + model + rest
  }

  /** The language, the maker and the product. */
  function StringDescriptors(): (d: seq<seq<byte>>)
    ensures |d| == 3 && |d[0]| == 4 && |d[1]| == 22 && |d[2]| == 44
    ensures d[0][0] == 4 && d[1][0] == 22 && d[2][0] == 44
    ensures d[0][1] == 3 && d[1][1] == 3 && d[2][1] == 3
  {
    [[4, STRING_TYPE, 0x09, 0x04], MakerString(), ProductString()]
  }

  class Handler {
    var state: State
    /** The static `ep0SubState` of the handler. */
    var sub: nat
    // Descriptor structures as their bytes.
    var descDev: seq<byte>
    var descConf: seq<byte>
    var descIf: seq<byte>
    var descEndpt: seq<seq<byte>>
    var descStr: seq<seq<byte>>
    // Device state that requests change.
    var configurationValue: byte
    var alternateSetting: byte
    var status: seq<byte>
    var remoteWakeup: bool
    var selfPowered: bool
    var address: byte
    var configured: bool
    /** The setup packets decoded so far. */
    ghost var history: seq<Setup>

    /**
     Descriptors are never a multiple of eight bytes long, except the joined
     configuration, which ends with an empty packet.
    */
    ghost predicate Tables()
      reads this`descDev, this`descConf, this`descIf, this`descEndpt, this`descStr, this`status
    {
      && |descDev| == 18 && |descConf| == 9 && |descIf| == 9
      && |descEndpt| == 2 && |descEndpt[0]| == 7 && |descEndpt[1]| == 7
      && |descStr| == 3 && |descStr[0]| == 4 && |descStr[1]| == 22 && |descStr[2]| == 44
      && |status| == 5
      && descDev[0] == 18 && descDev[1] == 1 && descIf[0] == 9 && descIf[1] == 4
      && descConf[0] == 9 && descConf[1] == 2 && descConf[2] == 32 && descConf[3] == 0
      && descEndpt[0][0] == 7 && descEndpt[0][1] == 5 && descEndpt[0][2] == 0x81
      && descEndpt[1][0] == 7 && descEndpt[1][1] == 5 && descEndpt[1][2] == 0x03
      && descStr[0][0] == 4 && descStr[1][0] == 22 && descStr[2][0] == 44
      && descStr[0][1] == 3 && descStr[1][1] == 3 && descStr[2][1] == 3
    }

    /** Device state is what the decoded requests made it. */
    ghost predicate Remembers()
      requires |status| == 5
      reads this
    {
      configurationValue == LastValue(history, 9) && alternateSetting == LastValue(history, 11)
      && remoteWakeup == Wakeup(history) && selfPowered
      && status[2] == Halted(history, 0) && status[3] == Halted(history, 1) && status[4] == Halted(history, 3)
    }

    ghost predicate Valid()
      reads this
    {
      Tables() && ValidState(state, sub) && Remembers()
    }

    /** How far each transfer can have got; a string transfer stays inside its string. */
    ghost predicate ValidState(st: State, n: nat)
      requires Tables()
      reads this`descDev, this`descConf, this`descIf, this`descEndpt, this`descStr, this`status
    {
      match st
      case Device(k) => k <= 2
      case Config(k) => k <= 4
      case ConfigOnly(k) => k <= 1
      case InterfaceOnly(k) => k <= 1
      case EndpointOnly(k) => k <= 1
      case Text(k) => k <= 2 && PKT * n < |descStr[k]| && (k == 0 ==> n == 0)
      case Status(k) => k <= 4
      case _ => true
    }

    /** Configuration, interface and the two endpoints in one answer. */
    function WholeConfig(): seq<byte>
      reads this`descConf, this`descIf, this`descEndpt
    {
      if |descEndpt| == 2 then descConf + descIf + descEndpt[0] + descEndpt[1] else []
    }

    /** The bytes a state still has to send. */
    ghost function PendingOf(st: State, n: nat): seq<byte>
      requires Tables() && ValidState(st, n)
      reads this`descDev, this`descConf, this`descIf, this`descEndpt, this`descStr, this`status,
            this`alternateSetting, this`configurationValue
    {
      match st
      case Init => []
      case Device(k) => descDev[PKT * k..]
      case Config(k) => WholeConfig()[PKT * k..]
      case ConfigOnly(k) => descConf[PKT * k..]
      case InterfaceOnly(k) => descIf[PKT * k..]
      case EndpointOnly(k) => descEndpt[k]
      case Text(k) => descStr[k][PKT * n..]
      case InterfaceGet => [alternateSetting]
      case ConfigSet => [configurationValue]
      case Status(k) => [status[k]]
    }

    ghost function Pending(): seq<byte>
      requires Valid()
      reads this
    {
      PendingOf(state, sub)
    }

    /** `InitDescriptorTable` and the string constants. */
    constructor ()
      ensures Valid() && state == Init && history == []
      ensures descDev[0] == |descDev| && descConf[0] == |descConf| && descIf[0] == |descIf|
      ensures forall k :: 0 <= k < 2 ==> descEndpt[k][0] == |descEndpt[k]|
      ensures forall k :: 0 <= k < 3 ==> descStr[k][0] == |descStr[k]|
      ensures descConf[2] + 0x100 * (descConf[3] as int) == |WholeConfig()|
    {
      state, sub := Init, 0;
      descDev, descConf, descIf := DeviceDescriptor(), ConfigurationDescriptor(), InterfaceDescriptor();
      descEndpt, descStr := EndpointDescriptors(), StringDescriptors();
      configurationValue, alternateSetting := 0, 0;
      status := [0, 0, 0, 0, 0];
      remoteWakeup, selfPowered := false, true;
      address, configured := 0, false;
      history := [];
    }

    /**
     The second switch of the handler.  A data state either sends the next
     eight bytes of what is pending and stays in a data state, or sends the
     fewer than eight that are left, with DATA_END, and goes back to Init.
    */
    method SendData() returns (packet: seq<byte>, commands: seq<Command>)
      requires Valid()
      modifies this`state, this`sub
      ensures Valid()
      ensures old(state) == Init ==> state == Init && packet == [] && commands == []
      ensures old(state) != Init ==> Fed(old(Pending()), packet, commands, state) && Pending() == Rest(old(Pending()))
    {
      packet, commands := [], [];
      if state != Init {
        var next, n;
        packet, commands, next, n := NextPacket();
        state, sub := next, n;
      }
    }

    method NextPacket() returns (packet: seq<byte>, commands: seq<Command>, next: State, n: nat)
      requires Valid() && state != Init
      ensures ValidState(next, n) && Fed(Pending(), packet, commands, next) && PendingOf(next, n) == Rest(Pending())
    {
      n := sub;
      if state.Device? {
        packet, commands, next := SendDevice();
      } else if state.Config? {
        packet, commands, next := SendConfig();
      } else if state.Text? {
        packet, commands, next, n := SendText();
      } else {
        packet, commands, next := SendShort();
      }
    }

    method SendDevice() returns (packet: seq<byte>, commands: seq<Command>, next: State)
      requires Valid() && state.Device?
      ensures ValidState(next, sub) && Fed(Pending(), packet, commands, next) && PendingOf(next, sub) == Rest(Pending())
    {
      if state.k == 0 {
        packet, commands, next := descDev[0..8], [InReady], Device(1);
      } else if state.k == 1 {
        packet, commands, next := descDev[8..16], [InReady], Device(2);
      } else {
        packet, commands, next := descDev[16..18], [InReadyDataEnd], Init;
      }
    }

    /** The joined configuration, cut across its four parts. */
    method SendConfig() returns (packet: seq<byte>, commands: seq<Command>, next: State)
      requires Valid() && state.Config?
      ensures ValidState(next, sub) && Fed(Pending(), packet, commands, next) && PendingOf(next, sub) == Rest(Pending())
    {
      ConfigParts();
      var k := state.k;
      commands, next := [InReady], Config(k + 1);
      if k == 0 {
        packet := descConf[0..8];
      } else if k == 1 {
        packet := descConf[8..9] + descIf[0..7];
      } else if k == 2 {
        packet := descIf[7..9] + descEndpt[0][0..6];
      } else if k == 3 {
        packet := descEndpt[0][6..7] + descEndpt[1][0..7];
      } else {
        packet, commands, next := [], [InReadyDataEnd], Init;
      }
    }

    lemma ConfigParts()
      requires Valid()
      ensures var w := WholeConfig();
              |w| == 32 && w[0..8] == descConf[0..8] && w[8..16] == descConf[8..9] + descIf[0..7]
              && w[16..24] == descIf[7..9] + descEndpt[0][0..6] && w[24..32] == descEndpt[0][6..7] + descEndpt[1][0..7]
    {
    }

    /** Strings are sent by a packet counter. */
    method SendText() returns (packet: seq<byte>, commands: seq<Command>, next: State, n: nat)
      requires Valid() && state.Text?
      ensures ValidState(next, n) && Fed(Pending(), packet, commands, next) && PendingOf(next, n) == Rest(Pending())
    {
      var s := descStr[state.k];
      if state.k == 0 {
        packet, commands, next, n := s[0..4], [InReadyDataEnd], Init, 0;
      } else if sub * PKT + PKT < |s| {
        packet, commands, next, n := s[sub * PKT..sub * PKT + PKT], [InReady], state, sub + 1;
      } else {
        packet, commands, next, n := s[sub * PKT..], [InReadyDataEnd], Init, 0;
      }
    }

    /** The answers of at most two packets. */
    method SendShort() returns (packet: seq<byte>, commands: seq<Command>, next: State)
      requires Valid() && !state.Init? && !state.Device? && !state.Config? && !state.Text?
      ensures ValidState(next, sub) && Fed(Pending(), packet, commands, next) && PendingOf(next, sub) == Rest(Pending())
    {
      commands, next := [InReadyDataEnd], Init;
      match state {
        case ConfigOnly(k) =>
          if k == 0 {
            packet, commands, next := descConf[0..8], [InReady], ConfigOnly(1);
          } else {
            packet := descConf[8..9];
          }
        case InterfaceOnly(k) =>
          if k == 0 {
            packet, commands, next := descIf[0..8], [InReady], InterfaceOnly(1);
          } else {
            packet := descIf[8..9];
          }
        case EndpointOnly(k) => packet := descEndpt[k][0..7];
        case InterfaceGet => packet := [alternateSetting];
        case ConfigSet => packet := [configurationValue];
        case Status(k) => packet := [status[k]];
      }
    }

    /** The first switch: what a setup packet changes, and the data state it selects. */
    method Decode(s: Setup) returns (commands: seq<Command>)
      requires Valid() && state == Init
      modifies this
      ensures Valid() && state == Selected(s) && (state.Text? ==> sub == 0)
      ensures SameDescriptors(old(descDev), old(descConf), old(descIf), old(descEndpt), old(descStr))
      ensures history == old(history) + [s]
      ensures Acknowledged(s, commands) && (state != Init ==> commands == [ServicedOut])
      ensures s.request in {1, 3, 5, 9, 11} ==> commands == [ServicedOutDataEnd]
      ensures address == if s.request == 5 then s.valueL else old(address)
      ensures configured == (old(configured) || s.request == 9)
      ensures s.request == GET_STATUS && s.requestType <= 0x81 ==>
                status == StatusAfter(s, old(status), remoteWakeup, true)
    {
      commands := Switch(s);
      StatusRemembers(history, s, old(status), old(remoteWakeup));
      RememberOne(history, s);
      history := history + [s];
    }

    method Switch(s: Setup) returns (commands: seq<Command>)
      requires Valid() && state == Init
      modifies this`state, this`sub, this`configurationValue, this`alternateSetting, this`status, this`remoteWakeup,
               this`address, this`configured
      ensures Tables() && ValidState(state, sub) && state == Selected(s) && (state.Text? ==> sub == 0)
      ensures Acknowledged(s, commands) && (state != Init ==> commands == [ServicedOut])
      ensures address == if s.request == SET_ADDRESS then s.valueL else old(address)
      ensures configurationValue == if s.request == SET_CONFIGURATION then s.valueL else old(configurationValue)
      ensures configured == (old(configured) || s.request == SET_CONFIGURATION)
      ensures alternateSetting == if s.request == SET_INTERFACE then s.valueL else old(alternateSetting)
      ensures remoteWakeup == if s.requestType == 0 && s.valueL == 1 && s.request == SET_FEATURE then true
                              else if s.requestType == 0 && s.valueL == 1 && s.request == CLEAR_FEATURE then false
                              else old(remoteWakeup)
      ensures status == StatusAfter(s, old(status), old(remoteWakeup), selfPowered)
    {
      if s.request == GET_DESCRIPTOR {
        commands := SelectDescriptor(s);
      } else if s.request == GET_CONFIGURATION {
        commands, state := [ServicedOut], ConfigSet;
      } else if s.request == GET_INTERFACE {
        commands, state := [ServicedOut], InterfaceGet;
      } else if s.request == GET_STATUS {
        commands := SelectStatus(s);
      } else if s.request == SYNCH_FRAME {
        commands := [];
      } else {
        commands := [ServicedOutDataEnd];
        if s.request == SET_ADDRESS {
          address := s.valueL;
        } else if s.request == SET_CONFIGURATION {
          configurationValue := s.valueL;
          configured := true;
        } else if s.request == SET_INTERFACE {
          alternateSetting := s.valueL;
        } else if s.request == SET_FEATURE || s.request == CLEAR_FEATURE {
          SelectFeature(s);
        }
      }
    }

    method SelectFeature(s: Setup)
      requires Valid() && (s.request == SET_FEATURE || s.request == CLEAR_FEATURE)
      modifies this`status, this`remoteWakeup
      ensures remoteWakeup
              == if s.requestType == 0 && s.valueL == 1 then s.request == SET_FEATURE else old(remoteWakeup)
      ensures status == StatusAfter(s, old(status), old(remoteWakeup), selfPowered)
    {
      var on := s.request == SET_FEATURE;
      if s.requestType == 0 {
        if s.valueL == 1 {
          remoteWakeup := on;
        }
      } else if s.requestType == 2 && s.valueL == 0 {
        var flag: byte := if on then 1 else 0;
        if IsEndpoint0(s.indexL) {
          status := status[2 := flag];
        }
        if IsEndpoint1In(s.indexL) {
          status := status[3 := flag];
        }
        if IsEndpoint3Out(s.indexL) {
          status := status[4 := flag];
        }
      }
    }

    method SelectDescriptor(s: Setup) returns (commands: seq<Command>)
      requires Valid() && state == Init && s.request == GET_DESCRIPTOR
      modifies this`state, this`sub
      ensures Valid() && state == Selected(s) && (state.Text? ==> sub == 0)
      ensures Acknowledged(s, commands) && (state != Init ==> commands == [ServicedOut])
    {
      commands := [ServicedOut];
      if s.valueH == DEVICE_TYPE {
        state := Device(0);
      } else if s.valueH == CONFIGURATION_TYPE {
        state := if s.lengthL + 0x100 * (s.lengthH as int) > 9 then Config(0) else ConfigOnly(0);
      } else if s.valueH == STRING_TYPE {
        sub := 0;
        if s.valueL <= 2 {
          state := Text(s.valueL);
        }
      } else if s.valueH == INTERFACE_TYPE {
        state := InterfaceOnly(0);
      } else if s.valueH == ENDPOINT_TYPE {
        if s.valueL % 0x10 == 0 {
          state := EndpointOnly(0);
        } else if s.valueL % 0x10 == 1 {
          state := EndpointOnly(1);
        }
      } else {
        commands := [];
      }
    }

    method SelectStatus(s: Setup) returns (commands: seq<Command>)
      requires Valid() && state == Init && s.request == GET_STATUS
      modifies this`state, this`status
      ensures Valid() && state == Selected(s) && status == StatusAfter(s, old(status), remoteWakeup, selfPowered)
      ensures Acknowledged(s, commands) && (state != Init ==> commands == [ServicedOut])
    {
      commands := [];
      if s.requestType == 0x80 {
        commands, state := [ServicedOut], Status(0);
        status := status[0 := (if remoteWakeup then 2 else 0) + (if selfPowered then 1 else 0)];
      } else if s.requestType == 0x81 {
        commands, state := [ServicedOut], Status(1);
        status := status[1 := 0];
      } else if s.requestType == 0x82 {
        commands := [ServicedOut];
        if IsEndpoint0(s.indexL) {
          state := Status(2);
        }
        if IsEndpoint1In(s.indexL) {
          state := Status(3);
        }
        if IsEndpoint3Out(s.indexL) {
          state := Status(4);
        }
      }
    }

    ghost predicate SameDescriptors(dev: seq<byte>, conf: seq<byte>, intf: seq<byte>, endpt: seq<seq<byte>>,
        str: seq<seq<byte>>)
      reads this
    {
      descDev == dev && descConf == conf && descIf == intf && descEndpt == endpt && descStr == str
    }

    /** A setup packet was taken: its answer's first packet is out and the rest is pending, or it has no answer. */
    ghost predicate Started(s: Setup, packet: seq<byte>, commands: seq<Command>)
      requires Valid()
      reads this
    {
      if !Answerable(s) then state == Init && packet == [] && Acknowledged(s, commands)
      else
        AnswerableIff(s);
        var answer := PendingOf(Selected(s), 0);
        |commands| == 2 && commands[0] == ServicedOut
        && Fed(answer, packet, commands[1..], state) && Pending() == Rest(answer)
    }

    /** `Ep0Handler`: one interrupt. */
    method Interrupt(csr: Csr, fifo: seq<byte>) returns (packet: seq<byte>, commands: seq<Command>)
      requires Valid() && |fifo| == 8
      modifies this
      ensures Valid() && SameDescriptors(old(descDev), old(descConf), old(descIf), old(descEndpt), old(descStr))
      ensures old(state) != Init ==>
                status == old(status) && alternateSetting == old(alternateSetting)
                && configurationValue == old(configurationValue)
      ensures |packet| <= PKT && (|packet| == PKT ==> state != Init)
      ensures csr.setupEnd || csr.sentStall ==> state == Init && packet == []
      ensures !csr.setupEnd && !csr.sentStall && old(state) == Init && !csr.outReady ==> state == Init && packet == []
      ensures csr.setupEnd ==> commands == [ClearSetupEnd] + if csr.outReady then [ServicedOut] else []
      ensures !csr.setupEnd && csr.sentStall ==>
                commands == [ClearSentStall] + if csr.outReady then [ServicedOut] else []
      ensures !csr.setupEnd && !csr.sentStall && old(state) == Init && csr.outReady ==>
              Started(SetupOf(fifo), packet, commands) && history == old(history) + [SetupOf(fifo)]
      ensures csr.setupEnd || csr.sentStall || old(state) != Init || !csr.outReady ==> history == old(history)
      ensures !csr.setupEnd && !csr.sentStall && old(state) == Init && csr.outReady ==>
              SetupOf(fifo).request == GET_STATUS && SetupOf(fifo).requestType <= 0x81 ==>
                status == StatusAfter(SetupOf(fifo), old(status), remoteWakeup, true)
      ensures !csr.setupEnd && !csr.sentStall && old(state) != Init ==>
                Fed(old(Pending()), packet, commands, state) && Pending() == Rest(old(Pending()))
    {
      packet, commands := [], [];
      if csr.setupEnd {
        commands := if csr.outReady then [ClearSetupEnd, ServicedOut] else [ClearSetupEnd];
        state := Init;
        return;
      }
      if csr.sentStall {
        commands := if csr.outReady then [ClearSentStall, ServicedOut] else [ClearSentStall];
        state := Init;
        return;
      }
      packet, commands := Exchange(csr.outReady, fifo);
    }

    /** The two switches: a setup packet when one is ready, then the next data packet. */
    method Exchange(ready: bool, fifo: seq<byte>) returns (packet: seq<byte>, commands: seq<Command>)
      requires Valid() && |fifo| == 8
      modifies this
      ensures Valid() && SameDescriptors(old(descDev), old(descConf), old(descIf), old(descEndpt), old(descStr))
      ensures |packet| <= PKT && (|packet| == PKT ==> state != Init)
      ensures if old(state) == Init && ready
              then Started(SetupOf(fifo), packet, commands) && history == old(history) + [SetupOf(fifo)]
              else
                history == old(history) && status == old(status) && alternateSetting == old(alternateSetting)
                && configurationValue == old(configurationValue)
      ensures old(state) == Init && !ready ==> state == Init && packet == []
      ensures old(state) == Init && ready && SetupOf(fifo).request == GET_STATUS
              && SetupOf(fifo).requestType <= 0x81 ==>
                status == StatusAfter(SetupOf(fifo), old(status), remoteWakeup, true)
      ensures old(state) != Init ==> Fed(old(Pending()), packet, commands, state) && Pending() == Rest(old(Pending()))
    {
      packet, commands := [], [];
      if ready && state == Init {
        AnswerableIff(SetupOf(fifo));
        commands := Decode(SetupOf(fifo));
      }
      var more;
      packet, more := SendData();
      commands := commands + more;
    }

    /** An undisturbed transfer: the setup packet, then one interrupt per packet until DATA_END. */
    method Transfer(fifo: seq<byte>) returns (packets: seq<seq<byte>>)
      requires Valid() && state == Init && |fifo| == 8 && Answerable(SetupOf(fifo))
      modifies this
      ensures Valid() && state == Init && history == old(history) + [SetupOf(fifo)]
      ensures SameDescriptors(old(descDev), old(descConf), old(descIf), old(descEndpt), old(descStr))
      ensures var answer := Joined(packets);
              |packets| == |answer| / PKT + 1 <= 6
              && (forall i :: 0 <= i < |packets| - 1 ==> |packets[i]| == PKT) && |packets[|packets| - 1]| < PKT
      ensures Answers(SetupOf(fifo), Joined(packets))
    {
      ghost var s := SetupOf(fifo);
      AnswerableIff(s);
      var packet, commands := Interrupt(Csr(true, false, false), fifo);
      packets := [packet];
      ghost var answer := PendingOf(Selected(s), 0);
      AnswerLength(Selected(s));
      AnswerMeans(s);
      FirstPacket(answer, packet, commands[1..], state);
      packets := Continue(fifo, answer, packets);
    }

    /** The answer is the descriptor asked for, or what the requests so far made of the device. */
    ghost predicate Answers(s: Setup, answer: seq<byte>)
      reads this
    {
      && (s.request == 6 ==> IsDescriptor(s, answer) && OfIndex(s, answer))
      && (s.request == 6 && s.valueH == 3 && s.valueL < |descStr| ==> answer == descStr[s.valueL])
      && (s.request == 6 && s.valueH == 2 && s.lengthL + 0x100 * (s.lengthH as int) > 9 ==> answer == WholeConfig())
      && IsCurrent(s, history, selfPowered, answer)
    }

    lemma AnswerMeans(s: Setup)
      requires Valid() && Answerable(s) && Selected(s) != Init && ValidState(Selected(s), 0)
      requires s.request == GET_STATUS && s.requestType == 0x80 ==>
                 status[0] == (if remoteWakeup then 2 else 0) + 1
      requires s.request == GET_STATUS && s.requestType == 0x81 ==> status[1] == 0
      ensures Answers(s, PendingOf(Selected(s), 0))
    {
      if s.request == GET_DESCRIPTOR {
        DescriptorMeans(s);
      } else {
        EndpointAddresses(s.indexL);
      }
    }

    lemma DescriptorMeans(s: Setup)
      requires Valid() && s.request == GET_DESCRIPTOR && Selected(s) != Init && ValidState(Selected(s), 0)
      ensures Answers(s, PendingOf(Selected(s), 0))
    {
    }

    method Continue(fifo: seq<byte>, ghost answer: seq<byte>, sent: seq<seq<byte>>) returns (packets: seq<seq<byte>>)
      requires Valid() && |fifo| == 8 && Underway(answer, sent, state == Init, Pending())
      modifies this
      ensures Valid() && state == Init && Underway(answer, packets, true, []) && history == old(history)
      ensures SameDescriptors(old(descDev), old(descConf), old(descIf), old(descEndpt), old(descStr))
      ensures status == old(status) && alternateSetting == old(alternateSetting)
              && configurationValue == old(configurationValue)
    {
      packets := sent;
      while state != Init
        invariant Valid() && Underway(answer, packets, state == Init, Pending()) && history == old(history)
        invariant SameDescriptors(old(descDev), old(descConf), old(descIf), old(descEndpt), old(descStr))
        invariant status == old(status) && alternateSetting == old(alternateSetting)
                  && configurationValue == old(configurationValue)
        decreases if state == Init then 0 else |Pending()| + 1
      {
        ghost var pending := Pending();
        var packet, commands := Interrupt(Csr(false, false, false), fifo);
        NextOne(answer, packets, pending, packet, commands, state);
        packets := packets + [packet];
      }
    }

    /**
     Any sequence of interrupts: every packet is at most eight bytes, and each
     transfer stays inside its descriptor.
    */
    method Serve(events: seq<(Csr, seq<byte>)>) returns (packets: seq<seq<byte>>)
      requires Valid() && forall e :: e in events ==> |e.1| == 8
      modifies this
      ensures Valid() && |packets| == |events| && forall i :: 0 <= i < |packets| ==> |packets[i]| <= PKT
      ensures SameDescriptors(old(descDev), old(descConf), old(descIf), old(descEndpt), old(descStr))
    {
      packets := [];
      for i := 0 to |events|
        invariant Valid() && |packets| == i && forall j :: 0 <= j < i ==> |packets[j]| <= PKT
        invariant SameDescriptors(old(descDev), old(descConf), old(descIf), old(descEndpt), old(descStr))
      {
        var packet, commands := Interrupt(events[i].0, events[i].1);
        packets := packets + [packet];
      }
    }

    lemma AnswerLength(st: State)
      requires Tables() && ValidState(st, 0)
      ensures |PendingOf(st, 0)| <= 44
    {
    }
  }

  /** The packets so far and what is pending make up the answer; only the last packet of all is short. */
  predicate Underway(answer: seq<byte>, packets: seq<seq<byte>>, done: bool, pending: seq<byte>) {
    |packets| > 0 && (forall i :: 0 <= i < |packets| - 1 ==> |packets[i]| == PKT)
    && if done then Joined(packets) == answer && |packets| == |answer| / PKT + 1 && |packets[|packets| - 1]| < PKT
       else
         Joined(packets) + pending == answer && |packets| * PKT + |pending| == |answer|
         && |packets[|packets| - 1]| == PKT
  }

  lemma FirstPacket(answer: seq<byte>, packet: seq<byte>, commands: seq<Command>, next: State)
    requires Fed(answer, packet, commands, next)
    ensures Underway(answer, [packet], next == Init, Rest(answer))
  {
    JoinedOne(packet);
  }

  lemma NextOne(answer: seq<byte>, packets: seq<seq<byte>>, pending: seq<byte>, packet: seq<byte>,
      commands: seq<Command>, next: State)
    requires Underway(answer, packets, false, pending) && Fed(pending, packet, commands, next)
    ensures Underway(answer, packets + [packet], next == Init, Rest(pending))
  {
    JoinedAppend(packets, packet);
    var all := packets + [packet];
    assert forall i :: 0 <= i < |packets| ==> all[i] == packets[i];
    assert Joined(packets) + pending == Joined(packets) + packet + Rest(pending);
  }

  lemma JoinedOne(p: seq<byte>)
    ensures Joined([p]) == p
  {
    JoinedAppend([], p);
    assert [] + [p] == [p];
  }

  /** The status bytes after a request. */
  function StatusAfter(s: Setup, status: seq<byte>, remoteWakeup: bool, selfPowered: bool): seq<byte>
    requires |status| == 5
  {
    if s.request == GET_STATUS && s.requestType == 0x80 then
      status[0 := (if remoteWakeup then 2 else 0) + (if selfPowered then 1 else 0)]
    else if s.request == GET_STATUS && s.requestType == 0x81 then status[1 := 0]
    else if (s.request == SET_FEATURE || s.request == CLEAR_FEATURE) && s.requestType == 2 && s.valueL == 0 then
      var flag: byte := if s.request == SET_FEATURE then 1 else 0;
      if IsEndpoint0(s.indexL) then status[2 := flag]
      else if IsEndpoint1In(s.indexL) then status[3 := flag]
      else if IsEndpoint3Out(s.indexL) then status[4 := flag]
      else status
    else status
  }

  /** One packet of an answer: eight bytes, or the fewer than eight that are left, which end the transfer. */
  predicate Fed(pending: seq<byte>, packet: seq<byte>, commands: seq<Command>, next: State) {
    if |pending| >= PKT then packet == pending[..PKT] && commands == [InReady] && next != Init
    else packet == pending && commands == [InReadyDataEnd] && next == Init
  }

  function Rest(pending: seq<byte>): seq<byte> {
    if |pending| >= PKT then pending[PKT..] else []
  }
}
