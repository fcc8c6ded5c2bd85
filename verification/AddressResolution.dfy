/** IPv4-over-Ethernet ARP (RFC 826): request encoding and the parser every received frame meets. */
module AddressResolution {
  import opened EthernetFrame
  import opened Octets
  import opened Wrappers

  const ARP_PDU_LENGTH := 28
  const MINIMUM_FRAME_LENGTH := 60
  const ARP_HARDWARE_TYPE_ETHERNET: u16 := 1
  const ARP_OPERATION_REQUEST: u16 := 1
  const ARP_OPERATION_REPLY: u16 := 2
  const ARP_ETHERNET_HARDWARE_ADDRESS_LENGTH: u8 := 6
  const ARP_IPV4_PROTOCOL_ADDRESS_LENGTH: u8 := 4

  const ARP_HARDWARE_TYPE_OFFSET := 0
  const ARP_PROTOCOL_TYPE_OFFSET := 2
  const ARP_HARDWARE_LENGTH_OFFSET := 4
  const ARP_PROTOCOL_LENGTH_OFFSET := 5
  const ARP_OPCODE_OFFSET := 6
  const ARP_SENDER_HARDWARE_OFFSET := 8
  const ARP_SENDER_PROTOCOL_OFFSET := 14
  const ARP_TARGET_HARDWARE_OFFSET := 18
  const ARP_TARGET_PROTOCOL_OFFSET := 24

  /** RFC 5494 reserves the all-zeros and all-ones values of `ar$hrd` and `ar$op`. */
  predicate IsReserved(field: u16) {
    field == 0 || field == 0xFFFF
  }

  // ----- parser

  datatype ParsedArp = ParsedArp(
    opcode: u16,
    senderProtocol: Ipv4,
    senderHardware: Mac,
    targetHardware: Mac,
    targetProtocol: Ipv4)

  function ParsePdu(arp: seq<u8>): Result<ParsedArp, Reason> {
    if |arp| < ARP_PDU_LENGTH then Failure(ArpPayloadTooShort) else
    var hardwareType := Word16(arp[ARP_HARDWARE_TYPE_OFFSET], arp[ARP_HARDWARE_TYPE_OFFSET + 1]);
    if IsReserved(hardwareType) then Failure(HardwareTypeReserved) else
    if hardwareType != ARP_HARDWARE_TYPE_ETHERNET then Failure(HardwareTypeNotEthernet) else
    var protocolType := Word16(arp[ARP_PROTOCOL_TYPE_OFFSET], arp[ARP_PROTOCOL_TYPE_OFFSET + 1]);
    if protocolType != ETHERNET_PROTOCOL_IPV4 then Failure(ProtocolTypeNotIpv4) else
    if || arp[ARP_HARDWARE_LENGTH_OFFSET] != ARP_ETHERNET_HARDWARE_ADDRESS_LENGTH
       || arp[ARP_PROTOCOL_LENGTH_OFFSET] != ARP_IPV4_PROTOCOL_ADDRESS_LENGTH
    then Failure(AddressLengthsNotEthernetIpv4) else
    var opcode := Word16(arp[ARP_OPCODE_OFFSET], arp[ARP_OPCODE_OFFSET + 1]);
    if IsReserved(opcode) then Failure(OpcodeReserved) else
    Success(ParsedArp(
      opcode,
      Slice(arp, ARP_SENDER_PROTOCOL_OFFSET, 4),
      Slice(arp, ARP_SENDER_HARDWARE_OFFSET, 6),
      Slice(arp, ARP_TARGET_HARDWARE_OFFSET, 6),
      Slice(arp, ARP_TARGET_PROTOCOL_OFFSET, 4)))
  }

  function TryParseArp(frame: Frame): Result<ParsedArp, Reason> {
    var parsed :- TryParseEthernetFrame(frame);
    if parsed.etherType != ETHERNET_PROTOCOL_ARP then Failure(EtherTypeNotArp) else ParsePdu(parsed.payload)
  }

  predicate CarriesArp(frame: Frame) {
    TryParseEthernetFrame(frame).Success? && TryParseEthernetFrame(frame).value.etherType == ETHERNET_PROTOCOL_ARP
  }

  // ----- request encoding

  datatype RequestLayout = RequestLayout(
    ethernetDestination: Mac,
    ethernetSource: Mac,
    vlanTag: Option<TagStack>,
    llcSnap: bool,
    hardwareType: u16,
    protocolType: u16,
    hardwareLength: u8,
    protocolLength: u8,
    opcode: u16,
    senderHardware: Mac,
    senderProtocol: Ipv4,
    targetHardware: Mac,
    targetProtocol: Ipv4,
    padding: seq<u8>)

  function PduOctets(layout: RequestLayout): (pdu: seq<u8>)
    ensures |pdu| == ARP_PDU_LENGTH
  {
    Be16(layout.hardwareType) + Be16(layout.protocolType)
    + [layout.hardwareLength, layout.protocolLength] + Be16(layout.opcode)
    + layout.senderHardware + layout.senderProtocol + layout.targetHardware + layout.targetProtocol
  }

  /** A payload under one of the two framings, before minimum-length padding. */
  function Framed(destination: Mac, source: Mac, tags: Option<TagStack>, llcSnap: bool, payload: seq<u8>): Frame {
    if llcSnap then SnapOctets(destination, source, tags, ETHERNET_PROTOCOL_ARP, payload)
    else EthernetIIOctets(destination, source, tags, ETHERNET_PROTOCOL_ARP, payload)
  }

  function FramingOf(llcSnap: bool): Framing {
    if llcSnap then Ieee8023LlcSnap else EthernetII
  }

  function Zeros(count: nat): seq<u8> {
    seq(count, i => 0)
  }

  function PadToMinimum(frame: Frame): Frame {
    if |frame| < MINIMUM_FRAME_LENGTH then frame + Zeros(MINIMUM_FRAME_LENGTH - |frame|) else frame
  }

  function RequestOctets(layout: RequestLayout): Frame {
    PadToMinimum(Framed(
      layout.ethernetDestination, layout.ethernetSource, layout.vlanTag, layout.llcSnap,
      PduOctets(layout) + layout.padding))
  }

  // ----- round trip

  /** The ARP fields are read back from a payload exactly when none of them is rejected. */
  lemma PduRoundTrip(layout: RequestLayout, rest: seq<u8>)
    ensures
      ParsePdu(PduOctets(layout) + rest)
      == Success(ArpFieldsOf(layout))
      <==> IsParseableLayout(layout)
    ensures ParsePdu(PduOctets(layout) + rest).Success? <==> IsParseableLayout(layout)
  {
    var arp := PduOctets(layout) + rest;
    Word16OfBe16(layout.hardwareType);
    Word16OfBe16(layout.protocolType);
    Word16OfBe16(layout.opcode);
    assert forall i :: 0 <= i < 28 ==> arp[i] == PduOctets(layout)[i];
    assert Slice(arp, 8, 6) == layout.senderHardware;
    assert Slice(arp, 14, 4) == layout.senderProtocol;
    assert Slice(arp, 18, 6) == layout.targetHardware;
    assert Slice(arp, 24, 4) == layout.targetProtocol;
  }

  function ArpFieldsOf(layout: RequestLayout): ParsedArp {
    ParsedArp(
      layout.opcode, layout.senderProtocol, layout.senderHardware, layout.targetHardware, layout.targetProtocol)
  }

  predicate IsParseableLayout(layout: RequestLayout) {
    && layout.hardwareType == 1 && layout.protocolType == 0x0800
    && layout.hardwareLength == 6 && layout.protocolLength == 4
    && layout.opcode !in {0, 0xFFFF}
  }

  /** Padding a framed payload adds zeros behind it and leaves every decoded field alone. */
  lemma ParseOfPadded(destination: Mac, source: Mac, tags: Option<TagStack>, llcSnap: bool, payload: seq<u8>)
    requires llcSnap ==> |payload| <= 1492 || |payload| > 65527
    ensures var frame := PadToMinimum(Framed(destination, source, tags, llcSnap, payload));
      && CarriesArp(frame)
      && var parsed := TryParseEthernetFrame(frame).value;
      && payload <= parsed.payload
      && (forall i :: |payload| <= i < |parsed.payload| ==> parsed.payload[i] == 0)
      && parsed == ParsedAs(destination, source, tags, ETHERNET_PROTOCOL_ARP, FramingOf(llcSnap), parsed.payload)
  {
    hide TagOctets, TryParseEthernetFrame, Be16;
    var bare := Framed(destination, source, tags, llcSnap, payload);
    var zeros := Zeros(|PadToMinimum(bare)| - |bare|);
    var frame := PadToMinimum(bare);
    assert frame == bare + zeros;
    if llcSnap {
      var body := RFC_1042_SNAP_HEADER + Be16(ETHERNET_PROTOCOL_ARP) + (payload + zeros);
      var lengthField := SnapLengthField(|payload|);
      assert body == RFC_1042_SNAP_HEADER + Be16(ETHERNET_PROTOCOL_ARP) + payload + zeros;
      assert frame == destination + source + TagOctets(tags) + Be16(lengthField) + body;
      ParseOfSnapFrame(frame, destination, source, tags, lengthField, ETHERNET_PROTOCOL_ARP, payload + zeros);
    } else {
      assert frame == EthernetIIOctets(destination, source, tags, ETHERNET_PROTOCOL_ARP, payload + zeros);
      EthernetIIRoundTrip(destination, source, tags, ETHERNET_PROTOCOL_ARP, payload + zeros);
    }
  }

  /**
   A request whose MAC client data fits IEEE 802.3 is parsed back to its own ARP fields, under
   every tag stack and framing, exactly when those fields are Ethernet/IPv4 with a usable opcode.
   */
  lemma RequestRoundTrip(layout: RequestLayout)
    requires layout.llcSnap ==> 8 + ARP_PDU_LENGTH + |layout.padding| <= IEEE_8023_MAXIMUM_LENGTH
    ensures
      TryParseArp(RequestOctets(layout))
      == Success(ArpFieldsOf(layout))
      <==> IsParseableLayout(layout)
    ensures TryParseArp(RequestOctets(layout)).Success? <==> IsParseableLayout(layout)
  {
    hide Framed, PduOctets, ParsePdu, PadToMinimum, TryParseEthernetFrame;
    var payload := PduOctets(layout) + layout.padding;
    ParseOfPadded(layout.ethernetDestination, layout.ethernetSource, layout.vlanTag, layout.llcSnap, payload);
    var parsed := TryParseEthernetFrame(RequestOctets(layout)).value;
    assert parsed.payload == PduOctets(layout) + parsed.payload[ARP_PDU_LENGTH..];
    PduRoundTrip(layout, parsed.payload[ARP_PDU_LENGTH..]);
  }

  // ----- what the verdict depends on

  /** Two ARP frames with the same first 28 payload octets get the same verdict. */
  lemma SamePduSameVerdict(frame: Frame, other: Frame)
    requires CarriesArp(frame) && CarriesArp(other)
    requires |TryParseEthernetFrame(frame).value.payload| >= ARP_PDU_LENGTH
    requires |TryParseEthernetFrame(other).value.payload| >= ARP_PDU_LENGTH
    requires TryParseEthernetFrame(frame).value.payload[..ARP_PDU_LENGTH]
      == TryParseEthernetFrame(other).value.payload[..ARP_PDU_LENGTH]
    ensures TryParseArp(frame) == TryParseArp(other)
  {
    hide TryParseEthernetFrame;
    var a, b := TryParseEthernetFrame(frame).value.payload, TryParseEthernetFrame(other).value.payload;
    assert forall i :: 0 <= i < ARP_PDU_LENGTH ==> a[i] == a[..ARP_PDU_LENGTH][i] == b[..ARP_PDU_LENGTH][i] == b[i];
    assert forall start: nat, count: nat :: start + count <= ARP_PDU_LENGTH ==>
      Slice(a, start, count) == Slice(b, start, count);
  }

  /** Cutting a frame to a buffer that holds the longest header and an ARP PDU cuts only payload. */
  lemma ParseOfCut(frame: Frame, capacity: nat)
    requires capacity >= 58
    ensures TryParseEthernetFrame(frame).Failure? ==>
      TryParseEthernetFrame(Cut(frame, capacity)) == TryParseEthernetFrame(frame)
    ensures TryParseEthernetFrame(frame).Success? ==>
      var parsed := TryParseEthernetFrame(frame).value;
      TryParseEthernetFrame(Cut(frame, capacity))
      == Success(parsed.(payload := Cut(frame, capacity)[|frame| - |parsed.payload|..]))
      && |frame| - |parsed.payload| <= 30
      && parsed.payload == frame[|frame| - |parsed.payload|..]
  {
    hide TciFromWord;
    var cut := Cut(frame, capacity);
    assert forall i :: 0 <= i < |cut| ==> cut[i] == frame[i];
    if |frame| > capacity {
      assert cut[..6] == frame[..6] && cut[6..12] == frame[6..12];
      assert DecodeOptionalTagStack(cut, Word16(cut[12], cut[13]))
        == DecodeOptionalTagStack(frame, Word16(frame[12], frame[13]));
      forall start: nat | start <= 22
        ensures DecodeRfc1042LlcSnap(cut, start) == DecodeRfc1042LlcSnap(frame, start)
      {
        assert cut[start..start + 8] == frame[start..start + 8];
      }
    }
  }

  /** A monitor with a 58-octet (or larger) receive buffer reaches the verdict of the whole frame. */
  lemma CutKeepsVerdict(frame: Frame, capacity: nat)
    requires capacity >= 58
    ensures CarriesArp(Cut(frame, capacity)) <==> CarriesArp(frame)
    ensures TryParseArp(Cut(frame, capacity)) == TryParseArp(frame)
  {
    ParseOfCut(frame, capacity);
    if CarriesArp(frame) && |frame| > capacity {
      hide TryParseEthernetFrame;
      var whole := TryParseEthernetFrame(frame).value.payload;
      var cut := TryParseEthernetFrame(Cut(frame, capacity)).value.payload;
      var start := |frame| - |whole|;
      assert forall i :: 0 <= i < ARP_PDU_LENGTH ==> cut[i] == frame[start + i] == whole[i];
      assert cut[..ARP_PDU_LENGTH] == whole[..ARP_PDU_LENGTH];
      SamePduSameVerdict(Cut(frame, capacity), frame);
    }
  }

  // ----- the encoder, as it fills and grows its buffers

  method EncodeRequestFromLayout(layout: RequestLayout) returns (octets: Frame)
    ensures octets == RequestOctets(layout)
  {
    var header := new u8[ARP_PDU_LENGTH](i => 0);
    CopyFromSlice(header, ARP_HARDWARE_TYPE_OFFSET, Be16(layout.hardwareType));
    CopyFromSlice(header, ARP_PROTOCOL_TYPE_OFFSET, Be16(layout.protocolType));
    header[ARP_HARDWARE_LENGTH_OFFSET] := layout.hardwareLength;
    header[ARP_PROTOCOL_LENGTH_OFFSET] := layout.protocolLength;
    CopyFromSlice(header, ARP_OPCODE_OFFSET, Be16(layout.opcode));
    CopyFromSlice(header, ARP_SENDER_HARDWARE_OFFSET, layout.senderHardware);
    CopyFromSlice(header, ARP_SENDER_PROTOCOL_OFFSET, layout.senderProtocol);
    CopyFromSlice(header, ARP_TARGET_HARDWARE_OFFSET, layout.targetHardware);
    CopyFromSlice(header, ARP_TARGET_PROTOCOL_OFFSET, layout.targetProtocol);
    assert header[..] == PduOctets(layout);
    var payload := header[..] + layout.padding;
    if layout.llcSnap {
      octets := EncodeSnapFrame(
        layout.ethernetDestination, layout.ethernetSource, layout.vlanTag, ETHERNET_PROTOCOL_ARP, payload);
    } else {
      octets := EncodeEthernetIIFrame(
        layout.ethernetDestination, layout.ethernetSource, layout.vlanTag, ETHERNET_PROTOCOL_ARP, payload);
    }
    if |octets| < MINIMUM_FRAME_LENGTH {
      octets := octets + Zeros(MINIMUM_FRAME_LENGTH - |octets|);
    }
  }

  /** The RFC 826 request of the public builders: broadcast, with the interface as the sender. */
  function Rfc826Request(
      source: Mac, sourceAddress: Ipv4, target: Ipv4, vlan: Option<VlanIdentifier>, llcSnap: bool): RequestLayout
  {
    RequestLayout(
      BROADCAST_MAC, source,
      match vlan case None => None case Some(identifier) => Some(Customer(Tci(0, false, identifier))),
      llcSnap, ARP_HARDWARE_TYPE_ETHERNET, ETHERNET_PROTOCOL_IPV4,
      ARP_ETHERNET_HARDWARE_ADDRESS_LENGTH, ARP_IPV4_PROTOCOL_ADDRESS_LENGTH, ARP_OPERATION_REQUEST,
      source, sourceAddress, ZERO_MAC, target, [])
  }

  /** The copy into a fixed 60-octet frame never cuts, and the frame parses back to the request. */
  method BuildRequestWithWireOptions(
      source: Mac, sourceAddress: Ipv4, target: Ipv4, vlan: Option<VlanIdentifier>, llcSnap: bool)
    returns (minimum: array<u8>)
    ensures fresh(minimum) && minimum.Length == 60
    ensures minimum[..] == RequestOctets(Rfc826Request(source, sourceAddress, target, vlan, llcSnap))
    ensures TryParseArp(minimum[..]) == Success(ParsedArp(1, sourceAddress, source, [0, 0, 0, 0, 0, 0], target))
    ensures CarriesArp(minimum[..])
    ensures var parsed := TryParseEthernetFrame(minimum[..]).value;
      && parsed.destination == [0xFF, 0xFF, 0xFF, 0xFF, 0xFF, 0xFF] && parsed.source == source
      && parsed.vlanTag == (match vlan case None => None case Some(identifier) => Some(Tci(0, false, identifier)))
      && parsed.serviceVlanTag == None
      && (parsed.framing == Ieee8023LlcSnap <==> llcSnap)
  {
    hide TryParseArp, TryParseEthernetFrame, PduOctets, TciAsWord;
    var layout := Rfc826Request(source, sourceAddress, target, vlan, llcSnap);
    var encoded := EncodeRequestFromLayout(layout);
    RequestRoundTrip(layout);
    ParseOfPadded(
      layout.ethernetDestination, layout.ethernetSource, layout.vlanTag, llcSnap, PduOctets(layout) + layout.padding);
    minimum := new u8[MINIMUM_FRAME_LENGTH](i => 0);
    var copyLength := if |encoded| < MINIMUM_FRAME_LENGTH then |encoded| else MINIMUM_FRAME_LENGTH;
    CopyFromSlice(minimum, 0, encoded[..copyLength]);
    assert |encoded| == MINIMUM_FRAME_LENGTH;
    assert minimum[..] == encoded;
  }
}
