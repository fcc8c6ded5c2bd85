/**
 What the octets of a frame mean: every verdict of the two parsers and every octet of a request,
 stated on raw octets and numbers, without the parsers' own helpers and constants.
 */
module WireLaws {
  import opened AddressResolution
  import opened EthernetFrame
  import opened Octets
  import opened Wrappers

  /** The big-endian 16-bit number at an offset. */
  function FieldAt(octets: seq<u8>, offset: nat): nat
    requires offset + 2 <= |octets|
  {
    octets[offset] as nat * 0x100 + octets[offset + 1]
  }

  predicate IsTpid(field: nat) {
    field in {0x8100, 0x88A8, 0x9100, 0x9200, 0x9300}
  }

  /** A legal stack of `count` tags, the length/type field behind it not another tag. */
  predicate HasTags(frame: Frame, count: nat) {
    && 14 + 4 * count <= |frame|
    && !IsTpid(FieldAt(frame, 12 + 4 * count))
    && (count == 0
        || (count == 1 && FieldAt(frame, 12) == 0x8100)
        || (count == 2 && FieldAt(frame, 12) == 0x88A8 && FieldAt(frame, 16) == 0x8100))
  }

  /** RFC 1042 LLC/SNAP with the Ethernet OUI at an offset. */
  predicate HasSnap(frame: Frame, offset: nat) {
    offset + 8 <= |frame| && frame[offset..offset + 6] == [0xAA, 0xAA, 0x03, 0x00, 0x00, 0x00]
  }

  /** The tag with Tag Control Information at an offset: 3 bits priority, 1 bit drop eligible, 12 bits identifier. */
  function TciAt(frame: Frame, offset: nat): Tci
    requires offset + 2 <= |frame|
  {
    var word := FieldAt(frame, offset);
    Tci(word / 0x2000, word / 0x1000 % 2 == 1, word % 0x1000)
  }

  lemma FieldIsWord(frame: Frame, offset: nat)
    requires offset + 2 <= |frame|
    ensures FieldAt(frame, offset) == Word16(frame[offset], frame[offset + 1])
    ensures TciFromWord(Word16(frame[offset], frame[offset + 1])) == TciAt(frame, offset)
  {
    hide TciFromWord;
    var tci := TciFromWord(Word16(frame[offset], frame[offset + 1]));
    assert tci == TciAt(frame, offset);
  }

  /** Which frames are rejected for their length or their tags, and for which reason. */
  lemma TagVerdicts(frame: Frame)
    ensures var r := TryParseEthernetFrame(frame);
      var outer := if |frame| >= 14 then FieldAt(frame, 12) else 0;
      var second := if |frame| >= 18 then FieldAt(frame, 16) else 0;
      && (r == Failure(FrameShorterThanHeader) <==> |frame| < 14)
      && (r == Failure(UnsupportedQinqTpid) <==> outer in {0x9100, 0x9200, 0x9300})
      && (r == Failure(TagTruncated) <==> outer == 0x8100 && |frame| < 18)
      && (r == Failure(StackedCustomerTag) <==> outer == 0x8100 && IsTpid(second))
      && (r == Failure(ServiceTagTruncated) <==> outer == 0x88A8 && |frame| < 18)
      && (r == Failure(ServiceTagWithoutCustomerTag) <==> outer == 0x88A8 && |frame| >= 18 && second != 0x8100)
      && (r == Failure(CustomerTagTruncated) <==> outer == 0x88A8 && second == 0x8100 && |frame| < 22)
      && (r == Failure(TagStackTooDeep)
          <==> outer == 0x88A8 && second == 0x8100 && |frame| >= 22 && IsTpid(FieldAt(frame, 20)))
      && (r.Success? ==> HasTags(frame, 0) || HasTags(frame, 1) || HasTags(frame, 2))
  {
    hide TciFromWord;
  }

  /** The tag decoder on a legal stack. */
  lemma TagsDecoded(frame: Frame, tagCount: nat)
    requires HasTags(frame, tagCount)
    ensures DecodeOptionalTagStack(frame, Word16(frame[12], frame[13]))
      == Success((
           match tagCount
           case 0 => None
           case 1 => Some(Customer(TciAt(frame, 14)))
           case _ => Some(ServiceAndCustomer(TciAt(frame, 14), TciAt(frame, 18))),
           FieldAt(frame, 12 + 4 * tagCount), 14 + 4 * tagCount))
  {
    hide TciFromWord, TciAt, FieldAt, Word16;
    FieldIsWord(frame, 12);
    if tagCount > 0 {
      FieldIsWord(frame, 14);
      FieldIsWord(frame, 16);
    }
    if tagCount > 1 {
      FieldIsWord(frame, 18);
      FieldIsWord(frame, 20);
    }
  }

  /** The LLC/SNAP decoder, octet by octet. */
  lemma SnapVerdicts(frame: Frame, start: nat)
    ensures var r := DecodeRfc1042LlcSnap(frame, start);
      && (r == Failure(LlcSnapTruncated) <==> |frame| < start + 8)
      && (r == Failure(NotRfc1042LlcSnap)
          <==> |frame| >= start + 8 && frame[start..start + 3] != [0xAA, 0xAA, 0x03])
      && (r == Failure(SnapOuiNotRfc1042)
          <==> && |frame| >= start + 8
               && frame[start..start + 3] == [0xAA, 0xAA, 0x03] && frame[start + 3..start + 6] != [0, 0, 0])
      && (r.Success? <==> HasSnap(frame, start))
      && (r.Success? ==> r.value == (FieldAt(frame, start + 6), start + 8, Ieee8023LlcSnap))
  {
    if start + 8 <= |frame| {
      var llc, oui, header := frame[start..start + 3], frame[start + 3..start + 6], frame[start..start + 8];
      assert llc == [header[0], header[1], header[2]] && oui == header[3..6];
      assert frame[start..start + 6] == llc + oui;
      assert llc + oui == [0xAA, 0xAA, 0x03, 0x00, 0x00, 0x00] ==> llc == (llc + oui)[..3] && oui == (llc + oui)[3..];
    }
  }

  /** What becomes of a frame behind its tags: the reason it is rejected, or every decoded field. */
  lemma TypeVerdicts(frame: Frame, tagCount: nat)
    requires HasTags(frame, tagCount)
    ensures var r := TryParseEthernetFrame(frame);
      var field := FieldAt(frame, 12 + 4 * tagCount);
      var start := 14 + 4 * tagCount;
      && (r == Failure(NeitherLengthNorEtherType) <==> 1500 < field < 1536)
      && (r == Failure(LlcSnapTruncated) <==> field <= 1500 && |frame| < start + 8)
      && (r == Failure(NotRfc1042LlcSnap)
          <==> field <= 1500 && |frame| >= start + 8 && frame[start..start + 3] != [0xAA, 0xAA, 0x03])
      && (r == Failure(SnapOuiNotRfc1042)
          <==> && field <= 1500 && |frame| >= start + 8
               && frame[start..start + 3] == [0xAA, 0xAA, 0x03] && frame[start + 3..start + 6] != [0, 0, 0])
      && (r.Success? <==> field >= 1536 || (field <= 1500 && HasSnap(frame, start)))
      && (r.Success? ==>
            && r.value.destination == frame[..6] && r.value.source == frame[6..12]
            && r.value.serviceVlanTag == (if tagCount == 2 then Some(TciAt(frame, 14)) else None)
            && r.value.vlanTag == (if tagCount == 0 then None else Some(TciAt(frame, 10 + 4 * tagCount)))
            && r.value.vlanIdentifier
               == (if tagCount == 0 then None else Some(FieldAt(frame, 10 + 4 * tagCount) % 0x1000))
            && (r.value.framing == EthernetII <==> field >= 1536)
            && r.value.etherType == (if field >= 1536 then field else FieldAt(frame, start + 6))
            && r.value.payload == (if field >= 1536 then frame[start..] else frame[start + 8..]))
  {
    hide DecodeOptionalTagStack, DecodeRfc1042LlcSnap;
    TagsDecoded(frame, tagCount);
    SnapVerdicts(frame, 14 + 4 * tagCount);
  }

  // ----- ARP

  /** Which payloads are rejected, for which reason, and where the fields of the others stand. */
  lemma PduVerdicts(arp: seq<u8>)
    ensures var r := ParsePdu(arp);
      && (r == Failure(ArpPayloadTooShort) <==> |arp| < 28)
      && (|arp| >= 28 ==>
            var (hardwareType, protocolType, opcode) := (FieldAt(arp, 0), FieldAt(arp, 2), FieldAt(arp, 6));
            && (r == Failure(HardwareTypeReserved) <==> hardwareType in {0, 0xFFFF})
            && (r == Failure(HardwareTypeNotEthernet) <==> hardwareType !in {0, 1, 0xFFFF})
            && (r == Failure(ProtocolTypeNotIpv4) <==> hardwareType == 1 && protocolType != 0x0800)
            && (r == Failure(AddressLengthsNotEthernetIpv4)
                <==> hardwareType == 1 && protocolType == 0x0800 && (arp[4], arp[5]) != (6, 4))
            && (r == Failure(OpcodeReserved)
                <==> && hardwareType == 1 && protocolType == 0x0800 && (arp[4], arp[5]) == (6, 4)
                     && opcode in {0, 0xFFFF})
            && (r.Success?
                <==> && hardwareType == 1 && protocolType == 0x0800 && (arp[4], arp[5]) == (6, 4)
                     && opcode !in {0, 0xFFFF})
            && (r.Success? ==>
                  && r.value.opcode == opcode
                  && r.value.senderHardware == arp[8..14] && r.value.senderProtocol == arp[14..18]
                  && r.value.targetHardware == arp[18..24] && r.value.targetProtocol == arp[24..28]))
  {
  }

  /** The octets that make a frame ARP, under the three tag stacks and both framings. */
  predicate IsArpBehindTags(frame: Frame, tagCount: nat) {
    && HasTags(frame, tagCount)
    && (|| FieldAt(frame, 12 + 4 * tagCount) == 0x0806
        || (&& FieldAt(frame, 12 + 4 * tagCount) <= 1500
            && HasSnap(frame, 14 + 4 * tagCount)
            && FieldAt(frame, 20 + 4 * tagCount) == 0x0806))
  }

  /** Exactly these frames are ARP to the monitor; every other one is rejected for its framing or its type. */
  lemma ArpIsRecognised(frame: Frame)
    ensures CarriesArp(frame)
      <==> IsArpBehindTags(frame, 0) || IsArpBehindTags(frame, 1) || IsArpBehindTags(frame, 2)
    ensures CarriesArp(frame) ==> TryParseArp(frame) == ParsePdu(TryParseEthernetFrame(frame).value.payload)
    ensures !CarriesArp(frame) ==>
      && TryParseArp(frame).Failure?
      && if TryParseEthernetFrame(frame).Failure? then TryParseArp(frame).error == TryParseEthernetFrame(frame).error
         else TryParseArp(frame).error == EtherTypeNotArp
  {
    hide TryParseEthernetFrame, ParsePdu;
    TagVerdicts(frame);
    if HasTags(frame, 0) {
      TypeVerdicts(frame, 0);
    }
    if HasTags(frame, 1) {
      TypeVerdicts(frame, 1);
    }
    if HasTags(frame, 2) {
      TypeVerdicts(frame, 2);
    }
  }

  // ----- the request, octet by octet

  lemma FieldOfBe16(word: u16)
    ensures FieldAt(Be16(word), 0) == word
  {
  }

  /** The 28 octets of a PDU. */
  lemma PduImage(layout: RequestLayout)
    ensures var pdu := PduOctets(layout);
      && |pdu| == 28
      && FieldAt(pdu, 0) == layout.hardwareType && FieldAt(pdu, 2) == layout.protocolType
      && pdu[4] == layout.hardwareLength && pdu[5] == layout.protocolLength
      && FieldAt(pdu, 6) == layout.opcode
      && pdu[8..14] == layout.senderHardware && pdu[14..18] == layout.senderProtocol
      && pdu[18..24] == layout.targetHardware && pdu[24..28] == layout.targetProtocol
  {
    hide FieldAt;
    FieldOfBe16(layout.hardwareType);
    FieldOfBe16(layout.protocolType);
    FieldOfBe16(layout.opcode);
    var pdu := PduOctets(layout);
    FieldMoves(pdu, Be16(layout.hardwareType), 0);
    FieldMoves(pdu, Be16(layout.protocolType), 2);
    FieldMoves(pdu, Be16(layout.opcode), 6);
  }

  lemma FieldMoves(octets: seq<u8>, word: seq<u8>, offset: nat)
    requires |word| == 2 && offset + 2 <= |octets| && octets[offset] == word[0] && octets[offset + 1] == word[1]
    ensures FieldAt(octets, offset) == FieldAt(word, 0)
  {
  }

  /** The octets of a tag stack in front of anything else. */
  lemma TagImage(frame: Frame, tags: Option<TagStack>)
    requires 12 + |TagOctets(tags)| <= |frame| && frame[12..12 + |TagOctets(tags)|] == TagOctets(tags)
    ensures match tags
      case None => |TagOctets(tags)| == 0
      case Some(Customer(customer)) =>
        && |TagOctets(tags)| == 4
        && FieldAt(frame, 12) == 0x8100 && TciAt(frame, 14) == customer
      case Some(ServiceAndCustomer(service, customer)) =>
        && |TagOctets(tags)| == 8
        && FieldAt(frame, 12) == 0x88A8 && TciAt(frame, 14) == service
        && FieldAt(frame, 16) == 0x8100 && TciAt(frame, 18) == customer
  {
    hide TciAsWord, TciFromWord, FieldAt, TciAt, Be16;
    assert forall i :: 0 <= i < |TagOctets(tags)| ==> frame[12 + i] == TagOctets(tags)[i];
    match tags
    case None =>
    case Some(Customer(customer)) =>
      FieldOfBe16(0x8100);
      FieldMoves(frame, Be16(0x8100), 12);
      TciImage(frame, 14, customer);
    case Some(ServiceAndCustomer(service, customer)) =>
      FieldOfBe16(0x88A8);
      FieldOfBe16(0x8100);
      FieldMoves(frame, Be16(0x88A8), 12);
      TciImage(frame, 14, service);
      FieldMoves(frame, Be16(0x8100), 16);
      TciImage(frame, 18, customer);
  }

  lemma TciImage(frame: Frame, offset: nat, tci: Tci)
    requires offset + 2 <= |frame|
    requires frame[offset] == Be16(TciAsWord(tci))[0] && frame[offset + 1] == Be16(TciAsWord(tci))[1]
    ensures TciAt(frame, offset) == tci
  {
    hide TciAsWord, TciFromWord, FieldAt;
    FieldIsWord(frame, offset);
    Word16OfBe16(TciAsWord(tci));
    TciRoundTrip(0, tci);
  }

  function TagLength(tags: Option<TagStack>): nat {
    match tags
    case None => 0
    case Some(Customer(_)) => 4
    case Some(ServiceAndCustomer(_, _)) => 8
  }

  /** The tags of a frame stand behind its addresses, outermost first. */
  predicate CarriesTags(frame: Frame, tags: Option<TagStack>)
    requires |frame| >= 14 + TagLength(tags)
  {
    match tags
    case None => true
    case Some(Customer(customer)) => FieldAt(frame, 12) == 0x8100 && TciAt(frame, 14) == customer
    case Some(ServiceAndCustomer(service, customer)) =>
      && FieldAt(frame, 12) == 0x88A8 && TciAt(frame, 14) == service
      && FieldAt(frame, 16) == 0x8100 && TciAt(frame, 18) == customer
  }

  lemma HeaderImage(frame: Frame, destination: Mac, source: Mac, tags: Option<TagStack>, field: u16, rest: seq<u8>)
    requires frame == destination + source + TagOctets(tags) + Be16(field) + rest
    ensures var end := 12 + TagLength(tags);
      && |frame| == end + 2 + |rest|
      && frame[..6] == destination && frame[6..12] == source
      && CarriesTags(frame, tags)
      && FieldAt(frame, end) == field
      && frame[end + 2..] == rest
  {
    hide TagOctets, Be16, FieldAt, TciAt;
    HeaderPositions(frame, destination, source, tags, field, rest);
    TagImage(frame, tags);
    FieldIsWord(frame, 12 + TagLength(tags));
  }

  lemma SnapImage(frame: Frame, start: nat, payload: seq<u8>)
    requires start <= |frame| && frame[start..] == RFC_1042_SNAP_HEADER + Be16(ETHERNET_PROTOCOL_ARP) + payload
    ensures HasSnap(frame, start) && FieldAt(frame, start + 6) == 0x0806
    ensures frame[start + 8..] == payload
  {
    hide Be16, FieldAt;
    var rest := frame[start..];
    assert frame[start..start + 6] == rest[..6] == RFC_1042_SNAP_HEADER;
    assert frame[start + 8..] == rest[8..];
    assert frame[start + 6] == rest[6] && frame[start + 7] == rest[7];
    FieldOfBe16(ETHERNET_PROTOCOL_ARP);
    FieldMoves(frame, Be16(ETHERNET_PROTOCOL_ARP), start + 6);
  }

  /**
   Every octet of a framed ARP payload: addresses, tags outermost first, the type or the IEEE 802.3
   length of LLC/SNAP and payload (clamped to 1500 only beyond 16 bits), LLC/SNAP, payload.
   */
  lemma FramedImage(destination: Mac, source: Mac, tags: Option<TagStack>, llcSnap: bool, payload: seq<u8>)
    ensures var frame := Framed(destination, source, tags, llcSnap, payload);
      var end := 12 + TagLength(tags);
      && |frame| == end + 2 + (if llcSnap then 8 else 0) + |payload|
      && frame[..6] == destination && frame[6..12] == source
      && CarriesTags(frame, tags)
      && (llcSnap ==>
            && FieldAt(frame, end) == (if 8 + |payload| <= 65535 then 8 + |payload| else 1500)
            && HasSnap(frame, end + 2) && FieldAt(frame, end + 8) == 0x0806
            && frame[end + 10..] == payload)
      && (!llcSnap ==> FieldAt(frame, end) == 0x0806 && frame[end + 2..] == payload)
  {
    hide TagOctets, Be16, FieldAt, TciAt, CarriesTags, HasSnap;
    var frame := Framed(destination, source, tags, llcSnap, payload);
    var field: u16 := if llcSnap then SnapLengthField(|payload|) else ETHERNET_PROTOCOL_ARP;
    var rest := if llcSnap then RFC_1042_SNAP_HEADER + Be16(ETHERNET_PROTOCOL_ARP) + payload else payload;
    assert frame == destination + source + TagOctets(tags) + Be16(field) + rest;
    HeaderImage(frame, destination, source, tags, field, rest);
    if llcSnap {
      SnapImage(frame, 14 + TagLength(tags), payload);
    }
  }

  /** A request is its framed PDU and custom padding, then zeros up to 60 octets. */
  lemma RequestImage(layout: RequestLayout)
    ensures var request := RequestOctets(layout);
      var bare := Framed(
        layout.ethernetDestination, layout.ethernetSource, layout.vlanTag, layout.llcSnap,
        PduOctets(layout) + layout.padding);
      && |request| == (if |bare| < 60 then 60 else |bare|)
      && request[..|bare|] == bare
      && forall i :: |bare| <= i < |request| ==> request[i] == 0
  {
    hide Framed, PduOctets;
  }
}
