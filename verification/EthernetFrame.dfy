/** Ethernet II, IEEE 802.1Q / 802.1ad tags and RFC 1042 LLC/SNAP: encoders and parser. */
module EthernetFrame {
  import opened Bits
  import opened Octets
  import opened Wrappers

  const ETHERNET_II_HEADER_LENGTH := 14
  const IEEE_8021Q_TAG_LENGTH := 4
  const IEEE_8021AD_TAG_STACK_LENGTH := 8
  const IEEE_8023_LLC_SNAP_HEADER_LENGTH := 8
  const IEEE_8023_MAXIMUM_LENGTH: u16 := 1500
  const MINIMUM_ETHERNET_II_ETHERTYPE: u16 := 1536
  const ETHERNET_PROTOCOL_IPV4: u16 := 0x0800
  const ETHERNET_PROTOCOL_ARP: u16 := 0x0806
  const ETHERNET_PROTOCOL_VLAN_TAG: u16 := 0x8100
  const ETHERNET_PROTOCOL_VLAN_TAG_SERVICE: u16 := 0x88A8

  /** Every static message a parser of this crate can report, one constructor each. */
  datatype Reason =
    | FrameShorterThanHeader
    | TagTruncated
    | ServiceTagTruncated
    | CustomerTagTruncated
    | UnsupportedQinqTpid
    | StackedCustomerTag
    | ServiceTagWithoutCustomerTag
    | TagStackTooDeep
    | NeitherLengthNorEtherType
    | LlcSnapTruncated
    | NotRfc1042LlcSnap
    | SnapOuiNotRfc1042
    | EtherTypeNotArp
    | ArpPayloadTooShort
    | HardwareTypeReserved
    | HardwareTypeNotEthernet
    | ProtocolTypeNotIpv4
    | AddressLengthsNotEthernetIpv4
    | OpcodeReserved

  // ----- Tag Control Information (clause 9.6 of IEEE 802.1Q)

  const TCI_WIDTH: nat := 16
  const PRIORITY_CODE_POINT_SHIFT: nat := 13
  const PRIORITY_CODE_POINT_MASK: nat := 7
  const DROP_ELIGIBLE_INDICATOR_BIT: nat := 0x1000
  const VLAN_IDENTIFIER_MASK: nat := 0x0FFF

  type PriorityCodePoint = x: int | 0 <= x <= 7
  type VlanIdentifier = x: int | 0 <= x <= 0x0FFF

  datatype Tci = Tci(priorityCodePoint: PriorityCodePoint, dropEligible: bool, vlanIdentifier: VlanIdentifier)

  function TciAsWord(tci: Tci): (w: u16)
    ensures w == tci.priorityCodePoint * 0x2000 + (if tci.dropEligible then 0x1000 else 0) + tci.vlanIdentifier
  {
    hide Or, ShiftLeft, Pow2;
    TciWidth();
    var priority := ShiftLeft(TCI_WIDTH, tci.priorityCodePoint, PRIORITY_CODE_POINT_SHIFT);
    var dropEligible := if tci.dropEligible then DROP_ELIGIBLE_INDICATOR_BIT else 0;
    PackedTci(TCI_WIDTH, PRIORITY_CODE_POINT_SHIFT, 12, tci);
    Or(TCI_WIDTH, Or(TCI_WIDTH, priority, dropEligible), tci.vlanIdentifier)
  }

  lemma TciWidth()
    ensures Pow2(TCI_WIDTH) == 0x1_0000
  {
    Pow2Values();
  }

  /** The three fields do not overlap, so or-ing them together adds them up. */
  lemma PackedTci(width: nat, shift: nat, eligibleBit: nat, tci: Tci)
    requires width == 16 && shift == 13 && eligibleBit == 12 && Pow2(width) == 0x1_0000
    ensures var priority := ShiftLeft(width, tci.priorityCodePoint, shift);
      var dropEligible := if tci.dropEligible then 0x1000 else 0;
      && priority == tci.priorityCodePoint * 0x2000
      && Or(width, priority, dropEligible) == priority + dropEligible
      && Or(width, priority + dropEligible, tci.vlanIdentifier) == priority + dropEligible + tci.vlanIdentifier
  {
    hide Or, ShiftLeft, Pow2;
    Pow2Values();
    ShiftLeftValue(width, tci.priorityCodePoint, shift, width - shift);
    var priority := tci.priorityCodePoint * 0x2000;
    var dropEligible := if tci.dropEligible then 0x1000 else 0;
    OrDisjoint(width, priority, dropEligible, shift);
    OrDisjoint(width, priority + dropEligible, tci.vlanIdentifier, eligibleBit);
  }

  function TciFromWord(w: u16): (tci: Tci)
    ensures tci.priorityCodePoint == w / 0x2000
    ensures tci.dropEligible <==> w / 0x1000 % 2 == 1
    ensures tci.vlanIdentifier == w % 0x1000
  {
    UnpackedTci(TCI_WIDTH, PRIORITY_CODE_POINT_SHIFT, 3, 12, w);
    Tci(
      And(TCI_WIDTH, ShiftRight(w, PRIORITY_CODE_POINT_SHIFT), PRIORITY_CODE_POINT_MASK),
      And(TCI_WIDTH, w, DROP_ELIGIBLE_INDICATOR_BIT) != 0,
      And(TCI_WIDTH, w, VLAN_IDENTIFIER_MASK))
  }

  lemma UnpackedTci(width: nat, shift: nat, priorityBits: nat, eligibleBit: nat, w: u16)
    requires width == 16 && shift == 13 && priorityBits == 3 && eligibleBit == 12
    ensures And(width, ShiftRight(w, shift), 7) == w / 0x2000
    ensures And(width, w, 0x1000) == if w / 0x1000 % 2 == 1 then 0x1000 else 0
    ensures And(width, w, 0x0FFF) == w % 0x1000
  {
    hide And, ShiftRight, Pow2;
    Pow2Values();
    ShiftRightValue(w, shift);
    AndLowMask(width, ShiftRight(w, shift), priorityBits);
    AndSingleBit(width, w, eligibleBit);
    AndLowMask(width, w, eligibleBit);
  }

  /** Encoding and decoding a TCI are inverse on all 2^16 words and all (PCP, DEI, VID) triples. */
  lemma TciRoundTrip(w: u16, tci: Tci)
    ensures TciAsWord(TciFromWord(w)) == w
    ensures TciFromWord(TciAsWord(tci)) == tci
  {
    hide *;
    var unpacked := TciFromWord(w);
    assert w == (w / 0x2000) * 0x2000 + (w / 0x1000 % 2) * 0x1000 + w % 0x1000;
    var packed := TciAsWord(tci);
    var again := TciFromWord(packed);
    assert again.priorityCodePoint == tci.priorityCodePoint;
    assert again.vlanIdentifier == tci.vlanIdentifier;
    assert again.dropEligible == tci.dropEligible;
  }

  // ----- tag stacks

  datatype TagStack =
    | Customer(customer: Tci)
    | ServiceAndCustomer(service: Tci, customer: Tci)
  {
    function ServiceTci(): Option<Tci> {
      if Customer? then None else Some(service)
    }

    function EncodedOctetCount(): nat {
      if Customer? then IEEE_8021Q_TAG_LENGTH else IEEE_8021AD_TAG_STACK_LENGTH
    }

    function OuterTpid(): u16 {
      if Customer? then ETHERNET_PROTOCOL_VLAN_TAG else ETHERNET_PROTOCOL_VLAN_TAG_SERVICE
    }
  }

  function NewTagStack(service: Option<Tci>, customer: Tci): TagStack {
    match service
    case Some(outer) => ServiceAndCustomer(outer, customer)
    case None => Customer(customer)
  }

  /** The octets a tag stack puts between the source address and the length/type field. */
  function TagOctets(tags: Option<TagStack>): seq<u8> {
    match tags
    case None => []
    case Some(Customer(customer)) => Be16(ETHERNET_PROTOCOL_VLAN_TAG) + Be16(TciAsWord(customer))
    case Some(ServiceAndCustomer(service, customer)) =>
      Be16(ETHERNET_PROTOCOL_VLAN_TAG_SERVICE) + Be16(TciAsWord(service))
      + Be16(ETHERNET_PROTOCOL_VLAN_TAG) + Be16(TciAsWord(customer))
  }

  // ----- wire images of the two framings

  function EthernetIIOctets(
      destination: Mac, source: Mac, tags: Option<TagStack>, etherType: u16, payload: seq<u8>): Frame
  {
    destination + source + TagOctets(tags) + Be16(etherType) + payload
  }

  /** The clamp applies only when the MAC client data does not fit 16 bits. */
  function SnapLengthField(payloadLength: nat): u16 {
    var macClientDataLength := IEEE_8023_LLC_SNAP_HEADER_LENGTH + payloadLength;
    if macClientDataLength < 0x1_0000 then macClientDataLength else IEEE_8023_MAXIMUM_LENGTH
  }

  const RFC_1042_SNAP_HEADER: seq<u8> := [0xAA, 0xAA, 0x03, 0x00, 0x00, 0x00]

  function SnapOctets(destination: Mac, source: Mac, tags: Option<TagStack>, etherType: u16, payload: seq<u8>): Frame {
    destination + source + TagOctets(tags) + Be16(SnapLengthField(|payload|))
    + (RFC_1042_SNAP_HEADER + Be16(etherType) + payload)
  }

  // ----- parser

  datatype Framing = EthernetII | Ieee8023LlcSnap

  datatype ParsedEthernetFrame = ParsedEthernetFrame(
    destination: Mac,
    source: Mac,
    etherType: u16,
    serviceVlanTag: Option<Tci>,
    vlanTag: Option<Tci>,
    vlanIdentifier: Option<VlanIdentifier>,
    framing: Framing,
    payload: seq<u8>)

  function ReadWordAt(frame: Frame, offset: nat, truncated: Reason): Result<u16, Reason> {
    if offset + 2 <= |frame| then Success(Word16(frame[offset], frame[offset + 1])) else Failure(truncated)
  }

  predicate IsUnsupportedVlanTpid(typeOrLength: u16) {
    typeOrLength == 0x9100 || typeOrLength == 0x9200 || typeOrLength == 0x9300
  }

  /** The five values the parser treats as a VLAN tag protocol identifier. */
  predicate IsVlanTpid(typeOrLength: u16) {
    || typeOrLength == ETHERNET_PROTOCOL_VLAN_TAG
    || typeOrLength == ETHERNET_PROTOCOL_VLAN_TAG_SERVICE
    || IsUnsupportedVlanTpid(typeOrLength)
  }

  function DecodeServiceAndCustomerTags(frame: Frame): (r: Result<(Option<TagStack>, u16, nat), Reason>)
    ensures r.Success? ==> r.value.2 <= |frame|
  {
    var service :- ReadWordAt(frame, ETHERNET_II_HEADER_LENGTH, ServiceTagTruncated);
    var customerTpid :- ReadWordAt(frame, ETHERNET_II_HEADER_LENGTH + 2, ServiceTagTruncated);
    if customerTpid != ETHERNET_PROTOCOL_VLAN_TAG then Failure(ServiceTagWithoutCustomerTag) else
    var customerOffset := ETHERNET_II_HEADER_LENGTH + IEEE_8021Q_TAG_LENGTH;
    var customer :- ReadWordAt(frame, customerOffset, CustomerTagTruncated);
    var inner :- ReadWordAt(frame, customerOffset + 2, CustomerTagTruncated);
    if IsVlanTpid(inner) then Failure(TagStackTooDeep) else
    Success((
      Some(ServiceAndCustomer(TciFromWord(service), TciFromWord(customer))),
      inner,
      ETHERNET_II_HEADER_LENGTH + IEEE_8021AD_TAG_STACK_LENGTH))
  }

  function DecodeOptionalTagStack(frame: Frame, typeOrLength: u16): (r: Result<(Option<TagStack>, u16, nat), Reason>)
    requires ETHERNET_II_HEADER_LENGTH <= |frame|
    ensures r.Success? ==> r.value.2 <= |frame|
  {
    if IsUnsupportedVlanTpid(typeOrLength) then Failure(UnsupportedQinqTpid)
    else if typeOrLength == ETHERNET_PROTOCOL_VLAN_TAG_SERVICE then DecodeServiceAndCustomerTags(frame)
    else if typeOrLength != ETHERNET_PROTOCOL_VLAN_TAG then
      Success((None, typeOrLength, ETHERNET_II_HEADER_LENGTH))
    else
      var customer :- ReadWordAt(frame, ETHERNET_II_HEADER_LENGTH, TagTruncated);
      var inner :- ReadWordAt(frame, ETHERNET_II_HEADER_LENGTH + 2, TagTruncated);
      if IsVlanTpid(inner) then Failure(StackedCustomerTag) else
      Success((Some(Customer(TciFromWord(customer))), inner, ETHERNET_II_HEADER_LENGTH + IEEE_8021Q_TAG_LENGTH))
  }

  function DecodeRfc1042LlcSnap(frame: Frame, payloadStart: nat): (r: Result<(u16, nat, Framing), Reason>)
    ensures r.Success? ==> r.value.1 <= |frame|
  {
    var snapEnd := payloadStart + IEEE_8023_LLC_SNAP_HEADER_LENGTH;
    if snapEnd > |frame| then Failure(LlcSnapTruncated) else
    var header := frame[payloadStart..snapEnd];
    if header[0] != 0xAA || header[1] != 0xAA || header[2] != 0x03 then Failure(NotRfc1042LlcSnap)
    else if header[3..6] != [0, 0, 0] then Failure(SnapOuiNotRfc1042)
    else Success((Word16(header[6], header[7]), snapEnd, Ieee8023LlcSnap))
  }

  function DecodeEtherTypeOrSnap(
      frame: Frame, typeOrLength: u16, payloadStart: nat): (r: Result<(u16, nat, Framing), Reason>)
    requires payloadStart <= |frame|
    ensures r.Success? ==> r.value.1 <= |frame|
  {
    if typeOrLength >= MINIMUM_ETHERNET_II_ETHERTYPE then Success((typeOrLength, payloadStart, EthernetII))
    else if typeOrLength > IEEE_8023_MAXIMUM_LENGTH then Failure(NeitherLengthNorEtherType)
    else DecodeRfc1042LlcSnap(frame, payloadStart)
  }

  function TryParseEthernetFrame(frame: Frame): Result<ParsedEthernetFrame, Reason> {
    if |frame| < ETHERNET_II_HEADER_LENGTH then Failure(FrameShorterThanHeader) else
    var (tags, inner, typeEnd) :- DecodeOptionalTagStack(frame, Word16(frame[12], frame[13]));
    var (etherType, payloadStart, framing) :- DecodeEtherTypeOrSnap(frame, inner, typeEnd);
    Success(ParsedAs(frame[..6], frame[6..12], tags, etherType, framing, frame[payloadStart..]))
  }

  /** How the parser reports a decoded tag stack: one optional field per tag. */
  function ParsedAs(
      destination: Mac, source: Mac, tags: Option<TagStack>, etherType: u16, framing: Framing, payload: seq<u8>)
    : ParsedEthernetFrame
  {
    var customer := match tags case None => None case Some(stack) => Some(stack.customer);
    ParsedEthernetFrame(
      destination, source, etherType,
      match tags case None => None case Some(stack) => stack.ServiceTci(),
      customer,
      match customer case None => None case Some(tag) => Some(tag.vlanIdentifier),
      framing, payload)
  }

  // ----- encode, then decode

  /** The first 14 octets and the tags of an encoded frame, read back by position. */
  lemma HeaderPositions(
      frame: Frame, destination: Mac, source: Mac, tags: Option<TagStack>, typeField: u16, rest: seq<u8>)
    requires frame == destination + source + TagOctets(tags) + Be16(typeField) + rest
    ensures var n := |TagOctets(tags)|;
      && |frame| == 14 + n + |rest|
      && frame[..6] == destination && frame[6..12] == source
      && frame[12..12 + n] == TagOctets(tags)
      && Word16(frame[12 + n], frame[13 + n]) == typeField
      && frame[14 + n..] == rest
  {
    hide TagOctets, Be16, Word16;
    var n := |TagOctets(tags)|;
    Word16OfBe16(typeField);
    assert frame[12 + n] == Be16(typeField)[0] && frame[13 + n] == Be16(typeField)[1];
  }

  /** The tag decoder recovers the stack exactly when the field behind it is not another TPID. */
  lemma DecodeTagsOfEncoded(
      frame: Frame, destination: Mac, source: Mac, tags: Option<TagStack>, typeField: u16, rest: seq<u8>)
    requires frame == destination + source + TagOctets(tags) + Be16(typeField) + rest
    ensures |frame| >= 14
    ensures var r := DecodeOptionalTagStack(frame, Word16(frame[12], frame[13]));
      && (!IsVlanTpid(typeField) ==> r == Success((tags, typeField, 14 + |TagOctets(tags)|)))
      && (IsVlanTpid(typeField) ==> r.Failure? || r.value.0 != tags)
  {
    hide TciAsWord, TciFromWord;
    HeaderPositions(frame, destination, source, tags, typeField, rest);
    match tags
    case None =>
    case Some(Customer(customer)) =>
      TciRoundTrip(0, customer);
      Word16OfBe16(TciAsWord(customer));
      assert forall i :: 0 <= i < 4 ==> frame[12 + i] == TagOctets(tags)[i];
    case Some(ServiceAndCustomer(service, customer)) =>
      TciRoundTrip(0, service);
      TciRoundTrip(0, customer);
      Word16OfBe16(TciAsWord(service));
      Word16OfBe16(TciAsWord(customer));
      assert forall i :: 0 <= i < 8 ==> frame[12 + i] == TagOctets(tags)[i];
  }

  /**
   Ethernet II frames parse back to everything that was encoded, under every tag stack, exactly
   when the type is an EtherType that is not itself a VLAN TPID.
   */
  lemma EthernetIIRoundTrip(destination: Mac, source: Mac, tags: Option<TagStack>, etherType: u16, payload: seq<u8>)
    ensures
      TryParseEthernetFrame(EthernetIIOctets(destination, source, tags, etherType, payload))
      == Success(ParsedAs(destination, source, tags, etherType, EthernetII, payload))
      <==> etherType >= 1536 && etherType !in {0x8100, 0x88A8, 0x9100, 0x9200, 0x9300}
  {
    hide TagOctets, Be16, DecodeOptionalTagStack, DecodeRfc1042LlcSnap;
    var frame := EthernetIIOctets(destination, source, tags, etherType, payload);
    var start := 14 + |TagOctets(tags)|;
    HeaderPositions(frame, destination, source, tags, etherType, payload);
    DecodeTagsOfEncoded(frame, destination, source, tags, etherType, payload);
    if DecodeRfc1042LlcSnap(frame, start).Success? {
      DecodedSnapReencodes(frame, start);
    }
  }

  lemma DecodeSnapOfEncoded(frame: Frame, start: nat, etherType: u16, payload: seq<u8>)
    requires start <= |frame| && frame[start..] == RFC_1042_SNAP_HEADER + Be16(etherType) + payload
    ensures DecodeRfc1042LlcSnap(frame, start) == Success((etherType, start + 8, Ieee8023LlcSnap))
    ensures frame[start + 8..] == payload
  {
    Word16OfBe16(etherType);
    var body := RFC_1042_SNAP_HEADER + Be16(etherType) + payload;
    var header := frame[start..start + 8];
    assert forall i :: 0 <= i < 8 ==> header[i] == body[i];
    assert header[3..6] == [0, 0, 0];
    assert frame[start + 8..] == frame[start..][8..];
  }

  /** Any length field up to 1500 will do: the parser never compares it with the data behind it. */
  lemma ParseOfSnapFrame(
      frame: Frame, destination: Mac, source: Mac, tags: Option<TagStack>, lengthField: u16, etherType: u16,
      payload: seq<u8>)
    requires frame == destination + source + TagOctets(tags) + Be16(lengthField)
      + (RFC_1042_SNAP_HEADER + Be16(etherType) + payload)
    ensures
      TryParseEthernetFrame(frame) == Success(ParsedAs(destination, source, tags, etherType, Ieee8023LlcSnap, payload))
      <==> lengthField <= 1500
  {
    hide TagOctets, DecodeOptionalTagStack, DecodeRfc1042LlcSnap, Be16;
    var body := RFC_1042_SNAP_HEADER + Be16(etherType) + payload;
    HeaderPositions(frame, destination, source, tags, lengthField, body);
    DecodeTagsOfEncoded(frame, destination, source, tags, lengthField, body);
    DecodeSnapOfEncoded(frame, 14 + |TagOctets(tags)|, etherType, payload);
  }

  /**
   SNAP frames parse back for every EtherType exactly when the MAC client data fits an IEEE 802.3
   length field or overflows 16 bits (only then does the encoder clamp the field to 1500).
   */
  lemma SnapRoundTrip(destination: Mac, source: Mac, tags: Option<TagStack>, etherType: u16, payload: seq<u8>)
    ensures
      TryParseEthernetFrame(SnapOctets(destination, source, tags, etherType, payload))
      == Success(ParsedAs(destination, source, tags, etherType, Ieee8023LlcSnap, payload))
      <==> |payload| <= 1492 || |payload| > 65527
  {
    ParseOfSnapFrame(SnapOctets(destination, source, tags, etherType, payload),
      destination, source, tags, SnapLengthField(|payload|), etherType, payload);
  }

  /** A frame the SNAP encoder produces and the parser misreads: 1493 payload octets. */
  lemma SnapOversizeIsMisread()
    ensures
      var payload := seq(1493, i => 0);
      TryParseEthernetFrame(SnapOctets(ZERO_MAC, ZERO_MAC, None, ETHERNET_PROTOCOL_ARP, payload))
      == Failure(NeitherLengthNorEtherType)
  {
    var payload: seq<u8> := seq(1493, i => 0);
    var frame := SnapOctets(ZERO_MAC, ZERO_MAC, None, ETHERNET_PROTOCOL_ARP, payload);
    var body := RFC_1042_SNAP_HEADER + Be16(ETHERNET_PROTOCOL_ARP) + payload;
    HeaderPositions(frame, ZERO_MAC, ZERO_MAC, None, 1501, body);
  }

  // ----- decode, then encode

  function TagsOf(parsed: ParsedEthernetFrame): Option<TagStack> {
    match parsed.vlanTag
    case None => None
    case Some(customer) => Some(NewTagStack(parsed.serviceVlanTag, customer))
  }

  function Reencoded(parsed: ParsedEthernetFrame): Frame {
    if parsed.framing == EthernetII then
      EthernetIIOctets(parsed.destination, parsed.source, TagsOf(parsed), parsed.etherType, parsed.payload)
    else
      SnapOctets(parsed.destination, parsed.source, TagsOf(parsed), parsed.etherType, parsed.payload)
  }

  lemma TciOctetsReencode(high: u8, low: u8)
    ensures Be16(TciAsWord(TciFromWord(Word16(high, low)))) == [high, low]
  {
    hide TciAsWord, TciFromWord;
    TciRoundTrip(Word16(high, low), Tci(0, false, 0));
    Be16OfWord16(high, low);
  }

  /** What the tag decoder consumed is what the tag encoder writes. */
  lemma DecodedTagsReencode(frame: Frame)
    requires |frame| >= 14
    requires DecodeOptionalTagStack(frame, Word16(frame[12], frame[13])).Success?
    ensures var (tags, inner, typeEnd) := DecodeOptionalTagStack(frame, Word16(frame[12], frame[13])).value;
      && typeEnd == 14 + |TagOctets(tags)| <= |frame|
      && frame[12..typeEnd] == TagOctets(tags) + Be16(inner)
      && (tags.Some? ==> tags == Some(NewTagStack(tags.value.ServiceTci(), tags.value.customer)))
  {
    hide TciAsWord, TciFromWord;
    var (tags, inner, typeEnd) := DecodeOptionalTagStack(frame, Word16(frame[12], frame[13])).value;
    Be16OfWord16(frame[12], frame[13]);
    if tags.Some? {
      Be16OfWord16(frame[16], frame[17]);
      TciOctetsReencode(frame[14], frame[15]);
      if tags.value.ServiceAndCustomer? {
        TciOctetsReencode(frame[18], frame[19]);
        Be16OfWord16(frame[20], frame[21]);
        assert frame[12..22] == [frame[12], frame[13]] + [frame[14], frame[15]] + [frame[16], frame[17]]
          + [frame[18], frame[19]] + [frame[20], frame[21]];
      } else {
        assert frame[12..18] == [frame[12], frame[13]] + [frame[14], frame[15]] + [frame[16], frame[17]];
      }
    }
  }

  /**
   Re-encoding a parsed frame gives back every octet of an Ethernet II frame. For SNAP only the
   two length octets can change, to the length of the data that is really there.
   */
  lemma DecodeThenEncode(frame: Frame)
    requires TryParseEthernetFrame(frame).Success?
    ensures var parsed := TryParseEthernetFrame(frame).value;
      var typeEnd := 14 + |TagOctets(TagsOf(parsed))|;
      && typeEnd <= |frame|
      && (parsed.framing == EthernetII ==>
            Reencoded(parsed) == frame && parsed.payload == frame[typeEnd..])
      && (parsed.framing == Ieee8023LlcSnap ==>
            && typeEnd + 8 <= |frame|
            && parsed.payload == frame[typeEnd + 8..]
            && Reencoded(parsed) ==
               frame[..typeEnd - 2] + Be16(SnapLengthField(|parsed.payload|)) + frame[typeEnd..])
  {
    hide TagOctets, DecodeOptionalTagStack, DecodeRfc1042LlcSnap, SnapLengthField, Be16;
    DecodedTagsReencode(frame);
    var (tags, inner, typeEnd) := DecodeOptionalTagStack(frame, Word16(frame[12], frame[13])).value;
    var parsed := TryParseEthernetFrame(frame).value;
    assert TagsOf(parsed) == tags;
    HeaderRejoins(frame, TagOctets(tags), Be16(inner));
    if inner < MINIMUM_ETHERNET_II_ETHERTYPE {
      DecodedSnapReencodes(frame, typeEnd);
    }
  }

  lemma HeaderRejoins(frame: Frame, tagOctets: seq<u8>, typeOctets: seq<u8>)
    requires |typeOctets| == 2 && 14 + |tagOctets| <= |frame|
    requires frame[12..14 + |tagOctets|] == tagOctets + typeOctets
    ensures frame[..6] + frame[6..12] + tagOctets == frame[..12 + |tagOctets|]
    ensures frame[..12 + |tagOctets|] + typeOctets + frame[14 + |tagOctets|..] == frame
  {
    var n := |tagOctets|;
    assert frame[12..14 + n][..n] == tagOctets && frame[12..14 + n][n..] == typeOctets;
    assert frame[..12 + n] == frame[..6] + frame[6..12] + frame[12..12 + n];
  }

  lemma DecodedSnapReencodes(frame: Frame, start: nat)
    requires DecodeRfc1042LlcSnap(frame, start).Success?
    ensures start + 8 <= |frame|
    ensures var (etherType, end, framing) := DecodeRfc1042LlcSnap(frame, start).value;
      && end == start + 8 && framing == Ieee8023LlcSnap
      && frame[start..] == RFC_1042_SNAP_HEADER + Be16(etherType) + frame[end..]
  {
    hide Be16, Word16;
    Be16OfWord16(frame[start + 6], frame[start + 7]);
    var header := frame[start..start + 8];
    var oui := header[3..6];
    assert oui[0] == header[3] && oui[1] == header[4] && oui[2] == header[5];
    assert header == RFC_1042_SNAP_HEADER + [header[6], header[7]];
    assert frame[start..] == header + frame[start + 8..];
  }

  // ----- the encoders, as they grow a buffer in place

  /** `Vec<u8>`, as far as the encoders use it. */
  class FrameBuffer {
    var octets: seq<u8>

    constructor ()
      ensures octets == []
    {
      octets := [];
    }

    method ExtendFromSlice(slice: seq<u8>)
      modifies this
      ensures octets == old(octets) + slice
    {
      octets := octets + slice;
    }

    method Push(octet: u8)
      modifies this
      ensures octets == old(octets) + [octet]
    {
      octets := octets + [octet];
    }
  }

  method AppendTagStack(frame: FrameBuffer, tags: TagStack)
    modifies frame
    ensures frame.octets == old(frame.octets) + TagOctets(Some(tags))
  {
    hide TciAsWord, Be16;
    frame.ExtendFromSlice(Be16(tags.OuterTpid()));
    var service := tags.ServiceTci();
    if service.Some? {
      frame.ExtendFromSlice(Be16(TciAsWord(service.value)));
      frame.ExtendFromSlice(Be16(ETHERNET_PROTOCOL_VLAN_TAG));
    }
    frame.ExtendFromSlice(Be16(TciAsWord(tags.customer)));
  }

  lemma NoTags(tags: Option<TagStack>)
    ensures tags.None? ==> TagOctets(tags) == []
  {
  }

  method EncodeEthernetIIFrame(destination: Mac, source: Mac, tags: Option<TagStack>, etherType: u16, payload: seq<u8>)
    returns (octets: Frame)
    ensures octets == EthernetIIOctets(destination, source, tags, etherType, payload)
  {
    hide TagOctets, Be16, SnapLengthField;
    var frame := new FrameBuffer();
    frame.ExtendFromSlice(destination);
    frame.ExtendFromSlice(source);
    if tags.Some? {
      AppendTagStack(frame, tags.value);
    }
    NoTags(tags);
    assert frame.octets == destination + source + TagOctets(tags);
    frame.ExtendFromSlice(Be16(etherType));
    frame.ExtendFromSlice(payload);
    return frame.octets;
  }

  method EncodeSnapFrame(destination: Mac, source: Mac, tags: Option<TagStack>, etherType: u16, payload: seq<u8>)
    returns (octets: Frame)
    ensures octets == SnapOctets(destination, source, tags, etherType, payload)
  {
    hide TagOctets, Be16, SnapLengthField;
    var frame := new FrameBuffer();
    frame.ExtendFromSlice(destination);
    frame.ExtendFromSlice(source);
    if tags.Some? {
      AppendTagStack(frame, tags.value);
    }
    NoTags(tags);
    assert frame.octets == destination + source + TagOctets(tags);
    frame.ExtendFromSlice(Be16(SnapLengthField(|payload|)));
    frame.Push(0xAA);
    frame.Push(0xAA);
    frame.Push(0x03);
    frame.ExtendFromSlice([0, 0, 0]);
    ghost var head := destination + source + TagOctets(tags) + Be16(SnapLengthField(|payload|));
    assert frame.octets == head + RFC_1042_SNAP_HEADER;
    frame.ExtendFromSlice(Be16(etherType));
    frame.ExtendFromSlice(payload);
    assert frame.octets == head + (RFC_1042_SNAP_HEADER + Be16(etherType) + payload);
    return frame.octets;
  }
}
