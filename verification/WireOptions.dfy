/** Scan wire options: resolution into a request layout, the two validators, and end-to-end laws. */
module WireOptions {
  import opened AddressResolution
  import opened EthernetFrame
  import opened Octets
  import opened WireLaws
  import opened Wrappers

  datatype SenderProtocolAddress = Interface | Explicit(address: Ipv4) | DestinationTarget {
    function AddressForTarget(interfaceAddress: Ipv4, target: Ipv4): Ipv4 {
      match this
      case Interface => interfaceAddress
      case Explicit(address) => address
      case DestinationTarget => target
    }
  }

  datatype WireError =
    | ServiceVlanTagRequiresCustomerVlanTag(serviceVlanIdentifier: VlanIdentifier)
    | MacClientDataExceedsMaximum(octetCount: nat, maximum: u16)

  datatype ScanWireOptions = ScanWireOptions(
    vlanIdentifier: Option<VlanIdentifier>,
    vlanPriorityCodePoint: PriorityCodePoint,
    vlanDropEligible: bool,
    serviceVlanIdentifier: Option<VlanIdentifier>,
    serviceVlanPriorityCodePoint: PriorityCodePoint,
    serviceVlanDropEligible: bool,
    senderProtocolAddress: SenderProtocolAddress,
    llcSnap: bool,
    ethernetDestination: Option<Mac>,
    ethernetSource: Option<Mac>,
    arpHardwareType: u16,
    arpProtocolType: u16,
    arpHardwareLength: u8,
    arpProtocolLength: u8,
    arpOperation: u16,
    arpSenderHardware: Option<Mac>,
    arpTargetHardware: Option<Mac>,
    padding: seq<u8>)
  {
    function ResolvedTagStack(): Option<TagStack> {
      match vlanIdentifier
      case None => None
      case Some(identifier) =>
        var customer := Tci(vlanPriorityCodePoint, vlanDropEligible, identifier);
        var service := match serviceVlanIdentifier
          case None => None
          case Some(outer) => Some(Tci(serviceVlanPriorityCodePoint, serviceVlanDropEligible, outer));
        Some(NewTagStack(service, customer))
    }

    function Layout(interfaceMac: Mac, senderProtocol: Ipv4, targetProtocol: Ipv4): RequestLayout {
      RequestLayout(
        UnwrapOr(ethernetDestination, BROADCAST_MAC),
        UnwrapOr(ethernetSource, interfaceMac),
        ResolvedTagStack(),
        llcSnap,
        arpHardwareType,
        arpProtocolType,
        arpHardwareLength,
        arpProtocolLength,
        arpOperation,
        UnwrapOr(arpSenderHardware, interfaceMac),
        senderProtocol,
        UnwrapOr(arpTargetHardware, ZERO_MAC),
        targetProtocol,
        padding)
    }

    function ValidateTagStack(): Result<(), WireError> {
      match (serviceVlanIdentifier, vlanIdentifier)
      case (Some(service), None) => Failure(ServiceVlanTagRequiresCustomerVlanTag(service))
      case _ => Success(())
    }

    function MacClientDataOctetCount(): nat {
      var arpAndPadding := ARP_PDU_LENGTH + |padding|;
      if llcSnap then IEEE_8023_LLC_SNAP_HEADER_LENGTH + arpAndPadding else arpAndPadding
    }

    function ValidateMacClientData(): Result<(), WireError> {
      var octetCount := MacClientDataOctetCount();
      if octetCount > IEEE_8023_MAXIMUM_LENGTH then
        Failure(MacClientDataExceedsMaximum(octetCount, IEEE_8023_MAXIMUM_LENGTH))
      else Success(())
    }
  }

  function UnwrapOr(address: Option<Mac>, fallback: Mac): Mac {
    match address
    case Some(a) => a
    case None => fallback
  }

  /** The VLAN identifiers a receiver reads from the tags of a frame, outermost first. */
  function SentIdentifiers(tags: Option<TagStack>): (Option<VlanIdentifier>, Option<VlanIdentifier>) {
    match tags
    case None => (None, None)
    case Some(Customer(customer)) => (None, Some(customer.vlanIdentifier))
    case Some(ServiceAndCustomer(service, customer)) => (Some(service.vlanIdentifier), Some(customer.vlanIdentifier))
  }

  /** The tag validator accepts exactly the options none of whose identifiers is silently dropped. */
  lemma ValidTagsAreAllSent(options: ScanWireOptions)
    ensures options.ValidateTagStack().Success?
      <==> SentIdentifiers(options.ResolvedTagStack()) == (options.serviceVlanIdentifier, options.vlanIdentifier)
  {
  }

  function Max(a: int, b: int): int {
    if a < b then b else a
  }

  /** Header, tags, LLC/SNAP, ARP PDU and custom padding, but at least the IEEE 802.3 minimum. */
  lemma RequestLength(layout: RequestLayout)
    ensures |RequestOctets(layout)|
      == Max(60,
           14 + (if layout.vlanTag.Some? then layout.vlanTag.value.EncodedOctetCount() else 0)
           + (if layout.llcSnap then 8 else 0) + 28 + |layout.padding|)
  {
    hide TciAsWord;
  }

  /** What the two validators reject, and with which error. */
  lemma ValidatorsAreExact(options: ScanWireOptions, service: VlanIdentifier)
    ensures options.ValidateTagStack() == Failure(ServiceVlanTagRequiresCustomerVlanTag(service))
      <==> options.serviceVlanIdentifier == Some(service) && options.vlanIdentifier == None
    ensures var octetCount := (if options.llcSnap then 8 else 0) + 28 + |options.padding|;
      && (options.ValidateMacClientData().Success? <==> octetCount <= 1500)
      && (octetCount > 1500 ==>
            options.ValidateMacClientData() == Failure(MacClientDataExceedsMaximum(octetCount, 1500)))
  {
  }

  /**
   End to end: options that pass both validators produce a frame of 60 octets, or more where header,
   configured tags, LLC/SNAP, PDU and padding need more. Its Ethernet header, tags, framing, ARP
   octets and padding are the configured ones, or their documented defaults, with zeros behind them,
   and the parser accepts it exactly when its fields are Ethernet/IPv4 with an opcode RFC 5494 allows.
   */
  lemma ValidOptionsRoundTrip(options: ScanWireOptions, interfaceMac: Mac, interfaceAddress: Ipv4, target: Ipv4)
    requires options.ValidateTagStack().Success? && options.ValidateMacClientData().Success?
    ensures var sender := options.senderProtocolAddress.AddressForTarget(interfaceAddress, target);
      var frame := RequestOctets(options.Layout(interfaceMac, sender, target));
      && |frame|
         == Max(60,
              14 + (if options.vlanIdentifier.Some? then 4 else 0)
              + (if options.serviceVlanIdentifier.Some? then 4 else 0)
              + (if options.llcSnap then 8 else 0) + 28 + |options.padding|)
      && CarriesArp(frame)
      && HasConfiguredHeader(options, interfaceMac, TryParseEthernetFrame(frame).value)
      && HasConfiguredPayload(
           options, interfaceMac, interfaceAddress, target, TryParseEthernetFrame(frame).value.payload)
      && (TryParseArp(frame).Success?
          <==>
            && options.arpHardwareType == 1 && options.arpProtocolType == 0x0800
            && options.arpHardwareLength == 6 && options.arpProtocolLength == 4
            && options.arpOperation != 0 && options.arpOperation != 0xFFFF)
      && var arp := TryParseEthernetFrame(frame).value.payload;
         TryParseArp(frame).Success? ==>
           TryParseArp(frame).value
           == ParsedArp(options.arpOperation, arp[14..18], arp[8..14], arp[18..24], arp[24..28])
  {
    hide TryParseEthernetFrame, PadToMinimum, Framed, PduOctets, TciAsWord;
    hide HasConfiguredHeader, HasConfiguredPayload;
    var sender := options.senderProtocolAddress.AddressForTarget(interfaceAddress, target);
    var layout := options.Layout(interfaceMac, sender, target);
    var payload := PduOctets(layout) + layout.padding;
    var frame := RequestOctets(layout);
    ParseOfPadded(layout.ethernetDestination, layout.ethernetSource, layout.vlanTag, layout.llcSnap, payload);
    ConfiguredHeader(options, interfaceMac, TryParseEthernetFrame(frame).value);
    ConfiguredPayload(options, interfaceMac, interfaceAddress, target, TryParseEthernetFrame(frame).value.payload);
    RequestRoundTrip(layout);
    RequestLength(layout);
    ValidTagsAreAllSent(options);
    ParsedFieldsStand(frame);
  }

  /** A parsed request carries the configured addresses, tags and framing, or their defaults. */
  predicate HasConfiguredHeader(options: ScanWireOptions, interfaceMac: Mac, parsed: ParsedEthernetFrame) {
    && (match options.ethernetDestination
        case Some(a) => parsed.destination == a
        case None => parsed.destination == [0xFF, 0xFF, 0xFF, 0xFF, 0xFF, 0xFF])
    && (match options.ethernetSource case Some(a) => parsed.source == a case None => parsed.source == interfaceMac)
    && (match options.vlanIdentifier
        case Some(id) =>
          parsed.vlanTag == Some(Tci(options.vlanPriorityCodePoint, options.vlanDropEligible, id))
        case None => parsed.vlanTag == None)
    && (match options.serviceVlanIdentifier
        case Some(id) =>
          parsed.serviceVlanTag
          == Some(Tci(options.serviceVlanPriorityCodePoint, options.serviceVlanDropEligible, id))
        case None => parsed.serviceVlanTag == None)
    && parsed.vlanIdentifier == options.vlanIdentifier
    && (parsed.framing == Ieee8023LlcSnap <==> options.llcSnap)
  }

  /** The ARP octets are the configured ones or their defaults; padding and then zeros follow them. */
  predicate HasConfiguredPayload(
      options: ScanWireOptions, interfaceMac: Mac, interfaceAddress: Ipv4, target: Ipv4, payload: seq<u8>)
  {
    && 28 + |options.padding| <= |payload|
    && FieldAt(payload, 0) == options.arpHardwareType && FieldAt(payload, 2) == options.arpProtocolType
    && payload[4] == options.arpHardwareLength && payload[5] == options.arpProtocolLength
    && FieldAt(payload, 6) == options.arpOperation
    && (match options.arpSenderHardware
        case Some(a) => payload[8..14] == a
        case None => payload[8..14] == interfaceMac)
    && (match options.senderProtocolAddress
        case Interface => payload[14..18] == interfaceAddress
        case Explicit(a) => payload[14..18] == a
        case DestinationTarget => payload[14..18] == target)
    && (match options.arpTargetHardware
        case Some(a) => payload[18..24] == a
        case None => payload[18..24] == [0, 0, 0, 0, 0, 0])
    && payload[24..28] == target
    && payload[28..28 + |options.padding|] == options.padding
    && forall i :: 28 + |options.padding| <= i < |payload| ==> payload[i] == 0
  }

  lemma ConfiguredHeader(options: ScanWireOptions, interfaceMac: Mac, parsed: ParsedEthernetFrame)
    requires options.ValidateTagStack().Success?
    requires exists sender: Ipv4, target: Ipv4 ::
      var layout := options.Layout(interfaceMac, sender, target);
      parsed == ParsedAs(
        layout.ethernetDestination, layout.ethernetSource, layout.vlanTag, ETHERNET_PROTOCOL_ARP,
        FramingOf(layout.llcSnap), parsed.payload)
    ensures HasConfiguredHeader(options, interfaceMac, parsed)
  {
  }

  lemma ConfiguredPayload(
      options: ScanWireOptions, interfaceMac: Mac, interfaceAddress: Ipv4, target: Ipv4, payload: seq<u8>)
    requires var layout := options.Layout(
        interfaceMac, options.senderProtocolAddress.AddressForTarget(interfaceAddress, target), target);
      && PduOctets(layout) + layout.padding <= payload
      && forall i :: 28 + |layout.padding| <= i < |payload| ==> payload[i] == 0
    ensures HasConfiguredPayload(options, interfaceMac, interfaceAddress, target, payload)
  {
    hide PduOctets, FieldAt;
    var layout := options.Layout(
      interfaceMac, options.senderProtocolAddress.AddressForTarget(interfaceAddress, target), target);
    var pdu := PduOctets(layout);
    PduImage(layout);
    assert payload[..28] == pdu && payload[28..28 + |layout.padding|] == layout.padding;
    assert forall i, j :: 0 <= i <= j <= 28 ==> payload[i..j] == pdu[i..j];
    FieldMoves(payload, pdu[0..2], 0);
    FieldMoves(pdu, pdu[0..2], 0);
    FieldMoves(payload, pdu[2..4], 2);
    FieldMoves(pdu, pdu[2..4], 2);
    FieldMoves(payload, pdu[6..8], 6);
    FieldMoves(pdu, pdu[6..8], 6);
  }

  /** The parsed ARP fields of a frame stand at fixed places of its payload. */
  lemma ParsedFieldsStand(frame: Frame)
    ensures TryParseArp(frame).Success? ==>
      var arp := TryParseEthernetFrame(frame).value.payload;
      && TryParseEthernetFrame(frame).Success? && |arp| >= 28
      && TryParseArp(frame).value == ParsedArp(FieldAt(arp, 6), arp[14..18], arp[8..14], arp[18..24], arp[24..28])
  {
    hide TryParseEthernetFrame, ParsePdu;
    ArpIsRecognised(frame);
    if TryParseArp(frame).Success? {
      PduVerdicts(TryParseEthernetFrame(frame).value.payload);
    }
  }
}
