/** The monitor's report does not depend on the kernel filter, the receive buffer or the framing. */
module Transparency {
  import opened AddressResolution
  import opened CaptureFilter
  import opened EthernetFrame
  import opened Octets
  import opened PassiveMonitor
  import opened Sequences
  import opened Wrappers

  lemma SameEventsSameReport(locals: Locals, limit: nat, trace: seq<Frame>, other: seq<Frame>)
    requires Events(locals, trace) == Events(locals, other)
    ensures Report(locals, limit, trace) == Report(locals, limit, other)
  {
  }

  // ----- the kernel filter

  /** The frames the BPF device hands to userspace, in order. */
  function Admitted(wire: seq<Frame>): seq<Frame> {
    if wire == [] then [] else
    var before := Admitted(wire[..|wire| - 1]);
    if FilterAccepts(wire[|wire| - 1]) then before + [wire[|wire| - 1]] else before
  }

  /** The device hands over every ARP frame, as often as it was on the wire, and no other frame. */
  lemma {:induction false} AdmittedAreTheArpFrames(wire: seq<Frame>, frame: Frame)
    ensures multiset(Admitted(wire))[frame] == if CarriesArp(frame) then multiset(wire)[frame] else 0
  {
    hide FilterAccepts, CarriesArp;
    if wire != [] {
      var before, last := wire[..|wire| - 1], wire[|wire| - 1];
      assert wire == before + [last];
      AdmittedAreTheArpFrames(before, frame);
      FilterAcceptsExactlyArp(last);
    }
  }

  lemma UnrelatedIsNotArp(locals: Locals, frame: Frame)
    ensures EventOf(locals, frame) == Unrelated <==> !CarriesArp(frame)
  {
    hide TryParseEthernetFrame, ParsePdu;
  }

  lemma {:induction false} FilterKeepsEvents(locals: Locals, wire: seq<Frame>)
    ensures Identities(Events(locals, Admitted(wire))) == Identities(Events(locals, wire))
    ensures Reasons(Events(locals, Admitted(wire))) == Reasons(Events(locals, wire))
  {
    hide FilterAccepts, EventOf, Events;
    if wire != [] {
      var before, last := wire[..|wire| - 1], wire[|wire| - 1];
      assert wire == before + [last];
      FilterKeepsEvents(locals, before);
      EventsAppend(locals, before, last);
      IdentitiesAppend(Events(locals, before), EventOf(locals, last));
      if FilterAccepts(last) {
        EventsAppend(locals, Admitted(before), last);
        IdentitiesAppend(Events(locals, Admitted(before)), EventOf(locals, last));
      } else {
        FilterAcceptsExactlyArp(last);
        UnrelatedIsNotArp(locals, last);
      }
    }
  }

  /** A monitor behind the capture filter reports what a monitor seeing every frame reports. */
  lemma FilterIsTransparent(locals: Locals, limit: nat, wire: seq<Frame>)
    ensures Report(locals, limit, Admitted(wire)) == Report(locals, limit, wire)
  {
    FilterKeepsEvents(locals, wire);
  }

  // ----- the receive buffer

  function CutAll(trace: seq<Frame>, capacity: nat): seq<Frame> {
    seq(|trace|, i requires 0 <= i < |trace| => Cut(trace[i], capacity))
  }

  lemma CutKeepsEvent(locals: Locals, frame: Frame, capacity: nat)
    requires capacity >= 58
    ensures EventOf(locals, Cut(frame, capacity)) == EventOf(locals, frame)
  {
    hide TryParseEthernetFrame, ParsePdu;
    CutKeepsVerdict(frame, capacity);
  }

  /** Cutting frames to a receive buffer of at least 58 octets changes no report. */
  lemma CutIsTransparent(locals: Locals, limit: nat, trace: seq<Frame>, capacity: nat)
    requires capacity >= 58
    ensures Report(locals, limit, CutAll(trace, capacity)) == Report(locals, limit, trace)
  {
    hide EventOf, Cut;
    forall i | 0 <= i < |trace|
      ensures EventOf(locals, Cut(trace[i], capacity)) == EventOf(locals, trace[i])
    {
      CutKeepsEvent(locals, trace[i], capacity);
    }
    assert Events(locals, CutAll(trace, capacity)) == Events(locals, trace);
    SameEventsSameReport(locals, limit, CutAll(trace, capacity), trace);
  }

  /** The longest headers in front of an ARP PDU: two tags and LLC/SNAP, 58 octets in all. */
  function LongestArpFrame(layout: RequestLayout): Frame {
    SnapOctets(
      layout.ethernetDestination, layout.ethernetSource, Some(ServiceAndCustomer(Tci(0, false, 0), Tci(0, false, 0))),
      ETHERNET_PROTOCOL_ARP, PduOctets(layout))
  }

  lemma LongestArpFrameIsParsed(layout: RequestLayout)
    requires IsParseableLayout(layout)
    ensures TryParseArp(LongestArpFrame(layout)) == Success(ArpFieldsOf(layout))
    ensures !IsUnrelated(LongestArpFrame(layout))
  {
    hide TryParseEthernetFrame, PduOctets, ParsePdu, TagOctets, SnapOctets;
    SnapRoundTrip(
      layout.ethernetDestination, layout.ethernetSource, Some(ServiceAndCustomer(Tci(0, false, 0), Tci(0, false, 0))),
      ETHERNET_PROTOCOL_ARP, PduOctets(layout));
    assert PduOctets(layout) + [] == PduOctets(layout);
    PduRoundTrip(layout, []);
  }

  /** Cut short anywhere, such a frame has no complete PDU. */
  lemma LongestArpFrameNeedsAll(layout: RequestLayout, capacity: nat)
    requires capacity < 58
    ensures TryParseArp(Cut(LongestArpFrame(layout), capacity)).Failure?
  {
    hide TciAsWord, TciFromWord, PduOctets, ParsePdu;
    var frame := LongestArpFrame(layout);
    var cut := Cut(frame, capacity);
    assert |frame| == 58 && cut == frame[..capacity];
    LongestArpFrameFields(layout);
    ShortDoubleTagged(cut);
  }

  lemma LongestArpFrameFields(layout: RequestLayout)
    ensures var frame := LongestArpFrame(layout);
      && |frame| == 58
      && Word16(frame[12], frame[13]) == ETHERNET_PROTOCOL_VLAN_TAG_SERVICE
      && Word16(frame[20], frame[21]) == 36
  {
    hide TciAsWord, PduOctets;
  }

  lemma ShortDoubleTagged(frame: Frame)
    requires |frame| < 58
    requires |frame| >= 14 ==> Word16(frame[12], frame[13]) == ETHERNET_PROTOCOL_VLAN_TAG_SERVICE
    requires |frame| >= 22 ==> Word16(frame[20], frame[21]) <= IEEE_8023_MAXIMUM_LENGTH
    ensures TryParseArp(frame).Failure?
  {
    hide TciFromWord;
  }

  /** A packet reported with and without a malformed or unrelated frame in its place. */
  lemma PacketIsReported(locals: Locals, limit: nat, frame: Frame, other: Frame)
    requires EventOf(locals, frame).Packet? && !EventOf(locals, other).Packet?
    ensures Report(locals, limit, [frame]) != Report(locals, limit, [other])
  {
    hide EventOf, Events, Identities, Report;
    OnePacket(locals, frame);
    OnePacket(locals, other);
    RecordsOrTruncation(locals, limit, [frame]);
    RecordsOrTruncation(locals, limit, [other]);
  }

  lemma OnePacket(locals: Locals, frame: Frame)
    ensures |Identities(Events(locals, [frame]))| == if EventOf(locals, frame).Packet? then 1 else 0
  {
    hide EventOf;
    EventsAppend(locals, [], frame);
    IdentitiesAppend([], EventOf(locals, frame));
    assert Events(locals, []) == [] && [] + [frame] == [frame];
  }

  /** Of at most one packet, a report has a record or a truncation warning exactly when there is one. */
  lemma RecordsOrTruncation(locals: Locals, limit: nat, trace: seq<Frame>)
    requires |Identities(Events(locals, trace))| <= 1
    ensures var outcome := Report(locals, limit, trace);
      |Identities(Events(locals, trace))| == 1 <==> outcome.records != [] || RecordLimitReached in outcome.warnings
  {
    hide Events, Identities, ClaimsOf, MalformedOf;
    var ids := Identities(Events(locals, trace));
    if ids != [] {
      assert ids == [] + [ids[0]];
      FirstSeenAppend([], ids[0]);
    }
    if |FirstSeen(ids)| > limit {
      var warnings := Report(locals, limit, trace).warnings;
      assert warnings[|warnings| - 1] == RecordLimitReached;
    }
  }

  /** A one-frame trace that a smaller buffer changes. */
  lemma SmallBufferIsSeen(locals: Locals, limit: nat, capacity: nat, sender: Mac)
    requires capacity < 58 && sender != locals.mac
    ensures
      var trace := [LongestArpFrame(Rfc826Request(sender, UNSPECIFIED, UNSPECIFIED, None, true))];
      Report(locals, limit, CutAll(trace, capacity)) != Report(locals, limit, trace)
  {
    hide Report, TryParseArp, LongestArpFrame, Cut, IsUnrelated;
    var layout := Rfc826Request(sender, UNSPECIFIED, UNSPECIFIED, None, true);
    var frame := LongestArpFrame(layout);
    LongestArpFrameIsParsed(layout);
    LongestArpFrameNeedsAll(layout, capacity);
    PacketIsReported(locals, limit, frame, Cut(frame, capacity));
    assert CutAll([frame], capacity) == [Cut(frame, capacity)];
  }

  /** All traces are reported alike exactly when the longest headers and an ARP PDU fit the buffer. */
  lemma CutTransparencyIsExact(locals: Locals, limit: nat, capacity: nat)
    ensures
      (forall trace :: Report(locals, limit, CutAll(trace, capacity)) == Report(locals, limit, trace))
      <==> capacity >= 58
  {
    hide Report, CutAll, LongestArpFrame, Rfc826Request;
    if capacity >= 58 {
      forall trace
        ensures Report(locals, limit, CutAll(trace, capacity)) == Report(locals, limit, trace)
      {
        CutIsTransparent(locals, limit, trace, capacity);
      }
    } else {
      SmallBufferIsSeen(locals, limit, capacity, if locals.mac == ZERO_MAC then BROADCAST_MAC else ZERO_MAC);
    }
  }

  // ----- framing

  /** How a PDU can be put on the wire: addresses, one of three tag stacks, one of two framings. */
  datatype Envelope = Envelope(destination: Mac, source: Mac, tags: Option<TagStack>, llcSnap: bool, padding: seq<u8>)

  /** The frame's ARP PDU, as far as the parser reads it. */
  function PduOf(frame: Frame): seq<u8>
    requires CarriesArp(frame) && |TryParseEthernetFrame(frame).value.payload| >= ARP_PDU_LENGTH
  {
    TryParseEthernetFrame(frame).value.payload[..ARP_PDU_LENGTH]
  }

  /** `other` carries the PDU of `frame` in some envelope an encoder can produce for a real scan. */
  ghost predicate Reframed(frame: Frame, other: Frame) {
    && CarriesArp(frame)
    && |TryParseEthernetFrame(frame).value.payload| >= ARP_PDU_LENGTH
    && exists e: Envelope ::
         && (e.llcSnap ==> IEEE_8023_LLC_SNAP_HEADER_LENGTH + ARP_PDU_LENGTH + |e.padding| <= IEEE_8023_MAXIMUM_LENGTH)
         && other == PadToMinimum(Framed(e.destination, e.source, e.tags, e.llcSnap, PduOf(frame) + e.padding))
  }

  lemma ReframingKeepsEvent(locals: Locals, frame: Frame, other: Frame)
    requires Reframed(frame, other)
    ensures EventOf(locals, other) == EventOf(locals, frame)
  {
    hide TryParseEthernetFrame, ParsePdu, Framed, PadToMinimum;
    var e: Envelope :|
      && (e.llcSnap ==> IEEE_8023_LLC_SNAP_HEADER_LENGTH + ARP_PDU_LENGTH + |e.padding| <= IEEE_8023_MAXIMUM_LENGTH)
      && other == PadToMinimum(Framed(e.destination, e.source, e.tags, e.llcSnap, PduOf(frame) + e.padding));
    var payload := PduOf(frame) + e.padding;
    ParseOfPadded(e.destination, e.source, e.tags, e.llcSnap, payload);
    var received := TryParseEthernetFrame(other).value.payload;
    assert received[..ARP_PDU_LENGTH] == payload[..ARP_PDU_LENGTH] == PduOf(frame);
    SamePduSameVerdict(frame, other);
  }

  /**
   Framing independence. Re-encoding any ARP frames of a trace, well-formed or not, under any tag
   stack and either framing leaves the whole report unchanged.
   */
  lemma FramingIsTransparent(locals: Locals, limit: nat, trace: seq<Frame>, other: seq<Frame>)
    requires |trace| == |other|
    requires forall i :: 0 <= i < |trace| ==> trace[i] == other[i] || Reframed(trace[i], other[i])
    ensures Report(locals, limit, trace) == Report(locals, limit, other)
  {
    hide EventOf, Reframed;
    forall i | 0 <= i < |trace|
      ensures EventOf(locals, trace[i]) == EventOf(locals, other[i])
    {
      if trace[i] != other[i] {
        ReframingKeepsEvent(locals, trace[i], other[i]);
      }
    }
    assert Events(locals, trace) == Events(locals, other);
    SameEventsSameReport(locals, limit, trace, other);
  }
}
