/** What a monitor report means: exact records, warnings and duplicate address claims. */
module MonitorLaws {
  import opened AddressResolution
  import opened EthernetFrame
  import opened Octets
  import opened PassiveMonitor
  import opened Sequences
  import opened Wrappers

  function IdentityOfRecord(r: Record): Identity {
    Identity(r.opcode, r.senderHardware, r.senderProtocol, r.targetHardware, r.targetProtocol)
  }

  function PacketsOf(locals: Locals, trace: seq<Frame>): seq<Identity> {
    Identities(Events(locals, trace))
  }

  // ----- frames, packets and rejections

  /** The monitor's own announcements: its hardware address with one of its IPv4 addresses. */
  predicate IsOwn(locals: Locals, p: ParsedArp) {
    p.senderHardware == locals.mac && p.senderProtocol in locals.addresses
  }

  /** The malformed ARP frames of a trace, by the parser's message. */
  function RejectionsOf(locals: Locals, trace: seq<Frame>): seq<Reason> {
    Reasons(Events(locals, trace))
  }

  /** One more frame is a packet if it parses and is not the monitor's own, and a rejection if it is bad ARP. */
  lemma FramesBecomePackets(locals: Locals, trace: seq<Frame>, frame: Frame)
    ensures PacketsOf(locals, []) == [] && RejectionsOf(locals, []) == []
    ensures PacketsOf(locals, trace + [frame]) == PacketsOf(locals, trace)
      + match TryParseArp(frame)
        case Failure(_) => []
        case Success(p) =>
          if IsOwn(locals, p) then []
          else [Identity(p.opcode, p.senderHardware, p.senderProtocol, p.targetHardware, p.targetProtocol)]
    ensures RejectionsOf(locals, trace + [frame]) == RejectionsOf(locals, trace)
      + if CarriesArp(frame) && TryParseArp(frame).Failure? then [TryParseArp(frame).error] else []
  {
    hide TryParseEthernetFrame, ParsePdu, Identities, Reasons, Events;
    EventsAppend(locals, trace, frame);
    IdentitiesAppend(Events(locals, trace), EventOf(locals, frame));
    NoFrames(locals);
  }

  lemma NoFrames(locals: Locals)
    ensures PacketsOf(locals, []) == [] && RejectionsOf(locals, []) == []
  {
  }

  /** The frames of a trace that parse to given ARP fields. */
  function FramesWith(trace: seq<Frame>, p: ParsedArp): set<nat> {
    set i: nat | i < |trace| && TryParseArp(trace[i]) == Success(p)
  }

  /** The frames of a trace that are ARP and rejected with a given message. */
  function FramesRejectedFor(trace: seq<Frame>, reason: Reason): set<nat> {
    set i: nat | i < |trace| && CarriesArp(trace[i]) && TryParseArp(trace[i]) == Failure(reason)
  }

  lemma FramesWithAppend(trace: seq<Frame>, frame: Frame, p: ParsedArp)
    ensures |FramesWith(trace + [frame], p)|
      == |FramesWith(trace, p)| + if TryParseArp(frame) == Success(p) then 1 else 0
  {
    hide TryParseArp;
    var before, after := FramesWith(trace, p), FramesWith(trace + [frame], p);
    assert forall i: nat :: i < |trace| ==> (i in after <==> i in before);
    assert after - {|trace|} == before;
    assert |trace| in after ==> |after| == |after - {|trace|}| + 1;
    assert |trace| !in after ==> after == before;
  }

  lemma FramesRejectedAppend(trace: seq<Frame>, frame: Frame, reason: Reason)
    ensures |FramesRejectedFor(trace + [frame], reason)|
      == |FramesRejectedFor(trace, reason)|
         + if CarriesArp(frame) && TryParseArp(frame) == Failure(reason) then 1 else 0
  {
    hide TryParseArp, CarriesArp;
    var before, after := FramesRejectedFor(trace, reason), FramesRejectedFor(trace + [frame], reason);
    assert forall i: nat :: i < |trace| ==> (i in after <==> i in before);
    assert after - {|trace|} == before;
    assert |trace| in after ==> |after| == |after - {|trace|}| + 1;
    assert |trace| !in after ==> after == before;
  }

  /** Multiplicities of packets and rejections are numbers of frames. */
  lemma {:induction false} FramesAreCounted(locals: Locals, trace: seq<Frame>, p: ParsedArp, reason: Reason)
    ensures multiset(PacketsOf(locals, trace))[IdentityOf(p)] == if IsOwn(locals, p) then 0 else |FramesWith(trace, p)|
    ensures multiset(RejectionsOf(locals, trace))[reason] == |FramesRejectedFor(trace, reason)|
  {
    hide TryParseArp, CarriesArp, PacketsOf, RejectionsOf;
    if trace == [] {
      NoFrames(locals);
      assert FramesWith([], p) == {} && FramesRejectedFor([], reason) == {};
    } else {
      var before, last := trace[..|trace| - 1], trace[|trace| - 1];
      assert trace == before + [last];
      FramesAreCounted(locals, before, p, reason);
      FramesBecomePackets(locals, before, last);
      FramesWithAppend(before, last, p);
      FramesRejectedAppend(before, last, reason);
    }
  }

  // ----- records

  /** Every packet in a trace was classified; suppressed ones never become packets. */
  lemma {:induction false} PacketsAreClassified(locals: Locals, trace: seq<Frame>, id: Identity)
    requires id in PacketsOf(locals, trace)
    ensures !(id.senderHardware == locals.mac && id.senderProtocol in locals.addresses)
  {
    var before, last := trace[..|trace| - 1], trace[|trace| - 1];
    assert trace == before + [last];
    EventsAppend(locals, before, last);
    IdentitiesAppend(Events(locals, before), EventOf(locals, last));
    if id in PacketsOf(locals, before) {
      PacketsAreClassified(locals, before, id);
    }
  }

  /** The packet identities of a record list. */
  function Recorded(records: seq<Record>): seq<Identity> {
    seq(|records|, i requires 0 <= i < |records| => IdentityOfRecord(records[i]))
  }

  lemma RecordedIsRetained(locals: Locals, limit: nat, trace: seq<Frame>)
    ensures Recorded(Report(locals, limit, trace).records) == Retained(limit, PacketsOf(locals, trace))
  {
    hide Events, Identities, Retained;
  }

  /**
   Each record carries the number of frames of the whole trace that parse to its fields, saturated at
   64 bits, is never the monitor's own, and is a conflict exactly under section 2.4 of RFC 5227.
   */
  lemma RecordsAreCounted(locals: Locals, limit: nat, trace: seq<Frame>, i: nat)
    requires i < |Report(locals, limit, trace).records|
    ensures var r := Report(locals, limit, trace).records[i];
      var p := ParsedArp(r.opcode, r.senderProtocol, r.senderHardware, r.targetHardware, r.targetProtocol);
      && 1 <= |FramesWith(trace, p)|
      && r.count
         == (if |FramesWith(trace, p)| <= 0xFFFF_FFFF_FFFF_FFFF then |FramesWith(trace, p)|
             else 0xFFFF_FFFF_FFFF_FFFF)
      && !IsOwn(locals, p)
      && (r.classification == Conflict <==>
            r.senderProtocol in locals.addresses && r.senderHardware != locals.mac && r.opcode in {1, 2})
  {
    hide Events, FramesWith;
    var packets := PacketsOf(locals, trace);
    RetainedElements(limit, packets);
    PacketsAreClassified(locals, trace, Retained(limit, packets)[i]);
    var r := Report(locals, limit, trace).records[i];
    var p := ParsedArp(r.opcode, r.senderProtocol, r.senderHardware, r.targetHardware, r.targetProtocol);
    assert IdentityOf(p) == Retained(limit, packets)[i];
    FramesAreCounted(locals, trace, p, FrameShorterThanHeader);
  }

  /**
   The recorded packets are the first `limit` distinct ones: they appear in the trace, in the order
   of their first appearance, and a packet is left out only behind a full table.
   */
  lemma RecordsAreFirstSeen(locals: Locals, limit: nat, trace: seq<Frame>)
    ensures var packets := PacketsOf(locals, trace);
      var recorded := Recorded(Report(locals, limit, trace).records);
      && |recorded| <= limit
      && (forall i :: 0 <= i < |recorded| ==> recorded[i] in packets)
      && (forall i, j :: 0 <= i < j < |recorded| ==> IndexOf(packets, recorded[i]) < IndexOf(packets, recorded[j]))
      && (forall id :: id in packets && id !in recorded ==>
            && |recorded| == limit
            && forall i :: 0 <= i < |recorded| ==> IndexOf(packets, recorded[i]) < IndexOf(packets, id))
  {
    hide Events, Identities;
    RecordedIsRetained(locals, limit, trace);
    var packets := PacketsOf(locals, trace);
    var distinct, retained := FirstSeen(packets), Retained(limit, packets);
    RetainedElements(limit, packets);
    FirstSeenElements(packets);
    forall i, j | 0 <= i < j < |distinct|
      ensures IndexOf(packets, distinct[i]) < IndexOf(packets, distinct[j])
    {
      FirstSeenOrder(packets, i, j);
    }
    forall id | id in packets && id !in retained
      ensures |retained| == limit
      ensures forall i :: 0 <= i < |retained| ==> IndexOf(packets, retained[i]) < IndexOf(packets, id)
    {
      assert distinct[IndexOf(distinct, id)] == id;
    }
  }

  /** The truncation warning is given exactly when some packet was left out. */
  lemma TruncationIsReported(locals: Locals, limit: nat, trace: seq<Frame>)
    ensures var outcome := Report(locals, limit, trace);
      RecordLimitReached in outcome.warnings
      <==> exists id :: id in PacketsOf(locals, trace) && id !in Recorded(outcome.records)
  {
    hide Events, Identities;
    RecordedIsRetained(locals, limit, trace);
    var packets := PacketsOf(locals, trace);
    var distinct := FirstSeen(packets);
    FirstSeenElements(packets);
    if |distinct| > limit {
      assert distinct[limit] in packets && distinct[limit] !in Retained(limit, packets);
    }
    var malformed := MalformedOf(Reasons(Events(locals, trace)));
    assert forall w :: w in WarningsOf(malformed, false) ==> w.MalformedFrames?;
    assert WarningsOf(malformed, true) == WarningsOf(malformed, false) + [RecordLimitReached];
  }

  /**
   The malformed warnings name each reason that occurred once, in the order of first occurrence,
   with its saturated number of occurrences; only the truncation warning can follow them.
   */
  lemma WarningsAreExact(locals: Locals, limit: nat, trace: seq<Frame>)
    ensures var reasons := Reasons(Events(locals, trace));
      var warnings := Report(locals, limit, trace).warnings;
      && (forall i :: 0 <= i < |warnings| ==>
            match warnings[i]
            case MalformedFrames(reason, count) => reason in reasons && count == Saturated(multiset(reasons)[reason])
            case RecordLimitReached => i == |warnings| - 1)
      && (forall reason :: reason in reasons ==>
            MalformedFrames(reason, Saturated(multiset(reasons)[reason])) in warnings)
      && (forall i, j :: 0 <= i < j < |warnings| && warnings[j].MalformedFrames? ==>
            && warnings[i].MalformedFrames?
            && IndexOf(reasons, warnings[i].reason) < IndexOf(reasons, warnings[j].reason))
  {
    hide Events, Reasons, FirstSeen, Retained, RecordsOf, ClaimsOf;
    var reasons := Reasons(Events(locals, trace));
    var distinct := FirstSeen(reasons);
    var warnings := Report(locals, limit, trace).warnings;
    FirstSeenElements(reasons);
    assert forall i :: 0 <= i < |distinct| ==>
      warnings[i] == MalformedFrames(distinct[i], Saturated(multiset(reasons)[distinct[i]]));
    forall i, j | 0 <= i < j < |distinct|
      ensures IndexOf(reasons, distinct[i]) < IndexOf(reasons, distinct[j])
    {
      FirstSeenOrder(reasons, i, j);
    }
    forall reason | reason in reasons
      ensures MalformedFrames(reason, Saturated(multiset(reasons)[reason])) in warnings
    {
      var i := IndexOf(distinct, reason);
      assert warnings[i] == MalformedFrames(reason, Saturated(multiset(reasons)[reason]));
    }
  }

  /**
   A malformed warning is given for exactly the messages with which the parser rejects some ARP frame
   of the trace, with the number of such frames, saturated at 64 bits.
   */
  lemma MalformedFramesAreReported(locals: Locals, limit: nat, trace: seq<Frame>, reason: Reason, count: nat)
    ensures var n := |FramesRejectedFor(trace, reason)|;
      MalformedFrames(reason, count) in Report(locals, limit, trace).warnings
      <==> n >= 1 && count == if n <= 0xFFFF_FFFF_FFFF_FFFF then n else 0xFFFF_FFFF_FFFF_FFFF
  {
    hide FramesRejectedFor;
    var n := |FramesRejectedFor(trace, reason)|;
    FramesAreCounted(locals, trace, ParsedArp(0, UNSPECIFIED, ZERO_MAC, ZERO_MAC, UNSPECIFIED), reason);
    assert n >= 1 ==> reason in RejectionsOf(locals, trace);
    WarningOfReason(locals, limit, trace, reason, count);
  }

  lemma WarningOfReason(locals: Locals, limit: nat, trace: seq<Frame>, reason: Reason, count: nat)
    ensures var reasons := RejectionsOf(locals, trace);
      MalformedFrames(reason, count) in Report(locals, limit, trace).warnings
      <==> reason in reasons && count == Saturated(multiset(reasons)[reason])
  {
    hide Events, Reasons, Retained, RecordsOf, ClaimsOf, FirstSeen;
    WarningsAreExact(locals, limit, trace);
    var reasons := RejectionsOf(locals, trace);
    if reason in reasons {
      assert MalformedFrames(reason, Saturated(multiset(Reasons(Events(locals, trace)))[reason]))
        in Report(locals, limit, trace).warnings;
    }
    if MalformedFrames(reason, count) in Report(locals, limit, trace).warnings {
      var warnings := Report(locals, limit, trace).warnings;
      var i :| 0 <= i < |warnings| && warnings[i] == MalformedFrames(reason, count);
    }
  }

  // ----- duplicate claims

  function Senders(retained: seq<Identity>): seq<Ipv4> {
    seq(|retained|, i requires 0 <= i < |retained| => retained[i].senderProtocol)
  }

  /** Skipping local and unspecified senders keeps the order of the others. */
  lemma {:induction false} ClaimedOrder(locals: Locals, retained: seq<Identity>, p: Ipv4, q: Ipv4)
    requires p in ClaimedAddresses(locals, retained) && q in ClaimedAddresses(locals, retained)
    requires IndexOf<Ipv4>(ClaimedAddresses(locals, retained), p) < IndexOf<Ipv4>(ClaimedAddresses(locals, retained), q)
    ensures p in Senders(retained) && q in Senders(retained)
    ensures IndexOf<Ipv4>(Senders(retained), p) < IndexOf<Ipv4>(Senders(retained), q)
  {
    var before, last := retained[..|retained| - 1], retained[|retained| - 1];
    assert retained == before + [last];
    ClaimedAddressesAppend(locals, before, last);
    var claimed := ClaimedAddresses(locals, before);
    var added := if IsThirdParty(locals, last.senderProtocol) then [last.senderProtocol] else [];
    assert Senders(retained) == Senders(before) + [last.senderProtocol];
    assert p in claimed by {
      assert IndexOf<Ipv4>(claimed + added, p) < |claimed|;
    }
    IndexOfAppend<Ipv4>(claimed, added, p);
    ClaimedIsSent(locals, before);
    IndexOfAppend<Ipv4>(Senders(before), [last.senderProtocol], p);
    if q in claimed {
      IndexOfAppend<Ipv4>(claimed, added, q);
      ClaimedOrder(locals, before, p, q);
      IndexOfAppend<Ipv4>(Senders(before), [last.senderProtocol], q);
    } else {
      assert q == last.senderProtocol;
      ClaimedAddressesElements(locals, before);
      ClaimedAddressesElements(locals, retained);
      assert q !in Senders(before);
      IndexOfIsUnique<Ipv4>(Senders(retained), |before|);
    }
  }

  lemma ClaimedIsSent(locals: Locals, retained: seq<Identity>)
    ensures forall p :: p in ClaimedAddresses(locals, retained) ==> p in Senders(retained)
  {
    ClaimedAddressesElements(locals, retained);
    forall p | p in ClaimedAddresses(locals, retained)
      ensures p in Senders(retained)
    {
      var id :| id in retained && id.senderProtocol == p;
      assert Senders(retained)[IndexOf(retained, id)] == p;
    }
  }

  /** The claim list keeps the addresses with two claimants, in the order given. */
  lemma {:induction false} ClaimsOfElements(retained: seq<Identity>, order: seq<Ipv4>)
    requires Distinct<Ipv4>(order)
    ensures var claims := ClaimsOf(retained, order);
      && (forall i :: 0 <= i < |claims| ==>
            && claims[i].protocolAddress in order
            && |Claimants(retained, claims[i].protocolAddress)| >= 2
            && claims[i].hardwareAddresses == InAscendingOrder(Claimants(retained, claims[i].protocolAddress)))
      && (forall p :: p in order && |Claimants(retained, p)| >= 2 ==>
            DuplicateIpClaim(p, InAscendingOrder(Claimants(retained, p))) in claims)
      && (forall i, j :: 0 <= i < j < |claims| ==>
            IndexOf<Ipv4>(order, claims[i].protocolAddress) < IndexOf<Ipv4>(order, claims[j].protocolAddress))
  {
    hide InAscendingOrder, Claimants;
    if order != [] {
      var before, last := order[..|order| - 1], order[|order| - 1];
      assert order == before + [last];
      ClaimsOfElements(retained, before);
      forall p | p in before
        ensures IndexOf<Ipv4>(order, p) == IndexOf<Ipv4>(before, p)
      {
        IndexOfAppend<Ipv4>(before, [last], p);
      }
      IndexOfIsUnique<Ipv4>(order, |before|);
    }
  }

  /** Two records that name the same sender address with different hardware addresses. */
  ghost predicate ClaimedTwice(recorded: seq<Identity>, p: Ipv4) {
    exists i, j :: 0 <= i < j < |recorded|
      && recorded[i].senderProtocol == p == recorded[j].senderProtocol
      && recorded[i].senderHardware != recorded[j].senderHardware
  }

  lemma TwoClaimants(recorded: seq<Identity>, p: Ipv4)
    ensures |Claimants(recorded, p)| >= 2 <==> ClaimedTwice(recorded, p)
  {
    var macs := Claimants(recorded, p);
    if |macs| >= 2 {
      var a :| a in macs;
      assert |macs - {a}| >= 1;
      var b :| b in macs - {a};
      var x :| x in recorded && x.senderProtocol == p && x.senderHardware == a;
      var y :| y in recorded && y.senderProtocol == p && y.senderHardware == b;
      var i, j := IndexOf(recorded, x), IndexOf(recorded, y);
      assert recorded[i] == x && recorded[j] == y;
      assert if i < j then ClaimedTwice(recorded, p) else j < i && ClaimedTwice(recorded, p);
    }
    if ClaimedTwice(recorded, p) {
      var i, j :| 0 <= i < j < |recorded|
        && recorded[i].senderProtocol == p == recorded[j].senderProtocol
        && recorded[i].senderHardware != recorded[j].senderHardware;
      var pair := {recorded[i].senderHardware, recorded[j].senderHardware};
      assert recorded[i] in recorded && recorded[j] in recorded;
      assert pair <= macs;
      SubsetSize(pair, macs);
    }
  }

  lemma SubsetSize(a: set<Mac>, b: set<Mac>)
    requires a <= b
    ensures |a| <= |b|
  {
    assert b == a + (b - a);
  }

  /**
   The reported duplicate claims are a function of the records alone. An address is claimed exactly
   when it is neither zero nor local and two records send from it with different hardware
   addresses. Each claim lists exactly the hardware addresses of those records, ascending, and the
   claims come in the order in which their addresses first appear among the records.
   */
  lemma DuplicateClaimsAreExact(locals: Locals, limit: nat, trace: seq<Frame>)
    ensures var outcome := Report(locals, limit, trace);
      var recorded := Recorded(outcome.records);
      var claims := outcome.duplicateIpClaims;
      && (forall p :: (exists c :: c in claims && c.protocolAddress == p)
            <==> p != [0, 0, 0, 0] && p !in locals.addresses && ClaimedTwice(recorded, p))
      && (forall c :: c in claims ==>
            && (forall i, j :: 0 <= i < j < |c.hardwareAddresses| ==>
                  AddressNumber(c.hardwareAddresses[i]) < AddressNumber(c.hardwareAddresses[j]))
            && forall m :: m in c.hardwareAddresses
                 <==> exists id :: id in recorded && id.senderProtocol == c.protocolAddress && id.senderHardware == m)
      && (forall i :: 0 <= i < |claims| ==> claims[i].protocolAddress in Senders(recorded))
      && (forall i, j :: 0 <= i < j < |claims| ==>
            IndexOf<Ipv4>(Senders(recorded), claims[i].protocolAddress)
            < IndexOf<Ipv4>(Senders(recorded), claims[j].protocolAddress))
  {
    hide Events, Identities, Retained, ClaimedAddresses, FirstSeen, ClaimsOf, ClaimedTwice, RecordsOf;
    hide AddressNumber;
    RecordedIsRetained(locals, limit, trace);
    var retained := Retained(limit, PacketsOf(locals, trace));
    var claimed := ClaimedAddresses(locals, retained);
    ClaimOrderElements(locals, retained);
    ClaimsOfElements(retained, FirstSeen<Ipv4>(claimed));
    ClaimedIsSent(locals, retained);
    forall p: Ipv4
      ensures |Claimants(retained, p)| >= 2 <==> ClaimedTwice(retained, p)
      ensures |Claimants(retained, p)| >= 2 ==> Claimants(retained, p) != {}
    {
      TwoClaimants(retained, p);
    }
    var claims := ClaimsOf(retained, FirstSeen<Ipv4>(claimed));
    assert ClaimsOf(retained, FirstSeen<Ipv4>(claimed)) == claims == Report(locals, limit, trace).duplicateIpClaims;
    forall c | c in claims
      ensures forall i, j :: 0 <= i < j < |c.hardwareAddresses| ==>
        AddressNumber(c.hardwareAddresses[i]) < AddressNumber(c.hardwareAddresses[j])
    {
      AscendingIsNumeric(c.hardwareAddresses);
    }
    forall i, j | 0 <= i < j < |claims|
      ensures IndexOf<Ipv4>(Senders(retained), claims[i].protocolAddress)
        < IndexOf<Ipv4>(Senders(retained), claims[j].protocolAddress)
    {
      var order := FirstSeen<Ipv4>(claimed);
      var p, q := claims[i].protocolAddress, claims[j].protocolAddress;
      FirstSeenOrder<Ipv4>(claimed, IndexOf<Ipv4>(order, p), IndexOf<Ipv4>(order, q));
      ClaimedOrder(locals, retained, p, q);
    }
  }
}
