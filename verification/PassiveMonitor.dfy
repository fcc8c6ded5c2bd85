/**
 The passive ARP aggregator. `Report` gives its meaning in closed form over the whole trace of
 frames; the class `Aggregator` computes it frame by frame.
 */
module PassiveMonitor {
  import opened AddressResolution
  import opened EthernetFrame
  import opened Octets
  import opened Sequences
  import opened Wrappers

  const U64_MAX: nat := 0xFFFF_FFFF_FFFF_FFFF
  const DISTINCT_RECORD_LIMIT: nat := 4096
  const RECEIVE_BUFFER_LENGTH: nat := 4096

  function Saturated(n: nat): nat {
    if n > U64_MAX then U64_MAX else n
  }

  function SaturatingIncrement(n: nat): nat {
    Saturated(n + 1)
  }

  datatype Locals = Locals(mac: Mac, addresses: set<Ipv4>)

  datatype PassiveArpClass = Conflict | Observed

  datatype Identity = Identity(
    opcode: u16,
    senderHardware: Mac,
    senderProtocol: Ipv4,
    targetHardware: Mac,
    targetProtocol: Ipv4)

  datatype Record = Record(
    classification: PassiveArpClass,
    opcode: u16,
    senderHardware: Mac,
    senderProtocol: Ipv4,
    targetHardware: Mac,
    targetProtocol: Ipv4,
    count: nat)

  datatype MalformedWarning = MalformedWarning(reason: Reason, count: nat)

  datatype DuplicateIpClaim = DuplicateIpClaim(protocolAddress: Ipv4, hardwareAddresses: seq<Mac>)

  datatype Warning = MalformedFrames(reason: Reason, count: nat) | RecordLimitReached

  datatype Outcome = Outcome(records: seq<Record>, duplicateIpClaims: seq<DuplicateIpClaim>, warnings: seq<Warning>)

  // ----- one frame

  function ClassifyPassiveArp(
      opcode: u16, senderHardware: Mac, senderProtocol: Ipv4, locals: Locals): Option<PassiveArpClass>
  {
    var senderProtocolIsLocal := senderProtocol in locals.addresses;
    if senderHardware == locals.mac && senderProtocolIsLocal then None
    else if senderProtocolIsLocal && opcode in {ARP_OPERATION_REQUEST, ARP_OPERATION_REPLY} then Some(Conflict)
    else Some(Observed)
  }

  predicate IsUnrelated(frame: Frame) {
    match TryParseEthernetFrame(frame)
    case Success(parsed) => parsed.etherType != ETHERNET_PROTOCOL_ARP
    case Failure(_) => true
  }

  function IdentityOf(parsed: ParsedArp): Identity {
    Identity(parsed.opcode, parsed.senderHardware, parsed.senderProtocol, parsed.targetHardware, parsed.targetProtocol)
  }

  function ClassOf(locals: Locals, id: Identity): Option<PassiveArpClass> {
    ClassifyPassiveArp(id.opcode, id.senderHardware, id.senderProtocol, locals)
  }

  /** What one frame is to the monitor. */
  datatype Event = Unrelated | Malformed(reason: Reason) | Suppressed | Packet(identity: Identity)

  function EventOf(locals: Locals, frame: Frame): Event {
    if IsUnrelated(frame) then Unrelated else
    match TryParseArp(frame)
    case Failure(reason) => Malformed(reason)
    case Success(parsed) =>
      if ClassOf(locals, IdentityOf(parsed)).None? then Suppressed else Packet(IdentityOf(parsed))
  }

  function Events(locals: Locals, trace: seq<Frame>): seq<Event> {
    seq(|trace|, i requires 0 <= i < |trace| => EventOf(locals, trace[i]))
  }

  // ----- the closed form

  function Identities(events: seq<Event>): seq<Identity> {
    if events == [] then [] else
    var before := Identities(events[..|events| - 1]);
    match events[|events| - 1]
    case Packet(id) => before + [id]
    case _ => before
  }

  function Reasons(events: seq<Event>): seq<Reason> {
    if events == [] then [] else
    var before := Reasons(events[..|events| - 1]);
    match events[|events| - 1]
    case Malformed(reason) => before + [reason]
    case _ => before
  }

  /** The first `limit` distinct identities, in first-seen order. */
  function Retained(limit: nat, ids: seq<Identity>): seq<Identity> {
    var distinct := FirstSeen(ids);
    if |distinct| <= limit then distinct else distinct[..limit]
  }

  function RecordOf(locals: Locals, id: Identity, multiplicity: nat): Record {
    Record(
      match ClassOf(locals, id) case Some(classification) => classification case None => Observed,
      id.opcode, id.senderHardware, id.senderProtocol, id.targetHardware, id.targetProtocol,
      Saturated(multiplicity))
  }

  /** The record of a packet seen for the first time. */
  function NewRecord(classification: PassiveArpClass, id: Identity): Record {
    Record(
      classification,
      id.opcode, id.senderHardware, id.senderProtocol, id.targetHardware, id.targetProtocol,
      1)
  }

  function RecordsOf(locals: Locals, retained: seq<Identity>, ids: seq<Identity>): seq<Record> {
    seq(|retained|, i requires 0 <= i < |retained| => RecordOf(locals, retained[i], multiset(ids)[retained[i]]))
  }

  function MalformedOf(reasons: seq<Reason>): seq<MalformedWarning> {
    var distinct := FirstSeen(reasons);
    seq(|distinct|, i requires 0 <= i < |distinct| =>
      MalformedWarning(distinct[i], Saturated(multiset(reasons)[distinct[i]])))
  }

  predicate IsThirdParty(locals: Locals, address: Ipv4) {
    address != UNSPECIFIED && address !in locals.addresses
  }

  /** The third-party sender addresses of the retained identities, with repetitions. */
  function ClaimedAddresses(locals: Locals, retained: seq<Identity>): seq<Ipv4> {
    if retained == [] then [] else
    var before := ClaimedAddresses(locals, retained[..|retained| - 1]);
    var address := retained[|retained| - 1].senderProtocol;
    if IsThirdParty(locals, address) then before + [address] else before
  }

  function Claimants(retained: seq<Identity>, address: Ipv4): set<Mac> {
    set id | id in retained && id.senderProtocol == address :: id.senderHardware
  }

  function ClaimsOf(retained: seq<Identity>, order: seq<Ipv4>): seq<DuplicateIpClaim> {
    if order == [] then [] else
    var before := ClaimsOf(retained, order[..|order| - 1]);
    var address := order[|order| - 1];
    if |Claimants(retained, address)| < 2 then before
    else before + [DuplicateIpClaim(address, InAscendingOrder(Claimants(retained, address)))]
  }

  function WarningsOf(malformed: seq<MalformedWarning>, truncated: bool): seq<Warning> {
    seq(|malformed|, i requires 0 <= i < |malformed| => MalformedFrames(malformed[i].reason, malformed[i].count))
    + (if truncated then [RecordLimitReached] else [])
  }

  function ReportOfEvents(locals: Locals, limit: nat, events: seq<Event>): Outcome {
    var ids := Identities(events);
    var retained := Retained(limit, ids);
    Outcome(
      RecordsOf(locals, retained, ids),
      ClaimsOf(retained, FirstSeen<Ipv4>(ClaimedAddresses(locals, retained))),
      WarningsOf(MalformedOf(Reasons(events)), |FirstSeen(ids)| > limit))
  }

  /** The outcome of a monitor run, as a function of the whole trace. */
  function Report(locals: Locals, limit: nat, trace: seq<Frame>): Outcome {
    ReportOfEvents(locals, limit, Events(locals, trace))
  }

  // ----- how the closed form grows

  lemma EventsAppend(locals: Locals, trace: seq<Frame>, frame: Frame)
    ensures Events(locals, trace + [frame]) == Events(locals, trace) + [EventOf(locals, frame)]
  {
  }

  lemma IdentitiesAppend(events: seq<Event>, event: Event)
    ensures Identities(events + [event]) == Identities(events) + if event.Packet? then [event.identity] else []
    ensures Reasons(events + [event]) == Reasons(events) + if event.Malformed? then [event.reason] else []
  {
    assert (events + [event])[..|events|] == events;
  }

  lemma RetainedElements(limit: nat, ids: seq<Identity>)
    ensures Distinct(Retained(limit, ids))
    ensures |Retained(limit, ids)| <= limit
    ensures forall i :: 0 <= i < |Retained(limit, ids)| ==> Retained(limit, ids)[i] in ids
  {
    FirstSeenElements(ids);
  }

  lemma RetainedAppend(limit: nat, ids: seq<Identity>, id: Identity)
    ensures var full := id !in Retained(limit, ids) && |Retained(limit, ids)| >= limit;
      && Retained(limit, ids + [id])
         == (if id in Retained(limit, ids) || full then Retained(limit, ids) else Retained(limit, ids) + [id])
      && (|FirstSeen(ids + [id])| > limit <==> |FirstSeen(ids)| > limit || full)
  {
    FirstSeenAppend(ids, id);
    FirstSeenElements(ids);
  }

  lemma ClaimedAddressesAppend(locals: Locals, retained: seq<Identity>, id: Identity)
    ensures ClaimedAddresses(locals, retained + [id])
      == ClaimedAddresses(locals, retained)
         + if IsThirdParty(locals, id.senderProtocol) then [id.senderProtocol] else []
  {
    assert (retained + [id])[..|retained|] == retained;
  }

  lemma {:induction false} ClaimedAddressesElements(locals: Locals, retained: seq<Identity>)
    ensures forall p ::
      p in ClaimedAddresses(locals, retained)
      <==> IsThirdParty(locals, p) && exists id :: id in retained && id.senderProtocol == p
  {
    if retained != [] {
      var before, last := retained[..|retained| - 1], retained[|retained| - 1];
      assert retained == before + [last];
      ClaimedAddressesElements(locals, before);
      ClaimedAddressesAppend(locals, before, last);
    }
  }

  /** The claim order lists exactly the third-party senders, and each of them has a claimant. */
  lemma ClaimOrderElements(locals: Locals, retained: seq<Identity>)
    ensures var claimed := ClaimedAddresses(locals, retained);
      && Distinct<Ipv4>(FirstSeen<Ipv4>(claimed))
      && (forall p :: p in FirstSeen<Ipv4>(claimed) <==> p in claimed)
      && (forall p :: p in claimed ==> IsThirdParty(locals, p))
      && (forall p :: IsThirdParty(locals, p) ==> (p in claimed <==> Claimants(retained, p) != {}))
  {
    FirstSeenElements<Ipv4>(ClaimedAddresses(locals, retained));
    ClaimedAddressesElements(locals, retained);
    forall p: Ipv4
      ensures Claimants(retained, p) != {} <==> exists id :: id in retained && id.senderProtocol == p
    {
      if id :| id in retained && id.senderProtocol == p {
        assert id.senderHardware in Claimants(retained, p);
      }
    }
  }

  // ----- the class

  /** Records, index map and truncation flag agree with the identities seen so far. */
  ghost predicate TableMatches(
      locals: Locals, limit: nat, ids: seq<Identity>, records: seq<Record>, indexes: map<Identity, nat>,
      truncated: bool)
  {
    var retained := Retained(limit, ids);
    && records == RecordsOf(locals, retained, ids)
    && (forall id :: id in indexes <==> id in retained)
    && (forall i :: 0 <= i < |retained| ==> retained[i] in indexes && indexes[retained[i]] == i)
    && (truncated <==> |FirstSeen(ids)| > limit)
  }

  /** Claimant sets and their first-seen order agree with the retained identities. */
  ghost predicate ClaimsMatch(
      locals: Locals, retained: seq<Identity>, claimants: map<Ipv4, set<Mac>>, claimOrder: seq<Ipv4>)
  {
    && claimOrder == FirstSeen<Ipv4>(ClaimedAddresses(locals, retained))
    && (forall p :: p in claimants <==> p in claimOrder)
    && (forall p :: p in claimants ==> claimants[p] == Claimants(retained, p))
  }

  lemma TableFacts(
      locals: Locals, limit: nat, ids: seq<Identity>, records: seq<Record>, indexes: map<Identity, nat>,
      truncated: bool)
    requires TableMatches(locals, limit, ids, records, indexes, truncated)
    ensures records == RecordsOf(locals, Retained(limit, ids), ids)
    ensures |records| == |Retained(limit, ids)|
    ensures truncated <==> |FirstSeen(ids)| > limit
  {
  }

  /** A repeated identity adds one to the count of the record its index names. */
  lemma TableRepeat(
      locals: Locals, limit: nat, ids: seq<Identity>, id: Identity, records: seq<Record>,
      indexes: map<Identity, nat>, truncated: bool)
    requires TableMatches(locals, limit, ids, records, indexes, truncated) && id in indexes
    ensures indexes[id] < |records|
    ensures var index := indexes[id];
      var bumped := records[index].(count := SaturatingIncrement(records[index].count));
      TableMatches(locals, limit, ids + [id], records[index := bumped], indexes, truncated)
  {
    hide FirstSeen, Retained, RecordsOf;
    var retained := Retained(limit, ids);
    RetainedAppend(limit, ids, id);
    RetainedElements(limit, ids);
    IndexNames(locals, limit, ids, id, records, indexes, truncated);
    var at := indexes[id];
    RecordsBump(locals, retained, ids, at);
  }

  /** The index of a known identity names its record. */
  lemma IndexNames(
      locals: Locals, limit: nat, ids: seq<Identity>, id: Identity, records: seq<Record>,
      indexes: map<Identity, nat>, truncated: bool)
    requires TableMatches(locals, limit, ids, records, indexes, truncated) && id in indexes
    ensures indexes[id] < |records| == |Retained(limit, ids)| && Retained(limit, ids)[indexes[id]] == id
  {
    hide FirstSeen, Retained, RecordOf;
    var i := IndexOf(Retained(limit, ids), id);
    assert indexes[Retained(limit, ids)[i]] == i;
  }

  lemma RecordsBump(locals: Locals, retained: seq<Identity>, ids: seq<Identity>, at: nat)
    requires Distinct(retained) && at < |retained|
    ensures var records := RecordsOf(locals, retained, ids);
      var bumped := records[at].(count := SaturatingIncrement(records[at].count));
      RecordsOf(locals, retained, ids + [retained[at]]) == records[at := bumped]
  {
    var records := RecordsOf(locals, retained, ids);
    var bumped := records[at].(count := SaturatingIncrement(records[at].count));
    forall i | 0 <= i < |retained|
      ensures multiset(ids + [retained[at]])[retained[i]] == multiset(ids)[retained[i]] + if i == at then 1 else 0
    {
      CountsAppend(ids, retained[at], retained[i]);
    }
    hide ClassOf;
    assert RecordsOf(locals, retained, ids + [retained[at]]) == records[at := bumped];
  }

  /** A new identity behind a full table only sets the flag. */
  lemma TableOverflow(
      locals: Locals, limit: nat, ids: seq<Identity>, id: Identity, records: seq<Record>,
      indexes: map<Identity, nat>, truncated: bool)
    requires TableMatches(locals, limit, ids, records, indexes, truncated)
    requires id !in indexes && |records| >= limit
    ensures TableMatches(locals, limit, ids + [id], records, indexes, true)
  {
    hide FirstSeen, Retained, RecordOf, ClassOf;
    var retained := Retained(limit, ids);
    RetainedAppend(limit, ids, id);
    forall i | 0 <= i < |retained|
      ensures multiset(ids + [id])[retained[i]] == multiset(ids)[retained[i]]
    {
      CountsAppend(ids, id, retained[i]);
    }
    assert RecordsOf(locals, retained, ids + [id]) == RecordsOf(locals, retained, ids);
  }

  /** A new identity takes the next free index. */
  lemma TableInsert(
      locals: Locals, limit: nat, ids: seq<Identity>, id: Identity, classification: PassiveArpClass,
      records: seq<Record>, indexes: map<Identity, nat>, truncated: bool)
    requires TableMatches(locals, limit, ids, records, indexes, truncated)
    requires id !in indexes && |records| < limit && ClassOf(locals, id) == Some(classification)
    ensures TableMatches(
      locals, limit, ids + [id], records + [NewRecord(classification, id)], indexes[id := |records|], truncated)
  {
    hide FirstSeen, Retained;
    var retained := Retained(limit, ids);
    RetainedAppend(limit, ids, id);
    NewIdentityIsUnseen(limit, ids, id);
    RecordsAppend(locals, retained, ids, id, classification);
    assert records + [NewRecord(classification, id)] == RecordsOf(locals, retained + [id], ids + [id]);
  }

  lemma RecordsAppend(
      locals: Locals, retained: seq<Identity>, ids: seq<Identity>, id: Identity, classification: PassiveArpClass)
    requires id !in retained && id !in ids && ClassOf(locals, id) == Some(classification)
    ensures RecordsOf(locals, retained + [id], ids + [id])
      == RecordsOf(locals, retained, ids)
         + [NewRecord(classification, id)]
  {
    forall i | 0 <= i < |retained|
      ensures RecordOf(locals, retained[i], multiset(ids + [id])[retained[i]])
        == RecordOf(locals, retained[i], multiset(ids)[retained[i]])
    {
      hide RecordOf;
      CountsAppend(ids, id, retained[i]);
    }
    assert RecordOf(locals, id, multiset(ids + [id])[id]).count == 1 by {
      CountsAppend(ids, id, id);
    }
  }

  lemma NewIdentityIsUnseen(limit: nat, ids: seq<Identity>, id: Identity)
    requires id !in Retained(limit, ids) && |Retained(limit, ids)| < limit
    ensures id !in ids
  {
    FirstSeenElements(ids);
  }

  lemma MalformedReasons(reasons: seq<Reason>)
    ensures |MalformedOf(reasons)| == |FirstSeen(reasons)|
    ensures forall i :: 0 <= i < |MalformedOf(reasons)| ==> MalformedOf(reasons)[i].reason == FirstSeen(reasons)[i]
  {
  }

  /** A repeated reason adds one to the count of its warning. */
  lemma MalformedRepeat(reasons: seq<Reason>, i: nat)
    requires i < |MalformedOf(reasons)|
    ensures var before := MalformedOf(reasons);
      MalformedOf(reasons + [before[i].reason])
      == before[i := before[i].(count := SaturatingIncrement(before[i].count))]
  {
    hide FirstSeen;
    var distinct := FirstSeen(reasons);
    var before := MalformedOf(reasons);
    var reason := before[i].reason;
    MalformedReasons(reasons);
    FirstSeenElements(reasons);
    assert reason == distinct[i] && reason in reasons;
    FirstSeenAppend(reasons, reason);
    var bumped := before[i := before[i].(count := SaturatingIncrement(before[i].count))];
    forall j | 0 <= j < |distinct|
      ensures bumped[j] == MalformedWarning(distinct[j], Saturated(multiset(reasons + [reason])[distinct[j]]))
    {
      CountsAppend(reasons, reason, distinct[j]);
    }
    assert MalformedOf(reasons + [reason]) == bumped;
  }

  /** A new reason starts a warning behind the others. */
  lemma MalformedNew(reasons: seq<Reason>, reason: Reason)
    requires reason !in FirstSeen(reasons)
    ensures MalformedOf(reasons + [reason]) == MalformedOf(reasons) + [MalformedWarning(reason, 1)]
  {
    hide FirstSeen;
    var distinct := FirstSeen(reasons);
    var after := MalformedOf(reasons) + [MalformedWarning(reason, 1)];
    FirstSeenElements(reasons);
    FirstSeenAppend(reasons, reason);
    assert reason !in reasons;
    forall j | 0 <= j < |distinct| + 1
      ensures after[j]
        == MalformedWarning((distinct + [reason])[j], Saturated(multiset(reasons + [reason])[(distinct + [reason])[j]]))
    {
      CountsAppend(reasons, reason, (distinct + [reason])[j]);
    }
    assert MalformedOf(reasons + [reason]) == after;
  }

  class Aggregator {
    const locals: Locals
    const recordLimit: nat
    var records: seq<Record>
    var indexes: map<Identity, nat>
    var claimants: map<Ipv4, set<Mac>>
    var claimOrder: seq<Ipv4>
    var malformed: seq<MalformedWarning>
    var truncated: bool
    ghost var trace: seq<Frame>

    ghost predicate Valid()
      reads this
    {
      var events := Events(locals, trace);
      var ids := Identities(events);
      && TableMatches(locals, recordLimit, ids, records, indexes, truncated)
      && ClaimsMatch(locals, Retained(recordLimit, ids), claimants, claimOrder)
      && malformed == MalformedOf(Reasons(events))
    }

    constructor (locals: Locals, recordLimit: nat)
      ensures Valid() && trace == []
      ensures this.locals == locals && this.recordLimit == recordLimit
    {
      this.locals := locals;
      this.recordLimit := recordLimit;
      records := [];
      indexes := map[];
      claimants := map[];
      claimOrder := [];
      malformed := [];
      truncated := false;
      trace := [];
    }

    method Observe(frame: Frame)
      requires Valid()
      modifies this
      ensures Valid() && trace == old(trace) + [frame]
    {
      hide TryParseEthernetFrame, TryParseArp, TableMatches, ClaimsMatch, Retained, MalformedOf;
      hide Identities, Reasons, Events;
      ghost var events := Events(locals, trace);
      assert Identities(events) + [] == Identities(events) && Reasons(events) + [] == Reasons(events);
      EventsAppend(locals, trace, frame);
      IdentitiesAppend(events, EventOf(locals, frame));
      if IsUnrelated(frame) {
        trace := trace + [frame];
        return;
      }
      match TryParseArp(frame)
      case Success(parsed) =>
        ObserveParsed(parsed, events);
        trace := trace + [frame];
      case Failure(reason) =>
        RecordMalformed(reason, Reasons(events));
        trace := trace + [frame];
    }

    method ObserveParsed(parsed: ParsedArp, ghost events: seq<Event>)
      requires TableMatches(locals, recordLimit, Identities(events), records, indexes, truncated)
      requires ClaimsMatch(locals, Retained(recordLimit, Identities(events)), claimants, claimOrder)
      modifies `records, `indexes, `truncated, `claimants, `claimOrder
      ensures
        var id := IdentityOf(parsed);
        var ids := Identities(events) + if ClassOf(locals, id).None? then [] else [id];
        && TableMatches(locals, recordLimit, ids, records, indexes, truncated)
        && ClaimsMatch(locals, Retained(recordLimit, ids), claimants, claimOrder)
    {
      hide TableMatches, ClaimsMatch, Retained, Identities;
      ghost var ids := Identities(events);
      var classification := ClassifyPassiveArp(parsed.opcode, parsed.senderHardware, parsed.senderProtocol, locals);
      if classification.None? {
        assert ids + [] == ids;
        return;
      }
      var id := Identity(
        parsed.opcode, parsed.senderHardware, parsed.senderProtocol, parsed.targetHardware, parsed.targetProtocol);
      var kept := RememberPacket(classification.value, id, ids);
      RetainedAppend(recordLimit, ids, id);
      if !kept {
        return;
      }
      ghost var retained := Retained(recordLimit, ids);
      if classification.value == Observed {
        NoteThirdPartySender(id, retained);
        if id in retained {
          RepeatedClaim(locals, retained, id, claimants, claimOrder);
        }
      } else {
        if id !in retained {
          ConflictClaimsNothing(locals, retained, id, claimants, claimOrder);
        }
      }
    }

    method RememberPacket(classification: PassiveArpClass, id: Identity, ghost ids: seq<Identity>) returns (kept: bool)
      requires TableMatches(locals, recordLimit, ids, records, indexes, truncated)
      requires ClassOf(locals, id) == Some(classification)
      modifies `records, `indexes, `truncated
      ensures TableMatches(locals, recordLimit, ids + [id], records, indexes, truncated)
      ensures kept <==> id in Retained(recordLimit, ids + [id])
    {
      hide FirstSeen, RecordsOf, ClassOf;
      RetainedAppend(recordLimit, ids, id);
      if id in indexes {
        TableRepeat(locals, recordLimit, ids, id, records, indexes, truncated);
        var index := indexes[id];
        records := records[index := records[index].(count := SaturatingIncrement(records[index].count))];
        return true;
      }
      TableFacts(locals, recordLimit, ids, records, indexes, truncated);
      if |records| >= recordLimit {
        TableOverflow(locals, recordLimit, ids, id, records, indexes, truncated);
        truncated := true;
        return false;
      }
      TableInsert(locals, recordLimit, ids, id, classification, records, indexes, truncated);
      var index := |records|;
      indexes := indexes[id := index];
      records := records + [NewRecord(classification, id)];
      return true;
    }

    method NoteThirdPartySender(id: Identity, ghost retained: seq<Identity>)
      requires ClaimsMatch(locals, retained, claimants, claimOrder)
      modifies `claimants, `claimOrder
      ensures ClaimsMatch(locals, retained + [id], claimants, claimOrder)
    {
      hide FirstSeen, ClaimedAddresses, Claimants;
      var senderProtocol := id.senderProtocol;
      ClaimedAddressesAppend(locals, retained, id);
      ClaimantsAppend(retained, id);
      ClaimOrderElements(locals, retained);
      if senderProtocol == UNSPECIFIED || senderProtocol in locals.addresses {
        assert ClaimedAddresses(locals, retained) + [] == ClaimedAddresses(locals, retained);
        return;
      }
      FirstSeenAppend<Ipv4>(ClaimedAddresses(locals, retained), senderProtocol);
      var entry := if senderProtocol in claimants then claimants[senderProtocol] else {};
      if entry == {} {
        claimOrder := claimOrder + [senderProtocol];
      }
      claimants := claimants[senderProtocol := entry + {id.senderHardware}];
    }

    method RecordMalformed(reason: Reason, ghost reasons: seq<Reason>)
      requires malformed == MalformedOf(reasons)
      modifies `malformed
      ensures malformed == MalformedOf(reasons + [reason])
    {
      hide FirstSeen, MalformedOf;
      ghost var distinct := FirstSeen(reasons);
      MalformedReasons(reasons);
      for i := 0 to |malformed|
        invariant malformed == old(malformed)
        invariant reason !in distinct[..i]
      {
        if malformed[i].reason == reason {
          MalformedRepeat(reasons, i);
          malformed := malformed[i := malformed[i].(count := SaturatingIncrement(malformed[i].count))];
          return;
        }
      }
      assert distinct[..|malformed|] == distinct;
      MalformedNew(reasons, reason);
      malformed := malformed + [MalformedWarning(reason, 1)];
    }

    method Finish() returns (outcome: Outcome)
      requires Valid()
      ensures outcome == Report(locals, recordLimit, trace)
    {
      hide Retained, InAscendingOrder, Identities, Events, FirstSeen, TableMatches, Claimants;
      ghost var ids := Identities(Events(locals, trace));
      ghost var retained := Retained(recordLimit, ids);
      TableFacts(locals, recordLimit, ids, records, indexes, truncated);
      var duplicateIpClaims := [];
      for i := 0 to |claimOrder|
        invariant duplicateIpClaims == ClaimsOf(retained, claimOrder[..i])
      {
        assert claimOrder[..i + 1][..i] == claimOrder[..i];
        var address := claimOrder[i];
        if address in claimants && |claimants[address]| >= 2 {
          duplicateIpClaims := duplicateIpClaims + [DuplicateIpClaim(address, InAscendingOrder(claimants[address]))];
        }
      }
      assert claimOrder[..|claimOrder|] == claimOrder;
      var warnings := [];
      for i := 0 to |malformed|
        invariant warnings == WarningsOf(malformed[..i], false)
      {
        warnings := warnings + [MalformedFrames(malformed[i].reason, malformed[i].count)];
      }
      assert malformed[..|malformed|] == malformed;
      if truncated {
        warnings := warnings + [RecordLimitReached];
      }
      return Outcome(records, duplicateIpClaims, warnings);
    }
  }

  lemma ClaimantsAppend(retained: seq<Identity>, id: Identity)
    ensures forall p ::
      Claimants(retained + [id], p)
      == Claimants(retained, p) + if p == id.senderProtocol then {id.senderHardware} else {}
  {
    forall p: Ipv4
      ensures Claimants(retained + [id], p)
        == Claimants(retained, p) + if p == id.senderProtocol then {id.senderHardware} else {}
    {
      assert forall other :: other in retained + [id] <==> other in retained || other == id;
    }
  }

  /** Noting the sender of an identity that is already retained changes nothing. */
  lemma RepeatedClaim(
      locals: Locals, retained: seq<Identity>, id: Identity, claimants: map<Ipv4, set<Mac>>, claimOrder: seq<Ipv4>)
    requires id in retained && ClaimsMatch(locals, retained + [id], claimants, claimOrder)
    ensures ClaimsMatch(locals, retained, claimants, claimOrder)
  {
    ClaimedAddressesAppend(locals, retained, id);
    ClaimedAddressesElements(locals, retained);
    if IsThirdParty(locals, id.senderProtocol) {
      FirstSeenAppend<Ipv4>(ClaimedAddresses(locals, retained), id.senderProtocol);
    } else {
      assert ClaimedAddresses(locals, retained) + [] == ClaimedAddresses(locals, retained);
    }
    forall p: Ipv4
      ensures Claimants(retained + [id], p) == Claimants(retained, p)
    {
      assert forall other :: other in retained + [id] <==> other in retained;
    }
  }

  /** A conflict claims a local address, so it adds no third-party claimant. */
  lemma ConflictClaimsNothing(
      locals: Locals, retained: seq<Identity>, id: Identity, claimants: map<Ipv4, set<Mac>>, claimOrder: seq<Ipv4>)
    requires ClassOf(locals, id) == Some(Conflict) && ClaimsMatch(locals, retained, claimants, claimOrder)
    ensures ClaimsMatch(locals, retained + [id], claimants, claimOrder)
  {
    ClaimedAddressesAppend(locals, retained, id);
    assert ClaimedAddresses(locals, retained) + [] == ClaimedAddresses(locals, retained);
    FirstSeenElements<Ipv4>(ClaimedAddresses(locals, retained));
    ClaimedAddressesElements(locals, retained);
    ClaimantsAppend(retained, id);
  }
}
