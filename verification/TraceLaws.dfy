/** Laws over whole traces: conservation of frames, and insensitivity to their order. */
module TraceLaws {
  import opened AddressResolution
  import opened EthernetFrame
  import opened MonitorLaws
  import opened Octets
  import opened PassiveMonitor
  import opened Sequences

  // ----- conservation

  function RecordCounts(records: seq<Record>): seq<nat> {
    seq(|records|, i requires 0 <= i < |records| => records[i].count)
  }

  function WarningCounts(warnings: seq<Warning>): seq<nat> {
    seq(|warnings|, i requires 0 <= i < |warnings| => if warnings[i].MalformedFrames? then warnings[i].count else 0)
  }

  /** Events without a packet or a warning. */
  ghost function Skipped(events: seq<Event>): nat {
    multiset(events)[Unrelated] + multiset(events)[Suppressed]
  }

  /** The frames of a trace that are silently skipped: no ARP, or the monitor's own. */
  function SkippedFrames(locals: Locals, trace: seq<Frame>): set<nat> {
    set i: nat | i < |trace| &&
      (!CarriesArp(trace[i]) || (TryParseArp(trace[i]).Success? && IsOwn(locals, TryParseArp(trace[i]).value)))
  }

  lemma SkippedFramesAppend(locals: Locals, trace: seq<Frame>, frame: Frame)
    ensures |SkippedFrames(locals, trace + [frame])|
      == |SkippedFrames(locals, trace)| + if EventOf(locals, frame) in {Unrelated, Suppressed} then 1 else 0
  {
    hide TryParseEthernetFrame, ParsePdu;
    var before, after := SkippedFrames(locals, trace), SkippedFrames(locals, trace + [frame]);
    assert |trace| in after <==> EventOf(locals, frame) in {Unrelated, Suppressed};
    assert forall i: nat :: i < |trace| ==> (i in after <==> i in before);
    assert after - {|trace|} == before;
    assert |trace| in after ==> |after| == |after - {|trace|}| + 1;
    assert |trace| !in after ==> after == before;
  }

  lemma {:induction false} SkippedFramesAreCounted(locals: Locals, trace: seq<Frame>)
    ensures |SkippedFrames(locals, trace)| == Skipped(Events(locals, trace))
  {
    hide EventOf, SkippedFrames, Events;
    if trace == [] {
      NothingSkipped(locals);
    } else {
      var before, last := trace[..|trace| - 1], trace[|trace| - 1];
      assert trace == before + [last];
      SkippedFramesAreCounted(locals, before);
      SkippedFramesAppend(locals, before, last);
      EventsAppend(locals, before, last);
      MultisetAppend(Events(locals, before), EventOf(locals, last));
    }
  }

  lemma NothingSkipped(locals: Locals)
    ensures SkippedFrames(locals, []) == {} && Events(locals, []) == []
  {
  }

  lemma {:induction false} EventsPartition(events: seq<Event>)
    ensures Skipped(events) + |Identities(events)| + |Reasons(events)| == |events|
  {
    if events != [] {
      var before, last := events[..|events| - 1], events[|events| - 1];
      assert events == before + [last];
      EventsPartition(before);
      IdentitiesAppend(before, last);
      MultisetAppend(before, last);
    }
  }

  /** Packets of the trace that the record limit kept out of the table. */
  ghost function DroppedByLimit(locals: Locals, limit: nat, trace: seq<Frame>): nat {
    CountOutside(PacketsOf(locals, trace), Recorded(Report(locals, limit, trace).records))
  }

  /** No multiplicity in the trace exceeds what a 64-bit counter can hold. */
  ghost predicate NoCounterSaturates(locals: Locals, limit: nat, trace: seq<Frame>) {
    && (forall id :: id in Recorded(Report(locals, limit, trace).records) ==>
          multiset(PacketsOf(locals, trace))[id] <= U64_MAX)
    && (forall reason :: multiset(Reasons(Events(locals, trace)))[reason] <= U64_MAX)
  }

  lemma CountOutsideSelf<T>(s: seq<T>, of: seq<T>)
    requires forall i :: 0 <= i < |s| ==> s[i] in of
    ensures CountOutside(s, of) == 0
  {
  }

  /** Saturated record counts against true multiplicities. */
  lemma RecordSum(locals: Locals, retained: seq<Identity>, packets: seq<Identity>)
    ensures Sum(RecordCounts(RecordsOf(locals, retained, packets))) <= Sum(Multiplicities(retained, packets))
    ensures Sum(RecordCounts(RecordsOf(locals, retained, packets))) == Sum(Multiplicities(retained, packets))
      <==> forall id :: id in retained ==> multiset(packets)[id] <= U64_MAX
  {
    var counts, multiplicities := RecordCounts(RecordsOf(locals, retained, packets)), Multiplicities(retained, packets);
    SumLowered(multiplicities, counts);
    if counts == multiplicities {
      forall id | id in retained
        ensures multiset(packets)[id] <= U64_MAX
      {
        assert counts[IndexOf(retained, id)] == multiplicities[IndexOf(retained, id)];
      }
    }
    if forall id :: id in retained ==> multiset(packets)[id] <= U64_MAX {
      assert forall i :: 0 <= i < |retained| ==> retained[i] in retained;
      assert counts == multiplicities;
    }
  }

  lemma SumAppendZero(s: seq<nat>)
    ensures Sum(s + [0]) == Sum(s)
  {
    assert (s + [0])[..|s|] == s;
  }

  /** Saturated malformed counts against the number of malformed frames. */
  lemma WarningSum(reasons: seq<Reason>, truncated: bool)
    ensures Sum(WarningCounts(WarningsOf(MalformedOf(reasons), truncated))) <= |reasons|
    ensures Sum(WarningCounts(WarningsOf(MalformedOf(reasons), truncated))) == |reasons|
      <==> forall reason :: multiset(reasons)[reason] <= U64_MAX
  {
    var distinct := FirstSeen(reasons);
    FirstSeenElements(reasons);
    MultiplicitiesPartition(distinct, reasons);
    CountOutsideSelf(reasons, distinct);
    var counts := WarningCounts(WarningsOf(MalformedOf(reasons), false));
    var multiplicities := Multiplicities(distinct, reasons);
    SumLowered(multiplicities, counts);
    SumAppendZero(counts);
    assert WarningCounts(WarningsOf(MalformedOf(reasons), true)) == counts + [0];
    if counts == multiplicities {
      forall reason | reason in reasons
        ensures multiset(reasons)[reason] <= U64_MAX
      {
        assert counts[IndexOf(distinct, reason)] == multiplicities[IndexOf(distinct, reason)];
      }
    }
    if forall reason :: multiset(reasons)[reason] <= U64_MAX {
      assert counts == multiplicities;
    }
  }

  /**
   Conservation. The silently skipped frames, the malformed counts, the record counts and the packets
   dropped by the limit never add up to more than the frames observed, and account for every one
   of them exactly when no counter saturated.
   */
  lemma Conservation(locals: Locals, limit: nat, trace: seq<Frame>)
    ensures var outcome := Report(locals, limit, trace);
      var accounted := |SkippedFrames(locals, trace)| + Sum(WarningCounts(outcome.warnings))
        + Sum(RecordCounts(outcome.records)) + DroppedByLimit(locals, limit, trace);
      && accounted <= |trace|
      && (accounted == |trace| <==> NoCounterSaturates(locals, limit, trace))
  {
    hide Events, Retained, RecordsOf, MalformedOf, WarningsOf, RecordCounts, WarningCounts, Skipped, Recorded;
    hide SkippedFrames;
    var events := Events(locals, trace);
    var packets := PacketsOf(locals, trace);
    var retained := Retained(limit, packets);
    SkippedFramesAreCounted(locals, trace);
    EventsSize(locals, trace);
    EventsPartition(events);
    RecordedIsRetained(locals, limit, trace);
    RetainedElements(limit, packets);
    MultiplicitiesPartition(retained, packets);
    RecordSum(locals, retained, packets);
    WarningSum(Reasons(events), |FirstSeen(packets)| > limit);
  }

  lemma EventsSize(locals: Locals, trace: seq<Frame>)
    ensures |Events(locals, trace)| == |trace|
  {
  }

  // ----- order insensitivity

  lemma RemoveAt<T>(s: seq<T>, k: nat)
    requires k < |s|
    ensures multiset(s) == multiset(s[..k] + s[k + 1..]) + multiset{s[k]}
  {
    assert s == s[..k] + [s[k]] + s[k + 1..];
  }

  lemma {:induction false} ExtractedMultiset(events: seq<Event>, id: Identity, reason: Reason)
    ensures multiset(Identities(events))[id] == multiset(events)[Packet(id)]
    ensures multiset(Reasons(events))[reason] == multiset(events)[Malformed(reason)]
  {
    if events != [] {
      var before, last := events[..|events| - 1], events[|events| - 1];
      assert events == before + [last];
      ExtractedMultiset(before, id, reason);
      IdentitiesAppend(before, last);
    }
  }

  lemma ExtractedPermuted(events: seq<Event>, other: seq<Event>)
    requires multiset(events) == multiset(other)
    ensures multiset(Identities(events)) == multiset(Identities(other))
    ensures multiset(Reasons(events)) == multiset(Reasons(other))
  {
    forall id
      ensures multiset(Identities(events))[id] == multiset(Identities(other))[id]
    {
      ExtractedMultiset(events, id, FrameShorterThanHeader);
      ExtractedMultiset(other, id, FrameShorterThanHeader);
    }
    forall reason
      ensures multiset(Reasons(events))[reason] == multiset(Reasons(other))[reason]
    {
      var id := Identity(0, ZERO_MAC, UNSPECIFIED, ZERO_MAC, UNSPECIFIED);
      ExtractedMultiset(events, id, reason);
      ExtractedMultiset(other, id, reason);
    }
  }

  lemma FirstSeenPermuted<T>(s: seq<T>, t: seq<T>)
    requires multiset(s) == multiset(t)
    ensures multiset(FirstSeen(s)) == multiset(FirstSeen(t))
    ensures |FirstSeen(s)| == |FirstSeen(t)|
  {
    FirstSeenElements(s);
    FirstSeenElements(t);
    assert forall x :: x in s <==> x in multiset(s);
    assert forall x :: x in t <==> x in multiset(t);
    DistinctPermutation(FirstSeen(s), FirstSeen(t));
    assert |multiset(FirstSeen(s))| == |FirstSeen(s)|;
    assert |multiset(FirstSeen(t))| == |FirstSeen(t)|;
  }

  function Mapped<A, B>(f: A -> B, s: seq<A>): seq<B> {
    seq(|s|, i requires 0 <= i < |s| => f(s[i]))
  }

  lemma MappedRemoveAt<A, B>(s: seq<A>, k: nat, f: A -> B)
    requires k < |s|
    ensures multiset(Mapped(f, s)) == multiset(Mapped(f, s[..k] + s[k + 1..])) + multiset{f(s[k])}
  {
    RemoveAt(Mapped(f, s), k);
    assert Mapped(f, s[..k] + s[k + 1..]) == Mapped(f, s)[..k] + Mapped(f, s)[k + 1..];
  }

  /** Mapping permuted sequences through one function gives permuted sequences. */
  lemma {:induction false} MappedPermuted<A, B>(s: seq<A>, t: seq<A>, f: A -> B)
    requires multiset(s) == multiset(t)
    ensures multiset(Mapped(f, s)) == multiset(Mapped(f, t))
  {
    if s == [] {
      assert |multiset(t)| == 0;
    } else {
      var before, last := s[..|s| - 1], s[|s| - 1];
      assert s == before + [last];
      assert last in multiset(t);
      var k: nat :| k < |t| && t[k] == last;
      var rest := t[..k] + t[k + 1..];
      RemoveAt(t, k);
      assert multiset(before) == multiset(s) - multiset{last};
      MappedPermuted(before, rest, f);
      assert Mapped(f, s) == Mapped(f, before) + [f(last)];
      MappedRemoveAt(t, k, f);
    }
  }

  lemma EventsPermuted(locals: Locals, trace: seq<Frame>, other: seq<Frame>)
    requires multiset(trace) == multiset(other)
    ensures multiset(Events(locals, trace)) == multiset(Events(locals, other))
  {
    var f := (frame: Frame) => EventOf(locals, frame);
    MappedPermuted(trace, other, f);
    assert Events(locals, trace) == Mapped(f, trace);
    assert Events(locals, other) == Mapped(f, other);
  }

  lemma RecordsPermuted(
      locals: Locals, retained: seq<Identity>, ids: seq<Identity>, otherRetained: seq<Identity>,
      otherIds: seq<Identity>)
    requires multiset(retained) == multiset(otherRetained) && multiset(ids) == multiset(otherIds)
    ensures multiset(RecordsOf(locals, retained, ids)) == multiset(RecordsOf(locals, otherRetained, otherIds))
  {
    var f := (id: Identity) => RecordOf(locals, id, multiset(ids)[id]);
    MappedPermuted(retained, otherRetained, f);
    assert RecordsOf(locals, retained, ids) == Mapped(f, retained);
    assert RecordsOf(locals, otherRetained, otherIds) == Mapped(f, otherRetained);
  }

  lemma WarningsPermuted(reasons: seq<Reason>, other: seq<Reason>, truncated: bool)
    requires multiset(reasons) == multiset(other)
    ensures multiset(WarningsOf(MalformedOf(reasons), truncated)) == multiset(WarningsOf(MalformedOf(other), truncated))
  {
    FirstSeenPermuted(reasons, other);
    var distinct, otherDistinct := FirstSeen(reasons), FirstSeen(other);
    hide FirstSeen;
    var f := (reason: Reason) => MalformedFrames(reason, Saturated(multiset(reasons)[reason]));
    MappedPermuted(distinct, otherDistinct, f);
    var tail := if truncated then [RecordLimitReached] else [];
    assert WarningsOf(MalformedOf(reasons), truncated) == Mapped(f, distinct) + tail;
    assert WarningsOf(MalformedOf(other), truncated) == Mapped(f, otherDistinct) + tail;
  }

  /** Membership in the claim list depends only on which identities are retained. */
  lemma ClaimMembers(locals: Locals, retained: seq<Identity>, c: DuplicateIpClaim)
    ensures c in ClaimsOf(retained, FirstSeen<Ipv4>(ClaimedAddresses(locals, retained)))
      <==> && IsThirdParty(locals, c.protocolAddress)
           && |Claimants(retained, c.protocolAddress)| >= 2
           && c.hardwareAddresses == InAscendingOrder(Claimants(retained, c.protocolAddress))
  {
    hide ClaimsOf, FirstSeen, ClaimedAddresses, InAscendingOrder, Claimants;
    ClaimOrderElements(locals, retained);
    ClaimsOfElements(retained, FirstSeen<Ipv4>(ClaimedAddresses(locals, retained)));
    assert |Claimants(retained, c.protocolAddress)| >= 2 ==> Claimants(retained, c.protocolAddress) != {};
  }

  lemma ClaimsAreDistinct(locals: Locals, retained: seq<Identity>)
    ensures Distinct(ClaimsOf(retained, FirstSeen<Ipv4>(ClaimedAddresses(locals, retained))))
  {
    hide ClaimsOf, FirstSeen, ClaimedAddresses, InAscendingOrder, Claimants;
    ClaimOrderElements(locals, retained);
    ClaimsOfElements(retained, FirstSeen<Ipv4>(ClaimedAddresses(locals, retained)));
  }

  lemma ClaimsPermuted(locals: Locals, retained: seq<Identity>, other: seq<Identity>)
    requires multiset(retained) == multiset(other)
    ensures multiset(ClaimsOf(retained, FirstSeen<Ipv4>(ClaimedAddresses(locals, retained))))
      == multiset(ClaimsOf(other, FirstSeen<Ipv4>(ClaimedAddresses(locals, other))))
  {
    hide ClaimsOf, FirstSeen, ClaimedAddresses, InAscendingOrder;
    ClaimsAreDistinct(locals, retained);
    ClaimsAreDistinct(locals, other);
    forall id
      ensures id in retained <==> id in other
    {
      assert id in multiset(retained) <==> id in multiset(other);
    }
    forall c: DuplicateIpClaim
      ensures c in ClaimsOf(retained, FirstSeen<Ipv4>(ClaimedAddresses(locals, retained)))
        <==> c in ClaimsOf(other, FirstSeen<Ipv4>(ClaimedAddresses(locals, other)))
    {
      ClaimMembers(locals, retained, c);
      ClaimMembers(locals, other, c);
      assert Claimants(retained, c.protocolAddress) == Claimants(other, c.protocolAddress);
    }
    DistinctPermutation(
      ClaimsOf(retained, FirstSeen<Ipv4>(ClaimedAddresses(locals, retained))),
      ClaimsOf(other, FirstSeen<Ipv4>(ClaimedAddresses(locals, other))));
  }

  /** Two outcomes that differ only in the order of their lists. */
  ghost predicate SameUpToOrder(a: Outcome, b: Outcome) {
    && multiset(a.records) == multiset(b.records)
    && multiset(a.duplicateIpClaims) == multiset(b.duplicateIpClaims)
    && multiset(a.warnings) == multiset(b.warnings)
  }

  /**
   While the distinct packets fit the table, the order in which frames arrive does not matter: any
   permutation of the trace gives the same records, claims and warnings, up to their list order.
   */
  lemma OrderInsensitive(locals: Locals, limit: nat, trace: seq<Frame>, other: seq<Frame>)
    requires multiset(trace) == multiset(other)
    requires limit == 0 || |FirstSeen(PacketsOf(locals, trace))| <= limit
    ensures SameUpToOrder(Report(locals, limit, trace), Report(locals, limit, other))
  {
    hide Events, Identities, Reasons, RecordsOf, ClaimsOf, WarningsOf, MalformedOf, FirstSeen, ClaimedAddresses;
    EventsPermuted(locals, trace, other);
    ExtractedPermuted(Events(locals, trace), Events(locals, other));
    var ids, otherIds := PacketsOf(locals, trace), PacketsOf(locals, other);
    FirstSeenPermuted(ids, otherIds);
    var retained, otherRetained := Retained(limit, ids), Retained(limit, otherIds);
    assert multiset(retained) == multiset(otherRetained);
    RecordsPermuted(locals, retained, ids, otherRetained, otherIds);
    ClaimsPermuted(locals, retained, otherRetained);
    WarningsPermuted(Reasons(Events(locals, trace)), Reasons(Events(locals, other)), |FirstSeen(ids)| > limit);
  }

  /** A packet that comes first is recorded, whatever follows it. */
  lemma FirstPacketIsRecorded(locals: Locals, limit: nat, frame: Frame, rest: seq<Frame>)
    requires limit > 0 && EventOf(locals, frame).Packet?
    ensures EventOf(locals, frame).identity in Recorded(Report(locals, limit, [frame] + rest).records)
  {
    hide EventOf;
    var id := EventOf(locals, frame).identity;
    var packets := PacketsOf(locals, [frame] + rest);
    FirstPacket(locals, frame, rest);
    RecordedIsRetained(locals, limit, [frame] + rest);
    FirstSeenElements(packets);
    var at := IndexOf(FirstSeen(packets), id);
    IndexOfIsUnique(packets, 0);
    if at > 0 {
      FirstSeenOrder(packets, 0, at);
    }
    assert Retained(limit, packets)[0] == id;
  }

  lemma {:induction false} FirstPacket(locals: Locals, frame: Frame, rest: seq<Frame>)
    requires EventOf(locals, frame).Packet?
    ensures var packets := PacketsOf(locals, [frame] + rest);
      packets != [] && packets[0] == EventOf(locals, frame).identity
  {
    hide EventOf;
    if rest == [] {
      assert [] + [frame] == [frame] + rest;
      EventsAppend(locals, [], frame);
      IdentitiesAppend(Events(locals, []), EventOf(locals, frame));
    } else {
      var before, last := [frame] + rest[..|rest| - 1], rest[|rest| - 1];
      assert [frame] + rest == before + [last];
      FirstPacket(locals, frame, rest[..|rest| - 1]);
      EventsAppend(locals, before, last);
      IdentitiesAppend(Events(locals, before), EventOf(locals, last));
    }
  }

  /** Every packet of a trace comes from one of its frames. */
  lemma {:induction false} PacketSource(locals: Locals, trace: seq<Frame>, id: Identity) returns (k: nat)
    requires id in PacketsOf(locals, trace)
    ensures k < |trace| && EventOf(locals, trace[k]) == Packet(id)
  {
    hide EventOf;
    var before, last := trace[..|trace| - 1], trace[|trace| - 1];
    assert trace == before + [last];
    EventsAppend(locals, before, last);
    IdentitiesAppend(Events(locals, before), EventOf(locals, last));
    if id in PacketsOf(locals, before) {
      k := PacketSource(locals, before, id);
    } else {
      k := |trace| - 1;
    }
  }

  /** Behind a full table, moving the frame of an unrecorded packet to the front changes the records. */
  lemma OrderMattersWhenFull(locals: Locals, limit: nat, trace: seq<Frame>) returns (other: seq<Frame>)
    requires 0 < limit < |FirstSeen(PacketsOf(locals, trace))|
    ensures multiset(other) == multiset(trace)
    ensures !SameUpToOrder(Report(locals, limit, trace), Report(locals, limit, other))
  {
    hide EventOf, Events, FirstSeen, RecordsOf;
    var packets := PacketsOf(locals, trace);
    FirstSeenElements(packets);
    var id := FirstSeen(packets)[limit];
    var k := PacketSource(locals, trace, id);
    var rest := trace[..k] + trace[k + 1..];
    other := [trace[k]] + rest;
    RemoveAt(trace, k);
    FirstPacketIsRecorded(locals, limit, trace[k], rest);
    RecordedIsRetained(locals, limit, trace);
    var a, b := Report(locals, limit, trace).records, Report(locals, limit, other).records;
    var at := IndexOf(Recorded(b), id);
    assert forall i :: 0 <= i < |a| ==> IdentityOfRecord(a[i]) == Recorded(a)[i] != id;
    assert b[at] in multiset(b) && b[at] !in multiset(a);
  }

  /** Order insensitivity holds for a trace exactly when its distinct packets fit the table. */
  lemma OrderInsensitivityIsExact(locals: Locals, limit: nat, trace: seq<Frame>)
    ensures
      (forall other :: multiset(other) == multiset(trace) ==>
         SameUpToOrder(Report(locals, limit, trace), Report(locals, limit, other)))
      <==> limit == 0 || |FirstSeen(PacketsOf(locals, trace))| <= limit
  {
    hide SameUpToOrder, Report, FirstSeen;
    if limit == 0 || |FirstSeen(PacketsOf(locals, trace))| <= limit {
      forall other: seq<Frame> | multiset(other) == multiset(trace)
        ensures SameUpToOrder(Report(locals, limit, trace), Report(locals, limit, other))
      {
        OrderInsensitive(locals, limit, trace, other);
      }
    } else {
      var other := OrderMattersWhenFull(locals, limit, trace);
    }
  }
}
