/** The pieces together: wire, kernel filter, aggregated reads, receive buffer, report. */
module MonitorStack {
  import opened AddressResolution
  import opened BpfEndpoint
  import opened BpfRecords
  import opened CaptureFilter
  import opened EthernetFrame
  import opened Octets
  import opened PassiveMonitor
  import opened Transparency
  import opened WireOptions
  import opened Wrappers

  /**
   On macOS the kernel filters the wire, packs what is left into batches of records, and the
   endpoint unpacks them into a fixed receive buffer. However the frames are batched and whenever
   reads are interrupted or would block, the report is the report on the wire itself.
   */
  lemma StackIsTransparent(locals: Locals, limit: nat, wire: seq<Frame>, events: seq<KernelEvent>)
    requires ValidEvents(events) && Captured(events) == Admitted(wire)
    ensures ScriptFits(ScriptOf(events), SLICE_LIMIT)
    ensures var received := DeliveredFrames(ScriptResponses(ScriptOf(events)));
      Report(locals, limit, CutAll(received, RECEIVE_BUFFER_LENGTH)) == Report(locals, limit, wire)
  {
    ReceivingUndoesAggregation(events);
    CutIsTransparent(locals, limit, Admitted(wire), RECEIVE_BUFFER_LENGTH);
    FilterIsTransparent(locals, limit, wire);
  }

  // ----- the same, with the endpoint and the aggregator doing the work

  lemma DeliveredOfPrefix(responses: seq<Response>, count: nat)
    requires count < |responses|
    ensures DeliveredFrames(responses[..count + 1])
      == DeliveredFrames(responses[..count])
         + if responses[count].Delivered? then [responses[count].frame] else []
  {
    var next := [responses[count]];
    assert responses[..count + 1] == responses[..count] + next;
    DeliveredOfAppend(responses[..count], next);
    assert DeliveredFrames(next) == if responses[count].Delivered? then [responses[count].frame] else [] by {
      assert DeliveredFrames(next[1..]) == [];
    }
  }

  lemma CutAllAppend(trace: seq<Frame>, frame: Frame, capacity: nat)
    ensures CutAll(trace + [frame], capacity) == CutAll(trace, capacity) + [Cut(frame, capacity)]
  {
    hide Cut;
  }

  /**
   Receives and observes until `calls` calls are made, a call fails, or nothing is pending: the
   aggregator has seen the frames among the first `taken` pending responses, cut to the buffer,
   and the endpoint still holds the other responses.
   */
  method ObserveCalls(endpoint: MacosBpfEndpoint, buffer: array<u8>, aggregator: Aggregator, calls: nat)
    returns (r: Result<(), ReceiveError>, ghost taken: nat)
    requires endpoint.Valid() && aggregator.Valid() && buffer != endpoint.readBuffer
    modifies endpoint, endpoint.readBuffer, buffer, aggregator
    ensures endpoint.Valid() && aggregator.Valid()
    ensures taken <= |old(endpoint.Pending())| && endpoint.Pending() == old(endpoint.Pending())[taken..]
    ensures aggregator.trace
      == old(aggregator.trace) + CutAll(DeliveredFrames(old(endpoint.Pending())[..taken]), buffer.Length)
    ensures r.Success? ==> taken == Min(calls, |old(endpoint.Pending())|)
    ensures r.Failure? ==> 0 < taken <= calls && old(endpoint.Pending())[taken - 1] == Failed
    ensures forall i :: 0 <= i < (if r.Success? then taken else taken - 1) ==> !old(endpoint.Pending())[i].Failed?
  {
    hide PendingOf, DeliveredFrames, Cut, CutAll, ScriptFits;
    hide MacosBpfEndpoint.Valid, MacosBpfEndpoint.Pending, MacosBpfEndpoint.Buffered, Aggregator.Valid;
    ghost var pending := endpoint.Pending();
    taken := 0;
    NothingDelivered(buffer.Length);
    assert pending[..0] == [] && pending[0..] == pending;
    for call := 0 to calls
      invariant endpoint.Valid() && aggregator.Valid()
      invariant taken == Min(call, |pending|) && endpoint.Pending() == pending[taken..]
      invariant aggregator.trace == old(aggregator.trace) + CutAll(DeliveredFrames(pending[..taken]), buffer.Length)
      invariant forall i :: 0 <= i < taken ==> !pending[i].Failed?
    {
      ghost var before := buffer[..];
      var received := endpoint.TryReceiveEthernetFrame(buffer);
      if taken < |pending| {
        assert pending[taken..][0] == pending[taken] && pending[taken..][1..] == pending[taken + 1..];
        DeliveredOfPrefix(pending, taken);
        if pending[taken].Delivered? {
          CutAllAppend(DeliveredFrames(pending[..taken]), pending[taken].frame, buffer.Length);
          FrontIsCut(pending[taken].frame, before, buffer[..]);
        } else {
          assert DeliveredFrames(pending[..taken]) + [] == DeliveredFrames(pending[..taken]);
        }
        taken := taken + 1;
      }
      match received
      case Failure(e) => return Failure(e), taken;
      case Success(None) =>
      case Success(Some(length)) => aggregator.Observe(buffer[..length]);
    }
    return Success(()), taken;
  }

  lemma NothingDelivered(capacity: nat)
    ensures CutAll(DeliveredFrames([]), capacity) == []
  {
  }

  lemma FrontIsCut(frame: Frame, before: seq<u8>, after: seq<u8>)
    requires |before| == |after| && after == Cut(frame, |after|) + before[Min(|frame|, |after|)..]
    ensures after[..Min(|frame|, |after|)] == Cut(frame, |after|)
  {
  }

  /** A device that lays its frames out as records makes no receive call fail. */
  lemma {:induction false} EventsNeverFail(events: seq<KernelEvent>)
    requires ScriptFits(ScriptOf(events), SLICE_LIMIT)
    ensures Failed !in ScriptResponses(ScriptOf(events))
  {
    if events != [] {
      assert ScriptOf(events)[1..] == ScriptOf(events[1..]);
      EventsNeverFail(events[1..]);
    }
  }

  lemma ScriptFitsMore(script: seq<KernelRead>, capacity: nat, more: nat)
    requires ScriptFits(script, capacity) && capacity <= more
    ensures ScriptFits(script, more)
  {
  }

  /** What the first `taken` responses of a device report. */
  lemma PrefixIsTransparent(
      locals: Locals, limit: nat, wire: seq<Frame>, events: seq<KernelEvent>, taken: nat, trace: seq<Frame>)
    requires ValidEvents(events) && Captured(events) == Admitted(wire)
    requires ScriptFits(ScriptOf(events), SLICE_LIMIT) && taken <= |ScriptResponses(ScriptOf(events))|
    requires trace == DeliveredFrames(ScriptResponses(ScriptOf(events))[..taken])
    ensures trace <= Admitted(wire)
    ensures Report(locals, limit, CutAll(trace, RECEIVE_BUFFER_LENGTH)) == Report(locals, limit, trace)
    ensures taken == |ScriptResponses(ScriptOf(events))| ==> Report(locals, limit, trace) == Report(locals, limit, wire)
  {
    hide Report, Captured, Admitted, ScriptFits, ScriptOf, ScriptResponses, DeliveredFrames, ValidEvents, CutAll;
    var due := ScriptResponses(ScriptOf(events));
    ReceivingUndoesAggregation(events);
    assert due == due[..taken] + due[taken..];
    DeliveredOfAppend(due[..taken], due[taken..]);
    CutIsTransparent(locals, limit, trace, RECEIVE_BUFFER_LENGTH);
    if taken == |due| {
      assert due[..taken] == due;
      FilterIsTransparent(locals, limit, wire);
    }
  }

  /**
   A whole run on the classes. After any number of receive calls the outcome is the report on the
   admitted frames seen so far; after enough of them it is the report on the wire.
   */
  method MonitorDevice(
      locals: Locals, limit: nat, bufferLength: nat, events: seq<KernelEvent>, calls: nat, ghost wire: seq<Frame>)
    returns (r: Result<Outcome, ReceiveError>)
    requires ValidEvents(events) && Captured(events) == Admitted(wire)
    requires bufferLength <= SLICE_LIMIT && ScriptFits(ScriptOf(events), bufferLength)
    ensures ScriptFits(ScriptOf(events), SLICE_LIMIT)
    ensures var due := ScriptResponses(ScriptOf(events));
      var seen := DeliveredFrames(due[..Min(calls, |due|)]);
      seen <= Admitted(wire) && r == Success(Report(locals, limit, seen))
    ensures calls >= |ScriptResponses(ScriptOf(events))| ==> r == Success(Report(locals, limit, wire))
  {
    hide Report, Captured, Admitted, ScriptFits, ScriptOf, ScriptResponses, DeliveredFrames, ValidEvents, CutAll;
    hide MacosBpfEndpoint.Valid, MacosBpfEndpoint.Pending, Aggregator.Valid;
    ScriptFitsMore(ScriptOf(events), bufferLength, SLICE_LIMIT);
    ghost var due := ScriptResponses(ScriptOf(events));
    EventsNeverFail(events);
    var endpoint := new MacosBpfEndpoint(bufferLength, ScriptOf(events));
    var aggregator := new Aggregator(locals, limit);
    var buffer := new u8[RECEIVE_BUFFER_LENGTH](i => 0);
    ghost var taken;
    var received;
    received, taken := ObserveCalls(endpoint, buffer, aggregator, calls);
    assert received.Success?;
    ghost var seen := DeliveredFrames(due[..taken]);
    PrefixIsTransparent(locals, limit, wire, events, taken, seen);
    assert aggregator.trace == CutAll(seen, RECEIVE_BUFFER_LENGTH);
    var outcome := aggregator.Finish();
    return Success(outcome);
  }

  // ----- a scan request, received

  /**
   What a monitor makes of a scan request: the kernel filter admits it, and with Ethernet/IPv4
   fields it is recorded under exactly the configured ARP fields or their defaults, unless it claims
   the monitor's own hardware address together with one of its own IPv4 addresses.
   */
  lemma ScanRequestAsSeen(
      locals: Locals, options: ScanWireOptions, interfaceMac: Mac, interfaceAddress: Ipv4, target: Ipv4)
    requires options.ValidateTagStack().Success? && options.ValidateMacClientData().Success?
    requires options.arpHardwareType == 1 && options.arpProtocolType == 0x0800
    requires options.arpHardwareLength == 6 && options.arpProtocolLength == 4
    requires options.arpOperation != 0 && options.arpOperation != 0xFFFF
    ensures var spa := options.senderProtocolAddress.AddressForTarget(interfaceAddress, target);
      var frame := RequestOctets(options.Layout(interfaceMac, spa, target));
      FilterAccepts(frame)
      && var sha: Mac := match options.arpSenderHardware case Some(a) => a case None => interfaceMac;
         var tha: Mac := match options.arpTargetHardware case Some(a) => a case None => [0, 0, 0, 0, 0, 0];
         var sender := match options.senderProtocolAddress
           case Interface => interfaceAddress
           case Explicit(a) => a
           case DestinationTarget => target;
         EventOf(locals, frame)
         == if sha == locals.mac && sender in locals.addresses then Suppressed
            else Packet(Identity(options.arpOperation, sha, sender, tha, target))
  {
    hide FilterAccepts, TryParseEthernetFrame, TryParseArp, RequestOctets;
    var spa := options.senderProtocolAddress.AddressForTarget(interfaceAddress, target);
    ValidOptionsRoundTrip(options, interfaceMac, interfaceAddress, target);
    FilterAcceptsExactlyArp(RequestOctets(options.Layout(interfaceMac, spa, target)));
  }
}
