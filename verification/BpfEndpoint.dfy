/** The macOS endpoint's receive path: one frame per call out of aggregated kernel reads. */
module BpfEndpoint {
  import opened BpfRecords
  import opened Octets
  import opened Wrappers

  /** What one `read(2)` on the device can do. */
  datatype KernelRead = Bytes(octets: Frame) | WouldBlock | Interrupted | Broken

  /** What one receive call can report. */
  datatype Response = Delivered(frame: Frame) | Drained | Failed

  datatype ReceiveError = RawPacketReceiveFailed

  function DeliverAll(frames: seq<Frame>): seq<Response> {
    seq(|frames|, i requires 0 <= i < |frames| => Delivered(frames[i]))
  }

  predicate ScriptFits(script: seq<KernelRead>, capacity: nat) {
    forall i :: 0 <= i < |script| && script[i].Bytes? ==> |script[i].octets| <= capacity
  }

  /** Every response that pending kernel reads will cause, in order. */
  function ScriptResponses(script: seq<KernelRead>): seq<Response>
    requires ScriptFits(script, SLICE_LIMIT)
  {
    if script == [] then [] else
    var later := ScriptResponses(script[1..]);
    match script[0]
    case Bytes(octets) => (if octets == [] then [Drained] else DeliverAll(FramesFrom(octets, 0))) + later
    case WouldBlock => [Drained] + later
    case Interrupted => later
    case Broken => [Failed] + later
  }

  /** Reads are answered one after another. */
  lemma {:induction false} ReadsAreAnsweredInOrder(script: seq<KernelRead>, more: seq<KernelRead>)
    requires ScriptFits(script, SLICE_LIMIT) && ScriptFits(more, SLICE_LIMIT)
    ensures ScriptFits(script + more, SLICE_LIMIT)
    ensures ScriptResponses(script + more) == ScriptResponses(script) + ScriptResponses(more)
  {
    hide FramesFrom, DeliverAll;
    if script == [] {
      assert script + more == more;
    } else {
      assert (script + more)[1..] == script[1..] + more;
      assert (script + more)[0] == script[0];
      ReadsAreAnsweredInOrder(script[1..], more);
    }
  }

  /**
   What each kind of read answers: an interruption nothing, a quiet or empty read one empty answer,
   a broken read one failure, and a filled buffer its frames.
   */
  lemma ReadAnswers(octets: Frame)
    requires |octets| <= SLICE_LIMIT
    ensures ScriptResponses([Interrupted]) == [] && ScriptResponses([Broken]) == [Failed]
    ensures ScriptResponses([WouldBlock]) == ScriptResponses([Bytes([])]) == [Drained]
    ensures octets != [] ==>
      var frames := FramesFrom(octets, 0);
      && |ScriptResponses([Bytes(octets)])| == |frames|
      && forall i :: 0 <= i < |frames| ==> ScriptResponses([Bytes(octets)])[i] == Delivered(frames[i])
  {
    hide FramesFrom;
    assert ScriptResponses([Bytes(octets)][1..]) == [];
  }

  /** The responses still due from a half-walked buffer and the reads behind it. */
  function PendingOf(filled: Frame, cursor: nat, script: seq<KernelRead>): seq<Response>
    requires cursor <= |filled| <= SLICE_LIMIT && ScriptFits(script, SLICE_LIMIT)
  {
    DeliverAll(FramesFrom(filled, cursor)) + ScriptResponses(script)
  }

  lemma PendingRecord(filled: Frame, cursor: nat, script: seq<KernelRead>)
    requires cursor < |filled| <= SLICE_LIMIT && ScriptFits(script, SLICE_LIMIT)
    requires NextBpfRecord(filled, cursor).Some?
    ensures var (start, end, next) := NextBpfRecord(filled, cursor).value;
      && cursor <= start <= end <= |filled|
      && cursor < Min(next, |filled|)
      && FramesFrom(filled, cursor) == [filled[start..end]] + FramesFrom(filled, Min(next, |filled|))
      && PendingOf(filled, cursor, script)
         == [Delivered(filled[start..end])] + PendingOf(filled, Min(next, |filled|), script)
  {
    hide NextBpfRecord, FramesFrom;
    FramesStep(filled, cursor);
    var (start, end, next) := NextBpfRecord(filled, cursor).value;
    var rest := FramesFrom(filled, Min(next, |filled|));
    assert DeliverAll([filled[start..end]] + rest) == [Delivered(filled[start..end])] + DeliverAll(rest);
  }

  lemma PendingExhausted(filled: Frame, cursor: nat, script: seq<KernelRead>)
    requires cursor <= |filled| <= SLICE_LIMIT && ScriptFits(script, SLICE_LIMIT)
    requires cursor == |filled| || NextBpfRecord(filled, cursor).None?
    ensures FramesFrom(filled, cursor) == []
    ensures PendingOf(filled, cursor, script) == ScriptResponses(script)
  {
  }

  lemma PendingRead(script: seq<KernelRead>)
    requires ScriptFits(script, SLICE_LIMIT)
    ensures script == [] ==> ScriptResponses(script) == []
    ensures script != [] ==> ScriptFits(script[1..], SLICE_LIMIT)
    ensures script != [] ==> ScriptResponses(script) == match script[0]
      case Bytes(octets) =>
        if octets == [] then [Drained] + ScriptResponses(script[1..]) else PendingOf(octets, 0, script[1..])
      case WouldBlock => [Drained] + ScriptResponses(script[1..])
      case Interrupted => ScriptResponses(script[1..])
      case Broken => [Failed] + ScriptResponses(script[1..])
  {
  }

  class MacosBpfEndpoint {
    const readBuffer: array<u8>
    var filledLength: nat
    var parseCursor: nat
    /** The reads the kernel still has in store. Once it runs out, reads would block. */
    var kernel: seq<KernelRead>

    ghost predicate Valid()
      reads this
    {
      && parseCursor <= filledLength <= readBuffer.Length <= SLICE_LIMIT
      && ScriptFits(kernel, readBuffer.Length)
    }

    /** The frames left in the read buffer. */
    ghost function Buffered(): seq<Frame>
      reads this, readBuffer
      requires Valid()
    {
      FramesFrom(readBuffer[..filledLength], parseCursor)
    }

    /** Everything repeated receive calls are still going to report. */
    ghost function Pending(): seq<Response>
      reads this, readBuffer
      requires Valid()
    {
      PendingOf(readBuffer[..filledLength], parseCursor, kernel)
    }

    constructor (bufferLength: nat, script: seq<KernelRead>)
      requires bufferLength <= SLICE_LIMIT && ScriptFits(script, bufferLength)
      ensures Valid() && fresh(readBuffer) && readBuffer.Length == bufferLength
      ensures Pending() == ScriptResponses(script)
    {
      readBuffer := new u8[bufferLength](i => 0);
      filledLength := 0;
      parseCursor := 0;
      kernel := script;
      new;
      assert Pending() == ScriptResponses(script);
    }

    /**
     Reports the head of `Pending()` and leaves its tail, whatever bytes the kernel produces: each
     frame once, in order, cut only to the caller's buffer, and no kernel read while a frame is
     still buffered.
     */
    method TryReceiveEthernetFrame(buffer: array<u8>) returns (r: Result<Option<nat>, ReceiveError>)
      requires Valid() && buffer != readBuffer
      modifies this`filledLength, this`parseCursor, this`kernel, readBuffer, buffer
      ensures Valid()
      ensures old(Pending()) == [] ==> r == Success(None) && Pending() == []
      ensures old(Pending()) != [] ==>
        && Pending() == old(Pending())[1..]
        && match old(Pending())[0]
           case Delivered(frame) =>
             && r == Success(Some(Min(|frame|, buffer.Length)))
             && buffer[..] == Cut(frame, buffer.Length) + old(buffer[..])[Min(|frame|, buffer.Length)..]
           case Drained => r == Success(None) && buffer[..] == old(buffer[..])
           case Failed => r == Failure(RawPacketReceiveFailed) && buffer[..] == old(buffer[..])
      ensures old(Buffered()) != [] ==> kernel == old(kernel) && Buffered() == old(Buffered())[1..]
    {
      hide NextBpfRecord, FramesFrom, ScriptResponses, PendingOf, Cut;
      while true
        invariant Valid() && Pending() == old(Pending())
        invariant buffer[..] == old(buffer[..])
        invariant old(Buffered()) != [] ==> kernel == old(kernel) && Buffered() == old(Buffered())
        decreases |kernel|, filledLength - parseCursor
      {
        var filled := readBuffer[..filledLength];
        if parseCursor < filledLength {
          match NextBpfRecord(filled, parseCursor)
          case Some((frameStart, frameEnd, nextCursor)) =>
            PendingRecord(filled, parseCursor, kernel);
            var copyLength := Min(frameEnd - frameStart, buffer.Length);
            var source := filled[frameStart..frameStart + copyLength];
            ghost var frame := filled[frameStart..frameEnd];
            SliceTakesPrefix(filled, frameStart, frameEnd, copyLength);
            CopyFromSlice(buffer, 0, source);
            assert readBuffer[..filledLength] == filled;
            CopiedIsCut(frame, old(buffer[..]), buffer[..]);
            parseCursor := Min(nextCursor, filledLength);
            return Success(Some(copyLength));
          case None =>
            PendingExhausted(filled, parseCursor, kernel);
            parseCursor := filledLength;
        }
        PendingExhausted(filled, parseCursor, kernel);
        ghost var script := kernel;
        var read := ReadLinkLayerFrames();
        PendingRead(script);
        match read
        case Bytes(octets) =>
          if octets == [] {
            PendingExhausted(filled, parseCursor, kernel);
            return Success(None);
          }
          filledLength := |octets|;
          parseCursor := 0;
        case WouldBlock =>
          PendingExhausted(filled, parseCursor, kernel);
          return Success(None);
        case Interrupted =>
          PendingExhausted(filled, parseCursor, kernel);
        case Broken =>
          PendingExhausted(filled, parseCursor, kernel);
          return Failure(RawPacketReceiveFailed);
      }
    }

    /** `read(2)` into the read buffer, answering with the next scripted read. */
    method ReadLinkLayerFrames() returns (read: KernelRead)
      requires ScriptFits(kernel, readBuffer.Length)
      modifies this`kernel, readBuffer
      ensures old(kernel) == [] ==> read == WouldBlock && kernel == []
      ensures old(kernel) != [] ==> read == old(kernel)[0] && kernel == old(kernel)[1..]
      ensures read.Bytes? ==> |read.octets| <= readBuffer.Length && readBuffer[..|read.octets|] == read.octets
      ensures !read.Bytes? || read.octets == [] ==> readBuffer[..] == old(readBuffer[..])
    {
      if kernel == [] {
        return WouldBlock;
      }
      read := kernel[0];
      kernel := kernel[1..];
      if read.Bytes? {
        CopyFromSlice(readBuffer, 0, read.octets);
      }
    }
  }

  lemma SliceTakesPrefix(s: Frame, start: nat, end: nat, count: nat)
    requires start + count <= end <= |s|
    ensures s[start..end][..count] == s[start..start + count]
  {
  }

  lemma CopiedIsCut(frame: Frame, before: seq<u8>, after: seq<u8>)
    requires |before| == |after|
    requires forall i :: 0 <= i < |after| ==>
      after[i] == if i < Min(|frame|, |after|) then frame[..Min(|frame|, |after|)][i] else before[i]
    ensures after == Cut(frame, |after|) + before[Min(|frame|, |after|)..]
  {
  }

  // ----- a kernel that lays frames out as records

  /** A well-behaved device: batches of records, quiet polls and interruptions in any order. */
  datatype KernelEvent = Batch(records: seq<CapturedRecord>) | Quiet | Interruption

  predicate ValidEvents(events: seq<KernelEvent>) {
    forall i :: 0 <= i < |events| && events[i].Batch? ==> ValidBatch(events[i].records) && events[i].records != []
  }

  function ScriptOf(events: seq<KernelEvent>): seq<KernelRead> {
    seq(|events|, i requires 0 <= i < |events| =>
      match events[i]
      case Batch(records) => Bytes(Layout(records))
      case Quiet => WouldBlock
      case Interruption => Interrupted)
  }

  /** The frames the device captured, batch after batch. */
  function Captured(events: seq<KernelEvent>): seq<Frame> {
    if events == [] then [] else
    (if events[0].Batch? then DataOf(events[0].records) else []) + Captured(events[1..])
  }

  function DeliveredFrames(responses: seq<Response>): seq<Frame> {
    if responses == [] then [] else
    (if responses[0].Delivered? then [responses[0].frame] else []) + DeliveredFrames(responses[1..])
  }

  lemma {:induction false} DeliveredOfAppend(a: seq<Response>, b: seq<Response>)
    ensures DeliveredFrames(a + b) == DeliveredFrames(a) + DeliveredFrames(b)
  {
    if a == [] {
      assert a + b == b;
    } else {
      assert (a + b)[1..] == a[1..] + b;
      DeliveredOfAppend(a[1..], b);
    }
  }

  lemma {:induction false} DeliveredOfDeliverAll(frames: seq<Frame>)
    ensures DeliveredFrames(DeliverAll(frames)) == frames
  {
    if frames != [] {
      assert DeliverAll(frames)[1..] == DeliverAll(frames[1..]);
      DeliveredOfDeliverAll(frames[1..]);
    }
  }

  /** Receiving from such a device delivers exactly the captured frames, in capture order. */
  lemma {:induction false} ReceivingUndoesAggregation(events: seq<KernelEvent>)
    requires ValidEvents(events)
    ensures ScriptFits(ScriptOf(events), SLICE_LIMIT)
    ensures DeliveredFrames(ScriptResponses(ScriptOf(events))) == Captured(events)
  {
    if events != [] {
      hide ValidBatch;
      var script := ScriptOf(events);
      assert script[1..] == ScriptOf(events[1..]);
      ReceivingUndoesAggregation(events[1..]);
      var later := ScriptResponses(script[1..]);
      match events[0]
      case Batch(records) =>
        BatchResponses(records);
        DeliveredOfAppend(DeliverAll(DataOf(records)), later);
        DeliveredOfDeliverAll(DataOf(records));
      case Quiet =>
        assert DeliveredFrames([Drained]) == [];
        DeliveredOfAppend([Drained], later);
      case Interruption =>
    }
  }

  lemma BatchResponses(records: seq<CapturedRecord>)
    requires ValidBatch(records) && records != []
    ensures Layout(records) != [] && |Layout(records)| <= SLICE_LIMIT
    ensures FramesFrom(Layout(records), 0) == DataOf(records)
  {
    hide FramesFrom, Layout, DataOf, CapturedRecord.Valid, CapturedRecord.Octets;
    BatchHead(records);
    WalkOfLayout([], records);
    assert [] + Layout(records) == Layout(records);
  }
}
