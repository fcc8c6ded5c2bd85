/** De-aggregating the records of one BPF read into single frames. */
module BpfRecords {
  import opened Bits
  import opened Octets
  import opened Wrappers

  const USIZE_WIDTH: nat := 64
  const USIZE_LIMIT: nat := 0x1_0000_0000_0000_0000
  /** No slice is longer than this (`isize::MAX`). */
  const SLICE_LIMIT: nat := 0x7FFF_FFFF_FFFF_FFFF
  const BPF_RECORD_ALIGNMENT: nat := 4

  const CAPTURE_LENGTH_OFFSET := 8
  const HEADER_LENGTH_OFFSET := 16

  // ----- word-size arithmetic

  function CheckedAdd(a: nat, b: nat): Option<nat> {
    if a + b < USIZE_LIMIT then Some(a + b) else None
  }

  function WrappingAdd(a: nat, b: nat): (r: nat)
    ensures r < USIZE_LIMIT
  {
    (a + b) % USIZE_LIMIT
  }

  function BpfWordAlign(value: nat): nat {
    WidthsAgree();
    And(USIZE_WIDTH, WrappingAdd(value, BPF_RECORD_ALIGNMENT - 1), Not(USIZE_WIDTH, BPF_RECORD_ALIGNMENT - 1))
  }

  lemma WidthsAgree()
    ensures Pow2(USIZE_WIDTH) == USIZE_LIMIT
  {
    Pow2Values();
  }

  /** The octets missing to the next multiple of 4. */
  function PaddingToBoundary(length: nat): nat {
    (4 - length % 4) % 4
  }

  /** Below the wrap-around, alignment is the least multiple of 4 that is not smaller. */
  lemma AlignmentRoundsUp(value: nat)
    requires value + 3 < USIZE_LIMIT
    ensures BpfWordAlign(value) % 4 == 0
    ensures value <= BpfWordAlign(value) < value + 4
    ensures BpfWordAlign(value) == value + PaddingToBoundary(value)
  {
    hide And, Not, Pow2;
    WidthsAgree();
    Pow2Values();
    AlignmentMask(USIZE_WIDTH, 2, value + 3);
  }

  lemma AlignmentMask(width: nat, k: nat, value: nat)
    requires k == 2 && width >= 2 && Pow2(2) == 4 && value < Pow2(width) && 3 < Pow2(width)
    ensures And(width, value, Not(width, 3)) == value - value % 4
  {
    hide And, Not, Pow2;
    AndHighMask(width, value, k, Not(width, 3));
  }

  /** Native-endian fields of the record header; the model fixes little-endian. */
  function NativeWord16(s: seq<u8>): u16
    requires |s| == 2
  {
    Word16(s[1], s[0])
  }

  function NativeWord32(s: seq<u8>): u32
    requires |s| == 4
  {
    Word32(s[3], s[2], s[1], s[0])
  }

  // ----- one record

  function Get(buffer: Frame, start: nat, count: nat): (r: Option<seq<u8>>)
    ensures r.Some? ==> |r.value| == count
  {
    if start + count <= |buffer| then Some(buffer[start..start + count]) else None
  }

  /** `(frame_start, frame_end, next_cursor)` of the record at `cursor`. */
  function NextBpfRecord(buffer: Frame, cursor: nat): Option<(nat, nat, nat)>
    requires cursor <= |buffer| <= SLICE_LIMIT
  {
    match (CheckedAdd(cursor, CAPTURE_LENGTH_OFFSET), CheckedAdd(cursor, HEADER_LENGTH_OFFSET))
    case (Some(captureOffset), Some(headerOffset)) =>
      (match (Get(buffer, captureOffset, 4), Get(buffer, headerOffset, 2))
       case (Some(captureOctets), Some(headerOctets)) =>
         RecordSpan(buffer, cursor, NativeWord32(captureOctets), NativeWord16(headerOctets))
       case _ => None)
    case _ => None
  }

  function RecordSpan(buffer: Frame, cursor: nat, captureLength: nat, headerLength: nat): Option<(nat, nat, nat)> {
    match CheckedAdd(cursor, headerLength)
    case None => None
    case Some(frameStart) =>
      match CheckedAdd(frameStart, captureLength)
      case None => None
      case Some(frameEnd) =>
        if frameEnd > |buffer| then None else
        match CheckedAdd(headerLength, captureLength)
        case None => None
        case Some(length) =>
          var recordLength := BpfWordAlign(length);
          if recordLength == 0 then None else
          match CheckedAdd(cursor, recordLength)
          case None => None
          case Some(nextCursor) => Some((frameStart, frameEnd, nextCursor))
  }

  /** Header and capture length of the record at `cursor`, least significant octet first. */
  function LengthsAt(buffer: Frame, cursor: nat): (nat, nat)
    requires cursor + 18 <= |buffer|
  {
    (buffer[cursor + 16] as nat + 0x100 * buffer[cursor + 17] as nat,
     buffer[cursor + 8] as nat + 0x100 * buffer[cursor + 9] as nat
     + 0x1_0000 * buffer[cursor + 10] as nat + 0x100_0000 * buffer[cursor + 11] as nat)
  }

  lemma LengthsAreWords(buffer: Frame, cursor: nat)
    requires cursor + 18 <= |buffer|
    ensures LengthsAt(buffer, cursor)
      == (NativeWord16(buffer[cursor + 16..cursor + 18]), NativeWord32(buffer[cursor + 8..cursor + 12]))
  {
  }

  /** The lengths cannot be read, name octets beyond the buffer, or name none at all. */
  predicate NoRecordAt(buffer: Frame, cursor: nat) {
    || cursor + 18 > |buffer|
    || var (headerLength, captureLength) := LengthsAt(buffer, cursor);
       headerLength + captureLength == 0 || cursor + headerLength + captureLength > |buffer|
  }

  /**
   On arbitrary bytes: the frame is where the header says and lies in the buffer, and the cursor
   advances to the next multiple of 4 from the record's start. The walk stops exactly where there is
   no record, so no addition overflows.
   */
  lemma RecordIsSafe(buffer: Frame, cursor: nat)
    requires cursor <= |buffer| <= SLICE_LIMIT
    ensures NextBpfRecord(buffer, cursor).None? <==> NoRecordAt(buffer, cursor)
    ensures match NextBpfRecord(buffer, cursor)
      case None => true
      case Some((start, end, next)) =>
        && (start - cursor, end - start) == LengthsAt(buffer, cursor)
        && cursor <= start <= end <= |buffer|
        && end <= next < end + 4
        && next > cursor && next == cursor + (end - cursor + 3) / 4 * 4
  {
    hide RecordSpan, NativeWord16, NativeWord32, LengthsAt;
    if cursor + 18 <= |buffer| {
      LengthsAreWords(buffer, cursor);
      var (headerLength, captureLength) := LengthsAt(buffer, cursor);
      SpanIsSafe(buffer, cursor, captureLength, headerLength);
    }
  }

  lemma SpanIsSafe(buffer: Frame, cursor: nat, captureLength: nat, headerLength: nat)
    requires cursor <= |buffer| <= SLICE_LIMIT
    ensures RecordSpan(buffer, cursor, captureLength, headerLength).None?
      <==> headerLength + captureLength == 0 || cursor + headerLength + captureLength > |buffer|
    ensures match RecordSpan(buffer, cursor, captureLength, headerLength)
      case None => true
      case Some((start, end, next)) =>
        && start == cursor + headerLength && end == start + captureLength
        && cursor <= start <= end <= |buffer|
        && end <= next < end + 4
        && next > cursor && next == cursor + (end - cursor + 3) / 4 * 4
  {
    hide BpfWordAlign;
    if cursor + headerLength + captureLength <= |buffer| {
      AlignmentRoundsUp(headerLength + captureLength);
    }
  }

  // ----- one buffer

  function Min(a: nat, b: nat): nat {
    if a < b then a else b
  }

  /** The frame spans a walk from `cursor` surfaces, up to the first incomplete record. */
  function Spans(buffer: Frame, cursor: nat): seq<(nat, nat)>
    requires cursor <= |buffer| <= SLICE_LIMIT
    decreases |buffer| - cursor
  {
    if cursor == |buffer| then [] else
    match NextBpfRecord(buffer, cursor)
    case None => []
    case Some((start, end, next)) =>
      RecordIsSafe(buffer, cursor);
      [(start, end)] + Spans(buffer, Min(next, |buffer|))
  }

  function FramesFrom(buffer: Frame, cursor: nat): seq<Frame>
    requires cursor <= |buffer| <= SLICE_LIMIT
    decreases |buffer| - cursor
  {
    if cursor == |buffer| then [] else
    match NextBpfRecord(buffer, cursor)
    case None => []
    case Some((start, end, next)) =>
      RecordIsSafe(buffer, cursor);
      [buffer[start..end]] + FramesFrom(buffer, Min(next, |buffer|))
  }

  /** Whatever the kernel wrote: frames stay inside the buffer, disjoint and in increasing order. */
  lemma {:induction false} WalkIsSafe(buffer: Frame, cursor: nat)
    requires cursor <= |buffer| <= SLICE_LIMIT
    ensures var spans := Spans(buffer, cursor);
      && |spans| == |FramesFrom(buffer, cursor)|
      && (forall i :: 0 <= i < |spans| ==>
            && cursor <= spans[i].0 <= spans[i].1 <= |buffer|
            && FramesFrom(buffer, cursor)[i] == buffer[spans[i].0..spans[i].1])
      && (forall i, j :: 0 <= i < j < |spans| ==> spans[i].1 <= spans[j].0)
    decreases |buffer| - cursor
  {
    hide NextBpfRecord;
    if cursor < |buffer| {
      RecordIsSafe(buffer, cursor);
      match NextBpfRecord(buffer, cursor)
      case None =>
      case Some((start, end, next)) =>
        WalkIsSafe(buffer, Min(next, |buffer|));
        var rest := Spans(buffer, Min(next, |buffer|));
        assert forall i :: 0 < i <= |rest| ==> ([(start, end)] + rest)[i] == rest[i - 1];
    }
  }

  // ----- how the kernel lays records out

  /** A header of at least 18 octets naming its own length and the data's, the data, and padding. */
  datatype CapturedRecord = CapturedRecord(header: seq<u8>, data: Frame, padding: seq<u8>) {
    predicate Valid() {
      && 18 <= |header| < 0x1_0000
      && |data| < 0x1_0000_0000
      && header[8] as nat + 0x100 * header[9] as nat + 0x1_0000 * header[10] as nat + 0x100_0000 * header[11] as nat
         == |data|
      && header[16] as nat + 0x100 * header[17] as nat == |header|
    }

    function Octets(): Frame {
      header + data + padding
    }

    /** Padding brings a record to the next 4-octet boundary. */
    predicate FullyPadded() {
      |padding| == PaddingToBoundary(|header| + |data|)
    }

    /** The last record of a read may leave its padding out, wholly or in part. */
    predicate AtMostPadded() {
      |padding| <= PaddingToBoundary(|header| + |data|)
    }
  }

  /** The kernel can put every frame behind a header of any length, whatever else the header holds. */
  lemma EveryFrameHasARecord(data: Frame, filler: seq<u8>) returns (record: CapturedRecord)
    requires 18 <= |filler| < 0x1_0000 && |data| < 0x1_0000_0000
    ensures record.Valid() && record.FullyPadded() && record.data == data && |record.header| == |filler|
    ensures forall i :: 0 <= i < |filler| && i !in {8, 9, 10, 11, 16, 17} ==> record.header[i] == filler[i]
  {
    var n, m := |data|, |filler|;
    var header := filler[
      8 := n % 0x100][9 := n / 0x100 % 0x100][10 := n / 0x1_0000 % 0x100][11 := n / 0x100_0000][
      16 := m % 0x100][17 := m / 0x100];
    LittleEndianDigits(n);
    LittleEndianDigits(m);
    record := CapturedRecord(header, data, seq(PaddingToBoundary(m + n), i => 0));
  }

  lemma LittleEndianDigits(n: nat)
    ensures n % 0x100 + 0x100 * (n / 0x100 % 0x100) + 0x1_0000 * (n / 0x1_0000 % 0x100) + 0x100_0000 * (n / 0x100_0000)
      == n
  {
    assert n / 0x1_0000 == n / 0x100 / 0x100 && n / 0x100_0000 == n / 0x1_0000 / 0x100;
  }

  function Layout(records: seq<CapturedRecord>): Frame {
    if records == [] then [] else records[0].Octets() + Layout(records[1..])
  }

  function DataOf(records: seq<CapturedRecord>): seq<Frame> {
    seq(|records|, i requires 0 <= i < |records| => records[i].data)
  }

  predicate ValidBatch(records: seq<CapturedRecord>) {
    && (forall i :: 0 <= i < |records| ==> records[i].Valid() && records[i].AtMostPadded())
    && (forall i :: 0 <= i < |records| - 1 ==> records[i].FullyPadded())
    && |Layout(records)| <= SLICE_LIMIT
  }

  /** The record laid out at the cursor is found, and the walk moves to the record behind it. */
  lemma NextOfLayout(before: Frame, record: CapturedRecord, after: Frame)
    requires record.Valid() && record.AtMostPadded()
    requires after != [] ==> record.FullyPadded()
    requires |before + record.Octets() + after| <= SLICE_LIMIT
    ensures var buffer := before + record.Octets() + after;
      && NextBpfRecord(buffer, |before|).Some?
      && var (start, end, next) := NextBpfRecord(buffer, |before|).value;
      && buffer[start..end] == record.data
      && Min(next, |buffer|) == |before + record.Octets()|
  {
    hide BpfWordAlign, NativeWord16, NativeWord32, RecordSpan, PaddingToBoundary;
    AlignmentRoundsUp(|record.header| + |record.data|);
    RecordFields(before, record, after);
    HeaderWords(record);
    var buffer := before + record.Octets() + after;
    var cursor := |before|;
    assert NextBpfRecord(buffer, cursor) == RecordSpan(buffer, cursor, |record.data|, |record.header|);
    SpanOfRecord(buffer, cursor, |record.data|, |record.header|);
  }

  lemma HeaderWords(record: CapturedRecord)
    requires record.Valid()
    ensures NativeWord32(record.header[8..12]) == |record.data|
    ensures NativeWord16(record.header[16..18]) == |record.header|
  {
  }

  /** Where the fields of a laid-out record are found. */
  lemma RecordFields(before: Frame, record: CapturedRecord, after: Frame)
    requires 18 <= |record.header|
    ensures var buffer, cursor := before + record.Octets() + after, |before|;
      var start := cursor + |record.header|;
      && start + |record.data| <= |buffer|
      && buffer[cursor + 8..cursor + 12] == record.header[8..12]
      && buffer[cursor + 16..cursor + 18] == record.header[16..18]
      && buffer[start..start + |record.data|] == record.data
  {
    var octets := record.Octets();
    var n := |record.header|;
    assert octets[8..12] == record.header[8..12] && octets[16..18] == record.header[16..18];
    assert octets[n..n + |record.data|] == record.data;
    hide CapturedRecord.Octets;
    MiddleSlice(before, octets, after, 8, 4);
    MiddleSlice(before, octets, after, 16, 2);
    MiddleSlice(before, octets, after, n, |record.data|);
  }

  lemma MiddleSlice(before: Frame, middle: Frame, after: Frame, start: nat, count: nat)
    requires start + count <= |middle|
    ensures var from := |before| + start;
      (before + middle + after)[from..from + count] == middle[start..start + count]
  {
  }

  lemma SpanOfRecord(buffer: Frame, cursor: nat, captureLength: nat, headerLength: nat)
    requires cursor + headerLength + captureLength <= |buffer| <= SLICE_LIMIT && headerLength > 0
    ensures RecordSpan(buffer, cursor, captureLength, headerLength)
      == Some((
           cursor + headerLength,
           cursor + headerLength + captureLength,
           cursor + BpfWordAlign(headerLength + captureLength)))
  {
    hide BpfWordAlign;
    AlignmentRoundsUp(headerLength + captureLength);
  }

  /** De-aggregation undoes aggregation: a walk over a batch surfaces exactly its frames. */
  lemma {:induction false} WalkOfLayout(before: Frame, records: seq<CapturedRecord>)
    requires ValidBatch(records) && |before + Layout(records)| <= SLICE_LIMIT
    ensures FramesFrom(before + Layout(records), |before|) == DataOf(records)
    decreases |records|
  {
    if records != [] {
      hide NextBpfRecord, ValidBatch, CapturedRecord.Octets, Layout, FramesFrom, DataOf;
      var record, rest := records[0], records[1..];
      var octets, after := record.Octets(), Layout(rest);
      BatchHead(records);
      ConcatAssociates(before, octets, after);
      NextOfLayout(before, record, after);
      FramesStep(before + octets + after, |before|);
      WalkOfLayout(before + octets, rest);
    } else {
      assert before + Layout(records) == before;
    }
  }

  lemma ConcatAssociates(a: Frame, b: Frame, c: Frame)
    ensures a + (b + c) == a + b + c
  {
  }

  lemma FramesStep(buffer: Frame, cursor: nat)
    requires cursor < |buffer| <= SLICE_LIMIT && NextBpfRecord(buffer, cursor).Some?
    ensures var (start, end, next) := NextBpfRecord(buffer, cursor).value;
      && cursor <= start <= end <= |buffer|
      && cursor < Min(next, |buffer|)
      && FramesFrom(buffer, cursor) == [buffer[start..end]] + FramesFrom(buffer, Min(next, |buffer|))
  {
    hide NextBpfRecord;
    RecordIsSafe(buffer, cursor);
  }

  /** The first record of a batch, and what is left when it is taken off. */
  lemma BatchHead(records: seq<CapturedRecord>)
    requires ValidBatch(records) && records != []
    ensures records[0].Valid() && records[0].AtMostPadded() && |records[0].Octets()| >= 18
    ensures Layout(records[1..]) != [] ==> records[0].FullyPadded()
    ensures ValidBatch(records[1..])
    ensures Layout(records) == records[0].Octets() + Layout(records[1..])
    ensures DataOf(records) == [records[0].data] + DataOf(records[1..])
  {
    LayoutIsNonempty(records[1..]);
  }

  lemma LayoutIsNonempty(records: seq<CapturedRecord>)
    ensures Layout(records) != [] ==> records != []
  {
  }
}
