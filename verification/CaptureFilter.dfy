/** The classic-BPF ARP capture filter and its exact agreement with the userspace parser. */
module CaptureFilter {
  import opened AddressResolution
  import opened EthernetFrame
  import opened Octets

  const LOAD_HALFWORD_ABSOLUTE: u16 := 0x28
  const LOAD_WORD_ABSOLUTE: u16 := 0x20
  const JUMP_IF_EQUAL: u16 := 0x15
  const JUMP_IF_GREATER: u16 := 0x25
  const RETURN_CONSTANT: u16 := 0x06

  datatype Instruction = Instruction(code: u16, jumpIfTrue: u8, jumpIfFalse: u8, operand: u32)

  /** How a run ends. `Stuck` stands for the interpreter's panics. */
  datatype Halt =
    | Returned(programCounter: nat, captureLength: u32)
    | LoadOutOfRange(programCounter: nat)
    | Stuck
  {
    predicate Accepts() {
      Returned? && captureLength != 0
    }
  }

  // ----- interpreter

  datatype Step = Next(programCounter: nat, accumulator: u32) | Done(halt: Halt)

  function StepOnce(filter: seq<Instruction>, programCounter: nat, accumulator: u32, frame: Frame): Step {
    if programCounter >= |filter| then Done(Stuck) else
    var i := filter[programCounter];
    if i.code == LOAD_HALFWORD_ABSOLUTE then
      if i.operand + 2 > |frame| then Done(LoadOutOfRange(programCounter))
      else Next(programCounter + 1, Word16(frame[i.operand], frame[i.operand + 1]))
    else if i.code == LOAD_WORD_ABSOLUTE then
      if i.operand + 4 > |frame| then Done(LoadOutOfRange(programCounter))
      else Next(programCounter + 1,
        Word32(frame[i.operand], frame[i.operand + 1], frame[i.operand + 2], frame[i.operand + 3]))
    else if i.code == JUMP_IF_EQUAL then
      Next(programCounter + 1 + (if accumulator == i.operand then i.jumpIfTrue else i.jumpIfFalse), accumulator)
    else if i.code == JUMP_IF_GREATER then
      Next(programCounter + 1 + (if accumulator > i.operand then i.jumpIfTrue else i.jumpIfFalse), accumulator)
    else if i.code == RETURN_CONSTANT then Done(Returned(programCounter, i.operand))
    else Done(Stuck)
  }

  /** What each operation code does to the machine, and when it ends the run. */
  lemma StepVerdicts(filter: seq<Instruction>, pc: nat, accumulator: u32, frame: Frame)
    requires pc < |filter|
    ensures var (i, step) := (filter[pc], StepOnce(filter, pc, accumulator, frame));
      var k := i.operand;
      && (step == Done(Stuck) <==> i.code !in {0x28, 0x20, 0x15, 0x25, 0x06})
      && (i.code == 0x06 ==> step == Done(Returned(pc, k)))
      && (step == Done(LoadOutOfRange(pc))
          <==> (i.code == 0x28 && k + 2 > |frame|) || (i.code == 0x20 && k + 4 > |frame|))
      && (i.code == 0x28 && k + 2 <= |frame| ==> step == Next(pc + 1, frame[k] as nat * 0x100 + frame[k + 1]))
      && (i.code == 0x20 && k + 4 <= |frame| ==>
            step == Next(pc + 1, frame[k] as nat * 0x100_0000 + frame[k + 1] as nat * 0x1_0000
                                 + frame[k + 2] as nat * 0x100 + frame[k + 3]))
      && (i.code == 0x15 ==>
            step == Next(pc + 1 + (if accumulator == k then i.jumpIfTrue else i.jumpIfFalse), accumulator))
      && (i.code == 0x25 ==>
            step == Next(pc + 1 + (if accumulator > k then i.jumpIfTrue else i.jumpIfFalse), accumulator))
  {
  }

  /** The halt reached from one machine state. Every step moves the program counter forward. */
  function Run(filter: seq<Instruction>, programCounter: nat, accumulator: u32, frame: Frame): Halt
    decreases |filter| - programCounter
  {
    match StepOnce(filter, programCounter, accumulator, frame)
    case Done(halt) => halt
    case Next(next, value) => Run(filter, next, value, frame)
  }

  /** The interpreter's loop, with its bound of one more iteration than there are instructions. */
  method Interpret(filter: seq<Instruction>, frame: Frame) returns (halt: Halt)
    ensures halt == Run(filter, 0, 0, frame)
  {
    var programCounter, accumulator: u32 := 0, 0;
    for iteration := 0 to |filter| + 1
      invariant iteration <= programCounter
      invariant Run(filter, programCounter, accumulator, frame) == Run(filter, 0, 0, frame)
    {
      var step := StepOnce(filter, programCounter, accumulator, frame);
      match step
      case Done(outcome) => return outcome;
      case Next(next, value) => programCounter, accumulator := next, value;
    }
    assert programCounter > |filter|;
    return Stuck;
  }

  /** Known opcodes, jumps inside the program, and no falling off the end. */
  predicate WellFormed(filter: seq<Instruction>) {
    forall pc :: 0 <= pc < |filter| ==>
      var i := filter[pc];
      || i.code == RETURN_CONSTANT
      || (i.code in {LOAD_HALFWORD_ABSOLUTE, LOAD_WORD_ABSOLUTE} && pc + 1 < |filter|)
      || (i.code in {JUMP_IF_EQUAL, JUMP_IF_GREATER}
          && pc + 1 + i.jumpIfTrue < |filter| && pc + 1 + i.jumpIfFalse < |filter|)
  }

  /** A well-formed program never gets stuck: it returns, or drops the frame at a short load. */
  lemma {:induction false} WellFormedNeverStuck(
      filter: seq<Instruction>, programCounter: nat, accumulator: u32, frame: Frame)
    requires WellFormed(filter) && programCounter < |filter|
    ensures var halt := Run(filter, programCounter, accumulator, frame);
      && !halt.Stuck?
      && programCounter <= halt.programCounter < |filter|
      && (halt.Returned? ==> filter[halt.programCounter].code == RETURN_CONSTANT
                             && halt.captureLength == filter[halt.programCounter].operand)
    decreases |filter| - programCounter
  {
    match StepOnce(filter, programCounter, accumulator, frame)
    case Done(_) =>
    case Next(next, value) => WellFormedNeverStuck(filter, next, value, frame);
  }

  // ----- the program

  function LengthTypeFieldOffset(tagCount: nat): nat {
    12 + tagCount * 4
  }

  const SNAP_PREFIX: u32 := 0xAAAA_0300
  const SNAP_ARP: u32 := 0x0000_0806
  const ACCEPT_WHOLE_FRAME: u32 := 0xFFFF_FFFF

  const ARP_CAPTURE_FILTER: seq<Instruction> := [
    /*  0 */ Instruction(LOAD_HALFWORD_ABSOLUTE, 0, 0, LengthTypeFieldOffset(0)),
    /*  1 */ Instruction(JUMP_IF_EQUAL, 24, 0, ETHERNET_PROTOCOL_ARP),
    /*  2 */ Instruction(JUMP_IF_EQUAL, 6, 0, ETHERNET_PROTOCOL_VLAN_TAG),
    /*  3 */ Instruction(JUMP_IF_EQUAL, 12, 0, ETHERNET_PROTOCOL_VLAN_TAG_SERVICE),
    /*  4 */ Instruction(JUMP_IF_GREATER, 20, 0, IEEE_8023_MAXIMUM_LENGTH),
    /*  5 */ Instruction(LOAD_WORD_ABSOLUTE, 0, 0, LengthTypeFieldOffset(0) + 2),
    /*  6 */ Instruction(JUMP_IF_EQUAL, 0, 18, SNAP_PREFIX),
    /*  7 */ Instruction(LOAD_WORD_ABSOLUTE, 0, 0, LengthTypeFieldOffset(0) + 6),
    /*  8 */ Instruction(JUMP_IF_EQUAL, 17, 16, SNAP_ARP),
    /*  9 */ Instruction(LOAD_HALFWORD_ABSOLUTE, 0, 0, LengthTypeFieldOffset(1)),
    /* 10 */ Instruction(JUMP_IF_EQUAL, 15, 0, ETHERNET_PROTOCOL_ARP),
    /* 11 */ Instruction(JUMP_IF_GREATER, 13, 0, IEEE_8023_MAXIMUM_LENGTH),
    /* 12 */ Instruction(LOAD_WORD_ABSOLUTE, 0, 0, LengthTypeFieldOffset(1) + 2),
    /* 13 */ Instruction(JUMP_IF_EQUAL, 0, 11, SNAP_PREFIX),
    /* 14 */ Instruction(LOAD_WORD_ABSOLUTE, 0, 0, LengthTypeFieldOffset(1) + 6),
    /* 15 */ Instruction(JUMP_IF_EQUAL, 10, 9, SNAP_ARP),
    /* 16 */ Instruction(LOAD_HALFWORD_ABSOLUTE, 0, 0, LengthTypeFieldOffset(1)),
    /* 17 */ Instruction(JUMP_IF_EQUAL, 0, 7, ETHERNET_PROTOCOL_VLAN_TAG),
    /* 18 */ Instruction(LOAD_HALFWORD_ABSOLUTE, 0, 0, LengthTypeFieldOffset(2)),
    /* 19 */ Instruction(JUMP_IF_EQUAL, 6, 0, ETHERNET_PROTOCOL_ARP),
    /* 20 */ Instruction(JUMP_IF_GREATER, 4, 0, IEEE_8023_MAXIMUM_LENGTH),
    /* 21 */ Instruction(LOAD_WORD_ABSOLUTE, 0, 0, LengthTypeFieldOffset(2) + 2),
    /* 22 */ Instruction(JUMP_IF_EQUAL, 0, 2, SNAP_PREFIX),
    /* 23 */ Instruction(LOAD_WORD_ABSOLUTE, 0, 0, LengthTypeFieldOffset(2) + 6),
    /* 24 */ Instruction(JUMP_IF_EQUAL, 1, 0, SNAP_ARP),
    /* 25 */ Instruction(RETURN_CONSTANT, 0, 0, 0),
    /* 26 */ Instruction(RETURN_CONSTANT, 0, 0, ACCEPT_WHOLE_FRAME)]

  predicate FilterAccepts(frame: Frame) {
    Run(ARP_CAPTURE_FILTER, 0, 0, frame).Accepts()
  }

  /**
   On every frame the program halts at its drop or accept instruction, or at a short load. Its
   operation codes are the classic-BPF encodings, and an accepted frame is captured up to 2^32 - 1 octets.
   */
  lemma FilterHalts(frame: Frame)
    ensures |ARP_CAPTURE_FILTER| == 27 && WellFormed(ARP_CAPTURE_FILTER)
    ensures var halt := Run(ARP_CAPTURE_FILTER, 0, 0, frame);
      && (halt.LoadOutOfRange? || halt == Returned(25, 0) || halt == Returned(26, 0xFFFF_FFFF))
      && (halt.Accepts() <==> halt == Returned(26, 0xFFFF_FFFF))
    ensures forall pc :: 0 <= pc < 27 ==> ARP_CAPTURE_FILTER[pc].code in {0x28, 0x20, 0x15, 0x25, 0x06}
    ensures ARP_CAPTURE_FILTER[0].code == 0x28 && ARP_CAPTURE_FILTER[5].code == 0x20
    ensures ARP_CAPTURE_FILTER[1].code == 0x15 && ARP_CAPTURE_FILTER[4].code == 0x25
    ensures ARP_CAPTURE_FILTER[25].code == ARP_CAPTURE_FILTER[26].code == 0x06
  {
    WellFormedNeverStuck(ARP_CAPTURE_FILTER, 0, 0, frame);
  }

  // ----- what the three SNAP blocks and the three branches test

  /** RFC 1042 SNAP carrying ARP starts at `offset`. */
  predicate SnapArpAt(frame: Frame, offset: nat) {
    && offset + 8 <= |frame|
    && frame[offset..offset + 4] == [0xAA, 0xAA, 0x03, 0x00]
    && frame[offset + 4..offset + 8] == [0x00, 0x00, 0x08, 0x06]
  }

  lemma Word16IsInjective(a: u8, b: u8, c: u8, d: u8)
    ensures Word16(a, b) == Word16(c, d) <==> a == c && b == d
  {
  }

  lemma Word32IsInjective(a: u8, b: u8, c: u8, d: u8, e: u8, f: u8, g: u8, h: u8)
    ensures Word32(a, b, c, d) == Word32(e, f, g, h) <==> a == e && b == f && c == g && d == h
  {
    hide Word16;
    Word16IsInjective(a, b, e, f);
    Word16IsInjective(c, d, g, h);
  }

  lemma SnapWords()
    ensures SNAP_PREFIX == Word32(0xAA, 0xAA, 0x03, 0x00)
    ensures SNAP_ARP == Word32(0x00, 0x00, 0x08, 0x06)
  {
  }

  lemma SnapOctetsAsWords(frame: Frame, o: nat)
    requires o + 8 <= |frame|
    ensures SnapArpAt(frame, o)
      <==> && Word32(frame[o], frame[o + 1], frame[o + 2], frame[o + 3]) == SNAP_PREFIX
           && Word32(frame[o + 4], frame[o + 5], frame[o + 6], frame[o + 7]) == SNAP_ARP
  {
    hide Word32;
    SnapWords();
    Word32IsInjective(frame[o], frame[o + 1], frame[o + 2], frame[o + 3], 0xAA, 0xAA, 0x03, 0x00);
    Word32IsInjective(frame[o + 4], frame[o + 5], frame[o + 6], frame[o + 7], 0x00, 0x00, 0x08, 0x06);
    var head, tail := frame[o..o + 4], frame[o + 4..o + 8];
    assert head == [frame[o], frame[o + 1], frame[o + 2], frame[o + 3]];
    assert tail == [frame[o + 4], frame[o + 5], frame[o + 6], frame[o + 7]];
  }

  /** One step of a run. */
  lemma Unfold(programCounter: nat, accumulator: u32, frame: Frame)
    ensures Run(ARP_CAPTURE_FILTER, programCounter, accumulator, frame)
      == match StepOnce(ARP_CAPTURE_FILTER, programCounter, accumulator, frame)
         case Done(halt) => halt
         case Next(next, value) => Run(ARP_CAPTURE_FILTER, next, value, frame)
  {
  }

  lemma Verdicts(accumulator: u32, frame: Frame)
    ensures !Run(ARP_CAPTURE_FILTER, 25, accumulator, frame).Accepts()
    ensures Run(ARP_CAPTURE_FILTER, 26, accumulator, frame).Accepts()
  {
  }

  /** A block of load, compare, load, compare tests for SNAP ARP right behind a length field. */
  lemma SnapBlock(frame: Frame, start: nat, tagCount: nat, accumulator: u32)
    requires (start, tagCount) in {(5, 0), (12, 1), (21, 2)}
    ensures Run(ARP_CAPTURE_FILTER, start, accumulator, frame).Accepts()
      <==> SnapArpAt(frame, LengthTypeFieldOffset(tagCount) + 2)
  {
    hide Run, SnapArpAt, Word32;
    var o := LengthTypeFieldOffset(tagCount) + 2;
    Unfold(start, accumulator, frame);
    if o + 4 <= |frame| {
      var first := Word32(frame[o], frame[o + 1], frame[o + 2], frame[o + 3]);
      Unfold(start + 1, first, frame);
      Unfold(start + 2, first, frame);
      Verdicts(first, frame);
      if o + 8 <= |frame| {
        var second := Word32(frame[o + 4], frame[o + 5], frame[o + 6], frame[o + 7]);
        Unfold(start + 3, second, frame);
        Verdicts(second, frame);
        SnapOctetsAsWords(frame, o);
      }
    }
    ShortSnap(frame, o);
  }

  lemma ShortSnap(frame: Frame, o: nat)
    ensures SnapArpAt(frame, o) ==> o + 8 <= |frame|
  {
  }

  /** What the program tests, framing by framing. */
  predicate AdmitsAfterTags(frame: Frame, tagCount: nat) {
    var o := LengthTypeFieldOffset(tagCount);
    && o + 2 <= |frame|
    && var field := Word16(frame[o], frame[o + 1]);
    && (field == ETHERNET_PROTOCOL_ARP || (field <= IEEE_8023_MAXIMUM_LENGTH && SnapArpAt(frame, o + 2)))
  }

  predicate Admits(frame: Frame) {
    && 14 <= |frame|
    && match Word16(frame[12], frame[13])
       case 0x8100 => AdmitsAfterTags(frame, 1)
       case 0x88A8 => 18 <= |frame| && Word16(frame[16], frame[17]) == 0x8100 && AdmitsAfterTags(frame, 2)
       case _ => AdmitsAfterTags(frame, 0)
  }

  lemma CustomerBranch(frame: Frame, accumulator: u32)
    ensures Run(ARP_CAPTURE_FILTER, 9, accumulator, frame).Accepts() <==> AdmitsAfterTags(frame, 1)
  {
    hide Run, SnapArpAt;
    Unfold(9, accumulator, frame);
    if 18 <= |frame| {
      var field := Word16(frame[16], frame[17]);
      Unfold(10, field, frame);
      Unfold(11, field, frame);
      Verdicts(field, frame);
      SnapBlock(frame, 12, 1, field);
    }
  }

  lemma ServiceBranch(frame: Frame, accumulator: u32)
    ensures Run(ARP_CAPTURE_FILTER, 16, accumulator, frame).Accepts()
      <==> 18 <= |frame| && Word16(frame[16], frame[17]) == 0x8100 && AdmitsAfterTags(frame, 2)
  {
    hide Run, SnapArpAt;
    Unfold(16, accumulator, frame);
    if 18 <= |frame| {
      var tpid := Word16(frame[16], frame[17]);
      Unfold(17, tpid, frame);
      Unfold(18, tpid, frame);
      Verdicts(tpid, frame);
      if 22 <= |frame| {
        var field := Word16(frame[20], frame[21]);
        Unfold(19, field, frame);
        Unfold(20, field, frame);
        Verdicts(field, frame);
        SnapBlock(frame, 21, 2, field);
      }
    }
  }

  lemma FilterTests(frame: Frame)
    ensures FilterAccepts(frame) <==> Admits(frame)
  {
    hide Run, SnapArpAt;
    Unfold(0, 0, frame);
    if 14 <= |frame| {
      var field := Word16(frame[12], frame[13]);
      Unfold(1, field, frame);
      Unfold(2, field, frame);
      Unfold(3, field, frame);
      Unfold(4, field, frame);
      Verdicts(field, frame);
      SnapBlock(frame, 5, 0, field);
      CustomerBranch(frame, field);
      ServiceBranch(frame, field);
    }
  }

  // ----- agreement with the parser

  lemma SnapDecodesAsArp(frame: Frame, start: nat)
    ensures SnapArpAt(frame, start)
      <==> && DecodeRfc1042LlcSnap(frame, start).Success?
           && DecodeRfc1042LlcSnap(frame, start).value.0 == ETHERNET_PROTOCOL_ARP
  {
    if start + 8 <= |frame| {
      var head, tail, header := frame[start..start + 4], frame[start + 4..start + 8], frame[start..start + 8];
      assert header == head + tail;
      assert header[3..6] == [head[3], tail[0], tail[1]];
    }
  }

  /** Behind any number of tags, the program and the type decoder agree on what is ARP. */
  lemma TypeDecodesAsArp(frame: Frame, tagCount: nat)
    requires LengthTypeFieldOffset(tagCount) + 2 <= |frame|
    ensures var o := LengthTypeFieldOffset(tagCount);
      var r := DecodeEtherTypeOrSnap(frame, Word16(frame[o], frame[o + 1]), o + 2);
      AdmitsAfterTags(frame, tagCount) <==> r.Success? && r.value.0 == ETHERNET_PROTOCOL_ARP
  {
    hide SnapArpAt, DecodeRfc1042LlcSnap;
    SnapDecodesAsArp(frame, LengthTypeFieldOffset(tagCount) + 2);
  }

  /**
   The kernel filter admits a frame exactly when the userspace parser accepts it as ARP: every
   framing, every truncation, every rejected tag arrangement, for all byte strings.
   */
  lemma FilterAcceptsExactlyArp(frame: Frame)
    ensures FilterAccepts(frame) <==> CarriesArp(frame)
  {
    hide Run, SnapArpAt, TciFromWord, DecodeEtherTypeOrSnap, AdmitsAfterTags;
    FilterTests(frame);
    if 14 <= |frame| {
      TypeDecodesAsArp(frame, 0);
    }
    if 18 <= |frame| {
      TypeDecodesAsArp(frame, 1);
    }
    if 22 <= |frame| {
      TypeDecodesAsArp(frame, 2);
    }
    AdmittedFieldIsNoTpid(frame, 0);
    AdmittedFieldIsNoTpid(frame, 1);
    AdmittedFieldIsNoTpid(frame, 2);
  }

  lemma AdmittedFieldIsNoTpid(frame: Frame, tagCount: nat)
    ensures AdmitsAfterTags(frame, tagCount) ==>
      var o := LengthTypeFieldOffset(tagCount);
      o + 2 <= |frame| && !IsVlanTpid(Word16(frame[o], frame[o + 1]))
  {
  }
}
