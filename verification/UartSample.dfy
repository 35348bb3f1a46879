/**
 A configuration reply that one flipped bit turns into a firmware frame that the UART decoder
 accepts: the checksum of a 29-byte data reply, followed step by step.
 */
module UartSample {
  import opened Bytes
  import opened Crc
  import opened CrcTrace
  import opened FrameCodec
  import opened FrameStream
  import opened ControllerTransfer
  import opened UartCorruption
  import opened UartFamilies
  import opened ConfigTransfer
  import opened TransferAdapter
  import opened ConfigurationDelivery

  /** The lines "A_SPEED=100" and "B_FEED=2000". */
  const SPEED: seq<byte> := [65, 95, 83, 80, 69, 69, 68, 61, 49, 48, 48]
  const FEED: seq<byte> := [66, 95, 70, 69, 69, 68, 61, 50, 48, 48, 48]

  /** The first data reply to a peer that fetches a file of these lines. */
  const PAYLOAD: seq<byte> := [0, 0, 0, 0] + (SPEED + [NEWLINE]) + (FEED + [NEWLINE]) + [NEWLINE]

  /** Steps in a row: every index fits its register and byte, and each step leads to the next. */
  predicate Linked(steps: seq<Step>) {
    && (forall i :: 0 <= i < |steps| ==> IsXor(steps[i].high, steps[i].byte, steps[i].index))
    && forall i :: 0 <= i < |steps| - 1 ==> Follows(steps[i], steps[i + 1])
  }

  lemma LinkedAppend(a: seq<Step>, b: seq<Step>)
    requires Linked(a) && Linked(b) && a != [] && b != [] && Follows(a[|a| - 1], b[0])
    ensures Linked(a + b)
  {
    hide IsXor, Follows;
  }

  const STEPS_0: seq<Step> :=
    [Step(0x00, 0x00, 0, 0x00), Step(0x00, 0x00, 32, 0x20), Step(0x24, 0x62, 195, 0xE7),
     Step(0xFD, 0xF8, 0, 0xFD), Step(0xC6, 0xB2, 0, 0xC6), Step(0x0B, 0x8A, 0, 0x0B),
     Step(0x3B, 0x6B, 0, 0x3B), Step(0xEC, 0x38, 65, 0xAD)]
  const STEPS_1: seq<Step> :=
    [Step(0x5C, 0x47, 95, 0x03), Step(0x77, 0x63, 83, 0x24), Step(0x07, 0xE6, 80, 0x57),
     Step(0xCC, 0x12, 69, 0x89), Step(0x12, 0xA1, 69, 0x57), Step(0x8B, 0x12, 68, 0xCF),
     Step(0x3A, 0xA3, 61, 0x07), Step(0xD3, 0xE7, 49, 0xE2)]
  const STEPS_2: seq<Step> :=
    [Step(0x3A, 0x6C, 48, 0x0A), Step(0xCD, 0x4A, 48, 0xFD), Step(0x74, 0xB2, 10, 0x7E),
     Step(0x2D, 0x59, 66, 0x6F), Step(0xC4, 0x49, 95, 0x9B), Step(0x7B, 0xD2, 70, 0x3D),
     Step(0x35, 0xFE, 69, 0x70), Step(0x80, 0x97, 69, 0xC5)]
  const STEPS_3: seq<Step> :=
    [Step(0x1E, 0xE9, 68, 0x5A), Step(0x12, 0xBF, 61, 0x2F), Step(0x6A, 0x8D, 50, 0x58),
     Step(0x56, 0xFD, 48, 0x66), Step(0xF1, 0x60, 48, 0xC1), Step(0xA9, 0x6D, 48, 0x99),
     Step(0x7F, 0x90, 10, 0x75), Step(0xBE, 0x32, 10, 0xB4)]

  lemma Pair0()
    ensures IsXor(0x00, 0, 0x00) && IsXor(0x00, 32, 0x20)
    ensures LooksUp(0x00, 0x00, 0x00, 0x00) && LooksUp(0x00, 0x20, 0x24, 0x62)
  {
  }

  lemma Pair1()
    ensures IsXor(0x24, 195, 0xE7) && IsXor(0xFD, 0, 0xFD)
    ensures LooksUp(0x62, 0xF7, 0xFD, 0xF8) && LooksUp(0xF8, 0xFD, 0xC6, 0xB2)
  {
  }

  lemma Pair2()
    ensures IsXor(0xC6, 0, 0xC6) && IsXor(0x0B, 0, 0x0B)
    ensures LooksUp(0xB2, 0xC6, 0x0B, 0x8A) && LooksUp(0x8A, 0x0B, 0x3B, 0x6B)
  {
  }

  lemma Pair3()
    ensures IsXor(0x3B, 0, 0x3B) && IsXor(0xEC, 65, 0xAD)
    ensures LooksUp(0x6B, 0x3B, 0xEC, 0x38) && LooksUp(0x38, 0xAD, 0x5C, 0x47)
  {
  }

  lemma Pair4()
    ensures IsXor(0x5C, 95, 0x03) && IsXor(0x77, 83, 0x24)
    ensures LooksUp(0x47, 0x03, 0x77, 0x63) && LooksUp(0x63, 0x24, 0x07, 0xE6)
  {
  }

  lemma Pair5()
    ensures IsXor(0x07, 80, 0x57) && IsXor(0xCC, 69, 0x89)
    ensures LooksUp(0xE6, 0x57, 0xCC, 0x12) && LooksUp(0x12, 0x89, 0x12, 0xA1)
  {
  }

  lemma Pair6()
    ensures IsXor(0x12, 69, 0x57) && IsXor(0x8B, 68, 0xCF)
    ensures LooksUp(0xA1, 0x57, 0x8B, 0x12) && LooksUp(0x12, 0xCF, 0x3A, 0xA3)
  {
  }

  lemma Pair7()
    ensures IsXor(0x3A, 61, 0x07) && IsXor(0xD3, 49, 0xE2)
    ensures LooksUp(0xA3, 0x07, 0xD3, 0xE7) && LooksUp(0xE7, 0xE2, 0x3A, 0x6C)
  {
  }

  lemma Pair8()
    ensures IsXor(0x3A, 48, 0x0A) && IsXor(0xCD, 48, 0xFD)
    ensures LooksUp(0x6C, 0x0A, 0xCD, 0x4A) && LooksUp(0x4A, 0xFD, 0x74, 0xB2)
  {
  }

  lemma Pair9()
    ensures IsXor(0x74, 10, 0x7E) && IsXor(0x2D, 66, 0x6F)
    ensures LooksUp(0xB2, 0x7E, 0x2D, 0x59) && LooksUp(0x59, 0x6F, 0xC4, 0x49)
  {
  }

  lemma Pair10()
    ensures IsXor(0xC4, 95, 0x9B) && IsXor(0x7B, 70, 0x3D)
    ensures LooksUp(0x49, 0x9B, 0x7B, 0xD2) && LooksUp(0xD2, 0x3D, 0x35, 0xFE)
  {
  }

  lemma Pair11()
    ensures IsXor(0x35, 69, 0x70) && IsXor(0x80, 69, 0xC5)
    ensures LooksUp(0xFE, 0x70, 0x80, 0x97) && LooksUp(0x97, 0xC5, 0x1E, 0xE9)
  {
  }

  lemma Pair12()
    ensures IsXor(0x1E, 68, 0x5A) && IsXor(0x12, 61, 0x2F)
    ensures LooksUp(0xE9, 0x5A, 0x12, 0xBF) && LooksUp(0xBF, 0x2F, 0x6A, 0x8D)
  {
  }

  lemma Pair13()
    ensures IsXor(0x6A, 50, 0x58) && IsXor(0x56, 48, 0x66)
    ensures LooksUp(0x8D, 0x58, 0x56, 0xFD) && LooksUp(0xFD, 0x66, 0xF1, 0x60)
  {
  }

  lemma Pair14()
    ensures IsXor(0xF1, 48, 0xC1) && IsXor(0xA9, 48, 0x99)
    ensures LooksUp(0x60, 0xC1, 0xA9, 0x6D) && LooksUp(0x6D, 0x99, 0x7F, 0x90)
  {
  }

  lemma Pair15()
    ensures IsXor(0x7F, 10, 0x75) && IsXor(0xBE, 10, 0xB4)
    ensures LooksUp(0x90, 0x75, 0xBE, 0x32)
  {
  }

  lemma Part0()
    ensures Linked(STEPS_0) && Follows(STEPS_0[7], STEPS_1[0])
  {
    hide IsXor, LooksUp;
    Pair0();
    Pair1();
    Pair2();
    Pair3();
  }

  lemma Part1()
    ensures Linked(STEPS_1) && Follows(STEPS_1[7], STEPS_2[0])
  {
    hide IsXor, LooksUp;
    Pair4();
    Pair5();
    Pair6();
    Pair7();
  }

  lemma Part2()
    ensures Linked(STEPS_2) && Follows(STEPS_2[7], STEPS_3[0])
  {
    hide IsXor, LooksUp;
    Pair8();
    Pair9();
    Pair10();
    Pair11();
  }

  lemma Part3()
    ensures Linked(STEPS_3)
  {
    hide IsXor, LooksUp;
    Pair12();
    Pair13();
    Pair14();
    Pair15();
  }
  const STEPS: seq<Step> := STEPS_0 + STEPS_1 + STEPS_2 + STEPS_3

  lemma StepsTrace()
    ensures Traces(STEPS)
  {
    hide Follows, IsXor;
    Part0();
    Part1();
    Part2();
    Part3();
    hide Linked;
    LinkedAppend(STEPS_0, STEPS_1);
    LinkedAppend(STEPS_0 + STEPS_1, STEPS_2);
    LinkedAppend(STEPS_0 + STEPS_1 + STEPS_2, STEPS_3);
    LinkedTraces(STEPS);
  }

  lemma LinkedTraces(steps: seq<Step>)
    requires Linked(steps) && |steps| > 0 && steps[0].high == 0 && steps[0].low == 0
    ensures Traces(steps)
  {
    hide Follows, IsXor;
  }

  const BYTES_0: seq<byte> := [0, 32, 195, 0, 0, 0, 0, 65]
  const BYTES_1: seq<byte> := [95, 83, 80, 69, 69, 68, 61, 49]
  const BYTES_2: seq<byte> := [48, 48, 10, 66, 95, 70, 69, 69]
  const BYTES_3: seq<byte> := [68, 61, 50, 48, 48, 48, 10, 10]

  lemma MessageAppend(a: seq<Step>, b: seq<Step>)
    ensures Message(a + b) == Message(a) + Message(b)
  {
  }

  lemma StepsBytes()
    ensures Message(STEPS_0) == BYTES_0 && Message(STEPS_1) == BYTES_1
    ensures Message(STEPS_2) == BYTES_2 && Message(STEPS_3) == BYTES_3
  {
  }

  lemma BytesSpell()
    ensures [0, 32] + [195] + PAYLOAD == BYTES_0 + BYTES_1 + BYTES_2 + BYTES_3
  {
  }

  lemma StepsSpellFrame()
    requires Encodable(ControllerUart, Frame(0xC3, PAYLOAD))
    ensures Message(STEPS) == Body(Frame(0xC3, PAYLOAD))
  {
    hide Message;
    StepsBytes();
    BytesSpell();
    MessageAppend(STEPS_0, STEPS_1);
    MessageAppend(STEPS_0 + STEPS_1, STEPS_2);
    MessageAppend(STEPS_0 + STEPS_1 + STEPS_2, STEPS_3);
    LengthField(32);
  }

  lemma OnlyTypeHits(i: nat)
    requires i < |STEPS|
    ensures STEPS[i].Hit() <==> i == 2
  {
  }

  lemma SampleMayHit()
    ensures Encodable(ControllerUart, Frame(0xC3, PAYLOAD)) && OnlyTypeMayHit(Body(Frame(0xC3, PAYLOAD)))
  {
    hide Hits, Traces, Step.Hit;
    StepsTrace();
    StepsSpellFrame();
    forall i | 0 <= i < |STEPS| && i != 2 ensures !Hits(Message(STEPS), i) {
      OnlyTypeHits(i);
      TraceHits(STEPS, i);
    }
  }

  lemma SampleRecords()
    ensures Records(LinePieces([SPEED, FEED], CHUNK_SIZE)) == [SPEED + [NEWLINE], FEED + [NEWLINE]]
  {
    OnePiece(SPEED + [NEWLINE]);
    OnePiece(FEED + [NEWLINE]);
    var last := [FEED];
    assert [SPEED, FEED][1..] == last && last[1..] == [];
    assert LinePieces(last, CHUNK_SIZE) == [FEED + [NEWLINE]];
    var chunks: seq<seq<byte>> := [SPEED + [NEWLINE], FEED + [NEWLINE]];
    var none: seq<seq<byte>> := [];
    assert LinePieces([SPEED, FEED], CHUNK_SIZE) == chunks;
    assert chunks[1..] == [FEED + [NEWLINE]] && chunks[1..][1..] == none;
  }

  lemma ZeroIndex()
    ensures WireIndex(0) == [0, 0, 0, 0]
  {
    assert Range(4) == TWO_TO_THE_32;
    assert BigEndian(0, 4) == BigEndian(0, 3) + [0] && BigEndian(0, 3) == BigEndian(0, 2) + [0];
    LengthField(0);
  }

  lemma SampleData(records: seq<seq<byte>>)
    requires records == [SPEED + [NEWLINE], FEED + [NEWLINE]]
    ensures Bounded(records) && ReplyData(records, 0).Some?
    ensures WireIndex(0) + ReplyData(records, 0).value == PAYLOAD
  {
    hide Gather, WireIndex;
    ZeroIndex();
    SampleGathered(records);
  }

  lemma SampleReply(s: State, port: Port)
    requires Succeeding(port) && s.frameDataSize == FRAME_DATA_SIZE
    requires port.chunks == Some(LinePieces([SPEED, FEED], CHUNK_SIZE))
    ensures OnData(s, WireIndex(0), port).sent == [Frame(0xD3, PAYLOAD)]
  {
    hide Records, LinePieces, ReplyData, WireIndex, ParseDataRequest;
    SampleRecords();
    SampleData(Records(port.chunks.value));
    ParseWireIndex(0, []);
    assert WireIndex(0) + [] == WireIndex(0);
  }

  lemma SampleGathered(records: seq<seq<byte>>)
    requires records == [SPEED + [NEWLINE], FEED + [NEWLINE]]
    ensures Gather([], records[0..]).data == SPEED + [NEWLINE] + (FEED + [NEWLINE])
  {
    var none: seq<seq<byte>> := [];
    assert records[0..] == records && records[1..] == [FEED + [NEWLINE]] && records[1..][1..] == none;
    assert [] + (SPEED + [NEWLINE]) == SPEED + [NEWLINE];
    assert Gather(SPEED + [NEWLINE], records[1..]).data == SPEED + [NEWLINE] + (FEED + [NEWLINE]);
  }

  lemma SampleCrosses(later: seq<byte>)
    ensures var f := Frame(0xD3, PAYLOAD);
            && Encodable(ControllerUart, f)
            && var altered := Encoded(ControllerUart, f)[4 := 0xC3] + later;
            && SyncAt(altered, 0)
            && Judge(ControllerUart, altered) == Accept(Frame(0xC3, PAYLOAD), |PAYLOAD| + 9)
  {
    hide OnlyTypeMayHit, Judge, Encoded;
    SampleMayHit();
    var f := Frame(0xD3, PAYLOAD);
    BodyLength(f);
    assert Body(f)[2 := 0xC3] == Body(Frame(0xC3, PAYLOAD));
    DataCrossesExactly(f, 0xC3, later);
    AlteredExactly(f, 2, 0xC3, later);
  }

  /**
   A peer that fetches a two-line file receives a data reply in which one flipped bit turns
   configuration data into firmware data without being noticed.
   */
  lemma ReplyCrosses(s: State, port: Port, later: seq<byte>)
    requires Succeeding(port) && s.frameDataSize == FRAME_DATA_SIZE
    requires port.chunks == Some(LinePieces([SPEED, FEED], CHUNK_SIZE))
    ensures var sent := Handle(s, Packet(CONFIGURATION_FAMILY, Data, WireIndex(0)), port).sent;
            && |sent| == 1 && sent[0].kind == 0xD3 && Encodable(ControllerUart, sent[0])
            && var altered := Encoded(ControllerUart, sent[0])[4 := 0xC3] + later;
            && SyncAt(altered, 0) && Judge(ControllerUart, altered).Accept?
            && Judge(ControllerUart, altered).frame == Frame(0xC3, sent[0].payload)
  {
    hide OnlyTypeMayHit, Judge, Encoded, OnData, LinePieces, Succeeding;
    SampleReply(s, port);
    SampleCrosses(later);
  }
}
