/** Two frames byte for byte: one with the host checksum, one with that of the controller firmware family. */
module KnownFrames {
  import opened Bytes
  import opened Bits
  import opened Crc
  import opened CrcTrace
  import opened FrameCodec

  const HOST_STEPS: seq<Step> :=
    [Step(0x00, 0x00, 0x00, 0x00), Step(0x00, 0x00, 0x04, 0x04), Step(0x40, 0x84, 0xA1, 0xE1),
     Step(0x69, 0x0F, 0x3F, 0x56), Step(0x35, 0x33, 0x00, 0x35)]

  const FIRMWARE_STEPS: seq<Step> :=
    [Step(0x00, 0x00, 0x00, 0x00), Step(0x00, 0x00, 0x04, 0x04), Step(0x40, 0x84, 0xC3, 0x83),
     Step(0x25, 0xEB, 0xC2, 0xE7), Step(0x74, 0xF8, 0x00, 0x74)]

  lemma HostValues()
    ensures IsXor(0x00, 0x00, 0x00) && IsXor(0x00, 0x04, 0x04) && IsXor(0x40, 0xA1, 0xE1)
    ensures IsXor(0x69, 0x3F, 0x56) && IsXor(0x35, 0x00, 0x35)
    ensures LooksUp(0x00, 0x00, 0x00, 0x00) && LooksUp(0x00, 0x04, 0x40, 0x84)
    ensures LooksUp(0x84, 0xE1, 0x69, 0x0F) && LooksUp(0x0F, 0x56, 0x35, 0x33)
  {
  }

  lemma HostTrace()
    ensures Traces(HOST_STEPS)
  {
    hide IsXor, LooksUp;
    HostValues();
  }

  lemma FirmwareValues()
    ensures IsXor(0x00, 0x00, 0x00) && IsXor(0x00, 0x04, 0x04) && IsXor(0x40, 0xC3, 0x83)
    ensures IsXor(0x25, 0xC2, 0xE7) && IsXor(0x74, 0x00, 0x74)
    ensures LooksUp(0x00, 0x00, 0x00, 0x00) && LooksUp(0x00, 0x04, 0x40, 0x84)
    ensures LooksUp(0x84, 0x83, 0x25, 0xEB) && LooksUp(0xEB, 0xF7, 0x74, 0xF8)
  {
  }

  lemma FirmwareTrace()
    ensures Traces(FIRMWARE_STEPS)
  {
    hide IsXor, LooksUp;
    FirmwareValues();
  }

  /** A traced message and its checksum in wire form. */
  lemma TracedWire(steps: seq<Step>, last: nat)
    requires Traces(steps) && last < |steps|
    ensures Wire(Update(Message(steps)[..last])) == [steps[last].high, steps[last].low]
  {
    hide Update, Traces, Wire, Octet, Message;
    TraceHolds(steps, last);
    var w := Wire(Update(Message(steps)[..last]));
    OctetInjective(w[0], steps[last].high);
    OctetInjective(w[1], steps[last].low);
  }

  lemma HostBody()
    ensures Body(Frame(0xA1, [0x3F])) == [0x00, 0x04, 0xA1, 0x3F] == Message(HOST_STEPS)[..4]
    ensures Body(Frame(0xC3, [0xC2])) == [0x00, 0x04, 0xC3, 0xC2] == Message(FIRMWARE_STEPS)[..4]
  {
    assert Range(2) == 0x1_0000 && BigEndian(4, 2) == [0, 4] by { assert BigEndian(0, 1) == [0]; }
  }

  lemma PlainHost()
    ensures Ccitt(Message(HOST_STEPS)[..4]) == Update(Message(HOST_STEPS)[..4])
  {
    hide Update, Ccitt, Hits, Traces;
    HostTrace();
    var data := Message(HOST_STEPS);
    UpdateOfPrefix(data, 4);
    forall i | 0 <= i < 5 ensures !Hits(data, i) {
      TraceHits(HOST_STEPS, i);
      NoHostHit(i);
    }
    assert Plain(data) == data;
  }

  lemma NoHostHit(i: nat)
    requires i < 5
    ensures !HOST_STEPS[i].Hit()
  {
  }

  lemma Assembled(body: seq<byte>, checksum: seq<byte>)
    requires |body| == 4 && |checksum| == 2
    ensures SYNC + body + checksum + TAIL ==
            [0x86, 0x68, body[0], body[1], body[2], body[3], checksum[0], checksum[1], 0x55, 0xAA]
  {
  }

  /** A frame outside the firmware family, the same on every transport. */
  lemma HostFrame(p: Policy)
    ensures Encode(p, Frame(0xA1, [0x3F])) ==
            Some([0x86, 0x68, 0x00, 0x04, 0xA1, 0x3F, 0x35, 0x33, 0x55, 0xAA])
  {
    hide Update, Ccitt, Traces, Message, Wire, Body;
    HostBody();
    HostTrace();
    PlainHost();
    TracedWire(HOST_STEPS, 4);
    assert Wire(p.Checksum(Body(Frame(0xA1, [0x3F])))) == [0x35, 0x33];
    Assembled([0x00, 0x04, 0xA1, 0x3F], [0x35, 0x33]);
  }

  /** A firmware frame on the controller UART; its last byte hits a replaced table entry. */
  lemma FirmwareFrame()
    ensures Encode(ControllerUart, Frame(0xC3, [0xC2])) ==
            Some([0x86, 0x68, 0x00, 0x04, 0xC3, 0xC2, 0x74, 0xF8, 0x55, 0xAA])
  {
    hide Update, Ccitt, Traces, Message, Wire, Body;
    HostBody();
    FirmwareTrace();
    TracedWire(FIRMWARE_STEPS, 4);
    assert Wire(ControllerUart.Checksum(Body(Frame(0xC3, [0xC2])))) == [0x74, 0xF8];
    Assembled([0x00, 0x04, 0xC3, 0xC2], [0x74, 0xF8]);
  }
}
