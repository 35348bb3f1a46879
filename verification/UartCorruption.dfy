/**
 Corrupted frames on the controller UART, where frames of the firmware family carry a checksum of
 their own: which single-byte errors are noticed and which are not.
 */
module UartCorruption {
  import opened Bytes
  import opened Crc
  import opened FrameCodec
  import opened FrameStream

  predicate FirmwareType(kind: byte) { kind / 16 == 0xC }

  /** A body with a given checksum field, as it arrives. */
  function Arrives(body: seq<byte>, checksum: seq<byte>, later: seq<byte>): seq<byte> {
    SYNC + (body + checksum) + TAIL + later
  }

  lemma EncodedArrives(p: Policy, f: Frame, later: seq<byte>)
    requires Encodable(p, f)
    ensures Encoded(p, f) + later == Arrives(Body(f), Wire(p.Checksum(Body(f))), later)
  {
  }

  /** Bodies of one length field: accepted exactly when the checksum field matches. */
  lemma ArrivesExactly(p: Policy, body: seq<byte>, checksum: seq<byte>, later: seq<byte>)
    requires |body| >= 3 && |body| + 6 <= p.MaximumFrameSize() && |checksum| == 2
    requires FromBigEndian(body[..2]) == |body|
    ensures SyncAt(Arrives(body, checksum, later), 0)
    ensures Judge(p, Arrives(body, checksum, later)) ==
            if checksum == Wire(p.Checksum(body)) then Accept(Frame(body[2], body[3..]), |body| + 6)
            else Reject(p.BadFrameDiscard(|body| + 6))
  {
    hide Wire, Policy.Checksum, FromBigEndian;
    var v := body + checksum;
    assert v[..2] == body[..2] && v[|body|..] == checksum && v[..|body|] == body && v[3..|body|] == body[3..];
    JudgeIntact(p, v, later);
  }

  /** On every transport a frame with anything else in its checksum field is rejected. */
  lemma ChecksumCorruptionRejected(p: Policy, f: Frame, checksum: seq<byte>, later: seq<byte>)
    requires Encodable(p, f) && |checksum| == 2 && checksum != Wire(p.Checksum(Body(f)))
    ensures var altered := Arrives(Body(f), checksum, later); SyncAt(altered, 0) && Judge(p, altered).Reject?
  {
    hide Wire, Policy.Checksum, FromBigEndian;
    BodyLength(f);
    ArrivesExactly(p, Body(f), checksum, later);
  }

  /** A body altered in one byte after the length field, under the original checksum field. */
  lemma AlteredExactly(f: Frame, at: nat, y: byte, later: seq<byte>)
    requires Encodable(ControllerUart, f) && 2 <= at < |Body(f)|
    ensures var body, altered := Body(f), Encoded(ControllerUart, f)[2 + at := y] + later;
            && SyncAt(altered, 0)
            && (Judge(ControllerUart, altered).Accept? <==>
                ControllerUart.Checksum(body) == ControllerUart.Checksum(body[at := y]))
            && (Judge(ControllerUart, altered).Accept? ==>
                Judge(ControllerUart, altered) == Accept(Frame(body[at := y][2], body[at := y][3..]), |body| + 6))
  {
    hide Wire, Policy.Checksum, FromBigEndian;
    var body := Body(f);
    var wire := Wire(ControllerUart.Checksum(body));
    BodyLength(f);
    EncodedArrives(ControllerUart, f, []);
    assert Encoded(ControllerUart, f) == SYNC + (body + wire) + TAIL;
    assert Encoded(ControllerUart, f)[2 + at := y] + later == Arrives(body[at := y], wire, later);
    assert body[at := y][..2] == body[..2];
    ArrivesExactly(ControllerUart, body[at := y], wire, later);
    WireInjective(ControllerUart.Checksum(body), ControllerUart.Checksum(body[at := y]));
  }

  /** The two runs of the firmware-family checksum over a body and the same body altered at one byte meet. */
  predicate Misses(body: seq<byte>, at: nat, y: byte)
    requires at < |body|
  {
    var crc := Update(body[..at]);
    Confused(crc, body[at], crc, y) ||
    Confuses(UpdateAbsorb(crc, body[at]), UpdateAbsorb(crc, y), body[at + 1..])
  }

  /**
   A firmware-family frame with one byte of type or payload altered within the family is accepted
   exactly when the two runs of its checksum meet.
   */
  lemma FirmwareCorruptionExactly(f: Frame, at: nat, y: byte, later: seq<byte>)
    requires Encodable(ControllerUart, f) && 2 <= at < |Body(f)| && y != Body(f)[at]
    requires FirmwareType(f.kind) && FirmwareType(Body(f)[at := y][2])
    ensures var altered := Encoded(ControllerUart, f)[2 + at := y] + later;
            SyncAt(altered, 0) && (Judge(ControllerUart, altered).Accept? <==> Misses(Body(f), at, y))
  {
    hide Update, Judge, Confused, Confuses, Encoded, UpdateAbsorb;
    var body := Body(f);
    var prefix, suffix := body[..at], body[at + 1..];
    AlteredExactly(f, at, y, later);
    BodyLength(f);
    assert body == prefix + [body[at]] + suffix && body[at := y] == prefix + [y] + suffix;
    UpdateMissesSingleByte(prefix, body[at], y, suffix);
  }

  /** Length, type and the first part of a payload of which `rest` bytes follow. */
  function Head(kind: byte, before: seq<byte>, rest: nat): seq<byte>
    requires |before| + rest + 3 <= 0xFFFF
  {
    assert Range(2) == 0x1_0000;
    BigEndian(|before| + rest + 3, 2) + [kind] + before
  }

  lemma BodyAround(kind: byte, before: seq<byte>, x: byte, after: seq<byte>)
    requires |before| + |after| + 4 <= 0xFFFF
    ensures Body(Frame(kind, before + [x] + after)) == Head(kind, before, |after| + 1) + [x] + after
  {
  }

  lemma EncodedAround(f: Frame, head: seq<byte>, x: byte, after: seq<byte>, y: byte)
    requires Encodable(ControllerUart, f) && FirmwareType(f.kind) && Body(f) == head + [x] + after
    ensures Encoded(ControllerUart, f)[2 + |head| := y] ==
            SYNC + (head + [y] + after) + Wire(Update(head + [x] + after)) + TAIL
  {
    hide Update, Wire, Body;
    BodyLength(f);
    EncodedArrives(ControllerUart, f, []);
  }

  /** Whatever the type in the family and the payload around it, some payload byte can change unnoticed. */
  lemma FirmwareErrorUnnoticed(kind: byte, before: seq<byte>, after: seq<byte>) returns (x: byte, y: byte)
    requires FirmwareType(kind) && |before| + |after| + 10 <= 528
    ensures var good, bad := Frame(kind, before + [x] + after), Frame(kind, before + [y] + after);
            x != y && Encoded(ControllerUart, good)[5 + |before| := y] == Encoded(ControllerUart, bad)
  {
    hide Update, Wire, Encoded, Body;
    var head := Head(kind, before, |after| + 1);
    x, y := UpdateCollision(head, after);
    BodyAround(kind, before, x, after);
    BodyAround(kind, before, y, after);
    EncodedAround(Frame(kind, before + [x] + after), head, x, after, y);
    EncodedAround(Frame(kind, before + [y] + after), head, y, after, y);
    var bad := Encoded(ControllerUart, Frame(kind, before + [y] + after));
    assert bad[2 + |head|] == y;
    assert bad[2 + |head| := y] == bad;
  }
}
