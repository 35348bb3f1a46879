/** Packet families, operations and payload codecs common to the three controller transfers. */
module ControllerTransfer {
  import opened Bytes
  import opened FrameCodec

  const FIRMWARE_FAMILY: byte := 0xC0
  const CONFIGURATION_FAMILY: byte := 0xD0
  const FACTORY_FAMILY: byte := 0xE0
  const CHUNK_SIZE: nat := 255
  const FRAME_DATA_SIZE: nat := 512

  datatype Operation = Start | Geometry | Data | Complete | Cancel | Unknown

  function OperationOf(kind: byte): Operation {
    match kind % 16
    case 1 => Start
    case 2 => Geometry
    case 3 => Data
    case 4 => Complete
    case 5 => Cancel
    case _ => Unknown
  }

  function OperationCode(op: Operation): (code: nat)
    ensures code < 16
  {
    match op
    case Start => 1
    case Geometry => 2
    case Data => 3
    case Complete => 4
    case Cancel => 5
    case Unknown => 0xF
  }

  function FamilyOf(kind: byte): nat { kind / 16 * 16 }

  /** A packet of a transfer family: family in the high half byte, operation in the low one. */
  function Packet(family: byte, op: Operation, payload: seq<byte>): (f: Frame)
    ensures OperationOf(f.kind) == op && FamilyOf(f.kind) == FamilyOf(family)
  {
    Frame(family / 16 * 16 + OperationCode(op), payload)
  }

  datatype GeometryFields = GeometryFields(frameCount: nat, frameDataSize: nat)

  /** The first six payload bytes: a 32-bit frame count and a 16-bit block size. */
  function ParseGeometry(payload: seq<byte>): (g: Option<GeometryFields>)
    ensures g.Some? <==> |payload| >= 6
    ensures g.Some? ==> g.value.frameCount < TWO_TO_THE_32 && g.value.frameDataSize < 0x1_0000
  {
    if |payload| < 6 then None
    else
      BigEndianCanonical(payload[..4]);
      BigEndianCanonical(payload[4..6]);
      assert Range(4) == TWO_TO_THE_32 && Range(2) == 0x1_0000;
      Some(GeometryFields(FromBigEndian(payload[..4]), FromBigEndian(payload[4..6])))
  }

  function EncodeGeometry(frameCount: nat, frameDataSize: nat): (payload: seq<byte>)
    requires frameCount < TWO_TO_THE_32 && frameDataSize < 0x1_0000
    ensures |payload| == 6
    ensures ParseGeometry(payload) == Some(GeometryFields(frameCount, frameDataSize))
  {
    assert Range(4) == TWO_TO_THE_32 && Range(2) == 0x1_0000;
    BigEndianRoundTrip(frameCount, 4);
    BigEndianRoundTrip(frameDataSize, 2);
    var payload := BigEndian(frameCount, 4) + BigEndian(frameDataSize, 2);
    assert payload[..4] == BigEndian(frameCount, 4) && payload[4..6] == BigEndian(frameDataSize, 2);
    payload
  }

  datatype DataRequest = DataRequest(index: nat, wireIndex: seq<byte>)

  function ParseDataRequest(payload: seq<byte>): (r: Option<DataRequest>)
    ensures r.Some? <==> |payload| >= 4
    ensures r.Some? ==> r.value.index < TWO_TO_THE_32 && r.value.wireIndex == WireIndex(r.value.index)
  {
    if |payload| < 4 then None
    else
      BigEndianCanonical(payload[..4]);
      assert Range(4) == TWO_TO_THE_32;
      Some(DataRequest(FromBigEndian(payload[..4]), payload[..4]))
  }

  function WireIndex(index: nat): (wire: seq<byte>)
    requires index < TWO_TO_THE_32
    ensures |wire| == 4 && FromBigEndian(wire) == index
  {
    assert Range(4) == TWO_TO_THE_32;
    BigEndianRoundTrip(index, 4);
    BigEndian(index, 4)
  }

  lemma ParseWireIndex(index: nat, more: seq<byte>)
    requires index < TWO_TO_THE_32
    ensures ParseDataRequest(WireIndex(index) + more) == Some(DataRequest(index, WireIndex(index)))
  {
    assert (WireIndex(index) + more)[..4] == WireIndex(index);
  }
}
