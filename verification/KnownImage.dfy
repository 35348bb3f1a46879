/** The smallest image with data, byte for byte: one segment of one byte. */
module KnownImage {
  import opened Bits
  import opened Bytes
  import opened CrcTrace
  import opened ImageValidator

  /** Magic, one segment and 22 further header bytes. */
  const HEADER: seq<byte> := [0xE9, 1] + seq(22, i => 0)

  /** Load address and length, the latter low byte first. */
  const SEGMENT: seq<byte> := [0, 0, 0, 0, 1, 0, 0, 0]

  lemma LengthField()
    ensures FromLittleEndian([1, 0, 0, 0]) == 1
  {
    var rest: seq<byte> := [0, 0, 0];
    var two: seq<byte>, one: seq<byte> := [0, 0], [0];
    assert one[1..] == [] && two[1..] == one && rest[1..] == two;
    assert FromLittleEndian(one) == 0;
    assert FromLittleEndian(two) == 0;
    assert FromLittleEndian(rest) == 0;
    var field: seq<byte> := [1, 0, 0, 0];
    assert field[1..] == rest;
  }

  /** 0xEF, the seed, and 0x0F make 0xE0. */
  lemma Checksum()
    ensures Fold(0xEF, [0x0F]) == 0xE0
  {
    assert IsXor(0xEF, 0x0F, 0xE0);
    XorIs(0xEF, 0x0F, 0xE0);
    OctetInjective(XorByte(0xEF, 0x0F), 0xE0);
    var data: seq<byte> := [0x0F];
    assert data[1..] == [];
    assert Fold(XorByte(0xEF, 0x0F), []) == XorByte(0xEF, 0x0F);
  }

  /** The image is accepted with that checksum and with no other. */
  lemma KnownImageExactly(checksum: byte)
    ensures Accepts(HEADER + SEGMENT + [0x0F] + [checksum]) <==> checksum == 0xE0
  {
    hide Accepts, Fold, FromLittleEndian;
    var segments := [Segment(SEGMENT, [0x0F])];
    var rest: seq<Segment> := [];
    assert segments[1..] == rest;
    LengthField();
    assert SEGMENT[4..] == [1, 0, 0, 0];
    assert Layout(rest) == [] && Data(rest) == [];
    assert Layout(segments) == SEGMENT + [0x0F] && Data(segments) == [0x0F];
    Checksum();
    AcceptsAssembled(HEADER, segments, checksum, []);
    assert HEADER + SEGMENT + [0x0F] + [checksum] == Assemble(HEADER, segments, checksum, []);
  }

  /** At most sixteen segments, at least one, and the magic byte: an image that differs there is rejected. */
  lemma HeaderExactly(header: seq<byte>)
    requires |header| == 24
    ensures GoodHeader(header) <==> header[0] == 0xE9 && 1 <= header[1] <= 16
  {
  }
}
