/** Structural validation of a mainboard image: header, segments and exclusive-or checksum. */
module ImageValidator {
  import opened Bits
  import opened Bytes

  /** Sizes and fields of the ESP application image format. */
  const HEADER_SIZE: nat := 24
  const SEGMENT_HEADER_SIZE: nat := 8
  const IMAGE_MAGIC: byte := 0xE9
  const MAXIMUM_SEGMENTS: nat := 16
  const CHECKSUM_SEED: byte := 0xEF

  // ----- The checksum -----

  function XorByte(a: byte, b: byte): byte { OctetValue(Xor(Octet(a), Octet(b))) }

  function Fold(checksum: byte, data: seq<byte>): byte
    decreases |data|
  {
    if data == [] then checksum else Fold(XorByte(checksum, data[0]), data[1..])
  }

  lemma XorByteInjective(a: byte, b: byte, c: byte)
    ensures XorByte(a, c) == XorByte(b, c) <==> a == b
    ensures XorByte(c, a) == XorByte(c, b) <==> a == b
  {
    OctetInjective(a, b);
    if XorByte(a, c) == XorByte(b, c) { XorInjective(Octet(a), Octet(b), Octet(c)); }
    assert Xor(Octet(c), Octet(a)) == Xor(Octet(a), Octet(c));
    assert Xor(Octet(c), Octet(b)) == Xor(Octet(b), Octet(c));
    if XorByte(c, a) == XorByte(c, b) { XorInjective(Octet(a), Octet(b), Octet(c)); }
  }

  /** Exclusive-or of bytes is that of their bits; it is its own inverse. */
  lemma XorByteBits(a: byte, b: byte)
    ensures forall k :: 0 <= k < 8 ==> Octet(XorByte(a, b))[k] == (Octet(a)[k] != Octet(b)[k])
    ensures XorByte(XorByte(a, b), b) == a && XorByte(a, b) == XorByte(b, a)
  {
    hide Octet;
    assert Octet(XorByte(XorByte(a, b), b)) == Octet(a);
    OctetInjective(XorByte(XorByte(a, b), b), a);
    assert Octet(XorByte(a, b)) == Octet(XorByte(b, a));
    OctetInjective(XorByte(a, b), XorByte(b, a));
  }

  /** Whether an odd number of bytes has bit `k` set, counted from the most significant bit. */
  predicate Odd(data: seq<byte>, k: nat)
    requires k < 8
  {
    data != [] && Octet(data[0])[k] != Odd(data[1..], k)
  }

  /** Every bit of the checksum is the parity of that bit over seed and data, in whatever order the data comes. */
  lemma {:induction false} FoldIsParity(checksum: byte, data: seq<byte>, k: nat)
    requires k < 8
    ensures Octet(Fold(checksum, data))[k] == (Octet(checksum)[k] != Odd(data, k))
    decreases |data|
  {
    hide XorByte, Octet;
    if data != [] {
      XorByteBits(checksum, data[0]);
      FoldIsParity(XorByte(checksum, data[0]), data[1..], k);
    }
  }

  lemma {:induction false} FoldAppend(checksum: byte, a: seq<byte>, b: seq<byte>)
    ensures Fold(checksum, a + b) == Fold(Fold(checksum, a), b)
    decreases |a|
  {
    hide XorByte;
    if a == [] {
      assert a + b == b;
    } else {
      assert (a + b)[1..] == a[1..] + b;
      FoldAppend(XorByte(checksum, a[0]), a[1..], b);
    }
  }

  lemma {:induction false} FoldInjective(c: byte, d: byte, data: seq<byte>)
    ensures Fold(c, data) == Fold(d, data) <==> c == d
    decreases |data|
  {
    hide XorByte;
    if data != [] {
      XorByteInjective(c, d, data[0]);
      FoldInjective(XorByte(c, data[0]), XorByte(d, data[0]), data[1..]);
    }
  }

  /** The checksum changes with any single byte. */
  lemma FoldDetects(checksum: byte, data: seq<byte>, j: nat, b: byte)
    requires j < |data|
    ensures Fold(checksum, data[j := b]) == Fold(checksum, data) <==> b == data[j]
  {
    hide XorByte, Fold;
    var before, after := data[..j], data[j + 1..];
    assert data == before + ([data[j]] + after) && data[j := b] == before + ([b] + after);
    var c := Fold(checksum, before);
    FoldAppend(checksum, before, [data[j]] + after);
    FoldAppend(checksum, before, [b] + after);
    FoldFirst(c, data[j], after);
    FoldFirst(c, b, after);
    XorByteInjective(b, data[j], c);
    FoldInjective(XorByte(c, b), XorByte(c, data[j]), after);
  }

  lemma FoldFirst(checksum: byte, b: byte, after: seq<byte>)
    ensures Fold(checksum, [b] + after) == Fold(XorByte(checksum, b), after)
  {
    assert ([b] + after)[1..] == after;
  }

  // ----- The image format -----

  datatype Segment = Segment(header: seq<byte>, data: seq<byte>)

  /** The header's last four bytes hold the length of the data. */
  predicate WellSized(s: Segment) {
    |s.header| == SEGMENT_HEADER_SIZE && FromLittleEndian(s.header[4..]) == |s.data|
  }

  predicate AllWellSized(segments: seq<Segment>) { forall i :: 0 <= i < |segments| ==> WellSized(segments[i]) }

  function Layout(segments: seq<Segment>): seq<byte> {
    if segments == [] then [] else segments[0].header + segments[0].data + Layout(segments[1..])
  }

  function Data(segments: seq<Segment>): seq<byte> {
    if segments == [] then [] else segments[0].data + Data(segments[1..])
  }

  predicate GoodHeader(header: seq<byte>) {
    |header| == HEADER_SIZE && header[0] == IMAGE_MAGIC && 1 <= header[1] <= MAXIMUM_SEGMENTS
  }

  /** An image made of a header, as many segments as it declares, their checksum and a trailer. */
  function Assemble(header: seq<byte>, segments: seq<Segment>, checksum: byte, trailer: seq<byte>): seq<byte> {
    header + Layout(segments) + [checksum] + trailer
  }

  predicate Composed(image: seq<byte>, header: seq<byte>, segments: seq<Segment>, trailer: seq<byte>) {
    && GoodHeader(header) && |segments| == header[1] && AllWellSized(segments)
    && image == Assemble(header, segments, Fold(CHECKSUM_SEED, Data(segments)), trailer)
  }

  ghost predicate WellFormed(image: seq<byte>) {
    exists header, segments, trailer :: Composed(image, header, segments, trailer)
  }

  // ----- Scanning -----

  datatype Scanned = Scanned(rest: seq<byte>, checksum: byte)

  /** Consumes `count` segments from the front and accumulates the checksum of their data. */
  function Scan(s: seq<byte>, count: nat, checksum: byte): Option<Scanned> {
    if count == 0 then Some(Scanned(s, checksum))
    else if |s| < SEGMENT_HEADER_SIZE then None
    else
      var length := FromLittleEndian(s[4..8]);
      if length > |s| - SEGMENT_HEADER_SIZE then None
      else
        var end := SEGMENT_HEADER_SIZE + length;
        Scan(s[end..], count - 1, Fold(checksum, s[SEGMENT_HEADER_SIZE..end]))
  }

  predicate Accepts(image: seq<byte>) {
    |image| >= HEADER_SIZE && GoodHeader(image[..HEADER_SIZE]) &&
    var r := Scan(image[HEADER_SIZE..], image[1], CHECKSUM_SEED);
    r.Some? && r.value.rest != [] && r.value.rest[0] == r.value.checksum
  }

  /** Laid out segments are scanned as such, whatever follows. */
  lemma {:induction false} ScanLayout(segments: seq<Segment>, rest: seq<byte>, checksum: byte)
    requires AllWellSized(segments)
    ensures Scan(Layout(segments) + rest, |segments|, checksum) == Some(Scanned(rest, Fold(checksum, Data(segments))))
    decreases |segments|
  {
    hide Fold, FromLittleEndian;
    if segments == [] {
      assert Layout(segments) + rest == rest;
      FoldNothing(checksum);
    } else {
      var first := segments[0];
      var tail := Layout(segments[1..]) + rest;
      var s := Layout(segments) + rest;
      assert WellSized(first);
      assert s == first.header + first.data + tail;
      assert s[4..8] == first.header[4..];
      assert s[8..8 + |first.data|] == first.data && s[8 + |first.data|..] == tail;
      FoldAppend(checksum, first.data, Data(segments[1..]));
      ScanLayout(segments[1..], rest, Fold(checksum, first.data));
    }
  }

  lemma FoldNothing(checksum: byte)
    ensures Fold(checksum, []) == checksum
  {
  }

  /** Whatever is scanned is laid out. */
  lemma {:induction false} ScanIsLayout(s: seq<byte>, count: nat, checksum: byte) returns (segments: seq<Segment>)
    requires Scan(s, count, checksum).Some?
    ensures AllWellSized(segments) && |segments| == count
    ensures s == Layout(segments) + Scan(s, count, checksum).value.rest
    decreases count
  {
    hide Fold, FromLittleEndian;
    if count == 0 {
      segments := [];
    } else {
      var end := SEGMENT_HEADER_SIZE + FromLittleEndian(s[4..8]);
      var first := Segment(s[..8], s[8..end]);
      assert first.header[4..] == s[4..8];
      var more := ScanIsLayout(s[end..], count - 1, Fold(checksum, s[8..end]));
      segments := [first] + more;
      assert segments[1..] == more;
      assert s == first.header + first.data + s[end..];
    }
  }

  /**
   The validator accepts exactly the images that decompose as a header, the declared number of
   in-bounds segments, the seeded exclusive-or of all segment data, and anything after it.
   */
  lemma AcceptsExactly(image: seq<byte>)
    ensures Accepts(image) <==> WellFormed(image)
  {
    if Accepts(image) { AcceptedIsComposed(image); }
    forall header, segments, trailer | Composed(image, header, segments, trailer) ensures Accepts(image) {
      AcceptsAssembled(header, segments, Fold(CHECKSUM_SEED, Data(segments)), trailer);
    }
  }

  lemma AcceptedIsComposed(image: seq<byte>)
    requires Accepts(image)
    ensures WellFormed(image)
  {
    hide Fold, Scan, AllWellSized;
    var header, body := image[..HEADER_SIZE], image[HEADER_SIZE..];
    var r := Scan(body, image[1], CHECKSUM_SEED).value;
    var segments := ScanIsLayout(body, image[1], CHECKSUM_SEED);
    ScanLayout(segments, r.rest, CHECKSUM_SEED);
    var trailer := r.rest[1..];
    assert image == header + (Layout(segments) + ([r.rest[0]] + trailer));
    assert image == Assemble(header, segments, r.checksum, trailer);
    assert Composed(image, header, segments, trailer);
  }

  lemma AcceptsAssembled(header: seq<byte>, segments: seq<Segment>, checksum: byte, trailer: seq<byte>)
    requires GoodHeader(header) && |segments| == header[1] && AllWellSized(segments)
    ensures Accepts(Assemble(header, segments, checksum, trailer)) <==>
            checksum == Fold(CHECKSUM_SEED, Data(segments))
  {
    hide Fold, Scan, AllWellSized;
    var image := Assemble(header, segments, checksum, trailer);
    assert image[..HEADER_SIZE] == header;
    assert image[HEADER_SIZE..] == Layout(segments) + ([checksum] + trailer);
    ScanLayout(segments, [checksum] + trailer, CHECKSUM_SEED);
  }

  // ----- One changed byte -----

  /** Where byte j of the data of segment i lies, counted from the first segment. */
  function Position(segments: seq<Segment>, i: nat, j: nat): nat
    requires i < |segments| && j < |segments[i].data|
  {
    if i == 0 then |segments[0].header| + j
    else |segments[0].header| + |segments[0].data| + Position(segments[1..], i - 1, j)
  }

  function Changed(segments: seq<Segment>, i: nat, j: nat, b: byte): seq<Segment>
    requires i < |segments| && j < |segments[i].data|
  {
    segments[i := segments[i].(data := segments[i].data[j := b])]
  }

  lemma {:induction false} ChangedLayout(segments: seq<Segment>, i: nat, j: nat, b: byte)
    requires i < |segments| && j < |segments[i].data|
    ensures Position(segments, i, j) < |Layout(segments)|
    ensures Layout(Changed(segments, i, j, b)) == Layout(segments)[Position(segments, i, j) := b]
  {
    var changed := Changed(segments, i, j, b);
    if i == 0 {
      assert changed[1..] == segments[1..];
    } else {
      assert changed[1..] == Changed(segments[1..], i - 1, j, b);
      ChangedLayout(segments[1..], i - 1, j, b);
    }
  }

  lemma {:induction false} ChangedData(segments: seq<Segment>, i: nat, j: nat, b: byte, checksum: byte)
    requires i < |segments| && j < |segments[i].data|
    ensures Fold(checksum, Data(Changed(segments, i, j, b))) == Fold(checksum, Data(segments)) <==>
            b == segments[i].data[j]
  {
    hide Fold;
    var changed := Changed(segments, i, j, b);
    var first, rest := segments[0].data, Data(segments[1..]);
    FoldAppend(checksum, first, rest);
    if i == 0 {
      assert changed[1..] == segments[1..];
      FoldAppend(checksum, first[j := b], rest);
      FoldDetects(checksum, first, j, b);
      FoldInjective(Fold(checksum, first[j := b]), Fold(checksum, first), rest);
    } else {
      assert changed[1..] == Changed(segments[1..], i - 1, j, b);
      FoldAppend(checksum, first, Data(changed[1..]));
      ChangedData(segments[1..], i - 1, j, b, Fold(checksum, first));
    }
  }

  /** Changing any one byte of segment data of an accepted image makes it rejected. */
  lemma OneChangeRejected(image: seq<byte>, header: seq<byte>, segments: seq<Segment>, trailer: seq<byte>,
                          i: nat, j: nat, b: byte)
    requires Composed(image, header, segments, trailer)
    requires i < |segments| && j < |segments[i].data|
    ensures HEADER_SIZE + Position(segments, i, j) < |image|
    ensures image[HEADER_SIZE + Position(segments, i, j)] == segments[i].data[j]
    ensures Accepts(image[HEADER_SIZE + Position(segments, i, j) := b]) <==> b == segments[i].data[j]
  {
    hide Fold, Accepts, Layout, Position, AllWellSized;
    var checksum := Fold(CHECKSUM_SEED, Data(segments));
    var changed := Changed(segments, i, j, b);
    var at := Position(segments, i, j);
    ChangedLayout(segments, i, j, b);
    ChangedData(segments, i, j, b, CHECKSUM_SEED);
    ChangedIsWellSized(segments, i, j, b);
    AcceptsAssembled(header, changed, checksum, trailer);
    assert image[HEADER_SIZE + at := b] == Assemble(header, changed, checksum, trailer);
    ChangedLayout(segments, i, j, segments[i].data[j]);
    var kept := segments[i].data[j := segments[i].data[j]];
    assert kept == segments[i].data;
    assert Changed(segments, i, j, segments[i].data[j]) == segments;
  }

  lemma ChangedIsWellSized(segments: seq<Segment>, i: nat, j: nat, b: byte)
    requires i < |segments| && j < |segments[i].data| && AllWellSized(segments)
    ensures AllWellSized(Changed(segments, i, j, b))
  {
  }

  // ----- The validator -----

  method ValidMainboardImage(image: seq<byte>) returns (ok: bool)
    ensures ok <==> WellFormed(image)
  {
    hide WellFormed, Fold, FromLittleEndian;
    AcceptsExactly(image);
    if |image| < HEADER_SIZE { return false; }
    if image[0] != IMAGE_MAGIC || image[1] == 0 || image[1] > MAXIMUM_SEGMENTS { return false; }
    var offset := HEADER_SIZE;
    var checksum := CHECKSUM_SEED;
    ghost var whole := Scan(image[HEADER_SIZE..], image[1], CHECKSUM_SEED);
    for index := 0 to image[1]
      invariant HEADER_SIZE <= offset <= |image|
      invariant Scan(image[offset..], image[1] - index, checksum) == whole
    {
      if SEGMENT_HEADER_SIZE > |image| - offset { return false; }
      ghost var s := image[offset..];
      var length := FromLittleEndian(image[offset + 4..offset + 8]);
      assert s[4..8] == image[offset + 4..offset + 8];
      offset := offset + SEGMENT_HEADER_SIZE;
      if length > |image| - offset { return false; }
      ghost var data := image[offset..offset + length];
      ghost var before := checksum;
      assert s[8..8 + length] == data && s[8 + length..] == image[offset + length..];
      checksum := FoldData(image, offset, length, checksum);
      offset := offset + length;
    }
    assert whole == Some(Scanned(image[offset..], checksum));
    return offset < |image| && image[offset] == checksum;
  }

  /** The inner loop: folds the data of one segment into the checksum. */
  method FoldData(image: seq<byte>, offset: nat, length: nat, seed: byte) returns (checksum: byte)
    requires offset + length <= |image|
    ensures checksum == Fold(seed, image[offset..offset + length])
  {
    hide XorByte;
    checksum := seed;
    ghost var data := image[offset..offset + length];
    for index := 0 to length
      invariant Fold(checksum, data[index..]) == Fold(seed, data)
    {
      assert data[index..][1..] == data[index + 1..];
      checksum := XorByte(checksum, image[offset + index]);
    }
  }
}
