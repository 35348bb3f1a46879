/**
 Type bytes altered into or out of the firmware family on the controller UART, where the decoder
 then applies the other checksum: which altered frames it still accepts.
 */
module UartFamilies {
  import opened Bytes
  import opened Bits
  import opened Crc
  import opened CrcTrace
  import opened FrameCodec
  import opened FrameStream
  import opened UartCorruption

  /** Of a body and the same body with its type altered across the family, the one in the family. */
  function InFamily(f: Frame, y: byte): (body: seq<byte>)
    requires Encodable(ControllerUart, f)
    ensures |body| == |f.payload| + 3
  {
    if FirmwareType(f.kind) then Body(f) else Body(f)[2 := y]
  }

  function OutOfFamily(f: Frame, y: byte): (body: seq<byte>)
    requires Encodable(ControllerUart, f)
    ensures |body| == |f.payload| + 3
  {
    if FirmwareType(f.kind) then Body(f)[2 := y] else Body(f)
  }

  /**
   An altered type that crosses the family is accepted exactly when the firmware-side body, with bit 4
   flipped where it hits a replaced table entry, and the other body have one host checksum.
   */
  lemma CrossedFamilyExactly(f: Frame, y: byte, later: seq<byte>)
    requires Encodable(ControllerUart, f) && FirmwareType(f.kind) != FirmwareType(y)
    ensures var altered := Encoded(ControllerUart, f)[4 := y] + later;
            && SyncAt(altered, 0)
            && (Judge(ControllerUart, altered).Accept? <==>
                Ccitt(Plain(InFamily(f, y))) == Ccitt(OutOfFamily(f, y)))
  {
    hide Update, Judge, Encoded, Ccitt, Plain;
    AlteredExactly(f, 2, y, later);
    BodyLength(f);
    UpdateIsCcittOfPlain(InFamily(f, y));
  }

  /** No byte of length field or payload hits a replaced table entry. */
  predicate OnlyTypeMayHit(body: seq<byte>) {
    forall i :: 0 <= i < |body| && i != 2 ==> !Hits(body, i)
  }

  lemma OneByteApart(body: seq<byte>, other: seq<byte>)
    requires |body| == |other| > 2 && other == body[2 := other[2]] && OnlyTypeMayHit(body)
    ensures Ccitt(Plain(body)) == Ccitt(other) <==>
            other[2] == if Hits(body, 2) then FlipBit4(body[2]) else body[2]
  {
    hide Ccitt, Hits;
    var plain := Plain(body);
    assert plain == body[..2] + [plain[2]] + body[3..];
    assert other == body[..2] + [other[2]] + body[3..];
    BurstDetected(body[..2], [plain[2]], [other[2]], body[3..]);
  }

  /** Then the crossing goes unnoticed for one single type: that of the other family at a hit. */
  lemma CrossedFamilyByType(f: Frame, y: byte, later: seq<byte>)
    requires Encodable(ControllerUart, f) && FirmwareType(f.kind) != FirmwareType(y)
    requires OnlyTypeMayHit(InFamily(f, y))
    ensures var altered := Encoded(ControllerUart, f)[4 := y] + later;
            && SyncAt(altered, 0)
            && (Judge(ControllerUart, altered).Accept? <==>
                Hits(InFamily(f, y), 2) && OutOfFamily(f, y)[2] == InFamily(f, y)[2] + 16)
  {
    hide Judge, Encoded, Ccitt, Hits, Plain, OnlyTypeMayHit;
    CrossedFamilyExactly(f, y, later);
    BodyLength(f);
    OneByteApart(InFamily(f, y), OutOfFamily(f, y));
  }

  // ----- Which data frames are at risk -----

  /** The register bits after the length field at which a firmware data type hits a replaced entry. */
  const DATA_HITS: bits := [false, false, true, false, false, true, false]

  lemma HitOctets()
    ensures Octet(0xC3) == [true, true, false, false, false, false, true, true]
    ensures Octet(0xE6) == [true, true, true, false, false, true, true, false]
    ensures Octet(0xE7) == [true, true, true, false, false, true, true, true]
  {
    hide Octet;
    OctetBits(0xC3);
    OctetBits(0xE6);
    OctetBits(0xE7);
    assert Eight(0xC3 / 16) && Four(0xC3 / 16) && !Two(0xC3 / 16) && !One(0xC3 / 16);
    assert !Eight(0xC3 % 16) && !Four(0xC3 % 16) && Two(0xC3 % 16) && One(0xC3 % 16);
    assert Eight(0xE6 / 16) && Four(0xE6 / 16) && Two(0xE6 / 16) && !One(0xE6 / 16);
    assert !Eight(0xE6 % 16) && Four(0xE6 % 16) && Two(0xE6 % 16) && !One(0xE6 % 16);
    assert Eight(0xE7 / 16) && Four(0xE7 / 16) && Two(0xE7 / 16) && !One(0xE7 / 16);
    assert !Eight(0xE7 % 16) && Four(0xE7 % 16) && Two(0xE7 % 16) && One(0xE7 % 16);
  }

  lemma DataHit(crc: Register)
    ensures Replaced(Index(crc, 0xC3)) <==> crc[..7] == DATA_HITS
  {
    hide Octet;
    var i := Index(crc, 0xC3);
    var e: bits := [true, true, true, false, false, true, true];
    HitOctets();
    assert Replaced(i) <==> forall k :: 0 <= k < 7 ==> i[k] == e[k];
    assert forall k :: 0 <= k < 7 ==> (i[k] == e[k] <==> crc[k] == DATA_HITS[k]);
    assert forall k :: 0 <= k < 7 ==> crc[..7][k] == crc[k];
  }

  lemma HighAfter(crc: Register, x: byte)
    ensures UpdateAbsorb(crc, x)[..7] == Xor(crc[8..15], Table(Alias(Index(crc, x)))[..7])
  {
    hide Table, Alias, Index;
    UpdateTableIsAliased(Index(crc, x));
  }

  /** Two table entries with the same first seven bits have indices that differ in their first bit. */
  lemma SameHighBits(i: bits, j: bits)
    requires |i| == |j| == 8 && i[0] == j[0]
    ensures Table(i)[..7] == Table(j)[..7] <==> i == j
  {
    hide Table;
    TableHighBits(i);
    TableHighBits(j);
    if Table(i)[..7] == Table(j)[..7] {
      forall k | 0 <= k < 7 ensures Table(i)[k] == Table(j)[k] { assert Table(i)[..7][k] == Table(j)[..7][k]; }
    }
  }

  /** From a register with low half `low`, table index `i` leads to such bits. */
  predicate LeadsToHit(low: byte, i: byte) {
    var a, b := i / 16, i % 16;
    && Eight(low / 16) == (Eight(b) != Eight(a))
    && Four(low / 16) == (Four(b) != Four(a))
    && Two(low / 16) != (Two(b) != Two(a))
    && One(low / 16) == (Eight(a) != (One(b) != One(a)))
    && Eight(low % 16) == Four(a)
    && Four(low % 16) != Two(a)
    && Two(low % 16) == One(a)
  }

  lemma LedToHit(low: byte, i: byte)
    requires LeadsToHit(low, i)
    ensures Xor(Octet(low)[..7], Table(Octet(i))[..7]) == DATA_HITS
  {
    hide Octet, Eight, Four, Two, One, Table;
    OctetBits(low);
    OctetBits(i);
    TableHighBits(Octet(i));
  }

  /** The two table indices that lead to a hit. */
  lemma IndexHits(crc: Register, high: byte, low: byte, x: byte, m: byte, n: byte)
    requires Holds(crc, high, low) && LeadsToHit(low, m) && LeadsToHit(low, n) && Eight(m / 16) != Eight(n / 16)
    ensures Replaced(Index(UpdateAbsorb(crc, x), 0xC3)) <==> Alias(Index(crc, x)) in {Octet(m), Octet(n)}
  {
    hide Octet, Eight, Four, Two, One, Table, Alias, Index, UpdateAbsorb, LeadsToHit, Replaced;
    var i := Alias(Index(crc, x));
    DataHit(UpdateAbsorb(crc, x));
    HighAfter(crc, x);
    LedToHit(low, m);
    LedToHit(low, n);
    OctetBits(m);
    OctetBits(n);
    assert crc[8..15] == Octet(low)[..7];
    if i[0] == Octet(m)[0] { HitsAlike(Octet(low)[..7], i, Octet(m)); }
    if i[0] == Octet(n)[0] { HitsAlike(Octet(low)[..7], i, Octet(n)); }
  }

  lemma HitsAlike(low: bits, i: bits, j: bits)
    requires |low| == 7 && |i| == |j| == 8 && i[0] == j[0] && Xor(low, Table(j)[..7]) == DATA_HITS
    ensures Xor(low, Table(i)[..7]) == DATA_HITS <==> i == j
  {
    hide Table;
    SameHighBits(i, j);
    XorCommute(low, Table(i)[..7]);
    XorCommute(low, Table(j)[..7]);
    if Xor(low, Table(i)[..7]) == DATA_HITS { XorInjective(Table(i)[..7], Table(j)[..7], low); }
  }

  lemma AliasedIndexIs(crc: Register, high: byte, low: byte, x: byte, y: byte, n: byte)
    requires Holds(crc, high, low) && IsXor(high, y, n) && n !in {0xE6, 0xE7, 0xF6, 0xF7}
    ensures Alias(Index(crc, x)) == Octet(n) <==> x == y
  {
    hide Octet, IsXor;
    XorIs(high, y, n);
    SameIndex(crc, x, y);
    OctetInjective(n, 0xE6);
    OctetInjective(n, 0xE7);
    OctetInjective(n, 0xF6);
    OctetInjective(n, 0xF7);
  }

  lemma FirstSteps()
    ensures IsXor(0, 0, 0) && IsXor(0, 1, 1) && IsXor(0, 2, 2) && IsXor(0x10, 0, 0x10) && IsXor(0x20, 0, 0x20)
    ensures LooksUp(0, 0, 0, 0) && LooksUp(0, 1, 0x10, 0x21) && LooksUp(0, 2, 0x20, 0x42)
  {
  }

  /** The register after the first length byte: the length is less than 0x300. */
  lemma AfterFirst(high: byte)
    requires high < 3
    ensures Holds(Update([high]), 0x10 * high, 0x21 * high)
  {
    hide IsXor, LooksUp, Holds, Update;
    FirstSteps();
    var trace := [Step(0, 0, high, high), Step(0x10 * high, 0x21 * high, 0, 0x10 * high)];
    TraceHolds(trace, 1);
    assert Message(trace)[..1] == [high];
  }

  /** The second length bytes after which a firmware data type hits a replaced entry. */
  lemma LowBytes(high: byte, x: byte, m: byte, n: byte, y: byte, z: byte)
    requires high < 3 && LeadsToHit(0x21 * high, m) && LeadsToHit(0x21 * high, n) && Eight(m / 16) != Eight(n / 16)
    requires m !in {0xE6, 0xE7, 0xF6, 0xF7} && n !in {0xE6, 0xE7, 0xF6, 0xF7}
    requires IsXor(0x10 * high, y, m) && IsXor(0x10 * high, z, n)
    ensures Replaced(Index(UpdateAbsorb(Update([high]), x), 0xC3)) <==> x == y || x == z
  {
    hide Octet, Eight, Four, Two, One, Alias, Index, UpdateAbsorb, Update, LeadsToHit, Replaced, IsXor, Holds;
    var crc := Update([high]);
    AfterFirst(high);
    IndexHits(crc, 0x10 * high, 0x21 * high, x, m, n);
    AliasedIndexIs(crc, 0x10 * high, 0x21 * high, x, y, m);
    AliasedIndexIs(crc, 0x10 * high, 0x21 * high, x, z, n);
  }

  lemma LeadingIndices()
    ensures LeadsToHit(0, 0x20) && LeadsToHit(0, 0xA9) && !Eight(0x20 / 16) && Eight(0xA9 / 16)
    ensures LeadsToHit(0x21, 0x22) && LeadsToHit(0x21, 0xAB) && !Eight(0x22 / 16) && Eight(0xAB / 16)
    ensures LeadsToHit(0x42, 0x35) && LeadsToHit(0x42, 0xBC) && !Eight(0x35 / 16) && Eight(0xBC / 16)
  {
  }

  lemma LeadingLengths()
    ensures IsXor(0, 0x20, 0x20) && IsXor(0, 0xA9, 0xA9)
    ensures IsXor(0x10, 0x32, 0x22) && IsXor(0x10, 0xBB, 0xAB)
    ensures IsXor(0x20, 0x15, 0x35) && IsXor(0x20, 0x9C, 0xBC)
  {
  }

  lemma DataLengths(high: byte, x: byte)
    requires high < 3
    ensures Replaced(Index(UpdateAbsorb(Update([high]), x), 0xC3)) <==>
            (high == 0 && x in {0x20, 0xA9}) || (high == 1 && x in {0x32, 0xBB}) || (high == 2 && x in {0x15, 0x9C})
  {
    hide Octet, Index, UpdateAbsorb, Update, Replaced, LeadsToHit, IsXor, Eight, Four, Two, One;
    LeadingIndices();
    LeadingLengths();
    if high == 0 {
      LowBytes(0, x, 0x20, 0xA9, 0x20, 0xA9);
    } else if high == 1 {
      LowBytes(1, x, 0x22, 0xAB, 0x32, 0xBB);
    } else {
      LowBytes(2, x, 0x35, 0xBC, 0x15, 0x9C);
    }
  }

  lemma LengthField(n: nat)
    requires n < 0x1_0000
    ensures Range(2) == 0x1_0000 && BigEndian(n, 2) == [n / 256, n % 256]
  {
    assert Range(2) == 0x1_0000 && Range(1) == 256;
    assert BigEndian(n / 256, 1) == [n / 256];
  }

  /** A firmware data type hits a replaced entry at four payload lengths, whatever the payload. */
  lemma DataHitsExactly(f: Frame)
    requires Encodable(ControllerUart, f) && f.kind == 0xC3
    ensures Hits(Body(f), 2) <==> |f.payload| in {29, 166, 303, 440}
  {
    hide Update, UpdateAbsorb, Replaced, Index;
    var body, n := Body(f), |f.payload| + 3;
    BodyLength(f);
    LengthField(n);
    UpdateNext(body, 1);
    assert body[..2] == [n / 256, n % 256] && body[..1] == [n / 256];
    DataLengths(n / 256, n % 256);
  }

  /** So only data frames of those lengths can cross unnoticed, and only between 0xC3 and 0xD3. */
  lemma DataCrossesExactly(f: Frame, y: byte, later: seq<byte>)
    requires Encodable(ControllerUart, f) && FirmwareType(f.kind) != FirmwareType(y)
    requires (f.kind == 0xC3 || y == 0xC3) && OnlyTypeMayHit(InFamily(f, y))
    ensures var altered := Encoded(ControllerUart, f)[4 := y] + later;
            && SyncAt(altered, 0)
            && (Judge(ControllerUart, altered).Accept? <==>
                (f.kind == 0xD3 || y == 0xD3) && |f.payload| in {29, 166, 303, 440})
  {
    hide Judge, Encoded, Hits, OnlyTypeMayHit, InFamily, OutOfFamily;
    CrossedFamilyByType(f, y, later);
    DataSides(f, y);
    DataHitsExactly(Frame(0xC3, f.payload));
  }

  lemma DataSides(f: Frame, y: byte)
    requires Encodable(ControllerUart, f) && FirmwareType(f.kind) != FirmwareType(y)
    requires f.kind == 0xC3 || y == 0xC3
    ensures InFamily(f, y) == Body(Frame(0xC3, f.payload)) && InFamily(f, y)[2] == 0xC3
    ensures OutOfFamily(f, y)[2] == if f.kind == 0xC3 then y else f.kind
  {
    BodyLength(f);
    BodyLength(Frame(0xC3, f.payload));
  }
}
