/** The binary UART trace: the writer on the mainboard and the decoder on the host. */
module UartTrace {
  import opened Bytes

  const MAGIC: seq<byte> := [90, 49, 85, 84]
  const VERSION: byte := 1
  const HEADER_SIZE: nat := 20
  const MAXIMUM_TRACE_SIZE: nat := 4 * 1024 * 1024

  datatype Chunk = Chunk(direction: byte, timestamp: nat, sequence: nat, payload: seq<byte>)

  /** The fields fit their widths on the wire. */
  predicate Valid(c: Chunk) {
    |c.payload| < 0x1_0000 && c.timestamp < TWO_TO_THE_64 && c.sequence < TWO_TO_THE_32
  }

  // ----- The record format -----

  lemma Widths()
    ensures Range(2) == 0x1_0000 && Range(4) == TWO_TO_THE_32 && Range(8) == TWO_TO_THE_64
  {
    assert Range(4) == 256 * 256 * Range(2);
    assert Range(6) == 256 * 256 * Range(4);
    assert Range(8) == 256 * 256 * Range(6);
  }

  function Header(c: Chunk): (header: seq<byte>)
    requires Valid(c)
    ensures |header| == HEADER_SIZE
  {
    Widths();
    MAGIC + [VERSION, c.direction] + LittleEndian(|c.payload|, 2) + LittleEndian(c.timestamp, 8) +
    LittleEndian(c.sequence, 4)
  }

  function Encode(c: Chunk): seq<byte>
    requires Valid(c)
  {
    Header(c) + c.payload
  }

  predicate AllValid(chunks: seq<Chunk>) { forall i :: 0 <= i < |chunks| ==> Valid(chunks[i]) }

  function EncodeAll(chunks: seq<Chunk>): seq<byte>
    requires AllValid(chunks)
  {
    if chunks == [] then [] else Encode(chunks[0]) + EncodeAll(chunks[1..])
  }

  datatype Status = Complete | TruncatedHeader | InvalidHeader | TruncatedPayload

  /** The records printed and how the decoding ended. */
  datatype Decoded = Decoded(records: seq<Chunk>, status: Status)

  function ParseHeader(header: seq<byte>): (c: Chunk)
    requires |header| == HEADER_SIZE
  {
    Chunk(header[5], FromLittleEndian(header[8..16]), FromLittleEndian(header[16..20]), [])
  }

  function PayloadSize(header: seq<byte>): (n: nat)
    requires |header| == HEADER_SIZE
    ensures n < 0x1_0000
  {
    Widths();
    LittleEndianCanonical(header[6..8]);
    FromLittleEndian(header[6..8])
  }

  predicate GoodHeader(header: seq<byte>)
    requires |header| == HEADER_SIZE
  {
    header[..4] == MAGIC && header[4] == VERSION
  }

  /** The record at the front of a file, or why there is none. */
  datatype Front = Broken(status: Status) | Whole(chunk: Chunk, rest: seq<byte>)

  function ReadRecord(s: seq<byte>): (f: Front)
    ensures f.Whole? ==> |f.rest| < |s|
    ensures f.Broken? ==> f.status != Complete
  {
    if |s| < HEADER_SIZE then Broken(TruncatedHeader)
    else
      var header := s[..HEADER_SIZE];
      if !GoodHeader(header) then Broken(InvalidHeader)
      else
        var end := HEADER_SIZE + PayloadSize(header);
        if |s| < end then Broken(TruncatedPayload)
        else Whole(ParseHeader(header).(payload := s[HEADER_SIZE..end]), s[end..])
  }

  function Decode(s: seq<byte>): Decoded
    decreases |s|
  {
    if s == [] then Decoded([], Complete)
    else
      match ReadRecord(s)
      case Broken(status) => Decoded([], status)
      case Whole(chunk, rest) =>
        var later := Decode(rest);
        Decoded([chunk] + later.records, later.status)
  }

  // ----- Round trip -----

  lemma Fields(magic: seq<byte>, two: seq<byte>, size: seq<byte>, time: seq<byte>, sequence: seq<byte>)
    requires |magic| == 4 && |two| == 2 && |size| == 2 && |time| == 8 && |sequence| == 4
    ensures var h := magic + two + size + time + sequence;
            h[..4] == magic && h[4..6] == two && h[6..8] == size && h[8..16] == time && h[16..20] == sequence
  {
  }

  lemma HeaderRoundTrip(c: Chunk)
    requires Valid(c)
    ensures GoodHeader(Header(c)) && PayloadSize(Header(c)) == |c.payload|
    ensures ParseHeader(Header(c)) == c.(payload := [])
  {
    hide LittleEndian, FromLittleEndian, Range;
    Widths();
    LittleEndianRoundTrip(|c.payload|, 2);
    LittleEndianRoundTrip(c.timestamp, 8);
    LittleEndianRoundTrip(c.sequence, 4);
    Fields(MAGIC, [VERSION, c.direction], LittleEndian(|c.payload|, 2), LittleEndian(c.timestamp, 8),
           LittleEndian(c.sequence, 4));
    var h := Header(c);
    assert h[4] == h[4..6][0] && h[5] == h[4..6][1];
  }

  lemma Assembled(h: seq<byte>)
    requires |h| == HEADER_SIZE
    ensures h == h[..4] + h[4..6] + h[6..8] + h[8..16] + h[16..20]
  {
  }

  /** A well-formed header is the header of what it says. */
  lemma HeaderCanonical(h: seq<byte>, payload: seq<byte>)
    requires |h| == HEADER_SIZE && GoodHeader(h) && |payload| == PayloadSize(h)
    ensures var c := ParseHeader(h).(payload := payload); Valid(c) && Header(c) == h
  {
    hide LittleEndian, FromLittleEndian, Range;
    Widths();
    LittleEndianCanonical(h[6..8]);
    LittleEndianCanonical(h[8..16]);
    LittleEndianCanonical(h[16..20]);
    Assembled(h);
    assert h[4..6] == [h[4], h[5]];
  }

  /** A file starts with a complete record exactly when it starts with that record's encoding. */
  lemma ReadsOne(c: Chunk, rest: seq<byte>)
    requires Valid(c)
    ensures ReadRecord(Encode(c) + rest) == Whole(c, rest)
  {
    hide Header, GoodHeader, PayloadSize, ParseHeader;
    var s := Encode(c) + rest;
    HeaderRoundTrip(c);
    assert s[..HEADER_SIZE] == Header(c);
    assert s[HEADER_SIZE..HEADER_SIZE + |c.payload|] == c.payload;
    assert s[HEADER_SIZE + |c.payload|..] == rest;
  }

  lemma ReadIsCanonical(s: seq<byte>)
    requires ReadRecord(s).Whole?
    ensures Valid(ReadRecord(s).chunk) && s == Encode(ReadRecord(s).chunk) + ReadRecord(s).rest
  {
    hide Header, GoodHeader, PayloadSize, ParseHeader;
    var h := s[..HEADER_SIZE];
    var payload := s[HEADER_SIZE..HEADER_SIZE + PayloadSize(h)];
    HeaderCanonical(h, payload);
    assert s == h + payload + ReadRecord(s).rest;
  }

  lemma DecodeOne(c: Chunk, rest: seq<byte>)
    requires Valid(c)
    ensures Decode(Encode(c) + rest) == Decoded([c] + Decode(rest).records, Decode(rest).status)
  {
    hide ReadRecord, Header;
    ReadsOne(c, rest);
  }

  /** Complete records are decoded in order, whatever follows them. */
  lemma {:induction false} DecodeAppend(chunks: seq<Chunk>, rest: seq<byte>)
    requires AllValid(chunks)
    ensures Decode(EncodeAll(chunks) + rest) == Decoded(chunks + Decode(rest).records, Decode(rest).status)
    decreases |chunks|
  {
    hide Encode, Decode;
    if chunks == [] {
      assert EncodeAll(chunks) + rest == rest;
      assert chunks + Decode(rest).records == Decode(rest).records;
    } else {
      var tail := EncodeAll(chunks[1..]) + rest;
      DecodeOne(chunks[0], tail);
      DecodeAppend(chunks[1..], rest);
      assert EncodeAll(chunks) + rest == Encode(chunks[0]) + tail;
      assert [chunks[0]] + (chunks[1..] + Decode(rest).records) == chunks + Decode(rest).records;
    }
  }

  /**
   A file decodes without complaint exactly when it is the encoding of the records that are printed;
   so whatever list of records was written whole is returned field by field, and in order.
   */
  lemma {:induction false} DecodesExactly(s: seq<byte>)
    ensures AllValid(Decode(s).records)
    ensures Decode(s).status == Complete <==> s == EncodeAll(Decode(s).records)
    decreases |s|
  {
    hide ReadRecord, Encode, Valid;
    if s != [] && ReadRecord(s).Whole? {
      var c, rest := ReadRecord(s).chunk, ReadRecord(s).rest;
      ReadIsCanonical(s);
      DecodesExactly(rest);
      EncodeAllStep(c, Decode(rest).records, rest);
    }
  }

  lemma EncodeAllStep(c: Chunk, chunks: seq<Chunk>, rest: seq<byte>)
    requires Valid(c) && AllValid(chunks)
    ensures AllValid([c] + chunks)
    ensures Encode(c) + rest == EncodeAll([c] + chunks) <==> rest == EncodeAll(chunks)
  {
    hide Encode, Valid;
    var all := [c] + chunks;
    assert all[1..] == chunks;
    assert EncodeAll(all) == Encode(c) + EncodeAll(chunks);
    assert (Encode(c) + rest)[|Encode(c)|..] == rest;
    assert (Encode(c) + EncodeAll(chunks))[|Encode(c)|..] == EncodeAll(chunks);
  }

  lemma RoundTrip(chunks: seq<Chunk>)
    requires AllValid(chunks)
    ensures Decode(EncodeAll(chunks)) == Decoded(chunks, Complete)
  {
    DecodeAppend(chunks, []);
    assert EncodeAll(chunks) + [] == EncodeAll(chunks) && chunks + [] == chunks;
  }

  /** A file that ends within a record: everything before it is decoded and the tear is reported. */
  lemma TornTail(chunks: seq<Chunk>, c: Chunk, n: nat)
    requires AllValid(chunks) && Valid(c) && 0 < n < |Encode(c)|
    ensures Decode(EncodeAll(chunks) + Encode(c)[..n]) ==
            Decoded(chunks, if n < HEADER_SIZE then TruncatedHeader else TruncatedPayload)
  {
    hide Header, GoodHeader, PayloadSize, ParseHeader;
    var torn := Encode(c)[..n];
    DecodeAppend(chunks, torn);
    assert chunks + [] == chunks;
    HeaderRoundTrip(c);
    assert n >= HEADER_SIZE ==> torn[..HEADER_SIZE] == Header(c);
  }

  /** One record byte for byte: magic, version, direction, size, time, sequence, each low byte first, payload. */
  lemma KnownRecord()
    ensures var c := Chunk(1, 0x0807_0605_0403_0201, 0x1413_1211, [0xAB, 0xCD]);
            Valid(c) && Encode(c) == [90, 49, 85, 84, 1, 1, 2, 0, 1, 2, 3, 4, 5, 6, 7, 8,
                                      0x11, 0x12, 0x13, 0x14, 0xAB, 0xCD]
  {
    hide LittleEndian, Range;
    Widths();
    KnownTime();
    KnownSequence();
    Pair(2, 0);
  }

  lemma KnownSequence()
    requires Range(4) == TWO_TO_THE_32
    ensures LittleEndian(0x1413_1211, 4) == [0x11, 0x12, 0x13, 0x14]
  {
    assert LittleEndian(0x1413_1211, 4) == [0x11] + LittleEndian(0x14_1312, 3);
    assert LittleEndian(0x14_1312, 3) == [0x12] + LittleEndian(0x1413, 2);
    Pair(0x13, 0x14);
  }

  lemma Pair(low: byte, high: byte)
    ensures Range(2) == 0x1_0000 && LittleEndian(low + 256 * high, 2) == [low, high]
  {
    var n: nat := high;
    assert LittleEndian(n, 1) == [high];
  }

  lemma KnownTime()
    requires Range(8) == TWO_TO_THE_64
    ensures LittleEndian(0x0807_0605_0403_0201, 8) == [1, 2, 3, 4, 5, 6, 7, 8]
  {
    assert LittleEndian(0x0807_0605_0403_0201, 8) == [1] + LittleEndian(0x08_0706_0504_0302, 7);
    assert LittleEndian(0x08_0706_0504_0302, 7) == [2] + LittleEndian(0x0807_0605_0403, 6);
    assert LittleEndian(0x0807_0605_0403, 6) == [3] + LittleEndian(0x08_0706_0504, 5);
    assert LittleEndian(0x08_0706_0504, 5) == [4] + LittleEndian(0x0807_0605, 4);
    assert LittleEndian(0x0807_0605, 4) == [5] + LittleEndian(0x08_0706, 3);
    assert LittleEndian(0x08_0706, 3) == [6] + LittleEndian(0x0807, 2);
    Pair(7, 8);
  }

  // ----- The methods -----

  /** Writes a value into the header, least significant byte first. */
  method AppendLittleEndian(header: array<byte>, offset: nat, value: nat, width: nat)
    requires offset + width <= header.Length && value < Range(width)
    modifies header
    ensures header[offset..offset + width] == LittleEndian(value, width)
    ensures forall k :: 0 <= k < header.Length && !(offset <= k < offset + width) ==> header[k] == old(header[k])
  {
    var rest := value;
    for index := 0 to width
      invariant 0 <= rest < Range(width - index)
      invariant LittleEndian(value, width) == header[offset..offset + index] + LittleEndian(rest, width - index)
      invariant forall k :: 0 <= k < header.Length && !(offset <= k < offset + index) ==> header[k] == old(header[k])
    {
      ghost var before := header[offset..offset + index];
      header[offset + index] := rest % 256;
      assert header[offset..offset + index + 1] == before + [rest % 256];
      rest := rest / 256;
    }
  }

  method FillHeader(c: Chunk) returns (header: array<byte>)
    requires Valid(c)
    ensures fresh(header) && header[..] == Header(c)
  {
    hide LittleEndian, Range;
    Widths();
    header := new byte[HEADER_SIZE](_ => 0);
    header[0], header[1], header[2], header[3] := MAGIC[0], MAGIC[1], MAGIC[2], MAGIC[3];
    header[4] := VERSION;
    header[5] := c.direction;
    assert header[..6] == MAGIC + [VERSION, c.direction];
    AppendLittleEndian(header, 6, |c.payload|, 2);
    assert header[..8] == MAGIC + [VERSION, c.direction] + LittleEndian(|c.payload|, 2);
    AppendLittleEndian(header, 8, c.timestamp, 8);
    assert header[..16] == MAGIC + [VERSION, c.direction] + LittleEndian(|c.payload|, 2) + LittleEndian(c.timestamp, 8);
    AppendLittleEndian(header, 16, c.sequence, 4);
  }

  /** The host's decoding loop over the remaining file. */
  method DecodeFile(s: seq<byte>) returns (d: Decoded)
    ensures d == Decode(s)
  {
    hide GoodHeader, PayloadSize, ParseHeader;
    var source := s;
    var records: seq<Chunk> := [];
    while source != []
      invariant Decode(s) == Decoded(records + Decode(source).records, Decode(source).status)
      decreases |source|
    {
      if |source| < HEADER_SIZE {
        assert records + [] == records;
        return Decoded(records, TruncatedHeader);
      }
      var header := source[..HEADER_SIZE];
      if !GoodHeader(header) {
        assert records + [] == records;
        return Decoded(records, InvalidHeader);
      }
      var size := PayloadSize(header);
      if |source| < HEADER_SIZE + size {
        assert records + [] == records;
        return Decoded(records, TruncatedPayload);
      }
      var chunk := ParseHeader(header).(payload := source[HEADER_SIZE..HEADER_SIZE + size]);
      ghost var later := Decode(source[HEADER_SIZE + size..]).records;
      assert records + ([chunk] + later) == records + [chunk] + later;
      records := records + [chunk];
      source := source[HEADER_SIZE + size..];
    }
    assert records + [] == records;
    return Decoded(records, Complete);
  }

  // ----- The trace file over whole runs -----

  /** Outcomes of one write: `headerBytes` and `payloadBytes` are what the two writes accept at most. */
  datatype Io = Io(mounted: bool, opens: bool, headerBytes: nat, payloadBytes: nat)

  /**
   The file, the writer's fields, and two records of its history: the chunks written whole before the
   first short write, and everything that came after them.
   */
  datatype Trace = Trace(file: seq<byte>, isOpen: bool, size: nat, accepted: seq<Chunk>, tail: seq<byte>)

  datatype Event = Poll(mounted: bool, enabled: bool, opens: bool) | Write(chunk: Chunk, io: Io) | Unmounted

  function Close(t: Trace): Trace { t.(isOpen := false, size := 0) }

  function Open(t: Trace, opens: bool): Trace {
    if t.isOpen || !opens || |t.file| >= MAXIMUM_TRACE_SIZE then t else t.(isOpen := true, size := |t.file|)
  }

  function Grow(t: Trace, bytes: seq<byte>): (r: Trace)
    ensures r.isOpen == t.isOpen && r.size == t.size && r.accepted == t.accepted
  {
    t.(file := t.file + bytes, tail := t.tail + bytes)
  }

  lemma GrowTwice(t: Trace, a: seq<byte>, b: seq<byte>)
    ensures Grow(Grow(t, a), b) == Grow(t, a + b)
  {
    assert t.file + a + b == t.file + (a + b) && t.tail + a + b == t.tail + (a + b);
  }

  function Took(t: Trace, c: Chunk): Trace
    requires Valid(c)
  {
    var grown := Grow(t, Encode(c)).(size := t.size + HEADER_SIZE + |c.payload|);
    if t.tail == [] then grown.(accepted := t.accepted + [c], tail := []) else grown
  }

  function WriteChunk(t: Trace, c: Chunk, io: Io): Trace
    requires Valid(c)
  {
    var u := if io.mounted then Open(t, io.opens) else t;
    if !io.mounted then Close(t)
    else if !u.isOpen then u
    else if u.size > MAXIMUM_TRACE_SIZE || HEADER_SIZE + |c.payload| > MAXIMUM_TRACE_SIZE - u.size then Close(u)
    else if io.headerBytes < HEADER_SIZE then Close(Grow(u, Header(c)[..io.headerBytes]))
    else if io.payloadBytes < |c.payload| then Close(Grow(u, Header(c) + c.payload[..io.payloadBytes]))
    else Took(u, c)
  }

  function Apply(t: Trace, e: Event): Trace
    requires e.Write? ==> Valid(e.chunk)
  {
    match e
    case Poll(mounted, enabled, opens) => if mounted && enabled then Open(t, opens) else Close(t)
    case Write(chunk, io) => WriteChunk(t, chunk, io)
    case Unmounted => Close(t)
  }

  predicate Usable(events: seq<Event>) {
    forall i :: 0 <= i < |events| && events[i].Write? ==> Valid(events[i].chunk)
  }

  function Run(start: seq<byte>, events: seq<Event>): Trace
    requires Usable(events)
    decreases |events|
  {
    if events == [] then Trace(start, false, 0, [], [])
    else Apply(Run(start, events[..|events| - 1]), events[|events| - 1])
  }

  predicate Sound(t: Trace, start: seq<byte>) {
    && AllValid(t.accepted)
    && t.file == start + EncodeAll(t.accepted) + t.tail
    && (t.isOpen ==> t.size == |t.file|)
    && |t.file| <= (if |start| > MAXIMUM_TRACE_SIZE then |start| else MAXIMUM_TRACE_SIZE)
  }

  lemma {:induction false} EncodeAllAppend(chunks: seq<Chunk>, c: Chunk)
    requires AllValid(chunks) && Valid(c)
    ensures AllValid(chunks + [c]) && EncodeAll(chunks + [c]) == EncodeAll(chunks) + Encode(c)
  {
    hide Encode, Valid;
    var all := chunks + [c];
    if chunks == [] {
      assert all[1..] == [];
    } else {
      assert all[1..] == chunks[1..] + [c];
      EncodeAllAppend(chunks[1..], c);
    }
  }

  lemma GrowKeepsSound(t: Trace, start: seq<byte>, bytes: seq<byte>)
    requires Sound(t, start) && |t.file| + |bytes| <= MAXIMUM_TRACE_SIZE
    ensures Sound(Close(Grow(t, bytes)), start)
  {
    hide AllValid, EncodeAll;
    assert start + EncodeAll(t.accepted) + t.tail + bytes == start + EncodeAll(t.accepted) + (t.tail + bytes);
  }

  lemma TookKeepsSound(t: Trace, start: seq<byte>, c: Chunk)
    requires Sound(t, start) && Valid(c) && |t.file| + HEADER_SIZE + |c.payload| <= MAXIMUM_TRACE_SIZE
    ensures Sound(Took(t, c), start)
  {
    hide AllValid, EncodeAll, Header;
    if t.tail == [] {
      EncodeAllAppend(t.accepted, c);
      assert start + EncodeAll(t.accepted) + [] + Encode(c) == start + (EncodeAll(t.accepted) + Encode(c)) + [];
    } else {
      assert start + EncodeAll(t.accepted) + t.tail + Encode(c) == start + EncodeAll(t.accepted) + (t.tail + Encode(c));
    }
  }

  lemma WriteKeepsSound(t: Trace, start: seq<byte>, c: Chunk, io: Io)
    requires Sound(t, start) && Valid(c)
    ensures Sound(WriteChunk(t, c, io), start)
  {
    hide AllValid, EncodeAll, Took, Grow;
    if io.mounted {
      var u := Open(t, io.opens);
      if u.isOpen && u.size + HEADER_SIZE + |c.payload| <= MAXIMUM_TRACE_SIZE {
        if io.headerBytes < HEADER_SIZE {
          GrowKeepsSound(u, start, Header(c)[..io.headerBytes]);
        } else if io.payloadBytes < |c.payload| {
          GrowKeepsSound(u, start, Header(c) + c.payload[..io.payloadBytes]);
        } else {
          TookKeepsSound(u, start, c);
        }
      }
    }
  }

  /**
   Over every run of opens and writes, short ones included, the file never exceeds 4 MiB if it
   started within it (and never grows at all if it did not), and it starts with what it held before
   and the records written whole before the first short write.
   */
  lemma {:induction false} TraceIsSound(start: seq<byte>, events: seq<Event>)
    requires Usable(events)
    ensures Sound(Run(start, events), start)
    decreases |events|
  {
    hide AllValid, EncodeAll, WriteChunk;
    if events == [] {
      StartIsSound(start);
    } else {
      var last := events[|events| - 1];
      TraceIsSound(start, events[..|events| - 1]);
      if last.Write? { WriteKeepsSound(Run(start, events[..|events| - 1]), start, last.chunk, last.io); }
    }
  }

  lemma StartIsSound(start: seq<byte>)
    ensures Sound(Trace(start, false, 0, [], []), start)
  {
    assert start + EncodeAll([]) + [] == start;
  }

  /** No write of the run falls short. */
  predicate NoShortWrite(events: seq<Event>) {
    forall i :: 0 <= i < |events| && events[i].Write? ==>
      events[i].io.headerBytes >= HEADER_SIZE && events[i].io.payloadBytes >= |events[i].chunk.payload|
  }

  lemma {:induction false} WholeLeavesNoTail(start: seq<byte>, events: seq<Event>)
    requires Usable(events) && NoShortWrite(events)
    ensures Run(start, events).tail == []
    decreases |events|
  {
    if events != [] { WholeLeavesNoTail(start, events[..|events| - 1]); }
  }

  /**
   A trace that held whole records decodes, after any run, to those records and the newly accepted
   ones, in order and field by field, with nothing before or between them. Without a short write
   that is the whole file.
   */
  lemma TraceDecodes(before: seq<Chunk>, events: seq<Event>)
    requires AllValid(before) && Usable(events)
    ensures var t := Run(EncodeAll(before), events);
            && before + t.accepted <= Decode(t.file).records
            && (NoShortWrite(events) ==> Decode(t.file) == Decoded(before + t.accepted, Complete))
  {
    hide Decode, EncodeAll, Run, AllValid;
    var t := Run(EncodeAll(before), events);
    TraceIsSound(EncodeAll(before), events);
    assert t.file == EncodeAll(before) + (EncodeAll(t.accepted) + t.tail);
    DecodeAppend(before, EncodeAll(t.accepted) + t.tail);
    DecodeAppend(t.accepted, t.tail);
    var more := Decode(t.tail).records;
    assert before + (t.accepted + more) == before + t.accepted + more;
    if NoShortWrite(events) {
      WholeLeavesNoTail(EncodeAll(before), events);
      NothingToDecode();
      assert before + t.accepted + [] == before + t.accepted;
    }
  }

  lemma NothingToDecode()
    ensures Decode([]) == Decoded([], Complete)
  {
  }

  // ----- What a write leaves in the file -----

  /** The card is there, the file is open or can be opened, and the whole record fits below 4 MiB. */
  predicate Admitted(t: Trace, c: Chunk, io: Io) {
    && io.mounted
    && (t.isOpen || (io.opens && |t.file| < 0x40_0000))
    && |t.file| + 20 + |c.payload| <= 0x40_0000
  }

  predicate TakenWhole(c: Chunk, io: Io) { io.headerBytes >= 20 && io.payloadBytes >= |c.payload| }

  /** Bytes of the record that reach the file. */
  function Lasting(t: Trace, c: Chunk, io: Io): nat {
    if !Admitted(t, c, io) then 0
    else if io.headerBytes < 20 then io.headerBytes
    else 20 + if io.payloadBytes < |c.payload| then io.payloadBytes else |c.payload|
  }

  /**
   A write appends exactly as much of the record as the card accepts, nothing if it is not admitted, and
   leaves the trace open exactly when the whole record was written.
   */
  lemma WriteExactly(start: seq<byte>, events: seq<Event>, c: Chunk, io: Io)
    requires Usable(events) && Valid(c)
    ensures var t := Run(start, events);
            var u := WriteChunk(t, c, io);
            && |Encode(c)| == 20 + |c.payload|
            && u.file == t.file + Encode(c)[..Lasting(t, c, io)]
            && (u.isOpen <==> Admitted(t, c, io) && TakenWhole(c, io))
            && (u.file == t.file + Encode(c) <==> Admitted(t, c, io) && TakenWhole(c, io))
  {
    hide Run, AllValid, EncodeAll, Header;
    TraceIsSound(start, events);
    var t := Run(start, events);
    assert t.file + [] == t.file;
    assert Encode(c)[..0] == [] && Encode(c)[..|Encode(c)|] == Encode(c);
    assert Header(c)[..] == Header(c) && Encode(c)[..20] == Header(c);
    var n := Lasting(t, c, io);
    assert n < 20 ==> Encode(c)[..n] == Header(c)[..n];
    assert n >= 20 ==> Encode(c)[..n] == Header(c) + c.payload[..n - 20];
    if n < |Encode(c)| { assert |t.file + Encode(c)[..n]| < |t.file + Encode(c)|; }
  }

  /** Polls open and close the file, and an unmount closes it; only writes change its content. */
  lemma PollExactly(t: Trace, e: Event)
    requires !e.Write?
    ensures Apply(t, e).file == t.file && Apply(t, e).accepted == t.accepted
    ensures Apply(t, e).isOpen <==>
            e.Poll? && e.mounted && e.enabled && (t.isOpen || (e.opens && |t.file| < 0x40_0000))
  {
  }

  /** The chunks that a run was asked to write. */
  function Chunks(events: seq<Event>): seq<Chunk> {
    if events == [] then []
    else
      var last := events[|events| - 1];
      Chunks(events[..|events| - 1]) + if last.Write? then [last.chunk] else []
  }

  /** Nothing stands in the way of any write, as long as there is room. */
  predicate Unhindered(events: seq<Event>) {
    forall i :: 0 <= i < |events| && events[i].Write? ==>
      events[i].io.mounted && events[i].io.opens && TakenWhole(events[i].chunk, events[i].io)
  }

  /** Over every run whose writes are unhindered and have room, each chunk is recorded, once and in order. */
  lemma {:induction false} EverythingIsRecorded(start: seq<byte>, events: seq<Event>)
    requires Usable(events) && Unhindered(events) && AllValid(Chunks(events))
    requires |start| + |EncodeAll(Chunks(events))| <= 0x40_0000
    ensures Run(start, events).accepted == Chunks(events)
    ensures Run(start, events).file == start + EncodeAll(Chunks(events))
    decreases |events|
  {
    hide AllValid, Encode, Valid, WriteChunk, TakenWhole;
    if events == [] {
      NothingRecorded(start);
    } else {
      var before, last := events[..|events| - 1], events[|events| - 1];
      var chunks := Chunks(before);
      ChunksAreValid(before);
      if last.Write? {
        EncodeAllAppend(chunks, last.chunk);
        EverythingIsRecorded(start, before);
        WholeRunHasNoTail(start, before);
        RecordsOne(start, before, last.chunk, last.io);
        assert start + EncodeAll(chunks) + Encode(last.chunk) == start + (EncodeAll(chunks) + Encode(last.chunk));
      } else {
        assert chunks + [] == chunks;
        EverythingIsRecorded(start, before);
        PollExactly(Run(start, before), last);
      }
    }
  }

  lemma NothingRecorded(start: seq<byte>)
    ensures start + EncodeAll([]) == start
  {
  }

  lemma {:induction false} ChunksAreValid(events: seq<Event>)
    requires Usable(events)
    ensures AllValid(Chunks(events))
    decreases |events|
  {
    if events != [] { ChunksAreValid(events[..|events| - 1]); }
  }

  lemma WholeRunHasNoTail(start: seq<byte>, events: seq<Event>)
    requires Usable(events) && Unhindered(events)
    ensures Run(start, events).tail == []
  {
    WholeLeavesNoTail(start, events);
  }

  lemma RecordsOne(start: seq<byte>, events: seq<Event>, c: Chunk, io: Io)
    requires Usable(events) && Valid(c) && Run(start, events).tail == []
    requires io.mounted && io.opens && TakenWhole(c, io)
    requires |Run(start, events).file| + |Encode(c)| <= 0x40_0000
    ensures var t := Run(start, events);
            WriteChunk(t, c, io).file == t.file + Encode(c) && WriteChunk(t, c, io).accepted == t.accepted + [c]
  {
    hide Run, AllValid, EncodeAll, Header;
    WriteExactly(start, events, c, io);
    TraceIsSound(start, events);
  }

  // ----- The writer -----

  class ControllerUartTrace {
    var file: seq<byte>
    var isOpen: bool
    var size: nat
    ghost var accepted: seq<Chunk>
    ghost var tail: seq<byte>

    ghost function Abstract(): Trace
      reads this
    {
      Trace(file, isOpen, size, accepted, tail)
    }

    constructor (file: seq<byte>)
      ensures Abstract() == Trace(file, false, 0, [], [])
    {
      this.file, isOpen, size, accepted, tail := file, false, 0, [], [];
    }

    method CloseTrace()
      modifies this
      ensures Abstract() == Close(old(Abstract()))
    {
      isOpen, size := false, 0;
    }

    method OpenTrace(opens: bool) returns (ok: bool)
      modifies this
      ensures Abstract() == Open(old(Abstract()), opens) && ok == isOpen
    {
      if isOpen { return true; }
      if !opens || |file| >= MAXIMUM_TRACE_SIZE { return false; }
      isOpen, size := true, |file|;
      return true;
    }

    /** Appends what a write accepts. */
    method Accept(bytes: seq<byte>, most: nat) returns (count: nat)
      modifies this
      ensures count == if most < |bytes| then most else |bytes|
      ensures Abstract() == Grow(old(Abstract()), bytes[..count])
    {
      count := if most < |bytes| then most else |bytes|;
      file := file + bytes[..count];
      tail := tail + bytes[..count];
    }

    method Append(c: Chunk, io: Io)
      requires Valid(c)
      modifies this
      ensures Abstract() == WriteChunk(old(Abstract()), c, io)
    {
      hide Grow, Header, Valid;
      if !io.mounted {
        CloseTrace();
        return;
      }
      var ok := OpenTrace(io.opens);
      if !ok { return; }
      var recordSize := HEADER_SIZE + |c.payload|;
      if size > MAXIMUM_TRACE_SIZE || recordSize > MAXIMUM_TRACE_SIZE - size {
        CloseTrace();
        return;
      }
      ghost var start := Abstract();
      var header := FillHeader(c);
      var headerCount := Accept(header[..], io.headerBytes);
      if headerCount != HEADER_SIZE {
        CloseTrace();
        return;
      }
      assert Header(c)[..HEADER_SIZE] == Header(c);
      var payloadCount := Accept(c.payload, io.payloadBytes);
      GrowTwice(start, Header(c), c.payload[..payloadCount]);
      if payloadCount != |c.payload| {
        CloseTrace();
        return;
      }
      assert c.payload[..payloadCount] == c.payload;
      if start.tail == [] { accepted, tail := accepted + [c], []; }
      size := size + recordSize;
    }
  }
}
