/** The configuration family: selection, truncation and aggregation of records into replies. */
module ConfigTransfer {
  import opened Bytes
  import opened FrameCodec
  import opened ControllerTransfer

  const MINIMUM_REMAINING_SPACE: nat := 80
  const MAXIMUM_UNMODIFIED: nat := 64
  const NEWLINE: byte := 10
  const HASH: byte := 35
  const STAR: byte := 42

  // ----- Records -----

  predicate Eligible(chunk: seq<byte>, final: bool) {
    |chunk| > 2 && chunk[0] != HASH && chunk[0] != STAR && (chunk[|chunk| - 1] == NEWLINE || final)
  }

  /** Records longer than 64 bytes are cut to 62 and ended with a newline and a zero byte. */
  function Transform(record: seq<byte>): (r: seq<byte>)
    requires |record| > 2
    ensures 3 <= |r| <= MAXIMUM_UNMODIFIED
  {
    if |record| <= MAXIMUM_UNMODIFIED then record
    else record[..MAXIMUM_UNMODIFIED - 2] + [NEWLINE, 0]
  }

  /** The transformed eligible records, in order; only the last chunk may lack its newline. */
  function Records(chunks: seq<seq<byte>>): (records: seq<seq<byte>>)
    ensures Bounded(records)
    ensures |records| <= Announced(chunks)
    decreases |chunks|
  {
    if chunks == [] then []
    else
      var rest := Records(chunks[1..]);
      if Eligible(chunks[0], |chunks| == 1) then [Transform(chunks[0])] + rest else rest
  }

  predicate Bounded(records: seq<seq<byte>>) {
    forall i :: 0 <= i < |records| ==> 3 <= |records[i]| <= MAXIMUM_UNMODIFIED
  }

  /** The announced frame count: chunks of more than two bytes, whether or not they are eligible. */
  function Announced(chunks: seq<seq<byte>>): nat {
    if chunks == [] then 0 else (if |chunks[0]| > 2 then 1 else 0) + Announced(chunks[1..])
  }

  /** The announced count is the number of records exactly when nothing long enough is filtered out. */
  lemma {:induction false} AnnouncedIsExact(chunks: seq<seq<byte>>)
    ensures Announced(chunks) == |Records(chunks)| <==>
            forall i :: 0 <= i < |chunks| && |chunks[i]| > 2 ==> Eligible(chunks[i], i == |chunks| - 1)
    decreases |chunks|
  {
    if chunks != [] {
      var rest := chunks[1..];
      AnnouncedIsExact(rest);
      assert |Records(rest)| <= Announced(rest);
      if forall i :: 0 <= i < |chunks| && |chunks[i]| > 2 ==> Eligible(chunks[i], i == |chunks| - 1) {
        forall i | 0 <= i < |rest| && |rest[i]| > 2 ensures Eligible(rest[i], i == |rest| - 1) {
          assert rest[i] == chunks[i + 1];
        }
      }
      if Announced(chunks) == |Records(chunks)| {
        forall i | 0 <= i < |chunks| && |chunks[i]| > 2 ensures Eligible(chunks[i], i == |chunks| - 1) {
          if i > 0 { assert rest[i - 1] == chunks[i]; }
        }
      }
    }
  }

  // ----- Aggregation -----

  /** Space left in a reply, as the unsigned subtraction of the code. */
  function Remaining(used: nat): nat { (FRAME_DATA_SIZE - used) % TWO_TO_THE_32 }

  datatype Gathered = Gathered(data: seq<byte>, taken: nat)

  /** Appends records until fewer than 80 bytes remain or the records are exhausted. */
  function Gather(data: seq<byte>, records: seq<seq<byte>>): Gathered
    decreases |records|
  {
    if records == [] then Gathered(data, 0)
    else
      var longer := data + records[0];
      if Remaining(|longer|) < MINIMUM_REMAINING_SPACE then Gathered(longer, 1)
      else
        var g := Gather(longer, records[1..]);
        g.(taken := g.taken + 1)
  }

  /**
   The subtraction never underflows: at most 496 bytes are gathered. What is gathered is a run of
   whole records, and a reply that leaves records behind holds more than 432 bytes.
   */
  lemma {:induction false} GatherBounds(data: seq<byte>, records: seq<seq<byte>>)
    requires Bounded(records) && |data| <= 432
    ensures var g := Gather(data, records);
            && g.taken <= |records| && (records != [] ==> g.taken > 0)
            && g.data == data + Concat(records[..g.taken])
            && |g.data| <= 496
            && (g.taken < |records| ==> |g.data| > 432)
    decreases |records|
  {
    if records == [] {
      assert data + Concat([]) == data;
    } else {
      var longer := data + records[0];
      var one := records[..1];
      assert one[1..] == [] && Concat(one) == records[0] + [];
      if |longer| <= 432 {
        GatherBounds(longer, records[1..]);
        var k := Gather(longer, records[1..]).taken;
        assert records[..k + 1][1..] == records[1..][..k];
        assert longer + Concat(records[1..][..k]) == data + (records[0] + Concat(records[1..][..k]));
      }
    }
  }

  lemma {:induction false} ConcatBound(records: seq<seq<byte>>)
    requires Bounded(records)
    ensures |Concat(records)| <= MAXIMUM_UNMODIFIED * |records|
  {
    if records != [] { ConcatBound(records[1..]); }
  }

  /** A reply that does not exhaust the records holds at least seven of them. */
  lemma AtLeastSeven(records: seq<seq<byte>>)
    requires Bounded(records)
    ensures var g := Gather([], records); g.taken < |records| ==> g.taken >= 7
  {
    GatherBounds([], records);
    ConcatBound(records[..Gather([], records).taken]);
  }

  // ----- Replies and the walk over the records -----

  /** A request index is a skip count; 0 and 1 both mean the beginning. */
  function Skip(index: nat): nat { if index <= 1 then 0 else index }

  /** Data of the reply to a request, without the wire index; nothing past the end. */
  function ReplyData(records: seq<seq<byte>>, index: nat): (r: Option<seq<byte>>)
    requires Bounded(records)
    ensures r.Some? <==> Skip(index) < |records|
    ensures r.Some? ==> 0 < |r.value| <= 497 && r.value[|r.value| - 1] == NEWLINE
  {
    if Skip(index) >= |records| then None
    else
      GatherBounds([], records[Skip(index)..]);
      Some(Gather([], records[Skip(index)..]).data + [NEWLINE])
  }

  /** The skip counts of a peer that asks on from where the last reply ended. */
  function Walk(records: seq<seq<byte>>, from: nat): (skips: seq<nat>)
    requires Bounded(records)
    decreases |records| - from
  {
    if from >= |records| then []
    else
      GatherBounds([], records[from..]);
      [from] + Walk(records, from + Gather([], records[from..]).taken)
  }

  /** Every skip count is within the records and one that a request index can express. */
  predicate Expressible(records: seq<seq<byte>>, skips: seq<nat>) {
    skips == [] || (Skip(skips[0]) == skips[0] < |records| && Expressible(records, skips[1..]))
  }

  /** A reply's data without its final newline. */
  function Content(records: seq<seq<byte>>, skip: nat): seq<byte>
    requires Bounded(records) && Skip(skip) < |records|
  {
    var data := ReplyData(records, skip).value;
    data[..|data| - 1]
  }

  /** What the replies to a walk carry. */
  function Collected(records: seq<seq<byte>>, indices: seq<nat>): seq<byte>
    requires Bounded(records)
    requires Expressible(records, indices)
  {
    if indices == [] then []
    else Content(records, indices[0]) + Collected(records, indices[1..])
  }

  lemma BoundedRest(records: seq<seq<byte>>, from: nat)
    requires Bounded(records) && from <= |records|
    ensures Bounded(records[from..])
  {
  }

  /** One step of a walk: the records gathered, and where the next request starts. */
  lemma WalkStep(records: seq<seq<byte>>, from: nat)
    requires Bounded(records) && from < |records| && Skip(from) == from
    ensures var g := Gather([], records[from..]);
            && 0 < g.taken <= |records| - from && (from + g.taken == |records| || from + g.taken >= 7)
            && Walk(records, from) == [from] + Walk(records, from + g.taken)
            && Content(records, from) == g.data
            && Concat(records[from..]) == g.data + Concat(records[from + g.taken..])
  {
    hide Gather, Bounded, Concat;
    var rest := records[from..];
    var g := Gather([], rest);
    BoundedRest(records, from);
    GatherBounds([], rest);
    AtLeastSeven(rest);
    ConcatAppend(rest[..g.taken], rest[g.taken..]);
    assert rest == rest[..g.taken] + rest[g.taken..] && rest[g.taken..] == records[from + g.taken..];
    assert [] + Concat(rest[..g.taken]) == Concat(rest[..g.taken]);
    var data := g.data + [NEWLINE];
    assert data[..|data| - 1] == g.data;
  }

  lemma WalkEnds(records: seq<seq<byte>>)
    requires Bounded(records)
    ensures Walk(records, |records|) == [] && Concat(records[|records|..]) == []
  {
  }

  /**
   Walking over skips 0, k1, k1 + k2, ... every skip count is expressible as a request index, and
   the replies together carry every transformed eligible record once, in order.
   */
  lemma {:induction false} WalkCoversRecords(records: seq<seq<byte>>, from: nat)
    requires Bounded(records) && from <= |records| && (from == 0 || from >= 7 || from == |records|)
    ensures Expressible(records, Walk(records, from))
    ensures Collected(records, Walk(records, from)) == Concat(records[from..])
    decreases |records| - from
  {
    hide Bounded, Gather, Content, Walk, Concat;
    if from == |records| {
      WalkEnds(records);
    } else {
      WalkStep(records, from);
      var g := Gather([], records[from..]);
      WalkCoversRecords(records, from + g.taken);
      assert Walk(records, from)[1..] == Walk(records, from + g.taken);
    }
  }

  // ----- The state machine -----

  /** Answers of the port: `ack` and `sent` are the fates of the start and of the data reply. */
  datatype Port = Port(available: bool, chunks: Option<seq<seq<byte>>>, memory: nat -> bool, ack: bool, sent: bool)

  datatype State = State(active: bool, frameCount: nat, frameDataSize: nat)

  function Reply(op: Operation, payload: seq<byte>): Frame {
    Packet(CONFIGURATION_FAMILY, op, payload)
  }

  const CANCEL := Reply(Cancel, [])

  datatype Outcome = Outcome(state: State, sent: seq<Frame>)

  function OnStart(s: State, port: Port): Outcome {
    Outcome(s.(active := s.active || port.available),
            [Reply(Start, [])] + if port.ack && port.available then [] else [CANCEL])
  }

  /** The count is converted to 32 bits. */
  function OnGeometry(s: State, payload: seq<byte>, port: Port): Outcome {
    if ParseGeometry(payload).None? || port.chunks.None? then Outcome(s, [CANCEL])
    else
      var count := Announced(port.chunks.value) % TWO_TO_THE_32;
      Outcome(s.(frameCount := count, frameDataSize := FRAME_DATA_SIZE),
              [Reply(Geometry, EncodeGeometry(count, FRAME_DATA_SIZE))] + if port.sent then [] else [CANCEL])
  }

  function OnData(s: State, payload: seq<byte>, port: Port): Outcome {
    var request := ParseDataRequest(payload);
    if request.None? then Outcome(s, [CANCEL])
    else if s.frameDataSize == 0 then Outcome(s, [])
    else if port.chunks.None? then Outcome(s, [CANCEL])
    else
      var data := ReplyData(Records(port.chunks.value), request.value.index);
      if data.None? then Outcome(s, [])
      else if !port.memory(4 + |data.value|) then Outcome(s, [CANCEL])
      else Outcome(s, [Reply(Data, request.value.wireIndex + data.value)] + if port.sent then [] else [CANCEL])
  }

  const IDLE := State(false, 0, 0)

  function Handle(s: State, frame: Frame, port: Port): Outcome {
    match OperationOf(frame.kind)
    case Start => OnStart(s, port)
    case Geometry => OnGeometry(s, frame.payload, port)
    case Data => OnData(s, frame.payload, port)
    case Complete => Outcome(IDLE, [])
    case Cancel => Outcome(IDLE, [])
    case Unknown => Outcome(s, [])
  }

  // ----- A whole fetch -----

  /** A port that still has the configuration, has memory and delivers every reply. */
  ghost predicate Succeeding(port: Port) {
    port.chunks.Some? && port.sent && forall size :: port.memory(size)
  }

  /** What the data reply to one request carries, without wire index and final newline. */
  function Answer(s: State, port: Port, skip: nat): seq<byte>
    requires skip < TWO_TO_THE_32
  {
    var sent := OnData(s, WireIndex(skip), port).sent;
    if |sent| == 1 && |sent[0].payload| > 4 then sent[0].payload[4..|sent[0].payload| - 1] else []
  }

  function Fetched(s: State, port: Port, skips: seq<nat>): seq<byte> {
    if skips == [] then [] else Answer(s, port, skips[0] % TWO_TO_THE_32) + Fetched(s, port, skips[1..])
  }

  lemma OneReply(s: State, port: Port, skip: nat)
    requires Succeeding(port) && s.frameDataSize == FRAME_DATA_SIZE && skip < TWO_TO_THE_32
    requires Skip(skip) < |Records(port.chunks.value)|
    ensures Answer(s, port, skip) == Content(Records(port.chunks.value), skip)
  {
    hide Records, Gather, Bounded;
    ParseWireIndex(skip, []);
    assert WireIndex(skip) + [] == WireIndex(skip);
    var data := ReplyData(Records(port.chunks.value), skip).value;
    var payload := WireIndex(skip) + data;
    assert payload[4..|payload| - 1] == data[..|data| - 1];
  }

  lemma {:induction false} FetchedIsCollected(s: State, port: Port, skips: seq<nat>)
    requires Succeeding(port) && s.frameDataSize == FRAME_DATA_SIZE
    requires Expressible(Records(port.chunks.value), skips) && |Records(port.chunks.value)| <= TWO_TO_THE_32
    ensures Fetched(s, port, skips) == Collected(Records(port.chunks.value), skips)
    decreases |skips|
  {
    hide Records, Content, Answer, Bounded;
    if skips != [] {
      OneReply(s, port, skips[0]);
      FetchedIsCollected(s, port, skips[1..]);
    }
  }

  /** After any accepted geometry, the walk from the beginning fetches the whole selected text. */
  lemma ConfigurationFetched(s: State, geometry: seq<byte>, port: Port)
    requires Succeeding(port) && ParseGeometry(geometry).Some?
    requires |Records(port.chunks.value)| <= TWO_TO_THE_32
    ensures var records := Records(port.chunks.value);
            Fetched(OnGeometry(s, geometry, port).state, port, Walk(records, 0)) == Concat(records)
  {
    hide Records, Collected, Gather, Bounded, OnData, Walk, Fetched;
    var records := Records(port.chunks.value);
    WalkCoversRecords(records, 0);
    FetchedIsCollected(OnGeometry(s, geometry, port).state, port, Walk(records, 0));
    assert records[0..] == records;
  }

  class ControllerConfigTransfer {
    var active: bool
    var frameCount: nat
    var frameDataSize: nat

    function Abstract(): State
      reads this
    {
      State(active, frameCount, frameDataSize)
    }

    constructor ()
      ensures Abstract() == IDLE
    {
      active, frameCount, frameDataSize := false, 0, 0;
    }

    method Process(frame: Frame, port: Port) returns (sent: seq<Frame>)
      modifies this
      ensures Outcome(Abstract(), sent) == Handle(old(Abstract()), frame, port)
    {
      sent := [];
      match OperationOf(frame.kind) {
        case Start => sent := HandleStart(port);
        case Geometry => sent := HandleGeometry(frame.payload, port);
        case Data => sent := HandleData(frame.payload, port);
        case Complete => Conclude();
        case Cancel => Conclude();
        case Unknown =>
      }
    }

    method HandleStart(port: Port) returns (sent: seq<Frame>)
      modifies this
      ensures Outcome(Abstract(), sent) == OnStart(old(Abstract()), port)
    {
      sent := [Reply(Start, [])];
      if port.available { active := true; }
      if !port.ack || !port.available { sent := sent + [CANCEL]; }
    }

    method HandleGeometry(payload: seq<byte>, port: Port) returns (sent: seq<Frame>)
      modifies this
      ensures Outcome(Abstract(), sent) == OnGeometry(old(Abstract()), payload, port)
    {
      if ParseGeometry(payload).None? || port.chunks.None? { return [CANCEL]; }
      var count := 0;
      for i := 0 to |port.chunks.value|
        invariant count + Announced(port.chunks.value[i..]) == Announced(port.chunks.value)
      {
        if |port.chunks.value[i]| > 2 { count := count + 1; }
        assert port.chunks.value[i..][1..] == port.chunks.value[i + 1..];
      }
      frameCount, frameDataSize := count % TWO_TO_THE_32, FRAME_DATA_SIZE;
      sent := [Reply(Geometry, EncodeGeometry(frameCount, FRAME_DATA_SIZE))];
      if !port.sent { sent := sent + [CANCEL]; }
    }

    method HandleData(payload: seq<byte>, port: Port) returns (sent: seq<Frame>)
      ensures Outcome(Abstract(), sent) == OnData(Abstract(), payload, port)
    {
      var request := ParseDataRequest(payload);
      if request.None? { return [CANCEL]; }
      if frameDataSize == 0 { return []; }
      if port.chunks.None? { return [CANCEL]; }
      var records := SelectRecords(port.chunks.value);
      var skip := if request.value.index <= 1 then 0 else request.value.index;
      var data := AggregateFrom(records, skip);
      if data == [] { return []; }
      if |data| < FRAME_DATA_SIZE { data := data + [NEWLINE]; }
      if !port.memory(4 + |data|) { return [CANCEL]; }
      sent := [Reply(Data, request.value.wireIndex + data)];
      if !port.sent { sent := sent + [CANCEL]; }
    }

    method Conclude()
      modifies this
      ensures Abstract() == IDLE
    {
      active, frameCount, frameDataSize := false, 0, 0;
    }
  }

  method SelectRecords(chunks: seq<seq<byte>>) returns (records: seq<seq<byte>>)
    ensures records == Records(chunks)
  {
    records := [];
    for index := 0 to |chunks|
      invariant Records(chunks) == records + Records(chunks[index..])
    {
      ghost var rest := chunks[index..];
      assert rest[1..] == chunks[index + 1..];
      if Eligible(chunks[index], index + 1 == |chunks|) {
        var record := Transform(chunks[index]);
        assert records + ([record] + Records(rest[1..])) == records + [record] + Records(rest[1..]);
        records := records + [record];
      }
    }
    assert records + Records([]) == records;
  }

  /** The aggregation loop: nothing when the skip count is past the end. */
  method AggregateFrom(records: seq<seq<byte>>, skip: nat) returns (data: seq<byte>)
    requires Bounded(records)
    ensures skip >= |records| ==> data == []
    ensures skip < |records| ==> data == Gather([], records[skip..]).data && 0 < |data| <= 496
  {
    data := [];
    if skip < |records| { GatherBounds([], records[skip..]); }
    ghost var k := 0;
    var index := skip;
    while index < |records|
      invariant skip <= |records| ==> index <= |records|
      invariant index >= skip && (skip > |records| ==> index == skip && data == [])
      invariant skip <= |records| ==>
        Gather([], records[skip..]).data == Gather(data, records[index..]).data && |data| <= 432
      invariant index == skip ==> data == []
      invariant index > skip ==> data != []
    {
      ghost var rest := records[index..];
      assert rest[1..] == records[index + 1..];
      assert rest[0] == records[index];
      data := data + records[index];
      if (FRAME_DATA_SIZE - |data|) % TWO_TO_THE_32 < MINIMUM_REMAINING_SPACE {
        return;
      }
      index := index + 1;
    }
  }
}
