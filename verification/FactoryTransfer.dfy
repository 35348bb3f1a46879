/** The factory family: one eligible record of the factory file for each request. */
module FactoryTransfer {
  import opened Bytes
  import opened FrameCodec
  import opened ControllerTransfer

  const MAXIMUM_RECORD_SIZE: nat := 132
  const HASH: byte := 35

  predicate Eligible(chunk: seq<byte>) {
    |chunk| > 2 && chunk[0] != HASH
  }

  /** The records of the factory file, in order. */
  function Records(chunks: seq<seq<byte>>): (records: seq<seq<byte>>) {
    if chunks == [] then []
    else (if Eligible(chunks[0]) then [chunks[0]] else []) + Records(chunks[1..])
  }

  /** Records that a reply can carry. */
  predicate Fits(record: seq<byte>, frameDataSize: nat) {
    |record| <= MAXIMUM_RECORD_SIZE && |record| <= frameDataSize
  }

  function Fitting(records: seq<seq<byte>>, frameDataSize: nat): (r: seq<seq<byte>>)
    ensures |r| <= |records|
    ensures r == records <==> forall i :: 0 <= i < |records| ==> Fits(records[i], frameDataSize)
  {
    if records == [] then []
    else
      var rest := Fitting(records[1..], frameDataSize);
      assert records == [records[0]] + records[1..];
      assert Fits(records[0], frameDataSize) ==> ([records[0]] + rest)[1..] == rest;
      assert forall i :: 1 <= i < |records| ==> records[i] == records[1..][i - 1];
      assert forall i :: 0 <= i < |records| - 1 ==> records[1..][i] == records[i + 1];
      if Fits(records[0], frameDataSize) then [records[0]] + rest else rest
  }

  // ----- The state machine -----

  /** Answers of the port: `ack` and `sent` are the fates of the start and of the later replies. */
  datatype Port = Port(available: bool, chunks: Option<seq<seq<byte>>>, memory: nat -> bool, ack: bool, sent: bool)

  datatype State = State(active: bool, frameCount: nat, frameDataSize: nat)

  /** `removed` tells whether the factory file is deleted. */
  datatype Outcome = Outcome(state: State, sent: seq<Frame>, removed: bool)

  const IDLE := State(false, 0, 0)

  function Reply(op: Operation, payload: seq<byte>): Frame {
    Packet(FACTORY_FAMILY, op, payload)
  }

  const CANCEL := Reply(Cancel, [])

  function OnStart(s: State, port: Port): Outcome {
    Outcome(s.(active := s.active || port.available),
            [Reply(Start, [])] + (if port.ack && port.available then [] else [CANCEL]), false)
  }

  predicate Acceptable(proposed: Option<GeometryFields>) {
    proposed.Some? && 0 < proposed.value.frameDataSize <= FRAME_DATA_SIZE
  }

  /** The count is kept in 32 bits. */
  function OnGeometry(s: State, payload: seq<byte>, port: Port): Outcome {
    var proposed := ParseGeometry(payload);
    if !Acceptable(proposed) || port.chunks.None? then Outcome(s, [CANCEL], false)
    else
      var count := |Records(port.chunks.value)| % TWO_TO_THE_32;
      var size := proposed.value.frameDataSize;
      Outcome(s.(frameCount := count, frameDataSize := size),
              [Reply(Geometry, EncodeGeometry(count, size))] + (if port.sent then [] else [CANCEL]), false)
  }

  function OnData(s: State, payload: seq<byte>, port: Port): Outcome {
    var request := ParseDataRequest(payload);
    if request.None? then Outcome(s, [CANCEL], false)
    else if request.value.index == 0 || s.frameDataSize == 0 then Outcome(s, [], false)
    else if port.chunks.None? then Outcome(s, [CANCEL], false)
    else
      var records := Records(port.chunks.value);
      var index := request.value.index;
      if index > |records| || !Fits(records[index - 1], s.frameDataSize) then Outcome(s, [], false)
      else if !port.memory(4 + |records[index - 1]|) then Outcome(s, [CANCEL], false)
      else Outcome(s, [Reply(Data, request.value.wireIndex + records[index - 1])] +
                      (if port.sent then [] else [CANCEL]), false)
  }

  function Handle(s: State, frame: Frame, port: Port): Outcome {
    match OperationOf(frame.kind)
    case Start => OnStart(s, port)
    case Geometry => OnGeometry(s, frame.payload, port)
    case Data => OnData(s, frame.payload, port)
    case Complete => Outcome(IDLE, [], true)
    case Cancel => Outcome(IDLE, [], false)
    case Unknown => Outcome(s, [], false)
  }

  // ----- A whole fetch -----

  /** A port that still has the file, has memory and delivers every reply. */
  ghost predicate Succeeding(port: Port) {
    port.chunks.Some? && port.sent && forall size :: port.memory(size)
  }

  /** The records carried by the replies to the requests first, first + 1, ..., last. */
  function Fetched(s: State, port: Port, first: nat, last: nat): seq<seq<byte>>
    requires last < TWO_TO_THE_32
    decreases last + 1 - first
  {
    if first > last then [] else Carried(s, port, first) + Fetched(s, port, first + 1, last)
  }

  function Carried(s: State, port: Port, index: nat): seq<seq<byte>>
    requires index < TWO_TO_THE_32
  {
    var sent := OnData(s, WireIndex(index), port).sent;
    if |sent| == 1 && OperationOf(sent[0].kind) == Data && |sent[0].payload| >= 4
       && sent[0].payload[..4] == WireIndex(index)
    then [sent[0].payload[4..]] else []
  }

  lemma OneReply(s: State, port: Port, index: nat)
    requires Succeeding(port) && s.frameDataSize > 0 && 0 < index < TWO_TO_THE_32
    requires index <= |Records(port.chunks.value)|
    ensures var record := Records(port.chunks.value)[index - 1];
            Carried(s, port, index) == if Fits(record, s.frameDataSize) then [record] else []
  {
    hide Records;
    ParseWireIndex(index, []);
    assert WireIndex(index) + [] == WireIndex(index);
    var record := Records(port.chunks.value)[index - 1];
    var payload := WireIndex(index) + record;
    assert payload[..4] == WireIndex(index) && payload[4..] == record;
  }

  lemma {:induction false} FetchedIsFitting(s: State, port: Port, first: nat)
    requires Succeeding(port) && s.frameDataSize > 0
    requires var n := |Records(port.chunks.value)|; 0 < first <= n + 1 && n < TWO_TO_THE_32
    ensures var records := Records(port.chunks.value);
            Fetched(s, port, first, |records|) == Fitting(records[first - 1..], s.frameDataSize)
    decreases |Records(port.chunks.value)| + 1 - first
  {
    hide Records, Carried, Fits;
    var records := Records(port.chunks.value);
    if first <= |records| {
      OneReply(s, port, first);
      FetchedIsFitting(s, port, first + 1);
      assert records[first - 1..][1..] == records[first..];
    }
  }

  /**
   After an accepted geometry the announced count is the number of records, the replies to the
   requests 1 to count are exactly the records that fit, in order, and they rebuild the whole list
   exactly when every record fits.
   */
  lemma FactoryFetched(s: State, geometry: seq<byte>, port: Port)
    requires Succeeding(port) && Acceptable(ParseGeometry(geometry))
    requires |Records(port.chunks.value)| < TWO_TO_THE_32
    ensures var records := Records(port.chunks.value);
            var t := OnGeometry(s, geometry, port).state;
            && t.frameCount == |records|
            && Fetched(t, port, 1, t.frameCount) == Fitting(records, t.frameDataSize)
            && (Fetched(t, port, 1, t.frameCount) == records <==>
                forall i :: 0 <= i < |records| ==> Fits(records[i], t.frameDataSize))
  {
    hide Records, Fetched, Fits, ParseGeometry, EncodeGeometry;
    var records := Records(port.chunks.value);
    FetchedIsFitting(OnGeometry(s, geometry, port).state, port, 1);
    assert records[0..] == records;
  }

  // ----- The class -----

  class ControllerFactoryTransfer {
    var active: bool
    var frameCount: nat
    var frameDataSize: nat

    function Abstract(): State
      reads this
    {
      State(active, frameCount, frameDataSize)
    }

    constructor ()
      ensures Abstract() == IDLE
    {
      active, frameCount, frameDataSize := false, 0, 0;
    }

    method Process(frame: Frame, port: Port) returns (sent: seq<Frame>, removed: bool)
      modifies this
      ensures Outcome(Abstract(), sent, removed) == Handle(old(Abstract()), frame, port)
    {
      sent, removed := [], false;
      match OperationOf(frame.kind) {
        case Start => sent := HandleStart(port);
        case Geometry => sent := HandleGeometry(frame.payload, port);
        case Data => sent := HandleData(frame.payload, port);
        case Complete => removed := Conclude(true);
        case Cancel => removed := Conclude(false);
        case Unknown =>
      }
    }

    method HandleStart(port: Port) returns (sent: seq<Frame>)
      modifies this
      ensures Outcome(Abstract(), sent, false) == OnStart(old(Abstract()), port)
    {
      sent := [Reply(Start, [])];
      if port.available { active := true; }
      if !port.ack || !port.available { sent := sent + [CANCEL]; }
    }

    method HandleGeometry(payload: seq<byte>, port: Port) returns (sent: seq<Frame>)
      modifies this
      ensures Outcome(Abstract(), sent, false) == OnGeometry(old(Abstract()), payload, port)
    {
      hide Records, Eligible, EncodeGeometry, Packet;
      var proposed := ParseGeometry(payload);
      if proposed.None? || proposed.value.frameDataSize == 0 || proposed.value.frameDataSize > FRAME_DATA_SIZE
         || port.chunks.None? {
        return [CANCEL];
      }
      var chunks := port.chunks.value;
      assert chunks[0..] == chunks;
      RecordsFrom(chunks, |chunks|);
      var count := 0;
      for i := 0 to |chunks|
        invariant count + |Records(chunks[i..])| == |Records(chunks)|
        invariant Abstract() == old(Abstract())
      {
        RecordsFrom(chunks, i);
        if Eligible(chunks[i]) { count := count + 1; }
      }
      frameCount, frameDataSize := count % TWO_TO_THE_32, proposed.value.frameDataSize;
      sent := [Reply(Geometry, EncodeGeometry(frameCount, frameDataSize))];
      if !port.sent { sent := sent + [CANCEL]; }
    }

    method HandleData(payload: seq<byte>, port: Port) returns (sent: seq<Frame>)
      ensures Outcome(Abstract(), sent, false) == OnData(Abstract(), payload, port)
    {
      hide Records, Packet;
      var request := ParseDataRequest(payload);
      if request.None? { return [CANCEL]; }
      if request.value.index == 0 || frameDataSize == 0 { return []; }
      if port.chunks.None? { return [CANCEL]; }
      var record := SelectRecord(port.chunks.value, request.value.index);
      if record.None? || |record.value| > MAXIMUM_RECORD_SIZE || |record.value| > frameDataSize { return []; }
      if !port.memory(4 + |record.value|) { return [CANCEL]; }
      sent := [Reply(Data, request.value.wireIndex + record.value)];
      if !port.sent { sent := sent + [CANCEL]; }
    }

    method Conclude(removeFile: bool) returns (removed: bool)
      modifies this
      ensures Abstract() == IDLE && removed == removeFile
    {
      active, frameCount, frameDataSize := false, 0, 0;
      removed := removeFile;
    }
  }

  lemma RecordsFrom(chunks: seq<seq<byte>>, i: nat)
    requires i <= |chunks|
    ensures i == |chunks| ==> Records(chunks[i..]) == []
    ensures i < |chunks| && Eligible(chunks[i]) ==> Records(chunks[i..]) == [chunks[i]] + Records(chunks[i + 1..])
    ensures i < |chunks| && !Eligible(chunks[i]) ==> Records(chunks[i..]) == Records(chunks[i + 1..])
  {
    if i < |chunks| {
      assert chunks[i..][1..] == chunks[i + 1..];
      assert [] + Records(chunks[i + 1..]) == Records(chunks[i + 1..]);
    }
  }

  /** The selection loop, with its 32-bit counter: the record with the one-based number `index`. */
  method SelectRecord(chunks: seq<seq<byte>>, index: nat) returns (record: Option<seq<byte>>)
    requires 0 < index < TWO_TO_THE_32
    ensures record == if index <= |Records(chunks)| then Some(Records(chunks)[index - 1]) else None
  {
    hide Records;
    var seen := 0;
    ghost var before: seq<seq<byte>> := [];
    assert chunks[0..] == chunks;
    RecordsFrom(chunks, |chunks|);
    for i := 0 to |chunks|
      invariant Records(chunks) == before + Records(chunks[i..])
      invariant |before| == seen < index
    {
      RecordsFrom(chunks, i);
      if Eligible(chunks[i]) {
        seen := (seen + 1) % TWO_TO_THE_32;
        before := before + [chunks[i]];
        if seen == index { return Some(chunks[i]); }
      }
    }
    return None;
  }
}
