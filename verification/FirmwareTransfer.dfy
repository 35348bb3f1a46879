/**
 The mainboard's side of the controller firmware exchange (packets 0xC1 to 0xC5): the specification
 of every handler, the class whose methods update the fields, and what holds over whole runs.
 */
module FirmwareTransfer {
  import opened Bytes
  import opened FrameCodec
  import opened ControllerTransfer

  const WAIT_TIMEOUT_MILLISECONDS: nat := 5000

  datatype Event = Started | Progress | Error | Completed | Cancelled | TimedOut

  /** What a handler asks of its port, in order. Diagnostic texts are not part of the model. */
  datatype Action = Send(frame: Frame) | Publish(event: Event, index: nat, frameCount: nat) | Panic

  /**
   The answers the port gives during one call. `sent` is the fate of the geometry or data reply;
   the results of all other sends are discarded by the code.
   */
  datatype Port = Port(exists_: bool, size: Option<nat>, memory: nat -> bool,
                       read: (nat, nat) -> Option<seq<byte>>, sent: bool)

  datatype Server = Server(active: bool, waiting: bool, waitStarted: nat,
                           frameCount: nat, frameDataSize: nat)

  const IDLE := Server(false, false, 0, 0, 0)

  datatype Outcome = Outcome(server: Server, actions: seq<Action>)

  // ----- Specification -----

  function Reply(op: Operation, payload: seq<byte>): Action {
    Send(Packet(FIRMWARE_FAMILY, op, payload))
  }

  function ErrorReport(s: Server): seq<Action> {
    [Reply(Cancel, []), Publish(Error, 0, s.frameCount)]
  }

  function OnStart(s: Server, now: nat, port: Port): Outcome {
    if !port.exists_ then Outcome(s.(active := false, waiting := false), [Reply(Cancel, [])])
    else Outcome(s.(active := true, waiting := true, waitStarted := now),
                 [Publish(Started, 0, s.frameCount), Reply(Start, [])])
  }

  function Rearm(s: Server, now: nat): Server {
    if s.active then s.(waiting := true, waitStarted := now) else s
  }

  /** Number of blocks of `size` bytes that cover a file whose size is `low` modulo 2^32. */
  function BlockCount(low: nat, size: nat): (n: nat)
    requires size > 0
    ensures n * size >= low && (n > 0 ==> (n - 1) * size < low)
    ensures n <= low
  {
    DivideUp(low, size);
    low / size + (if low % size > 0 then 1 else 0)
  }

  lemma DivideUp(low: nat, size: nat)
    requires size > 0
    ensures var n := low / size + (if low % size > 0 then 1 else 0);
            n * size >= low && (n > 0 ==> (n - 1) * size < low) && n <= low
  {
    RoundUp(low, size, low / size, low % size);
  }

  lemma RoundUp(low: nat, size: nat, q: nat, r: nat)
    requires low == size * q + r && r < size
    ensures var n := q + if r > 0 then 1 else 0;
            n * size >= low && (n > 0 ==> (n - 1) * size < low) && n <= low
  {
    assert (q + 1) * size == size * q + size;
    assert (q - 1) * size == size * q - size;
    assert size * q >= q;
  }

  function OnGeometry(s: Server, payload: seq<byte>, now: nat, port: Port): Outcome {
    var proposed := ParseGeometry(payload);
    var t := Rearm(s, now);
    if proposed.None? then Outcome(t, ErrorReport(s))
    else
      var u := t.(frameCount := proposed.value.frameCount, frameDataSize := proposed.value.frameDataSize);
      if port.size.None? then Outcome(u, ErrorReport(u))
      else if u.frameDataSize == 0 then Outcome(u, [Panic])
      else
        var count := BlockCount(port.size.value % TWO_TO_THE_32, u.frameDataSize);
        var v := u.(frameCount := count);
        var reply := [Reply(Geometry, EncodeGeometry(count, u.frameDataSize))];
        Outcome(v, reply + if port.sent then [] else ErrorReport(v))
  }

  /** 32-bit byte offset of a one-based block index; index 0 means the first block as well. */
  function BlockOffset(index: nat, size: nat): (offset: nat)
    ensures offset < TWO_TO_THE_32
  {
    (if index <= 1 then 0 else index - 1) * size % TWO_TO_THE_32
  }

  function OnData(s: Server, payload: seq<byte>, port: Port): Outcome {
    var request := ParseDataRequest(payload);
    var t := if s.active then s.(waiting := false) else s;
    if request.None? || !port.memory(4 + s.frameDataSize) then Outcome(t, ErrorReport(t))
    else
      var data := port.read(BlockOffset(request.value.index, s.frameDataSize), s.frameDataSize);
      if data.None? then Outcome(t, ErrorReport(t))
      else if s.frameDataSize == 0 || data.value == [] then Outcome(t, [])
      else
        var block := if |data.value| > s.frameDataSize then data.value[..s.frameDataSize] else data.value;
        Outcome(t, [Publish(Progress, request.value.index, s.frameCount),
                    Reply(Data, request.value.wireIndex + block)] +
                   if port.sent then [] else [Reply(Cancel, [])])
  }

  function Finish(s: Server, event: Event): Outcome {
    Outcome(s.(active := false, waiting := false), [Publish(event, 0, 0)])
  }

  /** Elapsed time in 64-bit arithmetic. */
  function Elapsed(now: nat, start: nat): nat { (now - start) % TWO_TO_THE_64 }

  function TimeoutDue(s: Server, now: nat): bool {
    s.active && s.waiting && Elapsed(now, s.waitStarted) >= WAIT_TIMEOUT_MILLISECONDS
  }

  function Dispatch(s: Server, f: Frame, now: nat, port: Port): Outcome {
    match OperationOf(f.kind)
    case Start => OnStart(s, now, port)
    case Geometry => OnGeometry(s, f.payload, now, port)
    case Data => OnData(s, f.payload, port)
    case Complete => Finish(s, Completed)
    case Cancel => Finish(s, Cancelled)
    case Unknown => Outcome(s, [])
  }

  function Handle(s: Server, f: Frame, now: nat, port: Port): Outcome {
    var o := Dispatch(s, f, now, port);
    if TimeoutDue(o.server, now) then
      var finished := Finish(o.server, TimedOut);
      Outcome(finished.server, o.actions + finished.actions)
    else o
  }

  // ----- The class -----

  class ControllerFirmwareTransfer {
    var active: bool
    var waiting: bool
    var waitStarted: nat
    var frameCount: nat
    var frameDataSize: nat

    function State(): Server
      reads this
    {
      Server(active, waiting, waitStarted, frameCount, frameDataSize)
    }

    constructor ()
      ensures State() == IDLE
    {
      active, waiting, waitStarted, frameCount, frameDataSize := false, false, 0, 0, 0;
    }

    method Process(frame: Frame, now: nat, port: Port) returns (actions: seq<Action>)
      modifies this
      ensures Outcome(State(), actions) == Handle(old(State()), frame, now, port)
    {
      actions := [];
      match OperationOf(frame.kind) {
        case Start => actions := HandleStart(now, port);
        case Geometry => actions := HandleGeometry(frame.payload, now, port);
        case Data => actions := HandleData(frame.payload, port);
        case Complete => actions := Conclude(Completed);
        case Cancel => actions := Conclude(Cancelled);
        case Unknown =>
      }
      var elapsed := (now - waitStarted) % TWO_TO_THE_64;
      if active && waiting && elapsed >= WAIT_TIMEOUT_MILLISECONDS {
        var last := Conclude(TimedOut);
        actions := actions + last;
      }
    }

    method HandleStart(now: nat, port: Port) returns (actions: seq<Action>)
      modifies this
      ensures Outcome(State(), actions) == OnStart(old(State()), now, port)
    {
      if !port.exists_ {
        active, waiting := false, false;
        actions := [Reply(Cancel, [])];
        return;
      }
      active, waiting, waitStarted := true, true, now;
      actions := [Publish(Started, 0, frameCount), Reply(Start, [])];
    }

    method HandleGeometry(payload: seq<byte>, now: nat, port: Port) returns (actions: seq<Action>)
      modifies this
      ensures Outcome(State(), actions) == OnGeometry(old(State()), payload, now, port)
    {
      var proposed := ParseGeometry(payload);
      if proposed.None? {
        actions := ErrorReport(State());
        if active { waiting, waitStarted := true, now; }
        return;
      }
      frameCount, frameDataSize := proposed.value.frameCount, proposed.value.frameDataSize;
      if active { waiting, waitStarted := true, now; }
      if port.size.None? {
        actions := ErrorReport(State());
        return;
      }
      if frameDataSize == 0 {
        actions := [Panic];
        return;
      }
      var low := port.size.value % TWO_TO_THE_32;
      frameCount := BlockCount(low, frameDataSize);
      actions := [Reply(Geometry, EncodeGeometry(frameCount, frameDataSize))];
      if !port.sent { actions := actions + ErrorReport(State()); }
    }

    method HandleData(payload: seq<byte>, port: Port) returns (actions: seq<Action>)
      modifies this
      ensures Outcome(State(), actions) == OnData(old(State()), payload, port)
    {
      var request := ParseDataRequest(payload);
      if active { waiting := false; }
      if request.None? || !port.memory(4 + frameDataSize) {
        actions := ErrorReport(State());
        return;
      }
      var data := port.read(BlockOffset(request.value.index, frameDataSize), frameDataSize);
      if data.None? {
        actions := ErrorReport(State());
        return;
      }
      if frameDataSize == 0 || data.value == [] { return []; }
      var block := data.value;
      if |block| > frameDataSize { block := block[..frameDataSize]; }
      actions := [Publish(Progress, request.value.index, frameCount),
                  Reply(Data, request.value.wireIndex + block)];
      if !port.sent { actions := actions + [Reply(Cancel, [])]; }
    }

    method Conclude(event: Event) returns (actions: seq<Action>)
      modifies this
      ensures Outcome(State(), actions) == Finish(old(State()), event)
    {
      active, waiting := false, false;
      actions := [Publish(event, 0, 0)];
    }
  }

  // ----- Whole runs -----

  datatype Input = Input(frame: Frame, now: nat, port: Port)

  /** State and all actions after a list of frames, from the initial state. */
  function Serve(inputs: seq<Input>): Outcome
    decreases |inputs|
  {
    if inputs == [] then Outcome(IDLE, [])
    else
      var last := inputs[|inputs| - 1];
      var before := Serve(inputs[..|inputs| - 1]);
      var o := Handle(before.server, last.frame, last.now, last.port);
      Outcome(o.server, before.actions + o.actions)
  }

  /** Time never runs backwards and fits 64 bits. */
  predicate Ordered(inputs: seq<Input>) {
    && (forall i :: 0 <= i < |inputs| ==> inputs[i].now < TWO_TO_THE_64)
    && (forall i, j :: 0 <= i < j < |inputs| ==> inputs[i].now <= inputs[j].now)
  }

  /** Time of the latest start or geometry frame. */
  function LatestArming(inputs: seq<Input>): Option<nat>
    decreases |inputs|
  {
    if inputs == [] then None
    else
      var last := inputs[|inputs| - 1];
      if OperationOf(last.frame.kind) in {Start, Geometry} then Some(last.now)
      else LatestArming(inputs[..|inputs| - 1])
  }

  function Count(actions: seq<Action>, event: Event): nat {
    if actions == [] then 0
    else (if actions[0].Publish? && actions[0].event == event then 1 else 0) + Count(actions[1..], event)
  }

  lemma {:induction false} CountAppend(a: seq<Action>, b: seq<Action>, event: Event)
    ensures Count(a + b, event) == Count(a, event) + Count(b, event)
  {
    if a == [] {
      assert a + b == b;
    } else {
      assert (a + b)[1..] == a[1..] + b;
      CountAppend(a[1..], b, event);
    }
  }

  /** What every reachable state satisfies. */
  predicate Reachable(inputs: seq<Input>) {
    var o := Serve(inputs);
    && (o.server.waiting ==> o.server.active)
    && (o.server.waiting ==> LatestArming(inputs) == Some(o.server.waitStarted))
    && Count(o.actions, TimedOut) + (if o.server.active then 1 else 0) <= Count(o.actions, Started)
  }

  lemma {:induction false} ReachableAlways(inputs: seq<Input>)
    ensures Reachable(inputs)
    decreases |inputs|
  {
    if inputs != [] {
      var history, last := inputs[..|inputs| - 1], inputs[|inputs| - 1];
      var before := Serve(history);
      var o := Handle(before.server, last.frame, last.now, last.port);
      ReachableAlways(history);
      CountAppend(before.actions, o.actions, TimedOut);
      CountAppend(before.actions, o.actions, Started);
      HandleKeeps(before.server, last);
    }
  }

  lemma HandleKeeps(s: Server, i: Input)
    requires s.waiting ==> s.active
    ensures var o := Handle(s, i.frame, i.now, i.port);
            && (o.server.waiting ==> o.server.active)
            && (o.server.waiting ==>
                  o.server.waitStarted ==
                  if OperationOf(i.frame.kind) in {Start, Geometry} then i.now else s.waitStarted)
            && (o.server.waiting && OperationOf(i.frame.kind) !in {Start, Geometry} ==> s.waiting)
            && Count(o.actions, TimedOut) + (if o.server.active then 1 else 0) <=
               Count(o.actions, Started) + (if s.active then 1 else 0)
  {
    var o := Dispatch(s, i.frame, i.now, i.port);
    CountDispatch(s, i);
    CountAppend(o.actions, [Publish(TimedOut, 0, 0)], TimedOut);
    CountAppend(o.actions, [Publish(TimedOut, 0, 0)], Started);
    CountOne(Publish(TimedOut, 0, 0));
  }

  lemma CountOne(a: Action)
    requires a.Publish?
    ensures forall e: Event :: Count([a], e) == if a.event == e then 1 else 0
  {
    forall e: Event ensures Count([a], e) == if a.event == e then 1 else 0 {
      assert [a][1..] == [];
    }
  }

  /** How many timeouts and starts a list of actions publishes. */
  predicate Counts(a: seq<Action>, timeouts: nat, starts: nat) {
    Count(a, TimedOut) == timeouts && Count(a, Started) == starts
  }

  /** No handler publishes a timeout, and only a start of an available file publishes a start. */
  lemma CountDispatch(s: Server, i: Input)
    ensures Counts(Dispatch(s, i.frame, i.now, i.port).actions, 0,
                   if OperationOf(i.frame.kind) == Start && i.port.exists_ then 1 else 0)
  {
    hide OnStart, OnGeometry, OnData, Finish, Counts, OperationOf;
    match OperationOf(i.frame.kind)
    case Start => CountStart(s, i.now, i.port);
    case Geometry => CountGeometry(s, i.frame.payload, i.now, i.port);
    case Data => CountData(s, i.frame.payload, i.port);
    case Complete => CountFinish(s, Completed);
    case Cancel => CountFinish(s, Cancelled);
    case Unknown => CountQuiet([]);
  }

  lemma CountQuiet(a: seq<Action>)
    requires forall k :: 0 <= k < |a| && a[k].Publish? ==> a[k].event != TimedOut && a[k].event != Started
    ensures Counts(a, 0, 0)
  {
    CountNone(a, TimedOut);
    CountNone(a, Started);
  }

  lemma CountStart(s: Server, now: nat, port: Port)
    ensures Counts(OnStart(s, now, port).actions, 0, if port.exists_ then 1 else 0)
  {
    hide Packet;
    var a := OnStart(s, now, port).actions;
    CountNone(a, TimedOut);
    if port.exists_ { CountNone(a[1..], Started); } else { CountNone(a, Started); }
  }

  lemma CountGeometry(s: Server, payload: seq<byte>, now: nat, port: Port)
    ensures Counts(OnGeometry(s, payload, now, port).actions, 0, 0)
  {
    hide Packet, ParseGeometry, EncodeGeometry, BlockCount, Counts;
    CountQuiet(OnGeometry(s, payload, now, port).actions);
  }

  lemma CountData(s: Server, payload: seq<byte>, port: Port)
    ensures Counts(OnData(s, payload, port).actions, 0, 0)
  {
    hide Packet, ParseDataRequest, BlockOffset, Counts;
    CountQuiet(OnData(s, payload, port).actions);
  }

  lemma CountFinish(s: Server, event: Event)
    requires event != TimedOut && event != Started
    ensures Counts(Finish(s, event).actions, 0, 0)
  {
    CountQuiet(Finish(s, event).actions);
  }

  lemma {:induction false} CountNone(a: seq<Action>, event: Event)
    requires forall k :: 0 <= k < |a| ==> a[k].Publish? ==> a[k].event != event
    ensures Count(a, event) == 0
  {
    if a != [] { CountNone(a[1..], event); }
  }

  /**
   A timeout is published exactly while an unknown operation of the family is handled, with an
   armed wait, at least five seconds after the latest start or geometry frame.
   */
  lemma TimeoutExactly(history: seq<Input>, i: Input)
    requires Ordered(history + [i])
    ensures var s := Serve(history).server;
            Count(Handle(s, i.frame, i.now, i.port).actions, TimedOut) > 0 <==>
            && OperationOf(i.frame.kind) == Unknown
            && s.active && s.waiting
            && LatestArming(history).Some?
            && i.now - LatestArming(history).value >= 5000
  {
    hide Serve, Handle, Ordered, TimeoutDue, Dispatch;
    var s := Serve(history).server;
    Armed(history);
    LastTimeInRange(history, i);
    TimeoutOnCall(s, i);
    if s.waiting {
      ArmingInThePast(history, i);
      DueIsElapsed(s, i.now);
    } else {
      NotDue(s, i.now);
    }
  }

  lemma Armed(history: seq<Input>)
    ensures var s := Serve(history).server;
            s.waiting ==> s.active && LatestArming(history) == Some(s.waitStarted)
  {
    ReachableAlways(history);
  }

  lemma LastTimeInRange(history: seq<Input>, i: Input)
    requires Ordered(history + [i])
    ensures i.now < TWO_TO_THE_64
  {
    assert (history + [i])[|history|] == i;
  }

  lemma DueIsElapsed(s: Server, now: nat)
    requires s.active && s.waiting && s.waitStarted <= now < TWO_TO_THE_64
    ensures TimeoutDue(s, now) <==> now - s.waitStarted >= WAIT_TIMEOUT_MILLISECONDS
  {
  }

  lemma NotDue(s: Server, now: nat)
    requires !s.waiting
    ensures !TimeoutDue(s, now)
  {
  }

  lemma TimeoutOnCall(s: Server, i: Input)
    requires s.waiting ==> s.active
    requires i.now < TWO_TO_THE_64
    ensures Count(Handle(s, i.frame, i.now, i.port).actions, TimedOut) > 0 <==>
            OperationOf(i.frame.kind) == Unknown && TimeoutDue(s, i.now)
  {
    var o := Dispatch(s, i.frame, i.now, i.port);
    CountDispatch(s, i);
    CountAppend(o.actions, [Publish(TimedOut, 0, 0)], TimedOut);
    CountOne(Publish(TimedOut, 0, 0));
  }

  lemma {:induction false} ArmingInThePast(history: seq<Input>, i: Input)
    requires Ordered(history + [i]) && LatestArming(history).Some?
    ensures LatestArming(history).value <= i.now < TWO_TO_THE_64
    decreases |history|
  {
    var n := |history| - 1;
    var all := history + [i];
    assert all[n] == history[n] && all[n + 1] == i;
    if OperationOf(history[n].frame.kind) !in {Start, Geometry} {
      var shorter := history[..n] + [i];
      forall k | 0 <= k < |shorter| ensures shorter[k] == if k < n then all[k] else all[n + 1] {}
      ArmingInThePast(history[..n], i);
    }
  }

  /** Over every run timeouts never outnumber starts. */
  lemma TimeoutsNeverOutnumberStarts(inputs: seq<Input>)
    ensures Count(Serve(inputs).actions, TimedOut) <= Count(Serve(inputs).actions, Started)
  {
    ReachableAlways(inputs);
  }
}
