/**
 What the three transfer families answer: exactly when a request is cancelled, over which runs a
 configuration request is served, and when the factory file is removed.
 */
module TransferAnswers {
  import opened Bytes
  import opened FrameCodec
  import opened ControllerTransfer
  import Exchange = FirmwareExchange
  import FW = FirmwareTransfer
  import Config = ConfigTransfer
  import Factory = FactoryTransfer

  // ----- Firmware -----

  /** A start is answered once, by a start if there is a file to send and by a cancellation otherwise. */
  lemma FirmwareStartAnswered(s: FW.Server, f: Frame, now: nat, port: FW.Port)
    requires f.kind % 16 == 1
    ensures var o := FW.Handle(s, f, now, port);
            && Exchange.Sends(o.actions) == [Frame(if port.exists_ then 0xC1 else 0xC5, [])]
            && Exchange.Published(o.actions) == (if port.exists_ then [FW.Publish(FW.Started, 0, s.frameCount)] else [])
            && o.server.active == o.server.waiting == port.exists_
  {
    assert FW.Elapsed(now, now) == 0;
    assert OperationOf(f.kind) == Start;
    Exchange.SendsOf(FW.Publish(FW.Started, 0, s.frameCount), Frame(0xC1, []));
    Exchange.SendsOf(FW.Publish(FW.Started, 0, s.frameCount), Frame(0xC5, []));
  }

  /** A geometry is refused when it is short, the file has no size, or its answer cannot be sent. */
  predicate GeometryFails(payload: seq<byte>, port: FW.Port) {
    |payload| < 6 || port.size.None? || (FromBigEndian(payload[4..6]) != 0 && !port.sent)
  }

  /** Memory, file and send that a data request needs. */
  predicate DataFails(s: FW.Server, payload: seq<byte>, port: FW.Port) {
    |payload| < 4 || !port.memory(4 + s.frameDataSize) || Unread(s, payload, port).None? ||
    (s.frameDataSize > 0 && Unread(s, payload, port).value != [] && !port.sent)
  }

  /** What the file gives for a request. */
  function Unread(s: FW.Server, payload: seq<byte>, port: FW.Port): Option<seq<byte>>
    requires |payload| >= 4
  {
    port.read(FW.BlockOffset(FromBigEndian(payload[..4]), s.frameDataSize), s.frameDataSize)
  }

  lemma SendsIn(actions: seq<FW.Action>, f: Frame)
    ensures f in Exchange.Sends(actions) <==> FW.Send(f) in actions
  {
    if actions != [] { SendsIn(actions[1..], f); }
  }

  /** The firmware server cancels exactly what it cannot serve. */
  lemma FirmwareCancelsExactly(s: FW.Server, f: Frame, now: nat, port: FW.Port)
    ensures Frame(0xC5, []) in Exchange.Sends(FW.Handle(s, f, now, port).actions) <==>
            match f.kind % 16
            case 1 => !port.exists_
            case 2 => GeometryFails(f.payload, port)
            case 3 => DataFails(s, f.payload, port)
            case _ => false
  {
    SendsIn(FW.Handle(s, f, now, port).actions, Frame(0xC5, []));
    DispatchCancels(s, f, now, port);
  }

  lemma DispatchCancels(s: FW.Server, f: Frame, now: nat, port: FW.Port)
    ensures FW.Send(Frame(0xC5, [])) in FW.Dispatch(s, f, now, port).actions <==>
            match f.kind % 16
            case 1 => !port.exists_
            case 2 => GeometryFails(f.payload, port)
            case 3 => DataFails(s, f.payload, port)
            case _ => false
  {
    hide FW.BlockCount, FW.BlockOffset, EncodeGeometry, WireIndex;
  }

  /** An error is published for the same requests, but not for missing files or data that cannot be sent. */
  lemma FirmwareErrorsExactly(s: FW.Server, f: Frame, now: nat, port: FW.Port)
    ensures (exists n :: FW.Publish(FW.Error, 0, n) in FW.Handle(s, f, now, port).actions) <==>
            match f.kind % 16
            case 2 => GeometryFails(f.payload, port)
            case 3 => |f.payload| < 4 || !port.memory(4 + s.frameDataSize) || Unread(s, f.payload, port).None?
            case _ => false
  {
    DispatchErrors(s, f, now, port);
    var o := FW.Dispatch(s, f, now, port);
    var all := FW.Handle(s, f, now, port).actions;
    assert forall a: FW.Action :: a in all ==> a in o.actions || a == FW.Publish(FW.TimedOut, 0, 0);
    assert forall a: FW.Action :: a in o.actions ==> a in all;
    if n :| FW.Publish(FW.Error, 0, n) in o.actions {
      assert FW.Publish(FW.Error, 0, n) in all;
    }
  }

  lemma DispatchErrors(s: FW.Server, f: Frame, now: nat, port: FW.Port)
    ensures (exists n :: FW.Publish(FW.Error, 0, n) in FW.Dispatch(s, f, now, port).actions) <==>
            match f.kind % 16
            case 2 => GeometryFails(f.payload, port)
            case 3 => |f.payload| < 4 || !port.memory(4 + s.frameDataSize) || Unread(s, f.payload, port).None?
            case _ => false
  {
    hide FW.BlockCount, FW.BlockOffset, EncodeGeometry, WireIndex;
  }

  /** A block size of zero, and nothing else, makes the server panic. */
  lemma FirmwarePanicsExactly(s: FW.Server, f: Frame, now: nat, port: FW.Port)
    ensures FW.Panic in FW.Handle(s, f, now, port).actions <==>
            f.kind % 16 == 2 && |f.payload| >= 6 && port.size.Some? && FromBigEndian(f.payload[4..6]) == 0
  {
    DispatchPanics(s, f, now, port);
    var o := FW.Dispatch(s, f, now, port);
    assert forall a: FW.Action :: a in FW.Handle(s, f, now, port).actions ==>
             a in o.actions || a == FW.Publish(FW.TimedOut, 0, 0);
  }

  lemma DispatchPanics(s: FW.Server, f: Frame, now: nat, port: FW.Port)
    ensures FW.Panic in FW.Dispatch(s, f, now, port).actions <==>
            f.kind % 16 == 2 && |f.payload| >= 6 && port.size.Some? && FromBigEndian(f.payload[4..6]) == 0
  {
    hide FW.BlockCount, FW.BlockOffset, EncodeGeometry, WireIndex;
  }

  /** What the file gives for a request is sent, cut to the block size, after the request's own four bytes. */
  lemma FirmwareDataAnswered(s: FW.Server, f: Frame, now: nat, port: FW.Port)
    requires f.kind % 16 == 3 && |f.payload| >= 4 && s.frameDataSize > 0 && port.memory(4 + s.frameDataSize)
    requires Unread(s, f.payload, port).Some? && Unread(s, f.payload, port).value != []
    ensures var data, actions := Unread(s, f.payload, port).value, FW.Handle(s, f, now, port).actions;
            var n := if |data| < s.frameDataSize then |data| else s.frameDataSize;
            && actions != [] && actions[0] == FW.Publish(FW.Progress, FromBigEndian(f.payload[..4]), s.frameCount)
            && Exchange.Sends(actions) != []
            && Exchange.Sends(actions)[0] == Frame(0xC3, f.payload[..4] + data[..n])
  {
    hide FW.BlockCount, FW.BlockOffset, EncodeGeometry, WireIndex, Exchange.Sends;
    var data, actions := Unread(s, f.payload, port).value, FW.Handle(s, f, now, port).actions;
    var n := if |data| < s.frameDataSize then |data| else s.frameDataSize;
    assert data[..|data|] == data;
    assert actions[0] == FW.Publish(FW.Progress, FromBigEndian(f.payload[..4]), s.frameCount);
    assert actions[1] == FW.Send(Frame(0xC3, f.payload[..4] + data[..n]));
    SecondIsSent(actions);
  }

  lemma SecondIsSent(actions: seq<FW.Action>)
    requires |actions| >= 2 && actions[0].Publish? && actions[1].Send?
    ensures Exchange.Sends(actions) != [] && Exchange.Sends(actions)[0] == actions[1].frame
  {
    assert actions[1..] != [] && actions[1..][0] == actions[1];
    assert Exchange.Sends(actions[1..]) == [actions[1].frame] + Exchange.Sends(actions[1..][1..]);
  }

  /** A good geometry is answered with the block count and the proposed size. */
  lemma FirmwareGeometryAnswered(s: FW.Server, f: Frame, now: nat, port: FW.Port)
    requires f.kind % 16 == 2 && |f.payload| >= 6 && port.size.Some? && FromBigEndian(f.payload[4..6]) != 0
    ensures var actions := FW.Handle(s, f, now, port).actions;
            var size := FromBigEndian(f.payload[4..6]);
            && actions != [] && actions[0].Send? && actions[0].frame.kind == 0xC2
            && ParseGeometry(actions[0].frame.payload) ==
               Some(GeometryFields(FW.BlockCount(port.size.value % TWO_TO_THE_32, size), size))
  {
    hide FW.BlockCount, FW.BlockOffset, EncodeGeometry, WireIndex;
  }

  /** When the server becomes and stays active, and when it waits for a data request. */
  lemma FirmwareActivity(s: FW.Server, f: Frame, now: nat, port: FW.Port)
    requires (s.waiting ==> s.active) && s.waitStarted <= now < TWO_TO_THE_64
    ensures var t := FW.Handle(s, f, now, port).server;
            match f.kind % 16
            case 1 => t.active == t.waiting == port.exists_ && (t.waiting ==> t.waitStarted == now)
            case 2 => t.active == t.waiting == s.active && (t.waiting ==> t.waitStarted == now)
            case 3 => t.active == s.active && !t.waiting
            case 4 => !t.active && !t.waiting
            case 5 => !t.active && !t.waiting
            case _ => if s.waiting && now - s.waitStarted >= 5000 then !t.active && !t.waiting else t == s
  {
    hide FW.BlockCount, FW.BlockOffset, EncodeGeometry, WireIndex;
    assert FW.Elapsed(now, now) == 0 && FW.Elapsed(now, s.waitStarted) == now - s.waitStarted;
  }

  // ----- Configuration -----

  /** The records that a request index asks for: indices 0 and 1 both mean all of them. */
  function Requested(port: Config.Port, payload: seq<byte>): seq<seq<byte>>
    requires |payload| >= 4 && port.chunks.Some?
  {
    var records, index := Config.Records(port.chunks.value), FromBigEndian(payload[..4]);
    if index == 0 || index == 1 then records else if index <= |records| then records[index..] else []
  }

  /** The reply is the four index bytes, whole records beginning with the one asked for, and a newline. */
  lemma ConfigurationDataAnswered(s: Config.State, f: Frame, port: Config.Port)
    requires f.kind % 16 == 3 && |f.payload| >= 4 && s.frameDataSize != 0 && port.chunks.Some?
    requires port.sent && forall size :: port.memory(size)
    ensures var records, sent := Requested(port, f.payload), Config.Handle(s, f, port).sent;
            if records == [] then sent == []
            else exists n :: 0 < n <= |records| &&
                   sent == [Frame(0xD3, f.payload[..4] + (Concat(records[..n]) + [10]))]
  {
    hide Config.Records, Config.Gather, Config.Bounded;
    var all, index := Config.Records(port.chunks.value), FromBigEndian(f.payload[..4]);
    var records := Requested(port, f.payload);
    assert OperationOf(f.kind) == Data;
    if records != [] {
      assert records == all[Config.Skip(index)..];
      Config.BoundedRest(all, Config.Skip(index));
      Config.GatherBounds([], records);
      var n := Config.Gather([], records).taken;
      assert Config.Handle(s, f, port).sent ==
             [Frame(0xD3, f.payload[..4] + (Config.Gather([], records).data + [10]))];
      assert Config.Gather([], records).data == Concat(records[..n]);
    }
  }

  /** A request that a configuration server with a geometry cannot serve. */
  predicate ConfigurationDataFails(s: Config.State, payload: seq<byte>, port: Config.Port) {
    |payload| < 4 ||
    (s.frameDataSize != 0 &&
     (port.chunks.None? || (Requested(port, payload) != [] && (!port.sent || NoRoom(port, payload)))))
  }

  predicate NoRoom(port: Config.Port, payload: seq<byte>)
    requires |payload| >= 4 && port.chunks.Some? && Requested(port, payload) != []
  {
    var data := Config.ReplyData(Config.Records(port.chunks.value), FromBigEndian(payload[..4]));
    data.Some? && !port.memory(4 + |data.value|)
  }

  /** The configuration server cancels exactly what it cannot serve. */
  lemma ConfigurationCancelsExactly(s: Config.State, f: Frame, port: Config.Port)
    ensures Frame(0xD5, []) in Config.Handle(s, f, port).sent <==>
            match f.kind % 16
            case 1 => !port.ack || !port.available
            case 2 => |f.payload| < 6 || port.chunks.None? || !port.sent
            case 3 => ConfigurationDataFails(s, f.payload, port)
            case _ => false
  {
    hide Config.Records, Config.Gather, Config.Bounded, Config.Announced, EncodeGeometry, WireIndex;
  }

  /** Every start of the configuration family is acknowledged, and every good geometry answered with the count. */
  lemma ConfigurationAnswers(s: Config.State, f: Frame, port: Config.Port)
    ensures f.kind % 16 == 1 ==> Frame(0xD1, []) in Config.Handle(s, f, port).sent
    ensures f.kind % 16 == 2 && |f.payload| >= 6 && port.chunks.Some? ==>
            var reply := Config.Handle(s, f, port).sent[0];
            reply.kind == 0xD2 && ParseGeometry(reply.payload) ==
            Some(GeometryFields(Config.Announced(port.chunks.value) % TWO_TO_THE_32, 512))
  {
    hide Config.Records, Config.Gather, Config.Bounded, Config.Announced, EncodeGeometry, WireIndex;
  }

  /**
   The family is active from a start with a configuration to read until a complete or cancel frame, and
   remembers the latest announced count for as long.
   */
  lemma ConfigurationActivity(s: Config.State, f: Frame, port: Config.Port)
    ensures Config.Handle(s, f, port).state.active ==
            match f.kind % 16
            case 1 => s.active || port.available
            case 4 => false
            case 5 => false
            case _ => s.active
    ensures Config.Handle(s, f, port).state.frameCount ==
            match f.kind % 16
            case 2 => if |f.payload| >= 6 && port.chunks.Some? then Config.Announced(port.chunks.value) % TWO_TO_THE_32
                      else s.frameCount
            case 4 => 0
            case 5 => 0
            case _ => s.frameCount
  {
    hide Config.Records, Config.Gather, Config.Bounded, Config.Announced, EncodeGeometry, WireIndex;
  }

  datatype Event = Event(frame: Frame, port: Config.Port)

  function Served(events: seq<Event>): Config.State
    decreases |events|
  {
    if events == [] then Config.IDLE
    else
      var last := events[|events| - 1];
      Config.Handle(Served(events[..|events| - 1]), last.frame, last.port).state
  }

  predicate Accepted(e: Event) { e.frame.kind % 16 == 2 && |e.frame.payload| >= 6 && e.port.chunks.Some? }

  predicate Concludes(e: Event) { e.frame.kind % 16 == 4 || e.frame.kind % 16 == 5 }

  /** An accepted geometry after which no frame concluded the transfer. */
  ghost predicate Standing(events: seq<Event>) {
    exists k :: 0 <= k < |events| && StandsSince(events, k)
  }

  predicate StandsSince(events: seq<Event>, k: nat)
    requires k < |events|
  {
    Accepted(events[k]) && forall l :: k < l < |events| ==> !Concludes(events[l])
  }

  lemma StandingNext(events: seq<Event>, e: Event)
    ensures Standing(events + [e]) <==> Accepted(e) || (Standing(events) && !Concludes(e))
  {
    hide Accepted;
    var all := events + [e];
    if Standing(events) && !Concludes(e) {
      var k :| 0 <= k < |events| && StandsSince(events, k);
      assert StandsSince(all, k);
    }
    if Accepted(e) { assert StandsSince(all, |events|); }
    if Standing(all) && !Accepted(e) {
      var k :| 0 <= k < |all| && StandsSince(all, k);
      assert all[|events|] == e && StandsSince(events, k) by {
        forall l | k < l < |events| ensures !Concludes(events[l]) { assert !Concludes(all[l]); }
      }
    }
  }

  lemma HandleKeepsGeometry(s: Config.State, e: Event)
    requires s.frameDataSize in {0, 512}
    ensures Config.Handle(s, e.frame, e.port).state.frameDataSize ==
            if Accepted(e) then 512 else if Concludes(e) then 0 else s.frameDataSize
  {
    hide Config.Records, Config.Gather, Config.Bounded, Config.Announced, EncodeGeometry, WireIndex;
  }

  /** Over every run data requests are served exactly while a geometry stands. */
  lemma {:induction false} ServedWhileStanding(events: seq<Event>)
    ensures Served(events).frameDataSize == if Standing(events) then 512 else 0
    decreases |events|
  {
    hide Standing, Accepted, Concludes, Config.Handle;
    if events == [] {
      NothingStands();
    } else {
      var before, last := events[..|events| - 1], events[|events| - 1];
      assert events == before + [last];
      ServedWhileStanding(before);
      StandingNext(before, last);
      HandleKeepsGeometry(Served(before), last);
    }
  }

  lemma NothingStands()
    ensures !Standing([])
  {
  }

  // ----- Factory -----

  /** The factory file is removed by a complete frame and by nothing else. */
  lemma FactoryFileRemovedExactly(s: Factory.State, f: Frame, port: Factory.Port)
    ensures Factory.Handle(s, f, port).removed <==> f.kind % 16 == 4
    ensures f.kind % 16 in {4, 5} ==>
            Factory.Handle(s, f, port).state == Factory.IDLE && Factory.Handle(s, f, port).sent == []
  {
    hide Factory.Records, EncodeGeometry, WireIndex;
  }

  datatype FactoryEvent = FactoryEvent(frame: Frame, port: Factory.Port)

  /** The state after a list of frames, and how often the file was removed. */
  function FactoryServed(events: seq<FactoryEvent>): (Factory.State, nat)
    decreases |events|
  {
    if events == [] then (Factory.IDLE, 0)
    else
      var last := events[|events| - 1];
      var (s, removals) := FactoryServed(events[..|events| - 1]);
      var o := Factory.Handle(s, last.frame, last.port);
      (o.state, removals + if o.removed then 1 else 0)
  }

  function Completions(events: seq<FactoryEvent>): nat
    decreases |events|
  {
    if events == [] then 0
    else Completions(events[..|events| - 1]) + if events[|events| - 1].frame.kind % 16 == 4 then 1 else 0
  }

  /** Over every run the file is removed once for every complete frame, whatever else arrives. */
  lemma {:induction false} RemovedOncePerCompletion(events: seq<FactoryEvent>)
    ensures FactoryServed(events).1 == Completions(events)
    decreases |events|
  {
    hide Factory.Handle;
    if events != [] {
      var before, last := events[..|events| - 1], events[|events| - 1];
      RemovedOncePerCompletion(before);
      FactoryFileRemovedExactly(FactoryServed(before).0, last.frame, last.port);
    }
  }

  /** A factory record that is asked for but cannot be fetched, stored or sent. */
  predicate FactoryDataFails(s: Factory.State, payload: seq<byte>, port: Factory.Port) {
    |payload| < 4 ||
    var index := FromBigEndian(payload[..4]);
    && index != 0 && s.frameDataSize != 0
    && (port.chunks.None? ||
        var records := Factory.Records(port.chunks.value);
        && index <= |records| && |records[index - 1]| <= 132 && |records[index - 1]| <= s.frameDataSize
        && (!port.sent || !port.memory(4 + |records[index - 1]|)))
  }

  /** The factory server cancels exactly what it cannot serve, an unusable block size included. */
  lemma FactoryCancelsExactly(s: Factory.State, f: Frame, port: Factory.Port)
    ensures Frame(0xE5, []) in Factory.Handle(s, f, port).sent <==>
            match f.kind % 16
            case 1 => !port.ack || !port.available
            case 2 => |f.payload| < 6 || !(1 <= FromBigEndian(f.payload[4..6]) <= 512) || port.chunks.None? ||
                      !port.sent
            case 3 => FactoryDataFails(s, f.payload, port)
            case _ => false
  {
    hide Factory.Records, EncodeGeometry, WireIndex;
  }

  /** Starts are acknowledged, good geometries answered with the count and the proposed size, and activity kept. */
  lemma FactoryAnswers(s: Factory.State, f: Frame, port: Factory.Port)
    ensures f.kind % 16 == 1 ==> Frame(0xE1, []) in Factory.Handle(s, f, port).sent
    ensures f.kind % 16 == 2 && |f.payload| >= 6 && 1 <= FromBigEndian(f.payload[4..6]) <= 512 && port.chunks.Some? ==>
            var reply := Factory.Handle(s, f, port).sent[0];
            reply.kind == 0xE2 && ParseGeometry(reply.payload) ==
            Some(GeometryFields(|Factory.Records(port.chunks.value)| % TWO_TO_THE_32, FromBigEndian(f.payload[4..6])))
    ensures Factory.Handle(s, f, port).state.active ==
            match f.kind % 16
            case 1 => s.active || port.available
            case 4 => false
            case 5 => false
            case _ => s.active
  {
    hide Factory.Records, EncodeGeometry, WireIndex;
  }
}
