/** The firmware exchange with each of the peer's injected faults: how it ends, and what is published. */
module FaultedExchange {
  import opened Bytes
  import opened FrameCodec
  import opened ControllerTransfer
  import opened FirmwareExchange
  import Mock = MockController
  import FW = FirmwareTransfer

  const STARTED := FW.Publish(FW.Started, 0, 0)

  /** The peer has just asked for a transfer, with a fault armed. */
  function BeginningWith(size: nat, fault: Mock.Fault): World {
    var r := Mock.Started(Mock.Peer(0, Mock.NoFault, 0, 0, size), FIRMWARE_FAMILY, fault);
    World(FW.IDLE, r.peer, r.queued, [], [], [])
  }

  /** What the peer sends at once when its start is acknowledged. */
  function Opening(fault: Mock.Fault, size: nat): seq<Frame>
    requires size < 0x1_0000
  {
    match fault
    case MalformedGeometry => [Packet(FIRMWARE_FAMILY, Geometry, [0])]
    case Timeout => []
    case _ => [Packet(FIRMWARE_FAMILY, Geometry, EncodeGeometry(0, size))]
  }

  lemma PeerOnAck(p: Mock.Peer)
    requires p.blockSize < 0x1_0000 && p.count < TWO_TO_THE_32 && p.family == FIRMWARE_FAMILY
    ensures var ack := Packet(FIRMWARE_FAMILY, Start, []);
            && BlockOf(ack) == [] && Mock.Responded(p, ack).peer == p
            && Mock.Responded(p, ack).queued == Opening(p.fault, p.blockSize)
            && Mock.Responded(p, ack).delay ==
               if p.fault.Timeout? then Mock.Set(Packet(FIRMWARE_FAMILY, Unknown, [])) else Mock.Keep
  {
    hide EncodeGeometry, ParseGeometry, ParseDataRequest, WireIndex, Packet, OperationOf;
  }

  /** The first two steps, whatever the fault. */
  lemma Acknowledged(port: FW.Port, size: nat, fault: Mock.Fault, t: nat, u: nat)
    requires size < 0x1_0000 && port.exists_
    ensures Step(Step(BeginningWith(size, fault), t, port), u, port) ==
            World(FW.Server(true, true, t, 0, 0), Mock.Peer(FIRMWARE_FAMILY, fault, 0, 0, size),
                  Opening(fault, size), [], [], [STARTED])
  {
    var w := BeginningWith(size, fault);
    hide FW.Handle, Packet, Mock.Responded, BlockOf, Step, Opening;
    var ack := Packet(FIRMWARE_FAMILY, Start, []);
    PeerOnAck(w.peer);
    ServeStart(w.server, t, port);
    SendsOf(STARTED, ack);
    ServerTurn(w, t, port, FW.Outcome(FW.Server(true, true, t, 0, 0), [STARTED, FW.Send(ack)]));
    PeerTurn(Step(w, t, port), u, port, ack);
    assert [] + [STARTED] == [STARTED];
  }

  /** Nothing is in flight and both parties are idle. */
  predicate Ended(w: World) { Quiescent(w) && w.peer.family == 0 && !w.server.active && w.delivered == [] }

  /** The last step of an exchange that the peer cancelled before any block. */
  lemma CancelArrives(w: World, t: nat, port: FW.Port)
    requires Sane(w) && w.toServer == [Packet(FIRMWARE_FAMILY, Cancel, [])] && w.toPeer == []
    requires w.peer.family == 0 && w.delivered == []
    ensures Ended(Step(w, t, port))
    ensures Step(w, t, port).events == w.events + [FW.Publish(FW.Cancelled, 0, 0)]
  {
    var event := FW.Publish(FW.Cancelled, 0, 0);
    var o := FW.Handle(w.server, w.toServer[0], t, port);
    assert o.actions == [event] && !o.server.active;
    SendsOf(event, Frame(0, []));
    hide FW.Handle, Packet, Step;
    ServerTurn(w, t, port, o);
  }

  /** The three steps after the acknowledgement when the peer answers the next reply by cancelling. */
  lemma CancelledAfter(w: World, t: seq<nat>, port: FW.Port, o: FW.Outcome, reply: Frame, events: seq<FW.Action>)
    requires Sane(w) && |t| == 3 && |w.toServer| == 1 && w.toPeer == [] && w.delivered == []
    requires FW.Handle(w.server, w.toServer[0], t[0], port) == o
    requires Sends(o.actions) == [reply] && Published(o.actions) == events && BlockOf(reply) == []
    requires var r := Mock.Responded(w.peer, reply);
             r.peer.family == 0 && r.queued == [Packet(FIRMWARE_FAMILY, Cancel, [])]
    ensures var end := Step(Step(Step(w, t[0], port), t[1], port), t[2], port);
            Ended(end) && end.events == w.events + events + [FW.Publish(FW.Cancelled, 0, 0)]
  {
    hide FW.Handle, Packet, Mock.Responded, BlockOf, Step, Sends, Published;
    ServerTurn(w, t[0], port, o);
    var a := Step(w, t[0], port);
    PeerTurn(a, t[1], port, reply);
    assert [] + BlockOf(reply) == [];
    CancelArrives(Step(a, t[1], port), t[2], port);
  }

  /** A short geometry is reported as an error, and the peer cancels when it is told. */
  lemma MalformedGeometryEnds(port: FW.Port, size: nat, t: seq<nat>)
    requires size < 0x1_0000 && port.exists_ && |t| == 5
    ensures var w := Step(Step(BeginningWith(size, Mock.MalformedGeometry), t[0], port), t[1], port);
            var end := Step(Step(Step(w, t[2], port), t[3], port), t[4], port);
            Ended(end) && end.events == [STARTED, FW.Publish(FW.Error, 0, 0), FW.Publish(FW.Cancelled, 0, 0)]
  {
    var w := World(FW.Server(true, true, t[0], 0, 0), Mock.Peer(FIRMWARE_FAMILY, Mock.MalformedGeometry, 0, 0, size),
                   Opening(Mock.MalformedGeometry, size), [], [], [STARTED]);
    Acknowledged(port, size, Mock.MalformedGeometry, t[0], t[1]);
    var reply, event := Packet(FIRMWARE_FAMILY, Cancel, []), FW.Publish(FW.Error, 0, 0);
    var o := FW.Outcome(FW.Server(true, true, t[2], 0, 0), [FW.Send(reply), event]);
    ServeShortGeometry(w.server, t[2], port);
    SendsOf(event, reply);
    PeerOnCancel(w.peer);
    hide FW.Handle, Packet, Mock.Responded, BlockOf, Step, Sends, Published;
    CancelledAfter(w, t[2..], port, o, reply, [event]);
    assert [STARTED] + [event] + [FW.Publish(FW.Cancelled, 0, 0)] == [STARTED, event, FW.Publish(FW.Cancelled, 0, 0)];
  }

  lemma ServeShortGeometry(s: FW.Server, now: nat, port: FW.Port)
    requires s.active && s.frameCount == 0
    ensures FW.Handle(s, Packet(FIRMWARE_FAMILY, Geometry, [0]), now, port) ==
            FW.Outcome(s.(waiting := true, waitStarted := now),
                       [FW.Reply(Cancel, []), FW.Publish(FW.Error, 0, 0)])
  {
    assert FW.Elapsed(now, now) == 0;
  }

  /** A peer that cancels on the announcement ends the exchange without an error. */
  lemma ControllerCancelEnds(longMax: nat, file: seq<byte>, size: nat, t: seq<nat>)
    requires 0 < size < 0x1_0000 && |t| == 5
    ensures var port := FilePort(longMax, file);
            var w := Step(Step(BeginningWith(size, Mock.ControllerCancel), t[0], port), t[1], port);
            var end := Step(Step(Step(w, t[2], port), t[3], port), t[4], port);
            Ended(end) && end.events == [STARTED, FW.Publish(FW.Cancelled, 0, 0)]
  {
    hide Step, Ended, FilePort, EncodeGeometry, Packet;
    PortHasFile(longMax, file);
    Acknowledged(FilePort(longMax, file), size, Mock.ControllerCancel, t[0], t[1]);
    AnnouncementCancelled(longMax, file, size, t[0], t[2..]);
  }

  lemma AnnouncementCancelled(longMax: nat, file: seq<byte>, size: nat, s: nat, t: seq<nat>)
    requires 0 < size < 0x1_0000 && |t| == 3
    ensures var port := FilePort(longMax, file);
            var w := World(FW.Server(true, true, s, 0, 0),
                           Mock.Peer(FIRMWARE_FAMILY, Mock.ControllerCancel, 0, 0, size),
                           Opening(Mock.ControllerCancel, size), [], [], [STARTED]);
            var end := Step(Step(Step(w, t[0], port), t[1], port), t[2], port);
            Ended(end) && end.events == [STARTED, FW.Publish(FW.Cancelled, 0, 0)]
  {
    hide EncodeGeometry, ParseGeometry, FW.Handle, Step, Announced, Mock.Responded, BlockOf, OperationOf, FamilyOf,
         FilePort, Ended;
    var port := FilePort(longMax, file);
    var w := World(FW.Server(true, true, s, 0, 0), Mock.Peer(FIRMWARE_FAMILY, Mock.ControllerCancel, 0, 0, size),
                   Opening(Mock.ControllerCancel, size), [], [], [STARTED]);
    var n := Announced(|file|, size);
    var reply := Packet(FIRMWARE_FAMILY, Geometry, EncodeGeometry(n, size));
    ServeProposal(w.server, t[0], longMax, file, size);
    SendsOf(STARTED, reply);
    PeerCancels(w.peer, n);
    hide Packet, Sends, Published;
    CancelledAfter(w, t, port, FW.Outcome(FW.Server(true, true, t[0], n, size), [FW.Send(reply)]), reply, []);
    assert [STARTED] + [] + [FW.Publish(FW.Cancelled, 0, 0)] == [STARTED, FW.Publish(FW.Cancelled, 0, 0)];
  }

  lemma PeerCancels(p: Mock.Peer, n: nat)
    requires 0 < p.blockSize < 0x1_0000 && p.count < TWO_TO_THE_32 && n < TWO_TO_THE_32
    requires p.family == FIRMWARE_FAMILY && p.fault.ControllerCancel?
    ensures var announcement := Packet(FIRMWARE_FAMILY, Geometry, EncodeGeometry(n, p.blockSize));
            var r := Mock.Responded(p, announcement);
            BlockOf(announcement) == [] && r.peer.family == 0 && r.queued == [Packet(FIRMWARE_FAMILY, Cancel, [])]
  {
    hide EncodeGeometry, ParseGeometry, ParseDataRequest, WireIndex, OperationOf;
  }

  /**
   A peer that goes silent after the acknowledgement leaves the server waiting; its late frame of
   an unknown operation times the transfer out exactly when five seconds have passed.
   */
  lemma SilenceTimesOut(port: FW.Port, size: nat, t: nat, u: nat, now: nat)
    requires size < 0x1_0000 && port.exists_ && t <= now < TWO_TO_THE_64
    ensures var w := Step(Step(BeginningWith(size, Mock.Timeout), t, port), u, port);
            var o := FW.Handle(w.server, Packet(FIRMWARE_FAMILY, Unknown, []), now, port);
            && Quiescent(w) && w.server.waiting && w.events == [STARTED]
            && (if now - t >= 5000
                then !o.server.active && o.actions == [FW.Publish(FW.TimedOut, 0, 0)]
                else o == FW.Outcome(w.server, []))
  {
    hide Step, Packet;
    Acknowledged(port, size, Mock.Timeout, t, u);
    UnknownArrives(FW.Server(true, true, t, 0, 0), now, port);
  }

  lemma UnknownArrives(s: FW.Server, now: nat, port: FW.Port)
    requires s.active && s.waiting && s.waitStarted <= now < TWO_TO_THE_64
    ensures FW.Handle(s, Packet(FIRMWARE_FAMILY, Unknown, []), now, port) ==
            if now - s.waitStarted >= 5000
            then FW.Outcome(s.(active := false, waiting := false), [FW.Publish(FW.TimedOut, 0, 0)])
            else FW.Outcome(s, [])
  {
    hide EncodeGeometry, ParseGeometry, ParseDataRequest, FW.BlockCount, FW.BlockOffset, Packet, OperationOf;
    assert FW.Elapsed(now, s.waitStarted) == now - s.waitStarted;
    assert [] + [FW.Publish(FW.TimedOut, 0, 0)] == [FW.Publish(FW.TimedOut, 0, 0)];
  }

  /** Without a file to send the announcement is cancelled at once, and nothing else is published. */
  lemma MissingFileEnds(port: FW.Port, size: nat, fault: Mock.Fault, t: seq<nat>)
    requires size < 0x1_0000 && !port.exists_ && |t| == 3
    ensures var end := Step(Step(Step(BeginningWith(size, fault), t[0], port), t[1], port), t[2], port);
            Ended(end) && end.events == [FW.Publish(FW.Cancelled, 0, 0)]
  {
    var w := BeginningWith(size, fault);
    var reply := Packet(FIRMWARE_FAMILY, Cancel, []);
    var o := FW.Outcome(FW.IDLE, [FW.Send(reply)]);
    assert FW.Handle(w.server, w.toServer[0], t[0], port) == o;
    SendsOf(STARTED, reply);
    PeerOnCancel(w.peer);
    hide FW.Handle, Packet, Mock.Responded, BlockOf, Step, Sends, Published;
    CancelledAfter(w, t, port, o, reply, []);
    assert [] + [] + [FW.Publish(FW.Cancelled, 0, 0)] == [FW.Publish(FW.Cancelled, 0, 0)];
  }
}
