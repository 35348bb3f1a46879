/**
 The two parties together: every run of the firmware server with a fault-free peer, at any pace,
 for any unchanged file and any proposed block size.
 */
module FirmwareExchange {
  import opened Arithmetic
  import opened Bytes
  import opened FrameCodec
  import opened ControllerTransfer
  import opened TransferAdapter
  import Mock = MockController
  import FW = FirmwareTransfer

  /** Both parties, the frames in flight, the payload bytes received, and the published events. */
  datatype World = World(server: FW.Server, peer: Mock.Peer, toServer: seq<Frame>, toPeer: seq<Frame>,
                         delivered: seq<byte>, events: seq<FW.Action>)

  /** A port over an unchanged file: memory and sends succeed, reads are those of the adapter. */
  function FilePort(longMax: nat, file: seq<byte>): FW.Port {
    FW.Port(true, Some(|file|), (n: nat) => true,
            (offset: nat, n: nat) => ReadFile(longMax, file, offset, n), true)
  }

  function Sends(actions: seq<FW.Action>): seq<Frame> {
    if actions == [] then []
    else (if actions[0].Send? then [actions[0].frame] else []) + Sends(actions[1..])
  }

  function Published(actions: seq<FW.Action>): seq<FW.Action> {
    if actions == [] then []
    else (if actions[0].Publish? then [actions[0]] else []) + Published(actions[1..])
  }

  /** The block bytes of a data reply: what follows the four index bytes. */
  function BlockOf(f: Frame): seq<byte> {
    if FamilyOf(f.kind) == FIRMWARE_FAMILY && OperationOf(f.kind) == Data && |f.payload| >= 4
    then f.payload[4..] else []
  }

  predicate Quiescent(w: World) { w.toServer == [] && w.toPeer == [] }

  ghost predicate Sane(w: World) { w.peer.blockSize < 0x1_0000 && w.peer.count < TWO_TO_THE_32 }

  /** The peer takes the next frame of the server, or else the server the next frame of the peer. */
  function Step(w: World, now: nat, port: FW.Port): (next: World)
    requires Sane(w)
    ensures Sane(next)
  {
    if w.toPeer != [] then
      var r := Mock.Responded(w.peer, w.toPeer[0]);
      w.(peer := r.peer, toServer := w.toServer + r.queued, toPeer := w.toPeer[1..],
         delivered := w.delivered + BlockOf(w.toPeer[0]))
    else if w.toServer != [] then
      var o := FW.Handle(w.server, w.toServer[0], now, port);
      w.(server := o.server, toServer := w.toServer[1..], toPeer := Sends(o.actions),
         events := w.events + Published(o.actions))
    else w
  }

  /** The run whose steps happen at the given times. */
  function Run(w: World, times: seq<nat>, port: FW.Port): World
    requires Sane(w)
    decreases |times|
  {
    if times == [] then w else Run(Step(w, times[0], port), times[1..], port)
  }

  /** The peer has just asked for a transfer. */
  function Beginning(size: nat): World {
    var r := Mock.Started(Mock.Peer(0, Mock.NoFault, 0, 0, size), FIRMWARE_FAMILY, Mock.NoFault);
    World(FW.IDLE, r.peer, r.queued, [], [], [])
  }

  /** Announced number of blocks, and how many of them the adapter's reads can reach. */
  function Announced(fileSize: nat, size: nat): (n: nat)
    requires size > 0
    ensures n < TWO_TO_THE_32
  {
    FW.BlockCount(fileSize % TWO_TO_THE_32, size)
  }

  function Reached(fileSize: nat, size: nat, longMax: nat): nat
    requires size > 0
  {
    Min(Announced(fileSize, size), longMax / size + 1)
  }

  /** Bytes of the file covered by the first `i` blocks. */
  function Covered(file: seq<byte>, size: nat, i: nat): seq<byte> {
    file[..Min(i * size, |file|)]
  }

  function ProgressEvents(i: nat, count: nat): seq<FW.Action> {
    if i == 0 then [FW.Publish(FW.Started, 0, 0)]
    else ProgressEvents(i - 1, count) + [FW.Publish(FW.Progress, i, count)]
  }

  // ----- The data phase -----

  /** Block `i` has been requested and all earlier ones have arrived. */
  ghost predicate Requesting(w: World, file: seq<byte>, size: nat, i: nat)
    requires 0 < size < 0x1_0000
  {
    var n := Announced(|file|, size);
    && 1 <= i <= n
    && w.server.active && w.server.frameCount == n && w.server.frameDataSize == size
    && w.peer == Mock.Peer(FIRMWARE_FAMILY, Mock.NoFault, n, i, size)
    && w.toServer == [Packet(FIRMWARE_FAMILY, Data, WireIndex(i))] && w.toPeer == []
    && w.delivered == Covered(file, size, i - 1)
    && w.events == ProgressEvents(i - 1, n)
  }

  /** The peer has ended the exchange after `i` blocks and its last frame is on its way. */
  ghost predicate Ending(w: World, file: seq<byte>, size: nat, i: nat)
    requires size > 0
  {
    var n := Announced(|file|, size);
    && w.peer.family == 0
    && w.toServer == [Packet(FIRMWARE_FAMILY, if i == n then Complete else Cancel, [])] && w.toPeer == []
    && w.delivered == Covered(file, size, i)
    && w.events == ProgressEvents(i, n) + if i == n then [] else [FW.Publish(FW.Error, 0, n)]
  }

  /** The exchange is over after `i` blocks. */
  ghost predicate Over(w: World, file: seq<byte>, size: nat, i: nat)
    requires size > 0
  {
    var n := Announced(|file|, size);
    && Quiescent(w) && w.peer.family == 0 && !w.server.active
    && w.delivered == Covered(file, size, i)
    && w.events == ProgressEvents(i, n) +
         if i == n then [FW.Publish(FW.Completed, 0, 0)]
         else [FW.Publish(FW.Error, 0, n), FW.Publish(FW.Cancelled, 0, 0)]
  }

  /** The byte offset of block `i` never wraps, and the block is not empty. */
  lemma OffsetNeverWraps(fileSize: nat, size: nat, i: nat)
    requires 0 < size < 0x1_0000 && 1 <= i <= Announced(fileSize, size)
    ensures FW.BlockOffset(i, size) == (i - 1) * size < fileSize
  {
    var n := Announced(fileSize, size);
    MultiplyMonotone(size, i - 1, n - 1);
    assert (i - 1) * size < fileSize % TWO_TO_THE_32 <= fileSize;
  }

  lemma SendsOf(event: FW.Action, frame: Frame)
    requires event.Publish?
    ensures Sends([event, FW.Send(frame)]) == [frame] && Published([event, FW.Send(frame)]) == [event]
    ensures Sends([FW.Send(frame), event]) == [frame] && Published([FW.Send(frame), event]) == [event]
    ensures Sends([event]) == [] && Published([event]) == [event]
    ensures Sends([FW.Send(frame)]) == [frame] && Published([FW.Send(frame)]) == []
  {
    var send := FW.Send(frame);
    assert [event][1..] == [] && [send][1..] == [];
    assert Sends([send]) == [frame] + [] && Published([event]) == [event] + [];
    assert [event, send][1..] == [send] && [send, event][1..] == [event];
    assert Sends([event, send]) == [] + Sends([send]) && Published([send, event]) == [] + Published([event]);
  }

  /** The block that answers a request within reach is the next piece of the file. */
  lemma BlockBounds(file: seq<byte>, size: nat, i: nat)
    requires 0 < size < 0x1_0000 && 1 <= i <= Announced(|file|, size)
    ensures (i - 1) * size < Min(i * size, |file|)
    ensures FW.BlockOffset(i, size) == (i - 1) * size < |file|
    ensures Min((i - 1) * size + size, |file|) == Min(i * size, |file|)
  {
    OffsetNeverWraps(|file|, size, i);
    assert i * size == (i - 1) * size + size;
  }

  function Block(file: seq<byte>, size: nat, i: nat): (block: seq<byte>)
    requires 0 < size < 0x1_0000 && 1 <= i <= Announced(|file|, size)
    ensures 0 < |block| <= size
    ensures Covered(file, size, i - 1) + block == Covered(file, size, i)
  {
    BlockBounds(file, size, i);
    file[(i - 1) * size..Min(i * size, |file|)]
  }

  /** The server's answer to a request within reach: the block, and the wait disarmed. */
  lemma ServeBlock(s: FW.Server, now: nat, longMax: nat, file: seq<byte>, size: nat, i: nat)
    requires 0 < size < 0x1_0000 && 1 <= i <= Announced(|file|, size) && (i - 1) * size <= longMax
    requires s.active && s.frameDataSize == size
    ensures FW.Handle(s, Packet(FIRMWARE_FAMILY, Data, WireIndex(i)), now, FilePort(longMax, file)) ==
            FW.Outcome(s.(waiting := false),
              [FW.Publish(FW.Progress, i, s.frameCount), FW.Reply(Data, WireIndex(i) + Block(file, size, i))])
  {
    BlockBounds(file, size, i);
    hide FW.BlockOffset, FW.BlockCount, ParseDataRequest, WireIndex;
    ParseWireIndex(i, []);
    assert WireIndex(i) + [] == WireIndex(i);
    assert ReadFile(longMax, file, FW.BlockOffset(i, size), size) == Some(Block(file, size, i));
  }

  /** Out of reach of a file offset, the server reports an error instead. */
  lemma ServeOutOfReach(s: FW.Server, now: nat, longMax: nat, file: seq<byte>, size: nat, i: nat)
    requires 0 < size < 0x1_0000 && 1 <= i <= Announced(|file|, size) && (i - 1) * size > longMax
    requires s.active && s.frameDataSize == size
    ensures FW.Handle(s, Packet(FIRMWARE_FAMILY, Data, WireIndex(i)), now, FilePort(longMax, file)) ==
            FW.Outcome(s.(waiting := false), [FW.Reply(Cancel, []), FW.Publish(FW.Error, 0, s.frameCount)])
  {
    OffsetNeverWraps(|file|, size, i);
    hide FW.BlockOffset, FW.BlockCount, ParseDataRequest, WireIndex;
    ParseWireIndex(i, []);
    assert WireIndex(i) + [] == WireIndex(i);
  }

  /** The peer accepts the block it asked for and asks for the next one, or completes. */
  lemma PeerOnBlock(p: Mock.Peer, block: seq<byte>)
    requires p.blockSize < 0x1_0000 && p.count < TWO_TO_THE_32 && p.family == FIRMWARE_FAMILY
    requires 1 <= p.index <= p.count
    ensures var reply := Packet(FIRMWARE_FAMILY, Data, WireIndex(p.index) + block);
            && BlockOf(reply) == block
            && Mock.Responded(p, reply) ==
               if p.index < p.count then Mock.Requested(p, p.index + 1) else Mock.Completed(p, true)
  {
    hide WireIndex, ParseDataRequest;
    ParseWireIndex(p.index, block);
    assert (WireIndex(p.index) + block)[4..] == block;
  }

  lemma ServerTurn(w: World, t: nat, port: FW.Port, o: FW.Outcome)
    requires Sane(w) && w.toPeer == [] && |w.toServer| == 1
    requires FW.Handle(w.server, w.toServer[0], t, port) == o
    ensures Step(w, t, port) == w.(server := o.server, toServer := [], toPeer := Sends(o.actions),
                                   events := w.events + Published(o.actions))
  {
    hide FW.Handle, Mock.Responded;
    assert w.toServer[1..] == [];
  }

  lemma PeerTurn(w: World, t: nat, port: FW.Port, reply: Frame)
    requires Sane(w) && w.toPeer == [reply] && w.toServer == []
    ensures var r := Mock.Responded(w.peer, reply);
            Step(w, t, port) == w.(peer := r.peer, toServer := r.queued, toPeer := [],
                                   delivered := w.delivered + BlockOf(reply))
  {
    hide FW.Handle, Mock.Responded, BlockOf;
    assert w.toPeer[1..] == [];
    assert w.toServer + Mock.Responded(w.peer, reply).queued == Mock.Responded(w.peer, reply).queued;
  }

  lemma BlockRound(w: World, t: nat, u: nat, longMax: nat, file: seq<byte>, size: nat, i: nat)
    requires 0 < size < 0x1_0000 && Requesting(w, file, size, i) && (i - 1) * size <= longMax
    ensures var n := Announced(|file|, size);
            var next := Step(Step(w, t, FilePort(longMax, file)), u, FilePort(longMax, file));
            if i < n then Requesting(next, file, size, i + 1) else Ending(next, file, size, i)
  {
    hide FW.Handle, WireIndex, Announced, Block, Covered, Packet, Mock.Responded, BlockOf, Step;
    var n := Announced(|file|, size);
    var port := FilePort(longMax, file);
    var block := Block(file, size, i);
    var event, reply := FW.Publish(FW.Progress, i, n), Packet(FIRMWARE_FAMILY, Data, WireIndex(i) + block);
    ServeBlock(w.server, t, longMax, file, size, i);
    SendsOf(event, reply);
    ServerTurn(w, t, port, FW.Outcome(w.server.(waiting := false), [event, FW.Send(reply)]));
    PeerTurn(Step(w, t, port), u, port, reply);
    PeerOnBlock(w.peer, block);
    assert ProgressEvents(i, n) + [] == ProgressEvents(i, n);
  }

  lemma PeerOnCancel(p: Mock.Peer)
    requires p.blockSize < 0x1_0000 && p.count < TWO_TO_THE_32 && p.family == FIRMWARE_FAMILY
    ensures var reply := Packet(FIRMWARE_FAMILY, Cancel, []);
            Mock.Responded(p, reply) == Mock.Completed(p, false) && BlockOf(reply) == []
  {
  }

  lemma OutOfReachRound(w: World, t: nat, u: nat, longMax: nat, file: seq<byte>, size: nat, i: nat)
    requires 0 < size < 0x1_0000 && Requesting(w, file, size, i) && (i - 1) * size > longMax
    ensures Ending(Step(Step(w, t, FilePort(longMax, file)), u, FilePort(longMax, file)), file, size, i - 1)
  {
    var port := FilePort(longMax, file);
    var reply := Packet(FIRMWARE_FAMILY, Cancel, []);
    PeerOnCancel(w.peer);
    hide FW.Handle, WireIndex, Announced, Covered, Packet, Mock.Responded, BlockOf, Step;
    var n := Announced(|file|, size);
    var event := FW.Publish(FW.Error, 0, n);
    ServeOutOfReach(w.server, t, longMax, file, size, i);
    SendsOf(event, reply);
    ServerTurn(w, t, port, FW.Outcome(w.server.(waiting := false), [FW.Send(reply), event]));
    PeerTurn(Step(w, t, port), u, port, reply);
    assert w.delivered + [] == w.delivered;
  }

  lemma EndRound(w: World, t: nat, port: FW.Port, file: seq<byte>, size: nat, i: nat)
    requires 0 < size < 0x1_0000 && Sane(w) && Ending(w, file, size, i)
    ensures Over(Step(w, t, port), file, size, i)
  {
    var n := Announced(|file|, size);
    var event := FW.Publish(if i == n then FW.Completed else FW.Cancelled, 0, 0);
    SendsOf(event, Frame(0, []));
    assert FW.Handle(w.server, w.toServer[0], t, port).actions == [event];
    assert !FW.Handle(w.server, w.toServer[0], t, port).server.active;
    hide FW.Handle, Announced, Covered, Packet, Step;
    ServerTurn(w, t, port, FW.Handle(w.server, w.toServer[0], t, port));
    if i != n {
      assert ProgressEvents(i, n) + [FW.Publish(FW.Error, 0, n)] + [event]
          == ProgressEvents(i, n) + [FW.Publish(FW.Error, 0, n), event];
    } else {
      assert ProgressEvents(i, n) + [] == ProgressEvents(i, n);
    }
  }

  // ----- The handshake -----

  lemma ServeStart(s: FW.Server, now: nat, port: FW.Port)
    requires port.exists_
    ensures FW.Handle(s, Packet(FIRMWARE_FAMILY, Start, []), now, port) ==
            FW.Outcome(s.(active := true, waiting := true, waitStarted := now),
                       [FW.Publish(FW.Started, 0, s.frameCount), FW.Reply(Start, [])])
  {
    assert FW.Elapsed(now, now) == 0;
  }

  lemma ServeProposal(s: FW.Server, now: nat, longMax: nat, file: seq<byte>, size: nat)
    requires 0 < size < 0x1_0000 && s.active
    ensures var n := Announced(|file|, size);
            FW.Handle(s, Packet(FIRMWARE_FAMILY, Geometry, EncodeGeometry(0, size)), now, FilePort(longMax, file)) ==
            FW.Outcome(FW.Server(true, true, now, n, size), [FW.Reply(Geometry, EncodeGeometry(n, size))])
  {
    hide FW.BlockCount, EncodeGeometry, ParseGeometry;
    assert FW.Elapsed(now, now) == 0;
    var n := Announced(|file|, size);
    assert [FW.Reply(Geometry, EncodeGeometry(n, size))] + [] == [FW.Reply(Geometry, EncodeGeometry(n, size))];
  }

  lemma PeerOnHandshake(p: Mock.Peer, n: nat)
    requires 0 < p.blockSize < 0x1_0000 && p.count < TWO_TO_THE_32 && n < TWO_TO_THE_32
    requires p.family == FIRMWARE_FAMILY && p.fault == Mock.NoFault
    ensures var ack, announcement := Packet(FIRMWARE_FAMILY, Start, []),
                                     Packet(FIRMWARE_FAMILY, Geometry, EncodeGeometry(n, p.blockSize));
            && BlockOf(ack) == [] && BlockOf(announcement) == []
            && Mock.Responded(p, ack) ==
               Mock.Reaction(p, [Packet(FIRMWARE_FAMILY, Geometry, EncodeGeometry(0, p.blockSize))], Mock.Keep)
            && Mock.Responded(p, announcement) ==
               if n == 0 then Mock.Completed(p.(count := 0), true) else Mock.Requested(p.(count := n), 1)
  {
    hide EncodeGeometry, ParseGeometry;
  }

  lemma RunFour(w: World, t: seq<nat>, port: FW.Port)
    requires Sane(w) && |t| == 4
    ensures Run(w, t, port) == Step(Step(Step(Step(w, t[0], port), t[1], port), t[2], port), t[3], port)
  {
    hide Step;
    assert t[1..][1..] == t[2..] && t[2..][1..] == t[3..] && t[3..][1..] == [];
    var a := Step(w, t[0], port);
    var b := Step(a, t[1], port);
    var c := Step(b, t[2], port);
    assert Run(c, t[3..], port) == Step(c, t[3], port);
    assert Run(b, t[2..], port) == Run(c, t[3..], port);
    assert Run(a, t[1..], port) == Run(b, t[2..], port);
  }

  /** The transfer was started at `t` and the peer has proposed its block size. */
  function Proposing(size: nat, t: nat): World
    requires size < 0x1_0000
  {
    World(FW.Server(true, true, t, 0, 0), Mock.Peer(FIRMWARE_FAMILY, Mock.NoFault, 0, 0, size),
          [Packet(FIRMWARE_FAMILY, Geometry, EncodeGeometry(0, size))], [], [], [FW.Publish(FW.Started, 0, 0)])
  }

  /** The first two steps: the start is acknowledged and a block size proposed. */
  lemma Acknowledged(port: FW.Port, size: nat, t: nat, u: nat)
    requires 0 < size < 0x1_0000 && port.exists_
    ensures Step(Step(Beginning(size), t, port), u, port) ==
            Proposing(size, t)
  {
    var w := Beginning(size);
    hide FW.Handle, Packet, Mock.Responded, BlockOf, Step, EncodeGeometry;
    var event, ack := FW.Publish(FW.Started, 0, 0), Packet(FIRMWARE_FAMILY, Start, []);
    PeerOnHandshake(w.peer, 0);
    ServeStart(w.server, t, port);
    SendsOf(event, ack);
    ServerTurn(w, t, port, FW.Outcome(FW.Server(true, true, t, 0, 0), [event, FW.Send(ack)]));
    PeerTurn(Step(w, t, port), u, port, ack);
    assert [] + [event] == [event];
  }

  /** The next two: the announcement of the block count, and the first request or the end. */
  lemma Announcement(longMax: nat, file: seq<byte>, size: nat, s: nat, t: nat, u: nat)
    requires 0 < size < 0x1_0000
    ensures var n := Announced(|file|, size);
            var port := FilePort(longMax, file);
            var w := Step(Step(Proposing(size, s), t, port), u, port);
            if n == 0 then Ending(w, file, size, 0) else Requesting(w, file, size, 1)
  {
    hide FW.Handle, Announced, Packet, Mock.Responded, BlockOf, Step, EncodeGeometry, WireIndex;
    var n := Announced(|file|, size);
    var port := FilePort(longMax, file);
    var w := Proposing(size, s);
    var event, announcement := FW.Publish(FW.Started, 0, 0), Packet(FIRMWARE_FAMILY, Geometry, EncodeGeometry(n, size));
    PeerOnHandshake(w.peer, n);
    ServeProposal(w.server, t, longMax, file, size);
    SendsOf(event, announcement);
    ServerTurn(w, t, port, FW.Outcome(FW.Server(true, true, t, n, size), [FW.Send(announcement)]));
    PeerTurn(Step(w, t, port), u, port, announcement);
    assert [event] == [] + [event];
    assert Covered(file, size, 0) == [];
  }

  /** Start, acknowledgement, proposal and announcement, whatever the pace. */
  lemma Handshake(longMax: nat, file: seq<byte>, size: nat, t: seq<nat>)
    requires 0 < size < 0x1_0000 && |t| == 4
    ensures var n := Announced(|file|, size);
            var w := Run(Beginning(size), t, FilePort(longMax, file));
            if n == 0 then Ending(w, file, size, 0) else Requesting(w, file, size, 1)
  {
    hide Step, Run, Ending, Requesting, Proposing, FilePort, Announced;
    var port := FilePort(longMax, file);
    assert port.exists_ by { PortHasFile(longMax, file); }
    RunFour(Beginning(size), t, port);
    Acknowledged(port, size, t[0], t[1]);
    Announcement(longMax, file, size, t[0], t[2], t[3]);
  }

  lemma PortHasFile(longMax: nat, file: seq<byte>)
    ensures FilePort(longMax, file).exists_
  {
  }

  // ----- The whole exchange -----

  lemma {:induction false} RunOver(w: World, times: seq<nat>, port: FW.Port)
    requires Sane(w) && Quiescent(w)
    ensures Run(w, times, port) == w
    decreases |times|
  {
    if times != [] { RunOver(w, times[1..], port); }
  }

  lemma {:induction false} RunAppend(w: World, s: seq<nat>, t: seq<nat>, port: FW.Port)
    requires Sane(w)
    ensures Sane(Run(w, s, port)) && Run(w, s + t, port) == Run(Run(w, s, port), t, port)
    decreases |s|
  {
    hide Step;
    if s == [] {
      assert s + t == t;
    } else {
      assert (s + t)[1..] == s[1..] + t;
      RunAppend(Step(w, s[0], port), s[1..], t, port);
    }
  }

  /** From a request for block `i`, two steps a block lead to the end, however long it then idles. */
  lemma {:induction false} DataPhase(w: World, times: seq<nat>, longMax: nat, file: seq<byte>, size: nat, i: nat)
    requires 0 < size < 0x1_0000 && Requesting(w, file, size, i)
    requires i <= Reached(|file|, size, longMax) + 1
    requires |times| >= 2 * (Reached(|file|, size, longMax) + 1 - i) + 3
    ensures Over(Run(w, times, FilePort(longMax, file)), file, size, Reached(|file|, size, longMax))
    decreases |times|
  {
    hide Step, Announced, Requesting, Ending, Over;
    InRange(w, file, size, i);
    var port := FilePort(longMax, file);
    var r := Reached(|file|, size, longMax);
    var mid := Step(w, times[0], port);
    var next := Step(mid, times[1], port);
    assert times[1..][1..] == times[2..];
    assert Run(w, times, port) == Run(mid, times[1..], port) == Run(next, times[2..], port);
    WithinReach(|file|, size, longMax, i);
    if i <= r {
      BlockRound(w, times[0], times[1], longMax, file, size, i);
      if i < Announced(|file|, size) {
        DataPhase(next, times[2..], longMax, file, size, i + 1);
      } else {
        Conclude(next, times[2..], port, file, size, i);
      }
    } else {
      OutOfReachRound(w, times[0], times[1], longMax, file, size, i);
      Conclude(next, times[2..], port, file, size, i - 1);
    }
  }

  lemma InRange(w: World, file: seq<byte>, size: nat, i: nat)
    requires 0 < size < 0x1_0000 && Requesting(w, file, size, i)
    ensures Sane(w) && 1 <= i <= Announced(|file|, size)
  {
  }

  /** A block is within reach exactly when its offset fits the file interface. */
  lemma WithinReach(fileSize: nat, size: nat, longMax: nat, i: nat)
    requires size > 0 && i >= 1
    ensures i <= Reached(fileSize, size, longMax) <==> i <= Announced(fileSize, size) && (i - 1) * size <= longMax
  {
    Quotient(longMax, size, i - 1);
    assert size * (i - 1) == (i - 1) * size;
  }

  lemma Conclude(w: World, times: seq<nat>, port: FW.Port, file: seq<byte>, size: nat, i: nat)
    requires 0 < size < 0x1_0000 && Sane(w) && Ending(w, file, size, i) && |times| >= 1
    ensures Over(Run(w, times, port), file, size, i)
  {
    hide Step, Ending, Announced;
    EndRound(w, times[0], port, file, size, i);
    RunOver(Step(w, times[0], port), times[1..], port);
  }

  /**
   Every run terminates: after at most 2 r + 7 steps, at any times, both parties are idle, where r
   is the number of announced blocks that the file interface can reach. The peer then holds
   exactly the first r blocks of the file, and the published events are the start, progress for
   1 to r in order, and completion if r is the announced count, error and cancellation otherwise.
   */
  lemma ExchangeEnds(longMax: nat, file: seq<byte>, size: nat, times: seq<nat>)
    requires 0 < size < 0x1_0000
    requires |times| >= 2 * Reached(|file|, size, longMax) + 7
    ensures Over(Run(Beginning(size), times, FilePort(longMax, file)), file, size, Reached(|file|, size, longMax))
  {
    var port := FilePort(longMax, file);
    var head, tail := times[..4], times[4..];
    assert times == head + tail;
    RunAppend(Beginning(size), head, tail, port);
    Handshake(longMax, file, size, head);
    var w := Run(Beginning(size), head, port);
    if Announced(|file|, size) == 0 {
      Conclude(w, tail, port, file, size, 0);
    } else {
      DataPhase(w, tail, longMax, file, size, 1);
    }
  }

  /**
   The exchange completes with exactly the file if and only if the file is shorter than 2^32 bytes
   and its last block starts within the range of a file offset.
   */
  lemma WholeFileDelivered(longMax: nat, file: seq<byte>, size: nat, times: seq<nat>)
    requires 0 < size < 0x1_0000
    requires |times| >= 2 * Reached(|file|, size, longMax) + 7
    ensures var n, w := Announced(|file|, size), Run(Beginning(size), times, FilePort(longMax, file));
            w.delivered == file && FW.Publish(FW.Completed, 0, 0) in w.events <==>
            |file| < TWO_TO_THE_32 && (n == 0 || (n - 1) * size <= longMax)
  {
    hide Run, Step, FilePort;
    var n, r := Announced(|file|, size), Reached(|file|, size, longMax);
    var w := Run(Beginning(size), times, FilePort(longMax, file));
    ExchangeEnds(longMax, file, size, times);
    CompletionPublished(r, n);
    if n > 0 { WithinReach(|file|, size, longMax, n); }
    CoversExactly(file, size);
  }

  lemma CompletionPublished(r: nat, n: nat)
    ensures FW.Publish(FW.Completed, 0, 0) in
            ProgressEvents(r, n) + (if r == n then [FW.Publish(FW.Completed, 0, 0)]
                                    else [FW.Publish(FW.Error, 0, n), FW.Publish(FW.Cancelled, 0, 0)])
            <==> r == n
  {
    NoCompletionBefore(r, n);
  }

  lemma {:induction false} NoCompletionBefore(r: nat, n: nat)
    ensures FW.Publish(FW.Completed, 0, 0) !in ProgressEvents(r, n)
  {
    if r > 0 { NoCompletionBefore(r - 1, n); }
  }

  /** The announced blocks cover the file exactly when its size fits 32 bits. */
  lemma CoversExactly(file: seq<byte>, size: nat)
    requires 0 < size < 0x1_0000
    ensures Covered(file, size, Announced(|file|, size)) == file <==> |file| < TWO_TO_THE_32
  {
    var low := |file| % TWO_TO_THE_32;
    var n := Announced(|file|, size);
    assert n * size >= low;
    assert n > 0 ==> n * size == (n - 1) * size + size;
    if |file| >= TWO_TO_THE_32 {
      assert |file| >= low + TWO_TO_THE_32;
      assert n * size < |file|;
      assert |Covered(file, size, n)| < |file|;
    }
  }
}
