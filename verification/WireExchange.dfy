/**
 The firmware exchange over the UART itself: both parties send encoded bytes, each receives through
 its own incremental decoder, and the mainboard reads in pieces of any size.
 */
module WireExchange {
  import opened Arithmetic
  import opened Bytes
  import opened FrameCodec
  import opened FrameStream
  import opened FrameDecoder
  import opened ControllerTransfer
  import opened TransferAdapter
  import opened FirmwareExchange
  import Faults = FaultedExchange
  import Mock = MockController
  import FW = FirmwareTransfer

  const EMPTY := Decoded([], 0, [])

  /** Both parties, their decoders between two reads, the bytes that the peer has pending, and the outcome. */
  datatype Link = Link(server: FW.Server, peer: Mock.Peer, peerDecoder: Decoded, mainDecoder: Decoded,
                       pending: seq<byte>, delivered: seq<byte>, events: seq<FW.Action>)

  /** One round: the mainboard reads what is pending in pieces of these sizes and serves it at `now`. */
  datatype Turn = Turn(now: nat, sizes: seq<nat>)

  // ----- Steps -----

  /** Encoded frames one after the other; a frame too large for the length field encodes to nothing. */
  function OnUart(frames: seq<Frame>): seq<byte> {
    if frames == [] then []
    else
      var wire := Encode(ControllerUart, frames[0]);
      (if wire.Some? then wire.value else []) + OnUart(frames[1..])
  }

  predicate AllEncode(frames: seq<Frame>) {
    forall i :: 0 <= i < |frames| ==> Encode(ControllerUart, frames[i]).Some?
  }

  ghost predicate Usable(w: Link) { w.peer.blockSize < 0x1_0000 && w.peer.count < TWO_TO_THE_32 }

  /** The peer reacts to the frames that one write completed. */
  function PeerTakes(w: Link, frames: seq<Frame>): (r: Link)
    requires Usable(w)
    ensures Usable(r)
    decreases |frames|
  {
    if frames == [] then w
    else
      var reaction := Mock.Responded(w.peer, frames[0]);
      PeerTakes(w.(peer := reaction.peer, pending := w.pending + OnUart(reaction.queued),
                   delivered := w.delivered + BlockOf(frames[0])), frames[1..])
  }

  /** The mainboard writes frames one after the other; what does not encode is not written. */
  function Transmit(w: Link, frames: seq<Frame>): (r: Link)
    requires Usable(w)
    ensures Usable(r)
    decreases |frames|
  {
    if frames == [] then w
    else
      var wire := Encode(ControllerUart, frames[0]);
      if wire.None? then Transmit(w, frames[1..])
      else
        var d := Pushed(ControllerUart, w.peerDecoder, wire.value);
        Transmit(PeerTakes(w.(peerDecoder := d.(frames := [])), d.frames), frames[1..])
  }

  /** The port of one call: a reply is sent exactly when it encodes. */
  function UartPort(longMax: nat, file: seq<byte>, s: FW.Server, f: Frame, now: nat): FW.Port {
    var port := FilePort(longMax, file);
    port.(sent := AllEncode(Sends(FW.Handle(s, f, now, port).actions)))
  }

  function ServeAll(w: Link, frames: seq<Frame>, now: nat, longMax: nat, file: seq<byte>): (r: Link)
    requires Usable(w)
    ensures Usable(r)
    decreases |frames|
  {
    if frames == [] then w
    else
      var o := FW.Handle(w.server, frames[0], now, UartPort(longMax, file, w.server, frames[0], now));
      var served := w.(server := o.server, events := w.events + Published(o.actions));
      ServeAll(Transmit(served, Sends(o.actions)), frames[1..], now, longMax, file)
  }

  function Cut(s: seq<byte>, sizes: seq<nat>): (pieces: seq<seq<byte>>)
    ensures Concat(pieces) == s
    ensures forall i :: 0 <= i < |pieces| ==> |pieces[i]| <= |s|
  {
    if sizes == [] then
      var one: seq<seq<byte>> := [s];
      assert one[1..] == [] && s + [] == s;
      one
    else
      var n := Min(sizes[0], |s|);
      assert s[..n] + s[n..] == s;
      var rest := Cut(s[n..], sizes[1..]);
      assert ([s[..n]] + rest)[1..] == rest;
      [s[..n]] + rest
  }

  function Round(w: Link, turn: Turn, longMax: nat, file: seq<byte>): (r: Link)
    requires Usable(w)
    ensures Usable(r)
  {
    var d := PushedAll(ControllerUart, w.mainDecoder, Cut(w.pending, turn.sizes));
    ServeAll(w.(mainDecoder := d.(frames := []), pending := []), d.frames, turn.now, longMax, file)
  }

  function Rounds(w: Link, turns: seq<Turn>, longMax: nat, file: seq<byte>): (r: Link)
    requires Usable(w)
    ensures Usable(r)
    decreases |turns|
  {
    if turns == [] then w else Rounds(Round(w, turns[0], longMax, file), turns[1..], longMax, file)
  }

  // ----- Refinement of the exchange of frames -----

  /** A state of the frame-level exchange, with its frame in flight as bytes and both decoders empty. */
  function Lowered(a: World): Link {
    Link(a.server, a.peer, EMPTY, EMPTY, OnUart(a.toServer), a.delivered, a.events)
  }

  predicate FromPeer(f: Frame, size: nat)
    requires size < 0x1_0000
  {
    |f.payload| <= 6 && (OperationOf(f.kind) == Geometry ==> f.payload == EncodeGeometry(0, size))
  }

  /** Between two rounds at most one frame of a fault-free peer is in flight. */
  ghost predicate Steady(a: World, size: nat)
    requires size < 0x1_0000
  {
    && Sane(a) && a.peer.blockSize == size && a.peer.fault == Mock.NoFault
    && (a.server.frameDataSize == 0 || a.server.frameDataSize == size)
    && a.toPeer == [] && |a.toServer| <= 1
    && (a.toServer != [] ==> FromPeer(a.toServer[0], size))
  }

  lemma PeerReacts(p: Mock.Peer, f: Frame)
    requires p.blockSize < 0x1_0000 && p.count < TWO_TO_THE_32 && p.fault == Mock.NoFault
    ensures var r := Mock.Responded(p, f);
            && r.peer.blockSize == p.blockSize && r.peer.fault == Mock.NoFault && |r.queued| <= 1
            && (r.queued != [] ==> FromPeer(r.queued[0], p.blockSize))
  {
    hide EncodeGeometry, ParseGeometry, ParseDataRequest, OperationOf, FamilyOf;
  }

  /** The frame asks for no block, or blocks are small enough to cross. */
  predicate Small(f: Frame, file: seq<byte>, size: nat) {
    OperationOf(f.kind) != Data || Min(size, |file|) <= 515
  }

  /** A server over a file sends at most one frame a call, and a small one while its blocks are small. */
  lemma ServerReacts(s: FW.Server, f: Frame, now: nat, longMax: nat, file: seq<byte>, size: nat)
    requires size < 0x1_0000 && FromPeer(f, size)
    requires s.frameDataSize == 0 || s.frameDataSize == size
    requires Small(f, file, size)
    ensures var o := FW.Handle(s, f, now, FilePort(longMax, file));
            && |Sends(o.actions)| <= 1
            && (Sends(o.actions) != [] ==> |Sends(o.actions)[0].payload| <= 519)
            && (o.server.frameDataSize == 0 || o.server.frameDataSize == size)
  {
    hide FW.OnStart, FW.OnGeometry, FW.OnData, OperationOf, FilePort, Sends;
    var port := FilePort(longMax, file);
    PortHasFile(longMax, file);
    var o := FW.Dispatch(s, f, now, port);
    match OperationOf(f.kind) {
      case Start => StartSends(s, now, port);
      case Geometry => GeometrySends(s, now, longMax, file, size);
      case Data => DataSends(s, f.payload, longMax, file, size);
      case _ => NothingSent(o.actions);
    }
    SendsAppend(o.actions, [FW.Publish(FW.TimedOut, 0, 0)]);
    NothingSent([FW.Publish(FW.TimedOut, 0, 0)]);
    assert Sends(o.actions) + [] == Sends(o.actions);
  }

  /** At most one frame, and that of a payload a UART frame can carry. */
  predicate SendsSmall(actions: seq<FW.Action>) {
    |Sends(actions)| <= 1 && (Sends(actions) != [] ==> |Sends(actions)[0].payload| <= 519)
  }

  lemma {:induction false} NothingSent(actions: seq<FW.Action>)
    requires forall i :: 0 <= i < |actions| ==> !actions[i].Send?
    ensures Sends(actions) == []
  {
    if actions != [] { NothingSent(actions[1..]); }
  }

  lemma {:induction false} SendsAppend(a: seq<FW.Action>, b: seq<FW.Action>)
    ensures Sends(a + b) == Sends(a) + Sends(b)
  {
    if a == [] {
      assert a + b == b;
    } else {
      var first: seq<Frame> := if a[0].Send? then [a[0].frame] else [];
      assert (a + b)[1..] == a[1..] + b;
      SendsAppend(a[1..], b);
      assert first + (Sends(a[1..]) + Sends(b)) == first + Sends(a[1..]) + Sends(b);
    }
  }

  lemma StartSends(s: FW.Server, now: nat, port: FW.Port)
    requires port.exists_
    ensures SendsSmall(FW.OnStart(s, now, port).actions)
    ensures FW.OnStart(s, now, port).server.frameDataSize == s.frameDataSize
  {
    SendsOf(FW.Publish(FW.Started, 0, s.frameCount), Packet(FIRMWARE_FAMILY, Start, []));
  }

  lemma GeometrySends(s: FW.Server, now: nat, longMax: nat, file: seq<byte>, size: nat)
    requires size < 0x1_0000
    ensures var o := FW.OnGeometry(s, EncodeGeometry(0, size), now, FilePort(longMax, file));
            SendsSmall(o.actions) && o.server.frameDataSize == size
  {
    hide FW.BlockCount, EncodeGeometry, ParseGeometry;
    var o := FW.OnGeometry(s, EncodeGeometry(0, size), now, FilePort(longMax, file));
    if size == 0 {
      NothingSent(o.actions);
    } else {
      SendsOf(FW.Publish(FW.Started, 0, 0), o.actions[0].frame);
      assert o.actions == [FW.Send(o.actions[0].frame)];
    }
  }

  lemma DataSends(s: FW.Server, payload: seq<byte>, longMax: nat, file: seq<byte>, size: nat)
    requires (s.frameDataSize == 0 || s.frameDataSize == size) && Min(size, |file|) <= 515
    ensures var o := FW.OnData(s, payload, FilePort(longMax, file));
            SendsSmall(o.actions) && o.server.frameDataSize == s.frameDataSize
  {
    hide FW.BlockOffset, ParseDataRequest, Sends, ReadFile;
    var o := FW.OnData(s, payload, FilePort(longMax, file));
    if o.actions == [] {
      NothingSent(o.actions);
    } else if o.actions[0].Send? {
      SendsOf(o.actions[1], o.actions[0].frame);
      CancelIsSmall();
      assert o.actions == [FW.Send(o.actions[0].frame), o.actions[1]];
    } else {
      SendsOf(o.actions[0], o.actions[1].frame);
      var offset := FW.BlockOffset(ParseDataRequest(payload).value.index, s.frameDataSize);
      ReadIsSmall(longMax, file, offset, s.frameDataSize);
      assert o.actions == [o.actions[0], FW.Send(o.actions[1].frame)];
    }
  }

  lemma ReadIsSmall(longMax: nat, file: seq<byte>, offset: nat, n: nat)
    ensures var r := ReadFile(longMax, file, offset, n); r.Some? ==> |r.value| <= Min(n, |file|)
  {
  }

  lemma CancelIsSmall()
    ensures |Packet(FIRMWARE_FAMILY, Cancel, []).payload| == 0
  {
  }

  // ----- One frame on the wire -----

  lemma OneOnUart(f: Frame)
    requires |f.payload| <= 519
    ensures OnUart([f]) == Encoded(ControllerUart, f) && |OnUart([f])| <= 528
    ensures AllEncode([f])
  {
    hide Encode;
    assert [f][1..] == [];
    assert Encoded(ControllerUart, f) + [] == Encoded(ControllerUart, f);
    EncodedSize(f);
  }

  lemma EncodedSize(f: Frame)
    requires Encodable(ControllerUart, f)
    ensures |Encoded(ControllerUart, f)| == |f.payload| + 9
  {
  }

  lemma EmptyIsSettled()
    ensures Settled(ControllerUart, EMPTY) && Decode(ControllerUart, 0, []) == EMPTY
  {
  }

  lemma AfterEmpty(wire: seq<byte>)
    ensures After(ControllerUart, EMPTY, wire) == Decode(ControllerUart, 0, wire)
  {
    hide Decode;
    assert [] + wire == wire && [] + Decode(ControllerUart, 0, wire).frames == Decode(ControllerUart, 0, wire).frames;
  }

  /** However it is cut into reads, a frame is decoded as itself and nothing stays behind. */
  lemma ReadsFrame(f: Frame, sizes: seq<nat>)
    requires |f.payload| <= 519
    ensures PushedAll(ControllerUart, EMPTY, Cut(OnUart([f]), sizes)) == Decoded([f], 0, [])
  {
    hide Decode, Encoded, OnUart, PushedAll, Cut, Settled, After;
    OneOnUart(f);
    EmptyIsSettled();
    SmallReadsDropNothing(ControllerUart, EMPTY, Cut(OnUart([f]), sizes));
    PushesDecodeTheStream(ControllerUart, EMPTY, Cut(OnUart([f]), sizes));
    AfterEmpty(OnUart([f]));
    SingleFrameCrosses(ControllerUart, 0, f);
  }

  lemma ReadsNothing(sizes: seq<nat>)
    ensures PushedAll(ControllerUart, EMPTY, Cut([], sizes)) == EMPTY
  {
    hide Decode, PushedAll, Cut, Settled, After;
    EmptyIsSettled();
    SmallReadsDropNothing(ControllerUart, EMPTY, Cut([], sizes));
    PushesDecodeTheStream(ControllerUart, EMPTY, Cut([], sizes));
    AfterEmpty([]);
  }

  lemma PushesOne(wire: seq<byte>)
    ensures Pushed(ControllerUart, EMPTY, wire) == Decode(ControllerUart, 0, Retained(ControllerUart, wire))
  {
    hide Decode, Retained;
    var d := Decode(ControllerUart, 0, Retained(ControllerUart, wire));
    assert [] + wire == wire && [] + d.frames == d.frames;
  }

  lemma WritesFrame(f: Frame)
    requires |f.payload| <= 519
    ensures Pushed(ControllerUart, EMPTY, Encoded(ControllerUart, f)) == Decoded([f], 0, [])
  {
    hide Decode, Encoded;
    PushesOne(Encoded(ControllerUart, f));
    EncodedSize(f);
    SingleFrameCrosses(ControllerUart, 0, f);
  }

  /** A reply that crosses reaches the peer, and its reaction becomes pending. */
  lemma TransmitsOne(w: Link, reply: Frame)
    requires Usable(w) && w.peerDecoder == EMPTY && |reply.payload| <= 519
    ensures var r := Mock.Responded(w.peer, reply);
            Transmit(w, [reply]) == w.(peer := r.peer, pending := w.pending + OnUart(r.queued),
                                       delivered := w.delivered + BlockOf(reply))
  {
    hide Encode, Pushed, Mock.Responded, BlockOf, OnUart, Encoded;
    OneOnUart(reply);
    WritesFrame(reply);
    assert [reply][1..] == [];
    var frames: seq<Frame> := [reply];
    assert EMPTY == Decoded([], 0, []);
    PeerTakesOne(w, reply);
  }

  lemma PeerTakesOne(w: Link, f: Frame)
    requires Usable(w)
    ensures var r := Mock.Responded(w.peer, f);
            PeerTakes(w, [f]) == w.(peer := r.peer, pending := w.pending + OnUart(r.queued),
                                    delivered := w.delivered + BlockOf(f))
  {
    hide Mock.Responded, BlockOf, OnUart;
    assert [f][1..] == [];
  }

  // ----- One round is two steps -----

  lemma IdleRound(a: World, turn: Turn, longMax: nat, file: seq<byte>, size: nat)
    requires size < 0x1_0000 && Steady(a, size) && a.toServer == []
    ensures Round(Lowered(a), turn, longMax, file) == Lowered(a)
    ensures Step(a, turn.now, FilePort(longMax, file)) == a
  {
    hide PushedAll, Cut;
    ReadsNothing(turn.sizes);
  }

  lemma ServesFrame(w: Link, f: Frame, turn: Turn, longMax: nat, file: seq<byte>, size: nat)
    requires Usable(w) && w.mainDecoder == EMPTY && w.pending == OnUart([f])
    requires size < 0x1_0000 && FromPeer(f, size) && Small(f, file, size)
    requires w.server.frameDataSize == 0 || w.server.frameDataSize == size
    ensures var o := FW.Handle(w.server, f, turn.now, FilePort(longMax, file));
            Round(w, turn, longMax, file) ==
            Transmit(w.(server := o.server, pending := [], events := w.events + Published(o.actions)), Sends(o.actions))
  {
    hide PushedAll, Cut, Transmit, FW.Handle, FilePort, Sends, Published, OnUart;
    ReadsFrame(f, turn.sizes);
    ServerReacts(w.server, f, turn.now, longMax, file, size);
    SentAnyway(w.server, f, turn.now, longMax, file);
    var ready := w.(pending := []);
    assert w.(mainDecoder := EMPTY, pending := []) == ready;
    ServesOne(ready, f, turn.now, longMax, file);
  }

  lemma ServesOne(w: Link, f: Frame, now: nat, longMax: nat, file: seq<byte>)
    requires Usable(w)
    ensures var o := FW.Handle(w.server, f, now, UartPort(longMax, file, w.server, f, now));
            ServeAll(w, [f], now, longMax, file) ==
            Transmit(w.(server := o.server, events := w.events + Published(o.actions)), Sends(o.actions))
  {
    hide Transmit, FW.Handle, UartPort, Sends, Published;
    var frames: seq<Frame> := [f];
    assert frames[1..] == [];
    var o := FW.Handle(w.server, f, now, UartPort(longMax, file, w.server, f, now));
    var served := Transmit(w.(server := o.server, events := w.events + Published(o.actions)), Sends(o.actions));
    assert ServeAll(served, [], now, longMax, file) == served;
  }

  /** When every reply encodes the port is that of the frame-level exchange. */
  lemma SentAnyway(s: FW.Server, f: Frame, now: nat, longMax: nat, file: seq<byte>)
    requires SendsSmall(FW.Handle(s, f, now, FilePort(longMax, file)).actions)
    ensures UartPort(longMax, file, s, f, now) == FilePort(longMax, file)
  {
    hide FW.Handle, Encode, Sends;
    var replies := Sends(FW.Handle(s, f, now, FilePort(longMax, file)).actions);
    if replies != [] {
      OneOnUart(replies[0]);
      assert replies == [replies[0]];
    }
  }

  lemma RoundRefines(a: World, turn: Turn, longMax: nat, file: seq<byte>, size: nat)
    requires size < 0x1_0000 && Steady(a, size) && (a.toServer != [] ==> Small(a.toServer[0], file, size))
    ensures var port := FilePort(longMax, file);
            var b := Step(Step(a, turn.now, port), turn.now, port);
            Steady(b, size) && Round(Lowered(a), turn, longMax, file) == Lowered(b)
  {
    hide Round, FW.Handle, Mock.Responded, BlockOf, FilePort, OnUart, FromPeer, Sends, Published, Transmit, Small;
    var port := FilePort(longMax, file);
    if a.toServer == [] {
      IdleRound(a, turn, longMax, file, size);
    } else {
      var f := a.toServer[0];
      var o := FW.Handle(a.server, f, turn.now, port);
      assert a.toServer == [f];
      ServesFrame(Lowered(a), f, turn, longMax, file, size);
      ServerReacts(a.server, f, turn.now, longMax, file, size);
      hide Step;
      ServerTurn(a, turn.now, port, o);
      var mid := Step(a, turn.now, port);
      if Sends(o.actions) == [] {
        SilentRound(a, mid, turn.now, port, o);
      } else {
        var reply := Sends(o.actions)[0];
        assert Sends(o.actions) == [reply];
        PeerReacts(a.peer, reply);
        PeerTurn(mid, turn.now, port, reply);
        PeerKeepsSane(mid, turn.now, port);
        TransmitsOne(Lowered(a).(server := o.server, pending := [], events := a.events + Published(o.actions)), reply);
        assert [] + OnUart(Mock.Responded(a.peer, reply).queued) == OnUart(Mock.Responded(a.peer, reply).queued);
      }
    }
  }

  lemma SilentRound(a: World, mid: World, now: nat, port: FW.Port, o: FW.Outcome)
    requires Sane(a) && mid == a.(server := o.server, toServer := [], toPeer := [],
                                  events := a.events + Published(o.actions))
    ensures Step(mid, now, port) == mid && OnUart([]) == []
    ensures Transmit(Lowered(a).(server := o.server, pending := [], events := mid.events), []) == Lowered(mid)
  {
  }

  lemma PeerKeepsSane(w: World, now: nat, port: FW.Port)
    requires Sane(w)
    ensures Sane(Step(w, now, port))
  {
  }

  /** Two frame-level steps for each round. */
  function Doubled(turns: seq<Turn>): (times: seq<nat>)
    ensures |times| == 2 * |turns|
  {
    if turns == [] then [] else [turns[0].now, turns[0].now] + Doubled(turns[1..])
  }

  lemma RunTwo(w: World, t: nat, u: nat, times: seq<nat>, port: FW.Port)
    requires Sane(w)
    ensures Run(w, [t, u] + times, port) == Run(Step(Step(w, t, port), u, port), times, port)
  {
    hide Step;
    var all := [t, u] + times;
    assert all[1..][1..] == times;
    assert Run(Step(w, t, port), all[1..], port) == Run(Step(Step(w, t, port), u, port), times, port);
  }

  /**
   While the blocks have at most 515 bytes, any number of rounds over the UART, cut into any reads, is
   the exchange of frames: every wire state is the lowered frame-level state after twice as many steps.
   */
  lemma {:induction false} RoundsRefine(a: World, turns: seq<Turn>, longMax: nat, file: seq<byte>, size: nat)
    requires size < 0x1_0000 && Steady(a, size) && Min(size, |file|) <= 515
    ensures var b := Run(a, Doubled(turns), FilePort(longMax, file));
            Steady(b, size) && Rounds(Lowered(a), turns, longMax, file) == Lowered(b)
    decreases |turns|
  {
    hide Step, Round, Lowered, FilePort;
    if turns != [] {
      var port := FilePort(longMax, file);
      var now := turns[0].now;
      RoundRefines(a, turns[0], longMax, file, size);
      RunTwo(a, now, now, Doubled(turns[1..]), port);
      RoundsRefine(Step(Step(a, now, port), now, port), turns[1..], longMax, file, size);
    }
  }

  // ----- Whole exchanges -----

  lemma BeginningIsSteady(size: nat)
    requires size < 0x1_0000
    ensures Steady(Beginning(size), size)
  {
    hide EncodeGeometry;
  }

  /** The exchange is over after `i` blocks, with nothing left in a buffer or on its way. */
  ghost predicate Finished(w: Link, file: seq<byte>, size: nat, i: nat)
    requires size > 0
  {
    var n := Announced(|file|, size);
    && w.pending == [] && w.peerDecoder == EMPTY && w.mainDecoder == EMPTY
    && w.peer.family == 0 && !w.server.active
    && w.delivered == Covered(file, size, i)
    && w.events == ProgressEvents(i, n) +
         if i == n then [FW.Publish(FW.Completed, 0, 0)]
         else [FW.Publish(FW.Error, 0, n), FW.Publish(FW.Cancelled, 0, 0)]
  }

  /**
   With blocks of at most 515 bytes every exchange over the UART terminates, after at most r + 4 rounds,
   with exactly the first r blocks delivered and the same events as the exchange of frames.
   */
  lemma UartExchangeEnds(longMax: nat, file: seq<byte>, size: nat, turns: seq<Turn>)
    requires 0 < size < 0x1_0000 && Min(size, |file|) <= 515
    requires |turns| >= Reached(|file|, size, longMax) + 4
    ensures Finished(Rounds(Lowered(Beginning(size)), turns, longMax, file), file, size, Reached(|file|, size, longMax))
  {
    hide Run, Rounds, Steady, FilePort, Announced, Reached, Beginning;
    BeginningIsSteady(size);
    RoundsRefine(Beginning(size), turns, longMax, file, size);
    ExchangeEnds(longMax, file, size, Doubled(turns));
  }

  // ----- The first rounds -----

  /** The reply that carries the first block. */
  function FirstReply(file: seq<byte>, size: nat): Frame
    requires 0 < size < 0x1_0000 && Announced(|file|, size) > 0
  {
    Packet(FIRMWARE_FAMILY, Data, WireIndex(1) + Block(file, size, 1))
  }

  lemma FirstBlockSize(file: seq<byte>, size: nat)
    requires 0 < size < 0x1_0000 && Announced(|file|, size) > 0
    ensures |Block(file, size, 1)| == Min(size, |file|) && |FirstReply(file, size).payload| == Min(size, |file|) + 4
  {
    BlockBounds(file, size, 1);
  }

  /** Whatever is announced, the first two rounds lead to the first request or to the end. */
  lemma HandshakeRounds(s: Turn, t: Turn, longMax: nat, file: seq<byte>, size: nat) returns (a: World)
    requires 0 < size < 0x1_0000
    ensures Steady(a, size) && Lowered(a) == Round(Round(Lowered(Beginning(size)), s, longMax, file), t, longMax, file)
    ensures if Announced(|file|, size) == 0 then Ending(a, file, size, 0) else Requesting(a, file, size, 1)
  {
    hide Round, Step, Announced, Ending, Requesting;
    var port := FilePort(longMax, file);
    BeginningIsSteady(size);
    StartIsSmall(file, size);
    RoundRefines(Beginning(size), s, longMax, file, size);
    Acknowledged(port, size, s.now, s.now);
    RoundRefines(Proposing(size, s.now), t, longMax, file, size);
    Announcement(longMax, file, size, s.now, t.now, t.now);
    a := Step(Step(Proposing(size, s.now), t.now, port), t.now, port);
  }

  lemma StartIsSmall(file: seq<byte>, size: nat)
    ensures Beginning(size).toServer != [] ==> Small(Beginning(size).toServer[0], file, size)
  {
  }

  lemma BeginningIsUsable(size: nat)
    requires size < 0x1_0000
    ensures Usable(Lowered(Beginning(size)))
  {
  }

  lemma ThreeRounds(w: Link, turns: seq<Turn>, longMax: nat, file: seq<byte>)
    requires Usable(w) && |turns| >= 3
    ensures Rounds(w, turns, longMax, file) ==
            Rounds(Round(Round(Round(w, turns[0], longMax, file), turns[1], longMax, file), turns[2], longMax, file),
                   turns[3..], longMax, file)
  {
    hide Round;
    assert turns[1..][1..] == turns[2..] && turns[2..][1..] == turns[3..];
    var a := Round(w, turns[0], longMax, file);
    var b := Round(a, turns[1], longMax, file);
    var c := Round(b, turns[2], longMax, file);
    assert Rounds(w, turns, longMax, file) == Rounds(a, turns[1..], longMax, file);
    assert Rounds(a, turns[1..], longMax, file) == Rounds(b, turns[2..], longMax, file);
    assert Rounds(b, turns[2..], longMax, file) == Rounds(c, turns[3..], longMax, file);
  }

  lemma NothingCovered(file: seq<byte>, size: nat)
    ensures Covered(file, size, 0) == []
    ensures forall n: nat :: ProgressEvents(1, n) == ProgressEvents(0, n) + [FW.Publish(FW.Progress, 1, n)]
  {
  }

  lemma QuietRound(w: Link, turn: Turn, longMax: nat, file: seq<byte>)
    requires Usable(w) && w.pending == [] && w.mainDecoder == EMPTY
    ensures Round(w, turn, longMax, file) == w
  {
    hide PushedAll, Cut;
    ReadsNothing(turn.sizes);
  }
}
