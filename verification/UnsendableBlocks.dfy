/** First blocks too large to be encoded at all: the transfer is cancelled and nothing is delivered. */
module UnsendableBlocks {
  import opened Arithmetic
  import opened Bytes
  import opened FrameCodec
  import opened FrameDecoder
  import opened ControllerTransfer
  import opened TransferAdapter
  import opened FirmwareExchange
  import opened WireExchange
  import Mock = MockController
  import FW = FirmwareTransfer

  lemma ServeUnsent(s: FW.Server, now: nat, longMax: nat, file: seq<byte>, size: nat)
    requires 0 < size < 0x1_0000 && 1 <= Announced(|file|, size) && s.active && s.frameDataSize == size
    ensures FW.Handle(s, Packet(FIRMWARE_FAMILY, Data, WireIndex(1)), now, FilePort(longMax, file).(sent := false)) ==
            FW.Outcome(s.(waiting := false),
              [FW.Publish(FW.Progress, 1, s.frameCount), FW.Send(FirstReply(file, size)), FW.Reply(Cancel, [])])
  {
    BlockBounds(file, size, 1);
    hide FW.BlockOffset, FW.BlockCount, ParseDataRequest, WireIndex;
    ParseWireIndex(1, []);
    assert WireIndex(1) + [] == WireIndex(1);
    assert ReadFile(longMax, file, FW.BlockOffset(1, size), size) == Some(Block(file, size, 1));
  }

  lemma SendsOfThree(event: FW.Action, first: Frame, second: Frame)
    requires event.Publish?
    ensures Sends([event, FW.Send(first), FW.Send(second)]) == [first, second]
    ensures Published([event, FW.Send(first), FW.Send(second)]) == [event]
  {
    var all := [event, FW.Send(first), FW.Send(second)];
    SendsOf(event, second);
    SendsAppend([event, FW.Send(first)], [FW.Send(second)]);
    SendsOf(event, first);
    assert all == [event, FW.Send(first)] + [FW.Send(second)];
    assert all[1..] == [FW.Send(first), FW.Send(second)] && all[1..][1..] == [FW.Send(second)];
    assert [FW.Send(second)][1..] == [];
    assert [event] + ([] + []) == [event];
  }

  /** The server's cancellation of a block that did not encode, on its way back from the peer. */
  function Cancelling(a: World, size: nat): World {
    World(a.server.(waiting := false), Mock.Completed(a.peer, false).peer, [Packet(FIRMWARE_FAMILY, Cancel, [])], [],
          a.delivered, a.events + [FW.Publish(FW.Progress, 1, a.server.frameCount)])
  }

  lemma UnsendableRound(a: World, turn: Turn, longMax: nat, file: seq<byte>, size: nat)
    requires 0 < size < 0x1_0000 && Steady(a, size) && Requesting(a, file, size, 1)
    requires Encode(ControllerUart, FirstReply(file, size)).None?
    ensures Round(Lowered(a), turn, longMax, file) == Lowered(Cancelling(a, size))
    ensures Steady(Cancelling(a, size), size)
  {
    hide PushedAll, Cut, FW.Handle, OnUart, Encode, Block, Pushed, WireIndex, Announced, Transmit, BlockOf,
         FirstReply, Mock.Responded;
    var request, reply, cancel := a.toServer[0], FirstReply(file, size), Packet(FIRMWARE_FAMILY, Cancel, []);
    var event := FW.Publish(FW.Progress, 1, a.server.frameCount);
    var port := FilePort(longMax, file);
    assert a.toServer == [request];
    ReadsFrame(request, turn.sizes);
    FirstReplyServed(a.server, turn.now, longMax, file, size);
    SendsOf(event, reply);
    SendsOfThree(event, reply, cancel);
    NotSent(a.server, request, turn.now, longMax, file, reply);
    ServeUnsent(a.server, turn.now, longMax, file, size);
    var ready := Lowered(a).(pending := []);
    ServesOne(ready, request, turn.now, longMax, file);
    var served := ready.(server := a.server.(waiting := false), events := a.events + [event]);
    SkipsUnsendable(served, reply, cancel);
    TransmitsOne(served, cancel);
    PeerOnCancel(a.peer);
    assert [] + OnUart([cancel]) == OnUart([cancel]) && a.delivered + [] == a.delivered;
  }

  lemma FirstReplyServed(s: FW.Server, now: nat, longMax: nat, file: seq<byte>, size: nat)
    requires 0 < size < 0x1_0000 && 1 <= Announced(|file|, size) && s.active && s.frameDataSize == size
    ensures FW.Handle(s, Packet(FIRMWARE_FAMILY, Data, WireIndex(1)), now, FilePort(longMax, file)).actions ==
            [FW.Publish(FW.Progress, 1, s.frameCount), FW.Send(FirstReply(file, size))]
  {
    hide FW.Handle, Block, FilePort;
    ServeBlock(s, now, longMax, file, size, 1);
  }

  lemma NotSent(s: FW.Server, f: Frame, now: nat, longMax: nat, file: seq<byte>, reply: Frame)
    requires Sends(FW.Handle(s, f, now, FilePort(longMax, file)).actions) == [reply]
    requires Encode(ControllerUart, reply).None?
    ensures UartPort(longMax, file, s, f, now) == FilePort(longMax, file).(sent := false)
  {
    hide FW.Handle, Encode, Sends;
    assert !AllEncode([reply]) by { assert [reply][0] == reply; }
  }

  lemma SkipsUnsendable(w: Link, first: Frame, second: Frame)
    requires Usable(w) && Encode(ControllerUart, first).None?
    ensures Transmit(w, [first, second]) == Transmit(w, [second])
  {
    hide Encode, Pushed, PeerTakes;
    assert [first, second][1..] == [second];
  }

  /** The exchange ended in a cancellation before any block arrived. */
  ghost predicate Abandoned(w: Link, file: seq<byte>, size: nat)
    requires size > 0
  {
    && w.pending == [] && w.mainDecoder == EMPTY && w.peer.family == 0 && !w.server.active && w.delivered == []
    && w.events == ProgressEvents(1, Announced(|file|, size)) + [FW.Publish(FW.Cancelled, 0, 0)]
  }

  lemma CancellingRound(a: World, turn: Turn, longMax: nat, file: seq<byte>, size: nat)
    requires 0 < size < 0x1_0000 && Steady(a, size) && Requesting(a, file, size, 1)
    requires Steady(Cancelling(a, size), size)
    ensures Abandoned(Round(Lowered(Cancelling(a, size)), turn, longMax, file), file, size)
  {
    hide Round, Step, FW.Handle, Announced, Packet, OperationOf;
    var port := FilePort(longMax, file);
    var c := Cancelling(a, size);
    NothingCovered(file, size);
    CancelAsksNothing(file, size);
    RoundRefines(c, turn, longMax, file, size);
    Faults.CancelArrives(c, turn.now, port);
    EndedStays(Step(c, turn.now, port), turn.now, port);
  }

  lemma CancelAsksNothing(file: seq<byte>, size: nat)
    ensures Small(Packet(FIRMWARE_FAMILY, Cancel, []), file, size)
  {
  }

  lemma EndedStays(a: World, now: nat, port: FW.Port)
    requires Faults.Ended(a) && Sane(a)
    ensures Step(a, now, port) == a && OnUart(a.toServer) == []
  {
  }

  lemma {:induction false} AbandonedForGood(w: Link, turns: seq<Turn>, longMax: nat, file: seq<byte>)
    requires Usable(w) && w.pending == [] && w.mainDecoder == EMPTY
    ensures Rounds(w, turns, longMax, file) == w
    decreases |turns|
  {
    hide Round;
    if turns != [] {
      QuietRound(w, turns[0], longMax, file);
      AbandonedForGood(w, turns[1..], longMax, file);
    }
  }

  /** A first block of more than 65528 bytes does not encode: the exchange is cancelled, whatever the file. */
  lemma UnsendableBlockCancels(longMax: nat, file: seq<byte>, size: nat, turns: seq<Turn>)
    requires 0 < size < 0x1_0000 && |turns| >= 4
    ensures Announced(|file|, size) > 0 && Min(size, |file|) > 0xFFF8 ==>
            Abandoned(Rounds(Lowered(Beginning(size)), turns, longMax, file), file, size)
  {
    hide Round, Abandoned, Announced, Beginning, Lowered, Steady, Requesting, Cancelling, Block;
    if Announced(|file|, size) > 0 && Min(size, |file|) > 0xFFF8 {
      assert Usable(Lowered(Beginning(size))) by { BeginningIsUsable(size); }
      assert Encode(ControllerUart, FirstReply(file, size)).None? by { FirstBlockSize(file, size); }
      var a := HandshakeRounds(turns[0], turns[1], longMax, file, size);
      UnsendableRound(a, turns[2], longMax, file, size);
      CancellingRound(a, turns[3], longMax, file, size);
      ThreeRounds(Lowered(Beginning(size)), turns, longMax, file);
      var end := Round(Lowered(Cancelling(a, size)), turns[3], longMax, file);
      assert turns[3..][0] == turns[3] && turns[3..][1..] == turns[4..];
      assert Abandoned(end, file, size);
      RoundsOnce(Lowered(Cancelling(a, size)), turns[3..], longMax, file);
      AbandonedIsQuiet(end, file, size);
      AbandonedForGood(end, turns[4..], longMax, file);
    }
  }

  lemma RoundsOnce(w: Link, turns: seq<Turn>, longMax: nat, file: seq<byte>)
    requires Usable(w) && turns != []
    ensures Rounds(w, turns, longMax, file) == Rounds(Round(w, turns[0], longMax, file), turns[1..], longMax, file)
  {
  }

  lemma AbandonedIsQuiet(w: Link, file: seq<byte>, size: nat)
    requires size > 0 && Abandoned(w, file, size)
    ensures w.pending == [] && w.mainDecoder == EMPTY
  {
  }
}
