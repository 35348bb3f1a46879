/**
 First blocks that the peer's decoder drops: blocks of more than 515 bytes are encoded and written,
 complete no frame, and leave the transfer hanging.
 */
module LostBlocks {
  import opened Arithmetic
  import opened Bytes
  import Crc
  import opened FrameCodec
  import opened FrameStream
  import opened FrameDecoder
  import opened ControllerTransfer
  import opened FirmwareExchange
  import opened WireExchange
  import FW = FirmwareTransfer

  /** An empty peer decoder completes no frame when this one is written. */
  predicate Lost(f: Frame)
    requires Encode(ControllerUart, f).Some?
  {
    Pushed(ControllerUart, EMPTY, Encode(ControllerUart, f).value).frames == []
  }

  /** A frame beyond the size limit is lost when no second sync pair occurs in its bytes. */
  lemma QuietIsLost(f: Frame)
    requires |f.payload| > 519 && Encode(ControllerUart, f).Some?
    requires Quiet(Encode(ControllerUart, f).value[1..])
    ensures Lost(f)
  {
    hide Decode, Crc.Wire, Policy.Checksum, Retained;
    var wire := Encode(ControllerUart, f).value;
    var kept := Retained(ControllerUart, wire);
    PushesOne(wire);
    if kept == wire {
      OversizeRejected(f);
    } else {
      QuietSuffix(wire[1..], kept);
      DecodeQuiet(ControllerUart, 0, kept);
    }
  }

  lemma QuietSuffix(noise: seq<byte>, kept: seq<byte>)
    requires Quiet(noise) && |kept| <= |noise| && kept == noise[|noise| - |kept|..]
    ensures Quiet(kept)
  {
    var n := |noise| - |kept|;
    forall k: nat ensures !SyncAt(kept, k) { assert !SyncAt(noise, n + k); }
  }

  lemma OversizeRejected(f: Frame)
    requires |f.payload| > 519 && Encode(ControllerUart, f).Some?
    requires Quiet(Encode(ControllerUart, f).value[1..])
    ensures Decode(ControllerUart, 0, Encode(ControllerUart, f).value).frames == []
  {
    hide Crc.Wire, Policy.Checksum, FromBigEndian;
    var wire := Encode(ControllerUart, f).value;
    BodyLength(f);
    assert wire[2..4] == Body(f)[..2];
    FindSyncIs(wire, 0);
    assert wire[0..] == wire;
    DecodeQuiet(ControllerUart, 1, wire[1..]);
  }

  /** The server has sent a block that was lost: it is active but not waiting, and nothing is on its way. */
  ghost predicate Stuck(w: Link, file: seq<byte>, size: nat)
    requires size > 0
  {
    && w.server.active && !w.server.waiting && w.pending == [] && w.mainDecoder == EMPTY
    && w.peer.family == FIRMWARE_FAMILY && w.delivered == []
    && w.events == ProgressEvents(1, Announced(|file|, size))
  }

  lemma LostRound(a: World, turn: Turn, longMax: nat, file: seq<byte>, size: nat)
    requires 0 < size < 0x1_0000 && Steady(a, size) && Requesting(a, file, size, 1)
    requires 515 < Min(size, |file|) <= 0xFFF8
    requires Encode(ControllerUart, FirstReply(file, size)).Some? && Lost(FirstReply(file, size))
    ensures Stuck(Round(Lowered(a), turn, longMax, file), file, size)
  {
    hide PushedAll, Cut, FW.Handle, OnUart, Encode, Block, Pushed, WireIndex, Announced;
    var request, reply := a.toServer[0], FirstReply(file, size);
    var event := FW.Publish(FW.Progress, 1, a.server.frameCount);
    var o := FW.Outcome(a.server.(waiting := false), [event, FW.Send(reply)]);
    assert a.toServer == [request];
    ReadsFrame(request, turn.sizes);
    ServeBlock(a.server, turn.now, longMax, file, size, 1);
    SendsOf(event, reply);
    assert FW.Handle(a.server, request, turn.now, FilePort(longMax, file)) == o;
    SentWhole(a.server, request, turn.now, longMax, file, reply);
    var ready := Lowered(a).(pending := []);
    ServesOne(ready, request, turn.now, longMax, file);
    LosesOne(ready.(server := o.server, events := a.events + [event]), reply);
    NothingCovered(file, size);
  }

  lemma SentWhole(s: FW.Server, f: Frame, now: nat, longMax: nat, file: seq<byte>, reply: Frame)
    requires Sends(FW.Handle(s, f, now, FilePort(longMax, file)).actions) == [reply]
    requires Encode(ControllerUart, reply).Some?
    ensures UartPort(longMax, file, s, f, now) == FilePort(longMax, file)
  {
    hide FW.Handle, Encode, Sends;
  }

  lemma LosesOne(w: Link, reply: Frame)
    requires Usable(w) && w.peerDecoder == EMPTY && Encode(ControllerUart, reply).Some? && Lost(reply)
    ensures var r := Transmit(w, [reply]); r == w.(peerDecoder := r.peerDecoder)
  {
    hide Encode, Pushed;
    var frames: seq<Frame> := [reply];
    assert frames[1..] == [];
    var d := Pushed(ControllerUart, w.peerDecoder, Encode(ControllerUart, reply).value);
    var after := w.(peerDecoder := d.(frames := []));
    assert PeerTakes(after, []) == after && Transmit(after, []) == after;
  }

  /** From then on no round changes anything, and no frame of an unknown operation times the transfer out. */
  lemma {:induction false} StuckForever(w: Link, turns: seq<Turn>, longMax: nat, file: seq<byte>, size: nat)
    requires size > 0 && Usable(w) && Stuck(w, file, size)
    ensures Rounds(w, turns, longMax, file) == w
    ensures forall now: nat, port: FW.Port ::
              FW.Handle(w.server, Packet(FIRMWARE_FAMILY, Unknown, []), now, port) == FW.Outcome(w.server, [])
    decreases |turns|
  {
    forall now: nat, port: FW.Port
      ensures FW.Handle(w.server, Packet(FIRMWARE_FAMILY, Unknown, []), now, port) == FW.Outcome(w.server, [])
    {
      UnknownIgnored(w.server, now, port);
    }
    hide FW.Handle, Round;
    if turns != [] {
      QuietRound(w, turns[0], longMax, file);
      StuckForever(w, turns[1..], longMax, file, size);
    }
  }

  lemma UnknownIgnored(s: FW.Server, now: nat, port: FW.Port)
    requires !s.waiting
    ensures FW.Handle(s, Packet(FIRMWARE_FAMILY, Unknown, []), now, port) == FW.Outcome(s, [])
  {
    hide FW.OnStart, FW.OnGeometry, FW.OnData, Packet, OperationOf;
  }

  /** A first block of 516 to 65528 bytes that is lost leaves the transfer hanging for ever. */
  lemma LostBlockHangs(longMax: nat, file: seq<byte>, size: nat, turns: seq<Turn>)
    requires 0 < size < 0x1_0000 && |turns| >= 3
    ensures FirstIsLost(file, size) ==> Stuck(Rounds(Lowered(Beginning(size)), turns, longMax, file), file, size)
  {
    hide Round, Stuck, Lost, Encode, Announced, FirstReply, Beginning, Lowered, Steady, Requesting;
    if FirstIsLost(file, size) {
      assert Usable(Lowered(Beginning(size))) by { BeginningIsUsable(size); }
      var a := HandshakeRounds(turns[0], turns[1], longMax, file, size);
      LostRound(a, turns[2], longMax, file, size);
      ThreeRounds(Lowered(Beginning(size)), turns, longMax, file);
      StuckForever(Round(Lowered(a), turns[2], longMax, file), turns[3..], longMax, file, size);
    }
  }

  /** The first block is encoded, too large for the peer's decoder, and not mistaken for other frames. */
  predicate FirstIsLost(file: seq<byte>, size: nat)
    requires 0 < size < 0x1_0000
  {
    Announced(|file|, size) > 0 && 515 < Min(size, |file|) <= 0xFFF8 &&
    Encode(ControllerUart, FirstReply(file, size)).Some? && Lost(FirstReply(file, size))
  }

  // ----- A file whose transfer hangs -----

  function Blank(n: nat): (s: seq<byte>)
    ensures |s| == n && forall i :: 0 <= i < n ==> s[i] == 0
  {
    seq(n, i => 0)
  }

  /** 516 bytes, one more than a block can have to cross. */
  function Sample(x: byte): seq<byte> { Blank(515) + [x] }

  lemma SampleReply(x: byte)
    ensures Announced(|Sample(x)|, 516) > 0
    ensures FirstReply(Sample(x), 516) == Frame(0xC3, [0, 0, 0, 1] + Sample(x))
  {
    BlockBounds(Sample(x), 516, 1);
    FirstBlockSize(Sample(x), 516);
    assert Block(Sample(x), 516, 1) == Sample(x);
    assert Range(4) == TWO_TO_THE_32 && WireIndex(1) == [0, 0, 0, 1] by { IndexOne(); }
  }

  lemma IndexOne()
    ensures Range(4) == TWO_TO_THE_32 && WireIndex(1) == [0, 0, 0, 1]
  {
    assert BigEndian(0, 1) == [0] && BigEndian(0, 2) == [0, 0] && BigEndian(0, 3) == [0, 0, 0];
  }

  /** The body of the reply, up to the last byte of the block. */
  function SampleHead(): seq<byte> { [2, 0x0B, 0xC3, 0, 0, 0, 1] + Blank(515) }

  lemma SampleBody(x: byte)
    ensures Body(Frame(0xC3, [0, 0, 0, 1] + Sample(x))) == SampleHead() + [x]
  {
    assert Range(2) == 0x1_0000 && BigEndian(523, 2) == [2, 0x0B] by { assert BigEndian(2, 1) == [2]; }
  }

  /** Some of three samples has a checksum that is no sync pair. */
  lemma SomeChecksumIsNoSync() returns (x: byte)
    ensures x <= 2 && Crc.Wire(Crc.Update(SampleHead() + [x])) != SYNC
  {
    hide Crc.Update, Crc.UpdateAbsorb, SampleHead, Crc.Wire;
    var crc := Crc.Update(SampleHead());
    LastByte(0);
    LastByte(1);
    LastByte(2);
    Crc.UpdateSpreads(crc, 0, 1, 2);
    Crc.WireInjective(Crc.UpdateAbsorb(crc, 0), Crc.UpdateAbsorb(crc, 1));
    Crc.WireInjective(Crc.UpdateAbsorb(crc, 1), Crc.UpdateAbsorb(crc, 2));
    x := if Crc.Wire(Crc.UpdateAbsorb(crc, 0)) != SYNC then 0
         else if Crc.Wire(Crc.UpdateAbsorb(crc, 1)) != SYNC then 1 else 2;
  }

  lemma LastByte(x: byte)
    ensures Crc.Update(SampleHead() + [x]) == Crc.UpdateAbsorb(Crc.Update(SampleHead()), x)
  {
    hide Crc.UpdateAbsorb, SampleHead;
    Crc.UpdateAfter(SampleHead(), x, []);
    assert SampleHead() + [x] + [] == SampleHead() + [x];
  }

  /** There is a file of 516 bytes whose transfer in one block hangs for ever. */
  lemma HangingFile() returns (file: seq<byte>)
    ensures |file| == 516 && FirstIsLost(file, 516)
  {
    hide Announced, FirstReply, Lost, Body, SampleHead, Crc.Update, Crc.Wire;
    var x := SomeChecksumIsNoSync();
    file := Sample(x);
    var reply := Frame(0xC3, [0, 0, 0, 1] + file);
    SampleReply(x);
    SampleBody(x);
    SampleQuiet(x);
    QuietIsLost(reply);
  }

  /** Bytes other than the first half of a sync pair, then a checksum that is no sync pair, and the tail. */
  lemma NoSyncInside(head: seq<byte>, checksum: seq<byte>)
    requires SYNC[0] !in head && |checksum| == 2 && checksum != SYNC
    ensures Quiet(head + checksum + TAIL)
  {
    var noise, n := head + checksum + TAIL, |head|;
    assert checksum == [checksum[0], checksum[1]] && SYNC == [SYNC[0], SYNC[1]];
    forall k: nat ensures !SyncAt(noise, k) {
      if k < n {
        assert noise[k] == head[k];
      } else if k + 1 < |noise| {
        assert noise[k] == (checksum + TAIL)[k - n] && noise[k + 1] == (checksum + TAIL)[k + 1 - n];
      }
    }
  }

  lemma HeadIsQuiet(x: byte)
    requires x <= 2
    ensures SYNC[0] !in [SYNC[1]] + (SampleHead() + [x])
  {
  }

  lemma SampleQuiet(x: byte)
    requires x <= 2 && Crc.Wire(Crc.Update(SampleHead() + [x])) != SYNC
    ensures var wire := Encode(ControllerUart, Frame(0xC3, [0, 0, 0, 1] + Sample(x)));
            wire.Some? && Quiet(wire.value[1..])
  {
    hide Crc.Update, Crc.Wire, Body, SampleHead, Sample;
    var checksum := Crc.Wire(Crc.Update(SampleHead() + [x]));
    SampleBody(x);
    SampleSize(x);
    var wire := Encode(ControllerUart, Frame(0xC3, [0, 0, 0, 1] + Sample(x))).value;
    assert wire == SYNC + (SampleHead() + [x]) + checksum + TAIL;
    assert wire[1..] == [SYNC[1]] + (SampleHead() + [x]) + checksum + TAIL;
    HeadIsQuiet(x);
    NoSyncInside([SYNC[1]] + (SampleHead() + [x]), checksum);
  }

  lemma SampleSize(x: byte)
    ensures |Sample(x)| == 516 && |SampleHead()| == 522 && SampleHead()[2] == 0xC3
  {
  }
}
