/** Exactly which files cross the UART whole. */
module WireOutcome {
  import opened Arithmetic
  import opened Bytes
  import opened FrameCodec
  import opened ControllerTransfer
  import opened FirmwareExchange
  import opened WireExchange
  import FW = FirmwareTransfer
  import opened LostBlocks
  import opened UnsendableBlocks

  /** A first block too large to cross is not mistaken for other frames. */
  predicate NotMistaken(file: seq<byte>, size: nat)
    requires 0 < size < 0x1_0000
  {
    Announced(|file|, size) > 0 && 515 < Min(size, |file|) && Encode(ControllerUart, FirstReply(file, size)).Some? ==>
      Lost(FirstReply(file, size))
  }

  /**
   Over the UART the exchange completes with exactly the file if and only if the file is shorter than
   2^32 bytes, its last block starts within the range of a file offset, and its blocks have at most 515
   bytes.
   */
  lemma WholeFileOverUart(longMax: nat, file: seq<byte>, size: nat, turns: seq<Turn>)
    requires 0 < size < 0x1_0000 && |turns| >= Reached(|file|, size, longMax) + 4
    requires NotMistaken(file, size)
    ensures var n, w := Announced(|file|, size), Rounds(Lowered(Beginning(size)), turns, longMax, file);
            w.delivered == file && FW.Publish(FW.Completed, 0, 0) in w.events <==>
            |file| < TWO_TO_THE_32 && (n == 0 || (n - 1) * size <= longMax) && Min(size, |file|) <= 515
  {
    hide Rounds, Beginning, Lowered, Reached, Block, FirstReply, Lost;
    var n := Announced(|file|, size);
    if Min(size, |file|) <= 515 {
      SmallBlocksExactly(longMax, file, size, turns);
    } else if n == 0 {
      NothingAnnounced(longMax, file, size, turns);
    } else if Encode(ControllerUart, FirstReply(file, size)).Some? {
      assert Min(size, |file|) <= 0xFFF8 by { FirstBlockSize(file, size); }
      LostBlockHangs(longMax, file, size, turns);
    } else {
      assert Min(size, |file|) > 0xFFF8 by { FirstBlockSize(file, size); }
      UnsendableBlockCancels(longMax, file, size, turns);
    }
  }

  lemma SmallBlocksExactly(longMax: nat, file: seq<byte>, size: nat, turns: seq<Turn>)
    requires 0 < size < 0x1_0000 && |turns| >= Reached(|file|, size, longMax) + 4 && Min(size, |file|) <= 515
    ensures var n, w := Announced(|file|, size), Rounds(Lowered(Beginning(size)), turns, longMax, file);
            w.delivered == file && FW.Publish(FW.Completed, 0, 0) in w.events <==>
            |file| < TWO_TO_THE_32 && (n == 0 || (n - 1) * size <= longMax)
  {
    hide Run, Rounds, Steady, FilePort, Announced, Reached, Beginning;
    BeginningIsSteady(size);
    RoundsRefine(Beginning(size), turns, longMax, file, size);
    WholeFileDelivered(longMax, file, size, Doubled(turns));
  }

  /** A file of a multiple of 2^32 bytes is announced as empty, and nothing of it is delivered. */
  lemma NothingAnnounced(longMax: nat, file: seq<byte>, size: nat, turns: seq<Turn>)
    requires 0 < size < 0x1_0000 && |turns| >= 4 && Announced(|file|, size) == 0
    ensures Rounds(Lowered(Beginning(size)), turns, longMax, file).delivered == []
  {
    hide Round, Step, Announced, Beginning, Steady, Packet, OperationOf, FW.Handle;
    assert Usable(Lowered(Beginning(size))) by { BeginningIsUsable(size); }
    var port := FilePort(longMax, file);
    var a := HandshakeRounds(turns[0], turns[1], longMax, file, size);
    CompleteAsksNothing(file, size);
    RoundRefines(a, turns[2], longMax, file, size);
    EndRound(a, turns[2].now, port, file, size, 0);
    QuiescentStays(Step(a, turns[2].now, port), turns[2].now, port);
    ThreeRounds(Lowered(Beginning(size)), turns, longMax, file);
    AbandonedForGood(Round(Lowered(a), turns[2], longMax, file), turns[3..], longMax, file);
    NothingCovered(file, size);
  }

  lemma CompleteAsksNothing(file: seq<byte>, size: nat)
    ensures Small(Packet(FIRMWARE_FAMILY, Complete, []), file, size)
  {
  }

  lemma QuiescentStays(a: World, now: nat, port: FW.Port)
    requires Sane(a) && Quiescent(a)
    ensures Step(a, now, port) == a && OnUart(a.toServer) == []
  {
  }
}
