/** From the bytes of factory.ini, through its chunks, to what the controller fetches. */
module FactoryDelivery {
  import opened Arithmetic
  import opened Bytes
  import opened ControllerTransfer
  import Adapter = TransferAdapter
  import opened FactoryTransfer

  /** The last chunk of a file. */
  function Tail(file: seq<byte>): (tail: seq<byte>)
    ensures |tail| <= CHUNK_SIZE && (|file| <= CHUNK_SIZE ==> tail == file)
    decreases |file|
  {
    if |file| <= CHUNK_SIZE then file else Tail(file[CHUNK_SIZE..])
  }

  predicate Deliverable(record: seq<byte>, frameDataSize: nat) {
    Eligible(record) && Fits(record, frameDataSize)
  }

  /** Full chunks exceed the record limit, so only the last chunk can ever be delivered. */
  lemma {:induction false} OnlyTheTailFits(file: seq<byte>, frameDataSize: nat)
    ensures Fitting(Records(Adapter.Pieces(file, CHUNK_SIZE)), frameDataSize) ==
            if Deliverable(Tail(file), frameDataSize) then [Tail(file)] else []
    decreases |file|
  {
    var n := Min(CHUNK_SIZE, |file|);
    if file == [] {
    } else if |file| <= CHUNK_SIZE {
      assert file[..n] == file && file[n..] == [];
      LastPiece(file, frameDataSize);
    } else {
      OnlyTheTailFits(file[n..], frameDataSize);
      SkipFullPiece(file[..n], Adapter.Pieces(file[n..], CHUNK_SIZE), frameDataSize);
    }
  }

  lemma LastPiece(file: seq<byte>, frameDataSize: nat)
    ensures Fitting(Records([file]), frameDataSize) == if Deliverable(file, frameDataSize) then [file] else []
  {
    var one: seq<seq<byte>> := [file];
    assert one[1..] == [];
    assert Fitting(one, frameDataSize) == if Fits(file, frameDataSize) then one else [];
  }

  lemma SkipFullPiece(piece: seq<byte>, later: seq<seq<byte>>, frameDataSize: nat)
    requires |piece| == CHUNK_SIZE
    ensures Fitting(Records([piece] + later), frameDataSize) == Fitting(Records(later), frameDataSize)
  {
    assert ([piece] + later)[1..] == later;
    var records := Records(later);
    assert [] + records == records && ([piece] + records)[1..] == records;
    assert !Fits(piece, frameDataSize);
  }

  /**
   For every factory file the replies to all announced requests carry its last 255-byte chunk, if that
   is eligible and fits, and nothing else. The whole file arrives if and only if it is empty, or is
   itself an eligible record that fits.
   */
  lemma FactoryDelivered(s: State, geometry: seq<byte>, port: Port, file: seq<byte>)
    requires Succeeding(port) && Acceptable(ParseGeometry(geometry))
    requires port.chunks == Some(Adapter.Pieces(file, CHUNK_SIZE)) && |Records(port.chunks.value)| < TWO_TO_THE_32
    ensures var t := OnGeometry(s, geometry, port).state;
            var fetched := Fetched(t, port, 1, t.frameCount);
            && fetched == (if Deliverable(Tail(file), t.frameDataSize) then [Tail(file)] else [])
            && (Concat(fetched) == file <==> file == [] || Deliverable(file, t.frameDataSize))
  {
    hide Records, Fetched, ParseGeometry, Adapter.Pieces, OnGeometry, Succeeding, Fitting, Eligible, Acceptable;
    FactoryFetched(s, geometry, port);
    var t := OnGeometry(s, geometry, port).state;
    OnlyTheTailFits(file, t.frameDataSize);
    ConcatTail(file, Deliverable(Tail(file), t.frameDataSize));
    EmptyIsNoRecord(t.frameDataSize);
  }

  /** A record is delivered if it has 3 to 132 bytes, fits the proposed size and starts with no hash. */
  lemma DeliverableExactly(record: seq<byte>, frameDataSize: nat)
    ensures Deliverable(record, frameDataSize) <==>
            3 <= |record| <= 132 && |record| <= frameDataSize && record[0] != 35
  {
  }

  /** The last chunk is what whole chunks of 255 bytes leave, and a whole one if they leave nothing. */
  lemma {:induction false} TailExactly(file: seq<byte>)
    requires file != []
    ensures var n := if |file| % 255 == 0 then 255 else |file| % 255; n <= |file| && Tail(file) == file[|file| - n..]
    decreases |file|
  {
    if |file| > CHUNK_SIZE {
      var rest := file[CHUNK_SIZE..];
      assert |rest| % 255 == |file| % 255;
      TailExactly(rest);
    }
  }

  lemma ConcatTail(file: seq<byte>, carried: bool)
    ensures carried ==> Concat([Tail(file)]) == Tail(file)
    ensures Concat([]) == []
  {
    var one: seq<seq<byte>> := [Tail(file)];
    assert one[1..] == [] && Tail(file) + [] == Tail(file);
  }

  lemma EmptyIsNoRecord(frameDataSize: nat)
    ensures !Deliverable([], frameDataSize)
  {
  }
}
