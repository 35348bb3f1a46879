/**
 The requesting peer of a transfer: the deterministic mock controller that starts a transfer,
 proposes a block size, requests the announced blocks one by one and ends the exchange.
 */
module MockController {
  import opened Bytes
  import opened FrameCodec
  import opened ControllerTransfer

  datatype Fault = NoFault | MalformedGeometry | Timeout | ControllerCancel

  /** `family` is zero while no transfer runs; `blockSize` is the size the peer proposes. */
  datatype Peer = Peer(family: byte, fault: Fault, count: nat, index: nat, blockSize: nat)

  /** What becomes of the frame that is sent only after a delay. */
  datatype Delay = Keep | Set(frame: Frame) | Clear

  /** The new state, the frames queued towards the mainboard now, and the delayed one. */
  datatype Reaction = Reaction(peer: Peer, queued: seq<Frame>, delay: Delay)

  function Delayed(before: Option<Frame>, delay: Delay): Option<Frame> {
    match delay
    case Keep => before
    case Set(f) => Some(f)
    case Clear => None
  }

  // ----- Specification -----

  function Started(p: Peer, family: byte, fault: Fault): Reaction {
    if p.family != 0 then Reaction(p, [], Keep)
    else Reaction(p.(family := family, fault := fault, count := 0, index := 0),
                  [Packet(family, Start, [])], Keep)
  }

  function Completed(p: Peer, succeeded: bool): Reaction {
    Reaction(p.(family := 0, fault := NoFault, count := 0, index := 0),
             [Packet(p.family, if succeeded then Complete else Cancel, [])], Clear)
  }

  function Requested(p: Peer, index: nat): Reaction
    requires index < TWO_TO_THE_32
  {
    Reaction(p.(index := index), [Packet(p.family, Data, WireIndex(index))], Keep)
  }

  function Proposal(p: Peer): seq<byte>
    requires p.blockSize < 0x1_0000
  {
    EncodeGeometry(0, p.blockSize)
  }

  /** Reaction to one frame of the mainboard. */
  function Responded(p: Peer, f: Frame): Reaction
    requires p.blockSize < 0x1_0000 && p.count < TWO_TO_THE_32
  {
    if FamilyOf(f.kind) != p.family then Reaction(p, [], Keep)
    else
      match OperationOf(f.kind)
      case Cancel => Completed(p, false)
      case Start =>
        (match p.fault
         case MalformedGeometry => Reaction(p, [Packet(p.family, Geometry, [0])], Keep)
         case Timeout => Reaction(p, [], Set(Packet(p.family, Unknown, [])))
         case _ => Reaction(p, [Packet(p.family, Geometry, Proposal(p))], Keep))
      case Geometry =>
        var g := ParseGeometry(f.payload);
        if g.None? then Reaction(p, [], Keep)
        else
          var q := p.(count := g.value.frameCount);
          if q.fault.ControllerCancel? then Completed(q, false)
          else if q.count == 0 then Completed(q, true)
          else Requested(q, 1)
      case Data =>
        var r := ParseDataRequest(f.payload);
        if r.None? then Reaction(p, [], Keep)
        else if r.value.index != p.index then Completed(p, false)
        else if p.index < p.count then Requested(p, p.index + 1)
        else Completed(p, true)
      case _ => Reaction(p, [], Keep)
  }

  // ----- Whole runs -----

  /** A transfer is asked for, or a frame of the mainboard arrives. */
  datatype Event = Ask(family: byte, fault: Fault) | Receive(frame: Frame)

  datatype Mock = Mock(peer: Peer, delayed: Option<Frame>)

  ghost predicate Sane(p: Peer) { p.blockSize < 0x1_0000 && p.count < TWO_TO_THE_32 }

  function After(size: nat, events: seq<Event>): (m: Mock)
    requires size < 0x1_0000
    ensures Sane(m.peer)
    decreases |events|
  {
    if events == [] then Mock(Peer(0, NoFault, 0, 0, size), None)
    else
      var m := After(size, events[..|events| - 1]);
      var r := match events[|events| - 1]
               case Ask(family, fault) => Started(m.peer, family, fault)
               case Receive(f) => Responded(m.peer, f);
      Mock(r.peer, Delayed(m.delayed, r.delay))
  }

  /** Idle peers have no fault, and only a running one with the silent fault holds a frame back. */
  predicate Quiet(m: Mock) {
    && (m.peer.family == 0 ==> m.peer.fault.NoFault?)
    && (m.delayed.Some? ==>
        m.peer.family != 0 && m.peer.fault.Timeout? && OperationOf(m.delayed.value.kind) == Unknown)
  }

  /** Over every run of transfers a frame is held back only by a peer that has gone silent, and it is unknown. */
  lemma {:induction false} DelayedWhileSilent(size: nat, events: seq<Event>)
    requires size < 0x1_0000 && forall i :: 0 <= i < |events| && events[i].Ask? ==> events[i].family != 0
    ensures Quiet(After(size, events))
    decreases |events|
  {
    hide EncodeGeometry, ParseGeometry, ParseDataRequest, WireIndex, OperationOf, FamilyOf, Packet;
    if events != [] { DelayedWhileSilent(size, events[..|events| - 1]); }
  }

  /** However a transfer ends, the peer is as it was before any. */
  lemma EndsReset(p: Peer, f: Frame)
    requires Sane(p) && p.family != 0 && Responded(p, f).peer.family == 0
    ensures Responded(p, f).peer == Peer(0, NoFault, 0, 0, p.blockSize)
    ensures |Responded(p, f).queued| == 1 && OperationOf(Responded(p, f).queued[0].kind) in {Complete, Cancel}
  {
    hide EncodeGeometry, ParseGeometry, ParseDataRequest, WireIndex, OperationOf, FamilyOf;
  }

  /** A block other than the one asked for ends the transfer with a cancellation. */
  lemma WrongBlockCancels(p: Peer, f: Frame)
    requires Sane(p) && FamilyOf(f.kind) == p.family && f.kind % 16 == 3 && |f.payload| >= 4
    requires FromBigEndian(f.payload[..4]) != p.index
    ensures Responded(p, f).peer.family == 0 && Responded(p, f).queued == [Packet(p.family, Cancel, [])]
  {
    assert OperationOf(f.kind) == Data;
  }

  // ----- The class -----

  class MockControllerChannel {
    const blockSize: nat
    var family: byte
    var fault: Fault
    var frameCount: nat
    var index: nat
    var queued: seq<Frame>
    var delayed: Option<Frame>

    function State(): Peer
      reads this
    {
      Peer(family, fault, frameCount, index, blockSize)
    }

    ghost predicate Valid()
      reads this
    {
      blockSize < 0x1_0000 && frameCount < TWO_TO_THE_32
    }

    constructor (blockSize: nat)
      requires blockSize < 0x1_0000
      ensures Valid() && State() == Peer(0, NoFault, 0, 0, blockSize)
      ensures queued == [] && delayed == None
    {
      this.blockSize := blockSize;
      family, fault, frameCount, index, queued, delayed := 0, NoFault, 0, 0, [], None;
    }

    method StartTransfer(newFamily: byte, newFault: Fault)
      requires Valid()
      modifies this
      ensures Valid() && delayed == old(delayed)
      ensures var r := Started(old(State()), newFamily, newFault);
              State() == r.peer && queued == old(queued) + r.queued
    {
      if family != 0 { return; }
      family, fault, frameCount, index := newFamily, newFault, 0, 0;
      queued := queued + [Packet(family, Start, [])];
    }

    method HandleTransferResponse(frame: Frame)
      requires Valid()
      modifies this
      ensures Valid()
      ensures var r := Responded(old(State()), frame);
              && State() == r.peer && queued == old(queued) + r.queued
              && delayed == Delayed(old(delayed), r.delay)
    {
      hide Packet, ParseGeometry, ParseDataRequest, EncodeGeometry, WireIndex, OperationOf, FamilyOf;
      if FamilyOf(frame.kind) != family { return; }
      match OperationOf(frame.kind) {
        case Cancel => CompleteTransfer(false);
        case Start =>
          if fault.MalformedGeometry? {
            queued := queued + [Packet(family, Geometry, [0])];
          } else if fault.Timeout? {
            delayed := Some(Packet(family, Unknown, []));
          } else {
            queued := queued + [Packet(family, Geometry, Proposal(State()))];
          }
        case Geometry =>
          var g := ParseGeometry(frame.payload);
          if g.Some? {
            frameCount := g.value.frameCount;
            if fault.ControllerCancel? {
              CompleteTransfer(false);
            } else if frameCount == 0 {
              CompleteTransfer(true);
            } else {
              index := 1;
              RequestTransferData();
            }
          }
        case Data =>
          var r := ParseDataRequest(frame.payload);
          if r.Some? {
            if r.value.index != index {
              CompleteTransfer(false);
            } else if index < frameCount {
              index := index + 1;
              RequestTransferData();
            } else {
              CompleteTransfer(true);
            }
          }
        case Complete =>
        case Unknown =>
      }
    }

    method RequestTransferData()
      requires Valid() && index < TWO_TO_THE_32
      modifies this`queued
      ensures queued == old(queued) + [Packet(family, Data, WireIndex(index))]
    {
      queued := queued + [Packet(family, Data, WireIndex(index))];
    }

    method CompleteTransfer(succeeded: bool)
      requires Valid()
      modifies this
      ensures Valid() && delayed == None
      ensures var r := Completed(old(State()), succeeded);
              State() == r.peer && queued == old(queued) + r.queued
    {
      queued := queued + [Packet(family, if succeeded then Complete else Cancel, [])];
      family, fault, frameCount, index, delayed := 0, NoFault, 0, 0, None;
    }
  }
}
