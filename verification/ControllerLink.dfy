/** Which transfer replies get through the controller's UART frame decoder. */
module ControllerLink {
  import opened Bytes
  import opened FrameCodec
  import opened FrameStream
  import opened ControllerTransfer
  import Config = ConfigTransfer
  import Factory = FactoryTransfer
  import Firmware = FirmwareTransfer

  /** Sent on an idle UART the frame, and nothing else, is decoded. */
  predicate Crosses(rejections: nat, f: Frame) {
    var wire := Encode(ControllerUart, f);
    wire.Some? && Decode(ControllerUart, rejections, wire.value).frames == [f]
  }

  predicate AllFit(p: Policy, frames: seq<Frame>) {
    forall i :: 0 <= i < |frames| ==> Encodable(p, frames[i])
  }

  /** Whatever bytes arrive, a decoder only ever yields frames within its size limit. */
  lemma {:induction false} DecodedFit(p: Policy, rejections: nat, buffer: seq<byte>)
    ensures AllFit(p, Decode(p, rejections, buffer).frames)
    decreases |buffer|, 1
  {
    hide Judge, Charge;
    var at := FindSync(buffer);
    if at.Some? { CandidateFits(p, rejections, buffer[at.value..]); }
  }

  lemma {:induction false} CandidateFits(p: Policy, rejections: nat, candidate: seq<byte>)
    requires SyncAt(candidate, 0)
    ensures AllFit(p, DecodeCandidate(p, rejections, candidate).frames)
    decreases |candidate|, 0
  {
    hide Judge, Charge, Decode;
    match Judge(p, candidate)
    case Incomplete =>
    case Reject(discard) =>
      var (count, extra) := Charge(p, rejections);
      RejectLeavesRoom(p, rejections, candidate);
      DecodedFit(p, count, candidate[discard + extra..]);
    case Accept(frame, size) =>
      AcceptedFits(p, candidate);
      DecodedFit(p, 0, candidate[size..]);
  }

  lemma RejectLeavesRoom(p: Policy, rejections: nat, candidate: seq<byte>)
    requires SyncAt(candidate, 0) && Judge(p, candidate).Reject?
    ensures Judge(p, candidate).discard + Charge(p, rejections).1 <= |candidate|
  {
  }

  lemma AcceptedFits(p: Policy, candidate: seq<byte>)
    requires SyncAt(candidate, 0) && Judge(p, candidate).Accept?
    ensures Encodable(p, Judge(p, candidate).frame)
  {
  }

  /** A frame crosses the UART exactly when its payload has at most 519 bytes. */
  lemma CrossesExactly(rejections: nat, f: Frame)
    ensures Crosses(rejections, f) <==> |f.payload| <= 519
  {
    hide Decode, Encode, Encoded;
    if |f.payload| <= 519 {
      SingleFrameCrosses(ControllerUart, rejections, f);
    } else if Encode(ControllerUart, f).Some? {
      var wire := Encode(ControllerUart, f).value;
      var frames := Decode(ControllerUart, rejections, wire).frames;
      DecodedFit(ControllerUart, rejections, wire);
      assert |frames| == 1 ==> Encodable(ControllerUart, frames[0]);
    }
  }

  /** On every transport a frame is encoded and decoded up to the payload size of that transport and no further. */
  lemma TransportLimits(p: Policy, rejections: nat, f: Frame)
    ensures var wire := Encode(p, f);
            (wire.Some? && Decode(p, rejections, wire.value).frames == [f]) <==>
            |f.payload| <= (match p
                            case HostTool => 65532
                            case Tcp => 8291
                            case Usb => 8291
                            case ControllerUart => 519)
  {
    hide Decode, Encode, Encoded;
    if Encodable(p, f) {
      SingleFrameCrosses(p, rejections, f);
    } else if Encode(p, f).Some? {
      var frames := Decode(p, rejections, Encode(p, f).value).frames;
      DecodedFit(p, rejections, Encode(p, f).value);
      assert |frames| == 1 ==> Encodable(p, frames[0]);
    }
    EncodesUpTo(p, f);
  }

  lemma EncodesUpTo(p: Policy, f: Frame)
    ensures Encode(p, f).Some? <==> |f.payload| <= 65532
  {
  }

  /** Every reply of the configuration family crosses, whatever the state, the frame and the file. */
  lemma ConfigurationRepliesCross(s: Config.State, frame: Frame, port: Config.Port, rejections: nat, i: nat)
    requires i < |Config.Handle(s, frame, port).sent|
    ensures Crosses(rejections, Config.Handle(s, frame, port).sent[i])
  {
    hide Crosses, Config.Records, Config.Gather, Config.Bounded, ParseGeometry;
    CrossesExactly(rejections, Config.Handle(s, frame, port).sent[i]);
  }

  /** So does every reply of the factory family. */
  lemma FactoryRepliesCross(s: Factory.State, frame: Frame, port: Factory.Port, rejections: nat, i: nat)
    requires i < |Factory.Handle(s, frame, port).sent|
    ensures Crosses(rejections, Factory.Handle(s, frame, port).sent[i])
  {
    hide Crosses, Factory.Records, ParseGeometry;
    CrossesExactly(rejections, Factory.Handle(s, frame, port).sent[i]);
  }

  /**
   A firmware block crosses exactly when it has at most 515 bytes, although the server accepts block
   sizes up to 65535.
   */
  lemma FirmwareBlockCrossesExactly(index: nat, block: seq<byte>, rejections: nat)
    requires index < TWO_TO_THE_32
    ensures Crosses(rejections, Firmware.Reply(Data, WireIndex(index) + block).frame) <==> |block| <= 515
  {
    hide Crosses;
    CrossesExactly(rejections, Firmware.Reply(Data, WireIndex(index) + block).frame);
  }
}
