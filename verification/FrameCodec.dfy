/**
 The common wire frame: sync pair, big-endian length, type, payload, checksum, tail pair; its
 encoder; and the resynchronising decoder shared by every transport, as functions of the
 buffered bytes. A transport differs only in its `Policy`.
 */
module FrameCodec {
  import opened Bytes
  import opened Crc

  datatype Frame = Frame(kind: byte, payload: seq<byte>)

  /** The host tool's decoder and the three stream policies of the firmware. */
  datatype Policy = HostTool | Tcp | Usb | ControllerUart {

    /** Largest complete frame accepted; the host tool accepts whatever the length field can say. */
    function MaximumFrameSize(): nat {
      match this
      case HostTool => 0xFFFF + 6
      case Tcp => 8300
      case Usb => 8300
      case ControllerUart => 528
    }

    /** Bytes discarded when the length field is out of range. */
    function BadLengthDiscard(): nat {
      match this
      case HostTool => 2
      case Tcp => 1
      case Usb => 4
      case ControllerUart => 1
    }

    /** Bytes discarded when tail or checksum of a complete candidate are wrong. */
    function BadFrameDiscard(total: nat): nat {
      if this.Usb? then total else 1
    }

    /** The controller firmware family is checked with its own checksum on the UART only. */
    function Checksum(body: seq<byte>): Register
      requires |body| >= 3
    {
      if this.ControllerUart? && body[2] / 16 == 0xC then Update(body) else Ccitt(body)
    }
  }

  const SYNC: seq<byte> := [0x86, 0x68]
  const TAIL: seq<byte> := [0x55, 0xAA]
  const MINIMUM_DATA_LENGTH := 3
  const REJECTION_LIMIT: nat := 5000

  // ----- Encoder -----

  /** The checksummed part of a frame: length, type and payload. */
  function Body(f: Frame): (body: seq<byte>)
    requires |f.payload| + 3 <= 0xFFFF
    ensures |body| == |f.payload| + 3
  {
    assert Range(2) == 0x1_0000;
    BigEndian(|f.payload| + 3, 2) + [f.kind] + f.payload
  }

  function Encode(p: Policy, f: Frame): (r: Option<seq<byte>>) {
    if |f.payload| + 3 > 0xFFFF then None
    else Some(SYNC + Body(f) + Wire(p.Checksum(Body(f))) + TAIL)
  }

  // ----- Decoder -----

  predicate SyncAt(buffer: seq<byte>, i: nat) {
    i + 1 < |buffer| && buffer[i] == SYNC[0] && buffer[i + 1] == SYNC[1]
  }

  /** Position of the first sync pair. */
  function FindSync(buffer: seq<byte>): (r: Option<nat>)
    ensures r.Some? ==> SyncAt(buffer, r.value) && forall k: nat :: k < r.value ==> !SyncAt(buffer, k)
    ensures r.None? ==> forall k: nat :: !SyncAt(buffer, k)
    decreases |buffer|
  {
    if |buffer| < 2 then None
    else if SyncAt(buffer, 0) then Some(0)
    else
      var rest := FindSync(buffer[1..]);
      assert forall k: nat :: k > 0 ==> SyncAt(buffer, k) == SyncAt(buffer[1..], k - 1);
      if rest.Some? then Some(rest.value + 1) else None
  }

  /** The only byte worth keeping when no sync pair is present: a first half at the very end. */
  function KeepHalfSync(buffer: seq<byte>): (r: seq<byte>)
    ensures |r| <= |buffer| && |r| <= 1
    ensures buffer[|buffer| - |r|..] == r
  {
    if |buffer| > 0 && buffer[|buffer| - 1] == SYNC[0] then [SYNC[0]] else []
  }

  datatype Verdict = Incomplete | Reject(discard: nat) | Accept(frame: Frame, size: nat)

  /** Judges the candidate at the front of a buffer that starts with the sync pair. */
  function Judge(p: Policy, buffer: seq<byte>): (v: Verdict)
    requires SyncAt(buffer, 0)
    ensures v.Reject? ==> 1 <= v.discard <= |buffer|
    ensures v.Accept? ==> 9 <= v.size <= |buffer|
    ensures v.Incomplete? ==> |buffer| < 4 || |buffer| < p.MaximumFrameSize()
    ensures v.Reject? && p.ControllerUart? ==> |buffer| >= 4 && v.discard == 1
  {
    if |buffer| < 4 then Incomplete
    else
      var dataLength := FromBigEndian(buffer[2..4]);
      var total := dataLength + 6;
      if dataLength < MINIMUM_DATA_LENGTH || total > p.MaximumFrameSize() then Reject(p.BadLengthDiscard())
      else if |buffer| < total then Incomplete
      else if buffer[total - 2..total] == TAIL &&
              buffer[total - 4..total - 2] == Wire(p.Checksum(buffer[2..total - 4]))
      then Accept(Frame(buffer[4], buffer[5..total - 4]), total)
      else Reject(p.BadFrameDiscard(total))
  }

  /** The UART decoder drops one byte more after every 5000 consecutive rejections. */
  function Charge(p: Policy, rejections: nat): (r: (nat, nat))
    ensures r.1 <= 1 && (r.1 > 0 ==> p.ControllerUart?)
    ensures p.ControllerUart? && rejections < 5000 ==> r.0 + 5000 * r.1 == rejections + 1 && r.0 < 5000
  {
    if !p.ControllerUart? then (rejections, 0)
    else if rejections + 1 < REJECTION_LIMIT then (rejections + 1, 0)
    else (0, 1)
  }

  /** Decoded frames, the rejection count and the bytes that stay buffered. */
  datatype Decoded = Decoded(frames: seq<Frame>, rejections: nat, rest: seq<byte>)

  function Decode(p: Policy, rejections: nat, buffer: seq<byte>): (d: Decoded)
    decreases |buffer|, 1
  {
    match FindSync(buffer)
    case None => Decoded([], rejections, KeepHalfSync(buffer))
    case Some(at) => DecodeCandidate(p, rejections, buffer[at..])
  }

  function DecodeCandidate(p: Policy, rejections: nat, candidate: seq<byte>): (d: Decoded)
    requires SyncAt(candidate, 0)
    decreases |candidate|, 0
  {
    match Judge(p, candidate)
    case Incomplete => Decoded([], rejections, candidate)
    case Reject(discard) =>
      var (count, extra) := Charge(p, rejections);
      Decode(p, count, candidate[discard + extra..])
    case Accept(frame, size) =>
      Prepend(frame, Decode(p, 0, candidate[size..]))
  }

  function Prepend(frame: Frame, d: Decoded): Decoded {
    d.(frames := [frame] + d.frames)
  }
}
