/** The decoders as the programs run them: the host tool's loop and the firmware's incremental decoder. */
module FrameDecoder {
  import opened Bytes
  import opened FrameCodec
  import opened FrameStream

  const UNDECODED_CAPACITY: nat := 2048
  const OVERFLOW_DISCARD: nat := 256

  /** The outcome when `frames` were already produced before `d`. */
  function Join(frames: seq<Frame>, d: Decoded): Decoded {
    d.(frames := frames + d.frames)
  }

  /** One turn of the loop: the frames still to come do not change, only where they are counted. */
  lemma Turn(p: Policy, frames: seq<Frame>, rejections: nat, buffer: seq<byte>, at: nat)
    requires FindSync(buffer) == Some(at)
    ensures var candidate := buffer[at..];
            Join(frames, Decode(p, rejections, buffer)) ==
            match Judge(p, candidate)
            case Incomplete => Decoded(frames, rejections, candidate)
            case Reject(discard) =>
              Join(frames, Decode(p, Charge(p, rejections).0, candidate[discard + Charge(p, rejections).1..]))
            case Accept(frame, size) => Join(frames + [frame], Decode(p, 0, candidate[size..]))
  {
    hide Judge, FindSync, Charge;
    match Judge(p, buffer[at..])
    case Incomplete => assert frames + [] == frames;
    case Reject(_) =>
    case Accept(frame, size) =>
      var d := Decode(p, 0, buffer[at..][size..]);
      assert frames + ([frame] + d.frames) == frames + [frame] + d.frames;
  }

  lemma LastTurn(p: Policy, frames: seq<Frame>, rejections: nat, buffer: seq<byte>)
    requires FindSync(buffer).None?
    ensures Join(frames, Decode(p, rejections, buffer)) == Decoded(frames, rejections, KeepHalfSync(buffer))
  {
    assert frames + [] == frames;
  }

  lemma FirstTurn(d: Decoded)
    ensures Join([], d) == d
  {
    assert [] + d.frames == d.frames;
  }

  /** The host tool's decoder: deletes prefixes of a buffer until nothing complete is left. */
  method DecodeFrames(data: seq<byte>) returns (frames: seq<Frame>, remainder: seq<byte>)
    ensures frames == Decode(HostTool, 0, data).frames
    ensures remainder == Decode(HostTool, 0, data).rest
  {
    hide Decode, Judge, FindSync, Join;
    frames := [];
    var buffer := data;
    FirstTurn(Decode(HostTool, 0, data));
    while true
      invariant Decode(HostTool, 0, data) == Join(frames, Decode(HostTool, 0, buffer))
      decreases |buffer|
    {
      var at := FindSync(buffer);
      if at.None? {
        LastTurn(HostTool, frames, 0, buffer);
        remainder := KeepHalfSync(buffer);
        return;
      }
      Turn(HostTool, frames, 0, buffer, at.value);
      var candidate := buffer[at.value..];
      match Judge(HostTool, candidate) {
        case Incomplete =>
          remainder := candidate;
          return;
        case Reject(discard) =>
          buffer := candidate[discard..];
        case Accept(frame, size) =>
          frames := frames + [frame];
          buffer := candidate[size..];
      }
    }
  }

  /** On the UART, retention is bounded by dropping 256 of the oldest bytes at a time. */
  function Retained(p: Policy, buffer: seq<byte>): (r: seq<byte>)
    ensures |r| <= |buffer| && r == buffer[|buffer| - |r|..]
    ensures p.ControllerUart? ==> |r| < UNDECODED_CAPACITY
    ensures r == buffer <==> !p.ControllerUart? || |buffer| < UNDECODED_CAPACITY
    decreases |buffer|
  {
    if p.ControllerUart? && |buffer| >= UNDECODED_CAPACITY
    then Retained(p, buffer[OVERFLOW_DISCARD..])
    else buffer
  }

  /** It drops the least multiple of 256 bytes that leaves fewer than 2048, and nothing on other transports. */
  lemma {:induction false} RetainedExactly(p: Policy, buffer: seq<byte>)
    ensures var dropped := |buffer| - |Retained(p, buffer)|;
            && dropped % 256 == 0
            && (dropped > 0 ==> p.ControllerUart? && |Retained(p, buffer)| + 256 >= 2048)
            && (p.ControllerUart? ==> |Retained(p, buffer)| < 2048)
    decreases |buffer|
  {
    if p.ControllerUart? && |buffer| >= UNDECODED_CAPACITY { RetainedExactly(p, buffer[OVERFLOW_DISCARD..]); }
  }

  class StreamDecoder {
    const policy: Policy
    var buffer: seq<byte>
    var rejections: nat

    constructor (policy: Policy)
      ensures this.policy == policy && buffer == [] && rejections == 0
    {
      this.policy := policy;
      buffer := [];
      rejections := 0;
    }

    /** Appends one read and returns every frame that is now complete. */
    method Push(input: seq<byte>) returns (frames: seq<Frame>)
      modifies this
      ensures var d := Decode(policy, old(rejections), Retained(policy, old(buffer) + input));
              frames == d.frames && rejections == d.rejections && buffer == d.rest
    {
      hide Decode;
      buffer := buffer + input;
      ghost var appended := buffer;
      while policy.ControllerUart? && |buffer| >= UNDECODED_CAPACITY
        invariant rejections == old(rejections)
        invariant Retained(policy, buffer) == Retained(policy, appended)
        decreases |buffer|
      {
        buffer := buffer[OVERFLOW_DISCARD..];
      }
      frames := Scan();
    }

    /** The scanning loop of `Push`. */
    method Scan() returns (frames: seq<Frame>)
      modifies this
      ensures var d := Decode(policy, old(rejections), old(buffer));
              frames == d.frames && rejections == d.rejections && buffer == d.rest
    {
      hide Decode, Judge, FindSync, Join;
      ghost var goal := Decode(policy, rejections, buffer);
      frames := [];
      FirstTurn(goal);
      while true
        invariant goal == Join(frames, Decode(policy, rejections, buffer))
        decreases |buffer|
      {
        var at := FindSync(buffer);
        if at.None? {
          LastTurn(policy, frames, rejections, buffer);
          buffer := KeepHalfSync(buffer);
          return;
        }
        Turn(policy, frames, rejections, buffer, at.value);
        buffer := buffer[at.value..];
        match Judge(policy, buffer) {
          case Incomplete => return;
          case Reject(discard) =>
            buffer := buffer[discard..];
            if policy.ControllerUart? {
              rejections := rejections + 1;
              if rejections >= REJECTION_LIMIT {
                rejections := 0;
                buffer := buffer[1..];
              }
            }
          case Accept(frame, size) =>
            frames := frames + [frame];
            buffer := buffer[size..];
            rejections := 0;
        }
      }
    }
  }

  // ----- What a sequence of reads decodes to -----

  /** The specification of `StreamDecoder.Push`, accumulating the frames returned so far. */
  function Pushed(p: Policy, d: Decoded, input: seq<byte>): Decoded {
    Join(d.frames, Decode(p, d.rejections, Retained(p, d.rest + input)))
  }

  function PushedAll(p: Policy, d: Decoded, chunks: seq<seq<byte>>): Decoded
    decreases |chunks|
  {
    if chunks == [] then d else PushedAll(p, Pushed(p, d, chunks[0]), chunks[1..])
  }

  /** Between two reads less than one maximal frame stays buffered. */
  lemma {:induction false} RestBounded(p: Policy, rejections: nat, buffer: seq<byte>)
    ensures |Decode(p, rejections, buffer).rest| < p.MaximumFrameSize()
    decreases |buffer|, 1
  {
    hide DecodeCandidate, Judge;
    match FindSync(buffer)
    case None => assert |KeepHalfSync(buffer)| <= 1;
    case Some(at) => CandidateRestBounded(p, rejections, buffer[at..]);
  }

  lemma {:induction false} CandidateRestBounded(p: Policy, rejections: nat, candidate: seq<byte>)
    requires SyncAt(candidate, 0)
    ensures |DecodeCandidate(p, rejections, candidate).rest| < p.MaximumFrameSize()
    decreases |candidate|, 0
  {
    hide Decode, Judge;
    match Judge(p, candidate)
    case Incomplete =>
    case Reject(discard) =>
      var (count, extra) := Charge(p, rejections);
      RestBounded(p, count, candidate[discard + extra..]);
    case Accept(frame, size) =>
      RestBounded(p, 0, candidate[size..]);
  }

  /** No push finds so much buffered that old bytes must be dropped. */
  predicate NothingDropped(p: Policy, d: Decoded, chunks: seq<seq<byte>>)
    decreases |chunks|
  {
    chunks == [] ||
    (Retained(p, d.rest + chunks[0]) == d.rest + chunks[0] && NothingDropped(p, Pushed(p, d, chunks[0]), chunks[1..]))
  }

  /**
   The incremental decoder is chunking invariant on every transport: whatever the reads, the frames
   are those of the whole stream, as long as no push overflows the retention limit of the UART.
   */
  lemma {:induction false} PushesDecodeTheStream(p: Policy, d: Decoded, chunks: seq<seq<byte>>)
    requires Settled(p, d) && NothingDropped(p, d, chunks)
    ensures PushedAll(p, d, chunks) == After(p, d, Concat(chunks))
    decreases |chunks|
  {
    hide Decode, Retained, Settled;
    if chunks == [] {
      ReadsDecodeAlike(p, d, []);
    } else {
      var all := d.rest + chunks[0];
      assert Pushed(p, d, chunks[0]) == After(p, d, chunks[0]);
      AfterSettles(p, d, chunks[0]);
      PushesDecodeTheStream(p, After(p, d, chunks[0]), chunks[1..]);
      AfterAppend(p, d, chunks[0], Concat(chunks[1..]));
    }
  }

  lemma AfterSettles(p: Policy, d: Decoded, more: seq<byte>)
    ensures Settled(p, After(p, d, more))
  {
    DecodeSettles(p, d.rejections, d.rest + more);
  }

  /** Only the UART drops bytes, and not when it reads at most 1520 bytes at once; the firmware reads 256. */
  lemma {:induction false} SmallReadsDropNothing(p: Policy, d: Decoded, chunks: seq<seq<byte>>)
    requires |d.rest| < p.MaximumFrameSize()
    requires p.ControllerUart? ==> forall i :: 0 <= i < |chunks| ==> |chunks[i]| <= 1520
    ensures NothingDropped(p, d, chunks)
    decreases |chunks|
  {
    hide Decode;
    if chunks != [] {
      var all := d.rest + chunks[0];
      assert Retained(p, all) == all;
      RestBounded(p, d.rejections, all);
      SmallReadsDropNothing(p, Pushed(p, d, chunks[0]), chunks[1..]);
    }
  }
}
