/**
 What the decoder guarantees about streams: any split of a stream decodes alike, encoded frames
 survive arbitrary noise around them, and corruption of a frame is noticed at its own position.
 */
module FrameStream {
  import opened Bits
  import opened Bytes
  import opened Crc
  import opened FrameCodec

  // ----- Any split of a stream decodes alike -----

  lemma FindSyncIs(buffer: seq<byte>, at: nat)
    requires SyncAt(buffer, at) && forall k: nat :: k < at ==> !SyncAt(buffer, k)
    ensures FindSync(buffer) == Some(at)
  {
  }

  lemma FindSyncExtends(a: seq<byte>, b: seq<byte>)
    requires FindSync(a).Some?
    ensures FindSync(a + b) == FindSync(a)
  {
    var at := FindSync(a).value;
    forall k: nat | k < at ensures !SyncAt(a + b, k) { assert !SyncAt(a, k); }
    FindSyncIs(a + b, at);
  }

  /** Bytes in front of which no sync pair starts are skipped without a trace. */
  lemma SkipNoise(p: Policy, rejections: nat, u: seq<byte>, w: seq<byte>)
    requires forall k: nat :: k < |u| ==> !SyncAt(u + w, k)
    requires w != [] || KeepHalfSync(u) == []
    ensures Decode(p, rejections, u + w) == Decode(p, rejections, w)
  {
    hide DecodeCandidate, KeepHalfSync, FindSync;
    SkipToSync(u, w);
    KeepAfter(u, w);
    if FindSync(w).Some? {
      assert (u + w)[|u| + FindSync(w).value..] == w[FindSync(w).value..];
    }
  }

  lemma KeepAfter(u: seq<byte>, w: seq<byte>)
    requires w != [] || KeepHalfSync(u) == []
    ensures KeepHalfSync(u + w) == KeepHalfSync(w)
  {
    if w == [] { assert u + w == u; }
  }

  lemma SkipToSync(u: seq<byte>, w: seq<byte>)
    requires forall k: nat :: k < |u| ==> !SyncAt(u + w, k)
    ensures FindSync(w).None? ==> FindSync(u + w).None?
    ensures FindSync(w).Some? ==> FindSync(u + w) == Some(|u| + FindSync(w).value)
  {
    var all := u + w;
    match FindSync(w)
    case Some(at) =>
      forall k: nat | k < |u| + at ensures !SyncAt(all, k) {
        if k >= |u| { assert !SyncAt(w, k - |u|); }
      }
      FindSyncIs(all, |u| + at);
    case None =>
      forall k: nat ensures !SyncAt(all, k) {
        if k >= |u| { assert !SyncAt(w, k - |u|); }
      }
      assert FindSync(all).None?;
  }

  /** A verdict once reached does not depend on later bytes. */
  lemma JudgeStable(p: Policy, c: seq<byte>, more: seq<byte>)
    requires SyncAt(c, 0) && !Judge(p, c).Incomplete?
    ensures SyncAt(c + more, 0) && Judge(p, c + more) == Judge(p, c)
  {
    hide FromBigEndian, Policy.Checksum, Wire;
    var d := c + more;
    assert d[2..4] == c[2..4];
    var total := FromBigEndian(c[2..4]) + 6;
    if 9 <= total <= |c| {
      SliceStable(c, more, total - 2, total);
      SliceStable(c, more, total - 4, total - 2);
      SliceStable(c, more, 2, total - 4);
      SliceStable(c, more, 5, total - 4);
    }
  }

  lemma SliceStable(c: seq<byte>, more: seq<byte>, i: nat, j: nat)
    requires i <= j <= |c|
    ensures (c + more)[i..j] == c[i..j]
  {
  }

  /** Decoding `a + b` at once is decoding `a`, then what `a` left over followed by `b`. */
  predicate Splits(p: Policy, rejections: nat, a: seq<byte>, b: seq<byte>) {
    var first := Decode(p, rejections, a);
    var second := Decode(p, first.rejections, first.rest + b);
    Decode(p, rejections, a + b) == Decoded(first.frames + second.frames, second.rejections, second.rest)
  }

  lemma {:induction false} DecodeAppend(p: Policy, rejections: nat, a: seq<byte>, b: seq<byte>)
    ensures Splits(p, rejections, a, b)
    decreases |a|, 1
  {
    hide DecodeCandidate;
    match FindSync(a)
    case None =>
      DecodeAppendNoSync(p, rejections, a, b);
      SplitsAtOnce(p, rejections, a, b);
    case Some(at) =>
      FindSyncExtends(a, b);
      assert (a + b)[at..] == a[at..] + b;
      CandidateAppend(p, rejections, a[at..], b);
  }

  predicate CandidateSplits(p: Policy, rejections: nat, c: seq<byte>, b: seq<byte>)
    requires SyncAt(c, 0) && SyncAt(c + b, 0)
  {
    var first := DecodeCandidate(p, rejections, c);
    var second := Decode(p, first.rejections, first.rest + b);
    DecodeCandidate(p, rejections, c + b) ==
    Decoded(first.frames + second.frames, second.rejections, second.rest)
  }

  lemma {:induction false} CandidateAppend(p: Policy, rejections: nat, c: seq<byte>, b: seq<byte>)
    requires SyncAt(c, 0)
    ensures SyncAt(c + b, 0) && CandidateSplits(p, rejections, c, b)
    decreases |c|, 0
  {
    hide Decode, DecodeCandidate, Splits, CandidateSplits, Judge;
    match Judge(p, c)
    case Incomplete =>
      IncompleteSplits(p, rejections, c, b);
    case Reject(discard) =>
      JudgeStable(p, c, b);
      var (count, extra) := Charge(p, rejections);
      DecodeAppend(p, count, c[discard + extra..], b);
      RejectSplits(p, rejections, c, b, discard);
    case Accept(frame, size) =>
      JudgeStable(p, c, b);
      DecodeAppend(p, 0, c[size..], b);
      AcceptSplits(p, rejections, c, b, frame, size);
  }

  lemma IncompleteSplits(p: Policy, rejections: nat, c: seq<byte>, b: seq<byte>)
    requires SyncAt(c, 0) && Judge(p, c).Incomplete?
    ensures SyncAt(c + b, 0) && CandidateSplits(p, rejections, c, b)
  {
    hide Judge;
    FindSyncIs(c + b, 0);
    assert (c + b)[0..] == c + b;
    var second := DecodeCandidate(p, rejections, c + b);
    assert [] + second.frames == second.frames;
  }

  lemma RejectSplits(p: Policy, rejections: nat, c: seq<byte>, b: seq<byte>, discard: nat)
    requires SyncAt(c, 0) && SyncAt(c + b, 0)
    requires Judge(p, c) == Judge(p, c + b) == Reject(discard)
    requires Splits(p, Charge(p, rejections).0, c[discard + Charge(p, rejections).1..], b)
    ensures CandidateSplits(p, rejections, c, b)
  {
    hide FindSync, Judge, Charge, Decode;
    var n := discard + Charge(p, rejections).1;
    assert (c + b)[n..] == c[n..] + b;
  }

  lemma AcceptSplits(p: Policy, rejections: nat, c: seq<byte>, b: seq<byte>, frame: Frame, size: nat)
    requires SyncAt(c, 0) && SyncAt(c + b, 0)
    requires Judge(p, c) == Judge(p, c + b) == Accept(frame, size)
    requires Splits(p, 0, c[size..], b)
    ensures CandidateSplits(p, rejections, c, b)
  {
    hide FindSync, Judge, Decode;
    assert (c + b)[size..] == c[size..] + b;
    assert DecodeCandidate(p, rejections, c) == Prepend(frame, Decode(p, 0, c[size..]));
    assert DecodeCandidate(p, rejections, c + b) == Prepend(frame, Decode(p, 0, c[size..] + b));
    PrependSplits(p, frame, c[size..], b);
  }

  lemma PrependSplits(p: Policy, frame: Frame, a: seq<byte>, b: seq<byte>)
    requires Splits(p, 0, a, b)
    ensures var first := Prepend(frame, Decode(p, 0, a));
            var second := Decode(p, first.rejections, first.rest + b);
            Prepend(frame, Decode(p, 0, a + b)) ==
            Decoded(first.frames + second.frames, second.rejections, second.rest)
  {
    hide Decode;
    var inner := Decode(p, 0, a);
    var second := Decode(p, inner.rejections, inner.rest + b);
    assert [frame] + (inner.frames + second.frames) == [frame] + inner.frames + second.frames;
  }

  lemma SplitsAtOnce(p: Policy, rejections: nat, a: seq<byte>, b: seq<byte>)
    requires Decode(p, rejections, a) == Decoded([], rejections, Decode(p, rejections, a).rest)
    requires Decode(p, rejections, a + b) == Decode(p, rejections, Decode(p, rejections, a).rest + b)
    ensures Splits(p, rejections, a, b)
  {
    var second := Decode(p, rejections, Decode(p, rejections, a).rest + b);
    assert [] + second.frames == second.frames;
  }

  lemma DecodeAppendNoSync(p: Policy, rejections: nat, a: seq<byte>, b: seq<byte>)
    requires FindSync(a).None?
    ensures Decode(p, rejections, a + b) == Decode(p, rejections, KeepHalfSync(a) + b)
  {
    var half := KeepHalfSync(a);
    var u := a[..|a| - |half|];
    assert a == u + half;
    assert a + b == u + (half + b);
    forall k: nat | k < |u| ensures !SyncAt(u + (half + b), k) {
      if SyncAt(a + b, k) && k + 1 < |a| {
        assert SyncAt(a, k);
      }
    }
    if half + b == [] { assert u == a; }
    SkipNoise(p, rejections, u, half + b);
  }

  /** A state that a decoder can be in between two reads. */
  predicate Settled(p: Policy, d: Decoded) {
    Decode(p, d.rejections, d.rest) == Decoded([], d.rejections, d.rest)
  }

  lemma DecodeSettles(p: Policy, rejections: nat, buffer: seq<byte>)
    ensures Settled(p, Decode(p, rejections, buffer))
  {
    var d := Decode(p, rejections, buffer);
    DecodeAppend(p, rejections, buffer, []);
    assert buffer + [] == buffer && d.rest + [] == d.rest;
    NothingAdded(d.frames, Decode(p, d.rejections, d.rest).frames);
  }

  lemma NothingAdded(frames: seq<Frame>, more: seq<Frame>)
    requires frames == frames + more
    ensures more == []
  {
    assert |frames| == |frames| + |more|;
  }

  /** What a decoder in state `d` has produced after the further input `more`. */
  function After(p: Policy, d: Decoded, more: seq<byte>): Decoded {
    var next := Decode(p, d.rejections, d.rest + more);
    next.(frames := d.frames + next.frames)
  }

  lemma AfterAppend(p: Policy, d: Decoded, a: seq<byte>, b: seq<byte>)
    ensures After(p, After(p, d, a), b) == After(p, d, a + b)
  {
    hide Decode;
    DecodeAppend(p, d.rejections, d.rest + a, b);
    assert d.rest + (a + b) == d.rest + a + b;
    var first := Decode(p, d.rejections, d.rest + a);
    Regroup(d.frames, first.frames, Decode(p, first.rejections, first.rest + b).frames);
  }

  lemma Regroup(x: seq<Frame>, y: seq<Frame>, z: seq<Frame>)
    ensures x + y + z == x + (y + z)
  {
  }

  /** The state after a list of reads, from the state `d`. */
  function AfterReads(p: Policy, d: Decoded, chunks: seq<seq<byte>>): Decoded
    decreases |chunks|
  {
    if chunks == [] then d else AfterReads(p, After(p, d, chunks[0]), chunks[1..])
  }

  /** Chunking invariance: however a stream is cut into reads, it decodes like the whole stream. */
  lemma {:induction false} ReadsDecodeAlike(p: Policy, d: Decoded, chunks: seq<seq<byte>>)
    requires Settled(p, d)
    ensures AfterReads(p, d, chunks) == After(p, d, Concat(chunks))
    decreases |chunks|
  {
    hide Decode;
    if chunks == [] {
      assert d.rest + [] == d.rest && d.frames + [] == d.frames;
    } else {
      DecodeSettles(p, d.rejections, d.rest + chunks[0]);
      ReadsDecodeAlike(p, After(p, d, chunks[0]), chunks[1..]);
      AfterAppend(p, d, chunks[0], Concat(chunks[1..]));
    }
  }

  // ----- Round trip through noise -----

  /** Frames that a transport can carry. */
  predicate Encodable(p: Policy, f: Frame) {
    |f.payload| + 9 <= p.MaximumFrameSize()
  }

  function Encoded(p: Policy, f: Frame): (wire: seq<byte>)
    requires Encodable(p, f)
    ensures Encode(p, f) == Some(wire)
  {
    SYNC + Body(f) + Wire(p.Checksum(Body(f))) + TAIL
  }

  /** With an intact length field a complete candidate is accepted exactly when its checksum matches. */
  lemma JudgeIntact(p: Policy, v: seq<byte>, later: seq<byte>)
    requires |v| >= 5 && |v| + 4 <= p.MaximumFrameSize()
    requires FromBigEndian(v[..2]) == |v| - 2
    ensures var altered := SYNC + v + TAIL + later;
            var n := |v| - 2;
            && SyncAt(altered, 0)
            && Judge(p, altered) == if v[n..] == Wire(p.Checksum(v[..n])) then Accept(Frame(v[2], v[3..n]), |v| + 4)
                                    else Reject(p.BadFrameDiscard(|v| + 4))
  {
    hide Wire, Policy.Checksum, FromBigEndian;
    var altered := SYNC + v + TAIL + later;
    var total := |v| + 4;
    assert altered[2..4] == v[..2];
    assert altered[2..total - 4] == v[..|v| - 2];
    assert altered[total - 4..total - 2] == v[|v| - 2..];
    assert altered[total - 2..total] == TAIL;
    assert altered[4] == v[2] && altered[5..total - 4] == v[3..|v| - 2];
  }

  lemma BodyLength(f: Frame)
    requires |f.payload| + 3 <= 0xFFFF
    ensures Body(f)[2] == f.kind && FromBigEndian(Body(f)[..2]) == |f.payload| + 3
  {
    assert Range(2) == 0x1_0000;
    BigEndianRoundTrip(|f.payload| + 3, 2);
    assert Body(f)[..2] == BigEndian(|f.payload| + 3, 2);
  }

  lemma JudgeEncoded(p: Policy, f: Frame)
    requires Encodable(p, f)
    ensures SyncAt(Encoded(p, f), 0)
    ensures Judge(p, Encoded(p, f)) == Accept(f, |Encoded(p, f)|)
  {
    hide Policy.Checksum, Wire, FromBigEndian, Judge;
    var body := Body(f);
    var v := body + Wire(p.Checksum(body));
    BodyLength(f);
    assert v[..2] == body[..2] && v[..|body|] == body && v[|body|..] == Wire(p.Checksum(body));
    assert v[2] == f.kind && v[3..|body|] == f.payload;
    JudgeIntact(p, v, []);
    assert SYNC + v + TAIL + [] == Encoded(p, f);
  }

  /** What is accepted at the front of a buffer is exactly one encoded frame. */
  lemma AcceptedExactly(p: Policy, b: seq<byte>)
    requires SyncAt(b, 0)
    ensures Judge(p, b).Accept? <==> exists f, later :: StartsWith(p, b, f, later)
    ensures Judge(p, b).Accept? ==> StartsWith(p, b, Judge(p, b).frame, b[Judge(p, b).size..])
  {
    hide Judge, Encoded, Encodable;
    if Judge(p, b).Accept? { AcceptedIsEncoded(p, b); }
    forall f, later | StartsWith(p, b, f, later) ensures Judge(p, b).Accept? {
      JudgeEncoded(p, f);
      JudgeStable(p, Encoded(p, f), later);
    }
  }

  predicate StartsWith(p: Policy, b: seq<byte>, f: Frame, later: seq<byte>) {
    Encodable(p, f) && b == Encoded(p, f) + later
  }

  lemma AcceptedIsEncoded(p: Policy, b: seq<byte>)
    requires SyncAt(b, 0) && Judge(p, b).Accept?
    ensures StartsWith(p, b, Judge(p, b).frame, b[Judge(p, b).size..])
  {
    hide Policy.Checksum, Wire, FromBigEndian, BigEndian;
    var total := FromBigEndian(b[2..4]) + 6;
    var f := Judge(p, b).frame;
    BigEndianCanonical(b[2..4]);
    assert Range(2) == 0x1_0000;
    assert b[2..total - 4] == b[2..4] + [b[4]] + b[5..total - 4];
    assert Body(f) == b[2..total - 4];
    assert b == b[..2] + b[2..total - 4] + b[total - 4..total - 2] + b[total - 2..total] + b[total..];
    assert b[..2] == SYNC;
  }

  datatype Item = Item(noise: seq<byte>, frame: Frame)

  ghost predicate Quiet(noise: seq<byte>) {
    forall k: nat :: !SyncAt(noise, k)
  }

  ghost predicate Clean(p: Policy, items: seq<Item>) {
    items == [] ||
    (Encodable(p, items[0].frame) && Quiet(items[0].noise) && Clean(p, items[1..]))
  }

  /** Frames, each after some noise, and trailing noise. */
  function Stream(p: Policy, items: seq<Item>, tail: seq<byte>): seq<byte>
    requires Clean(p, items)
  {
    if items == [] then tail
    else items[0].noise + (Encoded(p, items[0].frame) + Stream(p, items[1..], tail))
  }

  function Frames(items: seq<Item>): seq<Frame> {
    if items == [] then [] else [items[0].frame] + Frames(items[1..])
  }

  /**
   Decoding a stream of encoded frames separated by noise without a sync pair returns exactly
   those frames in order, and keeps at most half a sync pair.
   */
  lemma {:induction false} NoisyRoundTrip(p: Policy, rejections: nat, items: seq<Item>, tail: seq<byte>)
    requires Clean(p, items) && Quiet(tail)
    ensures var d := Decode(p, rejections, Stream(p, items, tail));
            d.frames == Frames(items) && d.rest == KeepHalfSync(tail)
    decreases |items|
  {
    hide Decode, Encoded, Encodable, KeepHalfSync, Quiet;
    if items == [] {
      DecodeQuiet(p, rejections, tail);
    } else {
      var Item(noise, frame) := items[0];
      DecodeOneFrame(p, rejections, noise, frame, Stream(p, items[1..], tail));
      NoisyRoundTrip(p, 0, items[1..], tail);
    }
  }

  lemma DecodeQuiet(p: Policy, rejections: nat, tail: seq<byte>)
    requires Quiet(tail)
    ensures Decode(p, rejections, tail) == Decoded([], rejections, KeepHalfSync(tail))
  {
    assert FindSync(tail).None?;
  }

  lemma DecodeOneFrame(p: Policy, rejections: nat, noise: seq<byte>, frame: Frame, later: seq<byte>)
    requires Encodable(p, frame) && Quiet(noise)
    ensures var d := Decode(p, 0, later);
            Decode(p, rejections, noise + (Encoded(p, frame) + later)) == Prepend(frame, d)
  {
    var wire := Encoded(p, frame);
    var c := wire + later;
    forall k: nat | k < |noise| ensures !SyncAt(noise + c, k) {
      assert !SyncAt(noise, k);
    }
    SkipNoise(p, rejections, noise, c);
    JudgeEncoded(p, frame);
    JudgeStable(p, wire, later);
    FindSyncIs(c, 0);
    assert c[0..] == c && c[|wire|..] == later;
  }

  /** One frame alone crosses any settled link that holds no partial input. */
  lemma SingleFrameCrosses(p: Policy, rejections: nat, f: Frame)
    requires Encodable(p, f)
    ensures Decode(p, rejections, Encoded(p, f)) == Decoded([f], 0, [])
  {
    DecodeOneFrame(p, rejections, [], f, []);
    assert [] + (Encoded(p, f) + []) == Encoded(p, f);
    assert Decode(p, 0, []) == Decoded([], 0, []);
  }

  // ----- Corruption -----

  /** The type byte of length, type, payload and checksum. */
  function TypeOf(v: seq<byte>): byte { if |v| > 2 then v[2] else 0 }

  /** Frames of this policy and type carry the host checksum. */
  predicate HostChecked(p: Policy, kind: byte) { p.ControllerUart? ==> kind / 16 != 0xC }

  /**
   A frame that carries the host checksum and in which one byte, or two adjacent bytes, of type,
   payload or checksum were altered is rejected at its own sync position, whatever follows it; on
   the controller UART as long as the altered type is not one of the firmware family.
   */
  lemma CorruptionRejected(p: Policy, f: Frame, prefix: seq<byte>, x: seq<byte>, y: seq<byte>,
                           suffix: seq<byte>, later: seq<byte>)
    requires Encodable(p, f) && HostChecked(p, f.kind) && HostChecked(p, TypeOf(prefix + y + suffix))
    requires Encoded(p, f) == SYNC + (prefix + x + suffix) + TAIL
    requires |prefix| >= 2 && |x| == |y| <= 2 && x != y
    ensures var altered := SYNC + (prefix + y + suffix) + TAIL + later;
            SyncAt(altered, 0) && Judge(p, altered).Reject?
  {
    hide Ccitt, Wire, Encoded;
    var good, bad := prefix + x + suffix, prefix + y + suffix;
    var n := |good| - 2;
    IntactResidue(p, f, good);
    BurstDetected(prefix, x, y, suffix);
    WireLeavesResidue(bad, n);
    assert good[..2] == prefix[..2] == bad[..2];
    JudgeIntact(p, bad, later);
  }

  lemma WireLeavesResidue(v: seq<byte>, n: nat)
    requires n + 2 == |v|
    ensures v[n..] == Wire(Ccitt(v[..n])) ==> Ccitt(v) == Zeros(16)
  {
    ResidueZero(v[..n]);
    assert v == v[..n] + v[n..];
  }

  lemma IntactResidue(p: Policy, f: Frame, good: seq<byte>)
    requires Encodable(p, f) && HostChecked(p, f.kind)
    requires Encoded(p, f) == SYNC + good + TAIL
    ensures |good| == |f.payload| + 5 && FromBigEndian(good[..2]) == |f.payload| + 3
    ensures Ccitt(good) == Zeros(16)
  {
    hide Body, Wire, Ccitt, FromBigEndian;
    var body := Body(f);
    assert |body| >= 3 && body[2] == f.kind by { BodyLength(f); }
    assert Encoded(p, f) == SYNC + (body + Wire(Ccitt(body))) + TAIL;
    assert good == Encoded(p, f)[2..|Encoded(p, f)| - 2] == body + Wire(Ccitt(body));
    ResidueZero(body);
    BodyLength(f);
    assert good[..2] == body[..2];
  }
}
