/**
 What a decoder recovers after rejected candidates: every whole frame on the scanning transports,
 and on USB exactly the frames that no discarded candidate claims.
 */
module FrameRecovery {
  import opened Bytes
  import opened FrameCodec
  import opened FrameStream

  /** Every candidate that starts in `u` is rejected, in front of `w`. */
  predicate AllRejected(p: Policy, u: seq<byte>, w: seq<byte>) {
    forall k :: 0 <= k < |u| ==> RejectedAt(p, u + w, k)
  }

  predicate RejectedAt(p: Policy, b: seq<byte>, k: nat)
    requires k <= |b|
  {
    SyncAt(b[k..], 0) ==> Judge(p, b[k..]).Reject?
  }

  lemma SuffixRejected(p: Policy, u: seq<byte>, w: seq<byte>, n: nat)
    requires n <= |u| && AllRejected(p, u, w)
    ensures AllRejected(p, u[n..], w)
  {
    hide Judge;
    forall k | 0 <= k < |u| - n ensures RejectedAt(p, u[n..] + w, k) {
      assert (u[n..] + w)[k..] == (u + w)[n + k..];
      assert RejectedAt(p, u + w, n + k);
    }
  }

  /** A sync pair at the first byte of a rejected candidate leaves none at the second. */
  lemma ScanningDiscard(p: Policy, rejections: nat, c: seq<byte>)
    requires !p.Usb? && SyncAt(c, 0) && Judge(p, c).Reject?
    ensures 1 <= Judge(p, c).discard + Charge(p, rejections).1 <= 2
    ensures |c| >= 4
  {
  }

  /** One frame at the front is decoded, and decoding goes on behind it. */
  lemma FrameAtFront(p: Policy, rejections: nat, f: Frame, later: seq<byte>)
    requires Encodable(p, f)
    ensures Decode(p, rejections, Encoded(p, f) + later) == Prepend(f, Decode(p, 0, later))
  {
    hide Decode, Encoded;
    DecodeOneFrame(p, rejections, [], f, later);
    assert [] + (Encoded(p, f) + later) == Encoded(p, f) + later;
  }

  /** An encoded frame starts with a sync pair, so none straddles its beginning. */
  lemma NoStraddle(p: Policy, f: Frame, later: seq<byte>, u: seq<byte>, k: nat)
    requires Encodable(p, f) && k < |u| && SyncAt(u + (Encoded(p, f) + later), k)
    ensures k + 2 <= |u|
  {
    assert (u + (Encoded(p, f) + later))[|u|] == SYNC[0];
  }

  /** A rejected candidate in `u` costs one or two of its bytes. */
  lemma ScanStep(p: Policy, rejections: nat, u: seq<byte>, w: seq<byte>) returns (n: nat, count: nat)
    requires !p.Usb? && AllRejected(p, u, w)
    requires FindSync(u + w).Some? && FindSync(u + w).value + 2 <= |u|
    ensures 0 < n <= |u|
    ensures Decode(p, rejections, u + w) == Decode(p, count, u[n..] + w)
  {
    hide Judge, Charge, AllRejected, FindSync;
    var k := FindSync(u + w).value;
    var c := (u + w)[k..];
    RejectedHere(p, u, w, k);
    ScanningDiscard(p, rejections, c);
    var discard, charge := Judge(p, c).discard, Charge(p, rejections);
    count := charge.0;
    n := k + discard + charge.1;
    assert c[discard + charge.1..] == u[n..] + w;
  }

  /**
   On every transport but USB a whole frame is decoded wherever it stands, if all candidates before it
   are rejected, and decoding goes on behind it as if nothing had come before.
   */
  lemma {:induction false} Recovers(p: Policy, rejections: nat, u: seq<byte>, f: Frame, later: seq<byte>)
    requires !p.Usb? && Encodable(p, f) && AllRejected(p, u, Encoded(p, f) + later)
    ensures Decode(p, rejections, u + (Encoded(p, f) + later)) == Prepend(f, Decode(p, 0, later))
    decreases |u|
  {
    hide Judge, Encoded, AllRejected, Decode;
    var w := Encoded(p, f) + later;
    var at := FindSync(u + w);
    if at.None? || at.value >= |u| {
      SkipNoise(p, rejections, u, w);
      FrameAtFront(p, rejections, f, later);
    } else {
      NoStraddle(p, f, later, u, at.value);
      var n, count := ScanStep(p, rejections, u, w);
      SuffixRejected(p, u, w, n);
      Recovers(p, count, u[n..], f, later);
    }
  }

  lemma RejectedHere(p: Policy, u: seq<byte>, w: seq<byte>, k: nat)
    requires AllRejected(p, u, w) && k < |u|
    ensures RejectedAt(p, u + w, k)
  {
  }

  /** The bytes that the length field of a rejected USB candidate claims, or four if it cannot be one. */
  function Claimed(b: seq<byte>): nat
    requires |b| >= 4
  {
    var n := FromBigEndian(b[2..4]);
    if n < 3 || n > 8294 then 4 else n + 6
  }

  /**
   On USB a rejected candidate at the front takes all it claims with it: a frame behind it, with no
   sync pair in between, is decoded if the claim ends before the frame, and otherwise decoding resumes
   where the claim ends.
   */
  lemma UsbRecoversExactly(rejections: nat, u: seq<byte>, f: Frame, later: seq<byte>)
    requires Encodable(Usb, f) && |u| >= 2
    requires var b := u + (Encoded(Usb, f) + later); SyncAt(b, 0) && Judge(Usb, b).Reject?
    requires forall k :: 1 <= k < |u| ==> !SyncAt(u + (Encoded(Usb, f) + later), k)
    ensures var b := u + (Encoded(Usb, f) + later);
            && Claimed(b) <= |b|
            && Decode(Usb, rejections, b) ==
               if Claimed(b) <= |u| then Prepend(f, Decode(Usb, 0, later))
               else Decode(Usb, rejections, b[Claimed(b)..])
  {
    hide Encoded, Judge, Claimed, Decode;
    var w := Encoded(Usb, f) + later;
    UsbDiscards(rejections, u + w);
    if Claimed(u + w) <= |u| {
      var rest := u[Claimed(u + w)..];
      assert (u + w)[Claimed(u + w)..] == rest + w;
      QuietRest(u, w, Claimed(u + w));
      SkipNoise(Usb, rejections, rest, w);
      FrameAtFront(Usb, rejections, f, later);
    }
  }

  lemma QuietRest(u: seq<byte>, w: seq<byte>, n: nat)
    requires 1 <= n <= |u| && forall k :: 1 <= k < |u| ==> !SyncAt(u + w, k)
    ensures forall k: nat :: k < |u| - n ==> !SyncAt(u[n..] + w, k)
  {
    forall k: nat | k < |u| - n ensures !SyncAt(u[n..] + w, k) { assert !SyncAt(u + w, n + k); }
  }

  lemma UsbDiscards(rejections: nat, b: seq<byte>)
    requires SyncAt(b, 0) && Judge(Usb, b).Reject?
    ensures |b| >= 4 && 1 <= Claimed(b) <= |b|
    ensures Decode(Usb, rejections, b) == Decode(Usb, rejections, b[Claimed(b)..])
  {
    hide Judge, Claimed;
    UsbClaims(b);
    FindSyncIs(b, 0);
    assert b[0..] == b;
  }

  lemma UsbClaims(b: seq<byte>)
    requires SyncAt(b, 0) && Judge(Usb, b).Reject?
    ensures |b| >= 4 && Judge(Usb, b) == Reject(Claimed(b)) && Claimed(b) <= |b|
  {
  }

  /** The count of rejections, and the extra byte dropped at every 5000th, never change what is decoded. */
  lemma {:induction false} RejectionsImmaterial(p: Policy, m: nat, n: nat, buffer: seq<byte>)
    ensures Decode(p, m, buffer).frames == Decode(p, n, buffer).frames
    ensures Decode(p, m, buffer).rest == Decode(p, n, buffer).rest
    decreases |buffer|
  {
    hide Judge, Charge, KeepHalfSync;
    var at := FindSync(buffer);
    if at.Some? {
      var c := buffer[at.value..];
      match Judge(p, c)
      case Incomplete =>
      case Accept(_, _) =>
      case Reject(discard) =>
        var (m', x) := Charge(p, m);
        var (n', y) := Charge(p, n);
        ExtraByteSkipped(p, m, c);
        ExtraByteSkipped(p, n, c);
        if p.ControllerUart? {
          RejectionsImmaterial(p, m', n', c[2..]);
        } else {
          RejectionsImmaterial(p, m', n', c[discard..]);
        }
    }
  }

  lemma ExtraByteSkipped(p: Policy, rejections: nat, c: seq<byte>)
    requires SyncAt(c, 0) && Judge(p, c).Reject?
    ensures |c| >= 4
    ensures var (count, _) := Charge(p, rejections);
            DecodeCandidate(p, rejections, c) ==
            Decode(p, count, c[if p.ControllerUart? then 2 else Judge(p, c).discard..])
  {
    hide Decode, FindSync, Judge;
    RejectedLength(p, c);
    var (count, extra) := Charge(p, rejections);
    if p.ControllerUart? && extra == 0 { SecondHalfSkipped(p, count, c); }
  }

  lemma RejectedLength(p: Policy, c: seq<byte>)
    requires SyncAt(c, 0) && Judge(p, c).Reject?
    ensures |c| >= 4 && (p.ControllerUart? ==> Judge(p, c).discard == 1)
  {
  }

  /** The second half of a sync pair starts no other. */
  lemma SecondHalfSkipped(p: Policy, count: nat, c: seq<byte>)
    requires SyncAt(c, 0) && |c| >= 4
    ensures Decode(p, count, c[1..]) == Decode(p, count, c[2..])
  {
    hide Decode, FindSync;
    var half, rest := c[1..2], c[2..];
    assert c[1..] == half + rest;
    assert !SyncAt(half + rest, 0) by { assert (half + rest)[0] == c[1]; }
    SkipNoise(p, count, half, rest);
  }
}
