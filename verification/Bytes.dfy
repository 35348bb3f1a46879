/** Bytes, fixed-width integers and the big- and little-endian codecs shared by every component. */
module Bytes {

  type byte = b: int | 0 <= b < 256

  datatype Option<+T> = None | Some(value: T)

  const TWO_TO_THE_32: nat := 0x1_0000_0000
  const TWO_TO_THE_64: nat := 0x1_0000_0000_0000_0000

  /** 256 to the power `width`: the number of values a `width`-byte field can hold. */
  function Range(width: nat): (r: nat)
    ensures r >= 1
  {
    if width == 0 then 1 else 256 * Range(width - 1)
  }

  /** Big-endian encoding of `value` in exactly `width` bytes. */
  function BigEndian(value: nat, width: nat): (wire: seq<byte>)
    requires value < Range(width)
    ensures |wire| == width
    decreases width
  {
    if width == 0 then [] else BigEndian(value / 256, width - 1) + [value % 256]
  }

  function FromBigEndian(wire: seq<byte>): (value: nat) {
    if wire == [] then 0 else 256 * FromBigEndian(wire[..|wire| - 1]) + wire[|wire| - 1]
  }

  lemma {:induction false} BigEndianRoundTrip(value: nat, width: nat)
    requires value < Range(width)
    ensures FromBigEndian(BigEndian(value, width)) == value
    decreases width
  {
    if width > 0 {
      BigEndianRoundTrip(value / 256, width - 1);
      assert BigEndian(value, width)[..width - 1] == BigEndian(value / 256, width - 1);
    }
  }

  /** The wire form is canonical: a field decodes within range and re-encodes to the same bytes. */
  lemma {:induction false} BigEndianCanonical(wire: seq<byte>)
    ensures FromBigEndian(wire) < Range(|wire|)
    ensures BigEndian(FromBigEndian(wire), |wire|) == wire
  {
    if wire != [] {
      BigEndianCanonical(wire[..|wire| - 1]);
    }
  }

  /** Little-endian encoding of `value` in exactly `width` bytes. */
  function LittleEndian(value: nat, width: nat): (wire: seq<byte>)
    requires value < Range(width)
    ensures |wire| == width
    decreases width
  {
    if width == 0 then [] else [value % 256] + LittleEndian(value / 256, width - 1)
  }

  function FromLittleEndian(wire: seq<byte>): (value: nat) {
    if wire == [] then 0 else wire[0] + 256 * FromLittleEndian(wire[1..])
  }

  lemma {:induction false} LittleEndianRoundTrip(value: nat, width: nat)
    requires value < Range(width)
    ensures FromLittleEndian(LittleEndian(value, width)) == value
    decreases width
  {
    if width > 0 {
      LittleEndianRoundTrip(value / 256, width - 1);
      assert LittleEndian(value, width)[1..] == LittleEndian(value / 256, width - 1);
    }
  }

  lemma {:induction false} LittleEndianCanonical(wire: seq<byte>)
    ensures FromLittleEndian(wire) < Range(|wire|)
    ensures LittleEndian(FromLittleEndian(wire), |wire|) == wire
  {
    if wire != [] {
      LittleEndianCanonical(wire[1..]);
    }
  }

  /** Concatenation of a list of byte strings. */
  function Concat(parts: seq<seq<byte>>): (r: seq<byte>) {
    if parts == [] then [] else parts[0] + Concat(parts[1..])
  }

  lemma {:induction false} ConcatAppend(left: seq<seq<byte>>, right: seq<seq<byte>>)
    ensures Concat(left + right) == Concat(left) + Concat(right)
  {
    if left == [] {
      assert left + right == right;
    } else {
      assert (left + right)[1..] == left[1..] + right;
      ConcatAppend(left[1..], right);
    }
  }
}
