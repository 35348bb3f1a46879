/**
 Bit strings, most significant bit first, with exclusive-or as addition of polynomials over
 GF(2). Both frame checksums and the image checksum are computed on this representation.
 */
module Bits {
  import opened Bytes

  type bits = seq<bool>

  function Xor(a: bits, b: bits): (r: bits)
    requires |a| == |b|
    ensures |r| == |a| && forall i :: 0 <= i < |a| ==> r[i] == (a[i] != b[i])
  {
    seq(|a|, i requires 0 <= i < |a| => a[i] != b[i])
  }

  function Zeros(n: nat): (r: bits)
    ensures |r| == n && forall i :: 0 <= i < n ==> !r[i]
  {
    seq(n, i => false)
  }

  lemma XorInjective(a: bits, b: bits, c: bits)
    requires |a| == |b| == |c|
    requires Xor(a, c) == Xor(b, c)
    ensures a == b
  {
    forall i | 0 <= i < |a| ensures a[i] == b[i] {
      assert Xor(a, c)[i] == Xor(b, c)[i];
    }
  }

  function ToBits(value: nat, width: nat): (r: bits)
    ensures |r| == width
  {
    if width == 0 then [] else ToBits(value / 2, width - 1) + [value % 2 == 1]
  }

  function FromBits(s: bits): (value: nat) {
    if s == [] then 0
    else 2 * FromBits(s[..|s| - 1]) + (if s[|s| - 1] then 1 else 0)
  }

  lemma {:induction false} FromToBits(s: bits)
    ensures ToBits(FromBits(s), |s|) == s
  {
    if s != [] {
      FromToBits(s[..|s| - 1]);
    }
  }

  function Power2(n: nat): (r: nat)
    ensures r > 0
  {
    if n == 0 then 1 else 2 * Power2(n - 1)
  }

  lemma {:induction false} ToFromBits(value: nat, width: nat)
    requires value < Power2(width)
    ensures FromBits(ToBits(value, width)) == value
    decreases width
  {
    if width > 0 {
      ToFromBits(value / 2, width - 1);
      assert ToBits(value, width)[..width - 1] == ToBits(value / 2, width - 1);
    }
  }

  /** The value of a half byte. */
  lemma DigitValue(a: bits)
    requires |a| == 4
    ensures FromBits(a) == Weight(a[0], 8) + Weight(a[1], 4) + Weight(a[2], 2) + Weight(a[3], 1)
  {
    assert a[..3][..2] == a[..2] && a[..2][..1] == a[..1] && a[..1][..0] == [];
    assert FromBits(a[..1]) == Weight(a[0], 1);
    assert FromBits(a[..2]) == Weight(a[0], 2) + Weight(a[1], 1);
    assert FromBits(a[..3]) == Weight(a[0], 4) + Weight(a[1], 2) + Weight(a[2], 1);
  }

  function Weight(bit: bool, weight: nat): nat {
    if bit then weight else 0
  }

  lemma AppendBit(s: bits, bit: bool)
    ensures FromBits(s + [bit]) == 2 * FromBits(s) + Weight(bit, 1)
  {
    assert (s + [bit])[..|s|] == s;
  }

  lemma {:induction false} FromBitsBound(s: bits)
    ensures FromBits(s) < Power2(|s|)
  {
    if s != [] {
      FromBitsBound(s[..|s| - 1]);
    }
  }

  function Octet(b: byte): (r: bits)
    ensures |r| == 8
  {
    ToBits(b, 8)
  }

  function OctetValue(s: bits): (b: byte)
    requires |s| == 8
    ensures Octet(b) == s
  {
    FromBitsBound(s);
    assert Power2(8) == 256;
    FromToBits(s);
    FromBits(s)
  }

  lemma OctetInjective(a: byte, b: byte)
    ensures Octet(a) == Octet(b) <==> a == b
  {
    assert Power2(8) == 256;
    ToFromBits(a, 8);
    ToFromBits(b, 8);
  }

  lemma AppendDigit(a: bits, b: bits)
    requires |b| == 4
    ensures FromBits(a + b) == 16 * FromBits(a) + FromBits(b)
  {
    var a1 := a + [b[0]];
    var a2 := a1 + [b[1]];
    var a3 := a2 + [b[2]];
    assert a + b == a3 + [b[3]];
    AppendBit(a, b[0]);
    AppendBit(a1, b[1]);
    AppendBit(a2, b[2]);
    AppendBit(a3, b[3]);
    DigitValue(b);
  }

  lemma OctetOfDigits(a: bits, b: bits)
    requires |a| == |b| == 4
    ensures 16 * FromBits(a) + FromBits(b) < 256
    ensures Octet(16 * FromBits(a) + FromBits(b)) == a + b
  {
    AppendDigit(a, b);
    FromToBits(a + b);
    DigitValue(a);
    DigitValue(b);
  }
}
