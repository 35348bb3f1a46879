/**
 The two 16-bit checksums of the framing layer: the zero-initialised CRC with generator
 x^16 + x^12 + x^5 + 1 (0x1021, section 2 of ITU-T Recommendation V.41), and the table-driven
 variant of the controller firmware family, whose table deviates in two entries.
 */
module Crc {
  import opened Bytes
  import opened Bits

  type Register = r: bits | |r| == 16 witness Zeros(16)

  /** 0x1021: x^12 + x^5 + 1. */
  function Generator(): Register {
    [false, false, false, true, false, false, false, false,
     false, false, true, false, false, false, false, true]
  }

  /** One polynomial shift: multiply by x and reduce. */
  function ShiftBit(crc: Register): Register {
    if crc[0] then Xor(crc[1..] + [false], Generator()) else crc[1..] + [false]
  }

  function Shift(crc: Register, n: nat): Register {
    if n == 0 then crc else ShiftBit(Shift(crc, n - 1))
  }

  /** Exclusive-or of a byte into the high half of the register. */
  function Mix(crc: Register, b: byte): Register {
    Xor(crc, Octet(b) + Zeros(8))
  }

  /** Absorbs one message byte. */
  function Absorb(crc: Register, b: byte): Register {
    Shift(Mix(crc, b), 8)
  }

  function Remainder(crc: Register, data: seq<byte>): Register
    decreases |data|
  {
    if data == [] then crc else Remainder(Absorb(crc, data[0]), data[1..])
  }

  /** The checksum of host frames. */
  function Ccitt(data: seq<byte>): Register { Remainder(Zeros(16), data) }

  /** Big-endian wire form of a register. */
  function Wire(crc: Register): (w: seq<byte>)
    ensures |w| == 2 && Octet(w[0]) == crc[..8] && Octet(w[1]) == crc[8..]
  {
    [OctetValue(crc[..8]), OctetValue(crc[8..])]
  }

  lemma WireInjective(a: Register, b: Register)
    ensures Wire(a) == Wire(b) <==> a == b
  {
    assert a == a[..8] + a[8..] && b == b[..8] + b[8..];
  }

  // ----- Algebra of the shift -----

  lemma ShiftBitLinear(a: Register, b: Register)
    ensures ShiftBit(Xor(a, b)) == Xor(ShiftBit(a), ShiftBit(b))
  {
  }

  lemma {:induction false} ShiftLinear(a: Register, b: Register, n: nat)
    ensures Shift(Xor(a, b), n) == Xor(Shift(a, n), Shift(b, n))
  {
    if n > 0 {
      ShiftLinear(a, b, n - 1);
      ShiftBitLinear(Shift(a, n - 1), Shift(b, n - 1));
    }
  }

  lemma ShiftBitInjective(a: Register, b: Register)
    requires ShiftBit(a) == ShiftBit(b)
    ensures a == b
  {
    assert ShiftBit(a)[15] == ShiftBit(b)[15];
    forall i | 1 <= i < 16 ensures a[i] == b[i] {
      assert ShiftBit(a)[i - 1] == ShiftBit(b)[i - 1];
    }
  }

  lemma {:induction false} ShiftInjective(a: Register, b: Register, n: nat)
    requires Shift(a, n) == Shift(b, n)
    ensures a == b
  {
    if n > 0 {
      ShiftBitInjective(Shift(a, n - 1), Shift(b, n - 1));
      ShiftInjective(a, b, n - 1);
    }
  }

  /**
   Reading the shift backwards: if the `n` low bits after `n` shifts are clear, no reduction
   ever happened, so the `n` high bits were clear before. Reading it forwards: clear high bits
   only move the register up.
   */
  lemma {:induction false} ShiftWithoutReduction(crc: Register, n: nat)
    requires n <= 16
    ensures Shift(crc, n)[16 - n..] == Zeros(n) <==> crc[..n] == Zeros(n)
    ensures crc[..n] == Zeros(n) ==> Shift(crc, n) == crc[n..] + Zeros(n)
  {
    if n > 0 {
      ShiftWithoutReduction(crc, n - 1);
      var before, after := Shift(crc, n - 1), Shift(crc, n);
      if after[16 - n..] == Zeros(n) {
        assert after[15] == Zeros(n)[n - 1];
        var tail := before[17 - n..];
        forall i | 0 <= i < n - 1 ensures tail[i] == Zeros(n - 1)[i] {
          assert after[16 - n..][i] == Zeros(n)[i];
        }
        assert before[0] == crc[n - 1];
        assert crc[..n] == crc[..n - 1] + [crc[n - 1]];
      }
      if crc[..n] == Zeros(n) {
        assert crc[n - 1] == Zeros(n)[n - 1];
        assert crc[..n - 1] == crc[..n][..n - 1] == Zeros(n - 1);
        assert after == crc[n..] + Zeros(n);
      }
    }
  }

  // ----- Error detection -----

  lemma {:induction false} RemainderAppend(crc: Register, a: seq<byte>, b: seq<byte>)
    ensures Remainder(crc, a + b) == Remainder(Remainder(crc, a), b)
    decreases |a|
  {
    if a == [] {
      assert a + b == b;
    } else {
      assert (a + b)[1..] == a[1..] + b;
      RemainderAppend(Absorb(crc, a[0]), a[1..], b);
    }
  }

  lemma RemainderShort(crc: Register, x: byte, y: byte)
    ensures Remainder(crc, [x]) == Absorb(crc, x)
    ensures Remainder(crc, [x, y]) == Absorb(Absorb(crc, x), y)
  {
    var next := Absorb(crc, x);
    assert [x][1..] == [] && [x, y][1..] == [y] && [y][1..] == [];
    assert Remainder(next, [y]) == Absorb(next, y);
  }

  /** Absorbing the register's own high byte moves its low byte up. */
  lemma AbsorbOwnHighByte(crc: Register, x: byte)
    requires Octet(x) == crc[..8]
    ensures Absorb(crc, x) == crc[8..] + Zeros(8)
  {
    var low := Mix(crc, x);
    assert low[..8] == Zeros(8);
    assert low[8..] == crc[8..];
    ShiftWithoutReduction(low, 8);
  }

  /** Appending its own checksum to any message leaves residue zero. */
  lemma ResidueZero(message: seq<byte>)
    ensures Ccitt(message + Wire(Ccitt(message))) == Zeros(16)
  {
    var crc := Ccitt(message);
    var w := Wire(crc);
    RemainderAppend(Zeros(16), message, w);
    RemainderShort(crc, w[0], w[1]);
    AbsorbOwnHighByte(crc, w[0]);
    var half := crc[8..] + Zeros(8);
    assert half[..8] == crc[8..] && half[8..] == Zeros(8);
    AbsorbOwnHighByte(half, w[1]);
    assert Zeros(8) + Zeros(8) == Zeros(16);
    assert w == [w[0], w[1]];
  }

  lemma AbsorbInjective(a: Register, b: Register, x: byte)
    requires Absorb(a, x) == Absorb(b, x)
    ensures a == b
  {
    ShiftInjective(Mix(a, x), Mix(b, x), 8);
    XorInjective(a, b, Octet(x) + Zeros(8));
  }

  lemma {:induction false} RemainderInjective(a: Register, b: Register, data: seq<byte>)
    requires Remainder(a, data) == Remainder(b, data)
    ensures a == b
    decreases |data|
  {
    if data != [] {
      RemainderInjective(Absorb(a, data[0]), Absorb(b, data[0]), data[1..]);
      AbsorbInjective(a, b, data[0]);
    }
  }

  /** From one register, two adjacent bytes are recovered from the register they lead to. */
  lemma TwoBytesInjective(crc: Register, x0: byte, x1: byte, y0: byte, y1: byte)
    requires Absorb(Absorb(crc, x0), x1) == Absorb(Absorb(crc, y0), y1)
    ensures x0 == y0 && x1 == y1
  {
    var a, b := Absorb(crc, x0), Absorb(crc, y0);
    ShiftInjective(Mix(a, x1), Mix(b, y1), 8);
    assert a[8..] == Mix(a, x1)[8..] == Mix(b, y1)[8..] == b[8..];
    var u, v := Mix(crc, x0), Mix(crc, y0);
    var d := Xor(u, v);
    ShiftLinear(u, v, 8);
    assert Shift(d, 8)[8..] == Zeros(8);
    ShiftWithoutReduction(d, 8);
    assert forall i :: 0 <= i < 8 ==> u[i] == v[i] by {
      forall i | 0 <= i < 8 ensures u[i] == v[i] { assert d[..8][i] == Zeros(8)[i]; }
    }
    assert forall i :: 8 <= i < 16 ==> u[i] == crc[i] && v[i] == crc[i];
    assert u == v;
    MixInjective(crc, x0, y0);
    MixInjective(a, x1, y1);
  }

  lemma MixInjective(crc: Register, x: byte, y: byte)
    requires Mix(crc, x) == Mix(crc, y)
    ensures x == y
  {
    forall i | 0 <= i < 8 ensures Octet(x)[i] == Octet(y)[i] {
      assert Mix(crc, x)[i] == Mix(crc, y)[i];
    }
    OctetInjective(x, y);
  }

  /**
   Every error confined to two adjacent bytes changes the checksum; in particular every error
   in a single byte does.
   */
  lemma BurstDetected(prefix: seq<byte>, x: seq<byte>, y: seq<byte>, suffix: seq<byte>)
    requires |x| == |y| <= 2
    ensures Ccitt(prefix + x + suffix) == Ccitt(prefix + y + suffix) <==> x == y
  {
    var crc := Ccitt(prefix);
    RemainderAppend(Zeros(16), prefix, x);
    RemainderAppend(Zeros(16), prefix, y);
    RemainderAppend(Zeros(16), prefix + x, suffix);
    RemainderAppend(Zeros(16), prefix + y, suffix);
    if Ccitt(prefix + x + suffix) == Ccitt(prefix + y + suffix) {
      RemainderInjective(Remainder(crc, x), Remainder(crc, y), suffix);
      if |x| == 0 {
        assert x == [] == y;
      } else if |x| == 1 {
        assert x == [x[0]] && y == [y[0]];
        RemainderShort(crc, x[0], 0);
        RemainderShort(crc, y[0], 0);
        ShiftInjective(Mix(crc, x[0]), Mix(crc, y[0]), 8);
        MixInjective(crc, x[0], y[0]);
      } else {
        assert x == [x[0], x[1]] && y == [y[0], y[1]];
        RemainderShort(crc, x[0], x[1]);
        RemainderShort(crc, y[0], y[1]);
        TwoBytesInjective(crc, x[0], x[1], y[0], y[1]);
      }
    }
  }

  // ----- Table-driven form and the checksum of the controller firmware family -----

  /** The table index of the next byte: the register's high byte mixed with it. */
  function Index(crc: Register, b: byte): (i: bits)
    ensures |i| == 8
  {
    Xor(crc[..8], Octet(b))
  }

  function Table(index: bits): Register
    requires |index| == 8
  {
    Shift(index + Zeros(8), 8)
  }

  function Lookup(crc: Register, entry: Register): Register {
    Xor(crc[8..] + Zeros(8), entry)
  }

  /** The table-driven update refines the eight bitwise shifts. */
  lemma TableForm(crc: Register, b: byte)
    ensures Absorb(crc, b) == Lookup(crc, Table(Index(crc, b)))
  {
    var high, low := Index(crc, b) + Zeros(8), Zeros(8) + crc[8..];
    assert Mix(crc, b) == Xor(low, high);
    ShiftLinear(low, high, 8);
    assert low[..8] == Zeros(8) && low[8..] == crc[8..];
    ShiftWithoutReduction(low, 8);
  }

  /** The low halves of the 256 table entries are pairwise different. */
  lemma TableLowInjective(i: bits, j: bits)
    requires |i| == |j| == 8
    ensures Table(i)[8..] == Table(j)[8..] <==> i == j
  {
    if Table(i)[8..] == Table(j)[8..] {
      var a, b := i + Zeros(8), j + Zeros(8);
      var d := Xor(a, b);
      ShiftLinear(a, b, 8);
      forall k | 0 <= k < 8 ensures Shift(d, 8)[8..][k] == Zeros(8)[k] {
        assert Table(i)[8..][k] == Table(j)[8..][k];
      }
      assert Shift(d, 8)[8..] == Zeros(8);
      ShiftWithoutReduction(d, 8);
      forall k | 0 <= k < 8 ensures i[k] == j[k] { assert d[..8][k] == Zeros(8)[k]; }
    }
  }

  /** The table of the controller firmware family: two entries differ from the conventional ones. */
  function UpdateTable(index: bits): Register
    requires |index| == 8
  {
    if index == Octet(0xE6) then Octet(0x8F) + Octet(0xD9)
    else if index == Octet(0xE7) then Octet(0x9F) + Octet(0xF8)
    else Table(index)
  }

  function UpdateAbsorb(crc: Register, b: byte): Register {
    Lookup(crc, UpdateTable(Index(crc, b)))
  }

  function UpdateRemainder(crc: Register, data: seq<byte>): Register
    decreases |data|
  {
    if data == [] then crc else UpdateRemainder(UpdateAbsorb(crc, data[0]), data[1..])
  }

  /** The checksum of controller frames of the firmware family. */
  function Update(data: seq<byte>): Register { UpdateRemainder(Zeros(16), data) }

  /** The two deviating entries are those of the indices 0xF6 and 0xF7. */
  function Alias(index: bits): (i: bits)
    requires |index| == 8
    ensures |i| == 8
  {
    if index == Octet(0xE6) then Octet(0xF6) else if index == Octet(0xE7) then Octet(0xF7) else index
  }

  lemma ShiftBitAt(crc: Register, i: nat)
    requires i < 16
    ensures ShiftBit(crc)[i] == ((i < 15 && crc[i + 1]) != (crc[0] && (i == 3 || i == 10 || i == 15)))
  {
  }

  /** Bit `i` after `n` shifts, at most four: the outgoing bits are fed back at x^12, x^5 and 1. */
  function FedBack(crc: Register, n: nat, i: nat): bool
    requires n <= 4 && i < 16
  {
    (i + n < 16 && crc[i + n]) !=
    (if 4 - n <= i < 4 then crc[i - (4 - n)]
     else if 11 - n <= i < 11 then crc[i - (11 - n)]
     else if 16 - n <= i then crc[i - (16 - n)]
     else false)
  }

  lemma {:induction false} ShiftNibble(crc: Register, n: nat, i: nat)
    requires n <= 4 && i < 16
    ensures Shift(crc, n)[i] == FedBack(crc, n, i)
    decreases n
  {
    if n > 0 {
      ShiftNibble(crc, n - 1, 0);
      if i < 15 { ShiftNibble(crc, n - 1, i + 1); }
      ShiftBitAt(Shift(crc, n - 1), i);
    }
  }

  lemma {:induction false} ShiftShift(crc: Register, m: nat, n: nat)
    ensures Shift(Shift(crc, m), n) == Shift(crc, m + n)
  {
    if n > 0 { ShiftShift(crc, m, n - 1); }
  }

  /** Four shifts of the register made of the digits `a`, `b`, `c` and `d`. */
  lemma ShiftDigits(a: bits, b: bits, c: bits, d: bits)
    requires |a| == |b| == |c| == |d| == 4
    ensures Shift(a + b + c + d, 4) ==
            Xor(b, a) + Xor(c, Zeros(3) + a[..1]) + Xor(d, a[1..] + Zeros(1)) + a
  {
    var r := a + b + c + d;
    var goal := Xor(b, a) + Xor(c, Zeros(3) + a[..1]) + Xor(d, a[1..] + Zeros(1)) + a;
    forall i | 0 <= i < 16 ensures Shift(r, 4)[i] == goal[i] { ShiftNibble(r, 4, i); }
  }

  /** The table entry whose index has the digits `a` and `b`, by two steps of one digit each. */
  lemma TableByDigits(a: bits, b: bits, u: bits, v: bits, w: bits)
    requires |a| == |b| == |u| == |v| == |w| == 4
    requires u == Xor(b, a) && v == Zeros(3) + a[..1] && w == a[1..] + Zeros(1)
    ensures Table(a + b) == (Xor(v, u) + Xor(w, Zeros(3) + u[..1])) + (Xor(a, u[1..] + Zeros(1)) + u)
  {
    var zero := Zeros(4);
    var r := a + b + zero + zero;
    assert a + b + Zeros(8) == r;
    ShiftDigits(a, b, zero, zero);
    assert Xor(zero, v) == v && Xor(zero, w) == w;
    ShiftDigits(u, v, w, a);
    ShiftShift(r, 4, 4);
  }

  /** The entries of the indices 0xF6 and 0xF7, which differ in their last bit `e`. */
  lemma EntryF(e: bool)
    ensures var f: bits := [true, true, true, true];
            Table(f + [false, true, true, e]) ==
            ([true, false, false, e] + f) + ([true, true, e, true] + [true, false, false, !e])
  {
    var f: bits, u: bits := [true, true, true, true], [true, false, false, !e];
    var v: bits, w: bits := [false, false, false, true], [true, true, true, false];
    TableByDigits(f, [false, true, true, e], u, v, w);
    assert Xor(v, u) == [true, false, false, e];
    assert Xor(w, Zeros(3) + u[..1]) == f;
    assert Xor(f, u[1..] + Zeros(1)) == [true, true, e, true];
  }

  lemma EntryOctets(e: bool)
    ensures var f: bits, n := [true, true, true, true], if e then 1 else 0;
            && Octet(0xF6 + n) == f + [false, true, true, e]
            && Octet(0x8F + 16 * n) == [true, false, false, e] + f
            && Octet(if e then 0xF8 else 0xD9) == [true, true, e, true] + [true, false, false, !e]
  {
    var f: bits := [true, true, true, true];
    OctetOfDigits(f, [false, true, true, e]);
    OctetOfDigits([true, false, false, e], f);
    OctetOfDigits([true, true, e, true], [true, false, false, !e]);
    DigitValue(f);
    DigitValue([false, true, true, e]);
    DigitValue([true, false, false, e]);
    DigitValue([true, true, e, true]);
    DigitValue([true, false, false, !e]);
  }

  lemma UpdateTableIsAliased(index: bits)
    requires |index| == 8
    ensures UpdateTable(index) == Table(Alias(index))
  {
    EntryF(false);
    EntryF(true);
    EntryOctets(false);
    EntryOctets(true);
  }

  /** Two runs are confused by a step that maps different indices to one table entry. */
  predicate Confused(r: Register, x: byte, s: Register, y: byte) {
    r[8..] == s[8..] && Index(r, x) != Index(s, y) && Alias(Index(r, x)) == Alias(Index(s, y))
  }

  lemma LookupInjective(r: Register, e: Register, s: Register, f: Register)
    requires Lookup(r, e) == Lookup(s, f)
    ensures e[8..] == f[8..]
    ensures e == f ==> r[8..] == s[8..]
  {
    forall k | 0 <= k < 8 ensures e[8..][k] == f[8..][k] { assert Lookup(r, e)[k + 8] == Lookup(s, f)[k + 8]; }
    if e == f {
      XorInjective(r[8..] + Zeros(8), s[8..] + Zeros(8), e);
      assert r[8..] == (r[8..] + Zeros(8))[..8] == (s[8..] + Zeros(8))[..8] == s[8..];
    }
  }

  lemma UpdateAbsorbCollision(r: Register, x: byte, s: Register, y: byte)
    ensures UpdateAbsorb(r, x) == UpdateAbsorb(s, y) <==>
            Confused(r, x, s, y) || (r[8..] == s[8..] && Index(r, x) == Index(s, y))
  {
    var i, j := Alias(Index(r, x)), Alias(Index(s, y));
    UpdateTableIsAliased(Index(r, x));
    UpdateTableIsAliased(Index(s, y));
    if UpdateAbsorb(r, x) == UpdateAbsorb(s, y) {
      LookupInjective(r, Table(i), s, Table(j));
      TableLowInjective(i, j);
      LookupInjective(r, Table(i), s, Table(i));
    }
  }

  /** Some step of the two runs over the same bytes confuses them. */
  predicate Confuses(r: Register, s: Register, data: seq<byte>)
    decreases |data|
  {
    data != [] &&
    (Confused(r, data[0], s, data[0]) ||
     Confuses(UpdateAbsorb(r, data[0]), UpdateAbsorb(s, data[0]), data[1..]))
  }

  lemma IndexInjective(r: Register, s: Register, x: byte)
    requires r[8..] == s[8..] && Index(r, x) == Index(s, x)
    ensures r == s
  {
    XorInjective(r[..8], s[..8], Octet(x));
    assert r == r[..8] + r[8..] && s == s[..8] + s[8..];
  }

  lemma {:induction false} DivergedRuns(r: Register, s: Register, data: seq<byte>)
    requires r != s
    ensures UpdateRemainder(r, data) == UpdateRemainder(s, data) <==> Confuses(r, s, data)
    decreases |data|
  {
    if data != [] {
      var r', s' := UpdateAbsorb(r, data[0]), UpdateAbsorb(s, data[0]);
      UpdateAbsorbCollision(r, data[0], s, data[0]);
      if r' != s' {
        DivergedRuns(r', s', data[1..]);
      } else if !Confused(r, data[0], s, data[0]) {
        IndexInjective(r, s, data[0]);
      }
    }
  }

  lemma {:induction false} UpdateRemainderAppend(crc: Register, a: seq<byte>, b: seq<byte>)
    ensures UpdateRemainder(crc, a + b) == UpdateRemainder(UpdateRemainder(crc, a), b)
    decreases |a|
  {
    if a == [] {
      assert a + b == b;
    } else {
      assert (a + b)[1..] == a[1..] + b;
      UpdateRemainderAppend(UpdateAbsorb(crc, a[0]), a[1..], b);
    }
  }

  /**
   The firmware-family checksum misses a single-byte error exactly when, at the corrupted byte
   or later, the two runs meet with equal low bytes at one of the two pairs of indices that
   share a table entry.
   */
  lemma UpdateMissesSingleByte(prefix: seq<byte>, x: byte, y: byte, suffix: seq<byte>)
    requires x != y
    ensures var crc := Update(prefix);
            Update(prefix + [x] + suffix) == Update(prefix + [y] + suffix) <==>
            Confused(crc, x, crc, y) || Confuses(UpdateAbsorb(crc, x), UpdateAbsorb(crc, y), suffix)
  {
    var crc := Update(prefix);
    var r, s := UpdateAbsorb(crc, x), UpdateAbsorb(crc, y);
    UpdateAfter(prefix, x, suffix);
    UpdateAfter(prefix, y, suffix);
    UpdateAbsorbCollision(crc, x, crc, y);
    if r != s {
      DivergedRuns(r, s, suffix);
    } else if !Confused(crc, x, crc, y) {
      XorCommute(crc[..8], Octet(x));
      XorCommute(crc[..8], Octet(y));
      XorInjective(Octet(x), Octet(y), crc[..8]);
      OctetInjective(x, y);
    }
  }

  lemma XorCommute(a: bits, b: bits)
    requires |a| == |b|
    ensures Xor(a, b) == Xor(b, a)
  {
  }

  lemma UpdateAfter(prefix: seq<byte>, x: byte, suffix: seq<byte>)
    ensures Update(prefix + [x] + suffix) == UpdateRemainder(UpdateAbsorb(Update(prefix), x), suffix)
  {
    UpdateRemainderAppend(Zeros(16), prefix, [x]);
    UpdateRemainderAppend(Zeros(16), prefix + [x], suffix);
    var crc := Update(prefix);
    assert [x][1..] == [];
    assert UpdateRemainder(crc, [x]) == UpdateAbsorb(crc, x);
  }

  /** After every prefix, and before every suffix, some single-byte error goes unnoticed. */
  lemma UpdateCollision(prefix: seq<byte>, suffix: seq<byte>) returns (x: byte, y: byte)
    ensures x != y && Update(prefix + [x] + suffix) == Update(prefix + [y] + suffix)
  {
    hide Table, UpdateTable, Lookup;
    var crc := Update(prefix);
    var i, j := Xor(crc[..8], Octet(0xE6)), Xor(crc[..8], Octet(0xF6));
    x, y := OctetValue(i), OctetValue(j);
    assert Index(crc, x) == Octet(0xE6) && Index(crc, y) == Octet(0xF6);
    OctetInjective(0xF6, 0xE6);
    OctetInjective(0xF6, 0xE7);
    UpdateMissesSingleByte(prefix, x, y, suffix);
  }

  /** At most two values of a byte lead to the same register. */
  lemma UpdateSpreads(crc: Register, x: byte, y: byte, z: byte)
    requires x != y && y != z && x != z
    ensures !(UpdateAbsorb(crc, x) == UpdateAbsorb(crc, y) == UpdateAbsorb(crc, z))
  {
    UpdateAbsorbCollision(crc, x, crc, y);
    UpdateAbsorbCollision(crc, y, crc, z);
    UpdateAbsorbCollision(crc, x, crc, z);
    SameIndex(crc, x, y);
    SameIndex(crc, y, z);
    SameIndex(crc, x, z);
    hide Index, Octet, UpdateAbsorb;
    OctetInjective(0xE6, 0xE7);
    OctetInjective(0xF6, 0xF7);
  }

  lemma SameIndex(crc: Register, x: byte, y: byte)
    ensures Index(crc, x) == Index(crc, y) <==> x == y
  {
    XorCommute(crc[..8], Octet(x));
    XorCommute(crc[..8], Octet(y));
    if Index(crc, x) == Index(crc, y) { XorInjective(Octet(x), Octet(y), crc[..8]); }
    OctetInjective(x, y);
  }

  // ----- The message whose host checksum the firmware-family checksum is -----

  predicate Replaced(index: bits)
    requires |index| == 8
  {
    index == Octet(0xE6) || index == Octet(0xE7)
  }

  /** The step of the firmware-family checksum over byte `i` of a message uses a replaced table entry. */
  predicate Hits(data: seq<byte>, i: nat)
    requires i < |data|
  {
    Replaced(Index(Update(data[..i]), data[i]))
  }

  function FlipBit4(b: byte): byte {
    if b / 16 % 2 == 0 then b + 16 else b - 16
  }

  /** A message with bit 4 flipped in every byte that hits a replaced entry. */
  function Plain(data: seq<byte>): (plain: seq<byte>)
    ensures |plain| == |data|
  {
    seq(|data|, i requires 0 <= i < |data| => if Hits(data, i) then FlipBit4(data[i]) else data[i])
  }

  lemma FlippedDigit(a: bits, last: bool)
    requires |a| == 3
    ensures FromBits(a + [last]) == 2 * FromBits(a) + Weight(last, 1) < 16
  {
    AppendBit(a, last);
    FromBitsBound(a);
    assert Power2(3) == 8;
  }

  lemma FlippedOctet(b: byte)
    ensures Octet(FlipBit4(b)) == Octet(b)[3 := !Octet(b)[3]]
  {
    hide Octet, FromBits;
    var a, bit, low := Octet(b)[..3], Octet(b)[3], Octet(b)[4..];
    assert Octet(b) == a + [bit] + low && Octet(b)[3 := !bit] == a + [!bit] + low;
    OctetOfDigits(a + [bit], low);
    OctetOfDigits(a + [!bit], low);
    OctetInjective(b, 16 * FromBits(a + [bit]) + FromBits(low));
    FlippedDigit(a, bit);
    FlippedDigit(a, !bit);
    FromBitsBound(low);
    assert Power2(4) == 16;
  }

  /** A replaced entry does to a byte what the conventional one does to it with bit 4 flipped. */
  lemma ReplacedStep(crc: Register, b: byte)
    ensures UpdateAbsorb(crc, b) == Absorb(crc, if Replaced(Index(crc, b)) then FlipBit4(b) else b)
  {
    hide Octet, Table, UpdateTable, Lookup, Absorb;
    UpdateTableIsAliased(Index(crc, b));
    TableForm(crc, b);
    TableForm(crc, FlipBit4(b));
    FlippedOctet(0xE6);
    FlippedOctet(0xE7);
    FlippedOctet(b);
    assert Index(crc, FlipBit4(b)) == Index(crc, b)[3 := !Index(crc, b)[3]];
  }

  lemma UpdateNext(data: seq<byte>, n: nat)
    requires n < |data|
    ensures Update(data[..n + 1]) == UpdateAbsorb(Update(data[..n]), data[n])
  {
    assert data[..n + 1] == data[..n] + [data[n]] + [];
    UpdateAfter(data[..n], data[n], []);
  }

  lemma CcittNext(data: seq<byte>, n: nat)
    requires n < |data|
    ensures Ccitt(data[..n + 1]) == Absorb(Ccitt(data[..n]), data[n])
  {
    assert data[..n + 1] == data[..n] + [data[n]];
    RemainderAppend(Zeros(16), data[..n], [data[n]]);
    RemainderShort(Ccitt(data[..n]), data[n], 0);
  }

  lemma {:induction false} UpdateOfPrefix(data: seq<byte>, n: nat)
    requires n <= |data|
    ensures Update(data[..n]) == Ccitt(Plain(data)[..n])
    decreases n
  {
    hide Update, Ccitt, UpdateAbsorb, Absorb, Index, Replaced;
    if n == 0 {
      assert Update([]) == Ccitt([]) by { EmptyMessage(); }
    } else {
      UpdateOfPrefix(data, n - 1);
      UpdateNext(data, n - 1);
      CcittNext(Plain(data), n - 1);
      ReplacedStep(Update(data[..n - 1]), data[n - 1]);
    }
  }

  lemma EmptyMessage()
    ensures Update([]) == Zeros(16) == Ccitt([])
  {
  }

  /**
   The firmware-family checksum of every message is the host checksum of the message with bit 4
   flipped in exactly the bytes that hit a replaced table entry.
   */
  lemma UpdateIsCcittOfPlain(data: seq<byte>)
    ensures Update(data) == Ccitt(Plain(data))
  {
    hide Update, Ccitt, Hits;
    UpdateOfPrefix(data, |data|);
    assert data[..|data|] == data && Plain(data)[..|data|] == Plain(data);
  }

  // ----- The loops -----

  method ComputeCcitt(data: seq<byte>) returns (crc: Register)
    ensures crc == Ccitt(data)
  {
    crc := Zeros(16);
    for i := 0 to |data|
      invariant Remainder(crc, data[i..]) == Ccitt(data)
    {
      ghost var start := crc;
      crc := Mix(crc, data[i]);
      for bit := 0 to 8
        invariant crc == Shift(Mix(start, data[i]), bit)
      {
        crc := ShiftBit(crc);
      }
      assert data[i..][1..] == data[i + 1..];
    }
  }

  method ComputeUpdate(data: seq<byte>) returns (crc: Register)
    ensures crc == Update(data)
  {
    crc := Zeros(16);
    for i := 0 to |data|
      invariant UpdateRemainder(crc, data[i..]) == Update(data)
    {
      var index := Xor(crc[..8], Octet(data[i]));
      crc := Xor(crc[8..] + Zeros(8), UpdateTable(index));
      assert data[i..][1..] == data[i + 1..];
    }
  }
}
