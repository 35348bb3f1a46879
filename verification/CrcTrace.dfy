/**
 Following the firmware-family checksum of a given message through a list of register values: one
 step of its table in closed form, bit by bit, and what such a list shows about the message.
 */
module CrcTrace {
  import opened Bytes
  import opened Bits
  import opened Crc

  /** The four bits of a half byte, named by their weights. */
  predicate Eight(d: nat) { d >= 8 }

  predicate Four(d: nat) { 4 <= d < 8 || d >= 12 }

  predicate Two(d: nat) { 2 <= d < 4 || 6 <= d < 8 || 10 <= d < 12 || d >= 14 }

  predicate One(d: nat) { d == 1 || d == 3 || d == 5 || d == 7 || d == 9 || d == 11 || d == 13 || d == 15 }

  lemma DigitBits(a: bits)
    requires |a| == 4
    ensures var d := FromBits(a);
            d < 16 && Eight(d) == a[0] && Four(d) == a[1] && Two(d) == a[2] && One(d) == a[3]
  {
    DigitValue(a);
  }

  lemma OctetBits(n: byte)
    ensures var o, d := Octet(n), n / 16; o[0] == Eight(d) && o[1] == Four(d) && o[2] == Two(d) && o[3] == One(d)
    ensures var o, d := Octet(n), n % 16; o[4] == Eight(d) && o[5] == Four(d) && o[6] == Two(d) && o[7] == One(d)
  {
    hide Octet, FromBits, Eight, Four, Two, One;
    var high, low := Octet(n)[..4], Octet(n)[4..];
    OctetOfDigits(high, low);
    assert Octet(n) == high + low;
    OctetInjective(n, 16 * FromBits(high) + FromBits(low));
    DigitBits(high);
    DigitBits(low);
  }

  /** Exclusive-or with the outgoing bits of a digit, at its two places in the next ones. */
  lemma FeedFirst(a: bits, u: bits)
    requires |a| == |u| == 4
    ensures Xor(Zeros(3) + a[..1], u) == [u[0], u[1], u[2], a[0] != u[3]]
  {
  }

  lemma FeedRest(a: bits, u: bits)
    requires |a| == |u| == 4
    ensures Xor(a[1..] + Zeros(1), Zeros(3) + u[..1]) == [a[1], a[2], a[3], u[0]]
    ensures Xor(a, u[1..] + Zeros(1)) == [a[0] != u[1], a[1] != u[2], a[2] != u[3], a[3]]
  {
  }

  lemma DigitXor(a: bits, b: bits)
    requires |a| == |b| == 4
    ensures Xor(b, a) == [b[0] != a[0], b[1] != a[1], b[2] != a[2], b[3] != a[3]]
  {
  }

  /** The table entry whose index has the digits `a` and `b`. */
  lemma TableHalves(a: bits, b: bits, u: bits)
    requires |a| == |b| == |u| == 4 && u == Xor(b, a)
    ensures Table(a + b)[..8] == [u[0], u[1], u[2], a[0] != u[3]] + [a[1], a[2], a[3], u[0]]
    ensures Table(a + b)[8..] == [a[0] != u[1], a[1] != u[2], a[2] != u[3], a[3]] + u
  {
    hide Table, Xor;
    TableByDigits(a, b, u, Zeros(3) + a[..1], a[1..] + Zeros(1));
    FeedFirst(a, u);
    FeedRest(a, u);
  }

  /** The table entry, bit by bit. */
  lemma TableHighBits(i: bits)
    requires |i| == 8
    ensures var t := Table(i);
            && t[0] == (i[4] != i[0]) && t[1] == (i[5] != i[1]) && t[2] == (i[6] != i[2])
            && t[3] == (i[0] != (i[7] != i[3])) && t[4] == i[1] && t[5] == i[2] && t[6] == i[3]
            && t[7] == (i[4] != i[0])
  {
    hide Table;
    DigitXor(i[..4], i[4..]);
    TableHalves(i[..4], i[4..], Xor(i[4..], i[..4]));
    assert i == i[..4] + i[4..];
    assert forall k :: 0 <= k < 8 ==> Table(i)[k] == Table(i)[..8][k];
  }

  lemma TableLowBits(i: bits)
    requires |i| == 8
    ensures var t := Table(i);
            && t[8] == (i[0] != (i[5] != i[1])) && t[9] == (i[1] != (i[6] != i[2]))
            && t[10] == (i[2] != (i[7] != i[3])) && t[11] == i[3] && t[12] == (i[4] != i[0])
            && t[13] == (i[5] != i[1]) && t[14] == (i[6] != i[2]) && t[15] == (i[7] != i[3])
  {
    hide Table;
    DigitXor(i[..4], i[4..]);
    TableHalves(i[..4], i[4..], Xor(i[4..], i[..4]));
    assert i == i[..4] + i[4..];
    assert forall k :: 0 <= k < 8 ==> Table(i)[k + 8] == Table(i)[8..][k];
  }

  predicate Holds(crc: Register, high: byte, low: byte) {
    crc[..8] == Octet(high) && crc[8..] == Octet(low)
  }

  predicate IsXorDigit(a: nat, b: nat, d: nat) {
    && Eight(d) == (Eight(a) != Eight(b)) && Four(d) == (Four(a) != Four(b))
    && Two(d) == (Two(a) != Two(b)) && One(d) == (One(a) != One(b))
  }

  /** `n` is the exclusive-or of two bytes. */
  predicate IsXor(a: byte, b: byte, n: byte) {
    IsXorDigit(a / 16, b / 16, n / 16) && IsXorDigit(a % 16, b % 16, n % 16)
  }

  lemma SameOctet(s: bits, t: bits)
    requires |s| == |t| == 8
    requires s[0] == t[0] && s[1] == t[1] && s[2] == t[2] && s[3] == t[3]
    requires s[4] == t[4] && s[5] == t[5] && s[6] == t[6] && s[7] == t[7]
    ensures s == t
  {
  }

  lemma XorIs(a: byte, b: byte, n: byte)
    requires IsXor(a, b, n)
    ensures Xor(Octet(a), Octet(b)) == Octet(n)
  {
    hide Octet, Eight, Four, Two, One;
    OctetBits(a);
    OctetBits(b);
    OctetBits(n);
    SameOctet(Xor(Octet(a), Octet(b)), Octet(n));
  }

  /** Table index `i` turns a register with low half `low` into one with high half `high'`. */
  predicate NextHigh(low: byte, i: byte, high': byte) {
    var a, b := i / 16, i % 16;
    && Eight(high' / 16) == (Eight(low / 16) != (Eight(b) != Eight(a)))
    && Four(high' / 16) == (Four(low / 16) != (Four(b) != Four(a)))
    && Two(high' / 16) == (Two(low / 16) != (Two(b) != Two(a)))
    && One(high' / 16) == (One(low / 16) != (Eight(a) != (One(b) != One(a))))
    && Eight(high' % 16) == (Eight(low % 16) != Four(a))
    && Four(high' % 16) == (Four(low % 16) != Two(a))
    && Two(high' % 16) == (Two(low % 16) != One(a))
    && One(high' % 16) == (One(low % 16) != (Eight(b) != Eight(a)))
  }

  predicate NextLow(i: byte, low': byte) {
    var a, b := i / 16, i % 16;
    && Eight(low' / 16) == (Eight(a) != (Four(b) != Four(a)))
    && Four(low' / 16) == (Four(a) != (Two(b) != Two(a)))
    && Two(low' / 16) == (Two(a) != (One(b) != One(a)))
    && One(low' / 16) == One(a)
    && Eight(low' % 16) == (Eight(b) != Eight(a))
    && Four(low' % 16) == (Four(b) != Four(a))
    && Two(low' % 16) == (Two(b) != Two(a))
    && One(low' % 16) == (One(b) != One(a))
  }

  predicate LooksUp(low: byte, i: byte, high': byte, low': byte) {
    NextHigh(low, i, high') && NextLow(i, low')
  }

  lemma LookupHigh(crc: Register, low: byte, i: byte, high': byte)
    requires crc[8..] == Octet(low) && NextHigh(low, i, high')
    ensures Lookup(crc, Table(Octet(i)))[..8] == Octet(high')
  {
    hide Octet, Eight, Four, Two, One, Table;
    OctetBits(low);
    OctetBits(i);
    OctetBits(high');
    TableHighBits(Octet(i));
    var next, t := Lookup(crc, Table(Octet(i)))[..8], Table(Octet(i));
    assert forall k :: 0 <= k < 8 ==> next[k] == (Octet(low)[k] != t[k]);
    SameOctet(next, Octet(high'));
  }

  lemma LookupLow(crc: Register, i: byte, low': byte)
    requires NextLow(i, low')
    ensures Lookup(crc, Table(Octet(i)))[8..] == Octet(low')
  {
    hide Octet, Eight, Four, Two, One, Table;
    OctetBits(i);
    OctetBits(low');
    TableLowBits(Octet(i));
    var next, t := Lookup(crc, Table(Octet(i)))[8..], Table(Octet(i));
    assert forall k :: 0 <= k < 8 ==> next[k] == t[k + 8];
    SameOctet(next, Octet(low'));
  }

  lemma LookedUp(crc: Register, high: byte, low: byte, i: byte, high': byte, low': byte)
    requires Holds(crc, high, low) && LooksUp(low, i, high', low')
    ensures Holds(Lookup(crc, Table(Octet(i))), high', low')
  {
    hide NextHigh, NextLow, Lookup, Table, Octet;
    LookupHigh(crc, low, i, high');
    LookupLow(crc, i, low');
  }

  /** The entry that the firmware-family table has at an index. */
  function EntryIndex(index: byte): byte { if index in {0xE6, 0xE7} then index + 16 else index }

  lemma AliasOf(index: byte)
    ensures Alias(Octet(index)) == Octet(EntryIndex(index))
    ensures Replaced(Octet(index)) <==> index in {0xE6, 0xE7}
  {
    hide Octet;
    OctetInjective(index, 0xE6);
    OctetInjective(index, 0xE7);
  }

  /** The halves of a register, the byte absorbed there and the table index it leads to. */
  datatype Step = Step(high: byte, low: byte, byte: byte, index: byte) {
    predicate Hit() { index in {0xE6, 0xE7} }
  }

  predicate Follows(step: Step, next: Step) {
    LooksUp(step.low, EntryIndex(step.index), next.high, next.low)
  }

  /** A list of steps that starts at zero and follows the firmware-family checksum. */
  predicate Traces(trace: seq<Step>) {
    && (trace != [] ==> trace[0].high == 0 && trace[0].low == 0)
    && (forall i :: 0 <= i < |trace| ==> IsXor(trace[i].high, trace[i].byte, trace[i].index))
    && forall i :: 0 <= i < |trace| - 1 ==> Follows(trace[i], trace[i + 1])
  }

  function Message(trace: seq<Step>): (data: seq<byte>)
    ensures |data| == |trace|
  {
    seq(|trace|, i requires 0 <= i < |trace| => trace[i].byte)
  }

  lemma IndexAt(crc: Register, step: Step)
    requires Holds(crc, step.high, step.low) && IsXor(step.high, step.byte, step.index)
    ensures Index(crc, step.byte) == Octet(step.index)
  {
    hide Octet;
    XorIs(step.high, step.byte, step.index);
  }

  lemma StepHolds(crc: Register, step: Step, next: Step)
    requires Holds(crc, step.high, step.low) && IsXor(step.high, step.byte, step.index) && Follows(step, next)
    ensures Holds(UpdateAbsorb(crc, step.byte), next.high, next.low)
  {
    hide Octet, Table, UpdateTable, Holds, LooksUp, IsXor, Index, Lookup, Alias;
    IndexAt(crc, step);
    UpdateTableIsAliased(Octet(step.index));
    AliasOf(step.index);
    LookedUp(crc, step.high, step.low, EntryIndex(step.index), next.high, next.low);
  }

  lemma ZeroHolds()
    ensures Holds(Zeros(16), 0, 0)
  {
    OctetBits(0);
    assert Octet(0) == Zeros(8);
  }

  lemma {:induction false} TraceHolds(trace: seq<Step>, i: nat)
    requires Traces(trace) && i < |trace|
    ensures Holds(Update(Message(trace)[..i]), trace[i].high, trace[i].low)
  {
    hide Update, UpdateAbsorb, Holds, Follows, IsXor;
    if i == 0 {
      EmptyMessage();
      ZeroHolds();
    } else {
      TraceHolds(trace, i - 1);
      UpdateNext(Message(trace), i - 1);
      StepHolds(Update(Message(trace)[..i - 1]), trace[i - 1], trace[i]);
    }
  }

  /** The bytes that hit a replaced entry are read off such a list. */
  lemma TraceHits(trace: seq<Step>, i: nat)
    requires Traces(trace) && i < |trace|
    ensures Hits(Message(trace), i) <==> trace[i].Hit()
  {
    hide Update, Holds, Follows, IsXor, Octet, Replaced;
    TraceHolds(trace, i);
    IndexAt(Update(Message(trace)[..i]), trace[i]);
    AliasOf(trace[i].index);
  }
}
