/** Bounded queues that release at most one item every ten milliseconds. */
module PacedQueue {
  import opened Arithmetic
  import opened Bytes
  import opened FrameCodec
  import opened ControllerTransfer

  const MAXIMUM_PENDING: nat := 32
  const INTERVAL: nat := 10
  const MAXIMUM_ITEM_SIZE: nat := 544
  const FRAME_OVERHEAD: nat := 9

  // ----- Specification -----

  datatype Operation<T> = Offer(item: T) | Take(now: nat)

  datatype Taken<T> = Taken(time: nat, item: T)

  /** Pending items and the next release time, with the histories of accepted and of taken items. */
  datatype Queue<T> = Queue(pending: seq<T>, next: nat, accepted: seq<T>, taken: seq<Taken<T>>)

  predicate Accepts<T>(q: Queue<T>, rule: T -> bool, item: T) {
    rule(item) && |q.pending| < MAXIMUM_PENDING
  }

  predicate Releases<T>(q: Queue<T>, now: nat) { q.pending != [] && now >= q.next }

  function Apply<T>(q: Queue<T>, rule: T -> bool, op: Operation<T>): Queue<T> {
    match op
    case Offer(item) =>
      if Accepts(q, rule, item) then q.(pending := q.pending + [item], accepted := q.accepted + [item]) else q
    case Take(now) =>
      if Releases(q, now) then
        q.(pending := q.pending[1..], next := (now + INTERVAL) % TWO_TO_THE_64,
           taken := q.taken + [Taken(now, q.pending[0])])
      else q
  }

  function Run<T>(rule: T -> bool, ops: seq<Operation<T>>): Queue<T>
    decreases |ops|
  {
    if ops == [] then Queue([], 0, [], [])
    else Apply(Run(rule, ops[..|ops| - 1]), rule, ops[|ops| - 1])
  }

  function Items<T>(taken: seq<Taken<T>>): seq<T> {
    if taken == [] then [] else [taken[0].item] + Items(taken[1..])
  }

  function Times<T>(taken: seq<Taken<T>>): (r: seq<nat>)
    ensures |r| == |taken|
    ensures |r| > 0 ==> r[|r| - 1] == taken[|r| - 1].time
  {
    if taken == [] then [] else Times(taken[..|taken| - 1]) + [taken[|taken| - 1].time]
  }

  /** Successive times lie at least one interval apart. */
  predicate Spaced(times: seq<nat>)
    decreases |times|
  {
    |times| <= 1 ||
    (times[|times| - 1] >= times[|times| - 2] + INTERVAL && Spaced(times[..|times| - 1]))
  }

  /** Number of times within [from, to]. */
  function Count(times: seq<nat>, from: int, to: int): nat
    decreases |times|
  {
    if times == [] then 0
    else
      var last := times[|times| - 1];
      Count(times[..|times| - 1], from, to) + if from <= last <= to then 1 else 0
  }

  // ----- Properties -----

  lemma {:induction false} ItemsAppend<T>(taken: seq<Taken<T>>, t: Taken<T>)
    ensures Items(taken + [t]) == Items(taken) + [t.item]
  {
    if taken == [] {
      assert (taken + [t])[1..] == [];
    } else {
      assert (taken + [t])[1..] == taken[1..] + [t];
      ItemsAppend(taken[1..], t);
    }
  }

  predicate InRange<T>(ops: seq<Operation<T>>) {
    forall i :: 0 <= i < |ops| && ops[i].Take? ==> ops[i].now + INTERVAL < TWO_TO_THE_64
  }

  ghost predicate Sound<T>(q: Queue<T>) {
    && q.accepted == Items(q.taken) + q.pending
    && |q.pending| <= MAXIMUM_PENDING
    && Spaced(Times(q.taken))
    && (q.taken != [] ==> q.next == q.taken[|q.taken| - 1].time + INTERVAL)
  }

  /**
   Over every run accepted items are taken items followed by pending items, in order; at most 32
   are pending; takes are at least ten milliseconds apart.
   */
  lemma {:induction false} SoundAlways<T>(rule: T -> bool, ops: seq<Operation<T>>)
    requires InRange(ops)
    ensures Sound(Run(rule, ops))
    decreases |ops|
  {
    if ops != [] {
      SoundAlways(rule, ops[..|ops| - 1]);
      StepKeepsSound(Run(rule, ops[..|ops| - 1]), rule, ops[|ops| - 1]);
    }
  }

  lemma StepKeepsSound<T>(q: Queue<T>, rule: T -> bool, op: Operation<T>)
    requires Sound(q) && (op.Take? ==> op.now + INTERVAL < TWO_TO_THE_64)
    ensures Sound(Apply(q, rule, op))
  {
    hide Items, Times, Spaced;
    if op.Take? && Releases(q, op.now) {
      TakeKeepsSound(q, op.now);
    } else if op.Offer? && Accepts(q, rule, op.item) {
      assert Items(q.taken) + q.pending + [op.item] == Items(q.taken) + (q.pending + [op.item]);
    }
  }

  lemma TakeKeepsSound<T>(q: Queue<T>, now: nat)
    requires Sound(q) && Releases(q, now) && now + INTERVAL < TWO_TO_THE_64
    ensures Sound(q.(pending := q.pending[1..], next := now + INTERVAL, taken := q.taken + [Taken(now, q.pending[0])]))
  {
    hide Items, Times, Spaced;
    var t := Taken(now, q.pending[0]);
    ItemsAppend(q.taken, t);
    SpacedAppend(q.taken, t);
    assert q.pending == [q.pending[0]] + q.pending[1..];
    assert Items(q.taken) + ([q.pending[0]] + q.pending[1..]) == Items(q.taken) + [q.pending[0]] + q.pending[1..];
  }

  lemma SpacedAppend<T>(taken: seq<Taken<T>>, t: Taken<T>)
    requires Spaced(Times(taken))
    requires taken != [] ==> t.time >= taken[|taken| - 1].time + INTERVAL
    ensures Spaced(Times(taken + [t]))
  {
    hide Spaced, Times;
    TimesAppend(taken, t);
    SpacedExtends(Times(taken), t.time);
  }

  lemma TimesAppend<T>(taken: seq<Taken<T>>, t: Taken<T>)
    ensures Times(taken + [t]) == Times(taken) + [t.time]
  {
    assert (taken + [t])[..|taken|] == taken;
  }

  lemma SpacedExtends(times: seq<nat>, time: nat)
    requires Spaced(times) && (times != [] ==> time >= times[|times| - 1] + INTERVAL)
    ensures Spaced(times + [time])
  {
    assert (times + [time])[..|times|] == times;
  }

  lemma {:induction false} SpacedIsIncreasing(times: seq<nat>)
    requires Spaced(times) && times != []
    ensures forall i :: 0 <= i < |times| - 1 ==> times[i] + INTERVAL <= times[|times| - 1]
    decreases |times|
  {
    if |times| > 1 {
      var before := times[..|times| - 1];
      SpacedIsIncreasing(before);
      assert forall i :: 0 <= i < |before| ==> times[i] == before[i];
    }
  }

  lemma {:induction false} CountUpTo(times: seq<nat>, from: int, to: int, limit: int)
    requires limit <= to && forall i :: 0 <= i < |times| ==> times[i] <= limit
    ensures Count(times, from, to) == Count(times, from, limit)
    ensures limit < from ==> Count(times, from, to) == 0
    decreases |times|
  {
    if times != [] { CountUpTo(times[..|times| - 1], from, to, limit); }
  }

  /** At most floor(W / 10) + 1 of any spaced times lie in a window of W milliseconds. */
  lemma {:induction false} WindowBound(times: seq<nat>, from: int, to: int)
    requires Spaced(times) && from <= to
    ensures Count(times, from, to) <= (to - from) / INTERVAL + 1
    decreases |times|
  {
    if times != [] {
      var n := |times| - 1;
      var before, last := times[..n], times[n];
      WindowBound(before, from, to);
      if from <= last <= to {
        SpacedIsIncreasing(times);
        var limit := last - INTERVAL;
        CountUpTo(before, from, to, limit);
        if from <= limit {
          WindowBound(before, from, limit);
          QuotientMonotone(last - from, to - from, INTERVAL);
          QuotientShift(limit - from, INTERVAL, 1);
        }
      }
    }
  }

  /** Over every run at most floor(W / 10) + 1 items leave in any window of W milliseconds. */
  lemma RateLimited<T>(rule: T -> bool, ops: seq<Operation<T>>, from: nat, window: nat)
    requires InRange(ops)
    ensures Count(Times(Run(rule, ops).taken), from, from + window) <= window / INTERVAL + 1
  {
    SoundAlways(rule, ops);
    WindowBound(Times(Run(rule, ops).taken), from, from + window);
  }

  lemma {:induction false} AcceptedObey<T>(rule: T -> bool, ops: seq<Operation<T>>)
    ensures forall i :: 0 <= i < |Run(rule, ops).accepted| ==> rule(Run(rule, ops).accepted[i])
    decreases |ops|
  {
    if ops != [] { AcceptedObey(rule, ops[..|ops| - 1]); }
  }

  /** An item can leave: one is waiting, and ten milliseconds have passed since the last one left. */
  predicate Due<T>(q: Queue<T>, now: nat) {
    |q.taken| < |q.accepted| && (q.taken == [] || now >= q.taken[|q.taken| - 1].time + 10)
  }

  /** Over every run a poll takes the oldest item still there exactly when it is due. */
  lemma TakenExactly<T>(rule: T -> bool, ops: seq<Operation<T>>, now: nat)
    requires InRange(ops)
    ensures var q := Run(rule, ops);
            && (Releases(q, now) <==> Due(q, now))
            && Run(rule, ops + [Take(now)]).taken ==
               q.taken + (if Due(q, now) then [Taken(now, q.accepted[|q.taken|])] else [])
            && (Due(q, now) ==> q.pending != [] && q.pending[0] == q.accepted[|q.taken|])
  {
    hide Times, Spaced;
    var q := Run(rule, ops);
    SoundAlways(rule, ops);
    assert (ops + [Take(now)])[..|ops|] == ops;
    ItemsLength(q.taken);
    FirstRelease(rule, ops);
    assert q.taken + [] == q.taken;
  }

  lemma {:induction false} ItemsLength<T>(taken: seq<Taken<T>>)
    ensures |Items(taken)| == |taken|
  {
    if taken != [] { ItemsLength(taken[1..]); }
  }

  /** Nothing delays the first item. */
  lemma {:induction false} FirstRelease<T>(rule: T -> bool, ops: seq<Operation<T>>)
    ensures Run(rule, ops).taken == [] ==> Run(rule, ops).next == 0
    decreases |ops|
  {
    if ops != [] { FirstRelease(rule, ops[..|ops| - 1]); }
  }

  /** Over every run an offer is accepted exactly when it obeys the rule and fewer than 32 items are waiting. */
  lemma AcceptedExactly<T>(rule: T -> bool, ops: seq<Operation<T>>, item: T)
    requires InRange(ops)
    ensures var q := Run(rule, ops);
            var admitted := rule(item) && |q.accepted| - |q.taken| < 32;
            && (Accepts(q, rule, item) <==> admitted)
            && Run(rule, ops + [Offer(item)]).accepted == q.accepted + if admitted then [item] else []
  {
    hide Times, Spaced;
    var q := Run(rule, ops);
    SoundAlways(rule, ops);
    assert (ops + [Offer(item)])[..|ops|] == ops;
    ItemsLength(q.taken);
    assert q.accepted + [] == q.accepted;
  }

  /** The rules of the two queues: frames of the inbox have nine bytes around their payload. */
  lemma RulesExactly(item: seq<byte>, family: byte, frame: Frame)
    ensures OutputRule(item) <==> 1 <= |item| <= 544
    ensures InboxRule(family)(frame) <==> frame.kind / 16 == family / 16 && |frame.payload| + 9 <= 544
  {
  }

  // ----- The controller output queue -----

  predicate OutputRule(item: seq<byte>) { 0 < |item| <= MAXIMUM_ITEM_SIZE }

  class ControllerOutputQueue {
    var items: seq<seq<byte>>
    var nextWrite: nat
    ghost var ops: seq<Operation<seq<byte>>>

    ghost predicate Valid()
      reads this
    {
      items == Run(OutputRule, ops).pending && nextWrite == Run(OutputRule, ops).next
    }

    constructor ()
      ensures Valid() && ops == []
    {
      items, nextWrite, ops := [], 0, [];
    }

    method Enqueue(item: seq<byte>) returns (ok: bool)
      requires Valid()
      modifies this
      ensures Valid() && ops == old(ops) + [Offer(item)]
      ensures ok <==> Accepts(Run(OutputRule, old(ops)), OutputRule, item)
    {
      ghost var all := ops + [Offer(item)];
      assert all[..|all| - 1] == ops;
      ops := all;
      if item == [] || |item| > MAXIMUM_ITEM_SIZE || |items| >= MAXIMUM_PENDING { return false; }
      items := items + [item];
      return true;
    }

    method TakeReady(now: nat) returns (item: Option<seq<byte>>)
      requires Valid()
      modifies this
      ensures Valid() && ops == old(ops) + [Take(now)]
      ensures var q := Run(OutputRule, old(ops));
              item == if Releases(q, now) then Some(q.pending[0]) else None
    {
      ghost var all := ops + [Take(now)];
      assert all[..|all| - 1] == ops;
      ops := all;
      if items == [] || now < nextWrite { return None; }
      item := Some(items[0]);
      items := items[1..];
      nextWrite := (now + INTERVAL) % TWO_TO_THE_64;
    }
  }

  // ----- The inbox of one transfer family -----

  function InboxRule(family: byte): Frame -> bool {
    (f: Frame) => FamilyOf(f.kind) == FamilyOf(family) && |f.payload| <= MAXIMUM_ITEM_SIZE - FRAME_OVERHEAD
  }

  class ControllerTransferInbox {
    const family: byte
    var frames: seq<Frame>
    var nextProcess: nat
    ghost var ops: seq<Operation<Frame>>

    ghost predicate Valid()
      reads this
    {
      frames == Run(InboxRule(family), ops).pending && nextProcess == Run(InboxRule(family), ops).next
    }

    constructor (family: byte)
      ensures Valid() && ops == [] && this.family == family
    {
      this.family := family;
      frames, nextProcess, ops := [], 0, [];
    }

    method Enqueue(frame: Frame) returns (ok: bool)
      requires Valid()
      modifies this
      ensures Valid() && ops == old(ops) + [Offer(frame)]
      ensures ok <==> Accepts(Run(InboxRule(family), old(ops)), InboxRule(family), frame)
    {
      ghost var all := ops + [Offer(frame)];
      assert all[..|all| - 1] == ops;
      ops := all;
      var correctFamily := FamilyOf(frame.kind) == FamilyOf(family);
      var sizeAllowed := |frame.payload| <= MAXIMUM_ITEM_SIZE - FRAME_OVERHEAD;
      if !correctFamily || !sizeAllowed || |frames| >= MAXIMUM_PENDING { return false; }
      frames := frames + [frame];
      return true;
    }

    method TakeReady(now: nat) returns (frame: Option<Frame>)
      requires Valid()
      modifies this
      ensures Valid() && ops == old(ops) + [Take(now)]
      ensures var q := Run(InboxRule(family), old(ops));
              frame == if Releases(q, now) then Some(q.pending[0]) else None
    {
      ghost var all := ops + [Take(now)];
      assert all[..|all| - 1] == ops;
      ops := all;
      if frames == [] || now < nextProcess { return None; }
      frame := Some(frames[0]);
      frames := frames[1..];
      nextProcess := (now + INTERVAL) % TWO_TO_THE_64;
    }
  }
}
