/** Periodic deadlines advanced in closed form: the query scheduler and the inactivity monitor. */
module Deadlines {
  import opened Arithmetic
  import opened Bytes

  const STATUS_PERIOD: nat := 300
  const DIAGNOSTIC_PERIOD: nat := 500
  const INACTIVITY_PERIOD: nat := 10000

  // ----- One poll -----

  /** Whole periods consumed by a poll at `now`. */
  function Elapsed(now: nat, period: nat, next: nat): nat
    requires period > 0
  {
    if now < next then 0 else (now - next) / period + 1
  }

  /** The closed form, in 64-bit arithmetic. */
  function Consume(now: nat, period: nat, next: nat): nat
    requires period > 0
  {
    if now < next then next else (next + Elapsed(now, period, next) * period) % TWO_TO_THE_64
  }

  /** The loop that the closed form replaces: one period at a time until the deadline lies ahead. */
  function Naive(now: nat, period: nat, next: nat): (r: (nat, nat))
    requires period > 0
    decreases if now < next then 0 else now - next + 1
  {
    if now < next then (0, next)
    else
      var rest := Naive(now, period, next + period);
      (rest.0 + 1, rest.1)
  }

  lemma Advance(now: nat, period: nat, next: nat)
    requires period > 0 && next <= now
    ensures var passed := Elapsed(now, period, next);
            passed >= 1 && next + passed * period - period <= now < next + passed * period
  {
    var q := (now - next) / period;
    Quotient(now - next, period, q);
    Quotient(now - next, period, q + 1);
    Quotient(now - next, period, 0);
    assert (q + 1) * period == period * q + period;
  }

  /** The closed form is the loop: the same count and the same deadline. */
  lemma {:induction false} ConsumeIsNaive(now: nat, period: nat, next: nat)
    requires period > 0 && now + period < TWO_TO_THE_64 && next < TWO_TO_THE_64
    ensures Naive(now, period, next) == (Elapsed(now, period, next), Consume(now, period, next))
  {
    if next <= now {
      Advance(now, period, next);
      NaiveIs(now, period, next, Elapsed(now, period, next));
    }
  }

  lemma {:induction false} NaiveIs(now: nat, period: nat, next: nat, k: nat)
    requires period > 0 && k >= 1
    requires next + k * period - period <= now < next + k * period
    ensures Naive(now, period, next) == (k, next + k * period)
    decreases k
  {
    assert k * period == (k - 1) * period + period;
    if k == 1 {
      assert Naive(now, period, next + period) == (0, next + period);
    } else {
      MultiplyMonotone(period, 1, k - 1);
      NaiveIs(now, period, next + period, k - 1);
    }
  }

  // ----- Any history of polls -----

  /** Deadline after polls at the given times, in any order. */
  function NextAfter(start: nat, period: nat, polls: seq<nat>): nat
    requires period > 0
    decreases |polls|
  {
    if polls == [] then start
    else Consume(polls[|polls| - 1], period, NextAfter(start, period, polls[..|polls| - 1]))
  }

  /** Periods consumed by all polls together. */
  function Passed(start: nat, period: nat, polls: seq<nat>): nat
    requires period > 0
    decreases |polls|
  {
    if polls == [] then 0
    else
      var before := polls[..|polls| - 1];
      Passed(start, period, before) + Elapsed(polls[|polls| - 1], period, NextAfter(start, period, before))
  }

  /** Latest polled time, or -1 before the first poll. */
  function Latest(polls: seq<nat>): (t: int)
    ensures t >= -1
    decreases |polls|
  {
    if polls == [] then -1 else Max(Latest(polls[..|polls| - 1]), polls[|polls| - 1])
  }

  /** No time comes within one period of the 64-bit limit. */
  predicate InRange(start: nat, period: nat, polls: seq<nat>) {
    start + period < TWO_TO_THE_64 && Latest(polls) + period < TWO_TO_THE_64
  }

  /** The deadline stays on the grid, beyond every poll, and never a whole period too far. */
  lemma {:induction false} OnGrid(start: nat, period: nat, polls: seq<nat>)
    requires period > 0 && InRange(start, period, polls)
    ensures var k := Passed(start, period, polls);
            var next := NextAfter(start, period, polls);
            next == start + k * period && Latest(polls) < next && (k > 0 ==> next - period <= Latest(polls))
    decreases |polls|
  {
    hide Consume, Elapsed;
    if polls != [] {
      var before, now := polls[..|polls| - 1], polls[|polls| - 1];
      OnGrid(start, period, before);
      ConsumeStep(start, period, Passed(start, period, before), now);
    }
  }

  lemma ConsumeStep(start: nat, period: nat, k: nat, now: nat)
    requires period > 0 && now + period < TWO_TO_THE_64
    ensures var next := start + k * period;
            var passed := Elapsed(now, period, next);
            && Consume(now, period, next) == start + (k + passed) * period
            && now < Consume(now, period, next)
            && (passed > 0 <==> next <= now)
            && (passed > 0 ==> Consume(now, period, next) - period <= now)
  {
    var next := start + k * period;
    var passed := Elapsed(now, period, next);
    if next <= now { Advance(now, period, next); }
    assert (k + passed) * period == k * period + passed * period;
  }

  /**
   After every poll the deadline is the least scheduled time beyond all polls: it is scheduled, it
   lies beyond them, and no scheduled time beyond them comes before it.
   */
  lemma DeadlineIsLeast(start: nat, period: nat, polls: seq<nat>, m: nat)
    requires period > 0 && InRange(start, period, polls)
    ensures var next := NextAfter(start, period, polls);
            && next == start + Passed(start, period, polls) * period
            && Latest(polls) < next
            && (Latest(polls) < start + m * period ==> next <= start + m * period)
  {
    hide NextAfter, Passed, Latest;
    OnGrid(start, period, polls);
    LeastOnGrid(start, period, Passed(start, period, polls), m, Latest(polls));
  }

  lemma LeastOnGrid(start: nat, period: nat, k: nat, m: nat, t: int)
    requires period > 0 && (k > 0 ==> start + k * period - period <= t)
    ensures t < start + m * period ==> start + k * period <= start + m * period
  {
    if m < k {
      MultiplyMonotone(period, m, k - 1);
      assert k * period == (k - 1) * period + period;
    } else {
      MultiplyMonotone(period, k, m);
    }
  }

  /** A poll finds an opportunity exactly when a scheduled time lies between the earlier polls and now. */
  lemma DueExactly(start: nat, period: nat, polls: seq<nat>, now: nat)
    requires period > 0 && InRange(start, period, polls)
    ensures NextAfter(start, period, polls) <= now <==>
            exists m: nat :: Latest(polls) < Scheduled(start, period, m) <= now
  {
    var k := Passed(start, period, polls);
    OnGrid(start, period, polls);
    assert Scheduled(start, period, k) == NextAfter(start, period, polls);
    forall m: nat | Latest(polls) < Scheduled(start, period, m) <= now ensures NextAfter(start, period, polls) <= now {
      DeadlineIsLeast(start, period, polls, m);
    }
  }

  function Scheduled(start: nat, period: nat, m: nat): nat { start + m * period }

  // ----- The query scheduler -----

  datatype Query = StatusQuery | DiagnosticQuery

  /** Moves a deadline past `now` and tells whether an opportunity elapsed. */
  method ConsumeDueOpportunity(now: nat, period: nat, next: nat) returns (due: bool, later: nat)
    requires period > 0
    ensures due <==> next <= now
    ensures later == Consume(now, period, next)
  {
    if now < next { return false, next; }
    var elapsed := (now - next) / period + 1;
    return true, (next + elapsed * period) % TWO_TO_THE_64;
  }

  class ControllerQueryScheduler {
    var nextStatus: nat
    var nextDiagnostic: nat
    ghost const start: nat
    ghost var polls: seq<nat>

    /** The deadlines are a function of the start and the times polled, whatever was suppressed. */
    ghost predicate Valid()
      reads this
    {
      && nextStatus == NextAfter(start, STATUS_PERIOD, polls)
      && nextDiagnostic == NextAfter(start, DIAGNOSTIC_PERIOD, polls)
    }

    constructor (start: nat)
      ensures Valid() && this.start == start && polls == []
    {
      nextStatus, nextDiagnostic := start, start;
      this.start, polls := start, [];
    }

    method Poll(now: nat, allowed: bool) returns (queries: seq<Query>)
      requires Valid()
      modifies this
      ensures Valid() && polls == old(polls) + [now]
      ensures queries ==
              if !allowed then []
              else (if NextAfter(start, STATUS_PERIOD, old(polls)) <= now then [StatusQuery] else []) +
                   (if NextAfter(start, DIAGNOSTIC_PERIOD, old(polls)) <= now then [DiagnosticQuery] else [])
    {
      ghost var all := polls + [now];
      assert all[..|all| - 1] == polls;
      var statusDue, diagnosticDue: bool;
      statusDue, nextStatus := ConsumeDueOpportunity(now, STATUS_PERIOD, nextStatus);
      diagnosticDue, nextDiagnostic := ConsumeDueOpportunity(now, DIAGNOSTIC_PERIOD, nextDiagnostic);
      polls := all;
      queries := [];
      if !allowed { return; }
      if statusDue { queries := queries + [StatusQuery]; }
      if diagnosticDue { queries := queries + [DiagnosticQuery]; }
    }
  }

  /** Over any history of polls a status query is due every 300 ms and a diagnostic query every 500 ms. */
  lemma QueriesDueExactly(start: nat, polls: seq<nat>, now: nat)
    requires InRange(start, DIAGNOSTIC_PERIOD, polls)
    ensures NextAfter(start, STATUS_PERIOD, polls) <= now <==>
            exists m: nat :: Latest(polls) < Scheduled(start, 300, m) <= now
    ensures NextAfter(start, DIAGNOSTIC_PERIOD, polls) <= now <==>
            exists m: nat :: Latest(polls) < Scheduled(start, 500, m) <= now
  {
    DueExactly(start, STATUS_PERIOD, polls, now);
    DueExactly(start, DIAGNOSTIC_PERIOD, polls, now);
  }

  // ----- The inactivity monitor -----

  datatype Event = ValidFrame(now: nat) | Polled(now: nat)

  datatype Watch = Watch(next: nat, alarms: nat)

  /** Deadline and number of alarms since the last valid frame. */
  function Observe(start: nat, events: seq<Event>): Watch
    decreases |events|
  {
    if events == [] then Watch((start + INACTIVITY_PERIOD) % TWO_TO_THE_64, 0)
    else
      var w := Observe(start, events[..|events| - 1]);
      match events[|events| - 1]
      case ValidFrame(now) => Watch((now + INACTIVITY_PERIOD) % TWO_TO_THE_64, 0)
      case Polled(now) =>
        Watch(Consume(now, INACTIVITY_PERIOD, w.next), w.alarms + Elapsed(now, INACTIVITY_PERIOD, w.next))
  }

  /** Time of the last valid frame, or the start, and the polls since. */
  function Since(start: nat, events: seq<Event>): (nat, seq<nat>)
    decreases |events|
  {
    if events == [] then (start, [])
    else
      var before := Since(start, events[..|events| - 1]);
      match events[|events| - 1]
      case ValidFrame(now) => (now, [])
      case Polled(now) => (before.0, before.1 + [now])
  }

  predicate Early(start: nat, events: seq<Event>) {
    start + 2 * INACTIVITY_PERIOD < TWO_TO_THE_64 &&
    forall i :: 0 <= i < |events| ==> events[i].now + 2 * INACTIVITY_PERIOD < TWO_TO_THE_64
  }

  lemma NoPolls(start: nat, period: nat)
    requires period > 0
    ensures NextAfter(start, period, []) == start && Passed(start, period, []) == 0 && Latest([]) == -1
  {
  }

  lemma OneMorePoll(start: nat, period: nat, polls: seq<nat>, now: nat)
    requires period > 0
    ensures var all := polls + [now];
            var next := NextAfter(start, period, polls);
            && NextAfter(start, period, all) == Consume(now, period, next)
            && Passed(start, period, all) == Passed(start, period, polls) + Elapsed(now, period, next)
            && Latest(all) == Max(Latest(polls), now)
  {
    var all := polls + [now];
    assert all[..|all| - 1] == polls;
  }

  lemma {:induction false} ObserveIsSchedule(start: nat, events: seq<Event>)
    requires Early(start, events)
    ensures var (r, polls) := Since(start, events);
            && InRange(r + INACTIVITY_PERIOD, INACTIVITY_PERIOD, polls)
            && Observe(start, events) ==
               Watch(NextAfter(r + INACTIVITY_PERIOD, INACTIVITY_PERIOD, polls),
                     Passed(r + INACTIVITY_PERIOD, INACTIVITY_PERIOD, polls))
    decreases |events|
  {
    hide Consume, Elapsed, NextAfter, Passed, Latest;
    if events == [] {
      NoPolls(start + INACTIVITY_PERIOD, INACTIVITY_PERIOD);
    } else {
      var before, last := events[..|events| - 1], events[|events| - 1];
      ObserveIsSchedule(start, before);
      var (r, polls) := Since(start, before);
      if last.Polled? {
        OneMorePoll(r + INACTIVITY_PERIOD, INACTIVITY_PERIOD, polls, last.now);
      } else {
        NoPolls(last.now + INACTIVITY_PERIOD, INACTIVITY_PERIOD);
      }
    }
  }

  /**
   However the polls are spaced, the alarms raised since the last valid frame at r total
   floor((t - r) / 10000), where t is the latest poll.
   */
  lemma AlarmsSinceLastFrame(start: nat, events: seq<Event>)
    requires Early(start, events)
    ensures var (r, polls) := Since(start, events);
            Observe(start, events).alarms == if Latest(polls) < r then 0 else (Latest(polls) - r) / 10000
  {
    hide Observe, NextAfter, Passed, Latest;
    ObserveIsSchedule(start, events);
    var (r, polls) := Since(start, events);
    OnGrid(r + INACTIVITY_PERIOD, INACTIVITY_PERIOD, polls);
    var k := Passed(r + INACTIVITY_PERIOD, INACTIVITY_PERIOD, polls);
    var t := Latest(polls);
    if t >= r { QuotientIs(t - r, INACTIVITY_PERIOD, k); }
  }

  datatype Alarm = InactivityAlarm

  class ControllerActivityMonitor {
    var nextAlarm: nat
    ghost const start: nat
    ghost var events: seq<Event>

    ghost predicate Valid()
      reads this
    {
      nextAlarm == Observe(start, events).next
    }

    constructor (start: nat)
      ensures Valid() && this.start == start && events == []
    {
      nextAlarm := (start + INACTIVITY_PERIOD) % TWO_TO_THE_64;
      this.start, events := start, [];
    }

    method RecordValidFrame(now: nat)
      modifies this
      ensures Valid() && events == old(events) + [ValidFrame(now)]
    {
      nextAlarm := (now + INACTIVITY_PERIOD) % TWO_TO_THE_64;
      events := events + [ValidFrame(now)];
    }

    method Poll(now: nat) returns (alarms: seq<Alarm>)
      requires Valid()
      modifies this
      ensures Valid() && events == old(events) + [Polled(now)]
      ensures old(Observe(start, events).alarms) + |alarms| == Observe(start, events).alarms
    {
      ghost var all := events + [Polled(now)];
      assert all[..|all| - 1] == events;
      events := all;
      alarms := [];
      if now < nextAlarm { return; }
      var elapsed := (now - nextAlarm) / INACTIVITY_PERIOD + 1;
      for period := 0 to elapsed
        invariant |alarms| == period
      {
        alarms := alarms + [InactivityAlarm];
      }
      nextAlarm := (nextAlarm + elapsed * INACTIVITY_PERIOD) % TWO_TO_THE_64;
    }
  }
}
