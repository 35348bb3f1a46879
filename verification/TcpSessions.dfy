/** What the TCP slot protocol keeps over every run: live contexts, refusals, delivery and the client count. */
module TcpSessions {
  import opened Bytes
  import opened TcpSlots

  // ----- Contexts -----

  /** Live contexts of a slot: not yet dispatched, queued, or in the worker's hands. */
  function LiveContexts(s: State, i: nat): nat
    requires i < |s.slots|
  {
    One(s.acceptor.Made? && s.acceptor.slot == i) + One(s.slots[i].queue.Some?) + One(!s.slots[i].worker.Waiting?)
  }

  /** The worker has given its slot back but not yet deleted the context. */
  predicate Retiring(w: Worker) { w.Released? || w.Discounted? }

  /**
   A slot never has more than two live contexts, and two only while its worker is between giving the
   slot back and deleting the old context; at most one of them occupies the slot. Dispatch never
   fails, and a waiting connection implies an occupied slot.
   */
  lemma LiveContextsExactly(steps: seq<Step>, i: nat)
    requires Legal(steps) && i < MAXIMUM_CLIENTS
    ensures var s := After(steps);
            && |s.slots| == MAXIMUM_CLIENTS
            && LiveContexts(s, i) <= 2
            && (LiveContexts(s, i) == 2 <==>
                Retiring(s.slots[i].worker) && (s.slots[i].queue.Some? || (s.acceptor.Made? && s.acceptor.slot == i)))
            && (s.slots[i].queue.Some? ==> s.slots[i].occupied)
            && !Enabled(s, DispatchFails)
  {
    hide Legal, After, RegistrySound, CountSound;
    Always(steps);
    var s := After(steps);
    DispatchNeverFails(s);
    assert SlotSound(s.slots[i], s.acceptor, i, s.next);
  }

  /** Where a connection is refused, every slot's worker or queue holds a connection that is not over. */
  lemma RejectedOnlyWhenFull(steps: seq<Step>, i: nat)
    requires Legal(steps) && Enabled(After(steps), Reject) && i < MAXIMUM_CLIENTS
    ensures i < |After(steps).slots|
    ensures After(steps).slots[i].queue.Some? || Busy(After(steps).slots[i].worker)
  {
    hide Legal, After, RegistrySound, CountSound;
    Always(steps);
    var s := After(steps);
    assert SlotSound(s.slots[i], s.acceptor, i, s.next);
  }

  // ----- Delivery -----

  /** The serial number of the session that a frame for a slot is written to. */
  function Deliver(sessions: seq<Registration>, slot: nat): Option<nat> {
    if sessions == [] then None
    else if sessions[0].slot == slot then Some(sessions[0].serial)
    else Deliver(sessions[1..], slot)
  }

  lemma {:induction false} DeliverFinds(sessions: seq<Registration>, slot: nat)
    ensures Deliver(sessions, slot).Some? ==> Registration(slot, Deliver(sessions, slot).value) in sessions
    ensures Deliver(sessions, slot).None? ==> forall r :: r in sessions ==> r.slot != slot
  {
    if sessions != [] { DeliverFinds(sessions[1..], slot); }
  }

  /**
   Delivery by slot reaches the session that the slot's worker is serving and no other, and that
   session belongs to the slot's latest connection.
   */
  lemma DeliveryReachesCurrent(steps: seq<Step>, slot: nat)
    requires Legal(steps) && slot < MAXIMUM_CLIENTS
    ensures var s := After(steps);
            && |s.slots| == MAXIMUM_CLIENTS
            && Deliver(s.sessions, slot) ==
               (if s.slots[slot].worker.Serving? then Some(s.slots[slot].worker.serial) else None)
            && (Deliver(s.sessions, slot).Some? ==> Deliver(s.sessions, slot) == s.slots[slot].last)
            && DistinctSlots(s.sessions)
  {
    hide Legal, After, CountSound, DistinctSlots;
    Always(steps);
    var s := After(steps);
    DeliverFinds(s.sessions, slot);
    assert SlotSound(s.slots[slot], s.acceptor, slot, s.next);
  }

  /** A frame names a connection by slot and serial number; only the slot is compared. */
  function DeliverTo(sessions: seq<Registration>, to: Registration): Option<nat> { Deliver(sessions, to.slot) }

  /** It reaches the connection it names exactly when that connection's session is being served. */
  lemma ReachesAddressedExactly(steps: seq<Step>, to: Registration)
    requires Legal(steps) && to.slot < MAXIMUM_CLIENTS
    ensures var s := After(steps);
            && |s.slots| == MAXIMUM_CLIENTS
            && (DeliverTo(s.sessions, to) == Some(to.serial) <==> s.slots[to.slot].worker == Serving(to.serial))
            && (DeliverTo(s.sessions, to) == Some(to.serial) <==> to in s.sessions)
  {
    hide Legal, After, CountSound, DistinctSlots, SlotSound, Deliver;
    Always(steps);
    DeliveryReachesCurrent(steps, to.slot);
  }

  lemma StepKeepsLast(s: State, step: Step, i: nat)
    requires SlotsSound(s) && Enabled(s, step) && i < MAXIMUM_CLIENTS && s.slots[i].last.Some?
    ensures var t := Apply(s, step);
            |t.slots| == MAXIMUM_CLIENTS && t.slots[i].last.Some? && s.slots[i].last.value <= t.slots[i].last.value
  {
    hide Permits, FirstFree, Without;
    assert SlotSound(s.slots[i], s.acceptor, i, s.next);
  }

  /** The latest connection of a slot is never replaced by an earlier one. */
  lemma {:induction false} LastGrows(steps: seq<Step>, k: nat, i: nat)
    requires Legal(steps) && k <= |steps| && i < MAXIMUM_CLIENTS
    ensures Legal(steps[..k])
    ensures var earlier, now := After(steps[..k]), After(steps);
            && |earlier.slots| == |now.slots| == MAXIMUM_CLIENTS
            && (earlier.slots[i].last.Some? ==>
                now.slots[i].last.Some? && earlier.slots[i].last.value <= now.slots[i].last.value)
    decreases |steps|
  {
    hide Enabled, Apply, RegistrySound, CountSound, SlotSound;
    if k == |steps| {
      assert steps[..k] == steps;
      Always(steps);
    } else {
      var shorter := steps[..|steps| - 1];
      assert shorter[..k] == steps[..k];
      LastGrows(shorter, k, i);
      Always(shorter);
      Always(steps);
      if After(shorter).slots[i].last.Some? { StepKeepsLast(After(shorter), steps[|steps| - 1], i); }
    }
  }

  /** A frame for a connection that was served at some time reaches that connection or a later one. */
  lemma NeverReachesEarlier(steps: seq<Step>, k: nat, to: Registration)
    requires Legal(steps) && k <= |steps| && Legal(steps[..k]) && to in After(steps[..k]).sessions
    ensures var reached := DeliverTo(After(steps).sessions, to); reached.Some? ==> to.serial <= reached.value
  {
    hide Legal, After, CountSound, DistinctSlots, Deliver;
    Always(steps[..k]);
    LastGrows(steps, k, to.slot);
    var s := After(steps[..k]);
    assert SlotSound(s.slots[to.slot], s.acceptor, to.slot, s.next);
    DeliveryReachesCurrent(steps, to.slot);
  }

  // ----- The client count -----

  function Uncounted(slot: Slot): nat { One(slot.worker.Released?) }

  /**
   The published count is the number of counted contexts. It exceeds the number of occupied slots
   by at most the workers that have given their slot back and not yet counted down.
   */
  lemma ActiveCount(steps: seq<Step>)
    requires Legal(steps)
    ensures var s := After(steps);
            && |s.slots| == MAXIMUM_CLIENTS
            && 0 <= s.active <= MAXIMUM_CLIENTS + Uncounted(s.slots[0]) + Uncounted(s.slots[1]) +
                                Uncounted(s.slots[2]) + Uncounted(s.slots[3])
  {
    hide Legal, After, RegistrySound, Loads;
    Always(steps);
    var s := After(steps);
    LoadsOfFour(s.slots);
    LoadOfSlot(s, 0);
    LoadOfSlot(s, 1);
    LoadOfSlot(s, 2);
    LoadOfSlot(s, 3);
  }

  lemma LoadOfSlot(s: State, i: nat)
    requires SlotsSound(s) && i < MAXIMUM_CLIENTS
    ensures Load(s.slots[i]) + One(Claims(s.acceptor, i)) <= 1 + Uncounted(s.slots[i])
    ensures s.acceptor.Counted? || s.acceptor.Made? || s.acceptor.Uncounting? ==> s.acceptor.slot < MAXIMUM_CLIENTS
  {
    assert SlotSound(s.slots[i], s.acceptor, i, s.next);
  }

  // ----- Reservations -----

  /** The outcome of the latest reservation of buffers. */
  function LastReserve(steps: seq<Step>): Option<bool>
    decreases |steps|
  {
    if steps == [] then None
    else if steps[|steps| - 1].Reserve? then Some(steps[|steps| - 1].ok)
    else LastReserve(steps[..|steps| - 1])
  }

  /** The connection of this number was made right after a reservation that succeeded. */
  predicate MadeReserved(steps: seq<Step>, serial: nat)
    requires Legal(steps)
    decreases |steps|
  {
    steps != [] &&
    var before := steps[..|steps| - 1];
    if steps[|steps| - 1].Make? && After(before).next == serial then LastReserve(before) == Some(true)
    else MadeReserved(before, serial)
  }

  predicate Admitting(a: Acceptor) { a.Admitted? || a.Counted? }

  lemma StepAdmits(s: State, step: Step, i: nat)
    requires SlotsSound(s) && Enabled(s, step) && i < MAXIMUM_CLIENTS
    ensures Admitting(Apply(s, step).acceptor) <==>
            step == Reserve(true) || (Admitting(s.acceptor) && !step.Make?)
    ensures step.Reserve? ==> !Admitting(s.acceptor)
    ensures step.Make? ==> Admitting(s.acceptor)
    ensures var t := Apply(s, step);
            && |t.slots| == MAXIMUM_CLIENTS
            && (t.slots[i].last == s.slots[i].last || (step.Make? && t.slots[i].last == Some(s.next)))
            && (s.slots[i].last.Some? ==> s.slots[i].last.value < s.next)
  {
    hide Permits, FirstFree, Without;
    assert SlotSound(s.slots[i], s.acceptor, i, s.next);
  }

  lemma {:induction false} LastWasReserved(steps: seq<Step>, i: nat)
    requires Legal(steps) && i < MAXIMUM_CLIENTS
    ensures var s := After(steps);
            && |s.slots| == MAXIMUM_CLIENTS
            && (Admitting(s.acceptor) ==> LastReserve(steps) == Some(true))
            && (s.slots[i].last.Some? ==> MadeReserved(steps, s.slots[i].last.value))
    decreases |steps|
  {
    hide Enabled, Apply, RegistrySound, CountSound, SlotSound;
    Always(steps);
    if steps != [] {
      var before, step := steps[..|steps| - 1], steps[|steps| - 1];
      Always(before);
      LastWasReserved(before, i);
      StepAdmits(After(before), step, i);
    }
  }

  /** Over every run a connection is served only if its buffers could be reserved before it was made. */
  lemma ServedWasReserved(steps: seq<Step>, r: Registration)
    requires Legal(steps) && r in After(steps).sessions
    ensures MadeReserved(steps, r.serial)
  {
    hide Legal, After, CountSound, DistinctSlots, MadeReserved;
    Always(steps);
    var s := After(steps);
    LastWasReserved(steps, r.slot);
    assert SlotSound(s.slots[r.slot], s.acceptor, r.slot, s.next);
  }

  // ----- Where the counts do overlap -----

  lemma Extend(steps: seq<Step>, step: Step) returns (more: seq<Step>)
    requires Legal(steps) && Enabled(After(steps), step)
    ensures Legal(more) && After(more) == Apply(After(steps), step)
    ensures |more| == |steps| + 1 && more[..|steps|] == steps
  {
    more := steps + [step];
    assert more[..|more| - 1] == steps;
  }

  /** A connection that is accepted and dispatched to the first free slot. */
  lemma Connect(steps: seq<Step>) returns (more: seq<Step>)
    requires Legal(steps) && After(steps).acceptor.Listening?
    requires var s := After(steps); FirstFree(s.slots) < |s.slots| && s.slots[FirstFree(s.slots)].queue.None?
    ensures Legal(more) && |more| >= |steps| && more[..|steps|] == steps
    ensures var s := After(steps);
            var n := FirstFree(s.slots);
            After(more) == s.(slots := s.slots[n := Slot(true, Some(s.next), s.slots[n].worker, Some(s.next))],
                              active := s.active + 1, next := s.next + 1)
  {
    hide Legal, After, FirstFree;
    more := Extend(steps, Claim);
    more := Extend(more, Reserve(true));
    more := Extend(more, Count);
    more := Extend(more, Make);
    more := Extend(more, Dispatch);
  }

  /** A queued connection that is served, closed and has its slot given back. */
  lemma Retire(steps: seq<Step>, i: nat) returns (more: seq<Step>)
    requires Legal(steps) && i < |After(steps).slots|
    requires After(steps).slots[i].queue.Some? && After(steps).slots[i].worker.Waiting?
    ensures Legal(more)
    ensures var s := After(steps);
            var t := After(more);
            && t.slots == s.slots[i := Slot(false, None, Released(s.slots[i].queue.value), s.slots[i].last)]
            && t.acceptor == s.acceptor && t.active == s.active && t.next == s.next
  {
    hide Legal, After;
    more := Extend(steps, Receive(i));
    more := Extend(more, Register(i));
    more := Extend(more, Unregister(i));
    more := Extend(more, ReleaseSlot(i));
  }

  /** A run in which slot 0 has two live contexts and the published count of the four slots is five. */
  lemma CountsCanOverlap() returns (steps: seq<Step>)
    ensures Legal(steps) && |After(steps).slots| == MAXIMUM_CLIENTS
    ensures LiveContexts(After(steps), 0) == 2 && After(steps).active == 5
  {
    var start: seq<Step> := [];
    assert Legal(start) && After(start) == INITIAL;
    hide Legal, After;
    steps := Connect(start);
    steps := Retire(steps, 0);
    steps := Connect(steps);
    FirstFreeIs(After(steps).slots, 1);
    steps := Connect(steps);
    FirstFreeIs(After(steps).slots, 2);
    steps := Connect(steps);
    FirstFreeIs(After(steps).slots, 3);
    steps := Connect(steps);
  }

  lemma {:induction false} FirstFreeIs(slots: seq<Slot>, n: nat)
    requires n < |slots| && !slots[n].occupied && forall k :: 0 <= k < n ==> slots[k].occupied
    ensures FirstFree(slots) == n
  {
    if n > 0 { FirstFreeIs(slots[1..], n - 1); }
  }

  /** A queued connection that is taken up and served. */
  lemma Serve(steps: seq<Step>, i: nat) returns (more: seq<Step>)
    requires Legal(steps) && i < |After(steps).slots|
    requires After(steps).slots[i].queue.Some? && After(steps).slots[i].worker.Waiting?
    ensures |more| >= |steps| && more[..|steps|] == steps
    ensures Legal(more)
    ensures var s := After(steps);
            var t := After(more);
            var serial := s.slots[i].queue.value;
            && t == s.(slots := t.slots, sessions := s.sessions + [Registration(i, serial)])
            && t.slots == s.slots[i := s.slots[i].(queue := None, worker := Serving(serial))]
  {
    hide Legal, After;
    more := Extend(steps, Receive(i));
    more := Extend(more, Register(i));
  }

  /** A served connection that is closed, with its slot given back and its context deleted. */
  lemma Leave(steps: seq<Step>, i: nat) returns (more: seq<Step>)
    requires Legal(steps) && i < |After(steps).slots| && After(steps).slots[i].worker.Serving?
    ensures |more| >= |steps| && more[..|steps|] == steps
    ensures Legal(more)
    ensures var s := After(steps);
            var slot := s.slots[i];
            && After(more).slots == s.slots[i := slot.(occupied := false, worker := Waiting)]
            && After(more).acceptor == s.acceptor && After(more).next == s.next
  {
    hide Legal, After;
    more := Extend(steps, Unregister(i));
    more := Extend(more, ReleaseSlot(i));
    more := Extend(more, Discount(i));
    more := Extend(more, Delete(i));
  }

  /**
   From every state in which a connection is served while no earlier slot is free and nothing is
   being accepted, the run can go on so that a frame for it reaches the next connection instead.
   */
  lemma SuccessorReached(steps: seq<Step>, to: Registration) returns (more: seq<Step>)
    requires Legal(steps) && After(steps).acceptor.Listening? && to in After(steps).sessions
    requires to.slot <= |After(steps).slots| && forall k :: 0 <= k < to.slot ==> After(steps).slots[k].occupied
    ensures Legal(more) && |more| >= |steps| && more[..|steps|] == steps
    ensures DeliverTo(After(more).sessions, to) == Some(After(steps).next) && to.serial < After(steps).next
  {
    hide Legal, After, DistinctSlots, Loads, Deliver, FirstFree;
    Always(steps);
    var s := After(steps);
    assert SlotSound(s.slots[to.slot], s.acceptor, to.slot, s.next);
    more := Leave(steps, to.slot);
    FirstFreeIs(After(more).slots, to.slot);
    more := Connect(more);
    more := Serve(more, to.slot);
    DeliveryReachesCurrent(more, to.slot);
  }

  /** The shortest such run: one connection is served, closed and followed by the next. */
  lemma FirstSuccessor() returns (steps: seq<Step>, k: nat)
    ensures Legal(steps) && k <= |steps| && Legal(steps[..k])
    ensures var to := Registration(0, 1);
            && DeliverTo(After(steps[..k]).sessions, to) == Some(1)
            && DeliverTo(After(steps).sessions, to) == Some(2)
  {
    var start: seq<Step> := [];
    assert Legal(start) && After(start) == INITIAL;
    hide Legal, After;
    var first := Connect(start);
    first := Serve(first, 0);
    k := |first|;
    ReachesAddressedExactly(first, Registration(0, 1));
    steps := SuccessorReached(first, Registration(0, 1));
  }
}
