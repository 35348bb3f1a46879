/**
 The TCP slot protocol: one acceptor and four permanent workers share the occupancy table, one
 single-entry queue per slot, the session registry and the client count. Every lock-protected
 section, queue operation and atomic operation is one step; a run is any interleaving of steps.
 */
module TcpSlots {
  import opened Bytes

  const MAXIMUM_CLIENTS: nat := 4

  /** A worker and the serial number of the connection whose context it holds. */
  datatype Worker = Waiting | Starting(serial: nat) | Serving(serial: nat) | Leaving(serial: nat)
                  | Released(serial: nat) | Discounted(serial: nat)

  /** `last` records the serial number of the latest connection given to the slot. */
  datatype Slot = Slot(occupied: bool, queue: Option<nat>, worker: Worker, last: Option<nat>)

  datatype Acceptor = Listening | Claimed(slot: nat) | Admitted(slot: nat) | Counted(slot: nat)
                    | Made(slot: nat, serial: nat) | Uncounting(slot: nat) | Refused(slot: nat)

  datatype Registration = Registration(slot: nat, serial: nat)

  datatype State = State(slots: seq<Slot>, acceptor: Acceptor, sessions: seq<Registration>, active: int, next: nat)

  const FREE := Slot(false, None, Waiting, None)
  const INITIAL := State([FREE, FREE, FREE, FREE], Listening, [], 0, 1)

  datatype Step =
    | Claim | Reject | Reserve(ok: bool) | Count | Make | Dispatch | DispatchFails | Uncount | Unclaim
    | Receive(i: nat) | Register(i: nat) | Unregister(i: nat) | ReleaseSlot(i: nat) | Discount(i: nat) | Delete(i: nat)

  // ----- Transitions -----

  /** The first free slot, or the number of slots. */
  function FirstFree(slots: seq<Slot>): (n: nat)
    ensures n <= |slots| && (n < |slots| ==> !slots[n].occupied)
    ensures forall k :: 0 <= k < n ==> slots[k].occupied
  {
    if slots == [] || !slots[0].occupied then 0 else 1 + FirstFree(slots[1..])
  }

  /** Whether the worker of a slot stands where it takes this step. */
  predicate Permits(slot: Slot, step: Step) {
    match step
    case Receive(_) => slot.worker.Waiting? && slot.queue.Some?
    case Register(_) => slot.worker.Starting?
    case Unregister(_) => slot.worker.Serving?
    case ReleaseSlot(_) => slot.worker.Leaving?
    case Discount(_) => slot.worker.Released?
    case Delete(_) => slot.worker.Discounted?
    case _ => false
  }

  predicate ByWorker(step: Step) {
    step.Receive? || step.Register? || step.Unregister? || step.ReleaseSlot? || step.Discount? || step.Delete?
  }

  predicate Enabled(s: State, step: Step) {
    match step
    case Claim => s.acceptor.Listening? && FirstFree(s.slots) < |s.slots|
    case Reject => s.acceptor.Listening? && FirstFree(s.slots) == |s.slots|
    case Reserve(_) => s.acceptor.Claimed?
    case Count => s.acceptor.Admitted?
    case Make => s.acceptor.Counted? && s.acceptor.slot < |s.slots|
    case Dispatch => s.acceptor.Made? && s.acceptor.slot < |s.slots| && s.slots[s.acceptor.slot].queue.None?
    case DispatchFails => s.acceptor.Made? && s.acceptor.slot < |s.slots| && s.slots[s.acceptor.slot].queue.Some?
    case Uncount => s.acceptor.Uncounting?
    case Unclaim => s.acceptor.Refused? && s.acceptor.slot < |s.slots|
    case _ => step.i < |s.slots| && Permits(s.slots[step.i], step)
  }

  /** What a worker's step does to its slot. */
  function Work(slot: Slot, step: Step): Slot
    requires Permits(slot, step)
  {
    match step
    case Receive(_) => slot.(queue := None, worker := Starting(slot.queue.value))
    case Register(_) => slot.(worker := Serving(slot.worker.serial))
    case Unregister(_) => slot.(worker := Leaving(slot.worker.serial))
    case ReleaseSlot(_) => slot.(occupied := false, worker := Released(slot.worker.serial))
    case Discount(_) => slot.(worker := Discounted(slot.worker.serial))
    case _ => slot.(worker := Waiting)
  }

  /** The registry without one session. */
  function Without(sessions: seq<Registration>, gone: Registration): (r: seq<Registration>)
    ensures forall x :: x in r <==> x in sessions && x != gone
  {
    if sessions == [] then []
    else
      var rest := Without(sessions[1..], gone);
      if sessions[0] == gone then rest else [sessions[0]] + rest
  }

  function Apply(s: State, step: Step): State
    requires Enabled(s, step)
  {
    match step
    case Claim =>
      var n := FirstFree(s.slots);
      s.(slots := s.slots[n := s.slots[n].(occupied := true)], acceptor := Claimed(n))
    case Reject => s
    case Reserve(ok) => s.(acceptor := if ok then Admitted(s.acceptor.slot) else Refused(s.acceptor.slot))
    case Count => s.(active := s.active + 1, acceptor := Counted(s.acceptor.slot))
    case Make =>
      var n := s.acceptor.slot;
      s.(slots := s.slots[n := s.slots[n].(last := Some(s.next))], acceptor := Made(n, s.next), next := s.next + 1)
    case Dispatch =>
      var n := s.acceptor.slot;
      s.(slots := s.slots[n := s.slots[n].(queue := Some(s.acceptor.serial))], acceptor := Listening)
    case DispatchFails => s.(acceptor := Uncounting(s.acceptor.slot))
    case Uncount => s.(active := s.active - 1, acceptor := Refused(s.acceptor.slot))
    case Unclaim =>
      var n := s.acceptor.slot;
      s.(slots := s.slots[n := s.slots[n].(occupied := false)], acceptor := Listening)
    case Register(i) =>
      s.(slots := s.slots[i := Work(s.slots[i], step)],
         sessions := s.sessions + [Registration(i, s.slots[i].worker.serial)])
    case Unregister(i) =>
      s.(slots := s.slots[i := Work(s.slots[i], step)],
         sessions := Without(s.sessions, Registration(i, s.slots[i].worker.serial)))
    case Discount(i) => s.(slots := s.slots[i := Work(s.slots[i], step)], active := s.active - 1)
    case _ => s.(slots := s.slots[step.i := Work(s.slots[step.i], step)])
  }

  // ----- Runs -----

  predicate Legal(steps: seq<Step>)
    decreases |steps|, 0
  {
    steps == [] ||
    (Legal(steps[..|steps| - 1]) && Enabled(After(steps[..|steps| - 1]), steps[|steps| - 1]))
  }

  function After(steps: seq<Step>): State
    requires Legal(steps)
    decreases |steps|, 1
  {
    if steps == [] then INITIAL else Apply(After(steps[..|steps| - 1]), steps[|steps| - 1])
  }

  // ----- The invariant -----

  function One(b: bool): nat { if b then 1 else 0 }

  predicate Claims(a: Acceptor, i: nat) { !a.Listening? && a.slot == i }

  /** The worker has a connection and has not given up the slot. */
  predicate Busy(w: Worker) { w.Starting? || w.Serving? || w.Leaving? }

  /** An occupied slot has exactly one owner, and the owner's connection is the slot's latest. */
  predicate SlotSound(slot: Slot, a: Acceptor, i: nat, next: nat) {
    && One(slot.occupied) == One(Claims(a, i)) + One(slot.queue.Some?) + One(Busy(slot.worker))
    && (slot.queue.Some? ==> slot.last == slot.queue)
    && (Busy(slot.worker) ==> slot.last == Some(slot.worker.serial))
    && (a.Made? && a.slot == i ==> slot.last == Some(a.serial))
    && (slot.last.Some? ==> slot.last.value < next)
  }

  predicate SlotsSound(s: State) {
    && |s.slots| == MAXIMUM_CLIENTS
    && (!s.acceptor.Listening? ==> s.acceptor.slot < MAXIMUM_CLIENTS)
    && forall i :: 0 <= i < MAXIMUM_CLIENTS ==> SlotSound(s.slots[i], s.acceptor, i, s.next)
  }

  predicate DistinctSlots(sessions: seq<Registration>) {
    sessions == [] ||
    ((forall r :: r in sessions[1..] ==> r.slot != sessions[0].slot) && DistinctSlots(sessions[1..]))
  }

  /** The registry holds exactly the sessions being served, one for each such slot. */
  predicate RegistrySound(slots: seq<Slot>, sessions: seq<Registration>) {
    && (forall r :: r in sessions ==> r.slot < |slots| && slots[r.slot].worker == Serving(r.serial))
    && (forall i :: 0 <= i < |slots| && slots[i].worker.Serving? ==>
          Registration(i, slots[i].worker.serial) in sessions)
    && DistinctSlots(sessions)
  }

  /** Contexts of a slot that are counted in the number of active clients. */
  function Load(slot: Slot): nat { One(slot.queue.Some?) + One(Busy(slot.worker) || slot.worker.Released?) }

  function Loads(slots: seq<Slot>): nat {
    if slots == [] then 0 else Load(slots[0]) + Loads(slots[1..])
  }

  predicate CountSound(s: State) {
    s.active == Loads(s.slots) + One(s.acceptor.Counted? || s.acceptor.Made? || s.acceptor.Uncounting?)
  }

  predicate Invariant(s: State) { SlotsSound(s) && RegistrySound(s.slots, s.sessions) && CountSound(s) }

  lemma WorkKeepsSound(slot: Slot, step: Step, a: Acceptor, i: nat, next: nat)
    requires Permits(slot, step) && SlotSound(slot, a, i, next)
    ensures SlotSound(Work(slot, step), a, i, next)
    ensures Load(Work(slot, step)) == Load(slot) - One(step.Discount?)
    ensures Work(slot, step).worker.Serving? <==> step.Register?
    ensures step.Register? ==> slot.worker.Starting? && Work(slot, step).worker.serial == slot.worker.serial
    ensures slot.worker.Serving? <==> step.Unregister?
  {
  }

  lemma StepKeepsSlots(s: State, step: Step)
    requires SlotsSound(s) && Enabled(s, step)
    ensures SlotsSound(Apply(s, step))
  {
    hide Work, Permits;
    if ByWorker(step) {
      WorkKeepsSound(s.slots[step.i], step, s.acceptor, step.i, s.next);
    }
  }

  /** Dispatch to a slot queue never fails. */
  lemma DispatchNeverFails(s: State)
    requires SlotsSound(s)
    ensures !Enabled(s, DispatchFails)
  {
    if s.acceptor.Made? {
      assert SlotSound(s.slots[s.acceptor.slot], s.acceptor, s.acceptor.slot, s.next);
    }
  }

  lemma StepKeepsRegistry(s: State, step: Step)
    requires Invariant(s) && Enabled(s, step)
    ensures RegistrySound(Apply(s, step).slots, Apply(s, step).sessions)
  {
    hide Work, Permits, SlotSound, DistinctSlots, CountSound;
    if ByWorker(step) {
      WorkKeepsSound(s.slots[step.i], step, s.acceptor, step.i, s.next);
    }
    if step.Register? {
      AppendKeepsDistinct(s.sessions, Registration(step.i, s.slots[step.i].worker.serial));
    } else if step.Unregister? {
      WithoutKeepsDistinct(s.sessions, Registration(step.i, s.slots[step.i].worker.serial));
    }
  }

  lemma {:induction false} WithoutKeepsDistinct(sessions: seq<Registration>, gone: Registration)
    requires DistinctSlots(sessions)
    ensures DistinctSlots(Without(sessions, gone))
  {
    if sessions != [] {
      WithoutKeepsDistinct(sessions[1..], gone);
      var rest := Without(sessions[1..], gone);
      assert Without(sessions, gone) == rest || Without(sessions, gone)[1..] == rest;
    }
  }

  lemma {:induction false} AppendKeepsDistinct(sessions: seq<Registration>, r: Registration)
    requires DistinctSlots(sessions) && forall x :: x in sessions ==> x.slot != r.slot
    ensures DistinctSlots(sessions + [r])
  {
    if sessions == [] {
      assert (sessions + [r])[1..] == [];
    } else {
      AppendKeepsDistinct(sessions[1..], r);
      assert (sessions + [r])[1..] == sessions[1..] + [r];
    }
  }

  lemma {:induction false} LoadsUpdate(slots: seq<Slot>, i: nat, slot: Slot)
    requires i < |slots|
    ensures Loads(slots[i := slot]) == Loads(slots) - Load(slots[i]) + Load(slot)
  {
    var changed := slots[i := slot];
    if i == 0 {
      assert changed[1..] == slots[1..];
    } else {
      assert changed[1..] == slots[1..][i - 1 := slot];
      LoadsUpdate(slots[1..], i - 1, slot);
    }
  }

  lemma StepKeepsCount(s: State, step: Step)
    requires Invariant(s) && Enabled(s, step)
    ensures CountSound(Apply(s, step))
  {
    hide Loads, RegistrySound, Permits, Work, FirstFree;
    var t := Apply(s, step);
    if ByWorker(step) {
      WorkKeepsSound(s.slots[step.i], step, s.acceptor, step.i, s.next);
      LoadsUpdate(s.slots, step.i, t.slots[step.i]);
    } else if step.Claim? {
      var n := FirstFree(s.slots);
      LoadsUpdate(s.slots, n, t.slots[n]);
    } else if step.Make? || step.Dispatch? || step.Unclaim? {
      LoadsUpdate(s.slots, s.acceptor.slot, t.slots[s.acceptor.slot]);
    }
  }

  lemma {:induction false} Always(steps: seq<Step>)
    requires Legal(steps)
    ensures Invariant(After(steps))
    decreases |steps|
  {
    hide Apply, Enabled, SlotsSound, RegistrySound, CountSound;
    if steps == [] {
      Initially();
    } else {
      var before, step := After(steps[..|steps| - 1]), steps[|steps| - 1];
      Always(steps[..|steps| - 1]);
      StepKeepsSlots(before, step);
      StepKeepsRegistry(before, step);
      StepKeepsCount(before, step);
    }
  }

  lemma LoadsOfFour(slots: seq<Slot>)
    requires |slots| == MAXIMUM_CLIENTS
    ensures Loads(slots) == Load(slots[0]) + Load(slots[1]) + Load(slots[2]) + Load(slots[3])
  {
    var one, two, three := slots[1..], slots[2..], slots[3..];
    hide Load;
    assert one[1..] == two && two[1..] == three && three[1..] == [];
    assert Loads(three) == Load(slots[3]);
    assert Loads(two) == Load(slots[2]) + Loads(three);
  }

  lemma Initially()
    ensures Invariant(INITIAL)
  {
    hide Loads;
    LoadsOfFour(INITIAL.slots);
  }
}
