/**
 The access-point persistence protocol: requesters that may time out share a reference-counted job
 with one worker. Every atomic operation on the queue, the semaphore, the reference count or the
 job's memory is one step; a run is any interleaving of steps.
 */
module PersistenceJobs {
  import opened Bytes

  const WAITING_CAPACITY: nat := 4

  /** Where a requester stands; the result is what it will return or has returned. */
  datatype Requester = Created | Ready | Refused | Waiting | Reading
                     | Releasing(result: bool) | Deleting(result: bool) | Done(result: bool)

  /** Where the job stands on the worker's side. */
  datatype Stage = Unsent | Queued | Writing | Signalling | Dropping | Clearing | Finished

  /**
   `outcome` records what the worker's write of this very job gave; `succeeded` is the field the
   requester reads. `freed` counts deletions.
   */
  datatype Job = Job(requester: Requester, stage: Stage, references: nat, signalled: bool,
                     succeeded: bool, outcome: Option<bool>, freed: nat)

  /** `sent` and `taken` are the histories of the queue. */
  datatype State = State(jobs: seq<Job>, queue: seq<nat>, worker: Option<nat>, sent: seq<nat>, taken: seq<nat>)

  const NEW := Job(Created, Unsent, 2, false, false, None, 0)

  const INITIAL := State([], [], None, [], [])

  datatype Step =
    | Allocate
    | CreateSemaphore(j: nat, ok: bool)
    | Send(j: nat)
    | RefuseAdmission(j: nat)
    | StoreOne(j: nat)
    | TakeSemaphore(j: nat)
    | GiveUp(j: nat)
    | ReadResult(j: nat)
    | Release(j: nat)
    | Delete(j: nat)
    | WorkerReceive
    | WorkerWrite(ok: bool)
    | WorkerGive
    | WorkerRelease
    | WorkerDelete

  // ----- Transitions -----

  /** Whether the requester of a job stands where it takes this step. */
  predicate Permits(job: Job, step: Step) {
    match step
    case CreateSemaphore(_, _) => job.requester.Created?
    case Send(_) => job.requester.Ready?
    case RefuseAdmission(_) => job.requester.Ready?
    case StoreOne(_) => job.requester.Refused?
    case TakeSemaphore(_) => job.requester.Waiting? && job.signalled
    case GiveUp(_) => job.requester.Waiting?
    case ReadResult(_) => job.requester.Reading?
    case Release(_) => job.requester.Releasing? && job.references > 0
    case Delete(_) => job.requester.Deleting?
    case _ => false
  }

  predicate WorkerAt(s: State, stage: Stage) {
    s.worker.Some? && s.worker.value < |s.jobs| && s.jobs[s.worker.value].stage == stage
  }

  predicate Enabled(s: State, step: Step) {
    match step
    case Allocate => true
    case WorkerReceive => s.worker.None? && s.queue != [] && s.queue[0] < |s.jobs|
    case WorkerWrite(_) => WorkerAt(s, Writing)
    case WorkerGive => WorkerAt(s, Signalling)
    case WorkerRelease => WorkerAt(s, Dropping) && s.jobs[s.worker.value].references > 0
    case WorkerDelete => WorkerAt(s, Clearing)
    case Send(j) => j < |s.jobs| && Permits(s.jobs[j], step) && |s.queue| < WAITING_CAPACITY
    case _ => step.j < |s.jobs| && Permits(s.jobs[step.j], step)
  }

  /** The job whose memory or semaphore a step uses. */
  function Touched(s: State, step: Step): Option<nat> {
    match step
    case Allocate => None
    case WorkerReceive => None
    case WorkerWrite(_) => s.worker
    case WorkerGive => s.worker
    case WorkerRelease => s.worker
    case WorkerDelete => s.worker
    case _ => Some(step.j)
  }

  /** The change of one job by the requester that owns it. */
  function Request(job: Job, step: Step): Job {
    match step
    case CreateSemaphore(_, ok) => job.(requester := if ok then Ready else Refused)
    case Send(_) => job.(requester := Waiting, stage := Queued)
    case RefuseAdmission(_) => job.(requester := Refused)
    case StoreOne(_) => job.(references := 1, requester := Releasing(false))
    case TakeSemaphore(_) => job.(signalled := false, requester := Reading)
    case GiveUp(_) => job.(requester := Releasing(false))
    case ReadResult(_) => job.(requester := Releasing(job.succeeded))
    case Release(_) =>
      if job.requester.Releasing? && job.references > 0 then
        job.(references := job.references - 1,
             requester := if job.references == 1 then Deleting(job.requester.result) else Done(job.requester.result))
      else job
    case Delete(_) =>
      if job.requester.Deleting? then job.(freed := job.freed + 1, requester := Done(job.requester.result)) else job
    case _ => job
  }

  /** The change of the job that the worker holds. */
  function Work(job: Job, step: Step): Job {
    match step
    case WorkerReceive => job.(stage := Writing)
    case WorkerWrite(ok) => job.(succeeded := ok, outcome := Some(ok), stage := Signalling)
    case WorkerGive => job.(signalled := true, stage := Dropping)
    case WorkerRelease =>
      if job.references > 0 then
        job.(references := job.references - 1, stage := if job.references == 1 then Clearing else Finished)
      else job
    case WorkerDelete => job.(freed := job.freed + 1, stage := Finished)
    case _ => job
  }

  function Apply(s: State, step: Step): State
    requires Enabled(s, step)
  {
    match step
    case Allocate => s.(jobs := s.jobs + [NEW])
    case Send(j) => s.(jobs := s.jobs[j := Request(s.jobs[j], step)], queue := s.queue + [j], sent := s.sent + [j])
    case WorkerReceive =>
      var j := s.queue[0];
      s.(jobs := s.jobs[j := Work(s.jobs[j], step)], queue := s.queue[1..], worker := Some(j), taken := s.taken + [j])
    case WorkerWrite(_) => WorkerStep(s, step)
    case WorkerGive => WorkerStep(s, step)
    case WorkerRelease => WorkerStep(s, step)
    case WorkerDelete => WorkerStep(s, step)
    case _ => s.(jobs := s.jobs[step.j := Request(s.jobs[step.j], step)])
  }

  function WorkerStep(s: State, step: Step): State
    requires s.worker.Some? && s.worker.value < |s.jobs|
  {
    var j := s.worker.value;
    var job := Work(s.jobs[j], step);
    s.(jobs := s.jobs[j := job], worker := if job.stage == Finished then None else s.worker)
  }

  // ----- Runs -----

  predicate Legal(steps: seq<Step>)
    decreases |steps|, 0
  {
    steps == [] ||
    (Legal(steps[..|steps| - 1]) && Enabled(After(steps[..|steps| - 1]), steps[|steps| - 1]))
  }

  function After(steps: seq<Step>): State
    requires Legal(steps)
    decreases |steps|, 1
  {
    if steps == [] then INITIAL else Apply(After(steps[..|steps| - 1]), steps[|steps| - 1])
  }

  // ----- The invariant -----

  function Held(b: bool): nat { if b then 1 else 0 }

  predicate RequesterHolds(r: Requester) { r.Waiting? || r.Reading? || r.Releasing? }

  predicate WorkerHolds(stage: Stage) { stage in {Queued, Writing, Signalling, Dropping} }

  predicate Worked(stage: Stage) { stage in {Signalling, Dropping, Clearing, Finished} }

  predicate Given(stage: Stage) { stage in {Dropping, Clearing, Finished} }

  function Result(r: Requester): bool { (r.Releasing? || r.Deleting? || r.Done?) && r.result }

  /** The reference count is the number of holders, and the last one to let go frees the job. */
  predicate Counted(job: Job) {
    && (if job.requester in {Created, Ready, Refused} then job.references == 2 && job.stage == Unsent
        else job.references == Held(RequesterHolds(job.requester)) + Held(WorkerHolds(job.stage)))
    && job.freed + Held(job.requester.Deleting?) + Held(job.stage == Clearing) == Held(job.references == 0)
    && (job.stage == Unsent ==> !job.requester.Waiting? && !job.requester.Reading?)
  }

  /** What the requester can learn comes from the worker's write of this job. */
  predicate Truthful(job: Job) {
    && (job.outcome.Some? <==> Worked(job.stage))
    && (job.succeeded <==> job.outcome == Some(true))
    && (job.signalled || job.requester.Reading? ==> Given(job.stage))
    && (job.requester.Reading? ==> !job.signalled)
    && (Result(job.requester) ==> job.outcome == Some(true))
  }

  predicate Sound(job: Job) { Counted(job) && Truthful(job) }

  predicate Active(stage: Stage) { stage in {Writing, Signalling, Dropping, Clearing} }

  predicate Linked(s: State) {
    && |s.queue| <= WAITING_CAPACITY
    && (forall i :: 0 <= i < |s.queue| ==> s.queue[i] < |s.jobs|)
    && (forall i, k :: 0 <= i < k < |s.queue| ==> s.queue[i] != s.queue[k])
    && (forall j :: 0 <= j < |s.jobs| ==> (s.jobs[j].stage == Queued <==> j in s.queue))
    && (forall j :: 0 <= j < |s.jobs| ==> (Active(s.jobs[j].stage) <==> s.worker == Some(j)))
    && (s.worker.Some? ==> s.worker.value < |s.jobs|)
    && s.sent == s.taken + s.queue
  }

  predicate AllSound(s: State) { forall j :: 0 <= j < |s.jobs| ==> Sound(s.jobs[j]) }

  predicate Invariant(s: State) { Linked(s) && AllSound(s) }

  /** The stage in which the worker takes each of its steps. */
  function Expected(step: Step): Stage {
    match step
    case WorkerReceive => Queued
    case WorkerWrite(_) => Writing
    case WorkerGive => Signalling
    case WorkerRelease => Dropping
    case _ => Clearing
  }

  predicate ByWorker(step: Step) {
    step.WorkerReceive? || step.WorkerWrite? || step.WorkerGive? || step.WorkerRelease? || step.WorkerDelete?
  }

  predicate ByRequester(step: Step) { !ByWorker(step) && !step.Allocate? }

  lemma RequestKeepsSound(job: Job, step: Step)
    requires Permits(job, step) && Sound(job)
    ensures Sound(Request(job, step))
    ensures Measure(Request(job, step)) < Measure(job)
    ensures Request(job, step).stage == if step.Send? then Queued else job.stage
    ensures step.Send? ==> job.stage == Unsent
  {
    hide Measure, Counted, Truthful;
    RequestKeepsCount(job, step);
    RequestKeepsTruth(job, step);
    RequestSpends(job, step);
  }

  lemma RequestKeepsCount(job: Job, step: Step)
    requires Permits(job, step) && Counted(job)
    ensures Counted(Request(job, step))
    ensures Request(job, step).stage == if step.Send? then Queued else job.stage
    ensures step.Send? ==> job.stage == Unsent
  {
  }

  lemma RequestKeepsTruth(job: Job, step: Step)
    requires Permits(job, step) && Counted(job) && Truthful(job)
    ensures Truthful(Request(job, step))
  {
    hide Measure;
    assert step.Send? ==> job.stage == Unsent;
  }

  lemma RequestSpends(job: Job, step: Step)
    requires Permits(job, step) && Counted(job)
    ensures Measure(Request(job, step)) < Measure(job)
  {
    assert step.Send? ==> job.stage == Unsent;
  }

  lemma WorkKeepsSound(job: Job, step: Step)
    requires Sound(job) && ByWorker(step) && job.stage == Expected(step)
    ensures Sound(Work(job, step))
    ensures Measure(Work(job, step)) < Measure(job)
    ensures Active(Work(job, step).stage) || Work(job, step).stage == Finished
    ensures step.WorkerReceive? ==> Active(Work(job, step).stage)
  {
    hide Measure, Counted, Truthful;
    WorkKeepsCount(job, step);
    WorkKeepsTruth(job, step);
    WorkSpends(job, step);
  }

  lemma WorkKeepsCount(job: Job, step: Step)
    requires Counted(job) && ByWorker(step) && job.stage == Expected(step)
    ensures Counted(Work(job, step))
    ensures step.WorkerRelease? ==> job.references > 0
  {
  }

  lemma WorkKeepsTruth(job: Job, step: Step)
    requires Counted(job) && Truthful(job) && ByWorker(step) && job.stage == Expected(step)
    ensures Truthful(Work(job, step))
  {
  }

  lemma WorkSpends(job: Job, step: Step)
    requires Counted(job) && ByWorker(step) && job.stage == Expected(step)
    ensures Measure(Work(job, step)) < Measure(job)
    ensures Active(Work(job, step).stage) || Work(job, step).stage == Finished
    ensures step.WorkerReceive? ==> Active(Work(job, step).stage)
  {
  }

  lemma StepKeepsSound(s: State, step: Step)
    requires Invariant(s) && Enabled(s, step)
    ensures AllSound(Apply(s, step))
  {
    hide Sound, Request, Work, Measure;
    if ByRequester(step) {
      RequestKeepsSound(s.jobs[step.j], step);
    } else if step.WorkerReceive? {
      WorkKeepsSound(s.jobs[s.queue[0]], step);
    } else if ByWorker(step) {
      WorkKeepsSound(s.jobs[s.worker.value], step);
    } else {
      NewIsSound();
    }
  }

  lemma NewIsSound()
    ensures Sound(NEW)
  {
  }

  lemma StepKeepsLinked(s: State, step: Step)
    requires Invariant(s) && Enabled(s, step)
    ensures Linked(Apply(s, step))
  {
    hide Sound, Request, Work, Linked, Measure;
    if step.Send? {
      SendKeepsLinked(s, step);
    } else if ByRequester(step) {
      RequestKeepsSound(s.jobs[step.j], step);
      SameStageKeepsLinked(s, step.j, Request(s.jobs[step.j], step));
    } else if step.WorkerReceive? {
      ReceiveKeepsLinked(s, step);
    } else if ByWorker(step) {
      WorkKeepsLinked(s, step);
    } else {
      AllocateKeepsLinked(s);
    }
  }

  lemma SameStageKeepsLinked(s: State, j: nat, job: Job)
    requires Linked(s) && j < |s.jobs| && job.stage == s.jobs[j].stage
    ensures Linked(s.(jobs := s.jobs[j := job]))
  {
  }

  lemma AllocateKeepsLinked(s: State)
    requires Linked(s)
    ensures Linked(s.(jobs := s.jobs + [NEW]))
  {
  }

  lemma SendKeepsLinked(s: State, step: Step)
    requires Invariant(s) && Enabled(s, step) && step.Send?
    ensures Linked(Apply(s, step))
  {
    hide Sound, Request, Measure;
    RequestKeepsSound(s.jobs[step.j], step);
    var t := Apply(s, step);
    assert t.sent == t.taken + t.queue;
    forall j | 0 <= j < |t.jobs| ensures t.jobs[j].stage == Queued <==> j in t.queue {
      assert j in t.queue <==> j in s.queue || j == step.j;
    }
  }

  lemma ReceiveKeepsLinked(s: State, step: Step)
    requires Invariant(s) && Enabled(s, step) && step.WorkerReceive?
    ensures Linked(Apply(s, step))
  {
    hide Sound, Work, Measure;
    var first := s.queue[0];
    var t := Apply(s, step);
    WorkKeepsSound(s.jobs[first], step);
    FirstLeaves(s.queue);
    assert t.sent == t.taken + t.queue;
  }

  lemma FirstLeaves(queue: seq<nat>)
    requires queue != [] && forall i, k :: 0 <= i < k < |queue| ==> queue[i] != queue[k]
    ensures queue == [queue[0]] + queue[1..]
    ensures forall j :: j in queue[1..] <==> j in queue && j != queue[0]
    ensures forall i, k :: 0 <= i < k < |queue[1..]| ==> queue[1..][i] != queue[1..][k]
  {
    forall j ensures j in queue[1..] <==> j in queue && j != queue[0] {
      assert j in queue <==> j == queue[0] || j in queue[1..];
    }
  }

  lemma WorkKeepsLinked(s: State, step: Step)
    requires Invariant(s) && Enabled(s, step) && ByWorker(step) && !step.WorkerReceive?
    ensures Linked(Apply(s, step))
  {
    hide Sound, Work, Measure;
    WorkKeepsSound(s.jobs[s.worker.value], step);
  }

  lemma {:induction false} Always(steps: seq<Step>)
    requires Legal(steps)
    ensures Invariant(After(steps))
    decreases |steps|
  {
    hide Apply, Enabled, Linked, AllSound;
    if steps == [] {
      Initially();
    } else {
      Always(steps[..|steps| - 1]);
      StepKeepsSound(After(steps[..|steps| - 1]), steps[|steps| - 1]);
      StepKeepsLinked(After(steps[..|steps| - 1]), steps[|steps| - 1]);
    }
  }

  lemma Initially()
    ensures Invariant(INITIAL)
  {
  }

  // ----- What holds over every run -----

  /** No step ever uses the memory or the semaphore of a job that has been freed. */
  lemma NoUseAfterFree(steps: seq<Step>, step: Step)
    requires Legal(steps) && Enabled(After(steps), step)
    ensures var s := After(steps);
            var j := Touched(s, step);
            j.Some? ==> j.value < |s.jobs| && s.jobs[j.value].freed == 0
  {
    hide Legal, After;
    Always(steps);
    var s := After(steps);
    if ByRequester(step) {
      HolderKeepsAlive(s.jobs[step.j]);
    } else if s.worker.Some? {
      HolderKeepsAlive(s.jobs[s.worker.value]);
    }
  }

  lemma HolderKeepsAlive(job: Job)
    requires Sound(job)
    ensures !job.requester.Done? || Active(job.stage) ==> job.freed == 0
  {
  }

  /** The worker, with job `j` in hand, wrote it with success or failure `ok`. */
  ghost predicate Wrote(steps: seq<Step>, j: nat, ok: bool) {
    exists k :: 0 <= k < |steps| && WritesAt(steps, k, j, ok)
  }

  predicate WritesAt(steps: seq<Step>, k: nat, j: nat, ok: bool)
    requires k < |steps|
  {
    steps[k] == WorkerWrite(ok) && Legal(steps[..k]) && After(steps[..k]).worker == Some(j)
  }

  lemma WroteNext(steps: seq<Step>, step: Step, j: nat, ok: bool)
    requires Legal(steps)
    ensures Wrote(steps + [step], j, ok) <==>
            Wrote(steps, j, ok) || (step == WorkerWrite(ok) && After(steps).worker == Some(j))
  {
    hide Legal, After;
    var more := steps + [step];
    assert more[..|steps|] == steps;
    forall k | 0 <= k < |steps| ensures WritesAt(more, k, j, ok) == WritesAt(steps, k, j, ok) {
      assert more[..k] == steps[..k];
    }
    if Wrote(steps, j, ok) {
      var k :| 0 <= k < |steps| && WritesAt(steps, k, j, ok);
      assert WritesAt(more, k, j, ok);
    }
    if step == WorkerWrite(ok) && After(steps).worker == Some(j) { assert WritesAt(more, |steps|, j, ok); }
  }

  lemma StepKeepsOutcome(s: State, step: Step, j: nat)
    requires Invariant(s) && Enabled(s, step)
    ensures var written := step.WorkerWrite? && s.worker == Some(j);
            && (written ==> j < |s.jobs| && s.jobs[j].outcome.None?)
            && |s.jobs| <= |Apply(s, step).jobs|
            && (j < |s.jobs| ==>
                Apply(s, step).jobs[j].outcome == if written then Some(step.ok) else s.jobs[j].outcome)
            && (|s.jobs| <= j < |Apply(s, step).jobs| ==> Apply(s, step).jobs[j].outcome.None?)
  {
    hide Counted, Measure;
    if step.WorkerWrite? { assert Sound(s.jobs[s.worker.value]); }
  }

  /** The recorded outcome of a job is that of the write the worker did while it had the job in hand. */
  lemma {:induction false} OutcomeExactly(steps: seq<Step>, j: nat, ok: bool)
    requires Legal(steps)
    ensures Wrote(steps, j, ok) <==> j < |After(steps).jobs| && After(steps).jobs[j].outcome == Some(ok)
    decreases |steps|
  {
    hide Enabled, Apply, Linked, AllSound, Wrote;
    if steps == [] {
      NothingWritten(j, ok);
    } else {
      var shorter, step := steps[..|steps| - 1], steps[|steps| - 1];
      assert steps == shorter + [step];
      OutcomeExactly(shorter, j, ok);
      WroteNext(shorter, step, j, ok);
      Always(shorter);
      StepKeepsOutcome(After(shorter), step, j);
      Always(steps);
    }
  }

  lemma NothingWritten(j: nat, ok: bool)
    ensures !Wrote([], j, ok)
  {
  }

  /** A requester that returned true asked for something whose write, by the worker, succeeded. */
  lemma TrueMeansWritten(steps: seq<Step>, j: nat)
    requires Legal(steps) && j < |After(steps).jobs|
    ensures After(steps).jobs[j].requester == Done(true) ==> Wrote(steps, j, true) && !Wrote(steps, j, false)
    ensures After(steps).jobs[j].freed <= 1
  {
    hide Legal, After, Wrote;
    Always(steps);
    assert Sound(After(steps).jobs[j]);
    OutcomeExactly(steps, j, true);
    OutcomeExactly(steps, j, false);
  }

  /** What a requester's answer says, given whether it took the semaphore. */
  predicate Told(job: Job, took: bool) {
    && (took ==> Worked(job.stage))
    && (job.requester.Reading? ==> took)
    && (job.requester in {Created, Ready, Refused, Waiting} ==> !took)
    && (job.requester.Releasing? || job.requester.Deleting? || job.requester.Done? ==>
          (Result(job.requester) <==> took && job.outcome == Some(true)))
  }

  lemma RequestKeepsTold(job: Job, step: Step, took: bool)
    requires Permits(job, step) && Truthful(job) && Told(job, took)
    ensures Told(Request(job, step), took || step.TakeSemaphore?)
  {
  }

  lemma WorkKeepsTold(job: Job, step: Step, took: bool)
    requires Truthful(job) && ByWorker(step) && job.stage == Expected(step) && Told(job, took)
    ensures Told(Work(job, step), took)
  {
  }

  lemma StepKeepsTold(s: State, step: Step, j: nat, took: bool)
    requires Invariant(s) && Enabled(s, step)
    requires j < |s.jobs| && Told(s.jobs[j], took)
    ensures j < |Apply(s, step).jobs| && Told(Apply(s, step).jobs[j], took || step == TakeSemaphore(j))
  {
    hide Request, Work, Told, Counted, Truthful, Measure;
    assert Sound(s.jobs[j]);
    if ByRequester(step) {
      if step.j == j { RequestKeepsTold(s.jobs[j], step, took); }
    } else if step.WorkerReceive? {
      if s.queue[0] == j { WorkKeepsTold(s.jobs[j], step, took); }
    } else if ByWorker(step) && s.worker.value == j {
      WorkKeepsTold(s.jobs[j], step, took);
    }
  }

  lemma {:induction false} ToldAlways(steps: seq<Step>, j: nat)
    requires Legal(steps)
    ensures j < |After(steps).jobs| ==> Told(After(steps).jobs[j], TakeSemaphore(j) in steps)
    ensures TakeSemaphore(j) in steps ==> j < |After(steps).jobs|
    decreases |steps|
  {
    hide Enabled, Linked, AllSound, Told, Request, Work;
    if steps != [] {
      var shorter, step := steps[..|steps| - 1], steps[|steps| - 1];
      assert steps == shorter + [step];
      var s := After(shorter);
      ToldAlways(shorter, j);
      Always(shorter);
      if j < |s.jobs| {
        StepKeepsTold(s, step, j, TakeSemaphore(j) in shorter);
      } else {
        NewcomerTold(s, step, j);
      }
    }
  }

  lemma NewcomerTold(s: State, step: Step, j: nat)
    requires Enabled(s, step) && j >= |s.jobs|
    ensures j < |Apply(s, step).jobs| ==> Told(Apply(s, step).jobs[j], false)
    ensures step != TakeSemaphore(j)
  {
  }

  /**
   A requester that has returned says true exactly when it took the semaphore and the worker's write
   succeeded. So a false answer to a successful write is that of a requester that had given up.
   */
  lemma ResultExactly(steps: seq<Step>, j: nat)
    requires Legal(steps) && j < |After(steps).jobs| && After(steps).jobs[j].requester.Done?
    ensures After(steps).jobs[j].requester.result <==> TakeSemaphore(j) in steps && Wrote(steps, j, true)
    ensures Wrote(steps, j, true) ==> (After(steps).jobs[j].requester == Done(false) <==> TakeSemaphore(j) !in steps)
  {
    hide Legal, After, Wrote;
    ToldAlways(steps, j);
    OutcomeExactly(steps, j, true);
  }

  /** At most four jobs are waiting, and a ready requester can send exactly while fewer are. */
  lemma QueueHoldsFour(steps: seq<Step>, j: nat)
    requires Legal(steps) && j < |After(steps).jobs| && After(steps).jobs[j].requester.Ready?
    ensures |After(steps).queue| <= 4
    ensures Enabled(After(steps), Send(j)) <==> |After(steps).queue| < 4
  {
    hide Legal, After, AllSound;
    Always(steps);
  }

  /** A job is ready or has been sent only if it got its semaphore. */
  predicate Equipped(job: Job, equipped: bool) {
    job.requester.Ready? || job.stage != Unsent ==> equipped
  }

  lemma StepKeepsEquipped(s: State, step: Step, j: nat, equipped: bool)
    requires Invariant(s) && Enabled(s, step)
    requires j < |s.jobs| ==> Equipped(s.jobs[j], equipped)
    ensures j < |Apply(s, step).jobs| ==>
            Equipped(Apply(s, step).jobs[j], equipped || step == CreateSemaphore(j, true))
  {
    hide Counted, Truthful, Measure;
    if step.WorkerReceive? { assert s.jobs[s.queue[0]].stage == Queued; }
  }

  /** Only jobs with a semaphore are ever queued, each by its own requester. */
  lemma {:induction false} SentWithSemaphore(steps: seq<Step>, j: nat)
    requires Legal(steps)
    ensures j in After(steps).sent <==> Send(j) in steps
    ensures j in After(steps).sent ==> CreateSemaphore(j, true) in steps
    ensures j < |After(steps).jobs| ==> Equipped(After(steps).jobs[j], CreateSemaphore(j, true) in steps)
    decreases |steps|
  {
    hide Linked, AllSound, Request, Work, Equipped;
    if steps != [] {
      var shorter, step := steps[..|steps| - 1], steps[|steps| - 1];
      assert steps == shorter + [step];
      SentWithSemaphore(shorter, j);
      Always(shorter);
      StepKeepsEquipped(After(shorter), step, j, CreateSemaphore(j, true) in shorter);
      if step == Send(j) { ReadyIsEquipped(After(shorter).jobs[j], CreateSemaphore(j, true) in shorter); }
    }
  }

  lemma ReadyIsEquipped(job: Job, equipped: bool)
    requires Equipped(job, equipped) && job.requester.Ready?
    ensures equipped
  {
  }

  lemma Extend(steps: seq<Step>, step: Step) returns (more: seq<Step>)
    requires Legal(steps) && Enabled(After(steps), step)
    ensures Legal(more) && After(more) == Apply(After(steps), step)
  {
    hide Apply, Enabled;
    more := steps + [step];
    assert more[..|more| - 1] == steps;
  }

  /** A run in which the requester gives up while the worker has its job in hand. */
  lemma GivenUp() returns (steps: seq<Step>)
    ensures Legal(steps)
    ensures After(steps) == State([Job(Releasing(false), Writing, 2, false, false, None, 0)], [], Some(0), [0], [0])
  {
    steps := [];
    assert After(steps) == INITIAL;
    hide Legal, After;
    steps := Extend(steps, Allocate);
    steps := Extend(steps, CreateSemaphore(0, true));
    steps := Extend(steps, Send(0));
    steps := Extend(steps, WorkerReceive);
    steps := Extend(steps, GiveUp(0));
  }

  /** Then the requester is told false although the worker writes what it asked for. */
  lemma WrittenButFalse() returns (steps: seq<Step>)
    ensures Legal(steps) && |After(steps).jobs| == 1
    ensures After(steps).jobs[0].requester == Done(false) && Wrote(steps, 0, true)
  {
    hide Legal, After, Wrote;
    steps := GivenUp();
    steps := Extend(steps, Release(0));
    steps := Extend(steps, WorkerWrite(true));
    OutcomeExactly(steps, 0, true);
  }

  /** Nothing is queued or in hand and every requester has returned. */
  predicate AtRest(s: State) {
    s.queue == [] && s.worker.None? && forall j :: 0 <= j < |s.jobs| ==> s.jobs[j].requester.Done?
  }

  /** At rest every job has been freed exactly once, and the worker took all sent jobs in order. */
  lemma FreedExactlyOnce(steps: seq<Step>)
    requires Legal(steps) && AtRest(After(steps))
    ensures forall j :: 0 <= j < |After(steps).jobs| ==> After(steps).jobs[j].freed == 1
    ensures After(steps).taken == After(steps).sent
  {
    hide Legal, After;
    Always(steps);
    var s := After(steps);
    forall j | 0 <= j < |s.jobs| ensures s.jobs[j].freed == 1 {
      assert Sound(s.jobs[j]) && !Active(s.jobs[j].stage) && s.jobs[j].stage != Queued;
    }
  }

  /** Whatever has happened, something can go on until everything is at rest. */
  lemma NeverStuck(steps: seq<Step>) returns (step: Step)
    requires Legal(steps) && !AtRest(After(steps))
    ensures Enabled(After(steps), step) && !step.Allocate?
  {
    hide Legal, After, Sound, Enabled;
    Always(steps);
    var s := After(steps);
    if s.worker.Some? {
      step := WorkerGoesOn(s);
    } else if s.queue != [] {
      step := WorkerReceive;
      assert Enabled(s, step) by { ReceiveEnabled(s); }
    } else {
      var j: nat :| j < |s.jobs| && !s.jobs[j].requester.Done?;
      step := RequesterGoesOn(s, j);
    }
  }

  lemma ReceiveEnabled(s: State)
    requires s.worker.None? && s.queue != [] && s.queue[0] < |s.jobs|
    ensures Enabled(s, WorkerReceive)
  {
  }

  lemma WorkerGoesOn(s: State) returns (step: Step)
    requires s.worker.Some? && s.worker.value < |s.jobs|
    requires Sound(s.jobs[s.worker.value]) && Active(s.jobs[s.worker.value].stage)
    ensures Enabled(s, step) && !step.Allocate?
  {
    match s.jobs[s.worker.value].stage {
      case Writing => step := WorkerWrite(true);
      case Signalling => step := WorkerGive;
      case Dropping => step := WorkerRelease;
      case _ => step := WorkerDelete;
    }
  }

  lemma RequesterGoesOn(s: State, j: nat) returns (step: Step)
    requires j < |s.jobs| && Sound(s.jobs[j]) && !s.jobs[j].requester.Done?
    ensures Enabled(s, step) && !step.Allocate?
  {
    match s.jobs[j].requester {
      case Created => step := CreateSemaphore(j, true);
      case Ready => step := RefuseAdmission(j);
      case Refused => step := StoreOne(j);
      case Waiting => step := GiveUp(j);
      case Reading => step := ReadResult(j);
      case Releasing(_) => step := Release(j);
      case _ => step := Delete(j);
    }
  }

  // ----- Every run ends -----

  /** An upper bound of the steps that a job has still before it. */
  function Measure(job: Job): nat {
    (match job.requester
     case Created => 6
     case Ready => 5
     case Refused => 4
     case Waiting => 4
     case Reading => 3
     case Releasing(_) => 2
     case Deleting(_) => 1
     case Done(_) => 0) +
    (match job.stage
     case Unsent => 6
     case Queued => 5
     case Writing => 4
     case Signalling => 3
     case Dropping => 2
     case Clearing => 1
     case Finished => 0)
  }

  function Sum(jobs: seq<Job>): nat {
    if jobs == [] then 0 else Measure(jobs[0]) + Sum(jobs[1..])
  }

  lemma {:induction false} SumUpdate(jobs: seq<Job>, j: nat, job: Job)
    requires j < |jobs|
    ensures Sum(jobs[j := job]) == Sum(jobs) - Measure(jobs[j]) + Measure(job)
  {
    var changed := jobs[j := job];
    if j == 0 {
      assert changed[1..] == jobs[1..];
    } else {
      assert changed[1..] == jobs[1..][j - 1 := job];
      SumUpdate(jobs[1..], j - 1, job);
    }
  }

  lemma {:induction false} SumAppend(jobs: seq<Job>, job: Job)
    ensures Sum(jobs + [job]) == Sum(jobs) + Measure(job)
  {
    if jobs == [] {
      assert jobs + [job] == [job] && [job][1..] == [];
    } else {
      assert (jobs + [job])[1..] == jobs[1..] + [job];
      SumAppend(jobs[1..], job);
    }
  }

  lemma StepSpends(s: State, step: Step)
    requires Invariant(s) && Enabled(s, step)
    ensures var t := Apply(s, step);
            if step.Allocate? then |t.jobs| == |s.jobs| + 1 && Sum(t.jobs) == Sum(s.jobs) + 12
            else |t.jobs| == |s.jobs| && Sum(t.jobs) < Sum(s.jobs)
  {
    hide Sound, Request, Work, Sum, Measure;
    if ByRequester(step) {
      RequestKeepsSound(s.jobs[step.j], step);
      SumUpdate(s.jobs, step.j, Request(s.jobs[step.j], step));
    } else if step.WorkerReceive? {
      WorkKeepsSound(s.jobs[s.queue[0]], step);
      SumUpdate(s.jobs, s.queue[0], Work(s.jobs[s.queue[0]], step));
    } else if ByWorker(step) {
      WorkKeepsSound(s.jobs[s.worker.value], step);
      SumUpdate(s.jobs, s.worker.value, Work(s.jobs[s.worker.value], step));
    } else {
      SumAppend(s.jobs, NEW);
      NewMeasure();
    }
  }

  lemma NewMeasure()
    ensures Measure(NEW) == 12
  {
  }

  /** A run takes at most thirteen steps for each job. */
  lemma {:induction false} RunsEnd(steps: seq<Step>)
    requires Legal(steps)
    ensures |steps| + Sum(After(steps).jobs) <= 13 * |After(steps).jobs|
    decreases |steps|
  {
    hide Apply, Enabled, Linked, AllSound, Sum;
    if steps == [] {
      NothingToDo();
    } else {
      RunsEnd(steps[..|steps| - 1]);
      Always(steps[..|steps| - 1]);
      StepSpends(After(steps[..|steps| - 1]), steps[|steps| - 1]);
    }
  }

  lemma NothingToDo()
    ensures Sum([]) == 0
  {
  }
}
