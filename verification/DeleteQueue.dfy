/** The protocol that pauses the index queue around deletions, at the granularity of its awaited
    calls: deletions may be enqueued between any two steps of the worker. */
module DeleteQueue {

  /** A deletion. The worker swallows errors, so the queue never sees a failed job and never tries
      one again: every job is on its first attempt. */
  datatype Job = Job(heights: seq<nat>)

  /** Where the single deletion worker stands. */
  datatype Phase =
    | Idle
    | Started(job: Job)          // about to ask whether the index queue is paused
    | Pausing(job: Job)          // found it running, about to pause it
    | Body(job: Job)             // deleting blocks
    | Caught(job: Job)           // the body, or the pausing, threw
    | Finally                    // about to count the waiting deletions
    | Counted(waiting: nat)      // about to resume if the count was zero

  /** `done` are the deletions that were carried out, `dropped` those that failed and are not in the
      queue any more. */
  datatype State = State(
    waiting: seq<Job>, phase: Phase, paused: bool, handled: bool, done: seq<Job>,
    dropped: seq<Job>)

  /** A worker step; `ok` tells whether the awaited call succeeds. */
  datatype Step = Enqueue(job: Job) | Work(ok: bool)

  /** `attempts` is how often the queue would try a job. A failed deletion is put back only if this
      attempt, the first, is the last one. */
  function WorkerStep(st: State, attempts: nat, ok: bool): State {
    match st.phase
    case Idle =>
      if st.waiting == [] then st
      else st.(waiting := st.waiting[1..], phase := Started(st.waiting[0]))
    case Started(job) =>
      st.(phase := if !ok then Caught(job) else if st.paused then Body(job) else Pausing(job))
    case Pausing(job) =>
      if ok then st.(phase := Body(job), paused := true) else st.(phase := Caught(job))
    case Body(job) =>
      if ok then st.(phase := Finally, done := st.done + [job]) else st.(phase := Caught(job))
    case Caught(job) =>
      if attempts == 1 then st.(phase := Finally, waiting := st.waiting + [job])
      else st.(phase := Finally, dropped := st.dropped + [job])
    case Finally => st.(phase := Counted(|st.waiting|))
    case Counted(n) =>
      st.(phase := Idle, handled := true, paused := st.paused && n != 0)
  }

  function Next(st: State, attempts: nat, step: Step): State {
    match step
    case Enqueue(job) => st.(waiting := st.waiting + [job])
    case Work(ok) => WorkerStep(st, attempts, ok)
  }

  /** The worker is idle and nothing waits when it starts; the index queue, which outlives the
      process, may have been left paused. */
  function Initial(paused: bool): State {
    State([], Idle, paused, false, [], [])
  }

  function Run(paused: bool, attempts: nat, steps: seq<Step>): State {
    if steps == [] then Initial(paused)
    else Next(Run(paused, attempts, steps[..|steps| - 1]), attempts, steps[|steps| - 1])
  }

  /** While blocks are deleted the index queue is paused; once a deletion has been handled, a
      drained and idle deletion queue means a running index queue. */
  ghost predicate Safe(st: State) {
    && (st.phase.Body? ==> st.paused)
    && (st.phase.Idle? && st.waiting == [] && st.handled ==> !st.paused)
  }

  ghost predicate Inv(st: State) {
    && Safe(st)
    && (st.phase.Counted? ==> st.phase.waiting <= |st.waiting|)
  }

  lemma {:induction false} EveryInterleavingIsSafe(paused: bool, attempts: nat, steps: seq<Step>)
    ensures Inv(Run(paused, attempts, steps))
  {
    if steps != [] {
      EveryInterleavingIsSafe(paused, attempts, steps[..|steps| - 1]);
    }
  }

  /** The pause holds from the moment the body starts until the waiting count has been taken: no
      step in between resumes the index queue. */
  lemma PauseOutlastsTheBody(st: State, attempts: nat, step: Step)
    requires Inv(st)
    requires st.phase.Body? || ((st.phase.Caught? || st.phase.Finally?) && st.paused)
    ensures Next(st, attempts, step).paused
  {
  }

  /** The index queue is resumed by one step only, and only if no deletion waited when they were
      counted. */
  lemma ResumedOnlyAfterEmptyCount(st: State, attempts: nat, step: Step)
    ensures st.paused && !Next(st, attempts, step).paused
            <==> st.paused && step.Work? && st.phase == Counted(0)
  {
  }

  /** The count was taken in an earlier step of the run, and since then deletions were enqueued at
      most. */
  ghost predicate CountedAt(paused: bool, attempts: nat, steps: seq<Step>, i: nat, n: nat)
    requires i < |steps|
  {
    && Run(paused, attempts, steps[..i]).phase.Finally? && steps[i].Work?
    && |Run(paused, attempts, steps[..i]).waiting| == n
    && forall j | i < j < |steps| :: steps[j].Enqueue?
  }

  lemma {:induction false} CountIsOfTheRun(paused: bool, attempts: nat, steps: seq<Step>)
    ensures var st := Run(paused, attempts, steps);
            st.phase.Counted? ==>
              exists i: nat ::
                i < |steps| && CountedAt(paused, attempts, steps, i, st.phase.waiting)
  {
    if steps != [] {
      var k := |steps| - 1;
      CountIsOfTheRun(paused, attempts, steps[..k]);
      var before, st := Run(paused, attempts, steps[..k]), Run(paused, attempts, steps);
      if st.phase.Counted? {
        if steps[k].Work? {
          assert CountedAt(paused, attempts, steps, k, st.phase.waiting);
        } else {
          var i: nat :| i < k && CountedAt(paused, attempts, steps[..k], i, before.phase.waiting);
          assert steps[..k][..i] == steps[..i];
          assert CountedAt(paused, attempts, steps, i, st.phase.waiting);
        }
      }
    }
  }

  // ---- Draining ----

  function StepsLeft(phase: Phase): nat {
    match phase
    case Idle => 0
    case Started(_) => 5
    case Pausing(_) => 4
    case Body(_) => 3
    case Caught(_) => 3
    case Finally => 2
    case Counted(_) => 1
  }

  function WorkOn(st: State, attempts: nat, n: nat): State
    decreases n
  {
    if n == 0 then st else WorkOn(WorkerStep(st, attempts, true), attempts, n - 1)
  }

  /** An upper bound on the steps until the queue is drained. */
  function Effort(st: State, attempts: nat): nat {
    6 * |st.waiting| + StepsLeft(st.phase)
    + (if st.phase.Caught? && attempts == 1 then 6 else 0)
  }

  lemma WorkerStepProgresses(st: State, attempts: nat)
    requires !(st.phase.Idle? && st.waiting == [])
    ensures Effort(WorkerStep(st, attempts, true), attempts) < Effort(st, attempts)
  {
  }

  /** From every state a run can reach, if nothing more is enqueued and no call fails any more,
      the worker drains its queue and leaves the index queue running. */
  lemma {:induction false} DrainedQueueResumesIndexing(st: State, attempts: nat, n: nat)
    requires Inv(st) && n >= Effort(st, attempts)
    requires st.handled || !(st.phase.Idle? && st.waiting == [])
    ensures var end := WorkOn(st, attempts, n);
            end.phase.Idle? && end.waiting == [] && !end.paused
    decreases n
  {
    if n == 0 {
      assert st.phase.Idle? && st.waiting == [];
    } else if st.phase.Idle? && st.waiting == [] {
      assert WorkerStep(st, attempts, true) == st;
      DrainedQueueResumesIndexing(st, attempts, n - 1);
    } else {
      WorkerStepProgresses(st, attempts);
      DrainedQueueResumesIndexing(WorkerStep(st, attempts, true), attempts, n - 1);
    }
  }

  // ---- Conservation ----

  function Enqueued(steps: seq<Step>): seq<Job> {
    if steps == [] then []
    else
      var last := steps[|steps| - 1];
      Enqueued(steps[..|steps| - 1]) + if last.Enqueue? then [last.job] else []
  }

  function InHand(phase: Phase): seq<Job> {
    if phase.Started? || phase.Pausing? || phase.Body? || phase.Caught? then [phase.job] else []
  }

  /** How often a deletion is in the list. */
  function Count(jobs: seq<Job>, job: Job): nat {
    if jobs == [] then 0
    else Count(jobs[..|jobs| - 1], job) + if jobs[|jobs| - 1] == job then 1 else 0
  }

  lemma CountPush(jobs: seq<Job>, x: Job, job: Job)
    ensures Count(jobs + [x], job) == Count(jobs, job) + if x == job then 1 else 0
  {
    assert (jobs + [x])[..|jobs|] == jobs;
  }

  lemma {:induction false} CountPop(jobs: seq<Job>, job: Job)
    requires jobs != []
    ensures Count(jobs, job) == (if jobs[0] == job then 1 else 0) + Count(jobs[1..], job)
  {
    if |jobs| > 1 {
      CountPop(jobs[..|jobs| - 1], job);
      assert jobs[1..][..|jobs| - 2] == jobs[..|jobs| - 1][1..];
    }
  }

  function Held(st: State, job: Job): nat {
    Count(st.waiting, job) + Count(InHand(st.phase), job) + Count(st.done, job)
    + Count(st.dropped, job)
  }

  lemma WorkKeepsHeld(st: State, attempts: nat, ok: bool, job: Job)
    ensures Held(WorkerStep(st, attempts, ok), job) == Held(st, job)
  {
    hide Count;
    match st.phase
    case Idle =>
      if st.waiting != [] {
        CountPop(st.waiting, job);
        CountOne(st.waiting[0], job);
        CountNone(job);
      }
    case Body(x) =>
      CountOne(x, job);
      CountNone(job);
      CountPush(st.done, x, job);
    case Caught(x) =>
      CountOne(x, job);
      CountNone(job);
      CountPush(st.waiting, x, job);
      CountPush(st.dropped, x, job);
    case _ =>
  }

  lemma CountOne(x: Job, job: Job)
    ensures Count([x], job) == if x == job then 1 else 0
  {
    CountPush([], x, job);
    assert [] + [x] == [x];
  }

  lemma CountNone(job: Job)
    ensures Count([], job) == 0
  {
  }

  /** Every deletion is waiting, in hand, carried out or dropped as often as it was enqueued. */
  lemma {:induction false} EveryDeletionIsAccountedFor(paused: bool, attempts: nat,
                                                       steps: seq<Step>, job: Job)
    ensures Held(Run(paused, attempts, steps), job) == Count(Enqueued(steps), job)
  {
    if steps != [] {
      var init, last := steps[..|steps| - 1], steps[|steps| - 1];
      EveryDeletionIsAccountedFor(paused, attempts, init, job);
      if last.Work? {
        WorkKeepsHeld(Run(paused, attempts, init), attempts, last.ok, job);
        assert Enqueued(steps) == Enqueued(init);
      } else {
        CountPush(Run(paused, attempts, init).waiting, last.job, job);
        CountPush(Enqueued(init), last.job, job);
      }
    }
  }

  // ---- Lost deletions ----

  /** The step is a failed call on behalf of a deletion. */
  predicate Fails(st: State, step: Step) {
    step == Work(false) && (st.phase.Started? || st.phase.Pausing? || st.phase.Body?)
  }

  /** The deletions for which a call failed, in the order of the failures. */
  function Failed(paused: bool, attempts: nat, steps: seq<Step>): seq<Job> {
    if steps == [] then []
    else
      var init, last := steps[..|steps| - 1], steps[|steps| - 1];
      var st := Run(paused, attempts, init);
      Failed(paused, attempts, init) + if Fails(st, last) then [st.phase.job] else []
  }

  /** With more than one attempt configured, the lost deletions are exactly those for which a call
      failed. With one, nothing is lost. */
  lemma {:induction false} LostDeletionsAreTheFailedOnes(paused: bool, attempts: nat,
                                                         steps: seq<Step>)
    ensures var st := Run(paused, attempts, steps);
            if attempts == 1 then st.dropped == []
            else st.dropped + (if st.phase.Caught? then [st.phase.job] else [])
                 == Failed(paused, attempts, steps)
  {
    if steps != [] {
      LostDeletionsAreTheFailedOnes(paused, attempts, steps[..|steps| - 1]);
    }
  }

  /** A deletion is lost if and only if several attempts are configured and some call has failed. */
  lemma DeletionIsLostIff(paused: bool, attempts: nat, steps: seq<Step>)
    requires !Run(paused, attempts, steps).phase.Caught?
    ensures Run(paused, attempts, steps).dropped != []
            <==> attempts != 1 && Failed(paused, attempts, steps) != []
  {
    LostDeletionsAreTheFailedOnes(paused, attempts, steps);
  }

  /** The deletion the worker is through with in this step, whatever became of it. */
  function Leaving(st: State, attempts: nat, step: Step): seq<Job> {
    if InHand(Next(st, attempts, step).phase) == [] then InHand(st.phase) else []
  }

  function Taken(paused: bool, attempts: nat, steps: seq<Step>): seq<Job> {
    if steps == [] then []
    else
      var init, last := steps[..|steps| - 1], steps[|steps| - 1];
      Taken(paused, attempts, init) + Leaving(Run(paused, attempts, init), attempts, last)
  }

  lemma StepInTurn(st: State, attempts: nat, step: Step)
    requires attempts != 1
    ensures var end := Next(st, attempts, step);
            Leaving(st, attempts, step) + (InHand(end.phase) + end.waiting)
            == (InHand(st.phase) + st.waiting) + if step.Enqueue? then [step.job] else []
  {
    if step.Work? && st.phase.Idle? && st.waiting != [] {
      assert st.waiting == [st.waiting[0]] + st.waiting[1..];
    }
  }

  lemma Regroup(a: seq<Job>, b: seq<Job>, c: seq<Job>, d: seq<Job>, e: seq<Job>)
    requires b + c == d + e
    ensures (a + b) + c == (a + d) + e
  {
    assert (a + b) + c == a + (b + c);
    assert (a + d) + e == a + (d + e);
  }

  /** Deletions are also taken in turn: with several attempts configured each is taken up once, so
      what the worker is through with, what is in hand and what waits is, in this order, what was
      enqueued. */
  lemma {:induction false} DeletionsAreTakenInTurn(paused: bool, attempts: nat, steps: seq<Step>)
    requires attempts != 1
    ensures var st := Run(paused, attempts, steps);
            Taken(paused, attempts, steps) + (InHand(st.phase) + st.waiting) == Enqueued(steps)
  {
    if steps != [] {
      var init, last := steps[..|steps| - 1], steps[|steps| - 1];
      DeletionsAreTakenInTurn(paused, attempts, init);
      hide Next, InHand, Leaving;
      var st := Run(paused, attempts, init);
      var end := Next(st, attempts, last);
      StepInTurn(st, attempts, last);
      Regroup(Taken(paused, attempts, init), Leaving(st, attempts, last),
              InHand(end.phase) + end.waiting, InHand(st.phase) + st.waiting,
              if last.Enqueue? then [last.job] else []);
    }
  }

  /** A deletion that is enqueued, paused for, and fails. */
  function LosingRun(job: Job): seq<Step> {
    [Enqueue(job), Work(true), Work(true), Work(true), Work(false), Work(true), Work(true),
     Work(true)]
  }

  function LosingState(job: Job, k: nat): State {
    match k
    case 0 => State([], Idle, false, false, [], [])
    case 1 => State([job], Idle, false, false, [], [])
    case 2 => State([], Started(job), false, false, [], [])
    case 3 => State([], Pausing(job), false, false, [], [])
    case 4 => State([], Body(job), true, false, [], [])
    case 5 => State([], Caught(job), true, false, [], [])
    case 6 => State([], Finally, true, false, [], [job])
    case 7 => State([], Counted(0), true, false, [], [job])
    case _ => State([], Idle, false, true, [], [job])
  }

  lemma {:induction false} LosingRunStates(job: Job, k: nat)
    requires k <= 8
    ensures Run(false, 5, LosingRun(job)[..k]) == LosingState(job, k)
    decreases k
  {
    if k == 0 {
      assert LosingRun(job)[..0] == [];
    } else {
      LosingRunStates(job, k - 1);
      assert LosingRun(job)[..k][..k - 1] == LosingRun(job)[..k - 1];
    }
  }

  /** With the five attempts the queues are configured with, one failing call loses a deletion: the
      worker is idle, nothing waits, and the blocks were not deleted. */
  lemma FailedDeletionIsLost(job: Job)
    ensures var st := Run(false, 5, LosingRun(job));
            st.phase.Idle? && st.waiting == [] && st.done == [] && st.dropped == [job]
  {
    LosingRunStates(job, 8);
    assert LosingRun(job)[..8] == LosingRun(job);
  }
}
