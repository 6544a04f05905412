/** The set of accounts whose balances are to be refreshed, and the jobs that empty it. */
module BalanceQueue {
  import opened Options

  ghost function Elements(s: seq<string>): set<string> {
    set x | x in s
  }

  ghost predicate Distinct(s: seq<string>) {
    forall i, j | 0 <= i < j < |s| :: s[i] != s[j]
  }

  // ---- One job on its own ----

  /** How many entries are refreshed before the first one that fails. */
  ghost function Succeeding(batch: seq<string>, failing: set<string>): (n: nat)
    ensures n <= |batch|
    ensures forall i | 0 <= i < n :: batch[i] !in failing
    ensures n < |batch| ==> batch[n] in failing
  {
    if batch == [] || batch[0] in failing then 0 else 1 + Succeeding(batch[1..], failing)
  }

  class WorkSet {
    var pending: set<string>
    ghost var refreshed: seq<string>

    constructor ()
      ensures pending == {} && refreshed == []
    {
      pending := {};
      refreshed := [];
    }

    method Schedule(entries: seq<string>)
      modifies this`pending
      ensures pending == old(pending) + Elements(entries)
    {
      for i := 0 to |entries|
        invariant pending == old(pending) + Elements(entries[..i])
      {
        assert entries[..i + 1] == entries[..i] + [entries[i]];
        pending := pending + {entries[i]};
      }
      assert entries[..|entries|] == entries;
    }

    /**
     * One job. `batch` is what the set gave out, `failing` the entries that cannot be refreshed.
     * Everything up to the first failure is refreshed, and everything else is back in the set.
     */
    method Trigger(batch: seq<string>, failing: set<string>)
      requires Distinct(batch) && forall x | x in batch :: x in pending
      modifies this
      ensures refreshed == old(refreshed) + batch[..Succeeding(batch, failing)]
      ensures pending == old(pending) - Elements(batch[..Succeeding(batch, failing)])
    {
      Take(batch);
      var entries := batch;
      ghost var done := 0;
      var failed := false;
      while |entries| > 0 && !failed
        invariant done <= |batch| && forall i | 0 <= i < done :: batch[i] !in failing
        invariant !failed ==> entries == batch[done..]
        invariant failed ==> done < |batch| && batch[done] in failing
        invariant failed ==> entries == batch[done + 1..] + [batch[done]]
        invariant refreshed == old(refreshed) + batch[..done]
        invariant pending == old(pending) - Elements(batch)
        decreases !failed, |entries|
      {
        var entry := entries[0];
        entries := entries[1..];
        if entry in failing {
          entries := entries + [entry];
          failed := true;
        } else {
          refreshed := refreshed + [entry];
          done := done + 1;
        }
      }
      FirstFailure(batch, failing, done);
      if failed {
        Schedule(entries);
        SplitElements(batch, done);
      }
    }

    /** Takes a batch out of the set. */
    method Take(batch: seq<string>)
      modifies this`pending
      ensures pending == old(pending) - Elements(batch)
    {
      for i := 0 to |batch|
        invariant pending == old(pending) - Elements(batch[..i])
      {
        assert batch[..i + 1] == batch[..i] + [batch[i]];
        pending := pending - {batch[i]};
      }
      assert batch[..|batch|] == batch;
    }
  }

  lemma {:induction false} FirstFailure(batch: seq<string>, failing: set<string>, n: nat)
    requires n <= |batch| && forall i | 0 <= i < n :: batch[i] !in failing
    requires n < |batch| ==> batch[n] in failing
    ensures Succeeding(batch, failing) == n
  {
    if n > 0 {
      assert batch[0] !in failing;
      FirstFailure(batch[1..], failing, n - 1);
    }
  }

  /** What is put back after a failure at `n` is what was not refreshed. */
  lemma SplitElements(batch: seq<string>, n: nat)
    requires n < |batch| && Distinct(batch)
    ensures Elements(batch[n + 1..] + [batch[n]]) == Elements(batch) - Elements(batch[..n])
  {
    var back := batch[n + 1..] + [batch[n]];
    assert batch == batch[..n] + ([batch[n]] + batch[n + 1..]);
    forall x | x in back ensures x in batch && x !in batch[..n] {
      var k :| n <= k < |batch| && batch[k] == x;
      assert forall i | 0 <= i < n :: batch[i] != batch[k];
    }
  }

  // ---- Jobs side by side ----

  /** An entry whose balance was read, with the version of the balance that was read. */
  datatype Update = Update(entry: string, read: nat)

  datatype Job = Job(queue: seq<string>, current: Option<Update>)

  /** Balances are represented by version numbers: the one on the node and the one stored. */
  datatype State = State(node: map<string, nat>, stored: map<string, nat>, pending: set<string>,
                         jobs: seq<Job>)

  datatype Step =
    | Change(entry: string)
    | Pop(batch: seq<string>)
    | Read(job: nat)
    | Store(job: nat)
    | Fail(job: nat)

  function Version(m: map<string, nat>, x: string): nat {
    if x in m then m[x] else 0
  }

  const START := State(map[], map[], {}, [])

  ghost predicate Possible(s: State, step: Step) {
    match step
    case Change(_) => true
    case Pop(batch) => forall x | x in batch :: x in s.pending
    case Read(i) => i < |s.jobs| && s.jobs[i].queue != [] && s.jobs[i].current.None?
    case Store(i) => i < |s.jobs| && s.jobs[i].current.Some?
    case Fail(i) => i < |s.jobs| && s.jobs[i].current.Some?
  }

  /** A balance changes and the account is scheduled; a job takes a batch; it reads a balance; it
      stores it; or the update fails, which ends the job. */
  ghost function Apply(s: State, step: Step): State
    requires Possible(s, step)
  {
    match step
    case Change(x) =>
      s.(node := s.node[x := Version(s.node, x) + 1], pending := s.pending + {x})
    case Pop(batch) =>
      s.(pending := s.pending - Elements(batch), jobs := s.jobs + [Job(batch, None)])
    case Read(i) =>
      var x := s.jobs[i].queue[0];
      s.(jobs := s.jobs[i := Job(s.jobs[i].queue[1..], Some(Update(x, Version(s.node, x))))])
    case Store(i) =>
      var u := s.jobs[i].current.value;
      s.(stored := s.stored[u.entry := u.read], jobs := s.jobs[i := s.jobs[i].(current := None)])
    case Fail(i) =>
      var back := s.jobs[i].queue + [s.jobs[i].current.value.entry];
      s.(pending := s.pending + Elements(back), jobs := s.jobs[i := Job([], None)])
  }

  ghost predicate UpdateUnderWay(s: State, x: string) {
    exists i :: 0 <= i < |s.jobs| && s.jobs[i].current.Some? && s.jobs[i].current.value.entry == x
  }

  ghost predicate Queued(s: State, x: string) {
    exists i :: 0 <= i < |s.jobs| && x in s.jobs[i].queue
  }

  /** No reading of one of these entries that is under way is out of date. */
  ghost predicate Undisturbed(s: State, batch: seq<string>) {
    forall i | 0 <= i < |s.jobs| && s.jobs[i].current.Some?
            && s.jobs[i].current.value.entry in batch ::
      s.jobs[i].current.value.read == Version(s.node, s.jobs[i].current.value.entry)
  }

  /** A balance that was read and has changed since is waiting to be read again. */
  ghost predicate ReadingIsCurrent(s: State, job: Job) {
    job.current.Some? ==>
      var u := job.current.value;
      u.read == Version(s.node, u.entry) || u.entry in s.pending
  }

  /** An entry that is not waiting anywhere is up to date, or its update is under way. */
  ghost predicate Accounted(s: State, x: string) {
    || x in s.pending
    || Queued(s, x)
    || UpdateUnderWay(s, x)
    || Version(s.stored, x) == Version(s.node, x)
  }

  ghost predicate Inv(s: State) {
    && (forall i | 0 <= i < |s.jobs| :: ReadingIsCurrent(s, s.jobs[i]))
    && (forall x :: Accounted(s, x))
  }

  /** Steps that leave the jobs other than `i` alone keep what these hold. */
  lemma HeldByOthers(s: State, t: State, i: nat, x: string)
    requires |s.jobs| <= |t.jobs|
    requires forall j | 0 <= j < |s.jobs| && j != i :: t.jobs[j] == s.jobs[j]
    ensures Queued(s, x) && (i < |s.jobs| ==> x !in s.jobs[i].queue) ==> Queued(t, x)
    ensures UpdateUnderWay(s, x)
         && (i < |s.jobs| && s.jobs[i].current.Some? ==> s.jobs[i].current.value.entry != x)
         ==> UpdateUnderWay(t, x)
  {
    if Queued(s, x) && (i < |s.jobs| ==> x !in s.jobs[i].queue) {
      var j :| 0 <= j < |s.jobs| && x in s.jobs[j].queue;
      assert x in t.jobs[j].queue;
    }
    if UpdateUnderWay(s, x)
      && (i < |s.jobs| && s.jobs[i].current.Some? ==> s.jobs[i].current.value.entry != x)
    {
      var j :| 0 <= j < |s.jobs| && s.jobs[j].current.Some? && s.jobs[j].current.value.entry == x;
      assert t.jobs[j].current.value.entry == x;
    }
  }

  lemma ChangeKeepsInv(s: State, x: string)
    requires Inv(s)
    ensures Inv(Apply(s, Change(x)))
  {
    var t := Apply(s, Change(x));
    forall i | 0 <= i < |t.jobs| ensures ReadingIsCurrent(t, t.jobs[i]) {
      assert ReadingIsCurrent(s, s.jobs[i]);
    }
    forall y ensures Accounted(t, y) {
      assert Accounted(s, y);
      HeldByOthers(s, t, |s.jobs|, y);
    }
  }

  /** Taking a batch keeps the invariant if and only if no out-of-date reading of one of its entries
      is under way. */
  lemma PopKeepsInvIff(s: State, batch: seq<string>)
    requires Inv(s) && Possible(s, Pop(batch))
    ensures Inv(Apply(s, Pop(batch))) <==> Undisturbed(s, batch)
  {
    var t := Apply(s, Pop(batch));
    var n := |s.jobs|;
    assert t.jobs[n].queue == batch;
    forall i | 0 <= i < n
      ensures t.jobs[i] == s.jobs[i] && ReadingIsCurrent(s, s.jobs[i])
    {
    }
    if Undisturbed(s, batch) {
      forall i | 0 <= i < |t.jobs| ensures ReadingIsCurrent(t, t.jobs[i]) {
        assert i < n ==> ReadingIsCurrent(s, s.jobs[i]);
      }
      forall y ensures Accounted(t, y) {
        assert Accounted(s, y);
        assert y in batch ==> Queued(t, y);
        HeldByOthers(s, t, n, y);
      }
    }
    if Inv(t) {
      forall i | 0 <= i < n && s.jobs[i].current.Some? && s.jobs[i].current.value.entry in batch
        ensures s.jobs[i].current.value.read == Version(s.node, s.jobs[i].current.value.entry)
      {
        assert ReadingIsCurrent(t, t.jobs[i]);
      }
    }
  }

  lemma ReadKeepsInv(s: State, i: nat)
    requires Inv(s) && Possible(s, Read(i))
    ensures Inv(Apply(s, Read(i)))
  {
    var t := Apply(s, Read(i));
    var x := s.jobs[i].queue[0];
    forall j | 0 <= j < |t.jobs| ensures ReadingIsCurrent(t, t.jobs[j]) {
      assert ReadingIsCurrent(s, s.jobs[j]);
    }
    forall y ensures Accounted(t, y) {
      assert Accounted(s, y);
      HeldByOthers(s, t, i, y);
      assert t.jobs[i].current.value.entry == x;
      assert y in s.jobs[i].queue ==> y == x || y in t.jobs[i].queue;
    }
  }

  lemma StoreKeepsInv(s: State, i: nat)
    requires Inv(s) && Possible(s, Store(i))
    ensures Inv(Apply(s, Store(i)))
  {
    var t := Apply(s, Store(i));
    forall j | 0 <= j < |t.jobs| ensures ReadingIsCurrent(t, t.jobs[j]) {
      assert ReadingIsCurrent(s, s.jobs[j]);
    }
    forall y ensures Accounted(t, y) {
      assert Accounted(s, y) && ReadingIsCurrent(s, s.jobs[i]);
      HeldByOthers(s, t, i, y);
      assert y in s.jobs[i].queue ==> y in t.jobs[i].queue;
    }
  }

  lemma FailKeepsInv(s: State, i: nat)
    requires Inv(s) && Possible(s, Fail(i))
    ensures Inv(Apply(s, Fail(i)))
  {
    var t := Apply(s, Fail(i));
    var x := s.jobs[i].current.value.entry;
    var back := s.jobs[i].queue + [x];
    assert x in back && forall y | y in s.jobs[i].queue :: y in back;
    forall j | 0 <= j < |t.jobs| ensures ReadingIsCurrent(t, t.jobs[j]) {
      assert ReadingIsCurrent(s, s.jobs[j]);
    }
    forall y ensures Accounted(t, y) {
      assert Accounted(s, y);
      HeldByOthers(s, t, i, y);
    }
  }

  // ---- Whole runs ----

  /** The state after a run; None when a step was not possible. */
  ghost function Run(steps: seq<Step>): Option<State>
    decreases |steps|
  {
    if steps == [] then Some(START)
    else
      var k := |steps| - 1;
      match Run(steps[..k])
      case None => None
      case Some(s) => if Possible(s, steps[k]) then Some(Apply(s, steps[k])) else None
  }

  /** Every batch of the run is taken undisturbed. */
  ghost predicate UndisturbedRun(steps: seq<Step>) {
    forall i | 0 <= i < |steps| && steps[i].Pop? ::
      Run(steps[..i]).Some? ==> Undisturbed(Run(steps[..i]).value, steps[i].batch)
  }

  lemma StepKeepsInvIff(s: State, step: Step)
    requires Inv(s) && Possible(s, step)
    ensures Inv(Apply(s, step)) <==> (step.Pop? ==> Undisturbed(s, step.batch))
  {
    match step
    case Change(x) => ChangeKeepsInv(s, x);
    case Pop(batch) => PopKeepsInvIff(s, batch);
    case Read(i) => ReadKeepsInv(s, i);
    case Store(i) => StoreKeepsInv(s, i);
    case Fail(i) => FailKeepsInv(s, i);
  }

  /** The invariant has held all along a run. */
  ghost predicate HeldThroughout(steps: seq<Step>) {
    forall i | 0 <= i <= |steps| :: Run(steps[..i]).Some? ==> Inv(Run(steps[..i]).value)
  }

  lemma StartIsAccounted()
    ensures Inv(START)
  {
    forall x ensures Accounted(START, x) {
    }
  }

  lemma RunStep(steps: seq<Step>, k: nat)
    requires k < |steps| && Run(steps).Some?
    ensures Run(steps[..k]).Some? && Possible(Run(steps[..k]).value, steps[k])
    ensures Run(steps[..k + 1]) == Some(Apply(Run(steps[..k]).value, steps[k]))
    decreases |steps|
  {
    hide Possible, Apply;
    var m := |steps| - 1;
    if k < m {
      RunStep(steps[..m], k);
      assert steps[..m][..k] == steps[..k] && steps[..m][..k + 1] == steps[..k + 1];
    } else {
      assert steps[..k + 1] == steps;
    }
  }

  lemma {:induction false} UndisturbedKeepsInv(steps: seq<Step>, k: nat)
    requires Run(steps).Some? && UndisturbedRun(steps) && k <= |steps|
    ensures Run(steps[..k]).Some? && Inv(Run(steps[..k]).value)
    decreases k
  {
    hide Inv, Possible, Undisturbed, Apply;
    if k == 0 {
      StartIsAccounted();
      assert steps[..0] == [];
    } else {
      UndisturbedKeepsInv(steps, k - 1);
      RunStep(steps, k - 1);
      StepKeepsInvIff(Run(steps[..k - 1]).value, steps[k - 1]);
    }
  }

  /** The invariant holds all along a run if and only if every batch is taken undisturbed. */
  lemma RunKeepsInvIff(steps: seq<Step>)
    requires Run(steps).Some?
    ensures HeldThroughout(steps) <==> UndisturbedRun(steps)
  {
    hide Inv, Possible, Undisturbed, Apply, Run;
    if UndisturbedRun(steps) {
      forall i | 0 <= i <= |steps| ensures Run(steps[..i]).Some? ==> Inv(Run(steps[..i]).value) {
        UndisturbedKeepsInv(steps, i);
      }
    }
    if HeldThroughout(steps) {
      forall i | 0 <= i < |steps| && steps[i].Pop?
        ensures Run(steps[..i]).Some? ==> Undisturbed(Run(steps[..i]).value, steps[i].batch)
      {
        RunStep(steps, i);
        assert Inv(Run(steps[..i]).value) && Inv(Run(steps[..i + 1]).value);
        StepKeepsInvIff(Run(steps[..i]).value, steps[i]);
      }
    }
  }

  /** All jobs are over. */
  ghost predicate Quiet(s: State) {
    forall i | 0 <= i < |s.jobs| :: s.jobs[i] == Job([], None)
  }

  /** No update is lost: when all jobs are over, every entry whose stored balance is not the one on
      the node is in the set. */
  lemma NoUpdateIsLost(steps: seq<Step>, x: string)
    requires Run(steps).Some? && UndisturbedRun(steps) && Quiet(Run(steps).value)
    ensures
      var s := Run(steps).value;
      Version(s.stored, x) == Version(s.node, x) || x in s.pending
  {
    UndisturbedKeepsInv(steps, |steps|);
    assert steps[..|steps|] == steps;
    assert Accounted(Run(steps).value, x);
  }

  /** So it is when jobs run one at a time: a batch is taken only when all jobs are over. */
  lemma OneAtATimeIsUndisturbed(steps: seq<Step>)
    requires forall i | 0 <= i < |steps| && steps[i].Pop? ::
      Run(steps[..i]).Some? ==> Quiet(Run(steps[..i]).value)
    ensures UndisturbedRun(steps)
  {
    forall i | 0 <= i < |steps| && steps[i].Pop? && Run(steps[..i]).Some?
      ensures Undisturbed(Run(steps[..i]).value, steps[i].batch)
    {
      assert Quiet(Run(steps[..i]).value);
    }
  }

  // ---- What a disturbed batch leads to ----

  /** A job reads and stores the balances of its first `k` entries. */
  ghost function WorkOff(s: State, n: nat, k: nat): (t: State)
    requires n < |s.jobs| && s.jobs[n].current.None? && k <= |s.jobs[n].queue|
    ensures t.pending == s.pending && t.node == s.node && |t.jobs| == |s.jobs|
    ensures t.jobs[n] == Job(s.jobs[n].queue[k..], None)
    ensures forall j | 0 <= j < |s.jobs| && j != n :: t.jobs[j] == s.jobs[j]
    decreases k
  {
    if k == 0 then s
    else
      var q := s.jobs[n].queue;
      assert q[1..][k - 1..] == q[k..];
      WorkOff(Apply(Apply(s, Read(n)), Store(n)), n, k - 1)
  }

  /** No job but `i` has to do with the entry. */
  ghost predicate OnlyJob(s: State, i: nat, x: string) {
    forall j | 0 <= j < |s.jobs| ::
      && x !in s.jobs[j].queue
      && (j != i && s.jobs[j].current.Some? ==> s.jobs[j].current.value.entry != x)
  }

  /** Jobs that overlap can lose an update. Whenever a batch is taken with an entry of which some
      job has an out-of-date reading, the new job may store that entry before the older job does:
      then the older balance is stored last, and the entry is in no one's hands. */
  lemma DisturbedBatchLosesAnUpdate(s: State, i: nat, x: string, read: nat, batch: seq<string>,
                                    p: nat)
    requires i < |s.jobs| && s.jobs[i].current == Some(Update(x, read)) && OnlyJob(s, i, x)
    requires Possible(s, Pop(batch)) && Distinct(batch) && p < |batch| && batch[p] == x
    requires read != Version(s.node, x)
    ensures !Undisturbed(s, batch)
    ensures
      var worked := WorkOff(Apply(s, Pop(batch)), |s.jobs|, p + 1);
      && Possible(worked, Store(i))
      && !Accounted(Apply(worked, Store(i)), x)
  {
    var n := |s.jobs|;
    var s1 := Apply(s, Pop(batch));
    assert s1.jobs[n] == Job(batch, None) && x in batch && x !in s1.pending;
    assert forall j | 0 <= j < n :: s1.jobs[j] == s.jobs[j];
    var worked := WorkOff(s1, n, p + 1);
    assert worked.jobs[i] == s.jobs[i];
    var end := Apply(worked, Store(i));
    assert x !in batch[p + 1..];
    LostAtTheEnd(s, end, i, x, batch[p + 1..]);
  }

  lemma LostAtTheEnd(s: State, end: State, i: nat, x: string, rest: seq<string>)
    requires i < |s.jobs| && |end.jobs| == |s.jobs| + 1 && OnlyJob(s, i, x)
    requires end.jobs[|s.jobs|] == Job(rest, None) && x !in rest
    requires end.jobs[i] == s.jobs[i].(current := None)
    requires forall j | 0 <= j < |s.jobs| && j != i :: end.jobs[j] == s.jobs[j]
    requires x !in end.pending && Version(end.stored, x) != Version(end.node, x)
    ensures !Accounted(end, x)
  {
    forall j | 0 <= j < |end.jobs|
      ensures x !in end.jobs[j].queue
      ensures end.jobs[j].current.Some? ==> end.jobs[j].current.value.entry != x
    {
      assert j < |s.jobs| ==> x !in s.jobs[j].queue;
    }
  }

  /** Such a run, from the start: the balance changes twice, and two jobs overlap. */
  function LosingRun(x: string): seq<Step> {
    [Change(x), Pop([x]), Read(0), Change(x), Pop([x]), Read(1), Store(1), Store(0)]
  }

  ghost function LosingState(x: string, k: nat): State
    requires k <= 8
  {
    var idle, first, second := Job([], None), Job([], Some(Update(x, 1))),
                               Job([], Some(Update(x, 2)));
    match k
    case 0 => START
    case 1 => State(map[x := 1], map[], {x}, [])
    case 2 => State(map[x := 1], map[], {}, [Job([x], None)])
    case 3 => State(map[x := 1], map[], {}, [first])
    case 4 => State(map[x := 2], map[], {x}, [first])
    case 5 => State(map[x := 2], map[], {}, [first, Job([x], None)])
    case 6 => State(map[x := 2], map[], {}, [first, second])
    case 7 => State(map[x := 2], map[x := 2], {}, [first, idle])
    case _ => State(map[x := 2], map[x := 1], {}, [idle, idle])
  }

  lemma LosingStep(x: string, k: nat)
    requires k < 8
    ensures Possible(LosingState(x, k), LosingRun(x)[k])
    ensures Apply(LosingState(x, k), LosingRun(x)[k]) == LosingState(x, k + 1)
  {
    assert Elements([x]) == {x} && [x][1..] == [];
    var s, t := LosingState(x, k), LosingState(x, k + 1);
    var r := Apply(s, LosingRun(x)[k]);
    assert r.jobs == t.jobs;
    assert r.pending == t.pending;
    assert r.node == t.node && r.stored == t.stored;
  }

  lemma LosingStart(x: string)
    ensures LosingState(x, 0) == START
  {
  }

  lemma {:induction false} LosingRunStates(x: string, k: nat)
    requires k <= 8
    ensures Run(LosingRun(x)[..k]) == Some(LosingState(x, k))
    decreases k
  {
    hide Possible, Apply, LosingState;
    if k == 0 {
      LosingStart(x);
      assert LosingRun(x)[..0] == [];
    } else {
      LosingRunStates(x, k - 1);
      LosingStep(x, k - 1);
      assert LosingRun(x)[..k][..k - 1] == LosingRun(x)[..k - 1];
    }
  }

  /** It ends with all jobs over, an old balance stored and an empty set. */
  lemma OverlapLosesAnUpdate(x: string)
    ensures Run(LosingRun(x)).Some?
    ensures
      var s := Run(LosingRun(x)).value;
      && Quiet(s) && s.pending == {}
      && Version(s.stored, x) == 1 && Version(s.node, x) == 2
  {
    LosingRunStates(x, 8);
    assert LosingRun(x)[..8] == LosingRun(x);
  }
}
