/**
 The compile runner's shutdown protocol (internal/compile/runner.go) as interleaved steps: each critical
 section, each WaitGroup operation and each branch of the select is one step, taken in any order the
 program allows. A job's position in its goroutine and a drain's progress are part of the state.
 */
module Runner {

  /** Where a job's goroutine is: before its deferred delete, between delete and `wg.Done`, after both. */
  datatype Phase = Running | Recorded | Finished

  datatype Job = Job(id: string, phase: Phase)

  /** A call of `Drain`: waiting (its channel closed or not), or returned nil, or returned the ids in flight. */
  datatype Drain = Waiting(closed: bool) | Drained | Abandoned(ids: set<string>)

  datatype State = State(draining: bool, inFlight: set<string>, counter: int, jobs: seq<Job>, drains: seq<Drain>)

  datatype Op =
    | Enqueue(id: string)      // admission, or refusal while draining
    | Record(job: nat)         // the deferred delete
    | Finish(job: nat)         // wg.Done
    | StartDrain               // draining set, the waiter started
    | WaiterCloses(drain: nat) // wg.Wait returned
    | ReturnNil(drain: nat)    // the select takes the closed channel
    | Deadline(drain: nat)     // the select takes the context

  const INITIAL := State(false, {}, 0, [], [])

  predicate Enabled(s: State, op: Op) {
    match op
    case Enqueue(_) => true
    case Record(j) => j < |s.jobs| && s.jobs[j].phase == Running
    case Finish(j) => j < |s.jobs| && s.jobs[j].phase == Recorded
    case StartDrain => true
    case WaiterCloses(d) => d < |s.drains| && s.drains[d] == Waiting(false) && s.counter == 0
    case ReturnNil(d) => d < |s.drains| && s.drains[d] == Waiting(true)
    case Deadline(d) => d < |s.drains| && s.drains[d].Waiting?
  }

  function Step(s: State, op: Op): State
    requires Enabled(s, op)
  {
    match op
    case Enqueue(id) =>
      if s.draining then s
      else s.(inFlight := s.inFlight + {id}, counter := s.counter + 1, jobs := s.jobs + [Job(id, Running)])
    case Record(j) =>
      s.(inFlight := s.inFlight - {s.jobs[j].id}, jobs := s.jobs[j := s.jobs[j].(phase := Recorded)])
    case Finish(j) =>
      s.(counter := s.counter - 1, jobs := s.jobs[j := s.jobs[j].(phase := Finished)])
    case StartDrain => s.(draining := true, drains := s.drains + [Waiting(false)])
    case WaiterCloses(d) => s.(drains := s.drains[d := Waiting(true)])
    case ReturnNil(d) => s.(drains := s.drains[d := Drained])
    case Deadline(d) => s.(drains := s.drains[d := Abandoned(s.inFlight)])
  }

  /** `t` follows from `s` by the operations in order, each enabled when it is taken. */
  ghost predicate Runs(s: State, ops: seq<Op>, t: State)
    decreases |ops|
  {
    if ops == [] then s == t
    else Enabled(s, ops[0]) && Runs(Step(s, ops[0]), ops[1..], t)
  }

  // ----- The steps as the program takes them -----

  class CompileRunner {
    var draining: bool
    var inFlight: set<string>
    var counter: int
    ghost var jobs: seq<Job>
    ghost var drains: seq<Drain>

    ghost function Now(): State
      reads this
    {
      State(draining, inFlight, counter, jobs, drains)
    }

    constructor ()
      ensures Now() == INITIAL
    {
      draining, inFlight, counter, jobs, drains := false, {}, 0, [], [];
    }

    method EnqueueJob(id: string) returns (admitted: bool)
      modifies this
      ensures Now() == Step(old(Now()), Enqueue(id)) && admitted == !old(draining)
    {
      if draining { return false; }
      inFlight := inFlight + {id};
      counter := counter + 1;
      jobs := jobs + [Job(id, Running)];
      return true;
    }

    method RecordDone(ghost j: nat, id: string)
      requires Enabled(Now(), Record(j)) && jobs[j].id == id
      modifies this
      ensures Now() == Step(old(Now()), Record(j))
    {
      inFlight := inFlight - {id};
      jobs := jobs[j := jobs[j].(phase := Recorded)];
    }

    method GroupDone(ghost j: nat)
      requires Enabled(Now(), Finish(j))
      modifies this
      ensures Now() == Step(old(Now()), Finish(j))
    {
      counter := counter - 1;
      jobs := jobs[j := jobs[j].(phase := Finished)];
    }

    method BeginDrain()
      modifies this
      ensures Now() == Step(old(Now()), StartDrain)
    {
      draining := true;
      drains := drains + [Waiting(false)];
    }

    /** What `Drain` returns at its deadline, each id once. */
    method AbandonAtDeadline(ghost d: nat) returns (abandoned: seq<string>)
      requires Enabled(Now(), Deadline(d))
      modifies this`drains
      ensures Now() == Step(old(Now()), Deadline(d))
      ensures forall id :: id in abandoned <==> id in inFlight
      ensures forall i, j :: 0 <= i < j < |abandoned| ==> abandoned[i] != abandoned[j]
    {
      abandoned := [];
      var left := inFlight;
      while left != {}
        invariant left <= inFlight
        invariant forall id :: id in abandoned <==> id in inFlight && id !in left
        invariant forall i, j :: 0 <= i < j < |abandoned| ==> abandoned[i] != abandoned[j]
        decreases |left|
      {
        var id :| id in left;
        abandoned, left := abandoned + [id], left - {id};
      }
      drains := drains[d := Abandoned(inFlight)];
    }
  }

  // ----- Once draining, nothing is admitted -----

  /** The jobs of `t` are those of `s`, each at least as far. */
  predicate SameJobs(s: State, t: State) {
    |t.jobs| == |s.jobs| && forall i :: 0 <= i < |s.jobs| ==> t.jobs[i].id == s.jobs[i].id
  }

  lemma DrainingStep(s: State, op: Op)
    requires s.draining && Enabled(s, op)
    ensures Step(s, op).draining && Step(s, op).counter <= s.counter && SameJobs(s, Step(s, op))
  {
  }

  /** Whatever runs after a drain began, the WaitGroup never grows and no job is admitted. */
  lemma {:induction false} NeverGrowsOnceDraining(s: State, ops: seq<Op>, t: State)
    requires s.draining && Runs(s, ops, t)
    ensures t.draining && t.counter <= s.counter && SameJobs(s, t)
    decreases |ops|
  {
    hide Step, Enabled;
    if ops != [] {
      DrainingStep(s, ops[0]);
      NeverGrowsOnceDraining(Step(s, ops[0]), ops[1..], t);
    }
  }

  // ----- The WaitGroup counts unfinished jobs -----

  function Unfinished(jobs: seq<Job>): nat {
    if jobs == [] then 0
    else Unfinished(jobs[..|jobs| - 1]) + (if jobs[|jobs| - 1].phase == Finished then 0 else 1)
  }

  lemma {:induction false} NoneUnfinished(jobs: seq<Job>)
    ensures Unfinished(jobs) == 0 <==> forall i :: 0 <= i < |jobs| ==> jobs[i].phase == Finished
  {
    if jobs != [] {
      NoneUnfinished(jobs[..|jobs| - 1]);
    }
  }

  lemma {:induction false} PhaseChange(jobs: seq<Job>, j: nat, phase: Phase)
    requires j < |jobs|
    ensures Unfinished(jobs[j := jobs[j].(phase := phase)])
            == Unfinished(jobs) - (if jobs[j].phase == Finished then 0 else 1) + (if phase == Finished then 0 else 1)
  {
    var n := |jobs| - 1;
    var changed := jobs[j := jobs[j].(phase := phase)];
    if j < n {
      PhaseChange(jobs[..n], j, phase);
      assert changed[..n] == jobs[..n][j := jobs[..n][j].(phase := phase)];
    } else {
      assert changed[..n] == jobs[..n];
    }
  }

  /**
   What every reachable state satisfies. The counter is the number of unfinished jobs, so it is never
   negative; a drain in progress means draining; a closed channel or a nil result means no job is left.
   */
  ghost predicate Sound(s: State) {
    && s.counter == Unfinished(s.jobs)
    && (s.drains != [] ==> s.draining)
    && (forall d :: 0 <= d < |s.drains| && (s.drains[d] == Waiting(true) || s.drains[d] == Drained) ==> s.counter == 0)
    && (forall id :: id in s.inFlight ==> exists j :: 0 <= j < |s.jobs| && s.jobs[j] == Job(id, Running))
  }

  lemma StepSound(s: State, op: Op)
    requires Sound(s) && Enabled(s, op)
    ensures Sound(Step(s, op))
  {
    var t := Step(s, op);
    match op
    case Enqueue(id) =>
      if !s.draining {
        assert t.jobs[..|s.jobs|] == s.jobs;
        hide Unfinished;
        InFlightRunning(s, t);
      }
    case Record(j) =>
      PhaseChange(s.jobs, j, Recorded);
      hide Unfinished;
      forall id | id in t.inFlight ensures exists k :: 0 <= k < |t.jobs| && t.jobs[k] == Job(id, Running) {
        var k :| 0 <= k < |s.jobs| && s.jobs[k] == Job(id, Running);
        assert t.jobs[k] == s.jobs[k];
      }
    case Finish(j) =>
      PhaseChange(s.jobs, j, Finished);
      hide Unfinished;
      forall id | id in t.inFlight ensures exists k :: 0 <= k < |t.jobs| && t.jobs[k] == Job(id, Running) {
        var k :| 0 <= k < |s.jobs| && s.jobs[k] == Job(id, Running);
        assert t.jobs[k] == s.jobs[k];
      }
    case _ =>
      hide Unfinished;
  }

  lemma InFlightRunning(s: State, t: State)
    requires forall id :: id in s.inFlight ==> exists j :: 0 <= j < |s.jobs| && s.jobs[j] == Job(id, Running)
    requires exists id :: t.inFlight == s.inFlight + {id} && t.jobs == s.jobs + [Job(id, Running)]
    ensures forall id :: id in t.inFlight ==> exists j :: 0 <= j < |t.jobs| && t.jobs[j] == Job(id, Running)
  {
    forall id | id in t.inFlight ensures exists j :: 0 <= j < |t.jobs| && t.jobs[j] == Job(id, Running) {
      if id in s.inFlight {
        var j :| 0 <= j < |s.jobs| && s.jobs[j] == Job(id, Running);
        assert t.jobs[j] == s.jobs[j];
      } else {
        assert t.jobs[|s.jobs|] == Job(id, Running);
      }
    }
  }

  lemma {:induction false} RunSound(s: State, ops: seq<Op>, t: State)
    requires Sound(s) && Runs(s, ops, t)
    ensures Sound(t)
    decreases |ops|
  {
    hide Sound, Step, Enabled;
    if ops != [] {
      StepSound(s, ops[0]);
      RunSound(Step(s, ops[0]), ops[1..], t);
    }
  }

  predicate AllFinished(jobs: seq<Job>) {
    forall i :: 0 <= i < |jobs| ==> jobs[i].phase == Finished
  }

  /** The waiter can wake exactly when every admitted job has finished. */
  lemma WaiterWakesIffAllFinished(ops: seq<Op>, s: State, d: nat)
    requires Runs(INITIAL, ops, s) && d < |s.drains| && s.drains[d] == Waiting(false)
    ensures Enabled(s, WaiterCloses(d)) <==> AllFinished(s.jobs)
  {
    RunSound(INITIAL, ops, s);
    NoneUnfinished(s.jobs);
    hide Unfinished;
  }

  /** A nil result: every admitted job has finished, and no later run admits another. */
  lemma NilMeansFinished(ops: seq<Op>, s: State, d: nat, later: seq<Op>, t: State)
    requires Runs(INITIAL, ops, s) && d < |s.drains| && s.drains[d] == Drained
    requires Runs(s, later, t)
    ensures AllFinished(s.jobs) && |t.jobs| == |s.jobs| && AllFinished(t.jobs)
  {
    hide Step, Enabled, Runs;
    RunSound(INITIAL, ops, s);
    NoneUnfinished(s.jobs);
    NeverGrowsOnceDraining(s, later, t);
    RunSound(s, later, t);
    NoneUnfinished(t.jobs);
  }

  // ----- What a deadline reports -----

  function RunningIds(jobs: seq<Job>): set<string> {
    set j | j in jobs && j.phase == Running :: j.id
  }

  /** No two running jobs share an id, and the ids in flight are exactly theirs. */
  ghost predicate Exact(s: State) {
    && s.inFlight == RunningIds(s.jobs)
    && forall i, j :: 0 <= i < j < |s.jobs| && s.jobs[i].phase == Running && s.jobs[j].phase == Running ==>
         s.jobs[i].id != s.jobs[j].id
  }

  /** The operation admits no job whose id is in flight. */
  predicate AdmitsFresh(s: State, op: Op) {
    op.Enqueue? && !s.draining ==> op.id !in s.inFlight
  }

  lemma RunningIn(jobs: seq<Job>, i: nat)
    requires i < |jobs| && jobs[i].phase == Running
    ensures jobs[i].id in RunningIds(jobs)
  {
    assert jobs[i] in jobs;
  }

  lemma EnqueueExact(s: State, id: string)
    requires Exact(s) && !s.draining && id !in s.inFlight
    ensures Exact(Step(s, Enqueue(id)))
  {
    var t := Step(s, Enqueue(id));
    assert forall j :: j in t.jobs <==> j in s.jobs || j == Job(id, Running);
    forall i | 0 <= i < |s.jobs| && s.jobs[i].phase == Running ensures s.jobs[i].id != id {
      RunningIn(s.jobs, i);
    }
  }

  lemma RecordExact(s: State, j: nat)
    requires Exact(s) && Enabled(s, Record(j))
    ensures Exact(Step(s, Record(j)))
  {
    var t := Step(s, Record(j));
    forall id | id in t.inFlight ensures id in RunningIds(t.jobs) {
      var k :| 0 <= k < |s.jobs| && s.jobs[k].phase == Running && s.jobs[k].id == id;
      assert t.jobs[k] == s.jobs[k];
      RunningIn(t.jobs, k);
    }
    forall id | id in RunningIds(t.jobs) ensures id in t.inFlight {
      var k :| 0 <= k < |t.jobs| && t.jobs[k].phase == Running && t.jobs[k].id == id;
      assert t.jobs[k] == s.jobs[k];
      RunningIn(s.jobs, k);
      assert s.jobs[k].id != s.jobs[j].id;
    }
  }

  lemma FinishExact(s: State, j: nat)
    requires Exact(s) && Enabled(s, Finish(j))
    ensures Exact(Step(s, Finish(j)))
  {
    var t := Step(s, Finish(j));
    forall id | id in s.inFlight ensures id in RunningIds(t.jobs) {
      var k :| 0 <= k < |s.jobs| && s.jobs[k].phase == Running && s.jobs[k].id == id;
      assert t.jobs[k] == s.jobs[k];
      RunningIn(t.jobs, k);
    }
    forall id | id in RunningIds(t.jobs) ensures id in s.inFlight {
      var k :| 0 <= k < |t.jobs| && t.jobs[k].phase == Running && t.jobs[k].id == id;
      assert t.jobs[k] == s.jobs[k];
      RunningIn(s.jobs, k);
    }
  }

  /** Admitting an id that is already in flight is the one step that spoils the record. */
  lemma StepExact(s: State, op: Op)
    requires Exact(s) && Enabled(s, op) && AdmitsFresh(s, op)
    ensures Exact(Step(s, op))
  {
    match op
    case Enqueue(id) => if !s.draining { EnqueueExact(s, id); }
    case Record(j) => RecordExact(s, j);
    case Finish(j) => FinishExact(s, j);
    case _ =>
  }

  /** And it does spoil it: once the new job is done, its twin still runs but is no longer in flight. */
  lemma SharedIdSpoils(s: State, id: string)
    requires Exact(s) && !s.draining && id in s.inFlight
    ensures var t := Step(s, Enqueue(id));
            Enabled(t, Record(|s.jobs|))
            && var u := Step(t, Record(|s.jobs|));
               id in RunningIds(u.jobs) && id !in u.inFlight
  {
    var k :| 0 <= k < |s.jobs| && s.jobs[k].phase == Running && s.jobs[k].id == id;
    var u := Step(Step(s, Enqueue(id)), Record(|s.jobs|));
    assert u.jobs[k] == s.jobs[k];
    RunningIn(u.jobs, k);
  }

  ghost predicate DistinctIds(ops: seq<Op>) {
    forall i, j :: 0 <= i < j < |ops| && ops[i].Enqueue? && ops[j].Enqueue? ==> ops[i].id != ops[j].id
  }

  ghost predicate NotYetAdmitted(jobs: seq<Job>, ops: seq<Op>) {
    forall i, j :: 0 <= i < |jobs| && 0 <= j < |ops| && ops[j].Enqueue? ==> ops[j].id != jobs[i].id
  }

  lemma StepKeepsFresh(s: State, ops: seq<Op>)
    requires ops != [] && Enabled(s, ops[0]) && DistinctIds(ops) && NotYetAdmitted(s.jobs, ops)
    ensures DistinctIds(ops[1..]) && NotYetAdmitted(Step(s, ops[0]).jobs, ops[1..])
  {
    var t := Step(s, ops[0]);
    forall i, j | 0 <= i < |t.jobs| && 0 <= j < |ops[1..]| && ops[1..][j].Enqueue? ensures ops[1..][j].id != t.jobs[i].id {
      assert ops[1..][j] == ops[j + 1];
      if i < |s.jobs| {
        assert t.jobs[i].id == s.jobs[i].id;
      }
    }
  }

  lemma {:induction false} DistinctIdsExact(s: State, ops: seq<Op>, t: State)
    requires Exact(s) && Runs(s, ops, t) && DistinctIds(ops) && NotYetAdmitted(s.jobs, ops)
    ensures Exact(t)
    decreases |ops|
  {
    if ops != [] {
      assert AdmitsFresh(s, ops[0]);
      StepKeepsFresh(s, ops);
      StepExact(s, ops[0]);
      hide Exact, Step, Enabled, DistinctIds, NotYetAdmitted;
      DistinctIdsExact(Step(s, ops[0]), ops[1..], t);
    }
  }

  /** With distinct job ids, a deadline lists exactly the admitted jobs whose completion is not recorded. */
  lemma DeadlineListsUnrecorded(ops: seq<Op>, s: State, d: nat)
    requires Runs(INITIAL, ops, s) && DistinctIds(ops) && Enabled(s, Deadline(d))
    ensures Step(s, Deadline(d)).drains[d] == Abandoned(RunningIds(s.jobs))
  {
    DistinctIdsExact(INITIAL, ops, s);
  }

  // ----- Progress -----

  /** Outside a drain every job is admitted: recorded in flight, counted, and left to finish. */
  lemma AdmittedUnlessDraining(s: State, id: string)
    requires Enabled(s, Enqueue(id))
    ensures var t := Step(s, Enqueue(id));
            if s.draining then t == s
            else t.jobs == s.jobs + [Job(id, Running)] && id in t.inFlight && t.counter == s.counter + 1 && t.draining == s.draining
  {
  }

  /** A job that runs can be recorded and then finished, and one that has been recorded can be finished. */
  lemma JobsCanFinish(s: State, j: nat)
    requires j < |s.jobs| && s.jobs[j].phase != Finished
    ensures s.jobs[j].phase == Recorded ==>
              Enabled(s, Finish(j)) && Step(s, Finish(j)).jobs[j].phase == Finished
    ensures s.jobs[j].phase == Running ==>
              Enabled(s, Record(j)) && Step(s, Record(j)).jobs[j].phase == Recorded && s.jobs[j].id !in Step(s, Record(j)).inFlight
  {
  }

  /** Once every admitted job has finished a drain can return nil; until then it can only give up at its deadline. */
  lemma DrainCanReturn(ops: seq<Op>, s: State, d: nat)
    requires Runs(INITIAL, ops, s) && d < |s.drains| && s.drains[d] == Waiting(false)
    ensures AllFinished(s.jobs) ==>
              && Enabled(s, WaiterCloses(d))
              && Enabled(Step(s, WaiterCloses(d)), ReturnNil(d))
              && Step(Step(s, WaiterCloses(d)), ReturnNil(d)).drains[d] == Drained
    ensures !AllFinished(s.jobs) ==> !Enabled(s, WaiterCloses(d)) && !Enabled(s, ReturnNil(d))
    ensures Enabled(s, Deadline(d)) && Step(s, Deadline(d)).drains[d] == Abandoned(s.inFlight)
  {
    WaiterWakesIffAllFinished(ops, s, d);
    hide Runs, AllFinished;
  }
}
