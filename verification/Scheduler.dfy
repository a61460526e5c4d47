/** The scheduler's data (src/Scheduler.h, src/Scheduler.cpp), for any kind of job handle. */
module SchedulerData {

  datatype Sched<H> = Sched(counter: int, queue: seq<H>, finished: map<int, H>)

  function Popped<H>(s: Sched<H>): Sched<H>
    requires s.queue != []
  {
    s.(queue := s.queue[1..])
  }

  /** `insert` keeps an entry that is already there. */
  function Filed<H>(s: Sched<H>, id: int, h: H): Sched<H> {
    if id in s.finished then s else s.(finished := s.finished[id := h])
  }
}

/** One client and any number of workers over a shared scheduler, interleaved step by step
    (src/Scheduler.cpp, src/Worker.cpp, src/RVExtension.cpp). Jobs are named by the order in which
    they were pushed. `AddJob` is two steps, because it pushes the job before giving it an id and
    takes no lock: workers may run in between. */
module Protocol {
  import opened Jobs
  import opened Results
  import opened SchedulerData

  /** A worker's current job. */
  datatype Current = Idle | Holding(job: nat)

  /** The shared state. `adding`: the newest job has been pushed but has no id yet. `filed` and
      `strays` record history: the jobs a worker has completed with the scheduler, and those among
      them that had no id at that moment. */
  datatype State = State(jobs: seq<JobRecord>, sched: Sched<nat>, adding: bool, workers: seq<Current>,
                         filed: set<nat>, strays: set<nat>)

  /** Push and Assign are the two halves of the client's AddJob; Read is the client's GetResult;
      Tick is the next action of a worker's loop: acquire, execute or complete a job. */
  datatype Step =
    | Push(valid: bool, message: string)
    | Assign
    | Read(id: int, outputSize: nat)
    | Tick(worker: nat, outcome: Outcome)

  ghost function Initial(workerCount: nat): State {
    State([], Sched(0, [], map[]), false, seq(workerCount, _ => Idle), {}, {})
  }

  ghost function Next(s: State, step: Step): State {
    match step
    case Push(valid, message) => if s.adding then s else Pushed(s, valid, message)
    case Assign => if s.adding && s.jobs != [] then Assigned(s) else s
    case Read(id, outputSize) =>
      if id in s.sched.finished && outputSize > 0 && Readable(s, s.sched.finished[id])
      then ReadOnce(s, s.sched.finished[id], outputSize) else s
    case Tick(w, outcome) =>
      if w >= |s.workers| then s
      else if s.workers[w].Idle? then
        if s.sched.queue == [] then s else Acquire(s, w)
      else if s.workers[w].job >= |s.jobs| then s
      else if !s.jobs[s.workers[w].job].completed then ExecuteJob(s, w, outcome)
      else CompleteJob(s, w)
  }

  ghost function Pushed(s: State, valid: bool, message: string): State {
    s.(jobs := s.jobs + [Created(valid, message)],
       sched := s.sched.(queue := s.sched.queue + [|s.jobs|]), adding := true)
  }

  ghost function Assigned(s: State): State
    requires s.jobs != []
  {
    var last := |s.jobs| - 1;
    s.(jobs := s.jobs[last := s.jobs[last].(id := s.sched.counter)],
       sched := s.sched.(counter := s.sched.counter + 1), adding := false)
  }

  /** What GetResult needs of the job it finds; the invariant shows that it always holds. */
  ghost predicate Readable(s: State, h: nat) {
    h < |s.jobs| && Finished(s.jobs[h])
  }

  ghost function ReadOnce(s: State, h: nat, outputSize: nat): State
    requires Readable(s, h) && outputSize > 0
  {
    s.(jobs := s.jobs[h := s.jobs[h].(offset := Answered(s.jobs[h], outputSize).offset)])
  }

  ghost function Acquire(s: State, w: nat): State
    requires w < |s.workers| && s.sched.queue != []
  {
    s.(workers := s.workers[w := Holding(s.sched.queue[0])], sched := Popped(s.sched))
  }

  ghost predicate HasJob(s: State, w: nat) {
    w < |s.workers| && s.workers[w].Holding? && s.workers[w].job < |s.jobs|
  }

  ghost function ExecuteJob(s: State, w: nat, outcome: Outcome): State
    requires HasJob(s, w)
  {
    var h := s.workers[w].job;
    s.(jobs := s.jobs[h := Execute(s.jobs[h], outcome)])
  }

  ghost function CompleteJob(s: State, w: nat): State
    requires HasJob(s, w)
  {
    var h := s.workers[w].job;
    s.(workers := s.workers[w := Idle],
       sched := Filed(s.sched, s.jobs[h].id, h),
       filed := s.filed + {h},
       strays := if s.jobs[h].id == UNASSIGNED then s.strays + {h} else s.strays)
  }

  /** The state after a sequence of steps: every interleaving is such a sequence. */
  ghost function Exec(s: State, steps: seq<Step>): State {
    if steps == [] then s else Next(Exec(s, steps[..|steps| - 1]), steps[|steps| - 1])
  }

  // ----- The invariant

  /** How many jobs have left the queue. */
  ghost function Acquired(s: State): int {
    |s.jobs| - |s.sched.queue|
  }

  /** Ids are handed out in push order, starting at zero; only the job being added lacks one. */
  ghost predicate IdsInOrder(s: State) {
    && s.sched.counter == |s.jobs| - (if s.adding then 1 else 0) >= 0
    && forall h :: 0 <= h < |s.jobs| ==> s.jobs[h].id == if h < s.sched.counter then h else UNASSIGNED
  }

  /** The queue holds the jobs not yet acquired, in push order. */
  ghost predicate QueueInOrder(s: State) {
    && 0 <= Acquired(s)
    && forall i :: 0 <= i < |s.sched.queue| ==> s.sched.queue[i] == Acquired(s) + i
  }

  ghost predicate Holds(s: State, h: nat) {
    Holding(h) in s.workers
  }

  /** Every acquired job is held by exactly one worker or filed, never both. */
  ghost predicate Conserved(s: State) {
    && (forall w :: 0 <= w < |s.workers| && s.workers[w].Holding? ==>
          s.workers[w].job < Acquired(s) && s.workers[w].job !in s.filed)
    && (forall w, v :: 0 <= w < v < |s.workers| && s.workers[w].Holding? ==> s.workers[w] != s.workers[v])
    && (forall h :: h in s.filed ==> h < Acquired(s))
    && (forall h: nat :: h < Acquired(s) && h !in s.filed ==> Holds(s, h))
  }

  /** Jobs are untouched until a worker executes them, and finished before they are filed. */
  ghost predicate JobsProgress(s: State) {
    && (forall h :: 0 <= h < |s.jobs| ==> Finished(s.jobs[h]) || (!s.jobs[h].completed && s.jobs[h].offset == 0))
    && (forall h :: h in s.filed ==> h < |s.jobs| && s.jobs[h].completed)
    && (forall h :: Acquired(s) <= h < |s.jobs| && 0 <= h ==> !s.jobs[h].completed)
  }

  /** The table of finished jobs: each job filed with an id is there under that id; the jobs filed
      without one share a single entry. */
  ghost predicate TableMatches(s: State) {
    && s.strays <= s.filed
    && (forall id :: id in s.sched.finished ==>
          if id == UNASSIGNED then s.sched.finished[id] in s.strays
          else id >= 0 && s.sched.finished[id] == id && id in s.filed && id !in s.strays)
    && (forall h :: h in s.filed ==> if h in s.strays then UNASSIGNED in s.sched.finished else h in s.sched.finished)
  }

  ghost predicate Inv(s: State) {
    IdsInOrder(s) && QueueInOrder(s) && Conserved(s) && JobsProgress(s) && TableMatches(s)
  }

  lemma InitialInv(workerCount: nat)
    ensures Inv(Initial(workerCount))
  {
  }

  lemma {:induction false} PushInv(s: State, valid: bool, message: string)
    requires Inv(s) && !s.adding
    ensures Inv(Pushed(s, valid, message))
  {
  }

  lemma {:induction false} AssignInv(s: State)
    requires Inv(s) && s.adding && s.jobs != []
    ensures Inv(Assigned(s))
  {
  }

  /** Changing one job's record other than its id leaves the bookkeeping alone. */
  lemma {:induction false} RecordInv(s: State, h: nat, j: JobRecord)
    requires Inv(s) && h < |s.jobs| && j.id == s.jobs[h].id && Finished(j)
    requires h < Acquired(s)
    ensures Inv(s.(jobs := s.jobs[h := j]))
  {
    var t := s.(jobs := s.jobs[h := j]);
    assert Conserved(t) by {
      hide IdsInOrder, QueueInOrder, JobsProgress, TableMatches;
      assert forall g :: Holds(s, g) ==> Holds(t, g);
    }
  }

  lemma {:induction false} AcquireInv(s: State, w: nat)
    requires Inv(s) && w < |s.workers| && s.workers[w].Idle? && s.sched.queue != []
    ensures Inv(Acquire(s, w)) && Acquire(s, w).workers[w] == Holding(Acquired(s))
  {
    var t, h := Acquire(s, w), s.sched.queue[0];
    assert h == Acquired(s) && Acquired(t) == Acquired(s) + 1;
    assert IdsInOrder(t) && QueueInOrder(t) && JobsProgress(t) && TableMatches(t);
    hide IdsInOrder, QueueInOrder, JobsProgress, TableMatches;
    forall g: nat | g < Acquired(t) && g !in t.filed ensures Holds(t, g) {
      if g == h {
        assert t.workers[w] == Holding(g);
      } else {
        assert Holds(s, g);
        var v :| 0 <= v < |s.workers| && s.workers[v] == Holding(g);
        assert t.workers[v] == Holding(g);
      }
    }
  }

  lemma {:induction false} CompleteInv(s: State, w: nat)
    requires Inv(s) && HasJob(s, w) && s.jobs[s.workers[w].job].completed
    ensures Inv(CompleteJob(s, w))
  {
    var t, h := CompleteJob(s, w), s.workers[w].job;
    assert IdsInOrder(t) && QueueInOrder(t) && JobsProgress(t);
    assert Conserved(t) by {
      hide IdsInOrder, QueueInOrder, JobsProgress, TableMatches;
      forall g: nat | g < Acquired(t) && g !in t.filed ensures Holds(t, g) {
        assert Holds(s, g);
        var v :| 0 <= v < |s.workers| && s.workers[v] == Holding(g);
        assert t.workers[v] == Holding(g);
      }
    }
    assert TableMatches(t) by {
      assert h !in s.filed;
      assert s.jobs[h].id == if h < s.sched.counter then h else UNASSIGNED;
      hide QueueInOrder, Conserved, JobsProgress, IdsInOrder;
    }
  }

  /** A finished job can be read: what a lookup finds is complete, with its status set. */
  lemma {:induction false} FinishedIsReadable(s: State, id: int)
    requires Inv(s) && id in s.sched.finished
    ensures var h := s.sched.finished[id]; Readable(s, h) && h in s.filed && (id != UNASSIGNED ==> h == id)
  {
    hide Conserved, QueueInOrder, IdsInOrder;
  }

  /** Every step of every thread keeps the invariant. */
  lemma {:induction false} NextInv(s: State, step: Step)
    requires Inv(s)
    ensures Inv(Next(s, step)) && |Next(s, step).workers| == |s.workers|
  {
    match step
    case Push(valid, message) => if !s.adding { PushInv(s, valid, message); }
    case Assign => if s.adding && s.jobs != [] { AssignInv(s); }
    case Read(id, outputSize) =>
      if id in s.sched.finished && outputSize > 0 {
        FinishedIsReadable(s, id);
        var h := s.sched.finished[id];
        var j := s.jobs[h].(offset := Answered(s.jobs[h], outputSize).offset);
        assert h < Acquired(s);
        hide IdsInOrder, QueueInOrder, Conserved, JobsProgress, TableMatches;
        RecordInv(s, h, j);
      }
    case Tick(w, outcome) =>
      if w < |s.workers| {
        if s.workers[w].Idle? {
          if s.sched.queue != [] { AcquireInv(s, w); }
        } else if HasJob(s, w) {
          var h := s.workers[w].job;
          assert h < Acquired(s);
          assert s.jobs[h].completed || s.jobs[h].offset == 0;
          hide IdsInOrder, QueueInOrder, Conserved, JobsProgress, TableMatches;
          if s.jobs[h].completed {
            CompleteInv(s, w);
          } else {
            ExecuteFinishes(s.jobs[h], outcome);
            RecordInv(s, h, Execute(s.jobs[h], outcome));
          }
        }
      }
  }

  lemma {:induction false} ExecInv(s: State, steps: seq<Step>)
    requires Inv(s)
    ensures Inv(Exec(s, steps)) && |Exec(s, steps).workers| == |s.workers|
  {
    if steps == [] {
    } else {
      ExecInv(s, steps[..|steps| - 1]);
      NextInv(Exec(s, steps[..|steps| - 1]), steps[|steps| - 1]);
    }
  }

  // ----- Conservation

  /** Every job ever pushed is in exactly one place: queued once, held by one worker, or filed. */
  lemma {:induction false} EachJobInOnePlace(s: State, h: nat)
    requires Inv(s) && h < |s.jobs|
    ensures var queued, held := if h in s.sched.queue then 1 else 0, if Holds(s, h) then 1 else 0;
            queued + held + (if h in s.filed then 1 else 0) == 1
    ensures forall i, j :: 0 <= i < j < |s.sched.queue| ==> s.sched.queue[i] != s.sched.queue[j]
    ensures forall v, w :: 0 <= v < w < |s.workers| && s.workers[v] == Holding(h) ==> s.workers[w] != Holding(h)
  {
    if h >= Acquired(s) {
      assert s.sched.queue[h - Acquired(s)] == h;
    }
  }

  /** Jobs leave the queue one at a time in the order they were pushed: job number n is the n-th one
      acquired. No other step takes a job from the queue. */
  lemma {:induction false} AcquiredInPushOrder(s: State, step: Step)
    requires Inv(s)
    ensures var t := Next(s, step);
            if step.Tick? && step.worker < |s.workers| && s.workers[step.worker].Idle? && s.sched.queue != []
            then t.workers[step.worker] == Holding(Acquired(s)) && Acquired(t) == Acquired(s) + 1
            else Acquired(t) == Acquired(s)
  {
    hide Conserved, JobsProgress, TableMatches, Answered, Execute;
  }

  /** No job is filed twice, and nothing that is filed is ever lost, replaced or overwritten. */
  lemma {:induction false} FiledOnce(s: State, step: Step)
    requires Inv(s)
    ensures var t := Next(s, step);
            && s.filed <= t.filed && s.strays <= t.strays
            && (t.filed != s.filed ==> HasJob(s, step.worker) && t.filed == s.filed + {s.workers[step.worker].job} &&
                                       s.workers[step.worker].job !in s.filed)
            && (forall id :: id in s.sched.finished ==>
                id in t.sched.finished && t.sched.finished[id] == s.sched.finished[id])
  {
    hide JobsProgress, TableMatches, Answered, Execute;
  }

  // ----- Filing under the right id

  /** The table of finished jobs maps exactly the filed jobs, each under its own id, if and only if no
      worker ever completed a job that its adder had not yet given an id. */
  lemma {:induction false} TableExactIffNoStrays(s: State)
    requires Inv(s)
    ensures s.sched.finished == (map h: int | h in s.filed :: h) <==> s.strays == {}
  {
    hide IdsInOrder, QueueInOrder, Conserved, JobsProgress;
    var expected := map h: int | h in s.filed :: h;
    if s.strays == {} {
      forall id | id in s.sched.finished ensures id in expected && expected[id] == s.sched.finished[id] {
        assert s.sched.finished[id] !in s.strays;
      }
      forall id | id in expected ensures id in s.sched.finished {
        assert id !in s.strays;
      }
    } else {
      var h :| h in s.strays;
      assert UNASSIGNED in s.sched.finished && UNASSIGNED !in expected;
    }
  }

  lemma {:induction false} ExecGrows(s: State, steps: seq<Step>)
    requires Inv(s)
    ensures s.filed <= Exec(s, steps).filed && s.strays <= Exec(s, steps).strays
    ensures forall id :: id in s.sched.finished ==>
              id in Exec(s, steps).sched.finished && Exec(s, steps).sched.finished[id] == s.sched.finished[id]
  {
    hide Inv, Next;
    if steps == [] {
    } else {
      ExecGrows(s, steps[..|steps| - 1]);
      ExecInv(s, steps[..|steps| - 1]);
      FiledOnce(Exec(s, steps[..|steps| - 1]), steps[|steps| - 1]);
    }
  }

  /** A job filed without an id is lost: whatever happens next, asking for it by its id finds nothing. */
  lemma {:induction false} StrayIsLost(s: State, steps: seq<Step>, h: nat)
    requires Inv(s) && h in s.strays
    ensures h !in Exec(s, steps).sched.finished
  {
    ExecInv(s, steps);
    ExecGrows(s, steps);
    hide IdsInOrder, QueueInOrder, Conserved, JobsProgress, Exec;
  }

  lemma RaceStates(outcome: Outcome)
    ensures var tick := Tick(0, outcome);
            var s := Next(Next(Next(Next(Next(Initial(1), Push(true, "")), tick), tick), tick), Assign);
            && s.strays == {0} && |s.jobs| == 1 && s.jobs[0].id == 0
            && 0 !in s.sched.finished && s.sched.finished == map[UNASSIGNED := 0]
  {
    var tick := Tick(0, outcome);
    var a := Next(Initial(1), Push(true, ""));
    var b := Next(a, tick);
    var c := Next(b, tick);
    var d := Next(c, tick);
    assert a.jobs == [Created(true, "")] && a.sched.queue == [0];
    assert b.workers == [Holding(0)] && c.jobs == [Execute(Created(true, ""), outcome)];
    assert d.sched.finished == map[UNASSIGNED := 0] && d.strays == {0};
  }

  lemma ExecNext(s: State, steps: seq<Step>, step: Step)
    ensures Exec(s, []) == s
    ensures Exec(s, steps + [step]) == Next(Exec(s, steps), step)
  {
    assert (steps + [step])[..|steps|] == steps;
  }

  /** The race exists: a single worker can acquire, execute and complete a job between the two halves
      of AddJob. */
  lemma {:induction false} AddJobCanLoseAJob(outcome: Outcome)
    ensures var tick := Tick(0, outcome);
            var s := Exec(Initial(1), [Push(true, ""), tick, tick, tick, Assign]);
            && s.strays == {0} && |s.jobs| == 1 && s.jobs[0].id == 0
            && 0 !in s.sched.finished && s.sched.finished == map[UNASSIGNED := 0]
  {
    hide Next, Initial, Created, Exec;
    var tick := Tick(0, outcome);
    RaceStates(outcome);
    assert [Push(true, ""), tick, tick, tick, Assign] == [Push(true, "")] + [tick] + [tick] + [tick] + [Assign];
    assert [] + [Push(true, "")] == [Push(true, "")];
    ExecNext(Initial(1), [], Push(true, ""));
    ExecNext(Initial(1), [Push(true, "")], tick);
    ExecNext(Initial(1), [Push(true, "")] + [tick], tick);
    ExecNext(Initial(1), [Push(true, "")] + [tick] + [tick], tick);
    ExecNext(Initial(1), [Push(true, "")] + [tick] + [tick] + [tick], Assign);
  }

  /** Every push is directly followed by its assignment, as if AddJob held the lock. */
  ghost predicate AtomicAdds(steps: seq<Step>) {
    forall i :: 0 <= i < |steps| && steps[i].Push? ==> i + 1 < |steps| && steps[i + 1].Assign?
  }

  lemma {:induction false} AtomicAddsPrefix(workerCount: nat, steps: seq<Step>, n: nat)
    requires AtomicAdds(steps) && n <= |steps|
    ensures var s := Exec(Initial(workerCount), steps[..n]);
            Inv(s) && s.strays == {} && (s.adding ==> n > 0 && steps[n - 1].Push?)
  {
    InitialInv(workerCount);
    ExecInv(Initial(workerCount), steps[..n]);
    if n > 0 {
      assert steps[..n][..n - 1] == steps[..n - 1];
      AtomicAddsPrefix(workerCount, steps, n - 1);
      var s, step := Exec(Initial(workerCount), steps[..n - 1]), steps[n - 1];
      hide Exec;
      if s.adding {
        assert step.Assign? && s.jobs != [];
      } else {
        NoStrayStep(s, step);
      }
    }
  }

  /** While no job is being added, no job is filed without an id. */
  lemma {:induction false} NoStrayStep(s: State, step: Step)
    requires Inv(s) && !s.adding
    ensures Next(s, step).strays == s.strays && (Next(s, step).adding ==> step.Push?)
  {
    hide QueueInOrder, Conserved, JobsProgress, TableMatches, Answered, Execute;
  }

  /** With AddJob atomic, in every run the issued ids are 0 to counter - 1, one for each job, and the
      table holds exactly the filed jobs under their ids. */
  lemma {:induction false} AtomicAddsKeepEveryJob(workerCount: nat, steps: seq<Step>)
    requires AtomicAdds(steps)
    ensures var s := Exec(Initial(workerCount), steps);
            && Inv(s) && s.strays == {} && !s.adding
            && s.sched.counter == |s.jobs|
            && (forall h :: 0 <= h < |s.jobs| ==> s.jobs[h].id == h)
            && s.sched.finished == (map h: int | h in s.filed :: h)
  {
    AtomicAddsPrefix(workerCount, steps, |steps|);
    assert steps[..|steps|] == steps;
    TableExactIffNoStrays(Exec(Initial(workerCount), steps));
  }

  // ----- Visibility

  /** A job that can be looked up is never written again except for its read position and, at most,
      the id that is still missing. */
  lemma {:induction false} FinishedIsStableStep(s: State, step: Step, h: nat)
    requires Inv(s) && h in s.filed
    ensures h in Next(s, step).filed && h < |s.jobs| <= |Next(s, step).jobs|
    ensures var a, b := s.jobs[h], Next(s, step).jobs[h]; b == a.(offset := b.offset, id := b.id)
  {
  }

  lemma {:induction false} FinishedIsStable(s: State, steps: seq<Step>, id: int)
    requires Inv(s) && id in s.sched.finished
    ensures var t, h := Exec(s, steps), s.sched.finished[id];
            && id in t.sched.finished && t.sched.finished[id] == h
            && h < |s.jobs| && h < |t.jobs| && Finished(s.jobs[h]) && Finished(t.jobs[h])
            && t.jobs[h] == s.jobs[h].(offset := t.jobs[h].offset, id := t.jobs[h].id)
            && h in t.filed
  {
    FinishedIsReadable(s, id);
    if steps == [] {
    } else {
      var before := steps[..|steps| - 1];
      FinishedIsStable(s, before, id);
      ExecInv(s, before);
      hide IdsInOrder, QueueInOrder, Conserved, JobsProgress, TableMatches, Next;
      FiledOnce(Exec(s, before), steps[|steps| - 1]);
      FinishedIsStableStep(Exec(s, before), steps[|steps| - 1], s.sched.finished[id]);
      ExecInv(s, steps);
      FinishedIsReadable(Exec(s, steps), id);
    }
  }
}
