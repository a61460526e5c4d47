/** Progress of the job protocol: once adding stops, every fair schedule empties the queue and
    files every job (src/Worker.cpp). */
module Progress {
  import opened Jobs
  import opened Protocol

  /** An infinite schedule: the step taken at each moment. */
  type Schedule = nat -> Step

  ghost function At(s: State, schedule: Schedule, n: nat): State {
    if n == 0 then s else Next(At(s, schedule, n - 1), schedule(n - 1))
  }

  ghost predicate TicksAt(schedule: Schedule, n: nat, w: nat) {
    schedule(n).Tick? && schedule(n).worker == w
  }

  ghost predicate TicksAgain(schedule: Schedule, n: nat, w: nat) {
    exists m: nat :: m >= n && TicksAt(schedule, m, w)
  }

  /** Every worker takes a step again and again. */
  ghost predicate Fair(schedule: Schedule, workerCount: nat) {
    forall n: nat, w: nat :: w < workerCount ==> TicksAgain(schedule, n, w)
  }

  ghost predicate AddingStopped(schedule: Schedule) {
    forall n: nat :: !schedule(n).Push?
  }

  /** What is left to do for the job a worker holds. */
  ghost function Weight(s: State, w: nat): nat
    requires w < |s.workers|
  {
    match s.workers[w]
    case Idle => 0
    case Holding(h) => if h < |s.jobs| && s.jobs[h].completed then 1 else 2
  }

  ghost function Weights(s: State, n: nat): nat
    requires n <= |s.workers|
  {
    if n == 0 then 0 else Weights(s, n - 1) + Weight(s, n - 1)
  }

  /** Ticks that remain: three for a queued job, two or one for a held one. */
  ghost function Work(s: State): nat {
    3 * |s.sched.queue| + Weights(s, |s.workers|)
  }

  /** Two states whose workers differ at most at `w` differ in weight by what `w` contributes. */
  lemma {:induction false} WeightsDiffer(s: State, t: State, w: nat, n: nat)
    requires |s.workers| == |t.workers| && n <= |s.workers| && w < |s.workers|
    requires forall v :: 0 <= v < |s.workers| && v != w ==> Weight(s, v) == Weight(t, v)
    ensures Weights(t, n) == if n <= w then Weights(s, n) else Weights(s, n) - Weight(s, w) + Weight(t, w)
    ensures n > w ==> Weights(s, n) >= Weight(s, w)
  {
    hide Weight;
    if n > 0 {
      WeightsDiffer(s, t, w, n - 1);
    }
  }

  ghost predicate Busy(s: State, w: nat) {
    w < |s.workers| && (s.workers[w].Holding? || s.sched.queue != [])
  }

  /** A tick of a worker that has something to do uses up one unit of work. */
  lemma {:induction false} BusyTickWorks(s: State, w: nat, outcome: Outcome)
    requires Inv(s) && Busy(s, w)
    ensures Work(Next(s, Tick(w, outcome))) == Work(s) - 1
  {
    var t := Next(s, Tick(w, outcome));
    hide JobsProgress, TableMatches, IdsInOrder;
    if s.workers[w].Idle? {
      var h := s.sched.queue[0];
      assert h == Acquired(s) < |s.jobs|;
      QueuedIsUntouched(s, h);
    } else {
      assert HasJob(s, w);
    }
    forall v | 0 <= v < |s.workers| && v != w ensures Weight(s, v) == Weight(t, v) {
    }
    WeightsDiffer(s, t, w, |s.workers|);
  }

  lemma QueuedIsUntouched(s: State, h: nat)
    requires Inv(s) && Acquired(s) <= h < |s.jobs|
    ensures !s.jobs[h].completed
  {
  }

  /** Nothing else a thread can do, with adding stopped, touches the queue or the workers. */
  lemma {:induction false} OtherStepsKeepWork(s: State, step: Step)
    requires Inv(s) && !step.Push? && !(step.Tick? && Busy(s, step.worker))
    ensures var t := Next(s, step);
            t.workers == s.workers && t.sched.queue == s.sched.queue && Work(t) == Work(s)
  {
    var t := Next(s, step);
    hide JobsProgress, TableMatches, IdsInOrder, Conserved, Results.Answered;
    if |s.workers| > 0 {
      WeightsDiffer(s, t, 0, |s.workers|);
    }
  }

  lemma {:induction false} AtInv(s: State, schedule: Schedule, n: nat)
    requires Inv(s)
    ensures Inv(At(s, schedule, n)) && |At(s, schedule, n).workers| == |s.workers|
  {
    if n > 0 {
      AtInv(s, schedule, n - 1);
      hide Inv, Next;
      NextInv(At(s, schedule, n - 1), schedule(n - 1));
    }
  }

  /** Until work is done, nothing changes for a worker that waits for its turn. */
  lemma {:induction false} WaitingStays(s: State, schedule: Schedule, n: nat, m: nat)
    requires Inv(s) && AddingStopped(schedule) && n <= m
    ensures Work(At(s, schedule, m)) <= Work(At(s, schedule, n))
    ensures Work(At(s, schedule, m)) == Work(At(s, schedule, n)) ==>
              At(s, schedule, m).workers == At(s, schedule, n).workers &&
              At(s, schedule, m).sched.queue == At(s, schedule, n).sched.queue
  {
    hide Inv, Next, Work;
    if n < m {
      WaitingStays(s, schedule, n, m - 1);
      AtInv(s, schedule, m - 1);
      var before, step := At(s, schedule, m - 1), schedule(m - 1);
      if step.Tick? && Busy(before, step.worker) {
        BusyTickWorks(before, step.worker, step.outcome);
      } else {
        OtherStepsKeepWork(before, step);
      }
    }
  }

  /** While work remains, a fair schedule eventually does some of it. */
  lemma {:induction false} WorkShrinks(s: State, schedule: Schedule, n: nat) returns (m: nat)
    requires Inv(s) && AddingStopped(schedule) && Fair(schedule, |s.workers|) && s.workers != []
    requires Work(At(s, schedule, n)) > 0
    ensures Work(At(s, schedule, m)) < Work(At(s, schedule, n))
  {
    hide Inv, Next, Work;
    AtInv(s, schedule, n);
    var now := At(s, schedule, n);
    var w := SomeoneIsBusy(now);
    assert TicksAgain(schedule, n, w);
    var k: nat :| k >= n && TicksAt(schedule, k, w);
    WaitingStays(s, schedule, n, k);
    if Work(At(s, schedule, k)) < Work(now) {
      m := k;
    } else {
      AtInv(s, schedule, k);
      assert Busy(At(s, schedule, k), w);
      BusyTickWorks(At(s, schedule, k), w, schedule(k).outcome);
      m := k + 1;
      assert At(s, schedule, m) == Next(At(s, schedule, k), schedule(k));
    }
  }

  lemma {:induction false} SomeoneIsBusy(s: State) returns (w: nat)
    requires s.workers != [] && Work(s) > 0
    ensures Busy(s, w)
  {
    if s.sched.queue != [] {
      w := 0;
    } else {
      w := HeavyWorker(s, |s.workers|);
    }
  }

  lemma {:induction false} HeavyWorker(s: State, n: nat) returns (w: nat)
    requires n <= |s.workers| && Weights(s, n) > 0
    ensures w < |s.workers| && s.workers[w].Holding?
  {
    if Weight(s, n - 1) > 0 {
      w := n - 1;
    } else {
      w := HeavyWorker(s, n - 1);
    }
  }

  /** Nothing is queued or held, and every job ever pushed has been filed. */
  ghost predicate Drained(s: State) {
    && s.sched.queue == []
    && (forall w :: 0 <= w < |s.workers| ==> s.workers[w].Idle?)
    && (forall h: nat :: h < |s.jobs| ==> h in s.filed)
  }

  lemma {:induction false} NoWorkIsDrained(s: State)
    requires Inv(s) && Work(s) == 0
    ensures Drained(s)
  {
    forall w | 0 <= w < |s.workers| ensures s.workers[w].Idle? {
      WeightlessIsIdle(s, |s.workers|, w);
    }
    hide IdsInOrder, JobsProgress, TableMatches;
    forall h: nat | h < |s.jobs| ensures h in s.filed {
      assert !Holds(s, h);
    }
  }

  lemma {:induction false} WeightlessIsIdle(s: State, n: nat, w: nat)
    requires w < n <= |s.workers| && Weights(s, n) == 0
    ensures s.workers[w].Idle?
  {
    if w < n - 1 {
      WeightlessIsIdle(s, n - 1, w);
    }
  }

  lemma {:induction false} WorkEnds(s: State, schedule: Schedule, n: nat) returns (m: nat)
    requires Inv(s) && AddingStopped(schedule) && Fair(schedule, |s.workers|) && s.workers != []
    ensures Work(At(s, schedule, m)) == 0
    decreases Work(At(s, schedule, n))
  {
    hide Inv, Work;
    if Work(At(s, schedule, n)) == 0 {
      m := n;
    } else {
      var k := WorkShrinks(s, schedule, n);
      m := WorkEnds(s, schedule, k);
    }
  }

  ghost predicate DrainedFrom(s: State, schedule: Schedule, n: nat) {
    forall m: nat :: m >= n ==> Drained(At(s, schedule, m))
  }

  /** Once adding stops, every fair schedule reaches a moment from which on, forever, no job is queued
      or held and every job has been filed. */
  lemma {:induction false} FairSchedulesDrain(s: State, schedule: Schedule)
    requires Inv(s) && AddingStopped(schedule) && Fair(schedule, |s.workers|) && s.workers != []
    ensures exists n: nat :: DrainedFrom(s, schedule, n)
  {
    hide Inv, Drained, Work;
    var n := WorkEnds(s, schedule, 0);
    forall m: nat | m >= n ensures Drained(At(s, schedule, m)) {
      WaitingStays(s, schedule, n, m);
      AtInv(s, schedule, m);
      NoWorkIsDrained(At(s, schedule, m));
    }
    assert DrainedFrom(s, schedule, n);
  }
}
