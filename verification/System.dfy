/** The objects of the extension at work: scheduler, workers and jobs step as the protocol does
    (src/Scheduler.cpp, src/Worker.cpp). */
module SystemObjects {
  import opened Basics
  import opened Jobs
  import opened Results
  import opened SchedulerData
  import opened SchedulerObjects
  import P = Protocol

  /** In the protocol, three undisturbed ticks of an idle worker do what that iteration does. */
  lemma {:induction false} IterationIsThreeTicks(s: P.State, w: nat, outcome: Outcome)
    requires P.Inv(s) && w < |s.workers| && s.workers[w].Idle? && s.sched.queue != []
    ensures var tick := P.Tick(w, outcome);
            var t := P.Next(P.Next(P.Next(s, tick), tick), tick);
            var h := s.sched.queue[0];
            && h < |s.jobs|
            && t.workers == s.workers
            && t.jobs == s.jobs[h := Execute(s.jobs[h], outcome)]
            && t.sched == Filed(Popped(s.sched), s.jobs[h].id, h)
            && t.filed == s.filed + {h}
  {
  }

  /** In the protocol, a push and its assignment do what an undisturbed AddJob does. */
  lemma AddIsTwoSteps(s: P.State, valid: bool, message: string)
    requires !s.adding
    ensures var t := P.Next(P.Next(s, P.Push(valid, message)), P.Assign);
            && t.jobs == s.jobs + [Created(valid, message).(id := s.sched.counter)]
            && t.sched == Sched(s.sched.counter + 1, s.sched.queue + [|s.jobs|], s.sched.finished)
            && t.workers == s.workers
  {
    var pushed := P.Next(s, P.Push(valid, message));
    assert P.Next(pushed, P.Assign) == P.Assigned(pushed);
  }

  /** In the protocol, a read moves the offset of the job it finds, and nothing else. */
  lemma ReadIsOneStep(s: P.State, id: int, outputSize: nat)
    requires P.Inv(s) && outputSize > 0
    ensures var t := P.Next(s, P.Read(id, outputSize));
            if id !in s.sched.finished then t == s
            else
              var h := s.sched.finished[id];
              && h < |s.jobs| && Finished(s.jobs[h])
              && t == s.(jobs := s.jobs[h := s.jobs[h].(offset := Answered(s.jobs[h], outputSize).offset)])
  {
    hide P.Inv, Answered;
    if id in s.sched.finished {
      P.FinishedIsReadable(s, id);
    }
  }

  lemma ExecuteKeepsId(j: JobRecord, outcome: Outcome)
    ensures Execute(j, outcome).id == j.id
  {
  }

  /** The job object that a number of the protocol stands for. */
  ghost predicate Names(all: seq<Job>, h: nat, job: Job?) {
    h < |all| && job == all[h]
  }

  /** The scheduler's data with job objects are those with their numbers. */
  ghost predicate Mirrors(all: seq<Job>, v: Sched<Job?>, s: Sched<nat>) {
    && v.counter == s.counter
    && |v.queue| == |s.queue|
    && (forall i :: 0 <= i < |v.queue| ==> Names(all, s.queue[i], v.queue[i]))
    && v.finished.Keys == s.finished.Keys
    && (forall id :: id in v.finished ==> Names(all, s.finished[id], v.finished[id]))
  }

  lemma MirrorsPushed(all: seq<Job>, job: Job, v: Sched<Job?>, s: Sched<nat>)
    requires Mirrors(all, v, s)
    ensures v.counter == s.counter
    ensures Mirrors(all + [job], Sched(v.counter + 1, v.queue + [job], v.finished),
                    Sched(s.counter + 1, s.queue + [|all|], s.finished))
  {
  }

  lemma MirrorsPopped(all: seq<Job>, v: Sched<Job?>, s: Sched<nat>)
    requires Mirrors(all, v, s)
    ensures v.queue == [] <==> s.queue == []
    ensures s.queue != [] ==> Mirrors(all, Popped(v), Popped(s)) && Names(all, s.queue[0], v.queue[0])
  {
  }

  lemma MirrorsFiled(all: seq<Job>, v: Sched<Job?>, s: Sched<nat>, id: int, h: nat)
    requires Mirrors(all, v, s) && h < |all|
    ensures Mirrors(all, Filed(v, id, all[h]), Filed(s, id, h))
  {
  }

  lemma MirrorsFound(all: seq<Job>, v: Sched<Job?>, s: Sched<nat>, id: int)
    requires Mirrors(all, v, s)
    ensures id in v.finished <==> id in s.finished
    ensures id in v.finished ==> Names(all, s.finished[id], v.finished[id])
  {
  }

  /** A protocol state and the jobs it speaks of, in the order in which they were pushed. */
  class System {
    const scheduler: Scheduler
    const workers: seq<Worker>
    ghost var all: seq<Job>
    ghost var state: P.State

    ghost predicate JobsMatch()
      reads this, all
    {
      && |all| == |state.jobs|
      && (forall i, j :: 0 <= i < j < |all| ==> all[i] != all[j])
      && (forall i :: 0 <= i < |all| ==> all[i].View() == state.jobs[i])
    }

    ghost predicate WorkersMatch()
      reads this, workers
    {
      && |workers| == |state.workers|
      && (forall v, w :: 0 <= v < w < |workers| ==> workers[v] != workers[w])
      && (forall w :: 0 <= w < |workers| ==> workers[w].scheduler == scheduler)
      && (forall w :: 0 <= w < |workers| ==>
            match state.workers[w]
            case Idle => workers[w].curJob == null
            case Holding(h) => Names(all, h, workers[w].curJob))
    }

    /** The objects are in the given state, which is one the protocol allows. */
    ghost predicate Valid()
      reads this, all, scheduler, workers
    {
      JobsMatch() && Mirrors(all, scheduler.View(), state.sched) && WorkersMatch() && P.Inv(state)
    }

    constructor (workerCount: nat)
      ensures Valid() && state == P.Initial(workerCount)
      ensures fresh(scheduler) && forall w :: w in workers ==> fresh(w)
    {
      var s := new Scheduler();
      var pool: seq<Worker> := [];
      while |pool| < workerCount
        invariant |pool| <= workerCount && fresh(s) && s.View() == Sched(0, [], map[])
        invariant forall w :: 0 <= w < |pool| ==> fresh(pool[w]) && pool[w].scheduler == s && pool[w].curJob == null
        invariant forall v, w :: 0 <= v < w < |pool| ==> pool[v] != pool[w]
      {
        var worker := new Worker(s);
        pool := pool + [worker];
      }
      scheduler, workers := s, pool;
      all, state := [], P.Initial(workerCount);
      P.InitialInv(workerCount);
    }

    /** AddJob, undisturbed: a push and the assignment of the id. */
    method AddJob(valid: bool, message: string) returns (id: int)
      requires Valid() && !state.adding
      modifies this, scheduler
      ensures Valid() && id == old(state.sched.counter)
      ensures state == P.Next(P.Next(old(state), P.Push(valid, message)), P.Assign)
      ensures |all| == |old(all)| + 1 && all[..|old(all)|] == old(all) && fresh(all[|old(all)|])
    {
      hide P.Inv, P.Next, Mirrors, Created;
      AddIsTwoSteps(state, valid, message);
      ghost var pushed := P.Next(state, P.Push(valid, message));
      P.NextInv(state, P.Push(valid, message));
      P.NextInv(pushed, P.Assign);
      var job := new Job(valid, message);
      MirrorsPushed(all, job, scheduler.View(), state.sched);
      id := scheduler.AddJob(job);
      all := all + [job];
      state := P.Next(pushed, P.Assign);
    }

    /** An idle worker takes a job. */
    method GetNextJob(w: nat, ghost outcome: Outcome)
      requires Valid() && w < |workers| && state.workers[w].Idle?
      modifies this, workers[w], scheduler`jobQueue
      ensures Valid() && all == old(all) && state == P.Next(old(state), P.Tick(w, outcome))
    {
      hide P.Inv, Mirrors;
      P.NextInv(state, P.Tick(w, outcome));
      MirrorsPopped(all, scheduler.View(), state.sched);
      workers[w].GetNextJob();
      state := P.Next(state, P.Tick(w, outcome));
    }

    /** A worker executes the job it holds. */
    method Execute(w: nat, outcome: Outcome)
      requires Valid() && w < |workers| && P.HasJob(state, w) && !state.jobs[state.workers[w].job].completed
      modifies this, workers[w].curJob
      ensures Valid() && all == old(all) && state == P.Next(old(state), P.Tick(w, outcome))
    {
      hide P.Inv, Mirrors;
      P.NextInv(state, P.Tick(w, outcome));
      workers[w].curJob.ExecuteGet(outcome);
      state := P.Next(state, P.Tick(w, outcome));
    }

    /** A worker files the finished job it holds. */
    method CompleteJob(w: nat, ghost outcome: Outcome)
      requires Valid() && w < |workers| && P.HasJob(state, w) && state.jobs[state.workers[w].job].completed
      modifies this, workers[w], scheduler`finishedJobs
      ensures Valid() && all == old(all) && state == P.Next(old(state), P.Tick(w, outcome))
    {
      hide P.Inv, Mirrors;
      P.NextInv(state, P.Tick(w, outcome));
      MirrorsFiled(all, scheduler.View(), state.sched, workers[w].curJob.id, state.workers[w].job);
      workers[w].CompleteJob();
      state := P.Next(state, P.Tick(w, outcome));
    }

    /** An idle worker takes the oldest job from the queue to the table in one iteration. */
    method TakeThrough(w: nat, outcome: Outcome)
      requires Valid() && w < |workers| && state.workers[w].Idle? && state.sched.queue != []
      modifies this, workers[w], scheduler, scheduler.jobQueue
      ensures Valid() && all == old(all)
      ensures var tick := P.Tick(w, outcome); state == P.Next(P.Next(P.Next(old(state), tick), tick), tick)
    {
      hide P.Inv, P.Next, Jobs.Execute, Mirrors, Popped, Filed;
      ghost var tick := P.Tick(w, outcome);
      ghost var once := P.Next(state, tick);
      P.NextInv(state, tick);
      P.NextInv(once, tick);
      P.NextInv(P.Next(once, tick), tick);
      IterationIsThreeTicks(state, w, outcome);
      ghost var h := state.sched.queue[0];
      MirrorsPopped(all, scheduler.View(), state.sched);
      MirrorsFiled(all, Popped(scheduler.View()), Popped(state.sched), state.jobs[h].id, h);
      ExecuteKeepsId(state.jobs[h], outcome);
      workers[w].Iterate(outcome);
      state := P.Next(P.Next(once, tick), tick);
      forall i | 0 <= i < |all| ensures all[i].View() == state.jobs[i] {
        assert i != h ==> all[i] != all[h] && all[i].View() == old(all[i].View());
      }
    }

    /** A whole iteration of a worker that holds no unfinished job, undisturbed: one tick if there is
        nothing to take or a finished job to file, else the three ticks of a job. */
    method Iterate(w: nat, outcome: Outcome)
      requires Valid() && w < |workers|
      requires P.HasJob(state, w) ==> state.jobs[state.workers[w].job].completed
      modifies this, workers[w], scheduler, scheduler.jobQueue
      ensures Valid() && all == old(all)
      ensures var tick := P.Tick(w, outcome);
              var once := P.Next(old(state), tick);
              state == if old(state.workers[w].Idle? && state.sched.queue != []) then P.Next(P.Next(once, tick), tick)
                       else once
    {
      hide P.Inv, P.Next, Mirrors;
      MirrorsPopped(all, scheduler.View(), state.sched);
      if workers[w].curJob != null {
        CompleteJob(w, outcome);
      } else if scheduler.jobQueue == [] {
        GetNextJob(w, outcome);
      } else {
        TakeThrough(w, outcome);
      }
    }

    /** The game reads a slice of a job's result, if there is one. */
    method GetResult(id: int, output: array<char>, outputSize: nat) returns (code: int)
      requires Valid() && 1 <= outputSize <= output.Length
      modifies this, output, all
      ensures Valid() && all == old(all) && state == P.Next(old(state), P.Read(id, outputSize))
      ensures id !in old(state.sched.finished) ==> code == ResultNotReady.Code() && output[..] == old(output[..])
      ensures id in old(state.sched.finished) ==>
                var h := old(state.sched.finished[id]);
                && h < old(|state.jobs|) && Finished(old(state.jobs[h]))
                && var a := Answered(old(state.jobs[h]), outputSize);
                   code == a.status.Code() && output[..|a.text|] == a.text && output[|a.text|] == NUL
    {
      hide P.Inv, P.Next, Mirrors, Answered, Copied;
      P.NextInv(state, P.Read(id, outputSize));
      ReadIsOneStep(state, id, outputSize);
      MirrorsFound(all, scheduler.View(), state.sched, id);
      var job := scheduler.GetCompletedJob(id);
      if job == null {
        return ResultNotReady.Code();
      }
      P.FinishedIsReadable(state, id);
      code := Results.GetResult(output, outputSize, job);
      state := P.Next(state, P.Read(id, outputSize));
    }
  }
}
