/** From the worker that executes a job to the game that has joined the slices of its result
    (src/GetRequest.cpp, src/Worker.cpp, src/Scheduler.cpp, src/RVExtension.cpp). */
module EndToEnd {
  import opened Basics
  import opened Jobs
  import opened Results
  import opened Protocol
  import opened Progress
  import opened Delivery
  import opened SqfPrinter

  /** The step in which a worker executes a job, and what the network had for it. */
  ghost predicate Executes(s: State, step: Step, h: nat, outcome: Outcome) {
    && step.Tick? && step.outcome == outcome
    && HasJob(s, step.worker) && s.workers[step.worker].job == h
    && !s.jobs[h].completed
  }

  /** The text and the status that the game is to get for a job and an outcome. */
  ghost predicate Yields(j: JobRecord, outcome: Outcome, text: string, status: JobStatus) {
    if !j.valid then text == j.result && status == ResultExceptionCaught
    else
      || (outcome == Outcome.Json(text) && status == ResultCompleteJson)
      || (outcome == Outcome.Text(text) && status == ResultComplete)
      || (outcome == Outcome.Threw(text) && status == ResultExceptionCaught)
  }

  /** The job is complete with this result and status, and nobody has read of it yet. */
  ghost predicate Carries(s: State, h: nat, text: string, status: JobStatus) {
    && h < |s.jobs| && s.jobs[h].completed && s.jobs[h].offset == 0
    && s.jobs[h].result == text && s.jobs[h].status == Set(status)
  }

  lemma ExecutionCarries(s: State, step: Step, h: nat, outcome: Outcome, text: string, status: JobStatus)
    requires Inv(s) && Executes(s, step, h, outcome) && Yields(s.jobs[h], outcome, text, status)
    ensures Carries(Next(s, step), h, text, status)
  {
    hide IdsInOrder, QueueInOrder, TableMatches, Execute;
    OutcomesAreStored(s.jobs[h], outcome);
  }

  /** From then on no step but a read of this job touches it. */
  lemma CarriesOn(s: State, step: Step, h: nat, text: string, status: JobStatus)
    requires Inv(s) && s.strays == {} && Carries(s, h, text, status) && !Reads(step, h)
    ensures Carries(Next(s, step), h, text, status)
  {
    hide IdsInOrder, QueueInOrder, Conserved, JobsProgress, Answered;
  }

  ghost predicate NoReads(steps: seq<Step>, h: nat) {
    forall i :: 0 <= i < |steps| ==> !Reads(steps[i], h)
  }

  /** A finite run in which step k executes the job with this outcome, and what that is to yield. */
  ghost predicate Ran(workerCount: nat, steps: seq<Step>, k: nat, h: nat, outcome: Outcome, text: string,
                      status: JobStatus)
  {
    && AtomicAdds(steps) && NoReads(steps, h) && k < |steps|
    && var before := Exec(Initial(workerCount), steps[..k]);
       Executes(before, steps[k], h, outcome) && Yields(before.jobs[h], outcome, text, status)
  }

  lemma {:induction false} RunCarries(workerCount: nat, steps: seq<Step>, k: nat, n: nat, h: nat, outcome: Outcome,
                                      text: string, status: JobStatus)
    requires Ran(workerCount, steps, k, h, outcome, text, status) && k < n <= |steps|
    ensures Carries(Exec(Initial(workerCount), steps[..n]), h, text, status)
  {
    hide Inv, Carries, Executes, Yields, Next, Initial;
    assert steps[..n][..n - 1] == steps[..n - 1];
    AtomicAddsPrefix(workerCount, steps, n - 1);
    if k == n - 1 {
      ExecutionCarries(Exec(Initial(workerCount), steps[..k]), steps[k], h, outcome, text, status);
    } else {
      RunCarries(workerCount, steps, k, n - 1, h, outcome, text, status);
      CarriesOn(Exec(Initial(workerCount), steps[..n - 1]), steps[n - 1], h, text, status);
    }
  }

  /** The same along a schedule in which no more jobs are added. */
  lemma {:induction false} ScheduleCarries(s: State, schedule: Schedule, n: nat, h: nat, text: string,
                                           status: JobStatus)
    requires Inv(s) && s.strays == {} && !s.adding && Carries(s, h, text, status)
    requires AddingStopped(schedule) && forall m: nat :: !Reads(schedule(m), h)
    ensures var t := At(s, schedule, n); Inv(t) && t.strays == {} && !t.adding && Carries(t, h, text, status)
  {
    hide Inv, Carries, Next;
    if n > 0 {
      ScheduleCarries(s, schedule, n - 1, h, text, status);
      var before, step := At(s, schedule, n - 1), schedule(n - 1);
      NextInv(before, step);
      NoStrayStep(before, step);
      CarriesOn(before, step, h, text, status);
    }
  }

  /** A filed job that is no stray is found under its id. */
  lemma FiledIsFound(s: State, h: nat, text: string, status: JobStatus)
    requires Inv(s) && s.strays == {} && Drained(s) && Carries(s, h, text, status)
    ensures Found(s, h)
    ensures FoundJob(s, h).result == text && FoundJob(s, h).status == Set(status) && FoundJob(s, h).offset == 0
  {
    assert h in s.sched.finished by {
      hide IdsInOrder, QueueInOrder, Conserved, JobsProgress;
    }
    FinishedIsReadable(s, h);
    hide Inv;
  }

  /** The state a while after a run. */
  ghost function Later(workerCount: nat, steps: seq<Step>, schedule: Schedule, n: nat): State {
    At(Exec(Initial(workerCount), steps), schedule, n)
  }

  /** A schedule that runs every worker, adds no job and does not read of job h. */
  ghost predicate Waits(schedule: Schedule, workerCount: nat, h: nat) {
    AddingStopped(schedule) && Fair(schedule, workerCount) && forall m: nat :: !Reads(schedule(m), h)
  }

  /** One cycle of reads with buffers of one size, among whatever else happens. */
  ghost predicate OneCycle(more: seq<Step>, h: nat, size: nat, length: nat) {
    size >= 2 && OneSize(more, h, size) && ReadCount(more, h) == CallCount(length, size)
  }

  /** After any run with atomic adds in which a worker executes job h, and any fair schedule that adds no
      more jobs, there is a moment from which the game finds the job with the result and the status that the
      outcome calls for; and whatever happens then, what it has joined after one cycle of reads is that
      result, if and only if it holds no NUL. */
  lemma {:induction false} AnswerArrives(workerCount: nat, steps: seq<Step>, k: nat, h: nat, outcome: Outcome,
                                         text: string, status: JobStatus, schedule: Schedule) returns (n: nat)
    requires workerCount > 0 && Ran(workerCount, steps, k, h, outcome, text, status)
    requires Waits(schedule, workerCount, h)
    ensures var t := Later(workerCount, steps, schedule, n);
            && Found(t, h) && FoundJob(t, h).result == text && FoundJob(t, h).status == Set(status)
            && forall more, size: nat :: OneCycle(more, h, size, |text|) ==>
                 (Received(t, more, h) == text <==> NUL !in text)
  {
    hide Inv, Drained, Carries, Executes, Yields, Found, FoundJob, Received, OneSize, ReadCount, CallCount, Fair;
    var s := Exec(Initial(workerCount), steps);
    assert steps[..|steps|] == steps;
    RunCarries(workerCount, steps, k, |steps|, h, outcome, text, status);
    AtomicAddsKeepEveryJob(workerCount, steps);
    InitialInv(workerCount);
    ExecInv(Initial(workerCount), steps);
    FairSchedulesDrain(s, schedule);
    n :| DrainedFrom(s, schedule, n);
    var t := At(s, schedule, n);
    ScheduleCarries(s, schedule, n, h, text, status);
    FiledIsFound(t, h, text, status);
    forall more, size: nat | OneCycle(more, h, size, |text|)
      ensures Received(t, more, h) == text <==> NUL !in text
    {
      ResultArrives(t, more, h, size);
    }
  }

  /** The body of an answer that is not JSON reaches the game as it is. */
  lemma {:induction false} TextAnswerArrives(workerCount: nat, steps: seq<Step>, k: nat, h: nat, body: string,
                                             schedule: Schedule) returns (n: nat)
    requires workerCount > 0 && AtomicAdds(steps) && NoReads(steps, h) && k < |steps| && NUL !in body
    requires var before := Exec(Initial(workerCount), steps[..k]);
             Executes(before, steps[k], h, Outcome.Text(body)) && before.jobs[h].valid
    requires Waits(schedule, workerCount, h)
    ensures var t := Later(workerCount, steps, schedule, n);
            && Found(t, h) && FoundJob(t, h).status == Set(ResultComplete)
            && forall more, size: nat :: OneCycle(more, h, size, |body|) ==> Received(t, more, h) == body
  {
    hide Inv, Executes, Found, FoundJob, Received, OneSize, ReadCount, CallCount, Fair;
    n := AnswerArrives(workerCount, steps, k, h, Outcome.Text(body), body, ResultComplete, schedule);
  }

  /** The JSON tree of an answer is what the game gets when it decodes what it has joined. */
  lemma {:induction false} JsonAnswerArrives(workerCount: nat, steps: seq<Step>, k: nat, h: nat, tree: Json,
                                             schedule: Schedule) returns (n: nat)
    requires workerCount > 0 && AtomicAdds(steps) && NoReads(steps, h) && k < |steps|
    requires var before := Exec(Initial(workerCount), steps[..k]);
             Executes(before, steps[k], h, Outcome.Json(Printed(tree))) && before.jobs[h].valid
    requires LeavesAreTokens(tree) && NulFree(tree)
    requires Waits(schedule, workerCount, h)
    ensures var t := Later(workerCount, steps, schedule, n);
            && Found(t, h) && FoundJob(t, h).status == Set(ResultCompleteJson)
            && forall more, size: nat :: OneCycle(more, h, size, |Printed(tree)|) ==>
                 Decode(Received(t, more, h)) == Some(tree)
  {
    hide Inv, Executes, Found, FoundJob, Received, OneSize, ReadCount, CallCount, Fair, Printed, Decode;
    var text := Printed(tree);
    n := AnswerArrives(workerCount, steps, k, h, Outcome.Json(text), text, ResultCompleteJson, schedule);
    PrintedTextIsNulFree(tree);
    DecodePrinted(tree);
  }

  lemma PrintedTextIsNulFree(tree: Json)
    requires NulFree(tree)
    ensures NUL !in Printed(tree)
  {
    PrintedIsNulFree(tree);
  }
}
