/** The scheduler and worker objects (src/Scheduler.cpp, src/Worker.cpp). Their methods compute the
    functions that the steps of the protocol are made of. */
module SchedulerObjects {
  import opened Jobs
  import opened SchedulerData

  class Scheduler {
    var jobCounter: int
    var jobQueue: seq<Job>
    var finishedJobs: map<int, Job?>

    function View(): Sched<Job?>
      reads this
    {
      Sched(jobCounter, jobQueue, finishedJobs)
    }

    constructor ()
      ensures View() == Sched(0, [], map[])
    {
      jobCounter, jobQueue, finishedJobs := 0, [], map[];
    }

    method GetNewId() returns (id: int)
      modifies this`jobCounter
      ensures id == old(jobCounter) && jobCounter == old(jobCounter) + 1
    {
      id := jobCounter;
      jobCounter := jobCounter + 1;
    }

    /** Pushes first and assigns the id afterwards, without a lock. */
    method AddJob(job: Job) returns (id: int)
      modifies this, job`id
      ensures View() == Sched(old(jobCounter) + 1, old(jobQueue) + [job], old(finishedJobs))
      ensures id == old(jobCounter) && job.View() == old(job.View()).(id := id)
    {
      jobQueue := jobQueue + [job];
      var newId := GetNewId();
      job.AssignId(newId);
      id := job.id;
    }

    method AcquireJob() returns (job: Job?)
      modifies this`jobQueue
      ensures old(jobQueue) == [] ==> job == null && View() == old(View())
      ensures old(jobQueue) != [] ==> job == old(jobQueue)[0] && View() == Popped(old(View()))
    {
      if jobQueue == [] {
        return null;
      }
      job := jobQueue[0];
      jobQueue := jobQueue[1..];
    }

    method CompleteJob(job: Job)
      modifies this`finishedJobs
      ensures View() == Filed(old(View()), job.id, job)
    {
      if job.id !in finishedJobs {
        finishedJobs := finishedJobs[job.id := job];
      }
    }

    function GetCompletedJob(id: int): Job?
      reads this
    {
      if id in finishedJobs then finishedJobs[id] else null
    }

    /** Forgets a finished job. The id serves as a condition, so the job with id 0 is always refused.
        A disposed job is not found again, and nothing else changes. */
    method Dispose(job: Job?) returns (disposed: bool)
      modifies this`finishedJobs
      ensures disposed <==> job != null && job.id != 0 && old(GetCompletedJob(job.id)) != null
      ensures disposed ==> GetCompletedJob(job.id) == null
      ensures !disposed ==> finishedJobs == old(finishedJobs)
      ensures finishedJobs.Keys == old(finishedJobs).Keys
      ensures forall id :: id in finishedJobs && !(disposed && id == job.id) ==>
          finishedJobs[id] == old(finishedJobs)[id]
    {
      if job != null && job.id != 0 && GetCompletedJob(job.id) != null {
        finishedJobs := finishedJobs[job.id := null];
        return true;
      }
      return false;
    }
  }

  class Worker {
    const scheduler: Scheduler
    var curJob: Job?

    constructor (scheduler: Scheduler)
      ensures this.scheduler == scheduler && curJob == null
    {
      this.scheduler, curJob := scheduler, null;
    }

    method GetNextJob()
      modifies this`curJob, scheduler`jobQueue
      ensures old(scheduler.jobQueue) == [] ==> curJob == null && scheduler.View() == old(scheduler.View())
      ensures old(scheduler.jobQueue) != [] ==>
                curJob == old(scheduler.jobQueue)[0] && scheduler.View() == Popped(old(scheduler.View()))
    {
      curJob := scheduler.AcquireJob();
    }

    method CompleteJob()
      requires curJob != null
      modifies this`curJob, scheduler`finishedJobs
      ensures curJob == null
      ensures scheduler.View() == Filed(old(scheduler.View()), old(curJob).id, old(curJob))
    {
      scheduler.CompleteJob(curJob);
      curJob := null;
    }

    /** One iteration of the work loop, undisturbed by other threads. An idle worker takes the oldest
        job through execution to the finished jobs in one go. */
    method Iterate(outcome: Outcome)
      modifies this`curJob, scheduler`jobQueue, scheduler`finishedJobs, scheduler.jobQueue, curJob
      ensures old(curJob) == null && old(scheduler.jobQueue) == [] ==>
                curJob == null && scheduler.View() == old(scheduler.View())
      ensures old(curJob) == null && old(scheduler.jobQueue) != [] ==>
                var job := old(scheduler.jobQueue)[0];
                && curJob == null
                && job.View() == Execute(old(job.View()), outcome)
                && (forall other :: other in old(scheduler.jobQueue) && other != job ==>
                    other.View() == old(other.View()))
                && scheduler.View() == Filed(Popped(old(scheduler.View())), job.id, job)
      ensures old(curJob) != null ==>
                && old(curJob).View() == old(curJob.View())
                && (forall other :: other in old(scheduler.jobQueue) ==> other.View() == old(other.View()))
                && if old(curJob).completed
                   then curJob == null && scheduler.View() == Filed(old(scheduler.View()), old(curJob).id, old(curJob))
                   else curJob == old(curJob) && scheduler.View() == old(scheduler.View())
    {
      if curJob == null {
        GetNextJob();
        if curJob != null {
          curJob.ExecuteGet(outcome);
          if curJob.completed {
            CompleteJob();
          }
        }
      } else if curJob.completed {
        CompleteJob();
      }
    }
  }
}
