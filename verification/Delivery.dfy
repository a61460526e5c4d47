/** Reading a result while everything else goes on: the slices of one job in any interleaving of client
    and workers (src/RVExtension.cpp, src/Scheduler.cpp, src/Worker.cpp). */
module Delivery {
  import opened ArrayText
  import opened Basics
  import opened Jobs
  import opened Results
  import opened Protocol
  import opened SqfPrinter

  ghost predicate Reads(step: Step, id: int) {
    step.Read? && step.id == id
  }

  ghost function ReadCount(steps: seq<Step>, id: int): nat {
    if steps == [] then 0
    else ReadCount(steps[..|steps| - 1], id) + if Reads(steps[|steps| - 1], id) then 1 else 0
  }

  /** All reads of this job offer a buffer of the same size. */
  ghost predicate OneSize(steps: seq<Step>, id: int, size: nat) {
    forall i :: 0 <= i < |steps| && Reads(steps[i], id) ==> steps[i].outputSize == size
  }

  /** A job that can be looked up under this id, in a state of the protocol. */
  ghost predicate Found(s: State, id: int) {
    Inv(s) && id in s.sched.finished && Readable(s, s.sched.finished[id])
  }

  ghost function FoundJob(s: State, id: int): (j: JobRecord)
    requires Found(s, id)
    ensures Finished(j)
  {
    s.jobs[s.sched.finished[id]]
  }

  /** The texts that the reads of this job have returned, joined. */
  ghost function Received(s: State, steps: seq<Step>, id: int): string {
    if steps == [] then ""
    else
      var before, step := Exec(s, steps[..|steps| - 1]), steps[|steps| - 1];
      Received(s, steps[..|steps| - 1], id) +
      if Reads(step, id) && step.outputSize > 0 && Found(before, id)
      then Answered(FoundJob(before, id), step.outputSize).text else ""
  }

  lemma {:induction false} StaysFound(s: State, steps: seq<Step>, id: int)
    requires Found(s, id)
    ensures Found(Exec(s, steps), id)
  {
    hide Inv, Finished, Exec;
    FinishedIsStable(s, steps, id);
    ExecInv(s, steps);
    FinishedIsReadable(Exec(s, steps), id);
  }

  /** Two ids never lead to the same job. */
  lemma DifferentJobs(s: State, a: int, b: int)
    requires Inv(s) && a in s.sched.finished && b in s.sched.finished && a != b
    ensures s.sched.finished[a] != s.sched.finished[b]
  {
    hide IdsInOrder, QueueInOrder, Conserved, JobsProgress;
  }

  /** Only a read of the job itself moves its offset; its result and status never change. */
  lemma {:induction false} StepOffset(s: State, step: Step, id: int)
    requires Found(s, id) && Found(Next(s, step), id) && (Reads(step, id) ==> step.outputSize > 0)
    ensures var j, k := FoundJob(s, id), FoundJob(Next(s, step), id);
            && k.result == j.result && k.status == j.status
            && k.offset == if Reads(step, id) then Answered(j, step.outputSize).offset else j.offset
  {
    var h := s.sched.finished[id];
    FinishedIsReadable(s, id);
    FinishedIsStableStep(s, step, h);
    FiledOnce(s, step);
    if step.Read? {
      if step.id != id && step.id in s.sched.finished {
        DifferentJobs(s, id, step.id);
      }
    } else {
      OffsetStays(s, step, h);
    }
  }

  lemma OffsetStays(s: State, step: Step, h: nat)
    requires Inv(s) && h in s.filed && h < |s.jobs| && h < |Next(s, step).jobs| && !step.Read?
    ensures Next(s, step).jobs[h].offset == s.jobs[h].offset
  {
    hide IdsInOrder, QueueInOrder, TableMatches;
  }

  /** What an answer says depends on result, status and offset alone. */
  lemma SameAnswer(j: JobRecord, k: JobRecord, size: nat)
    requires Finished(j) && Finished(k) && size >= 1
    requires j.result == k.result && j.status == k.status && j.offset == k.offset
    ensures Answered(j, size) == Answered(k, size)
  {
  }

  /** In any interleaving a job's reads return what an undisturbed reader gets: the n-th one the n-th
      answer. */
  lemma {:induction false} ReadsAreUndisturbed(s: State, steps: seq<Step>, id: int, size: nat)
    requires Found(s, id) && size >= 1 && OneSize(steps, id, size)
    ensures Found(Exec(s, steps), id)
    ensures var j, k, n := FoundJob(s, id), FoundJob(Exec(s, steps), id), ReadCount(steps, id);
            && k.result == j.result && k.status == j.status && k.offset == AfterCalls(j, size, n).offset
            && Answered(k, size) == NthAnswer(j, size, n)
            && Received(s, steps, id) == Joined(j, size, n)
  {
    hide Inv, Finished, Answered, Next;
    StaysFound(s, steps, id);
    var j := FoundJob(s, id);
    if steps == [] {
      SameAnswer(j, AfterCalls(j, size, 0), size);
    } else {
      var prefix, step := steps[..|steps| - 1], steps[|steps| - 1];
      ReadsAreUndisturbed(s, prefix, id, size);
      var before := Exec(s, prefix);
      assert Exec(s, steps) == Next(before, step);
      StepOffset(before, step, id);
      var n := ReadCount(prefix, id);
      SameAnswer(FoundJob(Exec(s, steps), id), AfterCalls(j, size, ReadCount(steps, id)), size);
    }
  }

  /** End to end: whatever other jobs are added, executed, filed and read meanwhile, after one cycle of
      reads the game has the whole result, if and only if the result holds no NUL. */
  lemma {:induction false} ResultArrives(s: State, steps: seq<Step>, id: int, size: nat)
    requires Found(s, id) && FoundJob(s, id).offset == 0 && size >= 2 && OneSize(steps, id, size)
    requires ReadCount(steps, id) == CallCount(|FoundJob(s, id).result|, size)
    ensures Received(s, steps, id) == FoundJob(s, id).result <==> NUL !in FoundJob(s, id).result
    ensures Found(Exec(s, steps), id) && FoundJob(Exec(s, steps), id).offset == 0
  {
    ReadsAreUndisturbed(s, steps, id, size);
    CycleDelivers(FoundJob(s, id), size);
  }

  // ----- A JSON answer, from the printer to the game

  /** The library escapes control characters, so no leaf text holds a NUL. */
  ghost predicate NulFree(tree: Json) {
    match tree
    case Null => true
    case Scalar(t) => NUL !in t
    case Str(t) => NUL !in t
    case Arr(items) => forall i :: 0 <= i < |items| ==> NulFree(items[i])
    case Obj(members) => forall i :: 0 <= i < |members| ==> NUL !in members[i].key && NulFree(members[i].value)
  }

  lemma {:induction false} PrintedIsNulFree(tree: Json)
    requires NulFree(tree)
    ensures NUL !in Show(Tagged(tree))
    decreases tree, 1
  {
    match tree
    case Null =>
    case Scalar(t) =>
    case Str(t) =>
    case Arr(items) =>
      ItemsAreNulFree(items);
      TaggedIsNulFree(ARRAY_TAG, TaggedItems(items));
    case Obj(members) =>
      MembersAreNulFree(members);
      TaggedIsNulFree(OBJECT_TAG, TaggedMembers(members));
  }

  lemma TaggedIsNulFree(tag: string, items: seq<Plain>)
    requires NUL !in tag && NUL !in ShowBody(items)
    ensures NUL !in Show(List([Token(tag), List(items)]))
  {
    ShowPair(tag, List(items));
  }

  lemma {:induction false} ItemsAreNulFree(items: seq<Json>)
    requires forall i :: 0 <= i < |items| ==> NulFree(items[i])
    ensures NUL !in ShowTail(TaggedItems(items)) && NUL !in ShowBody(TaggedItems(items))
    decreases items, 0
  {
    if items != [] {
      PrintedIsNulFree(items[0]);
      ItemsAreNulFree(items[1..]);
      assert TaggedItems(items)[1..] == TaggedItems(items[1..]);
    }
  }

  lemma {:induction false} MembersAreNulFree(members: seq<Member>)
    requires forall i :: 0 <= i < |members| ==> NUL !in members[i].key && NulFree(members[i].value)
    ensures NUL !in ShowTail(TaggedMembers(members)) && NUL !in ShowBody(TaggedMembers(members))
    decreases members, 0
  {
    if members != [] {
      PrintedIsNulFree(members[0].value);
      MembersAreNulFree(members[1..]);
      ShowPair(members[0].key, Tagged(members[0].value));
      assert TaggedMembers(members)[1..] == TaggedMembers(members[1..]);
    }
  }

  /** What the game has joined after one cycle of reads, in any interleaving, decodes to the JSON tree the
      worker printed. */
  lemma {:induction false} JsonArrives(s: State, steps: seq<Step>, id: int, size: nat, tree: Json)
    requires Found(s, id) && FoundJob(s, id).offset == 0 && size >= 2 && OneSize(steps, id, size)
    requires ReadCount(steps, id) == CallCount(|FoundJob(s, id).result|, size)
    requires FoundJob(s, id).result == Printed(tree) && LeavesAreTokens(tree) && NulFree(tree)
    ensures Decode(Received(s, steps, id)) == Some(tree)
  {
    hide Found, FoundJob, Received, CallCount, ReadCount, OneSize, Decode, Tagged, Show;
    PrintedIsNulFree(tree);
    ResultArrives(s, steps, id, size);
    DecodePrinted(tree);
  }
}
