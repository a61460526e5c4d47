/** Jobs (src/Job.h, src/Job.cpp) and what executing a GET request does to one (src/GetRequest.cpp). */
module Jobs {

  datatype JobStatus =
    | CallSuccess | CallEGeneric | JobComplete | JobIncomplete
    | ResultComplete | ResultCompleteJson | ResultSliced | ResultNotReady
    | ResultInvalidInput | ResultExceptionCaught | DebugInfoDump
  {
    function Code(): int {
      match this
      case CallSuccess => 0x00
      case CallEGeneric => 0x0f
      case JobComplete => 0x10
      case JobIncomplete => 0x11
      case ResultComplete => 0x20
      case ResultCompleteJson => 0x21
      case ResultSliced => 0x22
      case ResultNotReady => 0x2f
      case ResultInvalidInput => 0x30
      case ResultExceptionCaught => 0x31
      case DebugInfoDump => 0xff
    }
  }

  /** The game tells answers apart by code alone. */
  lemma CodesAreDistinct(a: JobStatus, b: JobStatus)
    ensures a.Code() == b.Code() ==> a == b
  {
  }

  /** The codes the script compares with. */
  lemma CodesAre()
    ensures CallSuccess.Code() == 0 && CallEGeneric.Code() == 15
    ensures JobComplete.Code() == 16 && JobIncomplete.Code() == 17
    ensures ResultComplete.Code() == 32 && ResultCompleteJson.Code() == 33 && ResultSliced.Code() == 34
    ensures ResultNotReady.Code() == 47 && ResultInvalidInput.Code() == 48 && ResultExceptionCaught.Code() == 49
    ensures DebugInfoDump.Code() == 255
  {
  }

  /** The status member has no initializer: it is unset until the job completes. */
  datatype Status = Unset | Set(value: JobStatus)

  const UNASSIGNED := -1

  /** The fields of a job, as a value. */
  datatype JobRecord = JobRecord(id: int, valid: bool, completed: bool, status: Status, result: string, offset: nat)

  /** What the network layer did with a request; everything else about it is out of the model. */
  datatype Outcome = Json(sqf: string) | Text(body: string) | Threw(message: string)

  /** A job as its constructor leaves it; `message` is the reason an invalid one carries. */
  function Created(valid: bool, message: string): JobRecord {
    JobRecord(UNASSIGNED, valid, false, Unset, if valid then "" else message, 0)
  }

  function Complete(j: JobRecord, result: string, status: JobStatus): JobRecord {
    j.(status := Set(status), result := result, completed := true)
  }

  function Execute(j: JobRecord, outcome: Outcome): JobRecord {
    if !j.valid then j.(completed := true, status := Set(ResultExceptionCaught))
    else
      match outcome
      case Json(sqf) => Complete(j, sqf, ResultCompleteJson)
      case Text(body) => Complete(j, body, ResultComplete)
      case Threw(message) => Complete(j, message, ResultExceptionCaught)
  }

  /** What a reader of a finished job relies on. */
  ghost predicate Finished(j: JobRecord) {
    && j.completed
    && j.status in {Set(ResultComplete), Set(ResultCompleteJson), Set(ResultExceptionCaught)}
    && j.offset <= |j.result|
  }

  /** Execution ends complete on every path, valid or not, and keeps the id. */
  lemma ExecuteFinishes(j: JobRecord, outcome: Outcome)
    requires j.offset == 0
    ensures Finished(Execute(j, outcome)) && Execute(j, outcome).id == j.id
    ensures !j.valid ==> Execute(j, outcome).result == j.result
  {
  }

  /** What execution stores: the answer with the status of its kind, or for an invalid job the reason it
      had already. Everything else about the job stays. */
  lemma OutcomesAreStored(j: JobRecord, outcome: Outcome)
    ensures var r := Execute(j, outcome);
      && r.completed && r.id == j.id && r.valid == j.valid && r.offset == j.offset
      && (!j.valid ==> r.result == j.result && r.status == Set(ResultExceptionCaught))
      && (j.valid && outcome.Json? ==> r.result == outcome.sqf && r.status == Set(ResultCompleteJson))
      && (j.valid && outcome.Text? ==> r.result == outcome.body && r.status == Set(ResultComplete))
      && (j.valid && outcome.Threw? ==> r.result == outcome.message && r.status == Set(ResultExceptionCaught))
  {
  }

  class Job {
    var id: int
    var valid: bool
    var completed: bool
    var status: Status
    var result: string
    var offset: nat

    function View(): JobRecord
      reads this
    {
      JobRecord(id, valid, completed, status, result, offset)
    }

    constructor (valid: bool, message: string)
      ensures View() == Created(valid, message)
    {
      this.valid, id, completed, status, offset := valid, UNASSIGNED, false, Unset, 0;
      result := if valid then "" else message;
    }

    method AssignId(newId: int)
      modifies this`id
      ensures View() == old(View()).(id := newId)
    {
      id := newId;
    }

    method MarkComplete(text: string, newStatus: JobStatus)
      modifies this
      ensures View() == Complete(old(View()), text, newStatus)
      ensures completed && result == text && status == Set(newStatus)
      ensures id == old(id) && valid == old(valid) && offset == old(offset)
    {
      status := Set(newStatus);
      result := text;
      completed := true;
    }

    method UpdateResultOffset(increment: nat)
      modifies this`offset
      ensures View() == old(View()).(offset := old(offset) + increment)
    {
      offset := offset + increment;
    }

    method ResetResultOffset()
      modifies this`offset
      ensures View() == old(View()).(offset := 0)
    {
      offset := 0;
    }

    method ExecuteGet(outcome: Outcome)
      modifies this
      ensures View() == Execute(old(View()), outcome)
      ensures completed && id == old(id) && valid == old(valid) && offset == old(offset)
      ensures !valid ==> result == old(result) && status == Set(ResultExceptionCaught)
      ensures valid && outcome.Json? ==> result == outcome.sqf && status == Set(ResultCompleteJson)
      ensures valid && outcome.Text? ==> result == outcome.body && status == Set(ResultComplete)
      ensures valid && outcome.Threw? ==> result == outcome.message && status == Set(ResultExceptionCaught)
    {
      if !valid {
        completed := true;
        status := Set(ResultExceptionCaught);
        return;
      }
      match outcome
      case Json(sqf) => MarkComplete(sqf, ResultCompleteJson);
      case Text(body) => MarkComplete(body, ResultComplete);
      case Threw(message) => MarkComplete(message, ResultExceptionCaught);
    }
  }
}
