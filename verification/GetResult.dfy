/** Reading a result in buffer-sized slices: the GetResult branch of the extension's entry point
    (src/RVExtension.cpp) and the script loop that calls it
    (addons/rest-client/functions/rest/fn_createJobSync.sqf). */
module Results {
  import opened Basics
  import opened Jobs

  /** What `strcpy_s` copies of a string: the part before its first NUL. */
  function CString(s: string): (r: string)
    ensures |r| <= |s|
  {
    if s == [] || s[0] == NUL then [] else [s[0]] + CString(s[1..])
  }

  lemma {:induction false} CStringIsUpToNul(s: string)
    ensures CString(s) == s[..|CString(s)|] && NUL !in CString(s)
    ensures |CString(s)| == |s| || s[|CString(s)|] == NUL
    ensures CString(s) == s <==> NUL !in s
  {
    if s == [] || s[0] == NUL {
    } else {
      CStringIsUpToNul(s[1..]);
      assert s == [s[0]] + s[1..];
    }
  }

  /** The text and status of one answer, and the offset the job is left with. */
  datatype Answer = Answer(text: string, status: JobStatus, offset: nat)

  function Answered(j: JobRecord, outputSize: nat): (a: Answer)
    requires Finished(j) && outputSize >= 1
    ensures |a.text| < outputSize && a.offset <= |j.result|
  {
    var remaining := |j.result| - j.offset;
    if |j.result| < outputSize then Answer(CString(j.result), j.status.value, j.offset)
    else if remaining < outputSize then Answer(CString(j.result[j.offset..]), j.status.value, 0)
    else Answer(CString(j.result[j.offset..j.offset + (outputSize - 1)]), ResultSliced, j.offset + (outputSize - 1))
  }

  /** The job after `n` calls with the same buffer size. */
  function AfterCalls(j: JobRecord, outputSize: nat, n: nat): (r: JobRecord)
    requires Finished(j) && outputSize >= 1
    ensures Finished(r) && r == j.(offset := r.offset)
  {
    if n == 0 then j
    else
      var before := AfterCalls(j, outputSize, n - 1);
      before.(offset := Answered(before, outputSize).offset)
  }

  /** The answer to call number `n`, counting from zero. */
  function NthAnswer(j: JobRecord, outputSize: nat, n: nat): Answer
    requires Finished(j) && outputSize >= 1
  {
    Answered(AfterCalls(j, outputSize, n), outputSize)
  }

  /** The texts of the first `n` answers, joined. */
  function Joined(j: JobRecord, outputSize: nat, n: nat): string
    requires Finished(j) && outputSize >= 1
  {
    if n == 0 then "" else Joined(j, outputSize, n - 1) + NthAnswer(j, outputSize, n - 1).text
  }

  /** The number of calls that deliver a result of the given length. */
  function CallCount(length: nat, outputSize: nat): (c: nat)
    requires outputSize >= 2
    ensures c >= 1
  {
    if length < outputSize then 1 else 1 + CallCount(length - (outputSize - 1), outputSize)
  }

  /** One call, or the length divided by the payload of a buffer, rounded up. */
  lemma {:induction false} CallCountIsCeiling(length: nat, outputSize: nat)
    requires outputSize >= 2
    ensures var c, p := CallCount(length, outputSize), outputSize - 1;
            && (length == 0 ==> c == 1)
            && (length > 0 ==> (c - 1) * p < length <= c * p)
  {
    if length < outputSize {
    } else {
      CallCountIsCeiling(length - (outputSize - 1), outputSize);
      var c, p := CallCount(length, outputSize), outputSize - 1;
      assert (c - 1) * p == (c - 2) * p + p && c * p == (c - 1) * p + p;
    }
  }

  /** Where the n-th slice starts: at n payloads. */
  function Start(n: nat, payload: nat): nat {
    if n == 0 then 0 else Start(n - 1, payload) + payload
  }

  ghost predicate Unread(j: JobRecord) {
    Finished(j) && j.offset == 0
  }

  lemma {:induction false} OffsetInCycle(j: JobRecord, outputSize: nat, n: nat)
    requires Unread(j) && outputSize >= 2 && n < CallCount(|j.result|, outputSize)
    ensures var start := Start(n, outputSize - 1);
            && AfterCalls(j, outputSize, n).offset == start <= |j.result|
            && CallCount(|j.result| - start, outputSize) == CallCount(|j.result|, outputSize) - n
            && (n > 0 ==> |j.result| >= outputSize)
  {
    hide CString;
    if n == 0 {
    } else {
      OffsetInCycle(j, outputSize, n - 1);
    }
  }

  /** The last call of a cycle delivers the rest, returns the job's own status and starts over;
      the ones before it deliver a full payload each and say that more will come. */
  lemma {:induction false} AnswerInCycle(j: JobRecord, outputSize: nat, n: nat)
    requires Unread(j) && outputSize >= 2 && n < CallCount(|j.result|, outputSize)
    ensures var c, p, a := CallCount(|j.result|, outputSize), outputSize - 1, NthAnswer(j, outputSize, n);
            && Start(n, p) <= |j.result|
            && (n == c - 1 ==> a == Answer(CString(j.result[Start(n, p)..]), j.status.value, 0))
            && (n < c - 1 ==>
                  var next := Start(n + 1, p);
                  next <= |j.result| && a == Answer(CString(j.result[Start(n, p)..next]), ResultSliced, next))
  {
    hide CString;
    OffsetInCycle(j, outputSize, n);
    var start := Start(n, outputSize - 1);
    if |j.result| < outputSize {
      assert j.result[0..] == j.result;
    }
  }

  /** After a whole cycle the job is as it was, so the answers repeat. */
  lemma {:induction false} CycleRestarts(j: JobRecord, outputSize: nat, n: nat)
    requires Unread(j) && outputSize >= 2
    ensures var c := CallCount(|j.result|, outputSize);
            && AfterCalls(j, outputSize, c + n) == AfterCalls(j, outputSize, n)
            && NthAnswer(j, outputSize, c + n) == NthAnswer(j, outputSize, n)
  {
    hide Answered, CString, CallCount, Start, Finished;
    var c := CallCount(|j.result|, outputSize);
    if n == 0 {
      AnswerInCycle(j, outputSize, c - 1);
      assert AfterCalls(j, outputSize, c) == j.(offset := 0) == j;
    } else {
      CycleRestarts(j, outputSize, n - 1);
      var before := AfterCalls(j, outputSize, c + n - 1);
      assert before == AfterCalls(j, outputSize, n - 1);
    }
  }

  /** Appending a copied piece is faithful exactly when neither part lost anything to a NUL. */
  lemma {:induction false} JoinNul(joined: string, before: string, piece: string)
    requires |joined| <= |before|
    requires joined == before <==> NUL !in before
    ensures joined + CString(piece) == before + piece <==> NUL !in before + piece
    ensures |joined + CString(piece)| <= |before + piece|
  {
    CStringIsUpToNul(piece);
    hide CString;
    if joined + CString(piece) == before + piece {
      assert |joined| == |before| && |CString(piece)| == |piece|;
      assert joined == (joined + CString(piece))[..|joined|] == before;
      assert CString(piece) == (joined + CString(piece))[|joined|..] == piece;
    }
  }

  lemma {:induction false} JoinedPrefix(j: JobRecord, outputSize: nat, n: nat)
    requires Unread(j) && outputSize >= 2 && n < CallCount(|j.result|, outputSize)
    ensures var start := Start(n, outputSize - 1);
            && start <= |j.result|
            && |Joined(j, outputSize, n)| <= start
            && (Joined(j, outputSize, n) == j.result[..start] <==> NUL !in j.result[..start])
  {
    hide Answered, NthAnswer, AfterCalls, CString;
    if n == 0 {
    } else {
      JoinedPrefix(j, outputSize, n - 1);
      AnswerInCycle(j, outputSize, n - 1);
      var a, b := Start(n - 1, outputSize - 1), Start(n, outputSize - 1);
      JoinNul(Joined(j, outputSize, n - 1), j.result[..a], j.result[a..b]);
      assert j.result[..b] == j.result[..a] + j.result[a..b];
    }
  }

  /** One cycle of calls fits the buffer each time, all its answers but the last say that the result
      is sliced, and the job is left as it was found. The joined texts are the result if and only if
      it holds no NUL. */
  lemma {:induction false} CycleDelivers(j: JobRecord, outputSize: nat)
    requires Unread(j) && outputSize >= 2
    ensures var c := CallCount(|j.result|, outputSize);
            && (forall n :: 0 <= n < c - 1 ==> NthAnswer(j, outputSize, n).status == ResultSliced)
            && NthAnswer(j, outputSize, c - 1).status == j.status.value != ResultSliced
            && (Joined(j, outputSize, c) == j.result <==> NUL !in j.result)
            && AfterCalls(j, outputSize, c) == j
  {
    hide Answered, NthAnswer, AfterCalls, Joined, CString, CallCount, Start;
    var c := CallCount(|j.result|, outputSize);
    forall n | 0 <= n < c - 1 ensures NthAnswer(j, outputSize, n).status == ResultSliced {
      AnswerInCycle(j, outputSize, n);
    }
    AnswerInCycle(j, outputSize, c - 1);
    CycleEnds(j, outputSize);
    CycleJoins(j, outputSize);
  }

  lemma {:induction false} CycleEnds(j: JobRecord, outputSize: nat)
    requires Unread(j) && outputSize >= 2
    ensures AfterCalls(j, outputSize, CallCount(|j.result|, outputSize)) == j
  {
    hide Answered, CString, CallCount, Start;
    AnswerInCycle(j, outputSize, CallCount(|j.result|, outputSize) - 1);
  }

  lemma {:induction false} CycleJoins(j: JobRecord, outputSize: nat)
    requires Unread(j) && outputSize >= 2
    ensures Joined(j, outputSize, CallCount(|j.result|, outputSize)) == j.result <==> NUL !in j.result
  {
    hide Answered, NthAnswer, AfterCalls, CString, CallCount, Start;
    var c := CallCount(|j.result|, outputSize);
    AnswerInCycle(j, outputSize, c - 1);
    JoinedPrefix(j, outputSize, c - 1);
    var a := Start(c - 1, outputSize - 1);
    JoinNul(Joined(j, outputSize, c - 1), j.result[..a], j.result[a..]);
    assert j.result[..a] + j.result[a..] == j.result;
  }

  /** With room for the NUL alone, a result that is not empty never arrives: every call returns
      an empty slice. */
  lemma {:induction false} OneByteBufferStalls(j: JobRecord, n: nat)
    requires Unread(j) && j.result != ""
    ensures NthAnswer(j, 1, n) == Answer("", ResultSliced, 0)
  {
    if n > 0 {
      OneByteBufferStalls(j, n - 1);
    }
  }

  /** Some call returns the job's own status if and only if the buffer has room for a character
      or the result is empty. */
  lemma {:induction false} CompletesIff(j: JobRecord, outputSize: nat)
    requires Unread(j) && outputSize >= 1
    ensures (exists n: nat :: NthAnswer(j, outputSize, n).status != ResultSliced) <==> outputSize >= 2 || j.result == ""
  {
    if outputSize >= 2 {
      CycleDelivers(j, outputSize);
    } else if j.result == "" {
      assert NthAnswer(j, outputSize, 0).status != ResultSliced;
    } else {
      forall n: nat ensures NthAnswer(j, outputSize, n).status == ResultSliced {
        OneByteBufferStalls(j, n);
      }
    }
  }

  // ----- Calls for several jobs

  function CountOf(calls: seq<int>, id: int): nat {
    if calls == [] then 0
    else CountOf(calls[..|calls| - 1], id) + (if calls[|calls| - 1] == id then 1 else 0)
  }

  /** The jobs after a sequence of calls, each for the job of the given id. */
  function Served(jobs: map<int, JobRecord>, outputSize: nat, calls: seq<int>): (r: map<int, JobRecord>)
    requires outputSize >= 1 && forall id :: id in jobs ==> Finished(jobs[id])
    ensures r.Keys == jobs.Keys && forall id :: id in r ==> Finished(r[id])
  {
    if calls == [] then jobs
    else
      var before, id := Served(jobs, outputSize, calls[..|calls| - 1]), calls[|calls| - 1];
      if id !in before then before
      else before[id := before[id].(offset := Answered(before[id], outputSize).offset)]
  }

  /** Calls for other jobs are invisible: a job is as if only its own calls had been made, so its
      answers are those of an undisturbed reader. */
  lemma {:induction false} CallsInterleave(jobs: map<int, JobRecord>, outputSize: nat, calls: seq<int>, id: int)
    requires outputSize >= 1 && (forall id :: id in jobs ==> Finished(jobs[id])) && id in jobs
    ensures Served(jobs, outputSize, calls)[id] == AfterCalls(jobs[id], outputSize, CountOf(calls, id))
  {
    hide Answered, Finished;
    if calls == [] {
    } else {
      CallsInterleave(jobs, outputSize, calls[..|calls| - 1], id);
    }
  }

  // ----- The script that reads a result

  /** After the first answer the script goes on reading, if that answer was a slice, until an answer
      has exactly the status RESULT_COMPLETE. `n` is the number of calls after which it stops. */
  ghost predicate ScriptStopsAfter(j: JobRecord, outputSize: nat, n: nat)
    requires Finished(j) && outputSize >= 1
  {
    && n >= 1
    && if NthAnswer(j, outputSize, 0).status != ResultSliced then n == 1
       else n >= 2 && NthAnswer(j, outputSize, n - 1).status == ResultComplete &&
            forall i :: 1 <= i < n - 1 ==> NthAnswer(j, outputSize, i).status != ResultComplete
  }

  lemma {:induction false} NeverComplete(j: JobRecord, outputSize: nat, n: nat)
    requires Unread(j) && outputSize >= 2 && j.status.value != ResultComplete
    ensures NthAnswer(j, outputSize, n).status != ResultComplete
  {
  }

  /** The script terminates if and only if the result fits one buffer or is plain text: on a sliced
      JSON result, or a sliced error message, it reads the same cycle forever. When it stops it has
      made one whole cycle of calls. */
  lemma {:induction false} ScriptTerminatesIff(j: JobRecord, outputSize: nat)
    requires Unread(j) && outputSize >= 2
    ensures (exists n: nat :: ScriptStopsAfter(j, outputSize, n)) <==>
            |j.result| < outputSize || j.status.value == ResultComplete
    ensures forall n: nat :: ScriptStopsAfter(j, outputSize, n) ==> n == CallCount(|j.result|, outputSize)
  {
    var c := CallCount(|j.result|, outputSize);
    CycleDelivers(j, outputSize);
    if |j.result| < outputSize || j.status.value == ResultComplete {
      assert ScriptStopsAfter(j, outputSize, c);
    } else {
      forall n: nat ensures NthAnswer(j, outputSize, n).status != ResultComplete {
        NeverComplete(j, outputSize, n);
      }
    }
  }

  /** A JSON result of three characters, read into a buffer of two: the script never stops. */
  lemma ScriptCanRunForever(n: nat)
    ensures var j := JobRecord(0, true, true, Set(ResultCompleteJson), "[1]", 0);
            Unread(j) && !ScriptStopsAfter(j, 2, n)
  {
    var j := JobRecord(0, true, true, Set(ResultCompleteJson), "[1]", 0);
    hide ScriptStopsAfter;
    ScriptTerminatesIff(j, 2);
  }

  // ----- The entry point

  /** A memory starts with the part of a text before its first NUL, and a NUL behind it. */
  ghost predicate Copied(memory: seq<char>, source: string) {
    exists n :: 0 <= n <= |source| && CopiedUpTo(memory, source, n)
  }

  ghost predicate CopiedUpTo(memory: seq<char>, source: string, n: nat)
    requires n <= |source|
  {
    && n < |memory| && memory[..n] == source[..n] && memory[n] == NUL
    && NUL !in source[..n] && (n < |source| ==> source[n] == NUL)
  }

  /** `strcpy_s`: copies up to the first NUL and terminates the copy; the caller must leave room. */
  method StrCpy(output: array<char>, outputSize: nat, source: string)
    requires |CString(source)| < outputSize <= output.Length
    modifies output
    ensures output[..|CString(source)|] == CString(source)
    ensures output[|CString(source)|] == NUL
    ensures Copied(output[..], source)
  {
    var text := CString(source);
    var i := 0;
    while i < |text|
      invariant i <= |text| && output[..i] == text[..i]
    {
      output[i] := text[i];
      i := i + 1;
    }
    output[i] := NUL;
    CStringIsUpToNul(source);
    assert output[..][..i] == output[..i] == source[..i];
    assert CopiedUpTo(output[..], source, i);
  }

  /** The part of GetResult that follows a successful lookup of the job. */
  method GetResult(output: array<char>, outputSize: nat, job: Job) returns (code: int)
    requires Finished(job.View()) && 1 <= outputSize <= output.Length
    modifies output, job`offset
    ensures var a := Answered(old(job.View()), outputSize);
            && code == a.status.Code()
            && output[..|a.text|] == a.text && output[|a.text|] == NUL
            && job.View() == old(job.View()).(offset := a.offset)
    ensures var r, start := job.result, old(job.offset);
            if |r| < outputSize then
              Copied(output[..], r) && job.offset == start && code == job.status.value.Code()
            else if |r| - start < outputSize then
              Copied(output[..], r[start..]) && job.offset == 0 && code == job.status.value.Code()
            else
              var end := start + outputSize - 1;
              Copied(output[..], r[start..end]) && job.offset == end && code == 0x22
  {
    hide Copied;
    var result := job.result;
    var totalBytes := |result|;
    if totalBytes < outputSize {
      StrCpy(output, outputSize, result);
      return job.status.value.Code();
    }
    var bytesRemaining := totalBytes - job.offset;
    if bytesRemaining < outputSize {
      StrCpy(output, outputSize, result[job.offset..]);
      job.ResetResultOffset();
      return job.status.value.Code();
    }
    StrCpy(output, outputSize, result[job.offset..job.offset + (outputSize - 1)]);
    job.UpdateResultOffset(outputSize - 1);
    return ResultSliced.Code();
  }
}
