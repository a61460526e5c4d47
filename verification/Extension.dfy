/** The extension's entry point (src/RVExtension.cpp) over the scheduler object: three functions the game
    calls by name, with their arguments as text. */
module Extension {
  import opened Basics
  import N = NumericText
  import opened Jobs
  import opened Results
  import opened SchedulerObjects

  datatype ParsedId = NotAnId | Id(value: int)

  const INT_MAX := 0x7fff_ffff

  predicate IsDigit(c: char) {
    '0' <= c <= '9'
  }

  /** The number that the digits at the start of a text continue. */
  function Continued(s: string, value: nat): nat {
    if s != "" && IsDigit(s[0]) then Continued(s[1..], 10 * value + N.DigitValue(s[0])) else value
  }

  /** `std::stoi`: blanks, a sign, digits; what follows them is ignored. It throws when there is no digit
      and when the number does not fit an int. */
  function Stoi(text: string): ParsedId {
    var s := N.SkipSpaces(text);
    var negative := s != "" && s[0] == '-';
    var digits := if s != "" && (s[0] == '-' || s[0] == '+') then s[1..] else s;
    if digits == "" || !IsDigit(digits[0]) then NotAnId
    else
      var n: int := Continued(digits, 0);
      var v := if negative then -n else n;
      if -INT_MAX - 1 <= v <= INT_MAX then Id(v) else NotAnId
  }

  function Decimal(v: int): string {
    (if v < 0 then "-" else "") + N.Digits(N.Abs(v), 10, NUL, 0)
  }

  lemma {:induction false} ContinuedDigits(n: nat, rest: string)
    requires rest == "" || !IsDigit(rest[0])
    ensures Continued(N.Digits(n, 10, NUL, 0) + rest, 0) == n
  {
    DigitsThenMore(n, rest);
  }

  lemma DecimalDigit(d: nat)
    requires d < 10
    ensures IsDigit(N.DigitChar(d)) && N.DigitValue(N.DigitChar(d)) == d
  {
  }

  lemma AppendIs(n: nat, d: nat)
    ensures N.Append(n, 10, d) == 10 * n + d
  {
  }

  lemma OneDigitMore(n: nat)
    ensures var q, last := N.Quotient(n, 10), [N.DigitChar(N.Remainder(n, 10))];
            N.Digits(n, 10, NUL, 0) == if q == 0 then last else N.Digits(q, 10, NUL, 0) + last
  {
    hide N.Quotient, N.Remainder, N.DigitChar;
  }

  lemma {:induction false} DigitsThenMore(n: nat, rest: string)
    ensures Continued(N.Digits(n, 10, NUL, 0) + rest, 0) == Continued(rest, n)
    ensures N.Digits(n, 10, NUL, 0) != "" && IsDigit(N.Digits(n, 10, NUL, 0)[0])
    decreases n
  {
    hide N.Quotient, N.Remainder, N.Digits, N.DigitChar, N.DigitValue;
    var q, d := N.Quotient(n, 10), N.Remainder(n, 10);
    N.AppendLast(n, 10);
    DecimalDigit(d);
    OneDigitMore(n);
    AppendIs(q, d);
    var last := [N.DigitChar(d)];
    assert (last + rest)[1..] == rest;
    if q != 0 {
      DigitsThenMore(q, last + rest);
      assert N.Digits(n, 10, NUL, 0) + rest == N.Digits(q, 10, NUL, 0) + (last + rest);
    }
  }

  /** Every id the extension hands out is understood when the game passes it back, also with other text
      behind it. */
  lemma {:induction false} StoiReadsIds(v: int, rest: string)
    requires -INT_MAX - 1 <= v <= INT_MAX && (rest == "" || !IsDigit(rest[0]))
    ensures Stoi(Decimal(v) + rest) == Id(v)
  {
    hide N.Digits, Continued;
    var digits := N.Digits(N.Abs(v), 10, NUL, 0);
    ContinuedDigits(N.Abs(v), rest);
    DigitsThenMore(N.Abs(v), rest);
    var text := Decimal(v) + rest;
    assert text[0] == if v < 0 then '-' else digits[0];
    assert N.SkipSpaces(text) == text;
    assert text == if v < 0 then "-" + (digits + rest) else digits + rest;
    assert v < 0 ==> text[1..] == digits + rest;
  }

  /** The number that decimal digits write down. */
  function Value(digits: string): nat
    requires forall i :: 0 <= i < |digits| ==> '0' <= digits[i] <= '9'
  {
    if digits == "" then 0
    else
      var n := |digits| - 1;
      10 * Value(digits[..n]) + (digits[n] as int - '0' as int)
  }

  /** A text cut into its blanks, its sign, its digits and the rest, each as long as it can be. */
  ghost predicate IsCut(text: string, blanks: string, sign: string, digits: string, rest: string) {
    && text == blanks + (sign + (digits + rest))
    && (forall i :: 0 <= i < |blanks| ==> N.Blank(blanks[i]))
    && sign in {"", "-", "+"}
    && (forall i :: 0 <= i < |digits| ==> '0' <= digits[i] <= '9')
    && (rest != "" ==> !('0' <= rest[0] <= '9'))
    && (rest != "" && digits == "" && sign == "" ==> !N.Blank(rest[0]) && rest[0] != '-' && rest[0] != '+')
  }

  /** How many blanks a text starts with. */
  function Blanks(s: string): (n: nat)
    ensures n <= |s| && (n < |s| ==> !N.Blank(s[n]))
    ensures forall i :: 0 <= i < n ==> N.Blank(s[i])
  {
    if s == "" || !N.Blank(s[0]) then 0 else 1 + Blanks(s[1..])
  }

  /** The sign a text starts with, if any. */
  function Sign(s: string): (r: string)
    ensures r <= s
  {
    if s != "" && (s[0] == '-' || s[0] == '+') then [s[0]] else ""
  }

  /** How many digits a text starts with. */
  function Digits(s: string): (n: nat)
    ensures n <= |s| && (n < |s| ==> !('0' <= s[n] <= '9'))
    ensures forall i :: 0 <= i < n ==> '0' <= s[i] <= '9'
  {
    if s == "" || !('0' <= s[0] <= '9') then 0 else 1 + Digits(s[1..])
  }

  /** Every text can be cut so. */
  lemma {:induction false} EveryTextIsCut(text: string)
    returns (blanks: string, sign: string, digits: string, rest: string)
    ensures IsCut(text, blanks, sign, digits, rest)
  {
    hide N.Blank, Sign, IsCut;
    var signed, number;
    blanks, signed := BlanksCut(text);
    sign, number := SignCut(signed);
    digits, rest := DigitsCut(number);
    CutOf(text, blanks, signed, sign, number, digits, rest);
  }

  lemma BlanksCut(s: string) returns (blanks: string, signed: string)
    ensures s == blanks + signed
    ensures forall i :: 0 <= i < |blanks| ==> N.Blank(blanks[i])
    ensures signed != "" ==> !N.Blank(signed[0])
  {
    hide N.Blank, Blanks;
    blanks, signed := s[..Blanks(s)], s[Blanks(s)..];
  }

  lemma SignCut(s: string) returns (sign: string, number: string)
    ensures s == sign + number && sign == Sign(s) && (sign == "" ==> number == s)
  {
    sign, number := Sign(s), s[|Sign(s)|..];
  }

  lemma DigitsCut(s: string) returns (digits: string, rest: string)
    ensures s == digits + rest && (digits == "" ==> rest == s)
    ensures forall i :: 0 <= i < |digits| ==> '0' <= digits[i] <= '9'
    ensures rest != "" ==> !('0' <= rest[0] <= '9')
  {
    hide Digits;
    digits, rest := s[..Digits(s)], s[Digits(s)..];
  }

  lemma CutOf(text: string, blanks: string, signed: string, sign: string, number: string, digits: string, rest: string)
    requires text == blanks + signed && signed == sign + number && number == digits + rest
    requires forall i :: 0 <= i < |blanks| ==> N.Blank(blanks[i])
    requires signed != "" ==> !N.Blank(signed[0])
    requires sign == Sign(signed)
    requires forall i :: 0 <= i < |digits| ==> '0' <= digits[i] <= '9'
    requires rest != "" ==> !('0' <= rest[0] <= '9')
    requires (sign == "" ==> number == signed) && (digits == "" ==> rest == number)
    ensures IsCut(text, blanks, sign, digits, rest)
  {
    hide N.Blank;
  }

  lemma {:induction false} ContinuedIsValue(digits: string, rest: string, k: nat)
    requires k <= |digits| && forall i :: 0 <= i < |digits| ==> '0' <= digits[i] <= '9'
    requires rest != "" ==> !('0' <= rest[0] <= '9')
    ensures Continued(digits[k..] + rest, Value(digits[..k])) == Value(digits)
    decreases |digits| - k
  {
    if k == |digits| {
      assert digits[k..] + rest == rest && digits[..k] == digits;
    } else {
      var text := digits[k..] + rest;
      assert text[0] == digits[k] && text[1..] == digits[k + 1..] + rest;
      assert digits[..k + 1][..k] == digits[..k];
      ContinuedIsValue(digits, rest, k + 1);
    }
  }

  /** What any text is taken for: without digits behind the sign it is no id, and neither is a number
      beyond 32 bits; otherwise it is the id that the digits write down. */
  lemma {:induction false} StoiOfText(text: string, blanks: string, sign: string, digits: string, rest: string)
    requires IsCut(text, blanks, sign, digits, rest)
    ensures var v: int := if sign == "-" then 0 - Value(digits) else Value(digits);
            Stoi(text) == if digits != "" && -0x8000_0000 <= v <= 0x7fff_ffff then Id(v) else NotAnId
  {
    hide Continued, N.SkipSpaces, N.IsSpace, N.Blank, Value;
    var number := digits + rest;
    var signed := sign + number;
    assert number == "" <==> digits == "" && rest == "";
    assert digits != "" ==> number[0] == digits[0];
    assert digits == "" ==> number == rest;
    SignAndNumber(sign, number);
    BlanksAreNot();
    N.BlanksAreSpaces();
    N.SkipsBlanks(blanks, signed);
    ContinuedFromStart(digits, rest);
  }

  lemma BlanksAreNot()
    ensures !N.Blank('-') && !N.Blank('+') && forall c :: '0' <= c <= '9' ==> !N.Blank(c)
  {
  }

  lemma SignAndNumber(sign: string, number: string)
    requires sign in {"", "-", "+"}
    ensures var signed := sign + number;
            && (sign == "" ==> signed == number)
            && (sign != "" ==> signed != "" && signed[0] == sign[0] && signed[1..] == number)
            && (sign == "" || sign[0] == '-' || sign[0] == '+')
            && (sign == "-" <==> sign != "" && sign[0] == '-')
  {
    assert sign == "" ==> sign + number == number;
  }

  lemma ContinuedFromStart(digits: string, rest: string)
    requires forall i :: 0 <= i < |digits| ==> '0' <= digits[i] <= '9'
    requires rest != "" ==> !('0' <= rest[0] <= '9')
    ensures Continued(digits + rest, 0) == Value(digits)
  {
    ContinuedIsValue(digits, rest, 0);
    assert digits[0..] == digits && digits[..0] == "";
  }

  predicate Kept(c: char) {
    c !in {'\t', ' ', '"', '\''}
  }

  /** A text without the blanks and quotes that it may hold anywhere. */
  function Trimmed(s: string): (r: string)
    ensures |r| <= |s| && forall c :: c in r <==> c in s && Kept(c)
  {
    if s == "" then "" else (if Kept(s[0]) then [s[0]] else "") + Trimmed(s[1..])
  }

  const TOO_SHORT := "URL too short"
  const MISSING := "Missing valid URL as a first parameter"

  /** Whether the arguments name a target. */
  predicate HasTarget(args: seq<string>) {
    args != [] && |Trimmed(args[0])| >= 3
  }

  /** The positions at which a text has neither a tab, a blank nor a quote. */
  ghost function Counting(s: string): set<int> {
    set i | 0 <= i < |s| && s[i] != '\t' && s[i] != ' ' && s[i] != '"' && s[i] != '\''
  }

  /** A target has at least three such positions. */
  lemma {:induction false} TargetIff(args: seq<string>)
    ensures HasTarget(args) <==> args != [] && |Counting(args[0])| >= 3
  {
    if args != [] {
      TrimmedCounts(args[0]);
    }
  }

  lemma {:induction false} TrimmedCounts(s: string)
    ensures |Trimmed(s)| == |Counting(s)|
  {
    hide Counting, Trimmed, Kept;
    if s == "" {
      CountingNone();
    } else {
      var n := |s| - 1;
      TrimmedCounts(s[..n]);
      TrimmedJoined(s[..n], [s[n]]);
      TrimmedOne(s[n]);
      assert s[..n] + [s[n]] == s;
      CountingLast(s, n);
    }
  }

  lemma CountingNone()
    ensures Counting("") == {} && Trimmed("") == ""
  {
  }

  lemma TrimmedOne(c: char)
    ensures Trimmed([c]) == if Kept(c) then [c] else ""
  {
  }

  lemma CountingLast(s: string, n: nat)
    requires |s| == n + 1
    ensures Counting(s) == Counting(s[..n]) + (if Kept(s[n]) then {n} else {}) && n !in Counting(s[..n])
  {
  }

  lemma {:induction false} TrimmedJoined(a: string, b: string)
    ensures Trimmed(a + b) == Trimmed(a) + Trimmed(b)
  {
    if a == "" {
      assert a + b == b;
    } else {
      assert (a + b)[1..] == a[1..] + b;
      TrimmedJoined(a[1..], b);
    }
  }

  /** The constructor of a request: a missing target is noted first, then every target is checked for its
      length. So a missing one is reported as too short, and what was noted of it is never seen. */
  method NewRequest(args: seq<string>) returns (job: Job)
    ensures fresh(job)
    ensures job.View() == Created(HasTarget(args), TOO_SHORT)
    ensures job.valid == HasTarget(args) && job.result == if job.valid then "" else "URL too short"
    ensures !job.completed && job.status == Unset && job.offset == 0 && job.id == -1
    ensures job.result != MISSING
  {
    var target, valid, result := "", true, "";
    if args != [] {
      target := Trimmed(args[0]);
    } else {
      target, valid, result := "", false, MISSING;
    }
    if |target| < 3 {
      valid, result := false, TOO_SHORT;
    }
    job := new Job(valid, result);
    assert TOO_SHORT[0] != MISSING[0];
  }

  class Extension {
    const scheduler: Scheduler

    constructor (scheduler: Scheduler)
      ensures this.scheduler == scheduler
    {
      this.scheduler := scheduler;
    }

    ghost function Retrievable(): set<Job>
      reads scheduler
    {
      set id | id in scheduler.finishedJobs && scheduler.finishedJobs[id] != null :: scheduler.finishedJobs[id]
    }

    /** The jobs that can be looked up have finished, as they have in every state of the protocol. */
    ghost predicate Valid()
      reads scheduler, Retrievable()
    {
      forall job :: job in Retrievable() ==> Finished(job.View())
    }

    function CheckCode(text: string): int
      reads scheduler
    {
      match Stoi(text)
      case NotAnId => ResultInvalidInput.Code()
      case Id(id) => if scheduler.GetCompletedJob(id) != null then JobComplete.Code() else JobIncomplete.Code()
    }

    /** What a call for a result answers: a refusal that touches nothing, or the next slice; then the only
        job touched is that one, and of it only the offset. */
    twostate predicate Delivered(output: array<char>, outputSize: nat, text: string, code: int)
      requires 1 <= outputSize <= output.Length && old(Valid())
      reads output, scheduler, Retrievable()
    {
      && scheduler.View() == old(scheduler.View())
      && (Stoi(text).NotAnId? ==> code == ResultInvalidInput.Code() && output[..] == old(output[..]))
      && (Stoi(text).Id? ==>
            var job := scheduler.GetCompletedJob(Stoi(text).value);
            if job == null then code == ResultNotReady.Code() && output[..] == old(output[..])
            else
              assert job in old(Retrievable());
              var a := Answered(old(job.View()), outputSize);
              && code == a.status.Code()
              && output[..|a.text|] == a.text && output[|a.text|] == NUL
              && job.View() == old(job.View()).(offset := a.offset)
              && forall other :: other in Retrievable() && other != job ==> other.View() == old(other.View()))
    }

    /** What a request leaves behind: a new job with the next id at the end of the queue, valid exactly if
        it has a target, and nothing else changed. */
    twostate predicate Queued(args: seq<string>, code: int)
      reads scheduler, scheduler.jobQueue
    {
      var queue, before := scheduler.jobQueue, old(scheduler.jobQueue);
      && code == old(scheduler.jobCounter) && scheduler.jobCounter == code + 1
      && scheduler.finishedJobs == old(scheduler.finishedJobs)
      && |queue| == |before| + 1 && queue[..|before|] == before
      && fresh(queue[|before|])
      && queue[|before|].View() == Created(HasTarget(args), TOO_SHORT).(id := code)
    }

    /** Queues a new job, valid or not, and answers with its id. */
    method GetRequest(args: seq<string>) returns (code: int)
      modifies scheduler
      ensures Queued(args, code)
    {
      var job := NewRequest(args);
      code := scheduler.AddJob(job);
    }

    method CheckJob(args: seq<string>) returns (code: int)
      requires args != []
      ensures code == CheckCode(args[0])
      ensures Stoi(args[0]).NotAnId? <==> code == 0x30
      ensures Stoi(args[0]).Id? ==>
                var id := Stoi(args[0]).value;
                code == if id in scheduler.finishedJobs && scheduler.finishedJobs[id] != null then 0x10 else 0x11
    {
      var id := Stoi(args[0]);
      if id.NotAnId? {
        return ResultInvalidInput.Code();
      }
      if scheduler.GetCompletedJob(id.value) != null {
        return JobComplete.Code();
      }
      return JobIncomplete.Code();
    }

    method GetResult(output: array<char>, outputSize: nat, args: seq<string>) returns (code: int)
      requires args != [] && 1 <= outputSize <= output.Length && Valid()
      modifies output, Retrievable()`offset
      ensures Valid()
      ensures Delivered(output, outputSize, args[0], code)
    {
      hide Answered, Copied;
      var id := Stoi(args[0]);
      if id.NotAnId? {
        return ResultInvalidInput.Code();
      }
      var job := scheduler.GetCompletedJob(id.value);
      if job == null {
        return ResultNotReady.Code();
      }
      assert job in Retrievable();
      code := Results.GetResult(output, outputSize, job);
    }

    method RVExtensionArgs(output: array<char>, outputSize: nat, func: string, args: seq<string>) returns (code: int)
      requires 1 <= outputSize <= output.Length && Valid()
      requires func in {"CheckJob", "GetResult"} ==> args != []
      modifies output, scheduler, Retrievable()`offset
      ensures Valid()
      ensures func == "GETRequest" ==> Queued(args, code)
      ensures func != "GETRequest" ==> scheduler.View() == old(scheduler.View())
      ensures func != "GetResult" ==> output[..] == old(output[..])
      ensures func == "CheckJob" ==> code == old(CheckCode(args[0]))
      ensures func == "GetResult" ==> Delivered(output, outputSize, args[0], code)
      ensures func == "dump" ==> code == DebugInfoDump.Code()
      ensures func !in {"GETRequest", "CheckJob", "GetResult", "dump"} ==> code == CallEGeneric.Code()
    {
      if func == "GETRequest" {
        code := GetRequest(args);
        return;
      }
      if func == "CheckJob" {
        code := CheckJob(args);
        return;
      }
      if func == "GetResult" {
        code := GetResult(output, outputSize, args);
        return;
      }
      if func == "dump" {
        return DebugInfoDump.Code();
      }
      return CallEGeneric.Code();
    }
  }
}
