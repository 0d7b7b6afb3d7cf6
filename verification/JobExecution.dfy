/** Running a lint job: retried tasks, conserved progress, and results cut off at a limit. */
module JobExecution {
  import opened Collections
  import L = LintLog

  type JobStatus = L.JobStatus
  type Issue = L.Issue
  type Summary = L.Summary
  type TruncationInfo = L.TruncationInfo

  datatype TaskStatus = TaskQueued | TaskRunning | TaskCompleted | TaskFailed | TaskTimedOut

  /** What went wrong, and whether it was a timeout. */
  datatype Failure = Failure(message: string, timeout: bool)

  /** What the worker pool says to one attempt: a result, which may itself report no success, or an exception. */
  datatype Attempt = Returned(success: bool, results: Option<seq<Issue>>, error: string) | Threw(failure: Failure)

  type Outcome = Result<Option<seq<Issue>>, Failure>

  function OutcomeOf(a: Attempt): Outcome {
    match a
    case Threw(failure) => Err(failure)
    case Returned(success, results, error) =>
      if success then Ok(results) else Err(Failure(if error == "" then "Task execution failed" else error, false))
  }

  /** Delay after a failed attempt: exponential, capped. */
  datatype Backoff = Backoff(initialDelay: nat, maxDelay: nat, multiplier: nat) {
    function After(attempt: nat): (d: nat)
      requires attempt >= 1
      ensures d <= maxDelay
    {
      var delay := initialDelay * Pow(multiplier, attempt - 1);
      if delay < maxDelay then delay else maxDelay
    }

    /** The delays after the first `n` attempts. */
    function Total(n: nat): (t: nat)
      ensures t <= n * maxDelay
    {
      if n == 0 then 0 else Total(n - 1) + After(n)
    }
  }

  function Pow(base: nat, n: nat): nat {
    if n == 0 then 1 else base * Pow(base, n - 1)
  }

  function Min(a: nat, b: nat): (r: nat)
    ensures r == a || r == b
    ensures r <= a && r <= b
  {
    if a < b then a else b
  }

  /** The first delay is the initial one, and each later one is the one before times the multiplier, all capped. */
  lemma DelaysGrow(b: Backoff, n: nat)
    requires n >= 1
    ensures b.After(1) == Min(b.initialDelay, b.maxDelay)
    ensures b.After(n + 1) == Min(b.After(n) * b.multiplier, b.maxDelay)
  {
    FirstPower(b);
    NextPower(b, n);
    CapTimes(b.initialDelay * Pow(b.multiplier, n - 1), b.multiplier, b.maxDelay);
  }

  lemma FirstPower(b: Backoff)
    ensures b.After(1) == Min(b.initialDelay, b.maxDelay)
  {
    assert Pow(b.multiplier, 0) == 1;
  }

  lemma NextPower(b: Backoff, n: nat)
    requires n >= 1
    ensures b.After(n) == Min(b.initialDelay * Pow(b.multiplier, n - 1), b.maxDelay)
    ensures b.After(n + 1) == Min(b.initialDelay * Pow(b.multiplier, n - 1) * b.multiplier, b.maxDelay)
  {
    Regroup(b.initialDelay, b.multiplier, Pow(b.multiplier, n - 1));
  }

  lemma Regroup(a: nat, b: nat, c: nat)
    ensures a * (b * c) == a * c * b
  {}

  /** Capping before multiplying changes nothing once the product is capped again. */
  lemma CapTimes(d: nat, m: nat, cap: nat)
    ensures Min(d * m, cap) == Min(Min(d, cap) * m, cap)
  {
    if d >= cap && m >= 1 {
      Grows(d, m);
      Grows(cap, m);
    }
  }

  lemma Grows(d: nat, m: nat)
    requires m >= 1
    ensures d * m >= d
  {}

  /** The attempt threw, or returned without success. */
  ghost predicate Fails(a: Attempt) {
    a.Threw? || !a.success
  }

  /** The error a failed attempt leaves: what was thrown, or the error returned, or a default. */
  ghost predicate FailsWith(a: Attempt, f: Failure) {
    && Fails(a)
    && (a.Threw? ==> f == a.failure)
    && (a.Returned? && a.error != "" ==> f == Failure(a.error, false))
    && (a.Returned? && a.error == "" ==> f == Failure("Task execution failed", false))
  }

  /**
   * The first success among the attempts allowed, or the last failure; with no attempt allowed, a failure of its own.
   */
  ghost predicate IsRetried(answer: nat -> Attempt, maxAttempts: int, used: nat, r: Outcome) {
    if maxAttempts <= 0 then used == 0 && r == Err(Failure("Task failed after all retry attempts", false))
    else
      && 1 <= used <= maxAttempts && (forall a :: 1 <= a < used ==> Fails(answer(a)))
      && (r.Ok? ==> !Fails(answer(used)) && r.value == answer(used).results)
      && (r.Err? ==> used == maxAttempts && FailsWith(answer(used), r.error))
  }

  /** How a task can come out of its attempts; there is only one way. */
  ghost predicate ComesTo(answer: nat -> Attempt, maxAttempts: int, r: Outcome) {
    exists used: nat :: IsRetried(answer, maxAttempts, used, r)
  }

  method ExecuteTaskWithRetry(answer: nat -> Attempt, maxAttempts: int, backoff: Backoff)
    returns (r: Outcome, ghost used: nat, slept: nat)
    ensures IsRetried(answer, maxAttempts, used, r)
    ensures slept == backoff.Total(if used == 0 then 0 else used - 1)
    ensures maxAttempts >= 1 ==> slept <= (maxAttempts - 1) * backoff.maxDelay
  {
    hide Backoff.After, Backoff.Total;
    r, used, slept := Err(Failure("Task failed after all retry attempts", false)), 0, 0;
    NoDelay(backoff);
    var attempt := 1;
    while attempt <= maxAttempts && r.Err?
      invariant attempt == used + 1 && (maxAttempts > 0 ==> used <= maxAttempts) && (maxAttempts <= 0 ==> used == 0)
      invariant used == 0 ==> r == Err(Failure("Task failed after all retry attempts", false))
      invariant used > 0 ==> r == OutcomeOf(answer(used)) && forall a :: 1 <= a < used ==> Fails(answer(a))
      invariant slept
              == backoff.Total(if used == 0 then 0 else if r.Ok? || used == maxAttempts then used - 1 else used)
      decreases maxAttempts - used
    {
      r := OutcomeOf(answer(attempt));
      if r.Err? && attempt < maxAttempts {
        NextDelay(backoff, attempt);
        slept := slept + backoff.After(attempt);
      }
      used, attempt := attempt, attempt + 1;
    }
    if used > 0 {
      DelayBound(backoff, used - 1, maxAttempts - 1);
    }
  }

  lemma NoDelay(backoff: Backoff)
    ensures backoff.Total(0) == 0
  {}

  lemma NextDelay(backoff: Backoff, n: nat)
    requires n >= 1
    ensures backoff.Total(n) == backoff.Total(n - 1) + backoff.After(n)
  {}

  lemma DelayBound(backoff: Backoff, n: nat, m: nat)
    requires n <= m
    ensures backoff.Total(n) <= m * backoff.maxDelay
  {
    hide Backoff.Total, Backoff.After, Pow;
    Times(n, m, backoff.maxDelay);
  }

  lemma Times(n: nat, m: nat, d: nat)
    requires n <= m
    ensures n * d <= m * d
  {}

  // The job

  datatype Progress = Progress(total: nat, queued: nat, running: nat, completed: nat, failed: nat, timeout: nat) {
    /** Every task is counted in exactly one column. */
    predicate Conserved() {
      queued + running + completed + failed + timeout == total
    }
  }

  class RuleTask {
    const taskId: string
    const maxAttempts: int
    var status: TaskStatus
    var attempt: nat
    var error: Option<string>

    constructor (taskId: string, maxAttempts: int)
      ensures this.taskId == taskId && this.maxAttempts == maxAttempts && status == TaskQueued && attempt == 0
      ensures error == None
    {
      this.taskId, this.maxAttempts := taskId, maxAttempts;
      status, attempt, error := TaskQueued, 0, None;
    }
  }

  datatype JobResult = JobResult(status: JobStatus, summary: Summary, results: seq<Issue>,
                                 truncation: Option<TruncationInfo>)

  /**
   * At most one task, and room for an issue if there is one: what decides before a job runs whether its cuts are told
   * truly.
   */
  predicate FewAndRoomy(tasks: nat, maxIssues: int) {
    tasks == 0 || (tasks == 1 && maxIssues >= 1)
  }

  /** A cut is reported exactly when issues are missing. */
  ghost predicate CutsTruly(r: JobResult, found: nat) {
    r.truncation.Some? <==> |r.results| < found
  }

  function OfSeverity(severity: int): Issue -> bool {
    (i: Issue) => i.severity == severity
  }

  function Summarize(results: seq<Issue>): Summary {
    L.Summary(|results|, |Filter(results, OfSeverity(0))|, |Filter(results, OfSeverity(1))|,
            |Filter(results, OfSeverity(2))|, |Filter(results, OfSeverity(3))|)
  }

  /** What a summary says about the results: how many there are, and how many of each severity. */
  ghost predicate Sums(s: Summary, results: seq<Issue>) {
    && s.totalIssues == |results|
    && s.errorCount == |set i | 0 <= i < |results| && results[i].severity == 0|
    && s.warningCount == |set i | 0 <= i < |results| && results[i].severity == 1|
    && s.infoCount == |set i | 0 <= i < |results| && results[i].severity == 2|
    && s.hintCount == |set i | 0 <= i < |results| && results[i].severity == 3|
  }

  lemma {:induction false} CountsPositions(results: seq<Issue>, severity: int)
    ensures |Filter(results, OfSeverity(severity))| == |set i | 0 <= i < |results| && results[i].severity == severity|
  {
    hide Filter;
    var all := set i | 0 <= i < |results| && results[i].severity == severity;
    if results == [] {
      NoneKept(severity);
      assert all == {};
    } else {
      var n := |results| - 1;
      var init := results[..n];
      CountsPositions(init, severity);
      LastKept(results, severity);
      var before := set i | 0 <= i < |init| && init[i].severity == severity;
      assert all == if results[n].severity == severity then before + {n} else before;
    }
  }

  lemma NoneKept(severity: int)
    ensures Filter([], OfSeverity(severity)) == []
  {}

  lemma LastKept(results: seq<Issue>, severity: int)
    requires results != []
    ensures var n := |results| - 1;
            |Filter(results, OfSeverity(severity))| ==
            |Filter(results[..n], OfSeverity(severity))| + if results[n].severity == severity then 1 else 0
  {}

  lemma SummarySums(results: seq<Issue>)
    ensures Sums(Summarize(results), results)
  {
    hide Filter;
    CountsPositions(results, 0);
    CountsPositions(results, 1);
    CountsPositions(results, 2);
    CountsPositions(results, 3);
  }

  /** The four counts add up to the total exactly when every issue has one of the four severities. */
  lemma {:induction false} SummaryAddsUp(results: seq<Issue>)
    ensures var s := Summarize(results);
            && s.errorCount + s.warningCount + s.infoCount + s.hintCount <= s.totalIssues
            && (s.errorCount + s.warningCount + s.infoCount + s.hintCount == s.totalIssues <==>
                forall i :: 0 <= i < |results| ==> 0 <= results[i].severity <= 3)
  {
    if results == [] {
    } else {
      var init, last := results[..|results| - 1], results[|results| - 1];
      SummaryAddsUp(init);
      forall i | 0 <= i < |init| ensures init[i] == results[i] {}
    }
  }

  /** The issues of the tasks that succeeded, one after the other. */
  function AllIssues(outcomes: seq<Outcome>): seq<Issue> {
    if outcomes == [] then [] else AllIssues(outcomes[..|outcomes| - 1]) + IssuesOf(outcomes[|outcomes| - 1])
  }

  function IssuesOf(o: Outcome): seq<Issue> {
    if o.Ok? && o.value.Some? then o.value.value else []
  }

  function FirstIssues(s: seq<Issue>, limit: nat): seq<Issue> {
    if |s| <= limit then s else s[..limit]
  }

  /** Some task returned an issue list, though an empty one, when the limit had been reached. */
  ghost predicate EmptyPastLimit(outcomes: seq<Outcome>, limit: nat) {
    exists i :: 0 <= i < |outcomes| && outcomes[i] == Ok(Some([])) && |AllIssues(outcomes[..i])| >= limit
  }

  function StatusFor(o: Outcome): TaskStatus {
    if o.Ok? then TaskCompleted else if o.error.timeout then TaskTimedOut else TaskFailed
  }

  function IsOutcome(status: TaskStatus): Outcome -> bool {
    (o: Outcome) => StatusFor(o) == status
  }

  /** How many outcomes give a task this status. */
  function Count(outcomes: seq<Outcome>, status: TaskStatus): nat {
    |Filter(outcomes, IsOutcome(status))|
  }

  lemma CountNext(outcomes: seq<Outcome>, i: nat, status: TaskStatus)
    requires i < |outcomes|
    ensures Count(outcomes[..i + 1], status) ==
            Count(outcomes[..i], status) + if StatusFor(outcomes[i]) == status then 1 else 0
  {
    assert outcomes[..i + 1][..i] == outcomes[..i];
  }

  /** What has been collected from some outcomes: the first issues, the count of all, and whether a cut is reported. */
  datatype Collected = Collected(results: seq<Issue>, count: nat, truncated: bool)

  ghost predicate CollectedFrom(c: Collected, outcomes: seq<Outcome>, limit: nat) {
    && c.results == FirstIssues(AllIssues(outcomes), limit) && c.count == |AllIssues(outcomes)|
    && (c.truncated <==> c.count > limit || EmptyPastLimit(outcomes, limit))
  }

  function Limit(maxIssues: int): nat {
    if maxIssues < 0 then 0 else maxIssues
  }

  lemma EmptyNext(outcomes: seq<Outcome>, o: Outcome, limit: nat)
    ensures EmptyPastLimit(outcomes + [o], limit)
            <==> EmptyPastLimit(outcomes, limit) || (o == Ok(Some([])) && |AllIssues(outcomes)| >= limit)
  {
    var after := outcomes + [o];
    forall i | 0 <= i <= |outcomes| ensures after[..i] == outcomes[..i] {}
    TakeAll(outcomes);
    if EmptyPastLimit(outcomes, limit) {
      var i :| 0 <= i < |outcomes| && outcomes[i] == Ok(Some([])) && |AllIssues(outcomes[..i])| >= limit;
      assert after[i] == outcomes[i];
    }
    if o == Ok(Some([])) && |AllIssues(outcomes)| >= limit {
      assert after[|outcomes|] == o;
    }
  }

  lemma AllNext(outcomes: seq<Outcome>, o: Outcome)
    ensures AllIssues(outcomes + [o]) == AllIssues(outcomes) + IssuesOf(o)
  {
    assert (outcomes + [o])[..|outcomes|] == outcomes;
  }

  /** Take in what one task returned, up to the limit. */
  method Collect(c: Collected, o: Outcome, maxIssues: int, ghost outcomes: seq<Outcome>) returns (after: Collected)
    requires CollectedFrom(c, outcomes, Limit(maxIssues))
    ensures CollectedFrom(after, outcomes + [o], Limit(maxIssues))
  {
    hide AllIssues, EmptyPastLimit;
    EmptyNext(outcomes, o, Limit(maxIssues));
    AllNext(outcomes, o);
    after := c;
    if o.Ok? && o.value.Some? {
      var incoming := o.value.value;
      after := after.(count := c.count + |incoming|);
      if |c.results| < maxIssues {
        var remaining := maxIssues - |c.results|;
        if |incoming| <= remaining {
          after := after.(results := c.results + incoming);
        } else {
          after := after.(results := c.results + incoming[..remaining], truncated := true);
        }
      } else {
        after := after.(truncated := true);
      }
    }
  }

  function CountNextOf(n: nat, o: Outcome, status: TaskStatus): nat {
    n + if StatusFor(o) == status then 1 else 0
  }

  class LintJob {
    const tasks: seq<RuleTask>
    var status: JobStatus
    var progress: Progress

    /** A job as submitted: every task is queued. */
    constructor (tasks: seq<RuleTask>)
      ensures this.tasks == tasks && status == L.Queued && progress == Progress(|tasks|, |tasks|, 0, 0, 0, 0)
      ensures progress.Conserved()
    {
      this.tasks, status := tasks, L.Queued;
      progress := Progress(|tasks|, |tasks|, 0, 0, 0, 0);
    }

    /** A task starts: it is one more running and one less queued. */
    method Start(task: RuleTask)
      requires progress.Conserved() && progress.queued > 0
      modifies this`progress, task`status, task`attempt
      ensures progress.Conserved()
      ensures progress == old(progress).(queued := old(progress).queued - 1, running := old(progress).running + 1)
      ensures task.status == TaskRunning && task.attempt == old(task.attempt) + 1
    {
      task.status := TaskRunning;
      task.attempt := task.attempt + 1;
      progress := progress.(running := progress.running + 1, queued := progress.queued - 1);
    }

    /** A running task ends in exactly one of the three final columns. */
    method Finish(task: RuleTask, o: Outcome)
      requires progress.Conserved() && progress.running > 0
      modifies this`progress, task`status, task`error
      ensures progress.Conserved()
      ensures progress == old(progress).(running := old(progress).running - 1,
                                         completed := CountNextOf(old(progress).completed, o, TaskCompleted),
                                         failed := CountNextOf(old(progress).failed, o, TaskFailed),
                                         timeout := CountNextOf(old(progress).timeout, o, TaskTimedOut))
      ensures task.status == StatusFor(o) && (o.Err? ==> task.error == Some(o.error.message))
    {
      match o
      case Ok(_) =>
        task.status := TaskCompleted;
        progress := progress.(running := progress.running - 1, completed := progress.completed + 1);
      case Err(error) =>
        task.status := if error.timeout then TaskTimedOut else TaskFailed;
        task.error := Some(error.message);
        progress := progress.(running := progress.running - 1);
        if error.timeout {
          progress := progress.(timeout := progress.timeout + 1);
        } else {
          progress := progress.(failed := progress.failed + 1);
        }
    }

    /** Progress after the first `i` tasks have come to these outcomes. */
    ghost predicate At(i: nat, outcomes: seq<Outcome>)
      reads this
    {
      && i == |outcomes| <= |tasks| && progress.Conserved()
      && progress == Progress(|tasks|, |tasks| - i, 0, Count(outcomes, TaskCompleted), Count(outcomes, TaskFailed),
                              Count(outcomes, TaskTimedOut))
    }

    /** One task, from queued to its end. Between its two halves other jobs run, and this one's progress adds up. */
    method RunTask(i: nat, answer: nat -> Attempt, backoff: Backoff, ghost outcomes: seq<Outcome>) returns (o: Outcome)
      requires i < |tasks| && At(i, outcomes)
      modifies this`progress, tasks[i]
      ensures At(i + 1, outcomes + [o]) && ComesTo(answer, tasks[i].maxAttempts, o)
      ensures tasks[i].status == StatusFor(o) && tasks[i].attempt == old(tasks[i].attempt) + 1
    {
      hide Count, IsRetried, OutcomeOf;
      var task := tasks[i];
      Start(task);
      ghost var used;
      var slept;
      o, used, slept := ExecuteTaskWithRetry(answer, task.maxAttempts, backoff);
      Finish(task, o);
      CountAppended(outcomes, o);
    }

    /** Run every task and put the results together. */
    method ExecuteJob(answer: nat -> nat -> Attempt, backoff: Backoff, maxIssues: int)
      returns (r: JobResult, ghost outcomes: seq<Outcome>)
      requires NoDup(tasks) && progress == Progress(|tasks|, |tasks|, 0, 0, 0, 0)
      modifies this, tasks
      ensures |outcomes| == |tasks| && At(|tasks|, outcomes) && progress.Conserved()
      ensures forall i :: 0 <= i < |tasks| ==> ComesTo(answer(i), tasks[i].maxAttempts, outcomes[i])
      ensures forall i :: 0 <= i < |tasks| ==>
              tasks[i].status == StatusFor(outcomes[i]) && tasks[i].attempt == old(tasks[i].attempt) + 1
      ensures CollectedFrom(Collected(r.results, |AllIssues(outcomes)|, r.truncation.Some?), outcomes, Limit(maxIssues))
      ensures r.truncation.Some? ==> r.truncation.value == L.TruncationInfo(maxIssues, |AllIssues(outcomes)|)
      ensures FewAndRoomy(|tasks|, maxIssues) ==> CutsTruly(r, |AllIssues(outcomes)|)
      ensures |AllIssues(outcomes)| <= maxIssues ==> r.results == AllIssues(outcomes)
      ensures r.status == status && Sums(r.summary, r.results)
      ensures status.TimedOut? <==> exists i :: 0 <= i < |tasks| && tasks[i].status == TaskTimedOut
      ensures status.Completed? <==> forall i :: 0 <= i < |tasks| ==> tasks[i].status == TaskCompleted
      ensures status.TimedOut? || status.CompletedWithErrors? || status.Completed?
    {
      hide Count, IsRetried, OutcomeOf, ComesTo, CollectedFrom, AllIssues, Summarize, FewAndRoomy, CutsTruly;
      hide FirstIssues, IssuesOf, Sums;
      status := L.Running;
      outcomes := [];
      var errors, c := 0, Collected([], 0, false);
      NothingYet(Limit(maxIssues));
      for i := 0 to |tasks|
        invariant At(i, outcomes) && CollectedFrom(c, outcomes, Limit(maxIssues))
        invariant forall j :: 0 <= j < i ==> ComesTo(answer(j), tasks[j].maxAttempts, outcomes[j])
        invariant forall j :: 0 <= j < i ==>
                tasks[j].status == StatusFor(outcomes[j]) && tasks[j].attempt == old(tasks[j].attempt) + 1
        invariant forall j :: i <= j < |tasks| ==> tasks[j].attempt == old(tasks[j].attempt)
        invariant errors == progress.failed + progress.timeout
      {
        var o := RunTask(i, answer(i), backoff, outcomes);
        CountAppended(outcomes, o);
        c := Collect(c, o, maxIssues, outcomes);
        if o.Err? {
          errors := errors + 1;
        }
        outcomes := outcomes + [o];
      }
      Tally(outcomes);
      status := if progress.timeout > 0 then L.TimedOut else if errors > 0 then L.CompletedWithErrors else L.Completed;
      SameCount(c, outcomes, Limit(maxIssues));
      r := JobResult(status, Summarize(c.results), c.results,
                     if c.truncated then Some(L.TruncationInfo(maxIssues, c.count)) else None);
      SummarySums(c.results);
      FewTasks(r, c, outcomes, maxIssues);
    }
  }

  lemma CountAppended(outcomes: seq<Outcome>, o: Outcome)
    ensures forall status :: Count(outcomes + [o], status) == CountNextOf(Count(outcomes, status), o, status)
  {
    forall status ensures Count(outcomes + [o], status) == CountNextOf(Count(outcomes, status), o, status) {
      CountNext(outcomes + [o], |outcomes|, status);
      assert (outcomes + [o])[..|outcomes|] == outcomes && (outcomes + [o])[..|outcomes| + 1] == outcomes + [o];
    }
  }

  lemma NothingYet(limit: nat)
    ensures CollectedFrom(Collected([], 0, false), [], limit)
    ensures forall status :: Count([], status) == 0
  {}

  lemma SameCount(c: Collected, outcomes: seq<Outcome>, limit: nat)
    requires CollectedFrom(c, outcomes, limit)
    ensures c.count == |AllIssues(outcomes)|
    ensures |AllIssues(outcomes)| <= limit ==> c.results == AllIssues(outcomes)
  {}

  /** A column is empty exactly when no task ended there. */
  lemma {:induction false} CountZero(outcomes: seq<Outcome>, status: TaskStatus)
    ensures Count(outcomes, status) > 0 <==> exists i :: 0 <= i < |outcomes| && StatusFor(outcomes[i]) == status
  {
    if outcomes == [] {
    } else {
      var n := |outcomes| - 1;
      CountZero(outcomes[..n], status);
      CountNext(outcomes, n, status);
      TakeAll(outcomes);
      if StatusFor(outcomes[n]) != status {
        forall i | 0 <= i < n ensures outcomes[i] == outcomes[..n][i] {}
      }
    }
  }

  lemma Tally(outcomes: seq<Outcome>)
    ensures forall status :: Count(outcomes, status) > 0 <==>
            exists i :: 0 <= i < |outcomes| && StatusFor(outcomes[i]) == status
  {
    hide Count;
    forall status {
      CountZero(outcomes, status);
    }
  }

  /** A cut is reported exactly when issues are lost. */
  ghost predicate ReportsTruly(outcomes: seq<Outcome>, limit: nat) {
    forall c :: CollectedFrom(c, outcomes, limit) ==> (c.truncated <==> |c.results| < c.count)
  }

  lemma TrulyIff(outcomes: seq<Outcome>, limit: nat)
    ensures ReportsTruly(outcomes, limit) <==> (EmptyPastLimit(outcomes, limit) ==> |AllIssues(outcomes)| > limit)
  {
    hide EmptyPastLimit, AllIssues;
    var all := AllIssues(outcomes);
    var c := Collected(FirstIssues(all, limit), |all|, |all| > limit || EmptyPastLimit(outcomes, limit));
    assert CollectedFrom(c, outcomes, limit);
  }

  lemma FewTasksExact(outcomes: seq<Outcome>, limit: nat)
    requires FewAndRoomy(|outcomes|, limit)
    ensures ReportsTruly(outcomes, limit)
  {
    TrulyIff(outcomes, limit);
    forall i | 0 <= i < |outcomes| ensures |AllIssues(outcomes[..i])| == 0 {
      assert outcomes[..i] == [];
    }
  }

  lemma FewTasks(r: JobResult, c: Collected, outcomes: seq<Outcome>, maxIssues: int)
    requires CollectedFrom(c, outcomes, Limit(maxIssues)) && c.results == r.results && c.truncated == r.truncation.Some?
    ensures FewAndRoomy(|outcomes|, maxIssues) ==> CutsTruly(r, |AllIssues(outcomes)|)
  {
    if FewAndRoomy(|outcomes|, maxIssues) {
      FewTasksExact(outcomes, Limit(maxIssues));
    }
  }

  /** The first task fills the limit exactly, and the others find nothing. */
  ghost predicate FillsThenNothing(outcomes: seq<Outcome>, issue: Issue, limit: nat) {
    && outcomes != [] && outcomes[0] == Ok(Some(seq(limit, _ => issue)))
    && forall i :: 1 <= i < |outcomes| ==> outcomes[i] == Ok(Some([]))
  }

  lemma {:induction false} AllFromFirst(outcomes: seq<Outcome>, issue: Issue, limit: nat, n: nat)
    requires FillsThenNothing(outcomes, issue, limit) && 1 <= n <= |outcomes|
    ensures AllIssues(outcomes[..n]) == seq(limit, _ => issue)
  {
    AllNext(outcomes[..n - 1], outcomes[n - 1]);
    TakeNext(outcomes, n - 1);
    if n > 1 {
      AllFromFirst(outcomes, issue, limit, n - 1);
    }
  }

  /** Such a job reports a cut although nothing is missing, unless it has but one task and room for an issue. */
  lemma FillingMisreports(outcomes: seq<Outcome>, issue: Issue, limit: nat)
    requires FillsThenNothing(outcomes, issue, limit) && (|outcomes| == 1 ==> limit == 0)
    ensures !ReportsTruly(outcomes, limit)
  {
    TrulyIff(outcomes, limit);
    AllFromFirst(outcomes, issue, limit, |outcomes|);
    TakeAll(outcomes);
    var last := |outcomes| - 1;
    if last > 0 {
      AllFromFirst(outcomes, issue, limit, last);
    }
    assert outcomes[last] == Ok(Some([])) && |AllIssues(outcomes[..last])| >= limit;
  }

  /** What a job can be asked before it runs: its cuts are reported truly, whatever its tasks return, exactly if it has
      no task, or one task and a limit of at least one. */
  lemma TruncationExact(n: nat, limit: nat)
    ensures (forall outcomes: seq<Outcome> :: |outcomes| == n ==> ReportsTruly(outcomes, limit)) <==>
            FewAndRoomy(n, limit)
  {
    hide ReportsTruly;
    if FewAndRoomy(n, limit) {
      forall outcomes: seq<Outcome> | |outcomes| == n ensures ReportsTruly(outcomes, limit) {
        FewTasksExact(outcomes, limit);
      }
    } else {
      var issue := L.Issue("rule", "code", 0, []);
      var outcomes: seq<Outcome> := seq(n, i => if i == 0 then Ok(Some(seq(limit, _ => issue))) else Ok(Some([])));
      FillingMisreports(outcomes, issue, limit);
    }
  }

  /** A worker pool that answers every attempt of a task alike. */
  function Always(results: seq<Issue>): nat -> Attempt {
    _ => Returned(true, Some(results), "")
  }

  function Finding(results: seq<Issue>): nat -> nat -> Attempt {
    _ => Always(results)
  }

  /** Every list of issues is what some pool makes of a task, and nothing else. */
  lemma AlwaysComesTo(results: seq<Issue>, maxAttempts: int, o: Outcome)
    requires maxAttempts >= 1
    ensures ComesTo(Always(results), maxAttempts, o) <==> o == Ok(Some(results))
  {
    assert IsRetried(Always(results), maxAttempts, 1, Ok(Some(results)));
  }

  /**
   * A job as the service makes it, of one task, under a limit of zero: it reports a cut although its task found
   * nothing.
   */
  method CleanJobReportsCut(job: LintJob, backoff: Backoff) returns (r: JobResult)
    requires |job.tasks| == 1 && job.tasks[0].maxAttempts >= 1 && job.progress == Progress(1, 1, 0, 0, 0, 0)
    modifies job, job.tasks
    ensures r.results == [] && r.truncation == Some(L.TruncationInfo(0, 0))
  {
    hide ComesTo, IsRetried, CollectedFrom, AllIssues, Count, FewAndRoomy, CutsTruly, Sums, StatusFor;
    ghost var outcomes;
    r, outcomes := job.ExecuteJob(Finding([]), backoff, 0);
    AlwaysComesTo([], job.tasks[0].maxAttempts, outcomes[0]);
    CleanReportsCut(r, outcomes);
  }

  lemma CleanReportsCut(r: JobResult, outcomes: seq<Outcome>)
    requires |outcomes| == 1 && outcomes[0] == Ok(Some([]))
    requires CollectedFrom(Collected(r.results, |AllIssues(outcomes)|, r.truncation.Some?), outcomes, 0)
    ensures AllIssues(outcomes) == [] && r.results == [] && r.truncation.Some?
  {
    assert outcomes == [Ok(Some([]))] && outcomes[..0] == [];
    AllNext([], outcomes[0]);
    assert [] + [outcomes[0]] == outcomes;
    assert EmptyPastLimit(outcomes, 0);
  }
}
