/** Delivering notifications to the report service: retries, a pending directory, and dead letters. */
module ReportClient {
  import opened Collections
  import opened Notifications
  import opened P = PendingStorage
  import S = Shrinker

  /**
   * What a request came to: no usable answer, or a status with its text and, if there is one, the body's success flag.
   */
  datatype Reply = NoAnswer | Answer(status: int, text: string, success: Option<bool>)

  datatype Outcome = Delivered | Permanent(status: int) | Transient

  const NON_RETRYABLE: set<int> := {400, 413, 422}
  const REFUSED := "ECONNREFUSED"

  predicate Mentions(text: string, phrase: string) {
    phrase <= text || (text != "" && Mentions(text[1..], phrase))
  }

  /** The text mentions a phrase exactly when the phrase stands somewhere in it. */
  lemma {:induction false} MentionedSomewhere(text: string, phrase: string)
    ensures Mentions(text, phrase) <==> exists at: nat :: at <= |text| && phrase <= text[at..]
  {
    if phrase <= text {
      assert text[0..] == text;
    } else if text != "" {
      MentionedSomewhere(text[1..], phrase);
      if at: nat :| at <= |text| && phrase <= text[at..] {
        assert at > 0 && text[1..][at - 1..] == text[at..];
      }
      if at: nat :| at <= |text[1..]| && phrase <= text[1..][at..] {
        assert text[1..][at..] == text[at + 1..];
      }
    }
  }

  /** A permanent refusal whose text mentions a refused connection is taken for an unreachable service. */
  function Classify(reply: Reply): (o: Outcome)
    ensures o.Delivered? <==> reply.Answer? && 200 <= reply.status < 300 && reply.success == Some(true)
    ensures o.Permanent? <==>
            reply.Answer? && reply.status in {400, 413, 422} && !Mentions(reply.text, "ECONNREFUSED")
    ensures o.Permanent? ==> o.status == reply.status
  {
    match reply
    case NoAnswer => Transient
    case Answer(status, text, success) =>
      if 200 <= status < 300 then (if success == Some(true) then Delivered else Transient)
      else if status in NON_RETRYABLE && !Mentions(text, REFUSED) then Permanent(status)
      else Transient
  }

  function Pow2(n: nat): (r: nat)
    ensures r >= 1
  {
    if n == 0 then 1 else 2 * Pow2(n - 1)
  }

  lemma {:induction false} Pow2Grows(m: nat, n: nat)
    requires m <= n
    ensures Pow2(m) <= Pow2(n)
  {
    if m < n {
      Pow2Grows(m, n - 1);
    }
  }

  /** `count` answers from the n-th on, none of them final. */
  ghost predicate AllTransient(reply: nat -> Reply, n: nat, count: nat) {
    forall j: nat :: n <= j < n + count ==> Classify(reply(j)).Transient?
  }

  ghost function Repeated<T>(x: T, n: nat): (r: seq<T>)
    ensures |r| == n && forall i :: 0 <= i < n ==> r[i] == x
  {
    if n == 0 then [] else Repeated(x, n - 1) + [x]
  }

  lemma Once<T>(wire: seq<T>, x: T)
    ensures wire + Repeated(x, 1) == wire + [x]
  {}

  lemma Again<T>(wire: seq<T>, x: T, n: nat)
    ensures wire + Repeated(x, n) + [x] == wire + Repeated(x, n + 1)
  {}

  datatype NotificationResult =
    | Invalid
    | Result(success: bool, attempts: nat, storedLocally: bool, truncated: bool, error: Option<Outcome>)

  /** What goes over the wire about a notification: all of it, or, above the limit, prefixes of its issue lists. */
  ghost predicate Carries(payload: JobNotification, n: JobNotification, shrunk: bool) {
    if shrunk then
      && payload.(results := n.results) == n && |payload.results| == |n.results|
      && forall i :: 0 <= i < |n.results| ==> S.IsPrefixOf(payload.results[i], n.results[i])
    else payload == n
  }

  lemma SentCarries(wire: seq<JobNotification>, payload: JobNotification, attempts: nat, n: JobNotification,
                    shrunk: bool)
    requires Carries(payload, n, shrunk)
    ensures forall i :: |wire| <= i < |wire| + attempts ==> Carries((wire + Repeated(payload, attempts))[i], n, shrunk)
  {}

  /** What is wrong with a payload, and where. */
  datatype Complaint = NoJobId | NoDocumentId | NoTimestamp | BadStatus | BadFormat | BadResultStatus(result: nat)
    | BadSeverity(result: nat, issue: nat)

  ghost predicate Wrong(n: JobNotification, c: Complaint) {
    match c
    case NoJobId => n.jobId == ""
    case NoDocumentId => n.documentId == ""
    case NoTimestamp => n.timestamp == ""
    case BadStatus => n.status.OtherStatus?
    case BadFormat =>
      && n.format.Some? && n.format.value != "" && n.format.value != "openapi" && n.format.value != "swagger"
      && n.format.value != "asyncapi" && n.format.value != "unknown"
    case BadResultStatus(i) => i < |n.results| && n.results[i].status.OtherStatus?
    case BadSeverity(i, j) => i < |n.results| && WrongSeverity(n.results[i], j)
  }

  ghost predicate WrongSeverity(rs: RulesetResult, j: nat) {
    j < |rs.issues| && !(0 <= rs.issues[j].severity <= 3)
  }

  lemma NothingWrong(n: JobNotification)
    ensures Acceptable(n) <==> forall c :: !Wrong(n, c)
  {
    if forall c :: !Wrong(n, c) {
      assert !Wrong(n, NoJobId) && !Wrong(n, NoDocumentId) && !Wrong(n, NoTimestamp);
      assert !Wrong(n, BadStatus) && !Wrong(n, BadFormat);
      forall i | 0 <= i < |n.results| ensures !n.results[i].status.OtherStatus? {
        assert !Wrong(n, BadResultStatus(i));
      }
      forall i, j | 0 <= i < |n.results| && 0 <= j < |n.results[i].issues|
        ensures n.results[i].issues[j].severity in {0, 1, 2, 3}
      {
        assert !Wrong(n, BadSeverity(i, j));
      }
    }
  }

  method ValidateResult(rs: RulesetResult, i: nat) returns (errors: seq<Complaint>)
    ensures forall c :: c in errors <==>
              || (c == BadResultStatus(i) && rs.status.OtherStatus?)
              || (c.BadSeverity? && c.result == i && WrongSeverity(rs, c.issue))
  {
    errors := if rs.status.OtherStatus? then [BadResultStatus(i)] else [];
    for j := 0 to |rs.issues|
      invariant forall c :: c in errors <==>
                  || (c == BadResultStatus(i) && rs.status.OtherStatus?)
                  || (c.BadSeverity? && c.result == i && c.issue < j && WrongSeverity(rs, c.issue))
    {
      if rs.issues[j].severity !in [0, 1, 2, 3] {
        errors := errors + [BadSeverity(i, j)];
      }
    }
  }

  method ValidateResults(n: JobNotification) returns (errors: seq<Complaint>)
    ensures forall c :: c in errors <==> Wrong(n, c) && (c.BadResultStatus? || c.BadSeverity?)
  {
    errors := [];
    for i := 0 to |n.results|
      invariant forall c :: c in errors <==>
                  Wrong(n, c) && (c.BadResultStatus? || c.BadSeverity?) && c.result < i
    {
      var more := ValidateResult(n.results[i], i);
      errors := errors + more;
    }
  }

  /** Every fault is complained about, and nothing else. */
  method ValidateNotification(n: JobNotification) returns (errors: seq<Complaint>)
    ensures forall c :: c in errors <==> Wrong(n, c)
    ensures errors == [] <==> Acceptable(n)
  {
    errors := [];
    if n.jobId == "" { errors := errors + [NoJobId]; }
    if n.documentId == "" { errors := errors + [NoDocumentId]; }
    if n.timestamp == "" { errors := errors + [NoTimestamp]; }
    if n.status.OtherStatus? { errors := errors + [BadStatus]; }
    if n.format.Some? && n.format.value != "" {
      if n.format.value !in ["openapi", "swagger", "asyncapi", "unknown"] {
        errors := errors + [BadFormat];
      }
    }
    var more := ValidateResults(n);
    errors := errors + more;
    NothingWrong(n);
    assert errors != [] ==> errors[0] in errors;
  }

  datatype Fortune = Success | Failure | Moved

  datatype RetryStats = RetryStats(totalPending: nat, successfulRetries: nat, failedRetries: nat,
                                   movedToDeadLetter: nat)

  /** In how many of the three places the notification is. */
  ghost function Places(d: Disk, n: JobNotification): nat {
    (if n.jobId in d.pending && d.pending[n.jobId].notification == n then 1 else 0)
    + (if n.jobId in d.deadLetter && d.deadLetter[n.jobId].item.notification == n then 1 else 0)
    + (if n in d.acked then 1 else 0)
  }

  /** Putting an undelivered notification aside: stored, and then, if it was refused for good, moved. */
  ghost function AsideSteps(d: Disk, n: JobNotification, o: Outcome, fates: nat -> Fate, at: nat): seq<Disk> {
    StoreSteps(d, n, fates, at)
    + if fates(at).Done? && o.Permanent? then MoveSteps(Written(d, n), n.jobId, NonRetryable(o.status), fates, at + 1)
      else []
  }

  /** What a request does to the disk: nothing, or the acknowledgement it brings. */
  ghost function Receipt(d: Disk, n: JobNotification, o: Outcome): seq<Disk> {
    if o.Delivered? then [Acknowledged(d, n)] else []
  }

  /** What a whole notification does to the disk, once its last request has come to `o`. */
  ghost function NotifySteps(d: Disk, n: JobNotification, o: Outcome, fates: nat -> Fate, at: nat): seq<Disk> {
    if o.Delivered? then [Acknowledged(d, n)] else AsideSteps(d, n, o, fates, at)
  }

  /** One item of a retry run: moved if its tries are used up; else counted, sent, and then removed, moved or left. */
  ghost function RetrySteps(d: Disk, item: Pending, o: Outcome, limit: int, fates: nat -> Fate, at: nat): seq<Disk>
    requires item.notification.jobId in d.pending
  {
    var id := item.notification.jobId;
    if item.attempts >= limit then MoveSteps(d, id, TooManyAttempts(item.attempts, limit), fates, at)
    else if !fates(at).Done? || !fates(at + 1).Done? then []
    else
      var counted := Counted(d, id);
      match o
      case Transient => [counted]
      case Permanent(status) => [counted] + MoveSteps(counted, id, NonRetryable(status), fates, at + 2)
      case Delivered =>
        var acknowledged := Acknowledged(counted, item.notification);
        [counted, acknowledged] + RemoveSteps(acknowledged, id, fates, at + 2)
  }

  /** And how it is counted: a move or removal counts as done unless one of its operations fails. */
  ghost function FortuneOf(d: Disk, item: Pending, o: Outcome, limit: int, fates: nat -> Fate, at: nat): Fortune
    requires item.notification.jobId in d.pending
  {
    var id := item.notification.jobId;
    if item.attempts >= limit then (if MoveReported(d, id, fates, at) then Moved else Failure)
    else if !fates(at).Done? || !fates(at + 1).Done? then Failure
    else
      match o
      case Transient => Failure
      case Permanent(_) => if MoveReported(Counted(d, id), id, fates, at + 2) then Moved else Failure
      case Delivered => if fates(at + 2).Broken? then Failure else Success
  }

  lemma FortuneTells(d: Disk, item: Pending, o: Outcome, limit: int, fates: nat -> Fate, at: nat)
    requires item.notification.jobId in d.pending && d.pending[item.notification.jobId] == item
    ensures var after := After(d, RetrySteps(d, item, o, limit, fates, at));
            var how := FortuneOf(d, item, o, limit, fates, at);
            && Retried(d, after, item, how, limit)
            && ((forall i :: fates(i).Done?) ==> RetriedWell(after, item, how, limit))
  {}

  /** The notification is nowhere yet, nor is any file of its id. */
  ghost predicate Unknown(d: Disk, n: JobNotification) {
    n.jobId !in d.pending && n.jobId !in d.deadLetter && n !in d.acked
  }

  /** A notification not known before ends in exactly one place when file operations work. */
  lemma InOnePlace(d: Disk, n: JobNotification, o: Outcome, fates: nat -> Fate, at: nat)
    requires Unknown(d, n) && forall i :: fates(i).Done?
    ensures Places(After(d, NotifySteps(d, n, o, fates, at)), n) == 1
  {}

  /** Undelivered, it is on disk if and only if the first write worked, whatever became of the rest. */
  lemma KeptIfWritten(d: Disk, n: JobNotification, o: Outcome, fates: nat -> Fate, at: nat)
    requires Unknown(d, n) && !o.Delivered?
    ensures Places(After(d, NotifySteps(d, n, o, fates, at)), n) >= 1 <==> fates(at).Done?
    ensures var after := After(d, NotifySteps(d, n, o, fates, at));
            n.jobId in after.pending ==> after.pending[n.jobId] == Pending(n, 0)
  {}

  /** One retry run: whatever is still pending had tries left, and has used one. */
  ghost predicate Advanced(before: map<string, Pending>, after: map<string, Pending>, limit: int) {
    forall id :: id in after ==>
        id in before && before[id].attempts < limit && after[id] == before[id].(attempts := before[id].attempts + 1)
  }

  class ReportServiceClient {
    const storage: PendingStorage
    /** The server's answer to the n-th request, and the serialised length of a payload. */
    const reply: nat -> Reply
    const size: JobNotification -> S.Bytes

    const maxRetries: int
    const baseRetryDelay: nat
    const maxPendingRetries: int
    const maxPayloadBytes: int

    /** Requests made, time slept, and what went over the wire. */
    var sends: nat
    var slept: nat
    ghost var wire: seq<JobNotification>

    ghost predicate Valid()
      reads this, storage
    {
      storage.Valid() && |wire| == sends
    }

    constructor (storage: PendingStorage, reply: nat -> Reply, size: JobNotification -> S.Bytes,
                 maxRetries: int, baseRetryDelay: nat, maxPendingRetries: int, maxPayloadBytes: int)
      requires storage.Valid()
      ensures Valid() && this.storage == storage && wire == [] && slept == 0 && this.reply == reply && this.size == size
      ensures this.maxRetries == maxRetries && this.baseRetryDelay == baseRetryDelay
      ensures this.maxPendingRetries == maxPendingRetries && this.maxPayloadBytes == maxPayloadBytes
    {
      this.storage, this.reply, this.size := storage, reply, size;
      this.maxRetries, this.baseRetryDelay, this.maxPendingRetries, this.maxPayloadBytes :=
        maxRetries, baseRetryDelay, maxPendingRetries, maxPayloadBytes;
      sends, slept, wire := 0, 0, [];
    }

    /** One request with this payload, about the notification `about`. */
    method SendNotification(payload: JobNotification, ghost about: JobNotification) returns (o: Outcome)
      requires Valid()
      modifies this`sends, this`wire, storage
      ensures Valid() && storage.operations == old(storage.operations)
      ensures storage.trace == old(storage.trace) + Receipt(old(storage.OnDisk()), about, o)
      ensures o == Classify(reply(old(sends))) && wire == old(wire) + [payload]
      ensures storage.OnDisk() ==
              if o.Delivered? then Acknowledged(old(storage.OnDisk()), about) else old(storage.OnDisk())
    {
      hide Safe, AllSafe, StepByStep, Classify, Mentions;
      o := Classify(reply(sends));
      sends, wire := sends + 1, wire + [payload];
      if o.Delivered? {
        storage.Acknowledge(about);
      }
    }

    /** Send until an attempt is not merely transient, or the attempts run out, sleeping twice as long each time. */
    method SendWithRetries(payload: JobNotification, ghost about: JobNotification)
      returns (attempts: nat, last: Outcome)
      requires Valid() && maxRetries >= 0
      modifies this, storage
      ensures Valid() && storage.operations == old(storage.operations)
      ensures storage.trace == old(storage.trace) + Receipt(old(storage.OnDisk()), about, last)
      ensures 1 <= attempts <= maxRetries + 1 && wire == old(wire) + Repeated(payload, attempts)
      ensures last == Classify(reply(old(sends) + attempts - 1))
      ensures AllTransient(reply, old(sends), attempts - 1)
      ensures last.Transient? ==> attempts == maxRetries + 1
      ensures slept
              == old(slept) + baseRetryDelay * (Pow2(attempts - 1) - 1)
              <= old(slept) + baseRetryDelay * (Pow2(maxRetries) - 1)
      ensures storage.OnDisk() ==
              if last.Delivered? then Acknowledged(old(storage.OnDisk()), about) else old(storage.OnDisk())
    {
      hide Safe, AllSafe, StepByStep, Classify, Mentions, Repeated, Pow2, AllTransient, Acknowledged;
      PowOne();
      NoneTransient(reply, sends);
      attempts := 1;
      Once(wire, payload);
      last := SendNotification(payload, about);
      while last.Transient? && attempts <= maxRetries
        invariant Valid() && storage.operations == old(storage.operations)
        invariant storage.trace == old(storage.trace) + Receipt(old(storage.OnDisk()), about, last)
        invariant 1 <= attempts <= maxRetries + 1 && wire == old(wire) + Repeated(payload, attempts)
        invariant last == Classify(reply(old(sends) + attempts - 1))
        invariant AllTransient(reply, old(sends), attempts - 1)
        invariant slept == old(slept) + baseRetryDelay * (Pow2(attempts - 1) - 1)
        invariant storage.OnDisk() ==
                if last.Delivered? then Acknowledged(old(storage.OnDisk()), about) else old(storage.OnDisk())
        decreases maxRetries + 1 - attempts
      {
        Doubling(baseRetryDelay, attempts - 1);
        slept := slept + baseRetryDelay * Pow2(attempts - 1);
        Again(old(wire), payload, attempts);
        OneMoreTransient(reply, old(sends), attempts - 1);
        attempts := attempts + 1;
        last := SendNotification(payload, about);
      }
      Pow2Grows(attempts - 1, maxRetries);
      Scaled(baseRetryDelay, Pow2(attempts - 1) - 1, Pow2(maxRetries) - 1);
    }

    /** Put an undelivered notification aside, in full: for later, or, if refused for good, among the dead letters. */
    method PutAsideFor(n: JobNotification, o: Outcome)
      requires Valid() && !o.Delivered?
      modifies storage
      ensures var steps := AsideSteps(old(storage.OnDisk()), n, o, storage.fates, old(storage.operations));
              Valid() && storage.trace == old(storage.trace) + steps
                  && storage.OnDisk() == After(old(storage.OnDisk()), steps)
    {
      hide Safe, AllSafe, StepByStep, MoveReported, MovedTo;
      var ok := storage.Store(n);
      if ok && o.Permanent? {
        ok := storage.MoveToDeadLetter(n.jobId, NonRetryable(o.status));
      }
    }

    /** Send a notification; see to it that it is not lost if that fails. */
    method Notify(n: JobNotification) returns (r: NotificationResult)
      requires Valid()
      modifies this, storage
      ensures Valid() && (r.Invalid? <==> !Acceptable(n))
      ensures r.Invalid? || maxRetries < 0 ==>
                storage.OnDisk() == old(storage.OnDisk()) && storage.trace == old(storage.trace) && wire == old(wire)
      ensures r.Result? ==>
                && r.truncated == (size(n) > maxPayloadBytes)
                && r.attempts <= (if maxRetries < 0 then 0 else maxRetries + 1)
                && wire == old(wire) + Repeated(PayloadFor(n), r.attempts)
                && r.storedLocally == (r.attempts > 0 && !r.success)
      ensures r.Result? && maxRetries < 0 ==> r == Result(false, 0, false, size(n) > maxPayloadBytes, None)
      ensures r.Result? ==>
                && |wire| == |old(wire)| + r.attempts
                && forall i :: |old(wire)| <= i < |wire| ==> Carries(wire[i], n, size(n) > maxPayloadBytes)
      ensures r.Result? && maxRetries >= 0 ==>
                && r.attempts >= 1 && AllTransient(reply, old(sends), r.attempts - 1)
                && slept <= old(slept) + baseRetryDelay * (Pow2(maxRetries) - 1)
                && var last := Classify(reply(old(sends) + r.attempts - 1));
                   && r.success == last.Delivered? && r.error == (if last.Delivered? then None else Some(last))
                   && (last.Transient? ==> r.attempts == maxRetries + 1)
                   && var steps := NotifySteps(old(storage.OnDisk()), n, last, storage.fates, old(storage.operations));
                      storage.trace == old(storage.trace) + steps
                          && storage.OnDisk() == After(old(storage.OnDisk()), steps)
      ensures r.Result? && maxRetries >= 0 && Unknown(old(storage.OnDisk()), n) ==>
                && (storage.Reliable() ==> Places(storage.OnDisk(), n) == 1)
                && (!r.success ==> (Places(storage.OnDisk(), n) >= 1 <==> storage.fates(old(storage.operations)).Done?))
    {
      hide Safe, AllSafe, StepByStep, Classify, Mentions, Acceptable, S.Shrunk, AsideSteps, Acknowledged, Places;
      hide Unknown;
      hide AllTransient, Repeated, Pow2, PayloadFor, Wrong, Carries;
      r := Invalid;
      var errors := ValidateNotification(n);
      if errors == [] {
        var payload, truncated := MakePayload(n);
        if maxRetries < 0 {
          r := Result(false, 0, false, truncated, None);
          NoneRepeated(wire, PayloadFor(n));
        } else {
          ghost var before, at := storage.OnDisk(), storage.operations;
          var attempts, last := SendWithRetries(payload, n);
          r := Result(last.Delivered?, attempts, !last.Delivered?, truncated,
                      if last.Delivered? then None else Some(last));
          SentCarries(old(wire), payload, attempts, n, truncated);
          if !last.Delivered? {
            PutAsideFor(n, last);
          }
          if Unknown(before, n) {
            if storage.Reliable() { InOnePlace(before, n, last, storage.fates, at); }
            if !last.Delivered? { KeptIfWritten(before, n, last, storage.fates, at); }
          }
        }
      }
    }

    /** What goes over the wire for a notification. */
    function PayloadFor(n: JobNotification): JobNotification {
      if size(n) > maxPayloadBytes then S.Shrunk(n, maxPayloadBytes, size) else n
    }

    method MakePayload(n: JobNotification) returns (payload: JobNotification, truncated: bool)
      ensures payload == PayloadFor(n) && truncated == (size(n) > maxPayloadBytes)
      ensures Carries(payload, n, truncated)
    {
      hide S.Shrunk, S.IsPrefixOf;
      S.ShrunkIsPrefix(n, maxPayloadBytes, size);
      payload, truncated := n, size(n) > maxPayloadBytes;
      if truncated {
        payload := S.ShrinkNotification(n, maxPayloadBytes, size);
      }
    }

    /** One pending notification of a retry run. */
    method RetryOne(item: Pending) returns (how: Fortune)
      requires Valid() && item.notification.jobId in storage.pending && storage.pending[item.notification.jobId] == item
      modifies this`sends, this`wire, storage
      ensures var steps := RetrySteps(old(storage.OnDisk()), item, Classify(reply(old(sends))), maxPendingRetries,
                                      storage.fates, old(storage.operations));
              Valid() && storage.trace == old(storage.trace) + steps
                  && storage.OnDisk() == After(old(storage.OnDisk()), steps)
      ensures how == FortuneOf(old(storage.OnDisk()), item, Classify(reply(old(sends))), maxPendingRetries,
                               storage.fates, old(storage.operations))
      ensures Retried(old(storage.OnDisk()), storage.OnDisk(), item, how, maxPendingRetries)
      ensures storage.Reliable() ==> RetriedWell(storage.OnDisk(), item, how, maxPendingRetries)
      ensures item.attempts >= maxPendingRetries ==> !how.Success? && wire == old(wire)
      ensures wire == old(wire) || wire == old(wire) + [item.notification]
    {
      hide Safe, AllSafe, StepByStep, Classify, Mentions, MoveSteps, RemoveSteps, MoveReported, Retried, RetriedWell;
      hide MovedTo, CountedOnce, RemovedIf;
      FortuneTells(storage.OnDisk(), item, Classify(reply(sends)), maxPendingRetries, storage.fates,
                   storage.operations);
      var id := item.notification.jobId;
      if item.attempts >= maxPendingRetries {
        var ok := storage.MoveToDeadLetter(id, TooManyAttempts(item.attempts, maxPendingRetries));
        how := if ok then Moved else Failure;
      } else {
        how := Failure;
        var ok := storage.UpdateAttempt(id);
        if ok {
          var o := SendNotification(item.notification, item.notification);
          if o.Delivered? {
            ok := storage.Remove(id);
            how := if ok then Success else Failure;
          } else if o.Permanent? {
            ok := storage.MoveToDeadLetter(id, NonRetryable(o.status));
            how := if ok then Moved else Failure;
          }
        }
      }
    }

    /**
     * One retry run over everything pending: its own sum adds up, and with working files what failed is what is left.
     */
    method RetryPendingNotifications() returns (stats: RetryStats)
      requires Valid()
      modifies this`sends, this`wire, storage
      ensures Valid() && old(storage.trace) <= storage.trace && storage.stored == old(storage.stored)
      ensures stats.totalPending == stats.successfulRetries + stats.failedRetries + stats.movedToDeadLetter
      ensures |wire| <= old(|wire|) + stats.totalPending
      ensures RunUntouched(old(storage.pending), storage.pending, maxPendingRetries)
      ensures storage.Reliable() ==>
                && stats.totalPending == |old(storage.pending)| && stats.failedRetries == |storage.pending|
                && Advanced(old(storage.pending), storage.pending, maxPendingRetries)
    {
      hide Safe, AllSafe, StepByStep, RetrySteps, Retried, RetriedWell, ReadFrom, RunTo, RunWell, Advanced;
      hide RunUntouched;
      stats := RetryStats(0, 0, 0, 0);
      ghost var first := storage.pending;
      var listed := storage.List();
      Unrun(first, maxPendingRetries);
      forall id | id in first ensures first[id].notification.jobId == id {
        NamedById(storage.OnDisk(), id);
      }
      if listed.Some? {
        var items := listed.value;
        var succeeded, failed, moved := 0, 0, 0;
        RunStarts(first, items, maxPendingRetries);
        for i := 0 to |items|
          invariant Valid() && old(storage.trace) <= storage.trace && storage.stored == old(storage.stored)
          invariant succeeded + failed + moved == i && |wire| <= old(|wire|) + i
          invariant RunTo(first, storage.pending, items, i, maxPendingRetries)
          invariant storage.Reliable() ==> RunWell(first, storage.pending, items, i, maxPendingRetries)
          invariant storage.Reliable() ==> |storage.pending| == |first| - succeeded - moved
        {
          ghost var before := storage.OnDisk();
          NextIsPending(first, storage.pending, items, i, maxPendingRetries);
          var how := RetryOne(items[i]);
          RunNext(first, before, storage.OnDisk(), items, i, how, maxPendingRetries, storage.Reliable());
          match how
          case Success => succeeded := succeeded + 1;
          case Failure => failed := failed + 1;
          case Moved => moved := moved + 1;
        }
        stats := RetryStats(|items|, succeeded, failed, moved);
        RunEnds(first, storage.pending, items, maxPendingRetries, storage.Reliable());
      }
    }

    /** Run after run, with nothing new in between. */
    method Drain(runs: nat)
      requires Valid() && storage.Reliable()
      modifies this`sends, this`wire, storage
      ensures Valid() && storage.stored == old(storage.stored)
      ensures Worn(old(storage.pending), storage.pending, runs, maxPendingRetries)
      ensures runs > 0 && runs > maxPendingRetries ==> storage.pending == map[]
    {
      hide Safe, AllSafe;
      for run := 0 to runs
        invariant Valid() && storage.stored == old(storage.stored)
        invariant Worn(old(storage.pending), storage.pending, run, maxPendingRetries)
      {
        var stats := RetryPendingNotifications();
      }
    }
  }

  lemma NoneRepeated<T>(wire: seq<T>, x: T)
    ensures wire + Repeated(x, 0) == wire
  {}

  lemma NoneTransient(reply: nat -> Reply, n: nat)
    ensures AllTransient(reply, n, 0)
  {}

  lemma OneMoreTransient(reply: nat -> Reply, n: nat, count: nat)
    requires AllTransient(reply, n, count) && Classify(reply(n + count)).Transient?
    ensures AllTransient(reply, n, count + 1)
  {}

  lemma PowOne()
    ensures Pow2(0) == 1
  {}

  lemma Doubling(base: nat, n: nat)
    ensures base * (Pow2(n) - 1) + base * Pow2(n) == base * (Pow2(n + 1) - 1)
  {}

  lemma Scaled(base: nat, a: int, b: int)
    requires a <= b
    ensures base * a <= base * b
  {}

  /** Whatever fails, a retry touches no other pending file, and only ever counts one attempt or removes the file. */
  ghost predicate Retried(before: Disk, after: Disk, item: Pending, how: Fortune, limit: int) {
    var id := item.notification.jobId;
    && after.pending - {id} == before.pending - {id} && after.stored == before.stored
    && (id in after.pending ==>
          after.pending[id] == item || (item.attempts < limit && after.pending[id] == Further(item)))
    && (how.Success? ==> item.notification in after.acked)
  }

  /** When file operations work: gone to where its fortune says, or one attempt further. */
  ghost predicate RetriedWell(after: Disk, item: Pending, how: Fortune, limit: int) {
    var id := item.notification.jobId;
    match how
    case Success => id !in after.pending && item.notification in after.acked
    case Moved =>
      && id !in after.pending && id in after.deadLetter
      && after.deadLetter[id].item.notification == item.notification
    case Failure => item.attempts < limit && id in after.pending && after.pending[id] == Further(item)
  }

  function Further(item: Pending): Pending {
    item.(attempts := item.attempts + 1)
  }

  /** A run adds no file and changes none except by counting one attempt while there are tries left. */
  ghost predicate RunUntouched(first: map<string, Pending>, now: map<string, Pending>, limit: int) {
    forall id :: id in now ==>
        id in first && (now[id] == first[id] || (first[id].attempts < limit && now[id] == Further(first[id])))
  }

  /** A run that has dealt with the first `i` items. */
  ghost predicate RunTo(first: map<string, Pending>, now: map<string, Pending>, items: seq<Pending>, i: nat,
                        limit: int) {
    && ReadFrom(items, first) && RunUntouched(first, now, limit)
    && forall j :: i <= j < |items| ==>
        items[j].notification.jobId in now && now[items[j].notification.jobId] == items[j]
  }

  /** And has done so with working files: each is gone or one attempt further, and none was left out of the listing. */
  ghost predicate RunWell(first: map<string, Pending>, now: map<string, Pending>, items: seq<Pending>, i: nat,
                          limit: int) {
    forall j :: 0 <= j < i && j < |items| && items[j].notification.jobId in now ==>
      items[j].attempts < limit && now[items[j].notification.jobId] == Further(items[j])
  }

  lemma Unrun(first: map<string, Pending>, limit: int)
    ensures RunUntouched(first, first, limit)
  {}

  lemma RunStarts(first: map<string, Pending>, items: seq<Pending>, limit: int)
    requires ReadFrom(items, first)
    ensures RunTo(first, first, items, 0, limit) && RunWell(first, first, items, 0, limit)
  {}

  lemma NextIsPending(first: map<string, Pending>, now: map<string, Pending>, items: seq<Pending>, i: nat, limit: int)
    requires RunTo(first, now, items, i, limit) && i < |items|
    ensures items[i].notification.jobId in now && now[items[i].notification.jobId] == items[i]
  {}

  lemma SizeWithout<K, V>(before: map<K, V>, after: map<K, V>, id: K)
    requires id in before && after - {id} == before - {id}
    ensures |after| == |before| - if id in after then 0 else 1
  {
    assert before.Keys == (before - {id}).Keys + {id};
    assert after.Keys == (after - {id}).Keys + if id in after then {id} else {};
    assert |before.Keys| == |before| && |after.Keys| == |after|;
  }

  lemma RunNext(first: map<string, Pending>, before: Disk, after: Disk, items: seq<Pending>, i: nat, how: Fortune,
                limit: int, reliable: bool)
    requires RunTo(first, before.pending, items, i, limit) && i < |items|
    requires Retried(before, after, items[i], how, limit)
    requires reliable ==> RunWell(first, before.pending, items, i, limit) && RetriedWell(after, items[i], how, limit)
    ensures RunTo(first, after.pending, items, i + 1, limit)
    ensures reliable ==> RunWell(first, after.pending, items, i + 1, limit)
    ensures reliable ==> |after.pending| == |before.pending| - if how.Failure? then 0 else 1
    ensures after.stored == before.stored
  {
    var id := items[i].notification.jobId;
    SizeWithout(before.pending, after.pending, id);
    forall other | other != id
      ensures other in after.pending <==> other in before.pending
      ensures other in before.pending ==> after.pending[other] == before.pending[other]
    {
      assert other in before.pending - {id} <==> other in after.pending - {id};
      if other in before.pending {
        assert (before.pending - {id})[other] == (after.pending - {id})[other];
      }
    }
  }

  lemma RunEnds(first: map<string, Pending>, now: map<string, Pending>, items: seq<Pending>, limit: int, reliable: bool)
    requires RunTo(first, now, items, |items|, limit)
    requires forall id :: id in first ==> first[id].notification.jobId == id
    requires reliable ==> RunWell(first, now, items, |items|, limit) && forall id :: id in first ==> first[id] in items
    ensures RunUntouched(first, now, limit) && (reliable ==> Advanced(first, now, limit))
  {
    if reliable {
      forall id | id in now ensures first[id].attempts < limit && now[id] == Further(first[id]) {
        var j :| 0 <= j < |items| && items[j] == first[id];
      }
    }
  }

  /** After so many runs, what is still pending was there all along and has used a try in each. */
  ghost predicate Worn(before: map<string, Pending>, after: map<string, Pending>, runs: nat, limit: int) {
    forall id :: id in after ==>
      && id in before && after[id].attempts == before[id].attempts + runs
      && (runs > 0 ==> after[id].attempts <= limit)
  }

  // Runs with new notifications in between

  /** A retry run followed by any new notifications: what was there before and still is has used one of its tries. */
  ghost predicate Between(before: map<string, Pending>, after: map<string, Pending>, limit: int) {
    forall id :: id in before && id in after ==>
        before[id].attempts < limit && after[id].attempts == before[id].attempts + 1
  }

  /** Ids are fresh: one that has left does not come back. */
  ghost predicate NeverBack(states: seq<map<string, Pending>>, id: string) {
    forall i, j :: 0 <= i < j < |states| && id in states[j] ==>
      id in states[i] || forall k :: 0 <= k <= i ==> id !in states[k]
  }

  /**
   * A notification with `a` attempts has left the pending directory after `limit - a + 1` runs, whatever the server
   * says.
   */
  lemma {:induction false} LeavesInTime(states: seq<map<string, Pending>>, limit: int, id: string, k: nat)
    requires forall i :: 0 <= i < |states| - 1 ==> Between(states[i], states[i + 1], limit)
    requires NeverBack(states, id) && states != [] && id in states[0]
    requires k < |states| && k >= 1 && states[0][id].attempts + k > limit
    ensures id !in states[k]
  {
    if id in states[k] {
      StillThere(states, limit, id, k);
    }
  }

  /** A run, and then new notifications under fresh ids. */
  lemma AdvancedThenStored(before: map<string, Pending>, mid: map<string, Pending>, after: map<string, Pending>,
                           limit: int)
    requires Advanced(before, mid, limit)
    requires forall id :: id in mid ==> id in after && after[id] == mid[id]
    requires forall id :: id in after && id !in mid ==> id !in before
    ensures Between(before, after, limit)
  {}

  lemma {:induction false} StillThere(states: seq<map<string, Pending>>, limit: int, id: string, k: nat)
    requires forall i :: 0 <= i < |states| - 1 ==> Between(states[i], states[i + 1], limit)
    requires NeverBack(states, id) && states != [] && id in states[0]
    requires k < |states| && id in states[k]
    ensures states[k][id].attempts == states[0][id].attempts + k
    ensures k > 0 ==> states[0][id].attempts + k <= limit
  {
    if k == 0 {
    } else {
      assert id in states[k - 1];
      StillThere(states, limit, id, k - 1);
      assert Between(states[k - 1], states[k], limit);
    }
  }

  // Runs that fail

  /** No answer, and a write that fails: the result says the notification was stored, and it is nowhere. */
  method LostThoughStored(client: ReportServiceClient, n: JobNotification) returns (r: NotificationResult)
    requires client.Valid() && client.maxRetries >= 0 && Acceptable(n) && Unknown(client.storage.OnDisk(), n)
    requires (forall i :: client.reply(i).NoAnswer?) && !client.storage.fates(client.storage.operations).Done?
    modifies client, client.storage
    ensures client.Valid() && r.Result? && r.storedLocally && Places(client.storage.OnDisk(), n) == 0
  {
    hide Safe, AllSafe, StepByStep, Acceptable, Unknown, Places, Repeated, AllTransient, NotifySteps;
    r := client.Notify(n);
  }

  /** Two results of one ruleset, the second with fewer issues and not marked yet. */
  ghost predicate Namesakes(n: JobNotification) {
    && |n.results| == 2 && n.results[0].rulesetName == n.results[1].rulesetName
    && |n.results[1].issues| < |n.results[0].issues| && n.results[1].truncated == None
  }

  lemma NamesakesAreMarked(n: JobNotification)
    requires Namesakes(n)
    ensures S.With(n, S.Remark(n.results)) != S.With(n, S.Strip)
  {
    hide S.With, S.Strip, S.Remark, S.NoNewMark;
    S.ShorterNamesake(n, 0, 1);
    S.RemarkNothing(n);
  }

  /**
   * A limit that such a payload just meets once stripped of something: if marks take room, everything that is sent
   * exceeds the limit.
   */
  method NamesakesOverLimit(client: ReportServiceClient, n: JobNotification) returns (r: NotificationResult)
    requires client.Valid() && client.maxRetries >= 0 && Acceptable(n) && Namesakes(n)
    requires client.maxPayloadBytes == client.size(S.With(n, S.Strip)) < client.size(n)
    requires S.With(n, S.Remark(n.results)) != S.With(n, S.Strip) ==>
               client.size(S.With(n, S.Remark(n.results))) > client.size(S.With(n, S.Strip))
    modifies client, client.storage
    ensures client.Valid() && r.Result? && r.attempts >= 1 && |client.wire| == |old(client.wire)| + r.attempts
    ensures forall i :: |old(client.wire)| <= i < |client.wire| ==> client.size(client.wire[i]) > client.maxPayloadBytes
  {
    hide Safe, AllSafe, StepByStep, Acceptable, Unknown, Places, AllTransient, NotifySteps, S.With, S.Strip, S.Remark;
    NamesakesAreMarked(n);
    r := client.Notify(n);
  }
}
