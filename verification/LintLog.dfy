/** What a lint-result store was asked to do, as a log, and what a reader of that log would answer. */
module LintLog {
  import opened Collections
  import Key = CompositeKey

  type JobId = id: string | id != "" witness "job"

  datatype JobStatus = Queued | Running | Completed | CompletedWithErrors | Failed | Cancelled | TimedOut

  datatype Issue = Issue(ruleId: string, code: string, severity: int, path: seq<string>)

  datatype LintJob = LintJob(
    jobId: JobId,
    documentId: string,
    rulesetName: string,
    rulesetVersion: string,
    status: JobStatus,
    timestamp: int,
    totalExecutionTime: int,
    summary: Summary,
    results: seq<Issue>,
    truncation: Option<TruncationInfo>)

  datatype Summary = Summary(totalIssues: nat, errorCount: nat, warningCount: nat, infoCount: nat, hintCount: nat)

  datatype TruncationInfo = TruncationInfo(limit: int, actualCount: nat)

  datatype Entry = Entry(job: LintJob, storedAt: int, expiresAt: Option<int>)

  datatype Event = Stored(entry: Entry) | Invalidated(documentId: string) | Cleared

  predicate Expired(e: Entry, now: int) {
    e.expiresAt.Some? && now > e.expiresAt.value
  }

  function KeyOf(job: LintJob): string {
    Key.Make(job.documentId, job.rulesetName, job.rulesetVersion)
  }

  /** The event takes away everything stored so far for the document. */
  ghost predicate Withdraws(event: Event, documentId: string) {
    event.Cleared? || (event.Invalidated? && event.documentId == documentId)
  }

  ghost predicate Withdrawn(log: seq<Event>, i: nat)
    requires i < |log| && log[i].Stored?
  {
    exists j :: i < j < |log| && Withdraws(log[j], log[i].entry.job.documentId)
  }

  /** `i` is the position of the latest store under its composite key. */
  ghost predicate IsLast(log: seq<Event>, i: nat) {
    && i < |log| && log[i].Stored?
    && forall j :: i < j < |log| && log[j].Stored? ==> KeyOf(log[j].entry.job) != KeyOf(log[i].entry.job)
  }

  /** The composite index keeps one job per key: the latest stored, and nothing behind it. */
  ghost function OneSlot(log: seq<Event>, key: string, now: int): Option<LintJob> {
    if i: nat :| IsLast(log, i) && KeyOf(log[i].entry.job) == key && !Withdrawn(log, i) && !Expired(log[i].entry, now)
    then Some(log[i].entry.job) else None
  }

  function Triple(job: LintJob): Key.Parts {
    Key.Parts(job.documentId, job.rulesetName, job.rulesetVersion)
  }

  /** The reference: walk the whole log backwards to the first stored, unexpired job of the triple. */
  function ReverseScan(log: seq<Event>, t: Key.Parts, now: int): Option<LintJob> {
    if log == [] then None
    else
      match log[|log| - 1]
      case Cleared => None
      case Invalidated(d) => if d == t.documentId then None else ReverseScan(log[..|log| - 1], t, now)
      case Stored(e) =>
        if Triple(e.job) == t && !Expired(e, now) then Some(e.job) else ReverseScan(log[..|log| - 1], t, now)
  }

  ghost predicate ColonFree(t: Key.Parts) {
    Key.ColonFree(t.documentId, t.rulesetName, t.rulesetVersion)
  }

  function KeyFor(t: Key.Parts): string {
    Key.Make(t.documentId, t.rulesetName, t.rulesetVersion)
  }

  /** `a` expires no later than `b`; an entry without expiry never does. */
  predicate NoLater(a: Entry, b: Entry) {
    b.expiresAt.None? || (a.expiresAt.Some? && a.expiresAt.value <= b.expiresAt.value)
  }

  /** No job of the triple that is still on offer outlives the one stored last. */
  ghost predicate LatestOutlives(log: seq<Event>, t: Key.Parts) {
    forall i: nat, last: nat ::
      i < last < |log| && log[i].Stored? && log[last].Stored? && IsLast(log, last)
      && Triple(log[i].entry.job) == t && Triple(log[last].entry.job) == t && !Withdrawn(log, i)
      ==> NoLater(log[i].entry, log[last].entry)
  }

  ghost predicate Offered(log: seq<Event>, t: Key.Parts, now: int, i: nat) {
    && i < |log| && log[i].Stored? && Triple(log[i].entry.job) == t
    && !Withdrawn(log, i) && !Expired(log[i].entry, now)
  }

  /** The scan finds the greatest position on offer, and nothing only if there is none. */
  lemma {:induction false} ScanFindsLatestOffer(log: seq<Event>, t: Key.Parts, now: int) returns (at: Option<nat>)
    ensures at.None? ==> ReverseScan(log, t, now) == None && forall i: nat :: !Offered(log, t, now, i)
    ensures at.Some? ==>
              && Offered(log, t, now, at.value)
              && ReverseScan(log, t, now) == Some(log[at.value].entry.job)
              && forall i: nat :: Offered(log, t, now, i) ==> i <= at.value
  {
    if log == [] { return None; }
    var n := |log| - 1;
    var init := log[..n];
    if (log[n].Stored? && Triple(log[n].entry.job) == t && !Expired(log[n].entry, now)) {
      at := Some(n);
    } else if Withdraws(log[n], t.documentId) {
      at := None;
    } else {
      at := ScanFindsLatestOffer(init, t, now);
      forall i: nat | i < n && log[i].Stored? && Triple(log[i].entry.job) == t
        ensures Withdrawn(log, i) <==> Withdrawn(init, i)
      {
        WithdrawnPrefix(log, i);
      }
      forall i: nat ensures Offered(log, t, now, i) <==> Offered(init, t, now, i) {
        if i < n { assert init[i] == log[i]; }
      }
    }
  }

  lemma WithdrawnPrefix(log: seq<Event>, i: nat)
    requires i < |log| - 1 && log[i].Stored?
    ensures Withdrawn(log, i) <==>
            Withdrawn(log[..|log| - 1], i) || Withdraws(log[|log| - 1], log[i].entry.job.documentId)
  {
    var init := log[..|log| - 1];
    if Withdrawn(log, i) {
      var j :| i < j < |log| && Withdraws(log[j], log[i].entry.job.documentId);
      assert j < |init| ==> Withdraws(init[j], init[i].entry.job.documentId);
    }
    if Withdrawn(init, i) {
      var j :| i < j < |init| && Withdraws(init[j], init[i].entry.job.documentId);
      assert Withdraws(log[j], log[i].entry.job.documentId);
    }
  }

  /** A job that has been withdrawn took every earlier one of its document with it. */
  lemma WithdrawnTogether(log: seq<Event>, i: nat, j: nat)
    requires i <= j < |log| && log[i].Stored? && log[j].Stored? && Withdrawn(log, j)
    requires log[i].entry.job.documentId == log[j].entry.job.documentId
    ensures Withdrawn(log, i)
  {
    var w :| j < w < |log| && Withdraws(log[w], log[j].entry.job.documentId);
    assert i < w && Withdraws(log[w], log[i].entry.job.documentId);
  }

  /** If the triple was ever stored, it has a latest store. */
  lemma {:induction false} LastExists(log: seq<Event>, key: string, i: nat) returns (last: nat)
    requires i < |log| && log[i].Stored? && KeyOf(log[i].entry.job) == key
    ensures i <= last && IsLast(log, last) && KeyOf(log[last].entry.job) == key
    decreases |log| - i
  {
    if j: nat :| i < j < |log| && log[j].Stored? && KeyOf(log[j].entry.job) == key {
      last := LastExists(log, key, j);
    } else {
      last := i;
    }
  }

  lemma LastIsUnique(log: seq<Event>, i: nat, j: nat)
    requires IsLast(log, i) && IsLast(log, j) && KeyOf(log[i].entry.job) == KeyOf(log[j].entry.job)
    ensures i == j
  {}

  lemma OneSlotIs(log: seq<Event>, last: nat, now: int)
    requires IsLast(log, last)
    ensures OneSlot(log, KeyOf(log[last].entry.job), now) ==
            if Withdrawn(log, last) || Expired(log[last].entry, now) then None else Some(log[last].entry.job)
  {
    forall i: nat | IsLast(log, i) && KeyOf(log[i].entry.job) == KeyOf(log[last].entry.job) ensures i == last {
      LastIsUnique(log, i, last);
    }
  }

  /** At one moment the slot and the scan agree as long as the latest store outlives the others. */
  lemma OneSlotAgrees(log: seq<Event>, t: Key.Parts, now: int)
    requires ColonFree(t)
    requires LatestOutlives(log, t)
    ensures OneSlot(log, KeyFor(t), now) == ReverseScan(log, t, now)
  {
    hide ReverseScan, Withdrawn, OneSlot, Key.Make, KeyFor, ColonFree;
    var key := KeyFor(t);
    KeysAreTriples(log, t);
    var at := ScanFindsLatestOffer(log, t, now);
    if i: nat :| i < |log| && log[i].Stored? && KeyOf(log[i].entry.job) == key {
      var last := LastExists(log, key, if at.Some? then at.value else i);
      OneSlotIs(log, last, now);
      if at.Some? && Withdrawn(log, last) {
        WithdrawnTogether(log, at.value, last);
      }
      assert Offered(log, t, now, last) || Withdrawn(log, last) || Expired(log[last].entry, now);
    } else {
      OneSlotEmpty(log, key, now);
    }
  }

  lemma OneSlotEmpty(log: seq<Event>, key: string, now: int)
    requires forall i :: 0 <= i < |log| && log[i].Stored? ==> KeyOf(log[i].entry.job) != key
    ensures OneSlot(log, key, now) == None
  {}

  lemma KeysAreTriples(log: seq<Event>, t: Key.Parts)
    requires ColonFree(t)
    ensures forall i :: 0 <= i < |log| && log[i].Stored? ==>
              (KeyOf(log[i].entry.job) == KeyFor(t) <==> Triple(log[i].entry.job) == t)
  {
    forall i | 0 <= i < |log| && log[i].Stored?
      ensures KeyOf(log[i].entry.job) == KeyFor(t) <==> Triple(log[i].entry.job) == t
    {
      var p := Triple(log[i].entry.job);
      Key.MakeInjective(t.documentId, t.rulesetName, t.rulesetVersion, p.documentId, p.rulesetName, p.rulesetVersion);
    }
  }

  /**
   * One slot per key is as good as the whole log, at every moment, exactly when the latest store outlives the others.
   */
  lemma OneSlotRefinesScan(log: seq<Event>, t: Key.Parts)
    requires ColonFree(t)
    ensures LatestOutlives(log, t) <==>
            forall now :: OneSlot(log, KeyFor(t), now) == ReverseScan(log, t, now)
  {
    var key := KeyFor(t);
    if LatestOutlives(log, t) {
      forall now ensures OneSlot(log, key, now) == ReverseScan(log, t, now) {
        OneSlotAgrees(log, t, now);
      }
    } else {
      var i: nat, last: nat :|
        i < last < |log| && log[i].Stored? && log[last].Stored? && IsLast(log, last)
        && Triple(log[i].entry.job) == t && Triple(log[last].entry.job) == t && !Withdrawn(log, i)
        && !NoLater(log[i].entry, log[last].entry);
      var now := log[last].entry.expiresAt.value + 1;
      assert Offered(log, t, now, i);
      var at := ScanFindsLatestOffer(log, t, now);
      OneSlotIs(log, last, now);
      assert OneSlot(log, key, now) == None;
    }
  }

  /** Every store got the same time to live, counted from a clock that never went back. */
  ghost predicate FixedTtl(log: seq<Event>, ttl: Option<nat>) {
    && (forall i :: 0 <= i < |log| && log[i].Stored? ==> Timed(log[i].entry, ttl))
    && (forall i, j :: 0 <= i < j < |log| && log[i].Stored? && log[j].Stored? ==>
        log[i].entry.storedAt <= log[j].entry.storedAt)
  }

  function Deadline(storedAt: int, ttl: Option<nat>): Option<int> {
    if ttl.Some? then Some(storedAt + ttl.value) else None
  }

  /** Without a time to live the entry has no deadline; with one, that long after it was stored. */
  ghost predicate Timed(e: Entry, ttl: Option<nat>) {
    && (ttl.None? ==> e.expiresAt.None?)
    && (ttl.Some? ==> e.expiresAt.Some? && e.expiresAt.value == e.storedAt + ttl.value)
  }

  /**
   * At position `i` is the latest store of a colon-free triple, under this time to live, and nothing has withdrawn it.
   */
  ghost predicate StandsFor(log: seq<Event>, i: nat, t: Key.Parts, ttl: Option<nat>) {
    && i < |log| && log[i].Stored? && Triple(log[i].entry.job) == t && ColonFree(t) && !Withdrawn(log, i)
    && (forall j :: i < j < |log| && log[j].Stored? ==> Triple(log[j].entry.job) != t)
    && Timed(log[i].entry, ttl)
  }

  /** Such a store is the answer until its time is up, and nothing is after that. */
  lemma AnswersUntilDeadline(log: seq<Event>, i: nat, t: Key.Parts, ttl: Option<nat>, now: int)
    requires StandsFor(log, i, t, ttl)
    ensures OneSlot(log, KeyFor(t), now) ==
            if ttl.None? || now <= log[i].entry.storedAt + ttl.value then Some(log[i].entry.job) else None
  {
    hide OneSlot, KeyFor, KeyOf, Withdrawn;
    KeysAreTriples(log, t);
    assert IsLast(log, i);
    OneSlotIs(log, i, now);
  }

  /** Nothing was stored later than the clock. */
  ghost predicate StoredBy(log: seq<Event>, clock: int) {
    forall i :: 0 <= i < |log| && log[i].Stored? ==> log[i].entry.storedAt <= clock
  }

  lemma FixedTtlOutlives(log: seq<Event>, ttl: Option<nat>, t: Key.Parts)
    requires FixedTtl(log, ttl)
    ensures LatestOutlives(log, t)
  {}

  /**
   * With one time to live, the slot answers like the scan in every log at every moment exactly when the triple is
   * colon-free.
   */
  lemma ColonFreeExactly(t: Key.Parts)
    ensures ColonFree(t) <==>
            forall log, ttl, now :: FixedTtl(log, ttl) ==> OneSlot(log, KeyFor(t), now) == ReverseScan(log, t, now)
  {
    if ColonFree(t) {
      forall log, ttl, now | FixedTtl(log, ttl) ensures OneSlot(log, KeyFor(t), now) == ReverseScan(log, t, now) {
        FixedTtlOutlives(log, ttl, t);
        OneSlotAgrees(log, t, now);
      }
    } else {
      var other := Key.Collision(t.documentId, t.rulesetName, t.rulesetVersion);
      var job := LintJob("job", other.documentId, other.rulesetName, other.rulesetVersion, Completed, 0, 0,
                         Summary(0, 0, 0, 0, 0), [], None);
      OtherJobAnswers(t, job);
      assert FixedTtl([Stored(Entry(job, 0, None))], None);
    }
  }

  /** A store whose one job merely shares the key of a triple answers with it, although the triple was never stored. */
  lemma OtherJobAnswers(t: Key.Parts, job: LintJob)
    requires KeyOf(job) == KeyFor(t) && Triple(job) != t
    ensures var log := [Stored(Entry(job, 0, None))];
            OneSlot(log, KeyFor(t), 0) == Some(job) && ReverseScan(log, t, 0) == None
  {
    var log := [Stored(Entry(job, 0, None))];
    assert IsLast(log, 0);
    OneSlotIs(log, 0, 0);
    assert log[..0] == [];
  }
}
