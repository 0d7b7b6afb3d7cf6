/** Admitting jobs: the capacity test, and the counter of active jobs, under interleaved submissions. */
module Admission {
  import opened LintLog

  datatype JobId = JobId(uuid: nat)

  predicate Active(status: JobStatus) {
    status.Queued? || status.Running?
  }

  /** The jobs still queued or running. */
  ghost function ActiveIn(jobs: map<JobId, JobStatus>): set<JobId> {
    set id | id in jobs && Active(jobs[id])
  }

  /** With the most submissions ever past the test at once, no more active than the limit and the extra ones past it. */
  predicate Bounded(active: nat, pastTest: nat, peak: nat, limit: int) {
    active + pastTest == 0 || active + pastTest <= limit - 1 + peak
  }

  ghost predicate CountersSound(jobs: map<JobId, JobStatus>, activeJobCount: int, launched: set<JobId>, pastTest: nat,
                                peak: nat, limit: int) {
    && activeJobCount == |launched| && launched <= jobs.Keys && ActiveIn(jobs) <= launched
    && pastTest <= peak && Bounded(|launched|, pastTest, peak, limit)
  }

  lemma LaunchSound(jobs: map<JobId, JobStatus>, activeJobCount: int, launched: set<JobId>, pastTest: nat, peak: nat,
                    limit: int, id: JobId)
    requires CountersSound(jobs, activeJobCount, launched, pastTest, peak, limit) && id !in jobs && pastTest > 0
    ensures CountersSound(jobs[id := Running], activeJobCount + 1, launched + {id}, pastTest - 1, peak, limit)
  {}

  lemma SettleSound(jobs: map<JobId, JobStatus>, activeJobCount: int, launched: set<JobId>, pastTest: nat, peak: nat,
                    limit: int, id: JobId)
    requires CountersSound(jobs, activeJobCount, launched, pastTest, peak, limit) && id in launched && !Active(jobs[id])
    ensures CountersSound(jobs, activeJobCount - 1, launched - {id}, pastTest, peak, limit)
  {}

  lemma EndSound(jobs: map<JobId, JobStatus>, activeJobCount: int, launched: set<JobId>, pastTest: nat, peak: nat,
                 limit: int,
                 id: JobId, status: JobStatus)
    requires CountersSound(jobs, activeJobCount, launched, pastTest, peak, limit) && id in launched && !Active(status)
    ensures CountersSound(jobs[id := status], activeJobCount, launched, pastTest, peak, limit)
  {}

  lemma ActiveAtMostLaunched(jobs: map<JobId, JobStatus>, activeJobCount: int, launched: set<JobId>, pastTest: nat,
                             peak: nat, limit: int)
    requires CountersSound(jobs, activeJobCount, launched, pastTest, peak, limit)
    ensures |ActiveIn(jobs)| <= activeJobCount
  {
    Smaller(ActiveIn(jobs), launched);
  }

  lemma {:induction false} Smaller<T>(a: set<T>, b: set<T>)
    requires a <= b
    ensures |a| <= |b|
  {
    if a == {} {
    } else {
      var x :| x in a;
      Smaller(a - {x}, b - {x});
    }
  }

  /** One method per synchronous segment of a submission: between them any other segment may run. */
  class Orchestrator {
    const maxConcurrent: int

    var jobs: map<JobId, JobStatus>
    var activeJobCount: int

    /** Jobs launched and not settled yet; submissions past the capacity test and not launched yet, and their peak. */
    ghost var launched: set<JobId>
    ghost var pastTest: nat
    ghost var peak: nat

    ghost predicate Valid()
      reads this
    {
      CountersSound(jobs, activeJobCount, launched, pastTest, peak, maxConcurrent)
    }

    constructor (maxConcurrent: int)
      ensures Valid() && this.maxConcurrent == maxConcurrent && jobs == map[] && launched == {} && pastTest == 0
      ensures peak == 0
    {
      this.maxConcurrent := maxConcurrent;
      jobs, activeJobCount, launched, pastTest, peak := map[], 0, {}, 0, 0;
    }

    /** The capacity test, the only one there is. */
    method TestCapacity() returns (admitted: bool)
      requires Valid()
      modifies this`pastTest, this`peak
      ensures Valid() && (admitted <==> |launched| < maxConcurrent)
      ensures pastTest == old(pastTest) + (if admitted then 1 else 0)
      ensures peak == if pastTest > old(peak) then pastTest else old(peak)
    {
      admitted := activeJobCount < maxConcurrent;
      if admitted {
        pastTest := pastTest + 1;
        peak := if pastTest > peak then pastTest else peak;
      }
    }

    /** A cached result, an unknown document or an error ends the submission before there is a job. */
    method Abandon()
      requires Valid() && pastTest > 0
      modifies this`pastTest
      ensures Valid() && pastTest == old(pastTest) - 1
    {
      pastTest := pastTest - 1;
    }

    /** The job is recorded and counted, and starts running, without another test. */
    method Launch(id: JobId)
      requires Valid() && pastTest > 0 && id !in jobs
      modifies this
      ensures Valid() && jobs == old(jobs)[id := Running] && activeJobCount == old(activeJobCount) + 1
      ensures launched == old(launched) + {id} && pastTest == old(pastTest) - 1 && peak == old(peak)
    {
      hide CountersSound;
      LaunchSound(jobs, activeJobCount, launched, pastTest, peak, maxConcurrent, id);
      jobs := jobs[id := Running];
      activeJobCount := activeJobCount + 1;
      launched, pastTest := launched + {id}, pastTest - 1;
    }

    /** The job gets its final status, while its results have yet to be stored. */
    method End(id: JobId, status: JobStatus)
      requires Valid() && id in launched && !status.Queued? && !status.Running?
      modifies this`jobs
      ensures Valid() && jobs == old(jobs)[id := status]
    {
      hide CountersSound;
      EndSound(jobs, activeJobCount, launched, pastTest, peak, maxConcurrent, id, status);
      jobs := jobs[id := status];
    }

    /** The job's promise settles: its place is free again. */
    method Settle(id: JobId)
      requires Valid() && id in launched && id in jobs && !jobs[id].Queued? && !jobs[id].Running?
      modifies this`activeJobCount, this`launched
      ensures Valid() && activeJobCount == old(activeJobCount) - 1 && launched == old(launched) - {id}
    {
      hide CountersSound;
      SettleSound(jobs, activeJobCount, launched, pastTest, peak, maxConcurrent, id);
      activeJobCount := activeJobCount - 1;
      launched := launched - {id};
    }
  }

  /**
   * The counter is the number of unsettled jobs, covers all queued or running ones, and passes the limit by at most
   * `f - 1`.
   */
  lemma ActiveBounded(o: Orchestrator, f: nat)
    requires o.Valid() && o.peak <= f && f >= 1
    ensures o.activeJobCount == |o.launched| >= |set id | id in o.jobs && (o.jobs[id].Queued? || o.jobs[id].Running?)|
    ensures o.activeJobCount == 0 || o.activeJobCount + o.pastTest <= o.maxConcurrent - 1 + f
  {
    assert ActiveIn(o.jobs) == set id | id in o.jobs && (o.jobs[id].Queued? || o.jobs[id].Running?);
    ActiveAtMostLaunched(o.jobs, o.activeJobCount, o.launched, o.pastTest, o.peak, o.maxConcurrent);
  }

  /** The bound is reached: with one place left, `f` submissions pass the test before any of them is counted. */
  method ReachBound(limit: nat, f: nat) returns (o: Orchestrator)
    requires limit >= 1 && f >= 1
    ensures fresh(o) && o.Valid() && o.maxConcurrent == limit && o.peak == f && o.activeJobCount == limit - 1 + f
  {
    hide CountersSound;
    o := new Orchestrator(limit);
    Counter(o);
    for i := 0 to limit - 1
      invariant fresh(o) && o.Valid() && o.maxConcurrent == limit && |o.launched| == o.activeJobCount == i
      invariant o.pastTest == 0 && o.peak <= 1 && forall id :: id in o.jobs ==> id.uuid < i
    {
      var admitted := o.TestCapacity();
      o.Launch(JobId(i));
      Counter(o);
    }
    for j := 0 to f
      invariant fresh(o) && o.Valid() && o.maxConcurrent == limit && |o.launched| == o.activeJobCount == limit - 1
      invariant o.pastTest == j && (if j == 0 then o.peak <= 1 else o.peak == j)
      invariant forall id :: id in o.jobs ==> id.uuid < limit - 1
    {
      var admitted := o.TestCapacity();
    }
    for j := 0 to f
      invariant fresh(o) && o.Valid() && o.maxConcurrent == limit && o.activeJobCount == limit - 1 + j
      invariant o.pastTest == f - j && o.peak == f && forall id :: id in o.jobs ==> id.uuid < limit - 1 + j
    {
      o.Launch(JobId(limit - 1 + j));
    }
  }

  lemma Counter(o: Orchestrator)
    requires o.Valid()
    ensures o.activeJobCount == |o.launched|
  {}
}
