/** The worker pool as a state machine: one method per synchronous segment between two awaits. */
module WorkerPool {
  import opened Collections
  import Key = CompositeKey

  datatype WorkerId = WorkerId(uuid: nat)

  datatype Status = Initializing | Ready | Busy | Failed | Terminated

  function RulesetKey(name: string, version: string): string {
    name + "@" + version
  }

  /** The name and version a scale-up reads back from a key: the first two parts, whatever follows. */
  function SplitKey(key: string): (string, Option<string>) {
    var parts := Key.Split(key, '@');
    (parts[0], if |parts| >= 2 then Some(parts[1]) else None)
  }

  /**
   * A scale-up creates a worker for the ruleset it counted exactly when neither name nor version holds the separator.
   */
  lemma ScaleUpTarget(name: string, version: string)
    ensures SplitKey(RulesetKey(name, version)) == (name, Some(version)) <==>
            Key.Free(name, '@') && Key.Free(version, '@')
  {
    var key := RulesetKey(name, version);
    Key.JoinSplit(key, '@');
    if Key.Free(name, '@') && Key.Free(version, '@') {
      assert key == name + ['@'] + version;
      Key.SplitAtFirst(name, version, '@');
      Key.SplitFree(version, '@');
    }
  }

  /** For a ruleset named `a@b` the scale-up asks for a ruleset `a` in version `b`. */
  lemma ScaleUpMisses(a: string, b: string, version: string)
    requires Key.Free(a, '@') && Key.Free(b, '@')
    ensures SplitKey(RulesetKey(a + "@" + b, version)) == (a, Some(b))
  {
    Key.SplitAtFirst(a, b + ['@'] + version, '@');
    Key.SplitAtFirst(b, version, '@');
    assert RulesetKey(a + "@" + b, version) == a + ['@'] + (b + ['@'] + version);
  }

  class WorkerInfo {
    const workerId: WorkerId
    const rulesetName: string
    const rulesetVersion: string
    const rulesetKey: string := RulesetKey(rulesetName, rulesetVersion)
    var status: Status
    var taskCount: nat
    var restartCount: nat
    var currentTaskId: Option<string>
    var cachedDocumentId: Option<string>

    constructor (workerId: WorkerId, rulesetName: string, rulesetVersion: string)
      ensures this.workerId == workerId && this.rulesetName == rulesetName && this.rulesetVersion == rulesetVersion
      ensures status == Initializing && taskCount == 0 && restartCount == 0 && currentTaskId == None
      ensures cachedDocumentId == None
    {
      this.workerId, this.rulesetName, this.rulesetVersion := workerId, rulesetName, rulesetVersion;
      status, taskCount, restartCount, currentTaskId, cachedDocumentId := Initializing, 0, 0, None, None;
    }
  }

  type Workers = map<WorkerId, WorkerInfo>

  /** The lists by ruleset are exactly the partition of the registered workers by their key. */
  ghost predicate Partition(index: map<string, seq<WorkerId>>, workers: Workers) {
    && (forall id :: id in workers ==> workers[id].workerId == id)
    && (forall k :: k in index ==> NoDup(index[k]) && forall id :: id in index[k] ==>
        id in workers && workers[id].rulesetKey == k)
    && (forall id :: id in workers ==> workers[id].rulesetKey in index && id in index[workers[id].rulesetKey])
  }

  /** Busy means that a task is current, for every worker ever made; none has been counted as restarted. */
  ghost predicate Steady(known: set<WorkerInfo>)
    reads known
  {
    forall w :: w in known ==> (w.status == Busy <==> w.currentTaskId.Some?) && w.restartCount == 0
  }

  ghost predicate Enrolled(workers: Workers, known: set<WorkerInfo>) {
    forall id :: id in workers ==> workers[id] in known
  }

  lemma PartitionAdd(index: map<string, seq<WorkerId>>, workers: Workers, w: WorkerInfo)
    requires Partition(index, workers) && w.workerId !in workers
    ensures var list := if w.rulesetKey in index then index[w.rulesetKey] else [];
            Partition(index[w.rulesetKey := list + [w.workerId]], workers[w.workerId := w])
  {}

  lemma PartitionDrop(index: map<string, seq<WorkerId>>, workers: Workers, w: WorkerInfo)
    requires Partition(index, workers) && (w.workerId in workers ==> workers[w.workerId] == w)
    ensures Partition(Unlisted(index, w), workers - {w.workerId})
  {
    if w.rulesetKey in index {
      var list := index[w.rulesetKey];
      FilterNoDup(list, Other(w.workerId));
      forall id ensures id in Filter(list, Other(w.workerId)) <==> id in list && id != w.workerId {
        FilterMember(list, Other(w.workerId), id);
      }
    }
  }

  /** Deleting from a list that is there; an emptied list stays. */
  function Unlisted(index: map<string, seq<WorkerId>>, w: WorkerInfo): map<string, seq<WorkerId>> {
    if w.rulesetKey in index then index[w.rulesetKey := Filter(index[w.rulesetKey], Other(w.workerId))] else index
  }

  // The queue of tasks that wait for a worker

  datatype Waiter = Waiter(ticket: nat, rulesetKey: string)

  /** How a wait ended: with a worker, or with none. */
  datatype Settlement = Settlement(waiter: Waiter, worker: Option<WorkerInfo>)

  function WaitsFor(key: string): Waiter -> bool {
    (w: Waiter) => w.rulesetKey == key
  }

  function HasTicket(ticket: nat): Waiter -> bool {
    (w: Waiter) => w.ticket == ticket
  }

  ghost function Tickets(queue: seq<Waiter>): set<nat> {
    set w | w in queue :: w.ticket
  }

  /**
   * Tickets queue up in the order they were issued, an armed timer for each; every ticket issued is queued or has
   * been settled, once, and never with a worker of another ruleset.
   */
  ghost predicate QueueSound(queue: seq<Waiter>, timers: set<nat>, settled: seq<Settlement>, issued: nat) {
    && (forall i, j :: 0 <= i < j < |queue| ==> queue[i].ticket < queue[j].ticket)
    && timers == Tickets(queue)
    && (forall i, j :: 0 <= i < j < |settled| ==> settled[i].waiter.ticket != settled[j].waiter.ticket)
    && (forall i :: 0 <= i < |settled| ==> settled[i].waiter.ticket !in timers && settled[i].waiter.ticket < issued)
    && (forall t :: t in timers ==> t < issued)
    && (forall t: nat :: t < issued ==> t in timers || exists i :: 0 <= i < |settled| && settled[i].waiter.ticket == t)
    && (forall i :: 0 <= i < |settled| && settled[i].worker.Some? ==>
        settled[i].worker.value.rulesetKey == settled[i].waiter.rulesetKey)
  }

  lemma QueueJoin(queue: seq<Waiter>, timers: set<nat>, settled: seq<Settlement>, issued: nat, key: string)
    requires QueueSound(queue, timers, settled, issued)
    ensures QueueSound(queue + [Waiter(issued, key)], timers + {issued}, settled, issued + 1)
  {
    var after := queue + [Waiter(issued, key)];
    forall i | 0 <= i < |queue| ensures queue[i].ticket < issued {
      assert queue[i].ticket in Tickets(queue);
    }
    forall t ensures t in Tickets(after) <==> t in timers || t == issued {
      if t == issued { assert after[|queue|] in after; }
      if t in timers { var w :| w in queue && w.ticket == t; assert w in after; }
    }
  }

  lemma TicketsOrdered(queue: seq<Waiter>, at: nat)
    requires forall i, j :: 0 <= i < j < |queue| ==> queue[i].ticket < queue[j].ticket
    requires at < |queue|
    ensures var rest := RemoveAt(queue, at); forall i, j :: 0 <= i < j < |rest| ==> rest[i].ticket < rest[j].ticket
  {
    hide RemoveAt;
    var rest := RemoveAt(queue, at);
    forall i, j | 0 <= i < j < |rest| ensures rest[i].ticket < rest[j].ticket {
      assert queue[if i < at then i else i + 1].ticket < queue[if j < at then j else j + 1].ticket;
    }
  }

  lemma TicketsLeft(queue: seq<Waiter>, at: nat)
    requires forall i, j :: 0 <= i < j < |queue| ==> queue[i].ticket < queue[j].ticket
    requires at < |queue|
    ensures Tickets(RemoveAt(queue, at)) == Tickets(queue) - {queue[at].ticket} && queue[at].ticket in Tickets(queue)
  {
    hide RemoveAt;
    var rest, gone := RemoveAt(queue, at), queue[at];
    forall t | t in Tickets(rest) ensures t in Tickets(queue) && t != gone.ticket {
      var i :| 0 <= i < |rest| && rest[i].ticket == t;
      assert queue[if i < at then i else i + 1] in queue;
    }
    forall t | t in Tickets(queue) && t != gone.ticket ensures t in Tickets(rest) {
      var i :| 0 <= i < |queue| && queue[i].ticket == t;
      assert rest[if i < at then i else i - 1] in rest;
    }
    assert gone in queue;
  }

  lemma QueueLeave(queue: seq<Waiter>, timers: set<nat>, settled: seq<Settlement>, issued: nat, at: nat,
                   worker: Option<WorkerInfo>)
    requires QueueSound(queue, timers, settled, issued) && at < |queue|
    requires worker.Some? ==> worker.value.rulesetKey == queue[at].rulesetKey
    ensures QueueSound(RemoveAt(queue, at), timers - {queue[at].ticket},
                       settled + [Settlement(queue[at], worker)], issued)
  {
    hide RemoveAt, Tickets;
    TicketsOrdered(queue, at);
    TicketsLeft(queue, at);
    var gone, after := queue[at], settled + [Settlement(queue[at], worker)];
    forall t: nat | t < issued && t !in timers - {gone.ticket}
      ensures exists i :: 0 <= i < |after| && after[i].waiter.ticket == t
    {
      if t == gone.ticket {
        assert after[|settled|].waiter.ticket == t;
      } else {
        var i :| 0 <= i < |settled| && settled[i].waiter.ticket == t;
        assert after[i] == settled[i];
      }
    }
  }

  /** What picking a worker at once can find. */
  datatype Choice = NoWorkers | NoCandidate | Chosen(worker: WorkerInfo) | AllBusy

  class WorkerPoolManager {
    const totalMaxWorkers: nat
    const minWorkersPerRuleset: nat
    const maxWorkersPerRuleset: nat
    const scaleUpThreshold: nat
    const maxRetries: int

    var workers: Workers
    var workersByRuleset: map<string, seq<WorkerId>>
    var workerReadyCallbacks: seq<Waiter>
    var timers: set<nat>
    var issued: nat

    /**
     * Every wait that has ended, in order; every worker ever made; creations past the capacity test, and their peak.
     */
    ghost var settled: seq<Settlement>
    ghost var known: set<WorkerInfo>
    ghost var inFlight: nat
    ghost var peak: nat

    ghost predicate Valid()
      reads this, known
    {
      && Partition(workersByRuleset, workers)
      && QueueSound(workerReadyCallbacks, timers, settled, issued)
      && inFlight <= peak
      && Bounded(|workers|, inFlight, peak, totalMaxWorkers)
      && Enrolled(workers, known)
      && Steady(known)
    }

    constructor (totalMax: nat, min: nat, max: nat, threshold: nat, retries: int)
      ensures Valid() && workers == map[] && workerReadyCallbacks == [] && settled == [] && inFlight == 0 && peak == 0
      ensures totalMaxWorkers == totalMax && minWorkersPerRuleset == min && maxWorkersPerRuleset == max
      ensures scaleUpThreshold == threshold && maxRetries == retries && known == {}
    {
      totalMaxWorkers, minWorkersPerRuleset, maxWorkersPerRuleset := totalMax, min, max;
      scaleUpThreshold, maxRetries := threshold, retries;
      workers, workersByRuleset, workerReadyCallbacks, timers, issued := map[], map[], [], {}, 0;
      settled, known, inFlight, peak := [], {}, 0, 0;
    }

    // Choosing a worker

    /** The workers of a key that can still take tasks, in the order of the ruleset's list. */
    method Candidates(key: string) returns (r: seq<WorkerInfo>)
      requires Valid() && key in workersByRuleset
      ensures forall w :: w in r <==>
              w in workers.Values && w.rulesetKey == key && w.status != Failed && w.status != Terminated
    {
      hide QueueSound, Bounded;
      var ids := workersByRuleset[key];
      r := [];
      for i := 0 to |ids|
        invariant forall w :: w in r <==> w.workerId in ids[..i] && w.workerId in workers && workers[w.workerId] == w
                                          && w.status != Failed && w.status != Terminated
      {
        TakeNext(ids, i);
        var w := workers[ids[i]];
        if w.status != Failed && w.status != Terminated {
          r := r + [w];
        }
      }
      TakeAll(ids);
    }

    /** The first of the workers with the fewest tasks. */
    method LeastBusy(ws: seq<WorkerInfo>) returns (best: WorkerInfo)
      requires ws != []
      ensures best in ws && IsLeastBusy(best, ws)
    {
      best := ws[0];
      ghost var at: nat := 0;
      for i := 1 to |ws|
        invariant at < i && ws[at] == best
        invariant forall j :: 0 <= j < i ==>
                    best.taskCount <= ws[j].taskCount && (j < at ==> best.taskCount < ws[j].taskCount)
      {
        if ws[i].taskCount < best.taskCount {
          best, at := ws[i], i;
        }
      }
    }

    method ReadyOf(candidates: seq<WorkerInfo>, documentId: Option<string>) returns (r: seq<WorkerInfo>)
      ensures forall w :: w in r <==>
              w in candidates && w.status == Ready && (documentId.Some? ==> w.cachedDocumentId == documentId)
    {
      r := [];
      for i := 0 to |candidates|
        invariant forall w :: w in r <==>
                w in candidates[..i] && w.status == Ready && (documentId.Some? ==> w.cachedDocumentId == documentId)
      {
        TakeNext(candidates, i);
        var w := candidates[i];
        if w.status == Ready && (documentId.Some? ==> w.cachedDocumentId == documentId) {
          r := r + [w];
        }
      }
      TakeAll(candidates);
    }

    /** Some registered worker of the key is ready (and holds the document, if one is given). */
    ghost predicate HasReady(key: string, documentId: Option<string>)
      reads this, workers.Values
    {
      exists w :: w in workers.Values && Suits(w, key, documentId)
    }

    /** Pick at once a ready worker with the fewest tasks, one that holds the document if there is one. */
    method SelectNow(key: string, documentId: string) returns (c: Choice)
      requires Valid()
      ensures c.NoWorkers? <==> forall w :: w in workers.Values ==> w.rulesetKey != key
      ensures c.NoCandidate? ==> forall w :: w in workers.Values && w.rulesetKey == key ==>
              w.status == Failed || w.status == Terminated
      ensures c.AllBusy? ==>
                && !HasReady(key, None)
                && exists w ::
                     w in workers.Values && w.rulesetKey == key && w.status != Failed && w.status != Terminated
      ensures c.Chosen? ==>
                && c.worker in workers.Values && Suits(c.worker, key, None)
                && (HasReady(key, Some(documentId)) ==> c.worker.cachedDocumentId == Some(documentId))
                && (forall w :: w in workers.Values
                                && Suits(w, key, if HasReady(key, Some(documentId)) then Some(documentId) else None)
                                ==> c.worker.taskCount <= w.taskCount)
    {
      hide QueueSound, Bounded;
      c := NoWorkers;
      if key in workersByRuleset && workersByRuleset[key] != [] {
        assert workersByRuleset[key][0] in workersByRuleset[key];
        var candidates := Candidates(key);
        if candidates == [] {
          c := NoCandidate;
        } else {
          assert candidates[0] in candidates;
          var withDocument := ReadyOf(candidates, Some(documentId));
          var readyWorkers := ReadyOf(candidates, None);
          if withDocument != [] {
            var best := LeastBusy(withDocument);
            c := Chosen(best);
          } else if readyWorkers != [] {
            var best := LeastBusy(readyWorkers);
            c := Chosen(best);
          } else {
            c := AllBusy;
          }
        }
      }
    }

    // The wait queue

    /** Queue up for a busy worker; the timer is armed at once. */
    method Wait(key: string) returns (ticket: nat)
      requires Valid()
      modifies this
      ensures Valid() && Untouched() && settled == old(settled)
      ensures ticket == old(issued) && workerReadyCallbacks == old(workerReadyCallbacks) + [Waiter(ticket, key)]
      ensures ticket in timers
    {
      hide QueueSound, Partition;
      QueueJoin(workerReadyCallbacks, timers, settled, issued, key);
      ticket := issued;
      workerReadyCallbacks := workerReadyCallbacks + [Waiter(ticket, key)];
      timers := timers + {ticket};
      issued := issued + 1;
    }

    /** An armed timer fires: its waiter leaves the queue with nothing. */
    method WaitTimeout(ticket: nat)
      requires Valid() && ticket in timers
      modifies this
      ensures Valid() && Untouched()
      ensures exists at :: IsTicket(old(workerReadyCallbacks), at, ticket) && Left(at, None)
    {
      hide QueueSound, Partition;
      TimerQueued(workerReadyCallbacks, timers, settled, issued, ticket);
      var idx := FindIndex(workerReadyCallbacks, HasTicket(ticket));
      assert IsTicket(workerReadyCallbacks, idx.value, ticket);
      if idx.Some? {
        Settle(idx.value, None);
      }
    }

    /** A worker became ready: the oldest waiter for its ruleset gets it, everyone else keeps their place. */
    method NotifyWorkerReady(w: WorkerInfo)
      requires Valid()
      modifies this
      ensures Valid() && Untouched()
      ensures if at :| IsOldest(old(workerReadyCallbacks), at, w.rulesetKey) then Left(at, Some(w))
              else workerReadyCallbacks == old(workerReadyCallbacks) && settled == old(settled) && timers == old(timers)
    {
      hide QueueSound, Partition;
      var idx := FindIndex(workerReadyCallbacks, WaitsFor(w.rulesetKey));
      ghost var queue := workerReadyCallbacks;
      if idx.Some? {
        assert IsOldest(queue, idx.value, w.rulesetKey);
        Settle(idx.value, Some(w));
      }
    }

    /** Take one waiter out of the queue, disarm its timer and resolve it. */
    method Settle(at: nat, worker: Option<WorkerInfo>)
      requires Valid() && at < |workerReadyCallbacks|
      requires worker.Some? ==> worker.value.rulesetKey == workerReadyCallbacks[at].rulesetKey
      modifies this
      ensures Valid() && Untouched() && Left(at, worker)
    {
      hide QueueSound, Partition;
      QueueLeave(workerReadyCallbacks, timers, settled, issued, at, worker);
      var callback := workerReadyCallbacks[at];
      workerReadyCallbacks := RemoveAt(workerReadyCallbacks, at);
      timers := timers - {callback.ticket};
      settled := settled + [Settlement(callback, worker)];
    }

    /** Exactly the waiter at `at` left the queue, with this outcome; the others keep their order. */
    twostate predicate Left(at: nat, worker: Option<WorkerInfo>)
      reads this
    {
      && at < |old(workerReadyCallbacks)|
      && workerReadyCallbacks == RemoveAt(old(workerReadyCallbacks), at)
      && timers == old(timers) - {old(workerReadyCallbacks)[at].ticket}
      && settled == old(settled) + [Settlement(old(workerReadyCallbacks)[at], worker)]
      && issued == old(issued)
    }

    /** The registered workers and the creations in flight are as they were. */
    twostate predicate Untouched()
      reads this
    {
      && workers == old(workers) && workersByRuleset == old(workersByRuleset)
      && inFlight == old(inFlight) && peak == old(peak) && known == old(known)
    }

    // Running tasks

    method StartTask(w: WorkerInfo, taskId: string)
      requires Valid() && w in known
      modifies w
      ensures Valid() && w.status == Busy && w.currentTaskId == Some(taskId) && w.taskCount == old(w.taskCount)
    {
      hide QueueSound, Partition, Bounded;
      w.status := Busy;
      w.currentTaskId := Some(taskId);
    }

    /** A result message: the worker is ready again, one task further, and the oldest waiter for it is told. */
    method TaskResult(w: WorkerInfo, documentId: string, success: bool, cacheHit: bool)
      requires Valid() && w in known
      modifies this, w
      ensures Valid() && Untouched()
      ensures w.status == Ready && w.currentTaskId == None && w.taskCount == old(w.taskCount) + 1
      ensures w.cachedDocumentId == if success && cacheHit then Some(documentId) else old(w.cachedDocumentId)
      ensures if at :| IsOldest(old(workerReadyCallbacks), at, w.rulesetKey) then Left(at, Some(w))
              else workerReadyCallbacks == old(workerReadyCallbacks) && settled == old(settled) && timers == old(timers)
    {
      hide QueueSound, Partition, Bounded;
      w.status := Ready;
      w.currentTaskId := None;
      w.taskCount := w.taskCount + 1;
      NotifyWorkerReady(w);
      if success && cacheHit {
        w.cachedDocumentId := Some(documentId);
      }
    }

    /** A task timer: the worker counts as ready, whatever it is doing by then. */
    method TaskTimeout(w: WorkerInfo)
      requires Valid() && w in known
      modifies this, w
      ensures Valid() && Untouched()
      ensures w.status == Ready && w.currentTaskId == None && w.taskCount == old(w.taskCount)
      ensures if at :| IsOldest(old(workerReadyCallbacks), at, w.rulesetKey) then Left(at, Some(w))
              else workerReadyCallbacks == old(workerReadyCallbacks) && settled == old(settled) && timers == old(timers)
    {
      hide QueueSound, Partition, Bounded;
      w.status := Ready;
      w.currentTaskId := None;
      NotifyWorkerReady(w);
    }

    /**
     * A worker error; a restart follows unless retries are switched off, as no worker ever reaches the restart limit.
     */
    method WorkerError(w: WorkerInfo) returns (restart: bool)
      requires Valid() && w in known
      modifies w
      ensures Valid() && w.currentTaskId == None && w.taskCount == old(w.taskCount)
      ensures restart <==> maxRetries > 0
      ensures w.status == if restart then Failed else Terminated
    {
      hide QueueSound, Partition, Bounded;
      w.status := Failed;
      w.currentTaskId := None;
      restart := w.restartCount < maxRetries;
      if !restart {
        w.status := Terminated;
      }
    }

    // Workers come and go

    /** The capacity test of a creation, the only one there is. */
    method TestCapacity() returns (passed: bool)
      requires Valid()
      modifies this`inFlight, this`peak
      ensures Valid() && passed == (|workers| < totalMaxWorkers)
      ensures inFlight == old(inFlight) + (if passed then 1 else 0)
      ensures peak == if inFlight > old(peak) then inFlight else old(peak)
    {
      hide QueueSound, Partition;
      passed := |workers| < totalMaxWorkers;
      if passed {
        inFlight := inFlight + 1;
        peak := if inFlight > peak then inFlight else peak;
      }
    }

    /** A worker that passed the test long ago reports ready and is registered without another test. */
    method Register(workerId: WorkerId, rulesetName: string, rulesetVersion: string) returns (w: WorkerInfo)
      requires Valid() && inFlight > 0 && workerId !in workers
      modifies this
      ensures Valid() && fresh(w) && w.workerId == workerId && w.rulesetKey == RulesetKey(rulesetName, rulesetVersion)
      ensures w.status == Ready && w.taskCount == 0 && w.currentTaskId == None
      ensures workers == old(workers)[workerId := w] && known == old(known) + {w}
      ensures inFlight == old(inFlight) - 1 && peak == old(peak)
      ensures QueueAsBefore()
    {
      hide QueueSound, Partition;
      w := new WorkerInfo(workerId, rulesetName, rulesetVersion);
      w.status := Ready;
      Enlist(w);
    }

    method Enlist(w: WorkerInfo)
      requires Valid() && inFlight > 0 && w.workerId !in workers && w.status == Ready && w.currentTaskId == None
      requires w.restartCount == 0
      modifies this
      ensures Valid() && workers == old(workers)[w.workerId := w] && known == old(known) + {w}
      ensures inFlight == old(inFlight) - 1 && peak == old(peak)
      ensures QueueAsBefore()
    {
      hide QueueSound, Partition, Bounded, Enrolled;
      PartitionAdd(workersByRuleset, workers, w);
      OneMore(workers, w, known, inFlight, peak, totalMaxWorkers);
      workers := workers[w.workerId := w];
      var list := if w.rulesetKey in workersByRuleset then workersByRuleset[w.rulesetKey] else [];
      workersByRuleset := workersByRuleset[w.rulesetKey := list + [w.workerId]];
      known := known + {w};
      inFlight := inFlight - 1;
    }

    method CreationFailed()
      requires Valid() && inFlight > 0
      modifies this`inFlight
      ensures Valid() && inFlight == old(inFlight) - 1
    {
      hide QueueSound, Partition;
      inFlight := inFlight - 1;
    }

    /** After a failed or surplus worker has been terminated, it leaves both maps, if it is still in them. */
    method Unregister(w: WorkerInfo)
      requires Valid() && (w.workerId in workers ==> workers[w.workerId] == w)
      modifies this
      ensures Valid() && workers == old(workers) - {w.workerId} && known == old(known)
      ensures inFlight == old(inFlight) && peak == old(peak) && QueueAsBefore()
    {
      hide QueueSound, Partition, Bounded, Unlisted, Enrolled, Steady;
      PartitionDrop(workersByRuleset, workers, w);
      Fewer(workers, w.workerId, known, inFlight, peak, totalMaxWorkers);
      SetMaps(workers - {w.workerId}, Unlisted(workersByRuleset, w));
    }

    method SetMaps(workers: Workers, workersByRuleset: map<string, seq<WorkerId>>)
      requires Valid() && Partition(workersByRuleset, workers) && Enrolled(workers, known)
      requires Bounded(|workers|, inFlight, peak, totalMaxWorkers)
      modifies this`workers, this`workersByRuleset
      ensures Valid() && this.workers == workers && this.workersByRuleset == workersByRuleset
    {
      hide QueueSound, Partition, Bounded, Enrolled, Steady;
      this.workers, this.workersByRuleset := workers, workersByRuleset;
    }

    twostate predicate QueueAsBefore()
      reads this
    {
      workerReadyCallbacks == old(workerReadyCallbacks) && timers == old(timers) && settled == old(settled)
          && issued == old(issued)
    }

    /** Everything goes: waiters end with nothing, in order, and both maps are emptied. */
    method Shutdown()
      requires Valid()
      modifies this
      ensures Valid() && workers == map[] && workersByRuleset == map[] && workerReadyCallbacks == [] && timers == {}
      ensures settled == old(settled) + Dismissed(old(workerReadyCallbacks)) && inFlight == old(inFlight)
      ensures peak == old(peak)
    {
      hide QueueSound, Partition, Bounded, Enrolled, Steady;
      DismissAll();
      QueueEmpty(timers, settled, issued);
      NobodyThere(|workers|, known, inFlight, peak, totalMaxWorkers);
      SetMaps(map[], map[]);
    }

    method DismissAll()
      requires Valid()
      modifies this
      ensures Valid() && Untouched() && workerReadyCallbacks == []
      ensures settled == old(settled) + Dismissed(old(workerReadyCallbacks))
    {
      hide QueueSound, Partition, Bounded, Enrolled, Steady, RemoveAt, Dismissed;
      ghost var queue, n := workerReadyCallbacks, 0;
      NoneDismissed(settled, queue);
      while workerReadyCallbacks != []
        invariant Valid() && Untouched() && n <= |queue| && workerReadyCallbacks == queue[n..]
        invariant settled == old(settled) + Dismissed(queue[..n])
        decreases |workerReadyCallbacks|
      {
        NextDismissed(old(settled), queue, n);
        Settle(0, None);
        n := n + 1;
      }
      TakeAll(queue);
    }

    // Scaling

    method Idle(ids: seq<WorkerId>) returns (r: seq<WorkerInfo>)
      requires forall id :: id in ids ==> id in workers
      ensures |r| <= |ids| && (|r| == |ids| <==> forall id :: id in ids ==> workers[id].status == Ready)
      ensures forall w :: w in r <==> exists id :: id in ids && workers[id] == w && w.status == Ready
    {
      r := [];
      for i := 0 to |ids|
        invariant |r| <= i && (|r| == i <==> forall id :: id in ids[..i] ==> workers[id].status == Ready)
        invariant forall w :: w in r <==> exists id :: id in ids[..i] && workers[id] == w && w.status == Ready
      {
        TakeNext(ids, i);
        var w := workers[ids[i]];
        if w.status == Ready {
          r := r + [w];
        }
      }
      TakeAll(ids);
    }

    /** What the monitor decides for one ruleset: a worker more under pressure, one less when all are idle. */
    method Monitor(key: string) returns (up: bool, down: Option<WorkerInfo>)
      requires Valid() && key in workersByRuleset
      ensures up <==> workersByRuleset[key] != [] && Pending(workerReadyCallbacks, key) >= scaleUpThreshold
                      && |workersByRuleset[key]| < maxWorkersPerRuleset && |workers| < totalMaxWorkers
      ensures down.Some? <==> workersByRuleset[key] != [] && Pending(workerReadyCallbacks, key) == 0
                              && |workersByRuleset[key]| > minWorkersPerRuleset
                              && forall w :: w in workers.Values && w.rulesetKey == key ==> w.status == Ready
      ensures down.Some? ==> down.value in workers.Values && Suits(down.value, key, None)
                             && forall w :: w in workers.Values && Suits(w, key, None) ==>
                                 down.value.taskCount <= w.taskCount
    {
      hide QueueSound, Bounded;
      up, down := false, None;
      var ids := workersByRuleset[key];
      if ids != [] {
        var pending := |Filter(workerReadyCallbacks, WaitsFor(key))|;
        var readyWorkers := Idle(ids);
        up := pending >= scaleUpThreshold && |ids| < maxWorkersPerRuleset && |workers| < totalMaxWorkers;
        if |readyWorkers| == |ids| && pending == 0 && |ids| > minWorkersPerRuleset {
          var target := LeastBusy(readyWorkers);
          down := Some(target);
        }
      }
    }
  }

  function Pending(queue: seq<Waiter>, key: string): nat {
    |Filter(queue, WaitsFor(key))|
  }

  ghost predicate IsTicket(queue: seq<Waiter>, at: nat, ticket: nat) {
    at < |queue| && queue[at].ticket == ticket
  }

  /** Nobody ahead in the queue waits for this ruleset. */
  ghost predicate IsOldest(queue: seq<Waiter>, at: nat, key: string) {
    at < |queue| && queue[at].rulesetKey == key && forall i :: 0 <= i < at ==> queue[i].rulesetKey != key
  }

  ghost function Dismissed(queue: seq<Waiter>): (r: seq<Settlement>)
    ensures |r| == |queue| && forall i :: 0 <= i < |r| ==> r[i] == Settlement(queue[i], None)
  {
    if queue == [] then [] else Dismissed(queue[..|queue| - 1]) + [Settlement(queue[|queue| - 1], None)]
  }

  lemma TimerQueued(queue: seq<Waiter>, timers: set<nat>, settled: seq<Settlement>, issued: nat, ticket: nat)
    requires QueueSound(queue, timers, settled, issued) && ticket in timers
    ensures FindIndex(queue, HasTicket(ticket)).Some?
  {
    var w :| w in queue && w.ticket == ticket;
    var i :| 0 <= i < |queue| && queue[i] == w;
  }

  lemma QueueEmpty(timers: set<nat>, settled: seq<Settlement>, issued: nat)
    requires QueueSound([], timers, settled, issued)
    ensures timers == {}
  {}

  lemma NobodyThere(workers: nat, known: set<WorkerInfo>, inFlight: nat, peak: nat, limit: nat)
    requires Bounded(workers, inFlight, peak, limit)
    ensures Bounded(0, inFlight, peak, limit) && Partition(map[], map[]) && Enrolled(map[], known)
  {}

  lemma NoneDismissed(settled: seq<Settlement>, queue: seq<Waiter>)
    ensures settled == settled + Dismissed(queue[..0]) && queue == queue[0..]
  {}

  lemma NextDismissed(settled: seq<Settlement>, queue: seq<Waiter>, n: nat)
    requires n < |queue|
    ensures settled + Dismissed(queue[..n]) + [Settlement(queue[n..][0], None)] == settled + Dismissed(queue[..n + 1])
    ensures RemoveAt(queue[n..], 0) == queue[n + 1..]
  {}

  lemma OneMore(workers: Workers, w: WorkerInfo, known: set<WorkerInfo>, inFlight: nat, peak: nat, limit: nat)
    requires Bounded(|workers|, inFlight, peak, limit) && Enrolled(workers, known) && w.workerId !in workers
    requires inFlight > 0
    ensures Bounded(|workers[w.workerId := w]|, inFlight - 1, peak, limit)
    ensures Enrolled(workers[w.workerId := w], known + {w})
  {}

  lemma Fewer(workers: Workers, id: WorkerId, known: set<WorkerInfo>, inFlight: nat, peak: nat, limit: nat)
    requires Bounded(|workers|, inFlight, peak, limit) && Enrolled(workers, known)
    ensures Bounded(|workers - {id}|, inFlight, peak, limit) && Enrolled(workers - {id}, known)
  {
    if id in workers {
      assert workers == (workers - {id})[id := workers[id]];
    } else {
      assert workers - {id} == workers;
    }
  }

  ghost predicate Suits(w: WorkerInfo, key: string, documentId: Option<string>)
    reads w
  {
    w.rulesetKey == key && w.status == Ready && (documentId.Some? ==> w.cachedDocumentId == documentId)
  }

  ghost predicate IsLeastBusy(best: WorkerInfo, ws: seq<WorkerInfo>)
    reads ws
  {
    exists at :: 0 <= at < |ws| && ws[at] == best
      && forall j :: 0 <= j < |ws| ==>
           best.taskCount <= ws[j].taskCount && (j < at ==> best.taskCount < ws[j].taskCount)
  }

  /**
   * With the most creations ever past the test at once, no more workers than the limit and the extra ones in flight.
   */
  predicate Bounded(workers: nat, inFlight: nat, peak: nat, limit: nat) {
    workers + inFlight == 0 || workers + inFlight <= limit - 1 + peak
  }

  /** However a run interleaves, at most `f` creations past the test at once means at most `f - 1` workers too many. */
  lemma WorkersBounded(pool: WorkerPoolManager, f: nat)
    requires pool.Valid() && pool.peak <= f && f >= 1
    ensures |pool.workers| + pool.inFlight <= pool.totalMaxWorkers - 1 + f || |pool.workers| + pool.inFlight == 0
    ensures pool.totalMaxWorkers >= 1 ==> |pool.workers| <= pool.totalMaxWorkers - 1 + f
  {}

  /**
   * And some run gets there: fill the pool but for one place, then let `f` creations pass the test before any
   * registers.
   */
  method ReachBound(limit: nat, f: nat) returns (pool: WorkerPoolManager)
    requires limit >= 1 && f >= 1
    ensures fresh(pool) && pool.Valid() && pool.totalMaxWorkers == limit
    ensures pool.peak == f && |pool.workers| == limit - 1 + f
  {
    hide QueueSound, Partition, Bounded;
    pool := new WorkerPoolManager(limit, 0, limit, 1, 3);
    for i := 0 to limit - 1
      invariant fresh(pool) && fresh(pool.known) && pool.Valid() && pool.totalMaxWorkers == limit
      invariant |pool.workers| == i && pool.inFlight == 0 && pool.peak <= 1
      invariant forall id :: id in pool.workers ==> id.uuid < i
    {
      var passed := pool.TestCapacity();
      var w := pool.Register(WorkerId(i), "oas", "1.0.0");
    }
    PassTests(pool, f);
    RegisterAll(pool, f, limit - 1);
  }

  method PassTests(pool: WorkerPoolManager, f: nat)
    requires pool.Valid() && |pool.workers| < pool.totalMaxWorkers && pool.inFlight == 0 && pool.peak <= 1 && f >= 1
    modifies pool`inFlight, pool`peak
    ensures pool.Valid() && pool.inFlight == f && pool.peak == f
  {
    hide QueueSound, Partition, Bounded;
    for j := 0 to f
      invariant pool.Valid() && pool.inFlight == j
      invariant if j == 0 then pool.peak <= 1 else pool.peak == j
    {
      var passed := pool.TestCapacity();
    }
  }

  method RegisterAll(pool: WorkerPoolManager, f: nat, first: nat)
    requires pool.Valid() && pool.inFlight == f && |pool.workers| == first
    requires forall id :: id in pool.workers ==> id.uuid < first
    modifies pool
    ensures pool.Valid() && |pool.workers| == first + f && pool.peak == old(pool.peak)
  {
    hide QueueSound, Partition, Bounded;
    for j := 0 to f
      invariant pool.Valid() && |pool.workers| == first + j && pool.inFlight == f - j && pool.peak == old(pool.peak)
      invariant forall id :: id in pool.workers ==> id.uuid < first + j
    {
      var w := pool.Register(WorkerId(first + j), "oas", "1.0.0");
    }
  }
}
