/** The in-memory lint-result store: one map of jobs and five hand-maintained indexes. */
module LintStore {
  import opened Collections
  import opened StableSort
  import opened LintLog
  import Q = JobQueries
  import Stats = JobStats
  import Key = CompositeKey

  datatype TimeSlot = TimeSlot(timestamp: int, jobId: JobId)

  predicate NewestFirst(a: TimeSlot, b: TimeSlot) {
    a.timestamp >= b.timestamp
  }

  function SlotOf(id: JobId): TimeSlot -> bool {
    (slot: TimeSlot) => slot.jobId == id
  }

  function DocumentOf(job: LintJob): string { job.documentId }
  function StatusOf(job: LintJob): JobStatus { job.status }
  function RulesetOf(job: LintJob): string { job.rulesetName }

  /** The index is exactly the partition of the jobs by the field: a key is there iff its set is not empty. */
  ghost predicate Partition<K(!new)>(index: map<K, set<JobId>>, jobs: map<JobId, Entry>, field: LintJob -> K) {
    && (forall k :: k in index ==> index[k] != {})
    && (forall k, id :: k in index && id in index[k] ==> id in jobs && field(jobs[id].job) == k)
    && (forall id :: id in jobs ==> field(jobs[id].job) in index && id in index[field(jobs[id].job)])
  }

  function AddTo<K>(index: map<K, set<JobId>>, k: K, id: JobId): map<K, set<JobId>> {
    index[k := (if k in index then index[k] else {}) + {id}]
  }

  function DropFrom<K>(index: map<K, set<JobId>>, k: K, id: JobId): map<K, set<JobId>> {
    if k !in index then index
    else if index[k] - {id} == {} then index - {k}
    else index[k := index[k] - {id}]
  }

  /** Storing keeps the partition exactly when the id is new, or is stored again under the same field. */
  lemma PartitionAdd<K(!new)>(index: map<K, set<JobId>>, jobs: map<JobId, Entry>, field: LintJob -> K, id: JobId,
                              e: Entry)
    requires Partition(index, jobs, field)
    ensures Partition(AddTo(index, field(e.job), id), jobs[id := e], field) <==>
            id !in jobs || field(jobs[id].job) == field(e.job)
  {
    var after, stored := AddTo(index, field(e.job), id), jobs[id := e];
    assert id in after[field(e.job)];
    if id in jobs && field(jobs[id].job) != field(e.job) {
      var stale := field(jobs[id].job);
      assert stale in after && id in after[stale] && field(stored[id].job) != stale;
    }
  }

  lemma PartitionDrop<K(!new)>(index: map<K, set<JobId>>, jobs: map<JobId, Entry>, field: LintJob -> K, id: JobId)
    requires Partition(index, jobs, field) && id in jobs
    ensures Partition(DropFrom(index, field(jobs[id].job), id), jobs - {id}, field)
  {}

  ghost predicate Ahead(a: TimeSlot, b: TimeSlot, position: map<JobId, nat>) {
    && a.jobId in position && b.jobId in position
    && (a.timestamp > b.timestamp || (a.timestamp == b.timestamp && position[a.jobId] < position[b.jobId]))
  }

  ghost predicate Listed(slots: seq<TimeSlot>, id: JobId) {
    exists a :: 0 <= a < |slots| && slots[a].jobId == id
  }

  /** The timestamp index lists every job once, newest first, equal times in the order they were stored. */
  ghost predicate TimeOrdered(slots: seq<TimeSlot>, jobs: map<JobId, Entry>, position: map<JobId, nat>) {
    && jobs.Keys <= position.Keys
    && (forall a :: 0 <= a < |slots| ==>
        slots[a].jobId in jobs && slots[a].timestamp == jobs[slots[a].jobId].job.timestamp)
    && (forall a, b :: 0 <= a < b < |slots| ==> Ahead(slots[a], slots[b], position))
    && (forall id :: id in jobs ==> Listed(slots, id))
  }

  /** Every job in the map is where the log says it was stored, and the map's order is the order of storing. */
  ghost predicate Placed(jobs: JsMap<JobId, Entry>, position: map<JobId, nat>, log: seq<Event>) {
    && jobs.Valid()
    && jobs.items.Keys <= position.Keys
    && (forall id :: id in jobs.items ==>
          position[id] < |log| && log[position[id]] == Stored(jobs.items[id]) && jobs.items[id].job.jobId == id)
    && (forall a, b :: 0 <= a < b < |jobs.order| ==> position[jobs.order[a]] < position[jobs.order[b]])
  }

  /** The composite index points at the present jobs that were stored last under their key, and only at those. */
  ghost predicate Composite(index: map<string, JobId>, jobs: map<JobId, Entry>, position: map<JobId, nat>,
                            log: seq<Event>) {
    && jobs.Keys <= position.Keys
    && (forall k :: k in index ==>
          index[k] in jobs && KeyOf(jobs[index[k]].job) == k && IsLast(log, position[index[k]]))
    && (forall id :: id in jobs && IsLast(log, position[id]) ==>
          KeyOf(jobs[id].job) in index && index[KeyOf(jobs[id].job)] == id)
  }

  /** The map holds nothing withdrawn, and every stored job that is neither withdrawn nor expired. */
  ghost predicate Faithful(jobs: map<JobId, Entry>, position: map<JobId, nat>, log: seq<Event>, clock: int) {
    && jobs.Keys <= position.Keys
    && (forall id :: id in jobs ==>
          position[id] < |log| && log[position[id]].Stored? && !Withdrawn(log, position[id]))
    && (forall i: nat :: i < |log| && log[i].Stored? && !Withdrawn(log, i) && !Expired(log[i].entry, clock) ==>
          var id := log[i].entry.job.jobId; id in jobs && position[id] == i)
  }

  lemma PlacedAdd(jobs: JsMap<JobId, Entry>, position: map<JobId, nat>, log: seq<Event>, e: Entry)
    requires Placed(jobs, position, log) && e.job.jobId !in jobs.items
    ensures Placed(jobs.Set(e.job.jobId, e), position[e.job.jobId := |log|], log + [Stored(e)])
  {
    jobs.SetValid(e.job.jobId, e);
  }

  /** A store makes itself the latest of its key and leaves the other keys' latest alone. */
  lemma StoreKeepsLast(log: seq<Event>, e: Entry)
    ensures IsLast(log + [Stored(e)], |log|)
    ensures forall i: nat :: i < |log| && log[i].Stored? ==>
              (IsLast(log + [Stored(e)], i) <==> IsLast(log, i) && KeyOf(log[i].entry.job) != KeyOf(e.job))
  {
    var after := log + [Stored(e)];
    forall i: nat | i < |log| && log[i].Stored?
      ensures IsLast(after, i) <==> IsLast(log, i) && KeyOf(log[i].entry.job) != KeyOf(e.job)
    {
      if IsLast(after, i) {
        assert after[|log|].Stored? && forall j :: i < j < |log| ==> after[j] == log[j];
      }
    }
  }

  lemma CompositeAdd(index: map<string, JobId>, jobs: JsMap<JobId, Entry>, position: map<JobId, nat>, log: seq<Event>,
                     e: Entry)
    requires Placed(jobs, position, log) && Composite(index, jobs.items, position, log) && e.job.jobId !in jobs.items
    ensures Composite(index[KeyOf(e.job) := e.job.jobId], jobs.items[e.job.jobId := e],
                      position[e.job.jobId := |log|], log + [Stored(e)])
  {
    hide KeyOf, IsLast, JsMap.Valid;
    StoreKeepsLast(log, e);
  }

  lemma FaithfulAdd(jobs: JsMap<JobId, Entry>, position: map<JobId, nat>, log: seq<Event>, clock: int, e: Entry,
                    now: int)
    requires Faithful(jobs.items, position, log, clock) && e.job.jobId !in jobs.items && clock <= now
    ensures Faithful(jobs.items[e.job.jobId := e], position[e.job.jobId := |log|], log + [Stored(e)], now)
  {
    var after := log + [Stored(e)];
    forall i: nat | i < |log| && log[i].Stored? ensures Withdrawn(after, i) <==> Withdrawn(log, i) {
      assert after[..|after| - 1] == log;
      WithdrawnPrefix(after, i);
    }
    assert !Withdrawn(after, |log|);
  }

  lemma TimeAdd(slots: seq<TimeSlot>, jobs: JsMap<JobId, Entry>, position: map<JobId, nat>, log: seq<Event>, e: Entry)
    requires Placed(jobs, position, log) && TimeOrdered(slots, jobs.items, position) && e.job.jobId !in jobs.items
    ensures TimeOrdered(Sort(slots + [TimeSlot(e.job.timestamp, e.job.jobId)], NewestFirst),
                        jobs.items[e.job.jobId := e], position[e.job.jobId := |log|])
  {
    hide TimeOrdered, Sort, AddAt;
    NewestOrder(slots, jobs.items, position);
    var p := SlotIn(slots, TimeSlot(e.job.timestamp, e.job.jobId));
    TimeInsert(slots, jobs.items, position, e, |log|, p);
  }

  lemma NewestOrder(slots: seq<TimeSlot>, jobs: map<JobId, Entry>, position: map<JobId, nat>)
    requires TimeOrdered(slots, jobs, position)
    ensures forall a, b :: 0 <= a < b < |slots| ==> NewestFirst(slots[a], slots[b])
  {
    forall a, b | 0 <= a < b < |slots| ensures NewestFirst(slots[a], slots[b]) {
      assert Ahead(slots[a], slots[b], position);
    }
  }

  /** Pushing a slot and sorting puts it behind every slot that is not older. */
  lemma SlotIn(slots: seq<TimeSlot>, slot: TimeSlot) returns (p: nat)
    requires forall a, b :: 0 <= a < b < |slots| ==> NewestFirst(slots[a], slots[b])
    ensures p <= |slots| && Sort(slots + [slot], NewestFirst) == AddAt(slots, p, slot)
    ensures forall i :: 0 <= i < p ==> slots[i].timestamp >= slot.timestamp
    ensures forall i :: p <= i < |slots| ==> slots[i].timestamp < slot.timestamp
  {
    SortOfSorted(slots, NewestFirst);
    assert (slots + [slot])[..|slots|] == slots;
    p := InsertAt(slots, slot, NewestFirst);
    forall i | 0 <= i < p ensures slots[i].timestamp >= slot.timestamp {
      assert i == p - 1 || NewestFirst(slots[i], slots[p - 1]);
    }
  }

  lemma TimeInsert(slots: seq<TimeSlot>, jobs: map<JobId, Entry>, position: map<JobId, nat>, e: Entry, at: nat, p: nat)
    requires TimeOrdered(slots, jobs, position) && e.job.jobId !in jobs && p <= |slots|
    requires forall x :: x in jobs ==> position[x] < at
    requires forall i :: 0 <= i < p ==> slots[i].timestamp >= e.job.timestamp
    requires forall i :: p <= i < |slots| ==> slots[i].timestamp < e.job.timestamp
    ensures TimeOrdered(AddAt(slots, p, TimeSlot(e.job.timestamp, e.job.jobId)),
                        jobs[e.job.jobId := e], position[e.job.jobId := at])
  {
    hide AddAt, Ahead, Listed;
    var r := AddAt(slots, p, TimeSlot(e.job.timestamp, e.job.jobId));
    TimeInsertAhead(slots, jobs, position, e, at, p);
    forall x: JobId | x in jobs[e.job.jobId := e] ensures Listed(r, x) {
      ListedInsert(slots, TimeSlot(e.job.timestamp, e.job.jobId), p, x);
    }
  }

  lemma TimeInsertAhead(slots: seq<TimeSlot>, jobs: map<JobId, Entry>, position: map<JobId, nat>, e: Entry, at: nat,
                        p: nat)
    requires TimeOrdered(slots, jobs, position) && e.job.jobId !in jobs && p <= |slots|
    requires forall x :: x in jobs ==> position[x] < at
    requires forall i :: 0 <= i < p ==> slots[i].timestamp >= e.job.timestamp
    requires forall i :: p <= i < |slots| ==> slots[i].timestamp < e.job.timestamp
    ensures var r := AddAt(slots, p, TimeSlot(e.job.timestamp, e.job.jobId));
            forall a, b :: 0 <= a < b < |r| ==> Ahead(r[a], r[b], position[e.job.jobId := at])
  {
    hide AddAt, Listed;
    var r := AddAt(slots, p, TimeSlot(e.job.timestamp, e.job.jobId));
    forall a, b | 0 <= a < b < |r| ensures Ahead(r[a], r[b], position[e.job.jobId := at]) {
      if a == p || b == p {
        assert slots[if a == p then b - 1 else a].jobId in jobs;
      } else {
        assert Ahead(slots[if a < p then a else a - 1], slots[if b < p then b else b - 1], position);
      }
    }
  }

  lemma ListedInsert(slots: seq<TimeSlot>, slot: TimeSlot, p: nat, x: JobId)
    requires p <= |slots| && (x == slot.jobId || Listed(slots, x))
    ensures Listed(AddAt(slots, p, slot), x)
  {
    var r := AddAt(slots, p, slot);
    if x == slot.jobId {
      assert r[p].jobId == x;
    } else {
      var a :| 0 <= a < |slots| && slots[a].jobId == x;
      assert r[if a < p then a else a + 1] == slots[a];
    }
  }

  lemma TimeDrop(slots: seq<TimeSlot>, jobs: map<JobId, Entry>, position: map<JobId, nat>, id: JobId, at: nat)
    requires TimeOrdered(slots, jobs, position)
    requires at < |slots| && slots[at].jobId == id
    ensures TimeOrdered(RemoveAt(slots, at), jobs - {id}, position)
  {
    hide RemoveAt, Ahead, Listed;
    var r := RemoveAt(slots, at);
    forall a, b | 0 <= a < b < |r| ensures Ahead(r[a], r[b], position) {
      assert Ahead(slots[if a < at then a else a + 1], slots[if b < at then b else b + 1], position);
    }
    forall a | 0 <= a < |r| ensures r[a].jobId in jobs - {id} && r[a].timestamp == jobs[r[a].jobId].job.timestamp {
      OtherSlot(slots, jobs, position, at, if a < at then a else a + 1);
    }
    forall x: JobId | x in jobs - {id} ensures Listed(r, x) {
      ListedDrop(slots, at, x);
    }
  }

  lemma OtherSlot(slots: seq<TimeSlot>, jobs: map<JobId, Entry>, position: map<JobId, nat>, at: nat, a: nat)
    requires TimeOrdered(slots, jobs, position)
    requires at < |slots| && a < |slots| && a != at
    ensures slots[a].jobId != slots[at].jobId
  {
    assert if a < at then Ahead(slots[a], slots[at], position) else Ahead(slots[at], slots[a], position);
  }

  lemma ListedDrop(slots: seq<TimeSlot>, at: nat, x: JobId)
    requires Listed(slots, x) && at < |slots| && slots[at].jobId != x
    ensures Listed(RemoveAt(slots, at), x)
  {
    var a :| 0 <= a < |slots| && slots[a].jobId == x;
    assert RemoveAt(slots, at)[if a < at then a else a - 1] == slots[a];
  }

  lemma ClockAdd(log: seq<Event>, ttl: Option<nat>, clock: int, e: Entry)
    requires StoredBy(log, clock) && clock <= e.storedAt && Timed(e, ttl)
    ensures StoredBy(log + [Stored(e)], e.storedAt)
    ensures FixedTtl(log, ttl) ==> FixedTtl(log + [Stored(e)], ttl)
  {}

  /** The map of jobs and its five indexes. */
  datatype Tables = Tables(
    jobs: JsMap<JobId, Entry>,
    documents: map<string, set<JobId>>,
    composites: map<string, JobId>,
    statuses: map<JobStatus, set<JobId>>,
    rulesets: map<string, set<JobId>>,
    slots: seq<TimeSlot>)

  /** The map and its five indexes agree with each other and with the log. */
  ghost predicate Coherent(s: Tables, position: map<JobId, nat>, log: seq<Event>) {
    && Placed(s.jobs, position, log)
    && Partition(s.documents, s.jobs.items, DocumentOf)
    && Partition(s.statuses, s.jobs.items, StatusOf)
    && Partition(s.rulesets, s.jobs.items, RulesetOf)
    && TimeOrdered(s.slots, s.jobs.items, position)
    && Composite(s.composites, s.jobs.items, position, log)
  }

  /** What storing a job does to the map and its indexes, whether or not the id is there already. */
  function Added(s: Tables, e: Entry): Tables {
    var id := e.job.jobId;
    Tables(s.jobs.Set(id, e), AddTo(s.documents, e.job.documentId, id), s.composites[KeyOf(e.job) := id],
            AddTo(s.statuses, e.job.status, id), AddTo(s.rulesets, e.job.rulesetName, id),
            Sort(s.slots + [TimeSlot(e.job.timestamp, id)], NewestFirst))
  }

  lemma AddedItems(s: Tables, e: Entry)
    ensures Added(s, e).jobs.items == s.jobs.items[e.job.jobId := e]
  {}

  lemma PrefixOf(log: seq<Event>, event: Event)
    ensures (log + [event])[..|log|] == log
  {}

  lemma FreshCoherent(s: Tables, position: map<JobId, nat>, log: seq<Event>, e: Entry)
    requires Coherent(s, position, log) && e.job.jobId !in s.jobs.items
    ensures Coherent(Added(s, e), position[e.job.jobId := |log|], log + [Stored(e)])
  {
    hide Placed, Partition, TimeOrdered, Composite;
    PartitionAdd(s.documents, s.jobs.items, DocumentOf, e.job.jobId, e);
    PartitionAdd(s.statuses, s.jobs.items, StatusOf, e.job.jobId, e);
    PartitionAdd(s.rulesets, s.jobs.items, RulesetOf, e.job.jobId, e);
    TimeAdd(s.slots, s.jobs, position, log, e);
    CompositeAdd(s.composites, s.jobs, position, log, e);
    PlacedAdd(s.jobs, position, log, e);
  }

  lemma {:induction false} TwoPlaces<T>(s: seq<T>, x: T)
    requires multiset(s)[x] >= 2
    ensures exists a, b :: 0 <= a < b < |s| && s[a] == x && s[b] == x
  {
    var n := |s| - 1;
    assert s == s[..n] + [s[n]];
    if s[n] != x {
      TwoPlaces(s[..n], x);
      var a, b :| 0 <= a < b < n && s[..n][a] == x && s[..n][b] == x;
      assert s[a] == x && s[b] == x;
    } else {
      assert x in multiset(s[..n]);
      var a :| 0 <= a < n && s[..n][a] == x;
      assert s[a] == x;
    }
  }

  /** Storing an id again leaves its old slot behind: either it is out of date, or there are two of it. */
  lemma TimeAgain(slots: seq<TimeSlot>, jobs: map<JobId, Entry>, position: map<JobId, nat>, e: Entry, at: nat)
    requires TimeOrdered(slots, jobs, position) && e.job.jobId in jobs
    ensures var slot := TimeSlot(e.job.timestamp, e.job.jobId);
            !TimeOrdered(Sort(slots + [slot], NewestFirst), jobs[e.job.jobId := e], position[e.job.jobId := at])
  {
    hide Sort, TimeOrdered;
    var slot := TimeSlot(e.job.timestamp, e.job.jobId);
    var all := slots + [slot];
    var r := Sort(all, NewestFirst);
    var stale := SlotThere(slots, jobs, position, e.job.jobId);
    SortPermutes(all, NewestFirst);
    assert slots[stale] in multiset(all) && multiset(all) == multiset(slots) + multiset{slot};
    if slots[stale] == slot {
      assert multiset(r)[slot] >= 2;
      TwoPlaces(r, slot);
      var a, b :| 0 <= a < b < |r| && r[a] == slot && r[b] == slot;
      SameSlotTwice(r, jobs[e.job.jobId := e], position[e.job.jobId := at], a, b);
    } else {
      assert slots[stale] in multiset(r);
      var a :| 0 <= a < |r| && r[a] == slots[stale];
      StaleSlot(r, jobs[e.job.jobId := e], position[e.job.jobId := at], a);
    }
  }

  lemma SlotThere(slots: seq<TimeSlot>, jobs: map<JobId, Entry>, position: map<JobId, nat>, id: JobId) returns (at: nat)
    requires TimeOrdered(slots, jobs, position) && id in jobs
    ensures at < |slots| && slots[at].jobId == id
  {
    assert Listed(slots, id);
    at :| 0 <= at < |slots| && slots[at].jobId == id;
  }

  lemma SameSlotTwice(slots: seq<TimeSlot>, jobs: map<JobId, Entry>, position: map<JobId, nat>, a: nat, b: nat)
    requires a < b < |slots| && slots[a] == slots[b]
    ensures !TimeOrdered(slots, jobs, position)
  {
    assert !Ahead(slots[a], slots[b], position);
  }

  lemma StaleSlot(slots: seq<TimeSlot>, jobs: map<JobId, Entry>, position: map<JobId, nat>, a: nat)
    requires a < |slots| && slots[a].jobId in jobs && slots[a].timestamp != jobs[slots[a].jobId].job.timestamp
    ensures !TimeOrdered(slots, jobs, position)
  {}

  /**
   * One store keeps the map and its five indexes in step with each other and with the log exactly when the id is new.
   */
  lemma AddCoherent(s: Tables, position: map<JobId, nat>, log: seq<Event>, e: Entry)
    requires Coherent(s, position, log)
    ensures Coherent(Added(s, e), position[e.job.jobId := |log|], log + [Stored(e)]) <==> e.job.jobId !in s.jobs.items
  {
    hide Placed, Partition, TimeOrdered, Composite, Sort;
    if e.job.jobId in s.jobs.items {
      TimeAgain(s.slots, s.jobs.items, position, e, |log|);
    } else {
      FreshCoherent(s, position, log, e);
    }
  }

  function DropKey(index: map<string, JobId>, k: string, id: JobId): map<string, JobId> {
    if k in index && index[k] == id then index - {k} else index
  }

  lemma CompositeDrop(index: map<string, JobId>, jobs: JsMap<JobId, Entry>, position: map<JobId, nat>, log: seq<Event>,
                      id: JobId)
    requires Placed(jobs, position, log) && Composite(index, jobs.items, position, log) && id in jobs.items
    ensures Composite(DropKey(index, KeyOf(jobs.items[id].job), id), jobs.items - {id}, position, log)
  {}

  lemma PlacedDrop(jobs: JsMap<JobId, Entry>, position: map<JobId, nat>, log: seq<Event>, id: JobId)
    requires Placed(jobs, position, log)
    ensures Placed(jobs.Delete(id), position, log)
  {
    jobs.DeleteValid(id);
    var before := (a, b) => a in position && b in position && position[a] < position[b];
    FilterOrdered(jobs.order, Other(id), before);
    var order := jobs.Delete(id).order;
    forall a | 0 <= a < |order| ensures order[a] in position {
      FilterMember(jobs.order, Other(id), order[a]);
    }
    forall a, b | 0 <= a < b < |order| ensures position[order[a]] < position[order[b]] {
      assert before(order[a], order[b]);
    }
  }

  lemma DropCoherent(s: Tables, position: map<JobId, nat>, log: seq<Event>, id: JobId)
    requires Coherent(s, position, log) && id in s.jobs.items
    ensures FindIndex(s.slots, SlotOf(id)).Some?
    ensures var job := s.jobs.items[id].job;
            Coherent(Tables(s.jobs.Delete(id), DropFrom(s.documents, job.documentId, id),
                             DropKey(s.composites, KeyOf(job), id),
                             DropFrom(s.statuses, job.status, id), DropFrom(s.rulesets, job.rulesetName, id),
                             RemoveAt(s.slots, FindIndex(s.slots, SlotOf(id)).value)),
                     position, log)
  {
    hide Placed, Partition, Composite;
    assert Listed(s.slots, id);
    PartitionDrop(s.documents, s.jobs.items, DocumentOf, id);
    PartitionDrop(s.statuses, s.jobs.items, StatusOf, id);
    PartitionDrop(s.rulesets, s.jobs.items, RulesetOf, id);
    TimeDrop(s.slots, s.jobs.items, position, id, FindIndex(s.slots, SlotOf(id)).value);
    CompositeDrop(s.composites, s.jobs, position, log, id);
    PlacedDrop(s.jobs, position, log, id);
  }

  /** A withdrawal in the log changes neither where jobs were stored nor which is the latest of its key. */
  lemma WithdrawalCoherent(s: Tables, position: map<JobId, nat>, log: seq<Event>, event: Event)
    requires Coherent(s, position, log) && !event.Stored?
    ensures Coherent(s, position, log + [event])
  {
    hide Partition, TimeOrdered, JsMap.Valid, KeyOf;
    var after := log + [event];
    forall i: nat ensures IsLast(after, i) <==> IsLast(log, i) {
      if i < |log| && log[i].Stored? {
        assert forall j :: i < j < |after| && after[j].Stored? <==> i < j < |log| && log[j].Stored?;
      }
    }
  }

  lemma FaithfulLater(jobs: map<JobId, Entry>, position: map<JobId, nat>, log: seq<Event>, clock: int, now: int)
    requires Faithful(jobs, position, log, clock) && clock <= now
    ensures Faithful(jobs, position, log, now)
  {}

  /** An expired job may go without anybody noticing. */
  lemma FaithfulDrop(s: Tables, position: map<JobId, nat>, log: seq<Event>, clock: int, id: JobId)
    requires Coherent(s, position, log) && Faithful(s.jobs.items, position, log, clock)
    requires id in s.jobs.items && Expired(s.jobs.items[id], clock)
    ensures Faithful(s.jobs.Delete(id).items, position, log, clock)
  {
    hide Partition, TimeOrdered, Composite, Filter, JsMap.Valid, Withdrawn;
  }

  /** The present jobs of a document. */
  ghost function JobsOf(jobs: map<JobId, Entry>, documentId: string): set<JobId> {
    set id | id in jobs && jobs[id].job.documentId == documentId
  }

  lemma NoneLeft(jobs: map<JobId, Entry>, documentId: string)
    ensures JobsOf(jobs - JobsOf(jobs, documentId), documentId) == {}
  {}

  /** Invalidating a document takes exactly its jobs. */
  lemma FaithfulInvalidation(s: Tables, position: map<JobId, nat>, log: seq<Event>, clock: int, documentId: string)
    requires Coherent(s, position, log) && Faithful(s.jobs.items, position, log, clock)
    ensures Faithful(s.jobs.items - JobsOf(s.jobs.items, documentId), position, log + [Invalidated(documentId)], clock)
  {
    hide Partition, TimeOrdered, Composite;
    var event := Invalidated(documentId);
    var after := log + [event];
    assert after[..|log|] == log;
    forall i: nat | i < |log| && log[i].Stored?
      ensures Withdrawn(after, i) <==> Withdrawn(log, i) || log[i].entry.job.documentId == documentId
    {
      WithdrawnPrefix(after, i);
    }
  }

  function In(ids: set<JobId>): JobId -> bool {
    (id: JobId) => id in ids
  }

  function Bucket<K>(index: map<K, set<JobId>>, k: K): set<JobId> {
    if k in index then index[k] else {}
  }

  lemma BucketIs<K(!new)>(index: map<K, set<JobId>>, jobs: map<JobId, Entry>, field: LintJob -> K, k: K)
    requires Partition(index, jobs, field)
    ensures forall id :: id in Bucket(index, k) <==> id in jobs && field(jobs[id].job) == k
  {}

  lemma StatusPartition(s: Tables, position: map<JobId, nat>, log: seq<Event>)
    requires Coherent(s, position, log)
    ensures Partition(s.statuses, s.jobs.items, StatusOf)
  {}

  lemma NoIndexFilter(s: Tables, position: map<JobId, nat>, log: seq<Event>, none: Q.ListOptions)
    requires Coherent(s, position, log) && none.status == None && none.documentId == None && none.rulesetName == None
    ensures Filter(s.jobs.order, Q.Indexed(none, s.jobs.items)) == s.jobs.order
  {
    Q.FilterAll(s.jobs.order, Q.Indexed(none, s.jobs.items));
  }

  /** Filtering by an index's set is filtering by the field. */
  lemma StatusStage(s: Tables, before: Q.ListOptions, after: Q.ListOptions, matches: set<JobId>)
    requires before.status.None? && after.status.Some? && after == before.(status := after.status)
    requires forall id :: id in matches <==> id in s.jobs.items && s.jobs.items[id].job.status in after.status.value
    ensures Filter(Filter(s.jobs.order, Q.Indexed(before, s.jobs.items)), In(matches))
            == Filter(s.jobs.order, Q.Indexed(after, s.jobs.items))
  {
    FilterTwice(s.jobs.order, Q.Indexed(before, s.jobs.items), In(matches), Q.Indexed(after, s.jobs.items));
  }

  lemma DocumentStage(s: Tables, position: map<JobId, nat>, log: seq<Event>, before: Q.ListOptions,
                      after: Q.ListOptions)
    requires Coherent(s, position, log) && Q.Given(after.documentId)
    requires before.documentId.None? && after == before.(documentId := after.documentId)
    ensures Filter(Filter(s.jobs.order, Q.Indexed(before, s.jobs.items)),
                   In(Bucket(s.documents, after.documentId.value)))
            == Filter(s.jobs.order, Q.Indexed(after, s.jobs.items))
  {
    hide Placed, TimeOrdered, Composite, Partition, Bucket, Filter;
    var k := after.documentId.value;
    BucketIs(s.documents, s.jobs.items, DocumentOf, k);
    FilterTwice(s.jobs.order, Q.Indexed(before, s.jobs.items), In(Bucket(s.documents, k)),
                Q.Indexed(after, s.jobs.items));
  }

  lemma RulesetStage(s: Tables, position: map<JobId, nat>, log: seq<Event>, before: Q.ListOptions,
                     after: Q.ListOptions)
    requires Coherent(s, position, log) && Q.Given(after.rulesetName)
    requires before.rulesetName.None? && after == before.(rulesetName := after.rulesetName)
    ensures Filter(Filter(s.jobs.order, Q.Indexed(before, s.jobs.items)),
                   In(Bucket(s.rulesets, after.rulesetName.value)))
            == Filter(s.jobs.order, Q.Indexed(after, s.jobs.items))
  {
    hide Placed, TimeOrdered, Composite, Partition, Bucket, Filter;
    var k := after.rulesetName.value;
    BucketIs(s.rulesets, s.jobs.items, RulesetOf, k);
    FilterTwice(s.jobs.order, Q.Indexed(before, s.jobs.items), In(Bucket(s.rulesets, k)),
                Q.Indexed(after, s.jobs.items));
  }

  lemma SameStage(s: Tables, before: Q.ListOptions, after: Q.ListOptions)
    requires before.status == after.status
    requires before.documentId == after.documentId || (!Q.Given(before.documentId) && !Q.Given(after.documentId))
    requires before.rulesetName == after.rulesetName || (!Q.Given(before.rulesetName) && !Q.Given(after.rulesetName))
    ensures Filter(s.jobs.order, Q.Indexed(before, s.jobs.items))
            == Filter(s.jobs.order, Q.Indexed(after, s.jobs.items))
  {
    FilterAgree(s.jobs.order, Q.Indexed(before, s.jobs.items), Q.Indexed(after, s.jobs.items));
  }

  lemma SelectedNone(order: seq<JobId>, jobs: map<JobId, Entry>, keep: Entry -> bool)
    requires order == []
    ensures Q.Selected(order, jobs, keep) == []
  {}

  lemma SelectedStep(order: seq<JobId>, i: nat, jobs: map<JobId, Entry>, keep: Entry -> bool)
    requires i < |order|
    ensures Q.Selected(order[..i + 1], jobs, keep) ==
            Q.Selected(order[..i], jobs, keep)
            + (if order[i] in jobs && keep(jobs[order[i]]) then [jobs[order[i]].job] else [])
  {
    assert order[..i + 1][..i] == order[..i];
  }

  lemma CoherentMap(s: Tables, position: map<JobId, nat>, log: seq<Event>)
    requires Coherent(s, position, log)
    ensures s.jobs.Valid()
  {}

  lemma DocumentSet(s: Tables, position: map<JobId, nat>, log: seq<Event>, documentId: string)
    requires Coherent(s, position, log)
    ensures (if documentId in s.documents then s.documents[documentId] else {}) == JobsOf(s.jobs.items, documentId)
    ensures JobsOf(s.jobs.items, documentId) <= s.jobs.items.Keys
    ensures documentId in s.documents ==> s.documents[documentId] != {}
  {}

  lemma EmptyCoherent(position: map<JobId, nat>, log: seq<Event>, clock: int)
    ensures Coherent(Tables(JsMap([], map[]), map[], map[], map[], map[], []), position, log)
    ensures Faithful(map[], position, log + [Cleared], clock)
  {
    assert Withdraws((log + [Cleared])[|log|], "");
  }

  /** What the composite index offers is what the log's one slot per key offers. */
  lemma SlotAnswers(s: Tables, position: map<JobId, nat>, log: seq<Event>, clock: int, key: string, now: int)
    requires Coherent(s, position, log) && Faithful(s.jobs.items, position, log, clock) && clock <= now
    ensures key in s.composites ==> s.composites[key] in s.jobs.items
    ensures OneSlot(log, key, now) ==
            if key in s.composites && !Expired(s.jobs.items[s.composites[key]], now)
            then Some(s.jobs.items[s.composites[key]].job) else None
  {
    hide Partition, TimeOrdered;
    if key in s.composites {
      var at := position[s.composites[key]];
      forall i: nat | IsLast(log, i) && KeyOf(log[i].entry.job) == key ensures i == at {
        LastIsUnique(log, i, at);
      }
    }
  }

  class MemoryLintStorage {
    var jobResults: JsMap<JobId, Entry>
    var documentIndex: map<string, set<JobId>>
    var compositeIndex: map<string, JobId>
    var statusIndex: map<JobStatus, set<JobId>>
    var rulesetIndex: map<string, set<JobId>>
    var timestampIndex: seq<TimeSlot>
    var ttlMs: Option<nat>

    /** Everything ever asked of the store, where in it each present job was stored, and the last clock reading. */
    ghost var log: seq<Event>
    ghost var position: map<JobId, nat>
    ghost var clock: int

    ghost function Contents(): Tables
      reads this
    {
      Tables(jobResults, documentIndex, compositeIndex, statusIndex, rulesetIndex, timestampIndex)
    }

    ghost predicate Valid()
      reads this
    {
      && Coherent(Contents(), position, log)
      && Faithful(jobResults.items, position, log, clock)
      && StoredBy(log, clock)
    }

    constructor (now: int)
      ensures Valid() && log == [] && clock == now && ttlMs == None && jobResults == JsMap([], map[])
      ensures timestampIndex == []
    {
      hide Coherent;
      EmptyCoherent(map[], [], now);
      jobResults := JsMap([], map[]);
      documentIndex, compositeIndex, statusIndex, rulesetIndex := map[], map[], map[], map[];
      timestampIndex := [];
      ttlMs := None;
      log, position, clock := [], map[], now;
    }

    /** A time to live of zero seconds reads as none. */
    method Initialize(ttlSeconds: Option<nat>)
      requires Valid()
      modifies this`ttlMs
      ensures Valid()
      ensures ttlMs == if ttlSeconds.Some? && ttlSeconds.value != 0 then Some(ttlSeconds.value * 1000) else old(ttlMs)
    {
      if ttlSeconds.Some? && ttlSeconds.value != 0 {
        ttlMs := Some(ttlSeconds.value * 1000);
      }
    }

    /** Every field changes as for a new id; what the fields promise each other survives exactly if the id is new. */
    method StoreJob(job: LintJob, now: int)
      requires Valid() && clock <= now
      modifies this
      ensures |log| == |old(log)| + 1 && log[..|old(log)|] == old(log) && log[|old(log)|].Stored?
      ensures var e := log[|old(log)|].entry;
              Contents() == Added(old(Contents()), e) && e.job == job && e.storedAt == now && Timed(e, ttlMs)
      ensures Valid() <==> job.jobId !in old(jobResults.items)
      ensures clock == now && ttlMs == old(ttlMs)
      ensures old(FixedTtl(log, ttlMs)) ==> FixedTtl(log, ttlMs)
    {
      hide Coherent, Faithful, StoredBy, FixedTtl, Added;
      var entry := Entry(job, now, Deadline(now, ttlMs));
      AddCoherent(Contents(), position, log, entry);
      if job.jobId !in jobResults.items { FaithfulAdd(jobResults, position, log, clock, entry, now); }
      ClockAdd(log, ttlMs, clock, entry);
      AddedItems(Contents(), entry);
      Enter(entry);
      PrefixOf(log, Stored(entry));
      log, position, clock := log + [Stored(entry)], position[job.jobId := |log|], now;
    }

    /** The map, and every index in turn. */
    method Enter(entry: Entry)
      modifies this`jobResults, this`documentIndex, this`compositeIndex
      modifies this`statusIndex, this`rulesetIndex, this`timestampIndex
      ensures Contents() == Added(old(Contents()), entry)
    {
      hide AddTo, Sort, KeyOf, JsMap.Set;
      var id, job := entry.job.jobId, entry.job;
      jobResults := jobResults.Set(id, entry);
      documentIndex := AddTo(documentIndex, job.documentId, id);
      compositeIndex := compositeIndex[KeyOf(job) := id];
      statusIndex := AddTo(statusIndex, job.status, id);
      rulesetIndex := AddTo(rulesetIndex, job.rulesetName, id);
      timestampIndex := timestampIndex + [TimeSlot(job.timestamp, id)];
      timestampIndex := Sort(timestampIndex, NewestFirst);
    }

    method RetrieveJobById(jobId: JobId, now: int) returns (r: Option<LintJob>)
      requires Valid() && clock <= now
      modifies this
      ensures Valid() && clock == now && log == old(log) && ttlMs == old(ttlMs)
      ensures r == if jobId in old(jobResults.items) && !Expired(old(jobResults.items)[jobId], now)
                   then Some(old(jobResults.items)[jobId].job) else None
      ensures jobResults ==
              if jobId in old(jobResults.items) && r.None? then old(jobResults).Delete(jobId) else old(jobResults)
    {
      hide Coherent, Faithful, JsMap.Delete;
      FaithfulLater(jobResults.items, position, log, clock, now);
      clock := now;
      if jobId !in jobResults.items {
        return None;
      }
      var entry := jobResults.items[jobId];
      if Expired(entry, now) {
        FaithfulDrop(Contents(), position, log, clock, jobId);
        RemoveEntry(jobId);
        return None;
      }
      r := Some(entry.job);
    }

    /** Remove one job from the map and from every index; a job that is not there is left alone. */
    method RemoveEntry(jobId: JobId)
      requires Coherent(Contents(), position, log)
      modifies this
      ensures Coherent(Contents(), position, log)
      ensures jobResults == if jobId in old(jobResults.items) then old(jobResults).Delete(jobId) else old(jobResults)
      ensures log == old(log) && position == old(position) && clock == old(clock) && ttlMs == old(ttlMs)
    {
      hide Coherent, FindIndex, RemoveAt, DropFrom, DropKey, Key.Make, JsMap.Delete;
      if jobId in jobResults.items {
        var job := jobResults.items[jobId].job;
        var at := FindIndex(timestampIndex, SlotOf(jobId));
        DropCoherent(Contents(), position, log, jobId);

        jobResults := jobResults.Delete(jobId);
        documentIndex := DropFrom(documentIndex, job.documentId, jobId);
        compositeIndex := DropKey(compositeIndex, Key.Make(job.documentId, job.rulesetName, job.rulesetVersion), jobId);
        statusIndex := DropFrom(statusIndex, job.status, jobId);
        rulesetIndex := DropFrom(rulesetIndex, job.rulesetName, jobId);
        if at.Some? {
          timestampIndex := RemoveAt(timestampIndex, at.value);
        }
      }
    }

    /** The answer is the latest store of the key, unless it has gone; that is what a scan of the whole log finds. */
    method RetrieveJob(documentId: string, rulesetName: string, rulesetVersion: string, now: int)
      returns (r: Option<LintJob>)
      requires Valid() && clock <= now
      modifies this
      ensures Valid() && clock == now && log == old(log) && ttlMs == old(ttlMs)
      ensures r == OneSlot(log, Key.Make(documentId, rulesetName, rulesetVersion), now)
      ensures Key.ColonFree(documentId, rulesetName, rulesetVersion) && FixedTtl(log, ttlMs)
              ==> r == ReverseScan(log, Key.Parts(documentId, rulesetName, rulesetVersion), now)
      ensures forall i: nat, ttl :: StandsFor(log, i, Key.Parts(documentId, rulesetName, rulesetVersion), ttl) ==>
                r == if ttl.None? || now <= log[i].entry.storedAt + ttl.value then Some(log[i].entry.job) else None
    {
      hide Faithful, ReverseScan, OneSlot, Key.ColonFree, FixedTtl, Key.Make;
      ghost var t := Key.Parts(documentId, rulesetName, rulesetVersion);
      if Key.ColonFree(documentId, rulesetName, rulesetVersion) && FixedTtl(log, ttlMs) {
        FixedTtlOutlives(log, ttlMs, t);
        OneSlotAgrees(log, t, now);
      }
      forall i: nat, ttl | StandsFor(log, i, t, ttl)
        ensures OneSlot(log, KeyFor(t), now) ==
                if ttl.None? || now <= log[i].entry.storedAt + ttl.value then Some(log[i].entry.job) else None
      {
        AnswersUntilDeadline(log, i, t, ttl, now);
      }
      var compositeKey := Key.Make(documentId, rulesetName, rulesetVersion);
      SlotAnswers(Contents(), position, log, clock, compositeKey, now);
      r := None;
      if compositeKey in compositeIndex {
        r := RetrieveJobById(compositeIndex[compositeKey], now);
      } else {
        FaithfulLater(jobResults.items, position, log, clock, now);
        clock := now;
      }
    }

    method Exists(documentId: string, rulesetName: string, rulesetVersion: string, now: int) returns (r: bool)
      requires Valid() && clock <= now
      modifies this
      ensures Valid() && clock == now && log == old(log) && ttlMs == old(ttlMs)
      ensures r <==> OneSlot(log, Key.Make(documentId, rulesetName, rulesetVersion), now).Some?
    {
      var result := RetrieveJob(documentId, rulesetName, rulesetVersion, now);
      r := result.Some?;
    }

    method RemoveEach(jobIds: set<JobId>) returns (count: nat)
      requires Coherent(Contents(), position, log) && jobIds <= jobResults.items.Keys
      modifies this
      ensures Coherent(Contents(), position, log) && count == |jobIds|
      ensures jobResults.items == old(jobResults.items) - jobIds
      ensures log == old(log) && position == old(position) && clock == old(clock) && ttlMs == old(ttlMs)
    {
      hide Coherent;
      count := 0;
      var left := jobIds;
      while left != {}
        invariant Coherent(Contents(), position, log) && left <= jobIds
        invariant log == old(log) && position == old(position) && clock == old(clock) && ttlMs == old(ttlMs)
        invariant jobResults.items == old(jobResults.items) - (jobIds - left)
        invariant count + |left| == |jobIds|
      {
        var jobId :| jobId in left;
        RemoveEntry(jobId);
        left := left - {jobId};
        count := count + 1;
      }
    }

    /** Take every present job of the document, as one step, and say how many there were. */
    method Invalidate(documentId: string, now: int) returns (count: nat)
      requires Valid() && clock <= now
      modifies this
      ensures Valid() && clock == now && ttlMs == old(ttlMs) && log == old(log) + [Invalidated(documentId)]
      ensures jobResults.items == old(jobResults.items) - JobsOf(old(jobResults.items), documentId)
      ensures count == |JobsOf(old(jobResults.items), documentId)|
    {
      hide Coherent, Faithful, JobsOf;
      FaithfulLater(jobResults.items, position, log, clock, now);
      FaithfulInvalidation(Contents(), position, log, now, documentId);
      DocumentSet(Contents(), position, log, documentId);
      count := 0;
      if documentId in documentIndex {
        count := RemoveEach(documentIndex[documentId]);
        DocumentSet(Contents(), position, log, documentId);
        NoneLeft(old(jobResults.items), documentId);
        assert documentIndex - {documentId} == documentIndex;
        documentIndex := documentIndex - {documentId};
      }
      assert jobResults.items == old(jobResults.items) - JobsOf(old(jobResults.items), documentId);
      WithdrawalCoherent(Contents(), position, log, Invalidated(documentId));
      clock, log := now, log + [Invalidated(documentId)];
    }

    method Clear(now: int) returns (count: nat)
      requires Valid() && clock <= now
      modifies this
      ensures Valid() && clock == now && ttlMs == old(ttlMs) && log == old(log) + [Cleared]
      ensures jobResults == JsMap([], map[]) && count == old(jobResults.Size())
    {
      hide Coherent, Faithful;
      count := jobResults.Size();
      EmptyCoherent(position, log + [Cleared], now);
      EmptyCoherent(position, log, now);
      jobResults := JsMap([], map[]);
      documentIndex, compositeIndex, statusIndex, rulesetIndex := map[], map[], map[], map[];
      timestampIndex := [];
      clock, log := now, log + [Cleared];
    }

    method FindExpired(now: int) returns (jobIds: seq<JobId>)
      requires jobResults.Valid()
      ensures NoDup(jobIds)
      ensures forall id :: id in jobIds <==> id in jobResults.items && Expired(jobResults.items[id], now)
    {
      jobIds := [];
      for i := 0 to |jobResults.order|
        invariant NoDup(jobIds)
        invariant forall id :: id in jobIds <==> id in jobResults.order[..i] && Expired(jobResults.items[id], now)
      {
        if Expired(jobResults.items[jobResults.order[i]], now) {
          jobIds := jobIds + [jobResults.order[i]];
        }
      }
    }

    method RemoveExpired(jobIds: seq<JobId>) returns (count: nat)
      requires Valid() && NoDup(jobIds)
      requires forall id :: id in jobIds ==> id in jobResults.items && Expired(jobResults.items[id], clock)
      modifies this
      ensures Valid() && clock == old(clock) && log == old(log) && ttlMs == old(ttlMs)
      ensures jobResults.items == map id | id in old(jobResults.items) && id !in jobIds :: old(jobResults.items)[id]
      ensures old(jobResults.Size()) == jobResults.Size() + count
    {
      hide Coherent, Faithful, Withdrawn;
      count := 0;
      for i := 0 to |jobIds|
        invariant Valid() && clock == old(clock) && log == old(log) && ttlMs == old(ttlMs)
        invariant jobResults.items ==
                  map id | id in old(jobResults.items) && id !in jobIds[..i] :: old(jobResults.items)[id]
        invariant old(jobResults.Size()) == jobResults.Size() + count
      {
        CoherentMap(Contents(), position, log);
        assert jobIds[i] !in jobIds[..i];
        FaithfulDrop(Contents(), position, log, clock, jobIds[i]);
        jobResults.DeleteValid(jobIds[i]);
        RemoveEntry(jobIds[i]);
        count := count + 1;
      }
    }

    /** The periodic sweep removes exactly the expired jobs, and does nothing without a time to live. */
    method CleanupExpired(now: int) returns (count: nat)
      requires Valid() && clock <= now
      modifies this
      ensures Valid() && clock == now && log == old(log) && ttlMs == old(ttlMs)
      ensures jobResults.items == if ttlMs.None? then old(jobResults.items) else
                map id | id in old(jobResults.items) && !Expired(old(jobResults.items)[id], now)
                       :: old(jobResults.items)[id]
      ensures old(jobResults.Size()) == jobResults.Size() + count
    {
      hide Coherent, Faithful;
      FaithfulLater(jobResults.items, position, log, clock, now);
      clock := now;
      count := 0;
      ghost var before := jobResults;
      if ttlMs.Some? {
        CoherentMap(Contents(), position, log);
        var jobsToRemove := FindExpired(now);
        count := RemoveExpired(jobsToRemove);
      }
    }

    /** Narrow all job ids by the three indexes, look at what is left, sort and slice. */
    method ListJobs(o: Q.ListOptions, compare: (string, string) -> int, now: int) returns (r: seq<Q.JobSummary>)
      requires Valid()
      ensures var page := Q.ListPage(jobResults, o, compare, now);
              |r| == |page| && forall i :: 0 <= i < |r| ==> Q.Tells(r[i], page[i])
    {
      hide Coherent, Faithful, Q.Selected, Sort, Q.Order, Map;
      var candidates := Candidates(o);
      var filtered := [];
      SelectedNone(candidates[..0], jobResults.items, Q.Scanned(o, now));
      for i := 0 to |candidates|
        invariant filtered == Q.Selected(candidates[..i], jobResults.items, Q.Scanned(o, now))
      {
        SelectedStep(candidates, i, jobResults.items, Q.Scanned(o, now));
        var id := candidates[i];
        if id in jobResults.items && !Expired(jobResults.items[id], now) && Q.InDates(o, jobResults.items[id].job) {
          filtered := filtered + [jobResults.items[id].job];
        }
      }
      assert candidates[..|candidates|] == candidates;
      Q.SelectedFilter(jobResults.order, jobResults.items, Q.Indexed(o, jobResults.items), Q.Scanned(o, now),
                       Q.Unexpired(o, now));
      filtered := Sort(filtered, Q.Order(o, compare));
      var offset := o.offset.GetOr(0);
      r := Map(JsSlice(filtered, offset, offset + o.limit.GetOr(50)), Q.SummaryOf);
    }

    method StatusMatches(statuses: seq<JobStatus>) returns (matches: set<JobId>)
      requires Partition(statusIndex, jobResults.items, StatusOf)
      ensures forall id :: id in matches <==> id in jobResults.items && jobResults.items[id].job.status in statuses
    {
      matches := {};
      for i := 0 to |statuses|
        invariant forall id :: id in matches <==>
                id in jobResults.items && jobResults.items[id].job.status in statuses[..i]
      {
        if statuses[i] in statusIndex {
          matches := matches + statusIndex[statuses[i]];
        }
      }
    }

    method Candidates(o: Q.ListOptions) returns (candidates: seq<JobId>)
      requires Coherent(Contents(), position, log)
      ensures candidates == Filter(jobResults.order, Q.Indexed(o, jobResults.items))
    {
      hide Coherent, Filter, Q.Indexed;
      ghost var none := o.(status := None, documentId := None, rulesetName := None);
      ghost var one := none.(status := o.status);
      ghost var two := one.(documentId := o.documentId);
      NoIndexFilter(Contents(), position, log, none);
      candidates := jobResults.order;
      if o.status.Some? {
        StatusPartition(Contents(), position, log);
        var matches := StatusMatches(o.status.value);
        StatusStage(Contents(), none, one, matches);
        candidates := Filter(candidates, In(matches));
      } else {
        assert one == none;
      }
      if Q.Given(o.documentId) {
        DocumentStage(Contents(), position, log, one, two);
        candidates := Filter(candidates, In(Bucket(documentIndex, o.documentId.value)));
      } else {
        SameStage(Contents(), one, two);
      }
      if Q.Given(o.rulesetName) {
        RulesetStage(Contents(), position, log, two, o);
        candidates := Filter(candidates, In(Bucket(rulesetIndex, o.rulesetName.value)));
      } else {
        SameStage(Contents(), two, o);
      }
    }

    method QueryJobResults(jobId: JobId, q: Q.Query, now: int) returns (r: Option<Q.JobPage>)
      requires Valid() && clock <= now
      modifies this
      ensures Valid() && clock == now && log == old(log) && ttlMs == old(ttlMs)
      ensures r.Some? <==> jobId in old(jobResults.items) && !Expired(old(jobResults.items)[jobId], now)
      ensures r.Some? ==>
                var job := old(jobResults.items)[jobId].job;
                && Q.Tells(r.value.job, job) && r.value.truncation == job.truncation
                && r.value.page == Q.PageOf(Filter(job.results, Q.Asked(q)), q) && Q.Echoes(r.value.filters, q)
    {
      hide Q.Page, Q.PageOf, Filter, Q.Asked, Q.Tells, Q.SummaryOf, Q.Echoes, Q.EchoOf;
      var job := RetrieveJobById(jobId, now);
      r := None;
      if job.Some? {
        r := Some(Q.JobPage(Q.SummaryOf(job.value), Q.Page(job.value.results, q), Q.EchoOf(q), job.value.truncation));
        Q.PageSlicesMatching(job.value.results, q);
        Q.SummaryTells(job.value);
        Q.EchoEchoes(q);
      }
    }

    method GetJobStats(jobId: JobId, now: int)
      returns (found: bool, ruleBreakdown: seq<Stats.RuleRow<string>>, topPaths: seq<Stats.PathRow<string>>)
      requires Valid() && clock <= now
      modifies this
      ensures Valid() && clock == now && log == old(log) && ttlMs == old(ttlMs)
      ensures found <==> jobId in old(jobResults.items) && !Expired(old(jobResults.items)[jobId], now)
      ensures found ==>
                var issues := old(jobResults.items)[jobId].job.results;
                && Stats.IsBreakdown(Map(issues, Stats.RuleOf), Map(issues, Stats.SeverityOf), ruleBreakdown)
                && Stats.SumOfCounts(ruleBreakdown) == |issues|
                && Stats.IsTop(Stats.Prefixes(issues), topPaths)
                && (forall r :: 0 <= r < |ruleBreakdown| ==> Stats.CountsRule(issues, ruleBreakdown[r]))
                && (forall i :: 0 <= i < |issues| ==> Stats.IsListed(issues[i], ruleBreakdown))
                && forall r :: 0 <= r < |topPaths| ==>
                     topPaths[r].count
                     == |set i | 0 <= i < |issues| && Stats.StartsWith(issues[i], topPaths[r].pathPrefix)|
    {
      hide Coherent, Faithful, Stats.IsBreakdown, Stats.IsTop, Stats.SumOfCounts, Map, Stats.Prefixes;
      hide Stats.CountsRule, Stats.StartsWith, Stats.IsListed;
      var job := RetrieveJobById(jobId, now);
      found, ruleBreakdown, topPaths := job.Some?, [], [];
      if job.Some? {
        ruleBreakdown := Stats.RuleBreakdown(job.value.results);
        topPaths := Stats.TopPaths(job.value.results);
      }
    }
  }

  /** A job asked for by its id after it was stored: there until its time is up. */
  method StoreThenRetrieve(store: MemoryLintStorage, job: LintJob, storedAt: int, now: int) returns (r: Option<LintJob>)
    requires store.Valid() && store.clock <= storedAt <= now && job.jobId !in store.jobResults.items
    modifies store
    ensures store.Valid()
    ensures r == if store.ttlMs.None? || now <= storedAt + store.ttlMs.value then Some(job) else None
  {
    hide Coherent, Faithful, StoredBy, Added;
    ghost var before := store.Contents();
    store.StoreJob(job, storedAt);
    AddedItems(before, store.log[|store.log| - 1].entry);
    r := store.RetrieveJobById(job.jobId, now);
  }

  /** A job asked for by its colon-free triple after it was stored: there until its time is up. */
  method StoreThenAsk(store: MemoryLintStorage, job: LintJob, storedAt: int, now: int) returns (r: Option<LintJob>)
    requires store.Valid() && store.clock <= storedAt <= now && job.jobId !in store.jobResults.items
    requires ColonFree(Triple(job))
    modifies store
    ensures store.Valid()
    ensures r == if store.ttlMs.None? || now <= storedAt + store.ttlMs.value then Some(job) else None
  {
    hide Coherent, Faithful, StoredBy, Added, OneSlot, ReverseScan;
    store.StoreJob(job, storedAt);
    assert StandsFor(store.log, |store.log| - 1, Triple(job), store.ttlMs);
    r := store.RetrieveJob(job.documentId, job.rulesetName, job.rulesetVersion, now);
  }

  const EARLIER: LintJob :=
    LintJob("earlier", "doc", "oas", "1", Completed, 0, 0, Summary(0, 0, 0, 0, 0), [], None)
  const LATER: LintJob := EARLIER.(jobId := "later")

  /**
   * A run that fails: the time to live is shortened between two stores of a triple, and the longer-lived job is missed.
   */
  method ShortenedTtl() returns (store: MemoryLintStorage, r: Option<LintJob>)
    ensures store.Valid() && ColonFree(Triple(EARLIER)) && !LatestOutlives(store.log, Triple(EARLIER))
    ensures r == None && ReverseScan(store.log, Triple(EARLIER), 2000) == Some(EARLIER)
  {
    hide Coherent, Faithful, StoredBy, Added, OneSlot;
    store := new MemoryLintStorage(0);
    store.Initialize(Some(100));
    AddedItems(store.Contents(), Entry(EARLIER, 0, Some(100000)));
    store.StoreJob(EARLIER, 0);
    assert store.log == [Stored(Entry(EARLIER, 0, Some(100000)))];
    store.Initialize(Some(1));
    store.StoreJob(LATER, 0);
    assert store.log == [Stored(Entry(EARLIER, 0, Some(100000))), Stored(Entry(LATER, 0, Some(1000)))];
    TwoStored(store.log);
    r := store.RetrieveJob("doc", "oas", "1", 2000);
  }

  lemma TwoStored(log: seq<Event>)
    requires log == [Stored(Entry(EARLIER, 0, Some(100000))), Stored(Entry(LATER, 0, Some(1000)))]
    ensures ColonFree(Triple(EARLIER)) && !LatestOutlives(log, Triple(EARLIER))
    ensures ReverseScan(log, Triple(EARLIER), 2000) == Some(EARLIER)
    ensures OneSlot(log, Key.Make("doc", "oas", "1"), 2000) == None
  {
    assert log[..1] == [log[0]] && log[..1][..0] == [];
    assert IsLast(log, 1) && !Withdrawn(log, 0);
    OneSlotIs(log, 1, 2000);
  }

  /** A run that fails: the same job is stored twice, and one job has two places in the time index. */
  method StoredAgain() returns (store: MemoryLintStorage)
    ensures !store.Valid() && store.jobResults.order == [EARLIER.jobId] && |store.timestampIndex| == 2
  {
    hide Coherent, Faithful, StoredBy, Sort;
    store := new MemoryLintStorage(0);
    SortLength(store.timestampIndex + [TimeSlot(EARLIER.timestamp, EARLIER.jobId)], NewestFirst);
    store.StoreJob(EARLIER, 0);
    SortLength(store.timestampIndex + [TimeSlot(EARLIER.timestamp, EARLIER.jobId)], NewestFirst);
    store.StoreJob(EARLIER, 0);
  }
}
