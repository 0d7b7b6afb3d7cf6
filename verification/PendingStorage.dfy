/** The two directories of undelivered notifications, one file operation at a time. */
module PendingStorage {
  import opened Collections
  import opened Notifications

  datatype Pending = Pending(notification: JobNotification, attempts: nat)

  datatype Reason = NonRetryable(status: int) | TooManyAttempts(attempts: nat, limit: int)

  datatype DeadLetter = DeadLetter(item: Pending, reason: Reason)

  /**
   * How one file operation ends: done, nothing of that name there, or any other failure. Without effect unless done.
   */
  datatype Fate = Done | NotFound | Broken

  /**
   * Both directories, with two things only the proof knows: the notification last stored under each id, and those the
   * server has acknowledged.
   */
  datatype Disk = Disk(
    pending: map<string, Pending>,
    deadLetter: map<string, DeadLetter>,
    stored: map<string, JobNotification>,
    acked: set<JobNotification>)

  /** A stored notification is in one of the directories or has been acknowledged. */
  ghost predicate Kept(d: Disk, id: string)
    requires id in d.stored
  {
    || id in d.pending
    || (id in d.deadLetter && d.deadLetter[id].item.notification == d.stored[id])
    || d.stored[id] in d.acked
  }

  /** Nothing stored is lost, and a pending file always holds what was stored last. */
  ghost predicate Safe(d: Disk) {
    && (forall id :: id in d.pending ==> id in d.stored && d.pending[id].notification == d.stored[id])
    && (forall id :: id in d.stored ==> d.stored[id].jobId == id && Kept(d, id))
  }

  ghost predicate AllSafe(trace: seq<Disk>) {
    forall i :: 0 <= i < |trace| ==> Safe(trace[i])
  }

  /** Directory listings name every file once. */
  ghost predicate Lists(names: seq<string>, files: set<string>) {
    NoDup(names) && (forall id :: id in names <==> id in files)
  }

  /** What a listing reads: files as they are, each at most once. */
  ghost predicate ReadFrom(items: seq<Pending>, pending: map<string, Pending>) {
    && (forall i :: 0 <= i < |items| ==>
        items[i].notification.jobId in pending && pending[items[i].notification.jobId] == items[i])
    && (forall i, j :: 0 <= i < j < |items| ==> items[i].notification.jobId != items[j].notification.jobId)
  }

  lemma {:induction false} ListsAll(names: seq<string>, files: set<string>)
    requires Lists(names, files)
    ensures |names| == |files|
  {
    if names != [] {
      var init, last := names[..|names| - 1], names[|names| - 1];
      assert names == init + [last];
      ListsAll(init, files - {last});
    } else {
      assert files == {};
    }
  }

  lemma NamedById(d: Disk, id: string)
    requires Safe(d) && id in d.pending
    ensures d.pending[id].notification.jobId == id
  {}

  lemma ReadNext(items: seq<Pending>, pending: map<string, Pending>, files: seq<string>, i: nat)
    requires ReadFrom(items, pending) && NoDup(files) && i < |files| && files[i] in pending
    requires pending[files[i]].notification.jobId == files[i]
    requires forall item :: item in items ==> item.notification.jobId in files[..i]
    ensures var after := items + [pending[files[i]]];
            ReadFrom(after, pending) && forall item :: item in after ==> item.notification.jobId in files[..i + 1]
  {
    TakeNext(files, i);
    forall j | 0 <= j < |items| ensures items[j].notification.jobId != files[i] {
      assert items[j] in items;
    }
  }

  // The four writes there are, on values

  function Written(d: Disk, n: JobNotification): Disk {
    d.(pending := d.pending[n.jobId := Pending(n, 0)], stored := d.stored[n.jobId := n])
  }

  function Counted(d: Disk, id: string): Disk
    requires id in d.pending
  {
    d.(pending := d.pending[id := d.pending[id].(attempts := d.pending[id].attempts + 1)])
  }

  function Buried(d: Disk, id: string, reason: Reason): Disk
    requires id in d.pending
  {
    d.(deadLetter := d.deadLetter[id := DeadLetter(d.pending[id], reason)])
  }

  function Unlinked(d: Disk, id: string): Disk {
    d.(pending := d.pending - {id})
  }

  function Acknowledged(d: Disk, n: JobNotification): Disk {
    d.(acked := d.acked + {n})
  }

  lemma WritesAreSafe(d: Disk, n: JobNotification)
    requires Safe(d)
    ensures Safe(Written(d, n)) && Safe(Acknowledged(d, n))
  {}

  lemma CountingIsSafe(d: Disk, id: string)
    requires Safe(d) && id in d.pending
    ensures Safe(Counted(d, id))
  {}

  lemma BuryingIsSafe(d: Disk, id: string, reason: Reason)
    requires Safe(d) && id in d.pending
    ensures Safe(Buried(d, id, reason))
  {}

  /** A pending file may go exactly when its notification is kept elsewhere. */
  lemma UnlinkingIsSafe(d: Disk, id: string)
    requires Safe(d) && id in d.pending
    ensures Safe(Unlinked(d, id)) <==>
              || (id in d.deadLetter && d.deadLetter[id].item.notification == d.pending[id].notification)
              || d.pending[id].notification in d.acked
  {
    var after := Unlinked(d, id);
    assert id in after.stored && after.stored[id] == d.pending[id].notification;
    if Safe(after) {
      assert Kept(after, id);
    }
    forall other | other in d.stored && other != id ensures Kept(after, other) {
      assert Kept(d, other);
    }
  }

  /** One file written or removed in one of the directories, or one acknowledgement. */
  ghost predicate OneStep(a: Disk, b: Disk) {
    || (exists n :: b == Written(a, n))
    || (exists id :: id in a.pending && b == Counted(a, id))
    || (exists id, reason :: id in a.pending && b == Buried(a, id, reason))
    || (exists id :: b == Unlinked(a, id))
    || (exists n :: b == Acknowledged(a, n))
  }

  ghost predicate StepByStep(trace: seq<Disk>) {
    forall i :: 0 <= i < |trace| - 1 ==> OneStep(trace[i], trace[i + 1])
  }

  lemma NextStep(trace: seq<Disk>, d: Disk)
    requires StepByStep(trace) && AllSafe(trace) && Safe(d) && trace != [] && OneStep(trace[|trace| - 1], d)
    ensures StepByStep(trace + [d]) && AllSafe(trace + [d])
  {
    hide OneStep, Safe;
  }

  lemma WrittenStep(d: Disk, n: JobNotification)
    ensures OneStep(d, Written(d, n)) && OneStep(d, Acknowledged(d, n))
  {}

  lemma UnlinkedStep(d: Disk, id: string)
    ensures OneStep(d, Unlinked(d, id))
  {}

  lemma CountedStep(d: Disk, id: string)
    requires id in d.pending
    ensures OneStep(d, Counted(d, id))
  {}

  lemma BuriedStep(d: Disk, id: string, reason: Reason)
    requires id in d.pending
    ensures OneStep(d, Buried(d, id, reason))
  {}

  // What each operation makes of the fates of its file operations, the first of which is number `at`

  /** Where a sequence of steps from `d` ends. */
  ghost function After(d: Disk, steps: seq<Disk>): Disk {
    if steps == [] then d else steps[|steps| - 1]
  }

  ghost function StoreSteps(d: Disk, n: JobNotification, fates: nat -> Fate, at: nat): seq<Disk> {
    if fates(at).Done? then [Written(d, n)] else []
  }

  ghost function RemoveSteps(d: Disk, id: string, fates: nat -> Fate, at: nat): seq<Disk> {
    if id in d.pending && fates(at).Done? then [Unlinked(d, id)] else []
  }

  /** The dead letter is written before the pending file is unlinked. */
  ghost function MoveSteps(d: Disk, id: string, reason: Reason, fates: nat -> Fate, at: nat): seq<Disk> {
    if id !in d.pending || !fates(at).Done? || !fates(at + 1).Done? then []
    else if !fates(at + 2).Done? then [Buried(d, id, reason)]
    else [Buried(d, id, reason), Unlinked(Buried(d, id, reason), id)]
  }

  /** One attempt more for one pending file, and nothing else. */
  ghost predicate CountedOnce(before: Disk, after: Disk, id: string) {
    && id in before.pending && after.deadLetter == before.deadLetter
    && after.pending ==
       before.pending[id := Pending(before.pending[id].notification, before.pending[id].attempts + 1)]
    && after.acked == before.acked && after.stored == before.stored
  }

  /** One pending file fewer, if it could be unlinked, and nothing else. */
  ghost predicate RemovedIf(before: Disk, after: Disk, id: string, unlinked: bool) {
    && after.pending == (if unlinked then before.pending - {id} else before.pending)
    && after.deadLetter == before.deadLetter && after.acked == before.acked && after.stored == before.stored
  }

  /** A move, file by file: the dead letter is there once it is written, and the pending file gone once unlinked. */
  ghost predicate MovedTo(before: Disk, after: Disk, id: string, reason: Reason, fates: nat -> Fate, at: nat) {
    var written := id in before.pending && fates(at).Done? && fates(at + 1).Done?;
    && (written ==> after.deadLetter == before.deadLetter[id := DeadLetter(before.pending[id], reason)])
    && (!written ==> after.deadLetter == before.deadLetter)
    && after.pending == (if written && fates(at + 2).Done? then before.pending - {id} else before.pending)
    && after.acked == before.acked && after.stored == before.stored
  }

  /**
   * Whether a move reports success: unless one of the operations it comes to fails otherwise than by finding nothing.
   */
  ghost predicate MoveReported(d: Disk, id: string, fates: nat -> Fate, at: nat) {
    && !fates(at).Broken?
    && (id in d.pending && fates(at).Done? ==>
          !fates(at + 1).Broken? && (fates(at + 1).Done? ==> !fates(at + 2).Broken?))
  }

  /**
   * A move reports success although its file is still pending exactly when one of its operations finds nothing: for
   * the second of them, when the dead-letter directory is missing.
   */
  lemma MovedInName(d: Disk, id: string, reason: Reason, fates: nat -> Fate, at: nat)
    requires id in d.pending
    ensures MoveReported(d, id, fates, at) && id in After(d, MoveSteps(d, id, reason, fates, at)).pending <==>
              || fates(at).NotFound?
              || (fates(at).Done? && fates(at + 1).NotFound?)
              || (fates(at).Done? && fates(at + 1).Done? && fates(at + 2).NotFound?)
  {}

  class PendingStorage {
    /** The fate of the n-th file operation, and the order in which a directory is listed at that point. */
    const fates: nat -> Fate
    const readdir: (nat, set<string>) -> seq<string>

    var pending: map<string, Pending>
    var deadLetter: map<string, DeadLetter>
    var operations: nat

    ghost var stored: map<string, JobNotification>
    ghost var acked: set<JobNotification>
    /** The disk after every file operation that changed it and every acknowledgement: where a crash may strike. */
    ghost var trace: seq<Disk>

    ghost predicate Valid()
      reads this
    {
      && Safe(OnDisk()) && AllSafe(trace) && StepByStep(trace) && trace != [] && trace[|trace| - 1] == OnDisk()
      && (forall n, files :: Lists(readdir(n, files), files))
    }

    ghost function OnDisk(): Disk
      reads this
    {
      Disk(pending, deadLetter, stored, acked)
    }

    /** Every file operation works. */
    ghost predicate Reliable() {
      forall n :: fates(n).Done?
    }

    /** A client that starts finds whatever an earlier one left behind. */
    constructor (fates: nat -> Fate, readdir: (nat, set<string>) -> seq<string>, found: map<string, Pending>,
                 dead: map<string, DeadLetter>)
      requires forall n, files :: Lists(readdir(n, files), files)
      requires forall id :: id in found ==> found[id].notification.jobId == id
      ensures Valid() && pending == found && deadLetter == dead && acked == {} && stored.Keys == found.Keys
      ensures trace == [OnDisk()] && operations == 0
      ensures this.fates == fates && this.readdir == readdir
    {
      this.fates, this.readdir := fates, readdir;
      pending, deadLetter, operations := found, dead, 0;
      stored, acked := map id | id in found :: found[id].notification, {};
      trace := [Disk(found, dead, stored, acked)];
    }

    /** One file operation in the pending directory, recorded; a written notification counts as stored from here on. */
    method SetPending(files: map<string, Pending>, ghost known: map<string, JobNotification>)
      requires Valid()
      requires var d := OnDisk().(pending := files, stored := known); Safe(d) && OneStep(OnDisk(), d)
      modifies this`pending, this`stored, this`trace
      ensures Valid() && OnDisk() == old(OnDisk()).(pending := files, stored := known)
      ensures trace == old(trace) + [OnDisk()]
    {
      hide Safe, OneStep, StepByStep, AllSafe;
      NextStep(trace, OnDisk().(pending := files, stored := known));
      pending, stored := files, known;
      trace := trace + [OnDisk()];
    }

    /** One file operation in the dead-letter directory, recorded. */
    method SetDeadLetter(files: map<string, DeadLetter>)
      requires Valid()
      requires var d := OnDisk().(deadLetter := files); Safe(d) && OneStep(OnDisk(), d)
      modifies this`deadLetter, this`trace
      ensures Valid() && OnDisk() == old(OnDisk()).(deadLetter := files) && trace == old(trace) + [OnDisk()]
    {
      hide Safe, OneStep, StepByStep, AllSafe;
      NextStep(trace, OnDisk().(deadLetter := files));
      deadLetter := files;
      trace := trace + [OnDisk()];
    }

    ghost method Acknowledge(n: JobNotification)
      requires Valid()
      modifies this`acked, this`trace
      ensures Valid() && OnDisk() == Acknowledged(old(OnDisk()), n) && trace == old(trace) + [OnDisk()]
    {
      hide Safe, OneStep, StepByStep, AllSafe;
      WritesAreSafe(OnDisk(), n);
      WrittenStep(OnDisk(), n);
      NextStep(trace, Acknowledged(OnDisk(), n));
      acked := acked + {n};
      trace := trace + [OnDisk()];
    }

    method Next() returns (fate: Fate)
      modifies this`operations
      ensures fate == fates(old(operations)) && operations == old(operations) + 1
    {
      fate := fates(operations);
      operations := operations + 1;
    }

    /** Store a notification that could not be delivered; it throws exactly when the write fails. */
    method Store(n: JobNotification) returns (ok: bool)
      requires Valid()
      modifies this
      ensures Valid() && operations == old(operations) + 1
      ensures ok <==> fates(old(operations)).Done?
      ensures trace == old(trace) + StoreSteps(old(OnDisk()), n, fates, old(operations))
      ensures OnDisk() == if ok then Written(old(OnDisk()), n) else old(OnDisk())
      ensures ok ==> pending == old(pending)[n.jobId := Pending(n, 0)] && stored == old(stored)[n.jobId := n]
      ensures deadLetter == old(deadLetter) && acked == old(acked)
    {
      hide Safe, OneStep, StepByStep, AllSafe;
      var fate := Next();
      ok := fate.Done?;
      if ok {
        WritesAreSafe(OnDisk(), n);
        WrittenStep(OnDisk(), n);
        SetPending(pending[n.jobId := Pending(n, 0)], stored[n.jobId := n]);
      }
    }

    /** Count an attempt: read, increment, write back; it throws when the file is missing or either operation fails. */
    method UpdateAttempt(id: string) returns (ok: bool)
      requires Valid()
      modifies this
      ensures Valid() && (ok ==> operations == old(operations) + 2)
      ensures ok <==> id in old(pending) && fates(old(operations)).Done? && fates(old(operations) + 1).Done?
      ensures OnDisk() == if ok then Counted(old(OnDisk()), id) else old(OnDisk())
      ensures ok ==> CountedOnce(old(OnDisk()), OnDisk(), id)
      ensures trace == old(trace) + if ok then [Counted(old(OnDisk()), id)] else []
    {
      hide Safe, OneStep, StepByStep, AllSafe;
      var read := Next();
      ok := read.Done? && id in pending;
      if ok {
        var write := Next();
        ok := write.Done?;
        if ok {
          CountingIsSafe(OnDisk(), id);
          CountedStep(OnDisk(), id);
          SetPending(pending[id := pending[id].(attempts := pending[id].attempts + 1)], stored);
        }
      }
    }

    /** Remove a delivered notification; a file that is gone already is no error. */
    method Remove(id: string) returns (ok: bool)
      requires Valid() && (id in pending ==> pending[id].notification in acked)
      modifies this
      ensures Valid() && (ok <==> !fates(old(operations)).Broken?)
      ensures var steps := RemoveSteps(old(OnDisk()), id, fates, old(operations));
              trace == old(trace) + steps && OnDisk() == After(old(OnDisk()), steps)
      ensures RemovedIf(old(OnDisk()), OnDisk(), id, fates(old(operations)).Done?)
    {
      hide Safe, OneStep, StepByStep, AllSafe;
      var fate := Next();
      ok := !fate.Broken?;
      if fate.Done? && id in pending {
        UnlinkingIsSafe(OnDisk(), id);
        UnlinkedStep(OnDisk(), id);
        SetPending(pending - {id}, stored);
      }
    }

    /**
     * Copy to the dead letters, then unlink. Any "not found" counts as a file already gone, also when it is the
     * dead-letter directory that is missing.
     */
    method MoveToDeadLetter(id: string, reason: Reason) returns (ok: bool)
      requires Valid()
      modifies this
      ensures Valid() && (ok <==> MoveReported(old(OnDisk()), id, fates, old(operations)))
      ensures var steps := MoveSteps(old(OnDisk()), id, reason, fates, old(operations));
              trace == old(trace) + steps && OnDisk() == After(old(OnDisk()), steps)
      ensures MovedTo(old(OnDisk()), OnDisk(), id, reason, fates, old(operations))
    {
      hide Safe, OneStep, StepByStep, AllSafe;
      var read := Next();
      ok := !read.Broken?;
      if read.Done? && id in pending {
        var write := Next();
        ok := !write.Broken?;
        if write.Done? {
          BuryingIsSafe(OnDisk(), id, reason);
          BuriedStep(OnDisk(), id, reason);
          SetDeadLetter(deadLetter[id := DeadLetter(pending[id], reason)]);
          var unlink := Next();
          ok := !unlink.Broken?;
          if unlink.Done? {
            UnlinkingIsSafe(OnDisk(), id);
            UnlinkedStep(OnDisk(), id);
            SetPending(pending - {id}, stored);
          }
        }
      }
    }

    /** All pending notifications that can be read, in directory order; nothing when the directory cannot be listed. */
    method List() returns (r: Option<seq<Pending>>)
      requires Valid()
      modifies this`operations
      ensures Valid() && (r.Some? ==> ReadFrom(r.value, pending))
      ensures r.None? <==> fates(old(operations)).Broken?
      ensures fates(old(operations)).NotFound? ==> r == Some([])
      ensures Reliable() ==> r.Some? && |r.value| == |pending| && forall id :: id in pending ==> pending[id] in r.value
    {
      hide Safe;
      r := None;
      var fate := Next();
      if fate.NotFound? {
        r := Some([]);
      } else if fate.Done? {
        var files := readdir(operations, pending.Keys);
        var items := ReadAll(files);
        r := Some(items);
      }
    }

    method ReadAll(files: seq<string>) returns (items: seq<Pending>)
      requires Valid() && Lists(files, pending.Keys)
      modifies this`operations
      ensures Valid() && ReadFrom(items, pending)
      ensures Reliable() ==> |items| == |pending| && forall id :: id in pending ==> pending[id] in items
    {
      hide Safe, AllSafe, StepByStep;
      ListsAll(files, pending.Keys);
      items := [];
      for i := 0 to |files|
        invariant Valid() && ReadFrom(items, pending) && |items| <= i
        invariant forall item :: item in items ==> item.notification.jobId in files[..i]
        invariant Reliable() ==> |items| == i && forall id :: id in files[..i] ==> pending[id] in items
      {
        var read := Next();
        NamedById(OnDisk(), files[i]);
        ReadNext(items, pending, files, i);
        TakeNext(files, i);
        if read.Done? {
          items := items + [pending[files[i]]];
        }
      }
    }
  }

  /** A run that fails: the dead-letter directory is missing, and a move is reported that has moved nothing. */
  method MoveIntoMissingDirectory(s: PendingStorage, id: string, reason: Reason) returns (ok: bool)
    requires s.Valid() && id in s.pending && s.fates(s.operations).Done? && s.fates(s.operations + 1).NotFound?
    modifies s
    ensures s.Valid() && ok && s.OnDisk() == old(s.OnDisk()) && id in s.pending
  {
    hide Safe, StepByStep, AllSafe;
    ok := s.MoveToDeadLetter(id, reason);
  }
}
