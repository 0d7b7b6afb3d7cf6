/** Read-only questions about stored jobs: listing, paging through issues, and aggregate statistics. */
module JobQueries {
  import opened Collections
  import opened StableSort
  import opened LintLog
  import Key = CompositeKey

  datatype SortKey = ByTimestamp | ByStatus | ByDocument | ByRuleset

  datatype ListOptions = ListOptions(
    status: Option<seq<JobStatus>>,
    documentId: Option<string>,
    rulesetName: Option<string>,
    startDate: Option<int>,
    endDate: Option<int>,
    limit: Option<int>,
    offset: Option<int>,
    sortBy: SortKey,
    ascending: bool)

  /** An option that is absent or empty is not applied. */
  predicate Given(option: Option<string>) {
    option.Some? && option.value != ""
  }

  predicate InDates(o: ListOptions, job: LintJob) {
    && (o.startDate.Some? ==> job.timestamp >= o.startDate.value)
    && (o.endDate.Some? ==> job.timestamp <= o.endDate.value)
  }

  predicate Matches(o: ListOptions, job: LintJob) {
    && (o.status.Some? ==> job.status in o.status.value)
    && (Given(o.documentId) ==> job.documentId == o.documentId.value)
    && (Given(o.rulesetName) ==> job.rulesetName == o.rulesetName.value)
    && InDates(o, job)
  }

  function StatusName(status: JobStatus): string {
    match status
    case Queued => "queued"
    case Running => "running"
    case Completed => "completed"
    case CompletedWithErrors => "completed_with_errors"
    case Failed => "failed"
    case Cancelled => "cancelled"
    case TimedOut => "timeout"
  }

  /** `localeCompare` is a parameter: its sign orders strings consistently. */
  ghost predicate Collation(compare: (string, string) -> int) {
    && (forall a, b :: compare(a, b) <= 0 <==> compare(b, a) >= 0)
    && (forall a, b, c :: compare(a, b) <= 0 && compare(b, c) <= 0 ==> compare(a, c) <= 0)
  }

  function Compare(sortBy: SortKey, compare: (string, string) -> int, a: LintJob, b: LintJob): int {
    match sortBy
    case ByTimestamp => a.timestamp - b.timestamp
    case ByStatus => compare(StatusName(a.status), StatusName(b.status))
    case ByDocument => compare(a.documentId, b.documentId)
    case ByRuleset => compare(a.rulesetName, b.rulesetName)
  }

  function Order(o: ListOptions, compare: (string, string) -> int): (LintJob, LintJob) -> bool {
    (a, b) => (if o.ascending then Compare(o.sortBy, compare, a, b) else -Compare(o.sortBy, compare, a, b)) <= 0
  }

  lemma OrderIsPreorder(o: ListOptions, compare: (string, string) -> int)
    requires Collation(compare)
    ensures TotalPreorder(Order(o, compare))
  {}

  /** The jobs of a map that pass a test, in the map's order. */
  function Selected(order: seq<JobId>, jobs: map<JobId, Entry>, keep: Entry -> bool): seq<LintJob> {
    if order == [] then []
    else
      var id := order[|order| - 1];
      Selected(order[..|order| - 1], jobs, keep) + (if id in jobs && keep(jobs[id]) then [jobs[id].job] else [])
  }

  function Unexpired(o: ListOptions, now: int): Entry -> bool {
    e => !Expired(e, now) && Matches(o, e.job)
  }

  /** The filters an index answers: status, document and ruleset. */
  function Indexed(o: ListOptions, jobs: map<JobId, Entry>): JobId -> bool {
    (id: JobId) =>
      && id in jobs
      && (o.status.Some? ==> jobs[id].job.status in o.status.value)
      && (Given(o.documentId) ==> jobs[id].job.documentId == o.documentId.value)
      && (Given(o.rulesetName) ==> jobs[id].job.rulesetName == o.rulesetName.value)
  }

  /** The filters that need the job itself: expiry and dates. */
  function Scanned(o: ListOptions, now: int): Entry -> bool {
    (e: Entry) => !Expired(e, now) && InDates(o, e.job)
  }

  /** The listing: filter every unexpired job, sort stably, slice. */
  function Listing(jobs: JsMap<JobId, Entry>, o: ListOptions, compare: (string, string) -> int,
                   now: int): seq<LintJob> {
    Sort(Selected(jobs.order, jobs.items, Unexpired(o, now)), Order(o, compare))
  }

  function ListPage(jobs: JsMap<JobId, Entry>, o: ListOptions, compare: (string, string) -> int,
                    now: int): seq<LintJob> {
    var offset := o.offset.GetOr(0);
    JsSlice(Listing(jobs, o, compare, now), offset, offset + o.limit.GetOr(50))
  }

  lemma {:induction false} SelectedFilter(order: seq<JobId>, jobs: map<JobId, Entry>, pre: JobId -> bool,
                                          keep: Entry -> bool, both: Entry -> bool)
    requires forall id :: id in order && id in jobs ==> (both(jobs[id]) <==> pre(id) && keep(jobs[id]))
    ensures Selected(Filter(order, pre), jobs, keep) == Selected(order, jobs, both)
  {
    if order == [] {
    } else {
      var init, last := order[..|order| - 1], order[|order| - 1];
      SelectedFilter(init, jobs, pre, keep, both);
      if pre(last) {
        assert Filter(order, pre)[..|Filter(order, pre)| - 1] == Filter(init, pre);
      } else {
        assert Filter(order, pre) == Filter(init, pre);
      }
    }
  }

  lemma {:induction false} SelectedMember(order: seq<JobId>, jobs: map<JobId, Entry>, keep: Entry -> bool, job: LintJob)
    ensures job in Selected(order, jobs, keep) <==>
            exists id :: id in order && id in jobs && keep(jobs[id]) && jobs[id].job == job
  {
    if order == [] {
    } else {
      var init, last := order[..|order| - 1], order[|order| - 1];
      SelectedMember(init, jobs, keep, job);
      assert order == init + [last];
    }
  }

  /** Where a job stands to one listed after it: by the key asked for, in the direction asked for. */
  ghost predicate Precedes(o: ListOptions, compare: (string, string) -> int, a: LintJob, b: LintJob) {
    match o.sortBy
    case ByTimestamp => if o.ascending then a.timestamp <= b.timestamp else a.timestamp >= b.timestamp
    case ByStatus =>
      exists x, y :: IsNamed(a.status, x) && IsNamed(b.status, y) && Directed(compare(x, y), o.ascending)
    case ByDocument => Directed(compare(a.documentId, b.documentId), o.ascending)
    case ByRuleset => Directed(compare(a.rulesetName, b.rulesetName), o.ascending)
  }

  ghost predicate IsNamed(status: JobStatus, name: string) {
    && (name == "queued" <==> status.Queued?) && (name == "running" <==> status.Running?)
    && (name == "completed" <==> status.Completed?)
    && (name == "completed_with_errors" <==> status.CompletedWithErrors?)
    && (name == "failed" <==> status.Failed?) && (name == "cancelled" <==> status.Cancelled?)
    && (name == "timeout" <==> status.TimedOut?)
  }

  /** Statuses have the names they are written with, one each. */
  lemma StatusNamed(status: JobStatus, name: string)
    ensures IsNamed(status, name) <==> name == StatusName(status)
  {}

  ghost predicate Directed(sign: int, ascending: bool) {
    if ascending then sign <= 0 else sign >= 0
  }

  /** A job to be listed: its time is not up, and it meets every criterion given. */
  ghost predicate ToList(o: ListOptions, e: Entry, now: int) {
    && (e.expiresAt.None? || now <= e.expiresAt.value)
    && (o.status.None? || e.job.status in o.status.value)
    && (o.documentId.None? || o.documentId.value == "" || e.job.documentId == o.documentId.value)
    && (o.rulesetName.None? || o.rulesetName.value == "" || e.job.rulesetName == o.rulesetName.value)
    && (o.startDate.None? || o.startDate.value <= e.job.timestamp)
    && (o.endDate.None? || e.job.timestamp <= o.endDate.value)
  }

  lemma UnexpiredToList(o: ListOptions, e: Entry, now: int)
    ensures Unexpired(o, now)(e) <==> ToList(o, e, now)
  {}

  lemma OrderPrecedes(o: ListOptions, compare: (string, string) -> int, a: LintJob, b: LintJob)
    ensures Order(o, compare)(a, b) <==> Precedes(o, compare, a, b)
  {
    hide StatusName, IsNamed;
    forall status: JobStatus, name: string ensures IsNamed(status, name) <==> name == StatusName(status) {
      StatusNamed(status, name);
    }
    assert IsNamed(a.status, StatusName(a.status)) && IsNamed(b.status, StatusName(b.status));
  }

  lemma SortedPrecedes(o: ListOptions, compare: (string, string) -> int, all: seq<LintJob>)
    requires Sorted(all, Order(o, compare))
    ensures forall i, j :: 0 <= i < j < |all| ==> Precedes(o, compare, all[i], all[j])
  {
    hide Order, Precedes;
    forall i, j | 0 <= i < j < |all| ensures Precedes(o, compare, all[i], all[j]) {
      OrderPrecedes(o, compare, all[i], all[j]);
    }
  }

  /** What a listing promises: exactly the unexpired matching jobs, ordered, ties as the store holds them. */
  lemma ListingCorrect(jobs: JsMap<JobId, Entry>, o: ListOptions, compare: (string, string) -> int, now: int)
    requires jobs.Valid() && Collation(compare)
    ensures IsStableSort(Selected(jobs.order, jobs.items, Unexpired(o, now)), Listing(jobs, o, compare, now),
                         Order(o, compare))
    ensures forall i, j :: 0 <= i < j < |Listing(jobs, o, compare, now)| ==>
              Precedes(o, compare, Listing(jobs, o, compare, now)[i], Listing(jobs, o, compare, now)[j])
    ensures forall job :: job in Listing(jobs, o, compare, now) <==>
              exists id :: id in jobs.items && ToList(o, jobs.items[id], now) && jobs.items[id].job == job
  {
    hide Selected, Sort, Unexpired, ToList, Order, Precedes, Ties;
    OrderIsPreorder(o, compare);
    var all := Selected(jobs.order, jobs.items, Unexpired(o, now));
    SortIsStable(all, Order(o, compare));
    SortedPrecedes(o, compare, Listing(jobs, o, compare, now));
    forall e: Entry ensures Unexpired(o, now)(e) <==> ToList(o, e, now) {
      UnexpiredToList(o, e, now);
    }
    forall job: LintJob
      ensures job in Listing(jobs, o, compare, now) <==>
                exists id :: id in jobs.items && ToList(o, jobs.items[id], now) && jobs.items[id].job == job
    {
      SortMember(all, Order(o, compare), job);
      SelectedMember(jobs.order, jobs.items, Unexpired(o, now), job);
    }
  }

  /** What a listing tells about a job: everything but its issues. */
  datatype JobSummary = JobSummary(
    jobId: JobId,
    documentId: string,
    rulesetName: string,
    rulesetVersion: string,
    status: JobStatus,
    timestamp: int,
    totalExecutionTime: int,
    summary: Summary)

  function SummaryOf(job: LintJob): JobSummary {
    JobSummary(job.jobId, job.documentId, job.rulesetName, job.rulesetVersion, job.status, job.timestamp,
               job.totalExecutionTime, job.summary)
  }

  /** The summary tells what the job says, field by field. */
  ghost predicate Tells(s: JobSummary, job: LintJob) {
    && s.jobId == job.jobId && s.documentId == job.documentId
    && s.rulesetName == job.rulesetName && s.rulesetVersion == job.rulesetVersion
    && s.status == job.status && s.timestamp == job.timestamp
    && s.totalExecutionTime == job.totalExecutionTime && s.summary == job.summary
  }

  lemma SummaryTells(job: LintJob)
    ensures Tells(SummaryOf(job), job)
  {}

  /** A page asked for without a place or a size is the first fifty of the listing. */
  lemma DefaultPage(jobs: JsMap<JobId, Entry>, o: ListOptions, compare: (string, string) -> int, now: int)
    requires o.offset == None && o.limit == None
    ensures var all := Listing(jobs, o, compare, now);
            ListPage(jobs, o, compare, now) == if |all| <= 50 then all else all[..50]
  {
    hide Listing;
  }

  function WithPage(o: ListOptions, offset: nat, limit: nat): ListOptions {
    o.(offset := Some(offset), limit := Some(limit))
  }

  /** A page is a slice of the one sorted list, whichever page is asked for. */
  lemma PageOfListing(jobs: JsMap<JobId, Entry>, o: ListOptions, compare: (string, string) -> int, now: int,
                      offset: nat, limit: nat)
    ensures var all := Listing(jobs, o, compare, now);
            ListPage(jobs, WithPage(o, offset, limit), compare, now)
            == if offset >= |all| then []
               else if offset + limit >= |all| then all[offset..]
               else all[offset..offset + limit]
  {
    var paged := WithPage(o, offset, limit);
    assert Listing(jobs, paged, compare, now) == Listing(jobs, o, compare, now) by {
      SameSelection(jobs.order, jobs.items, o, paged, now);
      assert Order(o, compare) == Order(paged, compare);
    }
  }

  /** A reader that asks for one page after another until one comes back empty. */
  function ListAll(jobs: JsMap<JobId, Entry>, o: ListOptions, compare: (string, string) -> int, now: int,
                   offset: nat, limit: nat): seq<LintJob>
    requires limit >= 1
    decreases |Listing(jobs, o, compare, now)| - offset
  {
    var page := ListPage(jobs, WithPage(o, offset, limit), compare, now);
    PageOfListing(jobs, o, compare, now, offset, limit);
    if page == [] then [] else page + ListAll(jobs, o, compare, now, offset + limit, limit)
  }

  /** From an unchanged store such a reader gets the whole listing, nothing lost and nothing repeated. */
  lemma {:induction false} ListPagesPartition(jobs: JsMap<JobId, Entry>, o: ListOptions,
                                              compare: (string, string) -> int, now: int,
                                              offset: nat, limit: nat)
    requires limit >= 1
    ensures var all := Listing(jobs, o, compare, now);
            ListAll(jobs, o, compare, now, offset, limit) == if offset <= |all| then all[offset..] else []
    decreases |Listing(jobs, o, compare, now)| - offset
  {
    hide ListPage, Listing;
    PageOfListing(jobs, o, compare, now, offset, limit);
    var all := Listing(jobs, o, compare, now);
    if offset < |all| {
      ListPagesPartition(jobs, o, compare, now, offset + limit, limit);
    }
  }

  lemma {:induction false} SameSelection(order: seq<JobId>, jobs: map<JobId, Entry>, o: ListOptions, o': ListOptions,
                                         now: int)
    requires forall job :: Matches(o, job) <==> Matches(o', job)
    ensures Selected(order, jobs, Unexpired(o, now)) == Selected(order, jobs, Unexpired(o', now))
  {
    if order == [] {
    } else {
      SameSelection(order[..|order| - 1], jobs, o, o', now);
    }
  }

  // Paging through the issues of one job

  datatype Query = Query(
    offset: Option<int>,
    limit: Option<int>,
    severity: Option<int>,
    rule: Option<string>,
    pathPrefix: Option<string>)

  datatype Pagination = Pagination(offset: int, limit: int, returned: nat, totalMatching: nat, hasMore: bool)

  datatype IssuePage = IssuePage(results: seq<Issue>, pagination: Option<Pagination>)

  /** The criteria of a query, told back. */
  datatype Filters = Filters(severity: Option<int>, rule: Option<string>, pathPrefix: Option<string>)

  /** The whole answer: the job's header, one page of its issues, the criteria if any were given, and any cut. */
  datatype JobPage = JobPage(job: JobSummary, page: IssuePage, filters: Option<Filters>,
                             truncation: Option<TruncationInfo>)

  function EchoOf(q: Query): Option<Filters> {
    if q.severity.None? && q.rule.None? && q.pathPrefix.None? then None
    else Some(Filters(q.severity, q.rule, q.pathPrefix))
  }

  /** The echo tells back the criteria, all of them if any was given. */
  ghost predicate Echoes(filters: Option<Filters>, q: Query) {
    && (filters.None? <==> q.severity.None? && q.rule.None? && q.pathPrefix.None?)
    && (filters.Some? ==>
          && filters.value.severity == q.severity && filters.value.rule == q.rule
          && filters.value.pathPrefix == q.pathPrefix)
  }

  lemma EchoEchoes(q: Query)
    ensures Echoes(EchoOf(q), q)
  {}

  function DottedPath(path: seq<string>): string {
    if path == [] then "" else Key.Join(path, '.')
  }

  /** A path reads as its segments with a dot between each two. */
  lemma {:induction false} DotsBetween(path: seq<string>, last: string)
    requires path != []
    ensures DottedPath([]) == "" && DottedPath([last]) == last
    ensures DottedPath(path + [last]) == DottedPath(path) + "." + last
  {
    hide DottedPath;
    NoSegment();
    FirstSegment([last]);
    FirstSegment(path);
    var longer := path + [last];
    FirstSegment(longer);
    assert longer[0] == path[0];
    if |path| == 1 {
      assert longer[1..] == [last];
    } else {
      DotsBetween(path[1..], last);
      assert longer[1..] == path[1..] + [last];
      Regroup(path[0] + ".", DottedPath(path[1..]), ".", last);
    }
  }

  lemma NoSegment()
    ensures DottedPath([]) == ""
  {}

  lemma FirstSegment(path: seq<string>)
    requires path != []
    ensures DottedPath(path) == if |path| == 1 then path[0] else path[0] + "." + DottedPath(path[1..])
  {}

  lemma Regroup(a: string, b: string, c: string, d: string)
    ensures a + (b + c + d) == a + b + c + d
  {}

  function BySeverity(q: Query): Issue -> bool {
    (i: Issue) => q.severity == Some(i.severity)
  }

  function ByRule(q: Query): Issue -> bool {
    (i: Issue) => q.rule == Some(i.ruleId) || q.rule == Some(i.code)
  }

  function ByPath(q: Query): Issue -> bool {
    (i: Issue) => q.pathPrefix.GetOr("") <= DottedPath(i.path)
  }

  function Asked(q: Query): Issue -> bool {
    (i: Issue) =>
      && (q.severity.Some? ==> i.severity == q.severity.value)
      && (Given(q.rule) ==> i.ruleId == q.rule.value || i.code == q.rule.value)
      && (Given(q.pathPrefix) ==> q.pathPrefix.value <= DottedPath(i.path))
  }

  function FilterIssues(issues: seq<Issue>, q: Query): seq<Issue> {
    var bySeverity := if q.severity.Some? then Filter(issues, BySeverity(q)) else issues;
    var byRule := if Given(q.rule) then Filter(bySeverity, ByRule(q)) else bySeverity;
    if Given(q.pathPrefix) then Filter(byRule, ByPath(q)) else byRule
  }

  /** Filtering one criterion after another keeps the issues that meet them all, in order. */
  lemma FilterIssuesMeetsAll(issues: seq<Issue>, q: Query)
    ensures FilterIssues(issues, q) == Filter(issues, Asked(q))
  {
    var none := q.(severity := None, rule := None, pathPrefix := None);
    var one := none.(severity := q.severity);
    var two := one.(rule := q.rule);
    FilterAll(issues, Asked(none));
    FilterIf(issues, Asked(none), q.severity.Some?, BySeverity(q), Asked(one));
    FilterIf(issues, Asked(one), Given(q.rule), ByRule(q), Asked(two));
    FilterIf(issues, Asked(two), Given(q.pathPrefix), ByPath(q), Asked(q));
  }

  lemma FilterIf<T>(s: seq<T>, sofar: T -> bool, applied: bool, p: T -> bool, both: T -> bool)
    requires forall x :: x in s ==> (both(x) <==> sofar(x) && (applied ==> p(x)))
    ensures (if applied then Filter(Filter(s, sofar), p) else Filter(s, sofar)) == Filter(s, both)
  {
    if applied {
      FilterTwice(s, sofar, p, both);
    } else {
      FilterAgree(s, sofar, both);
    }
  }

  lemma {:induction false} FilterAll<T>(s: seq<T>, keep: T -> bool)
    requires forall x :: x in s ==> keep(x)
    ensures Filter(s, keep) == s
  {
    if s == [] {
    } else {
      FilterAll(s[..|s| - 1], keep);
      assert s == s[..|s| - 1] + [s[|s| - 1]];
    }
  }

  /** The answer to one query, with the page block only if paging was asked for. */
  function Page(issues: seq<Issue>, q: Query): IssuePage {
    var filtered := if q.severity.Some? || q.rule.Some? || q.pathPrefix.Some? then FilterIssues(issues, q) else issues;
    var offset, limit := q.offset.GetOr(0), q.limit.GetOr(|filtered|);
    var paginated := JsSlice(filtered, offset, offset + limit);
    IssuePage(paginated,
              if q.offset.Some? || q.limit.Some?
              then Some(Pagination(offset, limit, |paginated|, |filtered|, offset + |paginated| < |filtered|))
              else None)
  }

  /** The page of the matching issues, however the criteria were applied. */
  lemma PageSlicesMatching(issues: seq<Issue>, q: Query)
    ensures var matching := Filter(issues, Asked(q));
            Page(issues, q) == PageOf(matching, q)
  {
    FilterIssuesMeetsAll(issues, q);
    if q.severity.None? && q.rule.None? && q.pathPrefix.None? {
      FilterAll(issues, Asked(q));
    }
  }

  ghost function PageOf(matching: seq<Issue>, q: Query): IssuePage {
    var offset, limit := q.offset.GetOr(0), q.limit.GetOr(|matching|);
    var slice := JsSlice(matching, offset, offset + limit);
    IssuePage(slice,
              if q.offset.Some? || q.limit.Some?
              then Some(Pagination(offset, limit, |slice|, |matching|, offset + |slice| < |matching|))
              else None)
  }

  /** Where in the matching issues a page begins, and where the rest begins after it. */
  ghost function PageStart(matching: seq<Issue>, q: Query): nat {
    Place(if q.offset.Some? then q.offset.value else 0, |matching|)
  }

  /** A position in a list of `n`: a negative one counts from the end, and none is outside. */
  ghost function Place(at: int, n: nat): (r: nat)
    ensures r <= n
  {
    if at >= n then n else if at >= 0 then at else if at + n >= 0 then at + n else 0
  }

  ghost function PageEnd(matching: seq<Issue>, q: Query): (end: nat)
    ensures PageStart(matching, q) <= end <= |matching|
  {
    var limit := if q.limit.Some? then q.limit.value else |matching|;
    var hi := Place((if q.offset.Some? then q.offset.value else 0) + limit, |matching|);
    if hi < PageStart(matching, q) then PageStart(matching, q) else hi
  }

  /** "Has more" is told truly exactly when the offset is not negative, or there is more indeed. */
  lemma HasMoreExactly(issues: seq<Issue>, q: Query)
    requires q.offset.Some? || q.limit.Some?
    ensures var matching := Filter(issues, Asked(q)); var page := Page(issues, q);
            && page.results == matching[PageStart(matching, q)..PageEnd(matching, q)]
            && page.pagination.value.totalMatching == |matching|
            && ((page.pagination.value.hasMore <==> PageEnd(matching, q) < |matching|) <==>
                q.offset.GetOr(0) >= 0 || PageEnd(matching, q) < |matching|)
  {
    hide Filter, Asked, Page;
    PageSlicesMatching(issues, q);
  }

  /** The whole list, asked for from behind, is said to have more. */
  lemma LastPageHasMore(issues: seq<Issue>)
    ensures var q := Query(Some(-1), Some(|issues| + 1), None, None, None);
            var page := Page(issues, q);
            PageEnd(issues, q) == |issues| && page.pagination.value.hasMore
            && page.results == if issues == [] then [] else issues[|issues| - 1..]
  {}

  /** A reader that asks again from `offset + returned` while `hasMore`. */
  function ReadAll(issues: seq<Issue>, q: Query, offset: nat, limit: nat): seq<Issue>
    requires limit >= 1
    decreases |issues| - offset
  {
    var here := q.(offset := Some(offset), limit := Some(limit));
    var page := Page(issues, here);
    PageSlicesMatching(issues, here);
    FilterShorter(issues, Asked(here));
    if page.pagination.value.hasMore
    then page.results + ReadAll(issues, q, offset + page.pagination.value.returned, limit)
    else page.results
  }

  lemma {:induction false} FilterShorter<T>(s: seq<T>, keep: T -> bool)
    ensures |Filter(s, keep)| <= |s|
  {
    if s == [] {
    } else {
      FilterShorter(s[..|s| - 1], keep);
    }
  }

  /** Such a reader sees exactly the matching issues, in order, none lost or repeated. */
  lemma {:induction false} ReadAllIsComplete(issues: seq<Issue>, q: Query, offset: nat, limit: nat)
    requires limit >= 1
    ensures var matching := Filter(issues, Asked(q));
            ReadAll(issues, q, offset, limit) == if offset <= |matching| then matching[offset..] else []
    decreases |issues| - offset
  {
    hide Page, Asked, Filter;
    var here := q.(offset := Some(offset), limit := Some(limit));
    AskedIgnoresPaging(issues, q, here);
    PageSlicesMatching(issues, here);
    FilterShorter(issues, Asked(here));
    var matching := Filter(issues, Asked(q));
    var page := Page(issues, here);
    if page.pagination.value.hasMore {
      ReadAllIsComplete(issues, q, offset + page.pagination.value.returned, limit);
      assert matching[offset..] == page.results + matching[offset + |page.results|..];
    }
  }

  lemma AskedIgnoresPaging(issues: seq<Issue>, q: Query, here: Query)
    requires q.severity == here.severity && q.rule == here.rule && q.pathPrefix == here.pathPrefix
    ensures Filter(issues, Asked(q)) == Filter(issues, Asked(here))
  {
    FilterAgree(issues, Asked(q), Asked(here));
  }
}
