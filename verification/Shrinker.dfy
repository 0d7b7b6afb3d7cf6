/** Shrinking a notification that is too large to send. */
module Shrinker {
  import opened Collections
  import opened Notifications

  /** The length of a serialised payload; there is always something to send. */
  type Bytes = n: int | n >= 1 witness 1

  const MAX_SHRINK_ITERATIONS: nat := 20

  function StripIssue(issue: Issue): Issue {
    issue.(source := None, range := None)
  }

  /** Without the two verbose fields, and otherwise complete. */
  function Strip(rs: RulesetResult): RulesetResult {
    rs.(issues := Map(rs.issues, StripIssue))
  }

  function Mark(rs: RulesetResult, count: nat): RulesetResult {
    rs.(truncated := Some(true), originalIssueCount := Some(count))
  }

  /** At most `cap` issues of a stripped ruleset, marked if that made it shorter than it was. */
  function Cap(rs: RulesetResult, cap: nat, originalCount: nat): RulesetResult {
    if |rs.issues| > cap then Mark(rs.(issues := rs.issues[..cap]), originalCount)
    else if |rs.issues| < originalCount then Mark(rs, originalCount)
    else rs
  }

  function CapStripped(cap: nat): RulesetResult -> RulesetResult {
    (rs: RulesetResult) => Cap(Strip(rs), cap, |rs.issues|)
  }

  /** The last resort: one issue a ruleset, marked whether or not that changed anything. */
  function Minimal(rs: RulesetResult): RulesetResult {
    Mark(Strip(rs).(issues := if rs.issues == [] then [] else Strip(rs).issues[..1]), |rs.issues|)
  }

  /** The marking of a payload that fits once stripped: against the first ruleset of the same name. */
  function Remark(results: seq<RulesetResult>): RulesetResult -> RulesetResult {
    (rs: RulesetResult) =>
      var first := FirstNamed(results, rs.rulesetName);
      if first.Some? && |rs.issues| < |first.value.issues| then Mark(Strip(rs), |first.value.issues|) else Strip(rs)
  }

  function FirstNamed(results: seq<RulesetResult>, name: string): (r: Option<RulesetResult>)
    ensures r.Some? ==> r.value in results && r.value.rulesetName == name
    ensures r.None? ==> forall rs :: rs in results ==> rs.rulesetName != name
  {
    if results == [] then None
    else if results[0].rulesetName == name then Some(results[0])
    else FirstNamed(results[1..], name)
  }

  function With(n: JobNotification, f: RulesetResult -> RulesetResult): JobNotification {
    n.(results := Map(n.results, f))
  }

  function NextCap(cap: nat): (r: nat)
    requires cap >= 1
    ensures r >= 1 && (cap > 1 ==> r < cap) && (cap == 1 ==> r == 1)
    ensures r == 1 || 10 * r <= 9 * cap
    ensures 9 * cap < 10 * (r + 1)
  {
    if cap * 9 / 10 >= 1 then cap * 9 / 10 else 1
  }

  function IssueCount(results: seq<RulesetResult>): nat {
    if results == [] then 0 else IssueCount(results[..|results| - 1]) + |results[|results| - 1].issues|
  }

  /** Nine tenths of the issues that would fit at the average size, but at least one. */
  function FirstCap(totalIssues: nat, maxBytes: int, currentBytes: Bytes): (r: nat)
    ensures r >= 1
    ensures r == 1 || r * (10 * currentBytes) <= 9 * (totalIssues * maxBytes)
    ensures 9 * (totalIssues * maxBytes) < (r + 1) * (10 * currentBytes)
  {
    var issueBytes := totalIssues * maxBytes;
    var estimate := issueBytes * 9 / (currentBytes * 10);
    RoundedDown(issueBytes * 9, currentBytes * 10);
    if estimate < 1 then NotNegative(estimate + 1, currentBytes * 10); 1 else estimate
  }

  lemma RoundedDown(a: int, b: int)
    requires b > 0
    ensures a / b * b <= a < (a / b + 1) * b
  {
    assert a == a / b * b + a % b;
  }

  lemma NotNegative(a: int, b: int)
    requires a <= 1 && b > 0
    ensures a * b <= 2 * b
  {}

  /** The first of the falling caps that fits, within the rounds left. */
  function FirstFit(n: JobNotification, cap: nat, rounds: nat, maxBytes: int,
                    size: JobNotification -> Bytes): JobNotification
    requires cap >= 1
  {
    if rounds == 0 then With(n, Minimal)
    else if size(With(n, CapStripped(cap))) <= maxBytes then With(n, CapStripped(cap))
    else FirstFit(n, NextCap(cap), rounds - 1, maxBytes, size)
  }

  function Shrunk(n: JobNotification, maxBytes: int, size: JobNotification -> Bytes): JobNotification {
    var stripped := With(n, Strip);
    if size(stripped) <= maxBytes then With(n, Remark(n.results))
    else FirstFit(n, FirstCap(IssueCount(n.results), maxBytes, size(stripped)), MAX_SHRINK_ITERATIONS, maxBytes, size)
  }

  // The algorithm

  lemma CountNone(results: seq<RulesetResult>)
    ensures IssueCount(results[..0]) == 0
  {}

  lemma CountNext(results: seq<RulesetResult>, i: nat)
    requires i < |results|
    ensures IssueCount(results[..i + 1]) == IssueCount(results[..i]) + |results[i].issues|
  {
    assert results[..i + 1][..i] == results[..i];
  }

  method StripAll(n: JobNotification) returns (clone: JobNotification, totalIssues: nat)
    ensures clone == With(n, Strip) && totalIssues == IssueCount(n.results)
  {
    hide Map, Strip, IssueCount;
    var results: seq<RulesetResult> := [];
    CountNone(n.results);
    totalIssues := 0;
    for i := 0 to |n.results|
      invariant |results| == i && forall j :: 0 <= j < i ==> results[j] == Strip(n.results[j])
      invariant totalIssues == IssueCount(n.results[..i])
    {
      CountNext(n.results, i);
      totalIssues := totalIssues + |n.results[i].issues|;
      results := results + [Strip(n.results[i])];
    }
    TakeAll(n.results);
    assert results == Map(n.results, Strip);
    clone := n.(results := results);
  }

  /** The clone with its first `i` rulesets done. */
  ghost predicate DoneTo(results: seq<RulesetResult>, n: JobNotification, i: nat, f: RulesetResult -> RulesetResult) {
    |results| == |n.results| && forall j :: 0 <= j < |results| ==>
        results[j] == if j < i then f(n.results[j]) else Strip(n.results[j])
  }

  lemma DoneNext(results: seq<RulesetResult>, n: JobNotification, i: nat, f: RulesetResult -> RulesetResult,
                 rs: RulesetResult)
    requires DoneTo(results, n, i, f) && i < |results| && rs == f(n.results[i])
    ensures DoneTo(results[i := rs], n, i + 1, f)
  {}

  lemma NoneDone(n: JobNotification, f: RulesetResult -> RulesetResult)
    ensures var results := With(n, Strip).results; |results| == |n.results| && DoneTo(results, n, 0, f)
  {}

  lemma NotYet(results: seq<RulesetResult>, n: JobNotification, i: nat, f: RulesetResult -> RulesetResult)
    requires DoneTo(results, n, i, f) && i < |results|
    ensures results[i] == Strip(n.results[i])
  {}

  lemma CapOne(rs: RulesetResult, cap: nat)
    ensures CapStripped(cap)(rs) == Cap(Strip(rs), cap, |rs.issues|)
  {}

  lemma RemarkOne(rs: RulesetResult, results: seq<RulesetResult>)
    ensures var first := FirstNamed(results, rs.rulesetName);
            Remark(results)(rs) ==
              if first.Some? && |rs.issues| < |first.value.issues| then Mark(Strip(rs), |first.value.issues|)
              else Strip(rs)
    ensures |Strip(rs).issues| == |rs.issues| && Strip(rs).rulesetName == rs.rulesetName
  {}

  lemma AllDone(results: seq<RulesetResult>, n: JobNotification, f: RulesetResult -> RulesetResult)
    requires DoneTo(results, n, |n.results|, f)
    ensures With(n, Strip).(results := results) == With(n, f)
  {
    hide Map;
    assert results == Map(n.results, f);
  }

  method RemarkAll(n: JobNotification, clone: JobNotification) returns (r: JobNotification)
    requires clone == With(n, Strip)
    ensures r == With(n, Remark(n.results))
  {
    hide FirstNamed, DoneTo, Strip, Mark, Remark, With;
    NoneDone(n, Remark(n.results));
    var results := clone.results;
    for i := 0 to |results|
      invariant |results| == |n.results| && DoneTo(results, n, i, Remark(n.results))
    {
      NotYet(results, n, i, Remark(n.results));
      RemarkOne(n.results[i], n.results);
      var done := results[i];
      var first := FirstNamed(n.results, done.rulesetName);
      if first.Some? && |done.issues| < |first.value.issues| {
        done := Mark(done, |first.value.issues|);
      }
      DoneNext(results, n, i, Remark(n.results), done);
      results := results[i := done];
    }
    AllDone(results, n, Remark(n.results));
    r := clone.(results := results);
  }

  method CapAll(n: JobNotification, clone: JobNotification, cap: nat) returns (r: JobNotification)
    requires clone == With(n, Strip)
    ensures r == With(n, CapStripped(cap))
  {
    hide DoneTo, Strip, Cap, CapStripped, With;
    NoneDone(n, CapStripped(cap));
    var results := clone.results;
    for i := 0 to |results|
      invariant |results| == |n.results| && DoneTo(results, n, i, CapStripped(cap))
    {
      NotYet(results, n, i, CapStripped(cap));
      CapOne(n.results[i], cap);
      var originalCount := |n.results[i].issues|;
      var short := Cap(results[i], cap, originalCount);
      DoneNext(results, n, i, CapStripped(cap), short);
      results := results[i := short];
    }
    AllDone(results, n, CapStripped(cap));
    r := clone.(results := results);
  }

  method MinimizeAll(n: JobNotification, clone: JobNotification) returns (r: JobNotification)
    requires clone == With(n, Strip)
    ensures r == With(n, Minimal)
  {
    var results := clone.results;
    for i := 0 to |results|
      invariant DoneTo(results, n, i, Minimal)
    {
      var originalCount := |n.results[i].issues|;
      var kept := JsSlice(results[i].issues, 0, 1);
      var short := Mark(results[i].(issues := kept), originalCount);
      DoneNext(results, n, i, Minimal, short);
      results := results[i := short];
    }
    AllDone(results, n, Minimal);
    r := clone.(results := results);
  }

  method ShrinkNotification(n: JobNotification, maxBytes: int, size: JobNotification -> Bytes)
    returns (r: JobNotification)
    ensures r == Shrunk(n, maxBytes, size)
  {
    hide With, Strip, Remark, CapStripped, Minimal, FirstCap, NextCap, IssueCount;
    var clone, totalIssues := StripAll(n);
    if size(clone) <= maxBytes {
      r := RemarkAll(n, clone);
    } else {
      var estimatedCap := FirstCap(totalIssues, maxBytes, size(clone));
      var iteration, fits := 0, false;
      r := clone;
      while iteration < MAX_SHRINK_ITERATIONS && !fits
        invariant iteration <= MAX_SHRINK_ITERATIONS && estimatedCap >= 1
        invariant !fits ==>
                  Shrunk(n, maxBytes, size) ==
                  FirstFit(n, estimatedCap, MAX_SHRINK_ITERATIONS - iteration, maxBytes, size)
        invariant fits ==> r == Shrunk(n, maxBytes, size)
        decreases MAX_SHRINK_ITERATIONS - iteration, !fits
      {
        r := CapAll(n, clone, estimatedCap);
        fits := size(r) <= maxBytes;
        if !fits {
          estimatedCap := NextCap(estimatedCap);
          iteration := iteration + 1;
        }
      }
      if !fits {
        r := MinimizeAll(n, clone);
      }
    }
  }

  // What the receiver can rely on

  /** The issue without its source and range, and otherwise complete. */
  ghost predicate IsBare(bare: Issue, issue: Issue) {
    && bare.source == None && bare.range == None
    && bare.code == issue.code && bare.message == issue.message
    && bare.severity == issue.severity && bare.path == issue.path
  }

  /** `r` is `rs` with a prefix of its issues, each without source and range; only the two marks may differ besides. */
  ghost predicate IsPrefixOf(r: RulesetResult, rs: RulesetResult) {
    && |r.issues| <= |rs.issues| && (forall j :: 0 <= j < |r.issues| ==> IsBare(r.issues[j], rs.issues[j]))
    && r.rulesetName == rs.rulesetName && r.rulesetVersion == rs.rulesetVersion && r.status == rs.status
    && r.summary == rs.summary && r.durationMs == rs.durationMs
  }

  ghost predicate Marked(r: RulesetResult, count: nat) {
    r.truncated == Some(true) && r.originalIssueCount == Some(count)
  }

  /** The payload was shortened to `cap` issues a ruleset, and says so exactly where it was. */
  ghost predicate CappedAt(r: JobNotification, n: JobNotification, cap: nat) {
    && |r.results| == |n.results|
    && forall i :: 0 <= i < |r.results| ==>
         var (short, full) := (r.results[i], n.results[i]);
         && |short.issues| == (if |full.issues| > cap then cap else |full.issues|)
         && if |short.issues| < |full.issues| then Marked(short, |full.issues|)
            else short.truncated == full.truncated && short.originalIssueCount == full.originalIssueCount
  }

  /** At most one issue is left of each ruleset, and all are marked. */
  ghost predicate LastResort(r: JobNotification, n: JobNotification) {
    && |r.results| == |n.results|
    && forall i :: 0 <= i < |r.results| ==>
         && |r.results[i].issues| == (if n.results[i].issues == [] then 0 else 1)
         && Marked(r.results[i], |n.results[i].issues|)
  }

  /** No ruleset has fewer issues than the first of its name, unless it is marked so already: true of distinct names. */
  ghost predicate NoNewMark(results: seq<RulesetResult>) {
    forall i :: 0 <= i < |results| ==>
      var first := FirstNamed(results, results[i].rulesetName);
      first.Some? && (|results[i].issues| >= |first.value.issues| || Marked(results[i], |first.value.issues|))
  }

  lemma DistinctNames(results: seq<RulesetResult>)
    requires forall i, j :: 0 <= i < j < |results| ==> results[i].rulesetName != results[j].rulesetName
    ensures NoNewMark(results)
  {}

  lemma StripIsPrefix(rs: RulesetResult)
    ensures IsPrefixOf(Strip(rs), rs) && |Strip(rs).issues| == |rs.issues|
    ensures Strip(rs).truncated == rs.truncated && Strip(rs).originalIssueCount == rs.originalIssueCount
  {
    hide Map;
  }

  lemma CapIsPrefix(rs: RulesetResult, cap: nat)
    ensures var short := CapStripped(cap)(rs);
            && IsPrefixOf(short, rs) && |short.issues| == (if |rs.issues| > cap then cap else |rs.issues|)
            && if |short.issues| < |rs.issues| then Marked(short, |rs.issues|)
               else short.truncated == rs.truncated && short.originalIssueCount == rs.originalIssueCount
  {
    hide Map;
  }

  lemma MinimalIsPrefix(rs: RulesetResult)
    ensures IsPrefixOf(Minimal(rs), rs) && Marked(Minimal(rs), |rs.issues|)
    ensures |Minimal(rs).issues| == (if rs.issues == [] then 0 else 1)
  {
    hide Map;
  }

  lemma RemarkIsPrefix(rs: RulesetResult, results: seq<RulesetResult>)
    ensures IsPrefixOf(Remark(results)(rs), rs) && |Remark(results)(rs).issues| == |rs.issues|
  {
    hide Map, FirstNamed;
    StripIsPrefix(rs);
  }

  /** The cap of round `k`. */
  function CapAfter(cap: nat, k: nat): (r: nat)
    requires cap >= 1
    ensures r >= 1
  {
    if k == 0 then cap else CapAfter(NextCap(cap), k - 1)
  }

  /** The cap falls strictly from round to round until it is 1. */
  lemma {:induction false} CapFalls(cap: nat, j: nat, k: nat)
    requires cap >= 1 && j < k
    ensures CapAfter(cap, k) < CapAfter(cap, j) || CapAfter(cap, k) == CapAfter(cap, j) == 1
    decreases k
  {
    hide NextCap;
    if j > 0 {
      CapFalls(NextCap(cap), j - 1, k - 1);
    } else if k > 1 {
      CapFalls(NextCap(cap), 0, k - 1);
    }
  }

  ghost predicate TooLarge(n: JobNotification, cap: nat, maxBytes: int, size: JobNotification -> Bytes) {
    size(With(n, CapStripped(cap))) > maxBytes
  }

  /** The first `rounds` caps are all too large. */
  ghost predicate NoneFits(n: JobNotification, cap: nat, rounds: nat, maxBytes: int, size: JobNotification -> Bytes)
    requires cap >= 1
  {
    forall j {:trigger CapAfter(cap, j)} :: 0 <= j < rounds ==> TooLarge(n, CapAfter(cap, j), maxBytes, size)
  }

  lemma NoneFitsBefore(n: JobNotification, cap: nat, rounds: nat, maxBytes: int, size: JobNotification -> Bytes)
    requires cap >= 1 && TooLarge(n, cap, maxBytes, size) && NoneFits(n, NextCap(cap), rounds, maxBytes, size)
    ensures NoneFits(n, cap, rounds + 1, maxBytes, size)
  {
    hide TooLarge, NextCap;
    forall j | 0 <= j < rounds + 1 ensures TooLarge(n, CapAfter(cap, j), maxBytes, size) {
      if j > 0 {
        assert CapAfter(cap, j) == CapAfter(NextCap(cap), j - 1);
      }
    }
  }

  /** Round `k` is the first whose cap fits, and its payload is the result. */
  ghost predicate FitsFirst(r: JobNotification, n: JobNotification, cap: nat, k: nat, maxBytes: int,
                            size: JobNotification -> Bytes)
    requires cap >= 1
  {
    r == With(n, CapStripped(CapAfter(cap, k))) && size(r) <= maxBytes && NoneFits(n, cap, k, maxBytes, size)
  }

  /** The payload of the first cap that fits, or the last resort if none does. */
  ghost predicate IsChoice(r: JobNotification, n: JobNotification, cap: nat, rounds: nat, maxBytes: int,
                           size: JobNotification -> Bytes)
    requires cap >= 1
  {
    if NoneFits(n, cap, rounds, maxBytes, size) then r == With(n, Minimal)
    else exists k: nat :: k < rounds && FitsFirst(r, n, cap, k, maxBytes, size)
  }

  lemma FitsIsChoice(r: JobNotification, n: JobNotification, cap: nat, k: nat, rounds: nat, maxBytes: int,
                     size: JobNotification -> Bytes)
    requires cap >= 1 && k < rounds && FitsFirst(r, n, cap, k, maxBytes, size)
    ensures IsChoice(r, n, cap, rounds, maxBytes, size)
  {
    hide CapAfter, With;
    assert !TooLarge(n, CapAfter(cap, k), maxBytes, size);
  }

  lemma LaterChoice(r: JobNotification, n: JobNotification, cap: nat, rounds: nat, maxBytes: int,
                    size: JobNotification -> Bytes)
    requires cap >= 1 && TooLarge(n, cap, maxBytes, size) && IsChoice(r, n, NextCap(cap), rounds, maxBytes, size)
    ensures IsChoice(r, n, cap, rounds + 1, maxBytes, size)
  {
    hide With, NextCap, NoneFits, TooLarge;
    var next := NextCap(cap);
    if NoneFits(n, next, rounds, maxBytes, size) {
      NoneFitsBefore(n, cap, rounds, maxBytes, size);
    } else {
      var k: nat :| k < rounds && FitsFirst(r, n, next, k, maxBytes, size);
      NoneFitsBefore(n, cap, k, maxBytes, size);
      FitsIsChoice(r, n, cap, k + 1, rounds + 1, maxBytes, size);
    }
  }

  /** The loop returns the payload of the first, so the largest, cap tried that fits; failing all, the last resort. */
  lemma {:induction false} FirstFitChoice(n: JobNotification, cap: nat, rounds: nat, maxBytes: int,
                                          size: JobNotification -> Bytes)
    requires cap >= 1
    ensures IsChoice(FirstFit(n, cap, rounds, maxBytes, size), n, cap, rounds, maxBytes, size)
    decreases rounds
  {
    hide With, NextCap, NoneFits, IsChoice;
    if rounds == 0 {
      NoneTried(n, cap, maxBytes, size);
    } else if TooLarge(n, cap, maxBytes, size) {
      FirstFitChoice(n, NextCap(cap), rounds - 1, maxBytes, size);
      LaterChoice(FirstFit(n, NextCap(cap), rounds - 1, maxBytes, size), n, cap, rounds - 1, maxBytes, size);
    } else {
      NoneTried(n, cap, maxBytes, size);
      FitsIsChoice(With(n, CapStripped(cap)), n, cap, 0, rounds, maxBytes, size);
    }
  }

  lemma NoneTried(n: JobNotification, cap: nat, maxBytes: int, size: JobNotification -> Bytes)
    requires cap >= 1
    ensures NoneFits(n, cap, 0, maxBytes, size) && IsChoice(With(n, Minimal), n, cap, 0, maxBytes, size)
  {}

  /**
   * Whatever comes out, each ruleset keeps a prefix of its issues, without source and range, and nothing else changed.
   */
  lemma ShrunkIsPrefix(n: JobNotification, maxBytes: int, size: JobNotification -> Bytes)
    ensures var r := Shrunk(n, maxBytes, size);
            && r.(results := n.results) == n && |r.results| == |n.results|
            && forall i :: 0 <= i < |r.results| ==> IsPrefixOf(r.results[i], n.results[i])
  {
    hide IsPrefixOf, Strip, Remark, CapStripped, Minimal, Map, FirstFit;
    forall rs: RulesetResult ensures IsPrefixOf(Remark(n.results)(rs), rs) && IsPrefixOf(Minimal(rs), rs) {
      RemarkIsPrefix(rs, n.results);
      MinimalIsPrefix(rs);
    }
    forall rs: RulesetResult, cap: nat ensures IsPrefixOf(CapStripped(cap)(rs), rs) {
      CapIsPrefix(rs, cap);
    }
    FirstFitChoice(n, FirstCap(IssueCount(n.results), maxBytes, size(With(n, Strip))), MAX_SHRINK_ITERATIONS, maxBytes,
                   size);
  }

  /** Where stripping was enough, a ruleset is marked when it is shorter than the first of its name. */
  lemma LateMarks(n: JobNotification, maxBytes: int, size: JobNotification -> Bytes, i: nat, first: nat)
    requires size(With(n, Strip)) <= maxBytes && i < |n.results| && first < |n.results|
    requires n.results[first].rulesetName == n.results[i].rulesetName
    requires forall k :: 0 <= k < first ==> n.results[k].rulesetName != n.results[i].rulesetName
    ensures var r := Shrunk(n, maxBytes, size);
            && |r.results| == |n.results| && |r.results[i].issues| == |n.results[i].issues|
            && if |n.results[i].issues| < |n.results[first].issues|
               then Marked(r.results[i], |n.results[first].issues|)
               else && r.results[i].truncated == n.results[i].truncated
                    && r.results[i].originalIssueCount == n.results[i].originalIssueCount
  {
    hide Map, FirstNamed;
    FirstIs(n.results, first);
    RemarkOne(n.results[i], n.results);
  }

  /** A payload that needed more than stripping fits and is marked exactly where it was cut, or is the last resort. */
  lemma CutFitsOrLastResort(n: JobNotification, maxBytes: int, size: JobNotification -> Bytes)
    requires size(With(n, Strip)) > maxBytes
    ensures var r := Shrunk(n, maxBytes, size);
            || LastResort(r, n)
            || (size(r) <= maxBytes && exists cap: nat :: cap >= 1 && CappedAt(r, n, cap))
  {
    hide Strip, CapStripped, Minimal, Map, FirstFit, Marked;
    var cap := FirstCap(IssueCount(n.results), maxBytes, size(With(n, Strip)));
    FirstFitChoice(n, cap, MAX_SHRINK_ITERATIONS, maxBytes, size);
    var r := Shrunk(n, maxBytes, size);
    if k: nat :| FitsFirst(r, n, cap, k, maxBytes, size) {
      forall i | 0 <= i < |n.results| {
        CapIsPrefix(n.results[i], CapAfter(cap, k));
      }
      assert CappedAt(r, n, CapAfter(cap, k));
    } else {
      forall i | 0 <= i < |n.results| {
        MinimalIsPrefix(n.results[i]);
      }
      assert LastResort(r, n);
    }
  }

  /** The marks that follow stripping are no-ops exactly when none of them is new. */
  lemma RemarkNothing(n: JobNotification)
    ensures With(n, Remark(n.results)) == With(n, Strip) <==> NoNewMark(n.results)
    ensures !NoNewMark(n.results) ==> !LastResort(With(n, Remark(n.results)), n)
  {
    hide Map, Strip, Remark, FirstNamed;
    var r, stripped := With(n, Remark(n.results)), With(n, Strip);
    forall i | 0 <= i < |n.results| {
      RemarkOne(n.results[i], n.results);
    }
    forall i | 0 <= i < |n.results| ensures FirstNamed(n.results, n.results[i].rulesetName).Some? {}
    if NoNewMark(n.results) {
      assert r.results == stripped.results by { MarkedStays(n); }
    } else {
      var i :| 0 <= i < |n.results| && var count := |FirstNamed(n.results, n.results[i].rulesetName).value.issues|;
                                       |n.results[i].issues| < count && !Marked(n.results[i], count);
      assert Marked(r.results[i], |FirstNamed(n.results, n.results[i].rulesetName).value.issues|);
      StripIsPrefix(n.results[i]);
      assert r.results[i] != stripped.results[i];
    }
  }

  lemma MarkedStays(n: JobNotification)
    requires NoNewMark(n.results)
    ensures forall i :: 0 <= i < |n.results| ==> Remark(n.results)(n.results[i]) == Strip(n.results[i])
  {
    hide Map, FirstNamed;
  }

  /** The result is within the limit. */
  ghost predicate Fits(n: JobNotification, maxBytes: int, size: JobNotification -> Bytes) {
    size(Shrunk(n, maxBytes, size)) <= maxBytes
  }

  /** Or the algorithm has done all it can. */
  ghost predicate FitsOrLastResort(n: JobNotification, maxBytes: int, size: JobNotification -> Bytes) {
    Fits(n, maxBytes, size) || LastResort(Shrunk(n, maxBytes, size), n)
  }

  /**
   * The promise itself: the payload fits exactly when, stripping being enough, it still fits with the late marks, or,
   * stripping not being enough, one of the twenty caps or the last resort fits.
   */
  lemma FitsExactly(n: JobNotification, maxBytes: int, size: JobNotification -> Bytes)
    ensures var stripped := size(With(n, Strip));
            Fits(n, maxBytes, size) <==>
              if stripped <= maxBytes then size(With(n, Remark(n.results))) <= maxBytes
              else || size(With(n, Minimal)) <= maxBytes
                   || !NoneFits(n, FirstCap(IssueCount(n.results), maxBytes, stripped), 20, maxBytes, size)
  {
    hide With, Remark, Strip, Minimal, FirstCap, NoneFits;
    var cap := FirstCap(IssueCount(n.results), maxBytes, size(With(n, Strip)));
    FirstFitChoice(n, cap, MAX_SHRINK_ITERATIONS, maxBytes, size);
  }

  /** At a given limit: no late mark is new, or stripping is not enough, or the late marks still fit. */
  lemma FitsOrLastResortExactly(n: JobNotification, maxBytes: int, size: JobNotification -> Bytes)
    ensures FitsOrLastResort(n, maxBytes, size) <==>
              || NoNewMark(n.results)
              || size(With(n, Strip)) > maxBytes
              || size(With(n, Remark(n.results))) <= maxBytes
  {
    hide LastResort, NoNewMark, With, Remark, Strip, Minimal;
    RemarkNothing(n);
    if size(With(n, Strip)) > maxBytes {
      CutFitsOrLastResort(n, maxBytes, size);
    }
  }

  /**
   * As the client calls it, which is for payloads over the limit only: at every limit, exactly when the late marks do
   * not lengthen the stripped payload or stripping does not shorten the original.
   */
  lemma AsCalled(n: JobNotification, size: JobNotification -> Bytes)
    ensures (forall m: int :: size(n) > m ==> FitsOrLastResort(n, m, size)) <==>
              || size(With(n, Remark(n.results))) <= size(With(n, Strip))
              || size(n) <= size(With(n, Strip))
  {
    hide FitsOrLastResort, NoNewMark, With, Remark, Strip;
    RemarkNothing(n);
    var stripped, remarked := size(With(n, Strip)), size(With(n, Remark(n.results)));
    if remarked <= stripped || size(n) <= stripped {
      forall m: int | size(n) > m ensures FitsOrLastResort(n, m, size) {
        FitsOrLastResortExactly(n, m, size);
      }
    } else {
      FitsOrLastResortExactly(n, stripped, size);
      assert !FitsOrLastResort(n, stripped, size);
    }
  }

  lemma CapsCutNothing(n: JobNotification, cap: nat)
    requires cap >= 1 && forall i :: 0 <= i < |n.results| ==> |n.results[i].issues| <= 1
    ensures With(n, CapStripped(cap)) == With(n, Strip)
  {
    hide Map, Strip, CapStripped;
    forall i | 0 <= i < |n.results| ensures CapStripped(cap)(n.results[i]) == Strip(n.results[i]) {
      CapOne(n.results[i], cap);
      StripIsPrefix(n.results[i]);
    }
    assert With(n, CapStripped(cap)).results == With(n, Strip).results;
  }

  lemma NoCapFits(n: JobNotification, cap: nat, rounds: nat, maxBytes: int, size: JobNotification -> Bytes)
    requires cap >= 1 && forall c: nat :: c >= 1 ==> TooLarge(n, c, maxBytes, size)
    ensures NoneFits(n, cap, rounds, maxBytes, size)
  {
    hide TooLarge, NextCap;
  }

  /** Issues too large by themselves, at most one a ruleset: there is nothing to cut, and the limit is exceeded. */
  lemma OversizedIssue(n: JobNotification, maxBytes: int, size: JobNotification -> Bytes)
    requires forall i :: 0 <= i < |n.results| ==> |n.results[i].issues| <= 1
    requires size(With(n, Strip)) > maxBytes && size(With(n, Minimal)) > maxBytes
    ensures FitsOrLastResort(n, maxBytes, size) && !Fits(n, maxBytes, size)
  {
    hide With, Strip, CapStripped, Minimal, Remark, FirstCap, NoneFits, LastResort, NoNewMark;
    forall c: nat | c >= 1 ensures TooLarge(n, c, maxBytes, size) {
      CapsCutNothing(n, c);
    }
    NoCapFits(n, FirstCap(IssueCount(n.results), maxBytes, size(With(n, Strip))), MAX_SHRINK_ITERATIONS, maxBytes,
              size);
    FitsExactly(n, maxBytes, size);
    FitsOrLastResortExactly(n, maxBytes, size);
  }

  /** A ruleset with fewer issues than an earlier one of its name gets a new mark. */
  lemma ShorterNamesake(n: JobNotification, i: nat, j: nat)
    requires i < j < |n.results| && n.results[i].rulesetName == n.results[j].rulesetName
    requires forall k :: 0 <= k < i ==> n.results[k].rulesetName != n.results[i].rulesetName
    requires |n.results[j].issues| < |n.results[i].issues| && n.results[j].truncated == None
    ensures !NoNewMark(n.results)
  {
    FirstIs(n.results, i);
  }

  lemma {:induction false} FirstIs(results: seq<RulesetResult>, i: nat)
    requires i < |results| && forall k :: 0 <= k < i ==> results[k].rulesetName != results[i].rulesetName
    ensures FirstNamed(results, results[i].rulesetName) == Some(results[i])
  {
    if i == 0 {
    } else {
      assert results[1..][i - 1] == results[i];
      FirstIs(results[1..], i - 1);
    }
  }
}
