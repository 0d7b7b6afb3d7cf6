/** Aggregate statistics of one job's issues: groups counted in one pass, then ranked. */
module JobStats {
  import opened Collections
  import opened StableSort
  import opened LintLog
  import Key = CompositeKey

  datatype Tally = Tally(count: nat, severity: int)

  datatype RuleRow<K> = RuleRow(rule: K, count: nat, severity: int)

  datatype PathRow<K> = PathRow(pathPrefix: K, count: nat)

  function RuleOf(i: Issue): string {
    if i.ruleId != "" then i.ruleId else i.code
  }

  function SeverityOf(i: Issue): int {
    i.severity
  }

  function PrefixOf(i: Issue): string
    requires |i.path| >= 2
  {
    Key.Join(i.path[..2], '.')
  }

  /** The two-segment prefixes, of the issues that have one. */
  function Prefixes(issues: seq<Issue>): seq<string> {
    if issues == [] then []
    else
      var last := issues[|issues| - 1];
      Prefixes(issues[..|issues| - 1]) + if |last.path| >= 2 then [PrefixOf(last)] else []
  }

  ghost function Count<K>(keys: seq<K>, k: K): nat {
    multiset(keys)[k]
  }

  ghost function FirstAt<K>(keys: seq<K>, k: K): (i: nat)
    requires k in keys
    ensures i < |keys| && keys[i] == k && forall j :: 0 <= j < i ==> keys[j] != k
  {
    if keys[0] == k then 0 else 1 + FirstAt(keys[1..], k)
  }

  ghost predicate MetBefore<K>(keys: seq<K>, a: K, b: K) {
    a in keys && b in keys && FirstAt(keys, a) < FirstAt(keys, b)
  }

  /** A group comes before another if it is larger, or as large and met earlier. */
  ghost predicate Outranks<K>(keys: seq<K>, a: K, b: K) {
    && a in keys && b in keys
    && (Count(keys, a) > Count(keys, b) || (Count(keys, a) == Count(keys, b) && MetBefore(keys, a, b)))
  }

  lemma FirstAtPrefix<K>(keys: seq<K>, n: nat, k: K)
    requires n < |keys|
    ensures k in keys[..n] ==> k in keys && FirstAt(keys, k) < n
    ensures k == keys[n] && k !in keys[..n] ==> FirstAt(keys, k) == n
  {
    if k in keys[..n] {
      var j :| 0 <= j < n && keys[..n][j] == k;
      assert keys[j] == k;
    } else if k == keys[n] {
      var f := FirstAt(keys, k);
      assert forall j :: 0 <= j < n ==> keys[..n][j] == keys[j];
    }
  }

  /** A map has an entry for each of the first `n` keys, in the order they were met. */
  ghost predicate Scanned<K, V>(keys: seq<K>, n: nat, m: JsMap<K, V>) {
    && n <= |keys| && m.Valid()
    && (forall a, b :: 0 <= a < b < |m.order| ==> MetBefore(keys, m.order[a], m.order[b]))
    && (forall k :: k in keys[..n] ==> k in m.items)
    && (forall k :: k in m.items ==> k in keys && FirstAt(keys, k) < n)
  }

  lemma ScanStep<K, V>(keys: seq<K>, n: nat, m: JsMap<K, V>, v: V)
    requires n < |keys| && Scanned(keys, n, m)
    ensures Scanned(keys, n + 1, m.Set(keys[n], v))
    ensures keys[n] !in m.items ==> FirstAt(keys, keys[n]) == n
  {
    hide FirstAt, NoDup;
    var next := m.Set(keys[n], v);
    m.SetValid(keys[n], v);
    FirstAtPrefix(keys, n, keys[n]);
    TakeNext(keys, n);
    forall a, b | 0 <= a < b < |next.order| ensures MetBefore(keys, next.order[a], next.order[b]) {
      if b < |m.order| {
        assert MetBefore(keys, m.order[a], m.order[b]);
      } else {
        assert m.order[a] in m.items;
      }
    }
  }

  lemma CountNext<K>(keys: seq<K>, n: nat, k: K)
    requires n < |keys|
    ensures Count(keys[..n + 1], k) == Count(keys[..n], k) + if k == keys[n] then 1 else 0
    ensures k !in keys[..n] ==> Count(keys[..n], k) == 0
  {
    assert keys[..n + 1] == keys[..n] + [keys[n]];
  }

  // The rule breakdown

  predicate BySize<K>(a: RuleRow<K>, b: RuleRow<K>) {
    a.count >= b.count
  }

  ghost predicate RowOf<K>(keys: seq<K>, severities: seq<int>, row: RuleRow<K>) {
    && |keys| == |severities| && row.rule in keys
    && row.count == Count(keys, row.rule) && row.severity == severities[FirstAt(keys, row.rule)]
  }

  ghost predicate HasRow<K>(rows: seq<RuleRow<K>>, k: K) {
    exists i :: 0 <= i < |rows| && rows[i].rule == k
  }

  /** Every rule once, with its exact count and first severity, largest group first. */
  ghost predicate IsBreakdown<K>(keys: seq<K>, severities: seq<int>, rows: seq<RuleRow<K>>) {
    && (forall i :: 0 <= i < |rows| ==> RowOf(keys, severities, rows[i]))
    && (forall i, j :: 0 <= i < j < |rows| ==> Outranks(keys, rows[i].rule, rows[j].rule))
    && (forall k :: k in keys ==> HasRow(rows, k))
  }

  lemma SortedBreakdown<K>(keys: seq<K>, severities: seq<int>, met: seq<RuleRow<K>>)
    requires forall i :: 0 <= i < |met| ==> RowOf(keys, severities, met[i])
    requires forall i, j :: 0 <= i < j < |met| ==> MetBefore(keys, met[i].rule, met[j].rule)
    requires forall k :: k in keys ==> HasRow(met, k)
    ensures IsBreakdown(keys, severities, Sort(met, BySize))
  {
    hide Sort, Count, FirstAt, MetBefore;
    var earlier := (a: RuleRow<K>, b: RuleRow<K>) => MetBefore(keys, a.rule, b.rule);
    SortKeepsOrder(met, BySize, earlier);
    var rows := Sort(met, BySize);
    forall i | 0 <= i < |rows| ensures RowOf(keys, severities, rows[i]) {
      SortMember(met, BySize, rows[i]);
      assert rows[i] in met;
    }
    forall i, j | 0 <= i < j < |rows| ensures Outranks(keys, rows[i].rule, rows[j].rule) {
      assert Ranked(rows[i], rows[j], BySize, earlier);
    }
    forall k | k in keys ensures HasRow(rows, k) {
      assert HasRow(met, k);
      var j :| 0 <= j < |met| && met[j].rule == k;
      SortMember(met, BySize, met[j]);
    }
  }

  ghost predicate TalliedRules<K>(keys: seq<K>, severities: seq<int>, n: nat, m: JsMap<K, Tally>) {
    && |keys| == |severities| && Scanned(keys, n, m)
    && (forall k :: k in m.items ==> m.items[k] == Tally(Count(keys[..n], k), severities[FirstAt(keys, k)]))
  }

  function Counted<K>(m: JsMap<K, Tally>, k: K, severity: int): Tally {
    if k in m.items then m.items[k].(count := m.items[k].count + 1) else Tally(1, severity)
  }

  lemma TallyStep<K>(keys: seq<K>, severities: seq<int>, n: nat, m: JsMap<K, Tally>)
    requires n < |keys| && TalliedRules(keys, severities, n, m)
    ensures TalliedRules(keys, severities, n + 1,
                         m.Set(keys[n], Counted(m, keys[n], severities[n])))
  {
    hide Count, FirstAt;
    var next := Counted(m, keys[n], severities[n]);
    ScanStep(keys, n, m, next);
    CountNext(keys, n, keys[n]);
    forall k | k in m.items ensures Count(keys[..n + 1], k) == Count(keys[..n], k) + if k == keys[n] then 1 else 0 {
      CountNext(keys, n, k);
    }
  }

  method TallyRules(issues: seq<Issue>) returns (m: JsMap<string, Tally>)
    ensures TalliedRules(Map(issues, RuleOf), Map(issues, SeverityOf), |issues|, m)
  {
    hide TalliedRules, Map;
    ghost var keys, severities := Map(issues, RuleOf), Map(issues, SeverityOf);
    m := JsMap([], map[]);
    NothingTallied(keys, severities);
    for i := 0 to |issues|
      invariant TalliedRules(keys, severities, i, m)
    {
      TallyStep(keys, severities, i, m);
      var rule := RuleOf(issues[i]);
      if rule in m.items {
        m := m.Set(rule, m.items[rule].(count := m.items[rule].count + 1));
      } else {
        m := m.Set(rule, Tally(1, issues[i].severity));
      }
    }
  }

  lemma NothingTallied<K>(keys: seq<K>, severities: seq<int>)
    requires |keys| == |severities|
    ensures TalliedRules(keys, severities, 0, JsMap([], map[]))
  {}

  lemma TallyRows<K>(keys: seq<K>, severities: seq<int>, m: JsMap<K, Tally>, rows: seq<RuleRow<K>>)
    requires TalliedRules(keys, severities, |keys|, m) && |rows| == |m.order|
    requires forall i :: 0 <= i < |rows| ==>
               m.order[i] in m.items
                   && rows[i] == RuleRow(m.order[i], m.items[m.order[i]].count, m.items[m.order[i]].severity)
    ensures IsBreakdown(keys, severities, Sort(rows, BySize))
    ensures SumOfCounts(Sort(rows, BySize)) == |keys|
  {
    hide FirstAt, Sort;
    TakeAll(keys);
    forall k | k in keys ensures HasRow(rows, k) {
      var j :| 0 <= j < |m.order| && m.order[j] == k;
      assert rows[j].rule == k;
    }
    SortedBreakdown(keys, severities, rows);
    BreakdownAddsUp(keys, severities, Sort(rows, BySize));
  }

  method RuleBreakdown(issues: seq<Issue>) returns (rows: seq<RuleRow<string>>)
    ensures IsBreakdown(Map(issues, RuleOf), Map(issues, SeverityOf), rows)
    ensures SumOfCounts(rows) == |issues|
    ensures forall r :: 0 <= r < |rows| ==> CountsRule(issues, rows[r])
    ensures forall i :: 0 <= i < |issues| ==> IsListed(issues[i], rows)
  {
    hide Sort, Map, IsBreakdown, CountsRule, IsListed;
    var ruleMap := TallyRules(issues);
    var entries := [];
    for i := 0 to |ruleMap.order|
      invariant |entries| == i
      invariant forall j :: 0 <= j < i ==>
                  entries[j] == RuleRow(ruleMap.order[j], ruleMap.items[ruleMap.order[j]].count,
                                        ruleMap.items[ruleMap.order[j]].severity)
    {
      var rule := ruleMap.order[i];
      entries := entries + [RuleRow(rule, ruleMap.items[rule].count, ruleMap.items[rule].severity)];
    }
    TallyRows(Map(issues, RuleOf), Map(issues, SeverityOf), ruleMap, entries);
    rows := Sort(entries, BySize);
    RowsCountRules(issues, rows);
    EveryRuleListed(issues, rows);
  }

  /** The issue was reported by this rule: by its id, or by its code if it has none. */
  ghost predicate ReportedBy(i: Issue, rule: string) {
    (i.ruleId != "" && i.ruleId == rule) || (i.ruleId == "" && i.code == rule)
  }

  /** A row counts the issues its rule reported, and shows the severity of the first of them. */
  ghost predicate CountsRule(issues: seq<Issue>, row: RuleRow<string>) {
    && row.count == |set i | 0 <= i < |issues| && ReportedBy(issues[i], row.rule)|
    && exists first :: 0 <= first < |issues| && ReportedBy(issues[first], row.rule)
                       && row.severity == issues[first].severity
                       && forall i :: 0 <= i < first ==> !ReportedBy(issues[i], row.rule)
  }

  lemma {:induction false} CountIsPositions(keys: seq<string>, k: string)
    ensures Count(keys, k) == |set i | 0 <= i < |keys| && keys[i] == k|
  {
    var all := set i | 0 <= i < |keys| && keys[i] == k;
    if keys == [] {
      assert all == {};
    } else {
      var n := |keys| - 1;
      CountIsPositions(keys[..n], k);
      CountNext(keys, n, k);
      TakeAll(keys);
      var before := set i | 0 <= i < |keys[..n]| && keys[..n][i] == k;
      assert all == if keys[n] == k then before + {n} else before;
    }
  }

  lemma RowCountsRule(issues: seq<Issue>, row: RuleRow<string>)
    requires RowOf(Map(issues, RuleOf), Map(issues, SeverityOf), row)
    ensures CountsRule(issues, row)
  {
    hide Map, Count, RuleOf, ReportedBy;
    var keys := Map(issues, RuleOf);
    CountIsPositions(keys, row.rule);
    forall i | 0 <= i < |issues| ensures keys[i] == row.rule <==> ReportedBy(issues[i], row.rule) {
      RuleReports(issues[i], row.rule);
    }
    assert (set i | 0 <= i < |keys| && keys[i] == row.rule)
        == set i | 0 <= i < |issues| && ReportedBy(issues[i], row.rule);
    var first := FirstAt(keys, row.rule);
    assert ReportedBy(issues[first], row.rule);
    assert Map(issues, SeverityOf)[first] == SeverityOf(issues[first]);
  }

  lemma RuleReports(i: Issue, rule: string)
    ensures RuleOf(i) == rule <==> ReportedBy(i, rule)
  {}

  /** Every issue is counted in a row. */
  lemma {:induction false} EveryRuleListed(issues: seq<Issue>, rows: seq<RuleRow<string>>)
    requires IsBreakdown(Map(issues, RuleOf), Map(issues, SeverityOf), rows)
    ensures forall i :: 0 <= i < |issues| ==> IsListed(issues[i], rows)
  {
    hide Map, RowOf, Outranks, HasRow, IsListed;
    forall i | 0 <= i < |issues| ensures IsListed(issues[i], rows) {
      RuleKnown(issues, i);
      RuleListed(issues[i], rows);
    }
  }

  lemma RowsCountRules(issues: seq<Issue>, rows: seq<RuleRow<string>>)
    requires IsBreakdown(Map(issues, RuleOf), Map(issues, SeverityOf), rows)
    ensures forall r :: 0 <= r < |rows| ==> CountsRule(issues, rows[r])
  {
    hide Map, RowOf, CountsRule, Outranks, HasRow;
    forall r | 0 <= r < |rows| ensures CountsRule(issues, rows[r]) {
      RowCountsRule(issues, rows[r]);
    }
  }

  lemma RuleKnown(issues: seq<Issue>, i: nat)
    requires i < |issues|
    ensures RuleOf(issues[i]) in Map(issues, RuleOf)
  {
    assert Map(issues, RuleOf)[i] == RuleOf(issues[i]);
  }

  ghost predicate IsListed(i: Issue, rows: seq<RuleRow<string>>) {
    exists r :: 0 <= r < |rows| && ReportedBy(i, rows[r].rule)
  }

  lemma RuleListed(i: Issue, rows: seq<RuleRow<string>>)
    requires HasRow(rows, RuleOf(i))
    ensures IsListed(i, rows)
  {
    var r :| 0 <= r < |rows| && rows[r].rule == RuleOf(i);
    RuleReports(i, rows[r].rule);
  }

  function SumOfCounts<K>(rows: seq<RuleRow<K>>): nat {
    if rows == [] then 0 else rows[0].count + SumOfCounts(rows[1..])
  }

  /** The counts of a breakdown add up to the number of issues. */
  lemma BreakdownAddsUp<K>(keys: seq<K>, severities: seq<int>, rows: seq<RuleRow<K>>)
    requires IsBreakdown(keys, severities, rows)
    ensures SumOfCounts(rows) == |keys|
  {
    forall k | k in multiset(keys) ensures HasRow(rows, k) { assert k in keys; }
    GroupsAddUp(rows, multiset(keys));
  }

  lemma {:induction false} GroupsAddUp<K>(rows: seq<RuleRow<K>>, all: multiset<K>)
    requires forall i :: 0 <= i < |rows| ==> rows[i].count == all[rows[i].rule]
    requires forall i, j :: 0 <= i < j < |rows| ==> rows[i].rule != rows[j].rule
    requires forall k :: k in all ==> HasRow(rows, k)
    ensures SumOfCounts(rows) == |all|
  {
    if rows == [] {
      assert all == multiset{};
    } else {
      var k := rows[0].rule;
      var rest := all[k := 0];
      assert |all| == |rest| + all[k];
      forall x | x in rest ensures HasRow(rows[1..], x) {
        assert HasRow(rows, x);
        var i :| 0 <= i < |rows| && rows[i].rule == x;
        assert rows[1..][i - 1].rule == x;
      }
      GroupsAddUp(rows[1..], rest);
    }
  }

  // The most frequent path prefixes

  predicate PathBySize<K>(a: PathRow<K>, b: PathRow<K>) {
    a.count >= b.count
  }

  ghost predicate PathOf<K>(keys: seq<K>, row: PathRow<K>) {
    row.pathPrefix in keys && row.count == Count(keys, row.pathPrefix)
  }

  ghost predicate HasPath<K>(rows: seq<PathRow<K>>, k: K) {
    exists i :: 0 <= i < |rows| && rows[i].pathPrefix == k
  }

  /** At most twenty prefixes with exact counts, and everything left out is outranked by everything listed. */
  ghost predicate IsTop<K>(keys: seq<K>, rows: seq<PathRow<K>>) {
    && |rows| <= 20
    && (forall i :: 0 <= i < |rows| ==> PathOf(keys, rows[i]))
    && (forall i, j :: 0 <= i < j < |rows| ==> Outranks(keys, rows[i].pathPrefix, rows[j].pathPrefix))
    && (forall k :: k in keys && !HasPath(rows, k) ==>
          |rows| == 20 && forall i :: 0 <= i < |rows| ==> Outranks(keys, rows[i].pathPrefix, k))
  }

  lemma SortedTop<K>(keys: seq<K>, met: seq<PathRow<K>>)
    requires forall i :: 0 <= i < |met| ==> PathOf(keys, met[i])
    requires forall i, j :: 0 <= i < j < |met| ==> MetBefore(keys, met[i].pathPrefix, met[j].pathPrefix)
    requires forall k :: k in keys ==> HasPath(met, k)
    ensures IsTop(keys, JsSlice(Sort(met, PathBySize), 0, 20))
  {
    hide Sort, Count, FirstAt, MetBefore;
    var earlier := (a: PathRow<K>, b: PathRow<K>) => MetBefore(keys, a.pathPrefix, b.pathPrefix);
    SortKeepsOrder(met, PathBySize, earlier);
    var sorted := Sort(met, PathBySize);
    forall i | 0 <= i < |sorted| ensures PathOf(keys, sorted[i]) {
      SortMember(met, PathBySize, sorted[i]);
      assert sorted[i] in met;
    }
    forall i, j | 0 <= i < j < |sorted| ensures Outranks(keys, sorted[i].pathPrefix, sorted[j].pathPrefix) {
      assert Ranked(sorted[i], sorted[j], PathBySize, earlier);
    }
    forall k | k in keys ensures HasPath(sorted, k) {
      assert HasPath(met, k);
      var j :| 0 <= j < |met| && met[j].pathPrefix == k;
      SortMember(met, PathBySize, met[j]);
      var at :| 0 <= at < |sorted| && sorted[at] == met[j];
    }
    TopOf(keys, sorted);
  }

  lemma TopOf<K>(keys: seq<K>, sorted: seq<PathRow<K>>)
    requires forall i :: 0 <= i < |sorted| ==> PathOf(keys, sorted[i])
    requires forall i, j :: 0 <= i < j < |sorted| ==> Outranks(keys, sorted[i].pathPrefix, sorted[j].pathPrefix)
    requires forall k :: k in keys ==> HasPath(sorted, k)
    ensures IsTop(keys, JsSlice(sorted, 0, 20))
  {
    hide Outranks, PathOf;
    var rows := JsSlice(sorted, 0, 20);
    assert forall i :: 0 <= i < |rows| ==> rows[i] == sorted[i] && HasPath(rows, sorted[i].pathPrefix);
    forall k | k in keys && !HasPath(rows, k)
      ensures |rows| == 20 && forall i :: 0 <= i < |rows| ==> Outranks(keys, rows[i].pathPrefix, k)
    {
      assert HasPath(sorted, k);
      var at :| 0 <= at < |sorted| && sorted[at].pathPrefix == k;
    }
  }

  ghost predicate TalliedPrefixes<K>(keys: seq<K>, n: nat, m: JsMap<K, nat>) {
    && Scanned(keys, n, m)
    && (forall k :: k in m.items ==> m.items[k] == Count(keys[..n], k))
  }

  lemma PrefixStep<K>(keys: seq<K>, n: nat, m: JsMap<K, nat>)
    requires n < |keys| && TalliedPrefixes(keys, n, m)
    ensures TalliedPrefixes(keys, n + 1, m.Set(keys[n], (if keys[n] in m.items then m.items[keys[n]] else 0) + 1))
  {
    hide Count, FirstAt;
    ScanStep(keys, n, m, (if keys[n] in m.items then m.items[keys[n]] else 0) + 1);
    CountNext(keys, n, keys[n]);
    forall k | k in m.items ensures Count(keys[..n + 1], k) == Count(keys[..n], k) + if k == keys[n] then 1 else 0 {
      CountNext(keys, n, k);
    }
  }

  method TallyPrefixes(issues: seq<Issue>) returns (m: JsMap<string, nat>)
    ensures TalliedPrefixes(Prefixes(issues), |Prefixes(issues)|, m)
  {
    hide TalliedPrefixes;
    ghost var keys := Prefixes(issues);
    m := JsMap([], map[]);
    NoPrefixes(keys);
    for i := 0 to |issues|
      invariant Prefixes(issues[..i]) <= keys
      invariant TalliedPrefixes(keys, |Prefixes(issues[..i])|, m)
    {
      assert issues[..i + 1][..i] == issues[..i];
      PrefixesGrow(issues, i + 1);
      if |issues[i].path| >= 2 {
        var prefix := PrefixOf(issues[i]);
        PrefixStep(keys, |Prefixes(issues[..i])|, m);
        assert keys[|Prefixes(issues[..i])|] == prefix;
        m := m.Set(prefix, (if prefix in m.items then m.items[prefix] else 0) + 1);
      }
    }
    assert issues[..|issues|] == issues;
  }

  lemma NoPrefixes<K>(keys: seq<K>)
    ensures TalliedPrefixes(keys, 0, JsMap([], map[]))
  {}

  lemma {:induction false} PrefixesGrow(issues: seq<Issue>, i: nat)
    requires i <= |issues|
    ensures Prefixes(issues[..i]) <= Prefixes(issues)
    decreases |issues| - i
  {
    if i < |issues| {
      PrefixesGrow(issues, i + 1);
      assert issues[..i + 1][..i] == issues[..i];
    } else {
      assert issues[..i] == issues;
    }
  }

  lemma TopRows<K>(keys: seq<K>, m: JsMap<K, nat>, rows: seq<PathRow<K>>)
    requires TalliedPrefixes(keys, |keys|, m) && |rows| == |m.order|
    requires forall i :: 0 <= i < |rows| ==>
            m.order[i] in m.items && rows[i] == PathRow(m.order[i], m.items[m.order[i]])
    ensures IsTop(keys, JsSlice(Sort(rows, PathBySize), 0, 20))
  {
    hide FirstAt, Sort;
    TakeAll(keys);
    forall k | k in keys ensures HasPath(rows, k) {
      var j :| 0 <= j < |m.order| && m.order[j] == k;
      assert rows[j].pathPrefix == k;
    }
    SortedTop(keys, rows);
  }

  /** The issue's path starts with the two segments the prefix reads as. */
  ghost predicate StartsWith(i: Issue, prefix: string) {
    |i.path| >= 2 && prefix == i.path[0] + "." + i.path[1]
  }

  lemma PrefixStarts(i: Issue, prefix: string)
    requires |i.path| >= 2
    ensures PrefixOf(i) == prefix <==> StartsWith(i, prefix)
  {
    var two := i.path[..2];
    assert two[1..] == [i.path[1]] && two[0] == i.path[0];
    assert Key.Join(two[1..], '.') == i.path[1];
    assert Key.Join(two, '.') == i.path[0] + ['.'] + i.path[1];
  }

  lemma NoPrefix(prefix: string)
    ensures Count(Prefixes([]), prefix) == 0
  {}

  lemma PrefixCounted(issues: seq<Issue>, prefix: string)
    requires issues != []
    ensures var n := |issues| - 1;
            Count(Prefixes(issues), prefix)
            == Count(Prefixes(issues[..n]), prefix) + if StartsWith(issues[n], prefix) then 1 else 0
  {
    hide PrefixOf;
    if |issues[|issues| - 1].path| >= 2 { PrefixStarts(issues[|issues| - 1], prefix); }
  }

  lemma {:induction false} PrefixesCount(issues: seq<Issue>, prefix: string)
    ensures Count(Prefixes(issues), prefix) == |set i | 0 <= i < |issues| && StartsWith(issues[i], prefix)|
  {
    hide StartsWith, Count, Prefixes;
    var all := set i | 0 <= i < |issues| && StartsWith(issues[i], prefix);
    if issues == [] {
      NoPrefix(prefix);
      assert all == {};
    } else {
      var n := |issues| - 1;
      PrefixesCount(issues[..n], prefix);
      PrefixCounted(issues, prefix);
      var before := set i | 0 <= i < |issues[..n]| && StartsWith(issues[..n][i], prefix);
      assert all == if StartsWith(issues[n], prefix) then before + {n} else before;
    }
  }

  lemma PathsCounted(issues: seq<Issue>, rows: seq<PathRow<string>>)
    requires IsTop(Prefixes(issues), rows)
    ensures forall r :: 0 <= r < |rows| ==>
              rows[r].count == |set i | 0 <= i < |issues| && StartsWith(issues[i], rows[r].pathPrefix)|
  {
    hide Prefixes, Outranks, StartsWith, Count;
    forall r | 0 <= r < |rows|
      ensures rows[r].count == |set i | 0 <= i < |issues| && StartsWith(issues[i], rows[r].pathPrefix)|
    {
      PrefixesCount(issues, rows[r].pathPrefix);
    }
  }

  method TopPaths(issues: seq<Issue>) returns (rows: seq<PathRow<string>>)
    ensures IsTop(Prefixes(issues), rows)
    ensures forall r :: 0 <= r < |rows| ==>
              rows[r].count == |set i | 0 <= i < |issues| && StartsWith(issues[i], rows[r].pathPrefix)|
  {
    hide Sort, IsTop, StartsWith;
    var pathMap := TallyPrefixes(issues);
    var entries := [];
    for i := 0 to |pathMap.order|
      invariant |entries| == i
      invariant forall j :: 0 <= j < i ==> entries[j] == PathRow(pathMap.order[j], pathMap.items[pathMap.order[j]])
    {
      entries := entries + [PathRow(pathMap.order[i], pathMap.items[pathMap.order[i]])];
    }
    TopRows(Prefixes(issues), pathMap, entries);
    rows := JsSlice(Sort(entries, PathBySize), 0, 20);
    PathsCounted(issues, rows);
  }
}
