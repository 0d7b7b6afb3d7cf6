/** The notifications a lint run sends to the report service. */
module Notifications {
  import opened Collections

  datatype JobStatus = Completed | Failed | Timeout | OtherStatus(name: string)

  datatype Issue = Issue(code: string, message: string, severity: int, path: string, source: Option<string>,
                         range: Option<Range>)

  datatype Range = Range(startLine: int, startCharacter: int, endLine: int, endCharacter: int)

  datatype Summary = Summary(errorCount: int, warningCount: int, infoCount: int, hintCount: int, totalIssues: int)

  datatype RulesetResult = RulesetResult(
    rulesetName: string,
    rulesetVersion: Option<string>,
    status: JobStatus,
    issues: seq<Issue>,
    summary: Summary,
    durationMs: Option<int>,
    truncated: Option<bool>,
    originalIssueCount: Option<nat>)

  datatype JobNotification = JobNotification(
    jobId: string,
    documentId: string,
    timestamp: string,
    status: JobStatus,
    results: seq<RulesetResult>,
    summary: Summary,
    format: Option<string>)

  /** What a payload has to satisfy before it is sent at all. */
  ghost predicate Acceptable(n: JobNotification) {
    && n.jobId != "" && n.documentId != "" && n.timestamp != "" && !n.status.OtherStatus?
    && (n.format.Some? && n.format.value != "" ==> n.format.value in ["openapi", "swagger", "asyncapi", "unknown"])
    && (forall i :: 0 <= i < |n.results| ==> !n.results[i].status.OtherStatus?)
    && (forall i, j :: 0 <= i < |n.results| && 0 <= j < |n.results[i].issues| ==>
        n.results[i].issues[j].severity in {0, 1, 2, 3})
  }
}
