/**
 * ConstructMessage of prow-ci/prow_summary.go, the variant that notifies on a
 * failed job only, strips terminal escape sequences from the failure summary and
 * treats the duration line as optional.
 */
module ProwCiSummary {
  import opened Wrappers
  import opened LogPatterns
  import opened ReportLines
  import Ansi

  /** The summary line used when a failed log has no `Summarizing ... Test Suite Failed` region. */
  const InfrastructureNotice :=
    "Infrastructure setup issues or failures unrelated to tests were found. No report of test failures was produced. \n"

  /**
   * The message for a CI log and whether to send it. Only a log whose first
   * job-state marker says `failed` produces a message.
   */
  function ConstructMessage(log: string): (string, bool) {
    var state := JobState(log);
    if state != Some("failed") then ("", false)
    else
      var summary := match FailureRegion(log)
        case None => InfrastructureNotice
        case Some(region) => Ansi.Strip(region) + "\n";
      (summary + StateLine(state.value) + OptionalDurationLine(log), true)
  }

  /** The duration line of a log, empty when the log has no duration marker. */
  function OptionalDurationLine(log: string): string {
    match DurationToken(log)
    case None => ""
    case Some(token) => DurationLine(token)
  }

  /** The message of a failed log, given the summary line its region yields. */
  lemma FailedReport(log: string, summary: string)
    requires JobState(log) == Some("failed")
    requires summary == match FailureRegion(log)
      case None => InfrastructureNotice
      case Some(region) => Ansi.Strip(region) + "\n"
    ensures ConstructMessage(log) == (summary + "Reporting job state: failed\n" + OptionalDurationLine(log), true)
  {
    var m := ConstructMessage(log);
    var line := StateLine("failed");
    var rest := OptionalDurationLine(log);
    assert m.0 == summary + line + rest;
    assert m.1;
    FailedLine();
    assert summary + line + rest == summary + "Reporting job state: failed\n" + rest;
  }

  /** The tool notifies exactly when the leftmost job-state marker of the log captures `failed`. */
  lemma NotifiesOnFailure(log: string)
    ensures ConstructMessage(log).1 <==> exists p: nat :: FirstMatchAt(log, p, StatePattern, "failed")
  {
    PatternsWellFormed();
    FindSpec(log, StatePattern);
    if exists p: nat :: FirstMatchAt(log, p, StatePattern, "failed") {
      var p: nat :| FirstMatchAt(log, p, StatePattern, "failed");
      JobStateIs(log, p, "failed");
    }
  }

  /** A log whose first job-state marker is not `failed`, or that has none, sends nothing. */
  lemma SilentUnlessFailed(log: string)
    requires forall p: nat :: !FirstMatchAt(log, p, StatePattern, "failed")
    ensures ConstructMessage(log) == ("", false)
  {
    JobStateIsNot(log, "failed");
  }

  /**
   * A failed log with a summary region is reported with the region, escape
   * sequences stripped, then the state line, then the duration line if there is one.
   */
  lemma FailedWithSummary(log: string, p: nat, i: nat, j: nat)
    requires FirstMatchAt(log, p, StatePattern, "failed")
    requires FirstRegionAt(log, i, j)
    ensures ConstructMessage(log) ==
      (Ansi.Strip(log[i..j + |SummaryEnd|]) + "\n" + "Reporting job state: failed\n" + OptionalDurationLine(log), true)
  {
    JobStateIs(log, p, "failed");
    FailureRegionFirst(log, i, j);
    FailedReport(log, Ansi.Strip(log[i..j + |SummaryEnd|]) + "\n");
  }

  /** A failed log without a summary region is reported with the infrastructure notice instead. */
  lemma FailedWithoutSummary(log: string, p: nat)
    requires FirstMatchAt(log, p, StatePattern, "failed")
    requires forall i: nat, j: nat :: !RegionAt(log, i, j)
    ensures ConstructMessage(log) ==
      (InfrastructureNotice + "Reporting job state: failed\n" + OptionalDurationLine(log), true)
  {
    JobStateIs(log, p, "failed");
    FailureRegionNone(log);
    FailedReport(log, InfrastructureNotice);
  }

  /** The duration line is `Ran for <token>` of the leftmost duration marker ... */
  lemma DurationLineFound(log: string, q: nat, token: string)
    requires FirstMatchAt(log, q, DurationPattern, token)
    ensures OptionalDurationLine(log) == "Ran for " + token + "\n"
  {
    DurationIs(log, q, token);
  }

  /** ... and is left out, without error, when the log has no duration marker. */
  lemma DurationLineMissing(log: string)
    requires forall q: nat, token: string :: !MatchAt(log, q, DurationPattern, token)
    ensures OptionalDurationLine(log) == ""
  {
    DurationAbsent(log);
  }
}
