/**
 * ConstructMessage of prow_summary.go. prow_thread_summary.go carries a
 * character-for-character copy of the same function, so this one definition
 * models both. It reports success as well as failure, copies the failure summary
 * verbatim, and requires a duration marker: without one, Go indexes a nil match
 * and panics.
 */
module ProwSummary {
  import opened Wrappers
  import opened LogPatterns
  import opened ReportLines

  /** The run-time failure of indexing a missing duration match. */
  datatype Panic = IndexOutOfRange

  const NoSummaryNotice := "No Failure Summary found\n"

  /** The report for a CI log, or the panic when the log has no duration marker. */
  function ConstructMessage(log: string): Result<string, Panic> {
    match DurationToken(log)
    case None => Failure(IndexOutOfRange)
    case Some(token) => Success(Head(log) + DurationLine(token))
  }

  /** What precedes the duration line: the state report, which depends on the first state marker. */
  function Head(log: string): string {
    var state := JobState(log);
    if state == Some("succeeded") then StateLine(state.value)
    else if state == Some("failed") then
      (match FailureRegion(log) case None => NoSummaryNotice case Some(region) => region + "\n")
      + StateLine(state.value)
    else ""
  }

  /** The message of a log with a duration marker, given what its state report is. */
  lemma Report(log: string, token: string, head: string)
    requires DurationToken(log) == Some(token)
    requires Head(log) == head
    ensures ConstructMessage(log) == Success(head + "Ran for " + token + "\n")
  {
    var m := ConstructMessage(log);
    var line := DurationLine(token);
    assert m.Success?;
    assert m.value == head + line;
    assert head + line == head + "Ran for " + token + "\n";
  }

  /** The state report of a failed log, given the summary line its region yields. */
  lemma FailedHead(log: string, summary: string)
    requires JobState(log) == Some("failed")
    requires summary == match FailureRegion(log) case None => NoSummaryNotice case Some(region) => region + "\n"
    ensures Head(log) == summary + "Reporting job state: failed\n"
  {
    var line := StateLine("failed");
    assert Head(log) == summary + line;
    FailedLine();
  }

  /** ConstructMessage panics exactly on logs without any duration marker. */
  lemma PanicsWithoutDuration(log: string)
    ensures ConstructMessage(log).Failure? <==> forall q: nat, token: string :: !MatchAt(log, q, DurationPattern, token)
  {
    DurationAbsent(log);
  }

  /** A succeeded log is reported by its state line and its duration line alone. */
  lemma SucceededReport(log: string, p: nat, q: nat, token: string)
    requires FirstMatchAt(log, p, StatePattern, "succeeded")
    requires FirstMatchAt(log, q, DurationPattern, token)
    ensures ConstructMessage(log) == Success("Reporting job state: succeeded\n" + "Ran for " + token + "\n")
  {
    JobStateIs(log, p, "succeeded");
    DurationIs(log, q, token);
    SucceededLine();
    Report(log, token, "Reporting job state: succeeded\n");
  }

  /** A failed log with a summary region is reported with the region copied verbatim. */
  lemma FailedWithSummary(log: string, p: nat, i: nat, j: nat, q: nat, token: string)
    requires FirstMatchAt(log, p, StatePattern, "failed")
    requires FirstRegionAt(log, i, j)
    requires FirstMatchAt(log, q, DurationPattern, token)
    ensures ConstructMessage(log) ==
      Success(log[i..j + |SummaryEnd|] + "\n" + "Reporting job state: failed\n" + "Ran for " + token + "\n")
  {
    JobStateIs(log, p, "failed");
    FailureRegionFirst(log, i, j);
    DurationIs(log, q, token);
    FailedHead(log, log[i..j + |SummaryEnd|] + "\n");
    Report(log, token, log[i..j + |SummaryEnd|] + "\n" + "Reporting job state: failed\n");
  }

  /** A failed log without a summary region is reported with the fixed notice. */
  lemma FailedWithoutSummary(log: string, p: nat, q: nat, token: string)
    requires FirstMatchAt(log, p, StatePattern, "failed")
    requires forall i: nat, j: nat :: !RegionAt(log, i, j)
    requires FirstMatchAt(log, q, DurationPattern, token)
    ensures ConstructMessage(log) ==
      Success("No Failure Summary found\n" + "Reporting job state: failed\n" + "Ran for " + token + "\n")
  {
    JobStateIs(log, p, "failed");
    FailureRegionNone(log);
    DurationIs(log, q, token);
    FailedHead(log, NoSummaryNotice);
    Report(log, token, NoSummaryNotice + "Reporting job state: failed\n");
  }

  /** A log whose first state is neither, or that has no state marker, is reported by its duration only. */
  lemma OtherStateReport(log: string, q: nat, token: string)
    requires forall p: nat :: !FirstMatchAt(log, p, StatePattern, "succeeded")
    requires forall p: nat :: !FirstMatchAt(log, p, StatePattern, "failed")
    requires FirstMatchAt(log, q, DurationPattern, token)
    ensures ConstructMessage(log) == Success("Ran for " + token + "\n")
  {
    JobStateIsNot(log, "succeeded");
    JobStateIsNot(log, "failed");
    DurationIs(log, q, token);
    Report(log, token, "");
    assert "" + "Ran for " + token + "\n" == "Ran for " + token + "\n";
  }
}
