/** The lines the report tools compose their messages from. */
module ReportLines {
  import opened Wrappers
  import opened Trim
  import opened LogPatterns

  /** `fmt.Sprintf("Reporting job state: %s\n", strings.TrimSpace(state))` */
  function StateLine(state: string): string {
    "Reporting job state: " + TrimSpace(state) + "\n"
  }

  /** `fmt.Sprintf("Ran for %s\n", token)` */
  function DurationLine(token: string): string {
    "Ran for " + token + "\n"
  }

  /** A captured state is printed as it was captured: trimming a state word changes nothing. */
  lemma StateLineOfWord(state: string)
    requires state != [] && !IsSpace(state[0]) && !IsSpace(state[|state| - 1])
    ensures StateLine(state) == "Reporting job state: " + state + "\n"
  {
    TrimSpaceKeeps(state);
  }

  lemma FailedLine()
    ensures StateLine("failed") == "Reporting job state: failed\n"
  {
    StateLineOfWord("failed");
  }

  lemma SucceededLine()
    ensures StateLine("succeeded") == "Reporting job state: succeeded\n"
  {
    StateLineOfWord("succeeded");
  }

  /** The state the log reports is the capture of its leftmost job-state marker. */
  lemma JobStateIs(log: string, p: nat, state: string)
    requires FirstMatchAt(log, p, StatePattern, state)
    ensures JobState(log) == Some(state)
  {
    PatternsWellFormed();
    FindFirst(log, StatePattern, p, state);
  }

  /** A log none of whose leftmost job-state marker captures `state` does not report it. */
  lemma JobStateIsNot(log: string, state: string)
    requires forall p: nat :: !FirstMatchAt(log, p, StatePattern, state)
    ensures JobState(log) != Some(state)
  {
    PatternsWellFormed();
    FindSpec(log, StatePattern);
  }

  /** The duration the log reports is the token of its leftmost duration marker. */
  lemma DurationIs(log: string, p: nat, token: string)
    requires FirstMatchAt(log, p, DurationPattern, token)
    ensures DurationToken(log) == Some(token)
  {
    PatternsWellFormed();
    FindFirst(log, DurationPattern, p, token);
  }

  /** A log without any duration marker reports no duration. */
  lemma DurationAbsent(log: string)
    ensures DurationToken(log).None? <==> forall p: nat, token: string :: !MatchAt(log, p, DurationPattern, token)
  {
    PatternsWellFormed();
    FindSpec(log, DurationPattern);
  }

  /**
   * Only the first job-state marker decides: whatever follows a log that already
   * reports a state, later markers included, leaves the reported state as it is.
   */
  lemma JobStateIgnoresLaterText(log: string, later: string)
    requires JobState(log).Some?
    ensures JobState(log + later) == JobState(log)
  {
    PatternsWellFormed();
    FindIgnoresSuffix(log, later, StatePattern);
  }
}
