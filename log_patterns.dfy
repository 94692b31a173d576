/**
 * The three fixed regular expressions the report tools apply to a CI console log,
 * each with Go's FindStringSubmatch semantics (leftmost match, RE2 preferences):
 *   `Reporting job state '(\w+)'`        the job-state marker
 *   `(?s)(Summarizing.*?Test Suite Failed)`  the failure-summary region
 *   `Ran for ([\dhms]+)`                 the duration marker
 * Each is written as a hand-made matcher, together with a declarative statement of
 * what the pattern matches, and lemmas that the matcher finds exactly the leftmost match.
 */
module LogPatterns {
  import opened Wrappers
  import opened Matching

  /**
   * A pattern of the shape `marker (C+)` or `marker (C+)closer`: a literal, a
   * captured non-empty run of class C, and possibly one closing character.
   */
  datatype CapturePattern = CapturePattern(marker: string, cls: CharClass, closer: Option<char>)

  /** `Reporting job state '(\w+)'` */
  const StatePattern := CapturePattern("Reporting job state '", Word, Some('\''))

  /** `Ran for ([\dhms]+)` */
  const DurationPattern := CapturePattern("Ran for ", Duration, None)

  /** The closing character, if any, cannot continue the run. */
  predicate WellFormed(pat: CapturePattern) {
    pat.marker != [] && (pat.closer.Some? ==> !InClass(pat.closer.value, pat.cls))
  }

  /**
   * A match of `pat` starts at `p` and captures `w`. With a closer, the closer
   * must follow the run; without one, the greedy `+` takes the longest run.
   */
  ghost predicate MatchAt(s: string, p: nat, pat: CapturePattern, w: string) {
    var q := p + |pat.marker|;
    && OccursAt(s, pat.marker, p)
    && |w| >= 1 && q + |w| <= |s| && s[q..q + |w|] == w
    && (forall j :: 0 <= j < |w| ==> InClass(w[j], pat.cls))
    && match pat.closer
       case Some(c) => q + |w| < |s| && s[q + |w|] == c
       case None => q + |w| == |s| || !InClass(s[q + |w|], pat.cls)
  }

  /** The leftmost match of `pat` starts at `p` and captures `w`. */
  ghost predicate FirstMatchAt(s: string, p: nat, pat: CapturePattern, w: string) {
    MatchAt(s, p, pat, w) && forall p': nat, w': string :: p' < p ==> !MatchAt(s, p', pat, w')
  }

  /** The capture of a match of `pat` starting at `p`, if one starts there. */
  function CaptureAt(s: string, p: nat, pat: CapturePattern): Option<string> {
    if OccursAt(s, pat.marker, p) then
      var q := p + |pat.marker|;
      var n := Run(s, q, pat.cls);
      if n == 0 then None
      else match pat.closer
        case None => Some(s[q..q + n])
        case Some(c) => if q + n < |s| && s[q + n] == c then Some(s[q..q + n]) else None
    else None
  }

  lemma CaptureAtSound(s: string, p: nat, pat: CapturePattern)
    requires CaptureAt(s, p, pat).Some?
    ensures MatchAt(s, p, pat, CaptureAt(s, p, pat).value)
  {
    var q := p + |pat.marker|;
    var w := CaptureAt(s, p, pat).value;
    assert w == s[q..q + |w|];
    forall j | 0 <= j < |w| ensures InClass(w[j], pat.cls) {
      assert w[j] == s[q + j];
    }
  }

  lemma CaptureAtComplete(s: string, p: nat, pat: CapturePattern, w: string)
    requires WellFormed(pat) && MatchAt(s, p, pat, w)
    ensures CaptureAt(s, p, pat) == Some(w)
  {
    var q := p + |pat.marker|;
    forall j | q <= j < q + |w| ensures InClass(s[j], pat.cls) {
      assert s[j] == w[j - q];
    }
    if q + |w| < |s| {
      RunExact(s, q, |w|, pat.cls);
    } else {
      assert Run(s, q, pat.cls) <= |w|;
    }
  }

  /** The first position at or after `from` where a match of `pat` starts. */
  function FirstFrom(s: string, pat: CapturePattern, from: nat): (r: Option<nat>)
    decreases |s| - from
    ensures r.Some? ==> from <= r.value <= |s|
  {
    if from > |s| then None
    else if CaptureAt(s, from, pat).Some? then Some(from)
    else FirstFrom(s, pat, from + 1)
  }

  /** FindStringSubmatch(s)[1]: the capture of the leftmost match, if any. */
  function Find(s: string, pat: CapturePattern): Option<string> {
    match FirstFrom(s, pat, 0)
    case None => None
    case Some(p) => CaptureAt(s, p, pat)
  }

  /** The job state `Reporting job state '<word>'` reports first in the log, if any. */
  function JobState(log: string): Option<string> {
    Find(log, StatePattern)
  }

  /** The token of the first `Ran for <token>` marker of the log, if any. */
  function DurationToken(log: string): Option<string> {
    Find(log, DurationPattern)
  }

  lemma {:induction false} FirstFromLeftmost(s: string, pat: CapturePattern, from: nat)
    decreases |s| - from
    ensures var r := FirstFrom(s, pat, from);
            && (r.Some? ==> CaptureAt(s, r.value, pat).Some?)
            && forall p: nat :: from <= p && (r.None? || p < r.value) ==> CaptureAt(s, p, pat).None?
  {
    if from <= |s| && CaptureAt(s, from, pat).None? {
      FirstFromLeftmost(s, pat, from + 1);
    }
    forall p: nat | p > |s| ensures CaptureAt(s, p, pat).None? {
      assert !OccursAt(s, pat.marker, p);
    }
  }

  /**
   * Find agrees with the declarative reading of the pattern: it reports nothing
   * exactly when nothing matches, and otherwise the capture of the leftmost match.
   */
  lemma FindSpec(s: string, pat: CapturePattern)
    requires WellFormed(pat)
    ensures Find(s, pat).None? <==> forall p: nat, w: string :: !MatchAt(s, p, pat, w)
    ensures Find(s, pat).Some? ==> FirstMatchAt(s, FirstFrom(s, pat, 0).value, pat, Find(s, pat).value)
  {
    FirstFromLeftmost(s, pat, 0);
    var r := FirstFrom(s, pat, 0);
    forall p: nat, w: string | MatchAt(s, p, pat, w) ensures r.Some? && r.value <= p {
      CaptureAtComplete(s, p, pat, w);
    }
    if r.Some? {
      CaptureAtSound(s, r.value, pat);
    }
  }

  /** The capture of the leftmost match is what Find reports. */
  lemma FindFirst(s: string, pat: CapturePattern, p: nat, w: string)
    requires WellFormed(pat) && FirstMatchAt(s, p, pat, w)
    ensures Find(s, pat) == Some(w)
  {
    FindSpec(s, pat);
    var r := FirstFrom(s, pat, 0).value;
    CaptureAtComplete(s, p, pat, w);
    FirstFromLeftmost(s, pat, 0);
    CaptureAtSound(s, r, pat);
  }

  /**
   * With a closing character, what follows a match cannot change it: appending
   * text to a log that already has a match leaves the leftmost capture as it is.
   * For the job-state marker this is why only its first occurrence decides.
   */
  lemma FindIgnoresSuffix(s: string, t: string, pat: CapturePattern)
    requires WellFormed(pat) && pat.closer.Some? && Find(s, pat).Some?
    ensures Find(s + t, pat) == Find(s, pat)
  {
    FindSpec(s, pat);
    var p := FirstFrom(s, pat, 0).value;
    var w := Find(s, pat).value;
    var q := p + |pat.marker|;
    var u := s + t;
    MatchExtend(s, t, p, pat, w);
    forall p': nat, w': string | p' < p ensures !MatchAt(u, p', pat, w') {
      MatchRestrict(s, t, p', pat, w', q + |w|);
    }
    FindFirst(u, pat, p, w);
  }

  /** A match with a closer inside `s` is still a match in `s + t`. */
  lemma MatchExtend(s: string, t: string, p: nat, pat: CapturePattern, w: string)
    requires pat.closer.Some? && MatchAt(s, p, pat, w)
    ensures MatchAt(s + t, p, pat, w)
  {
    var q := p + |pat.marker|;
    OccursExtend(s, t, pat.marker, p);
    assert (s + t)[q..q + |w|] == s[q..q + |w|];
    assert (s + t)[q + |w|] == s[q + |w|];
  }

  /**
   * A match in `s + t` that starts before a closer at index `e` of `s`
   * already lies inside `s`, when the closer cannot be part of a run.
   */
  lemma MatchRestrict(s: string, t: string, p: nat, pat: CapturePattern, w: string, e: nat)
    requires WellFormed(pat) && pat.closer.Some?
    requires p + |pat.marker| <= e < |s| && s[e] == pat.closer.value
    ensures MatchAt(s + t, p, pat, w) ==> MatchAt(s, p, pat, w)
  {
    var u := s + t;
    var q := p + |pat.marker|;
    if MatchAt(u, p, pat, w) {
      assert forall j :: q <= j < q + |w| ==> u[j] == w[j - q];
      assert !InClass(u[e], pat.cls);
      assert q + |w| <= e;
      OccursRestrict(s, t, pat.marker, p);
      assert u[q..q + |w|] == s[q..q + |w|];
      assert u[q + |w|] == s[q + |w|];
    }
  }

  lemma PatternsWellFormed()
    ensures WellFormed(StatePattern) && WellFormed(DurationPattern)
  {
  }

  // The failure-summary region `(?s)(Summarizing.*?Test Suite Failed)`.

  const SummaryStart := "Summarizing"
  const SummaryEnd := "Test Suite Failed"

  /** The region from the start marker at `i` to the end marker at `j` is a match. */
  ghost predicate RegionAt(s: string, i: nat, j: nat) {
    OccursAt(s, SummaryStart, i) && i + |SummaryStart| <= j && OccursAt(s, SummaryEnd, j)
  }

  /**
   * The match Go reports: the leftmost start, and for that start the nearest end
   * (the non-greedy `.*?`).
   */
  ghost predicate FirstRegionAt(s: string, i: nat, j: nat) {
    && RegionAt(s, i, j)
    && (forall i': nat, j': nat :: RegionAt(s, i', j') ==> i <= i')
    && (forall j': nat :: RegionAt(s, i, j') ==> j <= j')
  }

  /** Start and end-marker positions of the region: the first start marker, then the first end marker after it. */
  function RegionSpan(s: string): Option<(nat, nat)> {
    match IndexFrom(s, SummaryStart, 0)
    case None => None
    case Some(i) =>
      match IndexFrom(s, SummaryEnd, i + |SummaryStart|)
      case None => None
      case Some(j) => Some((i, j))
  }

  /** FindStringSubmatch(s)[1] for the region pattern. */
  function FailureRegion(s: string): (r: Option<string>) {
    match RegionSpan(s)
    case None => None
    case Some((i, j)) => Some(s[i..j + |SummaryEnd|])
  }

  /**
   * Taking the first start marker is enough: a later start marker has fewer end
   * markers after it, so the leftmost feasible start is always the first one.
   */
  lemma RegionSpanSpec(s: string)
    ensures RegionSpan(s).None? <==> forall i: nat, j: nat :: !RegionAt(s, i, j)
    ensures RegionSpan(s).Some? ==> FirstRegionAt(s, RegionSpan(s).value.0, RegionSpan(s).value.1)
  {
    IndexFromLeftmost(s, SummaryStart, 0);
    IndexFromOccurs(s, SummaryStart, 0);
    var ri := IndexFrom(s, SummaryStart, 0);
    if ri.Some? {
      var i := ri.value;
      var from := i + |SummaryStart|;
      IndexFromLeftmost(s, SummaryEnd, from);
      IndexFromOccurs(s, SummaryEnd, from);
      var rj := IndexFrom(s, SummaryEnd, from);
      forall i': nat, j': nat | RegionAt(s, i', j') ensures i <= i' && rj.Some? {
        assert OccursAt(s, SummaryStart, i');
        assert OccursAt(s, SummaryEnd, j');
      }
      if rj.Some? {
        assert RegionAt(s, i, rj.value);
      }
    }
  }

  /** The region Go reports is the one at the leftmost start and nearest end. */
  lemma FailureRegionFirst(s: string, i: nat, j: nat)
    requires FirstRegionAt(s, i, j)
    ensures RegionSpan(s) == Some((i, j))
    ensures FailureRegion(s) == Some(s[i..j + |SummaryEnd|])
  {
    RegionSpanSpec(s);
  }

  /** No region is reported exactly when no start marker has an end marker after it. */
  lemma FailureRegionNone(s: string)
    ensures FailureRegion(s).None? <==> forall i: nat, j: nat :: !RegionAt(s, i, j)
  {
    RegionSpanSpec(s);
  }
}
