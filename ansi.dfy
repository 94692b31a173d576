/**
 * RemoveANSIEscapeSequences of prow-ci/prow_summary.go: every match of
 * ESC '[' [0-9;]* [A-Za-z] is deleted, scanning from the left, matches not overlapping.
 */
module Ansi {
  import opened Matching

  const Esc: char := '\U{1B}'

  /** The escape-sequence language: ESC, '[', any number of digits or ';', one letter. */
  ghost predicate IsEscapeSequence(t: string) {
    && |t| >= 3
    && t[0] == Esc && t[1] == '['
    && InClass(t[|t| - 1], Letter)
    && forall j :: 2 <= j < |t| - 1 ==> InClass(t[j], Param)
  }

  /**
   * Length of the escape sequence that starts at `i`, or 0 when none does.
   * The greedy `[0-9;]*` takes the whole parameter run; the letter must follow it.
   */
  function SequenceLength(s: string, i: nat): (k: nat)
    requires i <= |s|
    ensures i + k <= |s|
    ensures k == 0 || k >= 3
  {
    if i + 2 <= |s| && s[i] == Esc && s[i + 1] == '[' then
      var n := Run(s, i + 2, Param);
      if i + 2 + n < |s| && InClass(s[i + 2 + n], Letter) then n + 3 else 0
    else 0
  }

  /** A positive length is an escape sequence. */
  lemma SequenceLengthSound(s: string, i: nat)
    requires i <= |s| && SequenceLength(s, i) > 0
    ensures IsEscapeSequence(s[i..i + SequenceLength(s, i)])
  {
    var k := SequenceLength(s, i);
    var t := s[i..i + k];
    forall j | 2 <= j < |t| - 1 ensures InClass(t[j], Param) {
      assert t[j] == s[i + j];
    }
  }

  /** Every escape sequence starting at `i` is the one SequenceLength measures. */
  lemma SequenceLengthComplete(s: string, i: nat, k: nat)
    requires i + k <= |s| && IsEscapeSequence(s[i..i + k])
    ensures SequenceLength(s, i) == k
  {
    var t := s[i..i + k];
    assert s[i] == t[0] && s[i + 1] == t[1];
    forall j | i + 2 <= j < i + k - 1 ensures InClass(s[j], Param) {
      assert s[j] == t[j - i];
    }
    assert s[i + k - 1] == t[k - 1];
    RunExact(s, i + 2, k - 3, Param);
  }

  /** RemoveANSIEscapeSequences: the text with every escape sequence deleted. */
  function Strip(s: string): (r: string)
    ensures |r| <= |s|
    decreases |s|
  {
    if s == [] then []
    else
      var k := SequenceLength(s, 0);
      if k > 0 then Strip(s[k..]) else [s[0]] + Strip(s[1..])
  }

  /** What the scan does with each part of the input: keep one character or drop one sequence. */
  datatype Step = Kept(c: char) | Dropped(span: string)

  /** The steps of the scan that Strip performs, in order. */
  function Scan(s: string): seq<Step>
    decreases |s|
  {
    if s == [] then []
    else
      var k := SequenceLength(s, 0);
      if k > 0 then [Dropped(s[..k])] + Scan(s[k..]) else [Kept(s[0])] + Scan(s[1..])
  }

  /** The input a list of steps consumed. */
  function Consumed(steps: seq<Step>): string {
    if steps == [] then []
    else (match steps[0] case Kept(c) => [c] case Dropped(t) => t) + Consumed(steps[1..])
  }

  /** The output a list of steps produced. */
  function Emitted(steps: seq<Step>): string {
    if steps == [] then []
    else (match steps[0] case Kept(c) => [c] case Dropped(_) => []) + Emitted(steps[1..])
  }

  /** The first step of a scan, and the scan of what is left. */
  lemma ScanStep(s: string)
    requires s != []
    ensures var k := SequenceLength(s, 0);
            Scan(s) == if k > 0 then [Dropped(s[..k])] + Scan(s[k..]) else [Kept(s[0])] + Scan(s[1..])
  {
  }

  lemma ConsumedCons(step: Step, rest: seq<Step>)
    ensures Consumed([step] + rest) == (match step case Kept(c) => [c] case Dropped(t) => t) + Consumed(rest)
  {
    assert ([step] + rest)[1..] == rest;
  }

  lemma EmittedCons(step: Step, rest: seq<Step>)
    ensures Emitted([step] + rest) == (match step case Kept(c) => [c] case Dropped(_) => []) + Emitted(rest)
  {
    assert ([step] + rest)[1..] == rest;
  }

  /** The steps of the scan consume the whole input, in order. */
  lemma {:induction false} ScanConsumesInput(s: string)
    ensures Consumed(Scan(s)) == s
    decreases |s|
  {
    if s != [] {
      var k := SequenceLength(s, 0);
      ScanStep(s);
      if k > 0 {
        ScanConsumesInput(s[k..]);
        ConsumedCons(Dropped(s[..k]), Scan(s[k..]));
        assert s == s[..k] + s[k..];
      } else {
        ScanConsumesInput(s[1..]);
        ConsumedCons(Kept(s[0]), Scan(s[1..]));
        assert s == [s[0]] + s[1..];
      }
    }
  }

  /** What the scan keeps is exactly what Strip returns. */
  lemma {:induction false} ScanEmitsStrip(s: string)
    ensures Emitted(Scan(s)) == Strip(s)
    decreases |s|
  {
    if s != [] {
      var k := SequenceLength(s, 0);
      ScanStep(s);
      if k > 0 {
        ScanEmitsStrip(s[k..]);
        EmittedCons(Dropped(s[..k]), Scan(s[k..]));
      } else {
        ScanEmitsStrip(s[1..]);
        EmittedCons(Kept(s[0]), Scan(s[1..]));
      }
    }
  }

  /** Every span the scan drops is an escape sequence. */
  lemma {:induction false} ScanDropsSequences(s: string)
    ensures forall j :: 0 <= j < |Scan(s)| && Scan(s)[j].Dropped? ==> IsEscapeSequence(Scan(s)[j].span)
    decreases |s|
  {
    if s != [] {
      var k := SequenceLength(s, 0);
      ScanStep(s);
      if k > 0 {
        ScanDropsSequences(s[k..]);
        SequenceLengthSound(s, 0);
        assert s[..k] == s[0..0 + k];
      } else {
        ScanDropsSequences(s[1..]);
      }
    }
  }

  /**
   * Strip deletes escape sequences and nothing else: the steps of its scan consume
   * the whole input in order, what they keep is its output, and every span they
   * drop is an escape sequence.
   */
  lemma StripDeletesOnlySequences(s: string)
    ensures Consumed(Scan(s)) == s
    ensures Emitted(Scan(s)) == Strip(s)
    ensures forall j :: 0 <= j < |Scan(s)| && Scan(s)[j].Dropped? ==> IsEscapeSequence(Scan(s)[j].span)
  {
    ScanConsumesInput(s);
    ScanEmitsStrip(s);
    ScanDropsSequences(s);
  }

  /** A text that begins with an escape sequence loses exactly that sequence, and the rest is stripped. */
  lemma StripDropsLeadingSequence(s: string, k: nat)
    requires k <= |s| && IsEscapeSequence(s[..k])
    ensures Strip(s) == Strip(s[k..])
  {
    assert s[0..0 + k] == s[..k];
    SequenceLengthComplete(s, 0, k);
  }

  /** What SequenceLength measures at the start of a text is an escape sequence beginning there. */
  lemma SequenceAtStart(s: string)
    ensures SequenceLength(s, 0) > 0 ==> IsEscapeSequence(s[..SequenceLength(s, 0)])
  {
    var k := SequenceLength(s, 0);
    if k > 0 {
      SequenceLengthSound(s, 0);
      assert s[0..0 + k] == s[..k];
    }
  }

  /** A text that does not begin with an escape sequence keeps its first character. */
  lemma StripKeepsNonSequenceStart(s: string)
    requires s != []
    requires forall k: nat :: k <= |s| ==> !IsEscapeSequence(s[..k])
    ensures Strip(s) == [s[0]] + Strip(s[1..])
  {
    SequenceAtStart(s);
  }

  /** Text without an escape character comes back unchanged. */
  lemma {:induction false} StripWithoutEsc(s: string)
    requires Esc !in s
    ensures Strip(s) == s
    decreases |s|
  {
    if s != [] {
      assert SequenceLength(s, 0) == 0;
      assert Esc !in s[1..];
      StripWithoutEsc(s[1..]);
      assert s == [s[0]] + s[1..];
    }
  }

  /**
   * Stripping is not idempotent: deleting the inner sequence of
   * ESC ESC '[' 'm' '[' 'm' joins the outer ESC with "[m" into a new one.
   */
  lemma StripNotIdempotent()
    ensures Strip("\U{1B}\U{1B}[m[m") == "\U{1B}[m"
    ensures Strip(Strip("\U{1B}\U{1B}[m[m")) == ""
  {
    var s := "\U{1B}\U{1B}[m[m";
    assert SequenceLength(s, 0) == 0;
    var t := s[1..];
    assert t == "\U{1B}[m[m";
    assert Run(t, 2, Param) == 0;
    assert SequenceLength(t, 0) == 3;
    assert t[3..] == "[m";
    var u := "[m";
    assert SequenceLength(u, 0) == 0;
    assert SequenceLength(u[1..], 0) == 0;
    assert Strip(u[1..][1..]) == "";
    assert Strip(u[1..]) == "m";
    assert Strip(u) == "[m";
    assert Strip(t) == "[m";
    assert Strip(s) == [Esc] + "[m";
    var v := "\U{1B}[m";
    assert Run(v, 2, Param) == 0;
    assert SequenceLength(v, 0) == 3;
    assert Strip(v) == Strip(v[3..]) == "";
  }
}
