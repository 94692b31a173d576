/**
 * The building blocks of the fixed regular expressions the log tools use:
 * literal occurrences, leftmost search, and maximal runs of a character class.
 * Only these pieces are needed; no general regular-expression engine is modelled.
 */
module Matching {
  import opened Wrappers

  /** The character classes that occur in the tools' patterns. */
  datatype CharClass =
    | Word      // `\w`, ASCII only as in Go's RE2 syntax: [0-9A-Za-z_]
    | Duration  // `[\dhms]`
    | Param     // `[0-9;]`
    | Letter    // `[a-zA-Z]`

  predicate InClass(c: char, cls: CharClass) {
    match cls
    case Word => '0' <= c <= '9' || 'A' <= c <= 'Z' || 'a' <= c <= 'z' || c == '_'
    case Duration => '0' <= c <= '9' || c == 'h' || c == 'm' || c == 's'
    case Param => '0' <= c <= '9' || c == ';'
    case Letter => 'A' <= c <= 'Z' || 'a' <= c <= 'z'
  }

  /** The literal `pat` occurs in `s` starting at index `i`. */
  predicate OccursAt(s: string, pat: string, i: nat) {
    i + |pat| <= |s| && s[i..i + |pat|] == pat
  }

  /** `pat` occurs nowhere in `s`. */
  ghost predicate Free(s: string, pat: string) {
    forall i: nat :: !OccursAt(s, pat, i)
  }

  /** Leftmost occurrence of `pat` in `s` at or after index `from` (Go's strings.Index, shifted). */
  function IndexFrom(s: string, pat: string, from: nat): (r: Option<nat>)
    decreases |s| - from
    ensures r.Some? ==> from <= r.value && r.value + |pat| <= |s|
  {
    if from + |pat| > |s| then None
    else if s[from..from + |pat|] == pat then Some(from)
    else IndexFrom(s, pat, from + 1)
  }

  /** What the search returns is an occurrence. */
  lemma {:induction false} IndexFromOccurs(s: string, pat: string, from: nat)
    decreases |s| - from
    ensures var r := IndexFrom(s, pat, from);
            r.Some? ==> OccursAt(s, pat, r.value)
  {
    if from + |pat| <= |s| && s[from..from + |pat|] != pat {
      IndexFromOccurs(s, pat, from + 1);
    }
  }

  /** The search is leftmost: no occurrence lies between `from` and what it returns. */
  lemma {:induction false} IndexFromLeftmost(s: string, pat: string, from: nat)
    decreases |s| - from
    ensures var r := IndexFrom(s, pat, from);
            forall i: nat :: from <= i && (r.None? || i < r.value) ==> !OccursAt(s, pat, i)
  {
    if from + |pat| <= |s| && s[from..from + |pat|] != pat {
      IndexFromLeftmost(s, pat, from + 1);
    }
  }

  /** The search finds `k` when `k` is an occurrence and nothing before it is. */
  lemma IndexFromFinds(s: string, pat: string, from: nat, k: nat)
    requires from <= k && OccursAt(s, pat, k)
    requires forall i: nat :: from <= i < k ==> !OccursAt(s, pat, i)
    ensures IndexFrom(s, pat, from) == Some(k)
  {
    IndexFromLeftmost(s, pat, from);
    IndexFromOccurs(s, pat, from);
  }

  /** The search fails when there is no occurrence from `from` on. */
  lemma IndexFromMisses(s: string, pat: string, from: nat)
    requires forall i: nat :: from <= i ==> !OccursAt(s, pat, i)
    ensures IndexFrom(s, pat, from) == None
  {
    IndexFromOccurs(s, pat, from);
  }

  /** An occurrence inside `a` is still an occurrence once text is appended to `a`. */
  lemma OccursExtend(a: string, b: string, pat: string, i: nat)
    ensures OccursAt(a, pat, i) ==> OccursAt(a + b, pat, i)
  {
    if OccursAt(a, pat, i) {
      assert (a + b)[i..i + |pat|] == a[i..i + |pat|];
    }
  }

  /** An occurrence that ends inside `a` is already an occurrence in `a`. */
  lemma OccursRestrict(a: string, b: string, pat: string, i: nat)
    requires i + |pat| <= |a|
    ensures OccursAt(a + b, pat, i) ==> OccursAt(a, pat, i)
  {
    assert (a + b)[i..i + |pat|] == a[i..i + |pat|];
  }

  /** An occurrence cuts the text into what precedes it, the literal, and what follows. */
  lemma OccursSplit(s: string, pat: string, i: nat)
    requires OccursAt(s, pat, i)
    ensures s == s[..i] + pat + s[i + |pat|..]
  {
    assert s[i..i + |pat|] == pat;
  }

  /**
   * Length of the longest run of characters of class `cls` starting at `i`:
   * what a greedy `[...]*` consumes there.
   */
  function Run(s: string, i: nat, cls: CharClass): (k: nat)
    requires i <= |s|
    decreases |s| - i
    ensures i + k <= |s|
    ensures forall j :: i <= j < i + k ==> InClass(s[j], cls)
    ensures i + k == |s| || !InClass(s[i + k], cls)
  {
    if i < |s| && InClass(s[i], cls) then 1 + Run(s, i + 1, cls) else 0
  }

  /**
   * A run of class `cls` that is followed by a character outside the class
   * is exactly as long as the maximal run: nothing shorter or longer fits.
   */
  lemma RunExact(s: string, i: nat, n: nat, cls: CharClass)
    requires i + n < |s|
    requires forall j :: i <= j < i + n ==> InClass(s[j], cls)
    requires !InClass(s[i + n], cls)
    ensures Run(s, i, cls) == n
  {
  }
}
