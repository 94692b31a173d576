/**
 * The three functions of Go's `strings` package the tools rely on
 * (Split, Join, TrimSpace), with the round trips between Split and Join.
 */
module Text {
  import opened Wrappers
  import opened Matching

  /**
   * strings.Split with a non-empty separator: the pieces between the
   * leftmost non-overlapping occurrences of `sep`, always at least one piece.
   * SplitAtLeftmost and SplitFree say which occurrences those are.
   */
  function Split(s: string, sep: string): (parts: seq<string>)
    requires sep != []
    decreases |s|
    ensures |parts| >= 1
  {
    var r := IndexFrom(s, sep, 0);
    if r.None? then [s] else [s[..r.value]] + Split(s[r.value + |sep|..], sep)
  }

  /** strings.Join: the pieces with `sep` between consecutive ones. */
  function Join(parts: seq<string>, sep: string): string {
    if |parts| == 0 then ""
    else if |parts| == 1 then parts[0]
    else parts[0] + sep + Join(parts[1..], sep)
  }

  /** Joining the pieces a split produced gives back the original text. */
  lemma {:induction false} JoinSplit(s: string, sep: string)
    requires sep != []
    ensures Join(Split(s, sep), sep) == s
    decreases |s|
  {
    var r := IndexFrom(s, sep, 0);
    if r.Some? {
      var i := r.value;
      var rest := s[i + |sep|..];
      SplitAt(s, sep, i);
      JoinSplit(rest, sep);
      JoinCons(s[..i], Split(rest, sep), sep);
      IndexFromOccurs(s, sep, 0);
      OccursSplit(s, sep, i);
    }
  }

  /** One step of a split: the piece before the leftmost separator, then the split of the rest. */
  lemma SplitAt(s: string, sep: string, i: nat)
    requires sep != [] && IndexFrom(s, sep, 0) == Some(i)
    ensures Split(s, sep) == [s[..i]] + Split(s[i + |sep|..], sep)
  {
    var r := IndexFrom(s, sep, 0);
    assert r == Some(i);
  }

  /** One step of a join. */
  lemma JoinCons(head: string, tail: seq<string>, sep: string)
    requires |tail| >= 1
    ensures Join([head] + tail, sep) == head + sep + Join(tail, sep)
  {
    assert ([head] + tail)[1..] == tail;
  }

  /** No piece of a split contains the separator. */
  lemma {:induction false} SplitPiecesFree(s: string, sep: string)
    requires sep != []
    ensures forall k :: 0 <= k < |Split(s, sep)| ==> Free(Split(s, sep)[k], sep)
    decreases |s|
  {
    var r := IndexFrom(s, sep, 0);
    IndexFromLeftmost(s, sep, 0);
    if r.Some? {
      var i := r.value;
      var head, rest := s[..i], s[i + |sep|..];
      SplitPiecesFree(rest, sep);
      assert s == head + s[i..];
      forall j: nat ensures !OccursAt(head, sep, j) {
        OccursExtend(head, s[i..], sep, j);
      }
      SplitAt(s, sep, i);
    } else {
      SplitWhole(s, sep);
    }
  }

  /**
   * `p` followed by `sep`: the first occurrence of `sep` is the appended one.
   * This is what a piece needs so that a split recovers it from a join.
   */
  ghost predicate SeparatesCleanly(p: string, sep: string) {
    forall i: nat :: i < |p| ==> !OccursAt(p + sep, sep, i)
  }

  /** Splitting a join gives back the pieces, when each piece separates cleanly. */
  lemma {:induction false} SplitJoin(parts: seq<string>, sep: string)
    requires sep != [] && |parts| >= 1
    requires forall k :: 0 <= k < |parts| ==> SeparatesCleanly(parts[k], sep)
    ensures Split(Join(parts, sep), sep) == parts
    decreases |parts|
  {
    var p := parts[0];
    assert SeparatesCleanly(p, sep);
    if |parts| == 1 {
      forall i: nat ensures !OccursAt(p, sep, i) {
        OccursExtend(p, sep, sep, i);
      }
      IndexFromMisses(p, sep, 0);
      SplitWhole(p, sep);
    } else {
      var tail := parts[1..];
      var rest := Join(tail, sep);
      var s := p + sep + rest;
      JoinCons(p, tail, sep);
      assert [p] + tail == parts;
      CleanFirstOccurrence(p, sep, rest);
      SplitAt(s, sep, |p|);
      assert s[..|p|] == p;
      assert s[|p| + |sep|..] == rest;
      SplitJoin(tail, sep);
    }
  }

  /**
   * The first piece ends at the leftmost occurrence of the separator. With a
   * self-overlapping separator ("aa" in "aaa") this fixes which occurrence is cut.
   */
  lemma SplitAtLeftmost(s: string, sep: string, i: nat)
    requires sep != [] && OccursAt(s, sep, i)
    requires forall j: nat :: j < i ==> !OccursAt(s, sep, j)
    ensures Split(s, sep) == [s[..i]] + Split(s[i + |sep|..], sep)
  {
    IndexFromFinds(s, sep, 0, i);
    SplitAt(s, sep, i);
  }

  /** A text in which the separator does not occur splits into itself alone. */
  lemma SplitFree(s: string, sep: string)
    requires sep != [] && Free(s, sep)
    ensures Split(s, sep) == [s]
  {
    IndexFromMisses(s, sep, 0);
    SplitWhole(s, sep);
  }

  /** A text without the separator splits into itself alone. */
  lemma SplitWhole(s: string, sep: string)
    requires sep != [] && IndexFrom(s, sep, 0) == None
    ensures Split(s, sep) == [s]
  {
  }

  /** Behind a piece that separates cleanly, the first separator is the appended one. */
  lemma CleanFirstOccurrence(p: string, sep: string, rest: string)
    requires sep != [] && SeparatesCleanly(p, sep)
    ensures IndexFrom(p + sep + rest, sep, 0) == Some(|p|)
  {
    var s := p + sep + rest;
    assert s[|p|..|p| + |sep|] == sep;
    forall i: nat | i < |p| ensures !OccursAt(s, sep, i) {
      assert s == (p + sep) + rest;
      OccursRestrict(p + sep, rest, sep, i);
    }
    IndexFromFinds(s, sep, 0, |p|);
  }

  /** A line without a newline separates cleanly on "\n". */
  lemma NewlineFreeSeparates(p: string)
    requires '\n' !in p
    ensures SeparatesCleanly(p, "\n")
  {
    forall i: nat | i < |p| ensures !OccursAt(p + "\n", "\n", i) {
      assert (p + "\n")[i] == p[i];
    }
  }

  /** A name without ", " separates cleanly on ", ". */
  lemma CommaFreeSeparates(p: string)
    requires Free(p, ", ")
    ensures SeparatesCleanly(p, ", ")
  {
    forall i: nat | i < |p| ensures !OccursAt(p + ", ", ", ", i) {
      if i + 2 <= |p| {
        assert (p + ", ")[i..i + 2] == p[i..i + 2];
        assert !OccursAt(p, ", ", i);
      } else {
        assert (p + ", ")[i + 1] == ',';
      }
    }
  }

  /** A join contains a character only if a piece or the separator does. */
  lemma {:induction false} JoinAvoids(parts: seq<string>, sep: string, c: char)
    requires c !in sep
    requires forall k :: 0 <= k < |parts| ==> c !in parts[k]
    ensures c !in Join(parts, sep)
    decreases |parts|
  {
    if |parts| > 1 {
      JoinAvoids(parts[1..], sep, c);
    }
  }
}
