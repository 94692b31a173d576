/** strings.TrimSpace and the white-space test it uses. */
module Trim {

  /**
   * unicode.IsSpace, the test strings.TrimSpace applies: the ASCII spaces
   * \t \n \v \f \r and ' ', U+0085, U+00A0, and the other Unicode White_Space characters.
   */
  predicate IsSpace(c: char) {
    c == '\t' || c == '\n' || c == '\U{0B}' || c == '\U{0C}' || c == '\r' || c == ' '
    || c == '\U{85}' || c == '\U{A0}' || c == '\U{1680}'
    || ('\U{2000}' <= c <= '\U{200A}')
    || c == '\U{2028}' || c == '\U{2029}' || c == '\U{202F}' || c == '\U{205F}' || c == '\U{3000}'
  }

  /** How many white-space characters `s` begins with. */
  function LeadingSpaces(s: string): (n: nat)
    ensures n <= |s|
    ensures forall i :: 0 <= i < n ==> IsSpace(s[i])
    ensures n == |s| || !IsSpace(s[n])
  {
    if s != [] && IsSpace(s[0]) then 1 + LeadingSpaces(s[1..]) else 0
  }

  /** How many white-space characters `s` ends with. */
  function TrailingSpaces(s: string): (n: nat)
    ensures n <= |s|
    ensures forall i :: |s| - n <= i < |s| ==> IsSpace(s[i])
    ensures n == |s| || !IsSpace(s[|s| - n - 1])
  {
    if s != [] && IsSpace(s[|s| - 1]) then 1 + TrailingSpaces(s[..|s| - 1]) else 0
  }

  /**
   * strings.TrimSpace: `s` with leading and trailing white space removed;
   * the result neither begins nor ends with white space.
   */
  function TrimSpace(s: string): (r: string)
    ensures |r| <= |s|
    ensures r != [] ==> !IsSpace(r[0]) && !IsSpace(r[|r| - 1])
  {
    var t := s[LeadingSpaces(s)..];
    t[..|t| - TrailingSpaces(t)]
  }

  /** The trimmed text is the slice of `s` that starts after the leading white space. */
  lemma TrimSpaceIsSlice(s: string)
    ensures var lo, r := LeadingSpaces(s), TrimSpace(s);
            lo + |r| <= |s| && r == s[lo..lo + |r|]
  {
  }

  /** What trimming removes, on either side, is white space only. */
  lemma TrimSpaceRemovesSpace(s: string)
    ensures var lo, r := LeadingSpaces(s), TrimSpace(s);
            lo + |r| <= |s|
            && (forall i :: 0 <= i < lo ==> IsSpace(s[i]))
            && (forall i :: lo + |r| <= i < |s| ==> IsSpace(s[i]))
  {
    var lo := LeadingSpaces(s);
    var t := s[lo..];
    var r := TrimSpace(s);
    forall i | lo + |r| <= i < |s| ensures IsSpace(s[i]) {
      assert s[i] == t[i - lo];
    }
  }

  /** Trimming keeps only characters of the input. */
  lemma TrimSpaceAvoids(s: string, c: char)
    requires c !in s
    ensures c !in TrimSpace(s)
  {
    TrimSpaceIsSlice(s);
    var r := TrimSpace(s);
    var lo := LeadingSpaces(s);
    forall i | 0 <= i < |r| ensures r[i] != c {
      assert r[i] == s[lo + i];
    }
  }

  /** A text with no white space at either end is its own trim. */
  lemma TrimSpaceKeeps(s: string)
    requires s != [] && !IsSpace(s[0]) && !IsSpace(s[|s| - 1])
    ensures TrimSpace(s) == s
  {
  }
}
