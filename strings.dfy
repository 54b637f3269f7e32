/** The two functions of Go's strings package that pkg/link and pkg/crawler call. */
module Strings {

  /** strings.HasPrefix: `s` begins with `prefix`. */
  predicate HasPrefix(s: string, prefix: string)
  {
    |prefix| <= |s| && s[..|prefix|] == prefix
  }

  /** The characters Go's unicode.IsSpace accepts (the Unicode White_Space property). */
  predicate IsSpace(c: char)
  {
    c == ' ' || c == '\t' || c == '\n' || c == '\U{0B}' || c == '\U{0C}' || c == '\r'
    || c == '\U{85}' || c == '\U{A0}' || c == '\U{1680}'
    || ('\U{2000}' <= c <= '\U{200A}')
    || c == '\U{2028}' || c == '\U{2029}' || c == '\U{202F}' || c == '\U{205F}' || c == '\U{3000}'
  }

  /** The index of the first character of `s` at or after `i` that is not white space (|s| when
      there is none). */
  function SkipLeading(s: string, i: nat): (r: nat)
    requires i <= |s|
    ensures i <= r <= |s|
    ensures r < |s| ==> !IsSpace(s[r])
    decreases |s| - i
  {
    if i < |s| && IsSpace(s[i]) then SkipLeading(s, i + 1) else i
  }

  /** The end of `s[lo..j]` once its trailing white space is dropped. */
  function SkipTrailing(s: string, lo: nat, j: nat): (r: nat)
    requires lo <= j <= |s|
    ensures lo <= r <= j
    ensures r > lo ==> !IsSpace(s[r - 1])
    decreases j
  {
    if j > lo && IsSpace(s[j - 1]) then SkipTrailing(s, lo, j - 1) else j
  }

  /** Everything SkipLeading steps over is white space. */
  lemma {:induction false} SkipLeadingSpaces(s: string, i: nat)
    requires i <= |s|
    ensures forall k :: i <= k < SkipLeading(s, i) ==> IsSpace(s[k])
    decreases |s| - i
  {
    if i < |s| && IsSpace(s[i]) {
      SkipLeadingSpaces(s, i + 1);
    }
  }

  /** Everything SkipTrailing steps over is white space. */
  lemma {:induction false} SkipTrailingSpaces(s: string, lo: nat, j: nat)
    requires lo <= j <= |s|
    ensures forall k :: SkipTrailing(s, lo, j) <= k < j ==> IsSpace(s[k])
    decreases j
  {
    if j > lo && IsSpace(s[j - 1]) {
      SkipTrailingSpaces(s, lo, j - 1);
    }
  }

  /** `r` is the slice of `s` starting at `i`, and everything of `s` around it is white space. */
  ghost predicate SpaceAround(s: string, r: string, i: int)
  {
    0 <= i <= |s| - |r| && r == s[i..i + |r|]
    && (forall k :: 0 <= k < i ==> IsSpace(s[k]))
    && (forall k :: i + |r| <= k < |s| ==> IsSpace(s[k]))
  }

  /** strings.TrimSpace: the slice of `s` left after removing white space at both ends. */
  function TrimSpace(s: string): (r: string)
    ensures |r| <= |s|
    ensures r != [] ==> !IsSpace(r[0]) && !IsSpace(r[|r| - 1])
  {
    var l := SkipLeading(s, 0);
    s[l..SkipTrailing(s, l, |s|)]
  }

  /** The trim is a slice of `s` with only white space around it. */
  lemma TrimSpaceSlice(s: string)
    ensures exists i :: SpaceAround(s, TrimSpace(s), i)
  {
    var l := SkipLeading(s, 0);
    SkipLeadingSpaces(s, 0);
    SkipTrailingSpaces(s, l, |s|);
    assert SpaceAround(s, TrimSpace(s), l);
  }

  /** A string with no white space at either end is its own trim. */
  lemma TrimSpaceKeeps(s: string)
    requires s == [] || (!IsSpace(s[0]) && !IsSpace(s[|s| - 1]))
    ensures TrimSpace(s) == s
  {
    assert s[0..|s|] == s;
  }

  /** Trimming twice is trimming once. */
  lemma TrimSpaceIdempotent(s: string)
    ensures TrimSpace(TrimSpace(s)) == TrimSpace(s)
  {
    TrimSpaceKeeps(TrimSpace(s));
  }
}
