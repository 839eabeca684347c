/** The string operations the converter relies on: str.strip(), str.endswith() and
    the first field of str.split('.'). */
module Text {

  /** The characters Python's str.isspace() accepts; str.strip() with no argument
      removes exactly these from both ends. */
  predicate IsSpace(c: char) {
    || ('\t' <= c <= '\r')               // tab, line feed, vertical tab, form feed, carriage return
    || ('\U{1c}' <= c <= '\U{1f}')       // information separators
    || c == ' '
    || c == '\U{85}' || c == '\U{a0}' || c == '\U{1680}'
    || ('\U{2000}' <= c <= '\U{200a}')
    || c == '\U{2028}' || c == '\U{2029}' || c == '\U{202f}' || c == '\U{205f}' || c == '\U{3000}'
  }

  /** The first index at or after i that is not whitespace (|s| when there is none). */
  function SkipSpaceForward(s: string, i: nat): (k: nat)
    requires i <= |s|
    ensures i <= k <= |s|
    ensures forall m :: i <= m < k ==> IsSpace(s[m])
    ensures k < |s| ==> !IsSpace(s[k])
    decreases |s| - i
  {
    if i < |s| && IsSpace(s[i]) then SkipSpaceForward(s, i + 1) else i
  }

  /** Moving hi down towards lo past whitespace: s[lo..k] ends with a non-space unless empty. */
  function SkipSpaceBackward(s: string, lo: nat, hi: nat): (k: nat)
    requires lo <= hi <= |s|
    ensures lo <= k <= hi
    ensures forall m :: k <= m < hi ==> IsSpace(s[m])
    ensures k > lo ==> !IsSpace(s[k - 1])
    decreases hi
  {
    if hi > lo && IsSpace(s[hi - 1]) then SkipSpaceBackward(s, lo, hi - 1) else hi
  }

  /** s is r with only whitespace before it (lo characters of it) and after it. */
  ghost predicate SurroundedBySpace(s: string, lo: nat, r: string) {
    && lo + |r| <= |s| && r == s[lo..lo + |r|]
    && (forall i :: 0 <= i < lo ==> IsSpace(s[i]))
    && (forall i :: lo + |r| <= i < |s| ==> IsSpace(s[i]))
  }

  /** Python's s.strip(): the infix of s left after removing the whitespace at both ends. */
  function Strip(s: string): (r: string)
    ensures r == [] || (!IsSpace(r[0]) && !IsSpace(r[|r| - 1]))
    ensures exists lo :: SurroundedBySpace(s, lo, r)
    ensures r == [] <==> forall i :: 0 <= i < |s| ==> IsSpace(s[i])
  {
    var lo := SkipSpaceForward(s, 0);
    var hi := SkipSpaceBackward(s, lo, |s|);
    assert lo < |s| ==> lo < hi;
    assert SurroundedBySpace(s, lo, s[lo..hi]);
    s[lo..hi]
  }

  /** A string without whitespace at either end is left as it is by Strip. */
  lemma StripKeepsTrimmed(s: string)
    requires s == [] || (!IsSpace(s[0]) && !IsSpace(s[|s| - 1]))
    ensures Strip(s) == s
  {
    var lo: nat :| SurroundedBySpace(s, lo, Strip(s));
    if s != [] {
      assert !IsSpace(s[0]);
      assert Strip(s) != [];
      assert lo == 0;
      assert lo + |Strip(s)| == |s|;
    }
  }

  /** Stripping twice is stripping once. */
  lemma StripIdempotent(s: string)
    ensures Strip(Strip(s)) == Strip(s)
  {
    StripKeepsTrimmed(Strip(s));
  }

  /** Python's s.endswith(suffix). */
  predicate EndsWith(s: string, suffix: string) {
    |suffix| <= |s| && s[|s| - |suffix|..] == suffix
  }

  /** Python's s.split('.')[0]: the text before the first '.', or all of s when it has none. */
  function BeforeFirstDot(s: string): (b: string)
    ensures |b| <= |s| && b == s[..|b|]
    ensures '.' !in b
    ensures |b| < |s| ==> s[|b|] == '.'
  {
    if |s| == 0 || s[0] == '.' then "" else [s[0]] + BeforeFirstDot(s[1..])
  }

  /** A position before k lies in the prefix of length k. */
  lemma InPrefix(s: string, k: nat, j: nat)
    requires k <= |s|
    ensures j < k ==> s[j] in s[..k]
  {
    if j < k {
      assert s[..k][j] == s[j];
    }
  }
}
