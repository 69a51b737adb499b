/**
 * What both string-search executables promise: the index of the first
 * occurrence of the pattern in the text, or -1 when there is none.
 */
module StringMatch {

  /** `pattern` occurs in `text` starting at position `s`. */
  ghost predicate MatchAt(text: string, pattern: string, s: int) {
    0 <= s && s + |pattern| <= |text| && text[s..s + |pattern|] == pattern
  }

  /** No occurrence of `pattern` starts before position `bound`. */
  ghost predicate NoneBefore(text: string, pattern: string, bound: int) {
    forall s :: 0 <= s < bound ==> !MatchAt(text, pattern, s)
  }

  /** `pattern` occurs nowhere in `text`. */
  ghost predicate Nowhere(text: string, pattern: string) {
    forall s :: !MatchAt(text, pattern, s)
  }

  /** `r` is what a search reports: the first occurrence, or -1 when there is none. */
  ghost predicate IsFirst(text: string, pattern: string, r: int) {
    || (r == -1 && Nowhere(text, pattern))
    || (MatchAt(text, pattern, r) && NoneBefore(text, pattern, r))
  }

  /** The report is determined by the text and the pattern, so any two correct searches agree. */
  lemma FirstUnique(text: string, pattern: string, r1: int, r2: int)
    requires IsFirst(text, pattern, r1) && IsFirst(text, pattern, r2)
    ensures r1 == r2
  {
  }

  /** An occurrence seen character by character is an occurrence. */
  lemma MatchByChars(text: string, pattern: string, s: int)
    requires 0 <= s && s + |pattern| <= |text|
    requires forall k :: 0 <= k < |pattern| ==> text[s + k] == pattern[k]
    ensures MatchAt(text, pattern, s)
  {
    assert text[s..s + |pattern|] == pattern;
  }

  /** One differing character rules an occurrence out. */
  lemma MismatchAt(text: string, pattern: string, s: int, k: int)
    requires 0 <= k < |pattern| && 0 <= s && s + k < |text| && text[s + k] != pattern[k]
    ensures !MatchAt(text, pattern, s)
  {
    if s + |pattern| <= |text| {
      assert text[s..s + |pattern|][k] == text[s + k];
    }
  }

  /** Ruling out position `i` extends the occurrence-free prefix by one. */
  lemma NoneBeforeStep(text: string, pattern: string, i: int, next: int)
    requires NoneBefore(text, pattern, i) && !MatchAt(text, pattern, i) && next == i + 1
    ensures NoneBefore(text, pattern, next)
  {
  }
}
