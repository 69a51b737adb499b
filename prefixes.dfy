/**
 * Prefixes of placements: both backtracking searches extend a partial answer
 * one entry at a time, and a complete answer "starts with" every partial answer
 * it was built from.
 */
module Prefixes {

  ghost predicate IsPrefix(p: seq<int>, s: seq<int>) {
    |p| <= |s| && s[..|p|] == p
  }

  /** The entry after `p` in `s` extends the prefix by one. */
  lemma PrefixOfNext(s: seq<int>, p: seq<int>)
    requires IsPrefix(p, s) && |p| < |s|
    ensures IsPrefix(p + [s[|p|]], s)
  {
    assert s[..|p| + 1] == s[..|p|] + [s[|p|]];
  }

  /** A prefix of a prefix is a prefix. */
  lemma PrefixOfPrefix(p: seq<int>, q: seq<int>, s: seq<int>)
    requires IsPrefix(q, s) && |p| <= |q| && q[..|p|] == p
    ensures IsPrefix(p, s)
  {
    assert s[..|p|] == s[..|q|][..|p|];
  }

  /** The only answer of length `|p|` that starts with `p` is `p` itself. */
  lemma PrefixSameLength(p: seq<int>, s: seq<int>)
    requires IsPrefix(p, s) && |s| == |p|
    ensures s == p
  {
    assert s == s[..|p|];
  }
}
