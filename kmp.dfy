/**
 * The KMP executable: `lpsarray` fills the longest-proper-prefix-suffix table
 * of the pattern, `KMPSearch` scans the text once with it, and `main` picks
 * the text and the pattern from the command line or the defaults.
 */
module Kmp {
  import opened StringMatch

  /** `k` is the length of a proper prefix of `p[..q]` that is also a suffix of it (a border). */
  ghost predicate BorderOf(p: string, q: int, k: int) {
    0 <= k < q <= |p| && p[..k] == p[q - k..q]
  }

  /** `v` is the longest border of `p[..q]`. */
  ghost predicate LongestBorder(p: string, q: int, v: int) {
    BorderOf(p, q, v) && forall k :: BorderOf(p, q, k) ==> k <= v
  }

  /** The first `n` entries of `lps` are right: `lps[i]` is the longest border of `p[..i+1]`. */
  ghost predicate LpsFilled(p: string, lps: seq<int>, n: int) {
    n <= |lps| && forall i :: 0 <= i < n ==> LongestBorder(p, i + 1, lps[i])
  }

  /** A longer border of `p[..q+1]` ends in a border of `p[..q]` followed by a matching character. */
  lemma BorderShrink(p: string, q: int, k: int, c: int)
    requires BorderOf(p, q + 1, c) && c == k + 1 && k >= 0
    ensures BorderOf(p, q, k) && p[k] == p[q]
  {
    assert p[..c][..k] == p[..k];
    assert p[q + 1 - c..q + 1][..k] == p[q - k..q];
    assert p[..c][k] == p[k];
    assert p[q + 1 - c..q + 1][k] == p[q];
  }

  /** A border of `p[..q]` followed by a matching character is a border of `p[..q+1]`. */
  lemma BorderExtend(p: string, q: int, k: int, c: int)
    requires BorderOf(p, q, k) && q < |p| && p[k] == p[q] && c == k + 1
    ensures BorderOf(p, q + 1, c)
  {
    assert p[..c] == p[..k] + [p[k]];
    assert p[q + 1 - c..q + 1] == p[q - k..q] + [p[q]];
  }

  /** A border of a border is a border. */
  lemma BorderOfBorder(p: string, q: int, k: int, k2: int)
    requires BorderOf(p, q, k) && BorderOf(p, k, k2)
    ensures BorderOf(p, q, k2)
  {
    assert p[q - k..q][k - k2..] == p[q - k2..q];
    assert p[..k][k - k2..] == p[k - k2..k];
  }

  /** Of two borders of `p[..q]`, the shorter is a border of the longer. */
  lemma BorderWithin(p: string, q: int, k: int, k2: int)
    requires BorderOf(p, q, k) && BorderOf(p, q, k2) && k2 < k
    ensures BorderOf(p, k, k2)
  {
    assert p[q - k..q][k - k2..] == p[q - k2..q];
    assert p[..k][k - k2..] == p[k - k2..k];
  }

  /** Every border of `p[..q]` is at most one longer than `length`. */
  ghost predicate Candidates(p: string, q: int, length: int) {
    forall k :: BorderOf(p, q, k) ==> k <= length + 1
  }

  ghost predicate LpsLoop(p: string, lps: seq<int>, i: int, length: int) {
    && 1 <= i <= |p| == |lps|
    && LpsFilled(p, lps, i)
    && BorderOf(p, i, length)
    && Candidates(p, i + 1, length)
  }

  /**
   * `lpsarray(pattern, lps)`: afterwards `lps[i]` is the length of the longest
   * proper prefix of `pattern[0..i]` that is also a suffix of it. Each round
   * either moves `i` on or shortens `length`.
   */
  method LpsArray(pattern: string, lps: array<int>)
    requires lps.Length == |pattern| >= 1
    modifies lps
    ensures LpsFilled(pattern, lps[..], |pattern|)
  {
    var length := 0;
    lps[0] := 0;
    var i := 1;
    LpsStart(pattern, lps[..]);
    while i < |pattern|
      invariant LpsLoop(pattern, lps[..], i, length)
      decreases |pattern| - i, length
    {
      ghost var before := lps[..];
      if pattern[i] == pattern[length] {
        var grown := length + 1;
        var next := i + 1;
        lps[i] := grown;
        LpsMatch(pattern, before, lps[..], i, next, length, grown);
        length := grown;
        i := next;
      } else {
        if length != 0 {
          var k := length - 1;
          var shorter := lps[k];
          LpsFallBack(pattern, before, i, length, k, shorter);
          length := shorter;
        } else {
          var next := i + 1;
          lps[i] := 0;
          LpsNone(pattern, before, lps[..], i, next);
          i := next;
        }
      }
    }
  }

  /** The table's shape: `lps[0] == 0`, and no entry exceeds its index. */
  lemma LpsBounds(p: string, lps: seq<int>)
    requires |lps| == |p| >= 1 && LpsFilled(p, lps, |p|)
    ensures lps[0] == 0
    ensures forall i :: 0 <= i < |p| ==> 0 <= lps[i] <= i
  {
    assert LongestBorder(p, 1, lps[0]);
  }

  lemma LpsStart(p: string, lps: seq<int>)
    requires |p| == |lps| >= 1 && lps[0] == 0
    ensures LpsLoop(p, lps, 1, 0)
  {
    assert LongestBorder(p, 1, 0);
  }

  /** `p[i] == p[length]`: the border grows by one and is the longest, because of the candidate bound. */
  lemma LpsMatch(p: string, before: seq<int>, after: seq<int>, i: int, next: int, length: int, grown: int)
    requires LpsLoop(p, before, i, length) && i < |p| && p[i] == p[length]
    requires next == i + 1 && grown == length + 1 && after == before[i := grown]
    ensures LpsLoop(p, after, next, grown)
  {
    BorderExtend(p, i, length, grown);
    assert LongestBorder(p, next, grown);
    forall j | 0 <= j < next
      ensures LongestBorder(p, j + 1, after[j])
    {
      if j < i {
        assert after[j] == before[j];
      }
    }
    var q := next + 1;
    forall k | BorderOf(p, q, k)
      ensures k <= grown + 1
    {
      if k > 0 {
        var k1 := k - 1;
        BorderShrink(p, next, k1, k);
      }
    }
  }

  /** A mismatch with `length > 0`: fall back to the longest border of the current border. */
  lemma LpsFallBack(p: string, lps: seq<int>, i: int, length: int, k: int, shorter: int)
    requires LpsLoop(p, lps, i, length) && i < |p| && p[i] != p[length]
    requires length > 0 && k == length - 1 && shorter == lps[k]
    ensures LpsLoop(p, lps, i, shorter) && shorter < length
  {
    assert LongestBorder(p, k + 1, lps[k]);
    BorderOfBorder(p, i, length, shorter);
    var q := i + 1;
    forall c | BorderOf(p, q, c)
      ensures c <= shorter + 1
    {
      if c > 0 {
        var c1 := c - 1;
        BorderShrink(p, i, c1, c);
        BorderWithin(p, i, length, c1);
      }
    }
  }

  /** A mismatch with `length == 0`: `p[..i+1]` has no non-empty border. */
  lemma LpsNone(p: string, before: seq<int>, after: seq<int>, i: int, next: int)
    requires LpsLoop(p, before, i, 0) && i < |p| && p[i] != p[0]
    requires next == i + 1 && after == before[i := 0]
    ensures LpsLoop(p, after, next, 0)
  {
    forall c | BorderOf(p, next, c)
      ensures c <= 0
    {
      if c > 0 {
        var c1 := c - 1;
        BorderShrink(p, i, c1, c);
      }
    }
    assert LongestBorder(p, next, 0);
    forall j | 0 <= j < next
      ensures LongestBorder(p, j + 1, after[j])
    {
      if j < i {
        assert after[j] == before[j];
      }
    }
    var q := next + 1;
    forall c | BorderOf(p, q, c)
      ensures c <= 1
    {
      if c > 0 {
        var c1 := c - 1;
        BorderShrink(p, next, c1, c);
      }
    }
  }

  /** The scan state of `KMPSearch`: `p[..j]` ends the text read so far, and nothing starts before `i - j`. */
  ghost predicate Scanning(t: string, p: string, i: int, j: int) {
    && 0 <= j < |p| && j <= i <= |t|
    && t[i - j..i] == p[..j]
    && NoneBefore(t, p, i - j)
  }

  /**
   * `KMPSearch(text, pattern)`: the index it reports ("Pattern found at index")
   * is the first occurrence, and it reports none ("Pattern not found") only
   * when the pattern occurs nowhere.
   */
  method KmpSearch(text: string, pattern: string) returns (r: int)
    requires |pattern| >= 1
    ensures IsFirst(text, pattern, r)
  {
    var n, m := |text|, |pattern|;
    var lps := new int[m];
    LpsArray(pattern, lps);
    var i, j := 0, 0;
    while i < n
      invariant Scanning(text, pattern, i, j)
      invariant LpsFilled(pattern, lps[..], m)
      decreases n - i, j
    {
      if pattern[j] == text[i] {
        var i', j' := i + 1, j + 1;
        Advance(text, pattern, i, j, i', j');
        i, j := i', j';
      }
      if j == m {
        var s := i - j;
        Found(text, pattern, i, j, s);
        return s;
      } else if i < n && pattern[j] != text[i] {
        if j != 0 {
          var k := j - 1;
          var v := lps[k];
          Jump(text, pattern, lps[..], i, j, k, v);
          j := v;
        } else {
          var next := i + 1;
          Skip(text, pattern, i, next);
          i := next;
        }
      }
    }
    NotFound(text, pattern, i, j);
    return -1;
  }

  /** Matching characters: the matched prefix grows by one (it may now be the whole pattern). */
  lemma Advance(t: string, p: string, i: int, j: int, i': int, j': int)
    requires Scanning(t, p, i, j) && i < |t| && p[j] == t[i] && i' == i + 1 && j' == j + 1
    ensures 0 < j' <= |p| && j' <= i' <= |t| && t[i' - j'..i'] == p[..j'] && NoneBefore(t, p, i' - j')
    ensures j' < |p| ==> Scanning(t, p, i', j')
  {
    assert t[i' - j'..i'] == t[i - j..i] + [t[i]];
    assert p[..j'] == p[..j] + [p[j]];
  }

  /** The whole pattern has been matched: `s == i - j` is an occurrence, and the first. */
  lemma Found(t: string, p: string, i: int, j: int, s: int)
    requires j == |p| && j <= i <= |t| && t[i - j..i] == p[..j] && NoneBefore(t, p, i - j) && s == i - j
    ensures IsFirst(t, p, s)
  {
    assert p[..j] == p;
  }

  /**
   * A mismatch after `j > 0` matched characters: `j` falls back to `lps[j-1]`.
   * No occurrence is skipped, since one starting in between would make a
   * border of `p[..j]` longer than `lps[j-1]`.
   */
  lemma Jump(t: string, p: string, lps: seq<int>, i: int, j: int, k: int, v: int)
    requires Scanning(t, p, i, j) && i < |t| && p[j] != t[i]
    requires LpsFilled(p, lps, |p|) && j > 0 && k == j - 1 && |lps| == |p| && v == lps[k]
    ensures Scanning(t, p, i, v) && v < j
  {
    assert LongestBorder(p, k + 1, lps[k]);
    assert t[i - v..i] == t[i - j..i][j - v..];
    assert p[j - v..j] == p[..j][j - v..];
    forall s | 0 <= s < i - v
      ensures !MatchAt(t, p, s)
    {
      if s == i - j {
        MismatchAt(t, p, s, j);
      } else if s > i - j {
        var c := i - s;
        OccurrenceIsBorder(t, p, i, j, s, c);
      }
    }
  }

  /** An occurrence starting inside the matched part `t[i-j..i]` would make `t[s..i]` a border of `p[..j]`. */
  lemma OccurrenceIsBorder(t: string, p: string, i: int, j: int, s: int, c: int)
    requires 0 <= j <= i <= |t| && j < |p| && t[i - j..i] == p[..j] && i - j < s < i && c == i - s
    ensures MatchAt(t, p, s) ==> BorderOf(p, j, c)
  {
    if MatchAt(t, p, s) {
      assert t[s..i] == t[s..s + |p|][..c];
      assert t[s..i] == t[i - j..i][j - c..];
      assert p[..j][j - c..] == p[j - c..j];
    }
  }

  /** A mismatch at the first pattern character: nothing starts at `i`, move on. */
  lemma Skip(t: string, p: string, i: int, next: int)
    requires Scanning(t, p, i, 0) && i < |t| && p[0] != t[i] && next == i + 1
    ensures Scanning(t, p, next, 0)
  {
    MismatchAt(t, p, i, 0);
  }

  /** The text ran out with fewer than `|p|` characters matched: no occurrence anywhere. */
  lemma NotFound(t: string, p: string, i: int, j: int)
    requires Scanning(t, p, i, j) && i >= |t|
    ensures IsFirst(t, p, -1)
  {
  }

  /** The text searched: `argv[1]`, or "auntymomos". */
  function TextOf(args: seq<string>): string {
    if |args| > 0 then args[0] else "auntymomos"
  }

  /** The pattern searched: `argv[2]`, or "momo". */
  function PatternOf(args: seq<string>): string {
    if |args| > 1 then args[1] else "momo"
  }

  /** `main` over `args == argv[1..]`: the index of the first occurrence, or -1. */
  method Run(args: seq<string>) returns (r: int)
    requires |PatternOf(args)| >= 1
    ensures IsFirst(TextOf(args), PatternOf(args), r)
    ensures |args| == 0 ==> r == 5
  {
    r := KmpSearch(TextOf(args), PatternOf(args));
    if |args| == 0 {
      DefaultFound();
      FirstUnique(TextOf(args), PatternOf(args), r, 5);
    }
  }

  /** With the defaults, "momo" is first found at index 5 of "auntymomos". */
  lemma DefaultFound()
    ensures IsFirst("auntymomos", "momo", 5)
  {
    var t, p := "auntymomos", "momo";
    assert t[5..9] == p;
    forall s | 0 <= s < 5
      ensures !MatchAt(t, p, s)
    {
      if s == 0 || s == 1 || s == 2 || s == 3 || s == 4 {
        MismatchAt(t, p, s, 0);
      }
    }
  }
}
