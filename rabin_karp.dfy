/**
 * The Rabin-Karp executable: a rolling base-256 hash modulo 101 over each
 * window of the text, with every hash hit checked character by character, and
 * `main`, which picks the text and the pattern from the command line or the
 * defaults.
 */
module RabinKarp {
  import opened CArith
  import opened StringMatch

  /** The size of the alphabet, the base of the hash. */
  const D: int := 256
  /** The prime the hash is taken modulo. */
  const Q: int := 101

  /** The code a character contributes to the hash. */
  function Code(c: char): int {
    c as int
  }

  /** The base-`D` value of `s`, most significant character first, before any reduction. */
  function Hash(s: string): int
    decreases |s|
  {
    if |s| == 0 then 0 else D * Hash(s[..|s| - 1]) + Code(s[|s| - 1])
  }

  function Pow(b: int, k: nat): int {
    if k == 0 then 1 else b * Pow(b, k - 1)
  }

  /** Peeling the first character off: it weighs `D^(|s|-1)`. */
  lemma {:induction false} HashCons(s: string, k: nat)
    requires |s| >= 1 && k == |s| - 1
    ensures Hash(s) == Code(s[0]) * Pow(D, k) + Hash(s[1..])
  {
    if |s| > 1 {
      var u := s[..|s| - 1];
      var k1 := k - 1;
      HashCons(u, k1);
      assert u[1..] == s[1..][..|s[1..]| - 1];
      assert u[0] == s[0];
      var c, P := Code(s[0]), Pow(D, k1);
      assert D * (c * P + Hash(u[1..])) == c * (D * P) + D * Hash(u[1..]);
    } else {
      assert s[..0] == s[1..];
    }
  }

  /** Extending by one character: the running hash is multiplied by `D` and the code added. */
  lemma HashStep(s: string, i: int, next: int, v: int)
    requires 0 <= i < |s| && next == i + 1 && v == Hash(s[..i]) % Q
    ensures (D * v + Code(s[i])) % Q == Hash(s[..next]) % Q
  {
    assert s[..next][..i] == s[..i];
    ModUnique(v, Q, 0, v);
    CongruentScale(v, Hash(s[..i]), D, Q);
    CongruentAdd(D * v, D * Hash(s[..i]), Code(s[i]), Q);
  }

  /** One round of the `h` loop: `h` stays `D^i` reduced modulo `Q`. */
  lemma PowStep(i: nat, next: nat, h: int)
    requires next == i + 1 && h == Pow(D, i) % Q
    ensures (h * D) % Q == Pow(D, next) % Q
  {
    ModUnique(h, Q, 0, h);
    CongruentScale(h, Pow(D, i), D, Q);
  }

  /** The rolling update: drop the leading character, shift, add the next one, and bring the result into `[0, Q)`. */
  lemma Roll(text: string, i: int, m: int, next: int, t: int, h: int, x: int, t': int)
    requires 1 <= m && 0 <= i && i + m < |text| && next == i + 1
    requires t == Hash(text[i..i + m]) % Q && h == Pow(D, m - 1) % Q
    requires x == D * (t - Code(text[i]) * h) + Code(text[i + m])
    requires 0 <= t' < Q && t' % Q == x % Q
    ensures t' == Hash(text[next..next + m]) % Q
  {
    var w, tail, w' := text[i..i + m], text[next..i + m], text[next..next + m];
    var c0, P := Code(text[i]), Pow(D, m - 1);
    var k := m - 1;
    HashCons(w, k);
    assert w[1..] == tail && w[0] == text[i];
    assert w'[..|w'| - 1] == tail && w'[|w'| - 1] == text[i + m];
    assert Hash(w') == D * Hash(tail) + Code(text[i + m]);
    ModUnique(t, Q, 0, t);
    ModUnique(h, Q, 0, h);
    CongruentScale(h, P, c0, Q);
    CongruentSub(t, Hash(w), c0 * h, c0 * P, Q);
    assert Hash(w) - c0 * P == Hash(tail);
    CongruentScale(t - c0 * h, Hash(tail), D, Q);
    CongruentAdd(D * (t - c0 * h), D * Hash(tail), Code(text[i + m]), Q);
    ModUnique(t', Q, 0, t');
  }

  /** `t = CMod(x, Q)`, then `t += Q` when negative: a value in `[0, Q)` congruent to `x`. */
  lemma Normalize(x: int, r: int, t: int)
    requires r == CMod(x, Q) && t == (if r < 0 then r + Q else r)
    ensures 0 <= t < Q && t % Q == x % Q
  {
    CModCongruent(x, Q);
    ModAddMultiple(r, 1, Q);
  }

  /** Equal windows have equal hashes, so a hash miss rules an occurrence out. */
  lemma HashMiss(text: string, pattern: string, i: int, p: int, t: int)
    requires 0 <= i && i + |pattern| <= |text|
    requires p == Hash(pattern) % Q && t == Hash(text[i..i + |pattern|]) % Q
    ensures MatchAt(text, pattern, i) ==> p == t
  {
  }

  /** The state of the hashing loops after `i` rounds of each. */
  ghost predicate Setup(text: string, pattern: string, i: int, p: int, t: int) {
    && 0 <= i <= |pattern| <= |text|
    && p == Hash(pattern[..i]) % Q
    && t == Hash(text[..i]) % Q
  }

  /**
   * `rabinKarpSearch(text, pattern)`: the index it reports is the first
   * occurrence (a hash hit counts only once every character agrees), and it
   * reports none only when the pattern occurs nowhere.
   */
  method RabinKarpSearch(text: string, pattern: string) returns (r: int)
    requires |pattern| <= |text|
    ensures IsFirst(text, pattern, r)
  {
    var n, m := |text|, |pattern|;
    var p, t, h := 0, 0, 1;
    var i := 0;
    while i < m - 1
      invariant 0 <= i && (i == 0 || i <= m - 1)
      invariant h == Pow(D, i) % Q
    {
      var next := i + 1;
      PowStep(i, next, h);
      h := (h * D) % Q;
      i := next;
    }
    assert m >= 1 ==> h == Pow(D, m - 1) % Q;
    i := 0;
    while i < m
      invariant Setup(text, pattern, i, p, t)
    {
      var next := i + 1;
      HashStep(pattern, i, next, p);
      HashStep(text, i, next, t);
      p := (D * p + Code(pattern[i])) % Q;
      t := (D * t + Code(text[i])) % Q;
      i := next;
    }
    assert pattern[..m] == pattern && text[..m] == text[0..m];
    i := 0;
    while i <= n - m
      invariant 0 <= i <= n - m + 1
      invariant p == Hash(pattern) % Q
      invariant i <= n - m ==> t == Hash(text[i..i + m]) % Q
      invariant NoneBefore(text, pattern, i)
    {
      if p == t {
        var j := 0;
        while j < m
          invariant 0 <= j <= m
          invariant forall k :: 0 <= k < j ==> text[i + k] == pattern[k]
        {
          if text[i + j] != pattern[j] {
            break;
          }
          j := j + 1;
        }
        if j == m {
          MatchByChars(text, pattern, i);
          return i;
        }
        MismatchAt(text, pattern, i, j);
      } else {
        HashMiss(text, pattern, i, p, t);
      }
      var next := i + 1;
      NoneBeforeStep(text, pattern, i, next);
      if i < n - m {
        ghost var t0 := t;
        var k := i + m;
        var x := D * (t - Code(text[i]) * h) + Code(text[k]);
        var c := CMod(x, Q);
        t := c;
        if t < 0 {
          t := t + Q;
        }
        Normalize(x, c, t);
        Roll(text, i, m, next, t0, h, x, t);
      }
      i := next;
    }
    return -1;
  }

  /*
   * The source as written, over the bytes of the text and the pattern. The
   * loops read each byte through C++'s signed `char`, and the pattern's hash is
   * reduced with C++ `%` alone, while the rolled text hash is brought back into
   * `[0, Q)`. A pattern with a byte of 0x80 or more can then hash to a negative
   * value that no rolled window hash equals.
   */

  /** A byte read through a signed `char`: 0x80 and above become negative. */
  function SignedChar(b: int): int {
    if b >= 128 then b - 256 else b
  }

  /** The hashing loop over bytes, as written: C++ `%`, with no correction of a negative result. */
  function ByteHash(s: seq<int>): int
    decreases |s|
  {
    if |s| == 0 then 0 else CMod(D * ByteHash(s[..|s| - 1]) + SignedChar(s[|s| - 1]), Q)
  }

  /** The `h` loop: `D^k` reduced by C++ `%` after each step. */
  function BytePow(k: int): int
    decreases k
  {
    if k <= 0 then 1 else CMod(BytePow(k - 1) * D, Q)
  }

  /** The window loop over bytes from window `i` on, with text hash `t`, as written. */
  function ByteScan(text: seq<int>, pattern: seq<int>, i: nat, p: int, t: int, h: int): int
    decreases |text| - i
  {
    var n, m := |text|, |pattern|;
    if i + m > n then -1
    else if p == t && text[i..i + m] == pattern then i
    else if i + m < n then
      var r := CMod(D * (t - SignedChar(text[i]) * h) + SignedChar(text[i + m]), Q);
      ByteScan(text, pattern, i + 1, p, if r < 0 then r + Q else r, h)
    else -1
  }

  /** `rabinKarpSearch` over bytes, as written. */
  function ByteSearch(text: seq<int>, pattern: seq<int>): int
    requires |pattern| <= |text|
  {
    var m := |pattern|;
    ByteScan(text, pattern, 0, ByteHash(pattern), ByteHash(text[..m]), BytePow(m - 1))
  }

  /**
   * As written, the pattern "é" (UTF-8 bytes C3 A9) is missed in the text "aé"
   * (bytes 61 C3 A9), where it occurs at byte 1: the pattern hashes to -48,
   * and the rolled hash of that window is 53.
   */
  lemma SignedByteMissesMatch()
    ensures [0x61, 0xC3, 0xA9][1..3] == [0xC3, 0xA9]
    ensures ByteHash([0xC3, 0xA9]) == -48
    ensures ByteSearch([0x61, 0xC3, 0xA9], [0xC3, 0xA9]) == -1
  {
    var text, pattern := [0x61, 0xC3, 0xA9], [0xC3, 0xA9];
    assert pattern[..1] == [0xC3];
    assert ByteHash([0xC3]) == -61;
    assert ByteHash(pattern) == -48;
    assert text[..2][..1] == [0x61];
    assert ByteHash([0x61]) == 97;
    assert ByteHash(text[..2]) == 26;
    assert BytePow(1) == 54;
    assert text[0..2] != pattern;
    assert ByteScan(text, pattern, 2, -48, 53, 54) == -1;
    assert ByteScan(text, pattern, 1, -48, 53, 54) == -1;
  }

  /** The text searched: `argv[1]`, or "pansinghtomar". */
  function TextOf(args: seq<string>): string {
    if |args| > 0 then args[0] else "pansinghtomar"
  }

  /** The pattern searched: `argv[2]`, or "singh". */
  function PatternOf(args: seq<string>): string {
    if |args| > 1 then args[1] else "singh"
  }

  /** `main` over `args == argv[1..]`: the index of the first occurrence, or -1. */
  method Run(args: seq<string>) returns (r: int)
    requires |PatternOf(args)| <= |TextOf(args)|
    ensures IsFirst(TextOf(args), PatternOf(args), r)
    ensures |args| == 0 ==> r == 3
  {
    r := RabinKarpSearch(TextOf(args), PatternOf(args));
    if |args| == 0 {
      DefaultFound();
      FirstUnique(TextOf(args), PatternOf(args), r, 3);
    }
  }

  /** With the defaults, "singh" is first found at index 3 of "pansinghtomar". */
  lemma DefaultFound()
    ensures IsFirst("pansinghtomar", "singh", 3)
  {
    var t, p := "pansinghtomar", "singh";
    assert t[3..8] == p;
    forall s | 0 <= s < 3
      ensures !MatchAt(t, p, s)
    {
      if s == 0 || s == 1 || s == 2 {
        MismatchAt(t, p, s, 0);
      }
    }
  }
}
