/**
 * Line splitting of one stdout chunk: `data.toString().split('\n').filter(Boolean)`.
 * Each chunk is split on its own; nothing is carried over between chunks.
 */
module LineFramer {

  /** JavaScript's `s.split('\n')`: the pieces between newlines, empty ones included. */
  function Split(s: string): (pieces: seq<string>)
    ensures |pieces| >= 1
    decreases |s|
  {
    if s == [] then [""]
    else
      var rest := Split(s[1..]);
      if s[0] == '\n' then [""] + rest else [[s[0]] + rest[0]] + rest[1..]
  }

  /** `.filter(Boolean)`: drops the empty strings, keeps the others in order. */
  function NonEmpty(pieces: seq<string>): seq<string> {
    if pieces == [] then []
    else if pieces[0] == "" then NonEmpty(pieces[1..])
    else [pieces[0]] + NonEmpty(pieces[1..])
  }

  /** The lines of one stdout chunk, as the server forwards them. */
  function Lines(chunk: string): seq<string> {
    NonEmpty(Split(chunk))
  }

  predicate NoNewline(s: string) {
    forall i :: 0 <= i < |s| ==> s[i] != '\n'
  }

  /** A well-formed line: non-empty and without a newline. */
  predicate IsLine(s: string) {
    s != "" && NoNewline(s)
  }

  function Concat(ss: seq<string>): string {
    if ss == [] then "" else ss[0] + Concat(ss[1..])
  }

  /** The pieces joined back with newlines (`pieces.join('\n')`). */
  function Join(pieces: seq<string>): string
    requires |pieces| >= 1
  {
    if |pieces| == 1 then pieces[0] else pieces[0] + "\n" + Join(pieces[1..])
  }

  /** Each line followed by a newline: what a `cout << ... << endl` writer produces. */
  function Terminated(lines: seq<string>): string {
    if lines == [] then "" else lines[0] + "\n" + Terminated(lines[1..])
  }

  /** `s` with every newline removed. */
  function StripNewlines(s: string): string {
    if s == [] then "" else (if s[0] == '\n' then "" else [s[0]]) + StripNewlines(s[1..])
  }

  lemma {:induction false} SplitPiecesHaveNoNewline(s: string)
    ensures forall k :: 0 <= k < |Split(s)| ==> NoNewline(Split(s)[k])
    decreases |s|
  {
    if s != [] {
      SplitPiecesHaveNoNewline(s[1..]);
    }
  }

  /** `split` followed by `join` gives the chunk back. */
  lemma {:induction false} JoinSplit(s: string)
    ensures Join(Split(s)) == s
    decreases |s|
  {
    if s != [] {
      var rest := Split(s[1..]);
      JoinSplit(s[1..]);
      if s[0] == '\n' {
        assert Split(s) == [""] + rest;
        assert Split(s)[1..] == rest;
      } else {
        var p := Split(s);
        assert p[0] == [s[0]] + rest[0] && p[1..] == rest[1..];
        if |rest| > 1 {
          assert rest[1..] == rest[1..];
          assert Join(rest) == rest[0] + "\n" + Join(rest[1..]);
        }
      }
    }
  }

  lemma {:induction false} NonEmptyKeepsLines(pieces: seq<string>)
    requires forall k :: 0 <= k < |pieces| ==> NoNewline(pieces[k])
    ensures forall k :: 0 <= k < |NonEmpty(pieces)| ==> IsLine(NonEmpty(pieces)[k])
  {
    if pieces != [] {
      NonEmptyKeepsLines(pieces[1..]);
    }
  }

  /** Every forwarded line is non-empty and holds no newline. */
  lemma LinesAreLines(chunk: string)
    ensures forall k :: 0 <= k < |Lines(chunk)| ==> IsLine(Lines(chunk)[k])
  {
    SplitPiecesHaveNoNewline(chunk);
    NonEmptyKeepsLines(Split(chunk));
  }

  lemma {:induction false} StripAppend(s: string, t: string)
    ensures StripNewlines(s + t) == StripNewlines(s) + StripNewlines(t)
    decreases |s|
  {
    if s != [] {
      assert (s + t)[0] == s[0] && (s + t)[1..] == s[1..] + t;
      StripAppend(s[1..], t);
      calc {
        StripNewlines(s + t);
        (if s[0] == '\n' then "" else [s[0]]) + StripNewlines(s[1..] + t);
        (if s[0] == '\n' then "" else [s[0]]) + (StripNewlines(s[1..]) + StripNewlines(t));
        ((if s[0] == '\n' then "" else [s[0]]) + StripNewlines(s[1..])) + StripNewlines(t);
        StripNewlines(s) + StripNewlines(t);
      }
    } else {
      assert s + t == t;
    }
  }

  lemma {:induction false} StripNoNewline(s: string)
    requires NoNewline(s)
    ensures StripNewlines(s) == s
    decreases |s|
  {
    if s != [] {
      StripNoNewline(s[1..]);
    }
  }

  lemma {:induction false} ConcatNonEmpty(pieces: seq<string>)
    ensures Concat(NonEmpty(pieces)) == Concat(pieces)
  {
    if pieces != [] {
      ConcatNonEmpty(pieces[1..]);
    }
  }

  lemma {:induction false} StripJoin(pieces: seq<string>)
    requires |pieces| >= 1
    requires forall k :: 0 <= k < |pieces| ==> NoNewline(pieces[k])
    ensures StripNewlines(Join(pieces)) == Concat(pieces)
  {
    StripNoNewline(pieces[0]);
    if |pieces| == 1 {
      assert Concat(pieces) == pieces[0] + Concat(pieces[1..]);
    } else {
      StripJoin(pieces[1..]);
      StripAppend(pieces[0] + "\n", Join(pieces[1..]));
      StripAppend(pieces[0], "\n");
      assert StripNewlines("\n") == "";
    }
  }

  /** The forwarded lines, concatenated in order, are the chunk without its newlines. */
  lemma LinesConcat(chunk: string)
    ensures Concat(Lines(chunk)) == StripNewlines(chunk)
  {
    SplitPiecesHaveNoNewline(chunk);
    JoinSplit(chunk);
    StripJoin(Split(chunk));
    ConcatNonEmpty(Split(chunk));
  }

  lemma {:induction false} SplitLineThenNewline(line: string, rest: string)
    requires NoNewline(line)
    ensures Split(line + "\n" + rest) == [line] + Split(rest)
    decreases |line|
  {
    if line == [] {
      assert line + "\n" + rest == "\n" + rest;
      assert ("\n" + rest)[1..] == rest;
    } else {
      var s := line + "\n" + rest;
      assert s[1..] == line[1..] + "\n" + rest;
      SplitLineThenNewline(line[1..], rest);
      assert [s[0]] + line[1..] == line;
    }
  }

  /**
   * What an executable writes, one record per line, is forwarded as exactly
   * those records when it arrives in a single chunk.
   */
  lemma {:induction false} LinesOfTerminated(lines: seq<string>)
    requires forall k :: 0 <= k < |lines| ==> IsLine(lines[k])
    ensures Lines(Terminated(lines)) == lines
  {
    if lines == [] {
      assert Split("") == [""];
    } else {
      LinesOfTerminated(lines[1..]);
      SplitLineThenNewline(lines[0], Terminated(lines[1..]));
      var p := Split(Terminated(lines));
      assert p == [lines[0]] + Split(Terminated(lines[1..]));
      assert p[1..] == Split(Terminated(lines[1..]));
    }
  }

  /**
   * No carry-over between chunks: a record that arrives split over two chunks
   * is forwarded as two lines, not as the one line in the combined text.
   */
  lemma ChunkBoundarySplitsRecord()
    ensures Lines("ab") + Lines("c\n") == ["ab", "c"]
    ensures Lines("ab" + "c\n") == ["abc"]
  {
    assert Split("ab") == ["ab"] by {
      assert Split("") == [""];
      assert Split("b") == ["b"] by { assert "b"[1..] == ""; assert ['b'] + "" == "b"; }
      assert "ab"[1..] == "b";
      assert ['a'] + "b" == "ab";
    }
    assert Split("c\n") == ["c", ""] by {
      assert Split("") == [""];
      assert Split("\n") == ["", ""] by { assert "\n"[1..] == ""; }
      assert "c\n"[1..] == "\n";
      assert ['c'] + "" == "c";
    }
    assert "ab" + "c\n" == "abc\n";
    assert Split("abc\n") == ["abc", ""] by {
      SplitLineThenNewline("abc", "");
      assert "abc" + "\n" + "" == "abc\n";
    }
  }
}
