/**
 * The N-Queens executable: `isSafe` scans the column and the two upper
 * diagonals of a square board of characters, `solve` places one queen per row
 * by backtracking and undoes every placement that leads nowhere, and `main`
 * checks `N` and starts from an empty board.
 *
 * A placement is described by its columns: `cols[i]` is the column of the
 * queen in row `i`. The board represents the placement of its first rows.
 */
module NQueens {
  import opened Wrappers
  import Decimal
  import opened Prefixes

  /** The queens in rows `i` and `j` share a column or a diagonal. */
  predicate Attacks(s: seq<int>, i: int, j: int)
    requires 0 <= i < |s| && 0 <= j < |s|
  {
    s[i] == s[j] || s[j] - s[i] == j - i || s[j] - s[i] == i - j
  }

  ghost predicate NonAttacking(s: seq<int>) {
    forall i, j :: 0 <= i < j < |s| ==> !Attacks(s, i, j)
  }

  ghost predicate InBoard(s: seq<int>, n: int) {
    forall i :: 0 <= i < |s| ==> 0 <= s[i] < n
  }

  /** A complete placement of `n` queens, none attacking another. */
  ghost predicate Solution(s: seq<int>, n: int) {
    |s| == n && InBoard(s, n) && NonAttacking(s)
  }

  /** No solution starts with the rows `p`. */
  ghost predicate Dead(p: seq<int>, n: int) {
    forall s :: !(Solution(s, n) && IsPrefix(p, s))
  }

  /** No solution starts with the rows `p` followed by a queen in column `c`. */
  ghost predicate DeadFrom(p: seq<int>, c: int, n: int) {
    Dead(p + [c], n)
  }

  /** `s` and `t` agree before row `k`, and `s` has its queen further left in row `k`. */
  ghost predicate LessAt(s: seq<int>, t: seq<int>, k: int) {
    0 <= k < |s| && k < |t| && s[..k] == t[..k] && s[k] < t[k]
  }

  /** `s` comes before `t` in the order in which the search tries columns. */
  ghost predicate LexLess(s: seq<int>, t: seq<int>) {
    exists k :: LessAt(s, t, k)
  }

  /** No solution starting with `p` is tried before `sol`. */
  ghost predicate FirstFrom(sol: seq<int>, p: seq<int>, n: int) {
    forall s :: Solution(s, n) && IsPrefix(p, s) ==> !LexLess(s, sol)
  }

  /** The queen already in row `i` attacks a queen put in column `c` of the next free row. */
  predicate Threatens(cols: seq<int>, i: int, c: int)
    requires 0 <= i < |cols|
  {
    cols[i] == c || c - cols[i] == |cols| - i || cols[i] - c == |cols| - i
  }

  predicate NoAttack(cols: seq<int>, c: int) {
    forall i :: 0 <= i < |cols| ==> !Threatens(cols, i, c)
  }

  /** The board holds the queens of `cols` in its first rows and `'.'` everywhere else. */
  ghost predicate Represents(b: array2<char>, cols: seq<int>)
    reads b
  {
    && |cols| <= b.Length0
    && forall i, j :: 0 <= i < b.Length0 && 0 <= j < b.Length1 ==>
        b[i, j] == (if i < |cols| && j == cols[i] then 'Q' else '.')
  }

  /** The first loop of `isSafe`: no queen in column `col` above `row`. */
  ghost predicate ColumnClear(b: array2<char>, row: int, col: int)
    reads b
    requires 0 <= row <= b.Length0 && 0 <= col < b.Length1
  {
    forall i :: 0 <= i < row ==> b[i, col] != 'Q'
  }

  /** The second loop: no queen on the diagonal up and to the left. */
  ghost predicate LeftClear(b: array2<char>, row: int, col: int)
    reads b
    requires 0 <= row <= b.Length0 && 0 <= col < b.Length1
  {
    forall i, j :: 0 <= i < row && 0 <= j < col && row - i == col - j ==> b[i, j] != 'Q'
  }

  /** The third loop: no queen on the diagonal up and to the right. */
  ghost predicate RightClear(b: array2<char>, row: int, col: int)
    reads b
    requires 0 <= row <= b.Length0 && 0 <= col < b.Length1
  {
    forall i, j :: 0 <= i < row && col < j < b.Length1 && row - i == j - col ==> b[i, j] != 'Q'
  }

  ghost predicate Safe(b: array2<char>, row: int, col: int)
    reads b
    requires 0 <= row <= b.Length0 && 0 <= col < b.Length1
  {
    ColumnClear(b, row, col) && LeftClear(b, row, col) && RightClear(b, row, col)
  }

  /** `isSafe(board, row, col)`: true exactly when none of the three scans meets a `'Q'`. */
  method IsSafe(b: array2<char>, row: int, col: int) returns (safe: bool)
    requires 0 <= row <= b.Length0 && 0 <= col < b.Length1
    ensures safe <==> Safe(b, row, col)
  {
    var i := 0;
    while i < row
      invariant 0 <= i <= row
      invariant forall k :: 0 <= k < i ==> b[k, col] != 'Q'
    {
      if b[i, col] == 'Q' {
        return false;
      }
      i := i + 1;
    }
    var j;
    i, j := row - 1, col - 1;
    while i >= 0 && j >= 0
      invariant -1 <= i < row && -1 <= j < col && row - i == col - j
      invariant forall p, q :: i < p < row && 0 <= q < col && row - p == col - q ==> b[p, q] != 'Q'
    {
      if b[i, j] == 'Q' {
        return false;
      }
      i, j := i - 1, j - 1;
    }
    i, j := row - 1, col + 1;
    while i >= 0 && j < b.Length1
      invariant -1 <= i < row && col < j <= b.Length1 && row - i == j - col
      invariant forall p, q :: i < p < row && col < q < b.Length1 && row - p == q - col ==> b[p, q] != 'Q'
    {
      if b[i, j] == 'Q' {
        return false;
      }
      i, j := i - 1, j + 1;
    }
    return true;
  }

  /** On a board that represents `cols`, the scans of `isSafe` find a queen exactly when one attacks the new square. */
  lemma SafeMeans(b: array2<char>, cols: seq<int>, c: int)
    requires |cols| < b.Length0 && 0 <= c < b.Length1
    requires Represents(b, cols) && InBoard(cols, b.Length1)
    ensures Safe(b, |cols|, c) <==> NoAttack(cols, c)
  {
    var row := |cols|;
    if Safe(b, row, c) {
      forall i | 0 <= i < row
        ensures !Threatens(cols, i, c)
      {
        var j := cols[i];
        assert b[i, j] == 'Q';
      }
    }
    if NoAttack(cols, c) {
      forall i, j | 0 <= i < row && 0 <= j < b.Length1 && b[i, j] == 'Q'
        ensures j == cols[i] && !Threatens(cols, i, c)
      {
      }
    }
  }

  /** A queen no earlier queen attacks extends a non-attacking placement. */
  lemma ExtendSafe(cols: seq<int>, c: int, n: int)
    requires NonAttacking(cols) && InBoard(cols, n) && NoAttack(cols, c) && 0 <= c < n
    ensures NonAttacking(cols + [c]) && InBoard(cols + [c], n)
  {
    var s := cols + [c];
    forall i, j | 0 <= i < j < |s|
      ensures !Attacks(s, i, j)
    {
      assert s[i] == cols[i];
      if j < |cols| {
        assert s[j] == cols[j] && !Attacks(cols, i, j);
      } else {
        assert s[j] == c && !Threatens(cols, i, c);
      }
    }
  }

  /** A solution starting with `p + [c]` puts the same queens in those rows. */
  lemma SharedPrefix(s: seq<int>, cols: seq<int>, c: int, i: int)
    requires IsPrefix(cols + [c], s) && 0 <= i < |cols| && Threatens(cols, i, c)
    ensures Attacks(s, i, |cols|)
  {
    assert s[i] == s[..|cols| + 1][i] == cols[i];
    assert s[|cols|] == s[..|cols| + 1][|cols|] == c;
  }

  /** A square some earlier queen attacks leads to no solution. */
  lemma UnsafeDead(cols: seq<int>, c: int, n: int)
    requires !NoAttack(cols, c)
    ensures DeadFrom(cols, c, n)
  {
    var i :| 0 <= i < |cols| && Threatens(cols, i, c);
    forall s | IsPrefix(cols + [c], s)
      ensures !Solution(s, n)
    {
      SharedPrefix(s, cols, c, i);
    }
  }

  /** When every column of the next row leads nowhere, so does the prefix. */
  lemma FailDead(cols: seq<int>, n: int)
    requires |cols| < n && forall c :: 0 <= c < n ==> DeadFrom(cols, c, n)
    ensures Dead(cols, n)
  {
    forall s | Solution(s, n) && IsPrefix(cols, s)
      ensures DeadFrom(cols, s[|cols|], n) && IsPrefix(cols + [s[|cols|]], s)
    {
      PrefixOfNext(s, cols);
    }
  }

  /** A complete placement is the only solution that starts with itself. */
  lemma OnlyItself(cols: seq<int>, n: int)
    requires |cols| == n
    ensures FirstFrom(cols, cols, n)
  {
    forall s | Solution(s, n) && IsPrefix(cols, s)
      ensures !LexLess(s, cols)
    {
      PrefixSameLength(cols, s);
    }
  }

  /** A solution that starts with `cols + [d]` shows that column `d` does not lead nowhere. */
  lemma Alive(s: seq<int>, cols: seq<int>, d: int, n: int)
    requires Solution(s, n) && IsPrefix(cols + [d], s)
    ensures !DeadFrom(cols, d, n)
  {
  }

  /** One solution starting with `p`, compared with the first one found below column `c` of the next row. */
  lemma StepCase(s: seq<int>, sol: seq<int>, cols: seq<int>, c: int, n: int)
    requires |cols| < n && Solution(s, n) && IsPrefix(cols, s)
    requires FirstFrom(sol, cols + [c], n) && IsPrefix(cols + [c], sol)
    requires forall d :: 0 <= d < c ==> DeadFrom(cols, d, n)
    ensures !LexLess(s, sol)
  {
    var row, d := |cols|, s[|cols|];
    PrefixOfNext(s, cols);
    Alive(s, cols, d, n);
    if d != c {
      forall k
        ensures !LessAt(s, sol, k)
      {
        if 0 <= k < row {
          assert s[k] == s[..row][k] == cols[k];
          assert sol[k] == sol[..row + 1][k] == cols[k];
        } else if row < k < |s| && k < |sol| {
          assert s[..k][row] == d;
          assert sol[..k][row] == sol[..row + 1][row] == c;
        } else if k == row {
          assert sol[k] == sol[..row + 1][row] == c;
        }
      }
    }
  }

  /** The first solution below column `c` is the first below the prefix when every smaller column fails. */
  lemma FirstStep(sol: seq<int>, cols: seq<int>, c: int, n: int)
    requires |cols| < n && FirstFrom(sol, cols + [c], n) && IsPrefix(cols + [c], sol)
    requires forall d :: 0 <= d < c ==> DeadFrom(cols, d, n)
    ensures FirstFrom(sol, cols, n)
  {
    forall s | Solution(s, n) && IsPrefix(cols, s)
      ensures !LexLess(s, sol)
    {
      StepCase(s, sol, cols, c, n);
    }
  }

  /**
   * `solve(board, row)`, with `cols` the queens already on the board. It
   * returns true with the first solution that extends `cols` in the order the
   * columns are tried, and false only when no solution extends `cols`, after
   * undoing every placement. Rows before `row` are never changed.
   */
  method Solve(b: array2<char>, row: int, ghost cols: seq<int>) returns (ok: bool, ghost sol: seq<int>)
    modifies b
    requires b.Length0 == b.Length1 && 0 <= row <= b.Length0 && |cols| == row
    requires Represents(b, cols) && InBoard(cols, b.Length1) && NonAttacking(cols)
    ensures ok ==> Solution(sol, b.Length0) && IsPrefix(cols, sol) && Represents(b, sol)
    ensures ok ==> FirstFrom(sol, cols, b.Length0)
    ensures !ok ==> Dead(cols, b.Length0)
    ensures !ok ==> forall i, j :: 0 <= i < b.Length0 && 0 <= j < b.Length1 ==> b[i, j] == old(b[i, j])
    ensures forall i, j :: 0 <= i < row && 0 <= j < b.Length1 ==> b[i, j] == old(b[i, j])
    decreases b.Length0 - row
  {
    var n := b.Length0;
    if row == n {
      OnlyItself(cols, n);
      return true, cols;
    }
    var col := 0;
    while col < n
      invariant 0 <= col <= n
      invariant Represents(b, cols)
      invariant forall c :: 0 <= c < col ==> DeadFrom(cols, c, n)
    {
      var safe := IsSafe(b, row, col);
      SafeMeans(b, cols, col);
      if safe {
        ghost var next := cols + [col];
        b[row, col] := 'Q';
        Placed(b, cols, next, col);
        ExtendSafe(cols, col, n);
        var below := row + 1;
        var found;
        found, sol := Solve(b, below, next);
        if found {
          FirstStep(sol, cols, col, n);
          PrefixOfPrefix(cols, next, sol);
          return true, sol;
        }
        b[row, col] := '.';
        Removed(b, cols, next, col);
      } else {
        UnsafeDead(cols, col, n);
      }
      col := col + 1;
    }
    FailDead(cols, n);
    return false, [];
  }

  /** After `board[row][col] = 'Q'` on a board representing `cols`, the board represents `cols + [col]`. */
  lemma Placed(b: array2<char>, cols: seq<int>, next: seq<int>, col: int)
    requires |cols| < b.Length0 && 0 <= col < b.Length1 && next == cols + [col]
    requires b[|cols|, col] == 'Q'
    requires forall i, j :: 0 <= i < b.Length0 && 0 <= j < b.Length1 && (i, j) != (|cols|, col) ==>
      b[i, j] == (if i < |cols| && j == cols[i] then 'Q' else '.')
    ensures Represents(b, next)
  {
  }

  /** After `board[row][col] = '.'` on a board representing `cols + [col]`, the board represents `cols` again. */
  lemma Removed(b: array2<char>, cols: seq<int>, next: seq<int>, col: int)
    requires |cols| < b.Length0 && 0 <= col < b.Length1 && next == cols + [col]
    requires b[|cols|, col] == '.'
    requires forall i, j :: 0 <= i < b.Length0 && 0 <= j < b.Length1 && (i, j) != (|cols|, col) ==>
      b[i, j] == (if i < |next| && j == next[i] then 'Q' else '.')
    ensures Represents(b, cols)
  {
  }

  /** The empty prefix starts every placement, so a dead empty prefix means no solution at all. */
  lemma NoneAtAll(n: int)
    requires Dead([], n)
    ensures forall s :: !Solution(s, n)
  {
    forall s
      ensures IsPrefix([], s)
    {
      assert s[..0] == [];
    }
  }

  /** How one run of the executable ends. */
  datatype QueensOutcome =
    | Aborted            // `stoi` rejects `argv[1]`
    | InvalidN           // `N < 1`: the "Invalid N" record, exit status 1
    | Final(solved: bool) // the "final" record after the search

  /** The board size: `argv[1]`, or the number standard input supplies. */
  function SizeOf(args: seq<string>, stdinN: int): Option<int> {
    if |args| > 0 then Decimal.Parse(args[0]) else Some(stdinN)
  }

  /**
   * `main` over `args == argv[1..]`, with `stdinN` the number read from
   * standard input when there is no argument. It returns the board as the
   * search leaves it and, as ghost, the queens placed on it.
   */
  method Run(args: seq<string>, stdinN: int) returns (r: QueensOutcome, board: array2<char>, ghost queens: seq<int>)
    ensures r == Aborted <==> SizeOf(args, stdinN).None?
    ensures r == InvalidN <==> SizeOf(args, stdinN).Some? && SizeOf(args, stdinN).value < 1
    ensures r.Final? ==> board.Length0 == board.Length1 == SizeOf(args, stdinN).value
    ensures r.Final? && r.solved ==>
      Solution(queens, board.Length0) && Represents(board, queens) && FirstFrom(queens, [], board.Length0)
    ensures r.Final? && !r.solved ==> (forall s :: !Solution(s, board.Length0)) && Represents(board, [])
  {
    board := new char[0, 0];
    queens := [];
    var size := SizeOf(args, stdinN);
    if size.None? {
      return Aborted, board, queens;
    }
    var n := size.value;
    if n < 1 {
      return InvalidN, board, queens;
    }
    board := new char[n, n]((_, _) => '.');
    var solved;
    solved, queens := Solve(board, 0, []);
    if !solved {
      NoneAtAll(n);
    }
    r := Final(solved);
  }
}
