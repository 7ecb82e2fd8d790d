/** The Sudoku board as a value: a 9x9 matrix of integers in which 0 marks an
    empty cell. The solver's search works on this view, one cell write at a time. */
module SudokuGrid {

  /** Side of the grid and of one block; the search and the block arithmetic fix them. */
  const Size: int := 9
  const BlockSize: int := 3

  /** The value of an empty cell. */
  const Empty: int := 0

  type Board = seq<seq<int>>

  /** A board with 9 rows of 9 cells each. */
  predicate WellFormed(g: Board) {
    |g| == Size && forall i :: 0 <= i < |g| ==> |g[i]| == Size
  }

  /** True when (i, j) addresses a cell of the grid. */
  predicate InGrid(i: int, j: int) {
    0 <= i < Size && 0 <= j < Size
  }

  /** The board with the single cell (i, j) overwritten by v. */
  function Update(g: Board, i: int, j: int, v: int): (h: Board)
    requires WellFormed(g) && InGrid(i, j)
    ensures WellFormed(h)
    ensures h[i][j] == v
    ensures forall a, b :: InGrid(a, b) && (a != i || b != j) ==> h[a][b] == g[a][b]
  {
    g[i := g[i][j := v]]
  }

  /** Boards are equal when they agree cell by cell. */
  lemma BoardsEqual(g: Board, h: Board)
    requires WellFormed(g) && WellFormed(h)
    requires forall i, j :: InGrid(i, j) ==> g[i][j] == h[i][j]
    ensures g == h
  {
    forall i | 0 <= i < Size ensures g[i] == h[i] {
      assert forall j :: 0 <= j < Size ==> g[i][j] == h[i][j];
    }
  }

  /** The number of empty entries of a sequence of cells. */
  function CountZeros(s: seq<int>): nat {
    if s == [] then 0 else (if s[0] == Empty then 1 else 0) + CountZeros(s[1..])
  }

  /** The number of empty cells of a board, row after row. */
  function ZeroCount(g: Board): nat {
    if g == [] then 0 else CountZeros(g[0]) + ZeroCount(g[1..])
  }

  lemma {:induction false} CountZerosNone(s: seq<int>)
    ensures CountZeros(s) == 0 <==> forall k :: 0 <= k < |s| ==> s[k] != Empty
  {
    if s != [] {
      CountZerosNone(s[1..]);
      assert forall k :: 1 <= k < |s| ==> s[k] == s[1..][k - 1];
    }
  }

  /** A board has no empty cell exactly when its zero count is 0. */
  lemma {:induction false} ZeroCountNone(g: Board)
    requires WellFormed(g)
    ensures ZeroCount(g) == 0 <==> forall i, j :: InGrid(i, j) ==> g[i][j] != Empty
  {
    ZeroCountNoneFrom(g, 0);
  }

  lemma {:induction false} ZeroCountNoneFrom(g: Board, n: nat)
    requires n <= |g| && forall i :: 0 <= i < |g| ==> |g[i]| == Size
    ensures ZeroCount(g[n..]) == 0 <==> forall i, j :: n <= i < |g| && 0 <= j < Size ==> g[i][j] != Empty
    decreases |g| - n
  {
    if n < |g| {
      assert g[n..][0] == g[n];
      assert g[n..][1..] == g[n + 1..];
      ZeroCountNoneFrom(g, n + 1);
      CountZerosNone(g[n]);
    }
  }

  /** Writing a nonzero value into an empty entry removes exactly one empty entry. */
  lemma {:induction false} CountZerosWrite(s: seq<int>, j: int, v: int)
    requires 0 <= j < |s| && s[j] == Empty && v != Empty
    ensures CountZeros(s[j := v]) == CountZeros(s) - 1
  {
    if j > 0 {
      assert s[j := v][1..] == s[1..][j - 1 := v];
      CountZerosWrite(s[1..], j - 1, v);
    } else {
      assert s[j := v][1..] == s[1..];
    }
  }

  lemma {:induction false} ZeroCountRow(g: Board, i: int, row: seq<int>)
    requires 0 <= i < |g|
    ensures ZeroCount(g[i := row]) == ZeroCount(g) - CountZeros(g[i]) + CountZeros(row)
  {
    if i > 0 {
      assert g[i := row][1..] == g[1..][i - 1 := row];
      ZeroCountRow(g[1..], i - 1, row);
    } else {
      assert g[i := row][1..] == g[1..];
    }
  }

  /** Filling an empty cell with a digit lowers the number of empty cells by one:
      the measure on which the solver's recursion terminates. */
  lemma ZeroCountUpdate(g: Board, i: int, j: int, v: int)
    requires WellFormed(g) && InGrid(i, j) && g[i][j] == Empty && v != Empty
    ensures ZeroCount(Update(g, i, j, v)) == ZeroCount(g) - 1
  {
    CountZerosWrite(g[i], j, v);
    ZeroCountRow(g, i, g[i][j := v]);
  }

  /** h is a completion of g: every given (nonzero) cell of g keeps its value and
      every empty cell of g holds a digit 1..9. */
  ghost predicate Completion(g: Board, h: Board) {
    WellFormed(g) && WellFormed(h) &&
    forall i, j :: InGrid(i, j) ==>
      if g[i][j] != Empty then h[i][j] == g[i][j] else 1 <= h[i][j] <= 9
  }

  /** Every nonzero cell of g holds the same value in h. */
  ghost predicate Agrees(g: Board, h: Board) {
    WellFormed(g) && WellFormed(h) &&
    forall i, j :: InGrid(i, j) && g[i][j] != Empty ==> h[i][j] == g[i][j]
  }
}
