/** The backtracking solver: an object that owns the 9x9 grid as a mutable
    two-dimensional array and fills its empty cells in place. */
module SudokuSolving {
  import opened SudokuGrid
  import opened SudokuChecker

  class SudokuSolver {
    var field: array2<int>
    /** The contents of field, as a board value. */
    ghost var board: Board

    /** The grid has the fixed 9x9 shape the search and the block arithmetic assume,
        and board is its contents. */
    ghost predicate Valid()
      reads this, field
    {
      field.Length0 == Size && field.Length1 == Size && WellFormed(board) &&
      forall i, j :: InGrid(i, j) ==> field[i, j] == board[i][j]
    }

    /** The current contents of the grid, read into a board value. */
    function Snapshot(): (g: Board)
      requires Valid()
      reads this, field
      ensures g == board
    {
      var g := Contents(field);
      BoardsEqual(g, board);
      g
    }

    /** Without a grid the solver starts from an all-zero 9x9 grid; otherwise it
        keeps (and from then on mutates) the grid it is given. */
    constructor (initial: array2?<int>)
      requires initial != null ==> initial.Length0 == Size && initial.Length1 == Size
      ensures Valid()
      ensures initial != null ==> field == initial && board == Contents(initial)
      ensures initial == null ==> fresh(field) && forall i, j :: InGrid(i, j) ==> board[i][j] == Empty
    {
      var f: array2<int>;
      if initial == null {
        f := new int[Size, Size]((i, j) => Empty);
      } else {
        f := initial;
      }
      field := f;
      board := Contents(f);
    }

    /** check_field: reads the grid once (check_field does not change it) and scans
        its 81 cells. */
    method CheckField() returns (ok: bool)
      requires Valid()
      ensures ok == FieldValid(board)
    {
      var g := Snapshot();
      ok := ScanField(g);
    }

    /** Writes v into cell (i, j) of the grid, as `field[i, j] = v` does. */
    method Place(i: int, j: int, v: int)
      requires Valid() && InGrid(i, j)
      modifies this, field
      ensures Valid() && field == old(field)
      ensures board == Update(old(board), i, j, v)
    {
      field[i, j] := v;
      board := Update(board, i, j, v);
    }

    /** solve: fills the first empty cell (row-major) with 1..9 in turn, keeps a digit
        only when the whole grid stays valid and the rest can be solved, and otherwise
        empties the cell again and gives up on this grid. */
    method Solve() returns (solved: bool)
      requires Valid()
      modifies this, field
      ensures Valid() && field == old(field)
      // an already complete grid is accepted as it is
      ensures IsComplete(old(board)) ==> solved && board == old(board)
      // on failure every write has been undone
      ensures !solved ==> board == old(board)
      // on success the given cells are kept and every empty cell now holds a digit 1..9
      ensures solved ==> Completion(old(board), board) && IsComplete(board)
      ensures solved && !IsComplete(old(board)) ==> FieldValid(board)
      // the search is exhaustive: failure means no completion is valid
      ensures !solved ==> NoSolution(old(board))
      decreases ZeroCount(board)
    {
      if IsComplete(Snapshot()) {
        CompletionOfComplete(board);
        return true;
      }
      var i, j := FirstEmpty();
      ghost var g0 := board;
      for num := 1 to 10
        invariant Valid() && field == old(field) && board == g0
        invariant NoSolutionBelow(g0, i, j, num)
      {
        Place(i, j, num);
        var valid := CheckField();
        if valid {
          ZeroCountUpdate(g0, i, j, num);
          var rest := Solve();
          if rest {
            CompletionStep(g0, i, j, num, board);
            return true;
          }
        }
        DigitFails(g0, i, j, num);
        Place(i, j, Empty);
        UpdateUndone(g0, i, j, num);
      }
      NoSolutionExhausted(g0, i, j);
      return false;
    }

    /** The scan of solve's two outer loops: the first cell, in row-major order,
        that holds 0. */
    method FirstEmpty() returns (i: int, j: int)
      requires Valid() && !IsComplete(board)
      ensures InGrid(i, j) && board[i][j] == Empty
      ensures forall a, b :: InGrid(a, b) && (a < i || (a == i && b < j)) ==> board[a][b] != Empty
    {
      for r := 0 to Size
        invariant forall a, b :: 0 <= a < r && 0 <= b < Size ==> board[a][b] != Empty
      {
        for c := 0 to Size
          invariant forall a, b :: 0 <= a < r && 0 <= b < Size ==> board[a][b] != Empty
          invariant forall b :: 0 <= b < c ==> board[r][b] != Empty
        {
          if field[r, c] == Empty {
            return r, c;
          }
        }
      }
      assert false;
    }
  }

  /** The loops of check_field: the 81 cells in row-major order, stopping at the first
      cell whose row, column or block is invalid. */
  method ScanField(g: Board) returns (ok: bool)
    requires WellFormed(g)
    ensures ok == FieldValid(g)
  {
    for i := 0 to Size
      invariant forall a, b :: 0 <= a < i && 0 <= b < Size ==> CheckOneCell(g, a, b)
    {
      for j := 0 to Size
        invariant forall a, b :: 0 <= a < i && 0 <= b < Size ==> CheckOneCell(g, a, b)
        invariant forall b :: 0 <= b < j ==> CheckOneCell(g, i, b)
      {
        if !CheckOneCell(g, i, j) {
          return false;
        }
      }
    }
    return true;
  }

  /** The cells of a 9x9 array, row by row. */
  function Contents(a: array2<int>): (g: Board)
    requires a.Length0 == Size && a.Length1 == Size
    reads a
    ensures WellFormed(g)
    ensures forall i, j :: InGrid(i, j) ==> g[i][j] == a[i, j]
  {
    seq(Size, i requires 0 <= i < a.Length0 && a.Length1 == Size reads a =>
      seq(Size, j requires 0 <= i < a.Length0 && 0 <= j < a.Length1 reads a => a[i, j]))
  }

  /** No completion of g with digits 1..9 obeys the Sudoku rule. */
  ghost predicate NoSolution(g: Board) {
    forall h :: Completion(g, h) ==> !FieldValid(h)
  }

  /** No valid completion of g puts a digit below n at the empty cell (i, j). */
  ghost predicate NoSolutionBelow(g: Board, i: int, j: int, n: int)
    requires InGrid(i, j)
  {
    forall h :: Completion(g, h) && h[i][j] < n ==> !FieldValid(h)
  }

  /** Once every digit 1..9 has been ruled out at an empty cell, g has no solution. */
  lemma NoSolutionExhausted(g: Board, i: int, j: int)
    requires WellFormed(g) && InGrid(i, j) && g[i][j] == Empty
    requires NoSolutionBelow(g, i, j, 10)
    ensures NoSolution(g)
  {
  }

  /** Digit v at the empty cell (i, j) leads nowhere when placing it breaks the rule or
      leaves a board without solution; then every candidate below v + 1 is ruled out. */
  lemma DigitFails(g: Board, i: int, j: int, v: int)
    requires WellFormed(g) && InGrid(i, j) && g[i][j] == Empty
    requires NoSolutionBelow(g, i, j, v)
    requires !FieldValid(Update(g, i, j, v)) || NoSolution(Update(g, i, j, v))
    ensures NoSolutionBelow(g, i, j, v + 1)
  {
    var g1 := Update(g, i, j, v);
    forall h | Completion(g, h) && h[i][j] < v + 1 ensures !FieldValid(h) {
      if h[i][j] == v {
        CompletionRefines(g, i, j, v, h);
        if FieldValid(h) {
          FieldValidAgrees(g1, h);
        }
      }
    }
  }

  /** Emptying the cell again restores the board. */
  lemma UpdateUndone(g: Board, i: int, j: int, v: int)
    requires WellFormed(g) && InGrid(i, j) && g[i][j] == Empty
    ensures Update(Update(g, i, j, v), i, j, Empty) == g
  {
    assert Update(Update(g, i, j, v), i, j, Empty)[i] == g[i];
  }

  /** A complete board is its own only completion. */
  lemma CompletionOfComplete(g: Board)
    requires WellFormed(g) && IsComplete(g)
    ensures Completion(g, g)
  {
  }

  /** A completion of the board with one more digit placed is a completion of the
      board without it. */
  lemma CompletionStep(g: Board, i: int, j: int, v: int, h: Board)
    requires WellFormed(g) && InGrid(i, j) && g[i][j] == Empty && 1 <= v <= 9
    requires Completion(Update(g, i, j, v), h)
    ensures Completion(g, h)
  {
  }

  /** A completion of g that puts v at (i, j) completes g with v placed there. */
  lemma CompletionRefines(g: Board, i: int, j: int, v: int, h: Board)
    requires WellFormed(g) && InGrid(i, j) && g[i][j] == Empty
    requires Completion(g, h) && h[i][j] == v
    ensures Completion(Update(g, i, j, v), h) && Agrees(Update(g, i, j, v), h)
  {
  }
}
