/** Clients of the solver: what its contract alone lets a caller conclude about
    particular starting grids. */
module SudokuScenarios {
  import opened SudokuGrid
  import opened SudokuChecker
  import opened SudokuSolving

  /** A filled board built from shifted rows: row i is 1..9 rotated left by
      3 * (i % 3) + i / 3. */
  function PatternValue(i: int, j: int): int
    requires InGrid(i, j)
  {
    (BlockSize * (i % BlockSize) + i / BlockSize + j) % Size + 1
  }

  function PatternBoard(): (g: Board)
    ensures WellFormed(g) && forall i, j :: InGrid(i, j) ==> g[i][j] == PatternValue(i, j)
  {
    seq(Size, i requires 0 <= i < Size => seq(Size, j requires 0 <= j < Size => PatternValue(i, j)))
  }

  /** Two numbers less than 9 apart with the same remainder modulo 9 are equal. */
  lemma ModNine(x: int, y: int)
    requires 0 <= x && 0 <= y && -Size < x - y < Size && x % Size == y % Size
    ensures x == y
  {
  }

  /** Row shift of the pattern; distinct rows have distinct shifts. */
  function Shift(i: int): int {
    BlockSize * (i % BlockSize) + i / BlockSize
  }

  lemma ShiftInjective(i1: int, i2: int)
    requires 0 <= i1 < Size && 0 <= i2 < Size && Shift(i1) == Shift(i2)
    ensures i1 == i2
  {
    assert Shift(i1) / BlockSize == i1 % BlockSize && Shift(i1) % BlockSize == i1 / BlockSize;
    assert Shift(i2) / BlockSize == i2 % BlockSize && Shift(i2) % BlockSize == i2 / BlockSize;
  }

  /** The pattern board obeys the Sudoku rule, so it is a valid complete grid. */
  lemma PatternValid()
    ensures IsComplete(PatternBoard()) && FieldValid(PatternBoard())
  {
    var g := PatternBoard();
    forall i1, j1, i2, j2 | Peers(i1, j1, i2, j2) && g[i1][j1] != Empty
      ensures g[i1][j1] != g[i2][j2]
    {
      var x, y := Shift(i1) + j1, Shift(i2) + j2;
      assert g[i1][j1] == x % Size + 1 && g[i2][j2] == y % Size + 1;
      if x % Size == y % Size {
        if i1 == i2 {
          ModNine(x, y);
        } else if j1 == j2 {
          ModNine(x, y);
          ShiftInjective(i1, i2);
        } else {
          // same block: the offsets inside the block differ by less than 9
          var t, u := i1 / BlockSize, j1 / BlockSize;
          assert x == BlockSize * (i1 % BlockSize) + j1 % BlockSize + t + BlockSize * u;
          assert y == BlockSize * (i2 % BlockSize) + j2 % BlockSize + t + BlockSize * u;
          ModNine(x, y);
        }
      }
    }
    FieldValidMeaning(g);
  }

  /** Solving the all-zero grid succeeds, with a complete grid that obeys the rule. */
  method SolveEmptyGrid() returns (solved: bool, result: Board)
    ensures solved
    ensures WellFormed(result) && IsComplete(result) && FieldValid(result)
  {
    var solver := new SudokuSolver(null);
    solved := solver.Solve();
    result := solver.Snapshot();
    if !solved {
      PatternValid();
      assert false;
    }
  }

  /** The grid with two 9s at the start of the first row and zeros elsewhere. */
  function TwoNinesBoard(): (g: Board)
    ensures WellFormed(g)
    ensures g[0][0] == 9 && g[0][1] == 9
    ensures forall i, j :: InGrid(i, j) && (i != 0 || j >= 2) ==> g[i][j] == Empty
  {
    seq(Size, i => seq(Size, j => if i == 0 && j < 2 then 9 else Empty))
  }

  /** No completion of a grid whose first row repeats 9 obeys the rule. */
  lemma TwoNinesHasNoValidCompletion(h: Board)
    requires Completion(TwoNinesBoard(), h)
    ensures !FieldValid(h)
  {
    assert !CheckOneCell(h, 0, 0);
  }

  /** Solving a grid with a repeated digit in a row fails and restores the grid. */
  method SolveTwoNines() returns (solved: bool, result: Board)
    ensures !solved
    ensures result == TwoNinesBoard()
  {
    var a := new int[Size, Size]((i, j) => if i == 0 && j < 2 then 9 else Empty);
    var solver := new SudokuSolver(a);
    BoardsEqual(solver.board, TwoNinesBoard());
    solved := solver.Solve();
    result := solver.Snapshot();
    if solved {
      assert !IsComplete(TwoNinesBoard()) by { assert TwoNinesBoard()[1][0] == Empty; }
      TwoNinesHasNoValidCompletion(result);
    }
  }

  /** Solving a board that is already complete changes nothing and succeeds. */
  method SolveCompleteGrid() returns (solved: bool, result: Board)
    ensures solved
    ensures result == PatternBoard()
  {
    var a := new int[Size, Size]((i, j) requires InGrid(i, j) => PatternValue(i, j));
    var solver := new SudokuSolver(a);
    BoardsEqual(solver.board, PatternBoard());
    PatternValid();
    solved := solver.Solve();
    result := solver.Snapshot();
  }

  /** Solving a complete grid accepts it without checking it: a grid of all 1s is
      reported solved although every row repeats a digit. */
  method SolveCompleteInvalidGrid() returns (solved: bool, result: Board)
    ensures solved
    ensures WellFormed(result) && IsComplete(result) && !FieldValid(result)
  {
    var a := new int[Size, Size]((i, j) => 1);
    var solver := new SudokuSolver(a);
    solved := solver.Solve();
    result := solver.Snapshot();
    assert !CheckOneCell(result, 0, 0) by { assert result[0][0] == result[0][1]; }
  }
}
