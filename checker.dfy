/** The constraint checker: predicates over a snapshot of the board that say
    whether a row, a column, a 3x3 block, the units of one cell, or the whole
    board repeats a digit. Empty cells (0) never count as a repetition. */
module SudokuChecker {
  import opened SudokuGrid

  /** The nonzero entries of s, in order (the boolean mask `s != 0`). */
  function NonZeros(s: seq<int>): (r: seq<int>)
    ensures |r| <= |s|
    ensures forall x :: x in r <==> x != Empty && x in s
  {
    if s == [] then []
    else if s[0] == Empty then NonZeros(s[1..])
    else [s[0]] + NonZeros(s[1..])
  }

  /** The mask keeps every nonzero entry as often as it occurs and drops every 0. */
  lemma {:induction false} NonZerosMultiset(s: seq<int>)
    ensures multiset(NonZeros(s)) == multiset(s)[Empty := 0]
  {
    if s != [] {
      NonZerosMultiset(s[1..]);
      assert s == [s[0]] + s[1..];
    }
  }

  /** The set of values occurring in s (what a unique-values count measures). */
  function Elements(s: seq<int>): set<int> {
    set x | x in s
  }

  /** No value occurs twice in s. */
  ghost predicate Distinct(s: seq<int>) {
    forall p, q :: 0 <= p < |s| && 0 <= q < |s| && p != q ==> s[p] != s[q]
  }

  /** Two different positions of s never hold the same nonzero value. */
  ghost predicate NoRepeatedDigit(s: seq<int>) {
    forall p, q :: 0 <= p < |s| && 0 <= q < |s| && p != q && s[p] != Empty ==> s[p] != s[q]
  }

  lemma {:induction false} ElementsBound(s: seq<int>)
    ensures |Elements(s)| <= |s|
  {
    if s != [] {
      ElementsBound(s[1..]);
      assert Elements(s) == {s[0]} + Elements(s[1..]);
    }
  }

  /** Counting the distinct values of s gives |s| exactly when no value repeats. */
  lemma {:induction false} ElementsDistinct(s: seq<int>)
    ensures |Elements(s)| == |s| <==> Distinct(s)
  {
    if s != [] {
      var t := s[1..];
      ElementsDistinct(t);
      assert Elements(s) == {s[0]} + Elements(t);
      assert forall k :: 1 <= k < |s| ==> s[k] == t[k - 1];
      if s[0] in t {
        ElementsBound(t);
        var k :| 0 <= k < |t| && t[k] == s[0];
        assert s[k + 1] == s[0];
      } else {
        assert Distinct(s) <==> Distinct(t);
      }
    }
  }

  /** Keeping only the nonzero entries leaves a repetition-free sequence exactly when
      s repeats no nonzero value. */
  lemma {:induction false} NonZerosDistinct(s: seq<int>)
    ensures Distinct(NonZeros(s)) <==> NoRepeatedDigit(s)
  {
    if s != [] {
      var t := s[1..];
      NonZerosDistinct(t);
      assert forall k :: 1 <= k < |s| ==> s[k] == t[k - 1];
      if s[0] == Empty {
        assert NonZeros(s) == NonZeros(t);
        assert NoRepeatedDigit(s) <==> NoRepeatedDigit(t) by {
          if NoRepeatedDigit(t) {
            forall p, q | 0 <= p < |s| && 0 <= q < |s| && p != q && s[p] != Empty
              ensures s[p] != s[q]
            {
              if q > 0 { assert t[p - 1] != Empty && p - 1 != q - 1; }
            }
          }
        }
      } else {
        var r := NonZeros(t);
        assert NonZeros(s) == [s[0]] + r;
        assert forall k :: 1 <= k < |NonZeros(s)| ==> NonZeros(s)[k] == r[k - 1];
        assert Distinct(NonZeros(s)) <==> s[0] !in r && Distinct(r) by {
          if s[0] in r {
            var k :| 0 <= k < |r| && r[k] == s[0];
            assert NonZeros(s)[k + 1] == NonZeros(s)[0];
          }
          var ns := NonZeros(s);
          if Distinct(ns) {
            forall p, q | 0 <= p < |r| && 0 <= q < |r| && p != q ensures r[p] != r[q] {
              assert ns[p + 1] == r[p] && ns[q + 1] == r[q];
            }
          }
          if s[0] !in r && Distinct(r) {
            forall p, q | 0 <= p < |ns| && 0 <= q < |ns| && p != q ensures ns[p] != ns[q] {
              if p == 0 {
                assert ns[q] == r[q - 1];
              } else if q == 0 {
                assert ns[p] == r[p - 1];
              } else {
                assert ns[p] == r[p - 1] && ns[q] == r[q - 1];
              }
            }
          }
        }
        assert NoRepeatedDigit(s) <==> s[0] !in t && NoRepeatedDigit(t) by {
          if s[0] in t {
            var k :| 0 <= k < |t| && t[k] == s[0];
            assert s[k + 1] == s[0];
          }
          if s[0] !in t && NoRepeatedDigit(t) {
            forall p, q | 0 <= p < |s| && 0 <= q < |s| && p != q && s[p] != Empty
              ensures s[p] != s[q]
            {
              if p == 0 {
                assert s[q] == t[q - 1];
              } else if q == 0 {
                assert s[p] == t[p - 1];
              } else {
                assert t[p - 1] != Empty && p - 1 != q - 1;
              }
            }
          }
        }
      }
    }
  }

  /** check_sequence: the unique nonzero values are as many as the nonzero values.
      That holds exactly when no nonzero value repeats; any number of empty cells is allowed. */
  function CheckSequence(s: seq<int>): (ok: bool)
    ensures ok <==> NoRepeatedDigit(s)
  {
    var nonZeros := NonZeros(s);
    ElementsDistinct(nonZeros);
    NonZerosDistinct(s);
    |Elements(nonZeros)| == |nonZeros|
  }

  /** Row r of the board. */
  function Row(g: Board, r: int): (s: seq<int>)
    requires WellFormed(g) && 0 <= r < Size
    ensures |s| == Size && forall j :: 0 <= j < Size ==> s[j] == g[r][j]
  {
    g[r]
  }

  /** Column c of the board, top to bottom. */
  function Column(g: Board, c: int): (s: seq<int>)
    requires WellFormed(g) && 0 <= c < Size
    ensures |s| == Size && forall i :: 0 <= i < Size ==> s[i] == g[i][c]
  {
    seq(Size, i requires 0 <= i < Size => g[i][c])
  }

  /** First row (or column) of the block that contains row (or column) x. */
  function BlockOrigin(x: int): int
    requires 0 <= x < Size
  {
    x / BlockSize * BlockSize
  }

  /** Cells (r, c) and (i, j) lie in the same 3x3 block. */
  predicate SameBlock(r: int, c: int, i: int, j: int) {
    InGrid(r, c) && InGrid(i, j) && r / BlockSize == i / BlockSize && c / BlockSize == j / BlockSize
  }

  /** The block containing cell (r, c), read row by row into a single sequence. */
  function Block(g: Board, r: int, c: int): (s: seq<int>)
    requires WellFormed(g) && InGrid(r, c)
    ensures |s| == Size
    ensures forall i, j {:trigger s[BlockIndex(i, j)]} :: SameBlock(r, c, i, j) ==>
      0 <= BlockIndex(i, j) < Size && s[BlockIndex(i, j)] == g[i][j]
  {
    var br, bc := BlockOrigin(r), BlockOrigin(c);
    BlockIndexSplit(r, c);
    seq(Size, k requires 0 <= k < Size => g[br + k / BlockSize][bc + k % BlockSize])
  }

  /** Each cell of the block of (r, c) is found again from its position in the block. */
  lemma BlockIndexSplit(r: int, c: int)
    ensures forall i, j :: SameBlock(r, c, i, j) ==>
      0 <= BlockIndex(i, j) < Size &&
      BlockOrigin(r) + BlockIndex(i, j) / BlockSize == i &&
      BlockOrigin(c) + BlockIndex(i, j) % BlockSize == j
  {
    forall i, j | SameBlock(r, c, i, j)
      ensures 0 <= BlockIndex(i, j) < Size
      ensures BlockOrigin(r) + BlockIndex(i, j) / BlockSize == i
      ensures BlockOrigin(c) + BlockIndex(i, j) % BlockSize == j
    {
      var k := BlockIndex(i, j);
      assert k / BlockSize == i % BlockSize && k % BlockSize == j % BlockSize;
    }
  }

  /** Position k of a block sequence comes from the block cell at offset (k / 3, k % 3). */
  lemma BlockEntry(g: Board, r: int, c: int, k: int)
    requires WellFormed(g) && InGrid(r, c) && 0 <= k < Size
    ensures SameBlock(r, c, BlockOrigin(r) + k / BlockSize, BlockOrigin(c) + k % BlockSize)
    ensures Block(g, r, c)[k] == g[BlockOrigin(r) + k / BlockSize][BlockOrigin(c) + k % BlockSize]
  {
  }

  /** Where cell (i, j) sits inside its block's sequence. */
  function BlockIndex(i: int, j: int): int {
    i % BlockSize * BlockSize + j % BlockSize
  }

  /** Distinct cells of one block sit at distinct positions of its sequence. */
  lemma BlockIndexInjective(r: int, c: int, i1: int, j1: int, i2: int, j2: int)
    requires SameBlock(r, c, i1, j1) && SameBlock(r, c, i2, j2)
    requires BlockIndex(i1, j1) == BlockIndex(i2, j2)
    ensures i1 == i2 && j1 == j2
  {
    var k := BlockIndex(i1, j1);
    assert k / BlockSize == i1 % BlockSize && k % BlockSize == j1 % BlockSize;
    assert k / BlockSize == i2 % BlockSize && k % BlockSize == j2 % BlockSize;
  }

  /** Two different cells of row r never hold the same nonzero value. */
  ghost predicate RowClashFree(g: Board, r: int)
    requires WellFormed(g) && 0 <= r < Size
  {
    forall a, b :: 0 <= a < Size && 0 <= b < Size && a != b && g[r][a] != Empty ==> g[r][a] != g[r][b]
  }

  /** Two different cells of column c never hold the same nonzero value. */
  ghost predicate ColumnClashFree(g: Board, c: int)
    requires WellFormed(g) && 0 <= c < Size
  {
    forall a, b :: 0 <= a < Size && 0 <= b < Size && a != b && g[a][c] != Empty ==> g[a][c] != g[b][c]
  }

  /** Two different cells of the block containing (r, c) never hold the same nonzero value. */
  ghost predicate BlockClashFree(g: Board, r: int, c: int)
    requires WellFormed(g) && InGrid(r, c)
  {
    forall i1, j1, i2, j2 ::
      SameBlock(r, c, i1, j1) && SameBlock(r, c, i2, j2) && (i1 != i2 || j1 != j2) && g[i1][j1] != Empty
      ==> g[i1][j1] != g[i2][j2]
  }

  /** check_row */
  function CheckRow(g: Board, r: int): (ok: bool)
    requires WellFormed(g) && 0 <= r < Size
    ensures ok <==> RowClashFree(g, r)
  {
    CheckSequence(Row(g, r))
  }

  /** check_column */
  function CheckColumn(g: Board, c: int): (ok: bool)
    requires WellFormed(g) && 0 <= c < Size
    ensures ok <==> ColumnClashFree(g, c)
  {
    CheckSequence(Column(g, c))
  }

  /** check_block: the block is found from the origin (r / 3 * 3, c / 3 * 3). */
  function CheckBlock(g: Board, r: int, c: int): (ok: bool)
    requires WellFormed(g) && InGrid(r, c)
    ensures ok <==> BlockClashFree(g, r, c)
  {
    BlockSequenceMeaning(g, r, c);
    CheckSequence(Block(g, r, c))
  }

  lemma BlockSequenceMeaning(g: Board, r: int, c: int)
    requires WellFormed(g) && InGrid(r, c)
    ensures NoRepeatedDigit(Block(g, r, c)) <==> BlockClashFree(g, r, c)
  {
    var s := Block(g, r, c);
    if NoRepeatedDigit(s) {
      forall i1, j1, i2, j2 |
        SameBlock(r, c, i1, j1) && SameBlock(r, c, i2, j2) && (i1 != i2 || j1 != j2) && g[i1][j1] != Empty
        ensures g[i1][j1] != g[i2][j2]
      {
        assert s[BlockIndex(i1, j1)] == g[i1][j1] && s[BlockIndex(i2, j2)] == g[i2][j2];
        if BlockIndex(i1, j1) == BlockIndex(i2, j2) {
          BlockIndexInjective(r, c, i1, j1, i2, j2);
        }
      }
    }
    if BlockClashFree(g, r, c) {
      forall p, q | 0 <= p < |s| && 0 <= q < |s| && p != q && s[p] != Empty
        ensures s[p] != s[q]
      {
        BlockEntry(g, r, c, p);
        BlockEntry(g, r, c, q);
      }
    }
  }

  /** All cells of one block give the same answer to check_block. */
  lemma CheckBlockSameBlock(g: Board, r: int, c: int, i: int, j: int)
    requires WellFormed(g) && SameBlock(r, c, i, j)
    ensures CheckBlock(g, r, c) == CheckBlock(g, i, j)
  {
  }

  /** check_one_cell: the row, the column and the block of (r, c) are all valid. */
  function CheckOneCell(g: Board, r: int, c: int): (ok: bool)
    requires WellFormed(g) && InGrid(r, c)
    ensures ok <==> RowClashFree(g, r) && ColumnClashFree(g, c) && BlockClashFree(g, r, c)
  {
    CheckRow(g, r) && CheckColumn(g, c) && CheckBlock(g, r, c)
  }

  /** What check_field computes: check_one_cell holds at every one of the 81 cells. */
  ghost predicate FieldValid(g: Board)
    requires WellFormed(g)
  {
    forall i, j :: InGrid(i, j) ==> CheckOneCell(g, i, j)
  }

  /** Cells (i1, j1) and (i2, j2) share a row, a column or a block. */
  predicate Peers(i1: int, j1: int, i2: int, j2: int) {
    InGrid(i1, j1) && InGrid(i2, j2) && (i1 != i2 || j1 != j2) &&
    (i1 == i2 || j1 == j2 || (i1 / BlockSize == i2 / BlockSize && j1 / BlockSize == j2 / BlockSize))
  }

  /** The Sudoku rule: no two peer cells hold the same digit. */
  ghost predicate NoConflict(g: Board)
    requires WellFormed(g)
  {
    forall i1, j1, i2, j2 :: Peers(i1, j1, i2, j2) && g[i1][j1] != Empty ==> g[i1][j1] != g[i2][j2]
  }

  /** check_field holds exactly when the board obeys the Sudoku rule. */
  lemma FieldValidMeaning(g: Board)
    requires WellFormed(g)
    ensures FieldValid(g) <==> NoConflict(g)
  {
    if FieldValid(g) {
      FieldValidNoConflict(g);
    }
    if NoConflict(g) {
      NoConflictFieldValid(g);
    }
  }

  lemma FieldValidNoConflict(g: Board)
    requires WellFormed(g) && FieldValid(g)
    ensures NoConflict(g)
  {
    forall i1, j1, i2, j2 | Peers(i1, j1, i2, j2) && g[i1][j1] != Empty
      ensures g[i1][j1] != g[i2][j2]
    {
      PeerDiffers(g, i1, j1, i2, j2);
    }
  }

  /** A cell whose units pass check_one_cell differs from each of its peers. */
  lemma PeerDiffers(g: Board, i1: int, j1: int, i2: int, j2: int)
    requires WellFormed(g) && Peers(i1, j1, i2, j2) && g[i1][j1] != Empty
    requires CheckOneCell(g, i1, j1)
    ensures g[i1][j1] != g[i2][j2]
  {
    if i1 == i2 {
      assert RowClashFree(g, i1);
    } else if j1 == j2 {
      assert ColumnClashFree(g, j1);
    } else {
      assert BlockClashFree(g, i1, j1);
      assert SameBlock(i1, j1, i1, j1) && SameBlock(i1, j1, i2, j2);
    }
  }

  lemma NoConflictFieldValid(g: Board)
    requires WellFormed(g) && NoConflict(g)
    ensures FieldValid(g)
  {
    forall i, j | InGrid(i, j) ensures CheckOneCell(g, i, j) {
      NoConflictCell(g, i, j);
    }
  }

  /** On a board that obeys the rule, every cell passes check_one_cell. */
  lemma NoConflictCell(g: Board, i: int, j: int)
    requires WellFormed(g) && NoConflict(g) && InGrid(i, j)
    ensures CheckOneCell(g, i, j)
  {
    forall a, b | 0 <= a < Size && 0 <= b < Size && a != b && g[i][a] != Empty
      ensures g[i][a] != g[i][b]
    {
      assert Peers(i, a, i, b);
    }
    forall a, b | 0 <= a < Size && 0 <= b < Size && a != b && g[a][j] != Empty
      ensures g[a][j] != g[b][j]
    {
      assert Peers(a, j, b, j);
    }
    forall i1, j1, i2, j2 |
      SameBlock(i, j, i1, j1) && SameBlock(i, j, i2, j2) && (i1 != i2 || j1 != j2) && g[i1][j1] != Empty
      ensures g[i1][j1] != g[i2][j2]
    {
      assert Peers(i1, j1, i2, j2);
    }
  }

  /** check_field holds exactly when every row, every column and every block check passes. */
  lemma FieldValidUnits(g: Board)
    requires WellFormed(g)
    ensures FieldValid(g) <==>
      (forall r :: 0 <= r < Size ==> CheckRow(g, r)) &&
      (forall c :: 0 <= c < Size ==> CheckColumn(g, c)) &&
      (forall r, c :: InGrid(r, c) ==> CheckBlock(g, r, c))
  {
    if FieldValid(g) {
      forall r | 0 <= r < Size ensures CheckRow(g, r) { assert CheckOneCell(g, r, 0); }
      forall c | 0 <= c < Size ensures CheckColumn(g, c) { assert CheckOneCell(g, 0, c); }
    }
  }

  /** A valid board stays valid when cells are emptied: if h agrees with g on the
      nonzero cells of g and h is valid, so is g. */
  lemma FieldValidAgrees(g: Board, h: Board)
    requires Agrees(g, h) && FieldValid(h)
    ensures FieldValid(g)
  {
    FieldValidMeaning(g);
    FieldValidMeaning(h);
    forall i1, j1, i2, j2 | Peers(i1, j1, i2, j2) && g[i1][j1] != Empty
      ensures g[i1][j1] != g[i2][j2]
    {
      if g[i2][j2] != Empty {
        assert h[i1][j1] != h[i2][j2];
      }
    }
  }

  /** is_complete: the board holds no 0. */
  function IsComplete(g: Board): (ok: bool)
    requires WellFormed(g)
    ensures ok <==> forall i, j :: InGrid(i, j) ==> g[i][j] != Empty
  {
    ZeroCountNone(g);
    ZeroCount(g) == 0
  }
}
