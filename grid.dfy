/** The board: a square grid of cell values, its coordinates, and counting of empty cells.
    A board that the search explores is a value (`seq<seq<int>>`); the engine's live board is
    an `array2<int>` (see module Engine). */
module Grid {

  /** Side length of the square board. */
  const BoardSize: int := 3
  /** Number of cells on the board. */
  const CellCount: int := BoardSize * BoardSize

  /** Cell values: an empty cell and the two players' marks. */
  const Empty: int := 0
  const P1: int := 1
  const P2: int := 2

  datatype Option<T> = None | Some(value: T)

  /** The coordinates of one cell. */
  datatype Cell = Cell(row: int, column: int)

  type Board = seq<seq<int>>

  /** A board has BoardSize rows of BoardSize cells each. */
  predicate WellFormed(b: Board) {
    |b| == BoardSize && forall i :: 0 <= i < |b| ==> |b[i]| == BoardSize
  }

  predicate InRange(c: Cell) {
    0 <= c.row < BoardSize && 0 <= c.column < BoardSize
  }

  function At(b: Board, c: Cell): int
    requires WellFormed(b) && InRange(c)
  {
    b[c.row][c.column]
  }

  predicate IsEmptyAt(b: Board, c: Cell)
    requires WellFormed(b) && InRange(c)
  {
    At(b, c) == Empty
  }

  /** The board `b` with value `v` written into cell `c`. A board value is never shared,
      so this is the search's "copy the board, then write one cell into the copy". */
  function Place(b: Board, c: Cell, v: int): (r: Board)
    requires WellFormed(b) && InRange(c)
    ensures WellFormed(r)
    ensures At(r, c) == v
    ensures forall d :: InRange(d) && d != c ==> At(r, d) == At(b, d)
  {
    b[c.row := b[c.row][c.column := v]]
  }

  /** Cell `c` comes before position (i, j) of the row-major order: in an earlier row,
      or in row i left of column j. */
  predicate Before(c: Cell, i: int, j: int) {
    c.row < i || (c.row == i && c.column < j)
  }

  /** Number of empty cells in one row. */
  function RowEmpties(r: seq<int>): (n: nat)
    ensures n <= |r|
  {
    if r == [] then 0 else (if r[0] == Empty then 1 else 0) + RowEmpties(r[1..])
  }

  /** Number of empty cells on a board. */
  function EmptyCount(b: Board): nat {
    if b == [] then 0 else RowEmpties(b[0]) + EmptyCount(b[1..])
  }

  lemma {:induction false} RowEmptiesZero(r: seq<int>)
    ensures RowEmpties(r) == 0 <==> forall j :: 0 <= j < |r| ==> r[j] != Empty
  {
    if r != [] {
      RowEmptiesZero(r[1..]);
      assert forall j :: 1 <= j < |r| ==> r[j] == r[1..][j - 1];
    }
  }

  lemma {:induction false} RowEmptiesUpdate(r: seq<int>, j: int, v: int)
    requires 0 <= j < |r| && r[j] == Empty && v != Empty
    ensures RowEmpties(r[j := v]) == RowEmpties(r) - 1
  {
    if j > 0 {
      assert r[j := v][1..] == r[1..][j - 1 := v];
      RowEmptiesUpdate(r[1..], j - 1, v);
    } else {
      assert r[j := v][1..] == r[1..];
    }
  }

  lemma {:induction false} EmptyCountUpdate(b: Board, i: int, row: seq<int>)
    requires 0 <= i < |b|
    ensures EmptyCount(b[i := row]) == EmptyCount(b) - RowEmpties(b[i]) + RowEmpties(row)
  {
    if i > 0 {
      assert b[i := row][1..] == b[1..][i - 1 := row];
      EmptyCountUpdate(b[1..], i - 1, row);
    } else {
      assert b[i := row][1..] == b[1..];
    }
  }

  /** Filling an empty cell with a mark removes exactly one empty cell. */
  lemma PlaceFillsOne(b: Board, c: Cell, v: int)
    requires WellFormed(b) && InRange(c) && IsEmptyAt(b, c) && v != Empty
    ensures EmptyCount(Place(b, c, v)) == EmptyCount(b) - 1
  {
    RowEmptiesUpdate(b[c.row], c.column, v);
    EmptyCountUpdate(b, c.row, b[c.row][c.column := v]);
  }

  lemma {:induction false} EmptyCountBound(b: Board)
    requires forall i :: 0 <= i < |b| ==> |b[i]| == BoardSize
    ensures EmptyCount(b) <= |b| * BoardSize
  {
    if b != [] {
      EmptyCountBound(b[1..]);
    }
  }

  lemma {:induction false} EmptyCountZeroRows(b: Board)
    ensures EmptyCount(b) == 0 <==>
      forall i, j :: 0 <= i < |b| && 0 <= j < |b[i]| ==> b[i][j] != Empty
  {
    if b != [] {
      RowEmptiesZero(b[0]);
      EmptyCountZeroRows(b[1..]);
      assert forall i :: 1 <= i < |b| ==> b[i] == b[1..][i - 1];
    }
  }

  /** A board has no empty cell exactly when its empty count is zero; it never has more
      empty cells than it has cells. */
  lemma EmptyCountZero(b: Board)
    requires WellFormed(b)
    ensures EmptyCount(b) <= CellCount
    ensures EmptyCount(b) == 0 <==> forall c :: InRange(c) ==> !IsEmptyAt(b, c)
  {
    EmptyCountBound(b);
    EmptyCountZeroRows(b);
    if EmptyCount(b) != 0 {
      var i, j :| 0 <= i < |b| && 0 <= j < |b[i]| && b[i][j] == Empty;
      assert IsEmptyAt(b, Cell(i, j));
    }
  }

  /** Two boards with the same cells are the same board. */
  lemma SameCells(a: Board, b: Board)
    requires WellFormed(a) && WellFormed(b)
    requires forall i, j :: 0 <= i < BoardSize && 0 <= j < BoardSize ==> a[i][j] == b[i][j]
    ensures a == b
  {
    forall i | 0 <= i < BoardSize
      ensures a[i] == b[i]
    {
      assert forall j :: 0 <= j < BoardSize ==> a[i][j] == b[i][j];
    }
  }

  lemma {:induction false} AllEmptyRows(b: Board)
    requires forall i :: 0 <= i < |b| ==> |b[i]| == BoardSize && forall j :: 0 <= j < BoardSize ==> b[i][j] == Empty
    ensures EmptyCount(b) == |b| * BoardSize
  {
    if b != [] {
      AllEmptyRow(b[0]);
      AllEmptyRows(b[1..]);
    }
  }

  lemma {:induction false} AllEmptyRow(r: seq<int>)
    requires forall j :: 0 <= j < |r| ==> r[j] == Empty
    ensures RowEmpties(r) == |r|
  {
    if r != [] {
      AllEmptyRow(r[1..]);
    }
  }

  /** On an all-empty board every cell counts as empty. */
  lemma AllEmptyCount(b: Board)
    requires WellFormed(b) && forall i, j :: 0 <= i < BoardSize && 0 <= j < BoardSize ==> b[i][j] == Empty
    ensures EmptyCount(b) == CellCount
  {
    AllEmptyRows(b);
  }
}
