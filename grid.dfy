/** The 9x9 Sudoku grid as a value, the Sudoku rule, the row-major scan for the
    first empty cell, and the view of a mutable 9x9 array as such a value. */
module Grid {

  datatype Option<T> = None | Some(value: T)

  /** Rows of cells; 0 marks an empty cell. */
  type Board = seq<seq<int>>

  /** A row or column number. */
  type Index = i: int | 0 <= i < 9

  predicate InBounds(r: int, c: int) {
    0 <= r < 9 && 0 <= c < 9
  }

  predicate WellFormed(g: Board) {
    |g| == 9 && forall i | 0 <= i < 9 :: |g[i]| == 9
  }

  /** The grid with cell (r, c) set to v. */
  function Set(g: Board, r: int, c: int, v: int): (h: Board)
    requires WellFormed(g) && InBounds(r, c)
    ensures WellFormed(h) && h[r][c] == v
    ensures forall i, j | InBounds(i, j) && (i != r || j != c) :: h[i][j] == g[i][j]
  {
    g[r := g[r][c := v]]
  }

  /** Two grids that agree on every cell are equal. */
  lemma Ext(g: Board, h: Board)
    requires WellFormed(g) && WellFormed(h)
    requires forall i, j | InBounds(i, j) :: g[i][j] == h[i][j]
    ensures g == h
  {
    forall i | 0 <= i < 9
      ensures g[i] == h[i]
    {
      assert forall j | 0 <= j < 9 :: g[i][j] == h[i][j];
    }
  }

  /** Writing a cell's old value back undoes a write to it. */
  lemma SetUndo(g: Board, r: int, c: int, v: int)
    requires WellFormed(g) && InBounds(r, c)
    ensures Set(Set(g, r, c, v), r, c, g[r][c]) == g
  {
    Ext(Set(Set(g, r, c, v), r, c, g[r][c]), g);
  }

  // ---------------------------------------------------------------------------
  // Empty cells in row-major order

  /** (i, j) comes before (r, c) in row-major order. */
  predicate Before(i: int, j: int, r: int, c: int) {
    i < r || (i == r && j < c)
  }

  ghost predicate Full(g: Board)
    requires WellFormed(g)
  {
    forall i, j | InBounds(i, j) :: g[i][j] != 0
  }

  /** (r, c) is empty and every cell before it in row-major order is filled. */
  ghost predicate IsFirstEmpty(g: Board, r: int, c: int)
    requires WellFormed(g)
  {
    InBounds(r, c) && g[r][c] == 0 &&
    forall i, j | InBounds(i, j) && Before(i, j, r, c) :: g[i][j] != 0
  }

  /** The first index at or after j that holds 0. */
  function FirstZero(row: seq<int>, j: nat): (k: Option<int>)
    requires j <= |row|
    ensures k.Some? ==> j <= k.value < |row| && row[k.value] == 0
    ensures k.Some? ==> forall j' | j <= j' < k.value :: row[j'] != 0
    ensures k.None? ==> forall j' | j <= j' < |row| :: row[j'] != 0
    decreases |row| - j
  {
    if j == |row| then None
    else if row[j] == 0 then Some(j)
    else FirstZero(row, j + 1)
  }

  /** The first empty cell in rows i.. scanned row by row, left to right. */
  function FirstEmptyFrom(g: Board, i: int): (e: Option<(Index, Index)>)
    requires WellFormed(g) && 0 <= i <= 9
    ensures e.Some? ==> i <= e.value.0 && IsFirstEmptyFrom(g, i, e.value.0, e.value.1)
    ensures e.None? ==> forall i', j | i <= i' < 9 && 0 <= j < 9 :: g[i'][j] != 0
    decreases 9 - i
  {
    if i == 9 then None
    else match FirstZero(g[i], 0)
      case Some(j) => Some((i, j))
      case None => FirstEmptyFrom(g, i + 1)
  }

  /** IsFirstEmpty restricted to the rows from i on. */
  ghost predicate IsFirstEmptyFrom(g: Board, i: int, r: int, c: int)
    requires WellFormed(g)
  {
    InBounds(r, c) && g[r][c] == 0 &&
    forall i', j | InBounds(i', j) && i <= i' && Before(i', j, r, c) :: g[i'][j] != 0
  }

  /** The cell `find_empty` returns: the first 0 in row-major order, None when
      there is none. */
  function FirstEmpty(g: Board): (e: Option<(Index, Index)>)
    requires WellFormed(g)
    ensures e.None? <==> Full(g)
    ensures e.Some? ==> IsFirstEmpty(g, e.value.0, e.value.1)
  {
    FirstEmptyFrom(g, 0)
  }

  /** There is only one first empty cell, so FirstEmpty names it. */
  lemma FirstEmptyUnique(g: Board, r: int, c: int)
    requires WellFormed(g) && IsFirstEmpty(g, r, c)
    ensures FirstEmpty(g) == Some((r, c))
  {
    assert !Full(g);
  }

  // ---------------------------------------------------------------------------
  // The number of empty cells: the measure that makes the search terminate

  function Zeros(row: seq<int>): (n: nat)
    ensures n <= |row|
  {
    if row == [] then 0 else (if row[0] == 0 then 1 else 0) + Zeros(row[1..])
  }

  function ZeroCount(g: Board): nat {
    if g == [] then 0 else Zeros(g[0]) + ZeroCount(g[1..])
  }

  lemma {:induction false} ZerosFill(row: seq<int>, c: int, v: int)
    requires 0 <= c < |row| && row[c] == 0 && v != 0
    ensures Zeros(row[c := v]) + 1 == Zeros(row)
  {
    if c > 0 {
      assert row[c := v][1..] == row[1..][c - 1 := v];
      ZerosFill(row[1..], c - 1, v);
    } else {
      assert row[c := v][1..] == row[1..];
    }
  }

  lemma {:induction false} ZeroCountReplaceRow(g: Board, r: int, row: seq<int>)
    requires 0 <= r < |g|
    ensures ZeroCount(g[r := row]) + Zeros(g[r]) == ZeroCount(g) + Zeros(row)
  {
    if r > 0 {
      assert g[r := row][1..] == g[1..][r - 1 := row];
      ZeroCountReplaceRow(g[1..], r - 1, row);
    } else {
      assert g[r := row][1..] == g[1..];
    }
  }

  /** Filling an empty cell removes exactly one empty cell. */
  lemma ZeroCountFill(g: Board, r: int, c: int, v: int)
    requires WellFormed(g) && InBounds(r, c) && g[r][c] == 0 && v != 0
    ensures ZeroCount(Set(g, r, c, v)) + 1 == ZeroCount(g)
  {
    ZerosFill(g[r], c, v);
    ZeroCountReplaceRow(g, r, g[r][c := v]);
  }

  lemma {:induction false} ZerosNone(row: seq<int>)
    requires forall j | 0 <= j < |row| :: row[j] != 0
    ensures Zeros(row) == 0
  {
    if row != [] {
      ZerosNone(row[1..]);
    }
  }

  lemma {:induction false} ZeroCountNoneRows(g: Board)
    requires forall i, j | 0 <= i < |g| && 0 <= j < |g[i]| :: g[i][j] != 0
    ensures ZeroCount(g) == 0
  {
    if g != [] {
      ZerosNone(g[0]);
      ZeroCountNoneRows(g[1..]);
    }
  }

  /** A full grid has no empty cell to count. */
  lemma ZeroCountNone(g: Board)
    requires WellFormed(g) && Full(g)
    ensures ZeroCount(g) == 0
  {
    ZeroCountNoneRows(g);
  }

  lemma {:induction false} ZeroCountRows(g: Board)
    requires forall i | 0 <= i < |g| :: |g[i]| == 9
    ensures ZeroCount(g) <= 9 * |g|
  {
    if g != [] {
      ZeroCountRows(g[1..]);
    }
  }

  /** At most 81 cells are empty, so the search recurses at most 81 deep. */
  lemma ZeroCountBound(g: Board)
    requires WellFormed(g)
    ensures ZeroCount(g) <= 81
  {
    ZeroCountRows(g);
  }

  // ---------------------------------------------------------------------------
  // The Sudoku rule

  /** Cells (r, c) and (i, j) share a row, a column or a 3x3 box. */
  predicate SameUnit(r: int, c: int, i: int, j: int) {
    i == r || j == c || (i / 3 == r / 3 && j / 3 == c / 3)
  }

  /** No cell sharing a row, column or box with (r, c) holds n. */
  ghost predicate Allowed(g: Board, r: int, c: int, n: int)
    requires WellFormed(g)
  {
    forall i, j | InBounds(i, j) && SameUnit(r, c, i, j) :: g[i][j] != n
  }

  /** No two distinct cells of a row, column or box hold the same digit. */
  ghost predicate Consistent(g: Board)
    requires WellFormed(g)
  {
    forall r, c, i, j
      | InBounds(r, c) && InBounds(i, j) && (r != i || c != j) && SameUnit(r, c, i, j) && g[r][c] != 0
      :: g[i][j] != g[r][c]
  }

  /** Every cell holds 0 (empty) or a digit 1..9. */
  ghost predicate Digits(g: Board)
    requires WellFormed(g)
  {
    forall i, j | InBounds(i, j) :: 0 <= g[i][j] <= 9
  }

  /** A filled-in grid that obeys the Sudoku rule. */
  ghost predicate IsSolution(g: Board) {
    WellFormed(g) && Full(g) && Digits(g) && Consistent(g)
  }

  /** h keeps every non-empty cell (clue) of g. */
  ghost predicate Extends(g: Board, h: Board)
    requires WellFormed(g) && WellFormed(h)
  {
    forall i, j | InBounds(i, j) && g[i][j] != 0 :: h[i][j] == g[i][j]
  }

  /** Placing an allowed digit in an empty cell keeps the grid consistent. */
  lemma PlaceKeepsConsistent(g: Board, r: int, c: int, n: int)
    requires WellFormed(g) && Consistent(g) && InBounds(r, c) && g[r][c] == 0
    requires n != 0 && Allowed(g, r, c, n)
    ensures Consistent(Set(g, r, c, n))
  {
    var h := Set(g, r, c, n);
    forall r', c', i, j
      | InBounds(r', c') && InBounds(i, j) && (r' != i || c' != j) && SameUnit(r', c', i, j) && h[r'][c'] != 0
      ensures h[i][j] != h[r'][c']
    {
      if r' == r && c' == c {
        assert g[i][j] != n;
      } else if i == r && j == c {
        assert SameUnit(r, c, r', c');
        assert g[r'][c'] != n;
      }
    }
  }

  /** A solution's cell (r, c) holds a digit the rule allows in the grid of
      clues it extends. */
  lemma SolutionDigitAllowed(g: Board, s: Board, r: int, c: int)
    requires WellFormed(g) && IsSolution(s) && Extends(g, s)
    requires InBounds(r, c) && g[r][c] == 0
    ensures 1 <= s[r][c] <= 9 && Allowed(g, r, c, s[r][c])
  {
    forall i, j | InBounds(i, j) && SameUnit(r, c, i, j)
      ensures g[i][j] != s[r][c]
    {
      if g[i][j] != 0 {
        assert s[i][j] == g[i][j];
        assert i != r || j != c;
        assert SameUnit(i, j, r, c);
      }
    }
  }

  /** Filling an empty cell with the digit a solution has there keeps the
      solution an extension of the grid. */
  lemma SolutionExtendsSet(g: Board, s: Board, r: int, c: int)
    requires WellFormed(g) && WellFormed(s) && Extends(g, s) && InBounds(r, c)
    ensures Extends(Set(g, r, c, s[r][c]), s)
  {
  }

  // ---------------------------------------------------------------------------
  // A 9x9 array seen as a grid value

  predicate Is9x9(a: array2<int>) {
    a.Length0 == 9 && a.Length1 == 9
  }

  /** The cells of `a` as an immutable grid value (a deep copy). Built row by
      row, so that a grid taken from an array is only opened up cell by cell
      where ContentsCells is called. */
  function Contents(a: array2<int>): (g: Board)
    requires Is9x9(a)
    reads a
    ensures WellFormed(g)
  {
    RowsFrom(a, 0)
  }

  /** Rows i.. of `a`. */
  function RowsFrom(a: array2<int>, i: nat): (rows: seq<seq<int>>)
    requires Is9x9(a) && i <= 9
    reads a
    ensures |rows| == 9 - i && forall k | 0 <= k < |rows| :: |rows[k]| == 9
    decreases 9 - i
  {
    if i == 9 then [] else [CellsFrom(a, i, 0)] + RowsFrom(a, i + 1)
  }

  /** Cells j.. of row i of `a`. */
  function CellsFrom(a: array2<int>, i: Index, j: nat): (row: seq<int>)
    requires Is9x9(a) && j <= 9
    reads a
    ensures |row| == 9 - j
    decreases 9 - j
  {
    if j == 9 then [] else [a[i, j]] + CellsFrom(a, i, j + 1)
  }

  lemma {:induction false} CellsFromCells(a: array2<int>, i: Index, j: nat)
    requires Is9x9(a) && j <= 9
    ensures forall j' | j <= j' < 9 :: CellsFrom(a, i, j)[j' - j] == a[i, j']
    decreases 9 - j
  {
    if j < 9 {
      CellsFromCells(a, i, j + 1);
    }
  }

  lemma {:induction false} RowsFromCells(a: array2<int>, i: nat)
    requires Is9x9(a) && i <= 9
    ensures forall i', j | i <= i' < 9 && 0 <= j < 9 :: RowsFrom(a, i)[i' - i][j] == a[i', j]
    decreases 9 - i
  {
    if i < 9 {
      CellsFromCells(a, i, 0);
      RowsFromCells(a, i + 1);
    }
  }

  /** The grid taken from `a` holds a's cells. */
  lemma ContentsCells(a: array2<int>)
    requires Is9x9(a)
    ensures forall i, j | InBounds(i, j) :: Contents(a)[i][j] == a[i, j]
  {
    RowsFromCells(a, 0);
  }

  /** `is_valid`: num occurs neither in row `row`, nor in column `col`, nor in
      the 3x3 box whose top-left cell is (3 * (row / 3), 3 * (col / 3)). */
  function IsValid(a: array2<int>, row: Index, col: Index, num: int): (ok: bool)
    requires Is9x9(a)
    reads a
    ensures ok <==> Allowed(Contents(a), row, col, num)
  {
    ContentsCells(a);
    var boxRow := 3 * (row / 3);
    var boxCol := 3 * (col / 3);
    (forall j | 0 <= j < 9 :: a[row, j] != num) &&
    (forall i | 0 <= i < 9 :: a[i, col] != num) &&
    (forall i, j | boxRow <= i < boxRow + 3 && boxCol <= j < boxCol + 3 :: a[i, j] != num)
  }

  /** `find_empty`: scans the rows top to bottom, each left to right, and
      returns the first cell holding 0, or None when there is none. */
  method FindEmpty(a: array2<int>) returns (cell: Option<(Index, Index)>)
    requires Is9x9(a)
    ensures cell == FirstEmpty(Contents(a))
    ensures cell.None? <==> Full(Contents(a))
    ensures cell.Some? ==> IsFirstEmpty(Contents(a), cell.value.0, cell.value.1)
  {
    ContentsCells(a);
    for i := 0 to 9
      invariant forall i', j | 0 <= i' < i && 0 <= j < 9 :: a[i', j] != 0
    {
      for j := 0 to 9
        invariant forall j' | 0 <= j' < j :: a[i, j'] != 0
      {
        if a[i, j] == 0 {
          FirstEmptyUnique(Contents(a), i, j);
          return Some((i, j));
        }
      }
    }
    return None;
  }

  /** `a[r, c] = v`, seen on the contents of the array. */
  method Write(a: array2<int>, r: Index, c: Index, v: int)
    requires Is9x9(a)
    modifies a
    ensures Contents(a) == Set(old(Contents(a)), r, c, v)
  {
    ghost var g := Contents(a);
    ContentsCells(a);
    a[r, c] := v;
    ContentsCells(a);
    Ext(Contents(a), Set(g, r, c, v));
  }

  /** A fresh 9x9 array holding the cells of g. */
  method NewArray(g: Board) returns (a: array2<int>)
    requires WellFormed(g)
    ensures fresh(a) && Is9x9(a) && Contents(a) == g
  {
    a := new int[9, 9]((i, j) requires InBounds(i, j) && WellFormed(g) => g[i][j]);
    ContentsCells(a);
    Ext(Contents(a), g);
  }
}
