/**
 * Grids shared by the exhaustive solver and the local search: cells, the
 * bounded 8-neighbourhood, and counts of cells holding a given value.
 *
 * A grid is a sequence of rows. Cell values are 0 (safe), 1 (mine) and, in
 * the solver's working assignment, -1 (not yet assigned).
 */
module Grids {

  type Cell = (int, int)
  type Grid = seq<seq<int>>

  predicate InGrid(rows: int, cols: int, x: int, y: int) {
    0 <= x < rows && 0 <= y < cols
  }

  /** (x, y) is one of the eight cells around (r, c). */
  predicate Adjacent(r: int, c: int, x: int, y: int) {
    (x != r || y != c) && -1 <= x - r <= 1 && -1 <= y - c <= 1
  }

  /** Every row has `cols` entries and there are `rows` rows. */
  predicate Shaped<T>(g: seq<seq<T>>, rows: int, cols: int) {
    |g| == rows && forall r :: 0 <= r < |g| ==> |g[r]| == cols
  }

  /** Number of columns of a grid, read from its first row (0 for no rows). */
  function Width<T>(g: seq<seq<T>>): nat {
    if |g| == 0 then 0 else |g[0]|
  }

  /** Every cell is 0 or 1. */
  predicate Binary(g: Grid) {
    forall r, c :: 0 <= r < |g| && 0 <= c < |g[r]| ==> g[r][c] == 0 || g[r][c] == 1
  }

  /** Every cell is -1, 0 or 1. */
  predicate Ternary(g: Grid) {
    forall r, c :: 0 <= r < |g| && 0 <= c < |g[r]| ==> -1 <= g[r][c] <= 1
  }

  // ---------------------------------------------------------------------
  // The neighbourhood, enumerated as the source does: rows r - 1, r, r + 1
  // in the outer loop, columns c - 1, c, c + 1 in the inner loop, skipping
  // (r, c) itself and the cells outside the grid.
  // ---------------------------------------------------------------------

  /** The neighbours of (r, c) in row x, at columns c - 1 .. yEnd - 1. */
  function NeighborRow(rows: int, cols: int, r: int, c: int, x: int, yEnd: int): seq<Cell>
    requires c - 1 <= yEnd <= c + 2
    decreases yEnd - c + 1
  {
    if yEnd == c - 1 then []
    else
      var y := yEnd - 1;
      NeighborRow(rows, cols, r, c, x, y)
        + (if (x != r || y != c) && InGrid(rows, cols, x, y) then [(x, y)] else [])
  }

  /** The neighbours of (r, c) in rows r - 1 .. xEnd - 1. */
  function NeighborRows(rows: int, cols: int, r: int, c: int, xEnd: int): seq<Cell>
    requires r - 1 <= xEnd <= r + 2
    decreases xEnd - r + 1
  {
    if xEnd == r - 1 then []
    else NeighborRows(rows, cols, r, c, xEnd - 1) + NeighborRow(rows, cols, r, c, xEnd - 1, c + 2)
  }

  /** The in-grid neighbours of (r, c), in the source's scan order. */
  function NeighborCells(rows: int, cols: int, r: int, c: int): seq<Cell> {
    NeighborRows(rows, cols, r, c, r + 2)
  }

  /** Strict row-major order on cells. */
  predicate Before(a: Cell, b: Cell) {
    a.0 < b.0 || (a.0 == b.0 && a.1 < b.1)
  }

  predicate StrictlySorted(s: seq<Cell>) {
    forall i, j :: 0 <= i < j < |s| ==> Before(s[i], s[j])
  }

  /** Cells of a row segment all lie in row x, at columns below yEnd. */
  lemma {:induction false} NeighborRowMembers(rows: int, cols: int, r: int, c: int, x: int, yEnd: int)
    requires c - 1 <= yEnd <= c + 2
    ensures forall p :: p in NeighborRow(rows, cols, r, c, x, yEnd) <==>
      p.0 == x && c - 1 <= p.1 < yEnd && (x != r || p.1 != c) && InGrid(rows, cols, p.0, p.1)
    decreases yEnd - c + 1
  {
    if yEnd != c - 1 {
      NeighborRowMembers(rows, cols, r, c, x, yEnd - 1);
    }
  }

  lemma {:induction false} NeighborRowSorted(rows: int, cols: int, r: int, c: int, x: int, yEnd: int)
    requires c - 1 <= yEnd <= c + 2
    ensures StrictlySorted(NeighborRow(rows, cols, r, c, x, yEnd))
    ensures |NeighborRow(rows, cols, r, c, x, yEnd)| <= yEnd - c + 1
    ensures x == r && yEnd == c + 2 ==> |NeighborRow(rows, cols, r, c, x, yEnd)| <= 2
    decreases yEnd - c + 1
  {
    if yEnd != c - 1 {
      NeighborRowSorted(rows, cols, r, c, x, yEnd - 1);
      NeighborRowMembers(rows, cols, r, c, x, yEnd - 1);
      var a := NeighborRow(rows, cols, r, c, x, yEnd - 1);
      var b: seq<Cell> := if (x != r || yEnd - 1 != c) && InGrid(rows, cols, x, yEnd - 1)
        then [(x, yEnd - 1)] else [];
      SortedConcat(a, b);
      if x == r && yEnd == c + 2 {
        NeighborRowSorted(rows, cols, r, c, r, c);
        assert |NeighborRow(rows, cols, r, c, r, c + 1)| <= 1;
      }
    }
  }

  lemma SortedConcat(a: seq<Cell>, b: seq<Cell>)
    requires StrictlySorted(a) && StrictlySorted(b)
    requires forall p, q :: p in a && q in b ==> Before(p, q)
    ensures StrictlySorted(a + b)
  {
    forall i, j | 0 <= i < j < |a + b| ensures Before((a + b)[i], (a + b)[j]) {
      if j < |a| {
      } else if i >= |a| {
        assert (a + b)[i] == b[i - |a|] && (a + b)[j] == b[j - |a|];
      } else {
        assert (a + b)[i] == a[i] && a[i] in a;
        assert (a + b)[j] == b[j - |a|] && b[j - |a|] in b;
      }
    }
  }

  lemma {:induction false} NeighborRowsMembers(rows: int, cols: int, r: int, c: int, xEnd: int)
    requires r - 1 <= xEnd <= r + 2
    ensures forall p :: p in NeighborRows(rows, cols, r, c, xEnd) <==>
      r - 1 <= p.0 < xEnd && Adjacent(r, c, p.0, p.1) && InGrid(rows, cols, p.0, p.1)
    decreases xEnd - r + 1
  {
    if xEnd != r - 1 {
      NeighborRowsMembers(rows, cols, r, c, xEnd - 1);
      NeighborRowMembers(rows, cols, r, c, xEnd - 1, c + 2);
    }
  }

  lemma {:induction false} NeighborRowsSorted(rows: int, cols: int, r: int, c: int, xEnd: int)
    requires r - 1 <= xEnd <= r + 2
    ensures StrictlySorted(NeighborRows(rows, cols, r, c, xEnd))
    ensures |NeighborRows(rows, cols, r, c, xEnd)| <= 3 * (xEnd - r + 1) - (if xEnd >= r + 1 then 1 else 0)
    decreases xEnd - r + 1
  {
    if xEnd != r - 1 {
      NeighborRowsSorted(rows, cols, r, c, xEnd - 1);
      NeighborRowSorted(rows, cols, r, c, xEnd - 1, c + 2);
      NeighborRowsMembers(rows, cols, r, c, xEnd - 1);
      NeighborRowMembers(rows, cols, r, c, xEnd - 1, c + 2);
      SortedConcat(NeighborRows(rows, cols, r, c, xEnd - 1), NeighborRow(rows, cols, r, c, xEnd - 1, c + 2));
    }
  }

  /**
   * The neighbour list of (r, c) holds exactly the in-grid cells adjacent to
   * it (so never (r, c) itself), without duplicates, and at most eight.
   */
  lemma NeighborCellsSpec(rows: int, cols: int, r: int, c: int)
    ensures var s := NeighborCells(rows, cols, r, c);
      && |s| <= 8
      && (forall i, j :: 0 <= i < j < |s| ==> s[i] != s[j])
      && forall p :: p in s <==> Adjacent(r, c, p.0, p.1) && InGrid(rows, cols, p.0, p.1)
  {
    NeighborRowsSorted(rows, cols, r, c, r + 2);
    NeighborRowsMembers(rows, cols, r, c, r + 2);
  }

  // ---------------------------------------------------------------------
  // Counting cells with a given value
  // ---------------------------------------------------------------------

  /** Number of the listed cells holding value `v` in `g` (cells outside `g` count as not holding it). */
  function CountAmong(g: Grid, cells: seq<Cell>, v: int): (n: nat)
    ensures n <= |cells|
  {
    if cells == [] then 0
    else
      var (x, y) := cells[|cells| - 1];
      CountAmong(g, cells[..|cells| - 1], v)
        + (if 0 <= x < |g| && 0 <= y < |g[x]| && g[x][y] == v then 1 else 0)
  }

  /** A prefix one longer is the shorter prefix and the next element. */
  lemma PrefixSnoc<T>(s: seq<T>, k: int)
    requires 0 <= k < |s|
    ensures s[..k + 1] == s[..k] + [s[k]]
  {
  }

  /** Extending a prefix of `cells` by one cell adds that cell's contribution. */
  lemma CountAmongPrefix(g: Grid, cells: seq<Cell>, k: int, v: int)
    requires 0 <= k < |cells|
    ensures CountAmong(g, cells[..k + 1], v) == CountAmong(g, cells[..k], v)
      + (if 0 <= cells[k].0 < |g| && 0 <= cells[k].1 < |g[cells[k].0]| && g[cells[k].0][cells[k].1] == v then 1 else 0)
  {
    assert cells[..k + 1][..k] == cells[..k];
  }

  /** Counting over a concatenation adds the counts of the two parts. */
  lemma {:induction false} CountAmongConcat(g: Grid, a: seq<Cell>, b: seq<Cell>, v: int)
    ensures CountAmong(g, a + b, v) == CountAmong(g, a, v) + CountAmong(g, b, v)
    decreases |b|
  {
    if b == [] {
      assert a + b == a;
    } else {
      assert (a + b)[..|a + b| - 1] == a + b[..|b| - 1];
      CountAmongConcat(g, a, b[..|b| - 1], v);
    }
  }

  /** Extending a row segment of the neighbourhood by one column adds that cell's contribution. */
  lemma NeighborRowCountStep(g: Grid, rows: int, cols: int, r: int, c: int, x: int, y: int, v: int)
    requires c - 1 <= y <= c + 1
    ensures CountAmong(g, NeighborRow(rows, cols, r, c, x, y + 1), v) == CountAmong(g, NeighborRow(rows, cols, r, c, x, y), v)
      + (if (x != r || y != c) && InGrid(rows, cols, x, y) && 0 <= x < |g| && 0 <= y < |g[x]| && g[x][y] == v then 1 else 0)
  {
    var p: seq<Cell> := if (x != r || y != c) && InGrid(rows, cols, x, y) then [(x, y)] else [];
    CountAmongConcat(g, NeighborRow(rows, cols, r, c, x, y), p, v);
  }

  /** Number of mines around (r, c): 1-cells among its in-grid neighbours. */
  function MinesAround(g: Grid, r: int, c: int): nat {
    CountAmong(g, NeighborCells(|g|, Width(g), r, c), 1)
  }

  lemma MinesAroundAtMostEight(g: Grid, r: int, c: int)
    ensures MinesAround(g, r, c) <= 8
  {
    NeighborCellsSpec(|g|, Width(g), r, c);
  }

  /** The 0/1 grid holding a mine exactly where the corresponding draw is true. */
  function FromDraws(draws: seq<seq<bool>>, rows: nat, cols: nat): (g: Grid)
    requires Shaped(draws, rows, cols)
    ensures Shaped(g, rows, cols) && Binary(g)
    ensures forall r, c :: 0 <= r < rows && 0 <= c < cols ==> g[r][c] == if draws[r][c] then 1 else 0
  {
    seq(rows, r requires 0 <= r < rows => seq(cols, c requires 0 <= c < cols => if draws[r][c] then 1 else 0))
  }

  /** Number of cells of a row holding `v`. */
  function RowCount(row: seq<int>, v: int): (n: nat)
    ensures n <= |row|
  {
    if row == [] then 0 else RowCount(row[..|row| - 1], v) + (if row[|row| - 1] == v then 1 else 0)
  }

  /** Number of cells of a grid holding `v`. */
  function GridCount(g: Grid, v: int): nat {
    if g == [] then 0 else GridCount(g[..|g| - 1], v) + RowCount(g[|g| - 1], v)
  }

  /** The last position holding `v` in `row`, when there is one. */
  function LastIndexOf(row: seq<int>, v: int): (j: nat)
    ensures RowCount(row, v) > 0 ==> j < |row| && row[j] == v
  {
    if row == [] then 0
    else if row[|row| - 1] == v then |row| - 1
    else LastIndexOf(row[..|row| - 1], v)
  }

  /** The last cell, in row-major order, holding `v`, when there is one. */
  function LastCellWith(g: Grid, v: int): (cell: Cell)
    ensures GridCount(g, v) > 0 ==>
      0 <= cell.0 < |g| && 0 <= cell.1 < |g[cell.0]| && g[cell.0][cell.1] == v
  {
    if g == [] then (0, 0)
    else if RowCount(g[|g| - 1], v) > 0 then (|g| - 1, LastIndexOf(g[|g| - 1], v))
    else LastCellWith(g[..|g| - 1], v)
  }

  /** Replace the cell (r, c). */
  function SetCell(g: Grid, r: int, c: int, v: int): (g': Grid)
    requires 0 <= r < |g| && 0 <= c < |g[r]|
    ensures |g'| == |g| && forall i :: 0 <= i < |g| ==> |g'[i]| == |g[i]|
    ensures forall i, j :: 0 <= i < |g| && 0 <= j < |g[i]| ==>
      g'[i][j] == if i == r && j == c then v else g[i][j]
  {
    g[r := g[r][c := v]]
  }

  /** Writing a cell back to the value it had undoes an earlier write. */
  lemma SetCellRestore(g: Grid, r: int, c: int, v: int)
    requires 0 <= r < |g| && 0 <= c < |g[r]|
    ensures SetCell(SetCell(g, r, c, v), r, c, g[r][c]) == g
  {
    var g' := SetCell(SetCell(g, r, c, v), r, c, g[r][c]);
    assert forall i :: 0 <= i < |g| ==> g'[i] == g[i];
  }

  lemma {:induction false} RowCountSet(row: seq<int>, c: int, v: int, w: int)
    requires 0 <= c < |row|
    ensures RowCount(row[c := v], w) ==
      RowCount(row, w) - (if row[c] == w then 1 else 0) + (if v == w then 1 else 0)
  {
    var n := |row|;
    if c == n - 1 {
      assert row[c := v][..n - 1] == row[..n - 1];
    } else {
      assert row[c := v][..n - 1] == row[..n - 1][c := v];
      RowCountSet(row[..n - 1], c, v, w);
    }
  }

  /** Writing one cell moves that cell from the count of its old value to the count of its new one. */
  lemma {:induction false} GridCountSet(g: Grid, r: int, c: int, v: int, w: int)
    requires 0 <= r < |g| && 0 <= c < |g[r]|
    ensures GridCount(SetCell(g, r, c, v), w) ==
      GridCount(g, w) - (if g[r][c] == w then 1 else 0) + (if v == w then 1 else 0)
  {
    var n := |g|;
    var g' := SetCell(g, r, c, v);
    if r == n - 1 {
      assert g'[..n - 1] == g[..n - 1];
      RowCountSet(g[r], c, v, w);
    } else {
      assert g'[..n - 1] == SetCell(g[..n - 1], r, c, v);
      GridCountSet(g[..n - 1], r, c, v, w);
    }
  }

  lemma {:induction false} RowCountTernary(row: seq<int>)
    requires forall j :: 0 <= j < |row| ==> -1 <= row[j] <= 1
    ensures RowCount(row, -1) + RowCount(row, 0) + RowCount(row, 1) == |row|
  {
    if row != [] {
      RowCountTernary(row[..|row| - 1]);
    }
  }

  lemma MulPred(rows: int, cols: int)
    ensures rows * cols == (rows - 1) * cols + cols
  {
  }

  /** In a grid of -1/0/1 cells, the three counts add up to the number of cells. */
  lemma {:induction false} GridCountTernary(g: Grid, rows: int, cols: int)
    requires Shaped(g, rows, cols) && Ternary(g)
    ensures GridCount(g, -1) + GridCount(g, 0) + GridCount(g, 1) == rows * cols
  {
    if g != [] {
      GridCountTernary(g[..|g| - 1], rows - 1, cols);
      RowCountTernary(g[|g| - 1]);
      MulPred(rows, cols);
    }
  }

  lemma {:induction false} RowCountZero(row: seq<int>, v: int)
    requires RowCount(row, v) == 0
    ensures forall j :: 0 <= j < |row| ==> row[j] != v
  {
    if row != [] {
      RowCountZero(row[..|row| - 1], v);
      assert forall j :: 0 <= j < |row| - 1 ==> row[j] == row[..|row| - 1][j];
    }
  }

  /** A value with count zero occurs nowhere. */
  lemma {:induction false} GridCountZero(g: Grid, v: int)
    requires GridCount(g, v) == 0
    ensures forall r, c :: 0 <= r < |g| && 0 <= c < |g[r]| ==> g[r][c] != v
  {
    if g != [] {
      GridCountZero(g[..|g| - 1], v);
      RowCountZero(g[|g| - 1], v);
      assert forall r :: 0 <= r < |g| - 1 ==> g[r] == g[..|g| - 1][r];
    }
  }

  lemma {:induction false} RowCountAbsent(row: seq<int>, v: int)
    requires forall j :: 0 <= j < |row| ==> row[j] != v
    ensures RowCount(row, v) == 0
  {
    if row != [] {
      RowCountAbsent(row[..|row| - 1], v);
    }
  }

  /** A value that occurs nowhere has count zero. */
  lemma {:induction false} GridCountAbsent(g: Grid, v: int)
    requires forall r, c :: 0 <= r < |g| && 0 <= c < |g[r]| ==> g[r][c] != v
    ensures GridCount(g, v) == 0
  {
    if g != [] {
      assert forall r :: 0 <= r < |g| - 1 ==> g[..|g| - 1][r] == g[r];
      GridCountAbsent(g[..|g| - 1], v);
      RowCountAbsent(g[|g| - 1], v);
    }
  }
}
