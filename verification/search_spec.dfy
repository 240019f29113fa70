/**
 * What the exhaustive solver counts. A working assignment is a grid of
 * -1 (unassigned), 0 (safe) and 1 (mine); its completions are the solutions
 * of the instance that agree with it on every assigned cell. The solver's
 * pruning tests are necessary conditions for a completion to exist, and
 * branching on one unassigned cell splits the completions in two.
 */
module SearchSpec {
  import opened Options
  import opened Grids
  import opened Instances

  // ---------------------------------------------------------------------
  // The finite space of 0/1 grids
  // ---------------------------------------------------------------------

  ghost function AllRows(cols: nat): set<seq<int>> {
    if cols == 0 then {[]}
    else set row, v | row in AllRows(cols - 1) && v in {0, 1} :: row + [v]
  }

  ghost function AllGrids(rows: nat, cols: nat): set<Grid> {
    if rows == 0 then {[]}
    else set g, row | g in AllGrids(rows - 1, cols) && row in AllRows(cols) :: g + [row]
  }

  lemma {:induction false} AllRowsMembers(cols: nat, row: seq<int>)
    ensures row in AllRows(cols) <==> |row| == cols && forall j :: 0 <= j < |row| ==> row[j] == 0 || row[j] == 1
  {
    if cols > 0 {
      if row in AllRows(cols) {
        var row', v :| row' in AllRows(cols - 1) && v in {0, 1} && row == row' + [v];
        AllRowsMembers(cols - 1, row');
        assert forall j :: 0 <= j < |row'| ==> row[j] == row'[j];
      }
      if |row| == cols && forall j :: 0 <= j < |row| ==> row[j] == 0 || row[j] == 1 {
        var n := |row|;
        AllRowsMembers(cols - 1, row[..n - 1]);
        assert row == row[..n - 1] + [row[n - 1]];
      }
    }
  }

  /** The 0/1 grids of a shape are exactly the members of AllGrids. */
  lemma {:induction false} AllGridsMembers(rows: nat, cols: nat, g: Grid)
    ensures g in AllGrids(rows, cols) <==> Shaped(g, rows, cols) && Binary(g)
  {
    if rows > 0 {
      if g in AllGrids(rows, cols) {
        var g', row :| g' in AllGrids(rows - 1, cols) && row in AllRows(cols) && g == g' + [row];
        AllGridsMembers(rows - 1, cols, g');
        AllRowsMembers(cols, row);
        assert forall i :: 0 <= i < |g'| ==> g[i] == g'[i];
      }
      if Shaped(g, rows, cols) && Binary(g) {
        var n := |g|;
        AllGridsMembers(rows - 1, cols, g[..n - 1]);
        AllRowsMembers(cols, g[n - 1]);
        assert g == g[..n - 1] + [g[n - 1]];
      }
    }
  }

  // ---------------------------------------------------------------------
  // Completions of a working assignment
  // ---------------------------------------------------------------------

  /** `g` agrees with `a` on every cell `a` has assigned. */
  ghost predicate Extends(g: Grid, a: Grid) {
    && |g| == |a|
    && (forall r :: 0 <= r < |a| ==> |g[r]| == |a[r]|)
    && forall r, c :: 0 <= r < |a| && 0 <= c < |a[r]| && a[r][c] != -1 ==> g[r][c] == a[r][c]
  }

  /** The solutions of `inst` that complete the working assignment `a`. */
  ghost function Completions(inst: Instance, a: Grid): set<Grid>
    requires HasShape(inst)
  {
    set g | g in AllGrids(inst.rows, inst.cols) && Extends(g, a) && IsSolution(inst, g)
  }

  /** All solutions of `inst`. */
  ghost function Solutions(inst: Instance): set<Grid>
    requires HasShape(inst)
  {
    set g | g in AllGrids(inst.rows, inst.cols) && IsSolution(inst, g)
  }

  /**
   * The number of completions of `a`, counted the way a search counts them:
   * a full assignment counts once if it is a solution, and otherwise the
   * counts of giving an unassigned cell a mine and no mine add up.
   */
  ghost function CompletionCount(inst: Instance, a: Grid): nat
    decreases GridCount(a, -1)
  {
    if GridCount(a, -1) == 0 then (if IsSolution(inst, a) then 1 else 0)
    else
      var (r, c) := LastCellWith(a, -1);
      GridCountSet(a, r, c, 1, -1);
      GridCountSet(a, r, c, 0, -1);
      CompletionCount(inst, a[r := a[r][c := 1]]) + CompletionCount(inst, a[r := a[r][c := 0]])
  }

  /** The working assignment with no cell assigned. */
  function Unassigned(rows: nat, cols: nat): (a: Grid)
    ensures Shaped(a, rows, cols) && Ternary(a)
    ensures forall r, c :: 0 <= r < rows && 0 <= c < cols ==> a[r][c] == -1
  {
    seq(rows, _ => seq(cols, _ => -1))
  }

  /** Every solution completes the empty assignment. */
  lemma CompletionsOfUnassigned(inst: Instance)
    requires HasShape(inst)
    ensures Completions(inst, Unassigned(inst.rows, inst.cols)) == Solutions(inst)
  {
    var a := Unassigned(inst.rows, inst.cols);
    forall g | g in Solutions(inst) ensures g in Completions(inst, a) {
      assert Extends(g, a);
    }
  }

  /** Counting the completions of the empty assignment counts the solutions. */
  lemma CompletionCountOfUnassigned(inst: Instance)
    requires HasShape(inst)
    ensures CompletionCount(inst, Unassigned(inst.rows, inst.cols)) == |Solutions(inst)|
  {
    CompletionsOfUnassigned(inst);
    CompletionCountIsCardinality(inst, Unassigned(inst.rows, inst.cols));
  }

  /** The empty assignment places no mine and leaves every cell unassigned. */
  lemma CountersOfUnassigned(rows: nat, cols: nat)
    ensures GridCount(Unassigned(rows, cols), 1) == 0
    ensures GridCount(Unassigned(rows, cols), -1) == rows * cols
  {
    var a := Unassigned(rows, cols);
    GridCountAbsent(a, 1);
    GridCountAbsent(a, 0);
    GridCountTernary(a, rows, cols);
  }

  // ---------------------------------------------------------------------
  // The pruning tests
  // ---------------------------------------------------------------------

  /**
   * Bound test of the clue at (r, c), if revealed: the mines already placed
   * around it do not exceed it, and placing mines on all its unassigned
   * neighbours would reach it.
   */
  ghost predicate ClueBoundAt(inst: Instance, a: Grid, r: int, c: int)
  {
    0 <= r < |inst.clues| && 0 <= c < |inst.clues[r]| && inst.clues[r][c].Some? ==>
      var nb := NeighborCells(inst.rows, inst.cols, r, c);
      CountAmong(a, nb, 1) <= inst.clues[r][c].value <= CountAmong(a, nb, 1) + CountAmong(a, nb, -1)
  }

  /** The bound test holds at every revealed clue. */
  ghost predicate ClueBoundsHold(inst: Instance, a: Grid) {
    forall r, c :: 0 <= r < |inst.clues| && 0 <= c < |inst.clues[r]| ==> ClueBoundAt(inst, a, r, c)
  }

  /** Bound test of the known mine total, given the mines placed and the cells left. */
  predicate MineBoundsHold(totalMines: Option<int>, mines: int, unassigned: int) {
    totalMines.None? || (mines <= totalMines.value <= mines + unassigned)
  }

  lemma {:induction false} LocalBounds(g: Grid, a: Grid, cells: seq<Cell>)
    requires Extends(g, a) && Binary(g) && Ternary(a)
    requires forall i :: 0 <= i < |cells| ==> 0 <= cells[i].0 < |a| && 0 <= cells[i].1 < |a[cells[i].0]|
    ensures CountAmong(a, cells, 1) <= CountAmong(g, cells, 1) <= CountAmong(a, cells, 1) + CountAmong(a, cells, -1)
  {
    if cells != [] {
      LocalBounds(g, a, cells[..|cells| - 1]);
    }
  }

  lemma {:induction false} RowBounds(row: seq<int>, arow: seq<int>)
    requires |row| == |arow|
    requires forall j :: 0 <= j < |row| ==> (row[j] == 0 || row[j] == 1) && -1 <= arow[j] <= 1
    requires forall j :: 0 <= j < |row| && arow[j] != -1 ==> row[j] == arow[j]
    ensures RowCount(arow, 1) <= RowCount(row, 1) <= RowCount(arow, 1) + RowCount(arow, -1)
  {
    if row != [] {
      var n := |row|;
      RowBounds(row[..n - 1], arow[..n - 1]);
    }
  }

  /** A completion has at least the mines placed so far and at most those plus the unassigned cells. */
  lemma {:induction false} GlobalBounds(g: Grid, a: Grid)
    requires Extends(g, a) && Binary(g) && Ternary(a)
    ensures GridCount(a, 1) <= GridCount(g, 1) <= GridCount(a, 1) + GridCount(a, -1)
  {
    if a != [] {
      var n := |a|;
      GlobalBounds(g[..n - 1], a[..n - 1]);
      RowBounds(g[n - 1], a[n - 1]);
    }
  }

  /**
   * Forward checking is sound: if the clue bounds or the mine-total bounds
   * fail, the assignment has no completion.
   */
  lemma CompletionsNeedBounds(inst: Instance, a: Grid)
    requires HasShape(inst) && Shaped(a, inst.rows, inst.cols) && Ternary(a)
    ensures CompletionCount(inst, a) > 0 ==>
      ClueBoundsHold(inst, a) && MineBoundsHold(inst.totalMines, GridCount(a, 1), GridCount(a, -1))
  {
    CompletionCountIsCardinality(inst, a);
    if CompletionCount(inst, a) > 0 {
      var g :| g in Completions(inst, a);
      GlobalBounds(g, a);
      forall r, c | 0 <= r < |inst.clues| && 0 <= c < |inst.clues[r]| && inst.clues[r][c].Some?
        ensures ClueBoundAt(inst, a, r, c)
      {
        var nb := NeighborCells(inst.rows, inst.cols, r, c);
        NeighborCellsSpec(inst.rows, inst.cols, r, c);
        assert forall i :: 0 <= i < |nb| ==> nb[i] in nb;
        LocalBounds(g, a, nb);
        assert Width(g) == inst.cols;
      }
    }
  }

  /**
   * Pruning by the mine total is sound: when giving the unassigned cell
   * (r, c) the value v breaks the bounds of the mine total, the assignment
   * with that value has no completion.
   */
  lemma PrunedByTotal(inst: Instance, a: Grid, r: int, c: int, v: int)
    requires HasShape(inst) && Shaped(a, inst.rows, inst.cols) && Ternary(a)
    requires 0 <= r < inst.rows && 0 <= c < inst.cols && a[r][c] == -1 && (v == 0 || v == 1)
    requires !MineBoundsHold(inst.totalMines, GridCount(a, 1) + v, GridCount(a, -1) - 1)
    ensures CompletionCount(inst, SetCell(a, r, c, v)) == 0
  {
    GridCountSet(a, r, c, v, -1);
    GridCountSet(a, r, c, v, 1);
    CompletionsNeedBounds(inst, SetCell(a, r, c, v));
  }

  /**
   * Branching on an unassigned cell splits the completions into those with a
   * mine there and those without, which are disjoint.
   */
  lemma Split(inst: Instance, a: Grid, r: int, c: int)
    requires HasShape(inst) && Shaped(a, inst.rows, inst.cols)
    requires 0 <= r < inst.rows && 0 <= c < inst.cols && a[r][c] == -1
    ensures var c1 := Completions(inst, SetCell(a, r, c, 1));
      var c0 := Completions(inst, SetCell(a, r, c, 0));
      && Completions(inst, a) == c1 + c0
      && c1 * c0 == {}
      && |Completions(inst, a)| == |c1| + |c0|
  {
    var a1 := SetCell(a, r, c, 1);
    var a0 := SetCell(a, r, c, 0);
    var all := Completions(inst, a);
    var c1 := Completions(inst, a1);
    var c0 := Completions(inst, a0);
    forall g | g in all ensures g in c1 + c0 {
      if g[r][c] == 1 { assert Extends(g, a1); } else { assert Extends(g, a0); }
    }
    forall g | g in c1 + c0 ensures g in all {
      assert Extends(g, a);
    }
    assert all == c1 + c0;
    forall g | g in c1 ensures g !in c0 {
      assert g[r][c] == 1;
    }
    assert c1 * c0 == {};
  }

  /** Branching on an unassigned cell adds up the completions of the two branches. */
  lemma SplitCount(inst: Instance, a: Grid, r: int, c: int)
    requires HasShape(inst) && Shaped(a, inst.rows, inst.cols) && Ternary(a)
    requires 0 <= r < inst.rows && 0 <= c < inst.cols && a[r][c] == -1
    ensures CompletionCount(inst, a) == CompletionCount(inst, SetCell(a, r, c, 1)) + CompletionCount(inst, SetCell(a, r, c, 0))
  {
    var a1, a0 := SetCell(a, r, c, 1), SetCell(a, r, c, 0);
    assert Ternary(a1) && Ternary(a0);
    CompletionCountIsCardinality(inst, a);
    CompletionCountIsCardinality(inst, a1);
    CompletionCountIsCardinality(inst, a0);
    Split(inst, a, r, c);
  }

  lemma {:induction false} CountAmongAbsent(g: Grid, cells: seq<Cell>, v: int)
    requires forall r, c :: 0 <= r < |g| && 0 <= c < |g[r]| ==> g[r][c] != v
    ensures CountAmong(g, cells, v) == 0
  {
    if cells != [] {
      CountAmongAbsent(g, cells[..|cells| - 1], v);
    }
  }

  /** A full assignment is its own unique completion when it is a solution, and has none otherwise. */
  lemma FullCompletions(inst: Instance, a: Grid)
    requires HasShape(inst) && Shaped(a, inst.rows, inst.cols) && Ternary(a) && GridCount(a, -1) == 0
    ensures Completions(inst, a) == if IsSolution(inst, a) then {a} else {}
  {
    GridCountZero(a, -1);
    assert Binary(a);
    AllGridsMembers(inst.rows, inst.cols, a);
    forall g | g in Completions(inst, a) ensures g == a {
      assert forall i :: 0 <= i < |a| ==> g[i] == a[i];
    }
    if IsSolution(inst, a) {
      assert Extends(a, a);
      assert a in Completions(inst, a);
    }
  }

  /**
   * A full assignment that passed the clue bound test matches every clue
   * exactly, so it is a solution exactly when the mine total, if known,
   * agrees.
   */
  lemma FullAssignment(inst: Instance, a: Grid)
    requires HasShape(inst) && Shaped(a, inst.rows, inst.cols) && Ternary(a)
    requires GridCount(a, -1) == 0 && ClueBoundsHold(inst, a)
    ensures IsSolution(inst, a) <==> inst.totalMines.None? || GridCount(a, 1) == inst.totalMines.value
  {
    GridCountZero(a, -1);
    assert Binary(a);
    forall r, c | 0 <= r < |inst.clues| && 0 <= c < |inst.clues[r]| && inst.clues[r][c].Some?
      ensures MinesAround(a, r, c) == inst.clues[r][c].value
    {
      assert ClueBoundAt(inst, a, r, c);
      CountAmongAbsent(a, NeighborCells(inst.rows, inst.cols, r, c), -1);
      assert Width(a) == inst.cols;
    }
    assert SatisfiesClues(inst, a);
  }

  /** The search-order count is the number of completions. */
  lemma {:induction false} CompletionCountIsCardinality(inst: Instance, a: Grid)
    requires HasShape(inst) && Shaped(a, inst.rows, inst.cols) && Ternary(a)
    ensures CompletionCount(inst, a) == |Completions(inst, a)|
    decreases GridCount(a, -1)
  {
    if GridCount(a, -1) == 0 {
      FullCompletions(inst, a);
    } else {
      var (r, c) := LastCellWith(a, -1);
      GridCountSet(a, r, c, 1, -1);
      GridCountSet(a, r, c, 0, -1);
      CompletionCountIsCardinality(inst, SetCell(a, r, c, 1));
      CompletionCountIsCardinality(inst, SetCell(a, r, c, 0));
      Split(inst, a, r, c);
    }
  }

  /** A full assignment that passed the clue bound test has one completion or none. */
  lemma FullAssignmentCount(inst: Instance, a: Grid)
    requires HasShape(inst) && Shaped(a, inst.rows, inst.cols) && Ternary(a)
    requires GridCount(a, -1) == 0 && ClueBoundsHold(inst, a)
    ensures CompletionCount(inst, a) ==
      if inst.totalMines.None? || GridCount(a, 1) == inst.totalMines.value then 1 else 0
  {
    FullAssignment(inst, a);
  }

  /** A grid without cells has nothing to check. */
  lemma UnassignedBounds(inst: Instance)
    requires HasShape(inst)
    ensures inst.rows * inst.cols == 0 ==> ClueBoundsHold(inst, Unassigned(inst.rows, inst.cols))
  {
    if inst.rows * inst.cols == 0 {
      assert inst.rows == 0 || inst.cols == 0;
    }
  }
}
