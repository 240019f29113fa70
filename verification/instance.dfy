/**
 * A Minesweeper instance: the grid dimensions, a clue per cell (0..8 when
 * revealed, absent otherwise) and an optional total number of mines. The
 * record is immutable; both the exhaustive solver and the local search
 * consume it, and the instance generator produces it.
 */
module Instances {
  import opened Options
  import opened Grids

  type Clues = seq<seq<Option<int>>>

  datatype Instance = Instance(rows: int, cols: int, clues: Clues, totalMines: Option<int>) {
    function GetRows(): int { rows }
    function GetCols(): int { cols }
    function GetClues(): Clues { clues }
    function GetTotalMines(): Option<int> { totalMines }
  }

  /** The getters hand back exactly what the constructor was given. */
  lemma GettersReturnArguments(rows: int, cols: int, clues: Clues, totalMines: Option<int>)
    ensures var inst := Instance(rows, cols, clues, totalMines);
      inst.GetRows() == rows && inst.GetCols() == cols &&
      inst.GetClues() == clues && inst.GetTotalMines() == totalMines
  {
  }

  /** The clue grid has the instance's dimensions (what every consumer indexes by). */
  predicate HasShape(inst: Instance) {
    inst.rows >= 0 && inst.cols >= 0 && Shaped(inst.clues, inst.rows, inst.cols)
  }

  /**
   * The documented well-formedness of an instance: positive dimensions,
   * every revealed clue in 0..8, a known mine total between 0 and the number
   * of cells.
   */
  predicate WellFormed(inst: Instance) {
    && HasShape(inst)
    && inst.rows > 0 && inst.cols > 0
    && (forall r, c :: 0 <= r < inst.rows && 0 <= c < inst.cols && inst.clues[r][c].Some? ==>
          0 <= inst.clues[r][c].value <= 8)
    && (inst.totalMines.Some? ==> 0 <= inst.totalMines.value <= inst.rows * inst.cols)
  }

  /** Every revealed clue equals the number of mines around its cell in `g`. */
  ghost predicate SatisfiesClues(inst: Instance, g: Grid) {
    forall r, c :: 0 <= r < |inst.clues| && 0 <= c < |inst.clues[r]| && inst.clues[r][c].Some? ==>
      MinesAround(g, r, c) == inst.clues[r][c].value
  }

  /** `g` is a 0/1 mine placement matching every revealed clue and, when known, the mine total. */
  ghost predicate IsSolution(inst: Instance, g: Grid) {
    && Shaped(g, inst.rows, inst.cols)
    && Binary(g)
    && SatisfiesClues(inst, g)
    && (inst.totalMines.None? || GridCount(g, 1) == inst.totalMines.value)
  }

  /**
   * A revealed clue does not make its own cell safe: in the 1x2 instance
   * with the clue 1 on the left cell, the right cell holds the mine, and
   * the left cell may or may not hold one.
   */
  lemma ClueCellMayHoldMine()
    ensures var inst := Instance(1, 2, [[Some(1), None]], None);
      && IsSolution(inst, [[1, 1]])
      && IsSolution(inst, [[0, 1]])
  {
    LeftClueMet([[1, 1]]);
    LeftClueMet([[0, 1]]);
  }

  /** A 1x2 grid with a mine on the right cell meets the clue 1 on the left cell. */
  lemma LeftClueMet(g: Grid)
    requires |g| == 1 && |g[0]| == 2 && g[0][1] == 1
    ensures SatisfiesClues(Instance(1, 2, [[Some(1), None]], None), g)
  {
    LeftCellNeighbors();
    assert MinesAround(g, 0, 0) == 1;
  }

  /** In a 1x2 grid the left cell's only neighbour is the right cell. */
  lemma LeftCellNeighbors()
    ensures NeighborCells(1, 2, 0, 0) == [(0, 1)]
  {
    assert NeighborRow(1, 2, 0, 0, -1, 2) == [];
    assert NeighborRow(1, 2, 0, 0, 0, 2) == [(0, 1)];
    assert NeighborRow(1, 2, 0, 0, 1, 2) == [];
  }

  /**
   * The hard-coded 3x3 example: only the clues at (0, 1) = 2 and (1, 0) = 1
   * are revealed, and the mine total is unknown.
   */
  function SmallExample(): (inst: Instance)
    ensures WellFormed(inst)
    ensures inst.rows == 3 && inst.cols == 3 && inst.totalMines.None?
    ensures forall r, c :: 0 <= r < 3 && 0 <= c < 3 ==>
      inst.clues[r][c] == if r == 0 && c == 1 then Some(2) else if r == 1 && c == 0 then Some(1) else None
  {
    var unknown: seq<Option<int>> := [None, None, None];
    var clues := [unknown[1 := Some(2)], unknown[0 := Some(1)], unknown];
    Instance(3, 3, clues, None)
  }
}
