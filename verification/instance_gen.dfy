/**
 * The Python instance generator: a full instance derived from a random mine
 * grid (every safe cell shows its count, every mine cell shows nothing),
 * and a copy of an instance in which some of the shown clues are hidden.
 *
 * The random draws become inputs: one mine/no-mine decision per cell for
 * the generator, one keep/hide decision per cell for the hiding step.
 */
module InstanceGen {
  import opened Options
  import opened Grids
  import opened Instances
  import opened Boards

  /**
   * Mines around (r, c) in `mines`, scanning the rows r - 1 .. r + 1 and in
   * each the columns c - 1 .. c + 1, skipping (r, c) and cells off the grid.
   * The grid's width is read from its first row, so there must be one.
   */
  method CountAdjacentMines(mines: array2<int>, r: int, c: int) returns (count: int)
    requires mines.Length0 > 0
    ensures count == MinesAround(Contents(mines), r, c)
    ensures 0 <= count <= 8
  {
    ghost var g := Contents(mines);
    count := 0;
    for dr := -1 to 2
      invariant count == CountAmong(g, NeighborRows(mines.Length0, mines.Length1, r, c, r + dr), 1)
    {
      count := CountInRow(mines, count, r, c, r + dr);
      CountAmongConcat(g, NeighborRows(mines.Length0, mines.Length1, r, c, r + dr),
        NeighborRow(mines.Length0, mines.Length1, r, c, r + dr, c + 2), 1);
    }
    MinesAroundAtMostEight(g, r, c);
  }

  /**
   * The inner loop of the count over row x = r + dr: the columns y = c + dc
   * for dc in -1, 0, 1, skipping the centre cell (dr = dc = 0).
   */
  method CountInRow(mines: array2<int>, count0: int, r: int, c: int, x: int) returns (count: int)
    ensures count == count0 + CountAmong(Contents(mines), NeighborRow(mines.Length0, mines.Length1, r, c, x, c + 2), 1)
  {
    ghost var g := Contents(mines);
    count := count0;
    for y := c - 1 to c + 2
      invariant count == count0 + CountAmong(g, NeighborRow(mines.Length0, mines.Length1, r, c, x, y), 1)
    {
      NeighborRowCountStep(g, mines.Length0, mines.Length1, r, c, x, y, 1);
      if (x != r || y != c) && 0 <= x < mines.Length0 && 0 <= y < mines.Length1 && mines[x, y] == 1 {
        count := count + 1;
      }
    }
  }

  /** What the generator shows at (r, c): nothing on a mine, the mine count elsewhere. */
  function DerivedClue(m: Grid, r: int, c: int): Option<int>
    requires 0 <= r < |m| && 0 <= c < |m[r]|
  {
    if m[r][c] == 1 then None else Some(MinesAround(m, r, c))
  }

  /** `inst` is the full instance of the mine grid `m`. */
  predicate DerivedFrom(inst: Instance, m: Grid) {
    && HasShape(inst)
    && Shaped(m, inst.rows, inst.cols)
    && inst.totalMines == Some(GridCount(m, 1))
    && forall r, c :: 0 <= r < inst.rows && 0 <= c < inst.cols ==> inst.clues[r][c] == DerivedClue(m, r, c)
  }

  /**
   * Builds the instance of a random mine grid: `draws[r][c]` is the draw
   * that puts a mine at (r, c). The mine total is the number of mines placed.
   */
  method RandomFull(rows: nat, cols: nat, draws: seq<seq<bool>>) returns (inst: Instance)
    requires Shaped(draws, rows, cols)
    ensures inst.rows == rows && inst.cols == cols
    ensures DerivedFrom(inst, FromDraws(draws, rows, cols))
  {
    var mines := new int[rows, cols]((_, _) => 0);
    var total := PlaceMines(mines, draws);
    var clues := new Option<int>[rows, cols]((_, _) => None);
    DeriveClues(mines, clues);
    inst := Instance(rows, cols, Contents(clues), Some(total));
  }

  /** The first double loop of the generator: draw each cell's mine and count the mines. */
  method PlaceMines(mines: array2<int>, draws: seq<seq<bool>>) returns (total: int)
    requires Shaped(draws, mines.Length0, mines.Length1)
    requires forall i, j :: 0 <= i < mines.Length0 && 0 <= j < mines.Length1 ==> mines[i, j] == 0
    modifies mines
    ensures Contents(mines) == FromDraws(draws, mines.Length0, mines.Length1)
    ensures total == GridCount(Contents(mines), 1)
  {
    ghost var m := FromDraws(draws, mines.Length0, mines.Length1);
    total := 0;
    for r := 0 to mines.Length0
      invariant total == GridCount(m[..r], 1)
      invariant forall i, j :: 0 <= i < mines.Length0 && 0 <= j < mines.Length1 ==> mines[i, j] == if i < r then m[i][j] else 0
    {
      total := PlaceRow(mines, draws, r, total);
      assert m[..r + 1][..r] == m[..r];
    }
    assert m[..mines.Length0] == m;
    GridExt(Contents(mines), m, mines.Length0, mines.Length1);
  }

  /** The inner loop of `PlaceMines` over row r. */
  method PlaceRow(mines: array2<int>, draws: seq<seq<bool>>, r: int, total0: int) returns (total: int)
    requires Shaped(draws, mines.Length0, mines.Length1) && 0 <= r < mines.Length0
    requires forall j :: 0 <= j < mines.Length1 ==> mines[r, j] == 0
    modifies mines
    ensures total == total0 + RowCount(FromDraws(draws, mines.Length0, mines.Length1)[r], 1)
    ensures forall i, j :: 0 <= i < mines.Length0 && 0 <= j < mines.Length1 ==>
      mines[i, j] == if i == r then (if draws[r][j] then 1 else 0) else old(mines[i, j])
  {
    ghost var row := FromDraws(draws, mines.Length0, mines.Length1)[r];
    total := total0;
    for c := 0 to mines.Length1
      invariant total == total0 + RowCount(row[..c], 1)
      invariant forall i, j :: 0 <= i < mines.Length0 && 0 <= j < mines.Length1 ==>
        mines[i, j] == if i == r && j < c then (if draws[r][j] then 1 else 0) else old(mines[i, j])
    {
      if draws[r][c] {
        mines[r, c] := 1;
        total := total + 1;
      }
      assert row[..c + 1][..c] == row[..c];
    }
    assert row[..mines.Length1] == row;
  }

  /** The second double loop of the generator: the clue of every cell from the finished mine grid. */
  method DeriveClues(mines: array2<int>, clues: array2<Option<int>>)
    requires clues.Length0 == mines.Length0 && clues.Length1 == mines.Length1
    modifies clues
    ensures forall i, j :: 0 <= i < clues.Length0 && 0 <= j < clues.Length1 ==>
      clues[i, j] == DerivedClue(Contents(mines), i, j)
  {
    for r := 0 to clues.Length0
      invariant forall i, j :: 0 <= i < r && 0 <= j < clues.Length1 ==> clues[i, j] == DerivedClue(Contents(mines), i, j)
    {
      ClueRow(mines, clues, r);
    }
  }

  /** The second loop of the generator over row r: the clue of each cell from the finished mine grid. */
  method ClueRow(mines: array2<int>, clues: array2<Option<int>>, r: int)
    requires clues.Length0 == mines.Length0 && clues.Length1 == mines.Length1 && 0 <= r < mines.Length0
    modifies clues
    ensures forall i, j :: 0 <= i < clues.Length0 && 0 <= j < clues.Length1 ==>
      clues[i, j] == if i == r then DerivedClue(Contents(mines), r, j) else old(clues[i, j])
  {
    for c := 0 to clues.Length1
      invariant forall i, j :: 0 <= i < clues.Length0 && 0 <= j < clues.Length1 ==>
        clues[i, j] == if i == r && j < c then DerivedClue(Contents(mines), r, j) else old(clues[i, j])
    {
      if mines[r, c] == 1 {
        clues[r, c] := None;
      } else {
        var count := CountAdjacentMines(mines, r, c);
        clues[r, c] := Some(count);
      }
    }
  }

  /**
   * The full instance of a 0/1 grid is solved by that grid, and is well
   * formed as soon as the grid has a cell.
   */
  lemma DerivedInstanceSolved(inst: Instance, m: Grid)
    requires DerivedFrom(inst, m) && Binary(m)
    ensures IsSolution(inst, m)
    ensures inst.rows > 0 && inst.cols > 0 ==> WellFormed(inst)
  {
    forall r, c | 0 <= r < inst.rows && 0 <= c < inst.cols && inst.clues[r][c].Some?
      ensures 0 <= inst.clues[r][c].value <= 8
    {
      MinesAroundAtMostEight(m, r, c);
    }
    GridCountTernary(m, inst.rows, inst.cols);
  }

  /** `hidden` shows a subset of the clues of `inst`, unchanged, and keeps everything else. */
  predicate Coarsens(hidden: Instance, inst: Instance) {
    && HasShape(inst) && HasShape(hidden)
    && hidden.rows == inst.rows && hidden.cols == inst.cols && hidden.totalMines == inst.totalMines
    && forall r, c :: 0 <= r < inst.rows && 0 <= c < inst.cols && hidden.clues[r][c].Some? ==>
         hidden.clues[r][c] == inst.clues[r][c]
  }

  /**
   * A copy of `inst` in which a shown clue stays shown when `keep[r][c]`
   * holds and is hidden otherwise. The decisions for cells without a clue
   * are not used.
   */
  method WithRandomHiding(inst: Instance, keep: seq<seq<bool>>) returns (hidden: Instance)
    requires HasShape(inst) && Shaped(keep, inst.rows, inst.cols)
    ensures Coarsens(hidden, inst)
    ensures forall r, c :: 0 <= r < inst.rows && 0 <= c < inst.cols ==>
      hidden.clues[r][c] == if inst.clues[r][c].Some? && keep[r][c] then inst.clues[r][c] else None
  {
    var newClues := new Option<int>[inst.rows, inst.cols]((_, _) => None);
    for r := 0 to inst.rows
      invariant forall i, j :: 0 <= i < inst.rows && 0 <= j < inst.cols ==>
        newClues[i, j] == if i < r && inst.clues[i][j].Some? && keep[i][j] then inst.clues[i][j] else None
    {
      for c := 0 to inst.cols
        invariant forall i, j :: 0 <= i < inst.rows && 0 <= j < inst.cols ==>
          newClues[i, j] == if (i < r || (i == r && j < c)) && inst.clues[i][j].Some? && keep[i][j] then inst.clues[i][j] else None
      {
        var clue := inst.clues[r][c];
        if clue.None? {
          newClues[r, c] := None;
        } else if keep[r][c] {
          newClues[r, c] := clue;
        } else {
          newClues[r, c] := None;
        }
      }
    }
    hidden := Instance(inst.rows, inst.cols, Contents(newClues), inst.totalMines);
  }

  /** Hiding clues keeps every solution a solution. */
  lemma HidingKeepsSolutions(hidden: Instance, inst: Instance, g: Grid)
    requires Coarsens(hidden, inst) && IsSolution(inst, g)
    ensures IsSolution(hidden, g)
  {
  }
}
