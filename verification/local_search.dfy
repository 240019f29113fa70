/**
 * The Python local search: the cost of a 0/1 grid against an instance's
 * clues, a random starting grid, hill climbing by single-cell flips, and
 * hill climbing with random walk and restarts that keeps the best grid.
 *
 * The random draws are inputs: the per-cell mine decisions or the shuffled
 * cell order of the starting grid, the cell picked at each iteration, and
 * whether the random walk accepts a worse flip.
 */
module LocalSearch {
  import opened Options
  import opened Grids
  import opened Instances
  import opened Boards
  import opened InstanceGen

  function Abs(x: int): nat {
    if x < 0 then -x else x
  }

  // ---------------------------------------------------------------------
  // The cost of a grid
  // ---------------------------------------------------------------------

  /** How far the clue at (r, c) is from the mines around it in `g`; 0 where no clue is shown. */
  function ClueError(inst: Instance, g: Grid, r: int, c: int): nat
    requires HasShape(inst) && 0 <= r < inst.rows && 0 <= c < inst.cols
  {
    match inst.clues[r][c]
    case None => 0
    case Some(k) => Abs(MinesAround(g, r, c) - k)
  }

  /** Sum of the clue errors of row r over the columns below cEnd. */
  function RowCost(inst: Instance, g: Grid, r: int, cEnd: int): nat
    requires HasShape(inst) && 0 <= r < inst.rows && 0 <= cEnd <= inst.cols
    decreases cEnd
  {
    if cEnd == 0 then 0 else RowCost(inst, g, r, cEnd - 1) + ClueError(inst, g, r, cEnd - 1)
  }

  /** Sum of the clue errors of the rows below rEnd. */
  function CostUpTo(inst: Instance, g: Grid, rEnd: int): nat
    requires HasShape(inst) && 0 <= rEnd <= inst.rows
    decreases rEnd
  {
    if rEnd == 0 then 0 else CostUpTo(inst, g, rEnd - 1) + RowCost(inst, g, rEnd - 1, inst.cols)
  }

  /** The cost of `g`: the sum over the shown clues of |mines around - clue|. */
  function CostOf(inst: Instance, g: Grid): nat
    requires HasShape(inst)
  {
    CostUpTo(inst, g, inst.rows)
  }

  lemma {:induction false} RowCostZero(inst: Instance, g: Grid, r: int, cEnd: int)
    requires HasShape(inst) && 0 <= r < inst.rows && 0 <= cEnd <= inst.cols
    ensures RowCost(inst, g, r, cEnd) == 0 <==> forall c :: 0 <= c < cEnd ==> ClueError(inst, g, r, c) == 0
    decreases cEnd
  {
    if cEnd > 0 {
      RowCostZero(inst, g, r, cEnd - 1);
    }
  }

  lemma {:induction false} CostUpToZero(inst: Instance, g: Grid, rEnd: int)
    requires HasShape(inst) && 0 <= rEnd <= inst.rows
    ensures CostUpTo(inst, g, rEnd) == 0 <==>
      forall r, c :: 0 <= r < rEnd && 0 <= c < inst.cols ==> ClueError(inst, g, r, c) == 0
    decreases rEnd
  {
    if rEnd > 0 {
      CostUpToZero(inst, g, rEnd - 1);
      RowCostZero(inst, g, rEnd - 1, inst.cols);
    }
  }

  /** The cost is 0 exactly when every shown clue equals the number of mines around its cell. */
  lemma CostZeroIff(inst: Instance, g: Grid)
    requires HasShape(inst)
    ensures CostOf(inst, g) == 0 <==> SatisfiesClues(inst, g)
  {
    CostUpToZero(inst, g, inst.rows);
    if CostOf(inst, g) == 0 {
      forall r, c | 0 <= r < |inst.clues| && 0 <= c < |inst.clues[r]| && inst.clues[r][c].Some?
        ensures MinesAround(g, r, c) == inst.clues[r][c].value
      {
        assert ClueError(inst, g, r, c) == 0;
      }
    }
    if SatisfiesClues(inst, g) {
      forall r, c | 0 <= r < inst.rows && 0 <= c < inst.cols
        ensures ClueError(inst, g, r, c) == 0
      {
      }
    }
  }

  /** The cost of the grid held in `sol`, summing row by row as `CostOf` does. */
  method Cost(inst: Instance, sol: array2<int>) returns (total: int)
    requires HasShape(inst) && (inst.rows == 0 || sol.Length0 > 0)
    ensures total == CostOf(inst, Contents(sol))
  {
    total := 0;
    for r := 0 to inst.rows
      invariant total == CostUpTo(inst, Contents(sol), r)
    {
      for c := 0 to inst.cols
        invariant total == CostUpTo(inst, Contents(sol), r) + RowCost(inst, Contents(sol), r, c)
      {
        var clue := inst.clues[r][c];
        if clue.Some? {
          var actual := CountAdjacentMines(sol, r, c);
          total := total + Abs(actual - clue.value);
        }
      }
    }
  }

  /**
   * The grid of a full instance has cost 0 against that instance and
   * against every instance obtained from it by hiding clues.
   */
  lemma GeneratedGridCostZero(full: Instance, hidden: Instance, m: Grid)
    requires DerivedFrom(full, m) && Binary(m) && Coarsens(hidden, full)
    ensures CostOf(full, m) == 0 && CostOf(hidden, m) == 0
  {
    DerivedInstanceSolved(full, m);
    HidingKeepsSolutions(hidden, full, m);
    CostZeroIff(full, m);
    CostZeroIff(hidden, m);
  }

  // ---------------------------------------------------------------------
  // Flipping a cell
  // ---------------------------------------------------------------------

  /** `g` with the cell (r, c) flipped between 0 and 1. */
  function Flipped(g: Grid, r: int, c: int): (h: Grid)
    requires 0 <= r < |g| && 0 <= c < |g[r]|
    ensures |h| == |g| && forall i :: 0 <= i < |g| ==> |h[i]| == |g[i]|
    ensures forall i, j :: 0 <= i < |g| && 0 <= j < |g[i]| && (i != r || j != c) ==> h[i][j] == g[i][j]
    ensures g[r][c] == 0 ==> h[r][c] == 1
    ensures g[r][c] == 1 ==> h[r][c] == 0
  {
    SetCell(g, r, c, 1 - g[r][c])
  }

  /** Flipping a cell of a 0/1 grid gives a 0/1 grid, and flipping it again gives the grid back. */
  lemma FlipTwice(g: Grid, r: int, c: int)
    requires 0 <= r < |g| && 0 <= c < |g[r]|
    ensures Flipped(Flipped(g, r, c), r, c) == g
    ensures Binary(g) ==> Binary(Flipped(g, r, c))
  {
    SetCellRestore(g, r, c, 1 - g[r][c]);
  }

  /** Flips the cell (r, c) of `sol` in place; nothing else changes. */
  method FlipCell(sol: array2<int>, r: int, c: int)
    requires 0 <= r < sol.Length0 && 0 <= c < sol.Length1
    modifies sol
    ensures Contents(sol) == Flipped(old(Contents(sol)), r, c)
  {
    ghost var before := Contents(sol);
    sol[r, c] := 1 - sol[r, c];
    GridExt(Contents(sol), Flipped(before, r, c), sol.Length0, sol.Length1);
  }

  // ---------------------------------------------------------------------
  // The starting grid
  // ---------------------------------------------------------------------

  /** `order` lists cells of the rows x cols grid, each at most once, and as many as the grid has. */
  predicate IsCellOrder(order: seq<Cell>, rows: int, cols: int) {
    && |order| == rows * cols
    && (forall i :: 0 <= i < |order| ==> InGrid(rows, cols, order[i].0, order[i].1))
    && forall i, j :: 0 <= i < j < |order| ==> order[i] != order[j]
  }

  /** What `random_solution` needs of its draws for `inst`. */
  predicate StartDraws(inst: Instance, free: seq<seq<bool>>, order: seq<Cell>) {
    match inst.totalMines
    case None => Shaped(free, inst.rows, inst.cols)
    case Some(total) => IsCellOrder(order, inst.rows, inst.cols) && total <= inst.rows * inst.cols
  }

  /** The 0/1 grid with a mine exactly on the listed cells. */
  function MinesOn(cells: seq<Cell>, rows: nat, cols: nat): (g: Grid)
    ensures Shaped(g, rows, cols) && Binary(g)
    ensures forall r, c :: 0 <= r < rows && 0 <= c < cols ==> g[r][c] == if (r, c) in cells then 1 else 0
  {
    seq(rows, r requires 0 <= r < rows => seq(cols, c requires 0 <= c < cols => if (r, c) in cells then 1 else 0))
  }

  /** The number of mines `random_solution` places when the total is known. */
  function Placed(total: int): nat {
    if total <= 0 then 0 else total
  }

  /**
   * The starting grid: without a mine total, a mine wherever the cell's draw
   * says so; with one, mines on the first `total` cells of the shuffled order.
   */
  function InitialSolution(inst: Instance, free: seq<seq<bool>>, order: seq<Cell>): (g: Grid)
    requires HasShape(inst) && StartDraws(inst, free, order)
    ensures Shaped(g, inst.rows, inst.cols) && Binary(g)
  {
    match inst.totalMines
    case None => FromDraws(free, inst.rows, inst.cols)
    case Some(total) => MinesOn(order[..Placed(total)], inst.rows, inst.cols)
  }

  /**
   * A fresh starting grid for `inst`. With a mine total of n >= 0 it holds
   * exactly n mines.
   */
  method RandomSolution(inst: Instance, free: seq<seq<bool>>, order: seq<Cell>) returns (grid: array2<int>)
    requires HasShape(inst) && StartDraws(inst, free, order)
    ensures fresh(grid) && grid.Length0 == inst.rows && grid.Length1 == inst.cols
    ensures Contents(grid) == InitialSolution(inst, free, order)
    ensures inst.totalMines.Some? && inst.totalMines.value >= 0 ==> GridCount(Contents(grid), 1) == inst.totalMines.value
  {
    grid := new int[inst.rows, inst.cols]((_, _) => 0);
    if inst.totalMines.None? {
      FillFromDraws(grid, free);
    } else {
      PlaceFirstMines(grid, order, Placed(inst.totalMines.value));
    }
  }

  /** The branch without a mine total: each cell's draw decides its mine. */
  method FillFromDraws(grid: array2<int>, free: seq<seq<bool>>)
    requires Shaped(free, grid.Length0, grid.Length1)
    modifies grid
    ensures Contents(grid) == FromDraws(free, grid.Length0, grid.Length1)
  {
    for r := 0 to grid.Length0
      invariant forall i, j :: 0 <= i < r && 0 <= j < grid.Length1 ==> grid[i, j] == if free[i][j] then 1 else 0
    {
      for c := 0 to grid.Length1
        invariant forall i, j :: 0 <= i < grid.Length0 && 0 <= j < grid.Length1 && (i < r || (i == r && j < c)) ==>
          grid[i, j] == if free[i][j] then 1 else 0
      {
        grid[r, c] := if free[r][c] then 1 else 0;
      }
    }
    GridExt(Contents(grid), FromDraws(free, grid.Length0, grid.Length1), grid.Length0, grid.Length1);
  }

  /** The branch with a mine total: mines on the first n cells of the order, one at a time. */
  method PlaceFirstMines(grid: array2<int>, order: seq<Cell>, n: nat)
    requires IsCellOrder(order, grid.Length0, grid.Length1) && n <= |order|
    requires forall x, y :: 0 <= x < grid.Length0 && 0 <= y < grid.Length1 ==> grid[x, y] == 0
    modifies grid
    ensures Contents(grid) == MinesOn(order[..n], grid.Length0, grid.Length1)
    ensures GridCount(Contents(grid), 1) == n
  {
    GridCountAbsent(Contents(grid), 1);
    for i := 0 to n
      invariant forall x, y :: 0 <= x < grid.Length0 && 0 <= y < grid.Length1 ==>
        grid[x, y] == if (x, y) in order[..i] then 1 else 0
      invariant GridCount(Contents(grid), 1) == i
    {
      PlaceMine(grid, order, i);
    }
    GridExt(Contents(grid), MinesOn(order[..n], grid.Length0, grid.Length1), grid.Length0, grid.Length1);
  }

  /** One step of the fixed-total branch: a mine on the i-th cell of the order, which had none. */
  method PlaceMine(grid: array2<int>, order: seq<Cell>, i: int)
    requires IsCellOrder(order, grid.Length0, grid.Length1) && 0 <= i < |order|
    requires forall x, y :: 0 <= x < grid.Length0 && 0 <= y < grid.Length1 ==>
      grid[x, y] == if (x, y) in order[..i] then 1 else 0
    modifies grid
    ensures forall x, y :: 0 <= x < grid.Length0 && 0 <= y < grid.Length1 ==>
      grid[x, y] == if (x, y) in order[..i + 1] then 1 else 0
    ensures GridCount(Contents(grid), 1) == GridCount(old(Contents(grid)), 1) + 1
  {
    ghost var before := Contents(grid);
    var (r, c) := order[i];
    assert (r, c) !in order[..i];
    assert order[..i + 1] == order[..i] + [(r, c)];
    grid[r, c] := 1;
    GridExt(Contents(grid), SetCell(before, r, c, 1), grid.Length0, grid.Length1);
    GridCountSet(before, r, c, 1, 1);
  }

  // ---------------------------------------------------------------------
  // Hill climbing
  // ---------------------------------------------------------------------

  /**
   * One iteration: flip the picked cell; keep the flip when the cost does not
   * rise or when the random walk accepts it, and undo it otherwise.
   */
  function Step(inst: Instance, g: Grid, cost: int, p: Cell, walk: bool): (Grid, int)
    requires HasShape(inst) && Shaped(g, inst.rows, inst.cols) && InGrid(inst.rows, inst.cols, p.0, p.1)
  {
    var h := Flipped(g, p.0, p.1);
    var newCost := CostOf(inst, h);
    if newCost <= cost || walk then (h, newCost) else (g, cost)
  }

  /** The cells picked are all on the grid, and there is one walk decision per pick. */
  predicate Moves(inst: Instance, picks: seq<Cell>, walks: seq<bool>) {
    && |walks| == |picks|
    && forall i :: 0 <= i < |picks| ==> InGrid(inst.rows, inst.cols, picks[i].0, picks[i].1)
  }

  /**
   * The grid and cost after the iterations for `picks`, stopping right after
   * the first iteration that leaves the cost at 0.
   */
  function Climb(inst: Instance, g: Grid, cost: int, picks: seq<Cell>, walks: seq<bool>): (Grid, int)
    requires HasShape(inst) && Shaped(g, inst.rows, inst.cols) && Moves(inst, picks, walks)
    decreases |picks|
  {
    if picks == [] then (g, cost)
    else
      var (h, k) := Step(inst, g, cost, picks[0], walks[0]);
      if k == 0 then (h, k) else Climb(inst, h, k, picks[1..], walks[1..])
  }

  /**
   * Climbing keeps the tracked cost equal to the cost of the grid, and keeps
   * a 0/1 grid 0/1; without random walks the cost never rises.
   */
  lemma {:induction false} ClimbInvariant(inst: Instance, g: Grid, cost: int, picks: seq<Cell>, walks: seq<bool>)
    requires HasShape(inst) && Shaped(g, inst.rows, inst.cols) && Moves(inst, picks, walks)
    requires cost == CostOf(inst, g)
    ensures var (h, k) := Climb(inst, g, cost, picks, walks);
      && Shaped(h, inst.rows, inst.cols)
      && k == CostOf(inst, h)
      && (Binary(g) ==> Binary(h))
      && ((forall i :: 0 <= i < |walks| ==> !walks[i]) ==> k <= cost)
    decreases |picks|
  {
    if picks != [] {
      var (h, k) := Step(inst, g, cost, picks[0], walks[0]);
      FlipTwice(g, picks[0].0, picks[0].1);
      if k != 0 {
        assert forall i :: 0 <= i < |walks| - 1 ==> walks[1..][i] == walks[i + 1];
        ClimbInvariant(inst, h, k, picks[1..], walks[1..]);
      }
    }
  }

  /** One iteration of the climbing loop on `sol` in place. */
  method TryFlip(inst: Instance, sol: array2<int>, currentCost: int, r: int, c: int, walk: bool) returns (newCurrent: int)
    requires HasShape(inst) && sol.Length0 == inst.rows && sol.Length1 == inst.cols
    requires InGrid(inst.rows, inst.cols, r, c)
    modifies sol
    ensures (Contents(sol), newCurrent) == Step(inst, old(Contents(sol)), currentCost, (r, c), walk)
  {
    ghost var before := Contents(sol);
    var oldVal := sol[r, c];
    sol[r, c] := 1 - oldVal;
    GridExt(Contents(sol), Flipped(before, r, c), sol.Length0, sol.Length1);
    var newCost := Cost(inst, sol);
    if newCost <= currentCost || walk {
      newCurrent := newCost;
    } else {
      sol[r, c] := oldVal;
      GridExt(Contents(sol), before, sol.Length0, sol.Length1);
      newCurrent := currentCost;
    }
  }

  /** The climbing loop: one iteration per pick, leaving as soon as the cost is 0. */
  method ClimbLoop(inst: Instance, sol: array2<int>, startCost: int, picks: seq<Cell>, walks: seq<bool>)
    returns (currentCost: int)
    requires HasShape(inst) && sol.Length0 == inst.rows && sol.Length1 == inst.cols && Moves(inst, picks, walks)
    modifies sol
    ensures (Contents(sol), currentCost) == Climb(inst, old(Contents(sol)), startCost, picks, walks)
  {
    currentCost := startCost;
    var i := 0;
    while i < |picks|
      invariant 0 <= i <= |picks|
      invariant Climb(inst, Contents(sol), currentCost, picks[i..], walks[i..])
        == Climb(inst, old(Contents(sol)), startCost, picks, walks)
    {
      ghost var before := Contents(sol);
      assert picks[i..][1..] == picks[i + 1..] && walks[i..][1..] == walks[i + 1..];
      currentCost := TryFlip(inst, sol, currentCost, picks[i].0, picks[i].1, walks[i]);
      i := i + 1;
      if currentCost == 0 {
        return;
      }
    }
  }

  /** The number of iterations `range(max_iters)` runs. */
  function Iterations(maxIters: int): nat {
    if maxIters < 0 then 0 else maxIters
  }

  /** No random walk: plain hill climbing accepts a flip only when the cost does not rise. */
  function NoWalks(n: nat): (walks: seq<bool>)
    ensures |walks| == n && forall i :: 0 <= i < n ==> !walks[i]
  {
    seq(n, _ => false)
  }

  /**
   * Plain hill climbing from the starting grid of the given draws, with one
   * picked cell per iteration. The returned cost is the cost of the returned
   * grid, never above the starting cost, and is 0 exactly when the grid
   * matches every shown clue.
   */
  method HillClimbing(inst: Instance, maxIters: int, free: seq<seq<bool>>, order: seq<Cell>, picks: seq<Cell>)
    returns (sol: array2<int>, currentCost: int)
    requires HasShape(inst) && StartDraws(inst, free, order)
    requires |picks| == Iterations(maxIters) && Moves(inst, picks, NoWalks(|picks|))
    ensures fresh(sol) && sol.Length0 == inst.rows && sol.Length1 == inst.cols
    ensures var g := InitialSolution(inst, free, order);
      (Contents(sol), currentCost) == Climb(inst, g, CostOf(inst, g), picks, NoWalks(|picks|))
    ensures currentCost == CostOf(inst, Contents(sol))
    ensures currentCost <= CostOf(inst, InitialSolution(inst, free, order))
    ensures Binary(Contents(sol))
    ensures currentCost == 0 <==> SatisfiesClues(inst, Contents(sol))
  {
    sol := RandomSolution(inst, free, order);
    currentCost := Cost(inst, sol);
    ghost var g := Contents(sol);
    currentCost := ClimbLoop(inst, sol, currentCost, picks, NoWalks(|picks|));
    ClimbInvariant(inst, g, CostOf(inst, g), picks, NoWalks(|picks|));
    CostZeroIff(inst, Contents(sol));
  }

  // ---------------------------------------------------------------------
  // Hill climbing with random walk and restarts
  // ---------------------------------------------------------------------

  /** The cost the best grid starts from, above any cost met in practice (10^18). */
  const Unreached: int := 1_000_000_000_000_000_000

  /** The draws of one restart: its starting grid, its picks and its walk decisions. */
  datatype Restart = Restart(free: seq<seq<bool>>, order: seq<Cell>, picks: seq<Cell>, walks: seq<bool>)

  predicate RestartDraws(inst: Instance, maxIters: int, run: Restart) {
    && StartDraws(inst, run.free, run.order)
    && |run.picks| == Iterations(maxIters)
    && Moves(inst, run.picks, run.walks)
  }

  /** The grid and cost one restart ends with. */
  function Final(inst: Instance, maxIters: int, run: Restart): (Grid, int)
    requires HasShape(inst) && RestartDraws(inst, maxIters, run)
  {
    var g := InitialSolution(inst, run.free, run.order);
    Climb(inst, g, CostOf(inst, g), run.picks, run.walks)
  }

  /** The ends of the restarts, in order. */
  function Finals(inst: Instance, maxIters: int, runs: seq<Restart>): (finals: seq<(Grid, int)>)
    requires HasShape(inst) && forall k :: 0 <= k < |runs| ==> RestartDraws(inst, maxIters, runs[k])
    ensures |finals| == |runs|
    ensures forall k :: 0 <= k < |runs| ==> finals[k] == Final(inst, maxIters, runs[k])
  {
    seq(|runs|, k requires 0 <= k < |runs| => Final(inst, maxIters, runs[k]))
  }

  /**
   * Best-grid tracking over the restarts' ends: a strictly lower cost
   * replaces the best grid, and the restarts stop once the best cost is 0.
   */
  function Track(finals: seq<(Grid, int)>, best: Option<Grid>, bestCost: int): (Option<Grid>, int)
    decreases |finals|
  {
    if finals == [] then (best, bestCost)
    else
      var (best', bestCost') := if finals[0].1 < bestCost then (Some(finals[0].0), finals[0].1) else (best, bestCost);
      if bestCost' == 0 then (best', bestCost') else Track(finals[1..], best', bestCost')
  }

  /**
   * With costs that are never negative, the tracked cost is the minimum of
   * the starting bound and every restart's cost, whether or not the restarts
   * stopped early; a best grid is held exactly when the bound was beaten or
   * one was held already, and it is a grid whose cost is the tracked cost.
   */
  lemma {:induction false} TrackIsMinimum(inst: Instance, finals: seq<(Grid, int)>, best: Option<Grid>, bestCost: int)
    requires HasShape(inst)
    requires forall k :: 0 <= k < |finals| ==> finals[k].1 == CostOf(inst, finals[k].0)
    requires best.Some? ==> bestCost == CostOf(inst, best.value)
    ensures var (b, cost) := Track(finals, best, bestCost);
      && cost <= bestCost
      && (forall k :: 0 <= k < |finals| ==> cost <= finals[k].1)
      && (cost == bestCost || exists k :: 0 <= k < |finals| && cost == finals[k].1)
      && (b.Some? <==> best.Some? || cost < bestCost)
      && (b.Some? ==> cost == CostOf(inst, b.value))
    decreases |finals|
  {
    if finals != [] {
      var (best', bestCost') := if finals[0].1 < bestCost then (Some(finals[0].0), finals[0].1) else (best, bestCost);
      if bestCost' != 0 {
        TrackIsMinimum(inst, finals[1..], best', bestCost');
        var (b, cost) := Track(finals[1..], best', bestCost');
        assert forall k :: 1 <= k < |finals| ==> finals[k] == finals[1..][k - 1];
        if cost != bestCost' {
          var k :| 0 <= k < |finals[1..]| && cost == finals[1..][k].1;
          assert cost == finals[k + 1].1;
        }
      }
    }
  }

  /**
   * The grid tracking ends with is the one it started with, or the end grid
   * of a restart together with the cost that restart reported.
   */
  lemma {:induction false} TrackKeepsAFinal(finals: seq<(Grid, int)>, best: Option<Grid>, bestCost: int)
    ensures var (b, cost) := Track(finals, best, bestCost);
      b.Some? ==> (b == best && cost == bestCost) || exists k :: 0 <= k < |finals| && finals[k] == (b.value, cost)
    decreases |finals|
  {
    if finals != [] {
      var (best', bestCost') := if finals[0].1 < bestCost then (Some(finals[0].0), finals[0].1) else (best, bestCost);
      if bestCost' != 0 {
        TrackKeepsAFinal(finals[1..], best', bestCost');
        var (b, cost) := Track(finals[1..], best', bestCost');
        if b.Some? && !(b == best' && cost == bestCost') {
          var k :| 0 <= k < |finals[1..]| && finals[1..][k] == (b.value, cost);
          assert finals[k + 1] == (b.value, cost);
        }
      }
    }
  }

  /** One restart: a starting grid, its cost, and the climbing loop with random walk. */
  method RunRestart(inst: Instance, maxIters: int, run: Restart) returns (sol: array2<int>, currentCost: int)
    requires HasShape(inst) && RestartDraws(inst, maxIters, run)
    ensures (Contents(sol), currentCost) == Final(inst, maxIters, run)
  {
    sol := RandomSolution(inst, run.free, run.order);
    currentCost := Cost(inst, sol);
    currentCost := ClimbLoop(inst, sol, currentCost, run.picks, run.walks);
  }

  /**
   * Hill climbing with random walk and restarts. The result is the best
   * grid over the restarts run (None where no restart got below 10^18,
   * the case in which the source's final assertion fails) and its cost,
   * which is the least final cost over all the restarts and the cost of that
   * grid; a cost of 0 means the grid matches every shown clue.
   */
  method HillClimbingWithRestarts(inst: Instance, maxIters: int, restarts: int, runs: seq<Restart>)
    returns (bestSol: Option<Grid>, bestCost: int)
    requires HasShape(inst) && |runs| == Iterations(restarts)
    requires forall k :: 0 <= k < |runs| ==> RestartDraws(inst, maxIters, runs[k])
    ensures (bestSol, bestCost) == Track(Finals(inst, maxIters, runs), None, Unreached)
    ensures bestSol.Some? <==> bestCost < Unreached
    ensures bestSol.Some? ==> bestCost == CostOf(inst, bestSol.value)
    ensures forall k :: 0 <= k < |runs| ==> bestCost <= Final(inst, maxIters, runs[k]).1
    ensures bestSol.Some? ==> exists k :: 0 <= k < |runs| && Final(inst, maxIters, runs[k]) == (bestSol.value, bestCost)
    ensures bestSol.Some? && bestCost == 0 ==> SatisfiesClues(inst, bestSol.value)
  {
    ghost var finals := Finals(inst, maxIters, runs);
    bestSol := None;
    bestCost := Unreached;
    var k := 0;
    while k < |runs|
      invariant 0 <= k <= |runs|
      invariant Track(finals[k..], bestSol, bestCost) == Track(finals, None, Unreached)
    {
      var sol, currentCost := RunRestart(inst, maxIters, runs[k]);
      assert finals[k..][1..] == finals[k + 1..];
      if currentCost < bestCost {
        bestCost := currentCost;
        bestSol := Some(Contents(sol));
      }
      k := k + 1;
      if bestCost == 0 {
        break;
      }
    }
    ResultIsBest(inst, maxIters, runs, bestSol, bestCost);
    BestIsAFinal(inst, maxIters, runs, bestSol, bestCost);
  }

  /** A restart ends with a grid whose cost is the cost it reports. */
  lemma FinalCost(inst: Instance, maxIters: int, run: Restart)
    requires HasShape(inst) && RestartDraws(inst, maxIters, run)
    ensures Final(inst, maxIters, run).1 == CostOf(inst, Final(inst, maxIters, run).0)
  {
    var g := InitialSolution(inst, run.free, run.order);
    ClimbInvariant(inst, g, CostOf(inst, g), run.picks, run.walks);
  }

  /** Every restart's end reports the cost of its end grid. */
  lemma FinalsCosts(inst: Instance, maxIters: int, runs: seq<Restart>)
    requires HasShape(inst) && forall k :: 0 <= k < |runs| ==> RestartDraws(inst, maxIters, runs[k])
    ensures var finals := Finals(inst, maxIters, runs);
      forall k :: 0 <= k < |finals| ==> finals[k].1 == CostOf(inst, finals[k].0)
  {
    forall k | 0 <= k < |runs|
      ensures Final(inst, maxIters, runs[k]).1 == CostOf(inst, Final(inst, maxIters, runs[k]).0)
    {
      FinalCost(inst, maxIters, runs[k]);
    }
  }

  /** The facts the restarts' result inherits from `TrackIsMinimum`. */
  lemma ResultIsBest(inst: Instance, maxIters: int, runs: seq<Restart>, bestSol: Option<Grid>, bestCost: int)
    requires HasShape(inst) && forall k :: 0 <= k < |runs| ==> RestartDraws(inst, maxIters, runs[k])
    requires (bestSol, bestCost) == Track(Finals(inst, maxIters, runs), None, Unreached)
    ensures bestSol.Some? <==> bestCost < Unreached
    ensures bestSol.Some? ==> bestCost == CostOf(inst, bestSol.value)
    ensures forall k :: 0 <= k < |runs| ==> bestCost <= Final(inst, maxIters, runs[k]).1
    ensures bestSol.Some? && bestCost == 0 ==> SatisfiesClues(inst, bestSol.value)
  {
    FinalsCosts(inst, maxIters, runs);
    TrackIsMinimum(inst, Finals(inst, maxIters, runs), None, Unreached);
    if bestSol.Some? && bestCost == 0 {
      CostZeroIff(inst, bestSol.value);
    }
  }

  /** The best grid of the restarts is the end grid of one of them, with the cost it reported. */
  lemma BestIsAFinal(inst: Instance, maxIters: int, runs: seq<Restart>, bestSol: Option<Grid>, bestCost: int)
    requires HasShape(inst) && forall k :: 0 <= k < |runs| ==> RestartDraws(inst, maxIters, runs[k])
    requires (bestSol, bestCost) == Track(Finals(inst, maxIters, runs), None, Unreached)
    ensures bestSol.Some? ==> exists k :: 0 <= k < |runs| && Final(inst, maxIters, runs[k]) == (bestSol.value, bestCost)
  {
    var finals := Finals(inst, maxIters, runs);
    TrackKeepsAFinal(finals, None, Unreached);
    if bestSol.Some? {
      var k :| 0 <= k < |finals| && finals[k] == (bestSol.value, bestCost);
      assert Final(inst, maxIters, runs[k]) == (bestSol.value, bestCost);
    }
  }
}
