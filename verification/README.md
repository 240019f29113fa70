# Minesweeper solvers, modelled in Dafny

The repository solves Minesweeper instances. An instance is a `rows x cols`
grid. Some cells show a clue: the number of mines among the up to eight
cells around it. Optionally, the total number of mines is known. A solution
puts 0 or 1 on every cell so that every shown clue is matched and, when
given, the total is matched too.

This project models four core files:

- **`BacktrackingMinesweeperSolver` (Java).** A complete solver. It counts
  the solutions of an instance by depth-first search over a `-1/0/1`
  assignment grid. Pruning comes from two checks:
  - the bounds every shown clue puts on the cells around it (forward
    checking);
  - the bounds the mine total puts on the whole grid.

  The next cell to assign is the unassigned cell that the most clues see.
  The search stops early at a solution cap or a wall-clock deadline. The
  deadline is given as text such as `"2000ms"` or `"2s"`.
- **`MinesweeperInstance` (Java).** The instance record, its getters and a
  hard-coded 3x3 example.
- **`instance.py` (Python).** The same record, plus a random generator: it
  draws a mine grid and derives the full clue grid from it. It can also hide
  some of the clues of an instance.
- **`local_search.py` (Python).** An incomplete solver, made of:
  - a cost, the sum over the shown clues of `|mines around - clue|`;
  - a random starting grid;
  - hill climbing by single-cell flips;
  - hill climbing with random walk and restarts, which keeps the best grid
    it meets.

Modules:

| module | file | contents |
|---|---|---|
| `Options` | options.dfy | `Option` |
| `Grids` | grids.dfy | cells, the 8-neighbourhood, counting values in a grid |
| `Instances` | instance.dfy | the instance, its shape, what a solution is, the small example |
| `SearchSpec` | search_spec.dfy | the completions of a partial assignment and the count the search must reach |
| `Deadline` | deadline.dfy | `computeDeadline`: trimming, lower-casing, `Long.parseLong`, 64-bit wrap-around |
| `Backtracking` | backtracking.dfy | the solver classes: `Solver`, the search state `Search`, the wall clock `Clock` |
| `Boards` | boards.dfy | reading an `array2` back as a grid value |
| `InstanceGen` | instance_gen.dfy | the Python generator and clue hiding |
| `LocalSearch` | local_search.dfy | the Python cost, flips, starting grid and hill climbing |

How each side is modelled:

- **The Java search** is imperative. `Search` holds the `assign`, `degree`,
  counter and cap/deadline fields of the Java object. Its methods modify
  them. A ghost grid `A` mirrors `assign`.
- **The search's specification.** `Backtrack` is proved against
  `CompletionCount(inst, A)`, the number of solutions that extend the
  current partial assignment. A separate lemma shows this number is the
  size of the set of those solutions.
- **The Python grids** that are updated in place are `array2<int>`.
- **Randomness.** Every random draw of the Python code is an input of the
  model:
  - per-cell decisions;
  - the shuffled cell order;
  - the cell picked at each iteration;
  - the random-walk decisions.

## Model

Paths are relative to the repository root.

The solver never treats a revealed clue cell as safe: a solution may put a
mine on a cell that shows a clue (see `Instances.ClueCellMayHoldMine`).
This follows the Java code, whose consistency check constrains only the
neighbours of each clue. So the counts can be higher than a player would
expect.

| member | source | states |
|---|---|---|
| Instances.GettersReturnArguments | src/main/java/fr/m2/minesweeper/model/MinesweeperInstance.java:16-37 | each getter returns exactly the value the constructor stored; the Python record (instance.py lines 11-17) likewise keeps rows, cols, clues and the optional total as given |
| Instances.SmallExample | src/main/java/fr/m2/minesweeper/model/MinesweeperInstance.java:50-62 | the example is 3x3 with no mine total; exactly the clues (0,1) = 2 and (1,0) = 1 are shown; it is well formed |
| Instances.ClueCellMayHoldMine | src/main/java/fr/m2/minesweeper/solver/BacktrackingMinesweeperSolver.java:158-192 | clues constrain only the neighbours of their cell: the 1x2 instance with the clue 1 on the left cell is solved both by a mine on each cell and by a mine on the right cell only |
| Grids.NeighborCellsSpec | src/main/java/fr/m2/minesweeper/solver/BacktrackingMinesweeperSolver.java:215-228 | the neighbour list holds exactly the in-grid cells adjacent to (r, c), without (r, c) itself; it has no repeats and at most 8 cells |
| Grids.MinesAroundAtMostEight | minesweeper-local-search/local_search.py:32-44 | the number of mines around a cell is between 0 and 8 |
| Backtracking.Solver.Enumerate | src/main/java/fr/m2/minesweeper/solver/BacktrackingMinesweeperSolver.java:40-65 | the count never exceeds the number of solutions capped at `maxSolutions` (when that is positive); without a timeout it equals that capped number; `timeMs` is the 64-bit difference of the last and first clock readings; an absent or unusable time limit never times out; a timeout means a reading passed the non-zero deadline |
| Backtracking.Solver.Finish | src/main/java/fr/m2/minesweeper/solver/BacktrackingMinesweeperSolver.java:59-64 | from a start reading and a deadline: the same count, timeout and `timeMs` facts, with the end reading taken after the search |
| Backtracking.Solver.Run | src/main/java/fr/m2/minesweeper/solver/BacktrackingMinesweeperSolver.java:47-61 | a fresh all-unassigned search reaches the capped completion count of the empty assignment unless it times out; no deadline means no clock reading and no timeout |
| Backtracking.Search.constructor | src/main/java/fr/m2/minesweeper/solver/BacktrackingMinesweeperSolver.java:41-59 | the search starts all unassigned with zero counters and zero solutions, and the degrees are built |
| Backtracking.Clock.Now | src/main/java/fr/m2/minesweeper/solver/BacktrackingMinesweeperSolver.java:56 | each reading of the clock returns the next value of its reading sequence and consumes it |
| Backtracking.Search.BuildDegrees | src/main/java/fr/m2/minesweeper/solver/BacktrackingMinesweeperSolver.java:86-97 | every cell's degree is the number of shown clues whose neighbourhood contains it |
| Backtracking.Search.BumpNeighbors | src/main/java/fr/m2/minesweeper/solver/BacktrackingMinesweeperSolver.java:92-94 | the degree of exactly the neighbours of (r, c) goes up by one; every other degree is unchanged |
| Backtracking.Search.Backtrack | src/main/java/fr/m2/minesweeper/solver/BacktrackingMinesweeperSolver.java:99-140 | adds at most the number of solutions extending the current assignment, capped at `maxSolutions`; without a timeout it adds exactly that capped number and restores the assignment and counters; a timeout means a clock reading passed the deadline |
| Backtracking.Search.PastDeadline | src/main/java/fr/m2/minesweeper/solver/BacktrackingMinesweeperSolver.java:101 | takes one clock reading and reports whether it is past the deadline |
| Backtracking.Search.CountLeaf | src/main/java/fr/m2/minesweeper/solver/BacktrackingMinesweeperSolver.java:105-111 | at a full assignment that meets every clue bound, adds 1 exactly when the assignment is a solution, i.e. the mine total is absent or matched |
| Backtracking.Search.Branch | src/main/java/fr/m2/minesweeper/solver/BacktrackingMinesweeperSolver.java:114-139 | trying 1 then 0 on the chosen cell adds the capped number of completions of the current assignment, and restores it |
| Backtracking.Search.TryValue | src/main/java/fr/m2/minesweeper/solver/BacktrackingMinesweeperSolver.java:119-136 | one value of the loop: adds the capped number of completions with that value on the cell, and restores the assignment |
| Backtracking.Search.Explore | src/main/java/fr/m2/minesweeper/solver/BacktrackingMinesweeperSolver.java:126-129 | after an assignment, either prunes (the pruned assignment has no completion) or recurses; the result is the capped completion count |
| Backtracking.Search.Place | src/main/java/fr/m2/minesweeper/solver/BacktrackingMinesweeperSolver.java:122-124 | sets the cell to the value and keeps the assigned and mine counters equal to the counts in the grid |
| Backtracking.Search.Undo | src/main/java/fr/m2/minesweeper/solver/BacktrackingMinesweeperSolver.java:131-134 | makes the cell unassigned again and keeps the counters equal to the counts in the grid |
| Backtracking.Search.CanAssignGlobal | src/main/java/fr/m2/minesweeper/solver/BacktrackingMinesweeperSolver.java:142-153 | true exactly when, after assigning the value, the mine total (if known) still lies between the mines placed and the mines placed plus the cells left |
| Backtracking.Search.IsConsistentAfterAssign | src/main/java/fr/m2/minesweeper/solver/BacktrackingMinesweeperSolver.java:158-192 | true exactly when every shown clue lies between the mines around it and those mines plus the unassigned cells around it, and the mine total (if known) is still reachable |
| Backtracking.Search.RowConsistent | src/main/java/fr/m2/minesweeper/solver/BacktrackingMinesweeperSolver.java:160-181 | true exactly when every clue of row r meets its bounds |
| Backtracking.Search.ClueConsistent | src/main/java/fr/m2/minesweeper/solver/BacktrackingMinesweeperSolver.java:162-177 | true exactly when the clue at (r, c), if any, meets its bounds |
| Backtracking.Search.SumAround | src/main/java/fr/m2/minesweeper/solver/BacktrackingMinesweeperSolver.java:165-172 | returns the number of mines and of unassigned cells among the neighbours of (r, c) |
| Backtracking.Search.SelectUnassignedCell | src/main/java/fr/m2/minesweeper/solver/BacktrackingMinesweeperSolver.java:194-213 | if a cell is unassigned: returns an unassigned cell of maximal degree, the first such in row-major order; otherwise (0, 0) |
| Backtracking.Search.ScanRow | src/main/java/fr/m2/minesweeper/solver/BacktrackingMinesweeperSolver.java:198-208 | scanning row r keeps the best-so-far invariant up to the start of the next row |
| Backtracking.Search.ScanCell | src/main/java/fr/m2/minesweeper/solver/BacktrackingMinesweeperSolver.java:200-206 | one cell of the scan: a strictly higher degree replaces the best, so ties keep the earlier cell |
| Backtracking.ScannedAll | src/main/java/fr/m2/minesweeper/solver/BacktrackingMinesweeperSolver.java:210-212 | after the whole scan, the row is -1 exactly when no cell is unassigned; otherwise the cell found is the best unassigned one |
| Backtracking.Search.Neighbors | src/main/java/fr/m2/minesweeper/solver/BacktrackingMinesweeperSolver.java:215-228 | returns the neighbour list of (r, c), as characterised by `Grids.NeighborCellsSpec` |
| Backtracking.Search.NeighborsInRow | src/main/java/fr/m2/minesweeper/solver/BacktrackingMinesweeperSolver.java:218-225 | appends the in-grid neighbours of (r, c) in row x, left to right |
| Backtracking.CappedAdd | src/main/java/fr/m2/minesweeper/solver/BacktrackingMinesweeperSolver.java:119-137 | counting two disjoint parts one after the other under the cap counts their sum under the cap |
| Backtracking.CappedSaturated | src/main/java/fr/m2/minesweeper/solver/BacktrackingMinesweeperSolver.java:136 | once the cap is reached, more completions do not change the count (the early return) |
| Backtracking.CappedAtLeast | src/main/java/fr/m2/minesweeper/solver/BacktrackingMinesweeperSolver.java:102 | the count never goes down |
| Backtracking.CappedMonotone | src/main/java/fr/m2/minesweeper/solver/BacktrackingMinesweeperSolver.java:127-128 | more completions never give a smaller capped count (the bound on a timed-out run) |
| SearchSpec.CompletionCountIsCardinality | src/main/java/fr/m2/minesweeper/solver/BacktrackingMinesweeperSolver.java:7-9 | the count the search reaches equals the number of 0/1 grids that extend the assignment and solve the instance |
| SearchSpec.CompletionsOfUnassigned | src/main/java/fr/m2/minesweeper/solver/BacktrackingMinesweeperSolver.java:47-48 | the completions of the all-unassigned grid are exactly the solutions of the instance |
| SearchSpec.CompletionCountOfUnassigned | src/main/java/fr/m2/minesweeper/solver/BacktrackingMinesweeperSolver.java:47-48 | the completion count of the all-unassigned grid is the number of solutions |
| SearchSpec.CountersOfUnassigned | src/main/java/fr/m2/minesweeper/solver/BacktrackingMinesweeperSolver.java:47-51 | the fresh grid has no mines and rows*cols unassigned cells, matching the zero counters |
| SearchSpec.AllGridsMembers | src/main/java/fr/m2/minesweeper/solver/BacktrackingMinesweeperSolver.java:29 | the candidate grids are exactly the rows x cols grids of 0s and 1s |
| SearchSpec.LocalBounds | src/main/java/fr/m2/minesweeper/solver/BacktrackingMinesweeperSolver.java:168-177 | over any cells, an extension has at least the assigned mines and at most those plus the unassigned cells |
| SearchSpec.GlobalBounds | src/main/java/fr/m2/minesweeper/solver/BacktrackingMinesweeperSolver.java:184-189 | over the whole grid, an extension has at least the assigned mines and at most those plus the unassigned cells |
| SearchSpec.CompletionsNeedBounds | src/main/java/fr/m2/minesweeper/solver/BacktrackingMinesweeperSolver.java:158-192 | forward checking is sound: an assignment with a completion passes every clue bound and the mine-total bound |
| SearchSpec.PrunedByTotal | src/main/java/fr/m2/minesweeper/solver/BacktrackingMinesweeperSolver.java:142-153 | a value `canAssignGlobal` rejects leads to no completion |
| SearchSpec.Split | src/main/java/fr/m2/minesweeper/solver/BacktrackingMinesweeperSolver.java:119-137 | the completions split into those with a mine on the chosen cell and those without, with no overlap |
| SearchSpec.SplitCount | src/main/java/fr/m2/minesweeper/solver/BacktrackingMinesweeperSolver.java:119-137 | the completion count is the sum of the counts with 1 and with 0 on the chosen cell |
| SearchSpec.FullCompletions | src/main/java/fr/m2/minesweeper/solver/BacktrackingMinesweeperSolver.java:105-111 | a full assignment's only possible completion is itself, and it counts exactly when it is a solution |
| SearchSpec.FullAssignment | src/main/java/fr/m2/minesweeper/solver/BacktrackingMinesweeperSolver.java:105-110 | a full assignment that meets every clue bound is a solution exactly when the mine total is absent or matched, so the check on line 107 suffices |
| SearchSpec.FullAssignmentCount | src/main/java/fr/m2/minesweeper/solver/BacktrackingMinesweeperSolver.java:105-111 | at such a leaf the completion count is 1 when the total is absent or matched and 0 otherwise |
| SearchSpec.UnassignedBounds | src/main/java/fr/m2/minesweeper/solver/BacktrackingMinesweeperSolver.java:105 | an empty grid is a leaf at once, and its clue bounds hold trivially |
| Deadline.ComputeDeadline | src/main/java/fr/m2/minesweeper/solver/BacktrackingMinesweeperSolver.java:67-84 | the deadline is a `long`, and a null time limit gives 0 |
| Deadline.MillisecondsDeadline | src/main/java/fr/m2/minesweeper/solver/BacktrackingMinesweeperSolver.java:73-76 | text that trims and lower-cases to `<n>ms` gives start + n, wrapped as a `long` |
| Deadline.MillisecondsDeadlineExact | src/main/java/fr/m2/minesweeper/solver/BacktrackingMinesweeperSolver.java:73-76 | without overflow, `<n>ms` gives exactly start + n |
| Deadline.MillisecondsForm | src/main/java/fr/m2/minesweeper/solver/BacktrackingMinesweeperSolver.java:73-76 | `<digits>ms` is parsed as milliseconds, or gives 0 when the number does not parse |
| Deadline.SecondsDeadline | src/main/java/fr/m2/minesweeper/solver/BacktrackingMinesweeperSolver.java:77-80 | text that trims and lower-cases to `<n>s` gives start + n * 1000, each step wrapped as a `long` |
| Deadline.SecondsDeadlineExact | src/main/java/fr/m2/minesweeper/solver/BacktrackingMinesweeperSolver.java:77-80 | without overflow, `<n>s` gives exactly start + 1000 n |
| Deadline.SecondsForm | src/main/java/fr/m2/minesweeper/solver/BacktrackingMinesweeperSolver.java:77-80 | `<digits>s` is parsed as seconds, or gives 0 when the number does not parse |
| Deadline.NoDeadline | src/main/java/fr/m2/minesweeper/solver/BacktrackingMinesweeperSolver.java:68-83 | blank text, or text without a final `s` after trimming and lower-casing, gives 0 |
| Deadline.UnparseableMilliseconds | src/main/java/fr/m2/minesweeper/solver/BacktrackingMinesweeperSolver.java:72-81 | an `ms` suffix whose number does not parse gives 0; the `s` form is not tried |
| Deadline.UnparseableSeconds | src/main/java/fr/m2/minesweeper/solver/BacktrackingMinesweeperSolver.java:77-83 | a text ending in `s` but not `ms` whose number does not parse (for example `xs`) gives 0 |
| Deadline.MillisecondsSuffix | src/main/java/fr/m2/minesweeper/solver/BacktrackingMinesweeperSolver.java:73-77 | every `ms` text also ends in `s`, which is why the `ms` test comes first |
| Deadline.ParseDecimal | src/main/java/fr/m2/minesweeper/solver/BacktrackingMinesweeperSolver.java:74 | `Long.parseLong` reads back the decimal rendering of every natural number |
| Deadline.NormalizeRendered | src/main/java/fr/m2/minesweeper/solver/BacktrackingMinesweeperSolver.java:68-69 | a rendered `<n>ms` or `<n>s` is not blank and is unchanged by trimming and lower-casing |
| Deadline.Wrap64 | src/main/java/fr/m2/minesweeper/solver/BacktrackingMinesweeperSolver.java:75 | the result is a `long`, and it equals the input whenever the input is already a `long` |
| Deadline.Wrap64Congruent | src/main/java/fr/m2/minesweeper/solver/BacktrackingMinesweeperSolver.java:79 | wrapping changes a value by a multiple of 2^64, as two's-complement arithmetic does |
| InstanceGen.CountAdjacentMines | minesweeper-local-search/instance.py:40-53 | the count is the number of mines among the in-grid neighbours of (r, c), and lies between 0 and 8; `count_adjacent_mines_in_solution` (local_search.py lines 32-44) is the same loop and is modelled by this member |
| InstanceGen.CountInRow | minesweeper-local-search/instance.py:46-52 | the inner loop adds the mines among the neighbours of (r, c) in row x |
| InstanceGen.RandomFull | minesweeper-local-search/instance.py:55-76 | the instance keeps the dimensions; its mine total is the number of mines drawn; every mine cell shows nothing and every other cell shows its mine count |
| InstanceGen.PlaceMines | minesweeper-local-search/instance.py:60-66 | the mine grid is the grid of the draws, and the total is its number of mines |
| InstanceGen.PlaceRow | minesweeper-local-search/instance.py:63-66 | row r gets its draws, other rows are unchanged, and the total grows by the row's mines |
| InstanceGen.DeriveClues | minesweeper-local-search/instance.py:68-74 | every cell's clue is nothing on a mine and the mine count elsewhere |
| InstanceGen.ClueRow | minesweeper-local-search/instance.py:70-74 | row r gets its derived clues, other rows are unchanged |
| InstanceGen.DerivedInstanceSolved | minesweeper-local-search/instance.py:68-76 | the mine grid solves the generated instance, which is well formed when it has a cell |
| InstanceGen.WithRandomHiding | minesweeper-local-search/instance.py:78-91 | the copy keeps the dimensions and the total; a clue stays exactly when it was shown and its keep decision holds; every other cell shows nothing |
| InstanceGen.HidingKeepsSolutions | minesweeper-local-search/instance.py:83-91 | every solution of an instance solves any copy with clues hidden |
| LocalSearch.CostZeroIff | minesweeper-local-search/local_search.py:47-59 | the cost is 0 exactly when every shown clue equals the mines around its cell |
| LocalSearch.RowCostZero | minesweeper-local-search/local_search.py:54-58 | a row prefix costs 0 exactly when each of its clue errors is 0 |
| LocalSearch.CostUpToZero | minesweeper-local-search/local_search.py:53-58 | a row prefix of the grid costs 0 exactly when each of its clue errors is 0 |
| LocalSearch.Cost | minesweeper-local-search/local_search.py:47-59 | the loop computes the sum over the shown clues of |mines around - clue| |
| LocalSearch.GeneratedGridCostZero | minesweeper-local-search/instance.py:55-91 | a generated mine grid has cost 0 against its full instance and against every hidden copy of it |
| LocalSearch.Flipped | minesweeper-local-search/local_search.py:62-63 | flipping changes only (r, c), turning 0 into 1 and 1 into 0 |
| LocalSearch.FlipTwice | minesweeper-local-search/local_search.py:62-63 | flipping twice gives the grid back, and flipping keeps a 0/1 grid 0/1 |
| LocalSearch.FlipCell | minesweeper-local-search/local_search.py:62-63 | the array afterwards is the old grid with (r, c) flipped |
| LocalSearch.InitialSolution | minesweeper-local-search/local_search.py:11-29 | the starting grid has the instance's shape and holds only 0s and 1s |
| LocalSearch.RandomSolution | minesweeper-local-search/local_search.py:11-29 | a fresh grid: with no total, each cell's draw decides its mine; with a total n >= 0, mines on exactly the first n cells of the shuffled order, so exactly n mines |
| LocalSearch.FillFromDraws | minesweeper-local-search/local_search.py:17-21 | the grid is the grid of the per-cell draws |
| LocalSearch.PlaceFirstMines | minesweeper-local-search/local_search.py:22-28 | mines on exactly the first n cells of the order, n of them |
| LocalSearch.PlaceMine | minesweeper-local-search/local_search.py:27-28 | the next cell of the order gets a mine; it had none, so the mine count grows by one |
| LocalSearch.ClimbInvariant | minesweeper-local-search/local_search.py:82-96 | climbing keeps the tracked cost equal to the grid's cost and keeps the grid 0/1; without random walk the cost never rises |
| LocalSearch.TryFlip | minesweeper-local-search/local_search.py:86-142 | one iteration of either climbing loop (lines 86-93 and 134-142): flip, recompute the cost, keep the flip when the cost does not rise or the walk accepts it, else undo |
| LocalSearch.ClimbLoop | minesweeper-local-search/local_search.py:82-96 | the loop ends in the state the climbing specification gives, stopping after the first iteration at cost 0 |
| LocalSearch.HillClimbing | minesweeper-local-search/local_search.py:69-98 | returns a fresh 0/1 grid and its cost; the cost is never above the starting grid's cost, and it is 0 exactly when the grid matches every shown clue |
| LocalSearch.TrackIsMinimum | minesweeper-local-search/local_search.py:147-152 | the kept cost is the minimum of 10^18 and every restart's final cost, even with the early stop at 0; a grid is kept exactly when some restart got below 10^18, and its cost is the kept cost |
| LocalSearch.RunRestart | minesweeper-local-search/local_search.py:124-145 | one restart ends with the grid and cost the climbing specification gives for its draws |
| LocalSearch.FinalCost | minesweeper-local-search/local_search.py:124-145 | a restart's final cost is the cost of its final grid |
| LocalSearch.HillClimbingWithRestarts | minesweeper-local-search/local_search.py:104-155 | the result is the best grid over the restarts and its cost, no higher than any restart's final cost; a returned grid is the end grid of one of the restarts, with the cost that restart reported; there is no grid exactly when no restart got below 10^18; a cost of 0 means every clue is matched |
| LocalSearch.ResultIsBest | minesweeper-local-search/local_search.py:147-155 | the tracked result of the restarts has the minimum, existence and cost properties above |
| LocalSearch.TrackKeepsAFinal | minesweeper-local-search/local_search.py:147-152 | the grid kept at the end is the one held at the start, or the end grid of a restart with the cost that restart reported |
| LocalSearch.BestIsAFinal | minesweeper-local-search/local_search.py:147-155 | the grid the restarts return is the end grid of one of them, with its reported cost |
| LocalSearch.FinalsCosts | minesweeper-local-search/local_search.py:124-145 | every restart's end reports the cost of its end grid |

## Left out

- **Other parts of the repository.** These are not part of this model:
  - the Choco constraint-programming solver;
  - the experiment runners and CSV logging;
  - `main.py`, `Main.java` and `make_report.py`;
  - console printing (`GridPrinter`).
- **Simulated annealing.** `simulated_annealing` in `local_search.py` is not
  modelled. Its acceptance test uses floating-point `math.exp`.
- **`MinesweeperInstance.from_json`** reads a file, so it is I/O and is not
  modelled.
- **Seeds and probabilities.** Python's seeded generator is replaced by the
  draws it would produce, given as inputs. The model has no `seed`,
  `local_seed`, `mine_prob`, `keep_probability` or `walk_prob`, and no
  `random.random() < p` comparison. A draw only says which branch was
  taken.
- **Shape of the draw inputs.** Draws are grid-shaped even for cells where
  Python draws nothing, such as cells without a clue when hiding. Those
  entries are ignored.
- **The shuffled order** is any listing of all the cells without repeats.
  That it is uniformly random is not modelled.
- **The wall clock.** `System.currentTimeMillis` is `Clock`, a fixed sequence
  of readings consumed one per call. The model says nothing about real
  elapsed time.
- **`ComputeDeadline`.** Java's `toLowerCase(Locale.ROOT)` is modelled on
  ASCII letters only. `Long.parseLong` is modelled on ASCII digits only.
  Java also lower-cases other letters and accepts other Unicode decimal
  digits.
- **`Backtracking.Search.CountLeaf`:** the Java `int` counters (`solutions`,
  `assignedCount`, `assignedMines`) and `rows * cols` are unbounded
  integers. 32-bit overflow is not modelled. It would need more than 2^31
  cells or solutions.
- **`Backtracking.Search.CanAssignGlobal`:** `rows * cols - (assignedCount + 1)`
  and the sums are computed without 32-bit wrap-around, for the same
  reason.
- **`Backtracking.Solver.Enumerate`:** no requirement that clues lie in 0..8,
  that the total lies in range, or that the grid is non-empty, since the
  Java code does not check these. Only the clue grid's shape and non-negative
  dimensions are required; Java throws on negative ones when it allocates. The `Result` record is a datatype of the count,
  the elapsed `long` and the timeout flag.
- **`InstanceGen.RandomFull`:** the dimensions are naturals. Python would
  build an empty grid for negative arguments.
- **Python error paths.** The following cases raise in Python. The model
  excludes them by precondition.
  - A mine total above `rows * cols` in `random_solution`: the shuffled
    index list runs out.
  - A grid with no rows in `hill_climbing`: `randrange(0)` raises. Picks
    must lie on the grid.
  - A mine grid with no rows in `_count_adjacent_mines` and
    `count_adjacent_mines_in_solution`: `len(mines[0])` raises `IndexError`.
    `InstanceGen.CountAdjacentMines` requires a first row. `LocalSearch.Cost`
    requires one whenever the instance has rows. No caller reaches this
    case: `random_full` counts only inside its row loop, and `cost` counts
    only when the instance has a row.
- **`LocalSearch.HillClimbingWithRestarts`:**
  - The final `assert best_sol is not None` is not modelled as a failure.
    The method returns `None` instead.
  - The deep copy of the best grid is a snapshot of the array's contents as
    a value.
- **`LocalSearch.HillClimbing`:** the cost never rising is stated for plain
  hill climbing only. With random walk, a worse flip may be kept.
