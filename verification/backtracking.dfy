/**
 * The complete backtracking solver: it counts the 0/1 mine placements that
 * match every revealed clue and, when known, the mine total, stopping at a
 * solution cap or a deadline. Cells are chosen by a static degree heuristic,
 * mines are tried before safe cells, and every tentative assignment is
 * forward-checked against the bounds of all clues and of the mine total.
 */
module Backtracking {
  import opened Options
  import opened Grids
  import opened Instances
  import opened SearchSpec
  import opened Deadline

  type Long = x: int | IsLong(x)

  /** What one enumeration reports: the solutions counted, the elapsed time, and whether the deadline hit. */
  datatype Result = Result(solutionsFound: int, timeMs: int, timeout: bool)

  /**
   * The count reached from `s` when `n` more solutions exist and the cap is
   * `max` (no cap when `max <= 0`): counting stops once the cap is reached.
   */
  function Capped(s: int, n: nat, max: int): int {
    if max <= 0 then s + n
    else if s >= max then s
    else if s + n <= max then s + n
    else max
  }

  /** Counting n1 more solutions and then n2 more is counting n1 + n2 more. */
  lemma CappedAdd(s: int, n1: nat, n2: nat, max: int)
    ensures Capped(Capped(s, n1, max), n2, max) == Capped(s, n1 + n2, max)
  {
  }

  /** Once the cap is reached, more solutions do not change the count. */
  lemma CappedSaturated(s: int, n: nat, n': nat, max: int)
    requires max > 0 && n <= n' && Capped(s, n, max) >= max
    ensures Capped(s, n', max) == Capped(s, n, max)
  {
  }

  /** The count never goes down. */
  lemma CappedAtLeast(s: int, n: nat, max: int)
    requires max > 0 ==> s <= max
    ensures s <= Capped(s, n, max)
  {
  }

  /** More solutions never give a smaller count. */
  lemma CappedMonotone(s: int, n: nat, n': nat, max: int)
    requires n <= n'
    ensures Capped(s, n, max) <= Capped(s, n', max)
  {
  }

  // ---------------------------------------------------------------------
  // The degree table
  // ---------------------------------------------------------------------

  /** Revealed clues among (r, 0) .. (r, cEnd - 1) whose neighbour list contains (x, y). */
  function DegreeRow(inst: Instance, x: int, y: int, r: int, cEnd: int): nat
    decreases cEnd
  {
    if cEnd <= 0 then 0
    else
      DegreeRow(inst, x, y, r, cEnd - 1)
        + (if 0 <= r < |inst.clues| && cEnd - 1 < |inst.clues[r]| && inst.clues[r][cEnd - 1].Some?
              && (x, y) in NeighborCells(inst.rows, inst.cols, r, cEnd - 1)
           then 1 else 0)
  }

  /** Revealed clues in rows 0 .. rEnd - 1 whose neighbour list contains (x, y). */
  function DegreeUpTo(inst: Instance, x: int, y: int, rEnd: int): nat
    decreases rEnd
  {
    if rEnd <= 0 then 0 else DegreeUpTo(inst, x, y, rEnd - 1) + DegreeRow(inst, x, y, rEnd - 1, inst.cols)
  }

  /** The number of revealed clues whose neighbour list contains (x, y). */
  function Degree(inst: Instance, x: int, y: int): nat {
    DegreeUpTo(inst, x, y, inst.rows)
  }

  /** Some cell of the rows x cols grid `a` is unassigned (-1). */
  ghost predicate HasUnassigned(a: Grid, rows: int, cols: int)
    requires Shaped(a, rows, cols)
  {
    exists x, y :: 0 <= x < rows && 0 <= y < cols && a[x][y] == -1
  }

  /**
   * `cell` is the cell the solver branches on next: unassigned, of highest
   * degree among the unassigned cells, and the first such in row-major order.
   */
  ghost predicate BestUnassigned(inst: Instance, a: Grid, cell: Cell)
    requires Shaped(a, inst.rows, inst.cols)
  {
    && 0 <= cell.0 < inst.rows && 0 <= cell.1 < inst.cols && a[cell.0][cell.1] == -1
    && (forall x, y :: 0 <= x < inst.rows && 0 <= y < inst.cols && a[x][y] == -1 ==>
          Degree(inst, x, y) <= Degree(inst, cell.0, cell.1))
    && (forall x, y :: 0 <= x < inst.rows && 0 <= y < inst.cols && a[x][y] == -1 && Before((x, y), cell) ==>
          Degree(inst, x, y) < Degree(inst, cell.0, cell.1))
  }

  /**
   * The scan for the next cell has visited every cell before (r, c) in
   * row-major order: (bestR, bestC) is the first unassigned cell of highest
   * degree among them, or bestR is -1 when none of them was unassigned.
   */
  ghost predicate Scanned(inst: Instance, a: Grid, bestR: int, bestC: int, bestDeg: int, r: int, c: int)
    requires Shaped(a, inst.rows, inst.cols)
  {
    && (bestR == -1 <==> forall x, y :: 0 <= x < inst.rows && 0 <= y < inst.cols && Before((x, y), (r, c)) ==> a[x][y] != -1)
    && (bestR == -1 ==> bestDeg == -1)
    && (bestR != -1 ==>
          && 0 <= bestR < inst.rows && 0 <= bestC < inst.cols && a[bestR][bestC] == -1
          && bestDeg == Degree(inst, bestR, bestC) && Before((bestR, bestC), (r, c)))
    && (forall x, y :: 0 <= x < inst.rows && 0 <= y < inst.cols && Before((x, y), (r, c)) && a[x][y] == -1 ==>
          Degree(inst, x, y) <= bestDeg)
    && (forall x, y :: 0 <= x < inst.rows && 0 <= y < inst.cols && Before((x, y), (bestR, bestC)) && a[x][y] == -1 ==>
          Degree(inst, x, y) < bestDeg)
  }

  /** Passing over an assigned cell, or one of no higher degree, keeps the best cell. */
  lemma ScannedSkip(inst: Instance, a: Grid, bestR: int, bestC: int, bestDeg: int, r: int, c: int)
    requires Shaped(a, inst.rows, inst.cols) && 0 <= r < inst.rows && 0 <= c < inst.cols
    requires Scanned(inst, a, bestR, bestC, bestDeg, r, c)
    requires a[r][c] != -1 || Degree(inst, r, c) <= bestDeg
    ensures Scanned(inst, a, bestR, bestC, bestDeg, r, c + 1)
  {
    assert forall x, y :: Before((x, y), (r, c + 1)) <==> Before((x, y), (r, c)) || (x, y) == (r, c);
  }

  /** An unassigned cell of strictly higher degree becomes the best cell. */
  lemma ScannedTake(inst: Instance, a: Grid, bestR: int, bestC: int, bestDeg: int, r: int, c: int)
    requires Shaped(a, inst.rows, inst.cols) && 0 <= r < inst.rows && 0 <= c < inst.cols
    requires Scanned(inst, a, bestR, bestC, bestDeg, r, c)
    requires a[r][c] == -1 && Degree(inst, r, c) > bestDeg
    ensures Scanned(inst, a, r, c, Degree(inst, r, c), r, c + 1)
  {
    var d := Degree(inst, r, c);
    forall x, y | 0 <= x < inst.rows && 0 <= y < inst.cols && Before((x, y), (r, c)) && a[x][y] == -1
      ensures Degree(inst, x, y) < d
    {
      assert Degree(inst, x, y) <= bestDeg;
    }
    forall x, y | 0 <= x < inst.rows && 0 <= y < inst.cols && Before((x, y), (r, c + 1)) && a[x][y] == -1
      ensures Degree(inst, x, y) <= d
    {
      if (x, y) != (r, c) {
        assert Before((x, y), (r, c));
      }
    }
  }

  /** Having scanned a whole row is having scanned up to the start of the next. */
  lemma ScannedNextRow(inst: Instance, a: Grid, bestR: int, bestC: int, bestDeg: int, r: int)
    requires Shaped(a, inst.rows, inst.cols) && 0 <= r < inst.rows
    requires Scanned(inst, a, bestR, bestC, bestDeg, r, inst.cols)
    ensures Scanned(inst, a, bestR, bestC, bestDeg, r + 1, 0)
  {
    assert forall x, y :: 0 <= y < inst.cols ==> (Before((x, y), (r, inst.cols)) <==> Before((x, y), (r + 1, 0)));
  }

  /** A scan of the whole grid has found the best unassigned cell, if there is one. */
  lemma ScannedAll(inst: Instance, a: Grid, bestR: int, bestC: int, bestDeg: int)
    requires Shaped(a, inst.rows, inst.cols)
    requires Scanned(inst, a, bestR, bestC, bestDeg, inst.rows, 0)
    ensures bestR == -1 <==> !HasUnassigned(a, inst.rows, inst.cols)
    ensures bestR != -1 ==> BestUnassigned(inst, a, (bestR, bestC))
  {
    assert forall x, y :: 0 <= x < inst.rows ==> Before((x, y), (inst.rows, 0));
  }

  /** The wall clock behind `System.currentTimeMillis`: its k-th reading returns time(k). */
  class Clock {
    const time: nat -> Long
    /** How many readings were taken so far. */
    var readings: nat

    constructor (time: nat -> Long)
      ensures this.time == time && readings == 0
    {
      this.time := time;
      readings := 0;
    }

    /** The k-th reading. */
    function Reading(k: nat): Long
    {
      time(k)
    }

    /** Takes the next reading. */
    method Now() returns (t: Long)
      modifies this
      ensures readings == old(readings) + 1 && t == Reading(old(readings)) == Reading(readings - 1)
    {
      t := time(readings);
      readings := readings + 1;
    }
  }

  /** The solver, which reads the time from `clock`. */
  class Solver {
    const clock: Clock

    constructor (clock: Clock)
      ensures this.clock == clock
    {
      this.clock := clock;
    }

    /**
     * Counts the solutions of `inst`, at most `maxSolutions` of them when that
     * is positive, until the deadline `timeLimit` gives, if any. Without a
     * timeout the count is exact; a timeout means the deadline was set and a
     * reading of the clock passed it.
     */
    method Enumerate(inst: Instance, maxSolutions: int, timeLimit: Option<string>) returns (res: Result)
      requires HasShape(inst)
      modifies clock
      ensures 0 <= res.solutionsFound <= Capped(0, |Solutions(inst)|, maxSolutions)
      ensures !res.timeout ==> res.solutionsFound == Capped(0, |Solutions(inst)|, maxSolutions)
      ensures clock.readings >= old(clock.readings) + 2
      ensures res.timeMs == Wrap64(clock.Reading(clock.readings - 1) - clock.Reading(old(clock.readings)))
      ensures ComputeDeadline(clock.Reading(old(clock.readings)), timeLimit) == 0 ==>
        clock.readings == old(clock.readings) + 2 && !res.timeout
      ensures res.timeout ==>
        clock.Reading(clock.readings - 2) > ComputeDeadline(clock.Reading(old(clock.readings)), timeLimit) != 0
    {
      CompletionCountOfUnassigned(inst);
      var start := clock.Now();
      var deadline := ComputeDeadline(start, timeLimit);
      res := Finish(inst, maxSolutions, start, deadline);
    }

    /**
     * What `enumerate` does once the start time and the deadline are known:
     * the search, the closing reading of the clock, and the result.
     */
    method Finish(inst: Instance, maxSolutions: int, start: Long, deadline: int) returns (res: Result)
      requires HasShape(inst)
      modifies clock
      ensures 0 <= res.solutionsFound <= Capped(0, CompletionCount(inst, Unassigned(inst.rows, inst.cols)), maxSolutions)
      ensures !res.timeout ==> res.solutionsFound == Capped(0, CompletionCount(inst, Unassigned(inst.rows, inst.cols)), maxSolutions)
      ensures clock.readings >= old(clock.readings) + 1
      ensures res.timeMs == Wrap64(clock.Reading(clock.readings - 1) - start)
      ensures deadline == 0 ==> clock.readings == old(clock.readings) + 1 && !res.timeout
      ensures res.timeout ==> clock.readings >= 2 && clock.Reading(clock.readings - 2) > deadline != 0
    {
      var solutions, timeout := Run(inst, maxSolutions, deadline);
      var end := clock.Now();
      res := Result(solutions, Wrap64(end as int - start as int), timeout);
    }

    /**
     * The search of `enumerate` once the deadline is known: a fresh search
     * state with no cell assigned, explored by Backtrack.
     */
    method Run(inst: Instance, maxSolutions: int, deadline: int) returns (solutions: int, timeout: bool)
      requires HasShape(inst)
      modifies clock
      ensures 0 <= solutions <= Capped(0, CompletionCount(inst, Unassigned(inst.rows, inst.cols)), maxSolutions)
      ensures !timeout ==> solutions == Capped(0, CompletionCount(inst, Unassigned(inst.rows, inst.cols)), maxSolutions)
      ensures old(clock.readings) <= clock.readings
      ensures deadline == 0 ==> clock.readings == old(clock.readings) && !timeout
      ensures timeout ==> deadline != 0 && clock.readings > 0 && clock.Reading(clock.readings - 1) > deadline
    {
      UnassignedBounds(inst);
      var search := new Search(inst, maxSolutions, deadline, clock);
      timeout := search.Backtrack();
      solutions := search.solutions;
    }
  }

  /**
   * The state of one enumeration. What `enumerate` sets once before the
   * search (the instance, the cap, the deadline, the two tables) is
   * constant; the assignment, its two running totals and the solution count
   * change as the search goes.
   */
  class Search {
    const inst: Instance
    const rows: int
    const cols: int
    const clues: Clues
    const totalMines: Option<int>

    /** -1 unassigned, 0 safe, 1 mine. */
    const assign: array2<int>
    var assignedCount: int
    var assignedMines: int

    /** 0 means no deadline. */
    const deadlineMs: int
    /** 0 or less means no limit. */
    const maxSolutions: int
    var solutions: int

    /** For each cell, the number of clue constraints it appears in. */
    const degree: array2<int>

    const clock: Clock

    /** The working assignment, as a grid. */
    ghost var A: Grid

    /**
     * What `enumerate` does before searching: copy the instance, mark every
     * cell unassigned, zero both totals and the count, fill the degree table.
     */
    constructor (inst: Instance, maxSolutions: int, deadlineMs: int, clock: Clock)
      requires HasShape(inst)
      ensures Valid() && DegreesBuilt()
      ensures this.inst == inst && this.maxSolutions == maxSolutions && this.deadlineMs == deadlineMs
      ensures this.clock == clock && A == Unassigned(inst.rows, inst.cols) && solutions == 0
      ensures fresh(assign)
    {
      this.inst := inst;
      rows := inst.GetRows();
      cols := inst.GetCols();
      clues := inst.GetClues();
      totalMines := inst.GetTotalMines();
      assign := new int[inst.rows, inst.cols]((_, _) => -1);
      A := Unassigned(inst.rows, inst.cols);
      assignedCount, assignedMines := 0, 0;
      this.maxSolutions := maxSolutions;
      solutions := 0;
      this.deadlineMs := deadlineMs;
      degree := new int[inst.rows, inst.cols]((_, _) => 0);
      this.clock := clock;
      new;
      CountersOfUnassigned(rows, cols);
      BuildDegrees();
    }

    /**
     * The fields describe the instance, and the assignment grid mirrors A,
     * a grid of -1/0/1.
     */
    ghost predicate Mirror()
      reads this`A, assign
    {
      && inst == Instance(rows, cols, clues, totalMines)
      && HasShape(inst)
      && assign.Length0 == rows && assign.Length1 == cols
      && Shaped(A, rows, cols) && Ternary(A)
      && (forall r, c :: 0 <= r < rows && 0 <= c < cols ==> assign[r, c] == A[r][c])
    }

    /** The invariant of the search state: Mirror, and the totals and the count agree with A and the cap. */
    ghost predicate Valid()
      reads this`A, this`assignedCount, this`assignedMines, this`solutions, assign
    {
      && Mirror()
      && degree.Length0 == rows && degree.Length1 == cols
      && assign != degree
      && assignedCount == rows * cols - GridCount(A, -1)
      && assignedMines == GridCount(A, 1)
      && 0 <= solutions
      && (maxSolutions > 0 ==> solutions <= maxSolutions)
    }

    /** The degree table holds, for every cell, its Degree. */
    ghost predicate DegreesBuilt()
      reads degree
    {
      && HasShape(inst)
      && degree.Length0 == inst.rows && degree.Length1 == inst.cols
      && forall x, y :: 0 <= x < inst.rows && 0 <= y < inst.cols ==> degree[x, y] == Degree(inst, x, y)
    }

    /** Fills the zeroed degree table. */
    method BuildDegrees()
      requires HasShape(inst) && rows == inst.rows && cols == inst.cols && clues == inst.clues
      requires degree.Length0 == rows && degree.Length1 == cols
      requires forall x, y :: 0 <= x < rows && 0 <= y < cols ==> degree[x, y] == 0
      modifies degree
      ensures DegreesBuilt()
    {
      for r := 0 to rows
        invariant forall x, y :: 0 <= x < rows && 0 <= y < cols ==> degree[x, y] == DegreeUpTo(inst, x, y, r)
      {
        for c := 0 to cols
          invariant forall x, y :: 0 <= x < rows && 0 <= y < cols ==>
            degree[x, y] == DegreeUpTo(inst, x, y, r) + DegreeRow(inst, x, y, r, c)
        {
          var clue := clues[r][c];
          if clue.None? { continue; }
          BumpNeighbors(r, c);
        }
      }
    }

    /** Adds one to the degree of every in-grid neighbour of (r, c). */
    method BumpNeighbors(r: int, c: int)
      requires degree.Length0 == rows && degree.Length1 == cols
      modifies degree
      ensures forall x, y :: 0 <= x < rows && 0 <= y < cols ==>
        degree[x, y] == old(degree[x, y]) + (if (x, y) in NeighborCells(rows, cols, r, c) then 1 else 0)
    {
      var nbs := Neighbors(r, c);
      NeighborCellsSpec(rows, cols, r, c);
      for k := 0 to |nbs|
        invariant forall x, y :: 0 <= x < rows && 0 <= y < cols ==>
          degree[x, y] == old(degree[x, y]) + (if (x, y) in nbs[..k] then 1 else 0)
      {
        var (x, y) := nbs[k];
        assert InGrid(rows, cols, x, y) by { assert nbs[k] in nbs; }
        assert nbs[k] !in nbs[..k] by {
          forall i | 0 <= i < k ensures nbs[..k][i] != nbs[k] { }
        }
        PrefixSnoc(nbs, k);
        label Before:
        degree[x, y] := degree[x, y] + 1;
        forall i, j | 0 <= i < rows && 0 <= j < cols
          ensures degree[i, j] == old(degree[i, j]) + (if (i, j) in nbs[..k + 1] then 1 else 0)
        {
          if (i, j) != (x, y) {
            assert degree[i, j] == old@Before(degree[i, j]);
            assert (i, j) in nbs[..k + 1] <==> (i, j) in nbs[..k];
          }
        }
      }
      assert nbs[..|nbs|] == nbs;
    }

    /**
     * Explores the completions of the current assignment: it counts them on
     * top of `solutions`, up to the cap, and leaves the assignment as it
     * found it. A timeout, which only a set deadline can cause, cuts the
     * count short and leaves the assignment as it was when the clock passed
     * the deadline.
     */
    method Backtrack() returns (timeout: bool)
      requires Valid() && DegreesBuilt()
      requires assignedCount < rows * cols || ClueBoundsHold(inst, A)
      modifies this`A, this`assignedCount, this`assignedMines, this`solutions, assign, clock
      decreases GridCount(A, -1), 2
      ensures Valid()
      ensures old(solutions) <= solutions <= Capped(old(solutions), CompletionCount(inst, old(A)), maxSolutions)
      ensures !timeout ==> A == old(A) && solutions == Capped(old(solutions), CompletionCount(inst, old(A)), maxSolutions)
      ensures old(clock.readings) <= clock.readings && (deadlineMs == 0 ==> clock.readings == old(clock.readings))
      ensures timeout ==> TimedOut()
    {
      if deadlineMs != 0 {
        timeout := PastDeadline();
        if timeout { return; }
      }
      if maxSolutions > 0 && solutions >= maxSolutions {
        CappedAtLeast(solutions, CompletionCount(inst, A), maxSolutions);
        return false;
      }
      if assignedCount == rows * cols {
        CountLeaf();
        return false;
      }

      if !HasUnassigned(A, rows, cols) { GridCountAbsent(A, -1); }
      var cell := SelectUnassignedCell();
      timeout := Branch(cell.0, cell.1);
    }

    /** A deadline is set, and the latest reading of the clock is past it. */
    ghost predicate TimedOut()
      reads clock
    {
      deadlineMs != 0 && clock.readings > 0 && clock.Reading(clock.readings - 1) > deadlineMs
    }

    /** The deadline check of Backtrack: one reading of the clock, compared with the deadline. */
    method PastDeadline() returns (passed: bool)
      requires deadlineMs != 0
      modifies clock
      ensures clock.readings == old(clock.readings) + 1
      ensures passed <==> clock.Reading(old(clock.readings)) > deadlineMs
      ensures passed <==> TimedOut()
    {
      var now := clock.Now();
      passed := now > deadlineMs;
    }

    /**
     * The leaf of Backtrack: every cell is assigned, so the assignment is its
     * own only completion, and it counts when the mine total allows it.
     */
    method CountLeaf()
      requires Valid() && assignedCount == rows * cols && ClueBoundsHold(inst, A)
      requires maxSolutions > 0 ==> solutions < maxSolutions
      modifies this`solutions
      ensures Valid()
      ensures solutions == Capped(old(solutions), CompletionCount(inst, A), maxSolutions)
    {
      FullAssignmentCount(inst, A);
      if totalMines.None? || assignedMines == totalMines.value {
        solutions := solutions + 1;
      }
    }

    /**
     * The value loop of Backtrack on the chosen cell (r, c): mine first, then
     * safe, each tried only when the mine total allows it; it stops early on
     * a timeout or once the cap is reached.
     */
    method Branch(r: int, c: int) returns (timeout: bool)
      requires Valid() && DegreesBuilt()
      requires 0 <= r < rows && 0 <= c < cols && A[r][c] == -1 && assignedCount < rows * cols
      requires maxSolutions > 0 ==> solutions < maxSolutions
      modifies this`A, this`assignedCount, this`assignedMines, this`solutions, assign, clock
      decreases GridCount(A, -1), 1
      ensures Valid()
      ensures old(solutions) <= solutions <= Capped(old(solutions), CompletionCount(inst, old(A)), maxSolutions)
      ensures !timeout ==> A == old(A) && solutions == Capped(old(solutions), CompletionCount(inst, old(A)), maxSolutions)
      ensures old(clock.readings) <= clock.readings && (deadlineMs == 0 ==> clock.readings == old(clock.readings))
      ensures timeout ==> TimedOut()
    {
      ghost var a0, s0 := A, solutions;
      ghost var n1 := CompletionCount(inst, SetCell(a0, r, c, 1));
      ghost var n0 := CompletionCount(inst, SetCell(a0, r, c, 0));
      SplitCount(inst, a0, r, c);

      // value ordering: mine (1) first, then safe (0)
      for val := 2 downto 0
        invariant Valid()
        invariant A == a0
        invariant solutions == Capped(s0, (if val <= 1 then n1 else 0) + (if val == 0 then n0 else 0), maxSolutions)
        invariant maxSolutions > 0 ==> solutions < maxSolutions
        invariant old(clock.readings) <= clock.readings && (deadlineMs == 0 ==> clock.readings == old(clock.readings))
      {
        ghost var nVal := if val == 1 then n1 else n0;
        ghost var done := if val == 1 then 0 else n1;
        timeout := TryValue(r, c, val);
        CappedAdd(s0, done, nVal, maxSolutions);
        if timeout {
          CappedMonotone(s0, done + nVal, n1 + n0, maxSolutions);
          return true;
        }

        if maxSolutions > 0 && solutions >= maxSolutions {
          CappedSaturated(s0, done + nVal, n1 + n0, maxSolutions);
          return false;
        }
      }
      return false;
    }

    /**
     * One iteration of the value loop of Backtrack: skips `val` when the mine
     * total rules it out; otherwise puts it in the chosen cell, explores below
     * it when the forward check passes, and undoes the assignment unless the
     * search timed out.
     */
    method TryValue(r: int, c: int, val: int) returns (timeout: bool)
      requires Valid() && DegreesBuilt()
      requires 0 <= r < rows && 0 <= c < cols && A[r][c] == -1 && assignedCount < rows * cols
      requires val == 0 || val == 1
      modifies this`A, this`assignedCount, this`assignedMines, this`solutions, assign, clock
      decreases GridCount(A, -1), 0
      ensures Valid()
      ensures old(solutions) <= solutions <= Capped(old(solutions), CompletionCount(inst, SetCell(old(A), r, c, val)), maxSolutions)
      ensures !timeout ==> A == old(A) && solutions == Capped(old(solutions), CompletionCount(inst, SetCell(old(A), r, c, val)), maxSolutions)
      ensures old(clock.readings) <= clock.readings && (deadlineMs == 0 ==> clock.readings == old(clock.readings))
      ensures timeout ==> TimedOut()
    {
      var allowed := CanAssignGlobal(val);
      if !allowed {
        PrunedByTotal(inst, A, r, c, val);
        return false;
      }
      ghost var a0 := A;
      GridCountSet(a0, r, c, val, -1);
      Place(r, c, val);
      timeout := Explore(r, c);

      // undo, unless the deadline cut the search short
      if !timeout {
        Undo(r, c, val);
        SetCellRestore(a0, r, c, val);
      }
    }

    /**
     * What follows an assignment in the value loop: the forward check, and
     * the search below the assignment when it passes. A failed check means
     * the assignment has no completion.
     */
    method Explore(r: int, c: int) returns (timeout: bool)
      requires Valid() && DegreesBuilt()
      modifies this`A, this`assignedCount, this`assignedMines, this`solutions, assign, clock
      decreases GridCount(A, -1), 3
      ensures Valid()
      ensures old(solutions) <= solutions <= Capped(old(solutions), CompletionCount(inst, old(A)), maxSolutions)
      ensures !timeout ==> A == old(A) && solutions == Capped(old(solutions), CompletionCount(inst, old(A)), maxSolutions)
      ensures old(clock.readings) <= clock.readings && (deadlineMs == 0 ==> clock.readings == old(clock.readings))
      ensures timeout ==> TimedOut()
    {
      var consistent := IsConsistentAfterAssign(r, c);
      if consistent {
        timeout := Backtrack();
      } else {
        CompletionsNeedBounds(inst, A);
        timeout := false;
      }
    }

    /** Assigns `val` to the unassigned cell (r, c) and updates both running totals. */
    method Place(r: int, c: int, val: int)
      requires Valid() && 0 <= r < rows && 0 <= c < cols && A[r][c] == -1 && (val == 0 || val == 1)
      modifies this`A, this`assignedCount, this`assignedMines, assign
      ensures Valid() && A == SetCell(old(A), r, c, val)
    {
      GridCountSet(A, r, c, val, -1);
      GridCountSet(A, r, c, val, 1);
      assign[r, c] := val;
      A := SetCell(A, r, c, val);
      assignedCount := assignedCount + 1;
      assignedMines := assignedMines + val;
    }

    /** Takes `val` back out of (r, c), the inverse of Place. */
    method Undo(r: int, c: int, val: int)
      requires Valid() && 0 <= r < rows && 0 <= c < cols && A[r][c] == val && (val == 0 || val == 1)
      modifies this`A, this`assignedCount, this`assignedMines, assign
      ensures Valid() && A == SetCell(old(A), r, c, -1)
    {
      GridCountSet(A, r, c, -1, -1);
      GridCountSet(A, r, c, -1, 1);
      assignedMines := assignedMines - val;
      assignedCount := assignedCount - 1;
      assign[r, c] := -1;
      A := SetCell(A, r, c, -1);
    }

    /**
     * Whether `val` can go into the next cell without making the known mine
     * total unreachable: the mines placed would not exceed it, and the cells
     * left after this one could still make it up.
     */
    function CanAssignGlobal(val: int): (ok: bool)
      reads this`A, this`assignedCount, this`assignedMines, this`solutions, assign
      requires Valid() && assignedCount < rows * cols
      ensures ok <==> MineBoundsHold(totalMines, GridCount(A, 1) + val, GridCount(A, -1) - 1)
    {
      if totalMines.None? then true
      else if assignedMines + val > totalMines.value then false
      else
        var remaining := rows * cols - (assignedCount + 1);
        var minPossible := assignedMines + val;
        var maxPossible := assignedMines + val + remaining;
        minPossible <= totalMines.value && totalMines.value <= maxPossible
    }

    /**
     * Forward check after an assignment: every revealed clue's bounds and the
     * mine total's bounds still hold. The cell just assigned is not used.
     */
    method IsConsistentAfterAssign(rr: int, cc: int) returns (ok: bool)
      requires Mirror()
      ensures ok == (ClueBoundsHold(inst, A) && MineBoundsHold(totalMines, assignedMines, rows * cols - assignedCount))
    {
      assert inst.rows == rows && inst.cols == cols && |inst.clues| == rows;
      assert forall x :: 0 <= x < rows ==> |inst.clues[x]| == cols;
      for r := 0 to rows
        invariant forall x, y :: 0 <= x < r && 0 <= y < cols ==> ClueBoundAt(inst, A, x, y)
      {
        var holds := RowConsistent(r);
        if !holds {
          assert !ClueBoundsHold(inst, A);
          return false;
        }
      }
      assert ClueBoundsHold(inst, A);

      if totalMines.Some? {
        var remaining := rows * cols - assignedCount;
        var minPossible := assignedMines;
        var maxPossible := assignedMines + remaining;
        if !(minPossible <= totalMines.value && totalMines.value <= maxPossible) { return false; }
      }
      return true;
    }

    /** The inner loop of the forward check: the clues of row r. */
    method RowConsistent(r: int) returns (ok: bool)
      requires Mirror() && 0 <= r < rows
      ensures ok == forall y :: 0 <= y < cols ==> ClueBoundAt(inst, A, r, y)
    {
      for c := 0 to cols
        invariant forall y :: 0 <= y < c ==> ClueBoundAt(inst, A, r, y)
      {
        var holds := ClueConsistent(r, c);
        if !holds { return false; }
      }
      return true;
    }

    /**
     * The body of the forward check at one cell: true when it holds no
     * clue, otherwise whether the clue lies between the mines already
     * placed around it and those plus its unassigned neighbours.
     */
    method ClueConsistent(r: int, c: int) returns (ok: bool)
      requires Mirror() && 0 <= r < rows && 0 <= c < cols
      ensures ok == ClueBoundAt(inst, A, r, c)
    {
      var clue := clues[r][c];
      if clue.None? { return true; }

      var assignedSum, unassigned := SumAround(r, c);

      // lower bound
      if assignedSum > clue.value { return false; }
      // upper bound
      if assignedSum + unassigned < clue.value { return false; }
      return true;
    }

    /**
     * The inner loop of the forward check: over the neighbours of (r, c),
     * the sum of the assigned values and the number of unassigned cells.
     */
    method SumAround(r: int, c: int) returns (assignedSum: int, unassigned: int)
      requires Mirror() && 0 <= r < rows && 0 <= c < cols
      ensures assignedSum == CountAmong(A, NeighborCells(rows, cols, r, c), 1)
      ensures unassigned == CountAmong(A, NeighborCells(rows, cols, r, c), -1)
    {
      assignedSum, unassigned := 0, 0;
      var nbs := Neighbors(r, c);
      NeighborCellsSpec(rows, cols, r, c);
      for k := 0 to |nbs|
        invariant assignedSum == CountAmong(A, nbs[..k], 1)
        invariant unassigned == CountAmong(A, nbs[..k], -1)
      {
        var (x, y) := nbs[k];
        assert Adjacent(r, c, x, y) && InGrid(rows, cols, x, y) by { assert nbs[k] in nbs; }
        CountAmongPrefix(A, nbs, k, 1);
        CountAmongPrefix(A, nbs, k, -1);
        var v := assign[x, y];
        if v == -1 {
          unassigned := unassigned + 1;
        } else {
          assignedSum := assignedSum + v;
        }
      }
      assert nbs[..|nbs|] == nbs;
    }

    /**
     * The first unassigned cell in row-major order among those of highest
     * degree; (0, 0) when every cell is assigned.
     */
    method SelectUnassignedCell() returns (cell: Cell)
      requires Mirror() && DegreesBuilt()
      ensures HasUnassigned(A, rows, cols) ==> BestUnassigned(inst, A, cell)
      ensures !HasUnassigned(A, rows, cols) ==> cell == (0, 0)
    {
      var bestR, bestC := -1, -1;
      var bestDeg := -1;
      ghost var a := A;
      assert Shaped(a, inst.rows, inst.cols) && inst.rows == rows;

      for r := 0 to rows
        invariant Scanned(inst, a, bestR, bestC, bestDeg, r, 0)
      {
        bestR, bestC, bestDeg := ScanRow(r, bestR, bestC, bestDeg);
      }

      ScannedAll(inst, a, bestR, bestC, bestDeg);
      // fallback (every cell assigned)
      if bestR == -1 { return (0, 0); }
      return (bestR, bestC);
    }

    /** The inner loop of SelectUnassignedCell: the scan of row r. */
    method ScanRow(r: int, bestR0: int, bestC0: int, bestDeg0: int) returns (bestR: int, bestC: int, bestDeg: int)
      requires Mirror() && DegreesBuilt() && 0 <= r < rows
      requires Scanned(inst, A, bestR0, bestC0, bestDeg0, r, 0)
      ensures Scanned(inst, A, bestR, bestC, bestDeg, r + 1, 0)
    {
      bestR, bestC, bestDeg := bestR0, bestC0, bestDeg0;
      for c := 0 to cols
        invariant Scanned(inst, A, bestR, bestC, bestDeg, r, c)
      {
        bestR, bestC, bestDeg := ScanCell(r, c, bestR, bestC, bestDeg);
      }
      ScannedNextRow(inst, A, bestR, bestC, bestDeg, r);
    }

    /**
     * One step of the scan: an assigned cell is skipped, and an unassigned
     * one replaces the best cell so far only when its degree is strictly
     * higher.
     */
    method ScanCell(r: int, c: int, bestR0: int, bestC0: int, bestDeg0: int) returns (bestR: int, bestC: int, bestDeg: int)
      requires Mirror() && DegreesBuilt() && 0 <= r < rows && 0 <= c < cols
      requires Scanned(inst, A, bestR0, bestC0, bestDeg0, r, c)
      ensures Scanned(inst, A, bestR, bestC, bestDeg, r, c + 1)
    {
      bestR, bestC, bestDeg := bestR0, bestC0, bestDeg0;
      assert assign[r, c] == A[r][c] && degree[r, c] == Degree(inst, r, c);
      if assign[r, c] != -1 {
        ScannedSkip(inst, A, bestR, bestC, bestDeg, r, c);
        return;
      }
      var deg := degree[r, c];
      if deg > bestDeg {
        ScannedTake(inst, A, bestR, bestC, bestDeg, r, c);
        bestDeg := deg;
        bestR := r;
        bestC := c;
      } else {
        ScannedSkip(inst, A, bestR, bestC, bestDeg, r, c);
      }
    }

    /** The in-grid neighbours of (r, c), in scan order. */
    method Neighbors(r: int, c: int) returns (out: seq<Cell>)
      ensures out == NeighborCells(rows, cols, r, c)
    {
      out := [];
      for dr := -1 to 2
        invariant out == NeighborRows(rows, cols, r, c, r + dr)
      {
        out := NeighborsInRow(out, r, c, r + dr);
      }
    }

    /** The inner loop of Neighbors: appends the in-grid neighbours of (r, c) in row x. */
    method NeighborsInRow(out0: seq<Cell>, r: int, c: int, x: int) returns (out: seq<Cell>)
      ensures out == out0 + NeighborRow(rows, cols, r, c, x, c + 2)
    {
      out := out0;
      for dc := -1 to 2
        invariant out == out0 + NeighborRow(rows, cols, r, c, x, c + dc)
      {
        if x == r && dc == 0 { continue; }
        var cc := c + dc;
        if 0 <= x < rows && 0 <= cc < cols {
          out := out + [(x, cc)];
        }
      }
    }
  }
}
