/** The solver service: the object that holds the trace of the last solve and
    the three example puzzles. */
module Service {
  import opened Grids
  import opened Rules
  import opened Backtracking

  /** The fixed example puzzles. */
  const Examples: seq<Grid> := [
    [
      [0, 0, 3, 0, 0, 0, 0, 0, 0],
      [5, 8, 0, 2, 0, 0, 3, 0, 9],
      [2, 0, 0, 4, 0, 5, 8, 7, 1],
      [3, 7, 0, 0, 1, 0, 5, 9, 0],
      [8, 0, 0, 7, 4, 0, 1, 3, 0],
      [0, 2, 9, 0, 0, 8, 0, 0, 0],
      [6, 0, 0, 1, 0, 3, 4, 0, 7],
      [4, 0, 2, 0, 6, 0, 0, 0, 0],
      [0, 0, 0, 5, 2, 4, 6, 8, 0]
    ],
    [
      [4, 0, 0, 0, 5, 0, 0, 3, 2],
      [0, 1, 0, 0, 9, 0, 7, 0, 5],
      [7, 5, 3, 0, 0, 4, 1, 9, 6],
      [0, 0, 1, 0, 7, 0, 0, 0, 0],
      [6, 0, 9, 0, 0, 1, 2, 5, 0],
      [0, 0, 0, 5, 0, 0, 6, 1, 3],
      [3, 0, 4, 0, 0, 8, 0, 0, 1],
      [0, 0, 0, 4, 0, 0, 0, 7, 8],
      [0, 0, 0, 7, 6, 3, 0, 2, 9]
    ],
    [
      [0, 0, 4, 2, 7, 6, 0, 3, 0],
      [0, 5, 7, 1, 0, 0, 0, 4, 9],
      [0, 0, 0, 9, 0, 0, 0, 0, 0],
      [3, 0, 0, 0, 0, 0, 9, 6, 0],
      [0, 0, 0, 0, 0, 7, 1, 8, 5],
      [0, 0, 0, 0, 2, 0, 3, 0, 4],
      [0, 0, 0, 7, 0, 1, 0, 9, 0],
      [0, 0, 0, 6, 0, 0, 2, 1, 0],
      [1, 0, 6, 0, 8, 0, 0, 0, 0]
    ]
  ]

  class SudokuService {
    /** The snapshots recorded by the current or last solve, oldest first. */
    var solvingProcess: seq<Grid>

    constructor ()
      ensures solvingProcess == []
    {
      solvingProcess := [];
    }

    /** `getRandomExample`: the caller's uniform draw `random` from [0, 1)
        picks the example at index floor(random * 3). */
    method GetRandomExample(random: real) returns (g: Grid)
      requires 0.0 <= random < 1.0
      ensures g in Examples && IsGrid(g)
      ensures var k := (random * (|Examples| as real)).Floor; 0 <= k < |Examples| && g == Examples[k]
    {
      var k := (random * (|Examples| as real)).Floor;
      g := Examples[k];
    }

    /** `findEmpty` on the array holding `g`: the first empty cell in
        row-major order, or None when the grid has none (see `FirstEmpty`).
        Reads the grid and changes nothing. */
    method FindEmpty(grid: array2<int>, ghost g: Grid) returns (r: Option<Cell>)
      requires Holds(grid, g)
      ensures r == FirstEmpty(g)
    {
      var i := 0;
      while i < grid.Length0
        invariant 0 <= i <= grid.Length0
        invariant FirstEmptyFrom(g, i, 0) == FirstEmpty(g)
      {
        var j := 0;
        while j < grid.Length1
          invariant 0 <= j <= grid.Length1
          invariant FirstEmptyFrom(g, i, j) == FirstEmpty(g)
        {
          if grid[i, j] == Empty {
            return Some(Cell(i, j));
          }
          j := j + 1;
        }
        i := i + 1;
      }
      return None;
    }

    /** `isSafe`: false exactly when `num` already stands in the column at
        another row, in the row at another column, or in the box at a cell
        sharing neither the row nor the column. */
    method IsSafe(grid: array2<int>, ghost g: Grid, row: int, col: int, num: int) returns (safe: bool)
      requires Holds(grid, g) && IsGrid(g)
      requires 0 <= row < 9 && 0 <= col < 9
      ensures safe == Safe(g, row, col, num)
    {
      assert grid.Length1 == |g[0]| == 9;
      for i := 0 to grid.Length0
        invariant forall k :: 0 <= k < i ==> !(grid[k, col] == num && k != row) && !(grid[row, k] == num && k != col)
      {
        if grid[i, col] == num && i != row {
          assert g[i][col] == num;
          return false;
        }
        if grid[row, i] == num && i != col {
          assert g[row][i] == num;
          return false;
        }
      }
      assert !InColumn(g, row, col, num) && !InRow(g, row, col, num);
      var x := (row / 3) * 3;
      var y := (col / 3) * 3;
      BoxStartRange(row);
      BoxStartRange(col);
      for i := x to x + 3
        invariant forall p, q :: x <= p < i && y <= q < y + 3 ==> !(grid[p, q] == num && p != row && q != col)
      {
        for j := y to y + 3
          invariant forall q :: y <= q < j ==> !(grid[i, q] == num && i != row && q != col)
        {
          if grid[i, j] == num && i != row && j != col {
            assert g[i][j] == num;
            return false;
          }
        }
      }
      return true;
    }

    /** `grid.map((arr) => arr.slice())`: a deep copy of the array holding
        `g`, which later writes to the array do not reach. */
    method Copy(grid: array2<int>, ghost g: Grid) returns (s: Grid)
      requires Holds(grid, g)
      ensures s == g
    {
      RowsAre(grid, g);
      s := Rows(grid);
    }

    /** `solveRecursive`: record a snapshot of the grid, then fill the first
        empty cell with the first digit 1..9 that `isSafe` accepts and whose
        nested search succeeds, undoing each failed attempt. The whole effect
        on the grid, the verdict and the snapshots appended are those of the
        search specified by `Search` from the grid on entry. */
    method SolveRecursive(grid: array2<int>, ghost g: Grid) returns (solved: bool)
      requires Holds(grid, g) && IsGrid(g)
      modifies this, grid
      ensures var r := Search(g);
        solved == r.solved && Holds(grid, r.final) && solvingProcess == old(solvingProcess) + r.trace
      decreases ZeroCount(g), 2
    {
      var snapshot := Copy(grid, g);
      solvingProcess := solvingProcess + [snapshot];
      var find := FindEmpty(grid, g);
      if find.None? {
        assert Search(g) == SearchResult(true, [g], g);
        return true;
      }
      solved := TryDigits(grid, g, find.value);
      AppendAssoc(old(solvingProcess), [g], Candidates(g, Attempts(g, find.value), 1).trace);
    }

    /** The `while` loop of `solveRecursive` at the empty cell `position`:
        try the digits 1..9 in order, shifting each off the front of `nums`,
        until a nested call succeeds. */
    method TryDigits(grid: array2<int>, ghost g: Grid, position: Cell) returns (solved: bool)
      requires Holds(grid, g) && IsGrid(g) && InGrid(position) && g[position.i][position.j] == Empty
      modifies this, grid
      ensures var r := Candidates(g, Attempts(g, position), 1);
        solved == r.solved && Holds(grid, r.final) && solvingProcess == old(solvingProcess) + r.trace
      decreases ZeroCount(g), 1
    {
      ghost var rs := Attempts(g, position);
      ghost var all := Candidates(g, rs, 1);
      var nums := seq(9, k => k + 1);
      ghost var n := 1;
      while |nums| != 0
        invariant 1 <= n <= 10 && |nums| == 10 - n && forall k :: 0 <= k < |nums| ==> nums[k] == n + k
        invariant Holds(grid, g)
        invariant all.solved == Candidates(g, rs, n).solved
        invariant all.final == Candidates(g, rs, n).final
        invariant old(solvingProcess) + all.trace == solvingProcess + Candidates(g, rs, n).trace
      {
        var num := nums[0];
        AttemptsAt(g, position, num);
        CandidatesStep(g, rs, num);
        ghost var before := solvingProcess;
        var ok := TryDigit(grid, g, position, num);
        if ok {
          return true;
        }
        if Safe(g, position.i, position.j, num) {
          AppendAssoc(before, Search(Place(g, position, num)).trace, Candidates(g, rs, num + 1).trace);
        }
        nums := nums[1..];
        n := n + 1;
      }
      return false;
    }

    /** One pass of the loop body of `solveRecursive` with digit `num`: if
        `isSafe` accepts it, write it, recurse, and on failure clear the cell
        again; otherwise change nothing. */
    method TryDigit(grid: array2<int>, ghost g: Grid, c: Cell, num: int) returns (ok: bool)
      requires Holds(grid, g) && IsGrid(g) && InGrid(c) && g[c.i][c.j] == Empty && 1 <= num <= 9
      modifies this, grid
      ensures if Safe(g, c.i, c.j, num) then
          var r := Search(Place(g, c, num));
          ok == r.solved && solvingProcess == old(solvingProcess) + r.trace &&
          Holds(grid, if ok then r.final else g)
        else
          !ok && solvingProcess == old(solvingProcess) && Holds(grid, g)
      decreases ZeroCount(g), 0
    {
      var safe := IsSafe(grid, g, c.i, c.j, num);
      if !safe {
        return false;
      }
      ghost var next := Place(g, c, num);
      grid[c.i, c.j] := num;
      assert Holds(grid, next);
      PlaceZeroCount(g, c, num);
      ok := SolveRecursive(grid, next);
      if !ok {
        assert Holds(grid, next);
        grid[c.i, c.j] := Empty;
        forall i, j | 0 <= i < 9 && 0 <= j < 9 ensures grid[i, j] == g[i][j] {
          if i != c.i || j != c.j {
            assert next[i][j] == g[i][j];
          }
        }
      }
    }

    /** `solve`: clear the trace, run the search on the caller's grid itself
        (the array holding the puzzle `g`) and return the trace. */
    method Solve(grid: array2<int>, ghost g: Grid) returns (trace: seq<Grid>)
      requires Holds(grid, g) && IsGrid(g)
      modifies this, grid
      ensures var r := Search(g);
        trace == r.trace && solvingProcess == trace && Holds(grid, r.final)
      ensures |trace| >= 1 && trace[0] == g
      ensures NoZeros(trace[|trace| - 1]) <==> Search(g).solved
      ensures NoZeros(g) ==> trace == [g] && Search(g).final == g
    {
      SearchTraceStart(g);
      SolvedIffLastFull(g);
      if NoZeros(g) {
        SearchFull(g);
      }
      solvingProcess := [];
      var _ := SolveRecursive(grid, g);
      trace := solvingProcess;
    }
  }
}
