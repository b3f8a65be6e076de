/** The two read-only questions the solver asks of a grid: where the first
    empty cell is in row-major order, and whether a digit may be placed at a
    cell. Both are stated here as pure definitions over grid values. */
module Rules {
  import opened Grids

  /** Cell (p, q) comes strictly before cell (i, j) in row-major order. */
  predicate Before(p: int, q: int, i: int, j: int) {
    p < i || (p == i && q < j)
  }

  /** Every cell of `g` from (i, j) up to, but excluding, (ei, ej) in
      row-major order is filled. Rows may have any length. */
  predicate FilledBetween(g: Grid, i: int, j: int, ei: int, ej: int) {
    forall p, q :: 0 <= p < |g| && 0 <= q < |g[p]| && !Before(p, q, i, j) && Before(p, q, ei, ej) ==> g[p][q] != Empty
  }

  /** The first empty cell at or after (i, j), scanning each row left to right
      and the rows top to bottom. */
  function FirstEmptyFrom(g: Grid, i: nat, j: nat): (r: Option<Cell>)
    ensures r.Some? ==> var c := r.value;
      0 <= c.i < |g| && 0 <= c.j < |g[c.i]| && g[c.i][c.j] == Empty &&
      !Before(c.i, c.j, i, j) && FilledBetween(g, i, j, c.i, c.j)
    ensures r.None? ==> FilledBetween(g, i, j, |g|, 0)
    decreases |g| - i, if i < |g| then |g[i]| - j else 0
  {
    if i >= |g| then None
    else if j >= |g[i]| then FirstEmptyFrom(g, i + 1, 0)
    else if g[i][j] == Empty then Some(Cell(i, j))
    else FirstEmptyFrom(g, i, j + 1)
  }

  /** What `findEmpty` computes: the first empty cell in row-major order, every
      earlier cell being filled, or None exactly when no cell is empty. */
  function FirstEmpty(g: Grid): (r: Option<Cell>)
    ensures r.Some? ==> var c := r.value;
      0 <= c.i < |g| && 0 <= c.j < |g[c.i]| && g[c.i][c.j] == Empty &&
      forall p, q :: 0 <= p < |g| && 0 <= q < |g[p]| && Before(p, q, c.i, c.j) ==> g[p][q] != Empty
    ensures r.None? <==> NoZeros(g)
  {
    FirstEmptyFrom(g, 0, 0)
  }

  /** The top-left row (or column) of the 3x3 box holding row (or column) k. */
  function BoxStart(k: int): int {
    (k / 3) * 3
  }

  /** `num` stands in column `col` at a row other than `row`. */
  predicate InColumn(g: Grid, row: int, col: int, num: int)
    requires IsGrid(g) && 0 <= col < 9
  {
    exists i :: 0 <= i < 9 && i != row && g[i][col] == num
  }

  /** `num` stands in row `row` at a column other than `col`. */
  predicate InRow(g: Grid, row: int, col: int, num: int)
    requires IsGrid(g) && 0 <= row < 9
  {
    exists j :: 0 <= j < 9 && j != col && g[row][j] == num
  }

  /** `num` stands in the box of (row, col) at a cell that shares neither
      `row` nor `col`: the only cells the box loop of `isSafe` compares. */
  predicate InBox(g: Grid, row: int, col: int, num: int)
    requires IsGrid(g) && 0 <= row < 9 && 0 <= col < 9
  {
    exists i, j :: BoxStart(row) <= i < BoxStart(row) + 3 && BoxStart(col) <= j < BoxStart(col) + 3 &&
      i != row && j != col && g[i][j] == num
  }

  /** The verdict of `isSafe`: false exactly in the three cases above. */
  predicate Safe(g: Grid, row: int, col: int, num: int)
    requires IsGrid(g) && 0 <= row < 9 && 0 <= col < 9
  {
    !InColumn(g, row, col, num) && !InRow(g, row, col, num) && !InBox(g, row, col, num)
  }

  /** Every filled cell passes `isSafe` with its own value: the pre-filled
      digits are mutually safe. */
  predicate Consistent(g: Grid)
    requires IsGrid(g)
  {
    forall i, j {:trigger Safe(g, i, j, g[i][j])} :: 0 <= i < 9 && 0 <= j < 9 && g[i][j] != Empty ==> Safe(g, i, j, g[i][j])
  }

  /** A solved Sudoku: every cell holds a digit 1..9 and row, column and box
      hold no digit twice. */
  predicate ValidSolution(g: Grid) {
    IsGrid(g) && (forall i, j :: 0 <= i < 9 && 0 <= j < 9 ==> 1 <= g[i][j] <= 9) && Consistent(g)
  }

  /** `h` keeps every filled cell of `g` and holds a digit 1..9 wherever `g`
      is empty. */
  predicate Extends(g: Grid, h: Grid) {
    IsGrid(g) && IsGrid(h) &&
    forall i, j :: 0 <= i < 9 && 0 <= j < 9 ==>
      if g[i][j] != Empty then h[i][j] == g[i][j] else 1 <= h[i][j] <= 9
  }

  lemma BoxStartRange(k: int)
    requires 0 <= k < 9
    ensures BoxStart(k) in {0, 3, 6} && BoxStart(k) <= k < BoxStart(k) + 3
  {
  }

  /** Two cells lie in the same box exactly when their box anchors agree. */
  lemma SameBox(i: int, row: int)
    requires 0 <= i < 9 && 0 <= row < 9
    ensures (BoxStart(row) <= i < BoxStart(row) + 3) <==> BoxStart(i) == BoxStart(row)
  {
    BoxStartRange(i);
    BoxStartRange(row);
  }

  /** `isSafe` never consults the target cell: its own value does not affect
      the verdict. */
  lemma SafeIgnoresTarget(g: Grid, row: int, col: int, num: int, v: int)
    requires IsGrid(g) && 0 <= row < 9 && 0 <= col < 9
    ensures Safe(Place(g, Cell(row, col), v), row, col, num) == Safe(g, row, col, num)
  {
    var h := Place(g, Cell(row, col), v);
    assert InColumn(h, row, col, num) == InColumn(g, row, col, num);
    assert InRow(h, row, col, num) == InRow(g, row, col, num);
    assert InBox(h, row, col, num) == InBox(g, row, col, num) by {
      if InBox(g, row, col, num) {
        var i, j :| BoxStart(row) <= i < BoxStart(row) + 3 && BoxStart(col) <= j < BoxStart(col) + 3 &&
          i != row && j != col && g[i][j] == num;
        BoxStartRange(row);
        BoxStartRange(col);
        assert h[i][j] == num;
      }
      if InBox(h, row, col, num) {
        var i, j :| BoxStart(row) <= i < BoxStart(row) + 3 && BoxStart(col) <= j < BoxStart(col) + 3 &&
          i != row && j != col && h[i][j] == num;
        BoxStartRange(row);
        BoxStartRange(col);
        assert g[i][j] == num;
      }
    }
  }

  /** Cell (p, q) is one that `isSafe` compares when asked about (row, col). */
  predicate Sees(row: int, col: int, p: int, q: int) {
    (p != row && q == col) || (p == row && q != col) ||
    (BoxStart(p) == BoxStart(row) && BoxStart(q) == BoxStart(col) && p != row && q != col)
  }

  /** `Safe` read through `Sees`: no compared cell holds `num`. */
  lemma SafeBySees(g: Grid, row: int, col: int, num: int)
    requires IsGrid(g) && 0 <= row < 9 && 0 <= col < 9
    ensures Safe(g, row, col, num) <==>
      forall p, q :: 0 <= p < 9 && 0 <= q < 9 && Sees(row, col, p, q) ==> g[p][q] != num
  {
    if Safe(g, row, col, num) {
      SafeThenUnseen(g, row, col, num);
    } else {
      UnsafeThenSeen(g, row, col, num);
    }
  }

  lemma SafeThenUnseen(g: Grid, row: int, col: int, num: int)
    requires IsGrid(g) && 0 <= row < 9 && 0 <= col < 9 && Safe(g, row, col, num)
    ensures forall p, q :: 0 <= p < 9 && 0 <= q < 9 && Sees(row, col, p, q) ==> g[p][q] != num
  {
    forall p, q | 0 <= p < 9 && 0 <= q < 9 && Sees(row, col, p, q) ensures g[p][q] != num {
      if p != row && q != col && BoxStart(p) == BoxStart(row) && BoxStart(q) == BoxStart(col) {
        SameBox(p, row);
        SameBox(q, col);
        assert !InBox(g, row, col, num);
      } else if q == col {
        assert !InColumn(g, row, col, num);
      } else {
        assert !InRow(g, row, col, num);
      }
    }
  }

  lemma UnsafeThenSeen(g: Grid, row: int, col: int, num: int)
    requires IsGrid(g) && 0 <= row < 9 && 0 <= col < 9 && !Safe(g, row, col, num)
    ensures exists p, q :: 0 <= p < 9 && 0 <= q < 9 && Sees(row, col, p, q) && g[p][q] == num
  {
    if InColumn(g, row, col, num) {
      var i :| 0 <= i < 9 && i != row && g[i][col] == num;
      assert Sees(row, col, i, col);
    } else if InRow(g, row, col, num) {
      var j :| 0 <= j < 9 && j != col && g[row][j] == num;
      assert Sees(row, col, row, j);
    } else {
      var i, j :| BoxStart(row) <= i < BoxStart(row) + 3 && BoxStart(col) <= j < BoxStart(col) + 3 &&
        i != row && j != col && g[i][j] == num;
      BoxStartRange(row);
      BoxStartRange(col);
      SameBox(i, row);
      SameBox(j, col);
      assert Sees(row, col, i, j);
    }
  }

  /** Writing a digit that `isSafe` accepts into an empty cell of a consistent
      grid keeps it consistent. */
  lemma PlaceKeepsConsistent(g: Grid, c: Cell, num: int)
    requires IsGrid(g) && InGrid(c) && g[c.i][c.j] == Empty && num != Empty
    requires Consistent(g) && Safe(g, c.i, c.j, num)
    ensures Consistent(Place(g, c, num))
  {
    var h := Place(g, c, num);
    SafeBySees(g, c.i, c.j, num);
    forall i, j | 0 <= i < 9 && 0 <= j < 9 && h[i][j] != Empty ensures Safe(h, i, j, h[i][j]) {
      if i == c.i && j == c.j {
        SafeIgnoresTarget(g, c.i, c.j, num, num);
      } else {
        var v := g[i][j];
        SafeBySees(g, i, j, v);
        SafeBySees(h, i, j, v);
        forall p, q | 0 <= p < 9 && 0 <= q < 9 && Sees(i, j, p, q) ensures h[p][q] != v {
          if p == c.i && q == c.j {
            assert Sees(c.i, c.j, i, j);
          }
        }
      }
    }
  }

  /** The digit that a valid solution extending `g` has at any cell is
      accepted by `isSafe` on `g` at that cell. */
  lemma SolutionDigitSafe(g: Grid, s: Grid, c: Cell)
    requires ValidSolution(s) && Extends(g, s) && InGrid(c)
    ensures Safe(g, c.i, c.j, s[c.i][c.j])
  {
    var d := s[c.i][c.j];
    assert Safe(s, c.i, c.j, d);
    SafeBySees(s, c.i, c.j, d);
    SafeBySees(g, c.i, c.j, d);
    forall p, q | 0 <= p < 9 && 0 <= q < 9 && Sees(c.i, c.j, p, q) ensures g[p][q] != d {
      if g[p][q] != Empty {
        assert g[p][q] == s[p][q];
      }
    }
  }

  /** On a solved grid `isSafe` accepts at a cell exactly the digit the cell
      already holds: any other digit 1..9 appears elsewhere in the same row,
      since the row's nine distinct digits leave no room for a tenth. */
  lemma SolvedGridSafe(g: Grid, r: int, c: int, d: int)
    requires ValidSolution(g) && 0 <= r < 9 && 0 <= c < 9 && 1 <= d <= 9
    ensures Safe(g, r, c, d) <==> d == g[r][c]
  {
    if d != g[r][c] && Safe(g, r, c, d) {
      SolvedRowDistinct(g, r);
      NineDigitsCover(g[r], d);
      RowAvoids(g, r, c, d);
      assert false;
    }
  }

  /** Nine pairwise different digits 1..9 include every digit 1..9. */
  lemma NineDigitsCover(row: seq<int>, d: int)
    requires |row| == 9 && 1 <= d <= 9
    requires forall j :: 0 <= j < 9 ==> 1 <= row[j] <= 9
    requires forall a, b :: 0 <= a < b < 9 ==> row[a] != row[b]
    ensures exists j :: 0 <= j < 9 && row[j] == d
  {
    if forall j :: 0 <= j < 9 ==> row[j] != d {
      var digits := {1, 2, 3, 4, 5, 6, 7, 8, 9};
      assert |digits| == 9 && d in digits;
      var u := digits - {d};
      assert forall j :: 0 <= j < 9 ==> row[j] in u;
      DistinctWithin(row, u);
      assert false;
    }
  }

  /** The nine digits of a row of a solved grid are pairwise different. */
  lemma SolvedRowDistinct(g: Grid, r: int)
    requires ValidSolution(g) && 0 <= r < 9
    ensures forall a, b :: 0 <= a < b < 9 ==> g[r][a] != g[r][b]
  {
    forall a, b | 0 <= a < b < 9 ensures g[r][a] != g[r][b] {
      assert Safe(g, r, a, g[r][a]);
    }
  }

  /** A digit `isSafe` accepts at (r, c) and that (r, c) does not hold is
      nowhere in row r. */
  lemma RowAvoids(g: Grid, r: int, c: int, d: int)
    requires IsGrid(g) && 0 <= r < 9 && 0 <= c < 9 && Safe(g, r, c, d) && d != g[r][c]
    ensures forall j :: 0 <= j < 9 ==> g[r][j] != d
  {
  }

  /** A sequence without repeats whose elements all lie in `u` is no longer
      than `u` is large. */
  lemma {:induction false} DistinctWithin(s: seq<int>, u: set<int>)
    requires forall k :: 0 <= k < |s| ==> s[k] in u
    requires forall a, b :: 0 <= a < b < |s| ==> s[a] != s[b]
    ensures |s| <= |u|
  {
    if s != [] {
      var t := s[1..];
      forall k | 0 <= k < |t| ensures t[k] in u - {s[0]} {
        assert t[k] == s[k + 1];
      }
      forall a, b | 0 <= a < b < |t| ensures t[a] != t[b] {
        assert t[a] == s[a + 1] && t[b] == s[b + 1];
      }
      DistinctWithin(t, u - {s[0]});
    }
  }
}
