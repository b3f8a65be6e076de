/** The grid model: a 9x9 matrix of integers in row-major order, 0 marking an
    empty cell, and the structural helpers the solver needs. */
module Grids {

  datatype Option<T> = None | Some(value: T)

  /** A grid as a value: a sequence of rows. Snapshots of the mutable grid
      are values of this type, so every recorded snapshot is a deep copy. */
  type Grid = seq<seq<int>>

  /** A cell address, the `{ i, j }` object the scan returns. */
  datatype Cell = Cell(i: int, j: int)

  /** The sentinel for an empty cell. */
  const Empty := 0

  /** The shape invariant: exactly nine rows of nine cells. */
  predicate IsGrid(g: Grid) {
    |g| == 9 && forall i :: 0 <= i < 9 ==> |g[i]| == 9
  }

  predicate InGrid(c: Cell) {
    0 <= c.i < 9 && 0 <= c.j < 9
  }

  /** The value held by the array `a`, row by row. */
  function Rows(a: array2<int>): (g: Grid)
    reads a
    ensures |g| == a.Length0
    ensures forall i :: 0 <= i < a.Length0 ==> |g[i]| == a.Length1
    ensures forall i, j :: 0 <= i < a.Length0 && 0 <= j < a.Length1 ==> g[i][j] == a[i, j]
  {
    seq(a.Length0, i requires 0 <= i < a.Length0 reads a =>
      seq(a.Length1, j requires 0 <= j < a.Length1 reads a => a[i, j]))
  }

  lemma AppendAssoc<T>(a: seq<T>, b: seq<T>, c: seq<T>)
    ensures a + (b + c) == (a + b) + c
  {
  }

  /** `x` is the last element of `t`. */
  predicate EndsWith<T(==)>(t: seq<T>, x: T) {
    |t| >= 1 && t[|t| - 1] == x
  }

  /** `w` is a final segment of `t`. */
  predicate IsSuffix<T(==)>(w: seq<T>, t: seq<T>) {
    |w| <= |t| && t[|t| - |w|..] == w
  }

  lemma SuffixAppend<T>(a: seq<T>, b: seq<T>, w: seq<T>)
    requires IsSuffix(w, b)
    ensures IsSuffix(w, a + b)
  {
    assert (a + b)[|a + b| - |w|..] == b[|b| - |w|..];
  }

  lemma EndsWithAppend<T>(a: seq<T>, b: seq<T>, x: T)
    requires EndsWith(b, x)
    ensures EndsWith(a + b, x)
  {
  }

  /** The array `a` holds the grid value `g`, cell by cell. */
  ghost predicate Holds(a: array2<int>, g: Grid)
    reads a
  {
    |g| == a.Length0 && (forall i :: 0 <= i < |g| ==> |g[i]| == a.Length1) &&
    forall i, j :: 0 <= i < a.Length0 && 0 <= j < a.Length1 ==> a[i, j] == g[i][j]
  }

  /** An array holding a grid value reads back as that value. */
  lemma RowsAre(a: array2<int>, g: Grid)
    requires Holds(a, g)
    ensures Rows(a) == g
  {
    var r := Rows(a);
    forall i | 0 <= i < |g| ensures r[i] == g[i] {
      assert forall j :: 0 <= j < |g[i]| ==> r[i][j] == g[i][j];
    }
  }

  /** `g` with cell `c` set to `v` and every other cell kept. */
  function Place(g: Grid, c: Cell, v: int): (h: Grid)
    requires IsGrid(g) && InGrid(c)
    ensures IsGrid(h)
    ensures h[c.i][c.j] == v
    ensures forall i, j :: 0 <= i < 9 && 0 <= j < 9 && (i != c.i || j != c.j) ==> h[i][j] == g[i][j]
  {
    g[c.i := g[c.i][c.j := v]]
  }

  /** Every cell of `g` is filled. */
  predicate NoZeros(g: Grid) {
    forall i, j :: 0 <= i < |g| && 0 <= j < |g[i]| ==> g[i][j] != Empty
  }

  function CountZeros(row: seq<int>): nat {
    if row == [] then 0 else (if row[0] == Empty then 1 else 0) + CountZeros(row[1..])
  }

  /** The number of empty cells: the measure that bounds the search. */
  function ZeroCount(g: Grid): nat {
    if g == [] then 0 else CountZeros(g[0]) + ZeroCount(g[1..])
  }

  lemma {:induction false} CountZerosBound(row: seq<int>)
    ensures CountZeros(row) <= |row|
    ensures CountZeros(row) == 0 <==> forall j :: 0 <= j < |row| ==> row[j] != Empty
  {
    if row != [] {
      CountZerosBound(row[1..]);
      assert forall j :: 1 <= j < |row| ==> row[j] == row[1..][j - 1];
    }
  }

  lemma {:induction false} ZeroCountRows(g: Grid, n: nat)
    requires |g| == n && forall i :: 0 <= i < n ==> |g[i]| == 9
    ensures ZeroCount(g) <= 9 * n
    ensures ZeroCount(g) == 0 <==> NoZeros(g)
  {
    if g != [] {
      CountZerosBound(g[0]);
      ZeroCountRows(g[1..], n - 1);
      assert forall i :: 1 <= i < |g| ==> g[i] == g[1..][i - 1];
      if ZeroCount(g) == 0 {
        forall i, j | 0 <= i < |g| && 0 <= j < |g[i]| ensures g[i][j] != Empty {
          if i > 0 {
            assert g[i][j] == g[1..][i - 1][j];
          }
        }
      }
      if NoZeros(g) {
        assert forall j :: 0 <= j < |g[0]| ==> g[0][j] != Empty;
        assert NoZeros(g[1..]) by {
          forall i, j | 0 <= i < |g[1..]| && 0 <= j < |g[1..][i]| ensures g[1..][i][j] != Empty {
            assert g[1..][i][j] == g[i + 1][j];
          }
        }
      }
    }
  }

  /** A 9x9 grid has at most 81 empty cells, and none exactly when it is full:
      so the search nests at most 81 calls deep. */
  lemma ZeroCountBound(g: Grid)
    requires IsGrid(g)
    ensures ZeroCount(g) <= 81
    ensures ZeroCount(g) == 0 <==> NoZeros(g)
  {
    ZeroCountRows(g, 9);
  }

  lemma {:induction false} CountZerosFill(row: seq<int>, j: nat, v: int)
    requires j < |row| && row[j] == Empty && v != Empty
    ensures CountZeros(row[j := v]) == CountZeros(row) - 1
  {
    if j > 0 {
      assert row[j := v][1..] == row[1..][j - 1 := v];
      CountZerosFill(row[1..], j - 1, v);
    } else {
      assert row[j := v][1..] == row[1..];
    }
  }

  lemma {:induction false} ZeroCountFill(g: Grid, i: nat, j: nat, v: int)
    requires i < |g| && j < |g[i]| && g[i][j] == Empty && v != Empty
    ensures ZeroCount(g[i := g[i][j := v]]) == ZeroCount(g) - 1
  {
    if i > 0 {
      assert g[i := g[i][j := v]][1..] == g[1..][i - 1 := g[1..][i - 1][j := v]];
      ZeroCountFill(g[1..], i - 1, j, v);
    } else {
      assert g[i := g[i][j := v]][1..] == g[1..];
      CountZerosFill(g[0], j, v);
    }
  }

  /** Filling an empty cell with a non-zero value leaves one empty cell fewer:
      each nested call of the search sees one fewer zero. */
  lemma PlaceZeroCount(g: Grid, c: Cell, v: int)
    requires IsGrid(g) && InGrid(c) && g[c.i][c.j] == Empty && v != Empty
    ensures ZeroCount(Place(g, c, v)) == ZeroCount(g) - 1
  {
    ZeroCountFill(g, c.i, c.j, v);
  }

  /** `EMPTY_GRID`: a fresh 9x9 grid of empty cells. */
  method EmptyGrid() returns (a: array2<int>)
    ensures fresh(a)
    ensures a.Length0 == 9 && a.Length1 == 9
    ensures IsGrid(Rows(a)) && ZeroCount(Rows(a)) == 81
    ensures forall i, j :: 0 <= i < 9 && 0 <= j < 9 ==> a[i, j] == Empty
  {
    a := new int[9, 9]((i, j) => Empty);
    AllEmptyZeroCount(Rows(a), 9);
  }

  lemma {:induction false} AllEmptyZeroCount(g: Grid, n: nat)
    requires |g| == n && forall i :: 0 <= i < n ==> |g[i]| == 9
    requires forall i, j :: 0 <= i < n && 0 <= j < 9 ==> g[i][j] == Empty
    ensures ZeroCount(g) == 9 * n
  {
    if g != [] {
      AllEmptyCountZeros(g[0]);
      assert forall i :: 1 <= i < |g| ==> g[1..][i - 1] == g[i];
      AllEmptyZeroCount(g[1..], n - 1);
    }
  }

  lemma {:induction false} AllEmptyCountZeros(row: seq<int>)
    requires forall j :: 0 <= j < |row| ==> row[j] == Empty
    ensures CountZeros(row) == |row|
  {
    if row != [] {
      AllEmptyCountZeros(row[1..]);
    }
  }
}
