/** The depth-first backtracking search of `solveRecursive`, stated as a pure
    function of the grid it is called on. A call snapshots the grid, finds the
    first empty cell and runs the candidate loop over the digits 1..9. The
    loop is split in two: `Attempts` says what each digit leads to on its own
    (rejected by `isSafe`, or the result of the nested call after writing it),
    and `Candidates` walks those outcomes in ascending order the way the
    `while` loop does, stopping at the first success. */
module Backtracking {
  import opened Grids
  import opened Rules

  /** What one call produces: whether it reported success, the snapshots it
      appended to the trace in order, and the grid it leaves behind. */
  datatype SearchResult = SearchResult(solved: bool, trace: seq<Grid>, final: Grid)

  /** One call of `solveRecursive`: snapshot the grid, then either report
      success (no empty cell) or run the candidate loop at the first empty
      cell. A failed call hands the grid back unchanged. */
  function Search(g: Grid): (r: SearchResult)
    requires IsGrid(g)
    ensures !r.solved ==> r.final == g
    decreases ZeroCount(g), 1
  {
    match FirstEmpty(g)
    case None => SearchResult(true, [g], g)
    case Some(c) =>
      var rest := Candidates(g, Attempts(g, c), 1);
      SearchResult(rest.solved, [g] + rest.trace, rest.final)
  }

  /** The outcome of each digit 1..9 at the empty cell `c` (entry `num - 1`
      for digit `num`): None when `isSafe` rejects it, otherwise the result of
      the nested call on the grid with `num` written at `c`. */
  function Attempts(g: Grid, c: Cell): (rs: seq<Option<SearchResult>>)
    requires IsGrid(g) && InGrid(c) && g[c.i][c.j] == Empty
    ensures |rs| == 9
    decreases ZeroCount(g), 0
  {
    seq(9, k requires 0 <= k < 9 =>
      if Safe(g, c.i, c.j, k + 1) then
        PlaceZeroCount(g, c, k + 1);
        Some(Search(Place(g, c, k + 1)))
      else None)
  }

  /** Entry `num - 1` of the outcomes is the attempt with digit `num`. */
  lemma AttemptsAt(g: Grid, c: Cell, num: int)
    requires IsGrid(g) && InGrid(c) && g[c.i][c.j] == Empty && 1 <= num <= 9
    ensures Safe(g, c.i, c.j, num) ==> ZeroCount(Place(g, c, num)) < ZeroCount(g)
    ensures Attempts(g, c)[num - 1] ==
      if Safe(g, c.i, c.j, num) then Some(Search(Place(g, c, num))) else None
  {
    PlaceZeroCount(g, c, num);
  }

  /** The candidate loop from digit `num` on (10 means the digits are used
      up): a rejected digit is skipped, a successful nested call ends the loop
      with its result, and a failed one contributes its snapshots before the
      next digit is tried on the restored grid `g`. */
  function Candidates(g: Grid, rs: seq<Option<SearchResult>>, num: int): (r: SearchResult)
    requires |rs| == 9 && 1 <= num <= 10
    ensures !r.solved ==> r.final == g
    decreases 10 - num
  {
    if num == 10 then SearchResult(false, [], g)
    else match rs[num - 1]
      case None => Candidates(g, rs, num + 1)
      case Some(sub) =>
        if sub.solved then sub
        else
          var rest := Candidates(g, rs, num + 1);
          SearchResult(rest.solved, sub.trace + rest.trace, rest.final)
  }

  /** One step of the candidate loop: a digit `isSafe` rejects is skipped,
      a failed nested call contributes its snapshots and the loop goes on,
      and a successful one ends the loop with its own result. */
  lemma CandidatesStep(g: Grid, rs: seq<Option<SearchResult>>, num: int)
    requires |rs| == 9 && 1 <= num <= 9
    ensures rs[num - 1].None? ==> Candidates(g, rs, num) == Candidates(g, rs, num + 1)
    ensures rs[num - 1].Some? && rs[num - 1].value.solved ==> Candidates(g, rs, num) == rs[num - 1].value
    ensures rs[num - 1].Some? && !rs[num - 1].value.solved ==>
      var rest := Candidates(g, rs, num + 1);
      Candidates(g, rs, num) == SearchResult(rest.solved, rs[num - 1].value.trace + rest.trace, rest.final)
  {
  }

  /** Every cell of `g` holds 0 or a digit 1..9. */
  predicate InRange(g: Grid)
    requires IsGrid(g)
  {
    forall i, j :: 0 <= i < 9 && 0 <= j < 9 ==> 0 <= g[i][j] <= 9
  }

  /** Each call records exactly one snapshot first, taken before any change:
      the trace is never empty and starts with the grid the call was given. */
  lemma SearchTraceStart(g: Grid)
    requires IsGrid(g)
    ensures |Search(g).trace| >= 1 && Search(g).trace[0] == g
  {
  }

  /** On a grid with no empty cell the call succeeds at once, records the
      grid once and changes nothing. */
  lemma SearchFull(g: Grid)
    requires IsGrid(g) && NoZeros(g)
    ensures Search(g) == SearchResult(true, [g], g)
  {
  }

  lemma ExtendsThroughPlace(g: Grid, c: Cell, num: int, h: Grid)
    requires IsGrid(g) && InGrid(c) && g[c.i][c.j] == Empty && 1 <= num <= 9
    requires Extends(Place(g, c, num), h)
    ensures Extends(g, h) && h[c.i][c.j] == num
  {
    var p := Place(g, c, num);
    forall i, j | 0 <= i < 9 && 0 <= j < 9
      ensures if g[i][j] != Empty then h[i][j] == g[i][j] else 1 <= h[i][j] <= 9
    {
      if i != c.i || j != c.j {
        assert p[i][j] == g[i][j];
      }
    }
  }

  /** A successful call leaves a grid with no empty cell that keeps every
      originally filled cell, has written only digits 1..9, and is the last
      snapshot of the trace. */
  lemma {:induction false} SearchSolved(g: Grid)
    requires IsGrid(g) && Search(g).solved
    ensures var r := Search(g);
      NoZeros(r.final) && Extends(g, r.final) && EndsWith(r.trace, r.final)
    decreases ZeroCount(g), 1, 0
  {
    match FirstEmpty(g)
    case None =>
    case Some(c) =>
      CandidatesSolved(g, c, 1);
  }

  lemma {:induction false} CandidatesSolved(g: Grid, c: Cell, num: int)
    requires IsGrid(g) && InGrid(c) && g[c.i][c.j] == Empty && 1 <= num <= 10
    requires Candidates(g, Attempts(g, c), num).solved
    ensures var r := Candidates(g, Attempts(g, c), num);
      NoZeros(r.final) && Extends(g, r.final) && EndsWith(r.trace, r.final)
    decreases ZeroCount(g), 0, 10 - num
  {
    var rs := Attempts(g, c);
    var r := Candidates(g, rs, num);
    if rs[num - 1].Some? && rs[num - 1].value.solved {
      AttemptsAt(g, c, num);
      var p := Place(g, c, num);
      SearchSolved(p);
      assert r == Search(p);
      ExtendsThroughPlace(g, c, num, r.final);
    } else {
      CandidatesSolved(g, c, num + 1);
      var rest := Candidates(g, rs, num + 1);
      if rs[num - 1].Some? {
        assert r == SearchResult(true, rs[num - 1].value.trace + rest.trace, rest.final);
        EndsWithAppend(rs[num - 1].value.trace, rest.trace, rest.final);
      } else {
        assert r == rest;
      }
    }
  }

  /** A failed call recorded only grids that still had an empty cell. */
  lemma {:induction false} SearchFailed(g: Grid)
    requires IsGrid(g) && !Search(g).solved
    ensures forall k :: 0 <= k < |Search(g).trace| ==> !NoZeros(Search(g).trace[k])
    decreases ZeroCount(g), 1, 0
  {
    match FirstEmpty(g)
    case None =>
    case Some(c) =>
      CandidatesFailed(g, c, 1);
  }

  lemma {:induction false} CandidatesFailed(g: Grid, c: Cell, num: int)
    requires IsGrid(g) && InGrid(c) && g[c.i][c.j] == Empty && 1 <= num <= 10
    requires !Candidates(g, Attempts(g, c), num).solved
    ensures var t := Candidates(g, Attempts(g, c), num).trace;
      forall k :: 0 <= k < |t| ==> !NoZeros(t[k])
    decreases ZeroCount(g), 0, 10 - num
  {
    var rs := Attempts(g, c);
    if num < 10 {
      if rs[num - 1].Some? {
        AttemptsAt(g, c, num);
        SearchFailed(Place(g, c, num));
      }
      CandidatesFailed(g, c, num + 1);
    }
  }

  /** The caller tells "solved" from "not solved" by the last snapshot alone:
      the call succeeded exactly when that snapshot has no empty cell. */
  lemma SolvedIffLastFull(g: Grid)
    requires IsGrid(g)
    ensures var t := Search(g).trace;
      |t| >= 1 && (Search(g).solved <==> NoZeros(t[|t| - 1]))
  {
    if Search(g).solved {
      SearchSolved(g);
    } else {
      SearchFailed(g);
    }
  }

  /** Soundness: if the pre-filled digits are mutually safe, a successful
      search ends in a valid Sudoku solution of the puzzle. */
  lemma {:induction false} SearchSound(g: Grid)
    requires IsGrid(g) && InRange(g) && Consistent(g) && Search(g).solved
    ensures ValidSolution(Search(g).final) && Extends(g, Search(g).final)
    decreases ZeroCount(g), 1, 0
  {
    SearchSolved(g);
    match FirstEmpty(g)
    case None =>
      ZeroCountBound(g);
    case Some(c) =>
      CandidatesSound(g, c, 1);
  }

  lemma {:induction false} CandidatesSound(g: Grid, c: Cell, num: int)
    requires IsGrid(g) && InGrid(c) && g[c.i][c.j] == Empty && 1 <= num <= 10
    requires InRange(g) && Consistent(g) && Candidates(g, Attempts(g, c), num).solved
    ensures ValidSolution(Candidates(g, Attempts(g, c), num).final)
    decreases ZeroCount(g), 0, 10 - num
  {
    var rs := Attempts(g, c);
    if rs[num - 1].Some? && rs[num - 1].value.solved {
      AttemptsAt(g, c, num);
      PlaceKeepsConsistent(g, c, num);
      SearchSound(Place(g, c, num));
    } else {
      CandidatesSound(g, c, num + 1);
    }
  }

  /** Completeness: if some valid solution keeps the filled cells of `g`, the
      search succeeds. */
  lemma {:induction false} SearchComplete(g: Grid, s: Grid)
    requires IsGrid(g) && ValidSolution(s) && Extends(g, s)
    ensures Search(g).solved
    decreases ZeroCount(g), 1, 0
  {
    match FirstEmpty(g)
    case None =>
    case Some(c) =>
      CandidatesComplete(g, s, c, 1);
  }

  lemma {:induction false} CandidatesComplete(g: Grid, s: Grid, c: Cell, num: int)
    requires IsGrid(g) && InGrid(c) && g[c.i][c.j] == Empty && 1 <= num <= 10
    requires ValidSolution(s) && Extends(g, s) && num <= s[c.i][c.j]
    ensures Candidates(g, Attempts(g, c), num).solved
    decreases ZeroCount(g), 0, 10 - num
  {
    var rs := Attempts(g, c);
    if num == s[c.i][c.j] {
      var p := Place(g, c, num);
      SolutionDigitSafe(g, s, c);
      AttemptsAt(g, c, num);
      assert Extends(p, s) by {
        forall i, j | 0 <= i < 9 && 0 <= j < 9
          ensures if p[i][j] != Empty then s[i][j] == p[i][j] else 1 <= s[i][j] <= 9
        {
          if i != c.i || j != c.j {
            assert p[i][j] == g[i][j];
          }
        }
      }
      SearchComplete(p, s);
      assert rs[num - 1] == Some(Search(p));
    } else {
      CandidatesComplete(g, s, c, num + 1);
    }
  }

  /** The correctness of the solver on well-formed input whose pre-filled
      digits are mutually safe: it succeeds exactly when the puzzle has a
      solution, and then the last snapshot is the grid it leaves, a solution. */
  /** A board that some valid solution extends has only digits 0..9, and
      its given digits are mutually safe: they are the solution's own. */
  lemma SolvableConsistent(g: Grid, s: Grid)
    requires ValidSolution(s) && Extends(g, s)
    ensures InRange(g) && Consistent(g)
  {
    forall i, j | 0 <= i < 9 && 0 <= j < 9 && g[i][j] != Empty ensures Safe(g, i, j, g[i][j]) {
      SolutionDigitSafe(g, s, Cell(i, j));
    }
  }

  /** Every solvable board is solved: the search succeeds, its final grid is
      a valid solution, and the last snapshot is that grid. */
  lemma SolvableSolved(g: Grid, s: Grid)
    requires ValidSolution(s) && Extends(g, s)
    ensures Search(g).solved && ValidSolution(Search(g).final) && EndsWith(Search(g).trace, Search(g).final)
  {
    SolvableConsistent(g, s);
    SearchComplete(g, s);
    SolvedIffSolvable(g);
  }

  lemma SolvedIffSolvable(g: Grid)
    requires IsGrid(g) && InRange(g) && Consistent(g)
    ensures Search(g).solved <==> exists s :: ValidSolution(s) && Extends(g, s)
    ensures Search(g).solved ==> ValidSolution(Search(g).final) && EndsWith(Search(g).trace, Search(g).final)
  {
    if Search(g).solved {
      SearchSound(g);
      SearchSolved(g);
    } else {
      UnsolvedUnsolvable(g);
    }
  }

  lemma UnsolvedUnsolvable(g: Grid)
    requires IsGrid(g) && !Search(g).solved
    ensures forall s :: ValidSolution(s) ==> !Extends(g, s)
  {
    forall s | ValidSolution(s) ensures !Extends(g, s) {
      if Extends(g, s) {
        SearchComplete(g, s);
      }
    }
  }

  /** Digit `e` at empty cell `c` fails: `isSafe` refuses it, or the nested
      search after writing it fails. */
  predicate Rejected(g: Grid, c: Cell, e: int)
    requires IsGrid(g) && InGrid(c) && g[c.i][c.j] == Empty && 1 <= e <= 9
  {
    !Safe(g, c.i, c.j, e) || !Search(Place(g, c, e)).solved
  }

  /** Digits are tried in ascending order and the first one whose nested
      search succeeds wins: the digit left at the first empty cell was accepted
      by `isSafe`, its nested search produced the final grid, and every smaller
      digit was either rejected by `isSafe` or led to a failed nested search. */
  lemma SearchPicksFirst(g: Grid, c: Cell)
    requires IsGrid(g) && FirstEmpty(g) == Some(c) && Search(g).solved
    ensures Extends(g, Search(g).final)
    ensures var d := Search(g).final[c.i][c.j];
      1 <= d <= 9 && Safe(g, c.i, c.j, d) &&
      Search(Place(g, c, d)).solved && Search(Place(g, c, d)).final == Search(g).final &&
      IsSuffix(Search(Place(g, c, d)).trace, Search(g).trace) &&
      forall e :: 1 <= e < d ==> Rejected(g, c, e)
  {
    SearchSolved(g);
    CandidatesPicksFirst(g, c, 1);
    SuffixAppend([g], Candidates(g, Attempts(g, c), 1).trace,
      Search(Place(g, c, Search(g).final[c.i][c.j])).trace);
    forall e | 1 <= e < Search(g).final[c.i][c.j] ensures Rejected(g, c, e) {
      CandidatesRejectsEarlier(g, c, 1, e);
    }
  }

  lemma {:induction false} CandidatesRejectsEarlier(g: Grid, c: Cell, num: int, e: int)
    requires IsGrid(g) && InGrid(c) && g[c.i][c.j] == Empty && 1 <= num <= 10
    requires var r := Candidates(g, Attempts(g, c), num);
      r.solved && IsGrid(r.final) && num <= e < r.final[c.i][c.j] && e <= 9
    ensures Rejected(g, c, e)
    decreases 10 - num
  {
    var rs := Attempts(g, c);
    if rs[num - 1].Some? && rs[num - 1].value.solved {
      AttemptsAt(g, c, num);
      SearchSolved(Place(g, c, num));
      ExtendsThroughPlace(g, c, num, rs[num - 1].value.final);
    } else if e > num {
      CandidatesRejectsEarlier(g, c, num + 1, e);
    }
  }

  lemma {:induction false} CandidatesPicksFirst(g: Grid, c: Cell, num: int)
    requires IsGrid(g) && InGrid(c) && g[c.i][c.j] == Empty && 1 <= num <= 10
    requires Candidates(g, Attempts(g, c), num).solved
    ensures var r := Candidates(g, Attempts(g, c), num);
      IsGrid(r.final) && var d := r.final[c.i][c.j];
      num <= d <= 9 && Safe(g, c.i, c.j, d) &&
      Search(Place(g, c, d)).solved && Search(Place(g, c, d)).final == r.final &&
      IsSuffix(Search(Place(g, c, d)).trace, r.trace)
    decreases 10 - num
  {
    var rs := Attempts(g, c);
    CandidatesStep(g, rs, num);
    if rs[num - 1].Some? && rs[num - 1].value.solved {
      AttemptsAt(g, c, num);
      SearchSolved(Place(g, c, num));
      ExtendsThroughPlace(g, c, num, rs[num - 1].value.final);
      assert rs[num - 1].value.trace[0..] == rs[num - 1].value.trace;
    } else {
      CandidatesPicksFirst(g, c, num + 1);
      var rest := Candidates(g, rs, num + 1);
      var w := Search(Place(g, c, rest.final[c.i][c.j])).trace;
      if rs[num - 1].Some? {
        SuffixAppend(rs[num - 1].value.trace, rest.trace, w);
      }
    }
  }
}
