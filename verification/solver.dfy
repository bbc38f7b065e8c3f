/**
  The three entry points of solver.h, all thin wrappers of `_solve`:
  `solve_sudoku` (first solution), `count_sudoku_solutions` (count, no
  collector) and `collect_all_solutions` (count, with a collector that
  appends every board it receives to a sequence).
*/
module Solver {
  import opened Optional
  import opened Masks
  import opened Board
  import opened Propagation
  import opened Search
  import opened SearchFacts
  import opened Sequences

  /**
    `solve_sudoku`: Some(board left in `s`) when `_solve` in first-solution
    mode returns a positive count, None when it returns 0.
  */
  function SolveSudoku(b: Board): (r: Option<Board>)
    ensures r.Some? ==> IsSolution(r.value) && Refines(r.value, b)
  {
    var o := Solve(b, false, false);
    SolveBelow(b, false, false);
    if o.count > 0 then o.solution else None
  }

  /**
    `collect_all_solutions`: the count `_solve` returns in counting mode,
    with the boards the collector received, in the order it received them.
  */
  function CollectAllSolutions(b: Board): (r: (nat, seq<Board>))
    ensures r.0 == |r.1|
    ensures Distinct(r.1)
    ensures forall g :: g in r.1 ==> IsSolution(g) && Refines(g, b)
  {
    var o := Solve(b, true, true);
    SolveBelow(b, true, true);
    SolveDistinct(b);
    (o.count, o.emitted)
  }

  /** `count_sudoku_solutions`: the count, with the same value the collecting call returns. */
  function CountSudokuSolutions(b: Board): (n: nat)
    ensures n == CollectAllSolutions(b).0
  {
    SolveModes(b);
    Solve(b, true, false).count
  }

  /**
    On a well-formed board the collector receives exactly the solutions
    that refine the board.
  */
  lemma CollectedAreAllSolutions(b: Board, g: Board)
    requires WellFormed(b)
    ensures g in CollectAllSolutions(b).1 <==> IsSolution(g) && Refines(g, b)
  {
    if IsSolution(g) && Refines(g, b) {
      SolveComplete(b, g);
    }
  }

  /**
    `solve_sudoku` succeeds exactly when the counting call counts a
    solution, and then leaves the first board the collector would receive.
  */
  lemma FirstIsFirstCollected(b: Board)
    ensures SolveSudoku(b).Some? <==> CountSudokuSolutions(b) > 0
    ensures SolveSudoku(b).Some? ==>
      |CollectAllSolutions(b).1| > 0 && SolveSudoku(b).value == CollectAllSolutions(b).1[0]
  {
    SolveModes(b);
  }

  /** On a well-formed board `solve_sudoku` succeeds exactly when some solution refines it. */
  lemma SolveSudokuComplete(b: Board, g: Board)
    requires WellFormed(b) && IsSolution(g) && Refines(g, b)
    ensures SolveSudoku(b).Some?
  {
    CollectedAreAllSolutions(b, g);
    FirstIsFirstCollected(b);
  }

  /**
    On a well-formed board the count is the number of solutions refining
    it: for any set `all` holding exactly those solutions, the count is its
    size.
  */
  lemma CountIsNumberOfSolutions(b: Board, all: set<Board>)
    requires WellFormed(b)
    requires forall g :: g in all <==> IsSolution(g) && Refines(g, b)
    ensures CountSudokuSolutions(b) == |all|
  {
    var boards := CollectAllSolutions(b).1;
    forall g ensures g in all <==> g in boards {
      CollectedAreAllSolutions(b, g);
    }
    assert all == set x | x in boards;
    DistinctCount(boards);
  }

  /** The board has exactly one solution `g` below it. */
  ghost predicate UniqueSolution(b: Board, g: Board) {
    && IsSolution(g) && Refines(g, b)
    && forall h :: IsSolution(h) && Refines(h, b) ==> h == g
  }

  /**
    On a well-formed board `count_sudoku_solutions` answers 1 exactly when
    the board has a unique solution, which is then the board
    `solve_sudoku` finds.
  */
  lemma CountOneIffUnique(b: Board)
    requires WellFormed(b)
    ensures CountSudokuSolutions(b) == 1 <==> exists g :: UniqueSolution(b, g)
    ensures CountSudokuSolutions(b) == 1 ==>
      SolveSudoku(b).Some? && UniqueSolution(b, SolveSudoku(b).value)
  {
    if CountSudokuSolutions(b) == 1 {
      CountOneIsUnique(b);
    }
    if g :| UniqueSolution(b, g) {
      UniqueCountsOne(b, g);
    }
  }

  lemma CountOneIsUnique(b: Board)
    requires WellFormed(b) && CountSudokuSolutions(b) == 1
    ensures SolveSudoku(b).Some? && UniqueSolution(b, SolveSudoku(b).value)
  {
    FirstIsFirstCollected(b);
    var g := SolveSudoku(b).value;
    var boards := CollectAllSolutions(b).1;
    assert |boards| == 1 && g == boards[0];
    forall h | IsSolution(h) && Refines(h, b) ensures h == g {
      CollectedAreAllSolutions(b, h);
      OnlyMember(boards, h);
    }
  }

  lemma OnlyMember(xs: seq<Board>, h: Board)
    requires |xs| == 1 && h in xs
    ensures h == xs[0]
  {
  }

  lemma UniqueCountsOne(b: Board, g: Board)
    requires WellFormed(b) && UniqueSolution(b, g)
    ensures CountSudokuSolutions(b) == 1
  {
    var boards := CollectAllSolutions(b).1;
    CollectedAreAllSolutions(b, g);
    assert (set x | x in boards) == {g};
    DistinctCount(boards);
  }
}
