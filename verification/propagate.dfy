/**
  Constraint propagation of the C solver (solver.c): `remove_option`, one
  pass of `iterate_sudoku`, `check_solution` with its status codes, and the
  propagation loop at the top of `_solve` that repeats the pass until the
  board stops changing.
*/
module Propagation {
  import opened Masks
  import opened Board

  // ---------------------------------------------------------------------------
  // Status codes (solver.h)
  // ---------------------------------------------------------------------------

  const SudokuDone: int := 1
  const SudokuInProgress: int := 0
  const SudokuError: int := -1

  // ---------------------------------------------------------------------------
  // remove_option
  // ---------------------------------------------------------------------------

  /** `remove_option(number, place)`: the mask left in `place` once the digits of `number` are cleared. */
  function RemoveOption(number: Mask, place: Mask): (r: Mask)
    ensures SubMask(r, place)
    ensures NoBitsIn(r, number)
    ensures NoBitsIn(place, number) ==> r == place
  {
    RemoveOptionBits(number, place);
    place & !number
  }

  lemma RemoveOptionBits(number: Mask, place: Mask)
    ensures SubMask(place & !number, place)
    ensures NoBitsIn(place & !number, number)
    ensures NoBitsIn(place, number) ==> place & !number == place
  {
  }

  /** What `remove_option` leaves is the largest submask of `place` that avoids `number`. */
  lemma RemoveOptionGreatest(number: Mask, place: Mask, x: Mask)
    requires SubMask(x, place) && NoBitsIn(x, number)
    ensures SubMask(x, RemoveOption(number, place))
  {
  }

  // ---------------------------------------------------------------------------
  // Facts about fixed masks
  // ---------------------------------------------------------------------------

  lemma SingleDigitsDisjoint(a: Mask, b: Mask)
    requires IsSingleDigit(a) && IsSingleDigit(b) && a != b
    ensures NoBitsIn(a, b)
  {
  }

  lemma SingleDigitSubMask(a: Mask, b: Mask)
    requires IsSingleDigit(a) && IsSingleDigit(b) && SubMask(a, b)
    ensures a == b
  {
  }

  lemma SingleDigitSelf(a: Mask)
    requires IsSingleDigit(a)
    ensures !NoBitsIn(a, a)
  {
  }

  /** Two different fixed masks share no digit. */
  lemma FixedDisjoint(a: Mask, b: Mask)
    requires IsFixed(a) && IsFixed(b) && a != b
    ensures NoBitsIn(a, b)
  {
    IsFixedIsSingleDigit(a);
    IsFixedIsSingleDigit(b);
    SingleDigitsDisjoint(a, b);
  }

  /** A fixed mask below another fixed mask is that mask. */
  lemma FixedSubMask(a: Mask, b: Mask)
    requires IsFixed(a) && IsFixed(b) && SubMask(a, b)
    ensures a == b
  {
    IsFixedIsSingleDigit(a);
    IsFixedIsSingleDigit(b);
    SingleDigitSubMask(a, b);
  }

  /** A fixed mask shares its digit with itself. */
  lemma FixedOverlapsItself(a: Mask)
    requires IsFixed(a)
    ensures !NoBitsIn(a, a)
  {
    IsFixedIsSingleDigit(a);
    SingleDigitSelf(a);
  }

  // ---------------------------------------------------------------------------
  // iterate_sudoku
  // ---------------------------------------------------------------------------

  /** One iteration of the scanning loops: the kind of group and the cell whose mask may be removed from it. */
  datatype Source = Source(group: Group, cell: Cell)

  /** Number of sources one pass visits: 81 per phase, rows, then columns, then boxes. */
  const PassLength: nat := 243

  /**
    The `k`-th source of a pass, in the order of the loops of
    `iterate_sudoku`: row i column j for the rows; then column i, row j for
    the columns; then, box by box (corner row, then corner column), the
    cells of each box row by row.
  */
  function SourceAt(k: nat): Source
    requires k < PassLength
  {
    if k < 81 then Source(RowGroup, k)
    else if k < 162 then
      var c := k - 81;
      Source(ColumnGroup, 9 * (c % 9) + c / 9)
    else
      var c := k - 162;
      var corner, inner := c / 9, c % 9;
      Source(BoxGroup, 9 * (3 * (corner / 3) + inner / 3) + 3 * (corner % 3) + inner % 3)
  }

  /** Where the pass visits cell `p` as a source of group kind `g`. */
  function SourceIndex(g: Group, p: Cell): (k: nat)
    ensures k < PassLength && SourceAt(k) == Source(g, p)
  {
    match g
    case RowGroup => p
    case ColumnGroup =>
      ColumnSource(p);
      81 + 9 * Col(p) + Row(p)
    case BoxGroup =>
      BoxSource(p);
      162 + 9 * Box(p) + 3 * (Row(p) % 3) + Col(p) % 3
  }

  lemma ColumnSource(p: Cell)
    ensures 81 + 9 * Col(p) + Row(p) < 162
    ensures SourceAt(81 + 9 * Col(p) + Row(p)) == Source(ColumnGroup, p)
  {
    var i, j := Row(p), Col(p);
    assert p == 9 * i + j;
    DivMod9(j, i);
  }

  lemma BoxSource(p: Cell)
    ensures 162 <= 162 + 9 * Box(p) + 3 * (Row(p) % 3) + Col(p) % 3 < PassLength
    ensures SourceAt(162 + 9 * Box(p) + 3 * (Row(p) % 3) + Col(p) % 3) == Source(BoxGroup, p)
  {
    var i, j := Row(p), Col(p);
    assert p == 9 * i + j;
    BoxCoordinates(i, j);
    BoxSourceAt(3 * (i / 3) + j / 3, 3 * (i % 3) + j % 3);
  }

  /** Step `162 + 9 * corner + inner` visits cell `inner` of box `corner`. */
  lemma BoxSourceAt(corner: nat, inner: nat)
    requires corner < 9 && inner < 9
    ensures SourceAt(162 + 9 * corner + inner).group == BoxGroup
    ensures SourceAt(162 + 9 * corner + inner).cell as int
      == 9 * (3 * (corner / 3) + inner / 3) + 3 * (corner % 3) + inner % 3
  {
    DivMod9(corner, inner);
  }

  /** Box and position in the box, back to row and column. */
  lemma BoxCoordinates(i: nat, j: nat)
    requires i < 9 && j < 9
    ensures var corner, inner := 3 * (i / 3) + j / 3, 3 * (i % 3) + j % 3;
      && corner < 9 && inner < 9
      && 9 * (3 * (corner / 3) + inner / 3) + 3 * (corner % 3) + inner % 3 == 9 * i + j
  {
    DivMod3(i / 3, j / 3);
    DivMod3(i % 3, j % 3);
  }

  lemma DivMod9(a: nat, b: nat)
    requires b < 9
    ensures (9 * a + b) / 9 == a && (9 * a + b) % 9 == b
  {
  }

  lemma DivMod3(a: nat, b: nat)
    requires b < 3
    ensures (3 * a + b) / 3 == a && (3 * a + b) % 3 == b
  {
  }

  /**
    The body of the loops for one source: when the source cell is fixed,
    its mask is removed from every other cell of its group (the `k != j`
    tests skip the source itself). The source cell itself never changes, so
    the order of the innermost loop does not matter.
  */
  function Eliminate(b: Board, s: Source): (r: Board)
    ensures Refines(r, b)
    ensures r[s.cell] == b[s.cell]
    ensures forall q :: 0 <= q < 81 && (q == s.cell || !SameGroup(s.group, s.cell, q)) ==> r[q] == b[q]
    ensures IsFixed(b[s.cell]) ==>
      forall q :: 0 <= q < 81 && q != s.cell && SameGroup(s.group, s.cell, q) ==> r[q] == RemoveOption(b[s.cell], b[q])
    ensures !IsFixed(b[s.cell]) ==> r == b
  {
    if IsFixed(b[s.cell]) then
      var r: Board := seq(81, q requires 0 <= q < 81 =>
        if q != s.cell && SameGroup(s.group, s.cell, q) then RemoveOption(b[s.cell], b[q]) else b[q]);
      forall q | 0 <= q < 81 ensures SubMask(r[q], b[q]) {
        SubMaskReflexive(b[q]);
      }
      r
    else
      RefinesReflexive(b);
      b
  }

  /** The pass from source `k` on. */
  function IterateFrom(b: Board, k: nat): Board
    requires k <= PassLength
    decreases PassLength - k
  {
    if k == PassLength then b else IterateFrom(Eliminate(b, SourceAt(k)), k + 1)
  }

  /**
    `iterate_sudoku`: one in-place pass over rows, columns and boxes. The
    pass also returns `all_are_fixed(field)`, which `_solve` ignores; that
    value is `Board.AllAreFixedAsWritten`.
  */
  function Iterate(b: Board): Board {
    IterateFrom(b, 0)
  }

  lemma {:induction false} IterateFromRefines(b: Board, k: nat)
    requires k <= PassLength
    ensures Refines(IterateFrom(b, k), b)
    decreases PassLength - k
  {
    if k < PassLength {
      var b1 := Eliminate(b, SourceAt(k));
      IterateFromRefines(b1, k + 1);
      RefinesTransitive(IterateFrom(b1, k + 1), b1, b);
    } else {
      RefinesReflexive(b);
    }
  }

  /** A pass only clears bits: every output cell is a submask of the input cell. */
  lemma IterateRefines(b: Board)
    ensures Refines(Iterate(b), b)
  {
    IterateFromRefines(b, 0);
  }

  /** Elimination never rules out a solution that the board still allows. */
  lemma EliminateKeepsSolution(b: Board, s: Source, g: Board)
    requires IsSolution(g) && Refines(g, b)
    ensures Refines(g, Eliminate(b, s))
  {
    var r := Eliminate(b, s);
    var p := s.cell;
    if IsFixed(b[p]) {
      FixedSubMask(g[p], b[p]);
      forall q | 0 <= q < 81 ensures SubMask(g[q], r[q]) {
        if q != p && SameGroup(s.group, p, q) {
          assert Peers(p, q);
          FixedDisjoint(g[q], g[p]);
          RemoveOptionGreatest(b[p], b[q], g[q]);
        }
      }
    }
  }

  lemma {:induction false} IterateFromKeepsSolution(b: Board, k: nat, g: Board)
    requires k <= PassLength
    requires IsSolution(g) && Refines(g, b)
    ensures Refines(g, IterateFrom(b, k))
    decreases PassLength - k
  {
    if k < PassLength {
      EliminateKeepsSolution(b, SourceAt(k), g);
      IterateFromKeepsSolution(Eliminate(b, SourceAt(k)), k + 1, g);
    }
  }

  /** Every solution allowed by the board is still allowed after a pass. */
  lemma IterateKeepsSolution(b: Board, g: Board)
    requires IsSolution(g) && Refines(g, b)
    ensures Refines(g, Iterate(b))
  {
    IterateFromKeepsSolution(b, 0, g);
  }

  /** No fixed cell shares its digit with a peer. */
  predicate NoConflict(b: Board) {
    forall p: Cell, q: Cell :: Peers(p, q) && IsFixed(b[p]) ==> NoBitsIn(b[q], b[p])
  }

  lemma {:induction false} StableSteps(b: Board, k: nat)
    requires k <= PassLength && IterateFrom(b, k) == b
    ensures forall m :: k <= m < PassLength ==> Eliminate(b, SourceAt(m)) == b
    decreases PassLength - k
  {
    if k < PassLength {
      StableStep(b, k);
      StableSteps(b, k + 1);
    }
  }

  /** When the rest of a pass returns its input, its first step already does. */
  lemma StableStep(b: Board, k: nat)
    requires k < PassLength && IterateFrom(b, k) == b
    ensures Eliminate(b, SourceAt(k)) == b
    ensures IterateFrom(b, k + 1) == b
  {
    var b1 := Eliminate(b, SourceAt(k));
    IterateFromRefines(b1, k + 1);
    RefinesAntisymmetric(b1, b);
  }

  lemma {:induction false} QuietSteps(b: Board, k: nat)
    requires k <= PassLength
    requires forall m :: k <= m < PassLength ==> Eliminate(b, SourceAt(m)) == b
    ensures IterateFrom(b, k) == b
    decreases PassLength - k
  {
    if k < PassLength {
      QuietSteps(b, k + 1);
    }
  }

  /** A source whose group holds no conflict leaves the board unchanged. */
  lemma EliminateQuiet(b: Board, s: Source)
    requires NoConflict(b)
    ensures Eliminate(b, s) == b
  {
    var p := s.cell;
    if IsFixed(b[p]) {
      forall q | 0 <= q < 81 && q != p && SameGroup(s.group, p, q)
        ensures Eliminate(b, s)[q] == b[q]
      {
        assert Peers(p, q);
      }
    }
  }

  /**
    A pass leaves the board unchanged exactly when no fixed cell shares its
    digit with a cell of one of its rows, columns or boxes.
  */
  lemma StableIffNoConflict(b: Board)
    ensures Iterate(b) == b <==> NoConflict(b)
  {
    if Iterate(b) == b {
      StableSteps(b, 0);
      forall p: Cell, q: Cell | Peers(p, q) && IsFixed(b[p])
        ensures NoBitsIn(b[q], b[p])
      {
        StableClears(b, p, q);
      }
    }
    if NoConflict(b) {
      forall m | 0 <= m < PassLength ensures Eliminate(b, SourceAt(m)) == b {
        EliminateQuiet(b, SourceAt(m));
      }
      QuietSteps(b, 0);
    }
  }

  /** A fixed cell of a board every step leaves alone shares no digit with its peers. */
  lemma StableClears(b: Board, p: Cell, q: Cell)
    requires forall m :: 0 <= m < PassLength ==> Eliminate(b, SourceAt(m)) == b
    requires Peers(p, q) && IsFixed(b[p])
    ensures NoBitsIn(b[q], b[p])
  {
    var g := if SameGroup(RowGroup, p, q) then RowGroup
      else if SameGroup(ColumnGroup, p, q) then ColumnGroup else BoxGroup;
    var k := SourceIndex(g, p);
    assert Eliminate(b, SourceAt(k))[q] == b[q];
  }

  /** A stable board with every cell fixed is a solution. */
  lemma StableFixedIsSolution(b: Board)
    requires Iterate(b) == b && AllFixed(b)
    ensures IsSolution(b)
  {
    StableIffNoConflict(b);
    forall p: Cell, q: Cell | Peers(p, q) ensures b[p] != b[q] {
      if b[p] == b[q] {
        FixedOverlapsItself(b[p]);
        assert false;
      }
    }
  }

  // ---------------------------------------------------------------------------
  // check_solution
  // ---------------------------------------------------------------------------

  /** Some cell allows no digit at all. */
  predicate HasEmpty(b: Board) {
    exists p :: 0 <= p < 81 && b[p] == 0
  }

  /** The loop of `check_solution` from cell `p` on. */
  function CheckFrom(b: Board, p: nat, anyNotFixed: bool): int
    requires p <= 81
    decreases 81 - p
  {
    if p == 81 then (if anyNotFixed then SudokuInProgress else SudokuDone)
    else if b[p] == 0 then SudokuError
    else CheckFrom(b, p + 1, anyNotFixed || !IsFixed(b[p]))
  }

  /** `check_solution`. */
  function CheckSolution(b: Board): int {
    CheckFrom(b, 0, false)
  }

  lemma {:induction false} CheckFromCases(b: Board, p: nat, anyNotFixed: bool)
    requires p <= 81
    ensures var r := CheckFrom(b, p, anyNotFixed);
      var empty := exists q :: p <= q < 81 && b[q] == 0;
      var open := anyNotFixed || exists q :: p <= q < 81 && !IsFixed(b[q]);
      && (r == SudokuError <==> empty)
      && (r == SudokuInProgress <==> !empty && open)
      && (r == SudokuDone <==> !empty && !open)
    decreases 81 - p
  {
    if p < 81 && b[p] != 0 {
      CheckFromCases(b, p + 1, anyNotFixed || !IsFixed(b[p]));
    }
  }

  /**
    `check_solution` answers ERROR when some cell is 0 (whatever the other
    cells hold), otherwise IN_PROGRESS when some cell is not fixed, and DONE
    when every cell is fixed.
  */
  lemma CheckSolutionCases(b: Board)
    ensures var r := CheckSolution(b);
      && (r == SudokuError <==> HasEmpty(b))
      && (r == SudokuInProgress <==> !HasEmpty(b) && !AllFixed(b))
      && (r == SudokuDone <==> !HasEmpty(b) && AllFixed(b))
  {
    CheckFromCases(b, 0, false);
  }

  // ---------------------------------------------------------------------------
  // The propagation loop of _solve
  // ---------------------------------------------------------------------------

  /**
    The `for (;;)` loop at the top of `_solve`: run a pass; if the board
    changed (`sudoku_cmp` nonzero) keep it and run again, otherwise stop.
    Every change clears at least one bit, so the total bit count decreases.
  */
  function Settle(b: Board): Board
    decreases Total(b)
  {
    var n := Iterate(b);
    IterateRefines(b);
    SudokuCmpZero(b, n);
    if SudokuCmp(b, n) != 0 then
      RefinesTotal(n, b);
      Settle(n)
    else
      b
  }

  /** The loop ends on a board below its input that one more pass leaves as it is. */
  lemma {:induction false} SettleSpec(b: Board)
    ensures Refines(Settle(b), b)
    ensures Iterate(Settle(b)) == Settle(b)
    decreases Total(b)
  {
    var n := Iterate(b);
    IterateRefines(b);
    SudokuCmpZero(b, n);
    if SudokuCmp(b, n) != 0 {
      RefinesTotal(n, b);
      SettleSpec(n);
      RefinesTransitive(Settle(n), n, b);
    } else {
      RefinesReflexive(b);
    }
  }

  /** The propagation loop never rules out a solution the board allows. */
  lemma {:induction false} SettleKeepsSolution(b: Board, g: Board)
    requires IsSolution(g) && Refines(g, b)
    ensures Refines(g, Settle(b))
    decreases Total(b)
  {
    var n := Iterate(b);
    IterateRefines(b);
    IterateKeepsSolution(b, g);
    SudokuCmpZero(b, n);
    if SudokuCmp(b, n) != 0 {
      RefinesTotal(n, b);
      SettleKeepsSolution(n, g);
    }
  }
}
