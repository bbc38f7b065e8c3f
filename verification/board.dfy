/**
  Boards (sudoku.h, sudoku.c). A `sudoku_t` is a 9x9 array of masks; the
  parser walks it through a flat pointer, so the model stores the 81 cells
  in row-major order: cell (i, j) lives at index 9 * i + j.
*/
module Board {
  import opened Masks

  type Board = b: seq<Mask> | |b| == 81 witness seq(81, _ => 0x1ff)

  /** A cell index 0..80. */
  type Cell = p: nat | p < 81

  function Row(p: Cell): nat { p / 9 }
  function Col(p: Cell): nat { p % 9 }
  function Box(p: Cell): nat { 3 * (Row(p) / 3) + Col(p) / 3 }

  /** The cell in row `i`, column `j`. */
  function At(b: Board, i: nat, j: nat): Mask
    requires i < 9 && j < 9
  {
    b[9 * i + j]
  }

  /** The three kinds of group a cell belongs to. */
  datatype Group = RowGroup | ColumnGroup | BoxGroup

  predicate SameGroup(g: Group, p: Cell, q: Cell) {
    match g
    case RowGroup => Row(p) == Row(q)
    case ColumnGroup => Col(p) == Col(q)
    case BoxGroup => Box(p) == Box(q)
  }

  /** `q` is one of the 20 peers of `p`: another cell sharing a row, column or box. */
  predicate Peers(p: Cell, q: Cell) {
    p != q && (SameGroup(RowGroup, p, q) || SameGroup(ColumnGroup, p, q) || SameGroup(BoxGroup, p, q))
  }

  /** Every cell of `a` allows only digits the same cell of `b` allows. */
  predicate Refines(a: Board, b: Board) {
    forall p :: 0 <= p < 81 ==> SubMask(a[p], b[p])
  }

  /** No cell carries a bit outside the digit bits. */
  predicate WellFormed(b: Board) {
    forall p :: 0 <= p < 81 ==> InRange(b[p])
  }

  /** Every cell is fixed. */
  predicate AllFixed(b: Board) {
    forall p :: 0 <= p < 81 ==> IsFixed(b[p])
  }

  /** A complete grid: every cell fixed, and no two peers fixed to the same digit. */
  predicate IsSolution(g: Board) {
    && AllFixed(g)
    && forall p: Cell, q: Cell :: Peers(p, q) ==> g[p] != g[q]
  }

  lemma RefinesReflexive(a: Board)
    ensures Refines(a, a)
  {
    forall p | 0 <= p < 81 ensures SubMask(a[p], a[p]) {
      SubMaskFacts(a[p], a[p], a[p]);
    }
  }

  lemma SubMaskFacts(a: Mask, b: Mask, c: Mask)
    ensures SubMask(a, a)
    ensures SubMask(a, b) && SubMask(b, c) ==> SubMask(a, c)
    ensures SubMask(a, b) && SubMask(b, a) ==> a == b
    ensures SubMask(a, b) && InRange(b) ==> InRange(a)
  {
    SubMaskReflexive(a);
    SubMaskTransitive(a, b, c);
    SubMaskAntisymmetric(a, b);
    SubMaskInRange(a, b);
  }

  lemma SubMaskReflexive(a: Mask)
    ensures SubMask(a, a)
  {
  }

  lemma SubMaskTransitive(a: Mask, b: Mask, c: Mask)
    ensures SubMask(a, b) && SubMask(b, c) ==> SubMask(a, c)
  {
  }

  lemma SubMaskAntisymmetric(a: Mask, b: Mask)
    ensures SubMask(a, b) && SubMask(b, a) ==> a == b
  {
  }

  lemma SubMaskInRange(a: Mask, b: Mask)
    ensures SubMask(a, b) && InRange(b) ==> InRange(a)
  {
  }

  lemma RefinesTransitive(a: Board, b: Board, c: Board)
    requires Refines(a, b) && Refines(b, c)
    ensures Refines(a, c)
  {
    forall p | 0 <= p < 81 ensures SubMask(a[p], c[p]) {
      SubMaskFacts(a[p], b[p], c[p]);
    }
  }

  lemma RefinesAntisymmetric(a: Board, b: Board)
    requires Refines(a, b) && Refines(b, a)
    ensures a == b
  {
    forall p | 0 <= p < 81 ensures a[p] == b[p] {
      SubMaskFacts(a[p], b[p], b[p]);
    }
  }

  lemma RefinesWellFormed(a: Board, b: Board)
    requires Refines(a, b) && WellFormed(b)
    ensures WellFormed(a)
  {
    forall p | 0 <= p < 81 ensures InRange(a[p]) {
      SubMaskFacts(a[p], b[p], b[p]);
    }
  }

  // ---------------------------------------------------------------------------
  // The termination measure: total number of set bits on the board.
  // ---------------------------------------------------------------------------

  function TotalFrom(b: seq<Mask>): nat {
    if |b| == 0 then 0 else Weight(b[0]) + TotalFrom(b[1..])
  }

  /** Total number of set bits over all cells. */
  function Total(b: Board): nat {
    TotalFrom(b)
  }

  lemma {:induction false} TotalFromMonotone(a: seq<Mask>, b: seq<Mask>)
    requires |a| == |b|
    requires forall p :: 0 <= p < |a| ==> SubMask(a[p], b[p])
    ensures TotalFrom(a) <= TotalFrom(b)
    ensures a != b ==> TotalFrom(a) < TotalFrom(b)
    decreases |a|
  {
    if |a| > 0 {
      WeightMonotone(a[0], b[0]);
      SubMaskTail(a, b);
      TotalFromMonotone(a[1..], b[1..]);
      HeadTail(a, b);
    }
  }

  lemma SubMaskTail(a: seq<Mask>, b: seq<Mask>)
    requires 0 < |a| == |b|
    requires forall p :: 0 <= p < |a| ==> SubMask(a[p], b[p])
    ensures forall p :: 0 <= p < |a| - 1 ==> SubMask(a[1..][p], b[1..][p])
  {
    forall p | 0 <= p < |a| - 1
      ensures SubMask(a[1..][p], b[1..][p])
    {
      assert a[1..][p] == a[p + 1] && b[1..][p] == b[p + 1];
    }
  }

  /** Two sequences that agree on the head and on the tail are equal. */
  lemma HeadTail<T>(a: seq<T>, b: seq<T>)
    requires 0 < |a| == |b|
    ensures a == b <==> a[0] == b[0] && a[1..] == b[1..]
  {
    if a[0] == b[0] && a[1..] == b[1..] {
      assert a == [a[0]] + a[1..] && b == [b[0]] + b[1..];
    }
  }

  /** A refinement never has more candidate bits, and a strict one has fewer. */
  lemma RefinesTotal(a: Board, b: Board)
    requires Refines(a, b)
    ensures Total(a) <= Total(b)
    ensures a != b ==> Total(a) < Total(b)
  {
    TotalFromMonotone(a, b);
  }

  // ---------------------------------------------------------------------------
  // sudoku_cmp
  // ---------------------------------------------------------------------------

  /**
    The `memcmp` loop from cell `k` on: 0 when the remaining cells agree, and
    a nonzero value at the first differing cell. Only the zero test is used by
    the solver, so the sign of a nonzero result is not modelled.
  */
  function CompareFrom(a: Board, b: Board, k: nat): int
    requires k <= 81
    decreases 81 - k
  {
    if k == 81 then 0
    else if a[k] != b[k] then 1
    else CompareFrom(a, b, k + 1)
  }

  /** `sudoku_cmp`. */
  function SudokuCmp(a: Board, b: Board): int {
    CompareFrom(a, b, 0)
  }

  lemma {:induction false} CompareFromZero(a: Board, b: Board, k: nat)
    requires k <= 81
    ensures CompareFrom(a, b, k) == 0 <==> forall p :: k <= p < 81 ==> a[p] == b[p]
    decreases 81 - k
  {
    if k < 81 && a[k] == b[k] {
      CompareFromZero(a, b, k + 1);
    }
  }

  /** `sudoku_cmp(a, b) == 0` exactly when the two boards are equal cell by cell. */
  lemma SudokuCmpZero(a: Board, b: Board)
    ensures SudokuCmp(a, b) == 0 <==> a == b
  {
    CompareFromZero(a, b, 0);
  }

  // ---------------------------------------------------------------------------
  // clear_sudoku, fill_bits
  // ---------------------------------------------------------------------------

  /** `clear_sudoku`: the board on which every digit is still possible everywhere. */
  function ClearSudoku(): Board {
    seq(81, _ => AllDigits)
  }

  /** Every well-formed board, in particular every solution, refines the cleared board. */
  lemma ClearSudokuIsTop(b: Board)
    requires WellFormed(b)
    ensures Refines(b, ClearSudoku())
    ensures forall p :: 0 <= p < 81 ==> CountBits(ClearSudoku()[p]) == 9
  {
    forall p | 0 <= p < 81 ensures SubMask(b[p], ClearSudoku()[p]) {
      InRangeIsSubMask(b[p]);
    }
    AllDigitsCount();
  }

  lemma InRangeIsSubMask(x: Mask)
    requires InRange(x)
    ensures SubMask(x, AllDigits)
  {
  }

  lemma AllDigitsCount()
    ensures CountBits(AllDigits) == 9
  {
  }

  /** A 9x9 table of numbers, as `fill_bits` receives it. */
  predicate IsNumberField(numbers: seq<seq<int>>) {
    |numbers| == 9 && forall i :: 0 <= i < 9 ==> |numbers[i]| == 9
  }

  /** `fill_bits`: cell (i, j) becomes `number2bits(numbers[i][j])`. */
  function FillBits(numbers: seq<seq<int>>): (r: Board)
    requires IsNumberField(numbers)
    ensures WellFormed(r)
  {
    seq(81, p requires 0 <= p < 81 => NumberToBits(numbers[p / 9][p % 9]))
  }

  /** Reading the filled board back with `bits2number` gives the digits, and 0 for anything else. */
  lemma FillBitsRoundTrip(numbers: seq<seq<int>>, i: nat, j: nat)
    requires IsNumberField(numbers) && i < 9 && j < 9
    ensures var n := numbers[i][j];
      BitsToNumber(FillBits(numbers)[9 * i + j]) == (if 1 <= n <= 9 then n else 0)
  {
    var p := 9 * i + j;
    assert p / 9 == i && p % 9 == j;
    NumberRoundTrip(numbers[i][j]);
  }

  // ---------------------------------------------------------------------------
  // all_are_fixed
  // ---------------------------------------------------------------------------

  /**
    The nested loop of `all_are_fixed` from row `i`, column `j` on, with the
    inner loop bound `bound` (the source writes 0 where 9 was meant).
  */
  function FixedLoop(b: Board, i: nat, j: nat, bound: nat): bool
    requires i <= 9 && bound <= 9
    decreases 9 - i, 9 - j
  {
    if i == 9 then true
    else if j >= bound then FixedLoop(b, i + 1, 0, bound)
    else if !IsFixed(b[9 * i + j]) then false
    else FixedLoop(b, i, j + 1, bound)
  }

  /** `all_are_fixed` as written: the inner loop `for (j=0; j<0; ++j)` never runs. */
  function AllAreFixedAsWritten(b: Board): bool {
    FixedLoop(b, 0, 0, 0)
  }

  /** `all_are_fixed` with the inner bound it was evidently meant to have. */
  function AllAreFixed(b: Board): bool {
    FixedLoop(b, 0, 0, 9)
  }

  lemma {:induction false} FixedLoopZeroBound(b: Board, i: nat, j: nat)
    requires i <= 9
    ensures FixedLoop(b, i, j, 0)
    decreases 9 - i
  {
    if i < 9 {
      FixedLoopZeroBound(b, i + 1, 0);
    }
  }

  /** As written, the function reports every board as fully fixed. */
  lemma AllAreFixedAsWrittenAlwaysTrue(b: Board)
    ensures AllAreFixedAsWritten(b)
  {
    FixedLoopZeroBound(b, 0, 0);
  }

  /** The cleared board has no fixed cell, yet the as-written check accepts it. */
  lemma AllAreFixedAsWrittenCounterexample()
    ensures AllAreFixedAsWritten(ClearSudoku()) && !AllFixed(ClearSudoku())
  {
    AllAreFixedAsWrittenAlwaysTrue(ClearSudoku());
    IsFixedIsSingleDigit(ClearSudoku()[0]);
  }

  lemma {:induction false} FixedLoopNine(b: Board, i: nat, j: nat)
    requires i <= 9 && j <= 9
    ensures FixedLoop(b, i, j, 9) <==> forall p :: 9 * i + j <= p < 81 ==> IsFixed(b[p])
    decreases 9 - i, 9 - j
  {
    if i < 9 {
      if j >= 9 {
        FixedLoopNine(b, i + 1, 0);
        assert 9 * i + j == 9 * (i + 1) + 0;
      } else {
        FixedLoopNine(b, i, j + 1);
        FixedSuffixStep(b, 9 * i + j);
      }
    }
  }

  lemma FixedSuffixStep(b: Board, n: nat)
    requires n < 81
    ensures (forall p :: n <= p < 81 ==> IsFixed(b[p])) <==>
      IsFixed(b[n]) && forall p :: n + 1 <= p < 81 ==> IsFixed(b[p])
  {
  }

  /** With the intended bound the check holds exactly when every cell is fixed. */
  lemma AllAreFixedCorrected(b: Board)
    ensures AllAreFixed(b) <==> AllFixed(b)
  {
    FixedLoopNine(b, 0, 0);
  }
}
