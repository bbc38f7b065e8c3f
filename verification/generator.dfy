/**
  The clue-removal phase of the generator (generator.c): `random_allowed`,
  `remove_random` and the loop `while (remove_random(buffer));`. The
  values `rand()` returns are an input: a sequence of draws and the
  position of the next unread one. A call that would read past the end of
  the sequence answers None.
*/
module Generator {
  import opened Optional
  import opened Masks
  import opened Board
  import opened Solver

  // ---------------------------------------------------------------------------
  // random_allowed
  // ---------------------------------------------------------------------------

  /** The trial mask `1 << (d % 9)` for the draw `d`. */
  function Trial(d: nat): Mask {
    Bit(d % 9)
  }

  /** The draw `d` proposes a digit `current` still allows. */
  predicate Allows(current: Mask, d: nat) {
    current & Trial(d) != 0
  }

  /**
    `random_allowed`: the trial of the first draw whose digit `current`
    allows; None when the draws run out first.
  */
  function RandomAllowed(current: Mask, draws: seq<nat>): Option<Mask>
    decreases |draws|
  {
    if |draws| == 0 then None
    else if Allows(current, draws[0]) then Some(Trial(draws[0]))
    else RandomAllowed(current, draws[1..])
  }

  /**
    The answer is the trial of the first allowing draw, and None exactly
    when no draw is allowed.
  */
  lemma {:induction false} RandomAllowedFirst(current: Mask, draws: seq<nat>)
    ensures RandomAllowed(current, draws).None? <==>
      forall i :: 0 <= i < |draws| ==> !Allows(current, draws[i])
    ensures forall i :: FirstAllowing(current, draws, i) ==>
      RandomAllowed(current, draws) == Some(Trial(draws[i]))
    decreases |draws|
  {
    if |draws| > 0 {
      if Allows(current, draws[0]) {
        FirstAtHead(current, draws);
      } else {
        RandomAllowedFirst(current, draws[1..]);
        SkipNone(current, draws);
        SkipFirst(current, draws);
      }
    }
  }

  /** Draw `i` is allowed and no draw before it is. */
  ghost predicate FirstAllowing(current: Mask, draws: seq<nat>, i: int) {
    0 <= i < |draws| && Allows(current, draws[i])
    && forall j :: 0 <= j < i ==> !Allows(current, draws[j])
  }

  /** An allowed first draw is the first allowing one. */
  lemma FirstAtHead(current: Mask, draws: seq<nat>)
    requires |draws| > 0 && Allows(current, draws[0])
    ensures forall i :: FirstAllowing(current, draws, i) ==> i == 0
  {
  }

  /** A refused first draw shifts the first allowing draw of the rest by one. */
  lemma SkipFirst(current: Mask, draws: seq<nat>)
    requires |draws| > 0 && !Allows(current, draws[0])
    requires forall i :: FirstAllowing(current, draws[1..], i) ==>
      RandomAllowed(current, draws[1..]) == Some(Trial(draws[1..][i]))
    ensures forall i :: FirstAllowing(current, draws, i) ==>
      RandomAllowed(current, draws) == Some(Trial(draws[i]))
  {
    forall i | FirstAllowing(current, draws, i)
      ensures RandomAllowed(current, draws) == Some(Trial(draws[i]))
    {
      SkipOne(current, draws, i);
    }
  }

  lemma SkipOne(current: Mask, draws: seq<nat>, i: int)
    requires |draws| > 0 && !Allows(current, draws[0])
    requires FirstAllowing(current, draws, i)
    ensures i > 0 && FirstAllowing(current, draws[1..], i - 1)
    ensures draws[1..][i - 1] == draws[i]
  {
    var rest := draws[1..];
    forall j | 0 <= j < i - 1 ensures !Allows(current, rest[j]) {
      assert rest[j] == draws[j + 1];
    }
  }

  /** A refused first draw before a rest with no allowing draw leaves none at all. */
  lemma SkipNone(current: Mask, draws: seq<nat>)
    requires |draws| > 0 && !Allows(current, draws[0])
    ensures (forall i :: 0 <= i < |draws[1..]| ==> !Allows(current, draws[1..][i])) <==>
      (forall i :: 0 <= i < |draws| ==> !Allows(current, draws[i]))
  {
    var rest := draws[1..];
    if forall i :: 0 <= i < |rest| ==> !Allows(current, rest[i]) {
      forall i | 0 <= i < |draws| ensures !Allows(current, draws[i]) {
        if i > 0 {
          assert draws[i] == rest[i - 1];
        }
      }
    } else {
      var k :| 0 <= k < |rest| && Allows(current, rest[k]);
      assert draws[k + 1] == rest[k];
    }
  }

  /** A trial is a fixed mask: one digit bit. */
  lemma TrialIsFixed(d: nat)
    ensures IsFixed(Trial(d)) && InRange(Trial(d))
  {
    IsFixedExactly(Trial(d));
    IsFixedIsSingleDigit(Trial(d));
  }

  /** An allowed trial keeps one of the digits `current` allows and nothing else. */
  lemma AllowedTrial(current: Mask, d: nat)
    requires Allows(current, d)
    ensures SubMask(Trial(d), current)
  {
    TrialSubMask(current, d % 9);
  }

  lemma TrialSubMask(current: Mask, k: nat)
    requires k < 9 && current & Bit(k) != 0
    ensures SubMask(Bit(k), current)
  {
  }

  /** A mask that allows some draw has a digit bit. */
  lemma AllowedHasDigit(current: Mask, d: nat)
    requires Allows(current, d)
    ensures current & AllDigits != 0
  {
    BitHitsDigits(current, d % 9);
  }

  lemma BitHitsDigits(current: Mask, k: nat)
    requires k < 9 && current & Bit(k) != 0
    ensures current & AllDigits != 0
  {
  }

  /**
    What `random_allowed` answers: a fixed mask, one of the digits of
    `current`; and only when `current` allows some digit.
  */
  lemma {:induction false} RandomAllowedSpec(current: Mask, draws: seq<nat>)
    ensures var r := RandomAllowed(current, draws);
      r.Some? ==> IsFixed(r.value) && SubMask(r.value, current) && current & AllDigits != 0
    decreases |draws|
  {
    if |draws| > 0 {
      if Allows(current, draws[0]) {
        TrialIsFixed(draws[0]);
        AllowedTrial(current, draws[0]);
        AllowedHasDigit(current, draws[0]);
      } else {
        RandomAllowedSpec(current, draws[1..]);
      }
    }
  }

  // ---------------------------------------------------------------------------
  // remove_random
  // ---------------------------------------------------------------------------

  /** Number of true entries. */
  function CountTrue(xs: seq<bool>): (n: nat)
    ensures n <= |xs|
    decreases |xs|
  {
    if |xs| == 0 then 0 else (if xs[0] then 1 else 0) + CountTrue(xs[1..])
  }

  lemma {:induction false} CountTrueUpdate(xs: seq<bool>, p: nat)
    requires p < |xs| && xs[p]
    ensures CountTrue(xs[p := false]) == CountTrue(xs) - 1
    decreases |xs|
  {
    if p > 0 {
      assert xs[p := false][1..] == xs[1..][p - 1 := false];
      CountTrueUpdate(xs[1..], p - 1);
    } else {
      assert xs[p := false][1..] == xs[1..];
    }
  }

  lemma {:induction false} CountTrueZero(xs: seq<bool>, p: nat)
    requires p < |xs| && CountTrue(xs) == 0
    ensures !xs[p]
    decreases |xs|
  {
    if p > 0 {
      CountTrueZero(xs[1..], p - 1);
    }
  }

  /** `can_remove` as first filled in: the fixed cells of `s`. */
  function Eligible(s: Board): (can: seq<bool>)
    ensures |can| == 81 && forall p :: 0 <= p < 81 ==> (can[p] <==> IsFixed(s[p]))
  {
    seq(81, p requires 0 <= p < 81 => IsFixed(s[p]))
  }

  /** The number of fixed cells, which `can_remove_count` starts at. */
  function FixedCount(s: Board): nat {
    CountTrue(Eligible(s))
  }

  /** The draws at `k` and `k + 1` give row and column of the proposed cell. */
  function Proposed(draws: seq<nat>, k: nat): Cell
    requires k + 1 < |draws|
  {
    9 * (draws[k] % 9) + draws[k + 1] % 9
  }

  /**
    The `do ... while (!can_remove[i][j])` loop: the first proposed cell
    that is still eligible, and the position after the draws it read.
  */
  function PickCell(can: seq<bool>, draws: seq<nat>, k: nat): Option<(Cell, nat)>
    requires |can| == 81
    decreases |draws| - k
  {
    if k + 1 >= |draws| then None
    else if can[Proposed(draws, k)] then Some((Proposed(draws, k), k + 2))
    else PickCell(can, draws, k + 2)
  }

  /** The picked cell is always eligible, and the loop reads draws only forwards. */
  lemma {:induction false} PickCellSpec(can: seq<bool>, draws: seq<nat>, k: nat)
    requires |can| == 81
    ensures var r := PickCell(can, draws, k);
      r.Some? ==> can[r.value.0] && k + 2 <= r.value.1 <= |draws|
    decreases |draws| - k
  {
    if k + 1 < |draws| && !can[Proposed(draws, k)] {
      PickCellSpec(can, draws, k + 2);
    }
  }

  /** What a call of `remove_random` did: whether it removed a clue, the board, and the next draw. */
  datatype Step = Step(removed: bool, board: Board, next: nat)

  /*
    The loop below is stated for any solution counter `solutions`;
    `remove_random` itself uses `count_sudoku_solutions`
    (`Solver.CountSudokuSolutions`), see `RemoveRandom`.
  */

  /** Clearing the clue at `p` leaves a board with exactly one solution. */
  predicate StillUnique(s: Board, p: Cell, solutions: Board -> nat) {
    solutions(s[p := AllDigits]) == 1
  }

  /**
    The `while (can_remove_count > 0)` loop: pick an eligible cell, clear it
    in a copy, keep the copy if it still has exactly one solution, and
    otherwise mark the cell ineligible and try again.
  */
  function RemoveLoop(s: Board, can: seq<bool>, count: nat, solutions: Board -> nat, draws: seq<nat>, k: nat): Option<Step>
    requires |can| == 81
    decreases count
  {
    if count == 0 then Some(Step(false, s, k))
    else match PickCell(can, draws, k)
      case None => None
      case Some((p, next)) =>
        if StillUnique(s, p, solutions) then Some(Step(true, s[p := AllDigits], next))
        else RemoveLoop(s, can[p := false], count - 1, solutions, draws, next)
  }

  /** `remove_random` with the solution counter `solutions`, reading draws from position `k`. */
  function RemoveWith(s: Board, solutions: Board -> nat, draws: seq<nat>, k: nat): Option<Step> {
    RemoveLoop(s, Eligible(s), FixedCount(s), solutions, draws, k)
  }

  /** `remove_random(s)`, reading draws from position `k`. */
  function RemoveRandom(s: Board, draws: seq<nat>, k: nat): Option<Step> {
    RemoveWith(s, CountSudokuSolutions, draws, k)
  }

  /** The loop's invariant: the counter matches the eligible cells, which are fixed, and every dropped fixed cell failed. */
  predicate LoopInvariant(s: Board, can: seq<bool>, count: nat, solutions: Board -> nat) {
    && |can| == 81 && count == CountTrue(can)
    && (forall p :: 0 <= p < 81 && can[p] ==> IsFixed(s[p]))
    && (forall p: Cell :: IsFixed(s[p]) && !can[p] ==> !StillUnique(s, p, solutions))
  }

  /**
    What a step reports: a removal changes exactly one cell, from a fixed
    mask to 0x1ff, and keeps the solution unique; otherwise the board is
    unchanged and clearing any one of its fixed cells would not keep
    exactly one solution.
  */
  predicate StepReport(s: Board, r: Step, solutions: Board -> nat) {
    if r.removed then
      exists p: Cell :: IsFixed(s[p]) && r.board == s[p := AllDigits] && StillUnique(s, p, solutions)
    else
      r.board == s && forall p: Cell :: IsFixed(s[p]) ==> !StillUnique(s, p, solutions)
  }

  lemma {:induction false} RemoveLoopSpec(s: Board, can: seq<bool>, count: nat, solutions: Board -> nat, draws: seq<nat>, k: nat)
    requires LoopInvariant(s, can, count, solutions)
    ensures var r := RemoveLoop(s, can, count, solutions, draws, k);
      r.Some? ==> StepReport(s, r.value, solutions) && k <= r.value.next
    decreases count
  {
    if count == 0 {
      forall p: Cell | IsFixed(s[p]) ensures !StillUnique(s, p, solutions) {
        CountTrueZero(can, p);
      }
    } else {
      PickCellSpec(can, draws, k);
      match PickCell(can, draws, k)
      case None =>
      case Some((p, next)) =>
        if !StillUnique(s, p, solutions) {
          DropInvariant(s, can, count, solutions, p);
          RemoveLoopSpec(s, can[p := false], count - 1, solutions, draws, next);
        }
    }
  }

  /** Dropping an eligible cell whose removal failed keeps the invariant, with the counter one lower. */
  lemma DropInvariant(s: Board, can: seq<bool>, count: nat, solutions: Board -> nat, p: Cell)
    requires LoopInvariant(s, can, count, solutions) && can[p] && !StillUnique(s, p, solutions)
    ensures count > 0 && LoopInvariant(s, can[p := false], count - 1, solutions)
  {
    CountTrueUpdate(can, p);
  }

  /**
    A call of `remove_random` that does not run out of draws reports
    truthfully: one fixed cell cleared with the solution still unique, or
    the board unchanged and no fixed cell removable.
  */
  lemma RemoveWithSpec(s: Board, solutions: Board -> nat, draws: seq<nat>, k: nat)
    ensures var r := RemoveWith(s, solutions, draws, k);
      r.Some? ==> StepReport(s, r.value, solutions) && k <= r.value.next
  {
    RemoveLoopSpec(s, Eligible(s), FixedCount(s), solutions, draws, k);
  }

  /** `RemoveWithSpec` for `remove_random` as written, which counts with `count_sudoku_solutions`. */
  lemma RemoveRandomSpec(s: Board, draws: seq<nat>, k: nat)
    ensures var r := RemoveRandom(s, draws, k);
      r.Some? ==> StepReport(s, r.value, CountSudokuSolutions)
  {
    RemoveWithSpec(s, CountSudokuSolutions, draws, k);
  }

  /** Clearing a fixed cell lowers the number of fixed cells by one. */
  lemma ClearLowersFixedCount(s: Board, p: Cell)
    requires IsFixed(s[p])
    ensures FixedCount(s[p := AllDigits]) == FixedCount(s) - 1
  {
    IsFixedIsSingleDigit(AllDigits);
    assert Eligible(s[p := AllDigits]) == Eligible(s)[p := false];
    CountTrueUpdate(Eligible(s), p);
  }

  /** A reported removal leaves one fixed cell fewer, and the old board refines the new one. */
  lemma RemovalShrinks(s: Board, r: Step, solutions: Board -> nat)
    requires StepReport(s, r, solutions) && r.removed
    ensures FixedCount(r.board) == FixedCount(s) - 1
    ensures Refines(s, r.board)
    ensures solutions(r.board) == 1
  {
    var p: Cell :| IsFixed(s[p]) && r.board == s[p := AllDigits] && StillUnique(s, p, solutions);
    ClearLowersFixedCount(s, p);
    IsFixedIsSingleDigit(s[p]);
    ClearRefines(s, p);
  }

  /** Clearing a cell gives a board the original refines. */
  lemma ClearRefines(s: Board, p: Cell)
    requires InRange(s[p])
    ensures Refines(s, s[p := AllDigits])
  {
    forall q | 0 <= q < 81 ensures SubMask(s[q], s[p := AllDigits][q]) {
      SubMaskReflexive(s[q]);
    }
  }

  // ---------------------------------------------------------------------------
  // while (remove_random(buffer));
  // ---------------------------------------------------------------------------

  /**
    The removal loop: call `remove_random` until it reports that nothing
    could be removed. Each removal clears one fixed cell, so the loop runs
    at most as many times as the board has fixed cells.
  */
  function RemoveAllWith(s: Board, solutions: Board -> nat, draws: seq<nat>, k: nat): Option<Board>
    decreases FixedCount(s)
  {
    match RemoveWith(s, solutions, draws, k)
    case None => None
    case Some(r) =>
      RemoveWithSpec(s, solutions, draws, k);
      if r.removed then
        RemovalShrinks(s, r, solutions);
        RemoveAllWith(r.board, solutions, draws, r.next)
      else Some(s)
  }

  /** `while (remove_random(buffer));` with `count_sudoku_solutions` as the counter. */
  function RemoveAll(s: Board, draws: seq<nat>, k: nat): Option<Board> {
    RemoveAllWith(s, CountSudokuSolutions, draws, k)
  }

  /**
    The removal loop ends on a minimal puzzle: clearing any one of its
    fixed cells would not leave exactly one solution. It only ever clears
    cells, so the input refines it; and a uniquely solvable input stays
    uniquely solvable.
  */
  lemma {:induction false} RemoveAllWithSpec(s: Board, solutions: Board -> nat, draws: seq<nat>, k: nat)
    ensures var r := RemoveAllWith(s, solutions, draws, k);
      r.Some? ==>
        && (forall p: Cell :: IsFixed(r.value[p]) ==> !StillUnique(r.value, p, solutions))
        && Refines(s, r.value)
        && (solutions(s) == 1 ==> solutions(r.value) == 1)
    decreases FixedCount(s)
  {
    RemoveWithSpec(s, solutions, draws, k);
    match RemoveWith(s, solutions, draws, k)
    case None =>
    case Some(r) =>
      if r.removed {
        RemovalShrinks(s, r, solutions);
        RemoveAllWithSpec(r.board, solutions, draws, r.next);
        if RemoveAllWith(r.board, solutions, draws, r.next).Some? {
          RefinesTransitive(s, r.board, RemoveAllWith(r.board, solutions, draws, r.next).value);
        }
      } else {
        RefinesReflexive(s);
      }
  }

  /** `RemoveAllWithSpec` for the generator as written. */
  lemma RemoveAllSpec(s: Board, draws: seq<nat>, k: nat)
    ensures var r := RemoveAll(s, draws, k);
      r.Some? ==>
        && (forall p: Cell :: IsFixed(r.value[p]) ==> CountSudokuSolutions(r.value[p := AllDigits]) != 1)
        && Refines(s, r.value)
        && (CountSudokuSolutions(s) == 1 ==> CountSudokuSolutions(r.value) == 1)
  {
    RemoveAllWithSpec(s, CountSudokuSolutions, draws, k);
  }
}
