/**
  The backtracking search of the C solver (solver.c `_solve`). `_solve`
  propagates to a stable board, classifies it, and otherwise branches on
  the first cell with the fewest candidates, trying its digits in
  ascending order. Its effects are returned as an
  `Outcome`: the count it returns, the board it leaves in `s` when that
  count is positive, and the boards handed to the collector, in call order.
*/
module Search {
  import opened Optional
  import opened Masks
  import opened Board
  import opened Propagation

  // ---------------------------------------------------------------------------
  // Branch selection (solver.c:118-135)
  // ---------------------------------------------------------------------------

  /** `count_bits` of every cell, in row-major order. */
  function Counts(b: Board): (c: seq<nat>)
    ensures |c| == 81 && forall q :: 0 <= q < 81 ==> c[q] == CountBits(b[q])
  {
    seq(81, q requires 0 <= q < 81 => CountBits(b[q]))
  }

  /**
    `p` is the first position among those whose count is the smallest
    count above one.
  */
  predicate FirstFewest(c: seq<nat>, p: nat) {
    && p < |c| && c[p] > 1
    && (forall q :: 0 <= q < |c| && c[q] > 1 ==> c[p] <= c[q])
    && (forall q :: 0 <= q < p && c[q] > 1 ==> c[p] < c[q])
  }

  /** The selection loop from cell `k` on, with the best count and cell so far. */
  function ScanFrom(c: seq<nat>, k: nat, best: nat, choice: Option<Cell>): Option<Cell>
    requires |c| == 81 && k <= 81
    decreases 81 - k
  {
    if k == 81 then choice
    else if c[k] < best && c[k] > 1 then ScanFrom(c, k + 1, c[k], Some(k))
    else ScanFrom(c, k + 1, best, choice)
  }

  /**
    The cell `_solve` branches on; None when `simplest_n_bits` is still 10
    after the scan, where `_solve` returns 0.
  */
  function SelectBranch(b: Board): Option<Cell> {
    ScanFrom(Counts(b), 0, 10, None)
  }

  /** What the selection loop knows after scanning positions `0 .. k-1`. */
  predicate ScanInvariant(c: seq<nat>, k: nat, best: nat, choice: Option<Cell>)
    requires |c| == 81 && k <= 81
  {
    match choice
    case None => best == 10 && forall q :: 0 <= q < k ==> c[q] <= 1
    case Some(p) =>
      && p < k && best == c[p] && best > 1
      && (forall q :: 0 <= q < k && c[q] > 1 ==> best <= c[q])
      && (forall q :: 0 <= q < p && c[q] > 1 ==> best < c[q])
  }

  lemma {:induction false} ScanFromSpec(c: seq<nat>, k: nat, best: nat, choice: Option<Cell>)
    requires |c| == 81 && k <= 81 && ScanInvariant(c, k, best, choice)
    requires forall q :: 0 <= q < 81 ==> c[q] <= 9
    ensures var r := ScanFrom(c, k, best, choice);
      && (r.None? <==> forall q :: 0 <= q < 81 ==> c[q] <= 1)
      && (r.Some? ==> FirstFewest(c, r.value))
    decreases 81 - k
  {
    if k < 81 {
      if c[k] < best && c[k] > 1 {
        ScanFromSpec(c, k + 1, c[k], Some(k));
      } else {
        ScanFromSpec(c, k + 1, best, choice);
      }
    }
  }

  /** At most one position is the first with the fewest candidates. */
  lemma FirstFewestUnique(c: seq<nat>, p: nat, q: nat)
    requires FirstFewest(c, p) && FirstFewest(c, q)
    ensures p == q
  {
  }

  /**
    Branch selection picks exactly the first cell, in row-major order, with
    the fewest candidates above one, and gives up exactly when no cell has
    two or more candidates.
  */
  lemma SelectBranchSpec(b: Board)
    ensures SelectBranch(b).None? <==> forall q :: 0 <= q < 81 ==> CountBits(b[q]) <= 1
    ensures forall p: Cell :: SelectBranch(b) == Some(p) <==> FirstFewest(Counts(b), p)
  {
    var c := Counts(b);
    ScanFromSpec(c, 0, 10, None);
    forall p: Cell | FirstFewest(c, p) ensures SelectBranch(b) == Some(p) {
      FirstFewestUnique(c, p, SelectBranch(b).value);
    }
  }

  lemma SelectedIsOpen(s: Board, p: Cell)
    requires SelectBranch(s) == Some(p)
    ensures CountBits(s[p]) > 1
  {
    SelectBranchSpec(s);
    assert FirstFewest(Counts(s), p);
  }

  /** A well-formed board with no empty cell and some open cell always offers a branch. */
  lemma OpenBoardHasBranch(b: Board)
    requires WellFormed(b) && !HasEmpty(b) && !AllFixed(b)
    ensures SelectBranch(b).Some?
  {
    var q :| 0 <= q < 81 && !IsFixed(b[q]);
    AmbiguousHasTwo(b[q]);
    SelectBranchSpec(b);
  }

  // ---------------------------------------------------------------------------
  // Branches (solver.c:143-169)
  // ---------------------------------------------------------------------------

  /** Bit `i` of `x` is set, as the test `((*simplest) >> i) & 1` reads it. */
  predicate HasDigit(x: Mask, i: nat)
    requires i < 16
  {
    LowBitSet(x >> i)
  }

  lemma HasDigitIsSubMask(x: Mask, i: nat)
    requires i < 16
    ensures HasDigit(x, i) <==> SubMask(Bit(i), x)
  {
  }

  lemma BitInjective(i: nat, j: nat)
    requires i < 16 && j < 16 && i != j
    ensures Bit(i) != Bit(j)
  {
  }

  lemma BitFixed(i: nat)
    requires i < 9
    ensures IsFixed(Bit(i)) && InRange(Bit(i)) && CountBits(Bit(i)) == 1
  {
    IsFixedExactly(Bit(i));
    FixedIffOneDigit(Bit(i));
  }

  /**
    The board of one branch: the stable board `s` with cell `p` narrowed to
    the single digit `i + 1` and every other cell as it is.
  */
  function Guess(s: Board, p: Cell, i: nat): Board
    requires i < 9
  {
    s[p := Bit(i)]
  }

  /** The branch allows less than the stable board, and strictly less. */
  lemma GuessSpec(s: Board, p: Cell, i: nat)
    requires i < 9 && HasDigit(s[p], i) && CountBits(s[p]) > 1
    ensures Refines(Guess(s, p, i), s) && Guess(s, p, i) != s
    ensures Total(Guess(s, p, i)) < Total(s)
  {
    var r := Guess(s, p, i);
    BitFixed(i);
    HasDigitIsSubMask(s[p], i);
    forall q | 0 <= q < 81 ensures SubMask(r[q], s[q]) {
      SubMaskReflexive(s[q]);
    }
    RefinesTotal(r, s);
  }

  /** A solution lies below a branch exactly when it lies below the stable board and has the branch's digit. */
  lemma GuessSolutions(s: Board, p: Cell, i: nat, g: Board)
    requires i < 9 && HasDigit(s[p], i) && CountBits(s[p]) > 1
    requires IsSolution(g)
    ensures Refines(g, Guess(s, p, i)) <==> Refines(g, s) && g[p] == Bit(i)
  {
    var r := Guess(s, p, i);
    BitFixed(i);
    GuessSpec(s, p, i);
    if Refines(g, r) {
      FixedSubMask(g[p], Bit(i));
      RefinesTransitive(g, r, s);
    }
    if Refines(g, s) && g[p] == Bit(i) {
      SubMaskReflexive(Bit(i));
    }
  }

  // ---------------------------------------------------------------------------
  // _solve
  // ---------------------------------------------------------------------------

  /**
    What one call of `_solve` produces: the count it returns, the board it
    leaves in `s` when that count is positive (None when it is 0), and the
    boards passed to the collector, in call order.
  */
  datatype Outcome = Outcome(count: nat, solution: Option<Board>, emitted: seq<Board>)

  /** The state before the first branch: no solution counted, none recorded. */
  const NoOutcome := Outcome(0, None, [])

  /**
    How the parts of an outcome fit together: a positive count comes with a
    board in `s`; with a collector there is one call per counted solution
    and `s` holds the last one collected; without one nothing is collected;
    in first-solution mode the count is 0 or 1.
  */
  predicate Shaped(o: Outcome, unique: bool, collect: bool) {
    && (o.count > 0 <==> o.solution.Some?)
    && (if collect then |o.emitted| == o.count else o.emitted == [])
    && (collect && o.count > 0 ==> o.solution == Some(o.emitted[|o.emitted| - 1]))
    && (!unique ==> o.count <= 1)
  }

  /** Recording a successful branch after `acc` keeps the outcome well formed. */
  lemma ShapedAdd(acc: Outcome, sub: Outcome, unique: bool, collect: bool)
    requires Shaped(acc, unique, collect) && Shaped(sub, unique, collect) && sub.count > 0
    requires !unique ==> acc.count == 0
    ensures Shaped(Outcome(acc.count + sub.count, sub.solution, acc.emitted + sub.emitted), unique, collect)
  {
  }

  /** Every board an outcome reports is a solution below `b`. */
  predicate Below(o: Outcome, b: Board) {
    && (o.solution.Some? ==> IsSolution(o.solution.value) && Refines(o.solution.value, b))
    && (forall e :: e in o.emitted ==> IsSolution(e) && Refines(e, b))
  }

  lemma BelowWeaken(o: Outcome, a: Board, b: Board)
    requires Below(o, a) && Refines(a, b)
    ensures Below(o, b)
  {
    if o.solution.Some? {
      RefinesTransitive(o.solution.value, a, b);
    }
    forall e | e in o.emitted ensures Refines(e, b) {
      RefinesTransitive(e, a, b);
    }
  }

  /**
    `_solve(b, check_unique, collect, arg)` with `unique` for
    `check_unique` and `collect` for a non-NULL collector.
  */
  function Solve(b: Board, unique: bool, collect: bool): (o: Outcome)
    ensures Shaped(o, unique, collect)
    decreases Total(b), 2
  {
    var s := Settle(b);
    SettleSpec(b);
    RefinesTotal(s, b);
    var status := CheckSolution(s);
    if status == SudokuDone then
      Outcome(1, Some(s), if collect then [s] else [])
    else if status == SudokuError then
      NoOutcome
    else
      match SelectBranch(s)
      case None => NoOutcome
      case Some(p) =>
        SelectedIsOpen(s, p);
        Combine(Branches(s, p, unique, collect), 0, unique, collect, NoOutcome)
  }

  /**
    What `_solve` gives on the branch that fixes cell `p` of the stable
    board `s` to digit `i + 1`; a digit that is not a candidate of `p` is
    skipped by the loop, which the empty outcome stands for.
  */
  function Branch(s: Board, p: Cell, i: nat, unique: bool, collect: bool): (o: Outcome)
    requires i < 9 && CountBits(s[p]) > 1
    ensures Shaped(o, unique, collect)
    ensures !HasDigit(s[p], i) ==> o == NoOutcome
    decreases Total(s), 0
  {
    if HasDigit(s[p], i) then
      GuessSpec(s, p, i);
      Solve(Guess(s, p, i), unique, collect)
    else NoOutcome
  }

  /** The outcomes of the nine branches, in the order the loop tries them. */
  function Branches(s: Board, p: Cell, unique: bool, collect: bool): (r: seq<Outcome>)
    requires CountBits(s[p]) > 1
    ensures |r| == 9 && forall i :: 0 <= i < 9 ==> r[i] == Branch(s, p, i, unique, collect)
    decreases Total(s), 1
  {
    seq(9, i requires 0 <= i < 9 => Branch(s, p, i, unique, collect))
  }

  /**
    The loop over the branches from `subs[i]` on, with `acc` what the
    earlier branches produced. A branch that returns 0 collects nothing and
    leaves `acc` as it is. In first-solution mode the first successful
    branch ends the loop and its board is left in `s`; otherwise the counts
    add up, the collected boards are appended, and `a_solution` is the last
    successful branch's board.
  */
  function Combine(subs: seq<Outcome>, i: nat, unique: bool, collect: bool, acc: Outcome): (o: Outcome)
    requires i <= |subs|
    requires forall k :: 0 <= k < |subs| ==> Shaped(subs[k], unique, collect)
    requires Shaped(acc, unique, collect) && (!unique ==> acc.count == 0)
    ensures Shaped(o, unique, collect)
    decreases |subs| - i
  {
    if i == |subs| then acc
    else if subs[i].count == 0 then Combine(subs, i + 1, unique, collect, acc)
    else
      ShapedAdd(acc, subs[i], unique, collect);
      if !unique then Outcome(1, subs[i].solution, acc.emitted + subs[i].emitted)
      else Combine(subs, i + 1, unique, collect, Outcome(acc.count + subs[i].count, subs[i].solution, acc.emitted + subs[i].emitted))
  }
}
