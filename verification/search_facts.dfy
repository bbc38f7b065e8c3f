/**
  Properties of the backtracking search. Every board `_solve` reports is a
  solution below its input; the branch loop adds up, or stops at, the
  results of the branches; and on a well-formed board the collector sees
  every solution exactly once, while the first-solution mode answers the
  first of them.
*/
module SearchFacts {
  import opened Optional
  import opened Masks
  import opened Board
  import opened Propagation
  import opened Search
  import opened Sequences

  // ---------------------------------------------------------------------------
  // The branch loop against reference sums
  // ---------------------------------------------------------------------------

  /** The total count of the branches from `subs[i]` on. */
  function CountFrom(subs: seq<Outcome>, i: nat): nat
    requires i <= |subs|
    decreases |subs| - i
  {
    if i == |subs| then 0 else subs[i].count + CountFrom(subs, i + 1)
  }

  /** The boards the branches from `subs[i]` on collect, one branch after another. */
  function EmittedFrom(subs: seq<Outcome>, i: nat): seq<Board>
    requires i <= |subs|
    decreases |subs| - i
  {
    if i == |subs| then [] else subs[i].emitted + EmittedFrom(subs, i + 1)
  }

  /** The board of the last successful branch from `subs[i]` on, `last` if there is none. */
  function LastSolution(subs: seq<Outcome>, i: nat, last: Option<Board>): Option<Board>
    requires i <= |subs|
    decreases |subs| - i
  {
    if i == |subs| then last
    else LastSolution(subs, i + 1, if subs[i].count > 0 then subs[i].solution else last)
  }

  /** The board of the first successful branch from `subs[i]` on, None if there is none. */
  function FirstSolution(subs: seq<Outcome>, i: nat): Option<Board>
    requires i <= |subs|
    decreases |subs| - i
  {
    if i == |subs| then None
    else if subs[i].count > 0 then subs[i].solution
    else FirstSolution(subs, i + 1)
  }

  /**
    When counting, the loop's result is `acc` followed by the sum of the
    branches: the counts add, the collected boards concatenate, and `s`
    ends with the last successful branch's board.
  */
  lemma {:induction false} CombineCounting(subs: seq<Outcome>, i: nat, collect: bool, acc: Outcome)
    requires i <= |subs|
    requires forall k :: 0 <= k < |subs| ==> Shaped(subs[k], true, collect)
    requires Shaped(acc, true, collect)
    ensures var o := Combine(subs, i, true, collect, acc);
      && o.count == acc.count + CountFrom(subs, i)
      && o.emitted == acc.emitted + EmittedFrom(subs, i)
      && o.solution == LastSolution(subs, i, acc.solution)
    decreases |subs| - i
  {
    if i == |subs| {
      assert acc.emitted + [] == acc.emitted;
    } else {
      CountingStep(subs, i, collect, acc);
      CombineCounting(subs, i + 1, collect, Absorb(acc, subs[i]));
    }
  }

  /** What the counting loop keeps after branch `sub`. */
  function Absorb(acc: Outcome, sub: Outcome): Outcome {
    if sub.count == 0 then acc else Outcome(acc.count + sub.count, sub.solution, acc.emitted + sub.emitted)
  }

  /** One branch of the counting loop, against one step of the reference sums. */
  lemma CountingStep(subs: seq<Outcome>, i: nat, collect: bool, acc: Outcome)
    requires i < |subs|
    requires forall k :: 0 <= k < |subs| ==> Shaped(subs[k], true, collect)
    requires Shaped(acc, true, collect)
    ensures var next := Absorb(acc, subs[i]);
      && Shaped(next, true, collect)
      && Combine(subs, i, true, collect, acc) == Combine(subs, i + 1, true, collect, next)
      && next.count + CountFrom(subs, i + 1) == acc.count + CountFrom(subs, i)
      && next.emitted + EmittedFrom(subs, i + 1) == acc.emitted + EmittedFrom(subs, i)
      && LastSolution(subs, i + 1, next.solution) == LastSolution(subs, i, acc.solution)
  {
    var sub := subs[i];
    if sub.count == 0 {
      assert sub.emitted == [];
      assert EmittedFrom(subs, i) == EmittedFrom(subs, i + 1);
    } else {
      ShapedAdd(acc, sub, true, collect);
      ConcatAssoc(acc.emitted, sub.emitted, EmittedFrom(subs, i + 1));
    }
  }

  lemma ConcatAssoc<T>(a: seq<T>, b: seq<T>, c: seq<T>)
    ensures a + b + c == a + (b + c)
  {
  }

  /**
    Looking for one solution, the loop answers 1 with the first successful
    branch's board when some branch succeeds, and 0 otherwise.
  */
  lemma {:induction false} CombineFirst(subs: seq<Outcome>, i: nat, collect: bool)
    requires i <= |subs|
    requires forall k :: 0 <= k < |subs| ==> Shaped(subs[k], false, collect)
    ensures var o := Combine(subs, i, false, collect, NoOutcome);
      && o.count == (if CountFrom(subs, i) > 0 then 1 else 0)
      && o.solution == FirstSolution(subs, i)
    decreases |subs| - i
  {
    if i < |subs| && subs[i].count == 0 {
      CombineFirst(subs, i + 1, collect);
    }
  }

  // ---------------------------------------------------------------------------
  // Unfolding _solve
  // ---------------------------------------------------------------------------

  /** A board that propagation completes is the one solution, reported once. */
  lemma SolveDone(b: Board, unique: bool, collect: bool)
    requires CheckSolution(Settle(b)) == SudokuDone
    ensures Solve(b, unique, collect) == Outcome(1, Some(Settle(b)), if collect then [Settle(b)] else [])
  {
  }

  /** A contradiction, or no cell to branch on, ends the search with nothing. */
  lemma SolveStuck(b: Board, unique: bool, collect: bool)
    requires CheckSolution(Settle(b)) != SudokuDone
    requires CheckSolution(Settle(b)) == SudokuError || SelectBranch(Settle(b)).None?
    ensures Solve(b, unique, collect) == NoOutcome
  {
  }

  /** Otherwise the search is the branch loop over the selected cell. */
  lemma SolveOpen(b: Board, p: Cell, unique: bool, collect: bool)
    requires CheckSolution(Settle(b)) != SudokuDone && CheckSolution(Settle(b)) != SudokuError
    requires SelectBranch(Settle(b)) == Some(p)
    ensures CountBits(Settle(b)[p]) > 1
    ensures Solve(b, unique, collect) == Combine(Branches(Settle(b), p, unique, collect), 0, unique, collect, NoOutcome)
  {
    SelectedIsOpen(Settle(b), p);
  }

  // ---------------------------------------------------------------------------
  // Soundness
  // ---------------------------------------------------------------------------

  lemma {:induction false} CombineBelow(subs: seq<Outcome>, i: nat, unique: bool, collect: bool, acc: Outcome, b: Board)
    requires i <= |subs|
    requires forall k :: 0 <= k < |subs| ==> Shaped(subs[k], unique, collect) && Below(subs[k], b)
    requires Shaped(acc, unique, collect) && (!unique ==> acc.count == 0) && Below(acc, b)
    ensures Below(Combine(subs, i, unique, collect, acc), b)
    decreases |subs| - i
  {
    if i < |subs| {
      if subs[i].count == 0 {
        CombineBelow(subs, i + 1, unique, collect, acc, b);
      } else if unique {
        var sub := subs[i];
        ShapedAdd(acc, sub, unique, collect);
        CombineBelow(subs, i + 1, unique, collect, Outcome(acc.count + sub.count, sub.solution, acc.emitted + sub.emitted), b);
      }
    }
  }

  /** Soundness: every board `_solve` reports is a solution that refines its input. */
  lemma {:induction false} SolveBelow(b: Board, unique: bool, collect: bool)
    ensures Below(Solve(b, unique, collect), b)
    decreases Total(b), 2
  {
    var s := Settle(b);
    SettleSpec(b);
    RefinesTotal(s, b);
    CheckSolutionCases(s);
    if CheckSolution(s) == SudokuDone {
      SolveDone(b, unique, collect);
      StableFixedIsSolution(s);
    } else if CheckSolution(s) == SudokuError || SelectBranch(s).None? {
      SolveStuck(b, unique, collect);
    } else {
      var p := SelectBranch(s).value;
      SolveOpen(b, p, unique, collect);
      OpenBelow(s, p, unique, collect);
      BelowWeaken(Solve(b, unique, collect), s, b);
    }
  }

  lemma {:induction false} OpenBelow(s: Board, p: Cell, unique: bool, collect: bool)
    requires CountBits(s[p]) > 1
    ensures Below(Combine(Branches(s, p, unique, collect), 0, unique, collect, NoOutcome), s)
    decreases Total(s), 1
  {
    var subs := Branches(s, p, unique, collect);
    forall k | 0 <= k < 9 ensures Below(subs[k], s) {
      BranchBelow(s, p, k, unique, collect);
    }
    CombineBelow(subs, 0, unique, collect, NoOutcome, s);
  }

  /** Every board a branch reports is a solution below the branch, so below `s`. */
  lemma {:induction false} BranchBelow(s: Board, p: Cell, i: nat, unique: bool, collect: bool)
    requires i < 9 && CountBits(s[p]) > 1
    ensures Below(Branch(s, p, i, unique, collect), s)
    ensures HasDigit(s[p], i) ==> Below(Branch(s, p, i, unique, collect), Guess(s, p, i))
    decreases Total(s), 0
  {
    if HasDigit(s[p], i) {
      GuessSpec(s, p, i);
      SolveBelow(Guess(s, p, i), unique, collect);
      BelowWeaken(Branch(s, p, i, unique, collect), Guess(s, p, i), s);
    }
  }

  // ---------------------------------------------------------------------------
  // The three modes agree
  // ---------------------------------------------------------------------------

  /** Counting without a collector gives the count and board of counting with one. */
  predicate CountsAgree(all: Outcome, counted: Outcome) {
    counted.count == all.count && counted.solution == all.solution
  }

  /**
    The first-solution mode answers 1 exactly when counting finds a
    solution, with the first board the collector would receive.
  */
  predicate FirstOf(all: Outcome, first: Outcome) {
    && first.count == (if all.count > 0 then 1 else 0)
    && (all.count > 0 ==> |all.emitted| > 0 && first.solution == Some(all.emitted[0]))
  }

  lemma {:induction false} SameCounts(x: seq<Outcome>, y: seq<Outcome>, i: nat, last: Option<Board>)
    requires |x| == |y| && i <= |x|
    requires forall k :: 0 <= k < |x| ==> CountsAgree(x[k], y[k])
    ensures CountFrom(x, i) == CountFrom(y, i) && LastSolution(x, i, last) == LastSolution(y, i, last)
    decreases |x| - i
  {
    if i < |x| {
      assert CountsAgree(x[i], y[i]);
      SameCounts(x, y, i + 1, if x[i].count > 0 then x[i].solution else last);
    }
  }

  lemma {:induction false} FirstCountOfAll(all: seq<Outcome>, first: seq<Outcome>, i: nat)
    requires |first| == |all| && i <= |all|
    requires forall k :: 0 <= k < |all| ==> FirstOf(all[k], first[k])
    ensures CountFrom(first, i) > 0 <==> CountFrom(all, i) > 0
    decreases |all| - i
  {
    if i < |all| {
      assert FirstOf(all[i], first[i]);
      FirstCountOfAll(all, first, i + 1);
    }
  }

  lemma {:induction false} FirstBoardOfAll(all: seq<Outcome>, first: seq<Outcome>, i: nat)
    requires |first| == |all| && i <= |all|
    requires forall k :: 0 <= k < |all| ==> Shaped(all[k], true, true)
    requires forall k :: 0 <= k < |all| ==> FirstOf(all[k], first[k])
    ensures CountFrom(all, i) > 0 ==>
      |EmittedFrom(all, i)| > 0 && FirstSolution(first, i) == Some(EmittedFrom(all, i)[0])
    decreases |all| - i
  {
    if i < |all| {
      assert FirstOf(all[i], first[i]) && Shaped(all[i], true, true);
      FirstBoardOfAll(all, first, i + 1);
      if all[i].count == 0 {
        EmptyConcat(all[i].emitted, EmittedFrom(all, i + 1));
      } else {
        assert EmittedFrom(all, i)[0] == all[i].emitted[0];
      }
    }
  }

  lemma EmptyConcat<T>(x: seq<T>, y: seq<T>)
    requires x == []
    ensures x + y == y
  {
  }

  lemma CombineCountsAgree(all: seq<Outcome>, counted: seq<Outcome>)
    requires |all| == |counted|
    requires forall k :: 0 <= k < |all| ==> Shaped(all[k], true, true) && Shaped(counted[k], true, false)
    requires forall k :: 0 <= k < |all| ==> CountsAgree(all[k], counted[k])
    ensures CountsAgree(Combine(all, 0, true, true, NoOutcome), Combine(counted, 0, true, false, NoOutcome))
  {
    CombineCounting(all, 0, true, NoOutcome);
    CombineCounting(counted, 0, false, NoOutcome);
    SameCounts(all, counted, 0, None);
  }

  lemma CombineFirstOf(all: seq<Outcome>, first: seq<Outcome>)
    requires |all| == |first|
    requires forall k :: 0 <= k < |all| ==> Shaped(all[k], true, true) && Shaped(first[k], false, false)
    requires forall k :: 0 <= k < |all| ==> FirstOf(all[k], first[k])
    ensures FirstOf(Combine(all, 0, true, true, NoOutcome), Combine(first, 0, false, false, NoOutcome))
  {
    CombineCounting(all, 0, true, NoOutcome);
    CombineFirst(first, 0, false);
    FirstCountOfAll(all, first, 0);
    FirstBoardOfAll(all, first, 0);
    EmptyConcat([], EmittedFrom(all, 0));
  }

  /** Counting with or without a collector, or stopping at the first solution, explores the same tree. */
  lemma {:induction false} SolveModes(b: Board)
    ensures CountsAgree(Solve(b, true, true), Solve(b, true, false))
    ensures FirstOf(Solve(b, true, true), Solve(b, false, false))
    decreases Total(b), 2
  {
    var s := Settle(b);
    SettleSpec(b);
    RefinesTotal(s, b);
    if CheckSolution(s) == SudokuDone {
      SolveDone(b, true, true);
      SolveDone(b, true, false);
      SolveDone(b, false, false);
    } else if CheckSolution(s) == SudokuError || SelectBranch(s).None? {
      SolveStuck(b, true, true);
      SolveStuck(b, true, false);
      SolveStuck(b, false, false);
    } else {
      var p := SelectBranch(s).value;
      SolveOpen(b, p, true, true);
      SolveOpen(b, p, true, false);
      SolveOpen(b, p, false, false);
      OpenModes(s, p);
    }
  }

  lemma {:induction false} OpenModes(s: Board, p: Cell)
    requires CountBits(s[p]) > 1
    ensures var all := Combine(Branches(s, p, true, true), 0, true, true, NoOutcome);
      && CountsAgree(all, Combine(Branches(s, p, true, false), 0, true, false, NoOutcome))
      && FirstOf(all, Combine(Branches(s, p, false, false), 0, false, false, NoOutcome))
    decreases Total(s), 1
  {
    var all, counted, first := Branches(s, p, true, true), Branches(s, p, true, false), Branches(s, p, false, false);
    forall k | 0 <= k < 9 ensures CountsAgree(all[k], counted[k]) && FirstOf(all[k], first[k]) {
      BranchModes(s, p, k);
    }
    CombineCountsAgree(all, counted);
    CombineFirstOf(all, first);
  }

  lemma {:induction false} BranchModes(s: Board, p: Cell, i: nat)
    requires i < 9 && CountBits(s[p]) > 1
    ensures CountsAgree(Branch(s, p, i, true, true), Branch(s, p, i, true, false))
    ensures FirstOf(Branch(s, p, i, true, true), Branch(s, p, i, false, false))
    decreases Total(s), 0
  {
    if HasDigit(s[p], i) {
      GuessSpec(s, p, i);
      SolveModes(Guess(s, p, i));
    }
  }

  // ---------------------------------------------------------------------------
  // Every solution exactly once
  // ---------------------------------------------------------------------------

  lemma {:induction false} EmittedFromDistinct(subs: seq<Outcome>, i: nat, p: Cell)
    requires |subs| == 9 && i <= 9
    requires forall k :: i <= k < 9 ==> Distinct(subs[k].emitted)
    requires forall k, e :: i <= k < 9 && e in subs[k].emitted ==> e[p] == Bit(k)
    ensures Distinct(EmittedFrom(subs, i))
    ensures forall e :: e in EmittedFrom(subs, i) ==> exists k :: i <= k < 9 && e[p] == Bit(k)
    decreases 9 - i
  {
    if i < 9 {
      EmittedFromDistinct(subs, i + 1, p);
      var x, y := subs[i].emitted, EmittedFrom(subs, i + 1);
      forall e | e in y ensures e[p] != Bit(i) {
        var k :| i + 1 <= k < 9 && e[p] == Bit(k);
        BitInjective(i, k);
      }
      DistinctConcat(x, y);
      forall e | e in x + y ensures exists k :: i <= k < 9 && e[p] == Bit(k) {
        if e in x {
          assert e[p] == Bit(i);
        }
      }
    }
  }

  lemma {:induction false} EmittedFromMember(subs: seq<Outcome>, i: nat, k: nat, g: Board)
    requires i <= k < |subs| && g in subs[k].emitted
    ensures g in EmittedFrom(subs, i)
    decreases k - i
  {
    if i < k {
      EmittedFromMember(subs, i + 1, k, g);
    }
  }

  /** The collector never receives the same board twice. */
  lemma {:induction false} SolveDistinct(b: Board)
    ensures Distinct(Solve(b, true, true).emitted)
    decreases Total(b), 2
  {
    var s := Settle(b);
    SettleSpec(b);
    RefinesTotal(s, b);
    if CheckSolution(s) == SudokuDone {
      SolveDone(b, true, true);
    } else if CheckSolution(s) == SudokuError || SelectBranch(s).None? {
      SolveStuck(b, true, true);
    } else {
      var p := SelectBranch(s).value;
      SolveOpen(b, p, true, true);
      OpenDistinct(s, p);
    }
  }

  lemma {:induction false} OpenDistinct(s: Board, p: Cell)
    requires CountBits(s[p]) > 1
    ensures Distinct(Combine(Branches(s, p, true, true), 0, true, true, NoOutcome).emitted)
    decreases Total(s), 1
  {
    var subs := Branches(s, p, true, true);
    forall k | 0 <= k < 9
      ensures Distinct(subs[k].emitted)
      ensures forall e :: e in subs[k].emitted ==> e[p] == Bit(k)
    {
      BranchDistinct(s, p, k);
    }
    CombineCounting(subs, 0, true, NoOutcome);
    EmittedFromDistinct(subs, 0, p);
    EmptyConcat([], EmittedFrom(subs, 0));
  }

  /** A branch collects distinct boards, each with the branch's digit in cell `p`. */
  lemma {:induction false} BranchDistinct(s: Board, p: Cell, i: nat)
    requires i < 9 && CountBits(s[p]) > 1
    ensures Distinct(Branch(s, p, i, true, true).emitted)
    ensures forall e :: e in Branch(s, p, i, true, true).emitted ==> e[p] == Bit(i)
    decreases Total(s), 0
  {
    if HasDigit(s[p], i) {
      GuessSpec(s, p, i);
      SolveDistinct(Guess(s, p, i));
      BranchBelow(s, p, i, true, true);
      BitFixed(i);
      forall e | e in Branch(s, p, i, true, true).emitted ensures e[p] == Bit(i) {
        FixedSubMask(e[p], Bit(i));
      }
    }
  }

  lemma SubMaskOfEmpty(x: Mask)
    requires SubMask(x, 0)
    ensures x == 0
  {
  }

  /** A board with a solution below it has no empty cell. */
  lemma EmptyHasNoSolution(s: Board, g: Board)
    requires IsSolution(g) && Refines(g, s)
    ensures !HasEmpty(s)
  {
    forall q | 0 <= q < 81 ensures s[q] != 0 {
      if s[q] == 0 {
        SubMaskOfEmpty(g[q]);
        IsFixedExactly(g[q]);
      }
    }
  }

  /** A fully fixed board has no solution below it other than itself. */
  lemma FixedHasOnlyItself(s: Board, g: Board)
    requires AllFixed(s) && IsSolution(g) && Refines(g, s)
    ensures g == s
  {
    forall q | 0 <= q < 81 ensures g[q] == s[q] {
      FixedSubMask(g[q], s[q]);
    }
  }

  /**
    Completeness: on a well-formed board, every solution below it reaches
    the collector.
  */
  lemma {:induction false} SolveComplete(b: Board, g: Board)
    requires WellFormed(b) && IsSolution(g) && Refines(g, b)
    ensures g in Solve(b, true, true).emitted
    decreases Total(b), 2
  {
    var s := Settle(b);
    SettleSpec(b);
    RefinesTotal(s, b);
    SettleKeepsSolution(b, g);
    RefinesWellFormed(s, b);
    CheckSolutionCases(s);
    EmptyHasNoSolution(s, g);
    if AllFixed(s) {
      FixedHasOnlyItself(s, g);
      SolveDone(b, true, true);
    } else {
      OpenBoardHasBranch(s);
      var p := SelectBranch(s).value;
      SolveOpen(b, p, true, true);
      OpenComplete(s, p, g);
    }
  }

  lemma {:induction false} OpenComplete(s: Board, p: Cell, g: Board)
    requires CountBits(s[p]) > 1 && WellFormed(s)
    requires IsSolution(g) && Refines(g, s)
    ensures g in Combine(Branches(s, p, true, true), 0, true, true, NoOutcome).emitted
    decreases Total(s), 1
  {
    assert IsFixed(g[p]);
    var k := SingleDigitIndex(g[p]);
    BranchComplete(s, p, k, g);
    var subs := Branches(s, p, true, true);
    CombineCounting(subs, 0, true, NoOutcome);
    EmittedFromMember(subs, 0, k, g);
  }

  /** A solution with digit `k + 1` in cell `p` reaches the collector from branch `k`. */
  lemma {:induction false} BranchComplete(s: Board, p: Cell, k: nat, g: Board)
    requires k < 9 && CountBits(s[p]) > 1 && WellFormed(s)
    requires IsSolution(g) && Refines(g, s) && g[p] == Bit(k)
    ensures g in Branch(s, p, k, true, true).emitted
    decreases Total(s), 0
  {
    HasDigitIsSubMask(s[p], k);
    GuessSpec(s, p, k);
    GuessSolutions(s, p, k, g);
    RefinesWellFormed(Guess(s, p, k), s);
    SolveComplete(Guess(s, p, k), g);
  }
}
