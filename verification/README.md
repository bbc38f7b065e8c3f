# Sudoku solvers and generator, modelled in Dafny

This project models the core of a small Sudoku toolkit in two parts.

The C part models these pieces:

- A board is 81 cells. Each cell is a 16-bit mask (`field_t`) in which bit `k` set means digit `k + 1` is still possible. A cell is *fixed* when exactly one digit bit is set.
- The bit helpers `is_fixed`, `bits2number`, `number2bits`, `count_bits` and `sudoku_cmp`.
- The board operations `all_are_fixed`, `fill_bits` and `clear_sudoku`.
- The text parser `fill_sudoku_from_string` and the printer `print_sudoku`.
- The solver: the propagation pass `iterate_sudoku`, `check_solution`, the backtracking search `_solve`, and its three wrappers `solve_sudoku`, `count_sudoku_solutions` and `collect_all_solutions`.
- The clue-removal phase of the generator: `random_allowed`, `remove_random` and the loop that calls it until nothing more can be removed.

The Python part models Peter Norvig's constraint-propagation solver (sudoku.py):

- the tables `squares`, `unitlist`, `units` and `peers`, and the facts its `test()` function checks;
- `assign` and `eliminate`;
- `grid_values`, `parse_grid`, `search`, `some` and `solve`;
- the character loop of `grid_from_file`.

Modules, one file each:

| file | module | what |
|---|---|---|
| optional.dfy | Optional | `Option` |
| sequences.dfy | Sequences | sequences without repeats, and their number of distinct elements |
| masks.dfy | Masks | cell masks: `is_fixed`, `bits2number`, `number2bits`, `count_bits` |
| board.dfy | Board | boards, refinement, `sudoku_cmp`, `clear_sudoku`, `fill_bits`, `all_are_fixed` |
| codec.dfy | Codec | `fill_sudoku_from_string` |
| printing.dfy | Printing | `print_sudoku`, and the round trip from printing back through the parser |
| propagate.dfy | Propagation | `remove_option`, `iterate_sudoku`, `check_solution`, and propagation until stable |
| search.dfy | Search | branch selection and `_solve` |
| search_facts.dfy | SearchFacts | what `_solve` returns in each mode: soundness, completeness, no duplicates |
| solver.dfy | Solver | `solve_sudoku`, `count_sudoku_solutions`, `collect_all_solutions` |
| generator.dfy | Generator | `random_allowed`, `remove_random`, the removal loop |
| norvig_tables.dfy | NorvigTables | `cross`, `squares`, `unitlist`, `units`, `peers`, the `test()` facts |
| norvig_propagate.dfy | NorvigPropagation | `assign`, `eliminate` |
| norvig_facts.dfy | NorvigFacts | what `assign` and `eliminate` guarantee |
| norvig_search.dfy | NorvigSearch | `search`, `some`, `grid_values`, `parse_grid`, `solve`, `grid_from_file` |

How the C side is modelled:

- A board is a `seq<bv16>` of length 81 in row-major order. This is the same flat view the parser uses through its pointer cast.
- A *solution* is a board whose cells are all fixed and whose rows, columns and boxes each hold every digit once.
- Board `a` *refines* board `b` when every cell of `a` allows only digits that the same cell of `b` allows.
- `_solve` returns an `Outcome` with three parts:
  - the count it returns;
  - the board it leaves in `s` when that count is positive;
  - the boards passed to the collector, in call order.
- Calls to `rand()` are an input: a sequence of draws, read forwards from a position.

How the Python side is modelled:

- The `values` dictionary is a sequence of 81 candidate strings, indexed by the position of the square in `squares`.
- `False` is `None`.
- A raised exception is the `Raised` case of `Outcome`.

## Model

| member | source | states |
|---|---|---|
| Masks.IsFixedExactly | sudoku.h:33-46 | `is_fixed(x)` holds exactly when `x` is one of the nine single-digit masks; 0 and masks with bits above bit 8 are never fixed |
| Masks.IsFixedIsSingleDigit | sudoku.h:33-46 | the shifting loop of `is_fixed` agrees with the bitwise test "one bit set, and it is a digit bit" |
| Masks.BitsToNumberCases | sudoku.h:48-67 | `bits2number` returns -1 exactly for 0, -2 exactly for a non-zero mask with no digit bit, 0 exactly for a mask that has a digit bit but is not fixed, and `n` in 1..9 exactly for the fixed mask of digit `n` |
| Masks.NumberToBits | sudoku.h:69-75 | `number2bits(n)` is the single-bit mask of digit `n` for 1..9, and 0x1ff for every other `n` |
| Masks.NumberRoundTrip | sudoku.h:48-75 | `bits2number(number2bits(n)) == n` for digits 1..9, and 0 for every other `n` |
| Masks.MaskRoundTrip | sudoku.h:48-75 | a fixed mask survives `number2bits(bits2number(x))` unchanged |
| Masks.CountBitsFacts | sudoku.h:77-85 | `count_bits` is at most 9, ignores bits above bit 8, is 0 exactly when no digit bit is set, and is 1 exactly for fixed masks in range |
| Masks.FixedIffOneDigit | sudoku.h:33-85 | for a mask in range, `is_fixed` holds exactly when `count_bits` is 1 |
| Masks.AmbiguousHasTwo | sudoku.h:77-85 | a mask in range that is neither 0 nor fixed allows at least two digits |
| Board.SudokuCmpZero | sudoku.h:87-90 | `sudoku_cmp` is 0 exactly when the two boards are equal cell by cell |
| Board.CompareFromZero | sudoku.h:87-90 | the cell-by-cell comparison from any cell onwards is 0 exactly when the remaining cells agree |
| Board.ClearSudokuIsTop | sudoku.c:108-115 | `clear_sudoku` leaves every cell at 0x1ff, so every well-formed board refines it and every cell allows all nine digits |
| Board.FillBits | sudoku.c:18-27 | `fill_bits` gives a well-formed board: no cell has a bit above bit 8, whatever numbers it is given |
| Board.FillBitsRoundTrip | sudoku.c:18-27 | reading a filled cell back with `bits2number` gives its digit, or 0 for a number outside 1..9 |
| Board.AllAreFixedAsWrittenAlwaysTrue | sudoku.c:5-16 | `all_are_fixed` as written, with inner bound `j<0`, returns true for every board |
| Board.AllAreFixedAsWrittenCounterexample | sudoku.c:5-16 | on the cleared board, where no cell is fixed, `all_are_fixed` as written still answers true |
| Board.AllAreFixedCorrected | sudoku.c:5-16 | with inner bound 9, `all_are_fixed` holds exactly when every cell is fixed |
| Board.FixedLoopNine | sudoku.c:8-14 | the nested loop with bound 9, started at row `i` and column `j`, holds exactly when every cell from `9*i+j` on is fixed |
| Board.RefinesTotal | solver.c:88-96 | a refining board has no more set bits in total than the board it refines, and strictly fewer when the two differ |
| Codec.InsertFromCharSpec | sudoku.c:66-77 | a character fills no cell exactly when it is whitespace; digits 1..9 give their fixed mask; '0' and every other character give 0x1ff |
| Codec.FillLoopSpec | sudoku.c:79-91 | the loop stops at the end of the string, at a NUL character, or once 81 cells are filled; it fills the next cells with the tokens of the rest of the string in order, and leaves the other cells alone |
| Codec.FillSudokuFromStringSpec | sudoku.c:79-91 | the returned count is min(81, number of non-space characters before the first NUL); exactly those first cells hold their tokens, and every later cell holds 0x1ff |
| Codec.FillFromTokens | sudoku.c:79-91 | a string with at least 81 tokens fills the whole board with its first 81 tokens and returns 81 |
| Codec.TokensAppend | sudoku.c:66-77 | tokenising a concatenation gives the concatenation of the two token lists |
| Printing.CellChar | sudoku.c:34-58 | the printed character is 'E' for 0, the digit for a fixed mask, '.' for a mask that has a digit bit but is not fixed, and '!' for a mask with no digit bit |
| Printing.ShortLayout | sudoku.c:30-64 | the short format prints exactly the 81 cell characters in row-major order, with no separators |
| Printing.LongLayout | sudoku.c:30-64 | the long format prints 162 characters: every cell character is followed by a space, or by a newline after column 9 |
| Printing.KnownOnly | sudoku.c:34-58 | printing keeps the fixed cells and turns every other cell into 0x1ff |
| Printing.CellCharRereads | sudoku.c:34-77 | parsing one printed cell character gives back the fixed mask, or 0x1ff for any cell that is not fixed |
| Printing.TokensOfRender | sudoku.c:59-62 | the spaces and newlines of either format produce no tokens |
| Printing.ParseRender | sudoku.c:30-91 | parsing a printed board, in either format, fills all 81 cells with the printed board's fixed cells and 0x1ff elsewhere |
| Printing.RenderTokens | sudoku.c:30-91 | the tokens of a printed board are its fixed cells, with 0x1ff for every other cell |
| Printing.ParseRenderFixed | sudoku.c:30-91 | a board whose cells are all fixed survives printing and parsing back unchanged |
| Propagation.RemoveOption | solver.c:5-8 | `remove_option` only clears bits, clears every bit of `number`, and leaves a cell that shares no bit with `number` unchanged |
| Propagation.RemoveOptionGreatest | solver.c:5-8 | any mask below `place` that avoids `number` is below the result, so the result is the largest such mask |
| Propagation.SourceIndex | solver.c:16-54 | every pair of a group (row, column or box) and a cell is visited at some step of the pass |
| Propagation.ColumnSource | solver.c:27-35 | the column phase visits cell (j, i) at step 81 + 9i + j |
| Propagation.BoxSource | solver.c:38-54 | the box phase visits the cells of box `b` at steps 162 + 9b onwards, row by row inside the box |
| Propagation.Eliminate | solver.c:16-54 | one step of the pass: when the source cell is fixed its digit is removed from the other cells of its row, column or box, and every other cell is unchanged; when it is not fixed nothing changes |
| Propagation.IterateRefines | solver.c:10-57 | a pass of `iterate_sudoku` only removes candidates |
| Propagation.IterateKeepsSolution | solver.c:10-57 | a pass never removes a digit that some solution refining the board uses |
| Propagation.StableIffNoConflict | solver.c:10-57 | a pass leaves the board unchanged exactly when no fixed cell's digit is still a candidate of a cell that shares its row, column or box |
| Propagation.StableFixedIsSolution | solver.c:10-77 | a stable board whose cells are all fixed is a solution |
| Propagation.CheckSolutionCases | solver.c:59-77 | `check_solution` returns -1 exactly when some cell is 0, else 0 exactly when some cell is not fixed, else 1 |
| Propagation.SettleSpec | solver.c:88-96 | repeating the pass until the board stops changing gives a board that refines the input and is left unchanged by a further pass |
| Propagation.SettleKeepsSolution | solver.c:88-96 | propagating until stable keeps every solution that refines the input |
| Search.SelectBranchSpec | solver.c:118-135 | no branch is chosen exactly when no cell has more than one candidate; otherwise the chosen cell is the first in row-major order among those with the fewest candidates above one |
| Search.ScanFromSpec | solver.c:122-131 | the scan with a strict `<` keeps the earliest cell of the smallest count above one |
| Search.FirstFewestUnique | solver.c:118-135 | at most one cell is first among the fewest |
| Search.OpenBoardHasBranch | solver.c:100-135 | a well-formed board that is neither failed nor finished always has a cell to branch on, so the `simplest_n_bits == 10` exit is not reached from well-formed boards |
| Search.GuessSpec | solver.c:143-145 | a guess fixes the chosen cell to one of its candidates, refines the board, and strictly lowers the measure |
| Search.GuessSolutions | solver.c:143-153 | a solution refines a guess exactly when it refines the board and uses the guessed digit in the chosen cell |
| Search.Solve | solver.c:79-181 | every result of `_solve` is well formed: a positive count comes with a board in `s`; a collector gets one call per counted solution and `s` holds the last one; without a collector nothing is collected; first-solution mode counts at most 1 |
| Search.Branch | solver.c:143-169 | a digit that is not a candidate of the chosen cell contributes nothing |
| Search.Combine | solver.c:141-178 | combining the branches keeps the result well formed |
| SearchFacts.SolveDone | solver.c:100-106 | when propagation finishes the board, `_solve` returns 1, leaves that board, and collects it if a collector is given |
| SearchFacts.SolveStuck | solver.c:107-135 | when propagation fails, or no cell can be branched on, `_solve` returns 0 and collects nothing |
| SearchFacts.SolveOpen | solver.c:137-178 | otherwise `_solve` is the combination of the nine branches on the selected cell, tried in ascending digit order |
| SearchFacts.CombineCounting | solver.c:152-178 | when counting, the count is the sum of the branch counts, the collected boards are the branches' boards in order, and `s` holds the last solution found |
| SearchFacts.CombineFirst | solver.c:152-159 | in first-solution mode the first successful branch decides the result |
| SearchFacts.SolveBelow | solver.c:79-181 | every board `_solve` leaves in `s` or collects is a solution that refines its input |
| SearchFacts.SolveModes | solver.h:20-34 | the counting call returns the same count and leaves the same board whether or not a collector is given; first-solution mode finds a solution exactly when counting finds one, and leaves the first board collected |
| SearchFacts.SolveDistinct | solver.c:141-178 | no solution is collected twice |
| SearchFacts.SolveComplete | solver.c:79-181 | on a well-formed input, every solution that refines it is collected |
| SearchFacts.EmptyHasNoSolution | solver.c:59-77 | a board with an empty cell has no solution refining it |
| SearchFacts.FixedHasOnlyItself | solver.c:59-77 | the only solution refining a board whose cells are all fixed is that board |
| Solver.SolveSudoku | solver.h:20-23 | a board `solve_sudoku` reports is a solution refining its input |
| Solver.CollectAllSolutions | solver.h:30-34 | `collect_all_solutions` returns the number of boards it collects; they are distinct, and each is a solution refining the input |
| Solver.CountSudokuSolutions | solver.h:25-28 | `count_sudoku_solutions` returns the count the collecting call returns |
| Solver.CollectedAreAllSolutions | solver.h:30-34 | on a well-formed input, a board is collected exactly when it is a solution refining the input |
| Solver.FirstIsFirstCollected | solver.h:20-34 | `solve_sudoku` succeeds exactly when the count is positive, and then leaves the first board collected |
| Solver.SolveSudokuComplete | solver.h:20-23 | on a well-formed input that some solution refines, `solve_sudoku` succeeds |
| Solver.CountIsNumberOfSolutions | solver.h:25-28 | on a well-formed input, `count_sudoku_solutions` is the number of solutions that refine it |
| Solver.CountOneIffUnique | solver.h:25-28 | the count is 1 exactly when exactly one solution refines the input |
| Solver.CountOneIsUnique | solver.h:20-28 | when the count is 1, `solve_sudoku` finds that unique solution |
| Solver.UniqueCountsOne | solver.h:25-28 | a board with a unique solution counts 1 |
| Generator.RandomAllowedFirst | generator.c:6-14 | `random_allowed` answers the trial of the first draw whose digit `current` allows; it runs out exactly when no draw is allowed |
| Generator.RandomAllowedSpec | generator.c:6-14 | the answer is a fixed mask that `current` allows, and there is one only when `current` has a digit bit |
| Generator.Eligible | generator.c:62-68 | `can_remove` starts true exactly at the fixed cells |
| Generator.PickCellSpec | generator.c:73-76 | the rejection loop only picks eligible cells, and reads two draws per try, always forwards |
| Generator.DropInvariant | generator.c:88-92 | marking a failed cell ineligible keeps the loop invariant and lowers the counter by one |
| Generator.RemoveLoopSpec | generator.c:71-97 | the loop either clears one fixed cell so that exactly one solution remains and returns true, or returns false with the board unchanged, in which case no single fixed cell could be cleared that way |
| Generator.RemoveWithSpec | generator.c:53-98 | the same holds for `remove_random` with any solution counter |
| Generator.RemoveRandomSpec | generator.c:53-98 | the same holds for `remove_random` with `count_sudoku_solutions` |
| Generator.ClearLowersFixedCount | generator.c:79-80 | clearing a fixed cell lowers the number of fixed cells by one |
| Generator.RemovalShrinks | generator.c:84-87 | a successful removal lowers the number of fixed cells and gives a board the old one refines, so the removal loop terminates |
| Generator.RemoveAllWithSpec | generator.c:50 | the removal loop ends on a minimal puzzle: no single fixed cell can be cleared while keeping exactly one solution; the start board refines the result; a uniquely solvable start stays uniquely solvable |
| Generator.RemoveAllSpec | generator.c:50 | the same, for the loop as written, which counts with `count_sudoku_solutions` |
| NorvigTables.CrossAt | sudoku.py:23-25 | `cross(A, B)` has \|A\|·\|B\| entries, and entry `i·\|B\|+j` is `A[i]+B[j]` |
| NorvigTables.SquaresAt | sudoku.py:27-30 | there are 81 squares, and square `p` is the label of cell `p` in row-major order |
| NorvigTables.LabelInjective | sudoku.py:27-30 | distinct cells have distinct labels |
| NorvigTables.UnitListAt | sudoku.py:31-33 | `unitlist` has 27 units: 9 columns, then 9 rows, then the 9 boxes band by band; entry `m` of each unit is the label of a stated cell |
| NorvigTables.InUnit | sudoku.py:31-35 | a square lies in a unit of `unitlist` exactly when the unit is its column, its row or its box |
| NorvigTables.UnitsOfCell | sudoku.py:34-35 | `units[s]` is exactly the column, row and box of `s`, in that order |
| NorvigTables.PeersAreListed | sudoku.py:36-37 | `peers[s]` is the set of labels of the 20 listed peers of `s`: its column, then its row, then the rest of its box |
| NorvigTables.PeerListEntries | sudoku.py:36-37 | every listed peer of `p` differs from `p` and shares a unit with it, and its row and column are as stated |
| NorvigTables.PeerListComplete | sudoku.py:36-37 | every other cell that shares a unit with `p` is listed |
| NorvigTables.TwentyPeers | sudoku.py:36-46 | every square has exactly 20 peers |
| NorvigTables.TableSizes | sudoku.py:41-46 | `test()`: there are 81 squares and 27 units, and every square has 3 units and 20 peers |
| NorvigTables.TestC2 | sudoku.py:47-52 | `test()`: the units and the peer set of "C2" are exactly the ones it lists |
| NorvigPropagation.Remove | sudoku.py:78-89 | `s.replace(d, '')` keeps exactly the other characters, and is shorter when `d` occurs |
| NorvigPropagation.RemoveNoRepeats | sudoku.py:78-89 | removing a digit from a candidate string without repeats leaves one without repeats |
| NorvigPropagation.Places | sudoku.py:98 | `dplaces` holds exactly the squares of the unit that still have `d` as a candidate |
| NorvigPropagation.UnitCellsAreUnits | sudoku.py:97-98 | the cells iterated for the `k`-th unit are the squares of `units[s][k]`, in order |
| NorvigPropagation.Eliminate | sudoku.py:84-105 | a digit that is already gone leaves the values unchanged; removing the last candidate fails; on success the total number of candidates does not grow, and drops when `d` was a candidate (the termination measure; that no square gains a candidate is NorvigFacts.EliminateKeeps) |
| NorvigPropagation.EliminateFromPeers | sudoku.py:93-95 | on success of rule 1 the total number of candidates does not grow (the termination measure; that no square gains a candidate is NorvigFacts.PeersKeep) |
| NorvigPropagation.CheckUnits | sudoku.py:97-104 | on success of rule 2 the total number of candidates does not grow (the termination measure; that no square gains a candidate is NorvigFacts.UnitsKeep) |
| NorvigPropagation.Assign | sudoku.py:75-82 | on success of `assign` the total number of candidates does not grow, and drops when `s` had another candidate (the termination measure; that no square gains a candidate is NorvigFacts.AssignKeeps) |
| NorvigPropagation.EliminateAll | sudoku.py:79 | on success of eliminating the other values in turn the total number of candidates does not grow, and drops when the next of them is a candidate of `s` (the termination measure; that no square gains a candidate is NorvigFacts.AllKeep) |
| NorvigFacts.EliminateKeeps | sudoku.py:84-105 | after a successful `eliminate`, every square has only candidates it had before, no square is left empty, and `d` is not a candidate of `s` |
| NorvigFacts.AssignKeeps | sudoku.py:75-82 | after a successful `assign(values, s, d)`, candidates have only shrunk, and on valid values `s` has exactly `d` |
| NorvigFacts.PeersKeep | sudoku.py:93-95 | rule 1 only removes candidates and never empties a square |
| NorvigFacts.UnitsKeep | sudoku.py:97-104 | rule 2 only removes candidates and never empties a square |
| NorvigFacts.AllKeep | sudoku.py:79 | after a successful run of the eliminations, none of the other values is left in `s` |
| NorvigFacts.PeerDigitStays | sudoku.py:93-94 | while the peers of `s` are visited, `values[s]` stays the single digit it was reduced to |
| NorvigFacts.EliminateNoPlace | sudoku.py:97-100 | `eliminate` fails when a unit of `s` has no other square left with `d` |
| NorvigFacts.UnitsNoPlace | sudoku.py:97-100 | rule 2 fails when any unit of `s` has no place for `d`, whatever the earlier units do |
| NorvigSearch.LabelsInCellOrder | sudoku.py:120 | comparing labels as strings orders squares as row-major cell order does |
| NorvigSearch.FewestSpec | sudoku.py:120 | the `min` over `(len, s)` pairs is empty exactly when no square has more than one candidate; otherwise it picks a square with the fewest candidates above one, the first such in label order |
| NorvigSearch.SomeOfSpec | sudoku.py:125-129 | `some` returns False exactly when every element is False; otherwise it returns the first element that is not False |
| NorvigSearch.TryDigitsIsSome | sudoku.py:121 | the lazy loop over the branches gives what `some` gives over the list of branch results |
| NorvigSearch.SearchSolves | sudoku.py:113-121 | on values from `parse_grid`, `search` raises nothing; a dictionary it returns has exactly one candidate per square, each one a candidate of its input |
| NorvigSearch.GridCharsSpec | sudoku.py:69 | the filter keeps exactly the digits, '0' and '.', in order, and distributes over concatenation |
| NorvigSearch.GridValues | sudoku.py:67-71 | `grid_values` raises AssertionError exactly when the grid does not have 81 kept characters, and otherwise returns them |
| NorvigSearch.AssignCluesSpec | sudoku.py:61-65 | assigning the clues in square order keeps the values valid and leaves each given digit as the only candidate of its square |
| NorvigSearch.ParseGridSpec | sudoku.py:57-71 | `parse_grid` raises exactly when `grid_values` does; a dictionary it returns is valid, has only digit candidates, and keeps every given digit |
| NorvigSearch.SolveSpec | sudoku.py:110-111 | `solve` raises only AssertionError, exactly for a grid without 81 kept characters; a dictionary it returns has one candidate per square and keeps every given digit |
| NorvigSearch.ReadGridSpec | sudoku.py:173-189 | `grid_from_file` raises EOFError exactly when the rest of the input has fewer than 81 non-space characters; otherwise it returns 81 characters, the cleaned input up to and including the non-space character that completed them |
| NorvigSearch.CleanedChars | sudoku.py:183-186 | every character of the grid read is a digit or '.' |

## Left out

- `fill_sudoku_from_file` (sudoku.c:93-106) reads characters with `fgetc`. File I/O is not modelled. Its loop is the one of `fill_sudoku_from_string`, which `Codec.FillLoopSpec` covers. Note one difference: the file loop reads one character more once the board is full.
- The first phase of `generate_sudoku` (generator.c:23-48) is not modelled. It calls `impose`, which is declared `extern` and whose body is not part of this model, and it rewinds its loop indices. `random_allowed` and the removal loop of line 50 are modelled.
- Generator.RandomAllowedFirst: `rand()` is an input sequence of draws, read forwards. The C loop runs until a draw is allowed; the model answers None when the sequence runs out first. The distribution of `rand()` is not modelled.
- Generator.PickCellSpec: the do-while rejection loop reads two draws per try. The model answers None when the draws run out, where the C loop would keep drawing.
- Search.Solve: the board C leaves in `s` when `_solve` returns 0 is not modelled; the model reports None. After an ERROR check (solver.c:109) or when no cell can be branched on (solver.c:134), `s` holds the propagated board copied there at solver.c:95. When every branch fails, solver.c:176 copies the uninitialised `a_solution` into `s`.
- Search.Solve: the board the caller passes is overwritten by `_solve`. The model returns the resulting board instead of mutating it.
- Board.SudokuCmpZero: `memcmp` compares bytes in memory order, so the sign of its result depends on byte order. Only "0 exactly when equal" is used by the solver, and only that is stated.
- Solver.CountSudokuSolutions: `my_solutions_count` (solver.c:141, 161) and the results of `_solve` and `count_sudoku_solutions` are C `int`s. A board with more than INT_MAX solutions overflows them in C; the empty grid has about 6.7×10^21. The model counts with unbounded integers, so Solver.CountIsNumberOfSolutions states the exact count, which C reports only while it fits in an `int`. The other integers of the core stay small: cell masks fit in 16 bits and bit counts are at most 9.
- The DEBUG macros of sudoku.h (lines 9-19) and the `_dbg` calls are not modelled; with DEBUG 0 they are empty.
- The return value of `iterate_sudoku` (`all_are_fixed`) is ignored by its only caller and is not modelled.
- `print_sudoku` is modelled as producing a string instead of writing to standard output.
- SearchFacts.SolveComplete: completeness is stated for well-formed inputs, meaning no cell has bits above bit 8. Other boards are handled by the same code but not covered by this lemma.
- Codec.InsertFromCharSpec: `isdigit` and `isspace` are taken in the C locale. Characters are Dafny `char`s, so the signedness of C `char` plays no part.
- Python I/O is not modelled: `print_grid`, `from_file`, the command-line `main`, `process_sudoku_file`, and the `print` in `test()`.
- NorvigPropagation.EliminateFromPeers: `peers[s]` is a Python set, whose iteration order depends on string hashing. The model visits the peers in one fixed order, the order of their first occurrence in `sum(units[s], [])`. `NorvigTables.PeersAreListed` proves that this is the same set.
- NorvigPropagation.Eliminate: the Python re-reads `values[s]` for every peer, while the model reads it once. `NorvigFacts.PeerDigitStays` shows the value read is the same whenever the loop goes on.
- NorvigSearch.AssignCluesSpec: `parse_grid` iterates a dictionary built by `zip(squares, chars)`. The model assigns the clues in the order of `squares`, which is the insertion order of that dictionary.
- NorvigSearch.SearchSolves: `search` is stated for values that `parse_grid` can produce, meaning no square is empty and no candidate is repeated. The proof does not show that the returned dictionary is a correct Sudoku solution. It shows that every square is down to one candidate taken from its own candidates, and that every clue is kept.
- NorvigSearch.TryDigitsIsSome: `some` consumes a generator lazily. `TryDigits` models that loop, and `SomeOf` over the eager list of all branch results is the reference it is proved equal to.
- NorvigSearch.ReadGridSpec: `grid_from_file` reads from a file object; the model reads a string from a position and returns the position after the grid. `str.isspace` is modelled by the Unicode whitespace characters listed in `IsPySpace`.
- Python exceptions are values (`Outcome.Raised` with the exception's name), not control flow.

## Findings

| source | as written | input that shows it | evidently intended | confidence | as-written member | corrected member |
|---|---|---|---|---|---|---|
| sudoku.c:9 | the inner loop of `all_are_fixed` runs `for (j=0; j<0; ++j)`, so its body never runs and the function returns true for every board | the cleared board, every cell 0x1ff, gives true although no cell is fixed | `j<9`: true exactly when every cell is fixed | not executed | Board.AllAreFixedAsWritten (shown by Board.AllAreFixedAsWrittenCounterexample) | Board.AllAreFixed (proved by Board.AllAreFixedCorrected) |

The bug has no effect on solving. `iterate_sudoku` returns the value of `all_are_fixed`, but `_solve` ignores that value and uses `check_solution` instead.
