/**
  Search and input of the Python solver: `search` with `some`
  (sudoku.py:113-129), `grid_values` and `parse_grid` (sudoku.py:57-71),
  `solve` (sudoku.py:110-111) and the reading loop of `grid_from_file`
  (sudoku.py:173-189). A Python call either returns a value or raises an
  exception; `Outcome` records which.
*/
module NorvigSearch {
  import opened Optional
  import opened Board
  import opened NorvigTables
  import opened NorvigPropagation
  import opened NorvigFacts

  /** What a Python call does: return a value, or raise the named exception. */
  datatype Outcome<+T> = Returned(value: T) | Raised(error: string)

  /** `all(len(values[s]) == 1 for s in squares)`. */
  predicate AllSingle(v: Values) {
    forall p :: 0 <= p < 81 ==> |v[p]| == 1
  }

  // ---------------------------------------------------------------------------
  // Choosing the square to branch on
  // ---------------------------------------------------------------------------

  /**
    Python orders the `(len(values[s]), s)` pairs by length, then by label;
    for two-character labels that is row letter, then column digit.
  */
  predicate LabelBefore(a: string, b: string)
    requires |a| == 2 && |b| == 2
  {
    a[0] < b[0] || (a[0] == b[0] && a[1] < b[1])
  }

  /** Labels compare the way their cells do in row-major order. */
  lemma LabelsInCellOrder(p: Cell, q: Cell)
    ensures LabelBefore(Label(p), Label(q)) <==> p < q
  {
    var r1, c1, r2, c2 := Row(p), Col(p), Row(q), Col(q);
    BoxOfCell(p);
    BoxOfCell(q);
    LabelCodes(p);
    LabelCodes(q);
    assert LabelBefore(Label(p), Label(q)) <==> r1 < r2 || (r1 == r2 && c1 < c2);
    RowMajorOrder(r1, c1, r2, c2);
  }

  lemma RowMajorOrder(r1: nat, c1: nat, r2: nat, c2: nat)
    requires r1 < 9 && c1 < 9 && r2 < 9 && c2 < 9
    ensures 9 * r1 + c1 < 9 * r2 + c2 <==> r1 < r2 || (r1 == r2 && c1 < c2)
  {
  }

  /** Row letters and column digits are consecutive characters. */
  lemma LabelCodes(p: Cell)
    ensures Label(p)[0] as int == 'A' as int + Row(p)
    ensures Label(p)[1] as int == '1' as int + Col(p)
  {
    var r, c := Row(p), Col(p);
    assert Rows[r] as int == 'A' as int + r;
    assert Cols[c] as int == '1' as int + c;
  }

  /**
    `min((len(values[s]), s) for s in squares if len(values[s]) > 1)`,
    scanning the cells from `p` on with the best so far in `best`: the
    first cell of the fewest candidates above one. None stands for the
    empty minimum, on which `min` raises ValueError.
  */
  function ScanFewest(v: Values, p: nat, best: Option<Cell>): (r: Option<Cell>)
    requires p <= 81
    requires best.Some? ==> best.value < p && |v[best.value]| > 1
    ensures r.Some? ==> |v[r.value]| > 1
    decreases 81 - p
  {
    if p == 81 then best
    else if |v[p]| > 1 && (best.None? || |v[p]| < |v[best.value]|) then ScanFewest(v, p + 1, Some(p))
    else ScanFewest(v, p + 1, best)
  }

  function Fewest(v: Values): (r: Option<Cell>)
    ensures r.Some? ==> |v[r.value]| > 1
  {
    ScanFewest(v, 0, None)
  }

  /** `best` is the least pair `(len, cell)` among the open cells below `p`. */
  ghost predicate LeastBelow(v: Values, p: nat, best: Option<Cell>)
    requires p <= 81
  {
    && (best.None? ==> forall x: Cell :: x < p ==> |v[x]| <= 1)
    && (best.Some? ==>
          && best.value < p && |v[best.value]| > 1
          && forall x: Cell :: x < p && |v[x]| > 1 ==>
               |v[best.value]| < |v[x]| || (|v[best.value]| == |v[x]| && best.value <= x))
  }

  lemma {:induction false} ScanFewestLeast(v: Values, p: nat, best: Option<Cell>)
    requires p <= 81 && LeastBelow(v, p, best)
    ensures LeastBelow(v, 81, ScanFewest(v, p, best))
    decreases 81 - p
  {
    if p < 81 {
      if |v[p]| > 1 && (best.None? || |v[p]| < |v[best.value]|) {
        ScanFewestLeast(v, p + 1, Some(p));
      } else {
        ScanFewestLeast(v, p + 1, best);
      }
    }
  }

  /**
    The square `search` branches on: None exactly when no square has more
    than one candidate; otherwise an open square whose candidate count is
    the least, and the first such in the order of labels.
  */
  lemma FewestSpec(v: Values)
    ensures Fewest(v).None? <==> forall x: Cell :: |v[x]| <= 1
    ensures Fewest(v).Some? ==> var q := Fewest(v).value;
      && |v[q]| > 1
      && (forall x: Cell :: |v[x]| > 1 ==> |v[q]| <= |v[x]|)
      && (forall x: Cell :: |v[x]| == |v[q]| ==> q <= x)
  {
    ScanFewestLeast(v, 0, None);
  }

  // ---------------------------------------------------------------------------
  // search and some
  // ---------------------------------------------------------------------------

  lemma CountAtLeast(v: Values, q: Cell)
    ensures CandidateCount(v) >= |v[q]|
  {
    CandidateCountUpdate(v, q, "");
  }

  /** A candidate string with two digits still has one once either is removed. */
  lemma OtherCandidate(s: string, i: nat)
    requires NoRepeats(s) && |s| > 1 && i < |s|
    ensures |Remove(s, s[i])| > 0
  {
    var j := if i == 0 then 1 else 0;
    assert s[j] in s && s[j] != s[i];
  }

  /**
    `search(values)`: False for False; the values themselves once every
    square has one candidate; otherwise `some` over the branches of the
    square `min` picks. Python's `min` raises ValueError when no square has
    more than one candidate but some square has none.
  */
  function Search(v: Option<Values>): (r: Outcome<Option<Values>>)
    requires v.Some? ==> Valid(v.value)
    decreases if v.Some? then CandidateCount(v.value) else 0, 1, 0
  {
    if v.None? then Returned(None)
    else if AllSingle(v.value) then Returned(v)
    else
      match Fewest(v.value)
      case None => Raised("ValueError")
      case Some(q) => TryDigits(v.value, q, 0)
  }

  /**
    `some(search(assign(values.copy(), s, d)) for d in values[s])` from the
    `i`-th candidate on: the first branch that returns a dictionary; an
    exception in a branch propagates; False when every branch is False.
  */
  function TryDigits(v: Values, q: Cell, i: nat): (r: Outcome<Option<Values>>)
    requires Valid(v) && |v[q]| > 1 && i <= |v[q]|
    decreases CandidateCount(v), 0, |v[q]| - i
  {
    if i == |v[q]| then Returned(None)
    else
      var r := Branch(v, q, i);
      if r.Raised? || r.value.Some? then r
      else TryDigits(v, q, i + 1)
  }

  /** `search(assign(values.copy(), s, d))` for the `i`-th candidate `d` of `q`. */
  function Branch(v: Values, q: Cell, i: nat): (r: Outcome<Option<Values>>)
    requires Valid(v) && |v[q]| > 1 && i < |v[q]|
    decreases CandidateCount(v), 0, 0
  {
    var a := Assign(v, q, v[q][i]);
    AssignKeeps(v, q, v[q][i]);
    OtherCandidate(v[q], i);
    CountAtLeast(v, q);
    Search(a)
  }

  /**
    `some(seq)` over a sequence whose elements are evaluated in turn: the
    first element that raises or is a dictionary, else False.
  */
  function SomeOf<T>(bs: seq<Outcome<Option<T>>>): Outcome<Option<T>>
    decreases |bs|
  {
    if |bs| == 0 then Returned(None)
    else if bs[0].Raised? || bs[0].value.Some? then bs[0]
    else SomeOf(bs[1..])
  }

  /**
    `some` is False exactly when every element is; otherwise it is the
    first element that is not False, all elements before it being False.
  */
  lemma {:induction false} SomeOfSpec<T>(bs: seq<Outcome<Option<T>>>)
    ensures SomeOf(bs) == Returned(None) <==> forall j :: 0 <= j < |bs| ==> bs[j] == Returned(None)
    ensures SomeOf(bs) != Returned(None) ==>
      exists j :: 0 <= j < |bs| && bs[j] == SomeOf(bs)
        && forall j' :: 0 <= j' < j ==> bs[j'] == Returned(None)
    decreases |bs|
  {
    if |bs| > 0 {
      SomeOfSpec(bs[1..]);
      if bs[0] == Returned(None) {
        if SomeOf(bs) != Returned(None) {
          var j :| 0 <= j < |bs| - 1 && bs[1..][j] == SomeOf(bs[1..])
            && forall j' :: 0 <= j' < j ==> bs[1..][j'] == Returned(None);
          assert bs[j + 1] == SomeOf(bs);
          assert forall j' :: 0 <= j' < j + 1 ==> bs[j'] == Returned(None) by {
            forall j' | 0 <= j' < j + 1 ensures bs[j'] == Returned(None) {
              if j' > 0 {
                assert bs[j'] == bs[1..][j' - 1];
              }
            }
          }
        } else {
          forall j | 0 <= j < |bs| ensures bs[j] == Returned(None) {
            if j > 0 {
              assert bs[j] == bs[1..][j - 1];
            }
          }
        }
      } else {
        assert bs[0] == SomeOf(bs);
      }
    }
  }

  /** The outcomes of all branches of `q`, in candidate order. */
  ghost function Branches(v: Values, q: Cell): (bs: seq<Outcome<Option<Values>>>)
    requires Valid(v) && |v[q]| > 1
    ensures |bs| == |v[q]|
  {
    seq(|v[q]|, j requires 0 <= j < |v[q]| => Branch(v, q, j))
  }

  /** The loop of `some` over the generator of branches is `some` of their outcomes. */
  lemma {:induction false} TryDigitsIsSome(v: Values, q: Cell, i: nat)
    requires Valid(v) && |v[q]| > 1 && i <= |v[q]|
    ensures TryDigits(v, q, i) == SomeOf(Branches(v, q)[i..])
    decreases |v[q]| - i
  {
    if i < |v[q]| {
      TryDigitsIsSome(v, q, i + 1);
      assert Branches(v, q)[i..][1..] == Branches(v, q)[i + 1..];
      assert Branches(v, q)[i..][0] == Branch(v, q, i);
    }
  }

  /**
    On valid values `search` never raises, and when it returns a dictionary
    every square in it has exactly one candidate, taken from those it had.
  */
  lemma {:induction false} SearchSolves(v: Option<Values>)
    requires v.Some? ==> Valid(v.value)
    ensures Search(v).Returned?
    ensures Search(v).value.Some? ==>
      v.Some? && AllSingle(Search(v).value.value) && Keeps(Search(v).value.value, v.value)
    decreases if v.Some? then CandidateCount(v.value) else 0, 1, 0
  {
    if v.Some? && !AllSingle(v.value) {
      FewestSpec(v.value);
      TryDigitsSolve(v.value, Fewest(v.value).value, 0);
    }
  }

  lemma {:induction false} TryDigitsSolve(v: Values, q: Cell, i: nat)
    requires Valid(v) && |v[q]| > 1 && i <= |v[q]|
    ensures TryDigits(v, q, i).Returned?
    ensures TryDigits(v, q, i).value.Some? ==>
      AllSingle(TryDigits(v, q, i).value.value) && Keeps(TryDigits(v, q, i).value.value, v)
    decreases CandidateCount(v), 0, |v[q]| - i
  {
    if i < |v[q]| {
      BranchSolves(v, q, i);
      if Branch(v, q, i) == Returned(None) {
        TryDigitsSolve(v, q, i + 1);
      }
    }
  }

  lemma {:induction false} BranchSolves(v: Values, q: Cell, i: nat)
    requires Valid(v) && |v[q]| > 1 && i < |v[q]|
    ensures Branch(v, q, i).Returned?
    ensures Branch(v, q, i).value.Some? ==>
      AllSingle(Branch(v, q, i).value.value) && Keeps(Branch(v, q, i).value.value, v)
    decreases CandidateCount(v), 0, 0
  {
    var a := Assign(v, q, v[q][i]);
    AssignKeeps(v, q, v[q][i]);
    OtherCandidate(v[q], i);
    CountAtLeast(v, q);
    SearchSolves(a);
    if Search(a).value.Some? {
      KeepsTrans(Search(a).value.value, a.value, v);
    }
  }

  // ---------------------------------------------------------------------------
  // grid_values, parse_grid and solve
  // ---------------------------------------------------------------------------

  /** The characters `grid_values` keeps: a digit, '0' or '.'. */
  predicate Kept(c: char) {
    c in Digits || c in "0."
  }

  /** `[c for c in grid if c in digits or c in '0.']`. */
  function GridChars(grid: string): (cs: string)
    ensures |cs| <= |grid|
    decreases |grid|
  {
    if |grid| == 0 then []
    else (if Kept(grid[0]) then [grid[0]] else []) + GridChars(grid[1..])
  }

  /** The filter keeps exactly the kept characters, in their order. */
  lemma {:induction false} GridCharsSpec(a: string, b: string)
    ensures GridChars(a + b) == GridChars(a) + GridChars(b)
    ensures forall c :: c in GridChars(a) <==> c in a && Kept(c)
    decreases |a|
  {
    if |a| > 0 {
      GridCharsSpec(a[1..], b);
      assert (a + b)[1..] == a[1..] + b;
      assert a == [a[0]] + a[1..];
    } else {
      assert a + b == b;
    }
  }

  /** `grid_values(grid)`: the 81 kept characters, or AssertionError. */
  function GridValues(grid: string): (r: Outcome<string>)
    ensures r.Returned? <==> |GridChars(grid)| == 81
    ensures r.Returned? ==> r.value == GridChars(grid)
  {
    var cs := GridChars(grid);
    if |cs| == 81 then Returned(cs) else Raised("AssertionError")
  }

  /** Every square starts with all nine digits. */
  function AllCandidates(): Values {
    seq(81, p => Digits)
  }

  /** The loop of `parse_grid` from square `p` on. */
  function AssignClues(v: Values, cs: string, p: nat): Option<Values>
    requires |cs| == 81 && p <= 81
    decreases 81 - p
  {
    if p == 81 then Some(v)
    else if cs[p] in Digits then
      match Assign(v, p, cs[p])
      case None => None
      case Some(w) => AssignClues(w, cs, p + 1)
    else AssignClues(v, cs, p + 1)
  }

  /** `parse_grid(grid)`. */
  function ParseGrid(grid: string): Outcome<Option<Values>> {
    match GridValues(grid)
    case Raised(e) => Raised(e)
    case Returned(cs) => Returned(AssignClues(AllCandidates(), cs, 0))
  }

  /** Every given digit from `p` on ends up as the only candidate of its square. */
  ghost predicate CluesHeld(w: Values, cs: string, p: nat)
    requires |cs| == 81
  {
    forall x: Cell :: p <= x && cs[x] in Digits ==> w[x] == [cs[x]]
  }

  lemma {:induction false} AssignCluesSpec(v: Values, cs: string, p: nat)
    requires |cs| == 81 && p <= 81 && Valid(v)
    ensures var r := AssignClues(v, cs, p);
      r.Some? ==> Keeps(r.value, v) && Valid(r.value) && CluesHeld(r.value, cs, p)
    decreases 81 - p
  {
    if p < 81 {
      if cs[p] in Digits {
        var a := Assign(v, p, cs[p]);
        AssignKeeps(v, p, cs[p]);
        if a.Some? {
          AssignCluesSpec(a.value, cs, p + 1);
          var r := AssignClues(a.value, cs, p + 1);
          if r.Some? {
            KeepsTrans(r.value, a.value, v);
            OnlyDigit(r.value[p], cs[p]);
          }
        }
      } else {
        AssignCluesSpec(v, cs, p + 1);
      }
    }
  }

  lemma AllCandidatesValid()
    ensures Valid(AllCandidates())
  {
    assert NoRepeats(Digits);
  }

  /**
    `parse_grid` raises AssertionError unless the grid has 81 kept
    characters; when it returns a dictionary, every given digit is the only
    candidate of its square, every candidate is a digit, and the values are
    valid.
  */
  lemma ParseGridSpec(grid: string)
    ensures ParseGrid(grid).Raised? <==> |GridChars(grid)| != 81
    ensures var r := ParseGrid(grid);
      r.Returned? && r.value.Some? ==>
        && Valid(r.value.value)
        && Narrower(r.value.value, AllCandidates())
        && CluesHeld(r.value.value, GridChars(grid), 0)
  {
    AllCandidatesValid();
    if |GridChars(grid)| == 81 {
      AssignCluesSpec(AllCandidates(), GridChars(grid), 0);
    }
  }

  /** `solve(grid)`: `search(parse_grid(grid))`, with parse_grid's exception passed on. */
  function Solve(grid: string): Outcome<Option<Values>> {
    match ParseGrid(grid)
    case Raised(e) => Raised(e)
    case Returned(pv) =>
      ParseGridSpec(grid);
      Search(pv)
  }

  /**
    `solve` raises only the AssertionError of `grid_values`; a dictionary
    it returns has one candidate per square and keeps every given digit.
  */
  lemma SolveSpec(grid: string)
    ensures Solve(grid).Raised? <==> |GridChars(grid)| != 81
    ensures var r := Solve(grid);
      r.Returned? && r.value.Some? ==>
        && AllSingle(r.value.value)
        && CluesHeld(r.value.value, GridChars(grid), 0)
  {
    ParseGridSpec(grid);
    var pg := ParseGrid(grid);
    if pg.Returned? {
      SearchSolves(pg.value);
      var r := Search(pg.value);
      if r.value.Some? {
        var w := r.value.value;
        forall x: Cell | GridChars(grid)[x] in Digits ensures w[x] == [GridChars(grid)[x]] {
          OnlyDigit(w[x], GridChars(grid)[x]);
        }
      }
    }
  }

  // ---------------------------------------------------------------------------
  // grid_from_file
  // ---------------------------------------------------------------------------

  /** Python's `str.isspace` for one character: the Unicode whitespace characters. */
  predicate IsPySpace(c: char) {
    var n := c as int;
    || 9 <= n <= 13 || 28 <= n <= 32 || n == 0x85 || n == 0xA0 || n == 0x1680
    || 0x2000 <= n <= 0x200A || n == 0x2028 || n == 0x2029 || n == 0x202F
    || n == 0x205F || n == 0x3000
  }

  /** The grid character a non-space input character becomes. */
  function GridChar(c: char): char {
    if c in Digits then c else '.'
  }

  /** What one input character adds to the grid: nothing for whitespace. */
  function Piece(c: char): (g: string)
    ensures |g| <= 1
  {
    if IsPySpace(c) then [] else [GridChar(c)]
  }

  /** Every input character's contribution to the grid, in order. */
  function Cleaned(s: string): (g: string)
    ensures |g| <= |s|
    decreases |s|
  {
    if |s| == 0 then [] else Piece(s[0]) + Cleaned(s[1..])
  }

  /**
    The loop of `grid_from_file`, reading `text` from position `k` with
    `grid` read so far; returns the grid and the position after its 81st
    character, or EOFError when the text runs out first.
  */
  function ReadGrid(text: string, k: nat, grid: string): Outcome<(string, nat)>
    requires k <= |text| && |grid| < 81
    decreases |text| - k
  {
    if k == |text| then Raised("EOFError")
    else
      var c := text[k];
      if IsPySpace(c) then ReadGrid(text, k + 1, grid)
      else
        var g := grid + [GridChar(c)];
        if |g| == 81 then Returned((g, k + 1)) else ReadGrid(text, k + 1, g)
  }

  /** `grid_from_file` on an input positioned at `k`. */
  function GridFromFile(text: string, k: nat): Outcome<(string, nat)>
    requires k <= |text|
  {
    ReadGrid(text, k, [])
  }

  /** One character read: it goes into the grid unless it is whitespace. */
  lemma ReadGridStep(text: string, k: nat, grid: string)
    requires k < |text| && |grid| < 81
    ensures var g := grid + Piece(text[k]);
      && |g| <= 81
      && (|g| < 81 ==> ReadGrid(text, k, grid) == ReadGrid(text, k + 1, g))
      && (|g| == 81 ==> ReadGrid(text, k, grid) == Returned((g, k + 1)) && !IsPySpace(text[k]))
  {
    if IsPySpace(text[k]) {
      assert grid + Piece(text[k]) == grid;
    }
  }

  /** Cleaning a stretch of the text starts with its first character. */
  lemma CleanedCons(text: string, k: nat, n: nat)
    requires k < n <= |text|
    ensures Cleaned(text[k..n]) == Piece(text[k]) + Cleaned(text[k + 1..n])
    ensures n == |text| ==> Cleaned(text[k..]) == Piece(text[k]) + Cleaned(text[k + 1..])
  {
    assert text[k..n][1..] == text[k + 1..n];
    assert text[k..] == text[k..|text|] && text[k + 1..] == text[k + 1..|text|];
  }

  /**
    The reader skips whitespace, keeps digits and turns anything else into
    '.': it returns exactly 81 characters, the cleaned text up to and
    including the character that completed them, and raises EOFError
    exactly when the rest of the text cleans to too few characters.
  */
  lemma {:induction false} ReadGridSpec(text: string, k: nat, grid: string)
    requires k <= |text| && |grid| < 81
    ensures ReadGrid(text, k, grid).Raised? <==> |grid| + |Cleaned(text[k..])| < 81
    ensures var r := ReadGrid(text, k, grid);
      r.Returned? ==>
        && k < r.value.1 <= |text|
        && r.value.0 == grid + Cleaned(text[k..r.value.1])
        && |r.value.0| == 81
        && !IsPySpace(text[r.value.1 - 1])
    decreases |text| - k
  {
    if k == |text| {
      assert text[k..] == [];
    } else if |grid + Piece(text[k])| < 81 {
      ReadGridSpec(text, k + 1, grid + Piece(text[k]));
      ReadGridLift(text, k, grid);
    } else {
      ReadGridLast(text, k, grid);
    }
    assert ReadGridPost(text, k, grid);
  }

  /** The conclusion of `ReadGridSpec`. */
  ghost predicate ReadGridPost(text: string, k: nat, grid: string)
    requires k <= |text| && |grid| < 81
  {
    && (ReadGrid(text, k, grid).Raised? <==> |grid| + |Cleaned(text[k..])| < 81)
    && var r := ReadGrid(text, k, grid);
      r.Returned? ==>
        && k < r.value.1 <= |text|
        && r.value.0 == grid + Cleaned(text[k..r.value.1])
        && |r.value.0| == 81
        && !IsPySpace(text[r.value.1 - 1])
  }

  /** A character that does not complete the grid: the rest of the read decides. */
  lemma ReadGridLift(text: string, k: nat, grid: string)
    requires k < |text| && |grid| < 81 && |grid + Piece(text[k])| < 81
    requires ReadGridPost(text, k + 1, grid + Piece(text[k]))
    ensures ReadGridPost(text, k, grid)
  {
    var g' := grid + Piece(text[k]);
    CleanedCons(text, k, |text|);
    ReadGridStep(text, k, grid);
    var r := ReadGrid(text, k + 1, g');
    if r.Returned? {
      CleanedCons(text, k, r.value.1);
    }
  }

  /** The character that completes the grid. */
  lemma ReadGridLast(text: string, k: nat, grid: string)
    requires k < |text| && |grid| < 81 && |grid + Piece(text[k])| == 81
    ensures ReadGridPost(text, k, grid)
  {
    CleanedCons(text, k, |text|);
    ReadGridStep(text, k, grid);
    CleanedCons(text, k, k + 1);
    assert text[k + 1..k + 1] == [];
  }

  /** Every character of the grid read is a digit 1-9 or '.'. */
  lemma {:induction false} CleanedChars(s: string)
    ensures forall c :: c in Cleaned(s) ==> c in Digits || c == '.'
    decreases |s|
  {
    if |s| > 0 {
      CleanedChars(s[1..]);
    }
  }
}
