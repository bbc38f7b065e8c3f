/**
  Reading a board from text (sudoku.c): the character classifier and the
  scan behind `fill_sudoku_from_string`.
*/
module Codec {
  import opened Optional
  import opened Masks
  import opened Board

  /** `isdigit` in the C locale. */
  predicate IsDigitChar(c: char) {
    '0' <= c <= '9'
  }

  /** `isspace` in the C locale: space, \t, \n, \v, \f, \r. */
  predicate IsSpaceChar(c: char) {
    c == ' ' || c == '\t' || c == '\n' || c == '\U{000B}' || c == '\U{000C}' || c == '\r'
  }

  /**
    `insert_from_char`: the mask written for `c`, or None when `c` is
    whitespace and the write pointer does not move.
  */
  function InsertFromChar(c: char): Option<Mask> {
    if IsDigitChar(c) then Some(NumberToBits(c as int - '0' as int))
    else if IsSpaceChar(c) then None
    else Some(AllDigits)
  }

  /**
    Only whitespace is skipped; a digit 1..9 gives the fixed mask that
    `bits2number` reads back as that digit, and every other character
    (including '0') gives all nine candidates.
  */
  lemma InsertFromCharSpec(c: char)
    ensures InsertFromChar(c).None? <==> IsSpaceChar(c)
    ensures '1' <= c <= '9' ==>
      && InsertFromChar(c).Some? && IsFixed(InsertFromChar(c).value)
      && BitsToNumber(InsertFromChar(c).value) == c as int - '0' as int
    ensures !('1' <= c <= '9') && !IsSpaceChar(c) ==> InsertFromChar(c) == Some(AllDigits)
  {
    if IsDigitChar(c) {
      NumberRoundTrip(c as int - '0' as int);
    }
  }

  /**
    Reference reading of a C string: the masks of its non-space characters
    up to the first NUL (or the end of the sequence), in order.
  */
  function Tokens(s: seq<char>): seq<Mask>
    decreases |s|
  {
    if |s| == 0 || s[0] == '\0' then []
    else match InsertFromChar(s[0])
      case None => Tokens(s[1..])
      case Some(m) => [m] + Tokens(s[1..])
  }

  /**
    The loop of `fill_sudoku_from_string` at character `k` with `n` cells
    written into `b`; answers the final board and the number of cells filled.
  */
  function FillLoop(s: seq<char>, k: nat, b: Board, n: nat): (Board, nat)
    requires k <= |s| && n <= 81
    decreases |s| - k
  {
    if k == |s| || s[k] == '\0' || n == 81 then (b, n)
    else match InsertFromChar(s[k])
      case None => FillLoop(s, k + 1, b, n)
      case Some(m) => FillLoop(s, k + 1, b[n := m], n + 1)
  }

  /** `fill_sudoku_from_string`: clear the board, then fill cells from the string. */
  function FillSudokuFromString(s: seq<char>): (Board, nat) {
    FillLoop(s, 0, ClearSudoku(), 0)
  }

  function Min(a: nat, b: nat): nat { if a <= b then a else b }

  lemma {:induction false} FillLoopSpec(s: seq<char>, k: nat, b: Board, n: nat)
    requires k <= |s| && n <= 81
    requires forall p :: n <= p < 81 ==> b[p] == AllDigits
    ensures var (r, count) := FillLoop(s, k, b, n);
      var t := Tokens(s[k..]);
      && count == n + Min(81 - n, |t|)
      && (forall p :: 0 <= p < n ==> r[p] == b[p])
      && (forall p :: n <= p < count ==> r[p] == t[p - n])
      && (forall p :: count <= p < 81 ==> r[p] == AllDigits)
    decreases |s| - k
  {
    if k == |s| || s[k] == '\0' || n == 81 {
      if n == 81 {
      } else {
        assert Tokens(s[k..]) == [];
      }
    } else {
      assert s[k..][1..] == s[k + 1..];
      match InsertFromChar(s[k])
      case None =>
        FillLoopSpec(s, k + 1, b, n);
      case Some(m) =>
        FillLoopSpec(s, k + 1, b[n := m], n + 1);
    }
  }

  /**
    The parser fills exactly the first min(81, #tokens) cells, each with the
    mask of its character, and leaves every later cell at 0x1ff.
  */
  lemma FillSudokuFromStringSpec(s: seq<char>)
    ensures var (r, count) := FillSudokuFromString(s);
      && count == Min(81, |Tokens(s)|)
      && count <= 81
      && (forall p :: 0 <= p < count ==> r[p] == Tokens(s)[p])
      && (forall p :: count <= p < 81 ==> r[p] == AllDigits)
  {
    assert s[0..] == s;
    FillLoopSpec(s, 0, ClearSudoku(), 0);
  }

  /** A string with at least 81 tokens fills the whole board with its first 81. */
  lemma FillFromTokens(s: seq<char>)
    requires |Tokens(s)| >= 81
    ensures FillSudokuFromString(s) == (Tokens(s)[..81], 81)
  {
    FillSudokuFromStringSpec(s);
    var (r, count) := FillSudokuFromString(s);
    assert r == Tokens(s)[..81];
  }

  /** A leading space adds no token. */
  lemma TokensSpace(c: char, t: seq<char>)
    requires IsSpaceChar(c)
    ensures Tokens([c] + t) == Tokens(t)
  {
    InsertFromCharSpec(c);
    assert ([c] + t)[1..] == t;
  }

  /** A leading character that is neither a space nor NUL adds its own mask in front. */
  lemma TokensSolid(c: char, t: seq<char>)
    requires c != '\0' && !IsSpaceChar(c)
    ensures InsertFromChar(c).Some?
    ensures Tokens([c] + t) == [InsertFromChar(c).value] + Tokens(t)
  {
    InsertFromCharSpec(c);
    assert ([c] + t)[1..] == t;
  }

  /** A solid character followed by a space: one token. */
  lemma TokensSolidSpace(c: char, sp: char, t: seq<char>)
    requires c != '\0' && !IsSpaceChar(c) && IsSpaceChar(sp)
    ensures InsertFromChar(c).Some?
    ensures Tokens([c] + [sp] + t) == [InsertFromChar(c).value] + Tokens(t)
  {
    assert [c] + [sp] + t == [c] + ([sp] + t);
    TokensSolid(c, [sp] + t);
    TokensSpace(sp, t);
  }

  lemma {:induction false} TokensAppend(x: seq<char>, y: seq<char>)
    requires forall i :: 0 <= i < |x| ==> x[i] != '\0'
    ensures Tokens(x + y) == Tokens(x) + Tokens(y)
    decreases |x|
  {
    if |x| == 0 {
      assert x + y == y;
    } else {
      assert (x + y)[1..] == x[1..] + y;
      TokensAppend(x[1..], y);
    }
  }
}
