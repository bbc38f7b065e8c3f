/**
  Writing a board as text (sudoku.c): `print_sudoku` as a pure function
  returning the characters it would write, in its short (81 characters) and
  long (9 lines) forms.
*/
module Printing {
  import opened Optional
  import opened Masks
  import opened Board
  import opened Codec

  /** The digit character for 1..9. */
  function DigitChar(n: int): char
    requires 1 <= n <= 9
  {
    ('0' as int + n) as char
  }

  /** The character printed for one cell: from `bits2number`, E / . / digit / !. */
  function CellChar(x: Mask): (c: char)
    ensures x == 0 ==> c == 'E'
    ensures IsFixed(x) ==> '1' <= c <= '9' && c as int - '0' as int == BitsToNumber(x)
    ensures x & AllDigits != 0 && !IsFixed(x) ==> c == '.'
    ensures x != 0 && x & AllDigits == 0 ==> c == '!'
  {
    BitsToNumberCases(x);
    var n := BitsToNumber(x);
    if n == -1 then 'E'
    else if n == 0 then '.'
    else if 1 <= n <= 9 then DigitChar(n)
    else '!'
  }

  /** The character of every cell, in row-major order. */
  function CellChars(b: Board): (cs: seq<char>)
    ensures |cs| == 81
    ensures forall p :: 0 <= p < 81 ==> cs[p] == CellChar(b[p])
  {
    seq(81, p requires 0 <= p < 81 => CellChar(b[p]))
  }

  /** The separator written after column `j` of a row in the long form: a space, a newline after the last column. */
  function Separator(j: nat): char { if j == 8 then '\n' else ' ' }

  /**
    The two loops of `print_sudoku`, flattened over the cell index
    `p = 9 * i + j`: each cell's character, followed in the long form by a
    space, or by the newline of the outer loop after the last column.
  */
  function RenderFrom(cs: seq<char>, p: nat, short: bool): seq<char>
    requires |cs| == 81 && p <= 81
    decreases 81 - p
  {
    if p == 81 then []
    else [cs[p]] + (if short then [] else [Separator(p % 9)]) + RenderFrom(cs, p + 1, short)
  }

  /** `print_sudoku`: the characters written to standard output. */
  function Render(b: Board, short: bool): seq<char> {
    RenderFrom(CellChars(b), 0, short)
  }

  lemma {:induction false} RenderShortFrom(cs: seq<char>, p: nat)
    requires |cs| == 81 && p <= 81
    ensures RenderFrom(cs, p, true) == cs[p..]
    decreases 81 - p
  {
    if p < 81 {
      RenderShortFrom(cs, p + 1);
      assert cs[p..] == [cs[p]] + cs[p + 1..];
    }
  }

  lemma {:induction false} RenderLongLength(cs: seq<char>, p: nat)
    requires |cs| == 81 && p <= 81
    ensures |RenderFrom(cs, p, false)| == 2 * (81 - p)
    decreases 81 - p
  {
    if p < 81 {
      RenderLongLength(cs, p + 1);
    }
  }

  lemma {:induction false} RenderLongAt(cs: seq<char>, p: nat, q: nat)
    requires |cs| == 81 && p <= q < 81
    ensures |RenderFrom(cs, p, false)| == 2 * (81 - p)
    ensures RenderFrom(cs, p, false)[2 * (q - p)] == cs[q]
    ensures RenderFrom(cs, p, false)[2 * (q - p) + 1] == Separator(q % 9)
    decreases q - p
  {
    RenderLongLength(cs, p);
    if p < q {
      RenderLongAt(cs, p + 1, q);
      var rest := RenderFrom(cs, p + 1, false);
      assert RenderFrom(cs, p, false) == [cs[p], Separator(p % 9)] + rest;
      assert 2 * (q - p) == 2 + 2 * (q - (p + 1));
    }
  }

  /** The short form is exactly the 81 cell characters, in row-major order. */
  lemma ShortLayout(b: Board)
    ensures Render(b, true) == CellChars(b)
    ensures |Render(b, true)| == 81
  {
    RenderShortFrom(CellChars(b), 0);
  }

  lemma LongLayoutOf(cs: seq<char>)
    requires |cs| == 81
    ensures |RenderFrom(cs, 0, false)| == 162
    ensures forall p :: 0 <= p < 81 ==>
      RenderFrom(cs, 0, false)[2 * p] == cs[p] && RenderFrom(cs, 0, false)[2 * p + 1] == Separator(p % 9)
  {
    RenderLongLength(cs, 0);
    forall p | 0 <= p < 81
      ensures RenderFrom(cs, 0, false)[2 * p] == cs[p] && RenderFrom(cs, 0, false)[2 * p + 1] == Separator(p % 9)
    {
      RenderLongAt(cs, 0, p);
    }
  }

  /**
    The long form is 162 characters: cell p (row p / 9, column p % 9) at
    position 2 * p, followed by a newline after the last column of a row and
    a space after every other column.
  */
  lemma LongLayout(b: Board)
    ensures |Render(b, false)| == 162
    ensures forall p :: 0 <= p < 81 ==>
      && Render(b, false)[2 * p] == CellChar(b[p])
      && Render(b, false)[2 * p + 1] == Separator(Col(p))
  {
    LongLayoutOf(CellChars(b));
  }

  // ---------------------------------------------------------------------------
  // Reading a printed board back
  // ---------------------------------------------------------------------------

  /** The board with every cell that is not fixed reset to all nine candidates. */
  function KnownOnly(b: Board): (r: Board)
    ensures forall p :: 0 <= p < 81 ==> IsFixed(b[p]) ==> r[p] == b[p]
    ensures forall p :: 0 <= p < 81 ==> !IsFixed(b[p]) ==> r[p] == AllDigits
  {
    seq(81, p requires 0 <= p < 81 => if IsFixed(b[p]) then b[p] else AllDigits)
  }

  /** Reading a cell's printed character gives the cell back if it is fixed, and 0x1ff otherwise. */
  lemma CellCharRereads(x: Mask)
    ensures InsertFromChar(CellChar(x)) == Some(if IsFixed(x) then x else AllDigits)
  {
    InsertFromCharSpec(CellChar(x));
    BitsToNumberCases(x);
    if IsFixed(x) {
      var m := InsertFromChar(CellChar(x)).value;
      BitsToNumberCases(m);
      MaskRoundTrip(x);
      MaskRoundTrip(m);
    }
  }

  /** No printed cell character is a space or a NUL. */
  predicate Solid(cs: seq<char>) {
    forall q :: 0 <= q < |cs| ==> cs[q] != '\0' && !IsSpaceChar(cs[q])
  }

  lemma {:induction false} TokensOfRender(cs: seq<char>, p: nat, short: bool)
    requires |cs| == 81 && p <= 81 && Solid(cs)
    ensures Tokens(RenderFrom(cs, p, short)) == Tokens(cs[p..])
    decreases 81 - p
  {
    if p < 81 {
      TokensOfRender(cs, p + 1, short);
      RenderTokenStep(cs, p, short);
    }
  }

  /** One cell of the output: both sides gain the cell's token in front, the separator adds none. */
  lemma RenderTokenStep(cs: seq<char>, p: nat, short: bool)
    requires |cs| == 81 && p < 81 && Solid(cs)
    ensures InsertFromChar(cs[p]).Some?
    ensures Tokens(cs[p..]) == [InsertFromChar(cs[p]).value] + Tokens(cs[p + 1..])
    ensures Tokens(RenderFrom(cs, p, short)) ==
      [InsertFromChar(cs[p]).value] + Tokens(RenderFrom(cs, p + 1, short))
  {
    assert cs[p..] == [cs[p]] + cs[p + 1..];
    TokensSolid(cs[p], cs[p + 1..]);
    if short {
      ShortTokenStep(cs, p);
    } else {
      LongTokenStep(cs, p);
    }
  }

  lemma ShortTokenStep(cs: seq<char>, p: nat)
    requires |cs| == 81 && p < 81 && cs[p] != '\0' && !IsSpaceChar(cs[p])
    ensures InsertFromChar(cs[p]).Some?
    ensures Tokens(RenderFrom(cs, p, true)) ==
      [InsertFromChar(cs[p]).value] + Tokens(RenderFrom(cs, p + 1, true))
  {
    var rest := RenderFrom(cs, p + 1, true);
    assert RenderFrom(cs, p, true) == [cs[p]] + rest;
    TokensSolid(cs[p], rest);
  }

  lemma LongTokenStep(cs: seq<char>, p: nat)
    requires |cs| == 81 && p < 81 && cs[p] != '\0' && !IsSpaceChar(cs[p])
    ensures InsertFromChar(cs[p]).Some?
    ensures Tokens(RenderFrom(cs, p, false)) ==
      [InsertFromChar(cs[p]).value] + Tokens(RenderFrom(cs, p + 1, false))
  {
    TokensSolidSpace(cs[p], Separator(p % 9), RenderFrom(cs, p + 1, false));
  }

  lemma {:induction false} TokensOfCells(b: Board, p: nat)
    requires p <= 81
    ensures Tokens(CellChars(b)[p..]) == KnownOnly(b)[p..]
    decreases 81 - p
  {
    if p < 81 {
      TokensOfCells(b, p + 1);
      CellTokenStep(b, p);
    }
  }

  /** One cell read back: its character gives the cell's entry of `KnownOnly`. */
  lemma CellTokenStep(b: Board, p: nat)
    requires p < 81
    ensures Tokens(CellChars(b)[p..]) == [KnownOnly(b)[p]] + Tokens(CellChars(b)[p + 1..])
    ensures KnownOnly(b)[p..] == [KnownOnly(b)[p]] + KnownOnly(b)[p + 1..]
  {
    var cs := CellChars(b);
    CellCharRereads(b[p]);
    assert cs[p..] == [cs[p]] + cs[p + 1..];
    TokensSolid(cs[p], cs[p + 1..]);
  }

  /**
    Printing a board in either form and reading it back with
    `fill_sudoku_from_string` fills all 81 cells, giving back every fixed
    cell and 0x1ff for every other one.
  */
  lemma ParseRender(b: Board, short: bool)
    ensures FillSudokuFromString(Render(b, short)) == (KnownOnly(b), 81)
  {
    RenderTokens(b, short);
    FillFromTokens(Render(b, short));
    assert KnownOnly(b)[..81] == KnownOnly(b);
  }

  /** The tokens of a printed board, in either form, are its `KnownOnly` cells. */
  lemma RenderTokens(b: Board, short: bool)
    ensures Tokens(Render(b, short)) == KnownOnly(b)
  {
    var cs := CellChars(b);
    forall q | 0 <= q < 81
      ensures cs[q] != '\0' && !IsSpaceChar(cs[q])
    {
      CellCharRereads(b[q]);
    }
    TokensOfRender(cs, 0, short);
    TokensOfCells(b, 0);
    assert cs[0..] == cs;
    assert KnownOnly(b)[0..] == KnownOnly(b);
  }

  /** A fully fixed board survives printing and reading back unchanged. */
  lemma ParseRenderFixed(b: Board, short: bool)
    requires AllFixed(b)
    ensures FillSudokuFromString(Render(b, short)) == (b, 81)
  {
    ParseRender(b, short);
    assert KnownOnly(b) == b;
  }
}
