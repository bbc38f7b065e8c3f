/**
  Constraint propagation of the Python solver: `assign` and `eliminate`
  (sudoku.py:75-105). The `values` dictionary maps every square to the
  string of its remaining candidate digits; here it is a sequence of 81
  strings indexed by cell, in the order of `squares`. The Python functions
  update the dictionary in place and return it or False; the model threads
  the dictionary through and returns `Some(values)` or `None`.
*/
module NorvigPropagation {
  import opened Optional
  import opened Board
  import opened NorvigTables

  /** The candidate strings of all 81 squares, in the order of `squares`. */
  type Values = v: seq<string> | |v| == 81 witness seq(81, p => Digits)

  /** `s.replace(d, '')`: `s` without any occurrence of `d`. */
  function Remove(s: string, d: char): (r: string)
    ensures |r| <= |s|
    ensures forall c :: c in r <==> c in s && c != d
    ensures d in s ==> |r| < |s|
    decreases |s|
  {
    if |s| == 0 then []
    else (if s[0] == d then [] else [s[0]]) + Remove(s[1..], d)
  }

  /** No digit appears twice in a candidate string. */
  predicate NoRepeats(s: string) {
    forall i, j :: 0 <= i < j < |s| ==> s[i] != s[j]
  }

  lemma {:induction false} RemoveNoRepeats(s: string, d: char)
    requires NoRepeats(s)
    ensures NoRepeats(Remove(s, d))
    decreases |s|
  {
    if |s| > 0 {
      var t := s[1..];
      assert NoRepeats(t) by {
        forall i, j | 0 <= i < j < |t| ensures t[i] != t[j] {
          assert t[i] == s[i + 1] && t[j] == s[j + 1];
        }
      }
      RemoveNoRepeats(t, d);
      assert s[0] !in t by {
        forall k | 0 <= k < |t| ensures t[k] != s[0] {
          assert t[k] == s[k + 1];
        }
      }
      var h: string := if s[0] == d then [] else [s[0]];
      var rest := Remove(t, d);
      assert Remove(s, d) == h + rest;
      forall i, j | 0 <= i < j < |h + rest| ensures (h + rest)[i] != (h + rest)[j] {
        if |h| == 1 && i == 0 {
          assert (h + rest)[j] == rest[j - 1];
          assert rest[j - 1] in rest;
        } else {
          assert (h + rest)[i] == rest[i - |h|] && (h + rest)[j] == rest[j - |h|];
        }
      }
    }
  }

  /** The total number of candidates left on the board. */
  function CandidateCount(v: seq<string>): nat
    decreases |v|
  {
    if |v| == 0 then 0 else |v[0]| + CandidateCount(v[1..])
  }

  lemma {:induction false} CandidateCountUpdate(v: seq<string>, p: nat, x: string)
    requires p < |v|
    ensures CandidateCount(v[p := x]) + |v[p]| == CandidateCount(v) + |x|
    decreases |v|
  {
    if p > 0 {
      CandidateCountUpdate(v[1..], p - 1, x);
      assert v[p := x][1..] == v[1..][p - 1 := x];
    } else {
      assert v[p := x][1..] == v[1..];
    }
  }

  /** Index into `unitlist` of the `k`-th unit of `units[s]` for the square of `q`. */
  function UnitOf(q: Cell, k: nat): (u: nat)
    requires k < 3
    ensures u < 27
  {
    if k == 0 then ColumnUnit(q) else if k == 1 then RowUnit(q) else BoxUnit(q)
  }

  /** The cells of unit `u`, in the order the unit lists their squares. */
  function UnitCells(u: nat): (cs: seq<Cell>)
    requires u < 27
    ensures |cs| == 9
  {
    seq(9, m requires 0 <= m < 9 => UnitCell(u, m))
  }

  /** The cell sequences iterated here are the units of `units[s]`, square by square. */
  lemma UnitCellsAreUnits(q: Cell, k: nat, m: nat)
    requires k < 3 && m < 9
    ensures |Units(Label(q))| == 3 && |Units(Label(q))[k]| == 9
    ensures Units(Label(q))[k][m] == Label(UnitCells(UnitOf(q, k))[m])
  {
    UnitsOfCell(q);
    UnitListAt(UnitOf(q, k), m);
  }

  /** `[s for s in u if d in values[s]]`. */
  function Places(v: Values, u: seq<Cell>, d: char): (ps: seq<Cell>)
    ensures |ps| <= |u|
    ensures forall p :: p in ps <==> p in u && d in v[p]
    decreases |u|
  {
    if |u| == 0 then []
    else (if d in v[u[0]] then [u[0]] else []) + Places(v, u[1..], d)
  }

  /**
    `eliminate(values, s, d)`. Removes `d` from the candidates of `q`; when
    that leaves one candidate it is removed from every peer (rule 1), and
    every unit of `q` left with one place for `d` gets `d` assigned there
    (rule 2). The single remaining digit of `q` is read once before the
    peers are visited; the Python re-reads it for every peer, which gives
    the same digit whenever the loop goes on (see `PeerDigitStays`).
  */
  function Eliminate(v: Values, q: Cell, d: char): (r: Option<Values>)
    ensures d !in v[q] ==> r == Some(v)
    ensures d in v[q] && |Remove(v[q], d)| == 0 ==> r == None
    ensures r.Some? ==> CandidateCount(r.value) <= CandidateCount(v)
    ensures r.Some? && d in v[q] ==> CandidateCount(r.value) < CandidateCount(v)
    decreases CandidateCount(v), 0, 0
  {
    if d !in v[q] then Some(v)
    else
      var v1 := v[q := Remove(v[q], d)];
      CandidateCountUpdate(v, q, Remove(v[q], d));
      if |v1[q]| == 0 then None
      else
        var after := if |v1[q]| == 1 then EliminateFromPeers(v1, q, v1[q][0], 0) else Some(v1);
        match after
        case None => None
        case Some(v2) => CheckUnits(v2, q, d, 0)
  }

  /** `all(eliminate(values, s2, d2) for s2 in peers[s])`, from the `i`-th peer on. */
  function EliminateFromPeers(v: Values, q: Cell, d2: char, i: nat): (r: Option<Values>)
    requires i <= 20
    ensures r.Some? ==> CandidateCount(r.value) <= CandidateCount(v)
    decreases CandidateCount(v), 1, 20 - i
  {
    if i == 20 then Some(v)
    else
      match Eliminate(v, PeerList(q)[i], d2)
      case None => None
      case Some(v') => EliminateFromPeers(v', q, d2, i + 1)
  }

  /** The loop over `units[s]` of rule 2, from the `k`-th unit on. */
  function CheckUnits(v: Values, q: Cell, d: char, k: nat): (r: Option<Values>)
    requires k <= 3
    ensures r.Some? ==> CandidateCount(r.value) <= CandidateCount(v)
    decreases CandidateCount(v), 3, 3 - k
  {
    if k == 3 then Some(v)
    else
      var places := Places(v, UnitCells(UnitOf(q, k)), d);
      if |places| == 0 then None
      else if |places| == 1 then
        match Assign(v, places[0], d)
        case None => None
        case Some(v') => CheckUnits(v', q, d, k + 1)
      else CheckUnits(v, q, d, k + 1)
  }

  /** `assign(values, s, d)`: eliminate every other candidate of `q`. */
  function Assign(v: Values, q: Cell, d: char): (r: Option<Values>)
    ensures r.Some? ==> CandidateCount(r.value) <= CandidateCount(v)
    ensures r.Some? && |Remove(v[q], d)| > 0 ==> CandidateCount(r.value) < CandidateCount(v)
    decreases CandidateCount(v), 2, 0
  {
    EliminateAll(v, q, Remove(v[q], d), 0)
  }

  /** `all(eliminate(values, s, d2) for d2 in other_values)`, from the `i`-th digit on. */
  function EliminateAll(v: Values, q: Cell, others: string, i: nat): (r: Option<Values>)
    requires i <= |others|
    ensures r.Some? ==> CandidateCount(r.value) <= CandidateCount(v)
    ensures r.Some? && i < |others| && others[i] in v[q] ==> CandidateCount(r.value) < CandidateCount(v)
    decreases CandidateCount(v), 1, |others| - i
  {
    if i == |others| then Some(v)
    else
      match Eliminate(v, q, others[i])
      case None => None
      case Some(v') => EliminateAll(v', q, others, i + 1)
  }
}
