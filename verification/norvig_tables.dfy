/**
  The square, unit and peer tables of the Python solver (sudoku.py).
  Squares are labelled by a row letter A..I and a column digit 1..9; the
  square with label `Label(p)` is cell `p` in row-major order. The tables
  are defined the way the Python builds them, from `cross`, and the lemmas
  here give their shape in terms of rows, columns and boxes.
*/
module NorvigTables {
  import opened Board
  import opened Sequences

  const Digits: string := "123456789"
  const Rows: string := "ABCDEFGHI"
  const Cols: string := Digits

  /** `cross(A, B)`: every `a + b`, with `a` varying slowest. */
  function Cross(a: string, b: string): (r: seq<string>)
    decreases |a|
  {
    if |a| == 0 then []
    else seq(|b|, j requires 0 <= j < |b| => [a[0], b[j]]) + Cross(a[1..], b)
  }

  lemma {:induction false} CrossAt(a: string, b: string, i: nat, j: nat)
    requires i < |a| && j < |b|
    ensures |Cross(a, b)| == |a| * |b|
    ensures i * |b| + j < |a| * |b|
    ensures Cross(a, b)[i * |b| + j] == [a[i], b[j]]
    decreases |a|
  {
    CrossLength(a, b);
    if i > 0 {
      CrossAt(a[1..], b, i - 1, j);
      assert i * |b| + j == |b| + ((i - 1) * |b| + j);
    }
  }

  lemma {:induction false} CrossLength(a: string, b: string)
    ensures |Cross(a, b)| == |a| * |b|
    decreases |a|
  {
    if |a| > 0 {
      CrossLength(a[1..], b);
      assert |a| * |b| == |b| + (|a| - 1) * |b|;
    }
  }

  /** The label of cell `p`, such as "C2" for row C, column 2. */
  function Label(p: Cell): string {
    [Rows[Row(p)], Cols[Col(p)]]
  }

  lemma LabelInjective(p: Cell, q: Cell)
    ensures Label(p) == Label(q) <==> p == q
  {
    if Label(p) == Label(q) {
      assert Rows[Row(p)] == Rows[Row(q)] && Cols[Col(p)] == Cols[Col(q)];
      assert Row(p) == Row(q) && Col(p) == Col(q);
    }
  }

  /** `squares`: the 81 labels, row by row. */
  function Squares(): seq<string> {
    Cross(Rows, Cols)
  }

  /** There are 81 squares, and square `p` of the table is the label of cell `p`. */
  lemma SquaresAt(p: Cell)
    ensures |Squares()| == 81
    ensures Squares()[p] == Label(p)
  {
    CrossAt(Rows, Cols, Row(p), Col(p));
  }

  /** The three-row bands and three-column stacks the box units are built from. */
  const Bands: seq<string> := ["ABC", "DEF", "GHI"]
  const Stacks: seq<string> := ["123", "456", "789"]

  /** The unit lists of `unitlist`: columns, rows and boxes band by band. */
  function ColumnUnits(): seq<seq<string>> {
    seq(9, c requires 0 <= c < 9 => Cross(Rows, [Cols[c]]))
  }

  function RowUnits(): seq<seq<string>> {
    seq(9, r requires 0 <= r < 9 => Cross([Rows[r]], Cols))
  }

  function BoxUnits(): seq<seq<string>> {
    seq(9, b requires 0 <= b < 9 => Cross(Bands[Third(b)], Stacks[Rem3(b)]))
  }

  /** `unitlist`: the nine columns, then the nine rows, then the nine boxes. */
  function UnitList(): seq<seq<string>> {
    ColumnUnits() + RowUnits() + BoxUnits()
  }

  /** `x / 3` and `x % 3` for `x < 9`, written out by cases. */
  function Third(x: nat): (t: nat)
    requires x < 9
    ensures t < 3
  {
    if x < 3 then 0 else if x < 6 then 1 else 2
  }

  function Rem3(x: nat): (t: nat)
    requires x < 9
    ensures t < 3
  {
    x - 3 * Third(x)
  }

  lemma ThirdIsDiv(x: nat)
    requires x < 9
    ensures x / 3 == Third(x) && x % 3 == Rem3(x)
  {
  }

  /** The cells of unit `k` of `unitlist`, in the order the unit lists them. */
  function UnitCell(k: nat, m: nat): Cell
    requires k < 27 && m < 9
  {
    if k < 9 then 9 * m + k
    else if k < 18 then 9 * (k - 9) + m
    else
      var b := k - 18;
      9 * (3 * Third(b) + Third(m)) + 3 * Rem3(b) + Rem3(m)
  }

  lemma BandAt(a: nat, i: nat)
    requires a < 3 && i < 3
    ensures |Bands[a]| == 3 && |Stacks[a]| == 3
    ensures Bands[a][i] == Rows[3 * a + i] && Stacks[a][i] == Cols[3 * a + i]
  {
  }

  lemma UnitListParts(k: nat)
    requires k < 27
    ensures |UnitList()| == 27
    ensures k < 9 ==> UnitList()[k] == Cross(Rows, [Cols[k]])
    ensures 9 <= k < 18 ==> UnitList()[k] == Cross([Rows[k - 9]], Cols)
    ensures 18 <= k ==> UnitList()[k] == Cross(Bands[Third(k - 18)], Stacks[Rem3(k - 18)])
  {
    if k < 9 {
      assert UnitList()[k] == ColumnUnits()[k];
    } else if k < 18 {
      assert UnitList()[k] == RowUnits()[k - 9];
    } else {
      assert UnitList()[k] == BoxUnits()[k - 18];
    }
  }

  lemma UnitListAt(k: nat, m: nat)
    requires k < 27 && m < 9
    ensures |UnitList()| == 27 && |UnitList()[k]| == 9
    ensures UnitList()[k][m] == Label(UnitCell(k, m))
  {
    UnitListParts(k);
    if k < 9 {
      ColumnUnitAt(k, m);
    } else if k < 18 {
      RowUnitAt(k - 9, m);
    } else {
      BoxUnitAt(k - 18, m);
    }
  }

  lemma ColumnUnitAt(c: nat, m: nat)
    requires c < 9 && m < 9
    ensures |Cross(Rows, [Cols[c]])| == 9
    ensures Cross(Rows, [Cols[c]])[m] == Label(UnitCell(c, m))
  {
    CrossAt(Rows, [Cols[c]], m, 0);
    CellCoordinates(m, c);
  }

  lemma RowUnitAt(r: nat, m: nat)
    requires r < 9 && m < 9
    ensures |Cross([Rows[r]], Cols)| == 9
    ensures Cross([Rows[r]], Cols)[m] == Label(UnitCell(9 + r, m))
  {
    CrossAt([Rows[r]], Cols, 0, m);
    CellCoordinates(r, m);
  }

  lemma BoxUnitAt(b: nat, m: nat)
    requires b < 9 && m < 9
    ensures |Cross(Bands[Third(b)], Stacks[Rem3(b)])| == 9
    ensures Cross(Bands[Third(b)], Stacks[Rem3(b)])[m] == Label(UnitCell(18 + b, m))
  {
    BandAt(Third(b), Third(m));
    BandAt(Rem3(b), Rem3(m));
    CrossAt(Bands[Third(b)], Stacks[Rem3(b)], Third(m), Rem3(m));
    assert 3 * Third(m) + Rem3(m) == m;
    BoxCellCoordinates(b, m);
  }

  lemma BoxCellCoordinates(b: nat, m: nat)
    requires b < 9 && m < 9
    ensures var p: Cell := 9 * (3 * Third(b) + Third(m)) + 3 * Rem3(b) + Rem3(m);
      && Row(p) == 3 * Third(b) + Third(m) && Col(p) == 3 * Rem3(b) + Rem3(m)
      && Box(p) == b
  {
    var i, j := 3 * Third(b) + Third(m), 3 * Rem3(b) + Rem3(m);
    CellCoordinates(i, j);
    ThirdIsDiv(i);
    ThirdIsDiv(j);
  }

  /** The unit index of the column, row and box of cell `p`. */
  function ColumnUnit(p: Cell): (k: nat)
    ensures k < 9
  {
    Col(p)
  }

  function RowUnit(p: Cell): (k: nat)
    ensures 9 <= k < 18
  {
    9 + Row(p)
  }

  function BoxUnit(p: Cell): (k: nat)
    ensures 18 <= k < 27
  {
    BoxOfCell(p);
    18 + Box(p)
  }

  /** Cell `p` lies in unit `k` exactly when `k` is its column, row or box. */
  lemma InUnit(p: Cell, k: nat)
    requires k < 27
    ensures |UnitList()| == 27
    ensures Label(p) in UnitList()[k] <==> k == ColumnUnit(p) || k == RowUnit(p) || k == BoxUnit(p)
  {
    UnitListAt(k, 0);
    if Label(p) in UnitList()[k] {
      InUnitOnlyOwn(p, k);
    }
    if k == ColumnUnit(p) || k == RowUnit(p) || k == BoxUnit(p) {
      UnitIndexSpec(p, k);
      UnitListAt(k, UnitIndex(p, k));
    }
  }

  lemma InUnitOnlyOwn(p: Cell, k: nat)
    requires k < 27
    requires |UnitList()| == 27 && Label(p) in UnitList()[k]
    ensures k == ColumnUnit(p) || k == RowUnit(p) || k == BoxUnit(p)
  {
    UnitListAt(k, 0);
    var u := UnitList()[k];
    var m :| 0 <= m < 9 && u[m] == Label(p);
    UnitListAt(k, m);
    LabelInjective(p, UnitCell(k, m));
    assert p == UnitCell(k, m);
    UnitCellUnits(k, m);
  }

  /** The `m`-th cell of unit `k` has unit `k` among its own. */
  lemma UnitCellUnits(k: nat, m: nat)
    requires k < 27 && m < 9
    ensures var q := UnitCell(k, m);
      k == ColumnUnit(q) || k == RowUnit(q) || k == BoxUnit(q)
  {
    if k < 9 {
      ColumnUnitCell(k, m);
    } else if k < 18 {
      RowUnitCell(k, m);
    } else {
      BoxUnitCell(k, m);
    }
  }

  lemma ColumnUnitCell(k: nat, m: nat)
    requires k < 9 && m < 9
    ensures ColumnUnit(UnitCell(k, m)) == k
  {
    CellCoordinates(m, k);
  }

  lemma RowUnitCell(k: nat, m: nat)
    requires 9 <= k < 18 && m < 9
    ensures RowUnit(UnitCell(k, m)) == k
  {
    CellCoordinates(k - 9, m);
  }

  lemma BoxUnitCell(k: nat, m: nat)
    requires 18 <= k < 27 && m < 9
    ensures BoxUnit(UnitCell(k, m)) == k
  {
    BoxCellCoordinates(k - 18, m);
  }

  /** Where cell `p` sits in one of its own units. */
  function UnitIndex(p: Cell, k: nat): (m: nat)
    ensures m < 9
  {
    if k < 9 then Row(p)
    else if k < 18 then Col(p)
    else 3 * Rem3(Row(p)) + Rem3(Col(p))
  }

  lemma ThirdOf(a: nat, c: nat)
    requires a < 3 && c < 3
    ensures Third(3 * a + c) == a && Rem3(3 * a + c) == c
  {
  }

  lemma UnitIndexSpec(p: Cell, k: nat)
    requires k == ColumnUnit(p) || k == RowUnit(p) || k == BoxUnit(p)
    ensures k < 27 && UnitCell(k, UnitIndex(p, k)) == p
  {
    BoxOfCell(p);
    var r, c := Row(p), Col(p);
    if k >= 18 {
      ThirdOf(Third(r), Third(c));
      ThirdOf(Rem3(r), Rem3(c));
      assert r == 3 * Third(r) + Rem3(r) && c == 3 * Third(c) + Rem3(c);
    }
  }

  /** The box of `p` in terms of `Third` and `Rem3`. */
  lemma BoxOfCell(p: Cell)
    ensures Box(p) == 3 * Third(Row(p)) + Third(Col(p))
    ensures p == 9 * Row(p) + Col(p)
  {
    ThirdIsDiv(Row(p));
    ThirdIsDiv(Col(p));
  }

  /** `[u for u in unitlist if s in u]`, over the units from `us`. */
  function UnitsContaining(us: seq<seq<string>>, s: string): seq<seq<string>>
    decreases |us|
  {
    if |us| == 0 then []
    else (if s in us[0] then [us[0]] else []) + UnitsContaining(us[1..], s)
  }

  /** `units[s]`. */
  function Units(s: string): seq<seq<string>> {
    UnitsContaining(UnitList(), s)
  }

  /**
    The units of a cell among the units `all` from index `i` on, given the
    indices `c`, `r` and `b` of its column, row and box.
  */
  function UnitsFrom(all: seq<seq<string>>, c: nat, r: nat, b: nat, i: nat): seq<seq<string>>
    requires |all| == 27 && c < 9 <= r < 18 <= b < 27 && i <= 27
  {
    if i <= c then [all[c], all[r], all[b]]
    else if i <= r then [all[r], all[b]]
    else if i <= b then [all[b]]
    else []
  }

  lemma {:induction false} UnitsContainingFrom(p: Cell, i: nat)
    requires i <= 27
    ensures |UnitList()| == 27
    ensures UnitsContaining(UnitList()[i..], Label(p)) == UnitsFrom(UnitList(), ColumnUnit(p), RowUnit(p), BoxUnit(p), i)
    decreases 27 - i
  {
    UnitListAt(0, 0);
    var all := UnitList();
    if i < 27 {
      UnitsContainingFrom(p, i + 1);
      InUnit(p, i);
      UnitsFromStep(all, ColumnUnit(p), RowUnit(p), BoxUnit(p), i);
      assert all[i..][1..] == all[i + 1..];
      assert UnitsContaining(all[i..], Label(p))
        == (if Label(p) in all[i] then [all[i]] else []) + UnitsContaining(all[i + 1..], Label(p));
    }
  }

  lemma UnitsFromStep(all: seq<seq<string>>, c: nat, r: nat, b: nat, i: nat)
    requires |all| == 27 && c < 9 <= r < 18 <= b < 27 && i < 27
    ensures UnitsFrom(all, c, r, b, i) == (if i == c || i == r || i == b then [all[i]] else [])
      + UnitsFrom(all, c, r, b, i + 1)
  {
    if i < c {
      assert UnitsFrom(all, c, r, b, i) == UnitsFrom(all, c, r, b, i + 1);
    } else if i == c {
      assert UnitsFrom(all, c, r, b, i) == [all[c]] + UnitsFrom(all, c, r, b, i + 1);
    } else if i < r {
      assert UnitsFrom(all, c, r, b, i) == UnitsFrom(all, c, r, b, i + 1);
    } else if i == r {
      assert UnitsFrom(all, c, r, b, i) == [all[r]] + UnitsFrom(all, c, r, b, i + 1);
    } else if i < b {
      assert UnitsFrom(all, c, r, b, i) == UnitsFrom(all, c, r, b, i + 1);
    } else if i == b {
      assert UnitsFrom(all, c, r, b, i) == [all[b]] + UnitsFrom(all, c, r, b, i + 1);
    } else {
      assert UnitsFrom(all, c, r, b, i) == UnitsFrom(all, c, r, b, i + 1);
    }
  }

  /**
    Every square lies in exactly three units: its column, its row and its
    box, in that order (the order of `unitlist`).
  */
  lemma UnitsOfCell(p: Cell)
    ensures |UnitList()| == 27
    ensures Units(Label(p)) == [UnitList()[ColumnUnit(p)], UnitList()[RowUnit(p)], UnitList()[BoxUnit(p)]]
  {
    UnitsContainingFrom(p, 0);
    assert UnitList()[0..] == UnitList();
  }

  /** `sum(units[s], [])`: the units' labels one after another. */
  function Concat(us: seq<seq<string>>): seq<string>
    decreases |us|
  {
    if |us| == 0 then [] else us[0] + Concat(us[1..])
  }

  /** `peers[s]`: every label in a unit of `s`, except `s` itself. */
  function Peers(s: string): set<string> {
    (set x | x in Concat(Units(s))) - {s}
  }

  // ---------------------------------------------------------------------------
  // The peers of a cell, listed
  // ---------------------------------------------------------------------------

  /** The `t`-th of the two other rows (or columns) of the band (or stack) of `x`. */
  function OtherInBand(x: nat, t: nat): nat
    requires x < 9 && t < 2
  {
    3 * Third(x) + (if t < Rem3(x) then t else t + 1)
  }

  /** The `t`-th of the eight other indices 0..8 besides `x`. */
  function OtherIndex(x: nat, t: nat): nat
    requires x < 9 && t < 8
  {
    if t < x then t else t + 1
  }

  /** The four box cells outside the row and column go two to a row: `t / 2` and `t % 2`. */
  function PairRow(t: nat): nat
    requires t < 4
  {
    if t < 2 then 0 else 1
  }

  function PairCol(t: nat): nat
    requires t < 4
  {
    if t < 2 then t else t - 2
  }

  /**
    The 20 peers of `p`, in the order they first occur in its column, row
    and box: the column from the top, the row from the left, then the four
    box cells outside both.
  */
  function PeerList(p: Cell): (ps: seq<Cell>)
    ensures |ps| == 20
  {
    ColumnPeers(Row(p), Col(p)) + RowPeers(Row(p), Col(p)) + BoxPeers(Row(p), Col(p))
  }

  function ColumnPeers(r: nat, c: nat): (ps: seq<Cell>)
    requires r < 9 && c < 9
    ensures |ps| == 8
  {
    seq(8, t requires 0 <= t < 8 => 9 * OtherIndex(r, t) + c)
  }

  function RowPeers(r: nat, c: nat): (ps: seq<Cell>)
    requires r < 9 && c < 9
    ensures |ps| == 8
  {
    seq(8, t requires 0 <= t < 8 => 9 * r + OtherIndex(c, t))
  }

  function BoxPeers(r: nat, c: nat): (ps: seq<Cell>)
    requires r < 9 && c < 9
    ensures |ps| == 4
  {
    seq(4, t requires 0 <= t < 4 => 9 * OtherInBand(r, PairRow(t)) + OtherInBand(c, PairCol(t)))
  }

  /** Two cells share a column, a row or a box. */
  predicate SharesUnit(p: Cell, q: Cell) {
    Row(p) == Row(q) || Col(p) == Col(q) || Box(p) == Box(q)
  }

  lemma CellCoordinates(i: nat, j: nat)
    requires i < 9 && j < 9
    ensures var p: Cell := 9 * i + j; Row(p) == i && Col(p) == j
  {
  }

  lemma OtherInBandFacts(x: nat, t: nat)
    requires x < 9 && t < 2
    ensures OtherInBand(x, t) < 9 && OtherInBand(x, t) != x
    ensures Third(OtherInBand(x, t)) == Third(x)
    ensures Rem3(OtherInBand(x, t)) == (if t < Rem3(x) then t else t + 1)
  {
  }

  /** Where the `k`-th listed peer of `p` lies. */
  lemma PeerListEntries(p: Cell, k: nat)
    requires k < 20
    ensures var q := PeerList(p)[k];
      && q != p && SharesUnit(p, q)
      && (k < 8 ==> Col(q) == Col(p) && Row(q) == OtherIndex(Row(p), k))
      && (8 <= k < 16 ==> Row(q) == Row(p) && Col(q) == OtherIndex(Col(p), k - 8))
      && (16 <= k ==> Row(q) == OtherInBand(Row(p), PairRow(k - 16)) && Col(q) == OtherInBand(Col(p), PairCol(k - 16)))
  {
    if k < 8 {
      ColumnPeerEntry(p, k);
    } else if k < 16 {
      RowPeerEntry(p, k);
    } else {
      BoxPeerEntry(p, k);
    }
  }

  lemma ColumnPeerEntry(p: Cell, k: nat)
    requires k < 8
    ensures var q := PeerList(p)[k];
      q != p && Col(q) == Col(p) && Row(q) == OtherIndex(Row(p), k)
  {
    var r, c := Row(p), Col(p);
    assert PeerList(p)[k] == 9 * OtherIndex(r, k) + c;
    CellCoordinates(OtherIndex(r, k), c);
  }

  lemma RowPeerEntry(p: Cell, k: nat)
    requires 8 <= k < 16
    ensures var q := PeerList(p)[k];
      q != p && Row(q) == Row(p) && Col(q) == OtherIndex(Col(p), k - 8)
  {
    var r, c := Row(p), Col(p);
    assert PeerList(p)[k] == 9 * r + OtherIndex(c, k - 8);
    CellCoordinates(r, OtherIndex(c, k - 8));
  }

  lemma BoxPeerEntry(p: Cell, k: nat)
    requires 16 <= k < 20
    ensures var q := PeerList(p)[k];
      && q != p && Box(q) == Box(p)
      && Row(q) == OtherInBand(Row(p), PairRow(k - 16)) && Col(q) == OtherInBand(Col(p), PairCol(k - 16))
  {
    var r, c := Row(p), Col(p);
    var t := k - 16;
    LastPartAt(ColumnPeers(r, c), RowPeers(r, c), BoxPeers(r, c), k);
    assert BoxPeers(r, c)[t] == 9 * OtherInBand(r, PairRow(t)) + OtherInBand(c, PairCol(t));
    BoxOfCell(p);
    BoxCellAt(r, c, PairRow(t), PairCol(t));
  }

  lemma LastPartAt(x: seq<Cell>, y: seq<Cell>, z: seq<Cell>, k: nat)
    requires |x| + |y| <= k < |x| + |y| + |z|
    ensures (x + y + z)[k] == z[k - |x| - |y|]
  {
  }

  /** The box cell in the `a`-th other row and `b`-th other column of the band and stack of (r, c). */
  lemma BoxCellAt(r: nat, c: nat, a: nat, b: nat)
    requires r < 9 && c < 9 && a < 2 && b < 2
    ensures var p: Cell := 9 * r + c;
      var q: Cell := 9 * OtherInBand(r, a) + OtherInBand(c, b);
      && q != p && Box(q) == Box(p)
      && Row(q) == OtherInBand(r, a) && Col(q) == OtherInBand(c, b)
  {
    var p: Cell := 9 * r + c;
    var q: Cell := 9 * OtherInBand(r, a) + OtherInBand(c, b);
    OtherInBandFacts(r, a);
    OtherInBandFacts(c, b);
    CellCoordinates(r, c);
    CellCoordinates(OtherInBand(r, a), OtherInBand(c, b));
    BoxOfCell(p);
    BoxOfCell(q);
  }

  /** Every cell sharing a unit with `p` other than `p` is on the list. */
  lemma PeerListComplete(p: Cell, q: Cell)
    requires q != p && SharesUnit(p, q)
    ensures q in PeerList(p)
  {
    BoxOfCell(p);
    BoxOfCell(q);
    if Col(q) == Col(p) {
      ColumnPeerListed(p, q);
    } else if Row(q) == Row(p) {
      RowPeerListed(p, q);
    } else {
      BoxPeerListed(p, q);
    }
  }

  lemma ColumnPeerListed(p: Cell, q: Cell)
    requires q != p && Col(q) == Col(p)
    ensures q in PeerList(p)
  {
    var r := Row(p);
    BoxOfCell(p);
    BoxOfCell(q);
    var t := if Row(q) < r then Row(q) else Row(q) - 1;
    assert ColumnPeers(r, Col(p))[t] == q;
    assert PeerList(p)[t] == q;
  }

  lemma RowPeerListed(p: Cell, q: Cell)
    requires q != p && Row(q) == Row(p)
    ensures q in PeerList(p)
  {
    var c := Col(p);
    BoxOfCell(p);
    BoxOfCell(q);
    var t := if Col(q) < c then Col(q) else Col(q) - 1;
    assert RowPeers(Row(p), c)[t] == q;
    assert PeerList(p)[8 + t] == q;
  }

  lemma BoxPeerListed(p: Cell, q: Cell)
    requires Row(q) != Row(p) && Col(q) != Col(p) && Box(q) == Box(p)
    ensures q in PeerList(p)
  {
    var r, c := Row(p), Col(p);
    BoxOfCell(p);
    BoxOfCell(q);
    SameBox(r, c, Row(q), Col(q));
    var tr := OtherInBandHits(r, Row(q));
    var tc := OtherInBandHits(c, Col(q));
    assert PairRow(2 * tr + tc) == tr && PairCol(2 * tr + tc) == tc;
    assert BoxPeers(r, c)[2 * tr + tc] == q;
    assert PeerList(p)[16 + 2 * tr + tc] == q;
  }

  lemma SameBox(r: nat, c: nat, r': nat, c': nat)
    requires r < 9 && c < 9 && r' < 9 && c' < 9
    requires 3 * Third(r) + Third(c) == 3 * Third(r') + Third(c')
    ensures Third(r) == Third(r') && Third(c) == Third(c')
  {
  }

  /** Which of the two other rows of its band `y` is, seen from `x`. */
  lemma OtherInBandHits(x: nat, y: nat) returns (t: nat)
    requires x < 9 && y < 9 && x != y && Third(x) == Third(y)
    ensures t < 2 && OtherInBand(x, t) == y
  {
    t := if Rem3(y) < Rem3(x) then Rem3(y) else Rem3(y) - 1;
  }

  /** The list has no repeats. */
  lemma PeerListDistinct(p: Cell, a: nat, b: nat)
    requires a < b < 20
    ensures PeerList(p)[a] != PeerList(p)[b]
  {
    PeerListEntries(p, a);
    PeerListEntries(p, b);
  }

  /** The labels of a list of cells. */
  function LabelsOf(ps: seq<Cell>): (ls: seq<string>)
    ensures |ls| == |ps|
  {
    seq(|ps|, k requires 0 <= k < |ps| => Label(ps[k]))
  }

  lemma LabelsOfAppend(a: seq<Cell>, b: seq<Cell>)
    ensures LabelsOf(a + b) == LabelsOf(a) + LabelsOf(b)
  {
  }

  /** The labels of the listed peers of `p`. */
  function PeerLabels(p: Cell): (ls: seq<string>)
    ensures |ls| == 20
  {
    LabelsOf(PeerList(p))
  }

  /** The label set `peers[s]` of a square is the labels of the listed peers. */
  lemma PeersAreListed(p: Cell)
    ensures Peers(Label(p)) == set x | x in PeerLabels(p)
  {
    PeersInList(p);
    ListInPeers(p);
  }

  lemma PeersInList(p: Cell)
    ensures forall x :: x in Peers(Label(p)) ==> x in PeerLabels(p)
  {
    forall x | x in Peers(Label(p)) ensures x in PeerLabels(p) {
      PeerIsListed(p, x);
    }
  }

  lemma ListInPeers(p: Cell)
    ensures forall x :: x in PeerLabels(p) ==> x in Peers(Label(p))
  {
    forall k | 0 <= k < 20 ensures PeerLabels(p)[k] in Peers(Label(p)) {
      ListedInUnits(p, k);
    }
  }

  lemma PeerIsListed(p: Cell, x: string)
    requires x in Peers(Label(p))
    ensures x in PeerLabels(p)
  {
    var all := UnitsConcat(p);
    var kk := if x in all[ColumnUnit(p)] then ColumnUnit(p) else if x in all[RowUnit(p)] then RowUnit(p) else BoxUnit(p);
    UnitMemberIsListed(p, kk, x);
    var k :| 0 <= k < 20 && x == Label(PeerList(p)[k]);
    assert PeerLabels(p)[k] == x;
  }

  /** `sum(units[s], [])` for the square of `p`: its column, row and box. */
  lemma UnitsConcat(p: Cell) returns (all: seq<seq<string>>)
    ensures all == UnitList() && |all| == 27
    ensures Concat(Units(Label(p))) == all[ColumnUnit(p)] + all[RowUnit(p)] + all[BoxUnit(p)]
  {
    UnitsOfCell(p);
    all := UnitList();
    ConcatThree(all[ColumnUnit(p)], all[RowUnit(p)], all[BoxUnit(p)]);
  }

  lemma ConcatThree(a: seq<string>, b: seq<string>, c: seq<string>)
    ensures Concat([a, b, c]) == a + b + c
  {
    assert [a, b, c][1..] == [b, c];
    assert [b, c][1..] == [c];
    assert [c][1..] == [];
    assert Concat([c]) == c;
    assert Concat([b, c]) == b + c;
    assert a + (b + c) == a + b + c;
  }

  lemma UnitMemberIsListed(p: Cell, kk: nat, x: string)
    requires kk == ColumnUnit(p) || kk == RowUnit(p) || kk == BoxUnit(p)
    requires kk < 27 && |UnitList()| == 27 && x in UnitList()[kk] && x != Label(p)
    ensures exists k :: 0 <= k < 20 && x == Label(PeerList(p)[k])
  {
    var all := UnitList();
    UnitListAt(kk, 0);
    var m :| 0 <= m < 9 && all[kk][m] == x;
    UnitListAt(kk, m);
    var q := UnitCell(kk, m);
    UnitCellUnits(kk, m);
    BoxOfCell(p);
    BoxOfCell(q);
    assert SharesUnit(p, q);
    PeerListComplete(p, q);
    var k :| 0 <= k < 20 && PeerList(p)[k] == q;
  }

  lemma ListedInUnits(p: Cell, k: nat)
    requires k < 20
    ensures Label(PeerList(p)[k]) in Peers(Label(p))
  {
    var q := PeerList(p)[k];
    PeerListEntries(p, k);
    LabelInjective(p, q);
    var kk := SharedUnit(p, q);
    InOwnUnits(p, kk, Label(q));
    InPeers(Label(p), Label(q));
  }

  /** A unit of `p` that holds `q`, for a cell `q` sharing a unit with `p`. */
  lemma SharedUnit(p: Cell, q: Cell) returns (kk: nat)
    requires SharesUnit(p, q)
    ensures kk == ColumnUnit(p) || kk == RowUnit(p) || kk == BoxUnit(p)
    ensures |UnitList()| == 27 && Label(q) in UnitList()[kk]
  {
    kk := if Col(q) == Col(p) then ColumnUnit(p) else if Row(q) == Row(p) then RowUnit(p) else BoxUnit(p);
    BoxOfCell(p);
    BoxOfCell(q);
    InUnit(q, kk);
  }

  /** A label in one of the units of `p` occurs in `sum(units[s], [])`. */
  lemma InOwnUnits(p: Cell, kk: nat, x: string)
    requires kk == ColumnUnit(p) || kk == RowUnit(p) || kk == BoxUnit(p)
    requires |UnitList()| == 27 && x in UnitList()[kk]
    ensures x in Concat(Units(Label(p)))
  {
    var all := UnitsConcat(p);
    assert x in all[ColumnUnit(p)] + all[RowUnit(p)] + all[BoxUnit(p)];
  }

  lemma InPeers(s: string, x: string)
    requires x in Concat(Units(s)) && x != s
    ensures x in Peers(s)
  {
  }

  /** Every square has exactly 20 peers. */
  lemma TwentyPeers(p: Cell)
    ensures |Peers(Label(p))| == 20
  {
    PeersAreListed(p);
    PeerLabelsDistinct(p);
    DistinctCount(PeerLabels(p));
  }

  /** The labels of the listed peers are pairwise different. */
  lemma PeerLabelsDistinct(p: Cell)
    ensures Distinct(PeerLabels(p))
  {
    forall a, b | 0 <= a < b < 20 ensures PeerLabels(p)[a] != PeerLabels(p)[b] {
      PeerListDistinct(p, a, b);
      LabelInjective(PeerList(p)[a], PeerList(p)[b]);
    }
  }

  /**
    The facts `test()` checks: 81 squares, 27 units, three units and
    twenty peers for every square.
  */
  lemma TableSizes(s: string)
    requires s in Squares()
    ensures |Squares()| == 81 && |UnitList()| == 27
    ensures |Units(s)| == 3 && |Peers(s)| == 20
  {
    SquaresAt(0);
    UnitListAt(0, 0);
    var p :| 0 <= p < 81 && Squares()[p] == s;
    SquaresAt(p);
    UnitsOfCell(p);
    TwentyPeers(p);
  }

  /** The units and peers of "C2" that `test()` spells out. */
  lemma TestC2()
    ensures Units("C2") == [
      ["A2", "B2", "C2", "D2", "E2", "F2", "G2", "H2", "I2"],
      ["C1", "C2", "C3", "C4", "C5", "C6", "C7", "C8", "C9"],
      ["A1", "A2", "A3", "B1", "B2", "B3", "C1", "C2", "C3"]]
    ensures Peers("C2") == set x | x in ["A2", "B2", "D2", "E2", "F2", "G2", "H2", "I2",
      "C1", "C3", "C4", "C5", "C6", "C7", "C8", "C9",
      "A1", "A3", "B1", "B3"]
  {
    C2Units();
    C2Peers();
  }

  lemma C2Units()
    ensures Units("C2") == [
      ["A2", "B2", "C2", "D2", "E2", "F2", "G2", "H2", "I2"],
      ["C1", "C2", "C3", "C4", "C5", "C6", "C7", "C8", "C9"],
      ["A1", "A2", "A3", "B1", "B2", "B3", "C1", "C2", "C3"]]
  {
    C2Label();
    UnitsOfCell(19);
    C2Column();
    C2Row();
    C2Box();
  }

  lemma C2Label()
    ensures Label(19) == "C2"
    ensures ColumnUnit(19) == 1 && RowUnit(19) == 11 && BoxUnit(19) == 18
  {
    BoxOfCell(19);
  }

  lemma C2Peers()
    ensures Peers("C2") == set x | x in ["A2", "B2", "D2", "E2", "F2", "G2", "H2", "I2",
      "C1", "C3", "C4", "C5", "C6", "C7", "C8", "C9",
      "A1", "A3", "B1", "B3"]
  {
    C2Label();
    PeersAreListed(19);
    C2PeerLabels();
  }

  lemma C2Column()
    ensures |UnitList()| == 27
    ensures UnitList()[1] == ["A2", "B2", "C2", "D2", "E2", "F2", "G2", "H2", "I2"]
  {
    UnitListAt(1, 0);
    forall m | 0 <= m < 9 ensures UnitList()[1][m] == Label(9 * m + 1) {
      UnitListAt(1, m);
    }
  }

  lemma C2Row()
    ensures |UnitList()| == 27
    ensures UnitList()[11] == ["C1", "C2", "C3", "C4", "C5", "C6", "C7", "C8", "C9"]
  {
    UnitListAt(11, 0);
    forall m | 0 <= m < 9 ensures UnitList()[11][m] == Label(18 + m) {
      UnitListAt(11, m);
    }
  }

  /** A three-by-three cross product, entry by entry. */
  lemma CrossThree(a: string, b: string)
    requires |a| == 3 && |b| == 3
    ensures Cross(a, b) == [
      [a[0], b[0]], [a[0], b[1]], [a[0], b[2]],
      [a[1], b[0]], [a[1], b[1]], [a[1], b[2]],
      [a[2], b[0]], [a[2], b[1]], [a[2], b[2]]]
  {
    CrossAt(a, b, 0, 0); CrossAt(a, b, 0, 1); CrossAt(a, b, 0, 2);
    CrossAt(a, b, 1, 0); CrossAt(a, b, 1, 1); CrossAt(a, b, 1, 2);
    CrossAt(a, b, 2, 0); CrossAt(a, b, 2, 1); CrossAt(a, b, 2, 2);
  }

  lemma C2Box()
    ensures |UnitList()| == 27
    ensures UnitList()[18] == ["A1", "A2", "A3", "B1", "B2", "B3", "C1", "C2", "C3"]
  {
    UnitListParts(18);
    CrossThree("ABC", "123");
  }

  /** The listed peers of "C2", cell by cell. */
  lemma C2PeerCells()
    ensures PeerList(19) == [1, 10, 28, 37, 46, 55, 64, 73, 18, 20, 21, 22, 23, 24, 25, 26, 0, 2, 9, 11]
  {
    assert Row(19) == 2 && Col(19) == 1;
    C2ColumnPeers();
    C2RowPeers();
    C2BoxPeers();
  }

  lemma C2ColumnPeers()
    ensures ColumnPeers(2, 1) == [1, 10, 28, 37, 46, 55, 64, 73]
  {
  }

  lemma C2RowPeers()
    ensures RowPeers(2, 1) == [18, 20, 21, 22, 23, 24, 25, 26]
  {
  }

  lemma C2BoxPeers()
    ensures BoxPeers(2, 1) == [0, 2, 9, 11]
  {
    var b := BoxPeers(2, 1);
    C2Bands();
    assert b[0] == 9 * OtherInBand(2, 0) + OtherInBand(1, 0);
    assert b[1] == 9 * OtherInBand(2, 0) + OtherInBand(1, 1);
    assert b[2] == 9 * OtherInBand(2, 1) + OtherInBand(1, 0);
    assert b[3] == 9 * OtherInBand(2, 1) + OtherInBand(1, 1);
    FourEntries(b, 0, 2, 9, 11);
  }

  /** The other rows of row C's band and the other columns of column 2's stack. */
  lemma C2Bands()
    ensures OtherInBand(2, 0) == 0 && OtherInBand(2, 1) == 1
    ensures OtherInBand(1, 0) == 0 && OtherInBand(1, 1) == 2
  {
  }

  lemma FourEntries(b: seq<Cell>, w: Cell, x: Cell, y: Cell, z: Cell)
    requires |b| == 4 && b[0] == w && b[1] == x && b[2] == y && b[3] == z
    ensures b == [w, x, y, z]
  {
  }

  lemma C2PeerLabels()
    ensures PeerLabels(19) == ["A2", "B2", "D2", "E2", "F2", "G2", "H2", "I2",
      "C1", "C3", "C4", "C5", "C6", "C7", "C8", "C9",
      "A1", "A3", "B1", "B3"]
  {
    C2LabelParts();
    C2ColumnLabels();
    C2RowLabels();
    C2BoxLabels();
    C2LabelsJoin();
  }

  /** The labels of the listed peers of "C2", part by part. */
  lemma C2LabelParts()
    ensures PeerLabels(19) == LabelsOf([1, 10, 28, 37, 46, 55, 64, 73])
      + LabelsOf([18, 20, 21, 22, 23, 24, 25, 26]) + LabelsOf([0, 2, 9, 11])
  {
    C2PeerCells();
    var col: seq<Cell>, row: seq<Cell>, box: seq<Cell> :=
      [1, 10, 28, 37, 46, 55, 64, 73], [18, 20, 21, 22, 23, 24, 25, 26], [0, 2, 9, 11];
    assert PeerList(19) == col + row + box;
    LabelsOfAppend(col + row, box);
    LabelsOfAppend(col, row);
  }

  lemma C2LabelsJoin()
    ensures ["A2", "B2", "D2", "E2", "F2", "G2", "H2", "I2"]
      + ["C1", "C3", "C4", "C5", "C6", "C7", "C8", "C9"] + ["A1", "A3", "B1", "B3"]
      == ["A2", "B2", "D2", "E2", "F2", "G2", "H2", "I2",
        "C1", "C3", "C4", "C5", "C6", "C7", "C8", "C9",
        "A1", "A3", "B1", "B3"]
  {
  }

  lemma C2ColumnLabels()
    ensures LabelsOf([1, 10, 28, 37, 46, 55, 64, 73]) == ["A2", "B2", "D2", "E2", "F2", "G2", "H2", "I2"]
  {
  }

  lemma C2RowLabels()
    ensures LabelsOf([18, 20, 21, 22, 23, 24, 25, 26]) == ["C1", "C3", "C4", "C5", "C6", "C7", "C8", "C9"]
  {
  }

  lemma C2BoxLabels()
    ensures LabelsOf([0, 2, 9, 11]) == ["A1", "A3", "B1", "B3"]
  {
  }
}
