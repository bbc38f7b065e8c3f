/**
  What `assign` and `eliminate` of the Python solver guarantee: candidates
  only ever disappear, a square never loses its last candidate without the
  call failing, a successful `assign(values, s, d)` leaves exactly `d` in
  `s`, and `eliminate` fails when a unit is left without a place for `d`.
*/
module NorvigFacts {
  import opened Optional
  import opened Board
  import opened NorvigTables
  import opened NorvigPropagation

  /** Every candidate of `w` was already a candidate of `v`, square by square. */
  ghost predicate Narrower(w: Values, v: Values) {
    forall p: Cell, c :: c in w[p] ==> c in v[p]
  }

  /**
    The values reachable from `parse_grid`: every square has at least one
    candidate, and no candidate twice.
  */
  ghost predicate Valid(v: Values) {
    forall p: Cell :: |v[p]| > 0 && NoRepeats(v[p])
  }

  /** `w` came from `v` by removing candidates, keeping validity. */
  ghost predicate Keeps(w: Values, v: Values) {
    Narrower(w, v) && (Valid(v) ==> Valid(w))
  }

  lemma KeepsTrans(a: Values, b: Values, c: Values)
    requires Keeps(a, b) && Keeps(b, c)
    ensures Keeps(a, c)
  {
  }

  /** A string of one repeated digit without repeats is that digit alone. */
  lemma OnlyDigit(s: string, d: char)
    requires |s| > 0 && NoRepeats(s)
    requires forall c :: c in s ==> c == d
    ensures s == [d]
  {
    assert s[0] in s;
    assert s[|s| - 1] in s;
  }

  /** The first step of `eliminate`: dropping `d` from the candidates of `q`. */
  lemma DropStep(v: Values, q: Cell, d: char)
    requires d in v[q] && |Remove(v[q], d)| > 0
    ensures var v1: Values := v[q := Remove(v[q], d)];
      && Keeps(v1, v) && d !in v1[q]
      && CandidateCount(v1) < CandidateCount(v)
  {
    var v1: Values := v[q := Remove(v[q], d)];
    CandidateCountUpdate(v, q, Remove(v[q], d));
    if Valid(v) {
      RemoveNoRepeats(v[q], d);
    }
  }

  /**
    Candidates only shrink under `eliminate`, a successful call never
    empties a square, and afterwards `d` is no candidate of `q`.
  */
  lemma {:induction false} EliminateKeeps(v: Values, q: Cell, d: char)
    ensures var r := Eliminate(v, q, d);
      r.Some? ==> Keeps(r.value, v) && d !in r.value[q]
    decreases CandidateCount(v), 0, 0
  {
    if d in v[q] && |Remove(v[q], d)| > 0 {
      var v1: Values := v[q := Remove(v[q], d)];
      DropStep(v, q, d);
      var after := if |v1[q]| == 1 then EliminateFromPeers(v1, q, v1[q][0], 0) else Some(v1);
      if |v1[q]| == 1 {
        PeersKeep(v1, q, v1[q][0], 0);
      }
      if after.Some? {
        var v2 := after.value;
        UnitsKeep(v2, q, d, 0);
        var r := CheckUnits(v2, q, d, 0);
        if r.Some? {
          KeepsTrans(v2, v1, v);
          KeepsTrans(r.value, v2, v);
        }
      }
    }
  }

  lemma {:induction false} PeersKeep(v: Values, q: Cell, d2: char, i: nat)
    requires i <= 20
    ensures var r := EliminateFromPeers(v, q, d2, i);
      r.Some? ==> Keeps(r.value, v)
    decreases CandidateCount(v), 1, 20 - i
  {
    if i < 20 {
      var e := Eliminate(v, PeerList(q)[i], d2);
      EliminateKeeps(v, PeerList(q)[i], d2);
      if e.Some? {
        PeersKeep(e.value, q, d2, i + 1);
        var r := EliminateFromPeers(e.value, q, d2, i + 1);
        if r.Some? {
          KeepsTrans(r.value, e.value, v);
        }
      }
    }
  }

  lemma {:induction false} UnitsKeep(v: Values, q: Cell, d: char, k: nat)
    requires k <= 3
    ensures var r := CheckUnits(v, q, d, k);
      r.Some? ==> Keeps(r.value, v)
    decreases CandidateCount(v), 3, 3 - k
  {
    if k < 3 {
      var places := Places(v, UnitCells(UnitOf(q, k)), d);
      if |places| == 1 {
        var a := Assign(v, places[0], d);
        AssignKeeps(v, places[0], d);
        if a.Some? {
          UnitsKeep(a.value, q, d, k + 1);
          var r := CheckUnits(a.value, q, d, k + 1);
          if r.Some? {
            KeepsTrans(r.value, a.value, v);
          }
        }
      } else if |places| > 1 {
        UnitsKeep(v, q, d, k + 1);
      }
    }
  }

  /**
    Candidates only shrink under `assign`, and a successful
    `assign(values, s, d)` on valid values leaves exactly `d` in `s`.
  */
  lemma {:induction false} AssignKeeps(v: Values, q: Cell, d: char)
    ensures var r := Assign(v, q, d);
      r.Some? ==> Keeps(r.value, v) && (Valid(v) ==> r.value[q] == [d])
    decreases CandidateCount(v), 2, 0
  {
    var others := Remove(v[q], d);
    AllKeep(v, q, others, 0);
    var r := Assign(v, q, d);
    if r.Some? && Valid(v) {
      var w := r.value;
      OnlyDigit(w[q], d);
    }
  }

  lemma {:induction false} AllKeep(v: Values, q: Cell, others: string, i: nat)
    requires i <= |others|
    ensures var r := EliminateAll(v, q, others, i);
      r.Some? ==> Keeps(r.value, v) && forall j :: i <= j < |others| ==> others[j] !in r.value[q]
    decreases CandidateCount(v), 1, |others| - i
  {
    if i < |others| {
      var e := Eliminate(v, q, others[i]);
      EliminateKeeps(v, q, others[i]);
      if e.Some? {
        AllKeep(e.value, q, others, i + 1);
        var r := EliminateAll(e.value, q, others, i + 1);
        if r.Some? {
          KeepsTrans(r.value, e.value, v);
        }
      }
    }
  }

  /**
    While the peers of `q` are visited, `values[s]` stays the one digit it
    was reduced to, so reading it once gives what the Python reads anew for
    every peer.
  */
  lemma PeerDigitStays(v: Values, q: Cell, d2: char, p: Cell)
    requires Valid(v) && v[q] == [d2]
    ensures Eliminate(v, p, d2).Some? ==> Eliminate(v, p, d2).value[q] == [d2]
  {
    EliminateKeeps(v, p, d2);
    var r := Eliminate(v, p, d2);
    if r.Some? {
      OnlyDigit(r.value[q], d2);
    }
  }

  /** No square of `u` has `d` among its candidates. */
  ghost predicate NoPlace(v: Values, u: seq<Cell>, d: char) {
    forall p :: p in u ==> d !in v[p]
  }

  /**
    Rule 2 fails when the `k`-th unit of `q` has no place for `d` at all,
    whatever the units before it do.
  */
  lemma {:induction false} UnitsNoPlace(v: Values, q: Cell, d: char, j: nat, k: nat)
    requires j <= k < 3
    requires NoPlace(v, UnitCells(UnitOf(q, k)), d)
    ensures CheckUnits(v, q, d, j) == None
    decreases 3 - j, 1
  {
    if j == k {
      NoPlaceFails(v, q, d, k);
    } else {
      var places := Places(v, UnitCells(UnitOf(q, j)), d);
      if |places| == 1 {
        UnitsNoPlaceAssign(v, q, d, j, k);
      } else if |places| > 1 {
        UnitsNoPlace(v, q, d, j + 1, k);
      }
    }
  }

  /** An earlier unit with one place for `d` assigns it, which only removes candidates. */
  lemma {:induction false} UnitsNoPlaceAssign(v: Values, q: Cell, d: char, j: nat, k: nat)
    requires j < k < 3
    requires NoPlace(v, UnitCells(UnitOf(q, k)), d)
    requires |Places(v, UnitCells(UnitOf(q, j)), d)| == 1
    ensures CheckUnits(v, q, d, j) == None
    decreases 3 - j, 0
  {
    var p := Places(v, UnitCells(UnitOf(q, j)), d)[0];
    var a := Assign(v, p, d);
    AssignKeeps(v, p, d);
    if a.Some? {
      NoPlaceNarrower(a.value, v, UnitCells(UnitOf(q, k)), d);
      UnitsNoPlace(a.value, q, d, j + 1, k);
    }
  }

  /** The unit being checked has no place for `d`: rule 2 fails right there. */
  lemma NoPlaceFails(v: Values, q: Cell, d: char, k: nat)
    requires k < 3 && NoPlace(v, UnitCells(UnitOf(q, k)), d)
    ensures CheckUnits(v, q, d, k) == None
  {
    PlacesNone(v, UnitCells(UnitOf(q, k)), d);
  }

  lemma {:induction false} PlacesNone(v: Values, u: seq<Cell>, d: char)
    requires NoPlace(v, u, d)
    ensures Places(v, u, d) == []
    decreases |u|
  {
    if |u| > 0 {
      assert u[0] in u;
      forall p | p in u[1..] ensures d !in v[p] {
        assert p in u;
      }
      PlacesNone(v, u[1..], d);
    }
  }

  lemma NoPlaceNarrower(w: Values, v: Values, u: seq<Cell>, d: char)
    requires Narrower(w, v) && NoPlace(v, u, d)
    ensures NoPlace(w, u, d)
  {
  }

  /**
    `eliminate(values, s, d)` fails when, once `d` is gone from `s`, some
    unit of `s` has no other square with `d` left.
  */
  lemma EliminateNoPlace(v: Values, q: Cell, d: char, k: nat)
    requires k < 3 && d in v[q]
    requires forall p :: p in UnitCells(UnitOf(q, k)) && p != q ==> d !in v[p]
    ensures Eliminate(v, q, d) == None
  {
    if |Remove(v[q], d)| > 0 {
      var v1: Values := v[q := Remove(v[q], d)];
      DropStep(v, q, d);
      assert NoPlace(v1, UnitCells(UnitOf(q, k)), d);
      if |v1[q]| == 1 {
        PeersKeep(v1, q, v1[q][0], 0);
        var after := EliminateFromPeers(v1, q, v1[q][0], 0);
        if after.Some? {
          UnitsNoPlace(after.value, q, d, 0, k);
        }
      } else {
        UnitsNoPlace(v1, q, d, 0, k);
      }
    }
  }
}
