/** Facts about sequences without repeated elements, shared by both solvers. */
module Sequences {
  /** No element occurs twice. */
  predicate Distinct<T(==)>(xs: seq<T>) {
    forall a, b :: 0 <= a < b < |xs| ==> xs[a] != xs[b]
  }

  /** Joining two repeat-free sequences with no common element gives one without repeats. */
  lemma DistinctConcat<T>(x: seq<T>, y: seq<T>)
    requires Distinct(x) && Distinct(y)
    requires forall e :: e in x ==> e !in y
    ensures Distinct(x + y)
  {
    forall a, b | 0 <= a < b < |x + y| ensures (x + y)[a] != (x + y)[b] {
      if b < |x| {
        assert (x + y)[a] == x[a] && (x + y)[b] == x[b];
      } else if a >= |x| {
        assert (x + y)[a] == y[a - |x|] && (x + y)[b] == y[b - |x|];
      } else {
        assert x[a] in x && y[b - |x|] in y;
        assert (x + y)[a] == x[a] && (x + y)[b] == y[b - |x|];
      }
    }
  }

  /** A sequence without repeats has as many distinct elements as positions. */
  lemma {:induction false} DistinctCount<T>(xs: seq<T>)
    requires Distinct(xs)
    ensures |set x | x in xs| == |xs|
    decreases |xs|
  {
    if |xs| > 0 {
      var rest := xs[1..];
      forall a, b | 0 <= a < b < |rest| ensures rest[a] != rest[b] {
        assert rest[a] == xs[a + 1] && rest[b] == xs[b + 1];
      }
      DistinctCount(rest);
      forall k | 0 <= k < |rest| ensures rest[k] != xs[0] {
        assert rest[k] == xs[k + 1];
      }
      assert (set x | x in xs) == {xs[0]} + (set x | x in rest) by {
        assert xs == [xs[0]] + rest;
      }
    }
  }
}
