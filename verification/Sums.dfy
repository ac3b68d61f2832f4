/** Weighted sums over the threads of a system: the counters of the protocols
    (strong counts, live handles, unaccounted threads, ranks) are such sums. */
module Sums {

  function Sum<T>(xs: seq<T>, weight: T -> nat): (total: nat) {
    if xs == [] then 0 else weight(xs[0]) + Sum(xs[1..], weight)
  }

  lemma {:induction false} SumUpdate<T>(xs: seq<T>, weight: T -> nat, i: nat, x: T)
    requires i < |xs|
    ensures Sum(xs[i := x], weight) + weight(xs[i]) == Sum(xs, weight) + weight(x)
  {
    if i == 0 {
      assert xs[0 := x][1..] == xs[1..];
    } else {
      assert xs[i := x][1..] == xs[1..][i - 1 := x];
      SumUpdate(xs[1..], weight, i - 1, x);
    }
  }

  lemma {:induction false} SumAppend<T>(xs: seq<T>, weight: T -> nat, x: T)
    ensures Sum(xs + [x], weight) == Sum(xs, weight) + weight(x)
  {
    if xs == [] {
      assert xs + [x] == [x];
    } else {
      assert (xs + [x])[1..] == xs[1..] + [x];
      SumAppend(xs[1..], weight, x);
    }
  }

  lemma {:induction false} SumIsAtMost<T>(xs: seq<T>, weight: T -> nat, cap: nat)
    requires forall x :: x in xs ==> weight(x) <= cap
    ensures Sum(xs, weight) <= cap * |xs|
  {
    if xs != [] {
      assert xs[0] in xs;
      SumIsAtMost(xs[1..], weight, cap);
      assert cap * |xs| == cap * (|xs| - 1) + cap;
    }
  }

  lemma {:induction false} SumIsAtLeast<T>(xs: seq<T>, weight: T -> nat, i: nat)
    requires i < |xs|
    ensures weight(xs[i]) <= Sum(xs, weight)
  {
    if i > 0 {
      SumIsAtLeast(xs[1..], weight, i - 1);
    }
  }

  lemma {:induction false} SumOfTwo<T>(xs: seq<T>, weight: T -> nat, i: nat, j: nat)
    requires i < j < |xs|
    ensures weight(xs[i]) + weight(xs[j]) <= Sum(xs, weight)
  {
    if i == 0 {
      SumIsAtLeast(xs[1..], weight, j - 1);
    } else {
      SumOfTwo(xs[1..], weight, i - 1, j - 1);
    }
  }

  lemma {:induction false} PositiveSumHasWitness<T>(xs: seq<T>, weight: T -> nat) returns (i: nat)
    requires Sum(xs, weight) > 0
    ensures i < |xs| && weight(xs[i]) > 0
  {
    if weight(xs[0]) > 0 {
      i := 0;
    } else {
      var k := PositiveSumHasWitness(xs[1..], weight);
      i := k + 1;
    }
  }

  /** One digit of a lexicographic rank: `high` leads, `low` stays below `base`. */
  function Digit(high: nat, base: nat, low: nat): (rank: nat) {
    high * base + low
  }

  lemma HighDigitDecides(high: nat, high': nat, base: nat, low: nat, low': nat)
    requires low' < base
    requires high' < high
    ensures Digit(high', base, low') < Digit(high, base, low)
  {
    assert (high' + 1) * base <= high * base;
    assert (high' + 1) * base == high' * base + base;
  }
}
