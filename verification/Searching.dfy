/** The library's `partition_point`: the length of the prefix on which a monotone
    predicate holds, found by halving. */
module Searching {

  function PrefixLength<T>(xs: seq<T>, pred: T -> bool): (n: nat)
    ensures n <= |xs|
    ensures forall i :: 0 <= i < n ==> pred(xs[i])
    ensures n < |xs| ==> !pred(xs[n])
  {
    if xs == [] || !pred(xs[0]) then 0
    else
      var rest := PrefixLength(xs[1..], pred);
      assert forall i :: 0 <= i < rest ==> pred(xs[1..][i]);
      assert forall i :: 1 <= i < rest + 1 ==> xs[i] == xs[1..][i - 1];
      1 + rest
  }

  ghost predicate Partitioned<T>(xs: seq<T>, pred: T -> bool) {
    forall i, j :: 0 <= i < j < |xs| && pred(xs[j]) ==> pred(xs[i])
  }

  method PartitionPoint<T>(xs: seq<T>, pred: T -> bool) returns (index: nat)
    requires Partitioned(xs, pred)
    ensures index == PrefixLength(xs, pred)
  {
    var lo, hi := 0, |xs|;
    while lo < hi
      invariant 0 <= lo <= hi <= |xs|
      invariant lo > 0 ==> pred(xs[lo - 1])
      invariant hi < |xs| ==> !pred(xs[hi])
    {
      var mid := lo + (hi - lo) / 2;
      if pred(xs[mid]) {
        lo := mid + 1;
      } else {
        hi := mid;
      }
    }
    index := lo;
    PrefixIsUnique(xs, pred, index);
  }

  lemma PrefixIsUnique<T>(xs: seq<T>, pred: T -> bool, k: nat)
    requires Partitioned(xs, pred) && k <= |xs|
    requires k > 0 ==> pred(xs[k - 1])
    requires k < |xs| ==> !pred(xs[k])
    ensures k == PrefixLength(xs, pred)
  {
  }
}
