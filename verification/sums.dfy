/** Sums of 0/1 values. The constraint model adds up boolean solver variables
    (`sum(candidates) == 1`, `sum(vars_for_day) <= 1`, `sum(day_vars[a:b])`);
    here such a sum is the number of `true` entries of a sequence, and the
    lemmas turn a bound on the sum into a statement about the entries. */
module Sums {

  /** The number of `true` entries of `bs`. */
  function Sum(bs: seq<bool>): (n: nat)
    ensures n <= |bs|
    ensures n == |bs| <==> forall i :: 0 <= i < |bs| ==> bs[i]
  {
    if |bs| == 0 then 0 else Sum(bs[..|bs| - 1]) + (if bs[|bs| - 1] then 1 else 0)
  }

  /** A sum is zero exactly when no entry is `true`. */
  lemma {:induction false} SumZeroIff(bs: seq<bool>)
    ensures Sum(bs) == 0 <==> forall i :: 0 <= i < |bs| ==> !bs[i]
  {
    if |bs| > 0 {
      var init := bs[..|bs| - 1];
      SumZeroIff(init);
      assert forall i :: 0 <= i < |init| ==> init[i] == bs[i];
    }
  }

  /** A sum equal to one singles out exactly one `true` entry. */
  lemma {:induction false} SumOneUnique(bs: seq<bool>) returns (i: nat)
    requires Sum(bs) == 1
    ensures i < |bs| && bs[i]
    ensures forall k :: 0 <= k < |bs| && bs[k] ==> k == i
  {
    var init := bs[..|bs| - 1];
    assert forall k :: 0 <= k < |init| ==> init[k] == bs[k];
    if bs[|bs| - 1] {
      SumZeroIff(init);
      i := |bs| - 1;
    } else {
      i := SumOneUnique(init);
    }
  }

  /** A sum of at most one means no two distinct entries are both `true`. */
  lemma {:induction false} SumAtMostOne(bs: seq<bool>, i: int, k: int)
    requires Sum(bs) <= 1
    requires 0 <= i < |bs| && 0 <= k < |bs| && bs[i] && bs[k]
    ensures i == k
  {
    var init := bs[..|bs| - 1];
    assert forall m :: 0 <= m < |init| ==> init[m] == bs[m];
    if bs[|bs| - 1] {
      SumZeroIff(init);
    } else {
      SumAtMostOne(init, i, k);
    }
  }

  /** A sum below the length leaves some entry `false`. */
  lemma SumBelowLength(bs: seq<bool>) returns (i: nat)
    requires Sum(bs) < |bs|
    ensures i < |bs| && !bs[i]
  {
    i :| 0 <= i < |bs| && !bs[i];
  }
}
