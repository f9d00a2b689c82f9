/**
 Elementary facts about finite series of reals: the sum, the guarded mean the
 indicators use, the extremes, and monotonicity.
 */
module Series {

  /**
   The sum of a series, accumulated from the left. A single term is its own
   sum, and non-negative terms give a non-negative sum.
   */
  function Sum(xs: seq<real>): (s: real)
    ensures |xs| == 1 ==> s == xs[0]
  {
    if |xs| == 0 then 0.0 else Sum(xs[..|xs| - 1]) + xs[|xs| - 1]
  }

  /** Every element is non-negative. */
  predicate AllNonNegative(xs: seq<real>) {
    forall i :: 0 <= i < |xs| ==> xs[i] >= 0.0
  }

  /** Every element is strictly positive. */
  predicate AllPositive(xs: seq<real>) {
    forall i :: 0 <= i < |xs| ==> xs[i] > 0.0
  }

  /** Each price is at least the one before it. */
  predicate NonDecreasing(xs: seq<real>) {
    forall i :: 0 < i < |xs| ==> xs[i - 1] <= xs[i]
  }

  /**
   The average of a series, dividing by the length but by 1 for an empty
   series, so that the empty series has mean 0.
   */
  function Mean(xs: seq<real>): (m: real)
    ensures |xs| == 0 ==> m == 0.0
    ensures m * (if |xs| > 1 then |xs| else 1) as real == Sum(xs)
    ensures m == 0.0 <==> Sum(xs) == 0.0
    ensures m > 0.0 <==> Sum(xs) > 0.0
  {
    Sum(xs) / (if |xs| > 1 then |xs| else 1) as real
  }

  /** A sum of non-negative terms is non-negative, and zero only if every term is. */
  lemma {:induction false} SumNonNegative(xs: seq<real>)
    requires AllNonNegative(xs)
    ensures Sum(xs) >= 0.0
    ensures Sum(xs) == 0.0 <==> forall i :: 0 <= i < |xs| ==> xs[i] == 0.0
  {
    if |xs| > 0 {
      var init := xs[..|xs| - 1];
      assert AllNonNegative(init) by {
        forall i | 0 <= i < |init| ensures init[i] >= 0.0 {
          assert init[i] == xs[i];
        }
      }
      SumNonNegative(init);
      if Sum(xs) == 0.0 {
        forall i | 0 <= i < |xs| ensures xs[i] == 0.0 {
          if i < |xs| - 1 {
            assert init[i] == xs[i];
          }
        }
      }
    }
  }

  /** A sum of strictly positive terms is zero exactly when there are no terms. */
  lemma {:induction false} SumPositive(xs: seq<real>)
    requires AllPositive(xs)
    ensures Sum(xs) == 0.0 <==> |xs| == 0
    ensures |xs| > 0 ==> Sum(xs) > 0.0
  {
    assert AllNonNegative(xs);
    SumNonNegative(xs);
    if |xs| > 0 {
      assert xs[0] != 0.0;
    }
  }

  /** Sum distributes over concatenation. */
  lemma {:induction false} SumAppend(xs: seq<real>, ys: seq<real>)
    ensures Sum(xs + ys) == Sum(xs) + Sum(ys)
    decreases |ys|
  {
    if |ys| > 0 {
      var ys' := ys[..|ys| - 1];
      assert (xs + ys)[..|xs + ys| - 1] == xs + ys';
      SumAppend(xs, ys');
    } else {
      assert xs + ys == xs;
    }
  }

  /** The smallest element of a non-empty series. */
  function SeqMin(xs: seq<real>): (m: real)
    requires |xs| > 0
    ensures forall i :: 0 <= i < |xs| ==> m <= xs[i]
    ensures exists i :: 0 <= i < |xs| && m == xs[i]
  {
    if |xs| == 1 then xs[0]
    else
      var rest := SeqMin(xs[1..]);
      assert forall i :: 1 <= i < |xs| ==> xs[i] == xs[1..][i - 1];
      if xs[0] <= rest then xs[0] else rest
  }

  /** The largest element of a non-empty series. */
  function SeqMax(xs: seq<real>): (m: real)
    requires |xs| > 0
    ensures forall i :: 0 <= i < |xs| ==> xs[i] <= m
    ensures exists i :: 0 <= i < |xs| && m == xs[i]
  {
    if |xs| == 1 then xs[0]
    else
      var rest := SeqMax(xs[1..]);
      assert forall i :: 1 <= i < |xs| ==> xs[i] == xs[1..][i - 1];
      if xs[0] >= rest then xs[0] else rest
  }
}
