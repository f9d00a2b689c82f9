/**
 The two technical indicators of app.py: the relative strength index
 (`calcul_rsi`) and the exponential moving average (`calcul_ema`).

 Each indicator has an exact definition over reals (`RsiExact`, `EmaExact`),
 the reported value the program returns after rounding to two decimals
 (`Rsi`, `Ema`), and a method that follows the program's own loop and is
 proved to compute the reported value.
 */
module Indicators {
  import opened Series
  import opened Rounding

  // ---------------------------------------------------------------------------
  // Successive differences, gains and losses
  // ---------------------------------------------------------------------------

  /** The price change between each pair of neighbouring prices, oldest first. */
  function Diffs(prices: seq<real>): (ds: seq<real>)
    ensures |ds| == if |prices| == 0 then 0 else |prices| - 1
    ensures forall i :: 0 <= i < |ds| ==> ds[i] == prices[i + 1] - prices[i]
  {
    if |prices| < 2 then []
    else seq(|prices| - 1, i requires 0 <= i < |prices| - 1 => prices[i + 1] - prices[i])
  }

  /** The strictly positive changes, in order. */
  function Gains(ds: seq<real>): seq<real>
  {
    if |ds| == 0 then []
    else
      var d := ds[|ds| - 1];
      Gains(ds[..|ds| - 1]) + (if d > 0.0 then [d] else [])
  }

  /** The magnitudes of the changes that are zero or negative, in order. */
  function Losses(ds: seq<real>): seq<real>
  {
    if |ds| == 0 then []
    else
      var d := ds[|ds| - 1];
      Losses(ds[..|ds| - 1]) + (if d > 0.0 then [] else [-d])
  }

  /** Each element with its sign flipped. */
  function Negate(xs: seq<real>): (ys: seq<real>)
    ensures |ys| == |xs|
    ensures forall i :: 0 <= i < |xs| ==> ys[i] == -xs[i]
  {
    seq(|xs|, i requires 0 <= i < |xs| => -xs[i])
  }

  /**
   Every change lands in exactly one of the two lists: a strictly positive one
   in the gains as it is, any other in the losses as its magnitude. The
   multiset clause keeps multiplicities: the gains together with the negated
   losses are the changes, each as often as it occurs.
   */
  lemma {:induction false} GainsLossesPartition(ds: seq<real>)
    ensures multiset(Gains(ds)) + multiset(Negate(Losses(ds))) == multiset(ds)
    ensures |Gains(ds)| + |Losses(ds)| == |ds|
    ensures AllPositive(Gains(ds))
    ensures AllNonNegative(Losses(ds))
    ensures forall x :: x in Gains(ds) <==> x in ds && x > 0.0
    ensures forall x :: x in Losses(ds) <==> x >= 0.0 && -x in ds
  {
    GainsLossesMultiset(ds);
    GainsLossesSigns(ds);
    MembersOfSplit(Gains(ds), Losses(ds), ds);
  }

  /**
   When a positive list and a non-negative list, the second negated, make up
   `ds` as a multiset, their lengths add up and their members are the
   positive changes and the magnitudes of the others.
   */
  lemma MembersOfSplit(g: seq<real>, l: seq<real>, ds: seq<real>)
    requires multiset(g) + multiset(Negate(l)) == multiset(ds)
    requires AllPositive(g) && AllNonNegative(l)
    ensures |g| + |l| == |ds|
    ensures forall x :: x in g <==> x in ds && x > 0.0
    ensures forall x :: x in l <==> x >= 0.0 && -x in ds
  {
    assert |multiset(g) + multiset(Negate(l))| == |g| + |l|;
    forall x
      ensures x in g <==> x in ds && x > 0.0
      ensures x in l <==> x >= 0.0 && -x in ds
    {
      assert x in ds <==> x in multiset(ds);
      assert -x in ds <==> -x in multiset(ds);
      assert x in l <==> -x in Negate(l);
      assert x in Negate(l) ==> x <= 0.0;
    }
  }

  /** Every gain is strictly positive and every loss is non-negative. */
  lemma {:induction false} GainsLossesSigns(ds: seq<real>)
    ensures AllPositive(Gains(ds))
    ensures AllNonNegative(Losses(ds))
  {
    if |ds| > 0 {
      var init, d := ds[..|ds| - 1], ds[|ds| - 1];
      GainsLossesSigns(init);
      GainsLossesSnoc(init, d);
      SnocLast(ds);
    }
  }

  /** The gains and the negated losses of `ds` are its changes, with multiplicity. */
  predicate SplitsExactly(ds: seq<real>) {
    multiset(Gains(ds)) + multiset(Negate(Losses(ds))) == multiset(ds)
  }

  /** Every list of changes splits exactly. */
  lemma {:induction false} GainsLossesMultiset(ds: seq<real>)
    ensures SplitsExactly(ds)
  {
    if |ds| > 0 {
      var init, d := ds[..|ds| - 1], ds[|ds| - 1];
      GainsLossesMultiset(init);
      SplitOneMore(init, d);
      SnocLast(ds);
    }
  }

  /** One more change keeps the split exact. */
  lemma SplitOneMore(init: seq<real>, d: real)
    requires SplitsExactly(init)
    ensures SplitsExactly(init + [d])
  {
    GainsLossesSnoc(init, d);
    if d > 0.0 {
      AddToFirst(Gains(init), Negate(Losses(init)), init, d);
    } else {
      NegateSnoc(Losses(init), d);
      AddToSecond(Gains(init), Negate(Losses(init)), init, d);
    }
  }

  /** Appending a change appends it to the gains or its magnitude to the losses. */
  lemma GainsLossesSnoc(init: seq<real>, d: real)
    ensures d > 0.0 ==>
      Gains(init + [d]) == Gains(init) + [d] && Losses(init + [d]) == Losses(init)
    ensures d <= 0.0 ==>
      Gains(init + [d]) == Gains(init) && Losses(init + [d]) == Losses(init) + [-d]
  {
    assert (init + [d])[..|init|] == init;
  }

  /** A non-empty series is its prefix followed by its last element. */
  lemma SnocLast(ds: seq<real>)
    requires |ds| > 0
    ensures ds == ds[..|ds| - 1] + [ds[|ds| - 1]]
  {
  }

  /** Negating a list with one more element appends that element negated. */
  lemma NegateSnoc(xs: seq<real>, x: real)
    ensures Negate(xs + [-x]) == Negate(xs) + [x]
  {
    var a, b := Negate(xs + [-x]), Negate(xs) + [x];
    assert |a| == |b|;
    forall i | 0 <= i < |a| ensures a[i] == b[i] {
      if i < |xs| {
        assert (xs + [-x])[i] == xs[i];
      }
    }
  }

  lemma AddToFirst(g: seq<real>, n: seq<real>, ds: seq<real>, d: real)
    requires multiset(g) + multiset(n) == multiset(ds)
    ensures multiset(g + [d]) + multiset(n) == multiset(ds + [d])
  {
  }

  lemma AddToSecond(g: seq<real>, n: seq<real>, ds: seq<real>, d: real)
    requires multiset(g) + multiset(n) == multiset(ds)
    ensures multiset(g) + multiset(n + [d]) == multiset(ds + [d])
  {
  }

  /** Total gains minus total losses is the sum of the changes. */
  lemma {:induction false} GainsMinusLosses(ds: seq<real>)
    ensures Sum(Gains(ds)) - Sum(Losses(ds)) == Sum(ds)
  {
    if |ds| > 0 {
      var init, d := ds[..|ds| - 1], ds[|ds| - 1];
      GainsMinusLosses(init);
      if d > 0.0 {
        SumAppend(Gains(init), [d]);
        assert Losses(ds) == Losses(init);
      } else {
        SumAppend(Losses(init), [-d]);
        assert Gains(ds) == Gains(init);
      }
      assert Sum([d]) == d by { assert [d][..0] == []; }
      assert Sum([-d]) == -d by { assert [-d][..0] == []; }
    }
  }

  /** The changes of a series add up to its last price minus its first. */
  lemma {:induction false} DiffsTelescope(prices: seq<real>)
    requires |prices| > 0
    ensures Sum(Diffs(prices)) == prices[|prices| - 1] - prices[0]
  {
    if |prices| > 1 {
      var init := prices[..|prices| - 1];
      DiffsTelescope(init);
      var ds := Diffs(prices);
      DiffsPrefix(prices);
      assert Sum(ds) == Sum(Diffs(init)) + ds[|ds| - 1];
    }
  }

  /** Dropping the last price drops the last change. */
  lemma DiffsPrefix(prices: seq<real>)
    requires |prices| > 1
    ensures Diffs(prices)[..|prices| - 2] == Diffs(prices[..|prices| - 1])
  {
    var a, b := Diffs(prices)[..|prices| - 2], Diffs(prices[..|prices| - 1]);
    forall k | 0 <= k < |a| ensures a[k] == b[k] {
      assert prices[..|prices| - 1][k + 1] == prices[k + 1];
    }
  }

  /** Summed gains exceed summed losses by exactly the net move of the series. */
  lemma NetMove(prices: seq<real>)
    requires |prices| > 0
    ensures Sum(Gains(Diffs(prices))) - Sum(Losses(Diffs(prices)))
            == prices[|prices| - 1] - prices[0]
  {
    GainsMinusLosses(Diffs(prices));
    DiffsTelescope(prices);
  }

  // ---------------------------------------------------------------------------
  // Relative strength index
  // ---------------------------------------------------------------------------

  /** The value reported when the average loss is zero. */
  const SaturatedRsi: real := 70.0

  /** The guarded average of the gains; 0 when there are none. */
  function AvgGain(prices: seq<real>): (a: real)
    ensures a >= 0.0
    ensures a == 0.0 <==> |Gains(Diffs(prices))| == 0
  {
    GainsLossesSigns(Diffs(prices));
    SumPositive(Gains(Diffs(prices)));
    Mean(Gains(Diffs(prices)))
  }

  /** The guarded average of the losses; 0 when there are none. */
  function AvgLoss(prices: seq<real>): (a: real)
    ensures a >= 0.0
    ensures |Losses(Diffs(prices))| == 0 ==> a == 0.0
  {
    GainsLossesSigns(Diffs(prices));
    SumNonNegative(Losses(Diffs(prices)));
    Mean(Losses(Diffs(prices)))
  }

  /** Both averages are non-negative. */
  lemma AveragesNonNegative(prices: seq<real>)
    ensures AvgGain(prices) >= 0.0
    ensures AvgLoss(prices) >= 0.0
  {
    GainsLossesPartition(Diffs(prices));
    SumNonNegative(Gains(Diffs(prices)));
    GainsLossesSigns(Diffs(prices));
    SumNonNegative(Losses(Diffs(prices)));
  }

  /** The summed losses are zero exactly when no change is negative. */
  lemma {:induction false} LossSumZeroIffNoFall(ds: seq<real>)
    ensures Sum(Losses(ds)) == 0.0 <==> forall i :: 0 <= i < |ds| ==> ds[i] >= 0.0
  {
    if |ds| > 0 {
      var init, d := ds[..|ds| - 1], ds[|ds| - 1];
      LossSumZeroIffNoFall(init);
      GainsLossesSigns(init);
      SumNonNegative(Losses(init));
      SnocLast(ds);
      GainsLossesSnoc(init, d);
      if d <= 0.0 {
        SumAppend(Losses(init), [-d]);
      }
      if forall i :: 0 <= i < |init| ==> init[i] >= 0.0 {
        if d >= 0.0 {
          forall i | 0 <= i < |ds| ensures ds[i] >= 0.0 {
            if i < |init| { assert ds[i] == init[i]; }
          }
        }
      } else {
        var i :| 0 <= i < |init| && init[i] < 0.0;
        assert ds[i] == init[i];
      }
    }
  }

  /**
   The average loss is zero exactly when the series never falls: a flat
   step counts as a loss, but of size zero.
   */
  lemma NoLossIffNonDecreasing(prices: seq<real>)
    ensures AvgLoss(prices) == 0.0 <==> NonDecreasing(prices)
  {
    var ds := Diffs(prices);
    LossSumZeroIffNoFall(ds);
    NoFallIffNonDecreasing(prices);
  }

  /** No change is negative exactly when the series never falls. */
  lemma NoFallIffNonDecreasing(prices: seq<real>)
    ensures (forall i :: 0 <= i < |Diffs(prices)| ==> Diffs(prices)[i] >= 0.0) <==> NonDecreasing(prices)
  {
    var ds := Diffs(prices);
    if NonDecreasing(prices) {
      forall i | 0 <= i < |ds| ensures ds[i] >= 0.0 {
        assert prices[i] <= prices[i + 1];
      }
    }
    if forall i :: 0 <= i < |ds| ==> ds[i] >= 0.0 {
      forall i | 0 < i < |prices| ensures prices[i - 1] <= prices[i] {
        assert ds[i - 1] >= 0.0;
      }
    }
  }

  /** The average gain is zero exactly when the gain list is empty. */
  lemma NoGainIffNoRise(prices: seq<real>)
    ensures AvgGain(prices) == 0.0 <==> |Gains(Diffs(prices))| == 0
  {
    GainsLossesPartition(Diffs(prices));
    GainsLossesSigns(Diffs(prices));
    SumPositive(Gains(Diffs(prices)));
  }

  /** `100 - 100/(1 + rs)` with `rs` the ratio of the average gain to the average loss. */
  /** It lies in [0, 100), and is 0 exactly when the average gain is. */
  function RsiFormula(avgGain: real, avgLoss: real): (r: real)
    requires avgGain >= 0.0 && avgLoss > 0.0
    ensures 0.0 <= r < 100.0
    ensures r == 0.0 <==> avgGain == 0.0
  {
    var rs := avgGain / avgLoss;
    assert rs >= 0.0;
    assert rs == 0.0 <==> avgGain == 0.0;
    assert 0.0 < 100.0 / (1.0 + rs) <= 100.0;
    assert 100.0 / (1.0 + rs) == 100.0 <==> rs == 0.0;
    100.0 - 100.0 / (1.0 + rs)
  }

  /**
   The unrounded index of a series that falls at least once: in [0, 100), and
   0 exactly when the gain list is empty.
   */
  function RsiExact(prices: seq<real>): (r: real)
    requires AvgLoss(prices) > 0.0
    ensures 0.0 <= r < 100.0
    ensures r == 0.0 <==> |Gains(Diffs(prices))| == 0
  {
    RsiFormula(AvgGain(prices), AvgLoss(prices))
  }

  /** The value `calcul_rsi` returns from the two averages: saturated at 70, otherwise rounded. */
  function RsiOfAverages(avgGain: real, avgLoss: real): (r: real)
    requires avgGain >= 0.0 && avgLoss >= 0.0
    ensures 0.0 <= r <= 100.0
    ensures avgLoss == 0.0 ==> r == SaturatedRsi
  {
    if avgLoss == 0.0 then SaturatedRsi
    else
      Round2WithinHundredths(RsiFormula(avgGain, avgLoss), 0.0, 100.0);
      Round2(RsiFormula(avgGain, avgLoss))
  }

  /** The value `calcul_rsi` returns for a series. */
  function Rsi(prices: seq<real>): (r: real)
    ensures 0.0 <= r <= 100.0
    ensures NonDecreasing(prices) ==> r == SaturatedRsi
  {
    NoLossIffNonDecreasing(prices);
    AveragesNonNegative(prices);
    RsiOfAverages(AvgGain(prices), AvgLoss(prices))
  }

  /**
   With a positive average loss the exact index lies in [0, 100), it is 0
   exactly when the gain list is empty, and the reported value is its rounding.
   */
  lemma RsiExactRange(prices: seq<real>)
    requires AvgLoss(prices) > 0.0
    ensures 0.0 <= RsiExact(prices) < 100.0
    ensures RsiExact(prices) == 0.0 <==> |Gains(Diffs(prices))| == 0
    ensures Rsi(prices) == Round2(RsiExact(prices))
  {
    AveragesNonNegative(prices);
    NoGainIffNoRise(prices);
  }

  /** Empty, single-price and constant series all report the saturated value. */
  lemma SaturatedCases(prices: seq<real>)
    ensures |prices| <= 1 ==> Rsi(prices) == SaturatedRsi
    ensures (forall i :: 0 <= i < |prices| ==> prices[i] == prices[0]) ==> Rsi(prices) == SaturatedRsi
  {
  }

  /** The average loss is positive exactly when the series falls at some step. */
  lemma SomeFallIffLoss(prices: seq<real>)
    ensures AvgLoss(prices) > 0.0 <==> exists i :: 0 < i < |prices| && prices[i] < prices[i - 1]
  {
    AveragesNonNegative(prices);
    NoLossIffNonDecreasing(prices);
  }

  /** The gain list is non-empty exactly when some change is strictly positive. */
  lemma {:induction false} SomeGainIffPositiveChange(ds: seq<real>)
    ensures |Gains(ds)| > 0 <==> exists i :: 0 <= i < |ds| && ds[i] > 0.0
  {
    if |ds| > 0 {
      var init := ds[..|ds| - 1];
      SomeGainIffPositiveChange(init);
      if exists i :: 0 <= i < |init| && init[i] > 0.0 {
        var i :| 0 <= i < |init| && init[i] > 0.0;
        assert ds[i] == init[i];
      }
      if exists i :: 0 <= i < |ds| && ds[i] > 0.0 {
        var i :| 0 <= i < |ds| && ds[i] > 0.0;
        if i < |init| {
          assert init[i] == ds[i];
        }
      }
    }
  }

  /** There is a gain exactly when the series rises at some step. */
  lemma SomeRiseIffGain(prices: seq<real>)
    ensures |Gains(Diffs(prices))| > 0 <==> exists i :: 0 < i < |prices| && prices[i] > prices[i - 1]
  {
    SomeGainIffPositiveChange(Diffs(prices));
    RiseIffPositiveChange(prices);
  }

  /** Some change is strictly positive exactly when the series rises at some step. */
  lemma RiseIffPositiveChange(prices: seq<real>)
    ensures (exists j :: 0 <= j < |Diffs(prices)| && Diffs(prices)[j] > 0.0)
        <==> exists i :: 0 < i < |prices| && prices[i] > prices[i - 1]
  {
    var ds := Diffs(prices);
    if exists j :: 0 <= j < |ds| && ds[j] > 0.0 {
      var j :| 0 <= j < |ds| && ds[j] > 0.0;
      assert prices[j + 1] > prices[j];
    }
    if exists i :: 0 < i < |prices| && prices[i] > prices[i - 1] {
      var i :| 0 < i < |prices| && prices[i] > prices[i - 1];
      assert ds[i - 1] > 0.0;
    }
  }

  /** The loop of `calcul_rsi` that sorts each change into the gains or the losses. */
  method SplitChanges(prices: seq<real>) returns (gains: seq<real>, losses: seq<real>)
    ensures gains == Gains(Diffs(prices))
    ensures losses == Losses(Diffs(prices))
  {
    ghost var ds := Diffs(prices);
    gains, losses := [], [];
    var i := 1;
    while i < |prices|
      invariant 1 <= i <= |ds| + 1
      invariant gains == Gains(ds[..i - 1])
      invariant losses == Losses(ds[..i - 1])
    {
      var diff := prices[i] - prices[i - 1];
      assert ds[..i] == ds[..i - 1] + [diff];
      GainsLossesSnoc(ds[..i - 1], diff);
      if diff > 0.0 {
        gains := gains + [diff];
      } else {
        losses := losses + [-diff];
      }
      i := i + 1;
    }
    assert ds[..|ds|] == ds;
  }

  /** `calcul_rsi` as written: split the changes, average each list, then saturate or round. */
  method CalculateRsi(prices: seq<real>) returns (rsi: real)
    ensures rsi == Rsi(prices)
    ensures 0.0 <= rsi <= 100.0
  {
    var gains, losses := SplitChanges(prices);
    var avgGain := Sum(gains) / (if |gains| > 1 then |gains| else 1) as real;
    var avgLoss := Sum(losses) / (if |losses| > 1 then |losses| else 1) as real;
    assert avgGain == AvgGain(prices) && avgLoss == AvgLoss(prices);
    AveragesNonNegative(prices);
    if avgLoss == 0.0 {
      rsi := 70.0;
    } else {
      rsi := Round2(RsiFormula(avgGain, avgLoss));
    }
  }

  // ---------------------------------------------------------------------------
  // Exponential moving average
  // ---------------------------------------------------------------------------

  /** The smoothing factor `2 / (period + 1)`. */
  function Smoothing(period: int): (k: real)
    requires period != -1
    ensures period >= 1 ==> 0.0 < k <= 1.0
    ensures k * (period + 1) as real == 2.0
  {
    2.0 / (period + 1) as real
  }

  /**
   One step of the recurrence: the new price weighted by `k`, the old average
   by `1 - k`. The average moves the fraction `k` of the way to the new price.
   */
  function EmaStep(ema: real, price: real, k: real): (r: real)
    ensures r - ema == k * (price - ema)
  {
    price * k + ema * (1.0 - k)
  }

  /**
   The recurrence seeded with the first price and applied to every later price
   in order. A single price is its own average, and with period 1 the factor
   is 1, so the average is the last price.
   */
  function EmaExact(prices: seq<real>, period: int): (r: real)
    requires |prices| > 0 && period != -1
    ensures |prices| == 1 ==> r == prices[0]
    ensures period == 1 ==> r == prices[|prices| - 1]
  {
    if |prices| == 1 then prices[0]
    else EmaStep(EmaExact(prices[..|prices| - 1], period), prices[|prices| - 1], Smoothing(period))
  }

  /** A step with `k` in (0, 1] stays between any bounds both its inputs respect. */
  lemma EmaStepWithin(ema: real, price: real, k: real, lo: real, hi: real)
    requires 0.0 < k <= 1.0
    requires lo <= ema <= hi && lo <= price <= hi
    ensures lo <= EmaStep(ema, price, k) <= hi
  {
    MulNonNegative(price - lo, k);
    MulNonNegative(hi - price, k);
    MulNonNegative(ema - lo, 1.0 - k);
    MulNonNegative(hi - ema, 1.0 - k);
    assert EmaStep(ema, price, k) - lo == (price - lo) * k + (ema - lo) * (1.0 - k);
    assert hi - EmaStep(ema, price, k) == (hi - price) * k + (hi - ema) * (1.0 - k);
  }

  lemma MulNonNegative(a: real, b: real)
    requires a >= 0.0 && b >= 0.0
    ensures a * b >= 0.0
  {
  }

  /**
   For `period >= 1` the average is a convex combination of the prices, so it
   respects every bound the prices respect, however many prices there are.
   */
  lemma {:induction false} EmaExactWithin(prices: seq<real>, period: int, lo: real, hi: real)
    requires |prices| > 0 && period >= 1
    requires forall i :: 0 <= i < |prices| ==> lo <= prices[i] <= hi
    ensures lo <= EmaExact(prices, period) <= hi
  {
    if |prices| > 1 {
      var init := prices[..|prices| - 1];
      EmaExactWithin(init, period, lo, hi);
      EmaStepWithin(EmaExact(init, period), prices[|prices| - 1], Smoothing(period), lo, hi);
    }
  }

  /** The exact average lies between the smallest and the largest price. */
  lemma EmaExactBetweenExtremes(prices: seq<real>, period: int)
    requires |prices| > 0 && period >= 1
    ensures SeqMin(prices) <= EmaExact(prices, period) <= SeqMax(prices)
  {
    EmaExactWithin(prices, period, SeqMin(prices), SeqMax(prices));
  }

  /** A constant series averages to that constant, for any period. */
  lemma {:induction false} EmaExactConstant(prices: seq<real>, period: int, c: real)
    requires |prices| > 0 && period != -1
    requires forall i :: 0 <= i < |prices| ==> prices[i] == c
    ensures EmaExact(prices, period) == c
  {
    if |prices| > 1 {
      EmaExactConstant(prices[..|prices| - 1], period, c);
    }
  }

  /** With period 1 the factor is 1 and the average is just the last price. */
  lemma {:induction false} EmaExactPeriodOne(prices: seq<real>)
    requires |prices| > 0
    ensures EmaExact(prices, 1) == prices[|prices| - 1]
  {
    assert Smoothing(1) == 1.0;
  }

  /** The value `calcul_ema` returns: the exact average rounded to two decimals. */
  function Ema(prices: seq<real>, period: int): (r: real)
    requires |prices| > 0 && period != -1
    ensures |prices| == 1 && IsHundredths(prices[0]) ==> r == prices[0]
    ensures period >= 1 ==> SeqMin(prices) - 0.005 <= r <= SeqMax(prices) + 0.005
    ensures period >= 1 ==> Round2(SeqMin(prices)) <= r <= Round2(SeqMax(prices))
  {
    EmaRoundingFacts(prices, period);
    Round2(EmaExact(prices, period))
  }

  lemma EmaRoundingFacts(prices: seq<real>, period: int)
    requires |prices| > 0 && period != -1
    ensures |prices| == 1 && IsHundredths(prices[0]) ==> Round2(EmaExact(prices, period)) == prices[0]
    ensures period >= 1 ==> SeqMin(prices) <= EmaExact(prices, period) <= SeqMax(prices)
    ensures period >= 1 ==>
      Round2(SeqMin(prices)) <= Round2(EmaExact(prices, period)) <= Round2(SeqMax(prices))
  {
    if |prices| == 1 && IsHundredths(prices[0]) {
      Round2Exact(prices[0]);
    }
    if period >= 1 {
      EmaExactBetweenExtremes(prices, period);
      Round2Monotone(SeqMin(prices), EmaExact(prices, period));
      Round2Monotone(EmaExact(prices, period), SeqMax(prices));
    }
  }

  /** `calcul_ema` as written: seed with the first price, then one loop over the rest. */
  method CalculateEma(prices: seq<real>, period: int) returns (ema: real)
    requires |prices| > 0 && period != -1
    ensures ema == Ema(prices, period)
  {
    var k := 2.0 / (period + 1) as real;
    var acc := prices[0];
    var i := 1;
    while i < |prices|
      invariant 1 <= i <= |prices|
      invariant acc == EmaExact(prices[..i], period)
    {
      assert prices[..i + 1][..i] == prices[..i];
      acc := prices[i] * k + acc * (1.0 - k);
      i := i + 1;
    }
    assert prices[..|prices|] == prices;
    ema := Round2(acc);
  }
}
