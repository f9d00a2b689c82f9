# STO decision engine: a Dafny model of `app.py`

This project models the decision logic of the STO trading robot (sto-brain).
The robot is an offline service. It computes two technical indicators on a
series of prices: the relative strength index (RSI) and the exponential moving
average (EMA). From those values and two thresholds it decides whether to buy
(`ACHAT`), sell (`VENTE`) or wait (`ATTENTE`). It also reports a position size
of two percent of its simulated capital, and it records the last decision in
its in-memory state.

Modules, leaf to root:

- `Rounding` (`rounding.dfy`): rounding to two decimals, as Python's `round(x, 2)` does it.
- `Series` (`series.dfy`): sum, the guarded mean, minimum, maximum and monotonicity of a price series.
- `Indicators` (`indicators.dfy`): `calcul_rsi` and `calcul_ema`. Each is given as an exact
  definition over reals, as the rounded value the program reports, and as a method that
  follows the program's loop and is proved to compute that value.
- `Classifier` (`classifier.dfy`): the ACHAT / VENTE / ATTENTE rule table and its reason strings.
- `Engine` (`engine.dfy`): one evaluation of `decision_engine` with prices as a parameter,
  the position size, and the effect of the `/decision` request on the robot's state.

Facts about `app.py` that shape the model:

- With no losses the RSI is 70.
- A zero price change counts as a loss of size 0.
- The rule buys below RSI 30 and sells above RSI 70.
- Neither indicator has a minimum length. The EMA needs one price; the RSI needs none.

One consequence is proved below: a series that never falls always gives RSI 70 and
the decision ATTENTE. This holds even for a strictly rising series, which would
otherwise look like the clearest overbought case.

## Model

| member | source | states |
|---|---|---|
| `Rounding.Round2` | app.py:42 | the reported value is a whole number of hundredths within 0.005 of the exact value |
| `Rounding.Round2Monotone` | app.py:49 | rounding to two decimals never reverses the order of two values |
| `Rounding.Round2WithinHundredths` | app.py:42 | a value between two whole-hundredth bounds (such as 0 and 100) stays between them after rounding |
| `Series.Sum` | app.py:37-38 | a one-term list sums to that term |
| `Series.SumNonNegative` | app.py:37-38 | a sum of non-negative terms is non-negative, and it is zero exactly when every term is |
| `Series.SumPositive` | app.py:37 | a sum of strictly positive terms is zero exactly when there are no terms, and positive otherwise |
| `Series.SumAppend` | app.py:33-37 | appending to a list adds the appended terms to its sum |
| `Series.Mean` | app.py:37-38 | the average divides by the length but by 1 for an empty list, so an empty list averages 0; it is 0 or positive exactly when the sum is |
| `Indicators.Diffs` | app.py:31-32 | one change per pair of neighbouring prices, each the later price minus the earlier one |
| `Indicators.GainsLossesPartition` | app.py:31-36 | each change goes to exactly one list, with multiplicity: the gains together with the negated losses are the changes as a multiset; the two lengths add up to the number of changes; every gain is > 0 and every loss is >= 0; the gains are the positive changes and the losses the magnitudes of the others |
| `Indicators.GainsLossesMultiset` | app.py:31-36 | the gains and the negated losses together are the changes, each as often as it occurs |
| `Indicators.GainsLossesSigns` | app.py:33-36 | every gain is strictly positive and every loss is non-negative |
| `Indicators.GainsLossesSnoc` | app.py:33-36 | one more change is appended to the gains when it is strictly positive, and its magnitude to the losses otherwise |
| `Indicators.GainsMinusLosses` | app.py:31-36 | summed gains minus summed losses equals the sum of the changes |
| `Indicators.DiffsTelescope` | app.py:31-32 | the changes add up to the last price minus the first |
| `Indicators.NetMove` | app.py:31-36 | summed gains minus summed losses is the net move of the series, last price minus first |
| `Indicators.AveragesNonNegative` | app.py:37-38 | average gain and average loss are both >= 0 |
| `Indicators.LossSumZeroIffNoFall` | app.py:33-36 | summed losses are zero exactly when no change is negative |
| `Indicators.NoLossIffNonDecreasing` | app.py:35-39 | the average loss is zero exactly when the series never falls, including empty, single-price and constant series |
| `Indicators.NoFallIffNonDecreasing` | app.py:31-32 | no change is negative exactly when every price is at least the one before it |
| `Indicators.AvgGain` | app.py:37 | the average gain is >= 0, and 0 exactly when there are no gains |
| `Indicators.AvgLoss` | app.py:38 | the average loss is >= 0, and 0 when there are no losses |
| `Indicators.NoGainIffNoRise` | app.py:33-37 | the average gain is zero exactly when there are no gains |
| `Indicators.RsiFormula` | app.py:41-42 | `100 - 100/(1 + gain/loss)` with a non-negative gain and a positive loss lies in [0, 100), and is 0 exactly when the gain is 0 |
| `Indicators.RsiExact` | app.py:37-42 | with a positive average loss the unrounded RSI lies in [0, 100), and is 0 exactly when there are no gains |
| `Indicators.RsiOfAverages` | app.py:37-42 | from two non-negative averages the reported RSI lies in [0, 100], and it is 70 whenever the average loss is 0 |
| `Indicators.Rsi` | app.py:28-42 | the reported RSI lies in [0, 100], and it is exactly 70 for every series that never falls |
| `Indicators.RsiExactRange` | app.py:37-42 | with a positive average loss the unrounded RSI lies in [0, 100), it is 0 exactly when there are no gains, and the reported RSI is its rounding |
| `Indicators.SaturatedCases` | app.py:31-40 | empty, one-price and constant series all report 70 |
| `Indicators.SomeFallIffLoss` | app.py:35-39 | the average loss is positive exactly when some step falls, which is when the formula branch is taken |
| `Indicators.SomeGainIffPositiveChange` | app.py:33-34 | the gain list is non-empty exactly when some change is strictly positive |
| `Indicators.SomeRiseIffGain` | app.py:31-34 | there is a gain exactly when the price rises at some step |
| `Indicators.RiseIffPositiveChange` | app.py:31-32 | some change is strictly positive exactly when the price rises at some step |
| `Indicators.SplitChanges` | app.py:29-36 | the loop that appends to `gains` and `losses` builds exactly the gain and loss lists of the change sequence |
| `Indicators.CalculateRsi` | app.py:28-42 | the loop-and-average procedure returns the RSI value defined by the gain/loss split, inside [0, 100] |
| `Indicators.Smoothing` | app.py:45 | for period >= 1 the factor k lies in (0, 1], and k times (period + 1) is 2 |
| `Indicators.EmaStep` | app.py:48 | one update moves the average the fraction k of the way from the old average to the new price |
| `Indicators.EmaExact` | app.py:46-48 | a single price is its own average, and with period 1 the average is the last price |
| `Indicators.EmaStepWithin` | app.py:48 | one update with k in (0, 1] stays between any bounds that both the old average and the new price respect |
| `Indicators.EmaExactWithin` | app.py:44-48 | for period >= 1 the unrounded EMA respects every bound that all prices respect, whatever the length of the series compared with the period |
| `Indicators.EmaExactBetweenExtremes` | app.py:44-48 | for period >= 1 the unrounded EMA lies between the smallest and the largest price |
| `Indicators.EmaExactConstant` | app.py:46-48 | a constant series averages to that constant, for any period |
| `Indicators.EmaExactPeriodOne` | app.py:45-48 | with period 1 the factor is 1 and the EMA is the last price |
| `Indicators.Ema` | app.py:44-49 | a one-price series returns that price when it is a whole number of hundredths; for period >= 1 the reported EMA lies between the rounded smallest and the rounded largest price, and so within 0.005 of the price range |
| `Indicators.CalculateEma` | app.py:44-49 | seeding with the first price and looping over the rest computes the reported EMA |
| `Classifier.Classify` | app.py:62-70 | ACHAT exactly when RSI < 30 and fast EMA > slow EMA; VENTE exactly when RSI > 70 and fast EMA < slow EMA; ATTENTE exactly when neither holds, so the three outcomes exclude each other and cover every input |
| `Classifier.Reason` | app.py:63-70 | every reason is non-empty, and it starts with the R of "RSI" exactly when the outcome is a trade |
| `Classifier.ReasonIdentifiesAction` | app.py:62-70 | the three reason strings are distinct, so the reason identifies the action |
| `Classifier.ThresholdRsiWaits` | app.py:65-70 | an RSI of exactly 70, the saturated value, gives ATTENTE whatever the averages |
| `Classifier.FlatTrendWaits` | app.py:62-70 | equal fast and slow averages give ATTENTE whatever the RSI |
| `Engine.Initial` | app.py:16-23 | the service starts with the full 1000 of capital, waiting, with a reason that no evaluation reports |
| `Engine.PositionSize` | app.py:60 | the position size is one fiftieth of the capital, between 0 and the capital for a non-negative capital |
| `Engine.PositionSizeMonotone` | app.py:60 | a larger capital never gives a smaller position size, before or after rounding |
| `Engine.Evaluate` | app.py:54-79 | the reported RSI is the RSI of the prices, the EMAs are the EMAs with periods 5 and 10, the size is two percent of the capital rounded; the action is the rule table applied to those values and the reason is its reason; RSI is in [0, 100]; both EMAs lie between the rounded smallest and largest price; the size is within 0.005 of two percent of the capital and non-negative for a non-negative capital |
| `Engine.NonDecreasingWaits` | app.py:56-70 | a series that never falls has RSI 70 and always gives ATTENTE |
| `Engine.BuyNeedsFall` | app.py:62-64 | ACHAT is only possible if the price falls at some step |
| `Engine.SellNeedsFallAndRise` | app.py:65-67 | VENTE is only possible if the price both falls and rises at some steps |
| `Engine.OverboughtNeedsGain` | app.py:37-42 | a reported RSI above 70 requires at least one gain |
| `Engine.Decide` | app.py:95-98 | the request records the evaluated action and its reason; capital, decision mode and status are unchanged |
| `Engine.DecideAll` | app.py:95-98 | however many requests are served, the capital, the mode and the status are never touched |
| `Engine.DecideIdempotent` | app.py:95-98 | serving the same request twice leaves the state as serving it once |
| `Engine.DecideAllPreserves` | app.py:95-98 | after any number of requests the capital, mode and status are the initial ones, and the recorded action and its reason are those of the last request |
| `Engine.InitialPositionSizeFixed` | app.py:60 | starting from the initial 1000 of capital, every request reports a position size of 20 |

## Left out

- The Flask application, the `/`, `/decision` and `/journal` routes and `jsonify` (app.py:1-4, 84-119): HTTP plumbing. Only the state update that `/decision` performs is modelled.
- The start time and uptime (app.py:22, 91): they read the wall clock. `RobotState` has no start-time field.
- The fixed price list inside `decision_engine` (app.py:55): with it the decision is a constant. `Evaluate` and `Decide` take the prices as a parameter instead.
- Floating-point arithmetic: every value is an exact real. `Round2` rounds an exact real to the nearest hundredth, with ties going to the even hundredth. Python's `round(x, 2)` applies the same rule to the exact value of a double. Differences caused by binary representation are not modelled.
- `Indicators.Ema`: its bound is the rounded price range, not the price range itself. Rounding can push a value just past a price that is not a whole number of hundredths. The unrounded bound is stated exactly in `Indicators.EmaExactBetweenExtremes`.
- `Series.Sum`: its own contract only covers a one-term list; non-negativity and concatenation are stated in `Series.SumNonNegative` and `Series.SumAppend`, which keeps every proof that mentions a sum small.
- The distinction between the integer 70 and a float RSI (app.py:40): it does not change any comparison, so both are the real 70.
- Python's runtime errors: `calcul_ema` on an empty list raises `IndexError`, and a period of -1 divides by zero. `Ema`, `Evaluate` and `Decide` require a non-empty series, and `Ema` requires a period other than -1.
