/**
 The decision engine of app.py and the effect of a `/decision` request on the
 robot's state.

 The program evaluates a fixed price list; here the prices are a parameter,
 so that every property below holds for any non-empty series.
 */
module Engine {
  import opened Series
  import opened Rounding
  import opened Indicators
  import opened Classifier

  /** Simulated starting capital. */
  const InitialCapital: real := 1000.0
  /** Fraction of the capital committed to one trade. */
  const RiskPerTrade: real := 0.02
  /** Periods of the fast and the slow moving average. */
  const FastPeriod: int := 5
  const SlowPeriod: int := 10

  /**
   The robot's state, less its start time. `modeDecision` and `statut` are
   descriptive strings that no operation here changes.
   */
  datatype RobotState = RobotState(
    modeDecision: string,
    statut: string,
    capital: real,
    lastAction: Action,
    reason: string)

  /**
   The state the service starts in: the full starting capital, waiting, with a
   reason that no evaluation ever reports, so a fresh state can be told apart
   from one that has served a request.
   */
  function Initial(): (s: RobotState)
    ensures s.capital == InitialCapital
    ensures s.lastAction == Attente
    ensures forall a :: s.reason != Reason(a)
  {
    RobotState("C", "STO STABLE – MODE OFFLINE", InitialCapital, Attente, "Initialisation")
  }

  /** What one evaluation reports. */
  datatype Evaluation = Evaluation(
    action: Action,
    reason: string,
    rsi: real,
    emaFast: real,
    emaSlow: real,
    positionSize: real)

  /** The amount a trade would commit: two percent of the capital. */
  function PositionSize(capital: real): (size: real)
    ensures size * 50.0 == capital
    ensures capital >= 0.0 ==> 0.0 <= size <= capital
    ensures capital <= 0.0 ==> capital <= size <= 0.0
  {
    capital * RiskPerTrade
  }

  /** A larger capital never commits less. */
  lemma PositionSizeMonotone(c1: real, c2: real)
    requires c1 <= c2
    ensures PositionSize(c1) <= PositionSize(c2)
    ensures Round2(PositionSize(c1)) <= Round2(PositionSize(c2))
  {
    Round2Monotone(PositionSize(c1), PositionSize(c2));
  }

  lemma RoundedSizeNonNegative(size: real)
    ensures size >= 0.0 ==> Round2(size) >= 0.0
  {
    if size >= 0.0 {
      Round2Monotone(0.0, size);
      Round2Exact(0.0);
    }
  }

  /**
   One evaluation of the indicators and the rule table on `prices`, with the
   position size computed from `capital`. The prices must be non-empty: the
   moving average starts from the first price.
   */
  function Evaluate(capital: real, prices: seq<real>): (e: Evaluation)
    requires |prices| > 0
    ensures e.rsi == Rsi(prices)
    ensures e.emaFast == Ema(prices, FastPeriod)
    ensures e.emaSlow == Ema(prices, SlowPeriod)
    ensures e.positionSize == Round2(PositionSize(capital))
    ensures e.action == Classify(e.rsi, e.emaFast, e.emaSlow)
    ensures e.reason == Reason(e.action)
    ensures 0.0 <= e.rsi <= 100.0
    ensures Round2(SeqMin(prices)) <= e.emaFast <= Round2(SeqMax(prices))
    ensures Round2(SeqMin(prices)) <= e.emaSlow <= Round2(SeqMax(prices))
    ensures capital >= 0.0 ==> e.positionSize >= 0.0
    ensures capital * RiskPerTrade - 0.005 <= e.positionSize <= capital * RiskPerTrade + 0.005
  {
    var rsi := Rsi(prices);
    var fast := Ema(prices, FastPeriod);
    var slow := Ema(prices, SlowPeriod);
    var action := Classify(rsi, fast, slow);
    var size := PositionSize(capital);
    RoundedSizeNonNegative(size);
    Evaluation(action, Reason(action), rsi, fast, slow, Round2(size))
  }

  /**
   A series that never falls has a zero average loss, so its RSI is the
   saturated 70, which neither buys nor sells, whatever the averages say.
   */
  lemma NonDecreasingWaits(capital: real, prices: seq<real>)
    requires |prices| > 0 && NonDecreasing(prices)
    ensures Evaluate(capital, prices).rsi == SaturatedRsi
    ensures Evaluate(capital, prices).action == Attente
  {
  }

  /** A buy needs a step where the price falls. */
  lemma BuyNeedsFall(capital: real, prices: seq<real>)
    requires |prices| > 0
    ensures Evaluate(capital, prices).action == Achat ==>
      exists i :: 0 < i < |prices| && prices[i] < prices[i - 1]
  {
    SomeFallIffLoss(prices);
  }

  /** A sell needs both a step where the price falls and one where it rises. */
  lemma SellNeedsFallAndRise(capital: real, prices: seq<real>)
    requires |prices| > 0
    ensures Evaluate(capital, prices).action == Vente ==>
      exists i :: 0 < i < |prices| && prices[i] < prices[i - 1]
    ensures Evaluate(capital, prices).action == Vente ==>
      exists i :: 0 < i < |prices| && prices[i] > prices[i - 1]
  {
    SomeFallIffLoss(prices);
    AveragesNonNegative(prices);
    OverboughtNeedsGain(prices);
    SomeRiseIffGain(prices);
  }

  /** An RSI above 70 needs at least one gain: without gains it is 70 or 0. */
  lemma OverboughtNeedsGain(prices: seq<real>)
    ensures Rsi(prices) > Overbought ==> |Gains(Diffs(prices))| > 0
  {
    AveragesNonNegative(prices);
    if AvgLoss(prices) > 0.0 {
      RsiExactRange(prices);
      Round2Exact(0.0);
    }
  }

  /**
   The `/decision` request: evaluate, then record the action and its reason.
   Nothing else in the state changes.
   */
  function Decide(s: RobotState, prices: seq<real>): (out: (RobotState, Evaluation))
    requires |prices| > 0
    ensures out.1 == Evaluate(s.capital, prices)
    ensures out.0.lastAction == out.1.action
    ensures out.0.reason == Reason(out.1.action)
    ensures out.0.capital == s.capital
    ensures out.0.modeDecision == s.modeDecision
    ensures out.0.statut == s.statut
  {
    var e := Evaluate(s.capital, prices);
    (s.(lastAction := e.action, reason := e.reason), e)
  }

  /** Repeating a request on the same prices changes nothing further. */
  lemma DecideIdempotent(s: RobotState, prices: seq<real>)
    requires |prices| > 0
    ensures Decide(Decide(s, prices).0, prices) == Decide(s, prices)
  {
  }

  /** Every series of a run is non-empty. */
  predicate ValidRun(runs: seq<seq<real>>) {
    forall i :: 0 <= i < |runs| ==> |runs[i]| > 0
  }

  /**
   The state after serving one `/decision` request per series, in order. The
   capital, the mode and the status are never touched.
   */
  function DecideAll(s: RobotState, runs: seq<seq<real>>): (t: RobotState)
    requires ValidRun(runs)
    ensures t.capital == s.capital
    ensures t.modeDecision == s.modeDecision
    ensures t.statut == s.statut
  {
    if |runs| == 0 then s
    else Decide(DecideAll(s, runs[..|runs| - 1]), runs[|runs| - 1]).0
  }

  /**
   However many requests are served, the capital, the mode and the status
   stay as they were, and the recorded action is the one of the last request.
   */
  lemma {:induction false} DecideAllPreserves(s: RobotState, runs: seq<seq<real>>)
    requires ValidRun(runs)
    ensures DecideAll(s, runs).capital == s.capital
    ensures DecideAll(s, runs).modeDecision == s.modeDecision
    ensures DecideAll(s, runs).statut == s.statut
    ensures |runs| == 0 ==> DecideAll(s, runs) == s
    ensures |runs| > 0 ==>
      DecideAll(s, runs).lastAction == Evaluate(s.capital, runs[|runs| - 1]).action
    ensures |runs| > 0 ==>
      DecideAll(s, runs).reason == Reason(DecideAll(s, runs).lastAction)
  {
    if |runs| > 0 {
      DecideAllPreserves(s, runs[..|runs| - 1]);
    }
  }

  /**
   From the initial state every later request reports a position size of 20,
   two percent of the untouched 1000 of capital.
   */
  lemma InitialPositionSizeFixed(runs: seq<seq<real>>, prices: seq<real>)
    requires ValidRun(runs) && |prices| > 0
    ensures Decide(DecideAll(Initial(), runs), prices).1.positionSize == 20.0
  {
    DecideAllPreserves(Initial(), runs);
    assert PositionSize(InitialCapital) == 20.0;
    Round2Exact(20.0);
  }
}
