/**
 The rule table of `decision_engine` in app.py: an oversold RSI with a rising
 fast average buys, an overbought RSI with a falling fast average sells, and
 everything else waits.
 */
module Classifier {

  /** The three outcomes, under the names the program reports. */
  datatype Action = Achat | Vente | Attente

  /** Below this RSI the market counts as oversold. */
  const Oversold: real := 30.0
  /** Above this RSI the market counts as overbought. */
  const Overbought: real := 70.0

  /**
   The buy rule is tested first and the sell rule second, but the two can never
   both hold, so the outcome is fully described by each rule on its own.
   */
  function Classify(rsi: real, emaFast: real, emaSlow: real): (a: Action)
    ensures a == Achat <==> rsi < Oversold && emaFast > emaSlow
    ensures a == Vente <==> rsi > Overbought && emaFast < emaSlow
    ensures a == Attente <==> !(rsi < Oversold && emaFast > emaSlow) && !(rsi > Overbought && emaFast < emaSlow)
  {
    if rsi < Oversold && emaFast > emaSlow then Achat
    else if rsi > Overbought && emaFast < emaSlow then Vente
    else Attente
  }

  /**
   The explanation reported with each outcome. It is never empty, and it
   starts with the R of "RSI" exactly when the outcome is a trade.
   */
  function Reason(a: Action): (s: string)
    ensures |s| > 0
    ensures s[0] == 'R' <==> a != Attente
  {
    match a
    case Achat => "RSI survendu + EMA haussière"
    case Vente => "RSI suracheté + EMA baissière"
    case Attente => "Aucune condition optimale"
  }

  /** Each outcome has its own explanation, so the explanation identifies the outcome. */
  lemma ReasonIdentifiesAction(a: Action, b: Action)
    ensures Reason(a) == Reason(b) <==> a == b
  {
  }

  /** An RSI at the overbought threshold itself never buys nor sells. */
  lemma ThresholdRsiWaits(emaFast: real, emaSlow: real)
    ensures Classify(Overbought, emaFast, emaSlow) == Attente
  {
  }

  /** Equal averages never buy nor sell, whatever the RSI. */
  lemma FlatTrendWaits(rsi: real, ema: real)
    ensures Classify(rsi, ema, ema) == Attente
  {
  }
}
