/**
 The labelling rule of `get_sentiment`: the sign of a polarity score decides
 one of three labels. The score itself comes from an external lexicon-based
 scorer and is taken here as an exact real number.
 */
module Sentiment {

  datatype Label = Positive | Negative | Neutral

  /** `get_sentiment`'s rule: above zero is Positive, below zero Negative,
      and exactly zero Neutral. */
  function Classify(score: real): (l: Label)
    ensures l == Positive <==> score > 0.0
    ensures l == Negative <==> score < 0.0
    ensures l == Neutral <==> score == 0.0
  {
    if score > 0.0 then Positive
    else if score < 0.0 then Negative
    else Neutral
  }

  /** Labels ordered from most negative to most positive. */
  function Rank(l: Label): int {
    match l
    case Negative => -1
    case Neutral => 0
    case Positive => 1
  }

  /** The label with the opposite sign. */
  function Mirror(l: Label): Label {
    match l
    case Positive => Negative
    case Negative => Positive
    case Neutral => Neutral
  }

  /** A higher score never gets a lower label. */
  lemma ClassifyMonotone(x: real, y: real)
    requires x <= y
    ensures Rank(Classify(x)) <= Rank(Classify(y))
  {
  }

  /** Negating the score mirrors the label. */
  lemma ClassifyNegate(x: real)
    ensures Classify(-x) == Mirror(Classify(x))
  {
  }

  /** The label is the sign of the score: its rank times the score's
      magnitude is the score itself. */
  lemma ClassifyIsSign(x: real)
    ensures Rank(Classify(x)) as real * (if x < 0.0 then -x else x) == x
  {
  }
}
