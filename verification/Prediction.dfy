/**
 `predict_message` (app.py): the gibberish override, then the model's spam
 probability against a threshold, then the explanation terms for a spam
 verdict only.

 The trained pipeline is not modelled: a `Model` supplies the spam
 probability of a text and the feature scores the attribution ranks.
 */
module Prediction {
  import opened Wrappers
  import opened Gibberish
  import Attribution
  import Confidence

  /** What the decision layer uses of the trained pipeline. */
  datatype Model = Model(
    /** `model.predict_proba([text])[0][1]`. */
    spamProbability: string -> real,
    /** The `(term, tfidf value * coefficient)` pairs of the features present
        in the text, `None` when obtaining them raised. */
    featureScores: string -> Option<seq<Attribution.Score>>)

  /** A fitted logistic regression only ever returns probabilities in [0, 1]. */
  ghost predicate ProbabilitiesInRange(m: Model) {
    forall t :: 0.0 <= m.spamProbability(t) <= 1.0
  }

  /** The binary64 value of the literal 0.99 reported for an overridden text. */
  const OverrideProbability: real := 0.9899999999999999911182158029987476766109466552734375
  const OverrideReason: string := "Looks like random keyboard-smash (gibberish rule)."
  /** The threshold every caller in the application passes. */
  const DefaultThreshold: real := 0.5

  /** The tuple `(pred, prob, reason, spam_words)`. */
  datatype Verdict = Verdict(pred: int, prob: real, reason: Option<string>, spamWords: seq<string>)

  /** `predict_message(text, threshold)`. */
  function PredictMessage(m: Model, text: string, threshold: real): (v: Verdict)
    ensures v.pred == 0 || v.pred == 1
    ensures v.reason.Some? <==> LooksLikeGibberish(text)
    ensures LooksLikeGibberish(text) ==> v == Verdict(1, OverrideProbability, Some(OverrideReason), [])
    ensures !LooksLikeGibberish(text) ==>
      && v.prob == m.spamProbability(text)
      && (v.pred == 1 <==> v.prob >= threshold)
    ensures v.pred == 0 ==> v.spamWords == []
    ensures |v.spamWords| <= Attribution.DefaultTopN
  {
    if LooksLikeGibberish(text) then
      Verdict(1, OverrideProbability, Some(OverrideReason), [])
    else
      var prob := m.spamProbability(text);
      var pred := if prob >= threshold then 1 else 0;
      var spamWords := if pred == 1 then Attribution.TopSpamWords(m.featureScores(text), Attribution.DefaultTopN) else [];
      Verdict(pred, prob, None, spamWords)
  }

  // ---------------------------------------------------------------------
  // Properties
  // ---------------------------------------------------------------------

  /** The override never consults the model: two models give the same verdict
      on a text the gibberish rule flags. */
  lemma OverrideIgnoresModel(m1: Model, m2: Model, text: string, threshold: real)
    requires LooksLikeGibberish(text)
    ensures PredictMessage(m1, text, threshold) == PredictMessage(m2, text, threshold)
  {
  }

  /** With a model whose probabilities lie in [0, 1], so does the verdict's. */
  lemma ProbabilityInRange(m: Model, text: string, threshold: real)
    requires ProbabilitiesInRange(m)
    ensures 0.0 <= PredictMessage(m, text, threshold).prob <= 1.0
  {
    if !LooksLikeGibberish(text) {
      assert 0.0 <= m.spamProbability(text) <= 1.0;
    }
  }

  /** A probability exactly at the threshold is spam. */
  lemma ThresholdTieIsSpam(m: Model, text: string)
    requires !LooksLikeGibberish(text)
    ensures PredictMessage(m, text, m.spamProbability(text)).pred == 1
  {
  }

  /** Lowering the threshold never turns a spam verdict into a clean one. */
  lemma LowerThresholdKeepsSpam(m: Model, text: string, low: real, high: real)
    requires low <= high
    requires PredictMessage(m, text, high).pred == 1
    ensures PredictMessage(m, text, low).pred == 1
  {
  }

  /** The explanation of a statistical spam verdict is the ranking of the
      text's feature scores: every term comes from a feature with a strictly
      positive contribution. */
  lemma SpamWordsArePositiveFeatures(m: Model, text: string, threshold: real)
    requires !LooksLikeGibberish(text)
    requires PredictMessage(m, text, threshold).pred == 1
    ensures var v := PredictMessage(m, text, threshold);
      match m.featureScores(text)
      case None => v.spamWords == []
      case Some(scores) =>
        var ranked := Attribution.TopSpamScores(scores, Attribution.DefaultTopN);
        && v.spamWords == Attribution.Terms(ranked)
        && forall i :: 0 <= i < |ranked| ==> ranked[i].contribution > 0.0 && ranked[i] in scores
  {
    match m.featureScores(text)
    case None =>
    case Some(scores) =>
      var ranked := Attribution.TopSpamScores(scores, Attribution.DefaultTopN);
      forall i | 0 <= i < |ranked| ensures ranked[i] in scores {
        assert ranked[i] in multiset(ranked);
      }
  }

  /** An overridden text is labelled "Very likely spam". */
  lemma OverrideIsVeryLikelySpam(m: Model, text: string, threshold: real)
    requires LooksLikeGibberish(text)
    ensures var v := PredictMessage(m, text, threshold);
      Confidence.ConfidenceLabel(v.prob, v.pred) == "Very likely spam"
  {
  }
}
