/**
 `get_confidence_label` (app.py): a total mapping from a spam probability and
 a predicted label to one of five qualitative tiers.

 The cut-off constants are the exact values of the binary64 literals the
 source compares against, so comparing a probability's exact value with them
 gives the same answer as Python's float comparison. The literal 0.87 is just
 below 87/100 and 0.65 just above 65/100; the difference decides the bucket of
 the probability 0.65 itself.
 */
module Confidence {

  /** The binary64 value of the literal 0.87. */
  const VeryLikelyCut: real := 0.86999999999999999555910790149937383830547332763671875
  /** The binary64 value of the literal 0.65. */
  const ProbablyCut: real := 0.65000000000000002220446049250313080847263336181640625
  /** The binary64 value of the literal 0.15. */
  const DefinitelyCleanCut: real := 0.1499999999999999944488848768742172978818416595458984375
  /** The binary64 value of the literal 0.35. */
  const LooksCleanCut: real := 0.34999999999999997779553950749686919152736663818359375

  datatype Tier = VeryLikelySpam | ProbablySpam | Borderline | LooksClean | DefinitelyClean {

    /** The label text the source returns for this tier. */
    function Text(): string {
      match this
      case VeryLikelySpam => "Very likely spam"
      case ProbablySpam => "Probably spam"
      case Borderline => "Borderline"
      case LooksClean => "Looks clean"
      case DefinitelyClean => "Definitely clean"
    }

    /** How strongly the tier points to spam: 0 (definitely clean) to 4 (very likely spam). */
    function SpamRank(): nat {
      match this
      case DefinitelyClean => 0
      case LooksClean => 1
      case Borderline => 2
      case ProbablySpam => 3
      case VeryLikelySpam => 4
    }
  }

  /** The tier of `(prob, pred)`: the spam branch is taken only for `pred == 1`,
      any other value of `pred` takes the clean branch. Each tier is given by
      the interval it covers, with the boundary on the side the source puts it. */
  function TierOf(prob: real, pred: int): (t: Tier)
    ensures pred == 1 ==>
      && (t == VeryLikelySpam <==> prob > VeryLikelyCut)
      && (t == ProbablySpam <==> ProbablyCut < prob <= VeryLikelyCut)
      && (t == Borderline <==> prob <= ProbablyCut)
    ensures pred != 1 ==>
      && (t == DefinitelyClean <==> prob < DefinitelyCleanCut)
      && (t == LooksClean <==> DefinitelyCleanCut <= prob < LooksCleanCut)
      && (t == Borderline <==> prob >= LooksCleanCut)
  {
    if pred == 1 then
      if prob > VeryLikelyCut then VeryLikelySpam
      else if prob > ProbablyCut then ProbablySpam
      else Borderline
    else
      if prob < DefinitelyCleanCut then DefinitelyClean
      else if prob < LooksCleanCut then LooksClean
      else Borderline
  }

  /** `get_confidence_label(prob, pred)`: the label text, stated interval by
      interval. */
  function ConfidenceLabel(prob: real, pred: int): (s: string)
    ensures pred == 1 ==>
      && (s == "Very likely spam" <==> prob > VeryLikelyCut)
      && (s == "Probably spam" <==> ProbablyCut < prob <= VeryLikelyCut)
      && (s == "Borderline" <==> prob <= ProbablyCut)
    ensures pred != 1 ==>
      && (s == "Definitely clean" <==> prob < DefinitelyCleanCut)
      && (s == "Looks clean" <==> DefinitelyCleanCut <= prob < LooksCleanCut)
      && (s == "Borderline" <==> prob >= LooksCleanCut)
  {
    TierOf(prob, pred).Text()
  }

  // ---------------------------------------------------------------------
  // Properties
  // ---------------------------------------------------------------------

  /** Different tiers have different label texts, so the label determines the tier. */
  lemma TextInjective(a: Tier, b: Tier)
    requires a.Text() == b.Text()
    ensures a == b
  {
  }

  /** A spam verdict only ever gets a spam tier or Borderline, a clean verdict
      only a clean tier or Borderline: Borderline is the only label both share. */
  lemma BranchesShareOnlyBorderline(p: real, q: real, other: int)
    requires other != 1
    requires TierOf(p, 1) == TierOf(q, other)
    ensures TierOf(p, 1) == Borderline
  {
  }

  /** Raising the probability never lowers the tier, for either verdict. */
  lemma TierMonotone(p: real, q: real, pred: int)
    requires p <= q
    ensures TierOf(p, pred).SpamRank() <= TierOf(q, pred).SpamRank()
  {
  }

  /** The boundaries of the spam branch: the probability 0.87 is "Probably
      spam" and 0.65 is "Borderline", each belonging to the tier below it. */
  lemma SpamBoundaries()
    ensures ConfidenceLabel(VeryLikelyCut, 1) == "Probably spam"
    ensures ConfidenceLabel(ProbablyCut, 1) == "Borderline"
  {
  }

  /** The boundaries of the clean branch: the probability 0.15 is "Looks
      clean" and 0.35 is "Borderline", each belonging to the tier above it. */
  lemma CleanBoundaries()
    ensures ConfidenceLabel(DefinitelyCleanCut, 0) == "Looks clean"
    ensures ConfidenceLabel(LooksCleanCut, 0) == "Borderline"
  {
  }
}
