/**
 * The data the scoring engine consumes (src/const/const.js): the Likert scale,
 * the four burnout levels, the classification thresholds and the assessment
 * configuration.
 */
module Constants {
  import Catalog

  /** One point of the five-point agreement scale: `{ value, label }`. */
  datatype LikertOption = LikertOption(value: int, caption: string)

  const LikertScaleOptions: seq<LikertOption> := [
    LikertOption(1, "Strongly Disagree"),
    LikertOption(2, "Disagree"),
    LikertOption(3, "Neutral"),
    LikertOption(4, "Agree"),
    LikertOption(5, "Strongly Agree")
  ]

  /** The Likert options are exactly the values 1..5 in increasing order, each with its own label. */
  lemma LikertScaleShape()
    ensures |LikertScaleOptions| == 5
    ensures forall i :: 0 <= i < |LikertScaleOptions| ==> LikertScaleOptions[i].value == i + 1
    ensures forall i, j :: 0 <= i < j < |LikertScaleOptions| ==>
      LikertScaleOptions[i].caption != LikertScaleOptions[j].caption
  {
  }

  /** The four severity tiers, in the order the classification rules name them. */
  datatype LevelKind = NoBurnout | ModerateBurnout | Burnout | ExtremeBurnout

  /** A tier's record: `{ level, description, recommendation }`; its colour fields are presentation. */
  datatype BurnoutLevel = BurnoutLevel(level: string, description: string, recommendation: string)

  /** `BURNOUT_LEVELS`: the record of each tier. */
  function LevelInfo(k: LevelKind): BurnoutLevel
  {
    BurnoutLevel(LevelLabel(k), LevelDescription(k), LevelRecommendation(k))
  }

  function LevelLabel(k: LevelKind): string
  {
    match k
    case NoBurnout => "No Burnout"
    case ModerateBurnout => "Moderate Burnout"
    case Burnout => "Burnout"
    case ExtremeBurnout => "Extreme Burnout"
  }

  function LevelDescription(k: LevelKind): string
  {
    match k
    case NoBurnout =>
      "You are showing no signs of burnout. Your emotional energy is strong, you feel engaged with your work, and you maintain a high sense of professional accomplishment."
    case ModerateBurnout =>
      "You are experiencing some burnout symptoms. While not at a critical level, this indicates areas that need attention to prevent progression."
    case Burnout =>
      "You are experiencing significant burnout symptoms that require attention and intervention to prevent further deterioration."
    case ExtremeBurnout =>
      "You are experiencing extreme burnout symptoms across all dimensions. This is a critical level that requires immediate intervention and professional support."
  }

  function LevelRecommendation(k: LevelKind): string
  {
    match k
    case NoBurnout =>
      "Continue maintaining your current work-life balance and self-care practices."
    case ModerateBurnout =>
      "Consider adjusting your work schedule, improving work-life balance, and implementing stress management techniques."
    case Burnout =>
      "Consider speaking with a healthcare professional, HR representative, or counselor. Take steps to reduce workload and implement stress management strategies."
    case ExtremeBurnout =>
      "Seek immediate professional help from a healthcare provider, counselor, or mental health specialist. Consider taking time off work and implementing immediate stress reduction measures."
  }

  /** The tiers as the source enumerates them. */
  const AllLevels: seq<LevelKind> := [NoBurnout, ModerateBurnout, Burnout, ExtremeBurnout]

  /** There are exactly four tiers, listed once each, and their `level` labels are pairwise
      distinct, so a label identifies its tier. */
  lemma FourDistinctLevels()
    ensures |AllLevels| == 4
    ensures forall k: LevelKind :: k in AllLevels
    ensures forall i, j :: 0 <= i < j < |AllLevels| ==> AllLevels[i] != AllLevels[j]
    ensures forall k1: LevelKind, k2: LevelKind :: k1 != k2 ==> LevelInfo(k1).level != LevelInfo(k2).level
  {
    LevelLabelsDistinct();
    forall k: LevelKind ensures k in AllLevels {
      match k
      case NoBurnout => assert AllLevels[0] == k;
      case ModerateBurnout => assert AllLevels[1] == k;
      case Burnout => assert AllLevels[2] == k;
      case ExtremeBurnout => assert AllLevels[3] == k;
    }
  }

  /** The tiers' labels already differ in their first letter. */
  lemma LevelLabelsDistinct()
    ensures forall k1: LevelKind, k2: LevelKind :: k1 != k2 ==> LevelInfo(k1).level != LevelInfo(k2).level
  {
    forall k1: LevelKind, k2: LevelKind | k1 != k2
      ensures LevelInfo(k1).level != LevelInfo(k2).level
    {
      assert LevelLabel(k1)[0] != LevelLabel(k2)[0];
    }
  }

  // SCORING_THRESHOLDS
  const NoBurnoutExhaustionMax: real := 2.5
  const NoBurnoutDisengagementMax: real := 2.5
  const NoBurnoutEfficacyMin: real := 3.5
  const ExtremeExhaustionMin: real := 4.0
  const ExtremeDisengagementMin: real := 4.0
  const ExtremeEfficacyMax: real := 2.0
  const BurnoutExhaustionMin: real := 3.5
  const BurnoutDisengagementMin: real := 3.5
  const BurnoutEfficacyMax: real := 2.5

  /** The Extreme thresholds are at least as strict as the Burnout ones on every dimension. */
  lemma ExtremeThresholdsStricter()
    ensures ExtremeExhaustionMin >= BurnoutExhaustionMin
    ensures ExtremeDisengagementMin >= BurnoutDisengagementMin
    ensures ExtremeEfficacyMax <= BurnoutEfficacyMax
  {
  }

  /** The No-Burnout maxima lie below the Burnout (hence also the Extreme) minima. */
  lemma NoBurnoutThresholdsBelow()
    ensures NoBurnoutExhaustionMax < BurnoutExhaustionMin
    ensures NoBurnoutDisengagementMax < BurnoutDisengagementMin
    ensures NoBurnoutExhaustionMax < ExtremeExhaustionMin
  {
  }

  // ASSESSMENT_CONFIG
  const TotalQuestions: nat := 18
  const DecimalPlaces: nat := 2
  const MaxScore: real := 5.0

  /** The configured question total matches the catalog, the configured maximum is the
      top of the Likert scale, and scores are kept to hundredths. */
  lemma ConfigMatchesCatalog()
    ensures TotalQuestions == |Catalog.Questions|
    ensures MaxScore == LikertScaleOptions[|LikertScaleOptions| - 1].value as real
    ensures DecimalPlaces == 2
  {
  }

  /** `SCORE_LABELS`. */
  const HighLabel: string := "High"
  const ModerateLabel: string := "Moderate"
  const LowLabel: string := "Low"
  const HighRiskLabel: string := "High Risk"
  const ModerateRiskLabel: string := "Moderate Risk"
  const LowRiskLabel: string := "Low Risk"
}
