/**
 * The burnout scoring engine (src/utils/scoring.js): per-category means of the
 * recorded answers, their rounding to two decimals, and the first-match rule
 * chain that turns the three rounded scores into a severity tier.
 */
module Scoring {
  import opened Catalog
  import opened Constants

  /** The answer map: question id to recorded Likert value. An id without a key is a
      question not answered yet (`answers[q.id] === undefined`). */
  type Answers = map<int, int>

  /** Every recorded value is a point of the Likert scale. */
  predicate LikertValued(answers: Answers)
  {
    forall k :: k in answers ==> 1 <= answers[k] <= 5
  }

  /** The recorded values of category `c`'s questions, in catalog order: the catalog is
      filtered to the category, each question is looked up, and unanswered ones are dropped. */
  function CategoryAnswers(c: Category, answers: Answers, qs: seq<Question>): (r: seq<int>)
    ensures |r| <= |qs|
    ensures forall x :: x in r ==> x in answers.Values
  {
    if qs == [] then []
    else
      var rest := CategoryAnswers(c, answers, qs[1..]);
      if qs[0].category == c && qs[0].id in answers then [answers[qs[0].id]] + rest else rest
  }

  /** The `reduce((sum, score) => sum + score, 0)` of a list of values. */
  function Sum(s: seq<int>): int
  {
    if s == [] then 0 else s[0] + Sum(s[1..])
  }

  /** The arithmetic mean of the values, exact; 0 for no values. */
  function Mean(s: seq<int>): (m: real)
    ensures |s| > 0 ==> m * |s| as real == Sum(s) as real
    ensures |s| == 0 ==> m == 0.0
  {
    if |s| > 0 then Sum(s) as real / |s| as real else 0.0
  }

  /** The raw (unrounded) score of a category: the mean of its recorded values, or 0 when
      none of its questions has an answer. */
  function CategoryMean(c: Category, answers: Answers, qs: seq<Question>): real
  {
    Mean(CategoryAnswers(c, answers, qs))
  }

  /** `calculateExhaustionScore`. */
  function ExhaustionScore(answers: Answers, qs: seq<Question>): (r: real)
    ensures r == CategoryMean(EmotionalExhaustion, answers, qs)
  {
    Mean(CategoryAnswers(EmotionalExhaustion, answers, qs))
  }

  /** `calculateDisengagementScore`. */
  function DisengagementScore(answers: Answers, qs: seq<Question>): (r: real)
    ensures r == CategoryMean(Disengagement, answers, qs)
  {
    Mean(CategoryAnswers(Disengagement, answers, qs))
  }

  /** `calculateProfessionalEfficacyScore`. */
  function EfficacyScore(answers: Answers, qs: seq<Question>): (r: real)
    ensures r == CategoryMean(ProfessionalEfficacy, answers, qs)
  {
    Mean(CategoryAnswers(ProfessionalEfficacy, answers, qs))
  }

  // ---------------------------------------------------------------------------
  // What a category score is

  /** Appending a question to the catalog appends its recorded value when it belongs to the
      category and is answered, and appends nothing otherwise: an unanswered question is
      skipped, it does not contribute a zero. */
  lemma {:induction false} CategoryAnswersSnoc(c: Category, answers: Answers, qs: seq<Question>, q: Question)
    ensures CategoryAnswers(c, answers, qs + [q])
      == CategoryAnswers(c, answers, qs) + (if q.category == c && q.id in answers then [answers[q.id]] else [])
  {
    if qs == [] {
      assert [] + [q] == [q];
    } else {
      assert (qs + [q])[1..] == qs[1..] + [q];
      CategoryAnswersSnoc(c, answers, qs[1..], q);
    }
  }

  /** With no answered question in the category, the list of values is empty and the score is 0. */
  lemma {:induction false} NoAnswersMeansZero(c: Category, answers: Answers, qs: seq<Question>)
    requires forall i :: 0 <= i < |qs| && qs[i].category == c ==> qs[i].id !in answers
    ensures CategoryAnswers(c, answers, qs) == []
    ensures CategoryMean(c, answers, qs) == 0.0
  {
    if qs != [] {
      NoAnswersMeansZero(c, answers, qs[1..]);
    }
  }

  /** One answered question of the category makes the list of values non-empty. */
  lemma {:induction false} AnsweredMeansNonEmpty(c: Category, answers: Answers, qs: seq<Question>, i: int)
    requires 0 <= i < |qs| && qs[i].category == c && qs[i].id in answers
    ensures |CategoryAnswers(c, answers, qs)| > 0
  {
    if i > 0 {
      AnsweredMeansNonEmpty(c, answers, qs[1..], i - 1);
    }
  }

  /** Bounds on the answers of the category's questions carry over to the list of values. */
  lemma {:induction false} AnswersWithin(c: Category, answers: Answers, qs: seq<Question>, lo: int, hi: int)
    requires forall i :: 0 <= i < |qs| && qs[i].category == c && qs[i].id in answers ==>
      lo <= answers[qs[i].id] <= hi
    ensures forall x :: x in CategoryAnswers(c, answers, qs) ==> lo <= x <= hi
  {
    if qs != [] {
      AnswersWithin(c, answers, qs[1..], lo, hi);
    }
  }

  /** A sum of values in [lo, hi] lies between |s| * lo and |s| * hi. */
  lemma SumBounds(s: seq<int>, lo: int, hi: int)
    requires forall x :: x in s ==> lo <= x <= hi
    ensures |s| * lo <= Sum(s) <= |s| * hi
  {
    assert forall i :: 0 <= i < |s| ==> s[i] in s;
    SumBoundsAt(s, lo, hi);
  }

  /** `SumBounds` with the bounds given position by position, the form the induction uses. */
  lemma {:induction false} SumBoundsAt(s: seq<int>, lo: int, hi: int)
    requires forall i :: 0 <= i < |s| ==> lo <= s[i] <= hi
    ensures |s| * lo <= Sum(s) <= |s| * hi
  {
    if s != [] {
      var n := |s| - 1;
      assert forall i :: 0 <= i < n ==> s[1..][i] == s[i + 1];
      SumBoundsAt(s[1..], lo, hi);
      assert |s| * lo == n * lo + lo && |s| * hi == n * hi + hi;
    }
  }

  /** The mean of a non-empty list of values in [lo, hi] lies in [lo, hi]. */
  lemma MeanBounds(s: seq<int>, lo: int, hi: int)
    requires |s| > 0
    requires forall x :: x in s ==> lo <= x <= hi
    ensures lo as real <= Mean(s) <= hi as real
  {
    SumBounds(s, lo, hi);
    var n := |s| as real;
    var m := Mean(s);
    assert m * n == Sum(s) as real;
    assert (m - lo as real) * n >= 0.0;
    assert (hi as real - m) * n >= 0.0;
  }

  /** A category score over Likert answers, when at least one of its questions is answered,
      lies in [1, 5]. */
  lemma CategoryMeanInLikertRange(c: Category, answers: Answers, qs: seq<Question>, i: int)
    requires forall j :: 0 <= j < |qs| && qs[j].category == c && qs[j].id in answers ==>
      1 <= answers[qs[j].id] <= 5
    requires 0 <= i < |qs| && qs[i].category == c && qs[i].id in answers
    ensures 1.0 <= CategoryMean(c, answers, qs) <= 5.0
  {
    AnsweredMeansNonEmpty(c, answers, qs, i);
    AnswersWithin(c, answers, qs, 1, 5);
    MeanBounds(CategoryAnswers(c, answers, qs), 1, 5);
  }

  /** When every answered question of the category carries the value v and one of them is
      answered, the score is exactly v. */
  lemma CategoryMeanOfConstant(c: Category, answers: Answers, qs: seq<Question>, v: int, i: int)
    requires forall j :: 0 <= j < |qs| && qs[j].category == c && qs[j].id in answers ==>
      answers[qs[j].id] == v
    requires 0 <= i < |qs| && qs[i].category == c && qs[i].id in answers
    ensures CategoryMean(c, answers, qs) == v as real
  {
    AnsweredMeansNonEmpty(c, answers, qs, i);
    AnswersWithin(c, answers, qs, v, v);
    MeanBounds(CategoryAnswers(c, answers, qs), v, v);
  }

  /** Over Likert answers the score is 0 exactly when no question of the category is
      answered (and lies in [1, 5] otherwise). */
  lemma ZeroIffNoneAnswered(c: Category, answers: Answers, qs: seq<Question>)
    requires LikertValued(answers)
    ensures CategoryMean(c, answers, qs) == 0.0 <==>
      forall i :: 0 <= i < |qs| && qs[i].category == c ==> qs[i].id !in answers
  {
    if forall i :: 0 <= i < |qs| && qs[i].category == c ==> qs[i].id !in answers {
      NoAnswersMeansZero(c, answers, qs);
    } else {
      var i :| 0 <= i < |qs| && qs[i].category == c && qs[i].id in answers;
      CategoryMeanInLikertRange(c, answers, qs, i);
    }
  }

  /** Two answer maps that agree on the category's questions (same ids answered, same
      values) give the category the same score: other questions never matter. */
  lemma {:induction false} OnlyOwnCategoryCounts(c: Category, a1: Answers, a2: Answers, qs: seq<Question>)
    requires forall i :: 0 <= i < |qs| && qs[i].category == c ==>
      (qs[i].id in a1 <==> qs[i].id in a2) && (qs[i].id in a1 ==> a1[qs[i].id] == a2[qs[i].id])
    ensures CategoryAnswers(c, a1, qs) == CategoryAnswers(c, a2, qs)
    ensures CategoryMean(c, a1, qs) == CategoryMean(c, a2, qs)
  {
    if qs != [] {
      OnlyOwnCategoryCounts(c, a1, a2, qs[1..]);
    }
  }

  /** Recording an answer for an id that no question of the category carries leaves the
      category's score unchanged. */
  lemma AnswerElsewhereIgnored(c: Category, answers: Answers, qs: seq<Question>, id: int, v: int)
    requires forall i :: 0 <= i < |qs| && qs[i].id == id ==> qs[i].category != c
    ensures CategoryMean(c, answers[id := v], qs) == CategoryMean(c, answers, qs)
  {
    OnlyOwnCategoryCounts(c, answers[id := v], answers, qs);
  }

  // ---------------------------------------------------------------------------
  // Rounding: `Number(x.toFixed(2))`

  /** x is a whole number of hundredths. */
  predicate IsHundredth(x: real)
  {
    (x * 100.0).Floor as real == x * 100.0
  }

  /** `Number(x.toFixed(2))` on the exact value x: the nearest hundredth, a tie going to the
      one of larger magnitude. */
  function RoundHundredth(x: real): (r: real)
    ensures IsHundredth(r)
    ensures x >= 0.0 ==> x - 0.005 < r <= x + 0.005
    ensures x < 0.0 ==> x - 0.005 <= r < x + 0.005
  {
    if x >= 0.0 then
      var n := (x * 100.0 + 0.5).Floor;
      FloorBounds(x * 100.0 + 0.5);
      HundredthOfInt(n);
      n as real / 100.0
    else
      var n := ((-x) * 100.0 + 0.5).Floor;
      FloorBounds((-x) * 100.0 + 0.5);
      HundredthOfInt(-n);
      (-n) as real / 100.0
  }

  lemma FloorBounds(y: real)
    ensures y - 1.0 < y.Floor as real <= y
  {
  }

  lemma HundredthOfInt(n: int)
    ensures IsHundredth(n as real / 100.0)
  {
    assert n as real / 100.0 * 100.0 == n as real;
  }

  /** A value that already is a hundredth is left as it is. */
  lemma RoundHundredthOfHundredth(x: real)
    requires IsHundredth(x)
    ensures RoundHundredth(x) == x
  {
    var r := RoundHundredth(x);
    var n := (x * 100.0).Floor;
    var m := (r * 100.0).Floor;
    assert (m - n) as real == r * 100.0 - x * 100.0;
    assert -0.5 <= (m - n) as real <= 0.5;
  }

  /** Rounding never reverses the order of two values. */
  lemma RoundHundredthMonotone(x: real, y: real)
    requires x <= y
    ensures RoundHundredth(x) <= RoundHundredth(y)
  {
    if x >= 0.0 {
      assert (x * 100.0 + 0.5).Floor <= (y * 100.0 + 0.5).Floor;
    } else if y < 0.0 {
      assert ((-y) * 100.0 + 0.5).Floor <= ((-x) * 100.0 + 0.5).Floor;
    }
  }

  /** A value in [1, 5] rounds to a value in [1, 5]; 0 rounds to 0. */
  lemma RoundHundredthKeepsLikertRange(x: real)
    ensures 1.0 <= x <= 5.0 ==> 1.0 <= RoundHundredth(x) <= 5.0
    ensures x == 0.0 ==> RoundHundredth(x) == 0.0
  {
    RoundHundredthOfHundredth(1.0);
    RoundHundredthOfHundredth(5.0);
    RoundHundredthOfHundredth(0.0);
    if 1.0 <= x <= 5.0 {
      RoundHundredthMonotone(1.0, x);
      RoundHundredthMonotone(x, 5.0);
    }
  }

  /** The three rounded category scores `{ exhaustion_score, disengagement_score,
      professional_efficacy_score }`. */
  datatype Scores = Scores(exhaustion: real, disengagement: real, efficacy: real)

  function Abs(x: real): real
  {
    if x < 0.0 then -x else x
  }

  /** `calculateBurnoutScores`: each score is its category's mean kept to two decimals, that
      is, a whole number of hundredths no further than half a hundredth from the mean. */
  function CalculateBurnoutScores(answers: Answers, qs: seq<Question>): (s: Scores)
    ensures IsHundredth(s.exhaustion) && Abs(s.exhaustion - ExhaustionScore(answers, qs)) <= 0.005
    ensures IsHundredth(s.disengagement) && Abs(s.disengagement - DisengagementScore(answers, qs)) <= 0.005
    ensures IsHundredth(s.efficacy) && Abs(s.efficacy - EfficacyScore(answers, qs)) <= 0.005
  {
    Scores(
      RoundHundredth(ExhaustionScore(answers, qs)),
      RoundHundredth(DisengagementScore(answers, qs)),
      RoundHundredth(EfficacyScore(answers, qs)))
  }

  // ---------------------------------------------------------------------------
  // Classification: `determineBurnoutLevel`

  predicate InNoBurnoutRegion(e: real, d: real, p: real)
  {
    e < NoBurnoutExhaustionMax && d < NoBurnoutDisengagementMax && p >= NoBurnoutEfficacyMin
  }

  predicate InExtremeRegion(e: real, d: real, p: real)
  {
    e > ExtremeExhaustionMin && d > ExtremeDisengagementMin && p < ExtremeEfficacyMax
  }

  predicate InBurnoutRegion(e: real, d: real, p: real)
  {
    e > BurnoutExhaustionMin && d > BurnoutDisengagementMin && p < BurnoutEfficacyMax
  }

  /** The first-match rule chain No Burnout, Extreme, Burnout, otherwise Moderate. Its
      outcome is described region by region, without reference to the order of the rules. */
  function DetermineBurnoutLevel(e: real, d: real, p: real): (k: LevelKind)
    ensures k == NoBurnout <==> e < 2.5 && d < 2.5 && p >= 3.5
    ensures k == ExtremeBurnout <==> e > 4.0 && d > 4.0 && p < 2.0
    ensures k == Burnout <==> InBurnoutRegion(e, d, p) && !InExtremeRegion(e, d, p)
    ensures k == ModerateBurnout <==> !InNoBurnoutRegion(e, d, p) && !InBurnoutRegion(e, d, p)
  {
    if InNoBurnoutRegion(e, d, p) then NoBurnout
    else if InExtremeRegion(e, d, p) then ExtremeBurnout
    else if InBurnoutRegion(e, d, p) then Burnout
    else ModerateBurnout
  }

  /** The Extreme region lies inside the Burnout region, which is why Extreme must be tested
      first: the same triple satisfies both rules. */
  lemma ExtremeInsideBurnout(e: real, d: real, p: real)
    ensures InExtremeRegion(e, d, p) ==> InBurnoutRegion(e, d, p)
    ensures InExtremeRegion(4.5, 4.5, 1.5) && InBurnoutRegion(4.5, 4.5, 1.5)
  {
  }

  /** The No-Burnout region meets neither the Burnout nor the Extreme region. */
  lemma NoBurnoutDisjoint(e: real, d: real, p: real)
    ensures !(InNoBurnoutRegion(e, d, p) && InBurnoutRegion(e, d, p))
    ensures !(InNoBurnoutRegion(e, d, p) && InExtremeRegion(e, d, p))
  {
  }

  /** The documented boundary cases: all-low-risk gives No Burnout, 4.5/4.5/1.5 gives Extreme,
      3.8/3.8/2.0 gives Burnout (3.8 is not above 4), 3/3/3 and a single extreme sub-score
      fall through to Moderate. */
  lemma ClassificationExamples()
    ensures DetermineBurnoutLevel(1.0, 1.0, 5.0) == NoBurnout
    ensures DetermineBurnoutLevel(4.5, 4.5, 1.5) == ExtremeBurnout
    ensures DetermineBurnoutLevel(3.8, 3.8, 2.0) == Burnout
    ensures DetermineBurnoutLevel(3.0, 3.0, 3.0) == ModerateBurnout
    ensures DetermineBurnoutLevel(4.2, 2.0, 1.0) == ModerateBurnout
  {
  }

  // ---------------------------------------------------------------------------
  // `getCompleteBurnoutAssessment`

  /** The three rounded scores with the tier they classify to. */
  datatype Assessment = Assessment(scores: Scores, level: LevelKind)
  {
    /** The tier's `BURNOUT_LEVELS` record, the `burnoutLevel` the source returns. */
    function BurnoutLevelRecord(): BurnoutLevel
    {
      LevelInfo(level)
    }
  }

  /** The assessment returns the rounded scores and classifies those same rounded scores,
      not the raw means. */
  function GetCompleteBurnoutAssessment(answers: Answers, qs: seq<Question>): (r: Assessment)
    ensures r.scores == CalculateBurnoutScores(answers, qs)
    ensures r.level == DetermineBurnoutLevel(r.scores.exhaustion, r.scores.disengagement, r.scores.efficacy)
  {
    var scores := CalculateBurnoutScores(answers, qs);
    Assessment(scores, DetermineBurnoutLevel(scores.exhaustion, scores.disengagement, scores.efficacy))
  }

  /** Rounding before classifying matters in general: a raw exhaustion of 2.497 is below the
      No-Burnout maximum but its rounded value 2.5 is not. */
  lemma RoundingBeforeClassifyingMatters()
    ensures RoundHundredth(2.497) == 2.5
    ensures DetermineBurnoutLevel(2.497, 1.0, 4.0) == NoBurnout
    ensures DetermineBurnoutLevel(RoundHundredth(2.497), 1.0, 4.0) == ModerateBurnout
  {
    assert (2.497 * 100.0 + 0.5).Floor == 250;
  }

  /** Before anything is answered every score is the 0 sentinel, and the triple 0/0/0
      classifies as Moderate Burnout: callers must not read it as a result. */
  lemma EmptyAnswersGiveModerate(qs: seq<Question>)
    ensures GetCompleteBurnoutAssessment(map[], qs) == Assessment(Scores(0.0, 0.0, 0.0), ModerateBurnout)
  {
    NoAnswersMeansZero(EmotionalExhaustion, map[], qs);
    NoAnswersMeansZero(Disengagement, map[], qs);
    NoAnswersMeansZero(ProfessionalEfficacy, map[], qs);
    RoundHundredthKeepsLikertRange(0.0);
  }

  /** With every catalog question answered on the Likert scale, all three rounded scores lie
      in [1, 5]. */
  lemma CompleteAnswersScoresInRange(answers: Answers)
    requires forall i :: 0 <= i < |Questions| ==> Questions[i].id in answers
    requires LikertValued(answers)
    ensures var s := CalculateBurnoutScores(answers, Questions);
      1.0 <= s.exhaustion <= 5.0 && 1.0 <= s.disengagement <= 5.0 && 1.0 <= s.efficacy <= 5.0
  {
    CategoryMeanInLikertRange(EmotionalExhaustion, answers, Questions, 0);
    CategoryMeanInLikertRange(Disengagement, answers, Questions, 7);
    CategoryMeanInLikertRange(ProfessionalEfficacy, answers, Questions, 13);
    RoundHundredthKeepsLikertRange(ExhaustionScore(answers, Questions));
    RoundHundredthKeepsLikertRange(DisengagementScore(answers, Questions));
    RoundHundredthKeepsLikertRange(EfficacyScore(answers, Questions));
  }

  // ---------------------------------------------------------------------------
  // On the shipped catalog, rounding never changes the tier

  /** A value that equals a hundredth t, or stays at least a hundredth away from it, compares
      with t after rounding exactly as before. */
  lemma RoundPreservesComparison(x: real, t: real)
    requires IsHundredth(t)
    requires x == t || x >= t + 0.01 || x <= t - 0.01
    ensures x < t <==> RoundHundredth(x) < t
    ensures x > t <==> RoundHundredth(x) > t
  {
    if x == t {
      RoundHundredthOfHundredth(t);
    }
  }

  /** The mean of at most seven integers either hits a multiple t2 / 2 of one half exactly
      or stays at least 1/14 (so more than a hundredth) away from it. */
  lemma MeanAwayFromHalfStep(s: seq<int>, t2: int)
    requires |s| <= 7 && t2 >= 1
    ensures var t := t2 as real / 2.0;
      Mean(s) == t || Mean(s) >= t + 0.01 || Mean(s) <= t - 0.01
  {
    var t := t2 as real / 2.0;
    var m := Mean(s);
    if |s| > 0 {
      var n := |s|;
      var k := 2 * Sum(s) - n * t2;
      var d := m - t;
      assert m * n as real == Sum(s) as real;
      assert d * (2 * n) as real == k as real;
      if k >= 1 {
        assert d > 0.0;
        assert d * 14.0 >= d * (2 * n) as real;
      } else if k <= -1 {
        assert d < 0.0;
        assert d * 14.0 <= d * (2 * n) as real;
      }
    }
  }

  /** The recorded values of a catalog slice are the values of its parts, concatenated. */
  lemma {:induction false} CategoryAnswersAppend(c: Category, answers: Answers, q1: seq<Question>, q2: seq<Question>)
    ensures CategoryAnswers(c, answers, q1 + q2) == CategoryAnswers(c, answers, q1) + CategoryAnswers(c, answers, q2)
  {
    if q1 == [] {
      assert q1 + q2 == q2;
    } else {
      assert (q1 + q2)[1..] == q1[1..] + q2;
      CategoryAnswersAppend(c, answers, q1[1..], q2);
    }
  }

  /** When the questions of category c all sit at indices start .. start + size - 1, the
      category contributes at most size values. */
  lemma {:induction false} CategoryAnswersWithinBlock(c: Category, answers: Answers, qs: seq<Question>, start: int, size: int)
    requires size >= 0
    requires forall i :: 0 <= i < |qs| && qs[i].category == c ==> start <= i < start + size
    ensures |CategoryAnswers(c, answers, qs)| <= size
  {
    if qs != [] {
      assert forall i :: 0 <= i < |qs| - 1 ==> qs[1..][i] == qs[i + 1];
      if qs[0].category == c {
        CategoryAnswersWithinBlock(c, answers, qs[1..], 0, start + size - 1);
      } else {
        CategoryAnswersWithinBlock(c, answers, qs[1..], start - 1, size);
      }
    }
  }

  /** On the shipped catalog each category contributes at most its block size, and at most
      seven values (7/6/5). */
  lemma CatalogCategoryAnswersAtMostSeven(c: Category, answers: Answers)
    ensures |CategoryAnswers(c, answers, Questions)| <= CategorySize(c) <= 7
  {
    CategoryBlocks();
    CategoryAnswersWithinBlock(c, answers, Questions, CategoryStart(c), CategorySize(c));
  }

  /** Each threshold the rules compare a catalog score with is preserved by rounding. */
  lemma CatalogScoreComparesAsRaw(c: Category, answers: Answers, t2: int)
    requires t2 in {4, 5, 7, 8}
    ensures var x, t := CategoryMean(c, answers, Questions), t2 as real / 2.0;
      (x < t <==> RoundHundredth(x) < t) && (x > t <==> RoundHundredth(x) > t)
  {
    var t := t2 as real / 2.0;
    assert IsHundredth(t) by {
      assert t * 100.0 == (t2 * 50) as real;
    }
    CatalogCategoryAnswersAtMostSeven(c, answers);
    MeanAwayFromHalfStep(CategoryAnswers(c, answers, Questions), t2);
    RoundPreservesComparison(CategoryMean(c, answers, Questions), t);
  }

  /** On the shipped catalog no category mean is ever within half a hundredth of a threshold
      without equalling it, so classifying the raw means gives the same tier as classifying
      the rounded scores, whatever the answers. */
  lemma CatalogRoundingKeepsLevel(answers: Answers)
    ensures GetCompleteBurnoutAssessment(answers, Questions).level ==
      DetermineBurnoutLevel(ExhaustionScore(answers, Questions), DisengagementScore(answers, Questions),
                            EfficacyScore(answers, Questions))
  {
    var e, d, p := ExhaustionScore(answers, Questions), DisengagementScore(answers, Questions),
                   EfficacyScore(answers, Questions);
    CatalogScoreComparesAsRaw(EmotionalExhaustion, answers, 5);
    CatalogScoreComparesAsRaw(EmotionalExhaustion, answers, 7);
    CatalogScoreComparesAsRaw(EmotionalExhaustion, answers, 8);
    CatalogScoreComparesAsRaw(Disengagement, answers, 5);
    CatalogScoreComparesAsRaw(Disengagement, answers, 7);
    CatalogScoreComparesAsRaw(Disengagement, answers, 8);
    CatalogScoreComparesAsRaw(ProfessionalEfficacy, answers, 4);
    CatalogScoreComparesAsRaw(ProfessionalEfficacy, answers, 5);
    CatalogScoreComparesAsRaw(ProfessionalEfficacy, answers, 7);
  }
}
