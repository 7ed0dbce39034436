/**
 * The logic of the result page (src/components/assessment/ResultPage.jsx) apart
 * from its rendering: the Likert label lookup, the grouping of the answered
 * questionnaire by category, the per-score interpretation, the condition for
 * showing the demographic review, and the once-only submission latch.
 */
module Results {
  import opened Wrappers
  import opened Catalog
  import opened Constants
  import opened Text
  import opened Scoring
  import opened ExportData

  // ---------------------------------------------------------------------------
  // `getLikertText`

  /** `opts.find(opt => opt.value === value)`: the first option carrying the value, if any.
      `value` is `None` for `undefined` (an unanswered question). */
  function FindOption(opts: seq<LikertOption>, value: Option<int>): (r: Option<LikertOption>)
    ensures r.Some? ==> r.value in opts && value == Some(r.value.value)
    ensures r.None? ==> forall o :: o in opts ==> value != Some(o.value)
  {
    if opts == [] then None
    else if value == Some(opts[0].value) then Some(opts[0])
    else FindOption(opts[1..], value)
  }

  /** `getLikertText`: the label of the scale point carrying the value, "No Answer" for a
      missing value or one outside the scale. */
  function LikertText(value: Option<int>): (t: string)
    ensures value.Some? && 1 <= value.value <= 5 ==> t == LikertScaleOptions[value.value - 1].caption
    ensures !(value.Some? && 1 <= value.value <= 5) ==> t == "No Answer"
  {
    LikertScaleShape();
    var option := FindOption(LikertScaleOptions, value);
    if option.Some? then option.value.caption else "No Answer"
  }

  /** The label a recorded answer is shown with names that answer: different scale points
      get different labels, none of them "No Answer". */
  lemma LikertTextIdentifiesValue(v1: int, v2: int)
    requires 1 <= v1 <= 5 && 1 <= v2 <= 5
    ensures LikertText(Some(v1)) != "No Answer"
    ensures LikertText(Some(v1)) == LikertText(Some(v2)) ==> v1 == v2
  {
    LikertScaleShape();
    if v1 != v2 {
      if v1 < v2 {
        assert LikertScaleOptions[v1 - 1].caption != LikertScaleOptions[v2 - 1].caption;
      } else {
        assert LikertScaleOptions[v2 - 1].caption != LikertScaleOptions[v1 - 1].caption;
      }
    }
  }

  // ---------------------------------------------------------------------------
  // `getQuestionsByCategory`

  /** `answers[q.id]`: `None` plays `undefined`. */
  function AnswerOf(answers: Answers, id: int): Option<int>
  {
    if id in answers then Some(answers[id]) else None
  }

  /** A reviewed question: the question with its recorded answer and that answer's label. */
  datatype ReviewEntry = ReviewEntry(question: Question, answer: Option<int>, answerText: string)

  function EntryFor(q: Question, answers: Answers): ReviewEntry
  {
    ReviewEntry(q, AnswerOf(answers, q.id), LikertText(AnswerOf(answers, q.id)))
  }

  /** The object the grouping builds, as a JavaScript object is: its keys in insertion order,
      and the list stored under each key. */
  datatype Groups = Groups(order: seq<Category>, lists: map<Category, seq<ReviewEntry>>)

  /** The distinct categories of `qs`, in order of first occurrence. */
  function CategoriesInOrder(qs: seq<Question>): seq<Category>
  {
    if qs == [] then []
    else
      var init := CategoriesInOrder(qs[..|qs| - 1]);
      var c := qs[|qs| - 1].category;
      if c in init then init else init + [c]
  }

  /** The review entries of the questions of category c, in the order of `qs`. */
  function EntriesOf(c: Category, qs: seq<Question>, answers: Answers): seq<ReviewEntry>
  {
    if qs == [] then []
    else
      var q := qs[|qs| - 1];
      EntriesOf(c, qs[..|qs| - 1], answers) + (if q.category == c then [EntryFor(q, answers)] else [])
  }

  /** The grouping the source promises: one key per category present, in first-occurrence
      order, and under it that category's entries in question order. */
  function Grouped(qs: seq<Question>, answers: Answers): Groups
  {
    var order := CategoriesInOrder(qs);
    Groups(order, map c | c in order :: EntriesOf(c, qs, answers))
  }

  /** `getQuestionsByCategory`: for each question, create its category's list on first
      sight, then push the question's entry onto it. */
  method QuestionsByCategory(questions: seq<Question>, answers: Answers) returns (categories: Groups)
    ensures categories == Grouped(questions, answers)
  {
    categories := Groups([], map[]);
    for i := 0 to |questions|
      invariant categories == Grouped(questions[..i], answers)
    {
      var q := questions[i];
      GroupedSnoc(questions[..i], q, answers);
      assert questions[..i + 1] == questions[..i] + [q];
      if q.category !in categories.lists {
        categories := Groups(categories.order + [q.category], categories.lists[q.category := []]);
      }
      categories := categories.(lists := categories.lists[q.category := categories.lists[q.category] + [EntryFor(q, answers)]]);
    }
    assert questions[..|questions|] == questions;
  }

  /** Appending one question to the input changes the grouping exactly as one pass of the
      loop body does. */
  lemma {:induction false} GroupedSnoc(qs: seq<Question>, q: Question, answers: Answers)
    ensures var g := Grouped(qs, answers);
      var created := if q.category in g.lists then g else Groups(g.order + [q.category], g.lists[q.category := []]);
      Grouped(qs + [q], answers) == created.(lists := created.lists[q.category := created.lists[q.category] + [EntryFor(q, answers)]])
  {
    if q.category in Grouped(qs, answers).lists {
      GroupedSnocSeen(qs, q, answers);
    } else {
      GroupedSnocNew(qs, q, answers);
    }
  }

  /** A question whose category already has a list extends that list. */
  lemma {:induction false} GroupedSnocSeen(qs: seq<Question>, q: Question, answers: Answers)
    requires q.category in Grouped(qs, answers).lists
    ensures var g := Grouped(qs, answers);
      Grouped(qs + [q], answers) == g.(lists := g.lists[q.category := g.lists[q.category] + [EntryFor(q, answers)]])
  {
    var g, g' := Grouped(qs, answers), Grouped(qs + [q], answers);
    var lists := g.lists[q.category := g.lists[q.category] + [EntryFor(q, answers)]];
    GroupedListsSnoc(qs, q, answers);
    assert g'.lists.Keys == lists.Keys;
    assert forall c' :: c' in lists ==> g'.lists[c'] == lists[c'];
    assert g'.lists == lists;
  }

  /** A question of a category not seen so far opens that category's list with its entry. */
  lemma {:induction false} GroupedSnocNew(qs: seq<Question>, q: Question, answers: Answers)
    requires q.category !in Grouped(qs, answers).lists
    ensures var g := Grouped(qs, answers);
      Grouped(qs + [q], answers) == Groups(g.order + [q.category], g.lists[q.category := [EntryFor(q, answers)]])
  {
    var g, g' := Grouped(qs, answers), Grouped(qs + [q], answers);
    var lists := g.lists[q.category := [EntryFor(q, answers)]];
    GroupedListsSnoc(qs, q, answers);
    assert g'.lists.Keys == lists.Keys;
    forall c' | c' in lists
      ensures g'.lists[c'] == lists[c']
    {
      if c' == q.category {
        EntriesOfUnseen(c', qs, answers);
      } else {
        assert g.lists[c'] == EntriesOf(c', qs, answers);
      }
    }
    assert g'.lists == lists;
  }

  /** After appending a question the key order is the old one plus the question's category
      if it is new, the keys are the old keys plus that category, and the list under each
      key is the old list of that category plus the question's entry if it is its own. */
  lemma {:induction false} GroupedListsSnoc(qs: seq<Question>, q: Question, answers: Answers)
    ensures var g, g' := Grouped(qs, answers), Grouped(qs + [q], answers);
      && g'.order == (if q.category in g.order then g.order else g.order + [q.category])
      && g'.lists.Keys == g.lists.Keys + {q.category}
      && forall c' :: c' in g'.lists ==>
           g'.lists[c'] == EntriesOf(c', qs, answers) + (if c' == q.category then [EntryFor(q, answers)] else [])
  {
    var g, g' := Grouped(qs, answers), Grouped(qs + [q], answers);
    CategoriesInOrderSnoc(qs, q);
    forall c' | c' in g'.lists
      ensures g'.lists[c'] == EntriesOf(c', qs, answers) + (if c' == q.category then [EntryFor(q, answers)] else [])
    {
      EntriesOfSnoc(c', qs, q, answers);
    }
  }

  /** A category missing from the key order collects no entries. */
  lemma {:induction false} EntriesOfUnseen(c: Category, qs: seq<Question>, answers: Answers)
    requires c !in CategoriesInOrder(qs)
    ensures EntriesOf(c, qs, answers) == []
  {
    CategoriesMembership(qs);
    EntriesOfAbsent(c, qs, answers);
  }

  /** Appending a question adds its category at the end of the key order unless it is
      already there. */
  lemma {:induction false} CategoriesInOrderSnoc(qs: seq<Question>, q: Question)
    ensures CategoriesInOrder(qs + [q]) ==
      var init := CategoriesInOrder(qs);
      if q.category in init then init else init + [q.category]
  {
    assert (qs + [q])[..|qs|] == qs;
  }

  /** Appending a question appends its entry to its own category's list and to no other. */
  lemma {:induction false} EntriesOfSnoc(c: Category, qs: seq<Question>, q: Question, answers: Answers)
    ensures EntriesOf(c, qs + [q], answers) ==
      EntriesOf(c, qs, answers) + (if q.category == c then [EntryFor(q, answers)] else [])
  {
    assert (qs + [q])[..|qs|] == qs;
  }

  /** A category occurs in the key order exactly when some question has it, and the key
      order lists no category twice. */
  lemma {:induction false} CategoriesMembership(qs: seq<Question>)
    ensures forall c :: c in CategoriesInOrder(qs) <==> exists i :: 0 <= i < |qs| && qs[i].category == c
    ensures forall i, j :: 0 <= i < j < |CategoriesInOrder(qs)| ==> CategoriesInOrder(qs)[i] != CategoriesInOrder(qs)[j]
  {
    if qs != [] {
      var init := qs[..|qs| - 1];
      CategoriesMembership(init);
      forall c ensures c in CategoriesInOrder(qs) <==> exists i :: 0 <= i < |qs| && qs[i].category == c {
        if c in CategoriesInOrder(init) {
          var i :| 0 <= i < |init| && init[i].category == c;
          assert qs[i].category == c;
        }
        if exists i :: 0 <= i < |qs| && qs[i].category == c {
          var i :| 0 <= i < |qs| && qs[i].category == c;
          if i < |init| {
            assert init[i].category == c;
          }
        }
      }
    }
  }

  /** A category no question has collects no entries. */
  lemma {:induction false} EntriesOfAbsent(c: Category, qs: seq<Question>, answers: Answers)
    requires forall i :: 0 <= i < |qs| ==> qs[i].category != c
    ensures EntriesOf(c, qs, answers) == []
  {
    if qs != [] {
      EntriesOfAbsent(c, qs[..|qs| - 1], answers);
    }
  }

  /** A question's entry is in category c's list exactly when the question occurs in the
      input and has category c: every question lands in the list of its own category and
      in no other list. */
  lemma {:induction false} EntriesOfMembership(c: Category, qs: seq<Question>, answers: Answers, q: Question)
    ensures EntryFor(q, answers) in EntriesOf(c, qs, answers) <==> q in qs && q.category == c
  {
    if qs != [] {
      var init := qs[..|qs| - 1];
      assert qs == init + [qs[|qs| - 1]];
      EntriesOfMembership(c, init, answers, q);
    }
  }

  /** Within a list the input order is kept: over an input whose ids increase, the ids
      along each list increase. */
  lemma {:induction false} EntriesOfKeepOrder(c: Category, qs: seq<Question>, answers: Answers)
    requires forall i, j :: 0 <= i < j < |qs| ==> qs[i].id < qs[j].id
    ensures var e := EntriesOf(c, qs, answers);
      forall i, j :: 0 <= i < j < |e| ==> e[i].question.id < e[j].question.id
  {
    if qs != [] {
      var init, last := qs[..|qs| - 1], qs[|qs| - 1];
      EntriesOfKeepOrder(c, init, answers);
      var e0 := EntriesOf(c, init, answers);
      forall i | 0 <= i < |e0|
        ensures e0[i].question.id < last.id
      {
        var q := e0[i].question;
        EntriesCarryAnswers(c, init, answers);
        assert e0[i] in e0;
        EntriesOfMembership(c, init, answers, q);
        var k :| 0 <= k < |init| && init[k] == q;
      }
    }
  }

  /** Each entry carries the question's recorded answer and its label. */
  lemma {:induction false} EntriesCarryAnswers(c: Category, qs: seq<Question>, answers: Answers)
    ensures forall e :: e in EntriesOf(c, qs, answers) ==>
      e.question.category == c && e.answer == AnswerOf(answers, e.question.id) && e.answerText == LikertText(e.answer)
  {
    if qs != [] {
      EntriesCarryAnswers(c, qs[..|qs| - 1], answers);
    }
  }

  /** On the shipped catalog the keys are created in the order Emotional Exhaustion,
      Disengagement, Professional Efficacy. */
  lemma CatalogGroupOrder()
    ensures CategoriesInOrder(Questions) == [EmotionalExhaustion, Disengagement, ProfessionalEfficacy]
  {
    CatalogPrefixOrder(18);
    assert Questions[..18] == Questions;
  }

  lemma {:induction false} CatalogPrefixOrder(n: nat)
    requires 1 <= n <= |Questions|
    ensures CategoriesInOrder(Questions[..n]) ==
      if n <= 7 then [EmotionalExhaustion]
      else if n <= 13 then [EmotionalExhaustion, Disengagement]
      else [EmotionalExhaustion, Disengagement, ProfessionalEfficacy]
  {
    CategoryBlocks();
    var p := Questions[..n];
    assert p[..n - 1] == Questions[..n - 1];
    assert p[n - 1] == Questions[n - 1];
    if n > 1 {
      CatalogPrefixOrder(n - 1);
    }
  }

  // ---------------------------------------------------------------------------
  // `getScoreInterpretation`

  /** `getScoreInterpretation(score, category).level` (the colour classes are presentation).
      Professional Efficacy is the one dimension where a high score is good. */
  function ScoreInterpretation(score: real, category: Category): (level: string)
    ensures CategoryName(category) == "Professional Efficacy" ==>
      level == (if score >= 4.0 then HighLabel else if score >= 3.0 then ModerateLabel else LowLabel)
    ensures CategoryName(category) != "Professional Efficacy" ==>
      level == (if score >= 4.0 then HighRiskLabel else if score >= 3.0 then ModerateRiskLabel else LowRiskLabel)
  {
    if CategoryName(category) == "Professional Efficacy" then
      if score >= 4.0 then "High" else if score >= 3.0 then "Moderate" else "Low"
    else
      if score >= 4.0 then "High Risk" else if score >= 3.0 then "Moderate Risk" else "Low Risk"
  }

  /** The band of an interpretation: 2 for High / High Risk, 1 for the moderate labels, 0
      for Low / Low Risk. */
  function Band(level: string): nat
  {
    if level == HighLabel || level == HighRiskLabel then 2
    else if level == ModerateLabel || level == ModerateRiskLabel then 1
    else 0
  }

  /** Only Professional Efficacy is read in the plain labels; the other two dimensions get
      the risk labels; the band is 2 from 4 up, 1 on [3, 4) and 0 below 3. */
  lemma InterpretationBands(score: real, category: Category)
    ensures category == ProfessionalEfficacy <==> ScoreInterpretation(score, category) in {HighLabel, ModerateLabel, LowLabel}
    ensures Band(ScoreInterpretation(score, category)) == if score >= 4.0 then 2 else if score >= 3.0 then 1 else 0
  {
  }

  /** A higher score never gets a lower band. */
  lemma InterpretationMonotone(s1: real, s2: real, category: Category)
    requires s1 <= s2
    ensures Band(ScoreInterpretation(s1, category)) <= Band(ScoreInterpretation(s2, category))
  {
    InterpretationBands(s1, category);
    InterpretationBands(s2, category);
  }

  // ---------------------------------------------------------------------------
  // The demographic review section

  /** `demographicData && Object.keys(demographicData).length > 0 &&
      Object.values(demographicData).some(value => value && value.trim() !== '')`. */
  predicate ShowDemographicReview(demo: Demographics)
  {
    |demo| > 0 && exists f :: f in demo && HasContent(demo[f])
  }

  /** The review is shown exactly when the export would count at least one provided field. */
  lemma ReviewShownIffFieldsProvided(demo: Demographics)
    ensures ShowDemographicReview(demo) <==> DemographicFieldsProvided(demo) > 0
  {
    ProvidedFields(demo);
  }

  // ---------------------------------------------------------------------------
  // The `hasSubmitted` latch around `saveAssessmentData`

  /** What one run of the mount effect did. */
  datatype Outcome = NotAttempted | DuplicatePrevented | Incomplete | Sent(payload: Payload) | Failed

  /** The latch, with the number of successful sends so far (the quantity the latch exists
      to bound). */
  datatype Latch = Latch(hasSubmitted: bool, successes: nat)

  /** One run of the effect: `sendOk` says whether the configuration check and the send
      completed without throwing. */
  function EffectRun(s: Latch, answers: Answers, demo: Demographics, sendOk: bool): (Latch, Outcome)
  {
    if !(|answers.Keys| > 0 && !s.hasSubmitted) then (s, NotAttempted)
    else if |answers.Keys| != QuestionCount then (Latch(false, s.successes), Incomplete)
    else if sendOk then (Latch(true, s.successes + 1), Sent(PayloadFor(answers, demo)))
    else (Latch(false, s.successes), Failed)
  }

  /** The latch's invariant: it is set exactly when one send has succeeded. */
  predicate LatchValid(s: Latch)
  {
    s.successes <= 1 && (s.hasSubmitted <==> s.successes == 1)
  }

  /** A run keeps the invariant, is attempted only with answers and a clear flag, sends only
      a complete assessment, and leaves the flag set exactly when it sent. */
  lemma EffectRunSpec(s: Latch, answers: Answers, demo: Demographics, sendOk: bool)
    requires LatchValid(s)
    ensures var (s', out) := EffectRun(s, answers, demo, sendOk);
      && LatchValid(s')
      && (out != NotAttempted <==> |answers.Keys| > 0 && !s.hasSubmitted)
      && (out.Sent? ==> |answers.Keys| == QuestionCount && sendOk)
      && (out != NotAttempted ==> (s'.hasSubmitted <==> out.Sent?))
      && (out == NotAttempted ==> s' == s)
  {
  }

  /** One input of a run: the answers and demographics it sees and whether its send succeeds. */
  datatype RunInput = RunInput(answers: Answers, demo: Demographics, sendOk: bool)

  /** The latch after a sequence of effect runs. */
  function AfterRuns(s: Latch, runs: seq<RunInput>): Latch
    decreases |runs|
  {
    if runs == [] then s
    else AfterRuns(EffectRun(s, runs[0].answers, runs[0].demo, runs[0].sendOk).0, runs[1..])
  }

  /** However often the effect runs on one mount, at most one send succeeds. */
  lemma {:induction false} AtMostOneSuccess(s: Latch, runs: seq<RunInput>)
    requires LatchValid(s)
    ensures LatchValid(AfterRuns(s, runs)) && AfterRuns(s, runs).successes <= 1
    decreases |runs|
  {
    if runs != [] {
      EffectRunSpec(s, runs[0].answers, runs[0].demo, runs[0].sendOk);
      AtMostOneSuccess(EffectRun(s, runs[0].answers, runs[0].demo, runs[0].sendOk).0, runs[1..]);
    }
  }

  /** A failed attempt can be retried: after a failure, a run with a complete assessment and
      a working send succeeds. */
  lemma RetryAfterFailure(answers: Answers, demo: Demographics)
    requires |answers.Keys| == QuestionCount
    ensures var (s1, o1) := EffectRun(Latch(false, 0), answers, demo, false);
      o1 == Failed && EffectRun(s1, answers, demo, true).1.Sent?
  {
  }

  /** The `hasSubmitted` ref of one mounted result page. */
  class SubmissionLatch {
    var hasSubmitted: bool
    var successes: nat

    function State(): Latch
      reads this
    {
      Latch(hasSubmitted, successes)
    }

    /** `useRef(false)`. */
    constructor()
      ensures State() == Latch(false, 0) && LatchValid(State())
    {
      hasSubmitted := false;
      successes := 0;
    }

    /** `saveAssessmentData`, reached through the effect's guard. */
    method SaveAssessmentData(answers: Answers, demo: Demographics, sendOk: bool) returns (outcome: Outcome)
      requires |answers.Keys| > 0
      modifies this
      ensures old(hasSubmitted) ==> State() == old(State()) && outcome == DuplicatePrevented
      ensures !old(hasSubmitted) ==> (State(), outcome) == EffectRun(old(State()), answers, demo, sendOk)
    {
      if hasSubmitted {
        outcome := DuplicatePrevented;
      } else {
        hasSubmitted := true;
        var validation := ValidateAssessmentCompletion(answers);
        if validation.isComplete {
          var payload := CreateGoogleSheetsPayload(answers, demo);
          if sendOk {
            successes := successes + 1;
            outcome := Sent(payload);
          } else {
            hasSubmitted := false;
            outcome := Failed;
          }
        } else {
          hasSubmitted := false;
          outcome := Incomplete;
        }
      }
    }

    /** The mount effect: run `saveAssessmentData` only with answers and a clear flag. */
    method RunEffect(answers: Answers, demo: Demographics, sendOk: bool) returns (outcome: Outcome)
      modifies this
      ensures (State(), outcome) == EffectRun(old(State()), answers, demo, sendOk)
    {
      if |answers.Keys| > 0 && !hasSubmitted {
        outcome := SaveAssessmentData(answers, demo, sendOk);
      } else {
        outcome := NotAttempted;
      }
    }
  }
}
