/**
 * The assessment's page flow (src/components/assessment/AssessmentApp.jsx):
 * intro, consent, the optional demographic form, the eighteen questions and the
 * result, with the once-per-session completion counter. The counter's storage
 * (src/utils/completionCounter.js) is a plain field here.
 */
module AssessmentFlow {
  import opened Catalog
  import opened Scoring
  import opened ExportData
  import DemographicPage

  /** The page shown: `currentStep`. */
  datatype Step = Intro | Consent | Demographic | QuestionStep | Result

  /** The component's state: its six state fields, the `hasIncrementedCount` ref and the
      stored completion count. */
  datatype Session = Session(step: Step, index: int, answers: Answers, demographics: Demographics,
                             cameFromDemographic: bool, demographicStep: int,
                             hasIncrementedCount: bool, completionCount: int)

  /** The number of questions, `questions.length`. */
  function N(): nat
  {
    QuestionCount
  }

  /** The state on mount, with the count the store held. */
  function Initial(storedCount: int): Session
  {
    Session(Intro, 0, map[], map[], false, 0, false, storedCount)
  }

  function Start(s: Session): Session
  {
    s.(step := Consent)
  }

  function SkipToDemographic(s: Session): Session
  {
    s.(step := Demographic)
  }

  function SkipToAssessment(s: Session): Session
  {
    s.(cameFromDemographic := false, step := QuestionStep)
  }

  function ConsentDecline(s: Session): Session
  {
    s.(step := Intro)
  }

  function DemographicNext(s: Session, data: Demographics): Session
  {
    s.(demographics := data, cameFromDemographic := true, step := QuestionStep)
  }

  function DemographicBack(s: Session): Session
  {
    if s.cameFromDemographic && s.demographicStep == 5 then s.(step := QuestionStep) else s.(step := Consent)
  }

  /** `handleNext(answer)`: record the answer under the question number, then advance, or on
      the last question show the result and count the completion once. */
  function Next(s: Session, answer: int): Session
  {
    var answers' := s.answers[s.index + 1 := answer];
    if s.index < N() - 1 then s.(answers := answers', index := s.index + 1)
    else if !s.hasIncrementedCount then
      s.(answers := answers', step := Result, completionCount := s.completionCount + 1, hasIncrementedCount := true)
    else s.(answers := answers', step := Result)
  }

  function Back(s: Session): Session
  {
    if s.index > 0 then s.(index := s.index - 1)
    else if s.cameFromDemographic then s.(demographicStep := 5, step := Demographic)
    else s.(step := Consent)
  }

  function QuestionSelect(s: Session, questionNumber: int): Session
  {
    s.(index := questionNumber - 1)
  }

  /** The session's invariant: the index names a question, every answer key is a question
      number 1..N (a catalog id, by `CatalogIdsRange`), the demographic form is resumed at
      its first or last sub-step, and the counter has moved exactly when the latch is set. */
  predicate Valid(s: Session, storedCount: int)
  {
    && 0 <= s.index < N()
    && (forall k :: k in s.answers ==> 1 <= k <= N())
    && (s.demographicStep == 0 || s.demographicStep == 5)
    && s.completionCount == storedCount + (if s.hasIncrementedCount then 1 else 0)
  }

  /** One handler call. */
  datatype Event =
    | EStart | ESkipToDemographic | ESkipToAssessment | EConsentDecline
    | EDemographicNext(data: Demographics) | EDemographicBack
    | ENext(answer: int) | EBack | EQuestionSelect(questionNumber: int)

  function Apply(s: Session, e: Event): Session
  {
    match e
    case EStart => Start(s)
    case ESkipToDemographic => SkipToDemographic(s)
    case ESkipToAssessment => SkipToAssessment(s)
    case EConsentDecline => ConsentDecline(s)
    case EDemographicNext(data) => DemographicNext(s, data)
    case EDemographicBack => DemographicBack(s)
    case ENext(answer) => Next(s, answer)
    case EBack => Back(s)
    case EQuestionSelect(n) => QuestionSelect(s, n)
  }

  /** The session after a sequence of handler calls. */
  function Run(s: Session, events: seq<Event>): Session
    decreases |events|
  {
    if events == [] then s else Run(Apply(s, events[0]), events[1..])
  }

  /** A question number the question page can pass: 1..N. */
  predicate InRangeSelects(events: seq<Event>)
  {
    forall i :: 0 <= i < |events| && events[i].EQuestionSelect? ==> 1 <= events[i].questionNumber <= N()
  }

  // ---------------------------------------------------------------------------
  // Properties of single handlers

  /** Answering records the answer under number index + 1 and touches no other key; before
      the last question it advances by one and stays on the question page; on the last it
      shows the result with the index unchanged. */
  lemma NextSpec(s: Session, answer: int)
    ensures var s' := Next(s, answer);
      && s'.answers[s.index + 1] == answer
      && (forall k :: k != s.index + 1 ==> (k in s'.answers <==> k in s.answers))
      && (forall k :: k != s.index + 1 && k in s.answers ==> s'.answers[k] == s.answers[k])
      && (s.index < N() - 1 ==> s'.index == s.index + 1 && s'.step == s.step)
      && (s.index >= N() - 1 ==> s'.index == s.index && s'.step == Result)
  {
  }

  /** Back steps to the previous question; at the first it returns to the demographic
      form's last sub-step after the demographic path, and to consent otherwise. */
  lemma BackSpec(s: Session)
    ensures s.index > 0 ==> Back(s) == s.(index := s.index - 1)
    ensures s.index <= 0 && s.cameFromDemographic ==>
      Back(s).step == Demographic && Back(s).demographicStep == 5 && Back(s).index == s.index
    ensures s.index <= 0 && !s.cameFromDemographic ==> Back(s) == s.(step := Consent)
  {
  }

  /** Skipping the form clears the flag; finishing it stores the record and sets the flag;
      both enter the question page. */
  lemma DemographicChoicesSpec(s: Session, data: Demographics)
    ensures SkipToAssessment(s).step == QuestionStep && !SkipToAssessment(s).cameFromDemographic
    ensures DemographicNext(s, data).step == QuestionStep && DemographicNext(s, data).cameFromDemographic
    ensures DemographicNext(s, data).demographics == data
  {
  }

  /** Leaving the demographic form backwards returns to the questions exactly when the user
      came from them (flag set, resumed at sub-step 5), and to consent otherwise. */
  lemma DemographicBackSpec(s: Session)
    ensures DemographicBack(s).step == QuestionStep <==> s.cameFromDemographic && s.demographicStep == 5
    ensures DemographicBack(s).step != QuestionStep ==> DemographicBack(s).step == Consent
  {
  }

  /** Back after an answer that advanced returns to the same question, with the answer kept. */
  lemma BackUndoesNext(s: Session, answer: int)
    requires 0 <= s.index < N() - 1
    ensures Back(Next(s, answer)) == s.(answers := s.answers[s.index + 1 := answer])
  {
  }

  /** From the first question on the demographic path, Back and then Back out of the form
      returns to the first question. */
  lemma BackIntoFormAndOut(s: Session)
    requires s.index == 0 && s.cameFromDemographic
    ensures DemographicBack(Back(s)) == Back(s).(step := QuestionStep)
  {
  }

  /** Every handler keeps the invariant; selecting a question needs a number in 1..N. */
  lemma ApplyKeepsValid(s: Session, e: Event, storedCount: int)
    requires Valid(s, storedCount)
    requires e.EQuestionSelect? ==> 1 <= e.questionNumber <= N()
    ensures Valid(Apply(s, e), storedCount)
  {
  }

  /** Without the range check, selecting question 0 leaves the index outside the catalog. */
  lemma SelectOutOfRangeBreaksIndex(s: Session)
    ensures QuestionSelect(s, 0).index == -1
    ensures !Valid(QuestionSelect(s, 0), s.completionCount)
  {
  }

  // ---------------------------------------------------------------------------
  // Properties of runs

  /** Any run of handlers keeps the invariant; in particular the completion counter moves
      at most once per session, however many times the last question is answered. */
  lemma {:induction false} RunKeepsValid(s: Session, events: seq<Event>, storedCount: int)
    requires Valid(s, storedCount) && InRangeSelects(events)
    ensures Valid(Run(s, events), storedCount)
    ensures storedCount <= Run(s, events).completionCount <= storedCount + 1
    decreases |events|
  {
    if events != [] {
      ApplyKeepsValid(s, events[0], storedCount);
      assert InRangeSelects(events[1..]) by {
        forall i | 0 <= i < |events[1..]| && events[1..][i].EQuestionSelect?
          ensures 1 <= events[1..][i].questionNumber <= N()
        {
          assert events[1..][i] == events[i + 1];
        }
      }
      RunKeepsValid(Apply(s, events[0]), events[1..], storedCount);
    }
  }

  /** The counter is never decremented, and once the latch is set no run moves the counter. */
  lemma {:induction false} LatchStopsCounter(s: Session, events: seq<Event>)
    requires s.hasIncrementedCount
    ensures Run(s, events).hasIncrementedCount && Run(s, events).completionCount == s.completionCount
    decreases |events|
  {
    if events != [] {
      RunKeepsLatch(s, events[0]);
      LatchStopsCounter(Apply(s, events[0]), events[1..]);
    }
  }

  lemma RunKeepsLatch(s: Session, e: Event)
    requires s.hasIncrementedCount
    ensures Apply(s, e).hasIncrementedCount && Apply(s, e).completionCount == s.completionCount
  {
  }

  /** Once set, the resume sub-step stays 5: no handler puts it back to 0. */
  lemma {:induction false} DemographicStepNeverReset(s: Session, events: seq<Event>)
    requires s.demographicStep == 5
    ensures Run(s, events).demographicStep == 5
    decreases |events|
  {
    if events != [] {
      assert Apply(s, events[0]).demographicStep == 5;
      DemographicStepNeverReset(Apply(s, events[0]), events[1..]);
    }
  }

  /** Answering `vs` in turn, one answer per call. */
  function AnswerAll(s: Session, vs: seq<int>): Session
    decreases |vs|
  {
    if vs == [] then s else AnswerAll(Next(s, vs[0]), vs[1..])
  }

  /** Answering in turn from question `s.index` to the last one records every answer under
      its question number, keeps the earlier answers, adds no other key, and ends on the
      result page with the counter moved once unless it had moved already. */
  lemma {:induction false} AnswerAllReachesResult(s: Session, vs: seq<int>)
    requires 0 <= s.index && s.index + |vs| == N() && |vs| >= 1
    ensures var s' := AnswerAll(s, vs);
      && s'.step == Result
      && s'.index == N() - 1
      && (forall k :: 0 <= k < |vs| ==> s.index + k + 1 in s'.answers && s'.answers[s.index + k + 1] == vs[k])
      && (forall id :: id in s.answers && !(s.index < id <= N()) ==> id in s'.answers && s'.answers[id] == s.answers[id])
      && (forall id :: id in s'.answers <==> id in s.answers || s.index < id <= N())
      && s'.hasIncrementedCount
      && s'.completionCount == s.completionCount + (if s.hasIncrementedCount then 0 else 1)
    decreases |vs|
  {
    var s1 := Next(s, vs[0]);
    if |vs| > 1 {
      AnswerAllReachesResult(s1, vs[1..]);
      var s' := AnswerAll(s1, vs[1..]);
      assert s' == AnswerAll(s, vs);
      forall k | 0 <= k < |vs|
        ensures s.index + k + 1 in s'.answers && s'.answers[s.index + k + 1] == vs[k]
      {
        if k > 0 {
          assert vs[1..][k - 1] == vs[k];
        }
      }
    }
  }

  /** Answering all eighteen questions from the first one shows the result page with
      exactly the eighteen catalog ids as keys, so the completeness check's key count is
      met. */
  lemma FullPassIsComplete(s: Session, vs: seq<int>)
    requires s.index == 0 && (forall k :: k in s.answers ==> 1 <= k <= N()) && |vs| == N()
    ensures var s' := AnswerAll(s, vs);
      && s'.step == Result
      && s'.answers.Keys == CatalogIds()
      && |s'.answers.Keys| == QuestionCount
  {
    var s' := AnswerAll(s, vs);
    AnswerAllReachesResult(s, vs);
    assert forall id :: id in s'.answers <==> 1 <= id <= N();
    CatalogIdsRange();
    assert s'.answers.Keys == CatalogIds();
    CatalogIdCount();
  }

  // ---------------------------------------------------------------------------
  // Together with the demographic form

  /** The resume sub-step is never reset, so after one Back into the form, a later visit
      that steps the form back from its last sub-step to the first and out lands on the
      question page, not on consent: the form's exit at sub-step 0 reaches the "came from
      the questions" branch, whose comment speaks of the family-status sub-step. */
  lemma ReturnVisitExitsToQuestions(s: Session, events: seq<Event>)
    requires s.index == 0 && s.cameFromDemographic
    requires forall i :: 0 <= i < |events| ==> events[i] != ESkipToAssessment
    ensures var s1 := Run(Back(s), events);
      var f0 := DemographicPage.Initial(s1.demographicStep, s1.demographics);
      var f5 := DemographicPage.StepBack(DemographicPage.StepBack(DemographicPage.StepBack(
                  DemographicPage.StepBack(DemographicPage.StepBack(f0).0).0).0).0).0;
      && f0.step == 5
      && f5.step == 0
      && DemographicPage.StepBack(f5).1 == DemographicPage.ExitBack
      && (s1.cameFromDemographic ==> DemographicBack(s1).step == QuestionStep)
  {
    DemographicStepNeverReset(Back(s), events);
  }

  /** The page flow as the mounted component holds it. */
  class AssessmentApp {
    var currentStep: Step
    var currentQuestionIndex: int
    var answers: Answers
    var demographicData: Demographics
    var cameFromDemographic: bool
    var demographicStep: int
    var hasIncrementedCount: bool
    var completionCount: int

    function State(): Session
      reads this
    {
      Session(currentStep, currentQuestionIndex, answers, demographicData, cameFromDemographic,
              demographicStep, hasIncrementedCount, completionCount)
    }

    /** Mounting the component; `storedCount` is what the counter's store held. */
    constructor(storedCount: int)
      ensures State() == Initial(storedCount) && Valid(State(), storedCount)
    {
      currentStep := Intro;
      currentQuestionIndex := 0;
      answers := map[];
      demographicData := map[];
      cameFromDemographic := false;
      demographicStep := 0;
      hasIncrementedCount := false;
      completionCount := storedCount;
    }

    method HandleStart()
      modifies this
      ensures State() == Start(old(State()))
    {
      currentStep := Consent;
    }

    method HandleSkipToDemographic()
      modifies this
      ensures State() == SkipToDemographic(old(State()))
    {
      currentStep := Demographic;
    }

    method HandleSkipToAssessment()
      modifies this
      ensures State() == SkipToAssessment(old(State()))
    {
      cameFromDemographic := false;
      currentStep := QuestionStep;
    }

    method HandleConsentDecline()
      modifies this
      ensures State() == ConsentDecline(old(State()))
    {
      currentStep := Intro;
    }

    method HandleDemographicNext(data: Demographics)
      modifies this
      ensures State() == DemographicNext(old(State()), data)
    {
      demographicData := data;
      cameFromDemographic := true;
      currentStep := QuestionStep;
    }

    method HandleDemographicBack()
      modifies this
      ensures State() == DemographicBack(old(State()))
    {
      if cameFromDemographic && demographicStep == 5 {
        currentStep := QuestionStep;
      } else {
        currentStep := Consent;
      }
    }

    method HandleNext(answer: int)
      modifies this
      ensures State() == Next(old(State()), answer)
    {
      var questionNumber := currentQuestionIndex + 1;
      answers := answers[questionNumber := answer];
      if currentQuestionIndex < N() - 1 {
        currentQuestionIndex := currentQuestionIndex + 1;
      } else {
        currentStep := Result;
        if !hasIncrementedCount {
          completionCount := completionCount + 1;
          hasIncrementedCount := true;
        }
      }
    }

    method HandleBack()
      modifies this
      ensures State() == Back(old(State()))
    {
      if currentQuestionIndex > 0 {
        currentQuestionIndex := currentQuestionIndex - 1;
      } else if cameFromDemographic {
        demographicStep := 5;
        currentStep := Demographic;
      } else {
        currentStep := Consent;
      }
    }

    method HandleQuestionSelect(questionNumber: int)
      modifies this
      ensures State() == QuestionSelect(old(State()), questionNumber)
    {
      currentQuestionIndex := questionNumber - 1;
    }
  }
}
