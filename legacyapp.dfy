/**
 * The older single-path flow (src/App.js): intro, the eighteen questions, the
 * result; no consent, no demographic form, no counter, and Back at the first
 * question does nothing.
 */
module LegacyApp {
  import opened Catalog
  import opened Scoring

  datatype Step = Intro | QuestionStep | Result

  /** `currentStep`, `currentQuestionIndex` and `answers`. */
  datatype AppState = AppState(step: Step, index: int, answers: Answers)

  function Initial(): AppState
  {
    AppState(Intro, 0, map[])
  }

  function Start(s: AppState): AppState
  {
    s.(step := QuestionStep)
  }

  function Next(s: AppState, answer: int): AppState
  {
    var answers' := s.answers[s.index + 1 := answer];
    if s.index < QuestionCount - 1 then s.(answers := answers', index := s.index + 1)
    else s.(answers := answers', step := Result)
  }

  function Back(s: AppState): AppState
  {
    if s.index > 0 then s.(index := s.index - 1) else s
  }

  function QuestionSelect(s: AppState, questionNumber: int): AppState
  {
    s.(index := questionNumber - 1)
  }

  /** The index names a question (the page reads `questions[currentQuestionIndex]`), and
      every answer key is a question number 1..18 (a catalog id, by `CatalogIdsRange`). */
  predicate Valid(s: AppState)
  {
    0 <= s.index < QuestionCount && forall k :: k in s.answers ==> 1 <= k <= QuestionCount
  }

  /** Start goes from the intro straight to the questions. */
  lemma StartSpec(s: AppState)
    ensures Start(s).step == QuestionStep && Start(s).index == s.index && Start(s).answers == s.answers
  {
  }

  /** Answering records the answer under index + 1 and nothing else; it advances before the
      last question and shows the result, index unchanged, on the last. */
  lemma NextSpec(s: AppState, answer: int)
    ensures var s' := Next(s, answer);
      && s'.answers[s.index + 1] == answer
      && (forall k :: k != s.index + 1 ==> (k in s'.answers <==> k in s.answers))
      && (forall k :: k != s.index + 1 && k in s.answers ==> s'.answers[k] == s.answers[k])
      && (s.index < QuestionCount - 1 ==> s'.index == s.index + 1 && s'.step == s.step)
      && (s.index >= QuestionCount - 1 ==> s'.index == s.index && s'.step == Result)
  {
  }

  /** Back at the first question changes nothing; elsewhere it steps back one question, and
      undoes an answer's advance. */
  lemma BackSpec(s: AppState, answer: int)
    ensures s.index <= 0 ==> Back(s) == s
    ensures s.index > 0 ==> Back(s) == s.(index := s.index - 1)
    ensures 0 <= s.index < QuestionCount - 1 ==> Back(Next(s, answer)) == s.(answers := s.answers[s.index + 1 := answer])
  {
  }

  /** Start, answering and Back keep the invariant; selecting keeps it exactly for numbers
      1..N. */
  lemma HandlersKeepValid(s: AppState, answer: int, questionNumber: int)
    requires Valid(s)
    ensures Valid(Start(s)) && Valid(Next(s, answer)) && Valid(Back(s))
    ensures Valid(QuestionSelect(s, questionNumber)) <==> 1 <= questionNumber <= QuestionCount
  {
  }

  /** The initial state is valid. */
  lemma InitialValid()
    ensures Valid(Initial())
  {
  }

  /** Answering `vs` in turn. */
  function AnswerAll(s: AppState, vs: seq<int>): AppState
    decreases |vs|
  {
    if vs == [] then s else AnswerAll(Next(s, vs[0]), vs[1..])
  }

  /** Answering from question `s.index` to the last records each answer under its number,
      keeps the earlier answers, adds no other key, and ends on the result page at the last
      question. */
  lemma {:induction false} AnswerAllReachesResult(s: AppState, vs: seq<int>)
    requires 0 <= s.index && s.index + |vs| == QuestionCount && |vs| >= 1
    ensures var s' := AnswerAll(s, vs);
      && s'.step == Result
      && s'.index == QuestionCount - 1
      && (forall k :: 0 <= k < |vs| ==> s.index + k + 1 in s'.answers && s'.answers[s.index + k + 1] == vs[k])
      && (forall id :: id in s.answers && !(s.index < id <= QuestionCount) ==> id in s'.answers && s'.answers[id] == s.answers[id])
      && (forall id :: id in s'.answers <==> id in s.answers || s.index < id <= QuestionCount)
    decreases |vs|
  {
    if |vs| > 1 {
      var s1 := Next(s, vs[0]);
      AnswerAllReachesResult(s1, vs[1..]);
      var s' := AnswerAll(s1, vs[1..]);
      forall k | 0 <= k < |vs|
        ensures s.index + k + 1 in s'.answers && s'.answers[s.index + k + 1] == vs[k]
      {
        if k > 0 {
          assert vs[1..][k - 1] == vs[k];
        }
      }
    }
  }

  /** The app as the mounted component holds it. */
  class App {
    var currentStep: Step
    var currentQuestionIndex: int
    var answers: Answers

    function State(): AppState
      reads this
    {
      AppState(currentStep, currentQuestionIndex, answers)
    }

    constructor()
      ensures State() == Initial() && Valid(State())
    {
      currentStep := Intro;
      currentQuestionIndex := 0;
      answers := map[];
    }

    method HandleStart()
      modifies this
      ensures State() == Start(old(State()))
    {
      currentStep := QuestionStep;
    }

    method HandleNext(answer: int)
      modifies this
      ensures State() == Next(old(State()), answer)
    {
      var questionNumber := currentQuestionIndex + 1;
      answers := answers[questionNumber := answer];
      if currentQuestionIndex < QuestionCount - 1 {
        currentQuestionIndex := currentQuestionIndex + 1;
      } else {
        currentStep := Result;
      }
    }

    method HandleBack()
      modifies this
      ensures State() == Back(old(State()))
    {
      if currentQuestionIndex > 0 {
        currentQuestionIndex := currentQuestionIndex - 1;
      }
    }

    method HandleQuestionSelect(questionNumber: int)
      modifies this
      ensures State() == QuestionSelect(old(State()), questionNumber)
    {
      currentQuestionIndex := questionNumber - 1;
    }
  }
}
