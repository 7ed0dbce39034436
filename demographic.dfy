/**
 * The demographic form (src/components/assessment/DemographicPage.jsx): six
 * sub-steps, one field each, that advance on selection, step back to the parent
 * from the first sub-step, and hand the completed record to the parent on the
 * family-status selection. The 300 ms delays before advancing are taken as
 * immediate.
 */
module DemographicPage {
  import opened Wrappers
  import opened Catalog
  import opened ExportData

  /** The form's state: `currentStep`, `demographicData`, and `originalData` (the data the
      page was mounted with). */
  datatype FormState = FormState(step: int, data: Demographics, original: Demographics)

  /** The field asked at sub-steps 0..4 (the `fieldMap` and the auto-advance chain agree on
      it); sub-step 5 asks the family status, which completes instead of advancing. */
  function StepField(k: int): Option<DemographicField>
  {
    if k == 0 then Some(AgeRange)
    else if k == 1 then Some(JobRole)
    else if k == 2 then Some(YearsExperience)
    else if k == 3 then Some(WorkHours)
    else if k == 4 then Some(Gender)
    else None
  }

  /** The record holds all six fields. */
  predicate FullRecord(d: Demographics)
  {
    forall f: DemographicField :: f in d
  }

  /** A record with the six fields as keys is full. */
  lemma SixKeysFull(d: Demographics)
    requires AgeRange in d && Gender in d && JobRole in d
    requires YearsExperience in d && WorkHours in d && FamilyStatus in d
    ensures FullRecord(d)
  {
    forall f: DemographicField ensures f in d {
      match f
      case AgeRange =>
      case Gender =>
      case JobRole =>
      case YearsExperience =>
      case WorkHours =>
      case FamilyStatus =>
    }
  }

  /** `initialData.field || ''`. */
  function InitialValue(initialData: Demographics, f: DemographicField): string
  {
    if f in initialData && initialData[f] != "" then initialData[f] else ""
  }

  /** The state right after mounting. */
  function Initial(initialStep: int, initialData: Demographics): (s: FormState)
    ensures FullRecord(s.data)
    ensures forall f :: s.data[f] == (if f in initialData then initialData[f] else "")
  {
    var d := map[
      AgeRange := InitialValue(initialData, AgeRange),
      Gender := InitialValue(initialData, Gender),
      JobRole := InitialValue(initialData, JobRole),
      YearsExperience := InitialValue(initialData, YearsExperience),
      WorkHours := InitialValue(initialData, WorkHours),
      FamilyStatus := InitialValue(initialData, FamilyStatus)
    ];
    SixKeysFull(d);
    FormState(initialStep, d, initialData)
  }

  /** What a selection asks of the parent: nothing, or `onNext(record)`. */
  datatype SelectionEvent = Stay | Completed(record: Demographics)

  /** `handleSelection(field, value)`. */
  function Selection(s: FormState, field: DemographicField, value: string): (FormState, SelectionEvent)
  {
    var data' := s.data[field := value];
    if s.step < 5 then
      var step' := if StepField(s.step) == Some(field) then s.step + 1 else s.step;
      (FormState(step', data', s.original), Stay)
    else if s.step == 5 && field == FamilyStatus then
      (FormState(s.step, data', s.original), Completed(s.data[field := value]))
    else
      (FormState(s.step, data', s.original), Stay)
  }

  /** What a step-back asks of the parent: nothing, or `onBack()`. */
  datatype StepBackEvent = Stayed | ExitBack

  /** `handleStepBack`. */
  function StepBack(s: FormState): (FormState, StepBackEvent)
  {
    if s.step > 0 then (s.(step := s.step - 1), Stayed) else (s, ExitBack)
  }

  /** `handleStepNext`. */
  function StepNext(s: FormState): FormState
  {
    if s.step < 4 then s.(step := s.step + 1)
    else if s.step == 4 then s.(step := 5)
    else s
  }

  /** `hasExistingAnswer`: the current sub-step has a field, the page was mounted with a
      value for it, and the current value is still that value. */
  predicate HasExistingAnswer(s: FormState)
  {
    && StepField(s.step).Some?
    && var f := StepField(s.step).value;
       f in s.original && s.original[f] != "" && f in s.data && s.data[f] == s.original[f]
  }

  /** The Next button is rendered. */
  predicate ShowsNextButton(s: FormState)
  {
    s.step < 5 && HasExistingAnswer(s)
  }

  /** The form's invariant: the step is one of the six sub-steps and the record is full. */
  predicate Valid(s: FormState)
  {
    0 <= s.step <= 5 && FullRecord(s.data)
  }

  // ---------------------------------------------------------------------------
  // Properties

  /** A selection writes the chosen field and nothing else, and keeps the original data. */
  lemma SelectionUpdatesOnlyField(s: FormState, field: DemographicField, value: string)
    ensures var s' := Selection(s, field, value).0;
      && s'.data[field] == value
      && (forall g :: g != field && g in s.data ==> g in s'.data && s'.data[g] == s.data[g])
      && s'.data.Keys == s.data.Keys + {field}
      && s'.original == s.original
  {
  }

  /** Below sub-step 5, selecting the sub-step's own field advances by one and any other
      field leaves the step alone; neither asks anything of the parent. */
  lemma SelectionAdvances(s: FormState, field: DemographicField, value: string)
    requires 0 <= s.step < 5
    ensures var (s', ev) := Selection(s, field, value);
      && ev == Stay
      && (s'.step == s.step + 1 <==> StepField(s.step) == Some(field))
      && (s'.step == s.step <==> StepField(s.step) != Some(field))
  {
  }

  /** At sub-step 5 the family-status selection completes the page with the full record,
      new value included; any other selection there stays. */
  lemma FamilyStatusCompletes(s: FormState, field: DemographicField, value: string)
    requires Valid(s) && s.step == 5
    ensures var (s', ev) := Selection(s, field, value);
      && (ev.Completed? <==> field == FamilyStatus)
      && (ev.Completed? ==> ev.record == s'.data && FullRecord(ev.record) && ev.record[FamilyStatus] == value)
      && s'.step == 5
  {
  }

  /** Step-back goes down one sub-step, and only at sub-step 0 exits to the parent. */
  lemma StepBackSpec(s: FormState)
    ensures var (s', ev) := StepBack(s);
      && (ev == ExitBack <==> s.step <= 0)
      && (ev == ExitBack ==> s' == s)
      && (ev == Stayed ==> s' == s.(step := s.step - 1))
  {
  }

  /** Step-next advances by one below sub-step 5 and does nothing at 5; a step-back undoes
      it. */
  lemma StepNextSpec(s: FormState)
    requires Valid(s)
    ensures s.step < 5 ==> StepNext(s) == s.(step := s.step + 1)
    ensures s.step == 5 ==> StepNext(s) == s
    ensures s.step < 5 ==> StepBack(StepNext(s)) == (s, Stayed)
  {
  }

  /** Every handler keeps the step among the six sub-steps and the record full. */
  lemma TransitionsKeepValid(s: FormState, field: DemographicField, value: string)
    requires Valid(s)
    ensures Valid(Selection(s, field, value).0)
    ensures Valid(StepBack(s).0)
    ensures Valid(StepNext(s))
  {
    var d' := s.data[field := value];
    assert forall f: DemographicField :: f in d' by {
      forall f: DemographicField ensures f in d' {
        assert f in s.data;
      }
    }
  }

  /** A freshly mounted page is valid when mounted at a sub-step. */
  lemma InitialValid(initialStep: int, initialData: Demographics)
    requires 0 <= initialStep <= 5
    ensures Valid(Initial(initialStep, initialData))
  {
  }

  /** `hasExistingAnswer` never holds at sub-step 5; below it, it holds exactly when the
      mount-time value of the sub-step's field is non-empty and unchanged. The Next button
      shows exactly when it holds. */
  lemma ExistingAnswerSpec(s: FormState)
    requires Valid(s)
    ensures s.step == 5 ==> !HasExistingAnswer(s) && !ShowsNextButton(s)
    ensures s.step < 5 ==>
      var f := StepField(s.step).value;
      HasExistingAnswer(s) <==> f in s.original && s.original[f] != "" && s.data[f] == s.original[f]
    ensures ShowsNextButton(s) <==> HasExistingAnswer(s)
  {
  }

  /** On a return visit with the earlier answers, the Next button is offered at every
      sub-step below 5 whose answer was non-empty. */
  lemma ReturnVisitOffersNext(k: int, record: Demographics)
    requires 0 <= k < 5 && FullRecord(record)
    requires record[StepField(k).value] != ""
    ensures ShowsNextButton(Initial(k, record))
  {
  }

  /** Selecting the six answers in order, from an empty mount at sub-step 0, completes the
      page with exactly those six answers. */
  lemma FillInInOrder(age: string, role: string, years: string, hours: string, gender: string, family: string)
    ensures var s0 := Initial(0, map[]);
      var s1 := Selection(s0, AgeRange, age).0;
      var s2 := Selection(s1, JobRole, role).0;
      var s3 := Selection(s2, YearsExperience, years).0;
      var s4 := Selection(s3, WorkHours, hours).0;
      var s5 := Selection(s4, Gender, gender).0;
      var ev := Selection(s5, FamilyStatus, family).1;
      && s1.step == 1 && s2.step == 2 && s3.step == 3 && s4.step == 4 && s5.step == 5
      && ev == Completed(map[AgeRange := age, JobRole := role, YearsExperience := years,
                             WorkHours := hours, Gender := gender, FamilyStatus := family])
  {
    var s0 := Initial(0, map[]);
    var s5 := Selection(Selection(Selection(Selection(Selection(s0, AgeRange, age).0, JobRole, role).0,
                        YearsExperience, years).0, WorkHours, hours).0, Gender, gender).0;
    var expected := map[AgeRange := age, JobRole := role, YearsExperience := years,
                        WorkHours := hours, Gender := gender, FamilyStatus := family];
    var record := s5.data[FamilyStatus := family];
    SixKeysFull(expected);
    assert record.Keys == expected.Keys;
  }

  /** The form as the mounted component holds it. */
  class DemographicForm {
    var currentStep: int
    var demographicData: Demographics
    var originalData: Demographics

    function State(): FormState
      reads this
    {
      FormState(currentStep, demographicData, originalData)
    }

    /** Mounting the page with the parent's `initialStep` and `initialData`. */
    constructor(initialStep: int, initialData: Demographics)
      ensures State() == Initial(initialStep, initialData)
    {
      var s := Initial(initialStep, initialData);
      currentStep := initialStep;
      demographicData := s.data;
      originalData := initialData;
    }

    /** `handleSelection`. */
    method HandleSelection(field: DemographicField, value: string) returns (event: SelectionEvent)
      modifies this
      ensures (State(), event) == Selection(old(State()), field, value)
    {
      var updatedData := demographicData[field := value];
      demographicData := updatedData;
      event := Stay;
      if currentStep < 5 {
        if StepField(currentStep) == Some(field) {
          currentStep := currentStep + 1;
        }
      } else if currentStep == 5 && field == FamilyStatus {
        event := Completed(updatedData);
      }
    }

    /** `handleStepBack`. */
    method HandleStepBack() returns (event: StepBackEvent)
      modifies this
      ensures (State(), event) == StepBack(old(State()))
    {
      if currentStep > 0 {
        currentStep := currentStep - 1;
        event := Stayed;
      } else {
        event := ExitBack;
      }
    }

    /** `handleStepNext`. */
    method HandleStepNext()
      modifies this
      ensures State() == StepNext(old(State()))
    {
      if currentStep < 4 {
        currentStep := currentStep + 1;
      } else if currentStep == 4 {
        currentStep := 5;
      }
    }

    /** `hasExistingAnswer` on the current state. */
    predicate HasExistingAnswerNow()
      reads this
    {
      HasExistingAnswer(State())
    }
  }
}
