/**
 * The static question catalog and the demographic option lists
 * (src/data/questions.js).
 */
module Catalog {

  /** The three burnout dimensions a question belongs to. */
  datatype Category = EmotionalExhaustion | Disengagement | ProfessionalEfficacy

  /** The category's display name, the string the source compares `q.category` with. */
  function CategoryName(c: Category): string
  {
    match c
    case EmotionalExhaustion => "Emotional Exhaustion"
    case Disengagement => "Disengagement"
    case ProfessionalEfficacy => "Professional Efficacy"
  }

  /** The two-letter prefix of the export codes of a category's questions. */
  function CategoryPrefix(c: Category): string
  {
    match c
    case EmotionalExhaustion => "EE"
    case Disengagement => "DE"
    case ProfessionalEfficacy => "PE"
  }

  /** One item of the questionnaire: `{ id, category, value, question }`, where `value`
      is the short export code called `code` here. */
  datatype Question = Question(id: int, category: Category, code: string, text: string)

  /** The catalog, in the order the questionnaire presents it. */
  const Questions: seq<Question> := [
    Question(1, EmotionalExhaustion, "EE1", "I feel emotionally drained from my work"),
    Question(2, EmotionalExhaustion, "EE2", "I need extra time to relax after work"),
    Question(3, EmotionalExhaustion, "EE3", "I feel tired in the morning and dread going to work"),
    Question(4, EmotionalExhaustion, "EE4", "My job makes me feel physically exhausted"),
    Question(5, EmotionalExhaustion, "EE5", "I often feel emotionally stressed at work"),
    Question(6, EmotionalExhaustion, "EE6", "Working all day is really a stress for me"),
    Question(7, EmotionalExhaustion, "EE7", "I don't have enough energy for my personal life after work"),
    Question(8, Disengagement, "DE1", "I feel disconnected from my work"),
    Question(9, Disengagement, "DE2", "I talk about my work negatively"),
    Question(10, Disengagement, "DE3", "I've become more doubtful about my work's value"),
    Question(11, Disengagement, "DE4", "I've lost interest in my work since starting this job"),
    Question(12, Disengagement, "DE5", "Sometimes my work tasks make me feel upset"),
    Question(13, Disengagement, "DE6", "I doubt the significance of my work"),
    Question(14, ProfessionalEfficacy, "PE1", "I feel confident in solving problems at work"),
    Question(15, ProfessionalEfficacy, "PE2", "I am making a meaningful contribution to my organization"),
    Question(16, ProfessionalEfficacy, "PE3", "I feel excited when I accomplish something at work"),
    Question(17, ProfessionalEfficacy, "PE4", "I see my work as a positive challenge"),
    Question(18, ProfessionalEfficacy, "PE5", "I feel I am good at what I do")
  ]

  /** The catalog index at which a category's block of questions begins. */
  function CategoryStart(c: Category): nat
  {
    match c
    case EmotionalExhaustion => 0
    case Disengagement => 7
    case ProfessionalEfficacy => 13
  }

  /** The number of questions in a category's block. */
  function CategorySize(c: Category): nat
  {
    match c
    case EmotionalExhaustion => 7
    case Disengagement => 6
    case ProfessionalEfficacy => 5
  }

  /** The decimal digit for 0 <= n <= 9. */
  function Digit(n: nat): char
    requires n <= 9
  {
    ('0' as int + n) as char
  }

  /** The set of valid answer-map keys: the catalog's ids. */
  function CatalogIds(): (ids: set<int>)
  {
    set q | q in Questions :: q.id
  }

  /** `questions.length`, as the navigation handlers compare the index with it. */
  const QuestionCount: nat := 18

  /** The catalog has `QuestionCount` (18) entries and the entry at index i has id i + 1,
      which is why the navigation handlers key an answer at index i under i + 1. */
  lemma IdsAreIndexPlusOne()
    ensures |Questions| == QuestionCount == 18
    ensures forall i :: 0 <= i < |Questions| ==> Questions[i].id == i + 1
  {
  }

  /** Ids are pairwise distinct. */
  lemma IdsUnique()
    ensures forall i, j :: 0 <= i < j < |Questions| ==> Questions[i].id != Questions[j].id
  {
    IdsAreIndexPlusOne();
  }

  /** The catalog's ids are exactly 1..`QuestionCount`, the question numbers the navigation
      handlers produce. */
  lemma CatalogIdsRange()
    ensures forall k :: k in CatalogIds() <==> 1 <= k <= QuestionCount
  {
    IdsAreIndexPlusOne();
    forall k | 1 <= k <= QuestionCount
      ensures k in CatalogIds()
    {
      assert Questions[k - 1] in Questions;
    }
  }

  /** The categories form contiguous blocks: indices 0-6 (ids 1-7) Emotional Exhaustion,
      7-12 (ids 8-13) Disengagement and 13-17 (ids 14-18) Professional Efficacy. */
  lemma CategoryBlocks()
    ensures forall i :: 0 <= i < |Questions| ==>
      (Questions[i].category == EmotionalExhaustion <==> 0 <= i < 7) &&
      (Questions[i].category == Disengagement <==> 7 <= i < 13) &&
      (Questions[i].category == ProfessionalEfficacy <==> 13 <= i < 18)
    ensures forall i :: 0 <= i < |Questions| ==>
      CategoryStart(Questions[i].category) <= i < CategoryStart(Questions[i].category) + CategorySize(Questions[i].category)
    ensures CategorySize(EmotionalExhaustion) + CategorySize(Disengagement) + CategorySize(ProfessionalEfficacy) == |Questions|
  {
    IdsAreIndexPlusOne();
    CategoryByIndex();
  }

  /** The category of the entry at each index, read off the catalog. */
  lemma CategoryByIndex()
    ensures forall i :: 0 <= i < |Questions| ==>
      Questions[i].category == (if i < 7 then EmotionalExhaustion else if i < 13 then Disengagement else ProfessionalEfficacy)
  {
  }

  /** Each code is its category's prefix followed by the question's running number
      within the category (EE1..EE7, DE1..DE6, PE1..PE5). */
  lemma CodesArePrefixAndRunningNumber()
    ensures forall i :: 0 <= i < |Questions| ==>
      i - CategoryStart(Questions[i].category) + 1 <= 9 &&
      Questions[i].code == CategoryPrefix(Questions[i].category) + [Digit(i - CategoryStart(Questions[i].category) + 1)]
  {
    CategoryByIndex();
    ExhaustionCodes();
    DisengagementCodes();
    EfficacyCodes();
  }

  /** EE1 .. EE7 at indices 0 .. 6. */
  lemma ExhaustionCodes()
    ensures forall i :: 0 <= i < 7 ==> Questions[i].code == "EE" + [Digit(i + 1)]
  {
  }

  /** DE1 .. DE6 at indices 7 .. 12. */
  lemma DisengagementCodes()
    ensures forall i :: 7 <= i < 13 ==> Questions[i].code == "DE" + [Digit(i - 6)]
  {
  }

  /** PE1 .. PE5 at indices 13 .. 17. */
  lemma EfficacyCodes()
    ensures forall i :: 13 <= i < 18 ==> Questions[i].code == "PE" + [Digit(i - 12)]
  {
  }

  /** No two questions share a code, so a code identifies its question. */
  lemma CodesUnique()
    ensures forall i, j :: 0 <= i < |Questions| && 0 <= j < |Questions| && i != j ==>
      Questions[i].code != Questions[j].code
  {
    CodesArePrefixAndRunningNumber();
    forall i, j | 0 <= i < |Questions| && 0 <= j < |Questions| && i != j
      ensures Questions[i].code != Questions[j].code
    {
      var ci, cj := Questions[i].category, Questions[j].category;
      if ci == cj {
        assert Questions[i].code[2] != Questions[j].code[2];
      } else {
        assert Questions[i].code[..2] == CategoryPrefix(ci);
        assert Questions[j].code[..2] == CategoryPrefix(cj);
      }
    }
  }

  /** Every code is three characters long: two prefix letters and a digit. */
  lemma CodeShape()
    ensures forall i :: 0 <= i < |Questions| ==> |Questions[i].code| == 3
  {
    CodesArePrefixAndRunningNumber();
  }

  /** One selectable answer of a demographic question: `{ value, label }` (the label is called `caption` here; the icon is presentation). */
  datatype DemographicOption = DemographicOption(value: string, caption: string)

  /** The six optional demographic fields, in the order the demographic page asks them. */
  datatype DemographicField = AgeRange | JobRole | YearsExperience | WorkHours | Gender | FamilyStatus

  const AgeRanges: seq<DemographicOption> := [
    DemographicOption("18-24", "18-24"),
    DemographicOption("25-34", "25-34"),
    DemographicOption("35-44", "35-44"),
    DemographicOption("45-54", "45-54"),
    DemographicOption("55-64", "55-64"),
    DemographicOption("65+", "65+")
  ]

  const GenderOptions: seq<DemographicOption> := [
    DemographicOption("female", "Female"),
    DemographicOption("male", "Male")
  ]

  const JobRoles: seq<DemographicOption> := [
    DemographicOption("healthcare", "Healthcare & Medical"),
    DemographicOption("education", "Education & Training"),
    DemographicOption("technology", "Technology & IT"),
    DemographicOption("finance", "Finance & Banking"),
    DemographicOption("management", "Management & Leadership"),
    DemographicOption("sales-marketing", "Sales & Marketing"),
    DemographicOption("customer-service", "Customer Service"),
    DemographicOption("human-resources", "Human Resources"),
    DemographicOption("legal", "Legal Services"),
    DemographicOption("consulting", "Consulting"),
    DemographicOption("retail", "Retail & Commerce"),
    DemographicOption("manufacturing", "Manufacturing"),
    DemographicOption("construction", "Construction & Engineering"),
    DemographicOption("government", "Government & Public Service"),
    DemographicOption("non-profit", "Non-profit & Social Services"),
    DemographicOption("media", "Media & Communications"),
    DemographicOption("hospitality", "Hospitality & Tourism"),
    DemographicOption("research", "Research & Development"),
    DemographicOption("other", "Other")
  ]

  const YearsExperienceOptions: seq<DemographicOption> := [
    DemographicOption("less-than-1", "<1 year"),
    DemographicOption("1-2", "1-2 years"),
    DemographicOption("3-5", "3-5 years"),
    DemographicOption("6-10", "6-10 years"),
    DemographicOption("11-15", "11-15 years"),
    DemographicOption("16-20", "16-20 years"),
    DemographicOption("more-than-20", "20+ years")
  ]

  const WorkHoursOptions: seq<DemographicOption> := [
    DemographicOption("part-time", "<30 hrs"),
    DemographicOption("30-40", "30-40 hrs"),
    DemographicOption("41-50", "41-50 hrs"),
    DemographicOption("51-60", "51-60 hrs"),
    DemographicOption("61-70", "61-70 hrs"),
    DemographicOption("more-than-70", "70+ hrs")
  ]

  const FamilyStatusOptions: seq<DemographicOption> := [
    DemographicOption("single", "Single"),
    DemographicOption("married-no-children", "Married - No kids"),
    DemographicOption("married-with-children", "Married - With kids"),
    DemographicOption("single-parent", "Single parent"),
    DemographicOption("other", "Other")
  ]

  /** The option list offered for a field. */
  function OptionsFor(f: DemographicField): seq<DemographicOption>
  {
    match f
    case AgeRange => AgeRanges
    case JobRole => JobRoles
    case YearsExperience => YearsExperienceOptions
    case WorkHours => WorkHoursOptions
    case Gender => GenderOptions
    case FamilyStatus => FamilyStatusOptions
  }

  /** The option values of a list are pairwise distinct. */
  predicate DistinctValues(opts: seq<DemographicOption>)
  {
    forall i, j :: 0 <= i < j < |opts| ==> opts[i].value != opts[j].value
  }

  /** A list offers at least one option and every option value is non-empty. */
  predicate NonEmptyValues(opts: seq<DemographicOption>)
  {
    |opts| > 0 && forall i :: 0 <= i < |opts| ==> opts[i].value != ""
  }

  /** Within each demographic option list the values are pairwise distinct and not empty,
      so a selected value is truthy and names exactly one option. */
  lemma OptionValuesDistinct(f: DemographicField)
    ensures DistinctValues(OptionsFor(f))
    ensures |OptionsFor(f)| > 0
    ensures forall i :: 0 <= i < |OptionsFor(f)| ==> OptionsFor(f)[i].value != ""
  {
    match f
    case AgeRange => AgeRangeValuesDistinct();
    case JobRole => JobRoleValuesDistinct();
    case YearsExperience => YearsExperienceValuesDistinct();
    case WorkHours => WorkHoursValuesDistinct();
    case Gender => GenderValuesDistinct();
    case FamilyStatus => FamilyStatusValuesDistinct();
  }

  lemma AgeRangeValuesDistinct()
    ensures DistinctValues(AgeRanges) && NonEmptyValues(AgeRanges)
  {
  }

  lemma YearsExperienceValuesDistinct()
    ensures DistinctValues(YearsExperienceOptions) && NonEmptyValues(YearsExperienceOptions)
  {
  }

  lemma WorkHoursValuesDistinct()
    ensures DistinctValues(WorkHoursOptions) && NonEmptyValues(WorkHoursOptions)
  {
  }

  lemma GenderValuesDistinct()
    ensures DistinctValues(GenderOptions) && NonEmptyValues(GenderOptions)
  {
  }

  lemma FamilyStatusValuesDistinct()
    ensures DistinctValues(FamilyStatusOptions) && NonEmptyValues(FamilyStatusOptions)
  {
  }

  /** The position of a job-role value in its list, read off its first character and its
      length. */
  function JobRoleIndex(v: string): int
  {
    var p := if v == [] then 0 else (v[0] as int) * 100 + |v|;
    if p == 10410 then 0
    else if p == 10109 then 1
    else if p == 11610 then 2
    else if p == 10207 then 3
    else if p == 10910 then 4
    else if p == 11515 then 5
    else if p == 9916 then 6
    else if p == 10415 then 7
    else if p == 10805 then 8
    else if p == 9910 then 9
    else if p == 11406 then 10
    else if p == 10913 then 11
    else if p == 9912 then 12
    else if p == 10310 then 13
    else if p == 11010 then 14
    else if p == 10905 then 15
    else if p == 10411 then 16
    else if p == 11408 then 17
    else if p == 11105 then 18
    else -1
  }

  /** Job-role values are told apart by their first character and length alone. */
  lemma JobRoleValuesDistinct()
    ensures DistinctValues(JobRoles) && NonEmptyValues(JobRoles)
  {
    assert forall i :: 0 <= i < |JobRoles| ==> JobRoleIndex(JobRoles[i].value) == i;
  }
}
