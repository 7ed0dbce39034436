/**
 * The export adapter's pure part (src/utils/googleSheetsData.js): the fixed
 * 24-column record built from the answers and the demographic data, its
 * flattening in header order, the payload counts, and the completeness report.
 */
module ExportData {
  import opened Catalog
  import opened Text
  import opened Scoring

  /** Demographic data as the assessment holds it: `{}` before the form is filled in,
      afterwards one string per field ('' for a field left empty). */
  type Demographics = map<DemographicField, string>

  /** A cell of the exported row: JSON `null`, JavaScript `undefined` (a header the record
      lacks), a demographic code, or a Likert value. */
  datatype Cell = Null | Undefined | Str(s: string) | Num(n: int)

  /** The exported column of each demographic field (the fields are renamed on export). */
  function ExportHeader(f: DemographicField): string
  {
    match f
    case AgeRange => "ageRanges"
    case Gender => "genderOptions"
    case JobRole => "jobRoles"
    case YearsExperience => "yearsExperienceOptions"
    case WorkHours => "workHoursOptions"
    case FamilyStatus => "familyStatusOptions"
  }

  /** The demographic fields in column order. */
  const DemographicColumns: seq<DemographicField> :=
    [AgeRange, Gender, JobRole, YearsExperience, WorkHours, FamilyStatus]

  /** `getGoogleSheetsHeaders`: the 24 column headers in order. */
  function GoogleSheetsHeaders(): seq<string>
  {
    [ "ageRanges", "genderOptions", "jobRoles", "yearsExperienceOptions", "workHoursOptions",
      "familyStatusOptions",
      "EE1", "EE2", "EE3", "EE4", "EE5", "EE6", "EE7",
      "DE1", "DE2", "DE3", "DE4", "DE5", "DE6",
      "PE1", "PE2", "PE3", "PE4", "PE5" ]
  }

  /** The headers are the six renamed demographic fields followed by the catalog's codes in
      catalog order. */
  lemma HeadersLayout()
    ensures |GoogleSheetsHeaders()| == 24
    ensures forall j :: 0 <= j < 6 ==> GoogleSheetsHeaders()[j] == ExportHeader(DemographicColumns[j])
    ensures forall i :: 0 <= i < |Questions| ==> GoogleSheetsHeaders()[6 + i] == Questions[i].code
  {
  }

  /** The column a header names, read off its first and last characters. */
  function HeaderColumn(v: string): int
  {
    if v == [] then -1
    else
      var first, last := v[0], v[|v| - 1] as int;
      if first == 'a' then 0
      else if first == 'g' then 1
      else if first == 'j' then 2
      else if first == 'y' then 3
      else if first == 'w' then 4
      else if first == 'f' then 5
      else if first == 'E' then 6 + (last - '1' as int)
      else if first == 'D' then 13 + (last - '1' as int)
      else if first == 'P' then 19 + (last - '1' as int)
      else -1
  }

  /** No header occurs twice (each is read back as its own column), so each header names
      exactly one column. */
  lemma HeadersDistinct()
    ensures forall j, k :: 0 <= j < 24 && 0 <= k < 24 && j != k ==> GoogleSheetsHeaders()[j] != GoogleSheetsHeaders()[k]
  {
    assert forall j :: 0 <= j < 24 ==> HeaderColumn(GoogleSheetsHeaders()[j]) == j;
  }

  /** `demographicData.field || null`: an absent or empty field is exported as null. */
  function DemographicCell(demo: Demographics, f: DemographicField): Cell
  {
    if f in demo && demo[f] != "" then Str(demo[f]) else Null
  }

  /** A question's cell: its recorded value, or null when it is unanswered. */
  function AnswerCell(answers: Answers, q: Question): Cell
  {
    if q.id in answers then Num(answers[q.id]) else Null
  }

  /** The value of column j of the export. */
  function ColumnValue(j: nat, answers: Answers, demo: Demographics): Cell
    requires j < 24
  {
    if j < 6 then DemographicCell(demo, DemographicColumns[j]) else AnswerCell(answers, Questions[j - 6])
  }

  /** The record the export promises: every header present, each with its column's value. */
  function ExportRecord(answers: Answers, demo: Demographics): map<string, Cell>
  {
    HeadersDistinct();
    map j | 0 <= j < 24 :: GoogleSheetsHeaders()[j] := ColumnValue(j, answers, demo)
  }

  /** The export record has exactly the 24 headers as keys, and under header j the value of
      column j. */
  lemma ExportRecordAt(answers: Answers, demo: Demographics)
    ensures ExportRecord(answers, demo).Keys == set j | 0 <= j < 24 :: GoogleSheetsHeaders()[j]
    ensures forall j :: 0 <= j < 24 ==> ExportRecord(answers, demo)[GoogleSheetsHeaders()[j]] == ColumnValue(j, answers, demo)
  {
    HeadersDistinct();
  }

  /** The object `formatDataForGoogleSheets` starts from: every header of the layout above
      present, the demographic fields renamed (null when empty), every code null. */
  function InitialRecord(demo: Demographics): map<string, Cell>
  {
    HeadersDistinct();
    map j | 0 <= j < 24 :: GoogleSheetsHeaders()[j] := if j < 6 then DemographicCell(demo, DemographicColumns[j]) else Null
  }

  /** The initial record is the export of no answers at all. */
  lemma InitialRecordIsExportOfNoAnswers(demo: Demographics)
    ensures InitialRecord(demo) == ExportRecord(map[], demo)
  {
    InitialRecordAt(demo);
    RecordFromColumns(InitialRecord(demo), map[], demo);
  }

  lemma InitialRecordAt(demo: Demographics)
    ensures InitialRecord(demo).Keys == set j | 0 <= j < 24 :: GoogleSheetsHeaders()[j]
    ensures forall j :: 0 <= j < 24 ==>
      InitialRecord(demo)[GoogleSheetsHeaders()[j]] == if j < 6 then DemographicCell(demo, DemographicColumns[j]) else Null
  {
    HeadersDistinct();
  }

  /** A record with the export's keys and, under every header, that column's value is the
      export record. */
  lemma RecordFromColumns(m: map<string, Cell>, answers: Answers, demo: Demographics)
    requires m.Keys == set j | 0 <= j < 24 :: GoogleSheetsHeaders()[j]
    requires forall j :: 0 <= j < 24 ==> m[GoogleSheetsHeaders()[j]] == ColumnValue(j, answers, demo)
    ensures m == ExportRecord(answers, demo)
  {
    ExportRecordAt(answers, demo);
    var h := GoogleSheetsHeaders();
    forall key | key in m
      ensures m[key] == ExportRecord(answers, demo)[key]
    {
      var j :| 0 <= j < 24 && h[j] == key;
    }
  }

  /** The record after the first n catalog questions have been written: demographic columns
      and the first n code columns filled in, the remaining codes still null. */
  ghost predicate WrittenUpTo(m: map<string, Cell>, answers: Answers, demo: Demographics, n: nat)
  {
    && m.Keys == (set j | 0 <= j < 24 :: GoogleSheetsHeaders()[j])
    && forall j :: 0 <= j < 24 ==> m[GoogleSheetsHeaders()[j]] == if j < 6 + n then ColumnValue(j, answers, demo) else Null
  }

  /** Writing question i's answer (when it has one) under its code extends the written prefix. */
  lemma WriteStep(m: map<string, Cell>, answers: Answers, demo: Demographics, i: nat)
    requires i < |Questions| && WrittenUpTo(m, answers, demo, i)
    ensures var q := Questions[i];
      WrittenUpTo(if q.id in answers then m[q.code := Num(answers[q.id])] else m, answers, demo, i + 1)
  {
    HeadersLayout();
    HeadersDistinct();
    var h := GoogleSheetsHeaders();
    assert Questions[i].code == h[6 + i];
  }

  /** `formatDataForGoogleSheets`: start from the initial record, then write the value of
      each answered catalog question under its code. */
  method FormatDataForGoogleSheets(answers: Answers, demo: Demographics) returns (formatted: map<string, Cell>)
    ensures formatted == ExportRecord(answers, demo)
  {
    formatted := InitialRecord(demo);
    InitialRecordAt(demo);
    var i := 0;
    while i < |Questions|
      invariant 0 <= i <= |Questions|
      invariant WrittenUpTo(formatted, answers, demo, i)
    {
      var question := Questions[i];
      WriteStep(formatted, answers, demo, i);
      if question.id in answers {
        formatted := formatted[question.code := Num(answers[question.id])];
      }
      i := i + 1;
    }
    RecordFromColumns(formatted, answers, demo);
  }

  /** `convertToArrayFormat`: the record's values in header order (`undefined` for a header
      the record lacks). */
  function ConvertToArrayFormat(formatted: map<string, Cell>): (row: seq<Cell>)
    ensures |row| == |GoogleSheetsHeaders()|
    ensures forall j :: 0 <= j < |row| ==>
      row[j] == if GoogleSheetsHeaders()[j] in formatted then formatted[GoogleSheetsHeaders()[j]] else Undefined
  {
    var h := GoogleSheetsHeaders();
    seq(|h|, j requires 0 <= j < |h| => if h[j] in formatted then formatted[h[j]] else Undefined)
  }

  /** The exported row has one cell per header: the six demographic cells in column order,
      then the catalog questions' cells in catalog order, and never `undefined`. */
  lemma RowOfExportRecord(answers: Answers, demo: Demographics)
    ensures var row := ConvertToArrayFormat(ExportRecord(answers, demo));
      && |row| == 24
      && (forall j :: 0 <= j < 6 ==> row[j] == DemographicCell(demo, DemographicColumns[j]))
      && (forall i :: 0 <= i < |Questions| ==> row[6 + i] == AnswerCell(answers, Questions[i]))
      && Undefined !in row
  {
    ExportRecordAt(answers, demo);
    var row := ConvertToArrayFormat(ExportRecord(answers, demo));
    forall j | 0 <= j < 24
      ensures row[j] == ColumnValue(j, answers, demo)
    {
      assert GoogleSheetsHeaders()[j] in ExportRecord(answers, demo).Keys;
    }
  }

  /** A question's cell carries the recorded value exactly when it is answered; a demographic
      cell carries the field's value exactly when the field is present and non-empty. */
  lemma CellsRoundTrip(answers: Answers, demo: Demographics, q: Question, f: DemographicField)
    ensures AnswerCell(answers, q) == Null <==> q.id !in answers
    ensures q.id in answers ==> AnswerCell(answers, q) == Num(answers[q.id])
    ensures DemographicCell(demo, f) == Null <==> f !in demo || demo[f] == ""
    ensures f in demo && demo[f] != "" ==> DemographicCell(demo, f) == Str(demo[f])
  {
  }

  // ---------------------------------------------------------------------------
  // `createGoogleSheetsPayload` without its clock and browser fields

  /** `demographicFieldsProvided`: the fields whose value is not blank after trimming. */
  function DemographicFieldsProvided(demo: Demographics): (n: nat)
    ensures n <= |demo|
    ensures n == 0 <==> forall f :: f in demo ==> IsBlank(demo[f])
  {
    ProvidedFields(demo);
    |set f | f in demo && HasContent(demo[f])|
  }

  lemma ProvidedFields(demo: Demographics)
    ensures var provided := set f | f in demo && HasContent(demo[f]);
      |provided| <= |demo| && (|provided| == 0 <==> forall f :: f in demo ==> IsBlank(demo[f]))
  {
    var provided := set f | f in demo && HasContent(demo[f]);
    SubsetCardinality(provided, demo.Keys);
    if !forall f :: f in demo ==> IsBlank(demo[f]) {
      var f :| f in demo && !IsBlank(demo[f]);
      assert f in provided;
    }
  }

  lemma SubsetCardinality<T>(a: set<T>, b: set<T>)
    requires a <= b
    ensures |a| <= |b|
  {
    assert b == a + (b - a);
  }

  datatype RawData = RawData(formattedData: map<string, Cell>, headers: seq<string>, totalQuestions: nat,
                             answeredQuestions: nat, demographicFieldsProvided: nat)

  datatype Payload = Payload(range: string, majorDimension: string, values: seq<seq<Cell>>, rawData: RawData)

  /** The payload `createGoogleSheetsPayload` builds. */
  function PayloadFor(answers: Answers, demo: Demographics): Payload
  {
    Payload("Sheet1!A:Z", "ROWS", [ConvertToArrayFormat(ExportRecord(answers, demo))],
            RawData(ExportRecord(answers, demo), GoogleSheetsHeaders(), QuestionCount, |answers.Keys|,
                    DemographicFieldsProvided(demo)))
  }

  /** The payload: a single row in header order, plus the counts reported beside it. */
  method CreateGoogleSheetsPayload(answers: Answers, demo: Demographics) returns (p: Payload)
    ensures p == PayloadFor(answers, demo)
    ensures p.range == "Sheet1!A:Z" && p.majorDimension == "ROWS"
    ensures p.values == [ConvertToArrayFormat(ExportRecord(answers, demo))]
    ensures p.rawData.formattedData == ExportRecord(answers, demo)
    ensures p.rawData.headers == GoogleSheetsHeaders()
    ensures p.rawData.totalQuestions == QuestionCount
    ensures p.rawData.answeredQuestions == |answers.Keys|
    ensures p.rawData.demographicFieldsProvided == DemographicFieldsProvided(demo)
  {
    IdsAreIndexPlusOne();
    var formattedData := FormatDataForGoogleSheets(answers, demo);
    var valuesArray := ConvertToArrayFormat(formattedData);
    p := Payload("Sheet1!A:Z", "ROWS", [valuesArray],
                 RawData(formattedData, GoogleSheetsHeaders(), |Questions|, |answers.Keys|,
                         DemographicFieldsProvided(demo)));
  }

  // ---------------------------------------------------------------------------
  // `validateAssessmentCompletion`

  /** `answers[id]` is truthy: present and not 0. */
  predicate Truthy(answers: Answers, id: int)
  {
    id in answers && answers[id] != 0
  }

  /** The questions, in order, whose answer is not truthy. */
  function MissingFrom(answers: Answers, qs: seq<Question>): seq<Question>
  {
    if qs == [] then []
    else
      var last := qs[|qs| - 1];
      MissingFrom(answers, qs[..|qs| - 1]) + (if Truthy(answers, last.id) then [] else [last])
  }

  /** The catalog questions whose answer is not truthy, in catalog order. */
  function MissingQuestions(answers: Answers): seq<Question>
  {
    MissingFrom(answers, Questions)
  }

  /** `Math.round`: the nearest integer, a tie going up. */
  function MathRound(x: real): (n: int)
    ensures x - 0.5 < n as real <= x + 0.5
  {
    (x + 0.5).Floor
  }

  /** `completionPercentage`. */
  function CompletionPercentage(answered: nat, total: nat): int
    requires total > 0
  {
    MathRound(answered as real / total as real * 100.0)
  }

  datatype Validation = Validation(isComplete: bool, totalQuestions: nat, answeredQuestions: nat,
                                   missingQuestions: seq<Question>, completionPercentage: int)

  /** `validateAssessmentCompletion`: a count comparison for completeness, and a pass over the
      catalog collecting the questions without a truthy answer. */
  method ValidateAssessmentCompletion(answers: Answers) returns (v: Validation)
    ensures v.totalQuestions == QuestionCount
    ensures v.answeredQuestions == |answers.Keys|
    ensures v.isComplete <==> |answers.Keys| == QuestionCount
    ensures v.missingQuestions == MissingQuestions(answers)
    ensures v.completionPercentage == CompletionPercentage(|answers.Keys|, QuestionCount)
  {
    IdsAreIndexPlusOne();
    var totalQuestions := |Questions|;
    var answeredQuestions := |answers.Keys|;
    var missingQuestions: seq<Question> := [];
    var i := 0;
    while i < |Questions|
      invariant 0 <= i <= |Questions|
      invariant missingQuestions == MissingFrom(answers, Questions[..i])
    {
      var question := Questions[i];
      assert Questions[..i + 1][..i] == Questions[..i];
      if !Truthy(answers, question.id) {
        missingQuestions := missingQuestions + [question];
      }
      i := i + 1;
    }
    assert Questions[..i] == Questions;
    v := Validation(answeredQuestions == totalQuestions, totalQuestions, answeredQuestions,
                    missingQuestions, CompletionPercentage(answeredQuestions, totalQuestions));
  }

  /** A question is listed as missing exactly when it is in the catalog slice and has no
      truthy answer. */
  lemma {:induction false} MissingMembership(answers: Answers, qs: seq<Question>, q: Question)
    ensures q in MissingFrom(answers, qs) <==> q in qs && !Truthy(answers, q.id)
  {
    if qs != [] {
      var init := qs[..|qs| - 1];
      assert qs == init + [qs[|qs| - 1]];
      MissingMembership(answers, init, q);
    }
  }

  /** The missing list keeps catalog order: over a slice with increasing ids, its ids increase. */
  lemma {:induction false} MissingInCatalogOrder(answers: Answers, qs: seq<Question>)
    requires forall i, j :: 0 <= i < j < |qs| ==> qs[i].id < qs[j].id
    ensures var m := MissingFrom(answers, qs);
      forall i, j :: 0 <= i < j < |m| ==> m[i].id < m[j].id
  {
    if qs != [] {
      var init, last := qs[..|qs| - 1], qs[|qs| - 1];
      MissingInCatalogOrder(answers, init);
      var m0 := MissingFrom(answers, init);
      forall i | 0 <= i < |m0|
        ensures m0[i].id < last.id
      {
        MissingMembership(answers, init, m0[i]);
        var k :| 0 <= k < |init| && init[k] == m0[i];
      }
    }
  }

  /** A list of questions with distinct ids has as many ids as entries. */
  lemma {:induction false} IdSetSize(qs: seq<Question>)
    requires forall i, j :: 0 <= i < j < |qs| ==> qs[i].id != qs[j].id
    ensures |set q | q in qs :: q.id| == |qs|
  {
    if qs != [] {
      IdSetSize(qs[1..]);
      var rest := set q | q in qs[1..] :: q.id;
      assert (set q | q in qs :: q.id) == {qs[0].id} + rest;
    }
  }

  /** There are as many catalog ids as catalog questions. */
  lemma CatalogIdCount()
    ensures |CatalogIds()| == QuestionCount
  {
    IdsAreIndexPlusOne();
    IdsUnique();
    IdSetSize(Questions);
  }

  lemma ProperSubsetSmaller<T>(a: set<T>, b: set<T>)
    requires a <= b && a != b
    ensures |a| < |b|
  {
    var x := OutsideSubset(a, b);
    SubsetCardinality(a, b - {x});
  }

  /** With every key a catalog id, all 18 ids are answered exactly when there are 18 keys. */
  lemma FullCountMeansAllIds(answers: Answers)
    requires answers.Keys <= CatalogIds()
    ensures |answers.Keys| == QuestionCount <==> answers.Keys == CatalogIds()
  {
    CatalogIdCount();
    if answers.Keys != CatalogIds() {
      ProperSubsetSmaller(answers.Keys, CatalogIds());
    }
  }

  /** An element of b that a lacks, when a is a proper subset of b. */
  lemma OutsideSubset<T>(a: set<T>, b: set<T>) returns (x: T)
    requires a <= b && a != b
    ensures x in b && x !in a
  {
    if b - a == {} {
      forall y | y in b ensures y in a {
        assert y !in b - a;
      }
    }
    x :| x in b - a;
  }

  /** When every key is a catalog id and every value is non-zero, the count-based verdict and
      the missing list agree: complete exactly when nothing is missing. */
  lemma CompleteIffNothingMissing(answers: Answers)
    requires answers.Keys <= CatalogIds()
    requires forall k :: k in answers ==> answers[k] != 0
    ensures |answers.Keys| == QuestionCount <==> MissingQuestions(answers) == []
  {
    FullCountMeansAllIds(answers);
    var missing := MissingFrom(answers, Questions);
    if answers.Keys == CatalogIds() {
      if missing != [] {
        MissingMembership(answers, Questions, missing[0]);
      }
    } else {
      var x := OutsideSubset(answers.Keys, CatalogIds());
      IdsAreIndexPlusOne();
      CatalogIdsRange();
      MissingMembership(answers, Questions, Questions[x - 1]);
    }
  }

  /** With every key a catalog id, the reported percentage lies in [0, 100], and it is 100
      exactly when the count-based verdict is complete. */
  lemma PercentageInRange(answers: Answers)
    requires answers.Keys <= CatalogIds()
    ensures 0 <= CompletionPercentage(|answers.Keys|, QuestionCount) <= 100
    ensures CompletionPercentage(|answers.Keys|, QuestionCount) == 100 <==> |answers.Keys| == QuestionCount
  {
    CatalogIdCount();
    SubsetCardinality(answers.Keys, CatalogIds());
    var a := |answers.Keys|;
    var x := a as real / 18.0 * 100.0;
    assert x == (a * 100) as real / 18.0;
    if a < 18 {
      assert x <= 1700.0 / 18.0;
    }
  }
}
