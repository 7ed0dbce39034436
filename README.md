# Burnout self-assessment: a Dafny model

This project models the core of a web questionnaire that estimates workplace burnout
with a Maslach-style instrument. The instrument has eighteen Likert questions in three
dimensions: Emotional Exhaustion (7), Disengagement (6) and Professional Efficacy (5).
The model covers:

- the question catalog and demographic option lists (`src/data/questions.js`);
- the shared constants: the Likert scale, the four burnout tiers, the thresholds, the labels
  and the configuration (`src/const/const.js`);
- the scoring and the tier classification (`src/utils/scoring.js`);
- the spreadsheet export: the record, the headers, the row, the payload and the completeness
  check (`src/utils/googleSheetsData.js`);
- the result page's helpers and its once-only submission latch
  (`src/components/assessment/ResultPage.jsx`);
- the six-step demographic form (`src/components/assessment/DemographicPage.jsx`);
- the page flow of the assessment (`src/components/assessment/AssessmentApp.jsx`);
- the older single-path flow (`src/App.js`).

Modules follow the source files:

| module | file | content |
|---|---|---|
| `Wrappers` | — | `Option` |
| `Text` | — | JavaScript's `trim() === ''` blankness test |
| `Catalog` | `catalog.dfy` | the questions, ids, codes, categories and option lists |
| `Constants` | `constants.dfy` | the Likert options, tier records, thresholds and labels |
| `Scoring` | `scoring.dfy` | the category means, rounding to hundredths, and classification |
| `ExportData` | `exportdata.dfy` | the export record, headers, row, payload and completion validation |
| `Results` | `results.dfy` | the answer labels, grouping by category, interpretation bands and the submission latch |
| `DemographicPage` | `demographic.dfy` | the form's state machine, and a `DemographicForm` class |
| `AssessmentFlow` | `assessment.dfy` | the page flow as pure transitions, and an `AssessmentApp` class |
| `LegacyApp` | `legacyapp.dfy` | the older flow, and an `App` class |

How the code is written:

- The pure JavaScript modules become functions and lemmas.
- The three loops in the source become methods with `while`/`for` loops, each proved equal
  to a specification function: `FormatDataForGoogleSheets`, `ValidateAssessmentCompletion`
  and `QuestionsByCategory`.
- Each React component that holds state becomes a class whose fields are its state and whose
  handler methods update those fields. Every handler's `ensures` ties the new state to a
  pure transition function of the old state. The lemmas about multi-step runs, invariants and
  round trips are stated over those functions.

Numbers are exact:

- Answers are integers.
- A score is an exact `real` mean.
- `Number(x.toFixed(2))` is the nearest hundredth, with a tie rounding away from zero.
- `Math.round` is `floor(x + 0.5)`.

## Model

| member | source | states |
|---|---|---|
| `Text.HasContent` | src/utils/googleSheetsData.js:98-100 | a value that passes `value && value.trim() !== ''` is a non-empty string |
| `Catalog.IdsAreIndexPlusOne` | src/data/questions.js:3-27 | the catalog has 18 entries and entry i has id i+1, which is why the flows key answers by `index + 1` |
| `Catalog.IdsUnique` | src/data/questions.js:3-27 | ids are pairwise distinct |
| `Catalog.CatalogIdsRange` | src/data/questions.js:3-27 | the set of catalog ids is exactly 1..18, the question numbers the flows produce |
| `Catalog.CategoryByIndex` | src/data/questions.js:5-26 | indices 0-6 are Emotional Exhaustion, 7-12 Disengagement and 13-17 Professional Efficacy |
| `Catalog.CategoryBlocks` | src/data/questions.js:5-26 | the categories form contiguous blocks of 7/6/5 in the order Exhaustion, Disengagement, Efficacy, and the block sizes add up to the catalog |
| `Catalog.CodesArePrefixAndRunningNumber` | src/data/questions.js:5-26 | each export code is its category's prefix (EE/DE/PE) followed by the question's running number within the block |
| `Catalog.ExhaustionCodes` | src/data/questions.js:5-11 | the Emotional Exhaustion codes are EE1..EE7 in order |
| `Catalog.DisengagementCodes` | src/data/questions.js:14-19 | the Disengagement codes are DE1..DE6 in order |
| `Catalog.EfficacyCodes` | src/data/questions.js:22-26 | the Professional Efficacy codes are PE1..PE5 in order |
| `Catalog.CodesUnique` | src/data/questions.js:5-26 | no two questions share a code, so a code identifies its question |
| `Catalog.CodeShape` | src/data/questions.js:5-26 | every code has three characters |
| `Catalog.OptionValuesDistinct` | src/data/questions.js:30-91 | each demographic option list is non-empty, and its values are non-empty and pairwise distinct |
| `Catalog.AgeRangeValuesDistinct` | src/data/questions.js:30-37 | the age-range values are non-empty and pairwise distinct |
| `Catalog.GenderValuesDistinct` | src/data/questions.js:39-42 | the gender values are non-empty and pairwise distinct |
| `Catalog.JobRoleValuesDistinct` | src/data/questions.js:44-64 | the job-role values are non-empty and pairwise distinct |
| `Catalog.YearsExperienceValuesDistinct` | src/data/questions.js:66-74 | the years-of-experience values are non-empty and pairwise distinct |
| `Catalog.WorkHoursValuesDistinct` | src/data/questions.js:76-83 | the work-hours values are non-empty and pairwise distinct |
| `Catalog.FamilyStatusValuesDistinct` | src/data/questions.js:85-91 | the family-status values are non-empty and pairwise distinct |
| `Constants.LikertScaleShape` | src/const/const.js:17-23 | the scale is exactly the values 1..5 in increasing order, with pairwise distinct labels |
| `Constants.FourDistinctLevels` | src/const/const.js:91-124 | there are exactly four tiers, listed once each, with pairwise distinct `level` labels |
| `Constants.LevelLabelsDistinct` | src/const/const.js:91-124 | different tiers carry different `level` labels |
| `Constants.ExtremeThresholdsStricter` | src/const/const.js:127-143 | on every dimension the Extreme thresholds are at least as strict as the Burnout ones |
| `Constants.NoBurnoutThresholdsBelow` | src/const/const.js:127-143 | the No-Burnout exhaustion and disengagement maxima lie below the Burnout and Extreme minima |
| `Constants.ConfigMatchesCatalog` | src/const/const.js:165-169 | the configured total is the catalog's length, the maximum score is the top Likert value, and there are 2 decimals |
| `Scoring.CategoryAnswers` | src/utils/scoring.js:11-14 | the category's list of values is no longer than the catalog, and every value is a recorded answer |
| `Scoring.Mean` | src/utils/scoring.js:16-18 | a non-empty list's mean times its length is its sum; an empty list gives 0 |
| `Scoring.ExhaustionScore` | src/utils/scoring.js:10-19 | `calculateExhaustionScore` is the exact mean of the answered Emotional Exhaustion questions |
| `Scoring.DisengagementScore` | src/utils/scoring.js:27-36 | `calculateDisengagementScore` is the exact mean of the answered Disengagement questions |
| `Scoring.EfficacyScore` | src/utils/scoring.js:44-53 | `calculateProfessionalEfficacyScore` is the exact mean of the answered Professional Efficacy questions |
| `Scoring.NoAnswersMeansZero` | src/utils/scoring.js:16-18 | with no answered question in the category, the list is empty and the score is the 0 sentinel |
| `Scoring.AnsweredMeansNonEmpty` | src/utils/scoring.js:12-14 | one answered question of the category makes its list non-empty |
| `Scoring.AnswersWithin` | src/utils/scoring.js:12-14 | bounds on the category's recorded answers carry over to its list of values |
| `Scoring.CategoryMeanInLikertRange` | src/utils/scoring.js:10-19 | over Likert answers with at least one in the category answered, the score lies in [1, 5] |
| `Scoring.CategoryMeanOfConstant` | src/utils/scoring.js:10-19 | if every answered question of the category has value v, and one is answered, the score is v |
| `Scoring.ZeroIffNoneAnswered` | src/utils/scoring.js:16-18 | over Likert answers the score is 0 exactly when no question of the category is answered |
| `Scoring.OnlyOwnCategoryCounts` | src/utils/scoring.js:11 | two answer maps that agree on the category's questions give the same list and the same score |
| `Scoring.AnswerElsewhereIgnored` | src/utils/scoring.js:11 | recording an answer under an id outside the category leaves its score unchanged |
| `Scoring.RoundHundredth` | src/utils/scoring.js:61-67 | `toFixed(2)` gives a whole number of hundredths within half a hundredth of the value |
| `Scoring.RoundHundredthOfHundredth` | src/utils/scoring.js:61-67 | a value that already is a hundredth is left unchanged |
| `Scoring.RoundHundredthMonotone` | src/utils/scoring.js:61-67 | rounding never reverses the order of two values |
| `Scoring.RoundHundredthKeepsLikertRange` | src/utils/scoring.js:61-67 | a value in [1, 5] rounds into [1, 5], and 0 rounds to 0 |
| `Scoring.CalculateBurnoutScores` | src/utils/scoring.js:61-67 | each of the three reported scores is a hundredth within 0.005 of its category's exact mean |
| `Scoring.DetermineBurnoutLevel` | src/utils/scoring.js:76-100 | No Burnout iff e<2.5, d<2.5 and p>=3.5; Extreme iff e>4, d>4 and p<2; Burnout iff in the Burnout region and not in Extreme; Moderate iff in neither the No-Burnout nor the Burnout region |
| `Scoring.ExtremeInsideBurnout` | src/utils/scoring.js:76-100 | the Extreme region lies inside the Burnout region, so Extreme must be tested first, and 4.5/4.5/1.5 lies in both |
| `Scoring.NoBurnoutDisjoint` | src/utils/scoring.js:76-100 | the No-Burnout region meets neither the Burnout region nor the Extreme region |
| `Scoring.ClassificationExamples` | src/utils/scoring.js:76-100 | 1/1/5 gives No Burnout, 4.5/4.5/1.5 Extreme, 3.8/3.8/2.0 Burnout, and 3/3/3 and 4.2/2/1 Moderate |
| `Scoring.GetCompleteBurnoutAssessment` | src/utils/scoring.js:108-120 | the assessment reports the rounded scores and classifies those same rounded scores |
| `Scoring.RoundingBeforeClassifyingMatters` | src/utils/scoring.js:108-120 | for arbitrary reals, classifying the raw 2.497 and the rounded 2.50 give different tiers |
| `Scoring.EmptyAnswersGiveModerate` | src/utils/scoring.js:108-120 | with nothing answered, the scores are 0/0/0 and the tier is Moderate |
| `Scoring.CompleteAnswersScoresInRange` | src/utils/scoring.js:61-67 | with every catalog question answered on the Likert scale, all three rounded scores lie in [1, 5] |
| `Scoring.RoundPreservesComparison` | src/utils/scoring.js:61-67 | a value that equals a hundredth t, or is at least 0.01 away from it, compares with t the same way after rounding |
| `Scoring.MeanAwayFromHalfStep` | src/utils/scoring.js:16-18 | the mean of at most seven integers is either exactly a multiple of one half or at least 0.01 away from it |
| `Scoring.CategoryAnswersAppend` | src/utils/scoring.js:11-14 | the list of a concatenated catalog is the concatenation of the lists |
| `Scoring.CategoryAnswersWithinBlock` | src/utils/scoring.js:11-14 | when the category's questions all sit in a block of k positions, its list has at most k values |
| `Scoring.CatalogCategoryAnswersAtMostSeven` | src/data/questions.js:5-26 | on the shipped catalog each category contributes at most its block size, and at most seven values |
| `Scoring.CatalogScoreComparesAsRaw` | src/utils/scoring.js:76-100 | on the shipped catalog every threshold comparison gives the same answer on the rounded score as on the raw mean |
| `Scoring.CatalogRoundingKeepsLevel` | src/utils/scoring.js:108-120 | on the shipped catalog, classifying the rounded scores gives the same tier as classifying the raw means |
| `ExportData.HeadersLayout` | src/utils/googleSheetsData.js:45-60 | there are 24 headers: the six renamed demographic fields, then the catalog's codes in catalog order |
| `ExportData.HeadersDistinct` | src/utils/googleSheetsData.js:45-60 | no header occurs twice |
| `ExportData.ExportRecordAt` | src/utils/googleSheetsData.js:11-39 | the export record has exactly the 24 headers as its keys, and header j holds column j's value |
| `ExportData.InitialRecordIsExportOfNoAnswers` | src/utils/googleSheetsData.js:13-26 | the starting record is the export of no answers: demographic cells, then null for every question |
| `ExportData.InitialRecordAt` | src/utils/googleSheetsData.js:13-26 | the starting record has the 24 headers as its keys, with the demographic cells and null for each code |
| `ExportData.FormatDataForGoogleSheets` | src/utils/googleSheetsData.js:11-39 | the loop builds exactly the export record: every header, demographic values or null, and the answer or null under each code |
| `ExportData.ConvertToArrayFormat` | src/utils/googleSheetsData.js:67-70 | the row has one cell per header, holding the record's value for that header or `undefined` when it is missing |
| `ExportData.RowOfExportRecord` | src/utils/googleSheetsData.js:67-70 | the row of an export record is its 24 column values in header order, with no `undefined` |
| `ExportData.CellsRoundTrip` | src/utils/googleSheetsData.js:15-35 | a question's cell is null exactly when it is unanswered and otherwise carries the answer; a demographic cell is null exactly when the field is absent or empty and otherwise carries the value |
| `ExportData.DemographicFieldsProvided` | src/utils/googleSheetsData.js:98-100 | the count is at most the number of fields, and it is 0 exactly when every field is blank after trimming |
| `ExportData.CreateGoogleSheetsPayload` | src/utils/googleSheetsData.js:78-103 | the range is `Sheet1!A:Z`, the payload is a single ROWS row of the export, and the raw data carries the record, the headers, 18, the key count and the provided-field count |
| `ExportData.MathRound` | src/utils/googleSheetsData.js:129 | `Math.round` lands within one half of the value |
| `ExportData.ValidateAssessmentCompletion` | src/utils/googleSheetsData.js:110-132 | the total is 18; the answered count is the key count; complete iff the key count is 18; missing lists the non-truthy questions in catalog order; and the percentage is `Math.round(answered/total*100)` |
| `ExportData.MissingMembership` | src/utils/googleSheetsData.js:115-122 | a question is listed as missing exactly when it is in the list and its answer is not truthy |
| `ExportData.MissingInCatalogOrder` | src/utils/googleSheetsData.js:115-122 | over a list with increasing ids, the missing list's ids increase |
| `ExportData.IdSetSize` | src/data/questions.js:3-27 | a list of questions with distinct ids has as many ids as entries |
| `ExportData.CatalogIdCount` | src/data/questions.js:3-27 | there are as many catalog ids as catalog questions |
| `ExportData.FullCountMeansAllIds` | src/utils/googleSheetsData.js:111-112 | when every key is a catalog id, there are 18 keys exactly when all 18 ids are answered |
| `ExportData.CompleteIffNothingMissing` | src/utils/googleSheetsData.js:110-132 | when every key is a catalog id and every value is non-zero, the count-based verdict and the empty missing list agree |
| `ExportData.PercentageInRange` | src/utils/googleSheetsData.js:129 | when every key is a catalog id, the percentage lies in [0, 100], and it is 100 exactly when there are 18 keys |
| `Results.FindOption` | src/components/assessment/ResultPage.jsx:84 | `find` returns an option of the list that carries the value, and finds nothing only when no option carries it |
| `Results.LikertText` | src/components/assessment/ResultPage.jsx:83-86 | values 1..5 get their scale label, and anything else, including no answer, gets "No Answer" |
| `Results.LikertTextIdentifiesValue` | src/components/assessment/ResultPage.jsx:83-86 | a recorded Likert answer is never shown as "No Answer", and different answers get different labels |
| `Results.QuestionsByCategory` | src/components/assessment/ResultPage.jsx:89-102 | the loop builds exactly the grouping: the categories in first-occurrence order, each listing its questions in input order with their answers and labels |
| `Results.GroupedSnoc` | src/components/assessment/ResultPage.jsx:91-99 | appending a question changes the grouping exactly as one pass of the loop body does |
| `Results.GroupedSnocSeen` | src/components/assessment/ResultPage.jsx:95-99 | a question of a category already keyed extends that category's list and changes nothing else |
| `Results.GroupedSnocNew` | src/components/assessment/ResultPage.jsx:92-99 | a question of a new category appends that key to the order and opens its list with the question's entry |
| `Results.GroupedListsSnoc` | src/components/assessment/ResultPage.jsx:91-99 | after appending a question the keys gain its category, and each list is the old list plus the entry under its own category only |
| `Results.CategoriesInOrderSnoc` | src/components/assessment/ResultPage.jsx:92-94 | appending adds the category at the end of the key order unless it is already there |
| `Results.EntriesOfSnoc` | src/components/assessment/ResultPage.jsx:95-99 | appending pushes the question's entry onto its own category's list and no other |
| `Results.EntriesOfUnseen` | src/components/assessment/ResultPage.jsx:92-99 | a category missing from the key order collects no entries |
| `Results.CategoriesMembership` | src/components/assessment/ResultPage.jsx:92-94 | a category is a key exactly when some question has it, and no key occurs twice |
| `Results.EntriesOfAbsent` | src/components/assessment/ResultPage.jsx:92-99 | a category no question has collects no entries |
| `Results.EntriesOfMembership` | src/components/assessment/ResultPage.jsx:95-99 | a question's entry is in category c's list exactly when the question is in the input and has category c |
| `Results.EntriesOfKeepOrder` | src/components/assessment/ResultPage.jsx:95-99 | within a list, the ids increase when they increase in the input |
| `Results.EntriesCarryAnswers` | src/components/assessment/ResultPage.jsx:95-99 | each entry carries its question's recorded answer and that answer's label |
| `Results.CatalogGroupOrder` | src/components/assessment/ResultPage.jsx:89-102 | on the shipped catalog the keys are Emotional Exhaustion, Disengagement, Professional Efficacy, in that order |
| `Results.CatalogPrefixOrder` | src/components/assessment/ResultPage.jsx:89-102 | the categories of any non-empty catalog prefix come in the block order |
| `Results.ScoreInterpretation` | src/components/assessment/ResultPage.jsx:105-117 | Professional Efficacy reads High/Moderate/Low at >=4 / >=3 / below; the other dimensions read High/Moderate/Low Risk at the same cut-offs |
| `Results.InterpretationBands` | src/components/assessment/ResultPage.jsx:105-117 | only Professional Efficacy gets the plain labels, and the band is 2 at >=4, 1 at >=3 and 0 below, for every category |
| `Results.InterpretationMonotone` | src/components/assessment/ResultPage.jsx:105-117 | a higher score never gets a lower band |
| `Results.ReviewShownIffFieldsProvided` | src/components/assessment/ResultPage.jsx:252 | the demographic review is shown exactly when the exported provided-field count is positive |
| `Results.EffectRunSpec` | src/components/assessment/ResultPage.jsx:21-73 | a run keeps the latch invariant; it is attempted only with answers and a clear flag; an incomplete assessment or a failed send clears the flag; only a successful send sets it and sends the payload |
| `Results.AtMostOneSuccess` | src/components/assessment/ResultPage.jsx:18-73 | however often the effect runs on one mount, at most one send succeeds |
| `Results.RetryAfterFailure` | src/components/assessment/ResultPage.jsx:60-65 | after a failed send, a later run on a complete assessment sends again |
| `Results.SubmissionLatch.constructor` | src/components/assessment/ResultPage.jsx:18 | the flag starts clear, with no successful send |
| `Results.SubmissionLatch.SaveAssessmentData` | src/components/assessment/ResultPage.jsx:22-66 | a set flag is a duplicate and changes nothing; otherwise it sets the flag, validates, and sends once when complete; an incomplete assessment or a failed send clears the flag |
| `Results.SubmissionLatch.RunEffect` | src/components/assessment/ResultPage.jsx:69-72 | the effect's state and outcome are those of one `EffectRun` |
| `DemographicPage.Initial` | src/components/assessment/DemographicPage.jsx:13-22 | the mounted record holds all six fields, each the initial value or "" |
| `DemographicPage.SelectionUpdatesOnlyField` | src/components/assessment/DemographicPage.jsx:28-31 | a selection writes the chosen field, changes no other field, and keeps the mount-time data |
| `DemographicPage.SelectionAdvances` | src/components/assessment/DemographicPage.jsx:43-54 | below sub-step 5, selecting the sub-step's own field advances exactly one step and any other field stays; neither notifies the parent |
| `DemographicPage.FamilyStatusCompletes` | src/components/assessment/DemographicPage.jsx:55-61 | at sub-step 5 the family-status selection completes with the full record, including the new value; any other selection stays |
| `DemographicPage.StepBackSpec` | src/components/assessment/DemographicPage.jsx:68-74 | step-back goes down one sub-step, and exits to the parent, unchanged, only from sub-step 0 |
| `DemographicPage.StepNextSpec` | src/components/assessment/DemographicPage.jsx:76-82 | step-next advances one step below 5, does nothing at 5, and a step-back undoes it |
| `DemographicPage.TransitionsKeepValid` | src/components/assessment/DemographicPage.jsx:27-82 | every handler keeps the sub-step in 0..5 and the record full |
| `DemographicPage.InitialValid` | src/components/assessment/DemographicPage.jsx:13-22 | a page mounted at a sub-step in 0..5 is valid |
| `DemographicPage.ExistingAnswerSpec` | src/components/assessment/DemographicPage.jsx:85-96 | `hasExistingAnswer` never holds at sub-step 5; below it, it holds exactly when the field's mount-time value is non-empty and unchanged; the Next button shows exactly then |
| `DemographicPage.ReturnVisitOffersNext` | src/components/assessment/DemographicPage.jsx:362 | remounted with the earlier record, a sub-step whose answer is non-empty offers the Next button |
| `DemographicPage.FillInInOrder` | src/components/assessment/DemographicPage.jsx:27-62 | six selections in order from an empty mount pass sub-steps 1..5 and complete with exactly those six answers |
| `DemographicPage.DemographicForm.constructor` | src/components/assessment/DemographicPage.jsx:13-25 | the fields are the mounted state |
| `DemographicPage.DemographicForm.HandleSelection` | src/components/assessment/DemographicPage.jsx:27-62 | the new state and the event are those of `Selection` |
| `DemographicPage.DemographicForm.HandleStepBack` | src/components/assessment/DemographicPage.jsx:68-74 | the new state and the event are those of `StepBack` |
| `DemographicPage.DemographicForm.HandleStepNext` | src/components/assessment/DemographicPage.jsx:76-82 | the new state is that of `StepNext` |
| `AssessmentFlow.NextSpec` | src/components/assessment/AssessmentApp.jsx:59-75 | an answer is recorded under index+1 and touches no other key; before the last question it advances one, and at the last it shows the result and counts once per session |
| `AssessmentFlow.BackSpec` | src/components/assessment/AssessmentApp.jsx:78-89 | Back steps back one question; from the first it returns to the form's sub-step 5 on the demographic path, and otherwise to consent |
| `AssessmentFlow.DemographicChoicesSpec` | src/components/assessment/AssessmentApp.jsx:30-45 | skipping the form clears the flag, and finishing it stores the record, sets the flag and starts the questions |
| `AssessmentFlow.DemographicBackSpec` | src/components/assessment/AssessmentApp.jsx:48-56 | leaving the form backwards returns to the questions exactly when on the demographic path with sub-step 5, and otherwise goes to consent |
| `AssessmentFlow.BackUndoesNext` | src/components/assessment/AssessmentApp.jsx:59-89 | Back after an answer that advanced returns to the same question, with the answer kept |
| `AssessmentFlow.BackIntoFormAndOut` | src/components/assessment/AssessmentApp.jsx:48-89 | from the first question on the demographic path, Back and then backing out of the form returns to the questions |
| `AssessmentFlow.ApplyKeepsValid` | src/components/assessment/AssessmentApp.jsx:11-94 | every handler keeps the invariant (index in range, catalog keys, sub-step 0 or 5, counter equal to the stored count plus the latch) when the question number is in 1..18 |
| `AssessmentFlow.SelectOutOfRangeBreaksIndex` | src/components/assessment/AssessmentApp.jsx:92-94 | the handler has no range check: selecting question 0 leaves the index at -1 and breaks the invariant |
| `AssessmentFlow.RunKeepsValid` | src/components/assessment/AssessmentApp.jsx:59-75 | any run of handlers keeps the invariant, so the counter moves by at most one per session |
| `AssessmentFlow.LatchStopsCounter` | src/components/assessment/AssessmentApp.jsx:68-72 | once the latch is set, no run of handlers moves the counter or clears the latch |
| `AssessmentFlow.RunKeepsLatch` | src/components/assessment/AssessmentApp.jsx:68-72 | once the latch is set, no single handler moves the counter or clears the latch |
| `AssessmentFlow.DemographicStepNeverReset` | src/components/assessment/AssessmentApp.jsx:16 | once sub-step 5 is stored, no handler puts it back to 0 |
| `AssessmentFlow.AnswerAllReachesResult` | src/components/assessment/AssessmentApp.jsx:59-75 | answering in turn from the current question to the last records each answer under its number, keeps the others, and ends on the result page |
| `AssessmentFlow.FullPassIsComplete` | src/utils/googleSheetsData.js:110-132 | answering all 18 questions from the first shows the result page with exactly the 18 catalog ids as keys, so the validation's count test holds |
| `AssessmentFlow.ReturnVisitExitsToQuestions` | src/components/assessment/AssessmentApp.jsx:48-56 | after one Back into the form, and any handlers that never skip it, the form remounts at sub-step 5; five step-backs reach sub-step 0, the next one exits, and leaving the form then returns to the questions |
| `AssessmentFlow.AssessmentApp.constructor` | src/components/assessment/AssessmentApp.jsx:11-17 | the fields are the mounted state, and it is valid |
| `AssessmentFlow.AssessmentApp.HandleStart` | src/components/assessment/AssessmentApp.jsx:20-22 | the new state is that of `Start` |
| `AssessmentFlow.AssessmentApp.HandleSkipToDemographic` | src/components/assessment/AssessmentApp.jsx:25-27 | the new state is that of `SkipToDemographic` |
| `AssessmentFlow.AssessmentApp.HandleSkipToAssessment` | src/components/assessment/AssessmentApp.jsx:30-33 | the new state is that of `SkipToAssessment` |
| `AssessmentFlow.AssessmentApp.HandleConsentDecline` | src/components/assessment/AssessmentApp.jsx:36-38 | the new state is that of `ConsentDecline` |
| `AssessmentFlow.AssessmentApp.HandleDemographicNext` | src/components/assessment/AssessmentApp.jsx:41-45 | the new state is that of `DemographicNext` |
| `AssessmentFlow.AssessmentApp.HandleDemographicBack` | src/components/assessment/AssessmentApp.jsx:48-56 | the new state is that of `DemographicBack` |
| `AssessmentFlow.AssessmentApp.HandleNext` | src/components/assessment/AssessmentApp.jsx:59-75 | the new state is that of `Next`, with the counter increment included |
| `AssessmentFlow.AssessmentApp.HandleBack` | src/components/assessment/AssessmentApp.jsx:78-89 | the new state is that of `Back` |
| `AssessmentFlow.AssessmentApp.HandleQuestionSelect` | src/components/assessment/AssessmentApp.jsx:92-94 | the new state is that of `QuestionSelect` |
| `LegacyApp.StartSpec` | src/App.js:16-18 | Start goes straight to the questions and keeps the index and the answers |
| `LegacyApp.NextSpec` | src/App.js:21-30 | an answer is recorded under index+1 and touches no other key; it advances before the last question and shows the result at the last |
| `LegacyApp.BackSpec` | src/App.js:33-37 | Back at the first question does nothing, elsewhere it steps back one, and it undoes an answer's advance |
| `LegacyApp.HandlersKeepValid` | src/App.js:16-42 | Start, answering and Back keep the index in range and the keys in the catalog; selecting keeps this exactly for numbers 1..18 |
| `LegacyApp.InitialValid` | src/App.js:11-13 | the initial state is valid |
| `LegacyApp.AnswerAllReachesResult` | src/App.js:21-30 | answering in turn to the last question records each answer under its number, keeps the earlier answers, adds no other key, and ends on the result page |
| `LegacyApp.App.constructor` | src/App.js:11-13 | the fields are the initial state, and it is valid |
| `LegacyApp.App.HandleStart` | src/App.js:16-18 | the new state is that of `Start` |
| `LegacyApp.App.HandleNext` | src/App.js:21-30 | the new state is that of `Next` |
| `LegacyApp.App.HandleBack` | src/App.js:33-37 | the new state is that of `Back` |
| `LegacyApp.App.HandleQuestionSelect` | src/App.js:40-42 | the new state is that of `QuestionSelect` |

## Left out

- The network send (`src/services/googleAppsScript.js`) and its configuration check are not part of this model. Each run takes a `sendOk` parameter for whether both succeeded.
- `timestamp` and `userAgent` in the payload's `rawData` are left out, because they come from the clock and the browser.
- `window.location.reload` on the result page is left out; it only reloads the page.
- Authentication, the login page and the admin pages are not part of this model.
- The `localStorage` completion store (`src/utils/completionCounter.js`) is a counter field of the session. A failed storage read or write is not modelled.
- The 300 ms `setTimeout` delays in the demographic form are treated as immediate transitions.
- The async interleaving in `saveAssessmentData` is not modelled. A run is one atomic step, so a second effect run that overlaps a pending send is not represented.
- Rendering is left out: the JSX, the colour fields of the tier records and of the interpretations, the icons of the option lists, and the form's `errors` state, which only displays messages.
- Answers are integers. A `null`, string or fractional answer value is not modelled.
- Scores are exact reals rather than IEEE doubles. `toFixed(2)` is modelled on the exact value, so a binary rounding artefact near a half-hundredth is not captured.
- The question catalog is passed to the scoring and grouping functions as a parameter, as the source does. The catalog-specific lemmas take the shipped catalog.
- `ExportData.ValidateAssessmentCompletion`: each entry of `missingQuestions` is the whole question record. The source copies its `id`, `value` and `question`, which name the same record.
- `ExportData.InitialRecord` is built from the header list rather than written out as an object literal. `ExportData.InitialRecordAt` states that it has the same keys and values.
- `Results.SubmissionLatch.SaveAssessmentData` requires at least one answer. It is reached only through the effect's guard, which checks this, and `RunEffect` models the guard.
