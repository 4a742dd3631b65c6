# SEMS exam engine in Dafny

This project models the core of SEMS, an exam-management web application
with a TypeScript back end and a React front end. Supervisors author
multiple-choice exam templates, by hand or from spreadsheets. Students and
guests take them against a countdown. Managers read aggregate reports.

The model covers:

- **Attempt engine** (`exam.service`):
  - the scoring rule shared by student and guest submissions;
  - the reattempt policy and the eligibility pre-check;
  - the result store as a sequence of rows.
- **Authoring** (`exam.service` and `bulk-import-questions`):
  - `addQuestion` and `updateQuestion` with positional `sort_order`;
  - the spreadsheet-row mapping of both importers, and the script's per-file re-import.
- **Reports** (`report.service`):
  - the performance report, the per-subject statistics and the section ranking, as pure functions over joined result rows;
  - the spreadsheet projection.
- **Request layer**:
  - required-field validation, the role gate and error-to-status mapping;
  - the exam and guest controllers, with `is_correct` stripping;
  - student listing, pagination, creation, update and spreadsheet import (`student.service`);
  - registration, login and profile update (`auth.service`).
- **Front end**:
  - the question form of the supervisor's exam page;
  - the student's exam page and the guest page, modelled as event-driven state machines (answer map, submit guard, countdown auto-submit, `mm:ss` clock, pass threshold);
  - the grouping, lookup and average of the student dashboard.

All operations are pure functions over immutable datatypes, with three
exceptions: the scoring loop and the student spreadsheet import are
methods, and the question form keeps the page's mutable answer objects on
a small heap. Every property is stated in the `ensures` clauses of the
operations or in lemmas that relate several calls.

Module layout, one module per concern:

- `wrappers.dfy` (Wrappers): `Option`, `Result` / `Outcome`, `ApiError`
- `text.dfy` (Text): `trim`, `toUpperCase`, `toString`, `padStart`, `parseInt`
- `format.dfy` (Format): `toFixed(2)` and the reports' average rendering
- `domain.dfy` (Domain): stored entities: users, students, sections, subjects, exams, questions, answers, results
- `scoring.dfy` (Scoring): the scoring loop and the percentage
- `attempts.dfy` (Attempts): exam lookup, eligibility, student and guest submission
- `authoring.dfy` (Authoring): `addQuestion` / `updateQuestion`
- `sheet.dfy` (Sheet): spreadsheet rows, alias lookup, the correct-answer code
- `choice_columns.dfy` (ChoiceColumns): choice compaction and marking the correct option
- `question_import.dfy` (QuestionImport): `importQuestionsFromExcel` rows
- `bulk_import.dfy` (BulkImport): the bulk-import script
- `sorting.dfy, grouping.dfy` (Sorting, Grouping): ordering, filtering, `GROUP BY`, `AVG`, `COUNT DISTINCT`
- `reports.dfy` (Reports): `report.service`
- `middleware.dfy` (Middleware): `validate`, `roleGuard`, `errorHandler`
- `controllers.dfy` (Controllers): exam and guest controllers
- `directory.dfy` (Directory): the user / student / section store the account services share
- `auth.dfy` (Auth): `auth.service`
- `students.dfy, student_import.dfy` (Students, StudentImport): `student.service`
- `answer_sheet.dfy` (AnswerSheet): the pages' answer map and its submission
- `exam_taking.dfy` (ExamTaking): `ExamTakingPage`
- `guest_page.dfy` (GuestPage): `GuestPage`
- `display.dfy` (Display): `formatTime`, the pass threshold
- `question_form.dfy` (QuestionForm): the question form of `ExamsPage`
- `dashboard.dfy` (Dashboard): the student `Dashboard`

## Model

| member | source | states |
|---|---|---|
| Scoring.FindEntry | backend/src/services/exam.service.ts:183 | the index of the first submitted entry for the question; none exactly when no entry names it |
| Scoring.FirstCorrect | backend/src/services/exam.service.ts:184 | the index of the first option marked correct; none exactly when no option is |
| Scoring.CountEarned | backend/src/services/exam.service.ts:178-194 | the score never exceeds the number of template questions |
| Scoring.ScoreExam | backend/src/services/exam.service.ts:178-196 | the loop's score is the number of earning questions, `totalQuestions` is the template size, `0 <= score <= total`, and the percentage follows from them |
| Scoring.PercentageRange | backend/src/services/exam.service.ts:196 | the percentage lies in [0, 100]; it is exactly 0 for an empty template or a zero score, and 100 exactly when every question earned |
| Scoring.CountIsCardinality | backend/src/services/exam.service.ts:178-194 | the score is the number of question positions that earn a point |
| Scoring.FindEntryIsFirst | backend/src/services/exam.service.ts:183 | `find` returns the first matching entry, whichever that is |
| Scoring.ForeignEntriesInvisible | backend/src/services/exam.service.ts:181-193 | entries naming no template question never change whether a template question earns |
| Scoring.ForeignEntriesIgnored | backend/src/services/exam.service.ts:181-193 | inserting entries for foreign questions anywhere in a submission leaves the score unchanged |
| Scoring.CountPointwise | backend/src/services/exam.service.ts:181-193 | two submissions that earn the same questions score the same |
| Scoring.ScoreAtMostAnsweredKeyed | backend/src/services/exam.service.ts:186-190 | unanswered questions and questions without a correct option earn nothing: the score is at most the number of answered, keyed questions |
| Scoring.EmptySubmissionScoresZero | backend/src/services/exam.service.ts:178-194 | an empty submission scores 0 |
| Scoring.AllEarnedIsFull | backend/src/services/exam.service.ts:178-194 | when every question earns, the score is the number of questions |
| Scoring.AnswerKeyScoresFull | backend/src/services/exam.service.ts:178-196 | picking the correct option of every question, with distinct question ids, scores N out of N, which is 100 percent |
| Attempts.FindExam | backend/src/services/exam.service.ts:27-33 | the exam with that id, or 404 exactly when no exam has it |
| Attempts.FindStudentByUser | backend/src/services/exam.service.ts:137-139 | the profile linked to the user; none exactly when no profile is |
| Attempts.HasResultIffCounted | backend/src/services/exam.service.ts:142-146 | a prior result exists exactly when the per-student result count is positive |
| Attempts.CheckAttemptEligibility | backend/src/services/exam.service.ts:133-151 | 404 for an unknown exam; otherwise 403 exactly when reattempts are off, the user has a profile and a result exists for it; every success is `true` |
| Attempts.Graded | backend/src/services/exam.service.ts:178-205 | the row the submission builds and returns: the template's question count, the earned score, its exact percentage, the guest flag exactly for guest rows, and the start time defaulting to now |
| Attempts.StoredPercentage | backend/src/entities/Result.ts:22-23 | the `decimal(5,2)` column keeps a whole number of hundredths within half a hundredth of the value, and keeps a percentage in [0, 100] in that range |
| Attempts.StoredIdempotent | backend/src/entities/Result.ts:22-23 | storing a stored percentage again changes nothing |
| Attempts.Stored | backend/src/services/exam.service.ts:196-207 | the saved row equals the built row except that the column rounds its percentage |
| Attempts.SixthIsRounded | backend/src/services/exam.service.ts:196 | one of six earns 16.666… in the reply but 16.67 in the table, and the stored pair 0.00 and 16.67 averages to 834 hundredths where the exact values give 833 |
| Attempts.SubmitExam | backend/src/services/exam.service.ts:154-208 | 404, then 400 without a profile, then 403 exactly when reattempts are off and a result exists; success exactly in every other case, returning the `Graded` row and appending its stored form, with nothing else changed |
| Attempts.SubmitGuestExam | backend/src/services/exam.service.ts:210-248 | fails only for an unknown exam; otherwise returns the `Graded` guest row carrying the guest name and appends its stored form |
| Attempts.GuestScoresLikeStudent | backend/src/services/exam.service.ts:217-235 | guest and student scoring of the same exam and entries agree on score, total and percentage |
| Attempts.PrecheckAgreesWithSubmit | backend/src/services/exam.service.ts:133-176 | for a user with a profile, the pre-check refuses exactly when submission would be refused with 403 |
| Attempts.SubmitKeepsSingleAttempt | backend/src/services/exam.service.ts:168-176 | with unique exam ids, a student submission keeps every no-reattempt exam at no more than one result per student |
| Attempts.GuestSubmitKeepsSingleAttempt | backend/src/services/exam.service.ts:237-247 | a guest submission keeps that invariant: guest rows belong to no student |
| Attempts.SecondSubmissionRefused | backend/src/services/exam.service.ts:168-176 | after one successful submission of a no-reattempt exam, the same user's next submission is refused with 403 |
| Attempts.ReattemptAddsOneResult | backend/src/services/exam.service.ts:168-207 | with reattempts allowed, a student with a profile always succeeds and gains exactly one result for the exam |
| Attempts.GuestNeverRefused | backend/src/services/exam.service.ts:210-248 | guest submissions of an existing exam succeed however often they are repeated |
| Authoring.Positioned | backend/src/services/exam.service.ts:105-112 | each stored option keeps the submitted text and correctness and gets `sort_order` equal to its position |
| Authoring.PositionedRoundTrip | backend/src/services/exam.service.ts:105-112 | reading the stored options back in `sort_order` gives the submitted list |
| Authoring.AddQuestion | backend/src/services/exam.service.ts:93-121 | 404 exactly for an unknown exam; otherwise the question has the given text and exactly the submitted options in order, or none when `answers` is not an array |
| Authoring.FindQuestion | backend/src/services/exam.service.ts:253-256 | the found question has the id and belongs to the named exam; none when the exam has no such question |
| Authoring.UpdateQuestion | backend/src/services/exam.service.ts:250-286 | 404 exactly when the question is not in that exam; the text is replaced when given; the options are replaced as a whole, positioned, only when `answers` is an array and are kept otherwise |
| Authoring.ReplacementForgetsOldAnswers | backend/src/services/exam.service.ts:265-279 | after a replacement the stored options depend only on the submitted list, not on the options before |
| AnswerSheet.Choose | frontend/src/pages/student/ExamTakingPage.tsx:289 | the updated map keeps its keys strictly ascending and holds only the new choice and old choices |
| AnswerSheet.ChooseLookup | frontend/src/pages/student/ExamTakingPage.tsx:289 | after choosing, the question reads the new answer and every other question reads what it read before |
| AnswerSheet.ChooseKeys | frontend/src/pages/student/ExamTakingPage.tsx:289 | choosing adds the question to the keys, and adds an entry only when the question had no answer yet |
| AnswerSheet.LookupIffKey | frontend/src/pages/student/ExamTakingPage.tsx:329 | a question has an answer exactly when it is among `Object.keys(answers)` |
| AnswerSheet.KeyCount | frontend/src/pages/student/ExamTakingPage.tsx:329 | the map has as many keys as entries |
| AnswerSheet.Sent | frontend/src/pages/student/ExamTakingPage.tsx:47-50 | `parseInt` of the enumerated key gives back the question id, so each pair carries the choice unchanged |
| AnswerSheet.Submission | frontend/src/pages/student/ExamTakingPage.tsx:47-50 | one `{question_id, answer_id}` pair per map entry, in key order |
| AnswerSheet.SubmissionMatchesSheet | frontend/src/pages/student/ExamTakingPage.tsx:47-50 | the submitted list never repeats a question id, and the scoring loop's first-entry lookup finds exactly the answer the map holds for every question |
| AnswerSheet.SubmissionFinds | backend/src/services/exam.service.ts:183 | the first-entry lookup in the submitted list succeeds exactly for the answered questions and reads their answers |
| ExamTaking.Start | frontend/src/pages/student/ExamTakingPage.tsx:31-41 | a start sets the countdown to the duration in seconds and shows the questions, leaving answers, result and guard as they were |
| ExamTaking.Pick | frontend/src/pages/student/ExamTakingPage.tsx:289 | clicking an option keeps the map well formed and makes the question read that option |
| ExamTaking.Submit | frontend/src/pages/student/ExamTakingPage.tsx:43-54 | ignored while a submission is in flight; otherwise it raises the guard and sends the whole map |
| ExamTaking.InFlightSendsNothing | frontend/src/pages/student/ExamTakingPage.tsx:44-45 | while a submission is in flight neither the button nor the timer sends another |
| ExamTaking.RefusedCanRetry | frontend/src/pages/student/ExamTakingPage.tsx:57-59 | a failed submission lowers the guard, so the next submit sends the same map again |
| ExamTaking.CountdownRuns | frontend/src/pages/student/ExamTakingPage.tsx:76-84 | with time left each tick takes one second off and sends nothing |
| ExamTaking.TimeUpSubmits | frontend/src/pages/student/ExamTakingPage.tsx:78-80 | at no time left the next tick submits the map |
| ExamTaking.StartedAttemptSubmitsOnTime | frontend/src/pages/student/ExamTakingPage.tsx:76-84 | a `d`-minute attempt runs `d * 60` silent ticks and the next tick submits whatever was answered (see also the countdown set at line 36) |
| ExamTaking.DeliveredIsFinal | frontend/src/pages/student/ExamTakingPage.tsx:76-84 | once a result is delivered no click, tick or later choice sends anything (see also the result set at line 55) |
| ExamTaking.EventsKeepValid | frontend/src/pages/student/ExamTakingPage.tsx:31-84 | every event keeps the answer map well formed |
| ExamTaking.QuestionIdCount | frontend/src/pages/student/ExamTakingPage.tsx:329 | distinct question ids give as many ids as questions |
| ExamTaking.SubmitEnabledIffAllAnswered | frontend/src/pages/student/ExamTakingPage.tsx:334 | when answers are only picked among the page's questions, the button is enabled exactly when nothing is in flight and every question has an answer |
| GuestPage.StartCountdown | frontend/src/pages/guest/GuestPage.tsx:51 | the countdown is the duration in seconds, or 1800 when the duration is absent or zero; it is never 0 |
| GuestPage.EventsKeepCoherent | frontend/src/pages/guest/GuestPage.tsx:32-159 | every event the current phase offers keeps the phases coherent; a request is sent only from the exam phase with nothing in flight and carries the whole map and the guest name |
| GuestPage.FreshIsCoherent | frontend/src/pages/guest/GuestPage.tsx:14-20 | the initial page is coherent |
| GuestPage.StartNeedsNameAndExam | frontend/src/pages/guest/GuestPage.tsx:32-57 | the page changes on start only with a non-blank name, a selected exam and an accepted start; it then enters the exam phase with the countdown set and the answers kept |
| GuestPage.BackNeedsNewSelection | frontend/src/pages/guest/GuestPage.tsx:153-159 | after going back no start succeeds until an exam is selected again, no answer is kept and the timer sends nothing |
| GuestPage.ReplyReleasesGuard | frontend/src/pages/guest/GuestPage.tsx:83-90 | every reply lowers the guard; after a failure the next submit sends the same attempt again |
| GuestPage.GuestSubmitsOnTime | frontend/src/pages/guest/GuestPage.tsx:94-102 | a started `d`-minute attempt runs `d * 60` silent ticks and the next one submits the answers with the name (see also the countdown set at line 51) |
| GuestPage.CountdownRuns | frontend/src/pages/guest/GuestPage.tsx:94-102 | with time left each tick takes one second off and sends nothing |
| Display.JsRem | frontend/src/pages/student/ExamTakingPage.tsx:88 | JavaScript `%`: the remainder after truncating division, of the dividend's sign and below the divisor in size |
| Display.ClockRoundTrip | frontend/src/pages/student/ExamTakingPage.tsx:86-90 | a non-negative count renders as minutes, a colon and two digits of seconds below 60, and reads back as the count |
| Display.FormatTimeIsClock | frontend/src/pages/guest/GuestPage.tsx:104-107 | for a non-negative count the clock shows whole minutes and the remaining seconds |
| Display.ClockText | frontend/src/pages/student/ExamTakingPage.tsx:89 | minutes and seconds below 60, each padded, read back as the total seconds |
| Display.PaddedValue | frontend/src/pages/student/ExamTakingPage.tsx:89 | a padded count is all digits, at least two of them, and reads back as the count |
| Display.PassIffHalfEarned | frontend/src/pages/student/ExamTakingPage.tsx:93 | a graded attempt passes exactly when at least half of its questions earned; an attempt on an empty template never passes |
| Format.Hundredths | backend/src/services/report.service.ts:52 | the rounded count of hundredths is within half a hundredth of the magnitude (see also the same rendering at line 98) |
| Format.FixedDigitsReadBack | backend/src/services/report.service.ts:52 | the rendering is units, a dot and two digits that read back as the rounded hundredths (see also the same rendering at line 98) |
| Format.TwoDigits | frontend/src/pages/student/ExamTakingPage.tsx:89 | `padStart(2, '0')` of a number below 100 is two digits reading back as it |
| Format.ZeroFixed | backend/src/services/report.service.ts:97-99 | zero renders as `0.00` |
| Format.RenderAverage | backend/src/services/report.service.ts:97-99 | `0.00` for a missing average, the two-decimal rendering otherwise (see also the same rendering at lines 122-124) |
| Text.TrimStart | backend/src/services/auth.service.ts:75 | the suffix left after the leading white space, which it removes entirely |
| Text.TrimEnd | backend/src/services/auth.service.ts:75 | the prefix left before the trailing white space, which it removes entirely |
| Text.Trim | backend/src/services/auth.service.ts:75 | the result is the text with its leading and trailing white space removed: a slice with only white space before and after it, neither end white space, empty exactly when the text is all white space |
| Text.TrimFixed | backend/src/services/auth.service.ts:75 | a text with no white space at either end is its own trim, so trimming is idempotent |
| Text.ToUpper | backend/src/services/exam.service.ts:377 | the same length, every character upper-cased one by one |
| Text.NatToString | frontend/src/pages/student/ExamTakingPage.tsx:89 | shortest decimal digits without a leading zero, reading back as the number |
| Text.IntToString | frontend/src/pages/student/ExamTakingPage.tsx:89 | a minus sign before the digits of the magnitude exactly for negatives |
| Text.PadStart2 | frontend/src/pages/student/ExamTakingPage.tsx:89 | the text is left-padded with zeros to length two and kept as its own suffix |
| Text.RunLength | backend/src/services/exam.service.ts:384 | the longest prefix of digits: every character before it is a digit and the next one is not |
| Text.DigitIn | backend/src/services/exam.service.ts:384 | a digit's value is below the radix; in base 10 the digits are exactly `0` to `9` |
| Text.ParseIntOfDecimal | frontend/src/pages/student/ExamTakingPage.tsx:48 | `parseInt` reads back the decimal text of a number even when non-digit text follows it |
| Text.ParseUnsigned | backend/src/services/exam.service.ts:384 | text with no sign, white space or hex prefix in front reads as its leading run of decimal digits |
| Text.ParseIntRoundTrip | frontend/src/pages/student/ExamTakingPage.tsx:48 | `parseInt(String(n)) === n` |
| Sheet.CellString | backend/src/services/exam.service.ts:392 | a truthy cell never reads as the empty string |
| Sheet.PickIndex | backend/src/services/exam.service.ts:353-354 | the first alias holding a truthy cell; none exactly when every alias is absent or falsy |
| Sheet.Pick | backend/src/services/exam.service.ts:353-354 | the `||` chain yields a truthy cell, or nothing exactly when every alias is absent or falsy |
| Sheet.PickFirst | backend/src/services/exam.service.ts:353-354 | the chain stops at the first truthy alias |
| Sheet.PickString | backend/src/services/exam.service.ts:367-373 | `String(... || '')` is empty exactly when no alias holds a truthy cell |
| Sheet.OneCharCode | backend/src/services/exam.service.ts:377-381 | a one-character code without white space is read through the letter/digit table after upper-casing |
| Sheet.CorrectCodeLetters | backend/src/services/exam.service.ts:377-381 | `a`-`d` and `أ`, `ب`, `ج`, `د` name options 0-3 |
| Sheet.CorrectCodeTrimmed | backend/src/services/exam.service.ts:377 | white space around the code is ignored |
| Sheet.CorrectCodeUnknown | backend/src/services/exam.service.ts:374-386 | an empty or unknown code names option -1 |
| Sheet.NumericCodes | backend/src/services/exam.service.ts:378-386 | every written number `n` names option `n - 1`, through the table for 1-4 and `parseInt` beyond |
| Sheet.DigitTable | backend/src/services/exam.service.ts:378-385 | the table and `parseInt - 1` agree on the one-digit codes the table lists |
| Sorting.Insert | backend/src/services/report.service.ts:35 | inserting keeps the keys non-increasing, adds exactly the one element and puts it first or keeps the old head first |
| Sorting.SortDesc | backend/src/services/report.service.ts:35 | the sorted list is a permutation of the input with non-increasing keys (see also the orderings at lines 89 and 116) |
| Sorting.SameElements | backend/src/services/report.service.ts:35 | lists with the same elements have the same length and membership |
| Grouping.Filter | backend/src/services/report.service.ts:23-33 | every kept element passes the test, and no more elements are kept than given |
| Grouping.FilterCount | backend/src/services/report.service.ts:23-33 | each passing element is kept as often as it occurs, and no failing one is |
| Grouping.FilterIn | backend/src/services/report.service.ts:23-33 | an element is kept exactly when it occurs and passes |
| Grouping.FilterNarrower | backend/src/services/report.service.ts:23-33 | filtering by a wide test and then a narrower one is filtering by the narrower one |
| Grouping.FilterConcat | backend/src/services/report.service.ts:23-33 | filtering distributes over concatenation |
| Grouping.Keys | backend/src/services/report.service.ts:87 | the group keys are distinct and no more numerous than the rows (see also the grouping at line 114) |
| Grouping.KeysCover | backend/src/services/report.service.ts:87 | the keys are exactly the values the key takes on the rows (see also the grouping at line 114) |
| Grouping.Members | backend/src/services/report.service.ts:87 | every member of a group has the group's key (see also the grouping at line 114) |
| Grouping.MembersOfKey | backend/src/services/report.service.ts:87 | a key has members exactly when it is a key (see also the grouping at line 114) |
| Grouping.GroupsPartition | backend/src/services/report.service.ts:85-87 | every row lies in exactly one group: the group sizes add up to the number of rows |
| Grouping.MeanBounds | backend/src/services/report.service.ts:86 | a group's `AVG` lies within the bounds of what it averages (see also the average at line 111) |
| Grouping.TotalPermutation | backend/src/services/report.service.ts:86 | a sum does not depend on the order of its terms (see also the average at line 111) |
| Grouping.DistinctMultiplicity | backend/src/services/report.service.ts:112 | a list is duplicate-free exactly when no value occurs twice in it as a multiset |
| Grouping.DistinctPermutation | backend/src/services/report.service.ts:112 | reordering keeps a list duplicate-free |
| Reports.SelectedExactly | backend/src/services/report.service.ts:23-33 | every non-guest result that passes all given filters is selected as often as it is stored, and no other row is |
| Reports.UnfilteredIsNonGuests | backend/src/services/report.service.ts:23-33 | without filters the queries see exactly the non-guest results |
| Reports.SelectedIgnoresGuests | backend/src/services/report.service.ts:23 | the selection depends on the non-guest rows alone |
| Reports.GuestRowsVanish | backend/src/services/report.service.ts:23 | storing guest rows anywhere leaves the non-guest rows unchanged |
| Reports.ReportOrder | backend/src/services/report.service.ts:35 | the ordered rows are a permutation of the selected ones, newest first |
| Reports.ReportRows | backend/src/services/report.service.ts:40-62 | one flattened row per result, in order, carrying its completion time |
| Reports.PerformanceReports | backend/src/services/report.service.ts:13-63 | one row per selected result, newest first |
| Reports.PerformanceRowsAreMatches | backend/src/services/report.service.ts:13-63 | every report row is the row of a result that is not a guest's and passes every given filter |
| Reports.MatchesAreReported | backend/src/services/report.service.ts:13-63 | every such result has its row in the report |
| Reports.ReportCountsEachResultOnce | backend/src/services/report.service.ts:13-63 | each matching result is reported as often as it is stored |
| Reports.PercentageText | backend/src/services/report.service.ts:52 | the percentage column is the two-decimal rendering followed by `%` |
| Reports.ExcelRows | backend/src/services/report.service.ts:133-143 | the projection keeps the row count and, per row, exactly the nine Arabic-keyed fields |
| Reports.ExcelOfReport | backend/src/services/report.service.ts:131-143 | the exported sheet has one line per matching result, with that result's fields |
| Reports.ExcelNewestFirst | backend/src/services/report.service.ts:133-143 | the exported sheet keeps the newest-first order (see also the ordering at line 35) |
| Reports.OrderedSubjects | backend/src/services/report.service.ts:87-89 | the distinct subjects of the selection, each once, in non-increasing attempt count |
| Reports.OverallStats | backend/src/services/report.service.ts:65-101 | one row per subject among the non-guest results passing the section and subject filters, most attempted first |
| Reports.SubjectStats | backend/src/services/report.service.ts:93-100 | one row per subject, in the given order, carrying that subject's attempt count |
| Reports.OverallStatsRows | backend/src/services/report.service.ts:83-100 | each row names a subject of the section- and subject-filtered non-guest results and carries its attempt count and its rendered mean percentage |
| Reports.SubjectRowsNonEmpty | backend/src/services/report.service.ts:85-87 | every subject row has at least one attempt |
| Reports.OverallStatsOnePerSubject | backend/src/services/report.service.ts:87-88 | no subject gets two rows, and every subject of the section- and subject-filtered non-guest results gets one |
| Reports.AttemptsAddUp | backend/src/services/report.service.ts:85-87 | the attempt counts add up to the number of non-guest results passing the section and subject filters |
| Reports.OverallStatsIgnoresStudent | backend/src/services/report.service.ts:65-81 | only `section_id` and `subject_id` are read: queries differing in `student_id` alone get the same rows, computed from exactly the non-guest results passing those two filters |
| Reports.RankEntries | backend/src/services/report.service.ts:106-108 | one entry per non-guest result whose student has a section, in stored order |
| Reports.OrderedSections | backend/src/services/report.service.ts:114-116 | the distinct sections of the entries, each once, in non-increasing mean percentage |
| Reports.SectionRanking | backend/src/services/report.service.ts:103-128 | one row per section among the ranked results, best mean first |
| Reports.RankingRows | backend/src/services/report.service.ts:119-127 | one row per section, in the given order |
| Reports.SectionRankingRows | backend/src/services/report.service.ts:109-127 | each row carries its section's result count, its number of distinct students and its rendered mean percentage |
| Reports.SectionRankingDistinct | backend/src/services/report.service.ts:114-115 | no section gets two rows |
| Reports.StudentsWithinExams | backend/src/services/report.service.ts:112-113 | a section row counts between one and `total_exams` students |
| Reports.RankEntriesExactly | backend/src/services/report.service.ts:106-108 | the ranking reads exactly the non-guest results whose student has a section |
| Reports.RankedIgnoresGuests | backend/src/services/report.service.ts:108 | the ranking entries depend on the non-guest rows alone |
| Reports.GuestsNeverCount | backend/src/services/report.service.ts:23 | stores with the same non-guest rows give the same performance report, subject statistics, ranking and spreadsheet (see also the same exclusion at lines 74 and 108) |
| Dashboard.Push | frontend/src/pages/student/Dashboard.tsx:46-50 | one reduction step keeps the groups in ascending subject id and adds no key other than the exam's subject |
| Dashboard.PushGroupAt | frontend/src/pages/student/Dashboard.tsx:46-50 | a step changes only the exam's own group: it creates it with the exam when unset, and appends the exam otherwise |
| Dashboard.Reduce | frontend/src/pages/student/Dashboard.tsx:43-52 | the groups come in ascending subject id, the order `Object.values` enumerates them |
| Dashboard.ReduceGroups | frontend/src/pages/student/Dashboard.tsx:43-54 | the group of each subject is its first exam's subject with all its exams in list order, and none for a subject no exam has |
| Dashboard.FirstSubjectFound | frontend/src/pages/student/Dashboard.tsx:46-48 | a subject is found exactly when some exam has it, and then with that id |
| Dashboard.GroupAtOwnKey | frontend/src/pages/student/Dashboard.tsx:54 | in a key-ordered list every group is the one stored under its key |
| Dashboard.GroupsPartitionActive | frontend/src/pages/student/Dashboard.tsx:21-54 | the displayed groups partition the active exams that have a subject: each holds exactly its subject's active exams in order, none is empty, and a subject has a group exactly when one of its exams is active |
| Dashboard.OnlyActiveExamsShown | frontend/src/pages/student/Dashboard.tsx:21-46 | a displayed exam is active, has a subject and was listed |
| Dashboard.ResultForExam | frontend/src/pages/student/Dashboard.tsx:56-58 | the first result for the exam; none exactly when no result is |
| Dashboard.Round | frontend/src/pages/student/Dashboard.tsx:191 | `Math.round`: the nearest integer, halves up |
| Dashboard.StoredTextReadBack | backend/src/entities/Result.ts:23-24 | a stored `decimal(5,2)` percentage text reads back as its value |
| Dashboard.TwoDotsNotANumber | frontend/src/pages/student/Dashboard.tsx:192 | a text with two dots is not a number |
| Dashboard.SumIsConcatenation | frontend/src/pages/student/Dashboard.tsx:192 | as written, adding percentage texts to 0 concatenates `"0"` and the texts |
| Dashboard.AsWrittenAverageIsNaN | frontend/src/pages/student/Dashboard.tsx:190-195 | as written, two or more percentages in `decimal(5,2)` form average to `NaN` |
| Dashboard.AsWrittenStoredAverageIsNaN | frontend/src/pages/student/Dashboard.tsx:190-195 | any two stored results make the displayed average `NaN` |
| Dashboard.DashboardShowsNaN | frontend/src/pages/student/Dashboard.tsx:190-195 | results of 85% and 90% display `NaN` |
| Dashboard.AverageOfNumbers | frontend/src/pages/student/Dashboard.tsx:190-195 | when every percentage reads as a number, the corrected average is the rounded mean, 0 without results, and within [0, 100] when they are |
| Dashboard.RoundedMeanBounds | frontend/src/pages/student/Dashboard.tsx:191-194 | the rounded mean of values in [0, 100] is in [0, 100] |
| Dashboard.AverageOfTwo | frontend/src/pages/student/Dashboard.tsx:190-195 | the corrected average of two readings is their rounded mean |
| Dashboard.IntendedAverage | frontend/src/pages/student/Dashboard.tsx:190-195 | two results reading 85 and 90 average to 88 |
| ChoiceColumns.KeptColumns | backend/src/services/exam.service.ts:363-365 | the kept column numbers, strictly ascending, are exactly the columns whose option passes |
| ChoiceColumns.CompactReadsKeptColumns | backend/src/services/exam.service.ts:363-365 | position `i` of the filtered list holds the option of the `i`-th kept column |
| ChoiceColumns.MarkByPosition | backend/src/services/exam.service.ts:395-401 | each option keeps its text, gets `sort_order` equal to its position, and is correct exactly when its position is the code's index |
| ChoiceColumns.MarkByColumn | backend/src/services/exam.service.ts:395-401 | the corrected marking: each option is correct exactly when the column it came from is the one the code names |
| ChoiceColumns.MarkByPositionMarksOne | backend/src/services/exam.service.ts:399 | at most one option is correct, and exactly one when the index lies inside the filtered list |
| ChoiceColumns.MarkByColumnShape | backend/src/services/exam.service.ts:395-401 | the corrected marking keeps the filtered texts and positions and marks at most one option |
| ChoiceColumns.MarkByColumnMarksNamed | backend/src/services/exam.service.ts:374-381 | when the code names a kept column, exactly the option read from that column is correct; otherwise none is |
| ChoiceColumns.SecondDroppedCompacts | backend/src/services/exam.service.ts:363-365 | with only the second column dropped, the filtered list is columns A, C and D |
| ChoiceColumns.CompactionShiftsCorrectAnswer | backend/src/services/exam.service.ts:374-401 | with the second column dropped and code `C`, marking by position marks the option of column D and leaves column C's unmarked |
| ChoiceColumns.CorrectedMarksNamedOption | backend/src/services/exam.service.ts:374-401 | on the same columns marking by column marks the option of column C |
| ChoiceColumns.NoGapNoShift | backend/src/services/exam.service.ts:363-401 | when no column is dropped the two markings agree |
| ChoiceColumns.Collect | backend/src/services/exam.service.ts:350-388 | the mapped sheet has at most one item per row |
| ChoiceColumns.CollectConcat | backend/src/services/exam.service.ts:350 | rows are mapped independently and in order |
| ChoiceColumns.CollectKeeps | backend/src/services/exam.service.ts:350-388 | whatever every mapped row satisfies, every collected item satisfies |
| QuestionImport.RawChoices | backend/src/services/exam.service.ts:356-364 | the option list has the four columns A-D, in order |
| QuestionImport.RawChoiceAt | backend/src/services/exam.service.ts:356-364 | entry `i` of the list is the trimmed text of option column `i` |
| QuestionImport.DraftAsWrittenShape | backend/src/services/exam.service.ts:388-401 | a missing question or fewer than two surviving options skips the row; otherwise the surviving options are stored in order, and the one at position `ci` is marked |
| QuestionImport.DraftByColumnShape | backend/src/services/exam.service.ts:388-401 | the corrected draft skips the same rows, stores the same options in the same order and marks at most one of them |
| QuestionImport.ImportRowAsWrittenShape | backend/src/services/exam.service.ts:350-401 | as written, a row is skipped exactly without question text or with fewer than two non-empty, non-`'0'` options; otherwise the text and those options are stored, numbered from 0, and the option at the code's position is marked |
| QuestionImport.ImportRowShape | backend/src/services/exam.service.ts:350-401 | the corrected row mapping skips the same rows, stores the same question and options, and marks at most one option |
| QuestionImport.AsWrittenMarksAtMostOne | backend/src/services/exam.service.ts:395-401 | as written at most one option is correct, and exactly one when the code's index is inside the filtered list |
| QuestionImport.ImportRowAgreesOnContent | backend/src/services/exam.service.ts:388-401 | both mappings accept the same rows and store the same texts and positions; only the mark may differ |
| QuestionImport.ImportRowMarksNamedColumn | backend/src/services/exam.service.ts:374-401 | the corrected mapping marks exactly the option of the column the code names when it survived, and nothing otherwise |
| QuestionImport.RowWithSecondDropped | backend/src/services/exam.service.ts:363-401 | for a row whose second option is dropped and whose code is `C`, the mapping as written marks column D's option and the corrected one column C's |
| QuestionImport.AsWrittenShifts | backend/src/services/exam.service.ts:395-401 | as written, such a row has three options and the third, from column D, is marked |
| QuestionImport.CorrectedKeepsColumn | backend/src/services/exam.service.ts:395-401 | corrected, the second option, from column C, is marked |
| QuestionImport.ExampleRowShowsShift | backend/src/services/exam.service.ts:353-386 | the row `A=x, B='', C=y, D=z, correct=C` has that shape |
| QuestionImport.CodeCell | backend/src/services/exam.service.ts:367-381 | a one-letter code cell from the table is read through it |
| QuestionImport.ImportRows | backend/src/services/exam.service.ts:350-404 | the sheet as the source imports it, each row through the mapping as written: at most one question per row, each with at least two options and at most one marked correct |
| QuestionImport.ImportRowsByColumn | backend/src/services/exam.service.ts:350-404 | the corrected sheet, each row through the column-marking mapping, keeps the same bounds |
| QuestionImport.ImportQuestions | backend/src/services/exam.service.ts:341-407 | 404 exactly for an unknown exam; otherwise exactly the sheet as written (`ImportRows`): at most one question per row, each with two options or more and at most one correct |
| QuestionImport.ImportQuestionsByColumn | backend/src/services/exam.service.ts:341-407 | the same route over the corrected sheet: 404 exactly for an unknown exam, otherwise exactly `ImportRowsByColumn` of the rows, with the same bounds |
| QuestionImport.ImportRowsConcat | backend/src/services/exam.service.ts:350-404 | as written, importing `a + b` imports `a`, then `b` |
| QuestionImport.ImportRowsByColumnConcat | backend/src/services/exam.service.ts:350-404 | the corrected sheet imports `a + b` as `a`, then `b` too |
| QuestionImport.RowsAgreeWithoutGap | backend/src/services/exam.service.ts:356-399 | when all four option columns survive the filter, the mapping as written and the corrected one give the same question |
| QuestionImport.SheetsAgreeWithoutGap | backend/src/services/exam.service.ts:350-404 | when no row of the sheet drops an option column, the sheet as written and the corrected sheet store the same questions |
| QuestionImport.SheetsKeepSameRows | backend/src/services/exam.service.ts:350-404 | on every sheet both versions store as many questions, with the same question texts in the same order |
| BulkImport.ChoiceText | backend/scripts/bulk-import-questions.ts:94-117 | an option column reads as the empty text exactly when its cells are all missing or falsy |
| BulkImport.RawChoices | backend/scripts/bulk-import-questions.ts:94-117 | the option list has the four columns, in order |
| BulkImport.RawChoiceAt | backend/scripts/bulk-import-questions.ts:94-117 | entry `i` of the list is option column `i` |
| BulkImport.FirstColumnLeads | backend/scripts/bulk-import-questions.ts:130-144 | a truthy first column leads the filtered list |
| BulkImport.DraftAsWrittenShape | backend/scripts/bulk-import-questions.ts:130-160 | a missing question or first option skips the row; otherwise the truthy options are stored in order, the first column first, and the one at position `ci` is marked |
| BulkImport.DraftByColumnShape | backend/scripts/bulk-import-questions.ts:130-160 | the corrected draft skips the same rows, stores the same options and marks at most one |
| BulkImport.MapRowAsWrittenShape | backend/scripts/bulk-import-questions.ts:86-160 | as written, a row is skipped exactly without question text or first option; otherwise the truthy options are stored from 0 with the first column first and the option at the code's position is marked |
| BulkImport.MapRowShape | backend/scripts/bulk-import-questions.ts:86-160 | the corrected row mapping skips the same rows, stores the same question and options, and marks at most one |
| BulkImport.MapRowAgreesOnContent | backend/scripts/bulk-import-questions.ts:130-160 | both mappings accept the same rows and store the same texts; only the mark may differ |
| BulkImport.AsWrittenMarksAtMostOne | backend/scripts/bulk-import-questions.ts:154-160 | as written at most one option is correct, and exactly one when the index is inside the filtered list |
| BulkImport.MapRowMarksNamedColumn | backend/scripts/bulk-import-questions.ts:133-160 | the corrected mapping marks exactly the option of the named column when it is truthy, and nothing otherwise |
| BulkImport.RowWithSecondDropped | backend/scripts/bulk-import-questions.ts:133-160 | for a row without a second option and with code `C`, the script marks column D's option and the corrected mapping column C's |
| BulkImport.AsWrittenShifts | backend/scripts/bulk-import-questions.ts:144-160 | as written, the third stored option, from column D, is marked |
| BulkImport.CorrectedKeepsColumn | backend/scripts/bulk-import-questions.ts:144-160 | corrected, the second stored option, from column C, is marked |
| BulkImport.ExampleRowShowsShift | backend/scripts/bulk-import-questions.ts:88-142 | the row `A=x, C=y, D=z, correct=C` has that shape |
| BulkImport.CodeCell | backend/scripts/bulk-import-questions.ts:118-137 | a one-letter code cell from the table is read through it |
| BulkImport.MapRows | backend/scripts/bulk-import-questions.ts:86-164 | the sheet as the script imports it, each row through the mapping as written: at most one question per row, each with at least one option and at most one marked correct |
| BulkImport.MapRowsByColumn | backend/scripts/bulk-import-questions.ts:86-164 | the corrected sheet, each row through the column-marking mapping, keeps the same bounds |
| BulkImport.RowsAgreeWithoutGap | backend/scripts/bulk-import-questions.ts:94-160 | when all four option columns are truthy, the mapping as written and the corrected one give the same question |
| BulkImport.SheetsAgreeWithoutGap | backend/scripts/bulk-import-questions.ts:86-164 | when no row misses an option, the sheet as written and the corrected sheet store the same questions |
| BulkImport.SheetsKeepSameRows | backend/scripts/bulk-import-questions.ts:86-164 | on every sheet both versions store as many questions, with the same question texts in the same order |
| BulkImport.IndexFrom | backend/scripts/bulk-import-questions.ts:45 | the first occurrence of the pattern at or after the start, or none when there is none |
| BulkImport.RemoveFirst | backend/scripts/bulk-import-questions.ts:45 | `replace` with a string pattern removes its first occurrence only, or nothing |
| BulkImport.ExamNameOfWorkbook | backend/scripts/bulk-import-questions.ts:39-45 | `base.xlsx`, with no dot in `base`, is a workbook whose exam is named `base` |
| BulkImport.FindSubject | backend/scripts/bulk-import-questions.ts:29 | the first subject with that name; none exactly when there is none |
| BulkImport.EnsureSubject | backend/scripts/bulk-import-questions.ts:28-37 | an existing subject is kept; otherwise one named after the folder, described as its curriculum, is appended; either way the subject then exists |
| BulkImport.FindExam | backend/scripts/bulk-import-questions.ts:50-53 | the first exam with that name in that subject; none exactly when there is none |
| BulkImport.ImportFile | backend/scripts/bulk-import-questions.ts:43-164 | a new exam is appended with 30 minutes, active, holding the sheet's questions as the script maps them; an existing one has its questions replaced by them and nothing else changes |
| BulkImport.ImportFileInstallsSheet | backend/scripts/bulk-import-questions.ts:55-86 | after an import the file's exam exists and holds exactly the sheet's questions, whatever it held before |
| BulkImport.ImportFileIdempotent | backend/scripts/bulk-import-questions.ts:63-77 | re-importing the same file leaves the catalogue as one import does: questions are replaced, not appended |
| BulkImport.ImportFolderSkipsOthers | backend/scripts/bulk-import-questions.ts:39-41 | a file that is not a workbook changes nothing |
| BulkImport.ImportSubjectFolder | backend/scripts/bulk-import-questions.ts:22-43 | every folder import leaves the folder's subject in the catalogue |
| BulkImport.SubjectStays | backend/scripts/bulk-import-questions.ts:43-164 | importing files never removes a subject |
| Middleware.MissingFields | backend/src/middleware/validate.ts:10-20 | every reported field is missing, and no more fields are reported than the schema lists |
| Middleware.MissingFieldsExactly | backend/src/middleware/validate.ts:11-18 | a field is reported as often as the schema lists it when it is `undefined`, `null` or `''`, and never otherwise; without repetitions in the schema each field is reported at most once |
| Middleware.MissingFieldsInSchemaOrder | backend/src/middleware/validate.ts:11-18 | the report follows schema order: the report of `a + b` is that of `a`, then that of `b` |
| Middleware.Validate | backend/src/middleware/validate.ts:5-30 | without `schema.body` every request passes; otherwise a 400 listing the missing fields is raised exactly when one is missing |
| Middleware.SomeFieldMissing | backend/src/middleware/validate.ts:22 | the report is empty exactly when no required field is missing |
| Middleware.JoinSplit | backend/src/middleware/validate.ts:24 | the field list can be read back from the message when no field name contains a comma |
| Middleware.RoleGuard | backend/src/middleware/roleGuard.ts:4-17 | 401 exactly without a user or role, a pass exactly when the role's name is listed, 403 exactly when it is not |
| Middleware.EmptyRoleListDenies | backend/src/middleware/roleGuard.ts:10-14 | an empty role list turns every signed-in user away with 403 |
| Middleware.MoreRolesAdmitMore | backend/src/middleware/roleGuard.ts:10 | listing more roles never turns away a user who passed before |
| Middleware.HandleError | backend/src/middleware/errorHandler.ts:12-36 | an `ApiError` answers with its own status and message; otherwise `23505` gives 409, `23503` gives 400, and anything else 500 with the generic message |
| Middleware.ApiErrorWins | backend/src/middleware/errorHandler.ts:18-25 | an `ApiError` is answered the same whatever driver code it carries |
| Middleware.GuardsReachTheClient | backend/src/middleware/errorHandler.ts:18-20 | a failed validation reaches the client as 400, a failed role check as 401 or 403 |
| Controllers.QuestionOut | backend/src/controllers/exam.controller.ts:27-33 | a question's view has one view per option, in order |
| Controllers.QuestionsOut | backend/src/controllers/exam.controller.ts:26-34 | one view per question, in order |
| Controllers.ViewRoundTrip | backend/src/controllers/exam.controller.ts:25-35 | an unmasked view gives back the stored questions; a masked view has no correctness marks and keeps every id, text and `sort_order` |
| Controllers.GetExamById | backend/src/controllers/exam.controller.ts:21-38 | 404 exactly for an unknown exam; students get every mark removed, other callers the stored questions intact |
| Controllers.GetExamQuestions | backend/src/controllers/exam.controller.ts:11-14 | the stored questions, marks included, or 404 exactly for an unknown exam |
| Controllers.StartExam | backend/src/controllers/exam.controller.ts:80-112 | a student start fails exactly when the eligibility check does; other callers fail only for an unknown exam; the payload has id, name, duration and subject name plus the questions, masked for students |
| Controllers.StaffSkipEligibility | backend/src/controllers/exam.controller.ts:81-86 | staff can open an exam a student would be refused with 403 |
| Controllers.SubmitExam | backend/src/controllers/exam.controller.ts:114-121 | 201 with the stored result, or the service's error |
| Controllers.ActiveExams | backend/src/controllers/guest.controller.ts:6-10 | every listed exam is active |
| Controllers.ActiveExamsExactly | backend/src/controllers/guest.controller.ts:9 | the listing holds every active exam as often as it is stored, no inactive one, in the original order |
| Controllers.GuestStartExam | backend/src/controllers/guest.controller.ts:12-39 | 404 for an unknown exam, 403 for an inactive one; otherwise the four-field payload with every mark removed |
| Controllers.GuestSeesWhatStudentsSee | backend/src/controllers/guest.controller.ts:19-38 | the guest start payload is the one a student gets |
| Controllers.GuestSubmitExam | backend/src/controllers/guest.controller.ts:41-47 | 201 with the stored guest result, or the service's error |
| Controllers.GuestSubmitSkipsActiveCheck | backend/src/controllers/guest.controller.ts:41-47 | only starting checks `is_active`: a guest submission to an inactive exam is still stored (see also the `is_active` check at lines 15-17, which only the start handler makes) |
| Domain.WithoutPassword | backend/src/services/auth.service.ts:98 | the returned user keeps every field of the stored one except the password hash (see also the same destructuring at lines 68 and 131) |
| Directory.FindSection | backend/src/services/student.service.ts:74-77 | a found section is stored and has the id; none is found exactly when no stored section has it |
| Directory.FirstWith | backend/src/services/auth.service.ts:77-80 | the first row whose column holds the value; none exactly when no row does |
| Directory.PositionOf | backend/src/services/auth.service.ts:105-110 | the position of the first row with that id, used for users and student profiles alike; none exactly when no stored row has it |
| Directory.AppendUnique | backend/src/entities/User.ts:18-25 | appending a row whose value is not taken keeps a unique column unique |
| Directory.TakenGrows | backend/src/entities/User.ts:18-25 | a taken value stays taken when rows are added |
| Directory.TakenIffFound | backend/src/services/auth.service.ts:77-80 | a value is taken exactly when the lookup finds a row |
| Directory.NextUserId | backend/src/entities/User.ts:15-16 | a new user's id differs from every stored one |
| Directory.NextStudentId | backend/src/entities/Student.ts:18 | a new profile's id differs from every stored one |
| Directory.SaveAccount | backend/src/services/student.service.ts:86-107 | the user and profile inserts succeed together exactly when no unique user column repeats a value, the full name is present and the student number is free; a failure leaves both tables as they were and is a driver error `23505` or `23502` |
| Directory.SaveKeepsConsistent | backend/src/entities/User.ts:18-25 | a successful insert keeps national ids, usernames, e-mails and student numbers unique |
| Directory.SavedValuesTaken | backend/src/services/student.service.ts:97 | after the insert the new user's national id and username are taken |
| Auth.ConflictAt | backend/src/services/auth.service.ts:26-28 | true exactly when some stored user has the request's national id, e-mail or username |
| Auth.Register | backend/src/services/auth.service.ts:14-71 | 400 exactly when the national id, e-mail or username is taken; otherwise 400 when the student role is missing; a success adds one user with a `student` token and answers with it, hash removed |
| Auth.RoleNameIgnored | backend/src/services/auth.service.ts:36-39 | the requested role plays no part in registration |
| Auth.RegisteredAccount | backend/src/services/auth.service.ts:49-63 | the new user has the role `student`, the national id, the username sent or else the national id; its profile is linked to it and has the full name sent or else the username sent |
| Auth.Login | backend/src/services/auth.service.ts:73-100 | an unknown trimmed id gives 401; a session is issued only for a stored user holding that id, that password and a role, and carries that user without its hash and a token of its id and role |
| Auth.LoginWith | backend/src/services/auth.service.ts:77-99 | the same, once the id is trimmed |
| Auth.LoginSucceedsIffCredentialsHold | backend/src/services/auth.service.ts:86-93 | with unique national ids, sign-in succeeds exactly when the user with the id has the password and a role; every other failure is the same 401 |
| Auth.LoginWithCredentials | backend/src/services/auth.service.ts:86-93 | the same for an id already trimmed |
| Auth.LoginTrimsTheId | backend/src/services/auth.service.ts:75 | white space around the id makes no difference |
| Auth.RegisteredCanSignIn | backend/src/services/auth.service.ts:14-100 | a user who just registered signs in with the id and password sent and gets a `student` token for the new account |
| Auth.CreatedStudentSignsIn | backend/src/services/student.service.ts:94 | a student created without a password signs in with the national id and `123456` |
| Auth.ImportedStudentSignsIn | backend/src/services/student.service.ts:201-206 | an imported student signs in with the national id and the student number, or the national id when the row has none |
| Auth.UpdateProfile | backend/src/services/auth.service.ts:102-133 | 404 for an unknown user, 403 for a student; on success only that user changes: a truthy national id replaces the stored one, a non-blank password replaces the hash, and the answer is the saved user without its hash |
| Auth.TakenNationalIdRefused | backend/src/services/auth.service.ts:116-121 | a national id another user holds is refused with 400 |
| Auth.UpdateProfileKeepsConsistent | backend/src/services/auth.service.ts:116-130 | a profile change keeps every unique column unique |
| Students.CeilDiv | backend/src/services/student.service.ts:48 | `Math.ceil(a / b)`: the least integer not below the exact quotient |
| Students.CeilDivCovers | backend/src/services/student.service.ts:48 | that many pages of `limit` rows hold all rows, and one page fewer does not |
| Students.Paginate | backend/src/services/student.service.ts:42-50 | echoes the page and limit in force (1 and 20 by default) and the total; the page count is the exact ceiling of total over limit, and not a number when the limit is 0 |
| Students.Window | backend/src/services/student.service.ts:37-40 | at most `limit` rows, those from position `(page - 1) * limit` on, in order (see also the skip computed at line 18) |
| Students.WindowOfSorted | backend/src/services/student.service.ts:24-40 | a page holds only listed rows and keeps their order |
| Students.PagesArePrefix | backend/src/services/student.service.ts:37-40 | the first `n` pages together are the first `n * limit` rows (see also the skip computed at line 18) |
| Students.PagesListEveryRow | backend/src/services/student.service.ts:37-48 | reading pages 1 to `pages` lists every row exactly once, in order |
| Students.PagesBeyondLastAreEmpty | backend/src/services/student.service.ts:37-48 | pages past the counted last page are empty; the last one is not |
| Students.Ordered | backend/src/services/student.service.ts:20-35 | exactly the matching students, as often as stored, newest id first |
| Students.ListStudents | backend/src/services/student.service.ts:16-51 | the total counts every match, the page and limit are echoed, and the page holds at most `limit` students |
| Students.ListedStudentsMatch | backend/src/services/student.service.ts:24-35 | every listed student is stored and satisfies the search filter and, whenever `section_id` is non-empty, the section filter; the page is ordered by id, largest first |
| Students.UnmatchedSectionListsNobody | backend/src/services/student.service.ts:33-35 | a non-empty `section_id` that no student's section carries, `'0'` among them, still filters: the page is empty and the total is 0 |
| Students.EveryMatchOnOnePage | backend/src/services/student.service.ts:37-48 | walking pages 1 to `pages` lists each matching student exactly once |
| Students.SectionFor | backend/src/services/student.service.ts:72-78 | an error exactly when a truthy section id names no section; a truthy id otherwise gives that section, a falsy one none |
| Students.CreateStudent | backend/src/services/student.service.ts:62-108 | 400 exactly when a truthy section id names no section; otherwise 500 exactly when the student role is missing; a success appends one user and one profile and keeps every stored row |
| Students.CreatedAccount | backend/src/services/student.service.ts:88-104 | the new user holds role `student`, the national id, the student number or else the national id as username, the password or else `123456`, the e-mail or else `<national id>@sems.local`; its profile is linked to it and has the same student number |
| Students.CreateKeepsConsistent | backend/src/services/student.service.ts:86-107 | `create` keeps every unique column unique |
| Students.ChangedUser | backend/src/services/student.service.ts:123-129 | a truthy national id or e-mail replaces the stored one, a non-blank password the hash; id, username and role stay |
| Students.ChangedProfile | backend/src/services/student.service.ts:134-143 | a found section, a truthy full name or student number replaces the stored one; id and user stay |
| Students.SaveUser | backend/src/services/student.service.ts:123-131 | a saved user list keeps its length and every unique column unique; a refusal is a `23505` driver error |
| Students.UpdateStudent | backend/src/services/student.service.ts:110-147 | 404 exactly for an unknown student; a success keeps sections, roles and the number of users and profiles |
| Students.UnknownSectionRefused | backend/src/services/student.service.ts:134-138 | once the student is found and the user saved, a truthy section id naming no section gives 400 |
| Students.UpdateChangesOnlyThatStudent | backend/src/services/student.service.ts:121-146 | the updated profile and its user are the changed versions of the stored ones, and every other row is as it was |
| Students.NoChangesKeepsRegistry | backend/src/services/student.service.ts:123-145 | an empty change set leaves a consistent registry as it is |
| Students.UpdateIdempotent | backend/src/services/student.service.ts:110-147 | sending the same update twice stores what sending it once stores |
| Students.BlankPasswordKeepsHash | backend/src/services/student.service.ts:126-129 | a blank or absent password leaves the stored hash alone |
| StudentImport.LoginName | backend/src/services/student.service.ts:202-214 | the student number or else the national id, never empty |
| StudentImport.ImportRow | backend/src/services/student.service.ts:180-223 | an accepted row adds one to the count and no error; any other row records exactly one error and changes nothing else |
| StudentImport.RowErrorNamesTheCause | backend/src/services/student.service.ts:184-223 | an incomplete row records its contents, a held national id records that id, and a refused save records the full name with the cause |
| StudentImport.ImportRowExtends | backend/src/services/student.service.ts:199-220 | a row only ever adds accounts |
| StudentImport.ImportRows | backend/src/services/student.service.ts:180-224 | every row is either counted or recorded as one error |
| StudentImport.SheetSection | backend/src/services/student.service.ts:176-178 | a truthy id naming a section assigns it; an unknown id assigns none |
| StudentImport.ImportFromSheet | backend/src/services/student.service.ts:162-227 | 500 exactly when the student role is missing; otherwise successes and errors add up to the rows, and the report is the loop's outcome |
| StudentImport.ImportAppends | backend/src/services/student.service.ts:199-220 | rows only add accounts, one user for each imported row |
| StudentImport.ImportKeepsConsistent | backend/src/services/student.service.ts:189-220 | the import keeps every unique column unique, even when the sheet repeats a national id |
| StudentImport.RefusalPersists | backend/src/services/student.service.ts:184-197 | a refused row stays refused however many accounts are added |
| StudentImport.AcceptedThenRegistered | backend/src/services/student.service.ts:189-197 | an accepted row is refused afterwards: its national id is now held |
| StudentImport.ImportedSheetRefused | backend/src/services/student.service.ts:180-224 | after an import every row of the sheet is refused |
| StudentImport.RefusedRowsChangeNothing | backend/src/services/student.service.ts:180-224 | rows the registry refuses leave it as it is |
| StudentImport.ReimportAddsNothing | backend/src/services/student.service.ts:162-227 | importing the same sheet again adds no account and reports every row as an error |
| StudentImport.AcceptedRowCredentials | backend/src/services/student.service.ts:200-215 | an imported user holds the national id, role `student`, and the student number or else the national id as username and password; the profile is linked to it |
| QuestionForm.Mapped | frontend/src/pages/supervisor/ExamsPage.tsx:453-457 | no row without an answer list, one row per stored answer otherwise |
| QuestionForm.BuildRows | frontend/src/pages/supervisor/ExamsPage.tsx:36-45 | a built form shows exactly the given rows, each in its own object |
| QuestionForm.FreshFormBlank | frontend/src/pages/supervisor/ExamsPage.tsx:36-45 | a fresh form has four empty, incorrect rows and the browser refuses to save it as it is (see also the `required` text area at lines 651-658) |
| QuestionForm.TypeAnswerRows | frontend/src/pages/supervisor/ExamsPage.tsx:706-710 | typing changes the text of every row holding the same object and of no other row; marks stay |
| QuestionForm.TypeAnswerOnlyRow | frontend/src/pages/supervisor/ExamsPage.tsx:706-710 | with rows in separate objects, typing changes that row alone |
| QuestionForm.PickCorrectMarksOne | frontend/src/pages/supervisor/ExamsPage.tsx:686-691 | the radio marks its row correct and every other row incorrect, keeping texts, in separate objects |
| QuestionForm.SubmitSendsFilledRows | frontend/src/pages/supervisor/ExamsPage.tsx:117-154 | a request is sent exactly when the browser accepts, an exam is selected, two answers or more are not blank and one of them is correct; it carries the text, the order and exactly the non-blank rows, untrimmed, in order |
| QuestionForm.BlankCorrectIgnored | frontend/src/pages/supervisor/ExamsPage.tsx:121-134 | a correct mark on a blank row does not count |
| QuestionForm.FilterOneCorrect | frontend/src/pages/supervisor/ExamsPage.tsx:121-134 | when the only correct row is kept, the kept rows hold one correct answer |
| QuestionForm.FilterNoneCorrect | frontend/src/pages/supervisor/ExamsPage.tsx:121-134 | without a correct row no kept row is correct |
| QuestionForm.RadioThenSave | frontend/src/pages/supervisor/ExamsPage.tsx:686-691 | after clicking the radio of a non-blank row of a valid form, save sends exactly one correct answer, that row's (see also the save handler at lines 117-154) |
| QuestionForm.SaveSends | frontend/src/pages/supervisor/ExamsPage.tsx:117-154 | a form passing every check is sent with its kept rows |
| QuestionForm.CorrectKeptIsRow | frontend/src/pages/supervisor/ExamsPage.tsx:121-134 | the only correct row is the only correct kept row |
| QuestionForm.EditFormRows | frontend/src/pages/supervisor/ExamsPage.tsx:448-472 | the edit form shows the stored answers in order followed by blank rows up to four, none without an answer list; as written and corrected it reads the same |
| QuestionForm.PaddedRowsShareText | frontend/src/pages/supervisor/ExamsPage.tsx:459-472 | as written the padded rows share one object: typing into the first padded row writes into the next one too (see also the input handler at lines 706-710) |
| QuestionForm.FixedPaddingKeepsRowsApart | frontend/src/pages/supervisor/ExamsPage.tsx:459-472 | with one object per padded row, typing into a row changes that row alone (see also the input handler at lines 706-710) |
| QuestionForm.ShortQuestionEditBlocked | frontend/src/pages/supervisor/ExamsPage.tsx:459-472 | an edit of a question with fewer than four answers has empty rows the browser refuses (see also the `required` input at line 711) |
| QuestionForm.EditResubmitKeepsAnswers | frontend/src/pages/supervisor/ExamsPage.tsx:448-458 | saving an edit of four or more non-blank answers with one correct, unchanged, sends the stored answers back (see also the save handler at lines 117-154) |
| QuestionForm.SaveResets | frontend/src/pages/supervisor/ExamsPage.tsx:155-167 | a save returns the modal to four blank rows, an empty text and order 0 |

## Left out

- Database access, TypeORM query builders and transactions: each store is an immutable value. A transaction is a function that yields the new value or an error and leaves the old one otherwise.
- Database ids: new rows get one more than the largest stored id. The id-less drafts of `addQuestion`, `updateQuestion` and both importers carry no ids.
- The check-then-insert race between the eligibility check and `submitExam`: the model is sequential.
- `exam.service.ts` `getAll`, `create`, `update`, `delete`, `deleteQuestion`, `reportQuestion` and `getMyResults`: plain CRUD without decision logic. `getMyResults` enters the dashboard as its list of result rows.
- The `sort_order` sort in `getById` (exam.service.ts:36-41): question lists are taken in stored order, already sorted.
- `student.service.ts` `delete`: a plain removal.
- `generatePdfBuffer` (report.service.ts:151-244): puppeteer, ejs and file access.
- The locale rendering of dates in the report projections: completion times are natural numbers, written as they are.
- Spreadsheet reading and writing: a sheet is a list of rows, each mapping a header to a text or integer cell.
- bcrypt: a hash is the injective value `Hashed(plain)`, without salt. JWT: a token is the value `Token(userId, roleName)`, without signing, secret or expiry.
- Clocks: `new Date()` and the timestamps are natural-number parameters. `setInterval` is one `TimerTick` event per second, so timer drift, the re-render that restarts the interval, and the retry timing of an auto-submit after a failure are not modelled.
- Floating point: percentages and averages are exact reals. `toFixed(2)` rounds the exact value to the nearest hundredth, ties upward, and `Math.round` rounds half up. A binary-float value just below a tie can round down in JavaScript, and the model does not show that. The `decimal(5,2)` column's rounding of a saved percentage is modelled by `Attempts.StoredPercentage`. The report queries take the stored values as their input rows.
- Dashboard.DecimalNumber reads only unsigned decimal texts with an optional fraction. Signs, exponents, `Infinity` and hexadecimal are left out because a `decimal(5,2)` column never produces them.
- Text.Trim: `IsSpace` covers the ASCII white space, the no-break space and the byte-order mark only. The other Unicode space separators and the line and paragraph separators, which `String.prototype.trim` also removes, are left out.
- Text.ToUpper: only the ASCII letters are upper-cased. Every code the importers look up is ASCII or Arabic, and Arabic has no case.
- Text.ParseInt: a long run of digits is read exactly, while JavaScript rounds a value beyond 2^53 to the nearest double.
- The `ILIKE` search of `getAll`: matching is a parameter `contains(column, text)`, because SQL collation and `%` / `_` wildcards in the search text are database behaviour.
- Students.ListStudents: page and limit must be at least 1. With a page below 1 the source computes a negative `skip`, and with a negative limit a negative `take`; what the database then returns is not modelled. `Paginate` still covers every page and limit, including a limit of 0.
- Students.Wanted: the section condition compares the section's id with the number the `section_id` text names. Two things are not modelled. A non-numeric text makes the database's integer cast fail, which surfaces as a 500. The condition is written against `student.sectionId`, while the join column is `section_id` (backend/src/entities/Student.ts:41-42); whether TypeORM maps that name is database behaviour, so the model assumes it does.
- Students.Window: requires a page and a limit of at least 1, for the same reason.
- Attempts.SubmitExam: the body is not validated by the route, and the model takes its `answers` as a list of integer id pairs. A body without `answers` makes `answers.find` throw (backend/src/services/exam.service.ts:183) when the exam has questions, and the error handler (backend/src/middleware/errorHandler.ts:35) turns that into a 500. Ids sent as strings never match under `===`, so such answers score as unanswered. Neither case is modelled.
- Attempts.SubmitGuestExam: the same two cases at backend/src/services/exam.service.ts:222 are not modelled.
- TypeORM's reading of an `undefined` where-criterion in `register`: an absent e-mail or username matches no stored user.
- JSON serialisation: responses are datatypes. Error messages are the source's strings; the `JSON.stringify(row)` of a refused import row is the row value itself.
- React rendering, toasts, routing and navigation: each page is its state and the events its controls raise.
- The exam list and the per-exam results are the dashboard's inputs, so the `GET` requests behind them are not modelled.

## Findings

| source | as written | input that shows it | evidently intended | confidence | as-written member | corrected member |
|---|---|---|---|---|---|---|
| backend/src/services/exam.service.ts:374-401 | the correct-answer letter indexes the list of options left after empty and `'0'` options are dropped | a row with A=`x`, B empty, C=`y`, D=`z` and correct answer `C` stores `z` as the correct option | the option of the column the letter names, `y`, is correct | high, not executed | QuestionImport.ImportRowAsWritten, QuestionImport.ImportRows, QuestionImport.RowWithSecondDropped, QuestionImport.ExampleRowShowsShift, ChoiceColumns.CompactionShiftsCorrectAnswer | QuestionImport.ImportRow, QuestionImport.ImportRowsByColumn, QuestionImport.ImportRowMarksNamedColumn, QuestionImport.CorrectedKeepsColumn, ChoiceColumns.CorrectedMarksNamedOption |
| backend/scripts/bulk-import-questions.ts:133-160 | the same shift: the index refers to `[a1, a2, a3, a4].filter(Boolean)` | a row with the first option `x`, no second option, `y`, `z` and correct answer `C` stores `z` as correct | `y` is correct | high, not executed | BulkImport.MapRowAsWritten, BulkImport.MapRows, BulkImport.RowWithSecondDropped, BulkImport.AsWrittenShifts | BulkImport.MapRow, BulkImport.MapRowsByColumn, BulkImport.MapRowMarksNamedColumn, BulkImport.CorrectedKeepsColumn |
| frontend/src/pages/student/Dashboard.tsx:190-195 | the percentages are summed with `+` starting from `0`; a `decimal(5,2)` column (backend/src/entities/Result.ts:23-24) arrives as a string, so `+` concatenates them | two results with percentages `"85.00"` and `"90.00"` give the text `"085.0090.00"`, whose division by 2 is `NaN`, so the dashboard shows `NaN%` | the rounded mean, 88 | medium, not executed | Dashboard.AverageAsWritten, Dashboard.DashboardShowsNaN | Dashboard.Average, Dashboard.IntendedAverage |
| frontend/src/pages/supervisor/ExamsPage.tsx:459-472 | `Array(extra).fill({...})` puts one object into every padded row, and the input handler at lines 706-710 writes through the object | edit a question with two stored answers and type into the third row: the fourth row shows the same text | each padded row is a separate blank object | high, not executed | QuestionForm.EditForm, QuestionForm.PaddedRowsShareText | QuestionForm.EditFormFixed, QuestionForm.FixedPaddingKeepsRowsApart |
