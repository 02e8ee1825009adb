# Quiz client core in Dafny

This project models the pure computations of an Angular quiz client: the
per-question statistics the quiz service folds from submitted answers, the
lookups on a student's result page, the quiz screen's navigation, answer
saving, countdown and `m:ss` display, the dashboards' summary figures and
"recent" panels, the toast queue, and the list edits of the quiz creation and
quiz edit forms.

Each component's fields become an immutable datatype and each handler a pure
function from one value to the next. JavaScript semantics are written out
where they matter:

- `find` takes the first match, and `filter(...).length` is a count.
- `splice(i, 1)` counts a negative index from the end and clamps it.
- `a || b` treats `""` and `0` as false.
- `%` truncates toward zero, and `Math.floor` and `Math.round` are stated
  exactly.
- Percentages and times are exact reals.

Ids that the client generates with `crypto.randomUUID` and `Math.random`
are parameters. Toast ids from `Date.now` are modelled twice: as written,
from a clock parameter, and corrected, from a counter (see Findings).

Modules, one per file:

- `Wrappers`: the `Option` type.
- `Lists`: `find`, counting, `splice`.
- `Numbers`: rounding, sums, percentages, the JavaScript remainder, and
  decimal printing and parsing.
- `QuizModel`: the records from the model file, plus the fields the code uses
  that the interfaces omit.
- `QuizStats`, `ResultDetail`, `QuizRunner`, `Recency`, `StudentDashboard`,
  `TeacherDashboard`, `Toasts`, `QuizCreate` and `QuizEdit`: the components
  and services.

## Model

| member | source | states |
|---|---|---|
| Lists.Find | app/features/student/results/result-detail.component.ts:71 | `find` yields nothing exactly when no element matches; otherwise it yields a matching element of the list |
| Lists.FindIsFirstMatch | app/features/student/results/result-detail.component.ts:107 | `find` returns the element at the first matching index |
| Lists.FindIgnoresLater | app/features/student/results/result-detail.component.ts:125 | once a match exists, appending elements never changes what `find` returns |
| Lists.CountWhere | app/core/services/quiz.service.ts:88 | a filtered count is at most the length; it is 0 exactly when nothing matches and the full length exactly when everything matches |
| Lists.SpliceStart | app/features/teacher/quizzes/quiz-create.component.ts:124 | the start index of `splice`: in-range indices as given, too-large ones clamped to the length, negative ones counted from the end and clamped to 0 |
| Lists.SpliceOne | app/features/teacher/quizzes/quiz-create.component.ts:124 | `splice(index, 1)` removes one element at the computed start, keeps the earlier elements in place and shifts the later ones down; at the end it changes nothing |
| Lists.SpliceInRange | app/features/teacher/quizzes/quiz-create.component.ts:124 | for an index inside the list, exactly that element is removed |
| Numbers.Round | app/features/student/dashboard/student-dashboard.component.ts:255-261 | `Math.round` yields the integer within half of its argument, with halves rounded up |
| Numbers.Percent | app/core/services/quiz.service.ts:93 | a guarded percentage lies in [0, 100] and is 0 when the total is 0 |
| Numbers.PercentMeaning | app/core/services/quiz.service.ts:108 | a percentage times the total is 100 times the count; it is 100 exactly when the count is the total, and 0 exactly when the count or the total is 0 |
| Numbers.MeanBounds | app/core/services/quiz.service.ts:95 | a mean of values within [lo, hi] lies within [lo, hi] |
| Numbers.JsRem | app/features/quiz/quiz.component.ts:137 | JavaScript `%` by a positive divisor: Dafny's remainder for non-negative dividends, and a value in (-b, 0] for negative ones |
| Numbers.ParseNatToString | app/features/quiz/quiz.component.ts:138 | reading back the printed decimal form of a number gives the number |
| QuizStats.AnswersFor | app/core/services/quiz.service.ts:86 | the filter keeps exactly the answers whose question id matches |
| QuizStats.AnswersForAppend | app/core/services/quiz.service.ts:86 | the filter distributes over concatenation, so answers keep their order |
| QuizStats.CountSelecting | app/core/services/quiz.service.ts:107 | the count of answers choosing an option is at most the number of answers, and 0 exactly when no answer chooses it |
| QuizStats.CorrectPercentage | app/core/services/quiz.service.ts:87-93 | a percentage in [0, 100]; 100 exactly when there are answers and all are correct; 0 exactly when none is correct |
| QuizStats.AverageTime | app/core/services/quiz.service.ts:94-96 | the mean time: 0 without answers; otherwise the mean times the count is the total time; 0 when every answer records no time |
| QuizStats.Distribution | app/core/services/quiz.service.ts:102-112 | the keys are exactly the question's option ids; each option maps to the percentage of answers choosing it; every value is 0 without answers |
| QuizStats.StatFor | app/core/services/quiz.service.ts:85-98 | a question's statistic copies its id and text, and its correct percentage lies in [0, 100] |
| QuizStats.CalculateQuestionStats | app/core/services/quiz.service.ts:84-100 | exactly one statistic per question, in question order, each with that question's id and text |
| QuizStats.CorrectPercentageMeaning | app/core/services/quiz.service.ts:87-93 | 0 without answers and 100·correct/total otherwise; 100 exactly when there are answers and all are correct; 0 exactly when none is correct |
| QuizStats.AverageTimeMeaning | app/core/services/quiz.service.ts:94-96 | 0 without answers; otherwise the total time over the count, which lies between the smallest and the largest time spent |
| QuizStats.DistributionMeaning | app/core/services/quiz.service.ts:97 | the distribution of a question's own answers has the option ids as keys, holds 100·count/total per option, and is all 0 without answers |
| QuizStats.StatIgnoresOtherQuestions | app/core/services/quiz.service.ts:86 | answers to other questions, placed before or after, do not change a question's statistic |
| QuizStats.SelectionCountsCoverAnswers | app/core/services/quiz.service.ts:107 | with distinct option ids and every answer choosing one of them, the per-option counts add up to the number of answers |
| QuizStats.DistributionSumsTo100 | app/core/services/quiz.service.ts:104-108 | with distinct option ids, every answer choosing one of them and at least one answer, the distribution's values add up to 100 |
| ResultDetail.SelectResult | app/features/student/results/result-detail.component.ts:71 | no result is shown when nobody is signed in or the user has none; otherwise a result of that user is shown |
| ResultDetail.SelectResultIsFirst | app/features/student/results/result-detail.component.ts:71 | the result shown is the user's first one |
| ResultDetail.SelectResultIgnoresLater | app/features/student/results/result-detail.component.ts:71 | later results of the same user never replace the first one |
| ResultDetail.ParticipantAnswers | app/features/student/results/result-detail.component.ts:97-98 | no answers when nobody is signed in or the user is not a participant; any answers returned are those of a participant with the user's id |
| ResultDetail.ParticipantAnswersAt | app/features/student/results/result-detail.component.ts:97-98 | the signed-in user's answers are exactly those of the first participant carrying the user's id |
| ResultDetail.QuestionOf | app/features/student/results/result-detail.component.ts:110 | nothing without a quiz or a question with that id; otherwise a question of the quiz with that id |
| ResultDetail.UserAnswer | app/features/student/results/result-detail.component.ts:106-114 | never empty; "No answer provided" without an answer; "Invalid answer" when the question is missing; any other text is the text of an option of that question |
| ResultDetail.UserAnswerAt | app/features/student/results/result-detail.component.ts:107-113 | with the first answer, first question and first matching option, the text shown is that option's text, or "Invalid answer" when the text is empty |
| ResultDetail.UserAnswerUnknownOption | app/features/student/results/result-detail.component.ts:111-113 | an answer whose selected id names no option of the question shows "Invalid answer" |
| ResultDetail.UserAnswerMissingIff | app/features/student/results/result-detail.component.ts:107-108 | "No answer provided" is shown exactly when no answer has the question's id, provided no option's text reads the same |
| ResultDetail.LaterAnswersIgnored | app/features/student/results/result-detail.component.ts:125 | a later duplicate answer changes neither the text shown nor the points |
| ResultDetail.CorrectAnswer | app/features/student/results/result-detail.component.ts:116-122 | "" for an unknown question; any other text is that of an option whose id is the question's correct option id |
| ResultDetail.CorrectAnswerAt | app/features/student/results/result-detail.component.ts:117-121 | with the first question and the first option carrying its correct id, the text shown is that option's text |
| ResultDetail.CorrectAnswerUnknownOption | app/features/student/results/result-detail.component.ts:120-121 | a correct option id that names no option shows "" |
| ResultDetail.QuestionPoints | app/features/student/results/result-detail.component.ts:124-131 | 0 when the answer or the question is missing; any other value is the points of a question with that id |
| ResultDetail.QuestionPointsAt | app/features/student/results/result-detail.component.ts:125-130 | with the first answer and first question, the points when the answer is correct and 0 otherwise, so within [0, points] for non-negative points |
| QuizRunner.CurrentQuestion | app/features/quiz/quiz.component.ts:75-77 | a question exactly when there is a quiz and the index lies inside its questions, and then the question at that index |
| QuizRunner.HasSelection | app/features/quiz/quiz.component.ts:154 | the truthiness test on the selection: null and "" are false, every other string is true |
| QuizRunner.Offered | app/features/quiz/quiz.component.ts:21-37 | a button or radio the template shows needs a current question, and pressing it leaves the index on a question; a radio carries an option id of the current question |
| QuizRunner.SaveAnswer | app/features/quiz/quiz.component.ts:153-165 | nothing is sent without a session, a current question or a non-empty selection; otherwise the answer names the session, the question and the selection, spends 0 time, and is correct exactly when the selection is the correct option id |
| QuizRunner.ChooseThenSave | app/features/quiz/quiz.component.ts:25-30 | picking a shown option and moving on sends an answer to the current question with that id, correct exactly when it is the correct option; an option with id "" is never sent |
| QuizRunner.NextQuestion | app/features/quiz/quiz.component.ts:141-145 | the index goes up by one and the selection is cleared; quiz, session and countdown are unchanged; the saved answer is sent |
| QuizRunner.PreviousQuestion | app/features/quiz/quiz.component.ts:147-151 | the index goes down by one and the selection is cleared; quiz, session and countdown are unchanged; the saved answer is sent |
| QuizRunner.Run | app/features/quiz/quiz.component.ts:25-37 | clicks never change the quiz, the session or the countdown |
| QuizRunner.StartsInBounds | app/features/quiz/quiz.component.ts:70 | a quiz with questions opens on its first question |
| QuizRunner.RunStaysInBounds | app/features/quiz/quiz.component.ts:35-37 | with only the buttons the template shows, the index stays within the questions and a current question is always shown |
| QuizRunner.SavedAnswerScores | app/features/quiz/quiz.component.ts:158 | a saved answer earns the question's points on the results page exactly when the correct option was picked |
| QuizRunner.StartTimer | app/features/quiz/quiz.component.ts:122-124 | with a present, non-zero time limit the countdown starts at that many minutes in seconds; otherwise it stays as it was |
| QuizRunner.Tick | app/features/quiz/quiz.component.ts:126-130 | a positive count drops by exactly one; otherwise the quiz is submitted and the count is unchanged; a non-negative count never becomes negative |
| QuizRunner.Ticks | app/features/quiz/quiz.component.ts:125-131 | at most n of n ticks submit; without a positive count nothing changes and every tick submits; a non-negative count never goes below 0 |
| QuizRunner.TicksCountDown | app/features/quiz/quiz.component.ts:125-131 | n ticks from t seconds leave max(t − n, 0), and every tick after reaching 0 submits |
| QuizRunner.StartThenTicks | app/features/quiz/quiz.component.ts:122-131 | from a positive limit, n ticks leave max(limit·60 − n, 0) seconds and submit once per tick after 0; from a negative limit the count stays and every tick submits |
| QuizRunner.FormatTime | app/features/quiz/quiz.component.ts:135-139 | for a non-negative count: minute digits, a colon, then two digits |
| QuizRunner.FormatTimeRoundTrip | app/features/quiz/quiz.component.ts:135-139 | for a non-negative count, reading minutes·60 plus seconds back from the display gives the count |
| QuizRunner.FormatTimeInjective | app/features/quiz/quiz.component.ts:135-139 | different non-negative counts are displayed differently |
| QuizRunner.FormatNegative | app/features/quiz/quiz.component.ts:136-138 | a count in the last minute below zero shows minute −1, a "0" pad and the signed seconds: −5 reads "-1:0-5" |
| QuizRunner.FormatNegativeUnreadable | app/features/quiz/quiz.component.ts:135-139 | every negative count displays with a leading minus sign and never reads back as an `m:ss` time |
| Recency.SortNewestFirst | app/features/student/dashboard/student-dashboard.component.ts:235-236 | the sorted copy has the same elements (as a multiset), newest first |
| Recency.Recent | app/features/student/dashboard/student-dashboard.component.ts:235-237 | min(3, n) elements drawn from the list, newest first |
| Recency.RecentAreNewest | app/features/teacher/dashboard/teacher-dashboard.component.ts:253-255 | nothing left out is newer than the oldest entry shown, and the first entry is the newest of all |
| StudentDashboard.MaxScore | app/features/student/dashboard/student-dashboard.component.ts:260 | `Math.max` of the scores: no score exceeds it and some result has it |
| StudentDashboard.CalculateStats | app/features/student/dashboard/student-dashboard.component.ts:251-272 | the count is the number of results; with none, the other figures are unchanged; otherwise the rounded mean, the rounded best score (reached by some result, no lower than any) and the monthly count, which is at most the total |
| StudentDashboard.AverageWithinScores | app/features/student/dashboard/student-dashboard.component.ts:255-261 | the rounded lowest score ≤ the average ≤ the highest score |
| StudentDashboard.StatsArePercentages | app/features/student/dashboard/student-dashboard.component.ts:255-261 | with scores in [0, 100], 0 ≤ average ≤ highest ≤ 100 |
| StudentDashboard.RecentResults | app/features/student/dashboard/student-dashboard.component.ts:235-237 | at most three results, newest completion first, all drawn from the results |
| TeacherDashboard.UpdateSessionStats | app/features/teacher/dashboard/teacher-dashboard.component.ts:235-246 | active sessions is 1 or 0 as the session is active; with a participant list, its length and, when non-empty, the rounded mean score; otherwise the earlier figures stay |
| TeacherDashboard.AverageScoreBounds | app/features/teacher/dashboard/teacher-dashboard.component.ts:242-243 | with present scores in [lo, hi] and 0 in that range, the average lies between the rounded bounds |
| TeacherDashboard.MissingScoreIsZero | app/features/teacher/dashboard/teacher-dashboard.component.ts:242 | a participant without a score weighs exactly as one who scored 0 |
| TeacherDashboard.ScoreOrZero | app/features/teacher/dashboard/teacher-dashboard.component.ts:242 | `p.score \|\| 0`: the score when present, 0 when absent |
| TeacherDashboard.OnNewParticipant | app/features/teacher/dashboard/teacher-dashboard.component.ts:212-220 | an event adds exactly one participant and appends one information notice naming the student after the unchanged earlier ones; without an event nothing changes |
| TeacherDashboard.OnNewAnswer | app/features/teacher/dashboard/teacher-dashboard.component.ts:223-231 | an event appends one information notice "New answer submitted" after the unchanged earlier ones; without an event nothing changes |
| TeacherDashboard.ReplayedNoticesCollide | app/features/teacher/dashboard/teacher-dashboard.component.ts:211-231 | as written, with clock ids: a participant and an answer replayed in the same millisecond get one id, and the participant notice's timer removes both notices |
| TeacherDashboard.ReplayedNoticesKept | app/features/teacher/dashboard/teacher-dashboard.component.ts:211-231 | with counter ids, the participant notice's timer leaves the answer notice shown after it |
| TeacherDashboard.ParticipantsCounted | app/features/teacher/dashboard/teacher-dashboard.component.ts:214 | n events add exactly n participants and n notices |
| TeacherDashboard.RecentQuizzes | app/features/teacher/dashboard/teacher-dashboard.component.ts:253-255 | at most three quizzes, newest creation first, all drawn from the quizzes |
| Toasts.DismissDelay | app/shared/services/toast.service.ts:22 | the dismissal delay is the duration, or 5000 when it is absent or 0 |
| Toasts.Show | app/shared/services/toast.service.ts:20-29 | exactly one toast is appended after the unchanged earlier ones; it keeps the message, type and duration and carries the generated id |
| Toasts.Dismiss | app/shared/services/toast.service.ts:37-41 | keeps exactly the toasts whose id differs |
| Toasts.DismissAppend | app/shared/services/toast.service.ts:39 | dismissing distributes over concatenation, so the rest keep their order |
| Toasts.DismissUnknown | app/shared/services/toast.service.ts:39 | an id no toast carries changes nothing |
| Toasts.DismissIdempotent | app/shared/services/toast.service.ts:39 | dismissing twice is dismissing once |
| Toasts.ShowThenDismiss | app/shared/services/toast.service.ts:29-39 | show under a fresh id followed by dismiss of that id restores the list |
| Toasts.SameMillisecondCollide | app/shared/services/toast.service.ts:43-45 | two toasts shown in the same millisecond share an id, and the first one's dismissal removes both |
| Toasts.ClockId | app/shared/services/toast.service.ts:43-45 | the id is the decimal text of the clock, reading back as the millisecond it was made in |
| Toasts.ClockIdsCollide | app/shared/services/toast.service.ts:43-45 | two clock ids are equal exactly when they were made in the same millisecond |
| Toasts.ShowNext | app/shared/services/toast.service.ts:20-29 | show with a counter id appends as show does, under an id that no queued toast carries |
| Toasts.ShowNextDismissesOnlyItself | app/shared/services/toast.service.ts:32-34 | with counter ids, a toast's timer removes only that toast, even when another was shown right after it |
| Toasts.ShowNextThenDismiss | app/shared/services/toast.service.ts:29-40 | with counter ids, showing a toast and dismissing it always restores the queue |
| QuizCreate.NewQuestion | app/features/teacher/quizzes/quiz-create.component.ts:106-117 | a new question has empty text, exactly two options with empty text, no correct option chosen, and 1 point |
| QuizCreate.InitialDraft | app/features/teacher/quizzes/quiz-create.component.ts:94-98 | the form opens with an empty title and description and exactly one new question |
| QuizCreate.AddQuestion | app/features/teacher/quizzes/quiz-create.component.ts:119-121 | exactly one new question is appended and the existing ones are unchanged |
| QuizCreate.RemoveQuestion | app/features/teacher/quizzes/quiz-create.component.ts:123-125 | an in-range index removes exactly that question and keeps the others in order; an index past the end changes nothing |
| QuizCreate.AddOption | app/features/teacher/quizzes/quiz-create.component.ts:127-130 | one option with empty text is appended to question qi only |
| QuizCreate.RemoveOption | app/features/teacher/quizzes/quiz-create.component.ts:132-134 | exactly the given option of question qi is removed, its other fields and the other questions are untouched, and an index past the end changes nothing |
| QuizCreate.RemoveUndoesAddQuestion | app/features/teacher/quizzes/quiz-create.component.ts:119-125 | removing the question just added restores the draft |
| QuizCreate.RemoveUndoesAddOption | app/features/teacher/quizzes/quiz-create.component.ts:127-134 | removing the option just added restores the draft |
| QuizCreate.RemoveOptionCanEmpty | app/features/teacher/quizzes/quiz-create.component.ts:132-134 | two removals leave a new question with no options: nothing guards the last one |
| QuizCreate.NewQuestionHasNoCorrectText | app/features/teacher/quizzes/quiz-create.component.ts:106-117 | in any quiz where a new question is the first with its id, its correct answer text is "", since its correct option id is "" and its options have no text |
| QuizCreate.NewQuestionNeverCorrect | app/features/teacher/quizzes/quiz-create.component.ts:114 | until a correct option is chosen, no answer saved for a new question is correct |
| QuizEdit.OrElse | app/features/teacher/quizzes/quiz-edit.component.ts:163-165 | `value \|\| fallback` keeps a non-empty value and otherwise takes the fallback |
| QuizEdit.OptionGroup | app/features/teacher/quizzes/quiz-edit.component.ts:183-186 | the option's non-empty id, else the fresh id; the option's text, else "" |
| QuizEdit.AddOption | app/features/teacher/quizzes/quiz-edit.component.ts:182-189 | one option group is appended to question qi; every other part of the form is unchanged |
| QuizEdit.AddOptions | app/features/teacher/quizzes/quiz-edit.component.ts:171-174 | adding a question's options one by one appends a group for each, in order, after the existing options |
| QuizEdit.AddQuestion | app/features/teacher/quizzes/quiz-edit.component.ts:161-180 | one group is appended: without a question, a fresh id, empty fields and exactly two default options; from a question, its non-empty id, its text and correct id, and its options copied in order |
| QuizEdit.AddQuestionKeepsIds | app/features/teacher/quizzes/quiz-edit.component.ts:162-174 | a question whose ids are all present is copied whole |
| QuizEdit.RemoveQuestion | app/features/teacher/quizzes/quiz-edit.component.ts:191-193 | an in-range index removes exactly that group and keeps the others in order |
| QuizEdit.RemoveOption | app/features/teacher/quizzes/quiz-edit.component.ts:195-200 | a question with at most one option is left alone; with more, exactly the given option is removed; a non-empty option list stays non-empty |
| QuizEdit.RemoveOptionsKeepOne | app/features/teacher/quizzes/quiz-edit.component.ts:197 | no series of removals leaves a question without options |
| QuizEdit.SetCorrectOption | app/features/teacher/quizzes/quiz-edit.component.ts:202-206 | only question qi's correct option id changes |
| QuizEdit.SetCorrectOptionLastWins | app/features/teacher/quizzes/quiz-edit.component.ts:202-206 | the last choice wins, and choosing the current one changes nothing |

## Left out

- HTTP calls, the socket transport and the observable streams are left out. They are I/O and concurrency, and the server behind them is not part of this model. The lookups take the loaded answers, quiz and session as parameters.
- `setInterval` and `setTimeout` scheduling is left out. Only one tick's effect and the delay passed to the dismissal timer are modelled. Submitting the quiz is a flag in the tick outcome.
- `new Date()` and the calendar test for "this month" are left out. The calendar test is the `inMonth` parameter. The `answeredAt` timestamp of a saved answer is not represented.
- `crypto.randomUUID` and `Math.random` ids are parameters. The model says nothing about their randomness or uniqueness.
- TeacherDashboard.OnNewParticipant and TeacherDashboard.OnNewAnswer queue their notices with the corrected counter id of the Findings, not with `Date.now()`. The as-written clock ids of these two handlers appear only in TeacherDashboard.ReplayedNoticesCollide.
- IEEE-754 rounding of percentages and means is left out, because values are exact reals. Time limits are whole minutes.
- Recency.SortNewestFirst: the contract states the order and the multiset, not stability. JavaScript's sort keeps ties in input order. The insertion used here also keeps them, but no lemma states it.
- QuizEdit.RemoveQuestion: Angular's `FormArray` is not part of this model. `removeAt` is taken to act like `splice(index, 1)`, which agrees with it for every index from −length up.
- QuizEdit.SetCorrectOption, QuizEdit.AddOption and QuizEdit.RemoveOption require an index that names a question. The component reads the group with `at(i)`, and a missing group fails.
- QuizCreate.AddOption and QuizCreate.RemoveOption require `0 <= qi < |questions|`. The component indexes `questions?.[qi]` and then reads `.options`, which fails for a missing question.
- ResultDetail.UserAnswerMissingIff needs that no option's text is itself "No answer provided". Without that, the displayed text cannot tell the two cases apart.
- ResultDetail.ParticipantAnswers requires a participant list. The result page reads it without a check.
- The quiz editor's initial load (`forEach` of `addQuestion`) is left out. So are the forms' validators and the submit and publish handlers, which are HTTP calls.

## Findings

| source | as written | input that shows it | evidently intended | confidence | as-written member | corrected member |
|---|---|---|---|---|---|---|
| app/shared/services/toast.service.ts:43-45 | the toast id is `Date.now().toString()`, and the timer of each toast dismisses by id | two `show` calls in the same millisecond: on entering the teacher dashboard, the `newParticipants$` and `newAnswers$` streams replay their last values to the new subscriptions at once, which shows two notices | each toast's timer removes only its own toast | not executed; medium: needs two shows within one millisecond | Toasts.SameMillisecondCollide | Toasts.ShowNextDismissesOnlyItself |
