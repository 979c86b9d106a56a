# ExamifAI attempt lifecycle — a Dafny model

ExamifAI is an online exam platform. A student starts an attempt on an active exam and answers
multiple-choice questions. Progress is saved as they go. On submit, the server grades the
attempt. Administrators see per-exam statistics and each student's submission.

This project models the core of that system:

- **The server's attempt store.** One method per route handler. Each answers an HTTP status
  code and changes the in-memory attempt map exactly as the handler changes the collection.
- **The attempt document.** Its status enumeration, required fields, defaults and unique
  `(user, assignment, subject)` index.
- **The browser state of the exam page.** Grading, answer formatting, navigation,
  countdown, the submit guard, and progress kept in browser storage.
- **The selection and aggregation rules of three pages.** The exam details page, the admin
  results page and the submission view, plus the labels of the review page.
- **The profile-update validator of the user routes.**

Each source file is one module:

| module | source |
|---|---|
| `AttemptSchema` | `backend/src/schemas/AttemptSchema.js` |
| `AttemptRoutes` | `backend/src/routes/attemptRoutes.js` |
| `UserRoutes` | `backend/src/routes/userRoutes.js` |
| `ExamPage` | `frontend/src/components/ExamPage/ExamPage/ExamPage.jsx` |
| `ExamDetails` | `frontend/src/components/ExamDetails/ExamDetails.jsx` |
| `AdminExamResults` | `frontend/src/components/Admin/ExamResults/AdminExamResults.jsx` |
| `SubmissionView` | `frontend/src/components/Admin/SubmissionView/SubmissionView.jsx` |
| `ReviewPage` | `frontend/src/components/ReviewPage/ReviewPage.jsx` |

Four helper modules support them:

- `Base`: identifiers, `Option`, map lookup.
- `Js`: the JavaScript semantics the code relies on. This covers comparisons with
  `undefined`, `Math.round` of a quotient, `String(n)`, ASCII `toLowerCase` and the
  truncating `%`.
- `Exams`: the exam document the attempt logic reads.
- `ClientData`: an attempt as the listings deliver it to the browser, and `localStorage`
  as a class over a map.

Modelling conventions:

- **Server handlers.** Imperative code is modelled as a class whose methods update fields.
  Every server handler promises its full new state. Its error branches promise that the
  store is unchanged.
- **Store invariant.** The attempt store keeps three facts true:
  - every stored id is below the next id;
  - no two attempts share a key of the unique index;
  - exam attempts carry no assignment or subject.
- **Grading loops as methods.** The grading loops of the server and of the exam page are
  `while` loops. Each is proved equal to a fold that lemmas then characterise.
- **Pure code.** It is modelled as functions.
- **Page state.** The page components keep their React state as class fields, and a
  `State()` snapshot states what each handler changes.
- **Inputs from outside.** Responses of other services, the signed-in user and the clock
  (`now`, in milliseconds) are parameters.

## Behaviour kept as written

The model follows the code, including behaviour that looks unintended.

**Server**
- **Submit with an unknown question.** An answer whose `questionIndex` designates no
  question makes submit answer 400 and save nothing. The guard at line 173 protects only the
  score; `question.marks` at line 176 is read without it.
- **Submit when the exam is gone.** The status stays `completed` and the score is not
  recomputed.
- **Unique index.** The index covers `(user, assignment, subject)`, and a missing field is
  indexed as null. So all exam attempts of one user share the key `(user, null, null)`, and a
  user can hold at most one exam attempt at all (`AttemptRoutes.AtMostOneExamAttempt`). A
  second start refused by the index answers 400.
- **Create.** It refuses a second attempt for the same `(user, exam)` whatever its status.
  It drops `assignment`, `subject`, `totalMarksObtained`, `lastSavedIndex` and `timeLeft`
  from its body.

**Exam page: grading and submit**
- **Client grading.** `calculateScore` compares the lower-cased option *text* with
  `String(correctAnswer)`. Option texts that do not start with a digit or minus sign
  therefore never score (`ExamPage.SubmittedScoreZeroForTextOptions`).
- **Finding the attempt to update.** The attempt listing populates `exam`, so
  `attempt.exam === exam._id` never holds for it (`ExamPage.PopulatedNeverFound`). Without a
  match the create branch reads `existingAttempt._id` of `undefined` and fails.
- **The update request.** Its answers carry no `questionIndex`, so the server refuses any
  non-empty list of them (`ExamPage.PayloadRefusedByServer`).
- **Clearing storage on success.** It removes the keys `questions` and `examProgress`, not
  the progress key, although the comment at `ExamPage.jsx:318` speaks of clearing the exam
  data from browser storage. The saved progress survives the submission.

**Exam page: progress**
- **The progress key.** `setExamId` is never called, so progress is always saved under
  `exam_progress_null`. Two exam pages sharing a browser overwrite each other's progress
  (`ExamPage.SharedProgressKey`).
- **Loading progress.** `loadSavedProgress` is defined but never invoked. It is still
  modelled.
- **Reviewing from the details page.** `handleReviewExam` of the exam details page is
  defined but attached to no element, so it never runs. It is still modelled
  (`ExamDetails.ExamDetailsView.ReviewExam`).

**Other pages**
- **Admin results.** The page reads `passingScore` while the server grades against
  `passingMarks`. Attempts the server graded `Pass` are shown as "Fail".
- **Unanswered questions.** In the submission view and the answer formatting, an
  unanswered question whose `correctAnswer` is absent counts as correct (`undefined ===
  undefined`).
- **Duplicate question indices.** The submission view shows the *first* answer with an
  index. The answer map of the exam details page keeps the *last* one
  (`SubmissionView.FirstHereLastThere`).
- **Review page labels.** It reads `timeTaken`, stored in minutes, as seconds. It labels
  `Pass` and `Fail` attempts "Incomplete".

## Model

| member | source | states |
|---|---|---|
| Js.Round | backend/src/routes/attemptRoutes.js:164 | `Math.round(num/den)` is the nearest integer, halves rounding up: `2·den·r − den ≤ 2·num < 2·den·r + den` |
| Js.Rem | frontend/src/components/ReviewPage/ReviewPage.jsx:51 | `%` takes the sign of the dividend: the remainder lies in `0..b−1` for `a ≥ 0` and in `−(b−1)..0` for `a < 0` |
| Js.RemQuotient | frontend/src/components/ReviewPage/ReviewPage.jsx:51 | with the quotient truncated toward zero, `a = b·q + a % b`, so `%` and truncating division recombine |
| Js.Lower | frontend/src/components/ExamPage/ExamPage/ExamPage.jsx:25-26 | lower-casing keeps the length, leaves no capital letter, keeps every other character in place and moves each capital to its small letter |
| Js.LowerIdempotent | frontend/src/components/ExamPage/ExamPage/ExamPage.jsx:25-26 | lower-casing an already lowered string changes nothing |
| Js.GeLtExclusive | frontend/src/components/Admin/ExamResults/AdminExamResults.jsx:52-53 | `>=` and `<` never both hold; with `undefined` on either side neither holds |
| Js.NumberStringLead | frontend/src/components/ExamPage/ExamPage/ExamPage.jsx:26 | `String(n)` of an integer is non-empty and starts with a digit or minus sign, also once lowered |
| Js.NotANumberString | frontend/src/components/ExamPage/ExamPage/ExamPage.jsx:25-28 | a string not starting with a numeral never equals `String(n)` after lower-casing |
| AttemptSchema.ParseStatus | backend/src/schemas/AttemptSchema.js:18-22 | a status string validates exactly when it is one of the six spellings, and parses to the status with that spelling |
| AttemptSchema.ParseStatusName | backend/src/schemas/AttemptSchema.js:18-22 | every status's spelling is admitted and parses back to the same status |
| AttemptSchema.CastAnswers | backend/src/schemas/AttemptSchema.js:8-13 | an answer list validates exactly when every entry has a `questionIndex`; then every entry is kept in order with its fields |
| AttemptSchema.CastAsInputs | backend/src/schemas/AttemptSchema.js:8-13 | stored answers validate again to themselves |
| AttemptSchema.Construct | backend/src/schemas/AttemptSchema.js:3-30 | a new document is valid exactly when `user` and `startTime` are given, the status is in the enum and every answer is indexed; then the absent status, `totalMarksObtained` and `lastSavedIndex` take their defaults and all other fields are copied |
| AttemptSchema.ConstructDefaults | backend/src/schemas/AttemptSchema.js:17-29 | a document with only the required fields is valid, `in_progress`, with 0 marks, index 0 and no answers |
| AttemptSchema.InsertKeepsUnique | backend/src/schemas/AttemptSchema.js:36 | inserting under a fresh id with a free key keeps the index unique |
| AttemptSchema.ReplaceKeepsUnique | backend/src/schemas/AttemptSchema.js:36 | re-saving a document with unchanged key fields keeps the index unique |
| AttemptSchema.SameKeySameAttempt | backend/src/schemas/AttemptSchema.js:36 | under the unique index two attempts with one key are the same attempt |
| AttemptRoutes.ScoreAnswers | backend/src/routes/attemptRoutes.js:169-177 | the grading loop raises exactly when some answer designates no question, and otherwise returns the sum of the marks of the correctly answered questions |
| AttemptRoutes.TotalScoreAppend | backend/src/routes/attemptRoutes.js:169-177 | the score of concatenated answer lists is the sum of their scores |
| AttemptRoutes.TotalScoreBounds | backend/src/routes/attemptRoutes.js:171-177 | with non-negative marks the score lies between 0 and the marks of the questions answered |
| AttemptRoutes.PerfectScore | backend/src/routes/attemptRoutes.js:171-179 | answering every question with its correct option is accepted and scores the exam's total marks |
| AttemptRoutes.PerfectScorePrefix | backend/src/routes/attemptRoutes.js:171-179 | the correct answers to the first k questions score the marks of those k questions |
| AttemptRoutes.OutcomeOf | backend/src/routes/attemptRoutes.js:180 | the graded status is `Pass` or `Fail` |
| AttemptRoutes.OutcomeThreshold | backend/src/routes/attemptRoutes.js:180 | `Pass` exactly when the passing marks exist and the score reaches them; without passing marks always `Fail` |
| AttemptRoutes.MinutesTaken | backend/src/routes/attemptRoutes.js:161-164 | the minutes taken are the elapsed milliseconds divided by 60000, rounded to nearest |
| AttemptRoutes.MinutesTakenExact | backend/src/routes/attemptRoutes.js:164 | a whole number of minutes is reported exactly |
| AttemptRoutes.ExamOf | backend/src/routes/attemptRoutes.js:167-168 | the exam is found exactly when the attempt names one that still exists, and it is the exam stored under that id |
| AttemptRoutes.Submitted | backend/src/routes/attemptRoutes.js:155-183 | submit succeeds exactly when every answer is indexed and, with the exam present, designates a question. The end time and the minutes taken are set. With the exam the score and marks are the graded sum and the status is `Pass` iff it reaches `passingMarks`, else `Fail`. Without it the status is `completed` and the score is kept. Nothing else changes. |
| AttemptRoutes.Updated | backend/src/routes/attemptRoutes.js:129-132 | a partial update sets exactly the present fields among `answers`, `lastSavedIndex` and `timeLeft`, and nothing else |
| AttemptRoutes.OwnerGuard | backend/src/routes/attemptRoutes.js:144-153 | 404 for an unknown id, 403 for a non-owner, 400 for an attempt not in progress, and go-ahead exactly for the owner of an in-progress attempt (the same guard as at 96-104, 118-127 and 193-202) |
| AttemptRoutes.NewExamAttempt | backend/src/routes/attemptRoutes.js:77-83 | a started attempt belongs to the caller and the exam, starts now, is in progress with no answers, no assignment or subject, no end or score, and zero defaults |
| AttemptRoutes.NewAssignmentAttempt | backend/src/routes/attemptRoutes.js:242-249 | a new assignment attempt validates exactly when the status is in the enum, and then carries the caller, assignment, subject, status and start time |
| AttemptRoutes.AtMostOneExamAttempt | backend/src/schemas/AttemptSchema.js:36 | under the index, two exam attempts of the same user are the same attempt |
| AttemptRoutes.AttemptStore.ListByUser | backend/src/routes/attemptRoutes.js:8-21 | a member listing another user gets 403 and nothing; otherwise exactly that user's attempts |
| AttemptRoutes.AttemptStore.ListByExam | backend/src/routes/attemptRoutes.js:24-41 | always 200; exactly the exam's attempts, restricted to the caller's own unless admin, and empty when none match |
| AttemptRoutes.AttemptStore.GetById | backend/src/routes/attemptRoutes.js:44-59 | 404 when unknown, 403 unless admin or owner, otherwise the attempt |
| AttemptRoutes.AttemptStore.Start | backend/src/routes/attemptRoutes.js:62-89 | 400 and no change for a missing or inactive exam. An open attempt of the caller on the exam is returned unchanged with 200. Otherwise a new attempt is inserted under a fresh id with 201, or refused with 400 when the index key is taken. The store invariant is kept. |
| AttemptRoutes.AttemptStore.SaveProgress | backend/src/routes/attemptRoutes.js:92-113 | guard errors and an unindexed answer leave the store unchanged; otherwise exactly `answers`, `lastSavedIndex` and `timeLeft` of that attempt change |
| AttemptRoutes.AttemptStore.Update | backend/src/routes/attemptRoutes.js:116-139 | guard errors and unindexed answers leave the store unchanged; otherwise only that attempt changes, by `Updated` |
| AttemptRoutes.AttemptStore.Submit | backend/src/routes/attemptRoutes.js:142-188 | guard errors leave the store unchanged. A raised grading loop or an unindexed answer gives 400 with no change. Otherwise that attempt becomes `Submitted`, with 200. |
| AttemptRoutes.AttemptStore.Abandon | backend/src/routes/attemptRoutes.js:191-209 | guard errors leave the store unchanged; otherwise only that attempt's status becomes `abandoned` |
| AttemptRoutes.AttemptStore.Delete | backend/src/routes/attemptRoutes.js:212-223 | 404 and no change for an unknown id; otherwise exactly that attempt is removed |
| AttemptRoutes.AttemptStore.AssignmentStatusUpsert | backend/src/routes/attemptRoutes.js:226-257 | a falsy field gives 400 and a status outside the enum 500, both with no change. Otherwise the attempt holding the key gets the new status, or a new attempt is inserted; 200 either way. |
| AttemptRoutes.AttemptStore.ListUserAssignments | backend/src/routes/attemptRoutes.js:260-270 | exactly the caller's attempts on the subject |
| AttemptRoutes.AttemptStore.Create | backend/src/routes/attemptRoutes.js:273-320 | any existing attempt of the user on the exam gives 400 whatever its status, and so do a failed validation and a taken key, all with no change; otherwise the built document is inserted with 201 |
| AttemptRoutes.RepeatedStart | backend/src/routes/attemptRoutes.js:69-76 | two starts in a row on an active exam give the same attempt |
| UserRoutes.Profile | backend/src/routes/userRoutes.js:46 | copying body keys changes `name` and `password` only when those keys are copied, and never the email or role |
| UserRoutes.EmptyBodyChangesNothing | backend/src/routes/userRoutes.js:38-46 | an empty body leaves the user as is |
| UserRoutes.ProfileIdempotent | backend/src/routes/userRoutes.js:46 | applying the same body twice equals applying it once |
| UserRoutes.ProfileStep | backend/src/routes/userRoutes.js:46 | copying one more allowed key extends the partial update |
| UserRoutes.UserStore.UpdateProfile | backend/src/routes/userRoutes.js:36-52 | 400 and no change unless every body key is `name` or `password` (an empty body passes); otherwise exactly the body keys are copied onto the caller |
| UserRoutes.UserStore.CheckEmail | backend/src/routes/userRoutes.js:17-24 | `exists` holds exactly when some user has that email |
| UserRoutes.UserStore.ClearAll | backend/src/routes/userRoutes.js:55-62 | the user store is empty afterwards |
| ClientData.LocalStorage.SetItem | frontend/src/components/ExamPage/ExamPage/ExamPage.jsx:86 | `setItem` overwrites exactly one key |
| ClientData.LocalStorage.RemoveItem | frontend/src/components/ExamPage/ExamPage/ExamPage.jsx:319-320 | `removeItem` drops exactly one key |
| ExamPage.CalculateScore | frontend/src/components/ExamPage/ExamPage/ExamPage.jsx:11-33 | 0 when either list is missing; otherwise the sum over the questions of `marks \|\| 1` where the answer at that position is non-empty, `correctAnswer` is defined and the lower-cased strings are equal |
| ExamPage.ExtraAnswersIgnored | frontend/src/components/ExamPage/ExamPage/ExamPage.jsx:17-18 | answers beyond the last question do not change the score |
| ExamPage.ScoreBounds | frontend/src/components/ExamPage/ExamPage/ExamPage.jsx:17-31 | with non-negative marks the client score lies between 0 and the sum of `marks \|\| 1` |
| ExamPage.TextAnswersNeverScore | frontend/src/components/ExamPage/ExamPage/ExamPage.jsx:24-28 | when no answer string starts with a numeral the client score is 0 |
| ExamPage.NotAnsweredNeverScores | frontend/src/components/ExamPage/ExamPage/ExamPage.jsx:273 | the "Not Answered" placeholder never scores |
| ExamPage.OptionTextQuirk | frontend/src/components/ExamPage/ExamPage/ExamPage.jsx:25-28 | the right option's text "Paris" scores 0 while the string "0" scores the marks |
| ExamPage.SelectedText | frontend/src/components/ExamPage/ExamPage/ExamPage.jsx:270-273 | the selected option's text for an index in range, otherwise "Not Answered" |
| ExamPage.FormatAnswers | frontend/src/components/ExamPage/ExamPage/ExamPage.jsx:269-281 | one entry per question in order; `isCorrect` iff the selected index equals `correctAnswer`; the marks are the question's when correct, else 0 |
| ExamPage.UnansweredWithoutKeyIsCorrect | frontend/src/components/ExamPage/ExamPage/ExamPage.jsx:278-279 | an unanswered question with no `correctAnswer` is formatted as correct with full marks |
| ExamPage.SubmittedScoreZeroForTextOptions | frontend/src/components/ExamPage/ExamPage/ExamPage.jsx:269-287 | when no option text starts with a numeral, the submitted score is 0 whatever is selected |
| ExamPage.PayloadAnswers | frontend/src/components/ExamPage/ExamPage/ExamPage.jsx:299-302 | one request answer per formatted answer, for the same question; no sent text is empty, and a non-empty text is sent unchanged |
| ExamPage.PayloadRefusedByServer | frontend/src/components/ExamPage/ExamPage/ExamPage.jsx:298-302 | a non-empty list of request answers fails the server's answer validation |
| ExamPage.Remaining | frontend/src/components/ExamPage/ExamPage/ExamPage.jsx:213 | the seconds left are the floor of the milliseconds left over 1000, and 0 once less than a second is left |
| ExamPage.RemainingZero | frontend/src/components/ExamPage/ExamPage/ExamPage.jsx:213-216 | the countdown is 0 exactly when less than a second is left |
| ExamPage.ReviewStatus | frontend/src/components/ExamPage/ExamPage/ExamPage.jsx:327 | the review status is "Pass" or "Fail" |
| ExamPage.ReviewStatusCutoff | frontend/src/components/ExamPage/ExamPage/ExamPage.jsx:327 | "Pass" exactly when the client score is at least 40 |
| ExamPage.ProgressKey | frontend/src/components/ExamPage/ExamPage/ExamPage.jsx:67 | without an exam id the key is `exam_progress_null` |
| ExamPage.UpdateDataOf | frontend/src/components/ExamPage/ExamPage/ExamPage.jsx:298-312 | the update request is `completed`, carries the client score, the submission instant as `endTime`, the formatted answers of every question in order (question i numbered i, empty texts sent as "Not Answered"), the count of answered keys, the question count, `duration·60 − timeLeft`, and the user's name and email and the exam title |
| ExamPage.ReviewOf | frontend/src/components/ExamPage/ExamPage/ExamPage.jsx:322-333 | the review state names the updated attempt and the exam, with the client score, its pass label, the counts, the exam title and the user's name |
| ExamPage.FindByExam | frontend/src/components/ExamPage/ExamPage/ExamPage.jsx:291 | the found attempt refers to the exam by bare id; none found means none does |
| ExamPage.PopulatedNeverFound | frontend/src/components/ExamPage/ExamPage/ExamPage.jsx:290-291 | with populated exam fields no attempt is found |
| ExamPage.ExamSession.constructor | frontend/src/components/ExamPage/ExamPage/ExamPage.jsx:39-52 | the initial page state: no answers, index 0, 3600 seconds, loading, and no exam id |
| ExamPage.ExamSession.LoadExamData | frontend/src/components/ExamPage/ExamPage/ExamPage.jsx:170-198 | a missing id or a missing or inactive exam sets the error; otherwise the exam, its questions, `duration·60` seconds and an end `duration` minutes after now are set; loading ends either way |
| ExamPage.ExamSession.SelectAnswer | frontend/src/components/ExamPage/ExamPage/ExamPage.jsx:478-484 | only the current question's entry is set |
| ExamPage.ExamSession.ClearChoice | frontend/src/components/ExamPage/ExamPage/ExamPage.jsx:411-417 | only that entry is removed |
| ExamPage.ExamSession.Next | frontend/src/components/ExamPage/ExamPage/ExamPage.jsx:420-426 | the index increments iff it is below `length − 1`, otherwise the submit dialog opens; the index stays in range |
| ExamPage.ExamSession.Prev | frontend/src/components/ExamPage/ExamPage/ExamPage.jsx:428-432 | the index decrements iff it is positive; it stays in range |
| ExamPage.ExamSession.QuestionClick | frontend/src/components/ExamPage/ExamPage/ExamPage.jsx:434-436 | the index becomes the clicked one |
| ExamPage.ExamSession.HandleSubmit | frontend/src/components/ExamPage/ExamPage/ExamPage.jsx:253-259 | a submission starts exactly when none is in flight, and the flag is raised |
| ExamPage.ExamSession.Tick | frontend/src/components/ExamPage/ExamPage/ExamPage.jsx:209-223 | nothing before the clock is set; otherwise the time left becomes `Remaining`, and submit starts exactly when it is 0 and no submission is in flight |
| ExamPage.ExamSession.ConfirmSubmit | frontend/src/components/ExamPage/ExamPage/ExamPage.jsx:395-400 | with a submission in flight nothing happens; otherwise the dialog closes and submit starts |
| ExamPage.ExamSession.CancelSubmit | frontend/src/components/ExamPage/ExamPage/ExamPage.jsx:402-404 | only the dialog closes |
| ExamPage.ExamSession.CompleteSubmit | frontend/src/components/ExamPage/ExamPage/ExamPage.jsx:261-391 | an update request is sent exactly when a user id, the exam and an attempt referring to it by bare id exist. It carries `UpdateDataOf` at the current instant. With a response the page navigates with `ReviewOf` and the two storage keys are removed. Otherwise the error is set and storage is untouched. The flag is lowered in every case. |
| ExamPage.ExamSession.SubmitFailedState | frontend/src/components/ExamPage/ExamPage/ExamPage.jsx:386-391 | a failed submission sets the error and lowers the flag |
| ExamPage.ExamSession.SubmitSucceededState | frontend/src/components/ExamPage/ExamPage/ExamPage.jsx:317-333 | a successful one removes `questions` and `examProgress`, navigates and lowers the flag |
| ExamPage.ExamSession.SaveProgress | frontend/src/components/ExamPage/ExamPage/ExamPage.jsx:79-90 | the answers, index and time left are written under the progress key |
| ExamPage.ExamSession.LoadSavedProgress | frontend/src/components/ExamPage/ExamPage/ExamPage.jsx:65-77 | a saved record restores exactly answers, index and time left; without one nothing changes |
| ExamPage.SaveEditLoad | frontend/src/components/ExamPage/ExamPage/ExamPage.jsx:65-90 | save, edits, then load restore the saved answers, index and time left |
| ExamPage.SharedProgressKey | frontend/src/components/ExamPage/ExamPage/ExamPage.jsx:52-86 | two pages sharing storage overwrite each other's progress under the null key |
| ExamPage.TimerThenConfirm | frontend/src/components/ExamPage/ExamPage/ExamPage.jsx:216-219 | with the submit flag taking effect at once, a timer tick followed by a confirmation never both start a submission (the page's deferred state update is not captured; see "Left out") |
| ExamDetails.AttemptExamId | frontend/src/components/ExamDetails/ExamDetails.jsx:54 | the exam id is the populated exam's id or the bare id, nothing for a missing field, and raises for `null` |
| ExamDetails.ExamAttempts | frontend/src/components/ExamDetails/ExamDetails.jsx:53-56 | the filter raises exactly when some attempt has a `null` exam; otherwise it keeps exactly the attempts whose exam id is this exam's |
| ExamDetails.ExamAttemptsOrdered | frontend/src/components/ExamDetails/ExamDetails.jsx:53-56 | the kept attempts keep their order |
| ExamDetails.FirstInProgress | frontend/src/components/ExamDetails/ExamDetails.jsx:60-63 | an in-progress attempt of the list, and none exactly when none is in progress |
| ExamDetails.FirstInProgressIsFirst | frontend/src/components/ExamDetails/ExamDetails.jsx:60 | the one found comes no later than any in-progress attempt |
| ExamDetails.Finished | frontend/src/components/ExamDetails/ExamDetails.jsx:66 | exactly the attempts not in progress |
| ExamDetails.LatestIndex | frontend/src/components/ExamDetails/ExamDetails.jsx:66-67 | the first position with the latest end time |
| ExamDetails.LatestSubmission | frontend/src/components/ExamDetails/ExamDetails.jsx:66-71 | a finished attempt with no later finished one, and none exactly when all are in progress |
| ExamDetails.FindFinished | frontend/src/components/ExamDetails/ExamDetails.jsx:102-105 | a found attempt is finished and on this exam; none found means none is; it cannot raise without a `null` exam |
| ExamDetails.FindFinishedFinds | frontend/src/components/ExamDetails/ExamDetails.jsx:102-112 | a finished attempt on the exam before any `null` exam is always found |
| ExamDetails.AnswerMapKeys | frontend/src/components/ExamDetails/ExamDetails.jsx:174-178 | the keys are exactly the defined question indices |
| ExamDetails.AnswerMapLastWins | frontend/src/components/ExamDetails/ExamDetails.jsx:176 | each key holds the option of the last entry with that index |
| ExamDetails.AnswersObject | frontend/src/components/ExamDetails/ExamDetails.jsx:173-178 | the loop builds the answer map |
| ExamDetails.TimeTakenSeconds | frontend/src/components/ExamDetails/ExamDetails.jsx:182-187 | seconds = (end − start)/1000, present exactly when both times are |
| ExamDetails.StartOffered | frontend/src/components/ExamDetails/ExamDetails.jsx:329-345 | the start button shows exactly with nothing to resume or review, not before the open time and not after the close time |
| ExamDetails.AbsentTimesNeverBlock | frontend/src/components/ExamDetails/ExamDetails.jsx:193-194 | absent times never block the start |
| ExamDetails.ResultShownAfterClose | frontend/src/components/ExamDetails/ExamDetails.jsx:271-285 | score and status show exactly after the close time; without one neither they nor the notice show |
| ExamDetails.ExamDetailsView.constructor | frontend/src/components/ExamDetails/ExamDetails.jsx:10-27 | the initial page state, with no exam and the missing-id error when there is no exam id |
| ExamDetails.ExamDetailsView.FetchExamDetails | frontend/src/components/ExamDetails/ExamDetails.jsx:29-42 | nothing changes without an exam id; otherwise the fetched exam becomes the page's exam, or a failed request sets "Error loading exam details"; nothing else changes |
| ExamDetails.ExamDetailsView.CheckAttempt | frontend/src/components/ExamDetails/ExamDetails.jsx:45-79 | with a user and an id, the first in-progress attempt and the latest submission of this exam are recorded, and nothing else changes (the page's exam included); a raised filter changes nothing |
| ExamDetails.ExamDetailsView.ConfirmStart | frontend/src/components/ExamDetails/ExamDetails.jsx:85-145 | the page navigates exactly when there is an id, a user, no finished attempt on the exam and a fetched exam; then the questions are stored. The page's exam and attempts are kept. Otherwise an error is set with no navigation or storage write, and a finished attempt gives the one-attempt message. |
| ExamDetails.ExamDetailsView.ReviewExam | frontend/src/components/ExamDetails/ExamDetails.jsx:166-190 | with a submission, the questions of the page's exam (as before the call), the answer map and, when both times are known, the seconds taken are stored and the page navigates, and no other page state changes; without one nothing changes |
| AdminExamResults.StatsOf | frontend/src/components/Admin/ExamResults/AdminExamResults.jsx:50-54 | `totalAttempts` is the list length, `inProgressCount` counts `in_progress`, and the pass and fail counts are the completed attempts at or above, and below, `passingScore` (characterised by `PassFailPartition`) |
| AdminExamResults.PassFailPartition | frontend/src/components/Admin/ExamResults/AdminExamResults.jsx:52-53 | pass and fail together count at most the completed attempts, and all of them when the threshold and the scores are present |
| AdminExamResults.NoThresholdNoVerdict | frontend/src/components/Admin/ExamResults/AdminExamResults.jsx:52-53 | without a passing score nothing passes or fails |
| AdminExamResults.StatusCountsSum | frontend/src/components/Admin/ExamResults/AdminExamResults.jsx:51-54 | the per-status counts add up to the list length |
| AdminExamResults.CorrectCount | frontend/src/components/Admin/ExamResults/AdminExamResults.jsx:76-78 | the correct count never exceeds the completed attempts |
| AdminExamResults.RoundedRate | frontend/src/components/Admin/ExamResults/AdminExamResults.jsx:79-82 | the rate is 0 without completed attempts, otherwise `100·correct/completed` rounded to nearest |
| AdminExamResults.RoundedRateBounds | frontend/src/components/Admin/ExamResults/AdminExamResults.jsx:79-82 | the rate lies in 0..100 |
| AdminExamResults.RateAtLeast | frontend/src/components/Admin/ExamResults/AdminExamResults.jsx:83 | the exact rate reaches a threshold exactly when the cross product does |
| AdminExamResults.DifficultyBuckets | frontend/src/components/Admin/ExamResults/AdminExamResults.jsx:83 | Easy iff the rate is at least 70, Medium iff it is at least 40 and below 70, Hard otherwise |
| AdminExamResults.Insights | frontend/src/components/Admin/ExamResults/AdminExamResults.jsx:74-85 | one insight per question, in order, numbered from 1; with c of the n completed attempts correct at that position, the rate is 100·c/n rounded (0 when n is 0), and the bucket is Easy iff 100·c ≥ 70·n, Medium iff 40·n ≤ 100·c < 70·n, else Hard (always Hard when n is 0) |
| AdminExamResults.Completeds | frontend/src/components/Admin/ExamResults/AdminExamResults.jsx:74 | exactly the completed attempts, as many as the completed count |
| AdminExamResults.NoCompletedAllHard | frontend/src/components/Admin/ExamResults/AdminExamResults.jsx:79-83 | with no completed attempt every question has rate 0 and is Hard |
| AdminExamResults.RowLabel | frontend/src/components/Admin/ExamResults/AdminExamResults.jsx:208-209 | "In Progress" exactly for `in_progress`, "Pass" exactly for a completed attempt reaching the passing score, otherwise "Fail" |
| AdminExamResults.ServerPassShownAsFail | frontend/src/components/Admin/ExamResults/AdminExamResults.jsx:208-209 | server-graded `Pass` attempts read "Fail" |
| AdminExamResults.WithoutId | frontend/src/components/Admin/ExamResults/AdminExamResults.jsx:132 | exactly the entries with another id remain |
| AdminExamResults.WithoutIdAppend | frontend/src/components/Admin/ExamResults/AdminExamResults.jsx:132 | removal distributes over concatenation, so order is kept |
| AdminExamResults.WithoutAbsentId | frontend/src/components/Admin/ExamResults/AdminExamResults.jsx:132 | removing an absent id changes nothing |
| AdminExamResults.ResultsView.constructor | frontend/src/components/Admin/ExamResults/AdminExamResults.jsx:11-22 | the initial page state |
| AdminExamResults.ResultsView.FetchExamResults | frontend/src/components/Admin/ExamResults/AdminExamResults.jsx:24-93 | a missing id or a failed request sets the error and keeps the list, the counts and the insights; otherwise the list, `StatsOf` and `Insights` are set; loading ends |
| AdminExamResults.ResultsView.DeleteAttempt | frontend/src/components/Admin/ExamResults/AdminExamResults.jsx:120-139 | only a confirmed, successful delete removes the rows with that id; nothing else changes |
| SubmissionView.AnswerFor | frontend/src/components/Admin/SubmissionView/SubmissionView.jsx:185 | an answer with that index, and none exactly when no entry has it |
| SubmissionView.AnswerForIsFirst | frontend/src/components/Admin/SubmissionView/SubmissionView.jsx:185 | it is the first entry with that index |
| SubmissionView.FirstHereLastThere | frontend/src/components/Admin/SubmissionView/SubmissionView.jsx:185 | on a duplicated index this view shows the first entry and the review answer map the last |
| SubmissionView.CorrectnessCases | frontend/src/components/Admin/SubmissionView/SubmissionView.jsx:186-194 | "Correct" iff the selected option equals the correct answer, or both are absent; unanswered is "Incorrect" when a correct answer exists |
| SubmissionView.StudentAnswerText | frontend/src/components/Admin/SubmissionView/SubmissionView.jsx:216-218 | "Not Answered" without a selection, the option text in range, nothing out of range |
| SubmissionView.CorrectAnswerText | frontend/src/components/Admin/SubmissionView/SubmissionView.jsx:224-226 | the correct option's text when defined and in range, else "Not Available" |
| SubmissionView.MarksFor | frontend/src/components/Admin/SubmissionView/SubmissionView.jsx:201-202 | an option is marked correct iff it is `correctAnswer`, and the student's iff it is the selected one |
| SubmissionView.MarksUnique | frontend/src/components/Admin/SubmissionView/SubmissionView.jsx:201-202 | at most one option carries each mark |
| SubmissionView.Cards | frontend/src/components/Admin/SubmissionView/SubmissionView.jsx:184-232 | one card per question, in order, numbered from 1; it reads correct iff the first answer with that index selects the correct option or neither exists, shows "Not Answered" without a selection, the selected option's text otherwise, and the correct option's text or "Not Available" |
| SubmissionView.EmptySubmission | frontend/src/components/Admin/SubmissionView/SubmissionView.jsx:184-219 | with no answers a card is "Correct" exactly when its question has no correct answer, and reads "Not Answered" |
| SubmissionView.LoadSubmission | frontend/src/components/Admin/SubmissionView/SubmissionView.jsx:15-42 | fails without an id, on a failed fetch, and when the exam is not a populated document; otherwise loads the attempt and its exam |
| ReviewPage.FormatTime | frontend/src/components/ReviewPage/ReviewPage.jsx:49-53 | minutes are `floor(s/60)` and seconds are `s % 60` with JavaScript's sign rule |
| ReviewPage.FormatTimeRecombines | frontend/src/components/ReviewPage/ReviewPage.jsx:49-53 | for s ≥ 0, minutes·60 + seconds = s and 0 ≤ seconds < 60 |
| ReviewPage.FormatTimeNegative | frontend/src/components/ReviewPage/ReviewPage.jsx:50-51 | −30 reads as −1 min −30 sec |
| ReviewPage.TimeText | frontend/src/components/ReviewPage/ReviewPage.jsx:49-53 | the time line is `⌊t/60⌋ min (t % 60) sec` with JavaScript's truncating `%`, and "NaN min NaN sec" when `timeTaken` is absent |
| ReviewPage.TimeTextReadsMinutesAsSeconds | frontend/src/components/ReviewPage/ReviewPage.jsx:65 | the stored `timeTaken` (minutes) is formatted as seconds: 5 minutes show as "0 min 5 sec" |
| ReviewPage.StatusLabel | frontend/src/components/ReviewPage/ReviewPage.jsx:73-75 | "Completed" iff the status is `completed`, else "Incomplete" |
| ReviewPage.GradedReadsIncomplete | frontend/src/components/ReviewPage/ReviewPage.jsx:74 | `Pass` and `Fail` read "Incomplete" |
| ReviewPage.CorrectnessLabel | frontend/src/components/ReviewPage/ReviewPage.jsx:87-89 | "Correct" iff `isCorrect` is true |
| ReviewPage.MarksShown | frontend/src/components/ReviewPage/ReviewPage.jsx:90-92 | marks show exactly when positive |
| ReviewPage.Rows | frontend/src/components/ReviewPage/ReviewPage.jsx:80-95 | one row per stored answer, in order, numbered from 1; "Correct" iff the answer is marked correct, else "Incorrect"; its marks shown iff they are positive |
| ReviewPage.UngradedRows | frontend/src/components/ReviewPage/ReviewPage.jsx:85-92 | an answer without correctness or marks reads "Incorrect" with no marks |
| ReviewPage.LoadAttemptData | frontend/src/components/ReviewPage/ReviewPage.jsx:12-35 | a missing state, a missing id ("Attempt ID not found") and a missing attempt fail; otherwise the fetched attempt is shown (the logic as it would run with its missing imports supplied; see "Left out") |

## Left out

- HTTP wiring, `populate`, the database's `.sort` on listings and the Mongoose persistence internals. The store is an in-memory map, and listings are sets of ids, not arrays.
- The auth and admin middleware: the caller's id and role are inputs. Delete is reached only by admins, through that middleware.
- Request-body fields that are absent where the handler destructures them, for example an absent `answers` on submit, which makes `answers.forEach` throw.
- Mongoose's casting of strings to numbers or dates in request bodies.
- The `createdAt`/`updatedAt` timestamps.
- `GetById` when the owning user was deleted: the populated `user` is then null and the handler answers 500. The model always has the owner's id.
- `UserModel` is not part of this model. This covers its fields beyond name, email, password and role, its validation and any password hashing on save. The profile route's list-all and get-profile handlers have no logic of their own and are omitted.
- The exam document's own schema and routes, and `exam.subject`. `ExamDetailsView.ConfirmStart` assumes a subject is present, because reading its code is not modelled.
- JSON (de)serialisation of browser storage and of request bodies, `toFixed(1)` on the score, `toISOString` on the update request's `endTime` (kept as milliseconds), and `toLocaleString` date formatting.
- The floating-point `averageTime` statistic.
- AdminExamResults.StatsOf: `totalStudents` (`examResponse.data.totalStudents || 0`) is not modelled; the page never renders it.
- `AdminExamResults.RoundedRate`: states `Math.round` on the exact quotient `100·correct/completed`. It does not model floating-point rounding of `(correct/completed)*100`.
- The camera (`Camera.jsx`, `Sidebar.jsx` and the camera effect of the exam page), routing in `App.jsx`, and the presentation in `StartExamConfirmationModal.jsx` and `QuestionSection.jsx`.
- `setInterval` scheduling and async interleaving. A tick is one step taking `now`, and submit is split into its synchronous start and its completion. React's deferred state updates are not modelled: the flag takes effect at once.
- The auto-save interval only calls `SaveProgress`.
- `validateExamData` in the exam page is defined but never called.
- ExamPage.TimerThenConfirm: proved with `isSubmitting` taking effect at once. In the page, `setIsSubmitting(true)` shows only at the next render, and both the timer and the confirm handler read the rendered flag (`ExamPage.jsx:216-219`, `253-259`, `395-400`). So a timer expiry and a click before a re-render can both start a submission, and the model does not capture that.
- ReviewPage.LoadAttemptData: `ReviewPage.jsx` calls `useLocation` (line 7) and `examService` without importing them, so as written the page throws a `ReferenceError` on every render and none of its logic runs. The model states the logic as it would run with both imports supplied, and does not capture the crash.
- The messages of failed requests: a failed fetch is an absent response, with the fallback message where the page has one.
- `ExamDetails.LatestSubmission`: for attempts without `endTime` the sort comparator yields NaN and the engine's order is unspecified. The model ranks a missing end time lowest.
