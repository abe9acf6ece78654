# Training platform: progress, exams and dashboards in Dafny

This project models the core of a training platform for occupational-safety courses:

- **Adaptive practice** (`AdaptiveProgress`). The backend keeps one row per (student, course,
  question) in `adaptive_test_progress`: a streak of correct answers, a mastered flag and an
  active-set flag. `init` seeds up to 20 randomly drawn questions as the active set. `answer`
  updates the streak. Three correct answers in a row master a question, which leaves the
  active set and is replaced by an unused question when one is left.
- **Final exam, backend** (`ExamAttempts`). A student's attempts are kept in `exam_attempts`
  and the answers of a finished attempt in `exam_answers`. `start` opens an attempt of 20
  questions. `finish` counts the correct answers, stores them and records passed
  (18 or more) or failed.
- **Final exam, client** (`ExamMode`). The client draws up to 20 shuffled questions, counts
  down 20 minutes, records one answer per position, warns about unanswered questions and
  scores the exam.
- **Subscription statistics** (`SubscriptionsStats`). The page lists the assignments activated
  within a date window. Each becomes an activation record, plus an extension record when it
  used more than one subscription. The records are sorted latest first, totalled and exported
  as CSV.
- **Administrator panel** (`AdminPanel`):
  - the student search;
  - per-student and per-course statistics with rounded average progress;
  - the subscription allowance;
  - the number of request participants who already have an account;
  - the login derived from an e-mail address.
- **Student dashboard** (`StudentDashboard`). It lists the student's courses, searches the
  course's questions and runs the full test: answer by question id, "Next", "Back", the score
  and the list of wrong answers.

Shared modules:
- `Records`: the record shapes;
- `Text`: lower-casing, substring search, split and join, padding, decimal rendering;
- `Seqs`: `filter`, `find` and counting as functions with their laws;
- `Sorting`: a stable descending sort with proofs that it sorts and permutes;
- `Wrappers`: `Option`.

Where the code keeps state, the model keeps state too:
- the backend handlers are methods of `AdaptiveStore` and `AttemptStore`, with the database
  tables as fields;
- the React components are `ExamSession` and `TestRunner`, with the component state as fields.

Each method's postcondition ties its result and new state to a specification function of the
old state. The lemmas then prove what the code promises about those functions.

Randomness becomes an input:
- the indices `random.sample` returns and the id `random.choice` returns;
- the order the client's shuffle put the questions in.

Each input is constrained only as the library guarantees.

Clocks become parameters: `CURRENT_TIMESTAMP` is `now`, and locale date formatting is a
function parameter. Dates are integers, since only their order matters.

Behaviour worth noting in the code:
- `init` seeds min(20, n) randomly drawn questions, not a fixed number of questions in
  catalogue order;
- an answer to a mastered or unknown question is accepted, with no error;
- mastery can be lost: a wrong answer keeps the mastered flag but resets the streak, and the
  next correct answer clears the flag. `MasteryCanBeLost` shows it.

## Model

| member | source | states |
|---|---|---|
| AdaptiveProgress.InitSeedsSample | backend/adaptive-progress/index.py:80-94 | The first `init` of a pair, given distinct ids, inserts exactly min(20, n) fresh rows. Their ids are distinct members of the list and form the whole active set. Nothing is mastered, the reply lists exactly those ids, and other pairs are untouched. |
| AdaptiveProgress.InitIdempotent | backend/adaptive-progress/index.py:74-100 | A second `init` changes nothing and replies "Already initialized". The one exception is a first call that seeded nothing (an empty id list). |
| AdaptiveProgress.CorrectAnswerRow | backend/adaptive-progress/index.py:109-124 | A correct answer sets the streak to the old streak plus 1 (1 with no row). The row is mastered exactly when the streak reaches 3, and the reply says mastered exactly then. Mastery clears the active flag, any other correct answer keeps it, and a new row is active. |
| AdaptiveProgress.WrongAnswerRow | backend/adaptive-progress/index.py:153-164 | A wrong answer replies "updated" and sets the streak to 0. It keeps both flags of an existing row; a missing row is inserted fresh. |
| AdaptiveProgress.Replenishment | backend/adaptive-progress/index.py:124-152 | Mastery inserts at most one row. Its id is in the list, differs from the answered id and had no row, so it was neither mastered nor active; the row is fresh. The reply's active set is the old one, minus the mastered id, plus the new id. |
| AdaptiveProgress.ActiveCountAfterMastery | backend/adaptive-progress/index.py:124-152 | Mastering an active question keeps the active count when a replacement exists and lowers it by one when none does. |
| AdaptiveProgress.AnswerFrame | backend/adaptive-progress/index.py:119-157 | An answer changes only the answered row, plus at most the one inserted row, and nothing of other pairs. |
| AdaptiveProgress.AnswerKeepsConsistent | backend/adaptive-progress/index.py:119-143 | If the answered question is active, every row stays either active and unmastered or mastered and inactive. The replacement insert never collides, and the mastered set grows only by the answered question. |
| AdaptiveProgress.InsertFreshKeepsConsistent | backend/adaptive-progress/index.py:139-144 | Inserting a fresh row for an id that is neither active nor mastered finds no existing row, keeps the invariant and leaves the mastered set unchanged. |
| AdaptiveProgress.UpsertKeepsConsistent | backend/adaptive-progress/index.py:115-157 | The upsert of an active question keeps every row active-and-unmastered or mastered-and-inactive. |
| AdaptiveProgress.ConsistentViews | backend/adaptive-progress/index.py:131-137 | Under that invariant, the used set of the replacement query is exactly the pair's questions, and the active and mastered sets split them. |
| AdaptiveProgress.InitBalanced | backend/adaptive-progress/index.py:80-87 | After the first `init`, the active set holds min(20, n − mastered) questions. |
| AdaptiveProgress.AnswerKeepsBalanced | backend/adaptive-progress/index.py:109-157 | Answering an active question keeps the active set at min(20, n − mastered). |
| AdaptiveProgress.NoCandidateIffAllUsed | backend/adaptive-progress/index.py:137-139 | The candidate list is empty exactly when every listed id is already used. |
| AdaptiveProgress.CompletionIffNoActive | backend/adaptive-progress/index.py:124-152 | With a balanced active set, every question is mastered exactly when no question is active. |
| AdaptiveProgress.MasteryCanBeLost | backend/adaptive-progress/index.py:115-157 | Three correct answers master a question. A wrong answer and then a correct one leave it unmastered with streak 1. |
| AdaptiveProgress.WriteRowViews | backend/adaptive-progress/index.py:119-122 | Writing one row of a pair adds its question to the pair and moves it into or out of the active and mastered sets according to its flags. |
| AdaptiveProgress.AdaptiveStore.constructor | backend/adaptive-progress/index.py:28-29 | The store starts with an empty table. |
| AdaptiveProgress.AdaptiveStore.List | backend/adaptive-progress/index.py:32-63 | GET replies 400 without both ids, and otherwise with exactly the pair's rows. It changes nothing. |
| AdaptiveProgress.AdaptiveStore.Init | backend/adaptive-progress/index.py:69-100 | The reply and new table are those of `InitSpec` on the old table. |
| AdaptiveProgress.AdaptiveStore.Answer | backend/adaptive-progress/index.py:102-164 | It draws a replacement that satisfies `ValidChoice`, and the reply and new table are those of `AnswerSpec` for that draw. |
| AdaptiveProgress.AdaptiveStore.Handle | backend/adaptive-progress/index.py:31-170 | It dispatches on the method and action. OPTIONS gives the preflight reply, other methods and unknown actions give 405, and none of these changes the table. GET leaves the table alone and replies 400 without both ids, otherwise with exactly the pair's rows. `init` and `answer` behave as `InitSpec` and `AnswerSpec` say. |
| ExamAttempts.Listing | backend/exam-attempts/index.py:44-60 | The listing holds exactly the pair's attempts, as a multiset, with the latest start first. |
| ExamAttempts.RowsOf | backend/exam-attempts/index.py:96-104 | One answer row per submitted answer, in order, stamped with the attempt id. |
| ExamAttempts.StatusFor | backend/exam-attempts/index.py:106 | Passed exactly when 18 or more answers are correct. |
| ExamAttempts.Finalize | backend/exam-attempts/index.py:108-111 | Only the attempt with the given id gets its finish time, time spent, count and status; a missing id matches none. |
| ExamAttempts.CountCorrectIsCount | backend/exam-attempts/index.py:95-99 | The loop's count equals the number of answers whose `isCorrect` is true; a missing field counts as false. |
| ExamAttempts.CountCorrectExtremes | backend/exam-attempts/index.py:95-106 | All correct gives n and none correct gives 0. A pass needs at least 18 answers. |
| ExamAttempts.AttemptStore.constructor | backend/exam-attempts/index.py:28-29 | Both tables start empty. |
| ExamAttempts.AttemptStore.List | backend/exam-attempts/index.py:32-66 | GET replies 400 without both ids, and otherwise with the listing. It changes nothing. |
| ExamAttempts.AttemptStore.StartAttempt | backend/exam-attempts/index.py:72-88 | Appends an attempt of 20 questions started at `now`, under a fresh id, and replies with that id. |
| ExamAttempts.AttemptStore.FinishAttempt | backend/exam-attempts/index.py:90-119 | The loop counts the correct answers and appends their rows. The attempt is finalized, and the reply carries the verdict and the count. |
| ExamAttempts.AttemptStore.Handle | backend/exam-attempts/index.py:31-125 | It dispatches on the method and action. OPTIONS gives the preflight reply, anything else gives 405, and only `start` and `finish` change the tables. GET gives the listing or 400. `start` and `finish` state their whole new state and reply, as `StartAttempt` and `FinishAttempt` do. |
| ExamMode.ChooseExamQuestions | src/components/ExamMode.tsx:29-32 | min(20, n) questions, taken from the shuffled positions in order. |
| ExamMode.ChosenIsSubMultiset | src/components/ExamMode.tsx:29-32 | The exam's questions are drawn from the bank without repetition. |
| ExamMode.PickSubMultiset | src/components/ExamMode.tsx:30-31 | Picking at distinct positions yields a sub-multiset of the list. |
| ExamMode.ClockRunsDown | src/components/ExamMode.tsx:42-57 | From 1200 seconds the clock shows 1200 − k after k ticks. It reaches 0 and finishes the exam on tick 1200, then stays there. |
| ExamMode.FormatTimeRoundTrip | src/components/ExamMode.tsx:59-63 | `m:ss` splits at the colon into digits and two digits below 60, and minutes × 60 + seconds gives the input back. |
| ExamMode.TwoDigits | src/components/ExamMode.tsx:62 | Padding seconds below 60 gives exactly two digits of the same value. |
| ExamMode.UnansweredMembers | src/components/ExamMode.tsx:73-75 | The unanswered list holds exactly the positions below n with no answer, in ascending order. |
| ExamMode.UnansweredEmptyIff | src/components/ExamMode.tsx:73-84 | The list is empty exactly when every position has an answer. |
| ExamMode.CorrectCountBound | src/components/ExamMode.tsx:105-111 | The correct count plus the unanswered count is at most n. |
| ExamMode.CorrectCountFull | src/components/ExamMode.tsx:105-111 | The count is n exactly when every position holds its correct option. |
| ExamMode.ExamSession.constructor | src/components/ExamMode.tsx:29-39 | The exam questions are chosen, with the index at 0, no answers, 1200 seconds on the clock and both dialogs closed. |
| ExamMode.ExamSession.Tick | src/components/ExamMode.tsx:42-57 | It follows `TickSpec`: no tick once finished, and the last second sets the clock to 0 and finishes the exam. |
| ExamMode.ExamSession.SelectAnswer | src/components/ExamMode.tsx:65-67 | Sets the answer at the current position and no other. |
| ExamMode.ExamSession.Navigate | src/components/ExamMode.tsx:69-71 | Moves to the given position. |
| ExamMode.ExamSession.Back | src/components/ExamMode.tsx:301-305 | Offered past the first question; moves back one. |
| ExamMode.ExamSession.Next | src/components/ExamMode.tsx:310-313 | Offered before the last question; moves forward one. |
| ExamMode.ExamSession.HandleFinishClick | src/components/ExamMode.tsx:77-84 | Opens the unanswered warning when some position has no answer, and the confirmation otherwise. |
| ExamMode.ExamSession.FinishExam | src/components/ExamMode.tsx:90-103 | Finishes the exam and closes both dialogs. |
| ExamMode.ExamSession.CalculateResults | src/components/ExamMode.tsx:105-118 | The loop's count equals `CorrectCount`, the total is the exam's length, and the exam is passed exactly when the count is 18 or more. |
| SubscriptionsStats.FilteredAssignments | src/pages/SubscriptionsStats.tsx:23-29 | Exactly the assignments activated within the window are kept, each as often as it is stored, so their number is the count of covered assignments. |
| SubscriptionsStats.Expand | src/pages/SubscriptionsStats.tsx:31-62 | One activation record of 1 subscription, plus an extension record of `subscriptionsUsed − 1` when more than one was used. It fixes their ids, dates and the names with their fallbacks. |
| SubscriptionsStats.ExpandTotals | src/pages/SubscriptionsStats.tsx:38-60 | One assignment's records add up to max(1, subscriptionsUsed), with one activation and one extension exactly when more than one was used. |
| SubscriptionsStats.ExpandedTotals | src/pages/SubscriptionsStats.tsx:31-62 | The same figures summed over a list of assignments. |
| SubscriptionsStats.HistoryOrdered | src/pages/SubscriptionsStats.tsx:31-63 | The history is sorted latest first and is a permutation of the expanded records. |
| SubscriptionsStats.HistoryFigures | src/pages/SubscriptionsStats.tsx:65-166 | The total written off is the sum of the covered assignments' costs. There is one activation per covered assignment and one extension per covered assignment that used more than one subscription. |
| SubscriptionsStats.EveryRecordIsOneKind | src/pages/SubscriptionsStats.tsx:45-57 | Activations plus extensions is the number of records. |
| SubscriptionsStats.DataLines | src/pages/SubscriptionsStats.tsx:69-80 | One quoted CSV line per record, in history order. |
| SubscriptionsStats.LineHasNoBreak | src/pages/SubscriptionsStats.tsx:80 | A row whose cells hold no line break is written on one line. |
| SubscriptionsStats.CsvLines | src/pages/SubscriptionsStats.tsx:78-81 | With single-line cells, the file splits on line breaks into the header line followed by exactly one line per record. |
| AdminPanel.FilteredStudentsMembers | src/pages/AdminPanel.tsx:29-33 | The search keeps exactly the students whose name or e-mail contains the term, ignoring case. |
| AdminPanel.EmptySearchListsAll | src/pages/AdminPanel.tsx:30-33 | An empty term lists every student. |
| AdminPanel.SearchIgnoresCase | src/pages/AdminPanel.tsx:30-33 | A term and its lower-cased form find the same students. |
| AdminPanel.RoundedMean | src/pages/AdminPanel.tsx:46 | `Math.round(total / count)` is the nearest integer, with halves rounded up. |
| AdminPanel.RoundedMeanBetween | src/pages/AdminPanel.tsx:45-47 | The mean of values within [lo, hi] rounds into [lo, hi]. |
| AdminPanel.AverageProgressBounds | src/pages/AdminPanel.tsx:45-77 | No assignments give 0; progress values within 0..100 give an average within 0..100. |
| AdminPanel.InProgressAsWritten | src/pages/AdminPanel.tsx:44 | The code's count of assignments whose status is `in_progress`. |
| AdminPanel.InProgressAsWrittenIsZero | src/pages/AdminPanel.tsx:44 | That count is 0 for every list of assignments. |
| AdminPanel.GetStudentStats | src/pages/AdminPanel.tsx:41-50 | The statistics with the in-progress count taken over active assignments. |
| AdminPanel.StudentStatsCounts | src/pages/AdminPanel.tsx:41-50 | The total is the student's assignment count. Completed plus in progress is at most the total. In progress is 0 exactly when no assignment of the student is active, and no assignments give average 0. |
| AdminPanel.GetStudentAssignments | src/pages/AdminPanel.tsx:52-57 | The student's assignments in order, each with the course of that id when there is one, and otherwise with none. |
| AdminPanel.StudentAssignmentsAreTheirs | src/pages/AdminPanel.tsx:53 | Every listed assignment is one of the student's. |
| AdminPanel.CourseStatsBounds | src/pages/AdminPanel.tsx:71-80 | Students is the course's assignment count and completed is at most that, for any data. The average is 0 with no students, and a percentage when every progress is one. |
| AdminPanel.RemainingSubscriptionsSpent | src/pages/AdminPanel.tsx:59-61 | With no assignments 100 remain, and each further assignment lowers the remainder by its subscriptions. |
| AdminPanel.RemainingAtMostAllowance | src/pages/AdminPanel.tsx:59-61 | With non-negative usage, at most 100 remain. |
| AdminPanel.ReadyCountBounds | src/pages/AdminPanel.tsx:283 | The ready count is the number of participants with an account. It is at most the participant count, and equal to it exactly when everyone has an account. |
| AdminPanel.LoginIsLocalPart | src/pages/AdminPanel.tsx:540 | The login is the prefix of the address before its first `@`, and the whole address when it has no `@`. |
| AdminPanel.LoginOfAddress | src/pages/AdminPanel.tsx:540 | The login of `name@domain` is `name` when the name has no `@`. |
| StudentDashboard.MyAssignments | src/pages/StudentDashboard.tsx:27 | Exactly the current student's assignments. |
| StudentDashboard.CourseOf | src/pages/StudentDashboard.tsx:29 | The course of an assignment has its course id, and there is none exactly when no course has that id. |
| StudentDashboard.MyCoursesExactly | src/pages/StudentDashboard.tsx:27-31 | Every entry pairs one of the student's assignments with the course it names. Every assignment of the student whose course exists under a non-empty id is listed. |
| StudentDashboard.JoinCoursesSound | src/pages/StudentDashboard.tsx:28-31 | Every joined entry's course exists, has a non-empty id and is the one its assignment names. |
| StudentDashboard.JoinCoursesComplete | src/pages/StudentDashboard.tsx:28-31 | An assignment whose course exists under a non-empty id is not dropped. |
| StudentDashboard.CourseQuestions | src/pages/StudentDashboard.tsx:34 | Exactly the selected course's questions, and none while no course is selected. |
| StudentDashboard.FilteredQuestions | src/pages/StudentDashboard.tsx:38-41 | A question is kept exactly when its text or one of its options contains the query, ignoring case. |
| StudentDashboard.EmptyQueryKeepsAll | src/pages/StudentDashboard.tsx:38-41 | An empty query keeps every question. |
| StudentDashboard.QuestionSearchIgnoresCase | src/pages/StudentDashboard.tsx:38-41 | A query and its lower-cased form find the same questions. |
| StudentDashboard.AfterNext | src/pages/StudentDashboard.tsx:54-60 | "Next" either advances by one to a question that exists, keeping the results hidden or shown, or stays and shows the results. The shown index stays on a question. |
| StudentDashboard.WalkThrough | src/pages/StudentDashboard.tsx:43-60 | From a fresh start with n > 0 questions, k < n presses of "Next" show question k with the results hidden. The n-th press stays on question n − 1 and shows the results. |
| StudentDashboard.BackIndex | src/pages/StudentDashboard.tsx:317 | max(0, index − 1). |
| StudentDashboard.BackUndoesNext | src/pages/StudentDashboard.tsx:317 | "Back" after an advancing "Next" returns to the question it left. |
| StudentDashboard.WrongAnswers | src/pages/StudentDashboard.tsx:72-74 | Exactly the questions with no recorded answer or a recorded answer other than the correct option. |
| StudentDashboard.ScoreAddsUp | src/pages/StudentDashboard.tsx:62-74 | The correct count plus the number of wrong answers is the number of questions. |
| StudentDashboard.NoWrongIffAllCorrect | src/pages/StudentDashboard.tsx:62-74 | No wrong answers exactly when every question is answered correctly. |
| StudentDashboard.FreshTestScoresNothing | src/pages/StudentDashboard.tsx:43-74 | With no answers recorded, every question is wrong and none is correct. |
| StudentDashboard.AnswerTouchesOneQuestion | src/pages/StudentDashboard.tsx:50-65 | Recording an answer for one id changes the verdict on no question with another id. |
| StudentDashboard.TestRunner.constructor | src/pages/StudentDashboard.tsx:19-22 | No mode, index 0, no answers, results hidden. |
| StudentDashboard.TestRunner.StartTest | src/pages/StudentDashboard.tsx:43-48 | Sets the mode, index 0, no answers, results hidden. |
| StudentDashboard.TestRunner.AnswerSelect | src/pages/StudentDashboard.tsx:50-52 | Overwrites the answer of that question id only. |
| StudentDashboard.TestRunner.NextQuestion | src/pages/StudentDashboard.tsx:54-60 | Moves as `AfterNext` says and keeps the index on a question. |
| StudentDashboard.TestRunner.Back | src/pages/StudentDashboard.tsx:317 | Sets the index to `BackIndex` and keeps it on a question. |
| StudentDashboard.TestRunner.CalculateScore | src/pages/StudentDashboard.tsx:62-68 | The loop's count equals `CorrectCount`, and with the wrong answers it makes up all questions. |
| Seqs.FindIsFirst | src/pages/SubscriptionsStats.tsx:32-34 | `find` returns the element at the first position that matches. |
| Seqs.FilterCount | src/pages/AdminPanel.tsx:43 | A filter keeps as many elements as match, so `filter(p).length` is a count. |
| Seqs.FilterSubMultiset | src/pages/SubscriptionsStats.tsx:23 | `filter` keeps each element at most as often as the input holds it. |
| Sorting.SortDescSorted | src/pages/SubscriptionsStats.tsx:63 | The comparator sort orders the records latest first. |
| Sorting.SortDescPermutes | src/pages/SubscriptionsStats.tsx:63 | The sort keeps every record, with the same sums and counts. |
| Text.LowerHasNoCapitals | src/pages/AdminPanel.tsx:31 | `toLowerCase` leaves no capital letter and is idempotent. |
| Text.ContainsIffOccurs | src/pages/AdminPanel.tsx:31 | `includes` holds exactly when the term occurs at some position. |
| Text.SplitJoin | src/pages/SubscriptionsStats.tsx:78-81 | Splitting a join of separator-free parts gives the parts back. |
| Text.NatToStringRoundTrip | src/components/ExamMode.tsx:62 | The decimal rendering of a number is a run of digits whose value is that number. |

## Left out

- Database and HTTP plumbing are not modelled: connections, cursors, commits, SQL text, JSON parsing and the CORS headers. Tables are in-memory maps or sequences, and replies are a datatype.
- A failed INSERT on the adaptive progress key is modelled as the reply `Raised` with the table unchanged, since the exception aborts before the commit. Failures of the database itself are not modelled.
- Concurrency is not modelled. The read-modify-write of the answer handler has no locking, and races between requests are out of scope.
- The random draws (`random.sample`, `random.choice`, the `Math.random` shuffle) are inputs constrained as the libraries guarantee. Their distribution is not modelled.
- `Date.now`, timers and the time spent are out, because they are clock and scheduling concerns. Only the timer callback is modelled.
- Locale date formatting (`toLocaleDateString`) is a function parameter.
- The current-month subscription figure (`usedThisMonth`) is out, because it needs calendar arithmetic.
- Floating-point percentages are out: the student dashboard's score percentage and the progress bar widths.
- StudentDashboard.TestRunner.CalculateScore: returns the correct count only. The source returns `Math.round((correct / n) * 100)` in floating point, and that percentage is not modelled.
- StudentDashboard.TestRunner: the selected course, and so the question list, is fixed for one runner. The UI disables "Next" until the current question is answered, and disables "Back" on the first question; the handlers are modelled without these guards.
- AdaptiveProgress.AdaptiveStore.Answer: the reply's active set is a set. The source builds it as a list in query order, and that order is not modelled.
- ExamAttempts.Listing: attempts with equal start times come in an order the database chooses; the model only states that the listing is non-increasing.
- ExamAttempts: a body field `isCorrect` sent as an explicit JSON null is treated like one that is missing.
- ExamMode.ExamSession.FinishExam: the source also counts correct answers and time spent and then discards both. Only the state change is modelled.
- Text.Lower: lower-cases Latin and basic Cyrillic letters only, not the full Unicode case mapping.
- SubscriptionsStats.Quote: a quote character inside a cell is written as is, as in the source. CSV escaping is not treated as a defect here.
- The blob, the byte-order mark, the download link and the clipboard are out, because they are browser I/O.
- The adaptive test client, the exam statistics dialog, the fixture data, the login page, the landing page and the spreadsheet helper are not part of this model.

## Findings

| source | as written | input that shows it | evidently intended | confidence | as-written member | corrected member |
|---|---|---|---|---|---|---|
| src/pages/AdminPanel.tsx:44 | `inProgress` counts assignments whose status is `'in_progress'`, a value an assignment's status (`draft`, `active`, `completed`) never takes | any student with an active assignment, e.g. one assignment of status `active`: inProgress is 0 | count the assignments in progress, i.e. of status `active` | low to medium (the figure is computed but not shown); not executed | AdminPanel.InProgressAsWrittenIsZero | AdminPanel.StudentStatsCounts |
