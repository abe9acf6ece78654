/**
 * The exam-attempt store behind the final exam: the `exam_attempts` table (one row per exam
 * taken), the `exam_answers` table (one row per answered question of a finished attempt) and
 * the HTTP handler that lists a student's attempts, starts an attempt and finishes it.
 *
 * `AttemptStore` holds both tables as sequences in insertion order and a counter standing for
 * the `id` sequence of `exam_attempts`. `CURRENT_TIMESTAMP` is the parameter `now`.
 */
module ExamAttempts {
  import opened Wrappers
  import Sorting
  import Seqs

  /** Every attempt is started with this many questions. */
  const TotalQuestions: nat := 20

  /** An attempt with at least this many correct answers is passed. */
  const PassMark: nat := 18

  datatype Status = Passed | Failed

  /**
   * A row of `exam_attempts`. The columns `start` leaves unset (`finished_at`,
   * `time_spent_seconds`, `correct_answers`, `status`) are `None` until `finish` sets them.
   */
  datatype Attempt = Attempt(
    id: nat,
    studentId: Option<string>,
    courseId: Option<string>,
    studentName: Option<string>,
    startedAt: int,
    finishedAt: Option<int>,
    timeSpentSeconds: Option<int>,
    correctAnswers: Option<nat>,
    totalQuestions: nat,
    status: Option<Status>)

  /** One submitted answer of the `finish` body; `None` is a field the client left out. */
  datatype SubmittedAnswer = SubmittedAnswer(
    questionId: Option<string>,
    questionText: Option<string>,
    selectedAnswer: Option<string>,
    correctAnswer: Option<string>,
    isCorrect: Option<bool>)

  /** A row of `exam_answers`. */
  datatype AnswerRow = AnswerRow(
    examAttemptId: Option<nat>,
    questionId: Option<string>,
    questionText: Option<string>,
    selectedAnswer: Option<string>,
    correctAnswer: Option<string>,
    isCorrect: bool)

  datatype Response =
    | Preflight                                          // OPTIONS: 200, CORS headers
    | MissingIds                                         // GET without studentId or courseId: 400
    | Attempts(attempts: seq<Attempt>)                   // GET: 200 with the pair's attempts
    | Started(attemptId: nat)                            // start: 200 with the new id
    | Finished(status: Status, correctAnswers: nat)      // finish: 200 with the verdict
    | MethodNotAllowed                                   // anything else: 405

  datatype Request =
    | Options
    | Get(studentId: Option<string>, courseId: Option<string>)
    | Start(studentId: Option<string>, courseId: Option<string>, studentName: Option<string>)
    | Finish(attemptId: Option<nat>, answers: seq<SubmittedAnswer>, timeSpentSeconds: Option<int>)
    | OtherPost                                          // POST whose action is neither start nor finish
    | OtherMethod

  /** A query parameter Python treats as given: present and not the empty string. */
  predicate Given(p: Option<string>) {
    p.Some? && p.value != ""
  }

  // ---------------------------------------------------------------- listing

  function StartedAt(a: Attempt): int {
    a.startedAt
  }

  function OfPair(attempts: seq<Attempt>, s: string, c: string): (r: seq<Attempt>)
    ensures forall a :: a in r <==> a in attempts && a.studentId == Some(s) && a.courseId == Some(c)
  {
    if attempts == [] then []
    else (if attempts[0].studentId == Some(s) && attempts[0].courseId == Some(c) then [attempts[0]] else [])
         + OfPair(attempts[1..], s, c)
  }

  /**
   * `... WHERE student_id = s AND course_id = c ORDER BY started_at DESC`: exactly the pair's
   * attempts, each as often as it is stored, latest start first.
   */
  function Listing(attempts: seq<Attempt>, s: string, c: string): (r: seq<Attempt>)
    ensures multiset(r) == multiset(OfPair(attempts, s, c))
    ensures forall a :: a in r <==> a in attempts && a.studentId == Some(s) && a.courseId == Some(c)
    ensures forall i, j :: 0 <= i < j < |r| ==> r[i].startedAt >= r[j].startedAt
  {
    var pair := OfPair(attempts, s, c);
    Sorting.SortDescSorted(pair, StartedAt);
    Sorting.SortDescPermutes(pair, StartedAt, StartedAt, _ => true);
    var r := Sorting.SortDesc(pair, StartedAt);
    assert forall a :: a in r <==> a in multiset(r);
    assert forall a :: a in pair <==> a in multiset(pair);
    r
  }

  // ---------------------------------------------------------------- finish

  /** `if answer.get('isCorrect', False)`: only an explicit `true` counts. */
  predicate Truthy(a: SubmittedAnswer) {
    a.isCorrect == Some(true)
  }

  /** The number of submitted answers marked correct, counted from the first. */
  function CountCorrect(answers: seq<SubmittedAnswer>): (r: nat)
    ensures r <= |answers|
  {
    if answers == [] then 0
    else CountCorrect(answers[..|answers| - 1]) + (if Truthy(answers[|answers| - 1]) then 1 else 0)
  }

  /** The stored row of one answer; a missing `isCorrect` is stored as false. */
  function RowOf(attemptId: Option<nat>, a: SubmittedAnswer): AnswerRow {
    AnswerRow(attemptId, a.questionId, a.questionText, a.selectedAnswer, a.correctAnswer, a.isCorrect.GetOr(false))
  }

  /** One row per submitted answer, in the order submitted. */
  function RowsOf(attemptId: Option<nat>, answers: seq<SubmittedAnswer>): (r: seq<AnswerRow>)
    ensures |r| == |answers|
    ensures forall i :: 0 <= i < |r| ==> r[i] == RowOf(attemptId, answers[i])
  {
    seq(|answers|, i requires 0 <= i < |answers| => RowOf(attemptId, answers[i]))
  }

  function StatusFor(correct: nat): (r: Status)
    ensures r == Passed <==> correct >= PassMark
  {
    if correct >= PassMark then Passed else Failed
  }

  /** `UPDATE exam_attempts SET ... WHERE id = attemptId`: only the attempt with that id changes; a missing id matches none. */
  function Finalize(attempts: seq<Attempt>, attemptId: Option<nat>, now: int, timeSpent: Option<int>, correct: nat): (r: seq<Attempt>)
    ensures |r| == |attempts|
    ensures forall i :: 0 <= i < |r| ==>
              if Some(attempts[i].id) == attemptId
              then r[i] == attempts[i].(finishedAt := Some(now), timeSpentSeconds := timeSpent,
                                        correctAnswers := Some(correct), status := Some(StatusFor(correct)))
              else r[i] == attempts[i]
  {
    seq(|attempts|, i requires 0 <= i < |attempts| =>
      if Some(attempts[i].id) == attemptId
      then attempts[i].(finishedAt := Some(now), timeSpentSeconds := timeSpent,
                        correctAnswers := Some(correct), status := Some(StatusFor(correct)))
      else attempts[i])
  }

  /** The count agrees with counting the marked answers from the front, the way `Seqs.CountBy` does. */
  lemma {:induction false} CountCorrectIsCount(answers: seq<SubmittedAnswer>)
    ensures CountCorrect(answers) == Seqs.CountBy(answers, Truthy)
  {
    if answers != [] {
      var init := answers[..|answers| - 1];
      var last := answers[|answers| - 1];
      CountCorrectIsCount(init);
      Seqs.CountByAppend(init, [last], Truthy);
      assert answers == init + [last];
      assert [last][1..] == [];
    }
  }

  /** All answers correct gives the full count, none correct gives 0, and a pass needs at least 18 answers. */
  lemma {:induction false} CountCorrectExtremes(answers: seq<SubmittedAnswer>)
    ensures (forall i :: 0 <= i < |answers| ==> Truthy(answers[i])) ==> CountCorrect(answers) == |answers|
    ensures (forall i :: 0 <= i < |answers| ==> !Truthy(answers[i])) ==> CountCorrect(answers) == 0
    ensures StatusFor(CountCorrect(answers)) == Passed ==> |answers| >= PassMark
  {
    if answers != [] {
      CountCorrectExtremes(answers[..|answers| - 1]);
    }
  }

  // ---------------------------------------------------------------- the store

  class AttemptStore {
    var attempts: seq<Attempt>
    var answerRows: seq<AnswerRow>
    var nextId: nat

    /** Every stored id was handed out by the sequence, and no two attempts share one. */
    ghost predicate Valid()
      reads this
    {
      && (forall i :: 0 <= i < |attempts| ==> attempts[i].id < nextId)
      && (forall i, j :: 0 <= i < j < |attempts| ==> attempts[i].id != attempts[j].id)
    }

    constructor ()
      ensures attempts == [] && answerRows == [] && nextId == 1
      ensures Valid()
    {
      attempts := [];
      answerRows := [];
      nextId := 1;
    }

    /** GET: the pair's attempts, latest first, or 400 when either id is missing. */
    method List(studentId: Option<string>, courseId: Option<string>) returns (r: Response)
      ensures r == if Given(studentId) && Given(courseId)
                   then Attempts(Listing(attempts, studentId.value, courseId.value)) else MissingIds
    {
      if !Given(studentId) || !Given(courseId) {
        return MissingIds;
      }
      r := Attempts(Listing(attempts, studentId.value, courseId.value));
    }

    /** POST `start`: a new attempt of 20 questions started now, under an id no attempt has. */
    method StartAttempt(studentId: Option<string>, courseId: Option<string>, studentName: Option<string>, now: int)
      returns (r: Response)
      requires Valid()
      modifies this
      ensures Valid()
      ensures r == Started(old(nextId))
      ensures forall i :: 0 <= i < |old(attempts)| ==> old(attempts)[i].id != r.attemptId
      ensures attempts == old(attempts) + [Attempt(old(nextId), studentId, courseId, studentName, now,
                                                   None, None, None, TotalQuestions, None)]
      ensures answerRows == old(answerRows) && nextId == old(nextId) + 1
    {
      var id := nextId;
      attempts := attempts + [Attempt(id, studentId, courseId, studentName, now, None, None, None, TotalQuestions, None)];
      nextId := nextId + 1;
      r := Started(id);
    }

    /**
     * POST `finish`: counts the answers marked correct and stores one row per answer, then
     * records the time, the count and the verdict on the attempt, and replies with them.
     */
    method FinishAttempt(attemptId: Option<nat>, answers: seq<SubmittedAnswer>, timeSpent: Option<int>, now: int)
      returns (r: Response)
      requires Valid()
      modifies this
      ensures Valid()
      ensures r == Finished(StatusFor(CountCorrect(answers)), CountCorrect(answers))
      ensures answerRows == old(answerRows) + RowsOf(attemptId, answers)
      ensures attempts == Finalize(old(attempts), attemptId, now, timeSpent, CountCorrect(answers))
      ensures nextId == old(nextId)
    {
      var correctCount := 0;
      var rows := answerRows;
      for i := 0 to |answers|
        invariant correctCount == CountCorrect(answers[..i])
        invariant rows == old(answerRows) + RowsOf(attemptId, answers[..i])
      {
        assert answers[..i + 1][..i] == answers[..i];
        if answers[i].isCorrect.GetOr(false) {
          correctCount := correctCount + 1;
        }
        rows := rows + [RowOf(attemptId, answers[i])];
        assert RowsOf(attemptId, answers[..i + 1]) == RowsOf(attemptId, answers[..i]) + [RowOf(attemptId, answers[i])];
      }
      assert answers[..|answers|] == answers;
      answerRows := rows;
      var status := if correctCount >= PassMark then Passed else Failed;
      attempts := Finalize(attempts, attemptId, now, timeSpent, correctCount);
      r := Finished(status, correctCount);
    }

    /** The handler: dispatch on the HTTP method and the action. */
    method Handle(req: Request, now: int) returns (r: Response)
      requires Valid()
      modifies this
      ensures Valid()
      ensures req.Options? ==> r == Preflight
      ensures req.OtherPost? || req.OtherMethod? ==> r == MethodNotAllowed
      ensures !req.Start? && !req.Finish? ==> attempts == old(attempts) && answerRows == old(answerRows) && nextId == old(nextId)
      ensures req.Get? ==> r == if Given(req.studentId) && Given(req.courseId)
                                then Attempts(Listing(attempts, req.studentId.value, req.courseId.value)) else MissingIds
      ensures req.Start? ==>
                && r == Started(old(nextId))
                && attempts == old(attempts) + [Attempt(old(nextId), req.studentId, req.courseId, req.studentName, now,
                                                        None, None, None, TotalQuestions, None)]
                && answerRows == old(answerRows) && nextId == old(nextId) + 1
      ensures req.Finish? ==>
                && r == Finished(StatusFor(CountCorrect(req.answers)), CountCorrect(req.answers))
                && answerRows == old(answerRows) + RowsOf(req.attemptId, req.answers)
                && attempts == Finalize(old(attempts), req.attemptId, now, req.timeSpentSeconds, CountCorrect(req.answers))
                && nextId == old(nextId)
    {
      match req
      case Options => r := Preflight;
      case Get(s, c) => r := List(s, c);
      case Start(s, c, name) => r := StartAttempt(s, c, name, now);
      case Finish(id, answers, time) => r := FinishAttempt(id, answers, time, now);
      case OtherPost => r := MethodNotAllowed;
      case OtherMethod => r := MethodNotAllowed;
    }
  }
}
