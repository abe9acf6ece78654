/**
 * The student's dashboard: the courses assigned to the signed-in student, the question
 * search of the selected course, and the full-test runner that walks through the course's
 * questions one at a time, records an answer per question id and, after the last question,
 * shows the score and the questions answered wrongly.
 *
 * `TestRunner` holds the runner's component state for one selected course; its methods are
 * the event handlers. The course's question list is fixed while a test runs.
 */
module StudentDashboard {
  import opened Wrappers
  import opened Records
  import opened Text
  import opened Seqs

  // ---------------------------------------------------------------- my courses

  /** A course the student is enrolled in, together with the assignment that enrols them. */
  datatype MyCourse = MyCourse(course: Course, assignment: CourseAssignment)

  /** The course an assignment refers to: the first course with that id. */
  function CourseOf(courses: seq<Course>, a: CourseAssignment): (r: Option<Course>)
    ensures r.Some? ==> r.value in courses && r.value.id == a.courseId
    ensures r.None? <==> forall c :: c in courses ==> c.id != a.courseId
  {
    Find(courses, (c: Course) => c.id == a.courseId)
  }

  /** The student's own assignments, in their order. */
  function MyAssignments(assignments: seq<CourseAssignment>, userId: string): (r: seq<CourseAssignment>)
    ensures forall a :: a in r <==> a in assignments && a.studentId == userId
  {
    Filter(assignments, (a: CourseAssignment) => a.studentId == userId)
  }

  /**
   * Each assignment merged with its course; an entry whose merged id is empty (no such
   * course, or a course with an empty id) is dropped.
   */
  function JoinCourses(courses: seq<Course>, mine: seq<CourseAssignment>): (r: seq<MyCourse>)
    ensures |r| <= |mine|
  {
    if mine == [] then []
    else
      var rest := JoinCourses(courses, mine[1..]);
      var course := CourseOf(courses, mine[0]);
      if course.Some? && course.value.id != "" then [MyCourse(course.value, mine[0])] + rest else rest
  }

  function MyCourses(courses: seq<Course>, assignments: seq<CourseAssignment>, userId: string): seq<MyCourse> {
    JoinCourses(courses, MyAssignments(assignments, userId))
  }

  /** Every joined entry pairs one of the given assignments with the course it names. */
  lemma {:induction false} JoinCoursesSound(courses: seq<Course>, mine: seq<CourseAssignment>)
    ensures forall e :: e in JoinCourses(courses, mine) ==>
              && e.assignment in mine
              && e.course in courses
              && e.course.id == e.assignment.courseId
              && e.course.id != ""
  {
    if mine != [] {
      JoinCoursesSound(courses, mine[1..]);
    }
  }

  /** Every assignment whose course exists (under a non-empty id) is joined. */
  lemma {:induction false} JoinCoursesComplete(courses: seq<Course>, mine: seq<CourseAssignment>, a: CourseAssignment)
    requires a in mine && a.courseId != ""
    requires exists c :: c in courses && c.id == a.courseId
    ensures exists e :: e in JoinCourses(courses, mine) && e.assignment == a
  {
    var course := CourseOf(courses, mine[0]);
    if mine[0] == a {
      assert course.Some?;
      assert JoinCourses(courses, mine)[0] == MyCourse(course.value, a);
    } else {
      JoinCoursesComplete(courses, mine[1..], a);
      var e :| e in JoinCourses(courses, mine[1..]) && e.assignment == a;
      assert e in JoinCourses(courses, mine);
    }
  }

  /**
   * `myCourses` lists exactly the current student's assignments whose course exists, each
   * with that course.
   */
  lemma MyCoursesExactly(courses: seq<Course>, assignments: seq<CourseAssignment>, userId: string)
    ensures forall e :: e in MyCourses(courses, assignments, userId) ==>
              && e.assignment in assignments
              && e.assignment.studentId == userId
              && e.course in courses
              && e.course.id == e.assignment.courseId
    ensures forall a :: a in assignments && a.studentId == userId && a.courseId != ""
                        && (exists c :: c in courses && c.id == a.courseId)
                        ==> exists e :: e in MyCourses(courses, assignments, userId) && e.assignment == a
  {
    var mine := MyAssignments(assignments, userId);
    JoinCoursesSound(courses, mine);
    forall a | a in assignments && a.studentId == userId && a.courseId != ""
               && (exists c :: c in courses && c.id == a.courseId)
      ensures exists e :: e in MyCourses(courses, assignments, userId) && e.assignment == a
    {
      JoinCoursesComplete(courses, mine, a);
    }
  }

  // ---------------------------------------------------------------- question search

  /** The questions of the selected course; none while no course is selected. */
  function CourseQuestions(questions: seq<TestQuestion>, selectedCourse: Option<string>): (r: seq<TestQuestion>)
    ensures forall q :: q in r <==> q in questions && selectedCourse == Some(q.courseId)
    ensures selectedCourse.None? ==> r == []
  {
    var r := Filter(questions, (q: TestQuestion) => selectedCourse == Some(q.courseId));
    assert |r| == 0 || r[0] in r;
    r
  }

  /** The question text, or one of its options, contains the query, ignoring case. */
  predicate MatchesQuery(q: TestQuestion, query: string) {
    || Contains(Lower(q.question), Lower(query))
    || exists i :: 0 <= i < |q.options| && Contains(Lower(q.options[i]), Lower(query))
  }

  function FilteredQuestions(questions: seq<TestQuestion>, query: string): (r: seq<TestQuestion>)
    ensures forall q :: q in r <==>
              && q in questions
              && (|| Contains(Lower(q.question), Lower(query))
                  || exists o :: o in q.options && Contains(Lower(o), Lower(query)))
  {
    var r := Filter(questions, (q: TestQuestion) => MatchesQuery(q, query));
    assert forall q: TestQuestion :: MatchesQuery(q, query) <==>
             (|| Contains(Lower(q.question), Lower(query))
              || exists o :: o in q.options && Contains(Lower(o), Lower(query))) by {
      forall q: TestQuestion
        ensures MatchesQuery(q, query) <==>
                  (|| Contains(Lower(q.question), Lower(query))
                   || exists o :: o in q.options && Contains(Lower(o), Lower(query)))
      {
        if exists o :: o in q.options && Contains(Lower(o), Lower(query)) {
          var o :| o in q.options && Contains(Lower(o), Lower(query));
          var i :| 0 <= i < |q.options| && q.options[i] == o;
        }
      }
    }
    r
  }

  /** An empty search box lists every question of the course. */
  lemma EmptyQueryKeepsAll(questions: seq<TestQuestion>)
    ensures FilteredQuestions(questions, "") == questions
  {
    forall q ensures MatchesQuery(q, "") {
      ContainsEmpty(Lower(q.question));
    }
    KeepAll(questions, (q: TestQuestion) => MatchesQuery(q, ""));
  }

  /** The search ignores case: a query and its lower-cased form find the same questions. */
  lemma QuestionSearchIgnoresCase(questions: seq<TestQuestion>, query: string)
    ensures FilteredQuestions(questions, Lower(query)) == FilteredQuestions(questions, query)
  {
    LowerHasNoCapitals(query);
    SameFilter(questions, (q: TestQuestion) => MatchesQuery(q, Lower(query)), (q: TestQuestion) => MatchesQuery(q, query));
  }

  // ---------------------------------------------------------------- navigation

  datatype Mode = Adaptive | Full

  /** Where the runner is: the question shown, and whether the results replace it. */
  datatype Position = Position(index: int, showResults: bool)

  /** The shown index names a question of a list of `n`, or is 0 for an empty list. */
  predicate OnAQuestion(index: int, n: int) {
    0 <= index && (index == 0 || index < n)
  }

  /** "Next": the following question, or the results when this is the last question. */
  function AfterNext(p: Position, n: int): (r: Position)
    ensures OnAQuestion(p.index, n) ==> OnAQuestion(r.index, n)
    ensures r.index == p.index + 1 || (r.index == p.index && r.showResults)
    ensures r.index > p.index ==> r.index < n && r.showResults == p.showResults
    ensures p.showResults ==> r.showResults
  {
    if p.index < n - 1 then Position(p.index + 1, p.showResults) else Position(p.index, true)
  }

  /** "Back": the previous question, never before the first. */
  function BackIndex(index: int): (r: int)
    ensures 0 <= r
    ensures index >= 1 ==> r == index - 1
    ensures index <= 1 ==> r == 0
  {
    if index - 1 >= 0 then index - 1 else 0
  }

  /** `k` presses of "Next" from position `p`. */
  function Presses(p: Position, n: int, k: nat): Position {
    if k == 0 then p else AfterNext(Presses(p, n, k - 1), n)
  }

  /**
   * From the start of a test of `n > 0` questions, the first `n - 1` presses of "Next" walk
   * through the questions in order with the results hidden; the `n`-th stays on the last
   * question and shows the results.
   */
  lemma {:induction false} WalkThrough(n: nat, k: nat)
    requires 0 < n && k <= n
    ensures k < n ==> Presses(Position(0, false), n, k) == Position(k, false)
    ensures k == n ==> Presses(Position(0, false), n, k) == Position(n - 1, true)
  {
    if k > 0 {
      WalkThrough(n, k - 1);
    }
  }

  /** "Back" after a "Next" that advanced returns to the question it left. */
  lemma BackUndoesNext(p: Position, n: int)
    requires 0 <= p.index < n - 1
    ensures BackIndex(AfterNext(p, n).index) == p.index
  {
  }

  // ---------------------------------------------------------------- scoring

  /** The recorded answer for the question is its correct option; an unanswered question is not. */
  predicate AnsweredCorrectly(q: TestQuestion, answers: map<string, int>) {
    q.id in answers && answers[q.id] == q.correctAnswer
  }

  /** `AnsweredCorrectly` against fixed answers, as a predicate on questions. */
  function RightUnder(answers: map<string, int>): TestQuestion -> bool {
    (q: TestQuestion) => AnsweredCorrectly(q, answers)
  }

  function WrongUnder(answers: map<string, int>): TestQuestion -> bool {
    (q: TestQuestion) => !AnsweredCorrectly(q, answers)
  }

  /** The number of questions answered correctly. */
  function CorrectCount(questions: seq<TestQuestion>, answers: map<string, int>): nat {
    CountBy(questions, RightUnder(answers))
  }

  /** `getWrongAnswers`: the questions whose recorded answer is missing or not the correct one. */
  function WrongAnswers(questions: seq<TestQuestion>, answers: map<string, int>): (r: seq<TestQuestion>)
    ensures forall q :: q in r <==> q in questions && (q.id !in answers || answers[q.id] != q.correctAnswer)
  {
    Filter(questions, WrongUnder(answers))
  }

  /** Every question is either counted correct or listed wrong, never both. */
  lemma ScoreAddsUp(questions: seq<TestQuestion>, answers: map<string, int>)
    ensures CorrectCount(questions, answers) + |WrongAnswers(questions, answers)| == |questions|
  {
    FilterCount(questions, WrongUnder(answers));
    CountComplement(questions, RightUnder(answers), WrongUnder(answers));
  }

  /** The list of wrong answers is empty exactly when every question was answered correctly. */
  lemma NoWrongIffAllCorrect(questions: seq<TestQuestion>, answers: map<string, int>)
    ensures WrongAnswers(questions, answers) == [] <==> CorrectCount(questions, answers) == |questions|
  {
    ScoreAddsUp(questions, answers);
  }

  /** With no answers recorded every question is wrong and none is correct. */
  lemma FreshTestScoresNothing(questions: seq<TestQuestion>)
    ensures WrongAnswers(questions, map[]) == questions
    ensures CorrectCount(questions, map[]) == 0
  {
    KeepAll(questions, WrongUnder(map[]));
    ScoreAddsUp(questions, map[]);
  }

  /** Answering one question changes the verdict on no question with another id. */
  lemma AnswerTouchesOneQuestion(answers: map<string, int>, questionId: string, answerIndex: int, q: TestQuestion)
    requires q.id != questionId
    ensures AnsweredCorrectly(q, answers[questionId := answerIndex]) == AnsweredCorrectly(q, answers)
  {
  }

  // ---------------------------------------------------------------- the runner

  class TestRunner {
    const courseQuestions: seq<TestQuestion>
    var testMode: Option<Mode>
    var currentQuestion: int
    var selectedAnswers: map<string, int>
    var showResults: bool

    /** The shown index names a question of the course (or is 0 when it has none). */
    ghost predicate Valid()
      reads this
    {
      OnAQuestion(currentQuestion, |courseQuestions|)
    }

    /** The state on first render: no test chosen. */
    constructor (questions: seq<TestQuestion>)
      ensures courseQuestions == questions
      ensures testMode == None && currentQuestion == 0 && selectedAnswers == map[] && !showResults
      ensures Valid()
    {
      courseQuestions := questions;
      testMode := None;
      currentQuestion := 0;
      selectedAnswers := map[];
      showResults := false;
    }

    /** Starts a test in the chosen mode from the first question with no answers recorded. */
    method StartTest(mode: Mode)
      modifies this
      ensures testMode == Some(mode) && currentQuestion == 0 && selectedAnswers == map[] && !showResults
      ensures Valid()
    {
      testMode := Some(mode);
      currentQuestion := 0;
      selectedAnswers := map[];
      showResults := false;
    }

    /** Records the chosen option for a question, replacing an earlier choice for that question only. */
    method AnswerSelect(questionId: string, answerIndex: int)
      modifies this
      ensures selectedAnswers == old(selectedAnswers)[questionId := answerIndex]
      ensures forall k :: k != questionId ==>
                (k in selectedAnswers <==> k in old(selectedAnswers))
                && (k in selectedAnswers ==> selectedAnswers[k] == old(selectedAnswers)[k])
      ensures testMode == old(testMode) && currentQuestion == old(currentQuestion) && showResults == old(showResults)
    {
      selectedAnswers := selectedAnswers[questionId := answerIndex];
    }

    /** "Next": advances, or shows the results on the last question. */
    method NextQuestion()
      modifies this
      ensures Position(currentQuestion, showResults) ==
                AfterNext(Position(old(currentQuestion), old(showResults)), |courseQuestions|)
      ensures old(Valid()) ==> Valid()
      ensures testMode == old(testMode) && selectedAnswers == old(selectedAnswers)
    {
      if currentQuestion < |courseQuestions| - 1 {
        currentQuestion := currentQuestion + 1;
      } else {
        showResults := true;
      }
    }

    /** "Back": the previous question, staying on the first. */
    method Back()
      modifies this
      ensures currentQuestion == BackIndex(old(currentQuestion))
      ensures old(Valid()) ==> Valid()
      ensures testMode == old(testMode) && selectedAnswers == old(selectedAnswers) && showResults == old(showResults)
    {
      currentQuestion := if 0 > currentQuestion - 1 then 0 else currentQuestion - 1;
    }

    /** The counting loop of `calculateScore`: the number of questions answered correctly. */
    method CalculateScore() returns (correct: nat)
      ensures correct == CorrectCount(courseQuestions, selectedAnswers)
      ensures correct + |WrongAnswers(courseQuestions, selectedAnswers)| == |courseQuestions|
    {
      correct := 0;
      for i := 0 to |courseQuestions|
        invariant correct == CorrectCount(courseQuestions[..i], selectedAnswers)
      {
        var q := courseQuestions[i];
        assert courseQuestions[..i + 1] == courseQuestions[..i] + [q];
        CountByAppend(courseQuestions[..i], [q], RightUnder(selectedAnswers));
        if q.id in selectedAnswers && selectedAnswers[q.id] == q.correctAnswer {
          correct := correct + 1;
        }
      }
      assert courseQuestions[..|courseQuestions|] == courseQuestions;
      ScoreAddsUp(courseQuestions, selectedAnswers);
    }
  }
}
