/**
 * The figures of the administrator's panel: the student search, per-student and per-course
 * statistics over the course assignments, the subscription balance, the "ready" count of a
 * training request and the login shown for a student.
 */
module AdminPanel {
  import opened Wrappers
  import opened Records
  import opened Text
  import opened Seqs

  /** The organization's subscription allowance. */
  const TotalSubscriptions: int := 100

  // ---------------------------------------------------------------- search

  predicate IsStudent(u: User) {
    u.role == Student
  }

  /** The name or the e-mail, lower-cased, contains the lower-cased search term. */
  predicate Matches(u: User, term: string) {
    Contains(Lower(u.name), Lower(term)) || Contains(Lower(u.email), Lower(term))
  }

  function Students(users: seq<User>): seq<User> {
    Filter(users, IsStudent)
  }

  /** The students listed for a search term, in their stored order. */
  function FilteredStudents(users: seq<User>, term: string): seq<User> {
    Filter(Students(users), u => Matches(u, term))
  }

  /** A user is listed exactly when they are a student whose name or e-mail contains the term, ignoring case. */
  lemma FilteredStudentsMembers(users: seq<User>, term: string)
    ensures forall u :: u in FilteredStudents(users, term) <==> u in users && u.role == Student && Matches(u, term)
  {
  }

  /** An empty search lists every student. */
  lemma EmptySearchListsAll(users: seq<User>)
    ensures FilteredStudents(users, "") == Students(users)
  {
    forall u ensures Matches(u, "") {
      ContainsEmpty(Lower(u.name));
    }
    KeepAll(Students(users), u => Matches(u, ""));
  }

  /** The search ignores case: a term and its lower-cased form list the same students. */
  lemma SearchIgnoresCase(users: seq<User>, term: string)
    ensures FilteredStudents(users, Lower(term)) == FilteredStudents(users, term)
  {
    LowerHasNoCapitals(term);
    SameFilter(Students(users), u => Matches(u, Lower(term)), u => Matches(u, term));
  }

  // ---------------------------------------------------------------- rounding

  /** `Math.round(total / count)` for a positive count: the nearest integer, halves rounded up. */
  function RoundedMean(total: int, count: nat): (r: int)
    requires count > 0
    ensures count * (2 * r - 1) <= 2 * total < count * (2 * r + 1)
  {
    var r := (2 * total + count) / (2 * count);
    DivBounds(2 * total + count, 2 * count);
    assert count * (2 * r - 1) == 2 * count * r - count;
    assert count * (2 * r + 1) == 2 * count * r + count;
    r
  }

  lemma DivBounds(x: int, d: int)
    requires d > 0
    ensures d * (x / d) <= x < d * (x / d) + d
  {
  }

  /** The rounded mean of values between `lo` and `hi` lies between them. */
  lemma RoundedMeanBetween(total: int, count: nat, lo: int, hi: int)
    requires count > 0
    requires count * lo <= total <= count * hi
    ensures lo <= RoundedMean(total, count) <= hi
  {
    var r := RoundedMean(total, count);
    if r > hi {
      MulMonotone(count, hi + 1, r);
      assert count * (2 * r - 1) >= count * (2 * hi + 1) by {
        MulMonotone(count, 2 * hi + 1, 2 * r - 1);
      }
    }
    if r < lo {
      MulMonotone(count, 2 * r + 1, 2 * lo - 1);
    }
  }

  lemma MulMonotone(c: nat, a: int, b: int)
    requires a <= b
    ensures c * a <= c * b
  {
  }

  /** `assignments.length > 0 ? Math.round(sum of progress / length) : 0`. */
  function AverageProgress(assignments: seq<CourseAssignment>): int {
    if |assignments| > 0 then RoundedMean(SumBy(assignments, Progress), |assignments|) else 0
  }

  function Progress(a: CourseAssignment): int {
    a.progress
  }

  lemma {:induction false} SumBetween(xs: seq<CourseAssignment>, lo: int, hi: int)
    requires forall i :: 0 <= i < |xs| ==> lo <= xs[i].progress <= hi
    ensures |xs| * lo <= SumBy(xs, Progress) <= |xs| * hi
  {
    if xs != [] {
      SumBetween(xs[1..], lo, hi);
      assert |xs| * lo == lo + |xs[1..]| * lo;
      assert |xs| * hi == hi + |xs[1..]| * hi;
    }
  }

  /** The average is 0 without assignments and, for progress values between 0 and 100, a percentage. */
  lemma AverageProgressBounds(xs: seq<CourseAssignment>)
    ensures |xs| == 0 ==> AverageProgress(xs) == 0
    ensures (forall i :: 0 <= i < |xs| ==> 0 <= xs[i].progress <= 100) ==> 0 <= AverageProgress(xs) <= 100
  {
    if |xs| > 0 && forall i :: 0 <= i < |xs| ==> 0 <= xs[i].progress <= 100 {
      SumBetween(xs, 0, 100);
      RoundedMeanBetween(SumBy(xs, Progress), |xs|, 0, 100);
    }
  }

  // ---------------------------------------------------------------- per student and per course

  datatype StudentStats = StudentStats(total: nat, completed: nat, inProgress: nat, avgProgress: int)

  function OfStudent(assignments: seq<CourseAssignment>, studentId: string): seq<CourseAssignment> {
    Filter(assignments, (a: CourseAssignment) => a.studentId == studentId)
  }

  predicate IsCompleted(a: CourseAssignment) {
    a.status == Completed
  }

  predicate IsActive(a: CourseAssignment) {
    a.status == Active
  }

  /** The count of assignments whose status reads `'in_progress'`, as the panel writes it. */
  function InProgressAsWritten(assignments: seq<CourseAssignment>): nat {
    |Filter(assignments, (a: CourseAssignment) => StatusName(a.status) == "in_progress")|
  }

  /** No assignment status reads `'in_progress'`, so that count is always 0. */
  lemma InProgressAsWrittenIsZero(assignments: seq<CourseAssignment>)
    ensures InProgressAsWritten(assignments) == 0
  {
    var p := (a: CourseAssignment) => StatusName(a.status) == "in_progress";
    assert forall a :: !p(a);
    FilterCount(assignments, p);
    CountNone(assignments, p);
  }

  lemma {:induction false} CountNone<T>(xs: seq<T>, p: T -> bool)
    requires forall x :: !p(x)
    ensures CountBy(xs, p) == 0
  {
    if xs != [] {
      CountNone(xs[1..], p);
    }
  }

  /** The statistics for one student; in progress counts the active assignments. */
  function GetStudentStats(assignments: seq<CourseAssignment>, studentId: string): StudentStats {
    var mine := OfStudent(assignments, studentId);
    StudentStats(|mine|, |Filter(mine, IsCompleted)|, |Filter(mine, IsActive)|, AverageProgress(mine))
  }

  /**
   * The total is the number of the student's assignments; completed and in progress count
   * disjoint parts of them, so together they are at most the total, and the in-progress count
   * is zero only when no assignment of the student is active.
   */
  lemma StudentStatsCounts(assignments: seq<CourseAssignment>, studentId: string)
    ensures var st := GetStudentStats(assignments, studentId);
            && st.total == CountBy(assignments, (a: CourseAssignment) => a.studentId == studentId)
            && st.completed + st.inProgress <= st.total
            && (st.inProgress == 0 <==> forall a :: a in assignments && a.studentId == studentId ==> a.status != Active)
            && (st.total == 0 ==> st.avgProgress == 0)
  {
    var mine := OfStudent(assignments, studentId);
    FilterCount(assignments, (a: CourseAssignment) => a.studentId == studentId);
    FilterCount(mine, IsCompleted);
    FilterCount(mine, IsActive);
    DisjointCounts(mine);
    if Filter(mine, IsActive) != [] {
      assert Filter(mine, IsActive)[0] in Filter(mine, IsActive);
    }
  }

  /** A status is completed or active, not both. */
  lemma {:induction false} DisjointCounts(xs: seq<CourseAssignment>)
    ensures CountBy(xs, IsCompleted) + CountBy(xs, IsActive) <= |xs|
  {
    if xs != [] {
      DisjointCounts(xs[1..]);
    }
  }

  /** The student's assignments, each with its course when the course list has it. */
  function GetStudentAssignments(assignments: seq<CourseAssignment>, courses: seq<Course>, studentId: string)
    : (r: seq<(CourseAssignment, Option<Course>)>)
    ensures |r| == |OfStudent(assignments, studentId)|
    ensures forall i :: 0 <= i < |r| ==>
              && r[i].0 == OfStudent(assignments, studentId)[i]
              && (r[i].1.Some? ==> r[i].1.value in courses && r[i].1.value.id == r[i].0.courseId)
              && (r[i].1.None? ==> forall c :: c in courses ==> c.id != r[i].0.courseId)
  {
    var mine := OfStudent(assignments, studentId);
    seq(|mine|, i requires 0 <= i < |mine| => (mine[i], Find(courses, (c: Course) => c.id == mine[i].courseId)))
  }

  /** Every listed assignment is the student's. */
  lemma StudentAssignmentsAreTheirs(assignments: seq<CourseAssignment>, courses: seq<Course>, studentId: string)
    ensures forall i :: 0 <= i < |GetStudentAssignments(assignments, courses, studentId)| ==>
              GetStudentAssignments(assignments, courses, studentId)[i].0 in assignments
              && GetStudentAssignments(assignments, courses, studentId)[i].0.studentId == studentId
  {
    var mine := OfStudent(assignments, studentId);
    assert forall i :: 0 <= i < |mine| ==> mine[i] in mine;
  }

  datatype CourseStats = CourseStats(students: nat, completed: nat, avgProgress: int)

  function GetCourseStats(assignments: seq<CourseAssignment>, courseId: string): CourseStats {
    var ofCourse := Filter(assignments, (a: CourseAssignment) => a.courseId == courseId);
    CourseStats(|ofCourse|, |Filter(ofCourse, IsCompleted)|, AverageProgress(ofCourse))
  }

  /**
   * Students are the course's assignments and completed ones are among them; the average is 0
   * with no students, and a percentage when every progress is one.
   */
  lemma CourseStatsBounds(assignments: seq<CourseAssignment>, courseId: string)
    ensures var st := GetCourseStats(assignments, courseId);
            && st.students == CountBy(assignments, (a: CourseAssignment) => a.courseId == courseId)
            && st.completed <= st.students
            && (st.students == 0 ==> st.avgProgress == 0)
            && ((forall i :: 0 <= i < |assignments| ==> 0 <= assignments[i].progress <= 100) ==> 0 <= st.avgProgress <= 100)
  {
    var ofCourse := Filter(assignments, (a: CourseAssignment) => a.courseId == courseId);
    FilterCount(assignments, (a: CourseAssignment) => a.courseId == courseId);
    if forall i :: 0 <= i < |assignments| ==> 0 <= assignments[i].progress <= 100 {
      assert forall i :: 0 <= i < |ofCourse| ==> ofCourse[i] in ofCourse;
      assert forall a :: a in assignments ==> 0 <= a.progress <= 100;
    }
    AverageProgressBounds(ofCourse);
  }

  // ---------------------------------------------------------------- subscriptions

  function SubscriptionsUsed(a: CourseAssignment): int {
    a.subscriptionsUsed
  }

  /** The balance: the allowance less the subscriptions every assignment used. */
  function RemainingSubscriptions(assignments: seq<CourseAssignment>): int {
    TotalSubscriptions - SumBy(assignments, SubscriptionsUsed)
  }

  /** Each assignment lowers the balance by what it used, so with no negative use the balance never exceeds 100. */
  lemma RemainingSubscriptionsSpent(assignments: seq<CourseAssignment>, a: CourseAssignment)
    ensures RemainingSubscriptions(assignments + [a]) == RemainingSubscriptions(assignments) - a.subscriptionsUsed
    ensures RemainingSubscriptions([]) == TotalSubscriptions
  {
    SumByAppend(assignments, [a], SubscriptionsUsed);
    assert [a][1..] == [];
  }

  lemma {:induction false} RemainingAtMostAllowance(assignments: seq<CourseAssignment>)
    requires forall i :: 0 <= i < |assignments| ==> assignments[i].subscriptionsUsed >= 0
    ensures RemainingSubscriptions(assignments) <= TotalSubscriptions
  {
    if assignments != [] {
      RemainingAtMostAllowance(assignments[1..]);
    }
  }

  // ---------------------------------------------------------------- requests and logins

  predicate HasAccount(s: RequestStudent) {
    Truthy(s.studentId)
  }

  /** "Ready: k of n": the request's students who already have an account. */
  function ReadyCount(students: seq<RequestStudent>): nat {
    |Filter(students, HasAccount)|
  }

  /** The ready count is at most the number of students, and equals it exactly when all have accounts. */
  lemma ReadyCountBounds(students: seq<RequestStudent>)
    ensures ReadyCount(students) == CountBy(students, HasAccount)
    ensures ReadyCount(students) <= |students|
    ensures ReadyCount(students) == |students| <==> forall i :: 0 <= i < |students| ==> HasAccount(students[i])
  {
    FilterCount(students, HasAccount);
    AllCounted(students);
  }

  lemma {:induction false} AllCounted(students: seq<RequestStudent>)
    ensures CountBy(students, HasAccount) == |students| <==> forall i :: 0 <= i < |students| ==> HasAccount(students[i])
  {
    if students != [] {
      AllCounted(students[1..]);
      CountByBound(students[1..], HasAccount);
      assert forall i :: 0 < i < |students| ==> students[i] == students[1..][i - 1];
    }
  }

  /** `email.split('@')[0]`. */
  function Login(email: string): string {
    Split(email, '@')[0]
  }

  /**
   * The login is the part of the e-mail before the first `@`: a prefix without `@`, followed
   * in the e-mail by `@` when it is shorter, and the whole e-mail when there is no `@`.
   */
  lemma LoginIsLocalPart(email: string)
    ensures Login(email) <= email
    ensures '@' !in Login(email)
    ensures |Login(email)| < |email| ==> email[|Login(email)|] == '@'
    ensures '@' !in email ==> Login(email) == email
  {
    FirstPiece(email, '@');
  }

  /** An address made of a name without `@`, an `@` and a domain shows the name as login. */
  lemma LoginOfAddress(name: string, domain: string)
    requires '@' !in name
    ensures Login(name + "@" + domain) == name
  {
    SplitPiece(name, '@', domain);
  }
}
