/**
 * The record shapes the pages read: users, organizations, courses, course assignments, test
 * questions and the students listed on a training request. Only the fields the modelled
 * pages use are kept. Dates are instants, as integers; an optional field is an `Option`.
 */
module Records {
  import opened Wrappers

  datatype Role = Admin | Student

  datatype User = User(id: string, email: string, name: string, role: Role, organizationId: Option<string>)

  datatype Organization = Organization(id: string, name: string)

  datatype Course = Course(id: string, title: string)

  /** `'draft' | 'active' | 'completed'`. */
  datatype AssignmentStatus = Draft | Active | Completed

  /** The string the status is written as in the data. */
  function StatusName(s: AssignmentStatus): string {
    match s
    case Draft => "draft"
    case Active => "active"
    case Completed => "completed"
  }

  /** A course assigned to a student, paid for with `subscriptionsUsed` subscriptions. */
  datatype CourseAssignment = CourseAssignment(
    id: string,
    studentId: string,
    courseId: string,
    activatedAt: Option<int>,
    expiresAt: Option<int>,
    status: AssignmentStatus,
    progress: int,
    subscriptionsUsed: int)

  datatype TestQuestion = TestQuestion(id: string, courseId: string, question: string, options: seq<string>, correctAnswer: int)

  /** A person named on a training request; `studentId` is set once an account exists for them. */
  datatype RequestStudent = RequestStudent(id: string, name: string, studentId: Option<string>)

  /** A text field JavaScript treats as true: present and not empty. */
  predicate Truthy(s: Option<string>) {
    s.Some? && s.value != ""
  }

  /** `x || fallback` on an optional text: the text when it is present and not empty. */
  function OrElse(s: Option<string>, fallback: string): string {
    if Truthy(s) then s.value else fallback
  }
}
