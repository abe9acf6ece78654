/**
 * The subscription write-off report: the course assignments activated within a date window,
 * each turned into an activation record and, when it used more than one subscription, an
 * extension record; the records latest first, their totals, and the CSV export.
 *
 * The window's ends and the dates are instants, as integers. `toLocaleDateString('ru-RU')` is
 * the parameter `formatDate`.
 */
module SubscriptionsStats {
  import opened Wrappers
  import opened Records
  import opened Text
  import opened Seqs
  import opened Sorting

  datatype ActionType = Activation | Extension

  datatype HistoryRecord = HistoryRecord(
    id: string,
    organizationName: string,
    studentName: string,
    courseName: string,
    actionDate: int,
    actionType: ActionType,
    subscriptionsUsed: int)

  const NoOrganization: string := "Не указана"
  const Unknown: string := "Неизвестен"

  /** Activated, and activated within the window, both ends included. */
  predicate InWindow(a: CourseAssignment, start: int, end: int) {
    a.activatedAt.Some? && start <= a.activatedAt.value && a.activatedAt.value <= end
  }

  /** `InWindow` for a fixed window, as a predicate on assignments. */
  function Covered(start: int, end: int): CourseAssignment -> bool {
    (a: CourseAssignment) => InWindow(a, start, end)
  }

  /**
   * The assignments the report covers, in their stored order: each covered assignment as often
   * as it is stored, and nothing else.
   */
  function FilteredAssignments(assignments: seq<CourseAssignment>, start: int, end: int): (r: seq<CourseAssignment>)
    ensures forall a :: a in r <==> a in assignments && InWindow(a, start, end)
    ensures forall i :: 0 <= i < |r| ==> r[i].activatedAt.Some?
    ensures |r| == CountBy(assignments, Covered(start, end))
    ensures multiset(r) <= multiset(assignments)
  {
    var r := Filter(assignments, Covered(start, end));
    assert forall i :: 0 <= i < |r| ==> r[i] in r;
    FilterCount(assignments, Covered(start, end));
    FilterSubMultiset(assignments, Covered(start, end));
    r
  }

  /**
   * The organization shown for an assignment: the student's organization, or else the first
   * organization of the list; the text shown when there is none or it has no name.
   */
  function OrganizationName(a: CourseAssignment, users: seq<User>, orgs: seq<Organization>): string {
    var student := Find(users, (u: User) => u.id == a.studentId);
    var found := Find(orgs, (o: Organization) => student.Some? && student.value.organizationId == Some(o.id));
    var org := if found.Some? then found else if orgs != [] then Some(orgs[0]) else None;
    if org.Some? && org.value.name != "" then org.value.name else NoOrganization
  }

  function StudentName(a: CourseAssignment, users: seq<User>): string {
    var student := Find(users, (u: User) => u.id == a.studentId);
    if student.Some? && student.value.name != "" then student.value.name else Unknown
  }

  function CourseName(a: CourseAssignment, courses: seq<Course>): string {
    var course := Find(courses, (c: Course) => c.id == a.courseId);
    if course.Some? && course.value.title != "" then course.value.title else Unknown
  }

  /**
   * The records of one activated assignment: the activation, one subscription on its
   * activation date; and, when it used more than one, the extension with the rest, dated on
   * the expiry or else on the activation.
   */
  function Expand(a: CourseAssignment, users: seq<User>, courses: seq<Course>, orgs: seq<Organization>): (r: seq<HistoryRecord>)
    requires a.activatedAt.Some?
    ensures |r| == if a.subscriptionsUsed > 1 then 2 else 1
    ensures r[0].id == a.id + "-activation" && r[0].actionType == Activation
            && r[0].subscriptionsUsed == 1 && r[0].actionDate == a.activatedAt.value
    ensures |r| == 2 ==>
              && r[1].id == a.id + "-extension" && r[1].actionType == Extension
              && r[1].subscriptionsUsed == a.subscriptionsUsed - 1
              && r[1].actionDate == a.expiresAt.GetOr(a.activatedAt.value)
    ensures forall i :: 0 <= i < |r| ==>
              && r[i].organizationName == OrganizationName(a, users, orgs)
              && r[i].studentName == StudentName(a, users)
              && r[i].courseName == CourseName(a, courses)
  {
    var org := OrganizationName(a, users, orgs);
    var student := StudentName(a, users);
    var course := CourseName(a, courses);
    var activation := [HistoryRecord(a.id + "-activation", org, student, course, a.activatedAt.value, Activation, 1)];
    var extension :=
      if a.subscriptionsUsed > 1
      then [HistoryRecord(a.id + "-extension", org, student, course,
                          if a.expiresAt.Some? then a.expiresAt.value else a.activatedAt.value,
                          Extension, a.subscriptionsUsed - 1)]
      else [];
    activation + extension
  }

  /** `flatMap(Expand)`: the assignments' records one assignment after the other. */
  function Expanded(xs: seq<CourseAssignment>, users: seq<User>, courses: seq<Course>, orgs: seq<Organization>): seq<HistoryRecord>
    requires forall i :: 0 <= i < |xs| ==> xs[i].activatedAt.Some?
  {
    if xs == [] then [] else Expand(xs[0], users, courses, orgs) + Expanded(xs[1..], users, courses, orgs)
  }

  function ActionDate(r: HistoryRecord): int {
    r.actionDate
  }

  function Amount(r: HistoryRecord): int {
    r.subscriptionsUsed
  }

  predicate IsActivation(r: HistoryRecord) {
    r.actionType == Activation
  }

  predicate IsExtension(r: HistoryRecord) {
    r.actionType == Extension
  }

  /** The report's rows: the covered assignments' records, latest date first. */
  function History(assignments: seq<CourseAssignment>, users: seq<User>, courses: seq<Course>, orgs: seq<Organization>,
                   start: int, end: int): seq<HistoryRecord>
  {
    SortDesc(Expanded(FilteredAssignments(assignments, start, end), users, courses, orgs), ActionDate)
  }

  /** The "total written off" figure. */
  function TotalUsed(history: seq<HistoryRecord>): int {
    SumBy(history, Amount)
  }

  /** What one assignment costs in the report: one subscription, or all it used when that is more. */
  function Cost(a: CourseAssignment): int {
    if a.subscriptionsUsed > 1 then a.subscriptionsUsed else 1
  }

  predicate Extended(a: CourseAssignment) {
    a.subscriptionsUsed > 1
  }

  /** The sums and counts over an assignment's records. */
  lemma ExpandTotals(a: CourseAssignment, users: seq<User>, courses: seq<Course>, orgs: seq<Organization>)
    requires a.activatedAt.Some?
    ensures SumBy(Expand(a, users, courses, orgs), Amount) == Cost(a)
    ensures CountBy(Expand(a, users, courses, orgs), IsActivation) == 1
    ensures CountBy(Expand(a, users, courses, orgs), IsExtension) == if Extended(a) then 1 else 0
  {
    var r := Expand(a, users, courses, orgs);
    if |r| == 1 {
      assert r[1..] == [];
    } else {
      assert r[1..][0] == r[1] && r[1..][1..] == [];
      assert SumBy(r[1..], Amount) == r[1].subscriptionsUsed;
      assert CountBy(r[1..], IsExtension) == 1;
    }
  }

  /** The sums and counts over the records of several assignments. */
  lemma {:induction false} ExpandedTotals(xs: seq<CourseAssignment>, users: seq<User>, courses: seq<Course>, orgs: seq<Organization>)
    requires forall i :: 0 <= i < |xs| ==> xs[i].activatedAt.Some?
    ensures SumBy(Expanded(xs, users, courses, orgs), Amount) == SumBy(xs, Cost)
    ensures CountBy(Expanded(xs, users, courses, orgs), IsActivation) == |xs|
    ensures CountBy(Expanded(xs, users, courses, orgs), IsExtension) == CountBy(xs, Extended)
  {
    if xs != [] {
      ExpandedTotals(xs[1..], users, courses, orgs);
      ExpandTotals(xs[0], users, courses, orgs);
      var head := Expand(xs[0], users, courses, orgs);
      var tail := Expanded(xs[1..], users, courses, orgs);
      SumByAppend(head, tail, Amount);
      CountByAppend(head, tail, IsActivation);
      CountByAppend(head, tail, IsExtension);
    }
  }

  /** The history is ordered by date, latest first, and holds exactly the covered assignments' records. */
  lemma HistoryOrdered(assignments: seq<CourseAssignment>, users: seq<User>, courses: seq<Course>, orgs: seq<Organization>,
                       start: int, end: int)
    ensures var h := History(assignments, users, courses, orgs, start, end);
            && (forall i, j :: 0 <= i < j < |h| ==> h[i].actionDate >= h[j].actionDate)
            && multiset(h) == multiset(Expanded(FilteredAssignments(assignments, start, end), users, courses, orgs))
  {
    var xs := Expanded(FilteredAssignments(assignments, start, end), users, courses, orgs);
    SortDescSorted(xs, ActionDate);
    SortDescPermutes(xs, ActionDate, Amount, IsActivation);
  }

  /**
   * The three figures above the table: the total written off is the cost of the covered
   * assignments (each at least one subscription), there is one activation per covered
   * assignment, and one extension per covered assignment that used more than one subscription.
   */
  lemma HistoryFigures(assignments: seq<CourseAssignment>, users: seq<User>, courses: seq<Course>, orgs: seq<Organization>,
                       start: int, end: int)
    ensures var kept := FilteredAssignments(assignments, start, end);
            var h := History(assignments, users, courses, orgs, start, end);
            && TotalUsed(h) == SumBy(kept, Cost)
            && |Filter(h, IsActivation)| == |kept|
            && |Filter(h, IsExtension)| == CountBy(kept, Extended)
            && |h| == |kept| + CountBy(kept, Extended)
  {
    var kept := FilteredAssignments(assignments, start, end);
    var xs := Expanded(kept, users, courses, orgs);
    var h := History(assignments, users, courses, orgs, start, end);
    ExpandedTotals(kept, users, courses, orgs);
    SortDescPermutes(xs, ActionDate, Amount, IsActivation);
    SortDescPermutes(xs, ActionDate, Amount, IsExtension);
    FilterCount(h, IsActivation);
    FilterCount(h, IsExtension);
    EveryRecordIsOneKind(h);
  }

  /** Every record is an activation or an extension, so the two counts add up to the length. */
  lemma {:induction false} EveryRecordIsOneKind(h: seq<HistoryRecord>)
    ensures CountBy(h, IsActivation) + CountBy(h, IsExtension) == |h|
  {
    if h != [] {
      EveryRecordIsOneKind(h[1..]);
    }
  }

  // ---------------------------------------------------------------- CSV

  const Headers: seq<string> := ["Организация", "ФИО слушателя", "Курс подготовки", "Дата активации", "Действие", "Подписок использовано"]

  function ActionLabel(t: ActionType): string {
    if t == Activation then "Активация" else "Продление"
  }

  /** The cells of a record's row, before quoting. */
  function Cells(r: HistoryRecord, formatDate: int -> string): seq<string> {
    [r.organizationName, r.studentName, r.courseName, formatDate(r.actionDate), ActionLabel(r.actionType), IntToString(r.subscriptionsUsed)]
  }

  function Quote(cell: string): string {
    "\"" + cell + "\""
  }

  /** A data line: every cell in double quotes, separated by commas. */
  function CsvLine(r: HistoryRecord, formatDate: int -> string): string {
    var cells := Cells(r, formatDate);
    Join(seq(|cells|, i requires 0 <= i < |cells| => Quote(cells[i])), ',')
  }

  function DataLines(history: seq<HistoryRecord>, formatDate: int -> string): (r: seq<string>)
    ensures |r| == |history| && forall i :: 0 <= i < |r| ==> r[i] == CsvLine(history[i], formatDate)
  {
    seq(|history|, i requires 0 <= i < |history| => CsvLine(history[i], formatDate))
  }

  /** The export's text: the header line, unquoted, then one line per record, joined by newlines. */
  function Csv(history: seq<HistoryRecord>, formatDate: int -> string): string {
    Join([Join(Headers, ',')] + DataLines(history, formatDate), '\n')
  }

  /** No cell of the export holds a line break. */
  predicate SingleLineCells(history: seq<HistoryRecord>, formatDate: int -> string) {
    forall i, j :: 0 <= i < |history| && 0 <= j < 6 ==> '\n' !in Cells(history[i], formatDate)[j]
  }

  lemma LineHasNoBreak(r: HistoryRecord, formatDate: int -> string)
    requires forall j :: 0 <= j < 6 ==> '\n' !in Cells(r, formatDate)[j]
    ensures '\n' !in CsvLine(r, formatDate)
  {
    var cells := Cells(r, formatDate);
    var quoted := seq(|cells|, i requires 0 <= i < |cells| => Quote(cells[i]));
    forall i | 0 <= i < |quoted| ensures '\n' !in quoted[i] {
      assert quoted[i] == "\"" + cells[i] + "\"";
    }
    JoinAvoids(quoted, ',', '\n');
  }

  /**
   * Read back line by line, the export is the header line followed by the records' lines in
   * the history's order, one per record, as long as no cell holds a line break.
   */
  lemma CsvLines(history: seq<HistoryRecord>, formatDate: int -> string)
    requires SingleLineCells(history, formatDate)
    ensures Split(Csv(history, formatDate), '\n') == [Join(Headers, ',')] + DataLines(history, formatDate)
    ensures |Split(Csv(history, formatDate), '\n')| == |history| + 1
  {
    var lines := [Join(Headers, ',')] + DataLines(history, formatDate);
    JoinAvoids(Headers, ',', '\n');
    forall i | 0 <= i < |history| ensures '\n' !in CsvLine(history[i], formatDate) {
      LineHasNoBreak(history[i], formatDate);
    }
    SplitJoin(lines, '\n');
  }
}
