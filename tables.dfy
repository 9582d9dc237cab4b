/**
 * The tables of the academic, registration and dormitory apps as in-memory
 * values, and the integrity constraints the database keeps on them.
 *
 * Rows that other rows refer to by position (enrollments, registrations) are
 * kept in sequences whose index is the row's primary key; tables keyed by a
 * unique pair are kept as sequences of rows with that pair unique, or as maps.
 */
module Tables {
  import opened Outcomes
  import opened Users

  type SemesterId = nat
  type CourseId = nat
  type SectionId = nat
  type DormId = nat

  /** Semester: its start date (as a day number) orders the standing history. */
  datatype Semester = Semester(start: int, isActive: bool)

  /** Course: credit_hours is a non-negative small integer. */
  datatype Course = Course(department: DeptId, credits: nat, isActive: bool)

  /** Section: capacity is stored but no code checks it. */
  datatype Section = Section(department: DeptId, capacity: nat, isActive: bool)

  /** Dormitory: one room, for one gender, optionally for one department. */
  datatype Dormitory = Dormitory(gender: Gender, department: Option<DeptId>, capacity: nat, isActive: bool)

  /** The catalog the core only reads. */
  datatype Catalog = Catalog(
    semesters: map<SemesterId, Semester>,
    courses: map<CourseId, Course>,
    sections: map<SectionId, Section>,
    dormitories: map<DormId, Dormitory>)

  datatype CourseAssignment = CourseAssignment(course: CourseId, teacher: UserId, semester: SemesterId)

  /** Enrollment: the letter grade is null until a submission sets it. */
  datatype Enrollment = Enrollment(student: UserId, course: CourseId, semester: SemesterId, grade: Option<string>)

  /** GradeSubmission: the mark in thousandths and the letter derived from it. */
  datatype GradeSubmission = GradeSubmission(enrollment: nat, submittedBy: UserId, mark: int, grade: string)

  /** AcademicStatusChoices. */
  datatype Standing = Active | Probation | Dismissed | Graduated

  /** AcademicStatus: the standing snapshot of one student in one semester; GPAs in hundredths. */
  datatype StatusRow = StatusRow(
    student: UserId,
    semester: SemesterId,
    section: Option<SectionId>,
    semesterGpa: Option<nat>,
    cumulativeGpa: Option<nat>,
    status: Standing)

  /** RegistrationStatus. */
  datatype RegStatus = Pending | Approved | Rejected | Cancelled

  /** Registration: the requested courses, in the order the many-to-many table yields them. */
  datatype Registration = Registration(student: UserId, semester: SemesterId, courses: seq<CourseId>, status: RegStatus)

  datatype DormAssignment = DormAssignment(student: UserId, dormitory: DormId, semester: SemesterId)

  /** The whole database. */
  datatype Db = Db(
    catalog: Catalog,
    users: map<UserId, User>,
    courseAssignments: set<CourseAssignment>,
    enrollments: seq<Enrollment>,
    submissions: seq<GradeSubmission>,
    sectionAssignments: map<(UserId, SemesterId), SectionId>,
    statuses: seq<StatusRow>,
    registrations: seq<Registration>,
    dormAssignments: seq<DormAssignment>)

  /** The result of one operation: how validation ended, and the database afterwards. */
  datatype Step = Step(check: Check, after: Db)

  // ---- lookups (a foreign key that is missing reads as inactive, unset or zero) ----

  predicate HasRole(db: Db, id: UserId, role: Role) {
    id in db.users && db.users[id].role == role
  }

  function DepartmentOf(db: Db, id: UserId): Option<DeptId> {
    if id in db.users then db.users[id].department else None
  }

  function GenderOf(db: Db, id: UserId): Option<Gender> {
    if id in db.users then db.users[id].gender else None
  }

  predicate SemesterActive(db: Db, id: SemesterId) {
    id in db.catalog.semesters && db.catalog.semesters[id].isActive
  }

  function StartOf(semesters: map<SemesterId, Semester>, id: SemesterId): int {
    if id in semesters then semesters[id].start else 0
  }

  predicate CourseActive(db: Db, id: CourseId) {
    id in db.catalog.courses && db.catalog.courses[id].isActive
  }

  function CourseDepartment(db: Db, id: CourseId): Option<DeptId> {
    if id in db.catalog.courses then Some(db.catalog.courses[id].department) else None
  }

  /** Python truthiness of a letter grade: set and not empty. */
  predicate GradeSet(g: Option<string>) {
    g.Some? && g.value != ""
  }

  // ---- integrity of the tables ----

  /** Every foreign key points at an existing row. */
  ghost predicate ForeignKeys(db: Db) {
    var cat := db.catalog;
    && (forall a :: a in db.courseAssignments ==>
          a.course in cat.courses && a.teacher in db.users && a.semester in cat.semesters)
    && (forall i :: 0 <= i < |db.enrollments| ==>
          db.enrollments[i].student in db.users && db.enrollments[i].course in cat.courses &&
          db.enrollments[i].semester in cat.semesters)
    && (forall i :: 0 <= i < |db.submissions| ==>
          db.submissions[i].enrollment < |db.enrollments| && db.submissions[i].submittedBy in db.users)
    && (forall k :: k in db.sectionAssignments ==>
          k.0 in db.users && k.1 in cat.semesters && db.sectionAssignments[k] in cat.sections)
    && (forall i :: 0 <= i < |db.statuses| ==>
          db.statuses[i].student in db.users && db.statuses[i].semester in cat.semesters &&
          (db.statuses[i].section.Some? ==> db.statuses[i].section.value in cat.sections))
    && (forall i :: 0 <= i < |db.registrations| ==>
          db.registrations[i].student in db.users && db.registrations[i].semester in cat.semesters &&
          forall j :: 0 <= j < |db.registrations[i].courses| ==> db.registrations[i].courses[j] in cat.courses)
    && (forall i :: 0 <= i < |db.dormAssignments| ==>
          db.dormAssignments[i].student in db.users && db.dormAssignments[i].dormitory in cat.dormitories &&
          db.dormAssignments[i].semester in cat.semesters)
  }

  /** unique_together ("student", "course", "semester") on Enrollment. */
  ghost predicate EnrollmentsUnique(es: seq<Enrollment>) {
    forall i, j :: 0 <= i < j < |es| ==>
      (es[i].student, es[i].course, es[i].semester) != (es[j].student, es[j].course, es[j].semester)
  }

  /** The key column (student, semester) of the status table. */
  function StatusKeys(rows: seq<StatusRow>): (ks: seq<(UserId, SemesterId)>)
    ensures |ks| == |rows|
    ensures forall i :: 0 <= i < |rows| ==> ks[i] == (rows[i].student, rows[i].semester)
  {
    seq(|rows|, i requires 0 <= i < |rows| => (rows[i].student, rows[i].semester))
  }

  ghost predicate Distinct<T>(s: seq<T>) {
    forall i, j :: 0 <= i < j < |s| ==> s[i] != s[j]
  }

  /** unique_together ("student", "semester") on AcademicStatus. */
  ghost predicate StatusesUnique(rows: seq<StatusRow>) {
    Distinct(StatusKeys(rows))
  }

  /** unique_together ("student", "semester") on Registration. */
  ghost predicate RegistrationsUnique(rs: seq<Registration>) {
    forall i, j :: 0 <= i < j < |rs| ==> (rs[i].student, rs[i].semester) != (rs[j].student, rs[j].semester)
  }

  /** unique_together ("student", "semester") on DormitoryAssignment. */
  ghost predicate DormAssignmentsUnique(rows: seq<DormAssignment>) {
    forall i, j :: 0 <= i < j < |rows| ==> (rows[i].student, rows[i].semester) != (rows[j].student, rows[j].semester)
  }

  // ---- the user table ----

  /** CustomUser.save of row `id`: the normalised row is validated, then written. */
  function SaveUser(db: Db, id: UserId, u: User): (s: Step)
    ensures s.check == FullCleanUser(db.users, id, Normalize(u))
    ensures s.check.Pass? ==> s.after == db.(users := db.users[id := Normalize(u)])
    ensures s.check.Fail? ==> s.after == db
  {
    var n := Normalize(u);
    var c := FullCleanUser(db.users, id, n);
    if c.Fail? then Step(c, db) else Step(Pass, db.(users := db.users[id := n]))
  }
}
