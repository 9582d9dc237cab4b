/**
 * academic/models.py: the validation chains of Enrollment, GradeSubmission,
 * SectionAssignment, CourseAssignment and AcademicStatus, and the writes
 * done by Enrollment.save, GradeSubmission.save and the two AcademicStatus
 * class methods, as functions from a database to a database.
 */
module Academic {
  import opened Outcomes
  import opened Users
  import opened GradeScale
  import opened Tables
  import opened Gpa

  // ---- standing history ----

  /**
   * The student's status row with the latest semester start, as
   * `order_by("-semester__start_date").first()`; among rows with the same
   * start the earlier row is taken.
   */
  function Latest(rows: seq<StatusRow>, semesters: map<SemesterId, Semester>, student: UserId): (k: Option<nat>)
    ensures k.None? <==> forall i :: 0 <= i < |rows| ==> rows[i].student != student
    ensures k.Some? ==> k.value < |rows| && rows[k.value].student == student
    ensures k.Some? ==> forall i :: 0 <= i < |rows| && rows[i].student == student ==>
      StartOf(semesters, rows[i].semester) <= StartOf(semesters, rows[k.value].semester)
    ensures k.Some? ==> forall i :: 0 <= i < k.value && rows[i].student == student ==>
      StartOf(semesters, rows[i].semester) < StartOf(semesters, rows[k.value].semester)
  {
    if rows == [] then None
    else
      var n := |rows| - 1;
      var best := Latest(rows[..n], semesters, student);
      if rows[n].student != student then best
      else if best.None? || StartOf(semesters, rows[n].semester) > StartOf(semesters, rows[best.value].semester) then Some(n)
      else best
  }

  /** The latest standing of the student is DISMISSED. */
  predicate LatestDismissed(db: Db, student: UserId) {
    var k := Latest(db.statuses, db.catalog.semesters, student);
    k.Some? && db.statuses[k.value].status == Dismissed
  }

  // ---- Enrollment ----

  /** The department rule: student and course departments, when both are set, agree. */
  predicate DepartmentsAgree(db: Db, student: UserId, course: CourseId) {
    var sd, cd := DepartmentOf(db, student), CourseDepartment(db, course);
    !(sd.Some? && cd.Some? && sd != cd)
  }

  predicate HasApprovedRegistration(rs: seq<Registration>, student: UserId, semester: SemesterId) {
    exists i :: 0 <= i < |rs| && rs[i].student == student && rs[i].semester == semester && rs[i].status == Approved
  }

  /** Enrollment.clean; `isNew` is "the row has no primary key yet". */
  function CleanEnrollment(db: Db, student: UserId, course: CourseId, semester: SemesterId, isNew: bool): (c: Check)
    ensures c.Pass? <==>
      && HasRole(db, student, Student)
      && !LatestDismissed(db, student)
      && (isNew ==> SemesterActive(db, semester) && CourseActive(db, course))
      && DepartmentsAgree(db, student, course)
      && HasApprovedRegistration(db.registrations, student, semester)
      && (student, semester) in db.sectionAssignments
    ensures !HasRole(db, student, Student) ==> c == Fail(NotStudent)
    ensures HasRole(db, student, Student) && LatestDismissed(db, student) ==> c == Fail(DismissedStudent)
    ensures HasRole(db, student, Student) && !LatestDismissed(db, student) && isNew && !SemesterActive(db, semester) ==>
      c == Fail(InactiveSemester)
    ensures HasRole(db, student, Student) && !LatestDismissed(db, student) && isNew && SemesterActive(db, semester) && !CourseActive(db, course) ==>
      c == Fail(InactiveCourse)
    ensures
      (&& HasRole(db, student, Student) && !LatestDismissed(db, student)
       && (isNew ==> SemesterActive(db, semester) && CourseActive(db, course))
       && !DepartmentsAgree(db, student, course))
      ==> c == Fail(CourseDepartmentMismatch)
    ensures
      (&& HasRole(db, student, Student) && !LatestDismissed(db, student)
       && (isNew ==> SemesterActive(db, semester) && CourseActive(db, course))
       && DepartmentsAgree(db, student, course)
       && !HasApprovedRegistration(db.registrations, student, semester))
      ==> c == Fail(NoApprovedRegistration)
    ensures
      (&& HasRole(db, student, Student) && !LatestDismissed(db, student)
       && (isNew ==> SemesterActive(db, semester) && CourseActive(db, course))
       && DepartmentsAgree(db, student, course)
       && HasApprovedRegistration(db.registrations, student, semester)
       && (student, semester) !in db.sectionAssignments)
      ==> c == Fail(NoSectionAssignment)
    // the section prerequisite is reported only once an approved registration exists
    ensures c == Fail(NoSectionAssignment) ==> HasApprovedRegistration(db.registrations, student, semester)
  {
    if !HasRole(db, student, Student) then Fail(NotStudent)
    else if LatestDismissed(db, student) then Fail(DismissedStudent)
    else if isNew && !SemesterActive(db, semester) then Fail(InactiveSemester)
    else if isNew && !CourseActive(db, course) then Fail(InactiveCourse)
    else if !DepartmentsAgree(db, student, course) then Fail(CourseDepartmentMismatch)
    else if !HasApprovedRegistration(db.registrations, student, semester) then Fail(NoApprovedRegistration)
    else if (student, semester) !in db.sectionAssignments then Fail(NoSectionAssignment)
    else Pass
  }

  /** Another enrollment row than `except` already holds the (student, course, semester) key. */
  predicate EnrollmentTaken(es: seq<Enrollment>, student: UserId, course: CourseId, semester: SemesterId, except: int) {
    exists i :: 0 <= i < |es| && i != except && es[i].student == student && es[i].course == course && es[i].semester == semester
  }

  /** Enrollment.save of a new, ungraded row: full_clean, then the insert. */
  function Enroll(db: Db, student: UserId, course: CourseId, semester: SemesterId): (s: Step)
    ensures s.check.Pass? <==>
      CleanEnrollment(db, student, course, semester, true).Pass? && !EnrollmentTaken(db.enrollments, student, course, semester, -1)
    ensures s.check.Pass? ==> s.after == db.(enrollments := db.enrollments + [Enrollment(student, course, semester, None)])
    ensures s.check.Fail? ==> s.after == db
  {
    var c := AndThen(CleanEnrollment(db, student, course, semester, true),
                     if EnrollmentTaken(db.enrollments, student, course, semester, -1) then Fail(Duplicate) else Pass);
    if c.Fail? then Step(c, db)
    else Step(Pass, db.(enrollments := db.enrollments + [Enrollment(student, course, semester, None)]))
  }

  /** Enrollment.save of an existing row (update_fields=["grade"]): full_clean with a primary key. */
  function ResaveEnrollment(db: Db, id: nat): (c: Check)
    requires id < |db.enrollments|
    ensures var e := db.enrollments[id];
      c.Pass? <==>
        CleanEnrollment(db, e.student, e.course, e.semester, false).Pass? &&
        !EnrollmentTaken(db.enrollments, e.student, e.course, e.semester, id)
    // clean() is reported before the uniqueness check
    ensures var e := db.enrollments[id];
      CleanEnrollment(db, e.student, e.course, e.semester, false).Fail? ==>
        c == CleanEnrollment(db, e.student, e.course, e.semester, false)
  {
    var e := db.enrollments[id];
    AndThen(CleanEnrollment(db, e.student, e.course, e.semester, false),
            if EnrollmentTaken(db.enrollments, e.student, e.course, e.semester, id) then Fail(Duplicate) else Pass)
  }

  /** The enrollment re-save does not look at the submission table. */
  lemma ResaveIgnoresSubmissions(db: Db, submissions: seq<GradeSubmission>, id: nat)
    requires id < |db.enrollments|
    ensures ResaveEnrollment(db.(submissions := submissions), id) == ResaveEnrollment(db, id)
  {
    var d := db.(submissions := submissions);
    assert d.enrollments == db.enrollments && d.users == db.users && d.catalog == db.catalog;
    assert d.statuses == db.statuses && d.registrations == db.registrations;
    assert d.sectionAssignments == db.sectionAssignments;
  }

  // ---- GradeSubmission ----

  /** The mark field's validators: MinValueValidator(0), MaxValueValidator(100), three decimal places. */
  predicate MarkInRange(mark: int) {
    0 <= mark <= 100000
  }

  /**
   * The same validators as the field is declared: with max_digits=5 and
   * decimal_places=3 at most two digits may precede the decimal point, so
   * the largest storable mark is 99.999.
   */
  predicate MarkFitsAsWritten(mark: int) {
    0 <= mark <= 100000 && mark <= 99999
  }

  /** full_clean of a new GradeSubmission: the mark field, then GradeSubmission.clean. */
  function CleanGradeSubmission(db: Db, enrollment: nat, teacher: UserId, mark: int): (c: Check)
    requires enrollment < |db.enrollments|
    ensures c.Pass? ==> !GradeSet(db.enrollments[enrollment].grade)
    ensures c.Pass? <==>
      var e := db.enrollments[enrollment];
      && MarkInRange(mark)
      && HasRole(db, teacher, Teacher)
      && CourseAssignment(e.course, teacher, e.semester) in db.courseAssignments
      && SemesterActive(db, e.semester)
      && !GradeSet(e.grade)
    ensures !MarkInRange(mark) ==> c == Fail(MarkOutOfRange)
    ensures MarkInRange(mark) && !HasRole(db, teacher, Teacher) ==> c == Fail(NotTeacher)
    ensures MarkInRange(mark) && HasRole(db, teacher, Teacher) && !(CourseAssignment(db.enrollments[enrollment].course, teacher, db.enrollments[enrollment].semester) in db.courseAssignments) ==>
      c == Fail(TeacherNotAssigned)
    ensures
      (&& MarkInRange(mark) && HasRole(db, teacher, Teacher)
       && CourseAssignment(db.enrollments[enrollment].course, teacher, db.enrollments[enrollment].semester) in db.courseAssignments
       && !SemesterActive(db, db.enrollments[enrollment].semester))
      ==> c == Fail(InactiveSemester)
    ensures
      (&& MarkInRange(mark) && HasRole(db, teacher, Teacher)
       && CourseAssignment(db.enrollments[enrollment].course, teacher, db.enrollments[enrollment].semester) in db.courseAssignments
       && SemesterActive(db, db.enrollments[enrollment].semester)
       && GradeSet(db.enrollments[enrollment].grade))
      ==> c == Fail(AlreadyGraded)
  {
    var e := db.enrollments[enrollment];
    if !MarkInRange(mark) then Fail(MarkOutOfRange)
    else if !HasRole(db, teacher, Teacher) then Fail(NotTeacher)
    else if CourseAssignment(e.course, teacher, e.semester) !in db.courseAssignments then Fail(TeacherNotAssigned)
    else if !SemesterActive(db, e.semester) then Fail(InactiveSemester)
    else if GradeSet(e.grade) then Fail(AlreadyGraded)
    else Pass
  }

  /**
   * GradeSubmission.save: validate, store the submission with its letter,
   * write the letter into the enrollment if it has none (re-validating the
   * enrollment), then recompute the standing of its (student, semester).
   * A failure of the enrollment re-save leaves the submission row stored.
   */
  function SubmitGrade(db: Db, enrollment: nat, teacher: UserId, mark: int): (s: Step)
    requires enrollment < |db.enrollments|
    ensures s.check.Fail? && CleanGradeSubmission(db, enrollment, teacher, mark).Fail? ==> s.after == db
    ensures s.check.Pass? ==> s.after.enrollments == db.enrollments[enrollment := db.enrollments[enrollment].(grade := Some(CalculateGrade(mark)))]
    ensures s.check.Pass? ==> s.after.submissions == db.submissions + [GradeSubmission(enrollment, teacher, mark, CalculateGrade(mark))]
    ensures |s.after.enrollments| == |db.enrollments|
    ensures s.check.Pass? <==> CleanGradeSubmission(db, enrollment, teacher, mark).Pass? && ResaveEnrollment(db, enrollment).Pass?
    // no transaction: a refused enrollment re-save leaves the submission row stored
    ensures CleanGradeSubmission(db, enrollment, teacher, mark).Pass? && ResaveEnrollment(db, enrollment).Fail? ==>
      s.after == db.(submissions := db.submissions + [GradeSubmission(enrollment, teacher, mark, CalculateGrade(mark))])
    ensures s.check.Pass? ==> SnapshotFresh(s.after, db.enrollments[enrollment].student, db.enrollments[enrollment].semester)
    // a grade that is already set is never changed
    ensures GradeSet(db.enrollments[enrollment].grade) ==> s.check.Fail? && s.after == db
    // only the submission, enrollment and status tables can change, and no status row of another key
    ensures s.after == db.(submissions := s.after.submissions, enrollments := s.after.enrollments, statuses := s.after.statuses)
    ensures var key := (db.enrollments[enrollment].student, db.enrollments[enrollment].semester);
      forall i :: 0 <= i < |db.statuses| && (db.statuses[i].student, db.statuses[i].semester) != key ==>
        i < |s.after.statuses| && s.after.statuses[i] == db.statuses[i]
    // on success the status table is update_for_student_and_semester's, run on the database
    // holding the new submission and the graded enrollment
    ensures s.check.Pass? ==>
      s.after == UpdateStanding(s.after.(statuses := db.statuses),
                                db.enrollments[enrollment].student, db.enrollments[enrollment].semester)
  {
    var c := CleanGradeSubmission(db, enrollment, teacher, mark);
    if c.Fail? then Step(c, db)
    else
      var letter := CalculateGrade(mark);
      var db1 := db.(submissions := db.submissions + [GradeSubmission(enrollment, teacher, mark, letter)]);
      var e := db1.enrollments[enrollment];
      if GradeSet(e.grade) then Step(Pass, UpdateStanding(db1, e.student, e.semester))
      else
        var rc := ResaveEnrollment(db1, enrollment);
        assert rc == ResaveEnrollment(db, enrollment) by {
          ResaveIgnoresSubmissions(db, db1.submissions, enrollment);
        }
        if rc.Fail? then Step(rc, db1)
        else
          var db2 := db1.(enrollments := db1.enrollments[enrollment := e.(grade := Some(letter))]);
          Step(Pass, UpdateStanding(db2, e.student, e.semester))
  }

  // ---- AcademicStatus ----

  /** AcademicStatus.clean. No path of the core calls it. */
  function CleanStatus(db: Db, student: UserId): (c: Check)
    ensures c.Pass? <==> HasRole(db, student, Student)
    ensures c.Fail? ==> c == Fail(NotStudent)
  {
    if !HasRole(db, student, Student) then Fail(NotStudent) else Pass
  }

  /** The first status row for (student, semester), if any. */
  function StatusIndex(rows: seq<StatusRow>, student: UserId, semester: SemesterId): (k: Option<nat>)
    ensures k.None? <==> forall i :: 0 <= i < |rows| ==> (rows[i].student, rows[i].semester) != (student, semester)
    ensures k.Some? ==> k.value < |rows| && rows[k.value].student == student && rows[k.value].semester == semester
    ensures k.Some? ==> forall i :: 0 <= i < k.value ==> (rows[i].student, rows[i].semester) != (student, semester)
  {
    if rows == [] then None
    else
      var n := |rows| - 1;
      var k := StatusIndex(rows[..n], student, semester);
      if k.Some? then k
      else if rows[n].student == student && rows[n].semester == semester then Some(n)
      else None
  }

  /** Overwriting the first row with a key by a row with the same key keeps it the first. */
  lemma StatusIndexAfterOverwrite(rows: seq<StatusRow>, k: nat, row: StatusRow)
    requires StatusIndex(rows, row.student, row.semester) == Some(k)
    ensures StatusIndex(rows[k := row], row.student, row.semester) == Some(k)
  {
    var rows' := rows[k := row];
    assert rows'[k] == row;
    assert forall i :: 0 <= i < |rows| && i != k ==> rows'[i] == rows[i];
  }

  /** Appending a row whose key is new makes it the first row with that key. */
  lemma StatusIndexAfterAppend(rows: seq<StatusRow>, row: StatusRow)
    requires StatusIndex(rows, row.student, row.semester).None?
    ensures StatusIndex(rows + [row], row.student, row.semester) == Some(|rows|)
  {
    assert (rows + [row])[..|rows|] == rows;
  }

  /** AcademicStatus.save: the two GPAs and the status re-derived from the enrollments; the section kept. */
  function Recomputed(db: Db, row: StatusRow): (r: StatusRow)
    // the key and the section are those of the row being saved
    ensures (r.student, r.semester, r.section) == (row.student, row.semester, row.section)
    // the stored GPAs are the current ones, and the status is the one they determine
    ensures r.semesterGpa == SemesterGpa(db, row.student, row.semester) && r.cumulativeGpa == CumulativeGpa(db, row.student)
    ensures r.status == DetermineStatus(r.semesterGpa, r.cumulativeGpa)
  {
    var semesterGpa := SemesterGpa(db, row.student, row.semester);
    var cumulativeGpa := CumulativeGpa(db, row.student);
    row.(semesterGpa := semesterGpa, cumulativeGpa := cumulativeGpa, status := DetermineStatus(semesterGpa, cumulativeGpa))
  }

  /** The snapshot for (student, semester) exists and agrees with the current graded enrollments. */
  ghost predicate SnapshotFresh(db: Db, student: UserId, semester: SemesterId) {
    var k := StatusIndex(db.statuses, student, semester);
    && k.Some?
    && db.statuses[k.value].semesterGpa == SemesterGpa(db, student, semester)
    && db.statuses[k.value].cumulativeGpa == CumulativeGpa(db, student)
    && db.statuses[k.value].status == DetermineStatus(SemesterGpa(db, student, semester), CumulativeGpa(db, student))
  }

  /** The snapshot does not read the registration table. */
  lemma SnapshotFreshIgnoresRegistrations(db: Db, registrations: seq<Registration>, student: UserId, semester: SemesterId)
    requires SnapshotFresh(db, student, semester)
    ensures SnapshotFresh(db.(registrations := registrations), student, semester)
  {
    var d := db.(registrations := registrations);
    assert d.enrollments == db.enrollments && d.catalog == db.catalog && d.statuses == db.statuses;
    assert SemesterGpa(d, student, semester) == SemesterGpa(db, student, semester);
    assert CumulativeGpa(d, student) == CumulativeGpa(db, student);
  }

  /**
   * update_or_create keyed on (student, semester) of a recomputed row: the
   * first row with the key is overwritten, or one new row is appended when
   * the key is missing; every other row is left alone and the key column
   * gains the key only when it was missing.
   */
  function Upsert(db: Db, row: StatusRow): (rows: seq<StatusRow>)
    ensures var k := StatusIndex(db.statuses, row.student, row.semester);
      var j := if k.Some? then k.value else |db.statuses|;
      && |rows| == |db.statuses| + (if k.Some? then 0 else 1)
      && StatusIndex(rows, row.student, row.semester) == Some(j)
      && rows[j] == Recomputed(db, row)
      && (forall i :: 0 <= i < |db.statuses| && i != j ==> rows[i] == db.statuses[i])
      && StatusKeys(rows) == StatusKeys(db.statuses) + (if k.Some? then [] else [(row.student, row.semester)])
  {
    var k := StatusIndex(db.statuses, row.student, row.semester);
    var rows := if k.Some? then db.statuses[k.value := Recomputed(db, row)] else db.statuses + [Recomputed(db, row)];
    assert StatusIndex(rows, row.student, row.semester) == Some(if k.Some? then k.value else |db.statuses|) by {
      if k.Some? {
        StatusIndexAfterOverwrite(db.statuses, k.value, Recomputed(db, row));
      } else {
        StatusIndexAfterAppend(db.statuses, Recomputed(db, row));
      }
    }
    assert StatusKeys(rows) == StatusKeys(db.statuses) + (if k.Some? then [] else [(row.student, row.semester)]) by {
      var ks := StatusKeys(db.statuses) + (if k.Some? then [] else [(row.student, row.semester)]);
      assert |StatusKeys(rows)| == |ks|;
      forall i | 0 <= i < |ks| ensures StatusKeys(rows)[i] == ks[i] {
        if i < |db.statuses| {
          assert ks[i] == StatusKeys(db.statuses)[i];
        }
      }
    }
    rows
  }

  /**
   * AcademicStatus.update_for_student_and_semester: update_or_create keyed
   * on (student, semester); only the status table changes, the section of
   * an existing row is kept, and a new row has no section.
   */
  function UpdateStanding(db: Db, student: UserId, semester: SemesterId): (d: Db)
    ensures d == db.(statuses := d.statuses)
    ensures SnapshotFresh(d, student, semester)
    // the key column gains (student, semester) exactly when it was missing
    ensures StatusKeys(d.statuses) ==
      StatusKeys(db.statuses) + (if StatusIndex(db.statuses, student, semester).Some? then [] else [(student, semester)])
    // every section is kept, and a new row has none
    ensures forall i :: 0 <= i < |d.statuses| ==>
      d.statuses[i].section == (if i < |db.statuses| then db.statuses[i].section else None)
    ensures forall i :: 0 <= i < |db.statuses| && (db.statuses[i].student, db.statuses[i].semester) != (student, semester) ==>
      d.statuses[i] == db.statuses[i]
  {
    var k := StatusIndex(db.statuses, student, semester);
    var row := if k.Some? then db.statuses[k.value] else StatusRow(student, semester, None, None, None, Active);
    db.(statuses := Upsert(db, row))
  }

  /**
   * AcademicStatus.assign_section_for_student_semester: set the section in
   * SectionAssignment and in the standing snapshot (both keyed upserts) and
   * re-derive the snapshot's GPAs and status. Nothing is validated: any
   * user and any section, active or not, is accepted.
   */
  function AssignSection(db: Db, student: UserId, semester: SemesterId, section: SectionId): (d: Db)
    ensures d == db.(sectionAssignments := d.sectionAssignments, statuses := d.statuses)
    ensures d.sectionAssignments == db.sectionAssignments[(student, semester) := section]
    ensures SnapshotFresh(d, student, semester)
    ensures d.statuses[StatusIndex(d.statuses, student, semester).value].section == Some(section)
    ensures StatusKeys(d.statuses) ==
      StatusKeys(db.statuses) + (if StatusIndex(db.statuses, student, semester).Some? then [] else [(student, semester)])
    // a section cell either keeps its value or now holds the assigned section
    ensures forall i :: 0 <= i < |d.statuses| ==>
      d.statuses[i].section == Some(section) || (i < |db.statuses| && d.statuses[i].section == db.statuses[i].section)
    ensures forall i :: 0 <= i < |db.statuses| && (db.statuses[i].student, db.statuses[i].semester) != (student, semester) ==>
      d.statuses[i] == db.statuses[i]
  {
    var db1 := db.(sectionAssignments := db.sectionAssignments[(student, semester) := section]);
    var k := StatusIndex(db1.statuses, student, semester);
    var row := if k.Some? then db1.statuses[k.value].(section := Some(section))
               else StatusRow(student, semester, Some(section), None, None, Active);
    db1.(statuses := Upsert(db1, row))
  }

  // ---- SectionAssignment and CourseAssignment ----

  /** SectionAssignment.clean. */
  function CleanSectionAssignment(db: Db, student: UserId, section: SectionId): (c: Check)
    ensures c.Pass? <==> HasRole(db, student, Student) && section in db.catalog.sections && db.catalog.sections[section].isActive
    // the role rule comes first; for a student the only refusal is the section's
    ensures !HasRole(db, student, Student) ==> c == Fail(NotStudent)
    ensures HasRole(db, student, Student) && c.Fail? ==> c == Fail(InactiveSection)
  {
    if !HasRole(db, student, Student) then Fail(NotStudent)
    else if !(section in db.catalog.sections && db.catalog.sections[section].isActive) then Fail(InactiveSection)
    else Pass
  }

  /** A validated save of a new SectionAssignment: clean, then unique (student, semester). */
  function AddSectionAssignment(db: Db, student: UserId, semester: SemesterId, section: SectionId): (s: Step)
    ensures s.check.Pass? <==> CleanSectionAssignment(db, student, section).Pass? && (student, semester) !in db.sectionAssignments
    ensures s.check.Pass? ==> s.after == db.(sectionAssignments := db.sectionAssignments[(student, semester) := section])
    ensures s.check.Fail? ==> s.after == db
  {
    var c := AndThen(CleanSectionAssignment(db, student, section),
                     if (student, semester) in db.sectionAssignments then Fail(Duplicate) else Pass);
    if c.Fail? then Step(c, db)
    else Step(Pass, db.(sectionAssignments := db.sectionAssignments[(student, semester) := section]))
  }

  /** CourseAssignment.clean. */
  function CleanCourseAssignment(db: Db, teacher: UserId): (c: Check)
    ensures c.Pass? <==> HasRole(db, teacher, Teacher)
    ensures c.Fail? ==> c == Fail(NotTeacher)
  {
    if !HasRole(db, teacher, Teacher) then Fail(NotTeacher) else Pass
  }

  /** A validated save of a new CourseAssignment: clean, then unique (course, teacher, semester). */
  function AddCourseAssignment(db: Db, course: CourseId, teacher: UserId, semester: SemesterId): (s: Step)
    ensures s.check.Pass? <==> HasRole(db, teacher, Teacher) && CourseAssignment(course, teacher, semester) !in db.courseAssignments
    ensures s.check.Pass? ==> s.after == db.(courseAssignments := db.courseAssignments + {CourseAssignment(course, teacher, semester)})
    ensures s.check.Fail? ==> s.after == db
  {
    var a := CourseAssignment(course, teacher, semester);
    var c := AndThen(CleanCourseAssignment(db, teacher), if a in db.courseAssignments then Fail(Duplicate) else Pass);
    if c.Fail? then Step(c, db) else Step(Pass, db.(courseAssignments := db.courseAssignments + {a}))
  }

  // ---- properties ----

  /** Recomputing a standing twice in a row changes nothing the second time. */
  lemma UpdateStandingIdempotent(db: Db, student: UserId, semester: SemesterId)
    ensures UpdateStanding(UpdateStanding(db, student, semester), student, semester) == UpdateStanding(db, student, semester)
  {
    var d1 := UpdateStanding(db, student, semester);
    var k := StatusIndex(d1.statuses, student, semester).value;
    assert SemesterGpa(d1, student, semester) == SemesterGpa(db, student, semester);
    assert d1.statuses[k := Recomputed(d1, d1.statuses[k])] == d1.statuses;
  }

  /** Once a submission has set a letter, every later submission for that enrollment is refused and writes nothing. */
  lemma GradeWrittenOnce(db: Db, enrollment: nat, teacher: UserId, mark: int, teacher': UserId, mark': int)
    requires enrollment < |db.enrollments|
    requires SubmitGrade(db, enrollment, teacher, mark).check.Pass?
    ensures var d := SubmitGrade(db, enrollment, teacher, mark).after;
      d.enrollments[enrollment].grade == Some(CalculateGrade(mark)) &&
      SubmitGrade(d, enrollment, teacher', mark').check.Fail? &&
      SubmitGrade(d, enrollment, teacher', mark').after == d
  {
    var d := SubmitGrade(db, enrollment, teacher, mark).after;
    var letter := CalculateGrade(mark);
    assert d.enrollments[enrollment].grade == Some(letter);
    assert GradeSet(d.enrollments[enrollment].grade) by {
      assert |letter| >= 1;
    }
  }

  /** A mark of 100, the top of the documented 0-100 range, fails the field as declared. */
  lemma FullMarkRejectedAsWritten()
    ensures MarkInRange(100000) && !MarkFitsAsWritten(100000)
    ensures forall m :: MarkFitsAsWritten(m) <==> MarkInRange(m) && m != 100000
  {
  }

  /** With the corrected field a mark of 100 is accepted and earns the top letter. */
  lemma FullMarkAccepted()
    ensures MarkInRange(100000) && CalculateGrade(100000) == "A+"
    ensures forall m :: MarkInRange(m) <==> 0 <= m <= 100000
  {
  }
}
