/**
 * The database as one object whose tables the save() methods and class
 * methods of the core update in place. Each method is proved to leave the
 * tables exactly as the matching function of the other modules says, and
 * to keep Invariants.Valid.
 */
module Store {
  import opened Outcomes
  import opened Users
  import opened GradeScale
  import opened Tables
  import opened Gpa
  import Academic
  import Registrations
  import Dormitories
  import opened Invariants

  class Campus {
    var catalog: Catalog
    var users: map<UserId, User>
    var courseAssignments: set<CourseAssignment>
    var enrollments: seq<Enrollment>
    var submissions: seq<GradeSubmission>
    var sectionAssignments: map<(UserId, SemesterId), SectionId>
    var statuses: seq<StatusRow>
    var registrations: seq<Registration>
    var dormAssignments: seq<DormAssignment>

    function State(): Db
      reads this
    {
      Db(catalog, users, courseAssignments, enrollments, submissions, sectionAssignments,
         statuses, registrations, dormAssignments)
    }

    ghost predicate Valid()
      reads this
    {
      Invariants.Valid(State())
    }

    /** A database with its catalog and accounts (unique ids, as their columns demand) and no academic records yet. */
    constructor (catalog: Catalog, users: map<UserId, User>)
      requires IdsUnique(users)
      ensures State() == Db(catalog, users, {}, [], [], map[], [], [], [])
      ensures Valid()
    {
      this.catalog := catalog;
      this.users := users;
      courseAssignments := {};
      enrollments := [];
      submissions := [];
      sectionAssignments := map[];
      statuses := [];
      registrations := [];
      dormAssignments := [];
    }

    // ---- GPA queries ----

    /**
     * The loop shared by Semester.get_student_gpa and
     * Enrollment.calculate_cumulative_gpa: accumulate quality points and
     * credit hours over the enrollments in scope, then round half up.
     */
    method ComputeGpa(scope: Scope) returns (gpa: Option<nat>)
      ensures gpa == ScopeGpa(enrollments, catalog.courses, scope)
    {
      var points, credits := 0, 0;
      var i := 0;
      while i < |enrollments|
        invariant 0 <= i <= |enrollments|
        invariant Totals(points, credits) == Sum(enrollments[..i], catalog.courses, scope)
      {
        var e := enrollments[i];
        ghost var sofar := Totals(points, credits);
        if InScope(e, scope) && e.grade.value in GradePoints {
          var hours := CreditsOf(catalog.courses, e.course);
          points := points + GradePoints[e.grade.value] * hours;
          credits := credits + hours;
        }
        assert Totals(points, credits) == Plus(sofar, Contribution(e, catalog.courses, scope));
        assert enrollments[..i + 1][..i] == enrollments[..i];
        i := i + 1;
      }
      assert enrollments[..i] == enrollments;
      ScopeGpaRounds(enrollments, catalog.courses, scope);
      if credits == 0 {
        gpa := None;
      } else {
        gpa := Some(RoundHalfUp(points, credits));
      }
    }

    /** Semester.get_student_gpa. */
    method StudentGpa(student: UserId, semester: SemesterId) returns (gpa: Option<nat>)
      ensures gpa == SemesterGpa(State(), student, semester)
    {
      gpa := ComputeGpa(Term(student, semester));
    }

    /** Enrollment.calculate_cumulative_gpa. */
    method StudentCumulativeGpa(student: UserId) returns (gpa: Option<nat>)
      ensures gpa == CumulativeGpa(State(), student)
    {
      gpa := ComputeGpa(Lifetime(student));
    }

    // ---- AcademicStatus ----

    /** AcademicStatus.update_for_student_and_semester. */
    method UpdateStanding(student: UserId, semester: SemesterId)
      modifies this
      ensures State() == Academic.UpdateStanding(old(State()), student, semester)
      ensures old(Valid()) && student in users && semester in catalog.semesters ==> Valid()
    {
      ghost var before := State();
      var semesterGpa := StudentGpa(student, semester);
      var cumulativeGpa := StudentCumulativeGpa(student);
      var status := DetermineStatus(semesterGpa, cumulativeGpa);
      var k := Academic.StatusIndex(statuses, student, semester);
      if k.Some? {
        statuses := statuses[k.value := statuses[k.value].(semesterGpa := semesterGpa, cumulativeGpa := cumulativeGpa, status := status)];
      } else {
        statuses := statuses + [StatusRow(student, semester, None, semesterGpa, cumulativeGpa, status)];
      }
      if Invariants.Valid(before) && student in users && semester in catalog.semesters {
        UpdateStandingPreserves(before, student, semester);
      }
    }

    /** AcademicStatus.assign_section_for_student_semester. */
    method AssignSection(student: UserId, semester: SemesterId, section: SectionId)
      modifies this
      ensures State() == Academic.AssignSection(old(State()), student, semester, section)
      ensures old(Valid()) && student in users && semester in catalog.semesters && section in catalog.sections ==> Valid()
    {
      ghost var before := State();
      sectionAssignments := sectionAssignments[(student, semester) := section];
      var semesterGpa := StudentGpa(student, semester);
      var cumulativeGpa := StudentCumulativeGpa(student);
      var status := DetermineStatus(semesterGpa, cumulativeGpa);
      var k := Academic.StatusIndex(statuses, student, semester);
      if k.Some? {
        statuses := statuses[k.value := statuses[k.value].(section := Some(section), semesterGpa := semesterGpa,
                                                           cumulativeGpa := cumulativeGpa, status := status)];
      } else {
        statuses := statuses + [StatusRow(student, semester, Some(section), semesterGpa, cumulativeGpa, status)];
      }
      if Invariants.Valid(before) && student in users && semester in catalog.semesters && section in catalog.sections {
        AssignSectionPreserves(before, student, semester, section);
      }
    }

    // ---- Enrollment and GradeSubmission ----

    /** Enrollment.save of a new row. */
    method Enroll(student: UserId, course: CourseId, semester: SemesterId) returns (c: Check)
      modifies this
      ensures Step(c, State()) == Academic.Enroll(old(State()), student, course, semester)
      ensures old(Valid()) ==> Valid()
    {
      ghost var before := State();
      c := AndThen(Academic.CleanEnrollment(State(), student, course, semester, true),
                   if Academic.EnrollmentTaken(enrollments, student, course, semester, -1) then Fail(Duplicate) else Pass);
      if c.Pass? {
        enrollments := enrollments + [Enrollment(student, course, semester, None)];
      }
      if Invariants.Valid(before) {
        EnrollPreserves(before, student, course, semester);
      }
    }

    /** GradeSubmission.save of a new submission for enrollment row `enrollment`. */
    method SubmitGrade(enrollment: nat, teacher: UserId, mark: int) returns (c: Check)
      requires enrollment < |enrollments|
      modifies this
      ensures Step(c, State()) == Academic.SubmitGrade(old(State()), enrollment, teacher, mark)
      ensures old(Valid()) ==> Valid()
    {
      ghost var before := State();
      if Invariants.Valid(before) {
        SubmitGradePreserves(before, enrollment, teacher, mark);
      }
      c := Academic.CleanGradeSubmission(State(), enrollment, teacher, mark);
      if c.Fail? {
        return;
      }
      var letter := CalculateGrade(mark);
      submissions := submissions + [GradeSubmission(enrollment, teacher, mark, letter)];
      var e := enrollments[enrollment];
      if !GradeSet(e.grade) {
        c := Academic.ResaveEnrollment(State(), enrollment);
        if c.Fail? {
          return;
        }
        enrollments := enrollments[enrollment := e.(grade := Some(letter))];
      }
      UpdateStanding(e.student, e.semester);
    }

    /** A validated save of a new SectionAssignment. */
    method AddSectionAssignment(student: UserId, semester: SemesterId, section: SectionId) returns (c: Check)
      modifies this
      ensures Step(c, State()) == Academic.AddSectionAssignment(old(State()), student, semester, section)
      ensures old(Valid()) && semester in catalog.semesters ==> Valid()
    {
      ghost var before := State();
      c := AndThen(Academic.CleanSectionAssignment(State(), student, section),
                   if (student, semester) in sectionAssignments then Fail(Duplicate) else Pass);
      if c.Pass? {
        sectionAssignments := sectionAssignments[(student, semester) := section];
      }
      if Invariants.Valid(before) && semester in catalog.semesters {
        AddSectionAssignmentPreserves(before, student, semester, section);
      }
    }

    /** A validated save of a new CourseAssignment. */
    method AddCourseAssignment(course: CourseId, teacher: UserId, semester: SemesterId) returns (c: Check)
      modifies this
      ensures Step(c, State()) == Academic.AddCourseAssignment(old(State()), course, teacher, semester)
      ensures old(Valid()) && course in catalog.courses && semester in catalog.semesters ==> Valid()
    {
      ghost var before := State();
      var a := CourseAssignment(course, teacher, semester);
      c := AndThen(Academic.CleanCourseAssignment(State(), teacher), if a in courseAssignments then Fail(Duplicate) else Pass);
      if c.Pass? {
        courseAssignments := courseAssignments + {a};
      }
      if Invariants.Valid(before) && course in catalog.courses && semester in catalog.semesters {
        AddCourseAssignmentPreserves(before, course, teacher, semester);
      }
    }

    // ---- Registration ----

    /** Registration.save of a new row with its requested courses. */
    method Register(student: UserId, semester: SemesterId, courses: seq<CourseId>) returns (c: Check)
      modifies this
      ensures Step(c, State()) == Registrations.Register(old(State()), student, semester, courses)
      ensures old(Valid()) && (forall j :: 0 <= j < |courses| ==> courses[j] in catalog.courses) ==> Valid()
    {
      ghost var before := State();
      var r := Registration(student, semester, courses, Pending);
      c := AndThen(Registrations.CleanRegistration(State(), r, false),
                   if Registrations.RegistrationTaken(registrations, student, semester, -1) then Fail(Duplicate) else Pass);
      if c.Pass? {
        registrations := registrations + [r];
      }
      if Invariants.Valid(before) && forall j :: 0 <= j < |courses| ==> courses[j] in catalog.courses {
        RegisterPreserves(before, student, semester, courses);
      }
    }

    /** Registration.save of stored row `id` with a new status. */
    method SaveStatus(id: nat, status: RegStatus) returns (c: Check)
      requires id < |registrations|
      modifies this
      ensures Step(c, State()) == Registrations.SaveStatus(old(State()), id, status)
      ensures old(Valid()) && status != Pending ==> Valid()
    {
      ghost var before := State();
      var r := registrations[id].(status := status);
      c := AndThen(Registrations.CleanRegistration(State(), r, true),
                   if Registrations.RegistrationTaken(registrations, r.student, r.semester, id) then Fail(Duplicate) else Pass);
      if c.Pass? {
        registrations := registrations[id := r];
      }
      if Invariants.Valid(before) && status != Pending {
        SaveStatusPreserves(before, id, status);
      }
    }

    /** The get_or_create loop of approve: one enrollment per course, stopping at the first refusal. */
    method EnrollCourses(student: UserId, semester: SemesterId, courses: seq<CourseId>) returns (c: Check)
      modifies this
      ensures Step(c, State()) == Registrations.EnrollAll(old(State()), student, semester, courses)
    {
      ghost var before := State();
      c := Pass;
      var i := 0;
      while i < |courses|
        invariant 0 <= i <= |courses|
        invariant Registrations.EnrollAll(before, student, semester, courses[..i]) == Step(Pass, State())
        invariant c == Pass
      {
        var course := courses[i];
        ghost var mid := State();
        Registrations.EnrollAllSnoc(before, student, semester, courses[..i], course);
        assert courses[..i + 1] == courses[..i] + [course];
        if !Academic.EnrollmentTaken(enrollments, student, course, semester, -1) {
          c := Enroll(student, course, semester);
          assert Step(c, State()) == Registrations.EnrollOrSkip(mid, student, course, semester);
          if c.Fail? {
            Registrations.EnrollAllStopsAtFailure(before, student, semester, courses, i + 1);
            return;
          }
        }
        i := i + 1;
      }
      assert courses[..i] == courses;
    }

    /** Registration.approve of stored row `id`. */
    method Approve(id: nat) returns (c: Check)
      requires id < |registrations|
      modifies this
      ensures Step(c, State()) == Registrations.Approve(old(State()), id)
      ensures old(Valid()) ==> Valid()
    {
      ghost var before := State();
      if Invariants.Valid(before) {
        ApprovePreserves(before, id);
      }
      var r := registrations[id];
      if r.status != Pending {
        return Fail(NotPending);
      }
      c := EnrollCourses(r.student, r.semester, r.courses);
      if c.Fail? {
        return;
      }
      UpdateStanding(r.student, r.semester);
      c := SaveStatus(id, Approved);
    }

    /** Registration.reject of stored row `id`. */
    method Reject(id: nat) returns (c: Check)
      requires id < |registrations|
      modifies this
      ensures Step(c, State()) == Registrations.Reject(old(State()), id)
      ensures old(Valid()) ==> Valid()
    {
      c := SaveStatus(id, Rejected);
    }

    // ---- DormitoryAssignment ----

    /** DormitoryAssignment.save of a new row. */
    method AssignDormitory(student: UserId, dorm: DormId, semester: SemesterId) returns (c: Check)
      modifies this
      ensures Step(c, State()) == Dormitories.AssignDormitory(old(State()), student, dorm, semester)
      ensures old(Valid()) && semester in catalog.semesters ==> Valid()
    {
      ghost var before := State();
      c := AndThen(Dormitories.CleanDormAssignment(State(), student, dorm, semester),
                   if Dormitories.HousedIn(dormAssignments, student, semester) then Fail(Duplicate) else Pass);
      if c.Pass? {
        dormAssignments := dormAssignments + [DormAssignment(student, dorm, semester)];
      }
      if Invariants.Valid(before) && semester in catalog.semesters {
        AssignDormitoryPreserves(before, student, dorm, semester);
      }
    }

    // ---- CustomUser ----

    /** CustomUser.save of instance `u` as row `id`: the instance is normalised in place, then stored if valid. */
    method SaveUser(id: UserId, u: CustomUser) returns (c: Check)
      modifies this, u
      ensures u.Fields() == Normalize(old(u.Fields()))
      ensures Step(c, State()) == Tables.SaveUser(old(State()), id, old(u.Fields()))
      ensures old(Valid()) ==> Valid()
    {
      ghost var before := State();
      c := u.Save(users, id);
      if c.Pass? {
        users := users[id := u.Fields()];
      }
      if Invariants.Valid(before) {
        SaveUserPreserves(before, id, old(u.Fields()));
      }
    }
  }
}
