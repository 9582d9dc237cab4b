/**
 * registration/models.py: Registration.clean, its save, approve and reject.
 */
module Registrations {
  import opened Outcomes
  import opened Users
  import opened Tables
  import opened Academic

  /** Rule 4 of Registration.clean: with a student department set, every requested course belongs to it. */
  predicate CoursesInDepartment(db: Db, student: UserId, courses: seq<CourseId>) {
    DepartmentOf(db, student).None? ||
    forall i :: 0 <= i < |courses| ==> CourseDepartment(db, courses[i]) == DepartmentOf(db, student)
  }

  /**
   * Registration.clean; `persisted` is "the row has a primary key", the
   * only case in which the many-to-many course list is examined.
   */
  function CleanRegistration(db: Db, r: Registration, persisted: bool): (c: Check)
    ensures c.Pass? <==>
      && HasRole(db, r.student, Student)
      && SemesterActive(db, r.semester)
      && !LatestDismissed(db, r.student)
      && (persisted ==> CoursesInDepartment(db, r.student, r.courses))
    ensures !HasRole(db, r.student, Student) ==> c == Fail(NotStudent)
    ensures HasRole(db, r.student, Student) && !SemesterActive(db, r.semester) ==> c == Fail(InactiveSemester)
    ensures HasRole(db, r.student, Student) && SemesterActive(db, r.semester) && LatestDismissed(db, r.student) ==>
      c == Fail(DismissedStudent)
    ensures
      (&& HasRole(db, r.student, Student) && SemesterActive(db, r.semester) && !LatestDismissed(db, r.student)
       && persisted && !CoursesInDepartment(db, r.student, r.courses))
      ==> c == Fail(CourseOutsideDepartment)
  {
    if !HasRole(db, r.student, Student) then Fail(NotStudent)
    else if !SemesterActive(db, r.semester) then Fail(InactiveSemester)
    else if LatestDismissed(db, r.student) then Fail(DismissedStudent)
    else if persisted && !CoursesInDepartment(db, r.student, r.courses) then Fail(CourseOutsideDepartment)
    else Pass
  }

  /** Another registration than `except` already holds the (student, semester) key. */
  predicate RegistrationTaken(rs: seq<Registration>, student: UserId, semester: SemesterId, except: int) {
    exists i :: 0 <= i < |rs| && i != except && rs[i].student == student && rs[i].semester == semester
  }

  /** Registration.save of a new row: full_clean without the course check, then the insert as PENDING. */
  function Register(db: Db, student: UserId, semester: SemesterId, courses: seq<CourseId>): (s: Step)
    ensures s.check.Pass? <==>
      CleanRegistration(db, Registration(student, semester, [], Pending), false).Pass? &&
      !RegistrationTaken(db.registrations, student, semester, -1)
    ensures s.check.Pass? ==>
      s.after == db.(registrations := db.registrations + [Registration(student, semester, courses, Pending)])
    ensures s.check.Fail? ==> s.after == db
  {
    var r := Registration(student, semester, courses, Pending);
    var c := AndThen(CleanRegistration(db, r, false),
                     if RegistrationTaken(db.registrations, student, semester, -1) then Fail(Duplicate) else Pass);
    if c.Fail? then Step(c, db) else Step(Pass, db.(registrations := db.registrations + [r]))
  }

  /** Registration.save of stored row `id` with a new status: full_clean with the course check, then the write. */
  function SaveStatus(db: Db, id: nat, status: RegStatus): (s: Step)
    requires id < |db.registrations|
    ensures s.check.Pass? <==>
      CleanRegistration(db, db.registrations[id], true).Pass? &&
      !RegistrationTaken(db.registrations, db.registrations[id].student, db.registrations[id].semester, id)
    ensures s.check.Pass? ==> s.after == db.(registrations := db.registrations[id := db.registrations[id].(status := status)])
    ensures s.check.Fail? ==> s.after == db
  {
    var r := db.registrations[id].(status := status);
    var c := AndThen(CleanRegistration(db, r, true),
                     if RegistrationTaken(db.registrations, r.student, r.semester, id) then Fail(Duplicate) else Pass);
    if c.Fail? then Step(c, db) else Step(Pass, db.(registrations := db.registrations[id := r]))
  }

  /**
   * One get_or_create of approve: an enrollment already stored for
   * (student, course, semester) is kept, otherwise a new one is saved.
   */
  function EnrollOrSkip(db: Db, student: UserId, course: CourseId, semester: SemesterId): (s: Step)
    ensures s.after == db.(enrollments := s.after.enrollments)
    ensures s.after.enrollments == db.enrollments ||
            s.after.enrollments == db.enrollments + [Enrollment(student, course, semester, None)]
    ensures s.check.Pass? <==>
      EnrollmentTaken(db.enrollments, student, course, semester, -1) || CleanEnrollment(db, student, course, semester, true).Pass?
    ensures s.check.Pass? ==> EnrollmentTaken(s.after.enrollments, student, course, semester, -1)
    ensures s.check.Fail? ==> s.after == db
    // a stored (student, course, semester) row is reused and nothing is written
    ensures EnrollmentTaken(db.enrollments, student, course, semester, -1) ==> s == Step(Pass, db)
    // a row is added only for a key not stored yet
    ensures s.after.enrollments != db.enrollments ==> !EnrollmentTaken(db.enrollments, student, course, semester, -1)
  {
    if EnrollmentTaken(db.enrollments, student, course, semester, -1) then Step(Pass, db)
    else
      var s := Enroll(db, student, course, semester);
      assert s.check.Pass? ==> s.after.enrollments[|db.enrollments|] == Enrollment(student, course, semester, None);
      s
  }

  /**
   * The get_or_create loop of approve over the course list; the first
   * refused save stops the loop with the earlier enrollments kept.
   */
  function EnrollAll(db: Db, student: UserId, semester: SemesterId, courses: seq<CourseId>): (s: Step)
    decreases |courses|
    ensures s.after == db.(enrollments := s.after.enrollments)
    ensures |db.enrollments| <= |s.after.enrollments| && s.after.enrollments[..|db.enrollments|] == db.enrollments
    ensures forall i :: |db.enrollments| <= i < |s.after.enrollments| ==>
      s.after.enrollments[i].student == student && s.after.enrollments[i].semester == semester &&
      s.after.enrollments[i].grade.None? && s.after.enrollments[i].course in courses
    ensures s.check.Pass? ==> forall j :: 0 <= j < |courses| ==> EnrollmentTaken(s.after.enrollments, student, courses[j], semester, -1)
    // no added row duplicates an enrollment stored before the loop
    ensures forall i :: |db.enrollments| <= i < |s.after.enrollments| ==>
      !EnrollmentTaken(db.enrollments, student, s.after.enrollments[i].course, semester, -1)
  {
    if courses == [] then Step(Pass, db)
    else
      var first := EnrollOrSkip(db, student, courses[0], semester);
      if first.check.Fail? then first
      else
        var rest := EnrollAll(first.after, student, semester, courses[1..]);
        assert EnrollAllStep(db, first, rest, student, semester, courses) by {
          EnrollAllStepHolds(db, first, rest, student, semester, courses);
        }
        rest
  }

  /** The four facts EnrollAll promises, for a first step followed by the rest of the loop. */
  ghost predicate EnrollAllStep(db: Db, first: Step, rest: Step, student: UserId, semester: SemesterId, courses: seq<CourseId>) {
    && |db.enrollments| <= |rest.after.enrollments| && rest.after.enrollments[..|db.enrollments|] == db.enrollments
    && (forall i :: |db.enrollments| <= i < |rest.after.enrollments| ==>
         rest.after.enrollments[i].student == student && rest.after.enrollments[i].semester == semester &&
         rest.after.enrollments[i].grade.None? && rest.after.enrollments[i].course in courses)
    && (rest.check.Pass? ==> forall j :: 0 <= j < |courses| ==> EnrollmentTaken(rest.after.enrollments, student, courses[j], semester, -1))
    && (forall i :: |db.enrollments| <= i < |rest.after.enrollments| ==>
         !EnrollmentTaken(db.enrollments, student, rest.after.enrollments[i].course, semester, -1))
  }

  lemma EnrollAllStepHolds(db: Db, first: Step, rest: Step, student: UserId, semester: SemesterId, courses: seq<CourseId>)
    requires courses != [] && first == EnrollOrSkip(db, student, courses[0], semester) && first.check.Pass?
    requires |first.after.enrollments| <= |rest.after.enrollments|
    requires rest.after.enrollments[..|first.after.enrollments|] == first.after.enrollments
    requires forall i :: |first.after.enrollments| <= i < |rest.after.enrollments| ==>
      rest.after.enrollments[i].student == student && rest.after.enrollments[i].semester == semester &&
      rest.after.enrollments[i].grade.None? && rest.after.enrollments[i].course in courses[1..]
    requires rest.check.Pass? ==>
      forall j :: 0 <= j < |courses[1..]| ==> EnrollmentTaken(rest.after.enrollments, student, courses[1..][j], semester, -1)
    requires forall i :: |first.after.enrollments| <= i < |rest.after.enrollments| ==>
      !EnrollmentTaken(first.after.enrollments, student, rest.after.enrollments[i].course, semester, -1)
    ensures EnrollAllStep(db, first, rest, student, semester, courses)
  {
    var n := |db.enrollments|;
    var f := first.after.enrollments;
    var es := rest.after.enrollments;
    assert es[..n] == f[..n];
    forall i | n <= i < |es|
      ensures es[i].student == student && es[i].semester == semester && es[i].grade.None? && es[i].course in courses
    {
      if i < |f| {
        assert es[i] == f[i];
      } else {
        assert es[i].course in courses[1..];
      }
    }
    forall i | n <= i < |es|
      ensures !EnrollmentTaken(db.enrollments, student, es[i].course, semester, -1)
    {
      if i < |f| {
        assert es[i] == f[i] && f != db.enrollments;
      }
    }
    if rest.check.Pass? {
      forall j | 0 <= j < |courses|
        ensures EnrollmentTaken(es, student, courses[j], semester, -1)
      {
        if j == 0 {
          var k :| 0 <= k < |f| && f[k].student == student && f[k].course == courses[0] && f[k].semester == semester;
          assert es[k] == f[k];
        } else {
          assert courses[j] == courses[1..][j - 1];
        }
      }
    }
  }

  /**
   * Registration.approve of stored row `id`: only a PENDING row; enroll in
   * every course, recompute the standing, then save the row as APPROVED.
   * Writes done before a refusal stay.
   */
  function Approve(db: Db, id: nat): (s: Step)
    requires id < |db.registrations|
    ensures db.registrations[id].status != Pending ==> s == Step(Fail(NotPending), db)
    ensures s.check.Pass? ==> s.after.registrations == db.registrations[id := db.registrations[id].(status := Approved)]
    ensures s.check.Fail? ==> s.after.registrations == db.registrations
    // only enrollments, status rows and registrations change; stored enrollments stay as they were
    ensures s.after == db.(enrollments := s.after.enrollments, statuses := s.after.statuses, registrations := s.after.registrations)
    ensures |db.enrollments| <= |s.after.enrollments| && s.after.enrollments[..|db.enrollments|] == db.enrollments
    // on success every listed course has an enrollment and the standing snapshot is current
    ensures var r := db.registrations[id];
      s.check.Pass? ==> forall j :: 0 <= j < |r.courses| ==> EnrollmentTaken(s.after.enrollments, r.student, r.courses[j], r.semester, -1)
    ensures var r := db.registrations[id];
      s.check.Pass? ==> SnapshotFresh(s.after, r.student, r.semester)
    // for a PENDING row the enrollments are the course loop's, whether or not a later stage refuses
    ensures var r := db.registrations[id];
      var e := EnrollAll(db, r.student, r.semester, r.courses);
      r.status == Pending ==> s.after.enrollments == e.after.enrollments
    // the standing is recomputed once the loop has passed (and stays when the status save then fails);
    // otherwise the status table is untouched
    ensures var r := db.registrations[id];
      var e := EnrollAll(db, r.student, r.semester, r.courses);
      s.after.statuses ==
        (if r.status == Pending && e.check.Pass? then UpdateStanding(e.after, r.student, r.semester).statuses
         else db.statuses)
    // no status row of another (student, semester) changes
    ensures var r := db.registrations[id];
      forall i :: 0 <= i < |db.statuses| && (db.statuses[i].student, db.statuses[i].semester) != (r.student, r.semester) ==>
        i < |s.after.statuses| && s.after.statuses[i] == db.statuses[i]
  {
    var r := db.registrations[id];
    if r.status != Pending then Step(Fail(NotPending), db)
    else
      var e := EnrollAll(db, r.student, r.semester, r.courses);
      if e.check.Fail? then e
      else
        var d := UpdateStanding(e.after, r.student, r.semester);
        var s := SaveStatus(d, id, Approved);
        assert s.check.Pass? ==> SnapshotFresh(s.after, r.student, r.semester) by {
          if s.check.Pass? {
            SnapshotFreshIgnoresRegistrations(d, s.after.registrations, r.student, r.semester);
          }
        }
        s
  }

  /** Registration.reject of stored row `id`: REJECTED from any status, through the same validated save. */
  function Reject(db: Db, id: nat): (s: Step)
    requires id < |db.registrations|
    ensures s.check.Pass? <==>
      CleanRegistration(db, db.registrations[id], true).Pass? &&
      !RegistrationTaken(db.registrations, db.registrations[id].student, db.registrations[id].semester, id)
    ensures s.check.Pass? ==> s.after == db.(registrations := db.registrations[id := db.registrations[id].(status := Rejected)])
    ensures s.check.Fail? ==> s.after == db
  {
    SaveStatus(db, id, Rejected)
  }

  /** The approve loop one course at a time: the list extended by one course runs that course last. */
  lemma {:induction false} EnrollAllSnoc(db: Db, student: UserId, semester: SemesterId, courses: seq<CourseId>, course: CourseId)
    ensures EnrollAll(db, student, semester, courses + [course]) ==
      var p := EnrollAll(db, student, semester, courses);
      if p.check.Fail? then p else EnrollOrSkip(p.after, student, course, semester)
    decreases |courses|
  {
    if courses == [] {
      assert [course][1..] == [];
    } else {
      assert (courses + [course])[0] == courses[0];
      assert (courses + [course])[1..] == courses[1..] + [course];
      var first := EnrollOrSkip(db, student, courses[0], semester);
      if first.check.Pass? {
        EnrollAllSnoc(first.after, student, semester, courses[1..], course);
      }
    }
  }

  /** Once the loop has stopped at a refused enrollment, the courses after it change nothing. */
  lemma {:induction false} EnrollAllStopsAtFailure(db: Db, student: UserId, semester: SemesterId, courses: seq<CourseId>, i: nat)
    requires i <= |courses|
    requires EnrollAll(db, student, semester, courses[..i]).check.Fail?
    ensures EnrollAll(db, student, semester, courses) == EnrollAll(db, student, semester, courses[..i])
    decreases |courses| - i
  {
    if i < |courses| {
      EnrollAllSnoc(db, student, semester, courses[..i], courses[i]);
      assert courses[..i + 1] == courses[..i] + [courses[i]];
      EnrollAllStopsAtFailure(db, student, semester, courses, i + 1);
    } else {
      assert courses[..i] == courses;
    }
  }

  /** A new registration is judged without its course list: the department rule cannot refuse it. */
  lemma RegisterIgnoresCourses(db: Db, student: UserId, semester: SemesterId, courses: seq<CourseId>)
    ensures Register(db, student, semester, courses).check == Register(db, student, semester, []).check
  {
  }

  /**
   * The status writes of approve and reject re-run the whole clean(): once
   * the semester is inactive no registration of it can be approved or
   * rejected, and a dismissed student's registration cannot be rejected.
   */
  lemma StatusChangesRevalidate(db: Db, id: nat)
    requires id < |db.registrations|
    requires HasRole(db, db.registrations[id].student, Student)
    ensures !SemesterActive(db, db.registrations[id].semester) ==>
      Reject(db, id) == Step(Fail(InactiveSemester), db) && Approve(db, id).check.Fail?
    ensures SemesterActive(db, db.registrations[id].semester) && LatestDismissed(db, db.registrations[id].student) ==>
      Reject(db, id) == Step(Fail(DismissedStudent), db)
  {
    var r := db.registrations[id];
    if !SemesterActive(db, r.semester) && r.status == Pending {
      var e := EnrollAll(db, r.student, r.semester, r.courses);
      if e.check.Pass? {
        var d := UpdateStanding(e.after, r.student, r.semester);
        assert d.catalog == db.catalog && d.users == db.users && d.registrations == db.registrations;
        assert CleanRegistration(d, d.registrations[id], true) == Fail(InactiveSemester);
      }
    }
  }

  /**
   * A stored registration that lists a course of another department than
   * its student's can be neither approved nor rejected while its other
   * rules hold: the status save reaches the department rule and fails there.
   */
  lemma ForeignCourseBlocksStatusChange(db: Db, id: nat, status: RegStatus, j: nat)
    requires id < |db.registrations|
    requires var r := db.registrations[id];
      && HasRole(db, r.student, Student) && SemesterActive(db, r.semester) && !LatestDismissed(db, r.student)
      && DepartmentOf(db, r.student).Some? && j < |r.courses| && CourseDepartment(db, r.courses[j]) != DepartmentOf(db, r.student)
    ensures SaveStatus(db, id, status) == Step(Fail(CourseOutsideDepartment), db)
  {
  }
}
