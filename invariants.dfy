/**
 * The integrity of the whole database, kept by every operation of the core,
 * and what it implies for approve.
 */
module Invariants {
  import opened Outcomes
  import opened Users
  import opened GradeScale
  import opened Tables
  import opened Academic
  import opened Registrations
  import opened Dormitories

  /** Some registration for (student, semester) has left PENDING. */
  predicate RegisteredFor(rs: seq<Registration>, student: UserId, semester: SemesterId) {
    exists j :: 0 <= j < |rs| && rs[j].student == student && rs[j].semester == semester && rs[j].status != Pending
  }

  /**
   * Every enrollment was admitted by Enrollment.clean, which asks for an
   * APPROVED registration of its (student, semester); approve never turns a
   * row back to PENDING and reject only produces REJECTED.
   */
  ghost predicate EnrollmentsRegistered(db: Db) {
    forall i :: 0 <= i < |db.enrollments| ==>
      RegisteredFor(db.registrations, db.enrollments[i].student, db.enrollments[i].semester)
  }

  ghost predicate Valid(db: Db) {
    && ForeignKeys(db)
    && IdsUnique(db.users)
    && EnrollmentsUnique(db.enrollments)
    && StatusesUnique(db.statuses)
    && RegistrationsUnique(db.registrations)
    && DormAssignmentsUnique(db.dormAssignments)
    && EnrollmentsRegistered(db)
    && WithinCapacity(db)
  }

  // ---- each operation keeps Valid ----

  lemma EnrollPreserves(db: Db, student: UserId, course: CourseId, semester: SemesterId)
    requires Valid(db)
    ensures Valid(Enroll(db, student, course, semester).after)
  {
    var s := Enroll(db, student, course, semester);
    if s.check.Pass? {
      var es := s.after.enrollments;
      var n := |db.enrollments|;
      assert es[n] == Enrollment(student, course, semester, None);
      assert forall i :: 0 <= i < n ==> es[i] == db.enrollments[i];
      assert HasApprovedRegistration(db.registrations, student, semester);
      assert RegisteredFor(db.registrations, student, semester);
      assert EnrollmentsRegistered(s.after) by {
        forall i | 0 <= i < |es|
          ensures RegisteredFor(db.registrations, es[i].student, es[i].semester)
        {
          if i < n {
            assert es[i] == db.enrollments[i];
          }
        }
      }
      assert ForeignKeys(s.after);
    }
  }

  /** Rewriting enrollment rows without touching their keys keeps every enrollment fact of Valid. */
  lemma RegradePreserves(db: Db, id: nat, grade: Option<string>)
    requires Valid(db) && id < |db.enrollments|
    ensures Valid(db.(enrollments := db.enrollments[id := db.enrollments[id].(grade := grade)]))
  {
    var d := db.(enrollments := db.enrollments[id := db.enrollments[id].(grade := grade)]);
    assert forall i :: 0 <= i < |d.enrollments| ==>
      (d.enrollments[i].student, d.enrollments[i].course, d.enrollments[i].semester) ==
      (db.enrollments[i].student, db.enrollments[i].course, db.enrollments[i].semester);
    assert EnrollmentsRegistered(d);
  }

  /** A key column that is unchanged or gains one key not yet present stays duplicate-free. */
  lemma DistinctAppend<T>(s: seq<T>, x: T)
    requires Distinct(s) && x !in s
    ensures Distinct(s + [x])
  {
    var t := s + [x];
    forall i, j | 0 <= i < j < |t| ensures t[i] != t[j] {
      assert t[i] == s[i];
      if j == |s| {
        assert t[i] in s;
      } else {
        assert t[j] == s[j];
      }
    }
  }

  /**
   * A write that touches only the section and status tables, adds at most
   * the one missing status key (student, semester) of existing rows, and
   * leaves only existing sections behind keeps every fact of Valid.
   */
  lemma StatusWritePreserves(db: Db, d: Db, student: UserId, semester: SemesterId)
    requires Valid(db)
    requires student in db.users && semester in db.catalog.semesters
    requires d == db.(sectionAssignments := d.sectionAssignments, statuses := d.statuses)
    requires forall k :: k in d.sectionAssignments ==>
      k.0 in db.users && k.1 in db.catalog.semesters && d.sectionAssignments[k] in db.catalog.sections
    requires StatusKeys(d.statuses) ==
      StatusKeys(db.statuses) + (if StatusIndex(db.statuses, student, semester).Some? then [] else [(student, semester)])
    requires forall i :: 0 <= i < |d.statuses| && d.statuses[i].section.Some? ==> d.statuses[i].section.value in db.catalog.sections
    ensures Valid(d)
  {
    var ks := StatusKeys(db.statuses);
    if StatusIndex(db.statuses, student, semester).None? {
      assert (student, semester) !in ks;
      DistinctAppend(ks, (student, semester));
    }
    forall i | 0 <= i < |d.statuses|
      ensures d.statuses[i].student in db.users && d.statuses[i].semester in db.catalog.semesters
    {
      assert StatusKeys(d.statuses)[i] == (d.statuses[i].student, d.statuses[i].semester);
      if i < |db.statuses| {
        assert StatusKeys(d.statuses)[i] == ks[i];
      }
    }
  }

  lemma UpdateStandingPreserves(db: Db, student: UserId, semester: SemesterId)
    requires Valid(db)
    requires student in db.users && semester in db.catalog.semesters
    ensures Valid(UpdateStanding(db, student, semester))
  {
    UpdateStandingReferences(db, student, semester);
    StatusWritePreserves(db, UpdateStanding(db, student, semester), student, semester);
  }

  /** A standing recompute leaves only existing sections in the status table. */
  lemma UpdateStandingReferences(db: Db, student: UserId, semester: SemesterId)
    requires ForeignKeys(db)
    ensures var d := UpdateStanding(db, student, semester);
      forall i :: 0 <= i < |d.statuses| && d.statuses[i].section.Some? ==> d.statuses[i].section.value in db.catalog.sections
  {
  }

  /** Storing a submission for an existing enrollment by an existing user keeps Valid. */
  lemma AppendSubmissionPreserves(db: Db, sub: GradeSubmission)
    requires Valid(db) && sub.enrollment < |db.enrollments| && sub.submittedBy in db.users
    ensures Valid(db.(submissions := db.submissions + [sub]))
  {
    var d := db.(submissions := db.submissions + [sub]);
    assert forall i :: 0 <= i < |db.submissions| ==> d.submissions[i] == db.submissions[i];
  }

  /** The grade write and the recompute of a submission keep Valid. */
  lemma GradeWritePreserves(db: Db, enrollment: nat, letter: string)
    requires Valid(db) && enrollment < |db.enrollments|
    ensures var e := db.enrollments[enrollment];
      Valid(UpdateStanding(db.(enrollments := db.enrollments[enrollment := e.(grade := Some(letter))]), e.student, e.semester))
  {
    var e := db.enrollments[enrollment];
    var d := db.(enrollments := db.enrollments[enrollment := e.(grade := Some(letter))]);
    RegradePreserves(db, enrollment, Some(letter));
    assert e.student in d.users && e.semester in d.catalog.semesters;
    UpdateStandingPreserves(d, e.student, e.semester);
  }

  lemma SubmitGradePreserves(db: Db, enrollment: nat, teacher: UserId, mark: int)
    requires Valid(db) && enrollment < |db.enrollments|
    ensures Valid(SubmitGrade(db, enrollment, teacher, mark).after)
  {
    if CleanGradeSubmission(db, enrollment, teacher, mark).Pass? {
      var sub := GradeSubmission(enrollment, teacher, mark, CalculateGrade(mark));
      var db1 := db.(submissions := db.submissions + [sub]);
      assert Valid(db1) by {
        AppendSubmissionPreserves(db, sub);
      }
      if ResaveEnrollment(db1, enrollment).Pass? {
        GradeWritePreserves(db1, enrollment, CalculateGrade(mark));
      }
    }
  }

  lemma AssignSectionPreserves(db: Db, student: UserId, semester: SemesterId, section: SectionId)
    requires Valid(db)
    requires student in db.users && semester in db.catalog.semesters && section in db.catalog.sections
    ensures Valid(AssignSection(db, student, semester, section))
  {
    AssignSectionReferences(db, student, semester, section);
    StatusWritePreserves(db, AssignSection(db, student, semester, section), student, semester);
  }

  /** assign_section leaves only existing users, semesters and sections in the section and status tables. */
  lemma AssignSectionReferences(db: Db, student: UserId, semester: SemesterId, section: SectionId)
    requires ForeignKeys(db)
    requires student in db.users && semester in db.catalog.semesters && section in db.catalog.sections
    ensures var d := AssignSection(db, student, semester, section);
      && (forall k :: k in d.sectionAssignments ==>
            k.0 in db.users && k.1 in db.catalog.semesters && d.sectionAssignments[k] in db.catalog.sections)
      && (forall i :: 0 <= i < |d.statuses| && d.statuses[i].section.Some? ==> d.statuses[i].section.value in db.catalog.sections)
  {
  }

  lemma AddSectionAssignmentPreserves(db: Db, student: UserId, semester: SemesterId, section: SectionId)
    requires Valid(db) && semester in db.catalog.semesters
    ensures Valid(AddSectionAssignment(db, student, semester, section).after)
  {
  }

  lemma AddCourseAssignmentPreserves(db: Db, course: CourseId, teacher: UserId, semester: SemesterId)
    requires Valid(db) && course in db.catalog.courses && semester in db.catalog.semesters
    ensures Valid(AddCourseAssignment(db, course, teacher, semester).after)
  {
  }

  lemma RegisterPreserves(db: Db, student: UserId, semester: SemesterId, courses: seq<CourseId>)
    requires Valid(db)
    requires forall j :: 0 <= j < |courses| ==> courses[j] in db.catalog.courses
    ensures Valid(Register(db, student, semester, courses).after)
  {
    var s := Register(db, student, semester, courses);
    if s.check.Pass? {
      var rs := s.after.registrations;
      var n := |db.registrations|;
      assert forall i :: 0 <= i < n ==> rs[i] == db.registrations[i];
      assert rs[n] == Registration(student, semester, courses, Pending);
      assert EnrollmentsRegistered(s.after) by {
        forall i | 0 <= i < |db.enrollments|
          ensures RegisteredFor(rs, db.enrollments[i].student, db.enrollments[i].semester)
        {
          var j :| 0 <= j < n && db.registrations[j].student == db.enrollments[i].student &&
            db.registrations[j].semester == db.enrollments[i].semester && db.registrations[j].status != Pending;
          assert rs[j] == db.registrations[j];
        }
      }
    }
  }

  lemma SaveStatusPreserves(db: Db, id: nat, status: RegStatus)
    requires Valid(db) && id < |db.registrations| && status != Pending
    ensures Valid(SaveStatus(db, id, status).after)
  {
    var s := SaveStatus(db, id, status);
    if s.check.Pass? {
      var rs := s.after.registrations;
      assert forall i :: 0 <= i < |rs| ==>
        (rs[i].student, rs[i].semester, rs[i].courses) == (db.registrations[i].student, db.registrations[i].semester, db.registrations[i].courses);
      assert EnrollmentsRegistered(s.after) by {
        forall i | 0 <= i < |db.enrollments|
          ensures RegisteredFor(rs, db.enrollments[i].student, db.enrollments[i].semester)
        {
          var j :| 0 <= j < |rs| && db.registrations[j].student == db.enrollments[i].student &&
            db.registrations[j].semester == db.enrollments[i].semester && db.registrations[j].status != Pending;
          assert rs[j].status != Pending;
        }
      }
    }
  }

  lemma {:induction false} EnrollAllPreserves(db: Db, student: UserId, semester: SemesterId, courses: seq<CourseId>)
    requires Valid(db)
    ensures Valid(EnrollAll(db, student, semester, courses).after)
    decreases |courses|
  {
    if courses != [] {
      var course := courses[0];
      var first := EnrollOrSkip(db, student, course, semester);
      if !EnrollmentTaken(db.enrollments, student, course, semester, -1) {
        EnrollPreserves(db, student, course, semester);
      }
      if first.check.Pass? {
        EnrollAllPreserves(first.after, student, semester, courses[1..]);
      }
    }
  }

  lemma ApprovePreserves(db: Db, id: nat)
    requires Valid(db) && id < |db.registrations|
    ensures Valid(Approve(db, id).after)
  {
    var r := db.registrations[id];
    if r.status == Pending {
      var e := EnrollAll(db, r.student, r.semester, r.courses);
      assert Valid(e.after) by {
        EnrollAllPreserves(db, r.student, r.semester, r.courses);
      }
      if e.check.Pass? {
        var d := UpdateStanding(e.after, r.student, r.semester);
        assert r.student in e.after.users && r.semester in e.after.catalog.semesters;
        assert Valid(d) by {
          UpdateStandingPreserves(e.after, r.student, r.semester);
        }
        assert Valid(SaveStatus(d, id, Approved).after) by {
          SaveStatusPreserves(d, id, Approved);
        }
        assert Approve(db, id) == SaveStatus(d, id, Approved);
      } else {
        assert Approve(db, id) == e;
      }
    }
  }

  lemma RejectPreserves(db: Db, id: nat)
    requires Valid(db) && id < |db.registrations|
    ensures Valid(Reject(db, id).after)
  {
    SaveStatusPreserves(db, id, Rejected);
  }

  lemma AssignDormitoryPreserves(db: Db, student: UserId, dorm: DormId, semester: SemesterId)
    requires Valid(db) && semester in db.catalog.semesters
    ensures Valid(AssignDormitory(db, student, dorm, semester).after)
  {
    AssignDormitoryKeepsCapacity(db, student, dorm, semester);
    var s := AssignDormitory(db, student, dorm, semester);
    if s.check.Pass? {
      var n := |db.dormAssignments|;
      assert forall i :: 0 <= i < n ==> s.after.dormAssignments[i] == db.dormAssignments[i];
      assert s.after.dormAssignments[n] == DormAssignment(student, dorm, semester);
    }
  }

  lemma SaveUserPreserves(db: Db, id: UserId, u: User)
    requires Valid(db)
    ensures Valid(SaveUser(db, id, u).after)
  {
    if SaveUser(db, id, u).check.Pass? {
      UniqueIdsKeepUnique(db.users, id, Normalize(u));
    }
  }

  // ---- approve under Valid ----

  /** Under Valid, a PENDING registration's student has no enrollment in its semester. */
  lemma PendingHasNoEnrollment(db: Db, id: nat, course: CourseId)
    requires Valid(db) && id < |db.registrations| && db.registrations[id].status == Pending
    ensures !EnrollmentTaken(db.enrollments, db.registrations[id].student, course, db.registrations[id].semester, -1)
    ensures !HasApprovedRegistration(db.registrations, db.registrations[id].student, db.registrations[id].semester)
  {
    var r := db.registrations[id];
    var rs := db.registrations;
    // every other registration has another (student, semester) key
    forall j | 0 <= j < |rs| && j != id
      ensures (rs[j].student, rs[j].semester) != (r.student, r.semester)
    {
      if j < id { assert (rs[j].student, rs[j].semester) != (rs[id].student, rs[id].semester); }
      else { assert (rs[id].student, rs[id].semester) != (rs[j].student, rs[j].semester); }
    }
    forall i | 0 <= i < |db.enrollments|
      ensures (db.enrollments[i].student, db.enrollments[i].semester) != (r.student, r.semester)
    {
      assert RegisteredFor(rs, db.enrollments[i].student, db.enrollments[i].semester);
    }
  }

  /**
   * Approving a PENDING registration that lists at least one course is
   * always refused and writes nothing: the first course needs a new
   * enrollment, and Enrollment.clean asks for an APPROVED registration of
   * the same student and semester, which can only be this one, still PENDING.
   */
  lemma ApproveWithCoursesFails(db: Db, id: nat)
    requires Valid(db) && id < |db.registrations|
    requires db.registrations[id].status == Pending && |db.registrations[id].courses| > 0
    ensures Approve(db, id).check.Fail?
    ensures Approve(db, id).after == db
  {
    var r := db.registrations[id];
    PendingHasNoEnrollment(db, id, r.courses[0]);
    assert Enroll(db, r.student, r.courses[0], r.semester).check.Fail?;
  }

  /** Under Valid, approve never creates an enrollment. */
  lemma ApproveCreatesNoEnrollment(db: Db, id: nat)
    requires Valid(db) && id < |db.registrations|
    ensures Approve(db, id).after.enrollments == db.enrollments
  {
    var r := db.registrations[id];
    if r.status == Pending && |r.courses| > 0 {
      ApproveWithCoursesFails(db, id);
    }
  }

  /**
   * A PENDING registration without courses: the standing snapshot of its
   * (student, semester) is recomputed and kept even when the final save
   * of the registration is refused.
   */
  lemma ApproveWithoutCourses(db: Db, id: nat)
    requires id < |db.registrations|
    requires db.registrations[id].status == Pending && db.registrations[id].courses == []
    ensures Approve(db, id).after.enrollments == db.enrollments
    ensures SnapshotFresh(Approve(db, id).after, db.registrations[id].student, db.registrations[id].semester)
    ensures Approve(db, id).check == SaveStatus(UpdateStanding(db, db.registrations[id].student, db.registrations[id].semester), id, Approved).check
  {
  }
}
