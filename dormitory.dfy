/**
 * dormitory/models.py: room occupancy per semester and the rules of
 * DormitoryAssignment.clean, checked before each new assignment is stored.
 */
module Dormitories {
  import opened Outcomes
  import opened Users
  import opened Tables

  /** Dormitory.assigned_count: stored assignments of the room for the semester. */
  function AssignedCount(rows: seq<DormAssignment>, dorm: DormId, semester: SemesterId): (n: nat)
    ensures n <= |rows|
    ensures n == 0 <==> forall i :: 0 <= i < |rows| ==> (rows[i].dormitory, rows[i].semester) != (dorm, semester)
  {
    if rows == [] then 0
    else
      var last := rows[|rows| - 1];
      AssignedCount(rows[..|rows| - 1], dorm, semester) + (if last.dormitory == dorm && last.semester == semester then 1 else 0)
  }

  /** Dormitory.available_slots: capacity less the stored assignments; negative once over-full. */
  function AvailableSlots(db: Db, dorm: DormId, semester: SemesterId): (n: int)
    requires dorm in db.catalog.dormitories
    ensures n <= db.catalog.dormitories[dorm].capacity
    // the whole capacity is free exactly when no one holds the room that semester
    ensures n == db.catalog.dormitories[dorm].capacity <==>
      forall i :: 0 <= i < |db.dormAssignments| ==>
        (db.dormAssignments[i].dormitory, db.dormAssignments[i].semester) != (dorm, semester)
  {
    db.catalog.dormitories[dorm].capacity - AssignedCount(db.dormAssignments, dorm, semester)
  }

  /** The room's department restriction, when set, matches the student's department. */
  predicate DepartmentAllowed(db: Db, student: UserId, d: Dormitory) {
    d.department.None? || DepartmentOf(db, student) == d.department
  }

  /** DormitoryAssignment.clean for a new assignment; a room that does not exist reads as inactive. */
  function CleanDormAssignment(db: Db, student: UserId, dorm: DormId, semester: SemesterId): (c: Check)
    ensures c.Pass? <==>
      && HasRole(db, student, Student)
      && dorm in db.catalog.dormitories
      && db.catalog.dormitories[dorm].isActive
      && GenderOf(db, student) == Some(db.catalog.dormitories[dorm].gender)
      && AvailableSlots(db, dorm, semester) > 0
      && DepartmentAllowed(db, student, db.catalog.dormitories[dorm])
    ensures !HasRole(db, student, Student) ==> c == Fail(NotStudent)
    ensures HasRole(db, student, Student) && !(dorm in db.catalog.dormitories && db.catalog.dormitories[dorm].isActive) ==>
      c == Fail(InactiveDormitory)
    // a student without a recorded gender is never housed
    ensures GenderOf(db, student).None? ==> c.Fail?
    // a full room refuses every student it would otherwise accept
    ensures
      (&& HasRole(db, student, Student)
       && dorm in db.catalog.dormitories
       && db.catalog.dormitories[dorm].isActive
       && GenderOf(db, student) == Some(db.catalog.dormitories[dorm].gender)
       && AvailableSlots(db, dorm, semester) <= 0)
      ==> c == Fail(DormitoryFull)
    ensures
      (&& HasRole(db, student, Student)
       && dorm in db.catalog.dormitories
       && db.catalog.dormitories[dorm].isActive
       && GenderOf(db, student) != Some(db.catalog.dormitories[dorm].gender))
      ==> c == Fail(GenderMismatch)
    ensures
      (&& HasRole(db, student, Student)
       && dorm in db.catalog.dormitories
       && db.catalog.dormitories[dorm].isActive
       && GenderOf(db, student) == Some(db.catalog.dormitories[dorm].gender)
       && AvailableSlots(db, dorm, semester) > 0
       && !DepartmentAllowed(db, student, db.catalog.dormitories[dorm]))
      ==> c == Fail(DormitoryDepartmentMismatch)
  {
    if !HasRole(db, student, Student) then Fail(NotStudent)
    else if !(dorm in db.catalog.dormitories && db.catalog.dormitories[dorm].isActive) then Fail(InactiveDormitory)
    else
      var d := db.catalog.dormitories[dorm];
      if GenderOf(db, student) != Some(d.gender) then Fail(GenderMismatch)
      else if AvailableSlots(db, dorm, semester) <= 0 then Fail(DormitoryFull)
      else if !DepartmentAllowed(db, student, d) then Fail(DormitoryDepartmentMismatch)
      else Pass
  }

  /** The student already holds a room for the semester. */
  predicate HousedIn(rows: seq<DormAssignment>, student: UserId, semester: SemesterId) {
    exists i :: 0 <= i < |rows| && rows[i].student == student && rows[i].semester == semester
  }

  /** DormitoryAssignment.save of a new row: full_clean (clean, then unique (student, semester)), then the insert. */
  function AssignDormitory(db: Db, student: UserId, dorm: DormId, semester: SemesterId): (s: Step)
    ensures s.check.Pass? <==>
      CleanDormAssignment(db, student, dorm, semester).Pass? && !HousedIn(db.dormAssignments, student, semester)
    ensures s.check.Pass? ==>
      s.after == db.(dormAssignments := db.dormAssignments + [DormAssignment(student, dorm, semester)])
    ensures s.check.Fail? ==> s.after == db
  {
    var c := AndThen(CleanDormAssignment(db, student, dorm, semester),
                     if HousedIn(db.dormAssignments, student, semester) then Fail(Duplicate) else Pass);
    if c.Fail? then Step(c, db)
    else Step(Pass, db.(dormAssignments := db.dormAssignments + [DormAssignment(student, dorm, semester)]))
  }

  /** Appending one assignment adds one to its own room and semester and nothing to any other. */
  lemma AssignedCountAppend(rows: seq<DormAssignment>, a: DormAssignment, dorm: DormId, semester: SemesterId)
    ensures AssignedCount(rows + [a], dorm, semester) ==
      AssignedCount(rows, dorm, semester) + (if a.dormitory == dorm && a.semester == semester then 1 else 0)
  {
    assert (rows + [a])[..|rows|] == rows;
  }

  /** Every room within its capacity in every semester. */
  ghost predicate WithinCapacity(db: Db) {
    forall dorm, semester :: dorm in db.catalog.dormitories ==>
      AssignedCount(db.dormAssignments, dorm, semester) <= db.catalog.dormitories[dorm].capacity
  }

  /**
   * An accepted assignment fills exactly one more place of its room in its
   * semester and no room ever holds more than its capacity.
   */
  lemma AssignDormitoryKeepsCapacity(db: Db, student: UserId, dorm: DormId, semester: SemesterId)
    requires WithinCapacity(db)
    ensures WithinCapacity(AssignDormitory(db, student, dorm, semester).after)
    ensures var s := AssignDormitory(db, student, dorm, semester);
      s.check.Pass? ==>
        forall d, t ::
          AssignedCount(s.after.dormAssignments, d, t) ==
          AssignedCount(db.dormAssignments, d, t) + (if d == dorm && t == semester then 1 else 0)
  {
    var s := AssignDormitory(db, student, dorm, semester);
    if s.check.Pass? {
      var a := DormAssignment(student, dorm, semester);
      forall d, t ensures AssignedCount(s.after.dormAssignments, d, t) ==
        AssignedCount(db.dormAssignments, d, t) + (if d == dorm && t == semester then 1 else 0)
      {
        AssignedCountAppend(db.dormAssignments, a, d, t);
      }
    }
  }

  /** A room of capacity c holding c students of a semester refuses one more, whoever applies. */
  lemma FullRoomRefuses(db: Db, student: UserId, dorm: DormId, semester: SemesterId)
    requires dorm in db.catalog.dormitories
    requires AssignedCount(db.dormAssignments, dorm, semester) >= db.catalog.dormitories[dorm].capacity
    ensures AssignDormitory(db, student, dorm, semester).check.Fail?
    ensures AssignDormitory(db, student, dorm, semester).after == db
  {
  }
}
