/**
 * Validation outcomes shared by every model's clean() chain.
 *
 * A Django `clean()` raises `ValidationError` at the first rule that fails;
 * here each clean() is a function that returns `Fail` with the reason of
 * that first rule, or `Pass`.
 */
module Outcomes {

  datatype Option<T> = None | Some(value: T)

  /** Why a save was refused: one tag per distinct ValidationError raised by the core. */
  datatype Reason =
    // CustomUser.clean and the unique id fields of CustomUser
    | NamesRequired | BothIdsSet | StudentIdRequired | StudentHasStaffId
    | StaffIdRequired | TeacherHasStudentId | DepartmentRequired
    | StudentIdTaken | StaffIdTaken | IdTooLong
    // role, period and standing rules shared by several models
    | NotStudent | NotTeacher | InactiveSemester | DismissedStudent
    // Enrollment, GradeSubmission, SectionAssignment, CourseAssignment
    | InactiveCourse | CourseDepartmentMismatch | NoApprovedRegistration
    | NoSectionAssignment | TeacherNotAssigned | MarkOutOfRange | AlreadyGraded
    | InactiveSection
    // Registration
    | CourseOutsideDepartment | NotPending
    // DormitoryAssignment
    | InactiveDormitory | GenderMismatch | DormitoryFull | DormitoryDepartmentMismatch
    // a unique_together (or unique field) constraint already taken
    | Duplicate

  datatype Check = Pass | Fail(reason: Reason)

  /** Two validation stages run one after the other (clean(), then the unique checks). */
  function AndThen(first: Check, next: Check): (c: Check)
    ensures c.Pass? <==> first.Pass? && next.Pass?
    ensures first.Fail? ==> c == first
  {
    if first.Fail? then first else next
  }
}
