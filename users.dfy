/**
 * user/models.py: the CustomUser record, its role rules and the superuser
 * normalisation done by its save().
 */
module Users {
  import opened Outcomes

  type UserId = nat
  type DeptId = nat

  /** RoleChoices. */
  datatype Role = Student | Teacher | Admin

  /** GenderChoice. */
  datatype Gender = Male | Female

  /** The persisted fields of a CustomUser that the academic rules read. */
  datatype User = User(
    firstName: string,
    lastName: string,
    role: Role,
    studentId: Option<string>,
    staffId: Option<string>,
    department: Option<DeptId>,
    gender: Option<Gender>,
    isSuperuser: bool)

  /** Python truthiness of a nullable text field: set and not empty. */
  predicate Given(s: Option<string>) {
    s.Some? && s.value != ""
  }

  /** CustomUser.clean: the first rule that fails, in source order; ADMIN stops after the names. */
  function CleanUser(u: User): (c: Check)
    // names first, for every role
    ensures (u.firstName == "" || u.lastName == "") ==> c == Fail(NamesRequired)
    // an admin with both names passes whatever its ids and department
    ensures u.role == Admin ==> (c.Pass? <==> u.firstName != "" && u.lastName != "")
    // a student: student id, no staff id, a department
    ensures u.role == Student ==>
      (c.Pass? <==> u.firstName != "" && u.lastName != "" && Given(u.studentId) && !Given(u.staffId) && u.department.Some?)
    // a teacher: staff id, no student id, a department
    ensures u.role == Teacher ==>
      (c.Pass? <==> u.firstName != "" && u.lastName != "" && Given(u.staffId) && !Given(u.studentId) && u.department.Some?)
    // a student or teacher holding both ids is refused for that, before any role rule
    ensures u.firstName != "" && u.lastName != "" && u.role != Admin && Given(u.studentId) && Given(u.staffId) ==>
      c == Fail(BothIdsSet)
    // a missing id of the role is the reason before the department
    ensures u.firstName != "" && u.lastName != "" && u.role == Student && !Given(u.studentId) ==> c == Fail(StudentIdRequired)
    ensures u.firstName != "" && u.lastName != "" && u.role == Teacher && !Given(u.staffId) ==> c == Fail(StaffIdRequired)
    // with the ids in order, a student or teacher without a department is refused for that
    ensures
      (&& u.firstName != "" && u.lastName != "" && u.department.None?
       && ((u.role == Student && Given(u.studentId) && !Given(u.staffId))
           || (u.role == Teacher && Given(u.staffId) && !Given(u.studentId))))
      ==> c == Fail(DepartmentRequired)
  {
    if u.firstName == "" || u.lastName == "" then Fail(NamesRequired)
    else if u.role == Admin then Pass
    else if Given(u.studentId) && Given(u.staffId) then Fail(BothIdsSet)
    else if u.role == Student && !Given(u.studentId) then Fail(StudentIdRequired)
    else if u.role == Student && Given(u.staffId) then Fail(StudentHasStaffId)
    else if u.role == Teacher && !Given(u.staffId) then Fail(StaffIdRequired)
    else if u.role == Teacher && Given(u.studentId) then Fail(TeacherHasStudentId)
    else if u.department.None? then Fail(DepartmentRequired)
    else Pass
  }

  /** CustomUser.save: a superuser is forced to ADMIN with no ids and no department before validation. */
  function Normalize(u: User): (n: User)
    ensures u.isSuperuser ==> n.role == Admin && n.studentId.None? && n.staffId.None? && n.department.None?
    ensures !u.isSuperuser ==> n == u
    ensures n.firstName == u.firstName && n.lastName == u.lastName && n.gender == u.gender && n.isSuperuser == u.isSuperuser
  {
    if u.isSuperuser then u.(role := Admin, studentId := None, staffId := None, department := None) else u
  }

  /** The unique student_id / staff_id fields: no other user holds the same non-null value. */
  function UniqueIds(users: map<UserId, User>, id: UserId, u: User): (c: Check)
    ensures c.Pass? <==>
      (u.studentId.Some? ==> forall k :: k in users && k != id ==> users[k].studentId != u.studentId) &&
      (u.staffId.Some? ==> forall k :: k in users && k != id ==> users[k].staffId != u.staffId)
  {
    if u.studentId.Some? && exists k :: k in users && k != id && users[k].studentId == u.studentId then Fail(StudentIdTaken)
    else if u.staffId.Some? && exists k :: k in users && k != id && users[k].staffId == u.staffId then Fail(StaffIdTaken)
    else Pass
  }

  /** max_length of the student_id and staff_id fields. */
  const IdMaxLength := 30

  /** An id field holds nothing or at most IdMaxLength characters. */
  predicate IdFits(s: Option<string>) {
    s.None? || |s.value| <= IdMaxLength
  }

  /** clean_fields on the two id fields of CustomUser: their max_length. */
  function CleanUserFields(u: User): (c: Check)
    ensures c.Pass? <==> IdFits(u.studentId) && IdFits(u.staffId)
    // an id of 31 characters or more is refused, whatever the role
    ensures u.studentId.Some? && |u.studentId.value| > IdMaxLength ==> c == Fail(IdTooLong)
    ensures u.staffId.Some? && |u.staffId.value| > IdMaxLength ==> c == Fail(IdTooLong)
  {
    if IdFits(u.studentId) && IdFits(u.staffId) then Pass else Fail(IdTooLong)
  }

  /** full_clean on a user row: the field limits, clean(), then the unique fields. */
  function FullCleanUser(users: map<UserId, User>, id: UserId, u: User): (c: Check)
    ensures c.Pass? <==> CleanUserFields(u).Pass? && CleanUser(u).Pass? && UniqueIds(users, id, u).Pass?
    ensures CleanUserFields(u).Fail? ==> c == CleanUserFields(u)
    ensures CleanUserFields(u).Pass? && CleanUser(u).Fail? ==> c == CleanUser(u)
  {
    AndThen(CleanUserFields(u), AndThen(CleanUser(u), UniqueIds(users, id, u)))
  }

  /** Two users hold the same non-null student_id or the same non-null staff_id. */
  predicate IdsClash(x: User, y: User) {
    (x.studentId.Some? && x.studentId == y.studentId) || (x.staffId.Some? && x.staffId == y.staffId)
  }

  /** The unique student_id and staff_id columns: no two users share a non-null value. */
  ghost predicate IdsUnique(users: map<UserId, User>) {
    forall a, b {:trigger IdsClash(users[a], users[b])} :: a in users && b in users && a != b ==> !IdsClash(users[a], users[b])
  }

  /** A row whose unique-field check passes can be written without breaking the unique columns. */
  lemma UniqueIdsKeepUnique(users: map<UserId, User>, id: UserId, u: User)
    requires IdsUnique(users) && UniqueIds(users, id, u).Pass?
    ensures IdsUnique(users[id := u])
  {
    var m := users[id := u];
    forall a, b | a in m && b in m && a != b
      ensures !IdsClash(m[a], m[b])
    {
      if a == id {
        assert b in users && m[b] == users[b];
      } else if b == id {
        assert a in users && m[a] == users[a];
      } else {
        assert m[a] == users[a] && m[b] == users[b];
      }
    }
  }

  /** A named superuser always validates as an ADMIN, and its save never clashes on ids. */
  lemma SuperuserSavesAsAdmin(users: map<UserId, User>, id: UserId, u: User)
    requires u.isSuperuser && u.firstName != "" && u.lastName != ""
    ensures FullCleanUser(users, id, Normalize(u)) == Pass
  {
  }

  /**
   * The "student cannot have a staff_id" and "teacher cannot have a
   * student_id" rules can never be the reason: the both-ids rule before them
   * already catches every such user.
   */
  lemma RoleIdRulesUnreachable(u: User)
    ensures CleanUser(u) != Fail(StudentHasStaffId) && CleanUser(u) != Fail(TeacherHasStudentId)
  {
  }

  /**
   * A CustomUser instance. save() overwrites the role, ids and department of
   * a superuser in place, then validates; the overwrite stays on the
   * instance even when validation fails.
   */
  class CustomUser {
    var firstName: string
    var lastName: string
    var role: Role
    var studentId: Option<string>
    var staffId: Option<string>
    var department: Option<DeptId>
    var gender: Option<Gender>
    var isSuperuser: bool

    function Fields(): User
      reads this
    {
      User(firstName, lastName, role, studentId, staffId, department, gender, isSuperuser)
    }

    constructor (u: User)
      ensures Fields() == u
    {
      firstName, lastName, role := u.firstName, u.lastName, u.role;
      studentId, staffId, department := u.studentId, u.staffId, u.department;
      gender, isSuperuser := u.gender, u.isSuperuser;
    }

    /** CustomUser.save applied to row `id` of the table `users`: normalise, then full_clean. */
    method Save(users: map<UserId, User>, id: UserId) returns (c: Check)
      modifies this
      ensures Fields() == Normalize(old(Fields()))
      ensures c == FullCleanUser(users, id, Fields())
    {
      if isSuperuser {
        role := Admin;
        studentId := None;
        staffId := None;
        department := None;
      }
      c := FullCleanUser(users, id, Fields());
    }
  }
}
