# campus-hub academic records, modelled in Dafny

campus-hub is a Django back end for a university. This project models its
academic-record rules. It covers four files.

- `academic/models.py`: the grade scale, the two GPA aggregators, the
  AcademicStatus snapshot, and the validation of enrollments, grade
  submissions, section assignments and course assignments.
- `registration/models.py`: the validation of semester registrations and the
  PENDING → APPROVED / REJECTED transitions.
- `dormitory/models.py`: room occupancy and the dormitory assignment rules.
- `user/models.py`: the role and identifier rules of CustomUser, and the
  superuser normalisation done by its save().

## How the model is built

- Tables are in-memory values collected in the `Db` datatype.
  - Enrollments, grade submissions, status rows, registrations and dormitory
    assignments are sequences. A row's index is its primary key.
  - Section assignments are a map keyed by (student, semester).
  - Course assignments are a set.
  - The catalog (semesters, courses, sections, rooms) is maps that the core
    only reads.
- Each `clean()` is a function that returns the first failing rule as
  `Fail(reason)`, or `Pass`. Rules are checked in source order.
  - full_clean runs the field validators, then `clean()`, then the
    unique_together checks. The model reports the first stage that fails.
    Django reports every failing stage at once; here only the first appears.
- Each save is a `Step(check, after)`.
  - A refused save writes nothing.
  - A write made earlier in the same operation stays, because the source
    opens no transaction.
  - Two consequences: after a refused enrollment re-save, the GradeSubmission
    row is still stored; and approve keeps its standing recompute even when
    the final status save is refused.
- The `Store.Campus` class holds one field per table. Its methods update those
  fields in place, as the source's save() methods and class methods do.
  - Each method is proved to produce exactly the state its spec function
    gives.
  - Each method keeps `Invariants.Valid`: foreign keys, every
    unique_together, the unique student_id and staff_id columns, room
    capacities, and "every enrollment's
    (student, semester) has a registration that has left PENDING".
  - The two GPA queries are loops with accumulators, proved equal to the
    GPA function.
- Numbers are exact integers.
  - A mark is in thousandths, e.g. 89.999 is 89999.
  - Grade points and GPAs are in hundredths, e.g. B+ is 350.
  - A GPA is `(2·Q + C) div (2·C)`, where Q is the sum of points × credit
    hours and C is the sum of credit hours. This is the quotient rounded
    half up to 0.01.
- The order of a registration's many-to-many course list is not fixed by
  the source. The model gives each registration a fixed sequence.
- "The latest status" is the row with the greatest semester start date.
  Among rows with equal start dates, the one stored first is taken.

The GPA of {A for 4 hours, B+ for 3 hours} is 2650/7 hundredths of a grade
point ≈ 378.6, reported as 3.79 (379 in the model,
`Gpa.GpaExampleTwoCourses`).

Approving a PENDING registration that lists a course always fails
(`Invariants.ApproveWithCoursesFails`). approve creates the enrollments
before setting APPROVED, and Enrollment.clean requires an APPROVED
registration for the same student and semester. Under the
unique_together constraint, the only such registration is the one being
approved, which is still PENDING. So approve never creates an enrollment
while `Valid` holds.

## Model

| member | source | states |
|---|---|---|
| GradeScale.CalculateGrade | Backend/backend/academic/models.py:278-301 | every mark gets a non-empty letter of the GRADE_POINTS table |
| GradeScale.GradeIsBandLetter | Backend/backend/academic/models.py:278-301 | the letter is the one of the unique band containing the mark (≥90 A+, [85,90) A, …, [40,45) D, else F) |
| GradeScale.BandsDisjoint | Backend/backend/academic/models.py:278-301 | no mark lies in two bands |
| GradeScale.GradeBoundaries | Backend/backend/academic/models.py:278-301 | 90.000→A+, 89.999→A, 44.999→D, 40.000→D, 39.999→F, 0→F |
| GradeScale.GradePointsMonotone | Backend/backend/academic/models.py:12-24 | a higher band never earns fewer grade points |
| GradeScale.GradePointsAtMostFour | Backend/backend/academic/models.py:12-24 | every letter is worth at most 4.00 |
| Gpa.Contribution | Backend/backend/academic/models.py:88-95 | an enrollment out of scope, or with a letter missing from GRADE_POINTS, adds neither points nor credits; otherwise it adds its course's credit hours and the letter's grade points times those hours |
| Gpa.ContributionAtMostFour | Backend/backend/academic/models.py:88-95 | no enrollment adds more than 4.00 points per credit hour |
| Gpa.RoundHalfUp | Backend/backend/academic/models.py:97-101 | the result is the half-up rounding of points/credits to hundredths |
| Gpa.HalfUpUnique | Backend/backend/academic/models.py:97-101 | that rounding has exactly one value |
| Gpa.ScopeGpa | Backend/backend/academic/models.py:79-101 | no GPA exactly when no credit hours were counted; otherwise the half-up quotient, at most 4.00 |
| Gpa.SumAtMostFour | Backend/backend/academic/models.py:84-95 | the quality points never exceed 4.00 per credit hour |
| Gpa.NoGradedEnrollmentNoGpa | Backend/backend/academic/models.py:79-82 | a student with no graded enrollment in scope has no GPA |
| Gpa.SumConcat | Backend/backend/academic/models.py:88-95 | for any per-row contribution, the accumulation over two concatenated tables adds the two totals |
| Gpa.SumPermutation | Backend/backend/academic/models.py:88-95 | for any per-row contribution, the totals do not depend on the order of the enrollments |
| Gpa.GpaOrderInvariant | Backend/backend/academic/models.py:79-101 | the GPA does not depend on the order of the enrollments |
| Gpa.GpaExampleTwoCourses | Backend/backend/academic/models.py:79-101 | {A·4 h, B+·3 h} gives 3.79 |
| Gpa.GpaExampleHalfUp | Backend/backend/academic/models.py:97-101 | a quotient of 3.625 rounds up to 3.63 |
| Gpa.DetermineStatus | Backend/backend/academic/models.py:472-481 | the reference is the semester GPA, else the cumulative one; none or ≥2.00 ACTIVE, [1.75,2.00) PROBATION, below DISMISSED; never GRADUATED |
| Gpa.StandingMonotone | Backend/backend/academic/models.py:477-481 | a higher semester GPA never gives a worse standing |
| Gpa.StandingExamples | Backend/backend/academic/models.py:472-481 | 1.80→PROBATION, 1.50→DISMISSED, a missing semester GPA falls back to the cumulative one |
| Academic.Latest | Backend/backend/academic/models.py:150-153 | the student's status row with the greatest semester start, none exactly when the student has no row |
| Academic.CleanEnrollment | Backend/backend/academic/models.py:143-184 | the seven rules in order, each failure pinned to its own reason once the earlier rules pass: STUDENT, not DISMISSED, active semester and active course for a new row, departments agree, an APPROVED registration, a section assignment; passes exactly when all hold |
| Academic.Enroll | Backend/backend/academic/models.py:186-188 | a new ungraded row is stored exactly when clean() passes and the key is free; otherwise nothing changes |
| Academic.ResaveEnrollment | Backend/backend/academic/models.py:186-188 | the re-save of a stored row passes exactly when clean() for a stored row passes and no other row holds its key; a clean() failure is the reason reported |
| Academic.CleanGradeSubmission | Backend/backend/academic/models.py:236-273 | the mark range, TEACHER, assigned to the course in that semester, active semester, no grade yet, in that order, each failure pinned to its reason; no pass for a graded enrollment |
| Academic.SubmitGrade | Backend/backend/academic/models.py:306-323 | stores the submission with calculate_grade(mark); writes the letter into the enrollment only when it is ungraded and its re-save validates; a refused re-save keeps the submission row; a set grade is never changed; only the submission, enrollment and status tables change, and no status row of another (student, semester); on success the status table is update_for_student_and_semester's on the updated rows, so the snapshot is fresh, its section kept and at most one row added |
| Academic.GradeWrittenOnce | Backend/backend/academic/models.py:268-273 | after one accepted submission, every further submission for that enrollment is refused and writes nothing |
| Academic.CleanStatus | Backend/backend/academic/models.py:464-466 | passes exactly for a STUDENT, any other user is refused for its role; no path of the core calls it |
| Academic.StatusIndex | Backend/backend/academic/models.py:504-507 | the first row with the (student, semester) key, none exactly when no row has it |
| Academic.StatusIndexAfterOverwrite | Backend/backend/academic/models.py:504-512 | overwriting the keyed row keeps it the row found by the key |
| Academic.StatusIndexAfterAppend | Backend/backend/academic/models.py:504-512 | a created row is the one found by its new key |
| Academic.Recomputed | Backend/backend/academic/models.py:486-493 | the saved row keeps its key and section, and holds the current semester and cumulative GPAs and the status they determine |
| Academic.Upsert | Backend/backend/academic/models.py:504-512 | update_or_create writes the first row with the key, or one new last row when the key is missing; other rows are untouched; the key column gains the key only when it was missing |
| Academic.UpdateStanding | Backend/backend/academic/models.py:499-513 | only the status table changes; the keyed row exists afterwards and holds the current GPAs and status; the key column gains (student, semester) only when it was missing; every section is kept, a new row has none; other rows are unchanged; no role check |
| Academic.UpdateStandingIdempotent | Backend/backend/academic/models.py:499-513 | calling it twice gives the same database as calling it once |
| Academic.AssignSection | Backend/backend/academic/models.py:519-551 | the section assignment and the snapshot's section are both replaced, GPAs and status re-derived; the key column gains (student, semester) only when it was missing; other rows unchanged; any user and any section are accepted |
| Academic.CleanSectionAssignment | Backend/backend/academic/models.py:386-393 | a non-STUDENT is refused for its role before the section is looked at; a student is refused only for an inactive section; passes exactly for a STUDENT and an active section |
| Academic.AddSectionAssignment | Backend/backend/academic/models.py:381-393 | a validated new assignment is stored exactly when clean() passes and (student, semester) is free |
| Academic.CleanCourseAssignment | Backend/backend/academic/models.py:118-120 | passes exactly for a TEACHER; any other user is refused for its role |
| Academic.AddCourseAssignment | Backend/backend/academic/models.py:115-120 | a validated new assignment is stored exactly when the user is a TEACHER and the triple is free |
| Academic.FullMarkRejectedAsWritten | Backend/backend/academic/models.py:236-240 | the field as declared refuses 100.000 and accepts every other mark of [0, 100] |
| Academic.FullMarkAccepted | Backend/backend/academic/models.py:236-240 | the corrected range accepts 100.000, which earns A+ |
| Registrations.CleanRegistration | Backend/backend/registration/models.py:55-83 | STUDENT, active semester, not DISMISSED, then the course-department rule only for a stored row of a student with a department, in that order, each failure pinned to its reason; passes exactly when all hold |
| Registrations.Register | Backend/backend/registration/models.py:85-88 | a new PENDING row is stored exactly when clean() without the course rule passes and (student, semester) is free |
| Registrations.RegisterIgnoresCourses | Backend/backend/registration/models.py:73-76 | the verdict on a new registration does not depend on its courses |
| Registrations.SaveStatus | Backend/backend/registration/models.py:85-88 | a status write re-runs the full clean() with the course rule and the uniqueness check |
| Registrations.EnrollOrSkip | Backend/backend/registration/models.py:106-110 | get_or_create: an existing (student, course, semester) row is reused and nothing is written; otherwise Enrollment.save runs and a row is added only for that missing key; on success the enrollment exists; only the enrollment table can change, by at most one ungraded row |
| Registrations.EnrollAll | Backend/backend/registration/models.py:105-110 | only enrollments are added; they are ungraded, for this student, semester and listed courses, and none duplicates a row stored before the loop; on success every listed course has an enrollment |
| Registrations.EnrollAllSnoc | Backend/backend/registration/models.py:105-110 | the loop handles one more course by reusing or creating its enrollment, unless it has already stopped |
| Registrations.EnrollAllStopsAtFailure | Backend/backend/registration/models.py:105-110 | a refused enrollment ends the loop |
| Registrations.Approve | Backend/backend/registration/models.py:93-116 | a non-PENDING row fails with nothing written; only enrollments, status rows and registrations change; the enrollments are the course loop's even when a later stage refuses; the status table is recomputed for (student, semester) exactly when the loop passed, and kept when the status save then fails, and no row of another key changes; on success every listed course has an enrollment, the snapshot is current and the row is APPROVED; on failure the registration table is unchanged |
| Registrations.Reject | Backend/backend/registration/models.py:118-120 | REJECTED from any status through the validated save; nothing but that row changes |
| Registrations.StatusChangesRevalidate | Backend/backend/registration/models.py:60-71 | in an inactive semester neither approve nor reject succeeds; a dismissed student's registration cannot be rejected |
| Registrations.ForeignCourseBlocksStatusChange | Backend/backend/registration/models.py:78-83 | a stored row listing a course of another department cannot change status |
| Dormitories.AssignedCount | Backend/backend/dormitory/models.py:38-39 | zero exactly when no assignment is for that room and semester; at most the table size |
| Dormitories.AvailableSlots | Backend/backend/dormitory/models.py:44-45 | never more than the capacity; the whole capacity exactly when no one holds the room that semester |
| Dormitories.CleanDormAssignment | Backend/backend/dormitory/models.py:65-89 | STUDENT, active room, same gender, a free slot, department restriction, in that order, each failure pinned to its reason; a student without a gender is always refused |
| Dormitories.AssignDormitory | Backend/backend/dormitory/models.py:91-93 | a row is stored exactly when clean() passes and the student has no room that semester; a refusal writes nothing |
| Dormitories.AssignedCountAppend | Backend/backend/dormitory/models.py:38-45 | a stored assignment adds one to its own room and semester and nothing elsewhere |
| Dormitories.AssignDormitoryKeepsCapacity | Backend/backend/dormitory/models.py:83-84 | no room ever holds more students than its capacity; a success adds exactly one |
| Dormitories.FullRoomRefuses | Backend/backend/dormitory/models.py:83-84 | a room at capacity refuses every further student and nothing is written |
| Users.CleanUser | Backend/backend/user/models.py:45-81 | names first for every role; an ADMIN then passes; otherwise not both ids, then the role's own id, then the department, each failure pinned to its reason; a STUDENT passes exactly with a student_id, no staff_id and a department, a TEACHER with a staff_id, no student_id and a department |
| Users.RoleIdRulesUnreachable | Backend/backend/user/models.py:57-74 | the "student with a staff_id" and "teacher with a student_id" rules are never the reason |
| Users.Normalize | Backend/backend/user/models.py:90-94 | a superuser becomes ADMIN with no ids and no department; other users are unchanged |
| Users.UniqueIds | Backend/backend/user/models.py:34-35 | passes exactly when no other user holds the same student_id or staff_id |
| Users.CleanUserFields | Backend/backend/user/models.py:34-35 | student_id and staff_id pass exactly when unset or at most 30 characters; a longer one is refused |
| Users.FullCleanUser | Backend/backend/user/models.py:97 | the id field limits, clean() and the unique id fields all pass; a field-limit failure is reported before a clean() failure |
| Users.UniqueIdsKeepUnique | Backend/backend/user/models.py:34-35 | writing a row whose unique-field check passed keeps every non-null student_id and staff_id held by one user only |
| Users.SuperuserSavesAsAdmin | Backend/backend/user/models.py:87-98 | a named superuser always validates |
| Users.CustomUser.Save | Backend/backend/user/models.py:87-98 | the instance is normalised in place, then validated |
| Tables.SaveUser | Backend/backend/user/models.py:87-98 | the normalised row is written exactly when it validates |
| Invariants.EnrollPreserves | Backend/backend/academic/models.py:138 | a new enrollment keeps Valid, including the unique key |
| Invariants.RegradePreserves | Backend/backend/academic/models.py:316-318 | writing a grade keeps Valid |
| Invariants.StatusWritePreserves | Backend/backend/academic/models.py:458 | a write that adds at most the one missing status key and leaves only existing sections keeps Valid |
| Invariants.UpdateStandingPreserves | Backend/backend/academic/models.py:458 | the upsert keeps one status row per (student, semester) |
| Invariants.UpdateStandingReferences | Backend/backend/academic/models.py:499-513 | a recompute leaves only existing sections in the status table |
| Invariants.AppendSubmissionPreserves | Backend/backend/academic/models.py:306-310 | storing a submission for an existing enrollment keeps Valid |
| Invariants.GradeWritePreserves | Backend/backend/academic/models.py:315-323 | writing the letter and recomputing the standing keeps Valid |
| Invariants.SubmitGradePreserves | Backend/backend/academic/models.py:306-323 | a grade submission keeps Valid |
| Invariants.AssignSectionPreserves | Backend/backend/academic/models.py:519-551 | assigning a section keeps Valid |
| Invariants.AssignSectionReferences | Backend/backend/academic/models.py:519-551 | assign_section leaves only existing users, semesters and sections in the section and status tables |
| Invariants.AddSectionAssignmentPreserves | Backend/backend/academic/models.py:381 | a validated section assignment keeps Valid |
| Invariants.AddCourseAssignmentPreserves | Backend/backend/academic/models.py:115 | a validated course assignment keeps Valid |
| Invariants.RegisterPreserves | Backend/backend/registration/models.py:49 | a new registration keeps one row per (student, semester) |
| Invariants.SaveStatusPreserves | Backend/backend/registration/models.py:115-120 | a status write other than PENDING keeps Valid |
| Invariants.EnrollAllPreserves | Backend/backend/registration/models.py:105-110 | the enrollment loop keeps Valid |
| Invariants.ApprovePreserves | Backend/backend/registration/models.py:93-116 | approve keeps Valid |
| Invariants.RejectPreserves | Backend/backend/registration/models.py:118-120 | reject keeps Valid |
| Invariants.AssignDormitoryPreserves | Backend/backend/dormitory/models.py:59 | a dormitory assignment keeps one room per student and semester, and every capacity |
| Invariants.SaveUserPreserves | Backend/backend/user/models.py:34-35 | saving a user keeps Valid, including the unique student_id and staff_id columns |
| Invariants.PendingHasNoEnrollment | Backend/backend/registration/models.py:49 | the student of a PENDING registration has no enrollment and no APPROVED registration in that semester |
| Invariants.ApproveWithCoursesFails | Backend/backend/registration/models.py:105-110 | approving a PENDING registration with at least one course is refused and writes nothing |
| Invariants.ApproveCreatesNoEnrollment | Backend/backend/registration/models.py:93-116 | approve never adds an enrollment |
| Invariants.ApproveWithoutCourses | Backend/backend/registration/models.py:112-116 | with no courses the standing snapshot is recomputed and kept whatever the final save decides |
| Store.Campus.ComputeGpa | Backend/backend/academic/models.py:75-101 | the accumulator loop gives exactly the GPA function |
| Store.Campus.StudentGpa | Backend/backend/academic/models.py:75-101 | Semester.get_student_gpa equals the term GPA |
| Store.Campus.StudentCumulativeGpa | Backend/backend/academic/models.py:193-219 | calculate_cumulative_gpa equals the lifetime GPA |
| Store.Campus.UpdateStanding | Backend/backend/academic/models.py:499-513 | the tables become Academic.UpdateStanding of the old ones |
| Store.Campus.AssignSection | Backend/backend/academic/models.py:519-551 | the tables become Academic.AssignSection of the old ones |
| Store.Campus.Enroll | Backend/backend/academic/models.py:186-188 | the tables and verdict are Academic.Enroll's; Valid is kept |
| Store.Campus.SubmitGrade | Backend/backend/academic/models.py:306-323 | the tables and verdict are Academic.SubmitGrade's; Valid is kept |
| Store.Campus.AddSectionAssignment | Backend/backend/academic/models.py:381-393 | the tables and verdict are Academic.AddSectionAssignment's |
| Store.Campus.AddCourseAssignment | Backend/backend/academic/models.py:115-120 | the tables and verdict are Academic.AddCourseAssignment's |
| Store.Campus.Register | Backend/backend/registration/models.py:85-88 | the tables and verdict are Registrations.Register's |
| Store.Campus.SaveStatus | Backend/backend/registration/models.py:116 | the tables and verdict are Registrations.SaveStatus's |
| Store.Campus.EnrollCourses | Backend/backend/registration/models.py:105-110 | the course loop gives exactly Registrations.EnrollAll's tables and verdict |
| Store.Campus.Approve | Backend/backend/registration/models.py:93-116 | the course loop, recompute and status save give Registrations.Approve's tables and verdict |
| Store.Campus.Reject | Backend/backend/registration/models.py:118-120 | the tables and verdict are Registrations.Reject's |
| Store.Campus.AssignDormitory | Backend/backend/dormitory/models.py:91-93 | the tables and verdict are Dormitories.AssignDormitory's |
| Store.Campus.SaveUser | Backend/backend/user/models.py:87-98 | the instance is normalised and the user table becomes Tables.SaveUser's |

## Left out

- Persistence and the ORM: querysets, select_related, Meta ordering,
  timestamps, `__str__`. The tables are in-memory values.
- Transactions, isolation and concurrent saves. Operations are sequential.
  A raise writes nothing for that row; earlier writes of the same operation
  stay.
- Decimal arithmetic and the `float(self.mark)` conversion. Marks are exact
  thousandths and GPAs exact hundredths. The GPA columns
  (max_digits=4, decimal_places=2) hold every value 0.00–4.00 the model
  produces.
- Authentication, password and descriptive fields of CustomUser. Also the
  field validation AbstractUser adds, such as username uniqueness.
- Users.CleanUserFields: checks only the max_length of student_id and
  staff_id. Role and gender are enumerations in the model, so their choices
  and lengths always hold. date_of_birth and bio are not modelled.
- Django's merging of several ValidationErrors into one. The model reports
  only the first failing stage.
- The admin files, the display cache of the admin GPA column, the bulk
  reject action, and the API serializers stub.
- approve on an unsaved registration (its `self.save()` branch). The model
  approves stored rows only; a new row is stored by `Register`.
- Setting a registration's course list after its first save (the
  many-to-many `set()`). `Register` stores the list together with the row.
- Editing or deleting rows through the admin, including catalog changes
  and grade edits. The catalog is read-only; the ORM's cascades are not
  modelled.
- CANCELLED: the status exists, but no code of the core sets it.
- Section capacity: stored but never checked by the source, so the model
  has no such rule.
- CourseAssignment and SectionAssignment define no save(). Their clean()
  runs only when a form validates them. `AddCourseAssignment` and
  `AddSectionAssignment` model that validated path.
- AcademicStatus.save with `update_fields` inside
  assign_section_for_student_semester writes the same values as the
  preceding upsert. It is modelled as one write.
- Store.Campus.UpdateStanding, Store.Campus.AssignSection: they keep Valid
  only when the student, semester and section exist. The source's
  callers pass model instances, so they do.
- Store.Campus.Register: keeps Valid only when every listed course exists,
  which the form's choice field enforces.
- Store.Campus.AddSectionAssignment, Store.Campus.AddCourseAssignment,
  Store.Campus.AssignDormitory: keep Valid only when the semester (and
  course) exist, for the same reason.
- Academic.CleanGradeSubmission: accepts a mark of 100.000, the corrected
  range. The field as declared refuses it; see "## Findings".
- Store.Campus.EnrollCourses: states no Valid of its own. It is called only
  by Approve, whose contract keeps Valid for the whole operation.

## Findings

| source | as written | input that shows it | evidently intended | confidence | as-written member | corrected member |
|---|---|---|---|---|---|---|
| Backend/backend/academic/models.py:236-240 | `mark` is a DecimalField with max_digits=5 and decimal_places=3, so at most two digits may precede the point | a submission with mark 100.000: MaxValueValidator(100) accepts it, but the field refuses three whole digits | marks from 0 to 100 inclusive, as the field comment and MaxValueValidator(100) say | not executed | Academic.FullMarkRejectedAsWritten | Academic.FullMarkAccepted |

The model's `Academic.CleanGradeSubmission` uses the corrected range
`MarkInRange` (0–100.000). `MarkFitsAsWritten` is the range
as declared.
