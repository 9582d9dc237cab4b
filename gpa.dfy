/**
 * GPA and standing (academic/models.py): Semester.get_student_gpa,
 * Enrollment.calculate_cumulative_gpa and AcademicStatus.determine_status_from_gpa.
 *
 * Both GPA functions add grade points times credit hours over the graded
 * enrollments in scope, skip letters missing from GRADE_POINTS, give no GPA
 * when no credit hours were counted, and otherwise round the quotient half
 * up to 0.01. In hundredths the rounded quotient is
 * (2 * points + credits) / (2 * credits) with integer division.
 */
module Gpa {
  import opened Outcomes
  import opened Users
  import opened GradeScale
  import opened Tables

  /** Which enrollments a GPA covers: one semester, or every semester. */
  datatype Scope = Term(student: UserId, semester: SemesterId) | Lifetime(student: UserId)

  /** The queryset filter: this student, a non-null grade, and the semester for a term GPA. */
  predicate InScope(e: Enrollment, scope: Scope) {
    e.student == scope.student && e.grade.Some? && (scope.Term? ==> e.semester == scope.semester)
  }

  /** The two accumulators: quality points (hundredths times hours) and credit hours. */
  datatype Totals = Totals(points: nat, credits: nat)

  function Plus(a: Totals, b: Totals): Totals {
    Totals(a.points + b.points, a.credits + b.credits)
  }

  function CreditsOf(courses: map<CourseId, Course>, id: CourseId): nat {
    if id in courses then courses[id].credits else 0
  }

  /** What one enrollment adds: nothing when out of scope or when its letter has no grade points. */
  function Contribution(e: Enrollment, courses: map<CourseId, Course>, scope: Scope): (t: Totals)
    ensures !InScope(e, scope) ==> t == Totals(0, 0)
    ensures e.grade.Some? && e.grade.value !in GradePoints ==> t == Totals(0, 0)
    ensures InScope(e, scope) && e.grade.value in GradePoints ==> t.credits == CreditsOf(courses, e.course)
    // the quality points are the letter's grade points per credit hour
    ensures InScope(e, scope) && e.grade.value in GradePoints ==> t.points == GradePoints[e.grade.value] * t.credits
  {
    if InScope(e, scope) && e.grade.value in GradePoints then
      var credits := CreditsOf(courses, e.course);
      Totals(GradePoints[e.grade.value] * credits, credits)
    else Totals(0, 0)
  }

  /** No enrollment adds more than 4.00 points per credit hour. */
  lemma ContributionAtMostFour(e: Enrollment, courses: map<CourseId, Course>, scope: Scope)
    ensures Contribution(e, courses, scope).points <= 400 * Contribution(e, courses, scope).credits
  {
    if InScope(e, scope) && e.grade.value in GradePoints {
      GradePointsAtMostFour(e.grade.value);
      MulMonotone(CreditsOf(courses, e.course), GradePoints[e.grade.value], 400);
    }
  }

  /** The accumulators after visiting the enrollments in table order, each adding f of itself. */
  function SumBy(es: seq<Enrollment>, f: Enrollment -> Totals): Totals {
    if es == [] then Totals(0, 0)
    else Plus(SumBy(es[..|es| - 1], f), f(es[|es| - 1]))
  }

  function ContributionIn(courses: map<CourseId, Course>, scope: Scope): Enrollment -> Totals {
    e => Contribution(e, courses, scope)
  }

  /** The accumulators of the GPA loop after visiting the enrollments in table order. */
  function Sum(es: seq<Enrollment>, courses: map<CourseId, Course>, scope: Scope): Totals {
    SumBy(es, ContributionIn(courses, scope))
  }

  /** ROUND_HALF_UP to a whole number of hundredths of points / credits. */
  function RoundHalfUp(points: nat, credits: nat): (r: nat)
    requires credits > 0
    ensures IsHalfUp(points, credits, r)
  {
    (2 * points + credits) / (2 * credits)
  }

  /** r is points / credits rounded half up: r - 1/2 <= points / credits < r + 1/2. */
  predicate IsHalfUp(points: nat, credits: nat, r: int) {
    2 * credits * r <= 2 * points + credits < 2 * credits * (r + 1)
  }

  /** Only one value is the half-up rounding of a quotient. */
  lemma HalfUpUnique(points: nat, credits: nat, r1: int, r2: int)
    requires credits > 0
    requires IsHalfUp(points, credits, r1) && IsHalfUp(points, credits, r2)
    ensures r1 == r2
  {
    if r1 < r2 {
      MulMonotone(2 * credits, r1 + 1, r2);
    } else if r2 < r1 {
      MulMonotone(2 * credits, r2 + 1, r1);
    }
  }

  lemma MulMonotone(c: nat, a: int, b: int)
    requires a <= b
    ensures c * a <= c * b
  {
  }

  /** The GPA of a scope in hundredths, or None when no credit hours count. */
  function ScopeGpa(es: seq<Enrollment>, courses: map<CourseId, Course>, scope: Scope): (gpa: Option<nat>)
    ensures gpa.None? <==> Sum(es, courses, scope).credits == 0
    ensures gpa.Some? ==> IsHalfUp(Sum(es, courses, scope).points, Sum(es, courses, scope).credits, gpa.value)
    ensures gpa.Some? ==> gpa.value <= 400
  {
    var t := Sum(es, courses, scope);
    if t.credits == 0 then None
    else
      SumAtMostFour(es, courses, scope);
      var r := RoundHalfUp(t.points, t.credits);
      if r > 400 then MulMonotone(2 * t.credits, 401, r); Some(r) else Some(r)
  }

  /** The GPA is the rounded quotient of the accumulated totals, whatever bound the contract adds. */
  lemma ScopeGpaRounds(es: seq<Enrollment>, courses: map<CourseId, Course>, scope: Scope)
    ensures var t := Sum(es, courses, scope);
      ScopeGpa(es, courses, scope) == if t.credits == 0 then None else Some(RoundHalfUp(t.points, t.credits))
  {
  }

  function SemesterGpa(db: Db, student: UserId, semester: SemesterId): Option<nat> {
    ScopeGpa(db.enrollments, db.catalog.courses, Term(student, semester))
  }

  function CumulativeGpa(db: Db, student: UserId): Option<nat> {
    ScopeGpa(db.enrollments, db.catalog.courses, Lifetime(student))
  }

  lemma {:induction false} SumAtMostFour(es: seq<Enrollment>, courses: map<CourseId, Course>, scope: Scope)
    ensures Sum(es, courses, scope).points <= 400 * Sum(es, courses, scope).credits
  {
    if es != [] {
      SumAtMostFour(es[..|es| - 1], courses, scope);
      ContributionAtMostFour(es[|es| - 1], courses, scope);
    }
  }

  /** No enrollment in scope: no GPA (None, not 0.00). */
  lemma {:induction false} NoGradedEnrollmentNoGpa(es: seq<Enrollment>, courses: map<CourseId, Course>, scope: Scope)
    requires forall i :: 0 <= i < |es| ==> !InScope(es[i], scope)
    ensures Sum(es, courses, scope) == Totals(0, 0)
    ensures ScopeGpa(es, courses, scope) == None
  {
    if es != [] {
      NoGradedEnrollmentNoGpa(es[..|es| - 1], courses, scope);
    }
  }

  lemma {:induction false} SumConcat(a: seq<Enrollment>, b: seq<Enrollment>, f: Enrollment -> Totals)
    ensures SumBy(a + b, f) == Plus(SumBy(a, f), SumBy(b, f))
  {
    if b == [] {
      assert a + b == a;
    } else {
      assert (a + b)[..|a + b| - 1] == a + b[..|b| - 1];
      SumConcat(a, b[..|b| - 1], f);
    }
  }

  lemma MultisetRemove(b: seq<Enrollment>, i: nat)
    requires i < |b|
    ensures multiset(b[..i] + b[i + 1..]) == multiset(b) - multiset{b[i]}
  {
    assert b == b[..i] + [b[i]] + b[i + 1..];
  }

  /** Taking one enrollment out of the table takes exactly what it adds out of the accumulators. */
  lemma SumRemove(b: seq<Enrollment>, i: nat, f: Enrollment -> Totals)
    requires i < |b|
    ensures SumBy(b, f) == Plus(SumBy(b[..i] + b[i + 1..], f), f(b[i]))
  {
    var p, x, q := b[..i], b[i], b[i + 1..];
    var sp, sq := SumBy(p, f), SumBy(q, f);
    assert SumBy(b, f) == Plus(Plus(sp, f(x)), sq) by {
      assert b == (p + [x]) + q;
      SumConcat(p + [x], q, f);
      SumConcat(p, [x], f);
      SumSingleton(x, f);
    }
    assert SumBy(p + q, f) == Plus(sp, sq) by {
      SumConcat(p, q, f);
    }
  }

  lemma SumSingleton(x: Enrollment, f: Enrollment -> Totals)
    ensures SumBy([x], f) == f(x)
  {
    assert [x][..0] == [];
  }

  /** The accumulators do not depend on the order in which the enrollments are visited. */
  lemma {:induction false} SumPermutation(a: seq<Enrollment>, b: seq<Enrollment>, f: Enrollment -> Totals)
    requires multiset(a) == multiset(b)
    ensures SumBy(a, f) == SumBy(b, f)
    decreases |a|
  {
    if a == [] {
      assert |b| == |multiset(b)| == 0;
    } else {
      var n := |a| - 1;
      var x := a[n];
      assert x in multiset(a);
      var i :| 0 <= i < |b| && b[i] == x;
      SumRemove(a, n, f);
      SumRemove(b, i, f);
      MultisetRemove(a, n);
      MultisetRemove(b, i);
      assert a[..n] + a[n + 1..] == a[..n];
      SumPermutation(a[..n], b[..i] + b[i + 1..], f);
    }
  }

  /** The GPA of a scope does not depend on the order of the enrollment table. */
  lemma GpaOrderInvariant(a: seq<Enrollment>, b: seq<Enrollment>, courses: map<CourseId, Course>, scope: Scope)
    requires multiset(a) == multiset(b)
    ensures ScopeGpa(a, courses, scope) == ScopeGpa(b, courses, scope)
  {
    SumPermutation(a, b, ContributionIn(courses, scope));
  }

  /** {A, 4 hours} and {B+, 3 hours}: (4.0 * 4 + 3.5 * 3) / 7 = 3.7857..., reported as 3.79. */
  lemma GpaExampleTwoCourses(d: DeptId)
    ensures var courses := map[1 := Course(d, 4, true), 2 := Course(d, 3, true)];
            var es := [Enrollment(7, 1, 3, Some("A")), Enrollment(7, 2, 3, Some("B+"))];
            ScopeGpa(es, courses, Term(7, 3)) == Some(379)
  {
    var courses := map[1 := Course(d, 4, true), 2 := Course(d, 3, true)];
    var es := [Enrollment(7, 1, 3, Some("A")), Enrollment(7, 2, 3, Some("B+"))];
    var f := ContributionIn(courses, Term(7, 3));
    assert es[..1] == [es[0]] && es[..1][..0] == [];
    assert GradePoints["A"] == 400 && GradePoints["B+"] == 350;
    assert f(es[0]) == Contribution(es[0], courses, Term(7, 3)) == Totals(1600, 4);
    assert f(es[1]) == Contribution(es[1], courses, Term(7, 3)) == Totals(1050, 3);
    assert SumBy(es[..1], f) == Totals(1600, 4);
    assert Sum(es, courses, Term(7, 3)) == SumBy(es, f) == Totals(2650, 7);
    ScopeGpaRounds(es, courses, Term(7, 3));
    assert RoundHalfUp(2650, 7) == 5307 / 14 == 379;
  }

  /** Half up, not half even: {A-, 1 hour} and {B+, 1 hour} average 3.625, reported as 3.63. */
  lemma GpaExampleHalfUp(d: DeptId)
    ensures var courses := map[1 := Course(d, 1, true), 2 := Course(d, 1, true)];
            var es := [Enrollment(7, 1, 3, Some("A-")), Enrollment(7, 2, 3, Some("B+"))];
            ScopeGpa(es, courses, Lifetime(7)) == Some(363)
  {
    var courses := map[1 := Course(d, 1, true), 2 := Course(d, 1, true)];
    var es := [Enrollment(7, 1, 3, Some("A-")), Enrollment(7, 2, 3, Some("B+"))];
    var f := ContributionIn(courses, Lifetime(7));
    assert es[..1] == [es[0]] && es[..1][..0] == [];
    assert GradePoints["A-"] == 375 && GradePoints["B+"] == 350;
    assert f(es[0]) == Contribution(es[0], courses, Lifetime(7)) == Totals(375, 1);
    assert f(es[1]) == Contribution(es[1], courses, Lifetime(7)) == Totals(350, 1);
    assert SumBy(es[..1], f) == Totals(375, 1);
    assert Sum(es, courses, Lifetime(7)) == SumBy(es, f) == Totals(725, 2);
    ScopeGpaRounds(es, courses, Lifetime(7));
    assert RoundHalfUp(725, 2) == 1452 / 4 == 363;
  }

  // ---- standing ----

  /** The GPA the standing is judged on: the semester GPA when there is one, else the cumulative GPA. */
  function Reference(semesterGpa: Option<nat>, cumulativeGpa: Option<nat>): Option<nat> {
    if semesterGpa.Some? then semesterGpa else cumulativeGpa
  }

  /** AcademicStatus.determine_status_from_gpa. */
  function DetermineStatus(semesterGpa: Option<nat>, cumulativeGpa: Option<nat>): (s: Standing)
    ensures s != Graduated
    ensures s == Active <==> Reference(semesterGpa, cumulativeGpa).None? || Reference(semesterGpa, cumulativeGpa).value >= 200
    ensures s == Probation <==> Reference(semesterGpa, cumulativeGpa).Some? && 175 <= Reference(semesterGpa, cumulativeGpa).value < 200
    ensures s == Dismissed <==> Reference(semesterGpa, cumulativeGpa).Some? && Reference(semesterGpa, cumulativeGpa).value < 175
  {
    var reference := Reference(semesterGpa, cumulativeGpa);
    if reference.None? then Active
    else if reference.value >= 200 then Active
    else if reference.value >= 175 then Probation
    else Dismissed
  }

  /** Standings ordered from worst to best. */
  function Rank(s: Standing): nat {
    match s
    case Dismissed => 0
    case Probation => 1
    case Active => 2
    case Graduated => 3
  }

  /** A higher reference GPA never gives a worse standing. */
  lemma StandingMonotone(g1: nat, g2: nat, cumulative: Option<nat>)
    requires g1 <= g2
    ensures Rank(DetermineStatus(Some(g1), cumulative)) <= Rank(DetermineStatus(Some(g2), cumulative))
  {
  }

  /** A semester GPA of 1.80 puts a student on probation; a later 1.50 dismisses them. */
  lemma StandingExamples()
    ensures DetermineStatus(Some(180), None) == Probation
    ensures DetermineStatus(Some(150), None) == Dismissed
    ensures DetermineStatus(None, Some(150)) == Dismissed
    ensures DetermineStatus(Some(200), Some(100)) == Active
    ensures DetermineStatus(None, None) == Active
  {
  }
}
