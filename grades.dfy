/**
 * The grade scale of academic/models.py: marks to letters and letters to
 * grade points, in exact integers.
 *
 * A mark is kept in thousandths of a point (the mark field has three decimal
 * places), so 89.999 is 89999. Grade points are kept in hundredths, so 3.75
 * is 375.
 */
module GradeScale {
  import opened Outcomes

  /** The letter-to-points table GRADE_POINTS, in hundredths of a point. */
  const GradePoints: map<string, nat> := map[
    "A+" := 400, "A" := 400, "A-" := 375,
    "B+" := 350, "B" := 300, "B-" := 275,
    "C+" := 250, "C" := 200, "C-" := 175,
    "D" := 100, "F" := 0]

  /**
   * GradeSubmission.calculate_grade: the bands are tested from the top.
   * Every letter it returns has an entry in GradePoints.
   */
  function CalculateGrade(mark: int): (letter: string)
    ensures letter in GradePoints
    ensures 1 <= |letter| <= 2
  {
    if mark >= 90000 then "A+"
    else if 85000 <= mark < 90000 then "A"
    else if 80000 <= mark < 85000 then "A-"
    else if 75000 <= mark < 80000 then "B+"
    else if 70000 <= mark < 75000 then "B"
    else if 65000 <= mark < 70000 then "B-"
    else if 60000 <= mark < 65000 then "C+"
    else if 50000 <= mark < 60000 then "C"
    else if 45000 <= mark < 50000 then "C-"
    else if 40000 <= mark < 45000 then "D"
    else "F"
  }

  /** A band of the published scale: lower bound included, upper bound (if any) excluded. */
  datatype Band = Band(lo: int, hi: Option<int>, letter: string)

  predicate InBand(mark: int, b: Band) {
    b.lo <= mark && (b.hi.None? || mark < b.hi.value)
  }

  /** The scale as a table; a mark in none of these bands earns an F. */
  const Bands: seq<Band> := [
    Band(90000, None, "A+"),
    Band(85000, Some(90000), "A"),
    Band(80000, Some(85000), "A-"),
    Band(75000, Some(80000), "B+"),
    Band(70000, Some(75000), "B"),
    Band(65000, Some(70000), "B-"),
    Band(60000, Some(65000), "C+"),
    Band(50000, Some(60000), "C"),
    Band(45000, Some(50000), "C-"),
    Band(40000, Some(45000), "D")]

  /** No mark lies in two bands. */
  lemma BandsDisjoint(mark: int, i: nat, j: nat)
    requires i < j < |Bands|
    ensures !(InBand(mark, Bands[i]) && InBand(mark, Bands[j]))
  {
  }

  /** The letter calculate_grade returns is the letter of the band holding the mark, or F outside every band. */
  lemma GradeIsBandLetter(mark: int)
    ensures forall i :: 0 <= i < |Bands| && InBand(mark, Bands[i]) ==> CalculateGrade(mark) == Bands[i].letter
    ensures (forall i :: 0 <= i < |Bands| ==> !InBand(mark, Bands[i])) <==> CalculateGrade(mark) == "F"
  {
    if mark < 40000 {
      forall i | 0 <= i < |Bands| ensures !InBand(mark, Bands[i]) {
      }
    } else {
      var i := if mark >= 60000 then (if mark >= 90000 then 0 else 18 - mark / 5000)
               else if mark >= 50000 then 7 else 17 - mark / 5000;
      assert InBand(mark, Bands[i]);
    }
  }

  /** A higher mark never earns fewer grade points. */
  lemma GradePointsMonotone(m1: int, m2: int)
    requires m1 <= m2
    ensures GradePoints[CalculateGrade(m1)] <= GradePoints[CalculateGrade(m2)]
  {
  }

  /** No letter is worth more than 4.00. */
  lemma GradePointsAtMostFour(letter: string)
    requires letter in GradePoints
    ensures GradePoints[letter] <= 400
  {
  }

  /** The boundary cases of the scale. */
  lemma GradeBoundaries()
    ensures CalculateGrade(90000) == "A+" && CalculateGrade(89999) == "A"
    ensures CalculateGrade(92500) == "A+"
    ensures CalculateGrade(44999) == "D" && CalculateGrade(40000) == "D"
    ensures CalculateGrade(39999) == "F" && CalculateGrade(0) == "F"
  {
  }
}
