/** A grade record: a course taken, the year it was taken and the letter grade received. */
module GradeRecords {
  import opened Wrappers
  import opened JavaText
  import opened Courses

  /** The legal grades, each a one-letter string. */
  const LegalGrades: seq<string> := ["A", "B", "C", "D", "F"]

  /** A record whose grade passed the check. The getters are the fields. */
  datatype GradeRecord = GradeRecord(course: Course, year: int, grade: string)
  {
    /** toString(): the course, one space, the year, ": ", then the grade. */
    function ToString(): string {
      course.ToString() + " " + IntToString(year) + ": " + grade
    }
  }

  /** The IllegalArgumentException the constructor throws, with its message. */
  datatype GradeError = IllegalGrade(message: string)

  /** isLegalGrade: exact, case-sensitive comparison against the five legal grades. */
  predicate IsLegalGrade(grade: string) {
    grade == "A" || grade == "B" || grade == "C" || grade == "D" || grade == "F"
  }

  /** The message of the exception for an illegal grade: the course, the grade, then the year. */
  function IllegalGradeMessage(course: Course, year: int, grade: string): string {
    "New record could not be created: " + course.ToString() + ", " + grade + ", " + IntToString(year)
  }

  /**
   * The constructor: the record of the arguments when the grade is legal, the
   * exception otherwise.
   */
  function NewGradeRecord(course: Course, year: int, grade: string): (r: Result<GradeRecord, GradeError>)
    ensures r.Success? <==> grade in LegalGrades
    ensures r.Success? ==> r.value.course == course && r.value.year == year && r.value.grade == grade
    ensures r.Failure? ==> r.error == IllegalGrade(IllegalGradeMessage(course, year, grade))
  {
    if !IsLegalGrade(grade) then
      Failure(IllegalGrade(IllegalGradeMessage(course, year, grade)))
    else
      Success(GradeRecord(course, year, grade))
  }

  /** A legal grade is exactly one of the capital letters A, B, C, D and F. */
  lemma LegalGradeIsOneLetter(grade: string)
    ensures IsLegalGrade(grade) <==> |grade| == 1 && grade[0] in "ABCDF"
  {
    if |grade| == 1 && grade[0] in "ABCDF" {
      assert grade == [grade[0]];
    }
  }

  /** The check is exact and case-sensitive: lower case, a suffix or the empty string are illegal. */
  lemma NearGradesIllegal()
    ensures !IsLegalGrade("a") && !IsLegalGrade("A+") && !IsLegalGrade("") && !IsLegalGrade("E")
  {
    LegalGradeIsOneLetter("a");
    LegalGradeIsOneLetter("A+");
    LegalGradeIsOneLetter("");
    LegalGradeIsOneLetter("E");
  }

  /**
   * The rendering is the course's rendering, then " " and the year, then ": "
   * and the grade; the year reads back from its place with parseInt.
   */
  lemma ToStringShape(g: GradeRecord)
    requires MinInt <= g.year <= MaxInt
    ensures var s, c, y := g.ToString(), g.course.ToString(), IntToString(g.year);
      && |s| == |c| + 1 + |y| + 2 + |g.grade|
      && s[..|c|] == c
      && s[|c|] == ' '
      && ParseInt(s[|c| + 1..|c| + 1 + |y|]) == Some(g.year)
      && s[|c| + 1 + |y|..] == ": " + g.grade
  {
    var s, c, y := g.ToString(), g.course.ToString(), IntToString(g.year);
    assert s == c + " " + y + (": " + g.grade);
    assert s[|c| + 1..|c| + 1 + |y|] == y;
    ParseIntToString(g.year);
  }
}
