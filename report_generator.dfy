/**
 * ReportGenerator: only the mapping from a weakest-subject column index to a
 * subject name is modelled; the rest of the report is text formatting.
 */
module ReportGenerator {
  import opened StatisticsCalculator

  /**
   * `SUBJECTS[idx % 5]`: column j and column j + 5 hold the same subject in
   * the two semesters, so both map to the j-th subject name.
   */
  function SubjectName(idx: nat): (name: string)
    ensures name in Subjects
    ensures idx < 5 ==> name == Subjects[idx]
  {
    Subjects[idx % 5]
  }

  /** A semester-2 column names the same subject as the semester-1 column five to its left. */
  lemma {:induction false} SemestersShareSubjects(idx: nat)
    requires idx < 10
    ensures SubjectName(idx) == SubjectName(idx % 5)
    ensures 5 <= idx ==> SubjectName(idx) == Subjects[idx - 5]
  {
  }
}
