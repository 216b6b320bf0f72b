/**
 * A class of two students worked through the model. The lemmas named
 * ...OfTwo, and NoMovers, hold for any class of two; the examples apply them
 * to a strong student (90 in every semester-1 subject, 95 in every
 * semester-2 subject) who improves by less than the threshold, and a weak
 * student (40, then 30) whose decline sits exactly on it.
 */
module WorkedExample {
  import opened ArrayOps
  import opened GradeMatrix
  import StatisticsCalculator
  import StudentAnalyzer

  /** A student with grade a throughout semester 1 and b throughout semester 2. */
  function Halves(a: real, b: real): (row: Row)
    ensures |row| == Columns
  {
    [a, a, a, a, a, b, b, b, b, b]
  }

  /** Five equal grades sum to five times the grade. */
  lemma SumOfFive(x: real)
    ensures Sum([x, x, x, x, x]) == 5.0 * x
  {
    assert [x][..0] == [];
    assert Sum([x]) == x;
    assert [x, x][..1] == [x];
    assert Sum([x, x]) == 2.0 * x;
    assert [x, x, x][..2] == [x, x];
    assert Sum([x, x, x]) == 3.0 * x;
    assert [x, x, x, x][..3] == [x, x, x];
    assert Sum([x, x, x, x]) == 4.0 * x;
    assert [x, x, x, x, x][..4] == [x, x, x, x];
  }

  /** The ten grades of Halves(a, b) add up to 5a + 5b. */
  lemma HalvesTotal(a: real, b: real)
    ensures Sum(Halves(a, b)) == 5.0 * a + 5.0 * b
  {
    assert Halves(a, b) == [a, a, a, a, a] + [b, b, b, b, b];
    SumConcat([a, a, a, a, a], [b, b, b, b, b]);
    SumOfFive(a);
    SumOfFive(b);
  }

  /** Halves(a, b) averages (a + b) / 2. */
  lemma HalvesMean(a: real, b: real)
    ensures Mean(Halves(a, b)) == (a + b) / 2.0
  {
    HalvesTotal(a, b);
  }

  /** Halves(a, b) moves by b - a from semester 1 to semester 2. */
  lemma HalvesDelta(a: real, b: real)
    ensures StudentAnalyzer.Delta(Halves(a, b)) == b - a
  {
    var row := Halves(a, b);
    assert row[..SemesterWidth] == [a, a, a, a, a] && row[SemesterWidth..] == [b, b, b, b, b];
    SumOfFive(a);
    SumOfFive(b);
  }

  /** A class of two flattens to the first row followed by the second. */
  lemma FlattenTwo(g: Matrix)
    requires WellShaped(g) && |g| == 2
    ensures Flatten(g) == g[0] + g[1]
  {
    assert g[..1] == [g[0]] && [g[0]][..0] == [];
    assert g[0][0..Columns] == g[0] && g[1][0..Columns] == g[1];
    assert Cells(g[..1], 0, Columns) == Cells([], 0, Columns) + g[0];
  }

  /** The grades of a class of two add up to the two rows' sums. */
  lemma SumOfTwo(g: Matrix)
    requires WellShaped(g) && |g| == 2
    ensures Sum(Flatten(g)) == Sum(g[0]) + Sum(g[1])
  {
    FlattenTwo(g);
    SumConcat(g[0], g[1]);
  }

  /** Dividing by the cell count of two students is dividing by twenty. */
  lemma OverTwenty(x: real, students: nat)
    requires students == 2
    ensures x / (students * Columns) as real == x / 20.0
  {
  }

  /** The overall mean of two students is the sum of their twenty grades over twenty. */
  lemma OverallMeanOfTwo(g: Matrix)
    requires WellShaped(g) && |g| == 2
    ensures var r := StatisticsCalculator.CalculateOverallStats(g);
      r.Success? && r.value.avg == (Sum(g[0]) + Sum(g[1])) / 20.0
  {
    SumOfTwo(g);
    OverTwenty(Sum(Flatten(g)), |g|);
  }

  /** Giving both students the same label puts the whole class in that section. */
  lemma WholeSection(sections: seq<string>, g: Matrix, section: string)
    requires WellShaped(g) && |g| == |sections| == 2 && sections[0] == sections[1] == section
    ensures StudentAnalyzer.CountLabel(sections, section) == 2
    ensures StudentAnalyzer.SectionGrades(sections, g, section) == g
  {
    assert sections[..1][..0] == [];
    assert StudentAnalyzer.CountLabel(sections[..1], section) == 1;
    var rows := StudentAnalyzer.SectionRows(sections, section);
    assert rows[0] < rows[1] < 2;
  }

  /** With both students in one section, that section has count 2 and the overall mean. */
  lemma SectionOfTwo(sections: seq<string>, g: Matrix, section: string)
    requires WellShaped(g) && |g| == |sections| == 2 && sections[0] == sections[1] == section
    ensures var s := StudentAnalyzer.SectionStatsOf(sections, g, section);
      s.count == 2 && s.avg == (Sum(g[0]) + Sum(g[1])) / 20.0
  {
    WholeSection(sections, g, section);
    SectionMeanOverTwenty(sections, g, section);
  }

  /** A section holding exactly the two students of the class averages their twenty grades. */
  lemma SectionMeanOverTwenty(sections: seq<string>, g: Matrix, section: string)
    requires WellShaped(g) && |g| == 2 && |sections| == |g| && section in sections
    requires StudentAnalyzer.CountLabel(sections, section) == 2
    requires StudentAnalyzer.SectionGrades(sections, g, section) == g
    ensures StudentAnalyzer.SectionStatsOf(sections, g, section).avg == (Sum(g[0]) + Sum(g[1])) / 20.0
  {
    var s := StudentAnalyzer.SectionStatsOf(sections, g, section);
    var total := Sum(Flatten(StudentAnalyzer.SectionGrades(sections, g, section)));
    SumOfTwo(g);
    assert total == Sum(g[0]) + Sum(g[1]);
    assert s.avg == total / (s.count * Columns) as real;
    OverTwenty(total, s.count);
  }

  /** When the first average reaches the threshold and the second does not, only the second is at risk. */
  lemma AtRiskOfTwo(g: Matrix, threshold: real)
    requires WellShaped(g) && |g| == 2
    requires Mean(g[1]) < threshold <= Mean(g[0])
    ensures StudentAnalyzer.AtRiskRows(g, threshold) == [1]
  {
    var means := StudentAnalyzer.RowMeans(g);
    var mask := seq(|means|, i requires 0 <= i < |means| => means[i] < threshold);
    assert mask == [false, true];
    assert [false, true][..1] == [false] && [false][..0] == [];
    assert MaskIndices([false]) == [];
  }

  /** When every delta lies within [-threshold, threshold], nobody is flagged, even at exactly -threshold. */
  lemma NoMovers(g: Matrix, threshold: real)
    requires WellShaped(g)
    requires forall i :: 0 <= i < |g| ==> -threshold <= StudentAnalyzer.Delta(g[i]) <= threshold
    ensures StudentAnalyzer.ImprovedRows(g, threshold) == []
    ensures StudentAnalyzer.DeclinedRows(g, threshold) == []
  {
    var deltas := StudentAnalyzer.Deltas(g);
    NoneAbove(deltas, threshold);
    NoneBelow(deltas, -threshold);
  }

  /** The deltas of a class of two are the two students' deltas. */
  lemma DeltasOfTwo(g: Matrix)
    requires WellShaped(g) && |g| == 2
    ensures StudentAnalyzer.Deltas(g) == [StudentAnalyzer.Delta(g[0]), StudentAnalyzer.Delta(g[1])]
  {
  }

  /** With the first average strictly higher, the only ranking of two students is [0, 1]. */
  lemma OnlyRankingOfTwo(g: Matrix, order: seq<nat>)
    requires WellShaped(g) && |g| == 2 && Mean(g[1]) < Mean(g[0])
    requires StudentAnalyzer.IsRanking(order, StudentAnalyzer.RowMeans(g))
    ensures order == [0, 1]
  {
    var keys := StudentAnalyzer.RowMeans(g);
    assert order[0] < 2 && order[1] < 2 && order[0] != order[1];
    assert keys[order[0]] >= keys[order[1]];
  }

  /**
   * With the first average strictly higher and top_n >= 2, both slices hold
   * both students, strongest first.
   */
  lemma RankingOfTwo(g: Matrix, ids: seq<int>, topN: int, order: seq<nat>)
    requires WellShaped(g) && |g| == 2 && Mean(g[1]) < Mean(g[0]) && topN >= 2
    requires |ids| == 2 && StudentAnalyzer.IsRanking(order, StudentAnalyzer.RowMeans(g))
    ensures var r := StudentAnalyzer.RankStudents(ids, g, topN, order);
      && r.topIds == ids && r.topScores == [Mean(g[0]), Mean(g[1])]
      && r.bottomIds == ids && r.bottomScores == [Mean(g[0]), Mean(g[1])]
  {
    OnlyRankingOfTwo(g, order);
    var r := StudentAnalyzer.RankStudents(ids, g, topN, order);
    assert StudentAnalyzer.SliceBound(topN, 2) == 2 && StudentAnalyzer.SliceBound(-topN, 2) == 0;
    assert r.averages[0] == Mean(g[0]) && r.averages[1] == Mean(g[1]);
    assert r.topIds[0] == ids[0] && r.topIds[1] == ids[1];
    assert r.bottomIds[0] == ids[0] && r.bottomIds[1] == ids[1];
  }

  /** The strong student (90 then 95) and the weak one (40 then 30). */
  const Pair: Matrix := [Halves(90.0, 95.0), Halves(40.0, 30.0)]

  /** The overall mean of the twenty grades is 63.75. */
  lemma OverallMeanExample()
    ensures StatisticsCalculator.CalculateOverallStats(Pair).Success?
    ensures StatisticsCalculator.CalculateOverallStats(Pair).value.avg == 63.75
  {
    HalvesTotal(90.0, 95.0);
    HalvesTotal(40.0, 30.0);
    OverallMeanOfTwo(Pair);
  }

  /** With both students in section "A", that section's count is 2 and its mean is 63.75. */
  lemma SectionExample()
    ensures StudentAnalyzer.SectionStatsOf(["A", "A"], Pair, "A").count == 2
    ensures StudentAnalyzer.SectionStatsOf(["A", "A"], Pair, "A").avg == 63.75
  {
    HalvesTotal(90.0, 95.0);
    HalvesTotal(40.0, 30.0);
    SectionOfTwo(["A", "A"], Pair, "A");
  }

  /** The averages are 92.5 and 35.0; at the default threshold 50 only the second is at risk. */
  lemma AveragesExample()
    ensures StudentAnalyzer.RowMeans(Pair) == [92.5, 35.0]
    ensures StudentAnalyzer.AtRiskRows(Pair, StudentAnalyzer.DefaultAtRiskThreshold) == [1]
  {
    HalvesMean(90.0, 95.0);
    HalvesMean(40.0, 30.0);
    AtRiskOfTwo(Pair, StudentAnalyzer.DefaultAtRiskThreshold);
  }

  /**
   * The deltas are +5 and -10: at the default threshold 10 nobody improved,
   * and the decline of exactly 10 is not flagged either.
   */
  lemma DeltasExample()
    ensures StudentAnalyzer.Deltas(Pair) == [5.0, -10.0]
    ensures StudentAnalyzer.ImprovedRows(Pair, StudentAnalyzer.DefaultImprovementThreshold) == []
    ensures StudentAnalyzer.DeclinedRows(Pair, StudentAnalyzer.DefaultImprovementThreshold) == []
  {
    DeltasOfTwo(Pair);
    HalvesDelta(90.0, 95.0);
    HalvesDelta(40.0, 30.0);
    NoMovers(Pair, StudentAnalyzer.DefaultImprovementThreshold);
  }

  /** At the default top_n of 10 both slices hold both students, scores 92.5 then 35.0. */
  lemma RankingExample(ids: seq<int>, order: seq<nat>)
    requires |ids| == 2 && StudentAnalyzer.IsRanking(order, StudentAnalyzer.RowMeans(Pair))
    ensures order == [0, 1]
    ensures var r := StudentAnalyzer.RankStudents(ids, Pair, StudentAnalyzer.DefaultTopN, order);
      && r.topIds == ids && r.topScores == [92.5, 35.0]
      && r.bottomIds == ids && r.bottomScores == [92.5, 35.0]
  {
    HalvesMean(90.0, 95.0);
    HalvesMean(40.0, 30.0);
    OnlyRankingOfTwo(Pair, order);
    RankingOfTwo(Pair, ids, StudentAnalyzer.DefaultTopN, order);
  }
}
