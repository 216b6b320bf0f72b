/**
 * StatisticsCalculator: whole-matrix statistics, the per-semester
 * comparison, and the letter-grade distribution.
 */
module StatisticsCalculator {
  import opened Results
  import opened ArrayOps
  import opened GradeMatrix

  /** The subject of columns j and j + 5, for j in 0..4. */
  const Subjects: seq<string> := ["Math", "Physics", "Chemistry", "English", "Computer Science"]

  // ---------------------------------------------------------------------
  // Overall statistics

  /** The overall statistics; `variance` is the square of the reported standard deviation. */
  datatype OverallStats = OverallStats(avg: real, variance: real, max: real, min: real)

  /**
   * Mean, population variance, maximum and minimum over every cell of the
   * matrix. With no students np.max raises, which is the Failure here.
   */
  function CalculateOverallStats(g: Matrix): (r: Result<OverallStats>)
    requires WellShaped(g)
    ensures r.Failure? <==> |g| == 0
    ensures r.Success? ==>
      var s := r.value;
      && s.avg == Sum(Flatten(g)) / (|g| * Columns) as real
      && s.min <= s.avg <= s.max
      && s.variance >= 0.0
      && (forall i, j :: 0 <= i < |g| && 0 <= j < Columns ==> s.min <= g[i][j] <= s.max)
      && (exists i, j :: 0 <= i < |g| && 0 <= j < Columns && g[i][j] == s.min)
      && (exists i, j :: 0 <= i < |g| && 0 <= j < Columns && g[i][j] == s.max)
  {
    if |g| == 0 then Failure(EmptyInput)
    else
      var all := Flatten(g);
      CellsLength(g, 0, Columns);
      var lo, hi := MinOf(all), MaxOf(all);
      assert forall i, j :: 0 <= i < |g| && 0 <= j < Columns ==> lo <= g[i][j] <= hi by {
        forall i, j | 0 <= i < |g| && 0 <= j < Columns ensures lo <= g[i][j] <= hi {
          CellIn(g, 0, Columns, i, j);
        }
      }
      CellOrigin(g, 0, Columns, lo);
      CellOrigin(g, 0, Columns, hi);
      Success(OverallStats(Mean(all), Variance(all), hi, lo))
  }

  // ---------------------------------------------------------------------
  // Semester comparison

  /** The per-column means of columns [lo, hi): `np.mean(grades[:, lo:hi], axis=0)`. */
  function ColumnMeans(g: Matrix, lo: nat, hi: nat): (m: seq<real>)
    requires WellShaped(g) && |g| > 0 && lo <= hi <= Columns
    ensures |m| == hi - lo
    ensures forall k :: 0 <= k < hi - lo ==> m[k] == Mean(Column(g, lo + k))
  {
    seq(hi - lo, k requires 0 <= k < hi - lo => Mean(Column(g, lo + k)))
  }

  /** The per-column sums of columns [lo, hi). */
  function ColumnSums(g: Matrix, lo: nat, hi: nat): seq<real>
    requires WellShaped(g) && lo <= hi <= Columns
  {
    seq(hi - lo, k requires 0 <= k < hi - lo => Sum(Column(g, lo + k)))
  }

  /** Adding up the column sums of a block gives the sum of all its cells. */
  lemma {:induction false} ColumnSumsTotal(g: Matrix, lo: nat, hi: nat)
    requires WellShaped(g) && lo <= hi <= Columns
    ensures Sum(ColumnSums(g, lo, hi)) == Sum(Cells(g, lo, hi))
  {
    if hi == lo {
      EmptyBlock(g, lo);
      assert ColumnSums(g, lo, hi) == [];
    } else {
      var m := ColumnSums(g, lo, hi);
      assert m[..|m| - 1] == ColumnSums(g, lo, hi - 1);
      ColumnSumsTotal(g, lo, hi - 1);
      CellsSumLastColumn(g, lo, hi);
    }
  }

  /** Dividing every term by n divides the sum by n. */
  lemma {:induction false} SumOfQuotients(xs: seq<real>, ys: seq<real>, n: real)
    requires n > 0.0 && |xs| == |ys|
    requires forall k :: 0 <= k < |xs| ==> xs[k] == ys[k] / n
    ensures Sum(xs) == Sum(ys) / n
  {
    if xs != [] {
      var k := |xs| - 1;
      SumOfQuotients(xs[..k], ys[..k], n);
      QuotientsAdd(Sum(xs[..k]), Sum(ys[..k]), xs[k], ys[k], n);
    }
  }

  lemma QuotientsAdd(x: real, y: real, a: real, b: real, n: real)
    requires n > 0.0 && x == y / n && a == b / n
    ensures x + a == (y + b) / n
  {
  }

  lemma QuotientOfQuotient(s: real, n: real, w: real)
    requires n > 0.0 && w > 0.0
    ensures s / n / w == s / (n * w)
  {
  }

  lemma ProductAsReal(len: nat, a: nat, b: nat)
    requires len == a * b
    ensures len as real == a as real * b as real
  {
  }

  /**
   * The mean of a block's column means equals the plain mean of all the
   * block's cells, since every column has the same number of rows.
   */
  lemma MeanOfColumnMeans(g: Matrix, lo: nat, hi: nat)
    requires WellShaped(g) && |g| > 0 && lo < hi <= Columns
    ensures |Cells(g, lo, hi)| > 0
    ensures Mean(ColumnMeans(g, lo, hi)) == Mean(Cells(g, lo, hi))
  {
    var means, cells := ColumnMeans(g, lo, hi), Cells(g, lo, hi);
    CellsLength(g, lo, hi);
    SumOfColumnMeans(g, lo, hi);
    MeanOfQuotients(Mean(means), Sum(means), Sum(cells), |g|, hi - lo, |cells|, Mean(cells));
  }

  /** The column means add up to the block's total divided by the row count. */
  lemma SumOfColumnMeans(g: Matrix, lo: nat, hi: nat)
    requires WellShaped(g) && |g| > 0 && lo <= hi <= Columns
    ensures Sum(ColumnMeans(g, lo, hi)) == Sum(Cells(g, lo, hi)) / |g| as real
  {
    var n := |g| as real;
    var means, sums := ColumnMeans(g, lo, hi), ColumnSums(g, lo, hi);
    ColumnSumsTotal(g, lo, hi);
    forall k | 0 <= k < |means| ensures means[k] == sums[k] / n {
      var c := Column(g, lo + k);
      assert means[k] == Mean(c);
      assert sums[k] == Sum(c);
      assert |c| as real == n;
    }
    SumOfQuotients(means, sums, n);
  }

  lemma MeanOfQuotients(m: real, s: real, total: real, rows: nat, width: nat, len: nat, flat: real)
    requires rows > 0 && width > 0 && len == rows * width
    requires m == s / width as real && s == total / rows as real && flat == total / len as real
    ensures m == flat
  {
    ProductAsReal(len, rows, width);
    QuotientsCompose(m, s, total, rows as real, width as real, len as real, flat);
  }

  lemma QuotientsCompose(m: real, s: real, total: real, r: real, w: real, l: real, flat: real)
    requires r > 0.0 && w > 0.0 && l == r * w
    requires m == s / w && s == total / r && flat == total / l
    ensures m == flat
  {
    QuotientOfQuotient(total, r, w);
  }

  datatype SemesterStats = SemesterStats(
    sem1Avg: seq<real>,
    sem2Avg: seq<real>,
    improvement: seq<real>,
    sem1Overall: real,
    sem2Overall: real)

  /**
   * Per-subject means of each semester, their difference, and each
   * semester's mean of those means. With no students numpy's means are NaN,
   * which is the Failure here.
   */
  function CalculateSemesterStats(g: Matrix): (r: Result<SemesterStats>)
    requires WellShaped(g)
    ensures r.Failure? <==> |g| == 0
    ensures r.Success? ==>
      var s := r.value;
      && |s.sem1Avg| == |s.sem2Avg| == |s.improvement| == SemesterWidth
      && (forall k :: 0 <= k < SemesterWidth ==>
            && s.sem1Avg[k] == Mean(Column(g, k))
            && s.sem2Avg[k] == Mean(Column(g, SemesterWidth + k))
            && s.improvement[k] == s.sem2Avg[k] - s.sem1Avg[k])
      && |Cells(g, 0, SemesterWidth)| > 0 && |Cells(g, SemesterWidth, Columns)| > 0
      && s.sem1Overall == Mean(Cells(g, 0, SemesterWidth))
      && s.sem2Overall == Mean(Cells(g, SemesterWidth, Columns))
  {
    if |g| == 0 then Failure(EmptyInput)
    else Success(SemesterStatsOf(g))
  }

  /** The semester figures of a non-empty matrix. */
  function SemesterStatsOf(g: Matrix): (s: SemesterStats)
    requires WellShaped(g) && |g| > 0
    ensures |s.sem1Avg| == |s.sem2Avg| == |s.improvement| == SemesterWidth
    ensures forall k :: 0 <= k < SemesterWidth ==>
      && s.sem1Avg[k] == Mean(Column(g, k))
      && s.sem2Avg[k] == Mean(Column(g, SemesterWidth + k))
      && s.improvement[k] == s.sem2Avg[k] - s.sem1Avg[k]
    ensures |Cells(g, 0, SemesterWidth)| > 0 && |Cells(g, SemesterWidth, Columns)| > 0
    ensures s.sem1Overall == Mean(Cells(g, 0, SemesterWidth))
    ensures s.sem2Overall == Mean(Cells(g, SemesterWidth, Columns))
  {
    var sem1 := ColumnMeans(g, 0, SemesterWidth);
    var sem2 := ColumnMeans(g, SemesterWidth, Columns);
    var overall1 := SemesterOverall(g, 0, SemesterWidth);
    var overall2 := SemesterOverall(g, SemesterWidth, Columns);
    SemesterStats(sem1, sem2, Difference(sem2, sem1), overall1, overall2)
  }

  /**
   * `np.mean` of a semester's column means: since every column has the same
   * length, it is the mean of all the semester's cells.
   */
  function SemesterOverall(g: Matrix, lo: nat, hi: nat): (m: real)
    requires WellShaped(g) && |g| > 0 && lo < hi <= Columns
    ensures |Cells(g, lo, hi)| > 0 && m == Mean(Cells(g, lo, hi))
  {
    MeanOfColumnMeans(g, lo, hi);
    Mean(ColumnMeans(g, lo, hi))
  }

  // ---------------------------------------------------------------------
  // Grade distribution

  datatype Letter = A | B | C | D | F

  /** The letters in the order the distribution is built. */
  const Letters: seq<Letter> := [A, B, C, D, F]

  /** The mask of each letter: inclusive lower edges, exclusive upper edges. */
  predicate InBucket(l: Letter, x: real)
  {
    match l
    case A => x >= 90.0
    case B => 80.0 <= x < 90.0
    case C => 70.0 <= x < 80.0
    case D => 60.0 <= x < 70.0
    case F => x < 60.0
  }

  /** The one letter whose mask holds x: the five masks partition the reals. */
  function BucketOf(x: real): (l: Letter)
    ensures InBucket(l, x)
    ensures forall l' :: InBucket(l', x) ==> l' == l
  {
    if x >= 90.0 then A
    else if x >= 80.0 then B
    else if x >= 70.0 then C
    else if x >= 60.0 then D
    else F
  }

  /** A grade on an edge goes to the higher letter. */
  lemma BoundaryGrades()
    ensures BucketOf(90.0) == A && BucketOf(89.999) == B
    ensures BucketOf(80.0) == B && BucketOf(70.0) == C
    ensures BucketOf(60.0) == D && BucketOf(59.999) == F
  {
  }

  /** `np.sum(mask)` for the letter's mask over s. */
  function CountIn(l: Letter, s: seq<real>): (c: nat)
    ensures c <= |s|
    ensures c == 0 <==> forall i :: 0 <= i < |s| ==> !InBucket(l, s[i])
    ensures c == |s| <==> forall i :: 0 <= i < |s| ==> InBucket(l, s[i])
  {
    if s == [] then 0
    else CountIn(l, s[..|s| - 1]) + (if InBucket(l, s[|s| - 1]) then 1 else 0)
  }

  /** Every grade is counted under exactly one letter. */
  lemma {:induction false} CountsSumToTotal(s: seq<real>)
    ensures CountIn(A, s) + CountIn(B, s) + CountIn(C, s) + CountIn(D, s) + CountIn(F, s) == |s|
  {
    if s != [] {
      CountsSumToTotal(s[..|s| - 1]);
      var l := BucketOf(s[|s| - 1]);
    }
  }

  /** `(count / total) * 100`; with total 0 numpy yields NaN, which is None. */
  function Percentage(count: nat, total: nat): (p: Option<real>)
    ensures p.Some? <==> total > 0
    ensures p.Some? ==> p.value * total as real == count as real * 100.0
    ensures p.Some? && count <= total ==> 0.0 <= p.value <= 100.0
  {
    if total == 0 then None else Some(count as real / total as real * 100.0)
  }

  datatype Bucket = Bucket(count: nat, percentage: Option<real>)

  /** The distribution the method below builds, letter by letter. */
  function BucketFor(g: Matrix, l: Letter): (b: Bucket)
    requires WellShaped(g)
    ensures b.count <= |g| * Columns
    ensures b.percentage.Some? <==> |g| > 0
    ensures b.percentage.Some? ==>
      0.0 <= b.percentage.value <= 100.0
      && b.percentage.value * (|g| * Columns) as real == b.count as real * 100.0
  {
    var all := Flatten(g);
    CellsLength(g, 0, Columns);
    Bucket(CountIn(l, all), Percentage(CountIn(l, all), |all|))
  }

  /**
   * get_grade_distribution: flattens the matrix and, for each letter in
   * turn, stores the count of grades under its mask and the share of all
   * grades that count is.
   */
  method GetGradeDistribution(g: Matrix) returns (distribution: map<Letter, Bucket>)
    requires WellShaped(g)
    ensures forall l: Letter :: l in distribution
    ensures forall l :: l in distribution ==> distribution[l] == BucketFor(g, l)
  {
    var all := Flatten(g);
    var total := |all|;
    distribution := map[];
    for i := 0 to |Letters|
      invariant forall l :: l in distribution <==> l in Letters[..i]
      invariant forall l :: l in distribution ==> distribution[l] == BucketFor(g, l)
    {
      var letter := Letters[i];
      var count := CountIn(letter, all);
      distribution := distribution[letter := Bucket(count, Percentage(count, total))];
    }
    assert Letters[..|Letters|] == Letters;
    assert forall l: Letter :: l in Letters by {
      forall l: Letter ensures l in Letters {
        match l
        case A => assert Letters[0] == A;
        case B => assert Letters[1] == B;
        case C => assert Letters[2] == C;
        case D => assert Letters[3] == D;
        case F => assert Letters[4] == F;
      }
    }
  }

  /** The five counts add up to N * 10, one per cell. */
  lemma DistributionCountsCoverAllCells(g: Matrix)
    requires WellShaped(g)
    ensures BucketFor(g, A).count + BucketFor(g, B).count + BucketFor(g, C).count
            + BucketFor(g, D).count + BucketFor(g, F).count == |g| * Columns
  {
    CountsSumToTotal(Flatten(g));
    CellsLength(g, 0, Columns);
  }

  /** With at least one grade, the five percentages add up to 100. */
  lemma PercentagesSumTo100(g: Matrix)
    requires WellShaped(g) && |g| > 0
    ensures BucketFor(g, A).percentage.Some? && BucketFor(g, B).percentage.Some?
    ensures BucketFor(g, C).percentage.Some? && BucketFor(g, D).percentage.Some?
    ensures BucketFor(g, F).percentage.Some?
    ensures BucketFor(g, A).percentage.value + BucketFor(g, B).percentage.value
            + BucketFor(g, C).percentage.value + BucketFor(g, D).percentage.value
            + BucketFor(g, F).percentage.value == 100.0
  {
    var all := Flatten(g);
    CellsLength(g, 0, Columns);
    CountsSumToTotal(all);
    SharesSumTo100(CountIn(A, all) as real, CountIn(B, all) as real, CountIn(C, all) as real,
                   CountIn(D, all) as real, CountIn(F, all) as real, |all| as real);
  }

  lemma SharesSumTo100(a: real, b: real, c: real, d: real, f: real, n: real)
    requires n > 0.0 && a + b + c + d + f == n
    ensures a / n * 100.0 + b / n * 100.0 + c / n * 100.0 + d / n * 100.0 + f / n * 100.0 == 100.0
  {
    assert a / n + b / n + c / n + d / n + f / n == (a + b + c + d + f) / n;
  }
}
