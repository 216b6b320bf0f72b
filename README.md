# Student performance analysis: the analytical core in Dafny

This project models the analytical core of `student_performance_analysis.py`. That core is two groups of static methods:

- **StatisticsCalculator:** overall statistics, the semester comparison and the A–F grade distribution.
- **StudentAnalyzer:** ranking, at-risk detection, improvement tracking and the per-section comparison.

It also models the `SUBJECTS[idx % 5]` lookup the report uses to name a weakest subject. The model then proves what these operations promise.

The input is an N×10 grade matrix with one row per student. Columns 0–4 are semester 1 and columns 5–9 are semester 2. Alongside it run a vector of student ids and a vector of section labels, aligned with the matrix by position. Grades are exact `real` numbers. Each numpy primitive (`mean`, `min`, `max`, `argmin`, `argsort`, boolean-mask and fancy indexing, `unique`) is modelled by its mathematical meaning.

Modules, one per file:

- `results.dfy` (`Results`): `Option` and `Result`. These stand in for numpy's NaN and for the exception on an empty array.
- `array_ops.dfy` (`ArrayOps`): the numpy primitives on sequences. This includes np.unique over strings, sorted by code point.
- `grade_matrix.dfy` (`GradeMatrix`): the matrix shape, columns, and row-major flattening of a column block.
- `statistics_calculator.dfy` (`StatisticsCalculator`): the three statistics operations.
- `student_analyzer.dfy` (`StudentAnalyzer`): the four analysis operations and their default parameters.
- `report_generator.dfy` (`ReportGenerator`): the subject-name lookup.
- `worked_example.dfy` (`WorkedExample`): a class of two students computed through the model, first for any two students and then for one concrete pair.

`get_grade_distribution` and `analyze_sections` build a dictionary inside a `for` loop, so they are methods with loops. Each is proved against a function giving one entry. Every other operation is a single vectorised expression, so it is a function, and its properties are proved as its `ensures` clauses and as lemmas.

## Model

| member | source | states |
|---|---|---|
| StatisticsCalculator.CalculateOverallStats | student_performance_analysis.py:44-52 | fails exactly on an empty matrix; otherwise avg is the sum of all N×10 cells over N×10, min ≤ avg ≤ max, the variance is non-negative, every cell lies in [min, max], and both min and max are cells of the matrix |
| StatisticsCalculator.ColumnMeans | student_performance_analysis.py:60-61 | `np.mean(block, axis=0)`: one entry per column of the block, each the mean of that column |
| StatisticsCalculator.MeanOfColumnMeans | student_performance_analysis.py:67-68 | the mean of a block's column means equals the flat mean of every cell in the block |
| StatisticsCalculator.CalculateSemesterStats | student_performance_analysis.py:55-69 | fails exactly on an empty matrix; otherwise five per-subject means per semester taken from columns 0–4 and 5–9, improvement[k] = sem2Avg[k] − sem1Avg[k], and each semester's overall figure equals the flat mean of all its cells |
| StatisticsCalculator.SemesterStatsOf | student_performance_analysis.py:57-68 | for at least one student: semester 1's subject means are the means of columns 0–4, semester 2's those of columns 5–9, the improvement is their difference subject by subject, and each overall figure is the mean of all that semester's cells |
| StatisticsCalculator.SemesterOverall | student_performance_analysis.py:67-68 | the mean of a semester's column means is the mean of every cell of that semester |
| StatisticsCalculator.BucketOf | student_performance_analysis.py:77-83 | every grade satisfies the mask of exactly one letter, so the five masks partition the grades |
| StatisticsCalculator.BoundaryGrades | student_performance_analysis.py:78-82 | 90, 80, 70 and 60 go to the higher letter; just below 90 is B and just below 60 is F |
| StatisticsCalculator.CountsSumToTotal | student_performance_analysis.py:77-87 | over any list of grades, the five mask counts add up to the list's length |
| StatisticsCalculator.CountIn | student_performance_analysis.py:87 | `np.sum(mask)` is at most the number of grades; it is 0 exactly when no grade satisfies the mask, and all of them exactly when every grade does |
| StatisticsCalculator.Percentage | student_performance_analysis.py:90 | `(count / total) * 100` is defined exactly when total > 0; it is then the p with p × total = count × 100, lying in [0, 100] when count ≤ total |
| StatisticsCalculator.BucketFor | student_performance_analysis.py:87-91 | one letter's entry: its count is at most N×10; its percentage is defined exactly when N > 0, lies in [0, 100], and times N×10 gives count × 100 |
| StatisticsCalculator.GetGradeDistribution | student_performance_analysis.py:72-93 | the result has an entry for every letter, holding that letter's count over the flattened matrix and its percentage of all grades (undefined when there are no grades) |
| StatisticsCalculator.DistributionCountsCoverAllCells | student_performance_analysis.py:74-87 | the five letter counts add up to N×10 |
| StatisticsCalculator.PercentagesSumTo100 | student_performance_analysis.py:86-91 | for a non-empty matrix every percentage is defined and the five add up to 100 |
| ReportGenerator.SubjectName | student_performance_analysis.py:249 | `SUBJECTS[idx % 5]` is always one of the five subjects, and the idx-th one for idx < 5 |
| ReportGenerator.SemestersShareSubjects | student_performance_analysis.py:249 | columns j and j + 5 name the same subject |
| StudentAnalyzer.RowMeans | student_performance_analysis.py:103 | one average per student, each the mean of that student's ten grades |
| StudentAnalyzer.RankedIndices | student_performance_analysis.py:104 | every list of averages has a ranking, i.e. an order `argsort()[::-1]` may produce: a permutation of 0..N−1 whose averages are non-increasing (this one keeps ties in row order) |
| StudentAnalyzer.SliceBound | student_performance_analysis.py:106-107 | Python's clamping of a slice bound, including negative bounds counted from the end |
| StudentAnalyzer.RankStudents | student_performance_analysis.py:101-119 | for any ranking of the averages as the sorted order: averages are the row means; the top slice is that order's first top_n and the bottom slice is `ranked[-top_n:]`; ids and scores stay aligned with the ranked students |
| StudentAnalyzer.RankingSizes | student_performance_analysis.py:106-107 | for every ranking order and top_n ≥ 0 the top slice has min(top_n, N) students, as does the bottom slice when top_n > 0; with top_n = 0 the bottom slice is all N students |
| StudentAnalyzer.TopOutscoresRest | student_performance_analysis.py:104-113 | for every ranking order, every top score is at least the average of every student not in the top slice |
| StudentAnalyzer.SlicesNonIncreasing | student_performance_analysis.py:104-117 | for every ranking order, both slices list scores from the highest down |
| StudentAnalyzer.TopOutscoresBottom | student_performance_analysis.py:104-117 | for every ranking order, when 0 < top_n and 2·top_n ≤ N, every top score is at least every bottom score |
| StudentAnalyzer.AtRiskRows | student_performance_analysis.py:124-125 | exactly the students whose average is strictly below the threshold, in increasing row order |
| StudentAnalyzer.IdentifyAtRisk | student_performance_analysis.py:122-136 | count is the number of at-risk students; ids and averages are theirs, in row order, each average below the threshold; each weakest index is a column 0–9 holding the row minimum, with no earlier column holding it; each weakest score is that minimum |
| StudentAnalyzer.NobodyAtRisk | student_performance_analysis.py:127-135 | with every average at or above the threshold, the count is 0 and every array is empty |
| StudentAnalyzer.Delta | student_performance_analysis.py:141-143 | a student's delta is the semester-2 grade total minus the semester-1 total, over 5 |
| StudentAnalyzer.MoversAt | student_performance_analysis.py:149-158 | each of the improved and declined entries: count, ids and deltas of the given rows, aligned position by position |
| StudentAnalyzer.Deltas | student_performance_analysis.py:141-143 | one delta per student: the semester-2 mean minus the semester-1 mean |
| StudentAnalyzer.ImprovedRows | student_performance_analysis.py:145 | exactly the students whose delta is strictly above the threshold, in row order |
| StudentAnalyzer.DeclinedRows | student_performance_analysis.py:146 | exactly the students whose delta is strictly below minus the threshold, in row order |
| StudentAnalyzer.TrackImprovement | student_performance_analysis.py:139-160 | improved and declined hold the count, ids and deltas of exactly those students; all_deltas has one delta per student |
| StudentAnalyzer.ImprovedAndDeclinedDisjoint | student_performance_analysis.py:145-146 | with a non-negative threshold no student both improved and declined, and a delta equal to ±threshold is in neither |
| StudentAnalyzer.LabelMask | student_performance_analysis.py:169 | `sections == section` is true exactly at the students carrying the label |
| StudentAnalyzer.SectionRows | student_performance_analysis.py:169-170 | the rows the mask selects are exactly the students carrying the label, in row order |
| StudentAnalyzer.SectionRowsCount | student_performance_analysis.py:173 | the number of selected rows is the number of students carrying the label |
| StudentAnalyzer.SectionGrades | student_performance_analysis.py:170 | `grades[section_mask]`: row k is the grade row of the k-th student carrying the label, in row order, and there is one row per such student |
| StudentAnalyzer.SectionStatsOf | student_performance_analysis.py:172-179 | for a label that occurs: count is the number of students carrying it and is positive; avg is the sum of the section's grades over count × 10, i.e. the mean over that section's cells only; min ≤ avg ≤ max; the variance is non-negative; every grade of the section lies in [min, max]; min and max are grades of the section |
| StudentAnalyzer.AnalyzeSections | student_performance_analysis.py:163-181 | the keys are exactly the labels that occur, and each entry is that section's statistics |
| StudentAnalyzer.SectionCountsCoverAllStudents | student_performance_analysis.py:165-173 | the section counts, summed over np.unique's labels, add up to the number of students |
| ArrayOps.Mean | student_performance_analysis.py:47 | np.mean times the number of values is their sum, and it lies between np.min and np.max of the array |
| ArrayOps.MinOf | student_performance_analysis.py:51 | np.min is an element of the array and at most every element |
| ArrayOps.MaxOf | student_performance_analysis.py:50 | np.max is an element of the array and at least every element |
| ArrayOps.Variance | student_performance_analysis.py:48 | the population variance behind np.std is non-negative |
| ArrayOps.ArgMin | student_performance_analysis.py:128 | np.argmin is an index holding a value at most every element, and no earlier index holds that value |
| ArrayOps.ArgMinIsMin | student_performance_analysis.py:128-135 | the value at np.argmin is np.min |
| ArrayOps.MaskIndices | student_performance_analysis.py:125-127 | the indices a boolean mask selects are exactly its true positions, in increasing order |
| ArrayOps.NoneBelow | student_performance_analysis.py:125-127 | if no value is below the bound, the mask selects nothing |
| ArrayOps.NoneAbove | student_performance_analysis.py:145 | if no value is above the bound, the mask selects nothing |
| ArrayOps.LexIrreflexive | student_performance_analysis.py:165 | the code-point order np.unique sorts labels by never puts a label before itself |
| ArrayOps.LexTransitive | student_performance_analysis.py:165 | that order is transitive |
| ArrayOps.LexTotal | student_performance_analysis.py:165 | any two different labels are ordered one way or the other |
| ArrayOps.Unique | student_performance_analysis.py:165 | np.unique gives a strictly sorted list holding exactly the labels that occur |
| ArrayOps.SortedIsDistinct | student_performance_analysis.py:165 | np.unique's labels are pairwise distinct |
| GradeMatrix.Column | student_performance_analysis.py:60-61 | `grades[:, j]` has one entry per student, each that student's grade in column j |
| GradeMatrix.CellsLength | student_performance_analysis.py:74-75 | flattening columns [lo, hi) gives N·(hi − lo) grades |
| GradeMatrix.CellIn | student_performance_analysis.py:74 | every grade in the column block appears in its flattening |
| GradeMatrix.CellOrigin | student_performance_analysis.py:74 | every value in the flattening is a grade of the block |
| WorkedExample.OverallMeanOfTwo | student_performance_analysis.py:47 | for any two students the overall mean is the sum of their twenty grades over twenty |
| WorkedExample.SectionOfTwo | student_performance_analysis.py:170-174 | when both students carry the same label, that section's count is 2 and its mean is the overall mean |
| WorkedExample.AtRiskOfTwo | student_performance_analysis.py:124-125 | when the first average reaches the threshold and the second is below it, only the second student is at risk |
| WorkedExample.NoMovers | student_performance_analysis.py:141-146 | when every delta lies in [−threshold, threshold], nobody improved and nobody declined, the ends included |
| WorkedExample.OnlyRankingOfTwo | student_performance_analysis.py:103-104 | with the first average strictly higher, the only ranking of two students is [0, 1] |
| WorkedExample.RankingOfTwo | student_performance_analysis.py:101-118 | with the first average strictly higher and top_n ≥ 2, both slices hold both students, strongest first |
| WorkedExample.OverallMeanExample | student_performance_analysis.py:47 | for students [90×5, 95×5] and [40×5, 30×5], the overall mean is 63.75 |
| WorkedExample.SectionExample | student_performance_analysis.py:170-174 | with both students in section "A", that section's count is 2 and its mean is 63.75 |
| WorkedExample.RankingExample | student_performance_analysis.py:101-118 | with no tie every ranking is [0, 1], and at the default top_n of 10 both slices hold both students, scores 92.5 then 35.0 |
| WorkedExample.AveragesExample | student_performance_analysis.py:124-125 | their averages are 92.5 and 35.0, and only the second is below the default threshold of 50 |
| WorkedExample.DeltasExample | student_performance_analysis.py:141-146 | their deltas are +5 and −10, and at the default threshold of 10 neither is flagged, since −10 is not strictly below −10 |

## Left out

- `DataLoader.load_data` (student_performance_analysis.py:14-35): CSV reading with `np.genfromtxt` and the printing of errors. The vectors it guarantees are aligned are a `requires` here: `|ids| == |grades|` and `|sections| == |grades|`.
- `ReportGenerator.generate_console_report` and `save_report` (student_performance_analysis.py:188-292): fixed-width text formatting and file writing. Only the subject lookup at line 249 is modelled.
- `main` (student_performance_analysis.py:296-344): orchestration, printing and exit codes.
- The medians (student_performance_analysis.py:49, 176): no median is modelled.
- StatisticsCalculator.CalculateOverallStats: reports the population variance, not its square root `np.std`. Only its non-negativity is stated, and no median is computed.
- StudentAnalyzer.SectionStatsOf: the same as above, for each section's spread and median.
- IEEE-754 behaviour: grades are exact reals, so there is no rounding and no NaN cell. A NaN grade, which falls into none of the five masks, is not modelled.
- Empty inputs:
  - On an empty matrix the source returns NaN means, and `np.max` raises. Both overall statistics and semester statistics are modelled as `Failure(EmptyInput)`.
  - With zero grades the distribution percentage is 0/0, which is NaN in numpy. It is modelled as `None`.
- StudentAnalyzer.RankStudents: the argsort order is an argument, which may be any ranking of the averages. The model does not say which order among tied averages numpy's sort produces. Every ranking lemma holds for all such orders.
- StudentAnalyzer.AnalyzeSections: a Dafny `map` has no insertion order, so the sorted order in which numpy visits the labels is not carried into the result's key order. The loop does visit the labels in the order np.unique gives.
- Integer widths: counts and indices are unbounded naturals, while numpy uses 64-bit integers, which cannot overflow at these sizes.
- The ids and sections vectors are not checked for uniqueness or alignment beyond their lengths, as in the source.

Slice bounds follow Python's rules:

- With top_n = 0, `ranked[-0:]` at line 107 is the whole ranking, so the bottom slice then holds every student while the top slice is empty (`StudentAnalyzer.RankingSizes`).
- A negative top_n is clamped the same way Python clamps it (`StudentAnalyzer.SliceBound`).
