/**
 * StudentAnalyzer: per-student averages, the ranking with its top and
 * bottom slices, at-risk detection, improvement tracking, and the
 * per-section comparison.
 */
module StudentAnalyzer {
  import opened Results
  import opened ArrayOps
  import opened GradeMatrix
  import StatisticsCalculator

  /** The keyword defaults of rank_students, identify_at_risk and track_improvement. */
  const DefaultTopN: int := 10
  const DefaultAtRiskThreshold: real := 50.0
  const DefaultImprovementThreshold: real := 10.0

  /** `np.mean(grades, axis=1)`: each student's mean over all ten columns. */
  function RowMeans(g: Matrix): (avgs: seq<real>)
    requires WellShaped(g)
    ensures |avgs| == |g|
    ensures forall i :: 0 <= i < |g| ==> avgs[i] == Mean(g[i])
  {
    seq(|g|, i requires 0 <= i < |g| => Mean(g[i]))
  }

  // ---------------------------------------------------------------------
  // Ranking

  predicate InRange(order: seq<nat>, n: nat)
  {
    forall k :: 0 <= k < |order| ==> order[k] < n
  }

  predicate Distinct(order: seq<nat>)
  {
    forall k, l :: 0 <= k < l < |order| ==> order[k] != order[l]
  }

  /** The keys at the positions in `order` never increase along it. */
  predicate NonIncreasing(order: seq<nat>, keys: seq<real>)
    requires InRange(order, |keys|)
  {
    forall k, l :: 0 <= k < l < |order| ==> keys[order[k]] >= keys[order[l]]
  }

  /** `order` lists every position of `keys` once, from the highest key to the lowest. */
  predicate IsRanking(order: seq<nat>, keys: seq<real>)
  {
    && |order| == |keys|
    && InRange(order, |keys|)
    && (forall i :: 0 <= i < |keys| ==> i in order)
    && Distinct(order)
    && NonIncreasing(order, keys)
  }

  /** Putting a position with a key at least every other in front keeps the order ranked. */
  lemma ConsRanked(y: nat, rest: seq<nat>, keys: seq<real>)
    requires y < |keys| && InRange(rest, |keys|) && NonIncreasing(rest, keys)
    requires forall z :: z in rest ==> keys[y] >= keys[z]
    ensures InRange([y] + rest, |keys|) && NonIncreasing([y] + rest, keys)
  {
    var r := [y] + rest;
    forall k, l | 0 <= k < l < |r| ensures keys[r[k]] >= keys[r[l]] {
      if k == 0 {
        assert r[l] == rest[l - 1] && rest[l - 1] in rest;
      } else {
        assert r[k] == rest[k - 1] && r[l] == rest[l - 1];
      }
    }
  }

  lemma ConsDistinct(y: nat, rest: seq<nat>)
    ensures y !in rest && Distinct(rest) ==> Distinct([y] + rest)
  {
    if y !in rest && Distinct(rest) {
      var r := [y] + rest;
      forall k, l | 0 <= k < l < |r| ensures r[k] != r[l] {
        assert r[l] == rest[l - 1] && rest[l - 1] in rest;
        if k > 0 {
          assert r[k] == rest[k - 1];
        }
      }
    }
  }

  /** Inserts position x into a ranked `order`, after every position with a key at least x's. */
  function InsertByKey(x: nat, order: seq<nat>, keys: seq<real>): (r: seq<nat>)
    requires x < |keys| && InRange(order, |keys|) && NonIncreasing(order, keys)
    ensures |r| == |order| + 1
    ensures InRange(r, |keys|)
    ensures forall y :: y in r <==> y == x || y in order
    ensures NonIncreasing(r, keys)
    ensures Distinct(order) && x !in order ==> Distinct(r)
  {
    if order == [] then [x]
    else
      var head, tail := order[0], order[1..];
      assert order == [head] + tail;
      assert forall z :: z in tail ==> keys[head] >= keys[z] by {
        forall z | z in tail ensures keys[head] >= keys[z] {
          var l :| 0 <= l < |tail| && tail[l] == z;
          assert order[l + 1] == z;
        }
      }
      if keys[x] > keys[head] then
        ConsRanked(x, order, keys);
        ConsDistinct(x, order);
        [x] + order
      else
        var rest := InsertByKey(x, tail, keys);
        ConsRanked(head, rest, keys);
        assert Distinct(order) ==> head !in tail;
        ConsDistinct(head, rest);
        [head] + rest
  }

  /** The positions 0 .. n-1 of `keys`, ranked. */
  function RankedPrefix(keys: seq<real>, n: nat): (order: seq<nat>)
    requires n <= |keys|
    ensures |order| == n
    ensures InRange(order, n)
    ensures forall i :: 0 <= i < n ==> i in order
    ensures Distinct(order)
    ensures NonIncreasing(order, keys)
  {
    if n == 0 then []
    else
      var prev := RankedPrefix(keys, n - 1);
      var r := InsertByKey(n - 1, prev, keys);
      assert forall k :: 0 <= k < |r| ==> r[k] < n by {
        forall k | 0 <= k < |r| ensures r[k] < n {
          assert r[k] in r;
        }
      }
      r
  }

  /**
   * Every list of keys has a ranking: this one puts equal keys in
   * increasing position order. It is one of the orders
   * `np.argsort(keys)[::-1]` may produce; numpy's default sort does not
   * fix which order equal keys come in.
   */
  function RankedIndices(keys: seq<real>): (order: seq<nat>)
    ensures IsRanking(order, keys)
  {
    RankedPrefix(keys, |keys|)
  }

  /** Python's normalisation of a slice bound k against a length n (negative k counts from the end). */
  function SliceBound(k: int, n: nat): (b: nat)
    ensures b <= n
    ensures 0 <= k ==> b == if k <= n then k else n
    ensures k < 0 ==> b == if -k <= n then n + k else 0
  {
    if k < 0 then (if n + k < 0 then 0 else n + k)
    else if k > n then n
    else k
  }

  datatype Ranking = Ranking(
    averages: seq<real>,
    topIds: seq<int>,
    topScores: seq<real>,
    bottomIds: seq<int>,
    bottomScores: seq<real>)

  /**
   * rank_students, given the ranked order `np.argsort(averages)[::-1]`:
   * the order's first `top_n` positions (`ranked[:top_n]`) and its last
   * `top_n` (`ranked[-top_n:]`), each as aligned ids and averages. The
   * order may be any ranking of the averages, since the sort does not fix
   * how equal averages are ordered; RankedIndices shows one always exists.
   */
  function RankStudents(ids: seq<int>, g: Matrix, topN: int, order: seq<nat>): (r: Ranking)
    requires WellShaped(g) && |ids| == |g| && IsRanking(order, RowMeans(g))
    ensures |r.averages| == |g|
    ensures forall i :: 0 <= i < |g| ==> r.averages[i] == Mean(g[i])
    ensures
      var t := SliceBound(topN, |g|);
      && |r.topIds| == |r.topScores| == t
      && (forall k :: 0 <= k < t ==>
            r.topIds[k] == ids[order[k]] && r.topScores[k] == r.averages[order[k]])
    ensures
      var b := SliceBound(-topN, |g|);
      && |r.bottomIds| == |r.bottomScores| == |g| - b
      && (forall k :: 0 <= k < |g| - b ==>
            r.bottomIds[k] == ids[order[b + k]] && r.bottomScores[k] == r.averages[order[b + k]])
  {
    var averages := RowMeans(g);
    var top := order[..SliceBound(topN, |g|)];
    var bottom := order[SliceBound(-topN, |g|)..];
    Ranking(averages, Gather(ids, top), Gather(averages, top), Gather(ids, bottom), Gather(averages, bottom))
  }

  /**
   * With top_n >= 0 the top slice has min(top_n, N) students; so has the
   * bottom slice when top_n > 0, but with top_n == 0 `ranked[-0:]` is the
   * whole ranking.
   */
  lemma RankingSizes(ids: seq<int>, g: Matrix, topN: int, order: seq<nat>)
    requires WellShaped(g) && |ids| == |g| && IsRanking(order, RowMeans(g)) && topN >= 0
    ensures var r := RankStudents(ids, g, topN, order);
      && |r.topIds| == (if topN <= |g| then topN else |g|)
      && (topN > 0 ==> |r.bottomIds| == (if topN <= |g| then topN else |g|))
      && (topN == 0 ==> |r.bottomIds| == |g|)
  {
  }

  /** Every top score is at least the average of every student left out of the top slice. */
  lemma TopOutscoresRest(ids: seq<int>, g: Matrix, topN: int, order: seq<nat>, k: nat, i: nat)
    requires WellShaped(g) && |ids| == |g| && IsRanking(order, RowMeans(g))
    requires k < |RankStudents(ids, g, topN, order).topScores|
    requires i < |g| && i !in order[..SliceBound(topN, |g|)]
    ensures RankStudents(ids, g, topN, order).topScores[k] >= Mean(g[i])
  {
    var r := RankStudents(ids, g, topN, order);
    assert r.averages == RowMeans(g);
    var t := SliceBound(topN, |g|);
    assert i in order;
    var l :| 0 <= l < |order| && order[l] == i;
    if l < t {
      assert false;
    }
  }

  /** Top and bottom slices are each ordered from the highest average down. */
  lemma SlicesNonIncreasing(ids: seq<int>, g: Matrix, topN: int, order: seq<nat>)
    requires WellShaped(g) && |ids| == |g| && IsRanking(order, RowMeans(g))
    ensures var r := RankStudents(ids, g, topN, order);
      && (forall k, l :: 0 <= k < l < |r.topScores| ==> r.topScores[k] >= r.topScores[l])
      && (forall k, l :: 0 <= k < l < |r.bottomScores| ==> r.bottomScores[k] >= r.bottomScores[l])
  {
  }

  /** When the two slices cannot overlap (2 * top_n <= N), every top score is at least every bottom score. */
  lemma TopOutscoresBottom(ids: seq<int>, g: Matrix, topN: int, order: seq<nat>)
    requires WellShaped(g) && |ids| == |g| && IsRanking(order, RowMeans(g))
    requires 0 < topN && 2 * topN <= |g|
    ensures var r := RankStudents(ids, g, topN, order);
      forall k, l :: 0 <= k < |r.topScores| && 0 <= l < |r.bottomScores| ==> r.topScores[k] >= r.bottomScores[l]
  {
    var r := RankStudents(ids, g, topN, order);
    var t, b := SliceBound(topN, |g|), SliceBound(-topN, |g|);
    assert t <= b;
    forall k, l | 0 <= k < |r.topScores| && 0 <= l < |r.bottomScores|
      ensures r.topScores[k] >= r.bottomScores[l]
    {
      assert k < b + l;
    }
  }

  // ---------------------------------------------------------------------
  // At-risk students

  datatype AtRisk = AtRisk(
    count: nat,
    ids: seq<int>,
    averages: seq<real>,
    weakestSubjectIdx: seq<nat>,
    weakestScores: seq<real>)

  /** The rows whose average is strictly below the threshold, in row order. */
  function AtRiskRows(g: Matrix, threshold: real): (rows: seq<nat>)
    requires WellShaped(g)
    ensures StrictlyIncreasing(rows)
    ensures forall i :: i in rows <==> 0 <= i < |g| && Mean(g[i]) < threshold
  {
    IndicesBelow(RowMeans(g), threshold)
  }

  /**
   * identify_at_risk: the students whose average is strictly below the
   * threshold, with each one's weakest column (the first holding the row
   * minimum) and that minimum.
   */
  function IdentifyAtRisk(ids: seq<int>, g: Matrix, threshold: real): (r: AtRisk)
    requires WellShaped(g) && |ids| == |g|
    ensures var rows := AtRiskRows(g, threshold);
      && r.count == |rows|
      && |r.ids| == |r.averages| == |r.weakestSubjectIdx| == |r.weakestScores| == |rows|
      && forall k :: 0 <= k < |rows| ==>
           && rows[k] < |g|
           && r.ids[k] == ids[rows[k]]
           && r.averages[k] == Mean(g[rows[k]]) < threshold
           && r.weakestSubjectIdx[k] < Columns
           && r.weakestScores[k] == g[rows[k]][r.weakestSubjectIdx[k]]
           && (forall j :: 0 <= j < Columns ==> r.weakestScores[k] <= g[rows[k]][j])
           && (forall j :: 0 <= j < r.weakestSubjectIdx[k] ==> r.weakestScores[k] < g[rows[k]][j])
  {
    var averages := RowMeans(g);
    var rows := AtRiskRows(g, threshold);
    assert InRange(rows, |g|) by {
      forall k | 0 <= k < |rows| ensures rows[k] < |g| { assert rows[k] in rows; }
    }
    var atRiskGrades := Gather(g, rows);
    var weakest := seq(|rows|, k requires 0 <= k < |rows| => ArgMin(atRiskGrades[k]));
    var scores := seq(|rows|, k requires 0 <= k < |rows| => MinOf(atRiskGrades[k]));
    assert forall k :: 0 <= k < |rows| ==> scores[k] == atRiskGrades[k][weakest[k]] by {
      forall k | 0 <= k < |rows| ensures scores[k] == atRiskGrades[k][weakest[k]] {
        ArgMinIsMin(atRiskGrades[k]);
      }
    }
    AtRisk(|rows|, Gather(ids, rows), Gather(averages, rows), weakest, scores)
  }

  /** With nobody below the threshold, every result array is empty and the count is 0. */
  lemma NobodyAtRisk(ids: seq<int>, g: Matrix, threshold: real)
    requires WellShaped(g) && |ids| == |g|
    requires forall i :: 0 <= i < |g| ==> Mean(g[i]) >= threshold
    ensures var r := IdentifyAtRisk(ids, g, threshold);
      r.count == 0 && r.ids == [] && r.averages == [] && r.weakestSubjectIdx == [] && r.weakestScores == []
  {
    NoneBelow(RowMeans(g), threshold);
  }

  // ---------------------------------------------------------------------
  // Improvement tracking

  /** A student's semester-2 mean minus their semester-1 mean. */
  function Delta(row: Row): (d: real)
    requires |row| == Columns
    ensures d == (Sum(row[SemesterWidth..]) - Sum(row[..SemesterWidth])) / SemesterWidth as real
  {
    Mean(row[SemesterWidth..]) - Mean(row[..SemesterWidth])
  }

  /** `sem2_avg - sem1_avg` over all students. */
  function Deltas(g: Matrix): (d: seq<real>)
    requires WellShaped(g)
    ensures |d| == |g|
    ensures forall i :: 0 <= i < |g| ==> d[i] == Delta(g[i])
  {
    seq(|g|, i requires 0 <= i < |g| => Delta(g[i]))
  }

  datatype Movers = Movers(count: nat, ids: seq<int>, delta: seq<real>)

  datatype Improvement = Improvement(improved: Movers, declined: Movers, allDeltas: seq<real>)

  /** Students whose delta is strictly above the threshold, in row order. */
  function ImprovedRows(g: Matrix, threshold: real): (rows: seq<nat>)
    requires WellShaped(g)
    ensures StrictlyIncreasing(rows)
    ensures forall i :: i in rows <==> 0 <= i < |g| && Delta(g[i]) > threshold
  {
    IndicesAbove(Deltas(g), threshold)
  }

  /** Students whose delta is strictly below minus the threshold, in row order. */
  function DeclinedRows(g: Matrix, threshold: real): (rows: seq<nat>)
    requires WellShaped(g)
    ensures StrictlyIncreasing(rows)
    ensures forall i :: i in rows <==> 0 <= i < |g| && Delta(g[i]) < -threshold
  {
    IndicesBelow(Deltas(g), -threshold)
  }

  /** The movers picked out by a list of rows. */
  function MoversAt(ids: seq<int>, deltas: seq<real>, rows: seq<nat>): (m: Movers)
    requires |ids| == |deltas| && InRange(rows, |ids|)
    ensures m.count == |m.ids| == |m.delta| == |rows|
    ensures forall k :: 0 <= k < |rows| ==> m.ids[k] == ids[rows[k]] && m.delta[k] == deltas[rows[k]]
  {
    Movers(|rows|, Gather(ids, rows), Gather(deltas, rows))
  }

  /**
   * track_improvement: the students whose delta exceeds the threshold,
   * those whose delta is below its negation, and every delta.
   */
  function TrackImprovement(ids: seq<int>, g: Matrix, threshold: real): (r: Improvement)
    requires WellShaped(g) && |ids| == |g|
    ensures |r.allDeltas| == |g|
    ensures forall i :: 0 <= i < |g| ==> r.allDeltas[i] == Delta(g[i])
    ensures var up := ImprovedRows(g, threshold);
      && r.improved.count == |r.improved.ids| == |r.improved.delta| == |up|
      && forall k :: 0 <= k < |up| ==>
           up[k] < |g| && r.improved.ids[k] == ids[up[k]] && r.improved.delta[k] == Delta(g[up[k]]) > threshold
    ensures var down := DeclinedRows(g, threshold);
      && r.declined.count == |r.declined.ids| == |r.declined.delta| == |down|
      && forall k :: 0 <= k < |down| ==>
           down[k] < |g| && r.declined.ids[k] == ids[down[k]] && r.declined.delta[k] == Delta(g[down[k]]) < -threshold
  {
    var deltas := Deltas(g);
    var up, down := ImprovedRows(g, threshold), DeclinedRows(g, threshold);
    assert InRange(up, |g|) by {
      forall k | 0 <= k < |up| ensures up[k] < |g| { assert up[k] in up; }
    }
    assert InRange(down, |g|) by {
      forall k | 0 <= k < |down| ensures down[k] < |g| { assert down[k] in down; }
    }
    Improvement(MoversAt(ids, deltas, up), MoversAt(ids, deltas, down), deltas)
  }

  /**
   * With a non-negative threshold nobody both improved and declined, and a
   * delta exactly at +threshold or -threshold counts as neither.
   */
  lemma ImprovedAndDeclinedDisjoint(g: Matrix, threshold: real, i: nat)
    requires WellShaped(g) && threshold >= 0.0 && i < |g|
    ensures !(i in ImprovedRows(g, threshold) && i in DeclinedRows(g, threshold))
    ensures Delta(g[i]) == threshold || Delta(g[i]) == -threshold ==>
      i !in ImprovedRows(g, threshold) && i !in DeclinedRows(g, threshold)
  {
  }

  // ---------------------------------------------------------------------
  // Section comparison

  /** `sections == section`: which students belong to the section. */
  function LabelMask(sections: seq<string>, section: string): (mask: seq<bool>)
    ensures |mask| == |sections|
    ensures forall i :: 0 <= i < |sections| ==> (mask[i] <==> sections[i] == section)
  {
    seq(|sections|, i requires 0 <= i < |sections| => sections[i] == section)
  }

  /** The rows `grades[section_mask]` selects, in increasing order. */
  function SectionRows(sections: seq<string>, section: string): (rows: seq<nat>)
    ensures StrictlyIncreasing(rows)
    ensures forall k :: 0 <= k < |rows| ==> rows[k] < |sections| && sections[rows[k]] == section
    ensures forall i :: i in rows <==> 0 <= i < |sections| && sections[i] == section
  {
    MaskIndices(LabelMask(sections, section))
  }

  /** `np.sum(section_mask)`: how many students carry the section. */
  function CountLabel(sections: seq<string>, section: string): nat
  {
    if sections == [] then 0
    else
      var n := |sections| - 1;
      CountLabel(sections[..n], section) + (if sections[n] == section then 1 else 0)
  }

  /** The selected rows are exactly as many as the students carrying the section. */
  lemma {:induction false} SectionRowsCount(sections: seq<string>, section: string)
    ensures |SectionRows(sections, section)| == CountLabel(sections, section)
  {
    if sections != [] {
      var n := |sections| - 1;
      assert LabelMask(sections, section)[..n] == LabelMask(sections[..n], section);
      SectionRowsCount(sections[..n], section);
    }
  }

  /** The statistics recorded for one section. */
  datatype SectionStats = SectionStats(count: nat, avg: real, variance: real, max: real, min: real)

  /** `grades[section_mask]`: the grade rows of the section's students. */
  function SectionGrades(sections: seq<string>, g: Matrix, section: string): (sub: Matrix)
    requires WellShaped(g) && |sections| == |g|
    ensures WellShaped(sub)
    ensures |sub| == |SectionRows(sections, section)| == CountLabel(sections, section)
    ensures forall k :: 0 <= k < |sub| ==> sub[k] == g[SectionRows(sections, section)[k]]
    ensures forall i :: 0 <= i < |g| && sections[i] == section ==> g[i] in sub
    ensures forall row :: row in sub ==> exists i :: 0 <= i < |g| && sections[i] == section && g[i] == row
  {
    var rows := SectionRows(sections, section);
    SectionRowsCount(sections, section);
    assert InRange(rows, |g|);
    var sub := Gather(g, rows);
    assert forall i :: 0 <= i < |g| && sections[i] == section ==> g[i] in sub by {
      forall i | 0 <= i < |g| && sections[i] == section ensures g[i] in sub {
        assert i in rows;
        var k :| 0 <= k < |rows| && rows[k] == i;
        assert sub[k] == g[i];
      }
    }
    sub
  }

  /**
   * One entry of analyze_sections: the count, mean, spread and extremes of
   * every grade of the students in the section.
   */
  function SectionStatsOf(sections: seq<string>, g: Matrix, section: string): (s: SectionStats)
    requires WellShaped(g) && |sections| == |g| && section in sections
    ensures s.count == CountLabel(sections, section) > 0
    ensures s.avg == Sum(Flatten(SectionGrades(sections, g, section))) / (s.count * Columns) as real
    ensures s.min <= s.avg <= s.max && s.variance >= 0.0
    ensures forall i, j :: 0 <= i < |g| && sections[i] == section && 0 <= j < Columns ==>
      s.min <= g[i][j] <= s.max
    ensures exists i, j :: 0 <= i < |g| && sections[i] == section && 0 <= j < Columns && g[i][j] == s.min
    ensures exists i, j :: 0 <= i < |g| && sections[i] == section && 0 <= j < Columns && g[i][j] == s.max
  {
    var sub := SectionGrades(sections, g, section);
    var i0 :| 0 <= i0 < |sections| && sections[i0] == section;
    assert g[i0] in sub;
    var st := StatisticsCalculator.CalculateOverallStats(sub).value;
    SectionBounds(sections, g, section, sub, st.min, st.max);
    SectionAttains(sections, g, section, sub, st.min);
    SectionAttains(sections, g, section, sub, st.max);
    SectionStats(|sub|, st.avg, st.variance, st.max, st.min)
  }

  lemma SectionBounds(sections: seq<string>, g: Matrix, section: string, sub: Matrix, lo: real, hi: real)
    requires WellShaped(g) && |sections| == |g|
    requires sub == SectionGrades(sections, g, section)
    requires forall k, j :: 0 <= k < |sub| && 0 <= j < Columns ==> lo <= sub[k][j] <= hi
    ensures forall i, j :: 0 <= i < |g| && sections[i] == section && 0 <= j < Columns ==> lo <= g[i][j] <= hi
  {
    forall i, j | 0 <= i < |g| && sections[i] == section && 0 <= j < Columns
      ensures lo <= g[i][j] <= hi
    {
      assert g[i] in sub;
      var k :| 0 <= k < |sub| && sub[k] == g[i];
      assert sub[k][j] == g[i][j];
    }
  }

  lemma SectionAttains(sections: seq<string>, g: Matrix, section: string, sub: Matrix, x: real)
    requires WellShaped(g) && |sections| == |g|
    requires sub == SectionGrades(sections, g, section)
    requires exists k, j :: 0 <= k < |sub| && 0 <= j < Columns && sub[k][j] == x
    ensures exists i, j :: 0 <= i < |g| && sections[i] == section && 0 <= j < Columns && g[i][j] == x
  {
    var k, j :| 0 <= k < |sub| && 0 <= j < Columns && sub[k][j] == x;
    assert sub[k] in sub;
    var i :| 0 <= i < |g| && sections[i] == section && g[i] == sub[k];
    assert g[i][j] == x;
  }

  /**
   * analyze_sections: one entry per distinct section label, each holding
   * that section's statistics.
   */
  method AnalyzeSections(sections: seq<string>, g: Matrix) returns (stats: map<string, SectionStats>)
    requires WellShaped(g) && |sections| == |g|
    ensures forall l :: l in stats <==> l in sections
    ensures forall l :: l in stats ==> stats[l] == SectionStatsOf(sections, g, l)
  {
    var labels := Unique(sections);
    stats := map[];
    for k := 0 to |labels|
      invariant forall l :: l in stats <==> l in labels[..k]
      invariant forall l :: l in stats ==> l in sections
      invariant forall l :: l in stats ==> stats[l] == SectionStatsOf(sections, g, l)
    {
      var l := labels[k];
      assert labels[..k + 1] == labels[..k] + [l];
      var entry := SectionStatsOf(sections, g, l);
      stats := stats[l := entry];
    }
    assert labels[..|labels|] == labels;
  }

  /** How many times `section` occurs in a list of labels. */
  function Occurrences(labels: seq<string>, section: string): nat
  {
    if labels == [] then 0 else (if labels[0] == section then 1 else 0) + Occurrences(labels[1..], section)
  }

  /** The section sizes summed over a list of labels. */
  function TotalCount(labels: seq<string>, sections: seq<string>): nat
  {
    if labels == [] then 0 else CountLabel(sections, labels[0]) + TotalCount(labels[1..], sections)
  }

  lemma {:induction false} TotalCountSnoc(labels: seq<string>, sections: seq<string>, x: string)
    ensures TotalCount(labels, sections + [x]) == TotalCount(labels, sections) + Occurrences(labels, x)
  {
    if labels != [] {
      assert (sections + [x])[..|sections|] == sections;
      TotalCountSnoc(labels[1..], sections, x);
    }
  }

  lemma {:induction false} OccurrencesOfDistinct(labels: seq<string>, x: string)
    requires forall i, j :: 0 <= i < j < |labels| ==> labels[i] != labels[j]
    ensures Occurrences(labels, x) == (if x in labels then 1 else 0)
  {
    if labels != [] {
      assert forall i, j :: 0 <= i < j < |labels[1..]| ==> labels[1..][i] != labels[1..][j] by {
        forall i, j | 0 <= i < j < |labels[1..]| ensures labels[1..][i] != labels[1..][j] {
          assert labels[1..][i] == labels[i + 1] && labels[1..][j] == labels[j + 1];
        }
      }
      OccurrencesOfDistinct(labels[1..], x);
      assert labels[0] !in labels[1..] by {
        forall k | 0 <= k < |labels[1..]| ensures labels[1..][k] != labels[0] {
          assert labels[1..][k] == labels[k + 1];
        }
      }
      assert x in labels <==> x == labels[0] || x in labels[1..];
    }
  }

  /** Summed over distinct labels covering every student, the section sizes count each student once. */
  lemma {:induction false} CountsOverDistinctLabels(labels: seq<string>, sections: seq<string>)
    requires forall i, j :: 0 <= i < j < |labels| ==> labels[i] != labels[j]
    requires forall l :: l in sections ==> l in labels
    ensures TotalCount(labels, sections) == |sections|
  {
    if sections == [] {
      TotalCountEmpty(labels);
    } else {
      var n := |sections| - 1;
      assert sections == sections[..n] + [sections[n]];
      CountsOverDistinctLabels(labels, sections[..n]);
      TotalCountSnoc(labels, sections[..n], sections[n]);
      OccurrencesOfDistinct(labels, sections[n]);
    }
  }

  lemma {:induction false} TotalCountEmpty(labels: seq<string>)
    ensures TotalCount(labels, []) == 0
  {
    if labels != [] {
      TotalCountEmpty(labels[1..]);
    }
  }

  /** The counts analyze_sections reports add up to the number of students. */
  lemma SectionCountsCoverAllStudents(sections: seq<string>)
    ensures TotalCount(Unique(sections), sections) == |sections|
  {
    SortedIsDistinct(Unique(sections));
    CountsOverDistinctLabels(Unique(sections), sections);
  }
}
