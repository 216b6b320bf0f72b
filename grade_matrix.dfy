/**
 * The dataset's grade matrix: one row per student, ten columns, columns
 * 0-4 the five subjects of semester 1 and columns 5-9 the same five
 * subjects of semester 2.
 */
module GradeMatrix {
  import opened ArrayOps

  const Columns: nat := 10
  /** Columns [0, SemesterWidth) are semester 1, [SemesterWidth, Columns) semester 2. */
  const SemesterWidth: nat := 5

  type Row = seq<real>
  type Matrix = seq<Row>

  predicate WellShaped(g: Matrix)
  {
    forall i :: 0 <= i < |g| ==> |g[i]| == Columns
  }

  /** Column j, `grades[:, j]`. */
  function Column(g: Matrix, j: nat): (c: seq<real>)
    requires WellShaped(g) && j < Columns
    ensures |c| == |g|
    ensures forall i :: 0 <= i < |g| ==> c[i] == g[i][j]
  {
    if g == [] then [] else Column(g[..|g| - 1], j) + [g[|g| - 1][j]]
  }

  /** The cells of columns [lo, hi), row by row: `grades[:, lo:hi].flatten()`. */
  function Cells(g: Matrix, lo: nat, hi: nat): seq<real>
    requires WellShaped(g) && lo <= hi <= Columns
  {
    if g == [] then [] else Cells(g[..|g| - 1], lo, hi) + g[|g| - 1][lo..hi]
  }

  /** `grades.flatten()`: every cell, row-major. */
  function Flatten(g: Matrix): seq<real>
    requires WellShaped(g)
  {
    Cells(g, 0, Columns)
  }

  lemma {:induction false} CellsLength(g: Matrix, lo: nat, hi: nat)
    requires WellShaped(g) && lo <= hi <= Columns
    ensures |Cells(g, lo, hi)| == |g| * (hi - lo)
  {
    if g != [] {
      CellsLength(g[..|g| - 1], lo, hi);
      assert |g| * (hi - lo) == (|g| - 1) * (hi - lo) + (hi - lo);
    }
  }

  /** Every cell g[i][j] with lo <= j < hi is among Cells(g, lo, hi). */
  lemma {:induction false} CellIn(g: Matrix, lo: nat, hi: nat, i: nat, j: nat)
    requires WellShaped(g) && lo <= j < hi <= Columns && i < |g|
    ensures g[i][j] in Cells(g, lo, hi)
  {
    var n := |g| - 1;
    if i < n {
      CellIn(g[..n], lo, hi, i, j);
    } else {
      assert g[n][lo..hi][j - lo] == g[i][j];
    }
  }

  /** Every value in Cells(g, lo, hi) is some cell g[i][j] with lo <= j < hi. */
  lemma {:induction false} CellOrigin(g: Matrix, lo: nat, hi: nat, x: real)
    requires WellShaped(g) && lo <= hi <= Columns
    requires x in Cells(g, lo, hi)
    ensures exists i, j :: 0 <= i < |g| && lo <= j < hi && g[i][j] == x
  {
    var n := |g| - 1;
    var p := g[..n];
    if x in Cells(p, lo, hi) {
      CellOrigin(p, lo, hi, x);
      var i, j :| 0 <= i < |p| && lo <= j < hi && p[i][j] == x;
      assert g[i][j] == x;
    } else {
      var r := g[n][lo..hi];
      var k :| 0 <= k < |r| && r[k] == x;
      assert g[n][lo + k] == x;
    }
  }

  /** Splitting off the last column of a block: its cells sum to the rest plus that column. */
  lemma {:induction false} CellsSumLastColumn(g: Matrix, lo: nat, hi: nat)
    requires WellShaped(g) && lo < hi <= Columns
    ensures Sum(Cells(g, lo, hi)) == Sum(Cells(g, lo, hi - 1)) + Sum(Column(g, hi - 1))
  {
    if g != [] {
      var n := |g| - 1;
      var p := g[..n];
      var r := g[n];
      CellsSumLastColumn(p, lo, hi);
      SumConcat(Cells(p, lo, hi), r[lo..hi]);
      SumConcat(Cells(p, lo, hi - 1), r[lo..hi - 1]);
      assert r[lo..hi][..|r[lo..hi]| - 1] == r[lo..hi - 1];
      assert g[..|g| - 1] == p;
    }
  }

  /** An empty column range holds no cells. */
  lemma EmptyBlock(g: Matrix, lo: nat)
    requires WellShaped(g) && lo <= Columns
    ensures Cells(g, lo, lo) == []
  {
    CellsLength(g, lo, lo);
  }
}
