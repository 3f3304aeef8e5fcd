/**
 Step 4 of the pipeline: `remove_outliers`. The numeric columns are fixed once,
 at entry. For each of them in column order, Q1 and Q3 are taken over the present
 values of that column in the table as already filtered by the earlier columns,
 and every row whose value lies outside the inclusive fence
 [Q1 − k·IQR, Q3 + k·IQR] is dropped as a whole. A missing value compares false
 with both bounds, so its row is dropped too; an all-missing column has NaN
 quartiles and drops every row.
 */
module Outliers {
  import opened DataModel
  import opened Stats

  /** The fence of one column: undefined (NaN bounds) when the column has no
      present value, otherwise an inclusive interval. */
  datatype Fence = NoFence | Bounds(lower: real, upper: real)

  /** `(df[col] >= lower) & (df[col] <= upper)` for one cell. */
  predicate Admits(f: Fence, c: Cell)
    ensures Admits(f, c) ==> f.Bounds? && c.Present? && c.v.Num?
  {
    match f
    case NoFence => false
    case Bounds(lower, upper) => c.Present? && c.v.Num? && lower <= c.v.x <= upper
  }

  /** Q1 and Q3 of the present values of a column, by linear interpolation. */
  function FirstQuartile(xs: seq<real>): (q1: real)
    requires |xs| > 0
    ensures Min(xs) <= q1 <= Max(xs)
  {
    QuantileWithinRange(xs, 1, 4);
    Quantile(xs, 1, 4)
  }

  function ThirdQuartile(xs: seq<real>): (q3: real)
    requires |xs| > 0
    ensures FirstQuartile(xs) <= q3 <= Max(xs)
  {
    QuantileWithinRange(xs, 3, 4);
    QuantileMonotone(xs, 1, 3, 4);
    Quantile(xs, 3, 4)
  }

  /** The fence `remove_outliers` computes for a column with threshold `k`. */
  function ColumnFence(col: seq<Cell>, k: real): (f: Fence)
    ensures f.Bounds? <==> |PresentReals(col)| > 0
  {
    var xs := PresentReals(col);
    if |xs| == 0 then NoFence
    else
      Widened(FirstQuartile(xs), ThirdQuartile(xs), k)
  }

  /** `Q1 - k * IQR, Q3 + k * IQR` */
  function Widened(q1: real, q3: real, k: real): (f: Fence)
    ensures f.Bounds? && f.lower + f.upper == q1 + q3
    ensures f.upper - f.lower == (1.0 + 2.0 * k) * (q3 - q1)
    ensures 0.0 <= k && q1 <= q3 ==> f.lower <= q1 && q3 <= f.upper
  {
    var iqr := q3 - q1;
    Bounds(q1 - k * iqr, q3 + k * iqr)
  }

  /** With a non-negative threshold a value between the quartiles of its
      column is never removed. */
  lemma BetweenQuartilesIsKept(col: seq<Cell>, k: real, i: nat)
    requires 0.0 <= k && i < |col| && col[i].Present? && col[i].v.Num?
    ensures var xs := PresentReals(col);
            |xs| > 0 &&
            (FirstQuartile(xs) <= col[i].v.x <= ThirdQuartile(xs) ==> Admits(ColumnFence(col, k), col[i]))
  {
    var x := col[i].v.x;
    PresentRealsMembers(col);
    var xs := PresentReals(col);
    assert x in xs by {
      assert Present(Num(x)) in col;
    }
    var q1, q3 := FirstQuartile(xs), ThirdQuartile(xs);
    assert ColumnFence(col, k) == Widened(q1, q3, k);
  }

  /** The rows whose cell in column `j` the fence admits, in their original order
      (`df[mask]`). */
  function KeepAdmitted(rows: seq<Row>, width: nat, j: nat, f: Fence): (r: seq<Row>)
    requires Rectangular(rows, width) && j < width
    ensures |r| <= |rows| && Rectangular(r, width)
  {
    if |rows| == 0 then []
    else
      var init, last := rows[..|rows| - 1], rows[|rows| - 1];
      KeepAdmitted(init, width, j, f) + (if Admits(f, last[j]) then [last] else [])
  }

  /** A fence that admits every row's cell keeps every row. */
  lemma {:induction false} KeepAdmittedKeepsAll(rows: seq<Row>, width: nat, j: nat, f: Fence)
    requires Rectangular(rows, width) && j < width
    requires forall i :: 0 <= i < |rows| ==> Admits(f, rows[i][j])
    ensures KeepAdmitted(rows, width, j, f) == rows
  {
    if |rows| > 0 {
      KeepAdmittedKeepsAll(rows[..|rows| - 1], width, j, f);
      assert rows == rows[..|rows| - 1] + [rows[|rows| - 1]];
    }
  }

  /** The mask drops nothing exactly when the fence admits every row's cell. */
  lemma {:induction false} KeepAdmittedKeepsAllIff(rows: seq<Row>, width: nat, j: nat, f: Fence)
    requires Rectangular(rows, width) && j < width
    ensures |KeepAdmitted(rows, width, j, f)| == |rows| <==> forall i :: 0 <= i < |rows| ==> Admits(f, rows[i][j])
  {
    if |rows| > 0 {
      var init := rows[..|rows| - 1];
      KeepAdmittedKeepsAllIff(init, width, j, f);
      assert forall i :: 0 <= i < |init| ==> init[i] == rows[i];
    }
  }

  /** Every listed column index is below `width`. */
  predicate ColumnsBelow(cols: seq<nat>, width: nat) {
    forall s :: 0 <= s < |cols| ==> cols[s] < width
  }

  /** `df.select_dtypes(include=[np.number]).columns`: the numeric column
      positions, in column order. */
  function NumericColumns(kinds: seq<Kind>): (r: seq<nat>)
    ensures ColumnsBelow(r, |kinds|)
    ensures forall s :: 0 <= s < |r| ==> kinds[r[s]] == Numeric
    ensures forall j :: 0 <= j < |kinds| && kinds[j] == Numeric ==> j in r
    ensures forall s, u :: 0 <= s < u < |r| ==> r[s] < r[u]
  {
    if |kinds| == 0 then []
    else
      var init := NumericColumns(kinds[..|kinds| - 1]);
      init + (if kinds[|kinds| - 1] == Numeric then [|kinds| - 1] else [])
  }

  /** There is no column to sweep exactly when no column is numeric. */
  lemma {:induction false} NoNumericColumns(kinds: seq<Kind>)
    ensures NumericColumns(kinds) == [] <==> forall j :: 0 <= j < |kinds| ==> kinds[j] != Numeric
  {
    if |kinds| > 0 {
      NoNumericColumns(kinds[..|kinds| - 1]);
    }
  }

  /** How a fence is derived from the cells of a column. The sweep below is
      stated for any such rule; `remove_outliers` uses `QuartileFence(k)`. */
  type FenceRule = seq<Cell> -> Fence

  function QuartileFence(k: real): FenceRule {
    col => ColumnFence(col, k)
  }

  /** The rows left after filtering column by column through `cols`, each fence
      computed on the rows the previous columns left. */
  function Sweep(rows: seq<Row>, width: nat, cols: seq<nat>, fenceOf: FenceRule): (r: seq<Row>)
    requires Rectangular(rows, width) && ColumnsBelow(cols, width)
    ensures |r| <= |rows| && Rectangular(r, width)
  {
    if |cols| == 0 then rows
    else
      var prev := Sweep(rows, width, cols[..|cols| - 1], fenceOf);
      var j := cols[|cols| - 1];
      KeepAdmitted(prev, width, j, fenceOf(Column(prev, j)))
  }

  /** The filter keeps exactly the rows whose cell in column `j` the fence admits. */
  lemma {:induction false} KeepAdmittedMembers(rows: seq<Row>, width: nat, j: nat, f: Fence)
    requires Rectangular(rows, width) && j < width
    ensures forall row :: row in KeepAdmitted(rows, width, j, f) <==> row in rows && Admits(f, row[j])
  {
    if |rows| > 0 {
      var init, last := rows[..|rows| - 1], rows[|rows| - 1];
      KeepAdmittedMembers(init, width, j, f);
      assert rows == init + [last];
    }
  }

  /** The fence of each column in `cols`, as computed on the table the earlier
      columns left behind. */
  function Fences(rows: seq<Row>, width: nat, cols: seq<nat>, fenceOf: FenceRule): (r: seq<Fence>)
    requires Rectangular(rows, width) && ColumnsBelow(cols, width)
    ensures |r| == |cols|
  {
    seq(|cols|, s requires 0 <= s < |cols| =>
      var prev := Sweep(rows, width, cols[..s], fenceOf);
      fenceOf(Column(prev, cols[s])))
  }

  /** The row is admitted by every fence, each on its own column. */
  predicate AdmittedByAll(row: Row, cols: seq<nat>, fences: seq<Fence>)
    requires |cols| == |fences| && ColumnsBelow(cols, |row|)
  {
    forall s :: 0 <= s < |cols| ==> Admits(fences[s], row[cols[s]])
  }

  /** A single pass over the rows keeping those every fence admits. */
  function KeepAdmittedByAll(rows: seq<Row>, width: nat, cols: seq<nat>, fences: seq<Fence>): (r: seq<Row>)
    requires Rectangular(rows, width) && ColumnsBelow(cols, width) && |cols| == |fences|
    ensures |r| <= |rows| && Rectangular(r, width)
  {
    if |rows| == 0 then []
    else
      var init, last := rows[..|rows| - 1], rows[|rows| - 1];
      KeepAdmittedByAll(init, width, cols, fences) + (if AdmittedByAll(last, cols, fences) then [last] else [])
  }

  /** The single pass keeps exactly the rows every fence admits. */
  lemma {:induction false} KeepAdmittedByAllMembers(rows: seq<Row>, width: nat, cols: seq<nat>, fences: seq<Fence>)
    requires Rectangular(rows, width) && ColumnsBelow(cols, width) && |cols| == |fences|
    ensures forall row :: row in KeepAdmittedByAll(rows, width, cols, fences) <==>
              row in rows && |row| == width && AdmittedByAll(row, cols, fences)
  {
    if |rows| > 0 {
      var init, last := rows[..|rows| - 1], rows[|rows| - 1];
      KeepAdmittedByAllMembers(init, width, cols, fences);
      assert rows == init + [last];
    }
  }

  /** When no row passes every fence, the single pass keeps nothing. */
  lemma {:induction false} KeepNone(rows: seq<Row>, width: nat, cols: seq<nat>, fences: seq<Fence>)
    requires Rectangular(rows, width) && ColumnsBelow(cols, width) && |cols| == |fences|
    requires forall i :: 0 <= i < |rows| ==> !AdmittedByAll(rows[i], cols, fences)
    ensures KeepAdmittedByAll(rows, width, cols, fences) == []
  {
    if |rows| > 0 {
      KeepNone(rows[..|rows| - 1], width, cols, fences);
    }
  }

  /** With no fences, the single pass keeps every row. */
  lemma {:induction false} KeepEverything(rows: seq<Row>, width: nat, cols: seq<nat>, fences: seq<Fence>)
    requires Rectangular(rows, width) && |cols| == 0 && |fences| == 0
    ensures KeepAdmittedByAll(rows, width, cols, fences) == rows
  {
    if |rows| > 0 {
      KeepEverything(rows[..|rows| - 1], width, cols, fences);
      assert rows == rows[..|rows| - 1] + [rows[|rows| - 1]];
    }
  }

  /** Filtering by one more fence after a single pass is the single pass with
      that fence added. */
  lemma {:induction false} FilterComposes(rows: seq<Row>, width: nat, cols: seq<nat>, fences: seq<Fence>, j: nat, f: Fence)
    requires Rectangular(rows, width) && ColumnsBelow(cols, width) && |cols| == |fences| && j < width
    ensures KeepAdmitted(KeepAdmittedByAll(rows, width, cols, fences), width, j, f)
         == KeepAdmittedByAll(rows, width, cols + [j], fences + [f])
  {
    if |rows| > 0 {
      var init, last := rows[..|rows| - 1], rows[|rows| - 1];
      var cj, fj := cols + [j], fences + [f];
      FilterComposes(init, width, cols, fences, j, f);
      assert AdmittedByAll(last, cj, fj) <==> AdmittedByAll(last, cols, fences) && Admits(f, last[j]) by {
        assert forall s :: 0 <= s < |cols| ==> cj[s] == cols[s] && fj[s] == fences[s];
        assert cj[|cols|] == j && fj[|cols|] == f;
      }
      var prev := KeepAdmittedByAll(init, width, cols, fences);
      assert KeepAdmittedByAll(rows, width, cols, fences) == prev + (if AdmittedByAll(last, cols, fences) then [last] else []);
      assert KeepAdmittedByAll(rows, width, cj, fj)
          == KeepAdmittedByAll(init, width, cj, fj) + (if AdmittedByAll(last, cj, fj) then [last] else []);
      if AdmittedByAll(last, cols, fences) {
        var p := prev + [last];
        assert p[..|p| - 1] == prev;
        assert KeepAdmitted(p, width, j, f) == KeepAdmitted(prev, width, j, f) + (if Admits(f, last[j]) then [last] else []);
      } else {
        assert KeepAdmittedByAll(rows, width, cols, fences) == prev;
        assert KeepAdmittedByAll(rows, width, cj, fj) == KeepAdmittedByAll(init, width, cj, fj);
      }
    }
  }

  /** Cumulative filtering keeps exactly the rows of the input that every fence
      admits, in their original order: the sweep is one filter pass over the
      input with the fences computed along the way. */
  lemma {:induction false} SweepIsSinglePassFilter(rows: seq<Row>, width: nat, cols: seq<nat>, fenceOf: FenceRule)
    requires Rectangular(rows, width) && ColumnsBelow(cols, width)
    ensures Sweep(rows, width, cols, fenceOf) == KeepAdmittedByAll(rows, width, cols, Fences(rows, width, cols, fenceOf))
  {
    if |cols| == 0 {
      KeepEverything(rows, width, cols, Fences(rows, width, cols, fenceOf));
    } else {
      var init, j := cols[..|cols| - 1], cols[|cols| - 1];
      assert cols == init + [j];
      SweepIsSinglePassFilter(rows, width, init, fenceOf);
      var fs := Fences(rows, width, cols, fenceOf);
      var prev := Sweep(rows, width, init, fenceOf);
      assert fs == Fences(rows, width, init, fenceOf) + [fenceOf(Column(prev, j))] by {
        forall s | 0 <= s < |init|
          ensures cols[..s] == init[..s]
        {
        }
      }
      FilterComposes(rows, width, init, Fences(rows, width, init, fenceOf), j, fenceOf(Column(prev, j)));
    }
  }

  /** One more column of the sweep filters the rows the earlier columns left. */
  lemma SweepStep(rows: seq<Row>, width: nat, cols: seq<nat>, s: nat, fenceOf: FenceRule)
    requires Rectangular(rows, width) && ColumnsBelow(cols, width) && s < |cols|
    ensures var prev := Sweep(rows, width, cols[..s], fenceOf);
            Sweep(rows, width, cols[..s + 1], fenceOf) == KeepAdmitted(prev, width, cols[s], fenceOf(Column(prev, cols[s])))
  {
    var c := cols[..s + 1];
    assert c[..|c| - 1] == cols[..s];
  }

  /** The number of rows the sweep drops at its `s`-th column
      (`before - len(df)`). */
  function Dropped(rows: seq<Row>, width: nat, cols: seq<nat>, s: nat, fenceOf: FenceRule): (d: nat)
    requires Rectangular(rows, width) && ColumnsBelow(cols, width) && s < |cols|
    ensures var prev := Sweep(rows, width, cols[..s], fenceOf);
            && d <= |prev|
            && (d == 0 <==> forall i :: 0 <= i < |prev| ==> Admits(fenceOf(Column(prev, cols[s])), prev[i][cols[s]]))
  {
    SweepStep(rows, width, cols, s, fenceOf);
    var prev := Sweep(rows, width, cols[..s], fenceOf);
    KeepAdmittedKeepsAllIff(prev, width, cols[s], fenceOf(Column(prev, cols[s])));
    |prev| - |Sweep(rows, width, cols[..s + 1], fenceOf)|
  }

  /** The count each column of the sweep drops, in column order. */
  function Removed(rows: seq<Row>, width: nat, cols: seq<nat>, fenceOf: FenceRule): (r: seq<nat>)
    requires Rectangular(rows, width) && ColumnsBelow(cols, width)
    ensures |r| == |cols|
    ensures forall s :: 0 <= s < |cols| ==> r[s] <= |rows|
  {
    seq(|cols|, s requires 0 <= s < |cols| => Dropped(rows, width, cols, s, fenceOf))
  }

  function Total(xs: seq<nat>): nat {
    if |xs| == 0 then 0 else Total(xs[..|xs| - 1]) + xs[|xs| - 1]
  }

  /** The counts add up to the rows the whole sweep removed. */
  lemma {:induction false} RemovedCountsAddUp(rows: seq<Row>, width: nat, cols: seq<nat>, fenceOf: FenceRule)
    requires Rectangular(rows, width) && ColumnsBelow(cols, width)
    ensures Total(Removed(rows, width, cols, fenceOf)) == |rows| - |Sweep(rows, width, cols, fenceOf)|
  {
    if |cols| > 0 {
      var n := |cols| - 1;
      var init := cols[..n];
      RemovedCountsAddUp(rows, width, init, fenceOf);
      var r := Removed(rows, width, cols, fenceOf);
      RemovedOfPrefix(rows, width, cols, n, fenceOf);
      assert r[..|r| - 1] == Removed(rows, width, init, fenceOf);
      assert r[n] == |Sweep(rows, width, init, fenceOf)| - |Sweep(rows, width, cols[..n + 1], fenceOf)|;
      assert cols[..n + 1] == cols;
    }
  }

  /** The counts of a prefix of the columns are the prefix of the counts. */
  lemma RemovedOfPrefix(rows: seq<Row>, width: nat, cols: seq<nat>, n: nat, fenceOf: FenceRule)
    requires Rectangular(rows, width) && ColumnsBelow(cols, width) && n <= |cols|
    ensures Removed(rows, width, cols, fenceOf)[..n] == Removed(rows, width, cols[..n], fenceOf)
  {
    var init := cols[..n];
    forall u | 0 <= u < n
      ensures Removed(rows, width, cols, fenceOf)[u] == Removed(rows, width, init, fenceOf)[u]
    {
      assert cols[..u] == init[..u] && cols[..u + 1] == init[..u + 1];
    }
  }

  /** The table `remove_outliers` returns. */
  function OutliersRemoved(t: Table, k: real): (r: Table)
    requires Rectangular(t.rows, |t.kinds|)
    ensures r.kinds == t.kinds && |r.rows| <= |t.rows| && Rectangular(r.rows, |r.kinds|)
  {
    Table(t.kinds, Sweep(t.rows, |t.kinds|, NumericColumns(t.kinds), QuartileFence(k)))
  }

  /** A row survives exactly when it is an input row whose value in every numeric
      column lies inside that column's fence, and the fence of each numeric
      column is the quartile fence of that column in the table as it stood when
      the column was processed. */
  lemma SurvivorsAreAdmittedByAllFences(t: Table, k: real)
    requires Rectangular(t.rows, |t.kinds|)
    ensures var cols := NumericColumns(t.kinds);
            var fences := Fences(t.rows, |t.kinds|, cols, QuartileFence(k));
            && (forall s :: 0 <= s < |cols| ==>
                  fences[s] == ColumnFence(Column(Sweep(t.rows, |t.kinds|, cols[..s], QuartileFence(k)), cols[s]), k))
            && (forall row :: row in OutliersRemoved(t, k).rows <==>
                  row in t.rows && |row| == |t.kinds| && AdmittedByAll(row, cols, fences))
  {
    var cols := NumericColumns(t.kinds);
    var fences := Fences(t.rows, |t.kinds|, cols, QuartileFence(k));
    forall s | 0 <= s < |cols|
      ensures fences[s] == ColumnFence(Column(Sweep(t.rows, |t.kinds|, cols[..s], QuartileFence(k)), cols[s]), k)
    {
    }
    assert forall row :: row in OutliersRemoved(t, k).rows <==>
             row in t.rows && |row| == |t.kinds| && AdmittedByAll(row, cols, fences) by {
      SweepIsSinglePassFilter(t.rows, |t.kinds|, cols, QuartileFence(k));
      KeepAdmittedByAllMembers(t.rows, |t.kinds|, cols, fences);
    }
  }

  /** Outlier removal keeps the frame well typed: it only drops rows. */
  lemma OutliersRemovedWellTyped(t: Table, k: real)
    requires WellTyped(t)
    ensures WellTyped(OutliersRemoved(t, k))
  {
    var r := OutliersRemoved(t, k).rows;
    SurvivorsAreAdmittedByAllFences(t, k);
    forall i, j | 0 <= i < |r| && 0 <= j < |t.kinds|
      ensures Fits(t.kinds[j], r[i][j])
    {
      assert r[i] in r;
    }
  }

  /** No surviving row has a missing value in a numeric column. */
  lemma SurvivorsHaveNoMissingNumber(t: Table, k: real)
    requires Rectangular(t.rows, |t.kinds|)
    ensures var r := OutliersRemoved(t, k).rows;
            forall i, j :: 0 <= i < |r| && 0 <= j < |t.kinds| && t.kinds[j] == Numeric ==> r[i][j].Present?
  {
    var r: seq<Row> := OutliersRemoved(t, k).rows;
    var cols := NumericColumns(t.kinds);
    var fences := Fences(t.rows, |t.kinds|, cols, QuartileFence(k));
    SurvivorsAreAdmittedByAllFences(t, k);
    forall i, j | 0 <= i < |r| && 0 <= j < |t.kinds| && t.kinds[j] == Numeric
      ensures r[i][j].Present?
    {
      assert r[i] in r;
      var s :| 0 <= s < |cols| && cols[s] == j;
      assert Admits(fences[s], r[i][cols[s]]);
    }
  }

  /** A numeric column with no present value empties the table. */
  lemma AllMissingNumericColumnEmptiesTable(t: Table, k: real, j: nat)
    requires Rectangular(t.rows, |t.kinds|)
    requires j < |t.kinds| && t.kinds[j] == Numeric
    requires forall i :: 0 <= i < |t.rows| ==> t.rows[i][j].Missing?
    ensures OutliersRemoved(t, k).rows == []
  {
    var cols := NumericColumns(t.kinds);
    var fences := Fences(t.rows, |t.kinds|, cols, QuartileFence(k));
    var s :| 0 <= s < |cols| && cols[s] == j;
    forall i | 0 <= i < |t.rows|
      ensures !AdmittedByAll(t.rows[i], cols, fences)
    {
      assert !Admits(fences[s], t.rows[i][cols[s]]);
    }
    SweepIsSinglePassFilter(t.rows, |t.kinds|, cols, QuartileFence(k));
    KeepNone(t.rows, |t.kinds|, cols, fences);
  }

  /** One iteration of `remove_outliers`: the fence of column `col` on the
      current rows, the boolean mask applied row by row, and how many rows it
      dropped (`before - len(df)`). */
  method FilterColumn(rows: seq<Row>, width: nat, col: nat, fenceOf: FenceRule) returns (kept: seq<Row>, dropped: nat)
    requires Rectangular(rows, width) && col < width
    ensures kept == KeepAdmitted(rows, width, col, fenceOf(Column(rows, col)))
    ensures forall row :: row in kept <==> row in rows && Admits(fenceOf(Column(rows, col)), row[col])
    ensures dropped == |rows| - |kept|
  {
    var fence := fenceOf(Column(rows, col));
    var before := |rows|;
    kept := [];
    for i := 0 to |rows|
      invariant kept == KeepAdmitted(rows[..i], width, col, fence)
    {
      assert rows[..i + 1][..i] == rows[..i];
      if Admits(fence, rows[i][col]) {
        kept := kept + [rows[i]];
      }
    }
    assert rows[..|rows|] == rows;
    KeepAdmittedMembers(rows, width, col, fence);
    dropped := before - |kept|;
  }

  /** The loop of `remove_outliers` over the given columns: the table is
      reassigned to its filtered copy and the rows each column drops counted. */
  method SweepColumns(rows: seq<Row>, width: nat, cols: seq<nat>, fenceOf: FenceRule) returns (swept: seq<Row>, removed: seq<nat>)
    requires Rectangular(rows, width) && ColumnsBelow(cols, width)
    ensures swept == Sweep(rows, width, cols, fenceOf)
    ensures removed == Removed(rows, width, cols, fenceOf)
  {
    swept, removed := rows, [];
    for s := 0 to |cols|
      invariant swept == Sweep(rows, width, cols[..s], fenceOf)
      invariant |removed| == s && forall u :: 0 <= u < s ==> removed[u] == Dropped(rows, width, cols, u, fenceOf)
    {
      SweepStep(rows, width, cols, s, fenceOf);
      var dropped;
      swept, dropped := FilterColumn(swept, width, cols[s], fenceOf);
      removed := removed + [dropped];
    }
    assert cols[..|cols|] == cols;
  }

  /** `remove_outliers(df)`: the numeric columns are fixed at entry, then swept
      in column order with the quartile fence. */
  method RemoveOutliers(t: Table, k: real) returns (r: Table, removed: seq<nat>)
    requires WellTyped(t)
    ensures r == OutliersRemoved(t, k)
    ensures removed == Removed(t.rows, |t.kinds|, NumericColumns(t.kinds), QuartileFence(k))
  {
    var numCols := NumericColumns(t.kinds);
    var rows;
    rows, removed := SweepColumns(t.rows, |t.kinds|, numCols, QuartileFence(k));
    r := Table(t.kinds, rows);
  }
}
