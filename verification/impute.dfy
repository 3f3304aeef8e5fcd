/**
 Step 2 of the pipeline: `handle_missing_values`. Each column that has a missing
 cell is filled according to its kind: numeric columns with the median of their
 present values, datetime columns by carrying the last present value forward,
 all other columns with their mode. Columns are handled one at a time and
 independently of each other.
 */
module Impute {
  import opened DataModel
  import opened Stats

  /** `isnull().sum()`: how many cells are missing. */
  function CountMissing(col: seq<Cell>): (n: nat)
    ensures n <= |col|
    ensures n == 0 <==> Missing !in col
  {
    if |col| == 0 then 0
    else
      assert col == [col[0]] + col[1..];
      (if col[0].Missing? then 1 else 0) + CountMissing(col[1..])
  }

  /** `isnull().sum() > 0` */
  predicate HasMissing(col: seq<Cell>)
    ensures HasMissing(col) <==> Missing in col
  {
    CountMissing(col) > 0
  }

  /** `fillna(fill)`: every missing cell becomes `fill`, every other cell stays. */
  function FillMissing(col: seq<Cell>, fill: Cell): (r: seq<Cell>)
    ensures |r| == |col|
    ensures forall i :: 0 <= i < |col| && col[i].Present? ==> r[i] == col[i]
    ensures fill.Present? ==> !HasMissing(r)
  {
    seq(|col|, i requires 0 <= i < |col| => if col[i].Missing? then fill else col[i])
  }

  /** The position of the last present cell, or −1 when every cell is missing. */
  function LastPresentIndex(col: seq<Cell>): (p: int)
    ensures -1 <= p < |col|
    ensures p >= 0 ==> col[p].Present?
    ensures forall j :: p < j < |col| ==> col[j].Missing?
  {
    if |col| == 0 then -1
    else if col[|col| - 1].Present? then |col| - 1
    else LastPresentIndex(col[..|col| - 1])
  }

  /** The value forward-fill gives row `i`: the nearest present cell at or above
      it, or missing when there is none. */
  function NearestAtOrAbove(col: seq<Cell>, i: nat): Cell
    requires i < |col|
  {
    var p := LastPresentIndex(col[..i + 1]);
    if p < 0 then Missing else col[p]
  }

  /** `fillna(method='ffill')`: a missing cell takes the value just filled above it. */
  function FillForward(col: seq<Cell>): (r: seq<Cell>)
    ensures |r| == |col|
    ensures |col| > 0 ==> r[0] == col[0]
  {
    if |col| == 0 then []
    else
      var above := FillForward(col[..|col| - 1]);
      var last := col[|col| - 1];
      above + [if last.Present? || |above| == 0 then last else above[|above| - 1]]
  }

  /** Forward-fill gives every row the nearest present value at or above it;
      rows above the first present value stay missing. */
  lemma {:induction false} FillForwardTakesNearestPrecedingValue(col: seq<Cell>)
    ensures forall i :: 0 <= i < |col| ==> FillForward(col)[i] == NearestAtOrAbove(col, i)
  {
    if |col| > 0 {
      var n := |col|;
      var init := col[..n - 1];
      FillForwardTakesNearestPrecedingValue(init);
      forall i | 0 <= i < n
        ensures FillForward(col)[i] == NearestAtOrAbove(col, i)
      {
        if i < n - 1 {
          assert col[..i + 1] == init[..i + 1];
        } else if col[n - 1].Missing? && n > 1 {
          assert col[..n][..n - 1] == init[..n - 2 + 1];
        }
      }
    }
  }

  /** Forward-fill leaves present cells alone and only ever copies present cells. */
  lemma FillForwardKeepsPresentCells(col: seq<Cell>)
    ensures forall i :: 0 <= i < |col| && col[i].Present? ==> FillForward(col)[i] == col[i]
    ensures forall i :: 0 <= i < |col| ==> FillForward(col)[i] == Missing || FillForward(col)[i] in col
  {
    FillForwardTakesNearestPrecedingValue(col);
    forall i | 0 <= i < |col| && col[i].Present?
      ensures LastPresentIndex(col[..i + 1]) == i
    {
    }
  }

  /** What `handle_missing_values` does to one column of the given kind. */
  function ImputeColumn(kind: Kind, col: seq<Cell>): (r: seq<Cell>)
    ensures |r| == |col|
    ensures forall i :: 0 <= i < |col| && col[i].Present? ==> r[i] == col[i]
    ensures !HasMissing(col) ==> r == col
    ensures ColumnFits(kind, col) ==> ColumnFits(kind, r)
  {
    if !HasMissing(col) then col
    else
      match kind
      case Numeric =>
        var xs := PresentReals(col);
        if |xs| == 0 then col else FillMissing(col, Present(Num(Median(xs))))
      case Temporal =>
        FillForwardKeepsPresentCells(col);
        FillForward(col)
      case Categorical =>
        var codes := PresentCodes(col);
        if |codes| == 0 then col else FillMissing(col, Present(Text(Mode(codes))))
  }

  /** A numeric column with a missing cell and at least one number gets every
      missing cell set to the median of its numbers, which lies between their
      minimum and maximum, and has no missing cell afterwards. With no number at
      all the median is NaN and the column is left as it was. */
  lemma MedianFillsNumericColumn(col: seq<Cell>)
    ensures var xs, r := PresentReals(col), ImputeColumn(Numeric, col);
            && (|xs| == 0 ==> r == col)
            && (|xs| > 0 ==>
                  && !HasMissing(r)
                  && Min(xs) <= Median(xs) <= Max(xs)
                  && forall i :: 0 <= i < |col| && col[i].Missing? ==> r[i] == Present(Num(Median(xs))))
  {
    var xs := PresentReals(col);
    if |xs| > 0 {
      MedianWithinRange(xs);
    }
  }

  /** A text column with a missing cell and at least one value gets every missing
      cell set to its most frequent value, the smallest one on a tie, and has no
      missing cell afterwards. */
  lemma ModeFillsTextColumn(col: seq<Cell>)
    requires |PresentCodes(col)| > 0
    ensures var r := ImputeColumn(Categorical, col);
            && !HasMissing(r)
            && forall i :: 0 <= i < |col| && col[i].Missing? ==>
                 r[i].Present? && r[i].v.Text? && IsSmallestMode(PresentCodes(col), r[i].v.code)
  {
  }

  /** The nearest present cell at or above row `i` is missing exactly when every
      cell down to row `i` is, and otherwise is a present cell with only missing
      cells between it and row `i`. */
  lemma NearestAtOrAboveSpec(col: seq<Cell>, i: nat)
    requires i < |col|
    ensures var c := NearestAtOrAbove(col, i);
            && (c.Missing? <==> forall j :: 0 <= j <= i ==> col[j].Missing?)
            && (c.Present? ==> exists j :: 0 <= j <= i && c == col[j] && forall k :: j < k <= i ==> col[k].Missing?)
  {
    var pre := col[..i + 1];
    var p := LastPresentIndex(pre);
    assert forall j :: 0 <= j <= i ==> pre[j] == col[j];
    if p >= 0 {
      assert col[p] == pre[p];
    }
  }

  /** A datetime column is forward-filled: a cell ends up missing exactly when it
      and every cell above it were missing, and otherwise holds the nearest present
      value at or above it. */
  lemma ForwardFillsTemporalColumn(col: seq<Cell>)
    ensures var r := ImputeColumn(Temporal, col);
            forall i :: 0 <= i < |col| ==>
              && (r[i].Missing? <==> forall j :: 0 <= j <= i ==> col[j].Missing?)
              && (r[i].Present? ==> exists j :: 0 <= j <= i && r[i] == col[j] && forall k :: j < k <= i ==> col[k].Missing?)
  {
    FillForwardTakesNearestPrecedingValue(col);
    var r := ImputeColumn(Temporal, col);
    forall i | 0 <= i < |col|
      ensures (r[i].Missing? <==> forall j :: 0 <= j <= i ==> col[j].Missing?)
      ensures (r[i].Present? ==> exists j :: 0 <= j <= i && r[i] == col[j] && forall k :: j < k <= i ==> col[k].Missing?)
    {
      if HasMissing(col) {
        NearestAtOrAboveSpec(col, i);
      } else {
        assert col[i] != Missing;
      }
    }
  }

  /** The frame after `handle_missing_values`: each column imputed on its own. */
  function Imputed(t: Table): (r: Table)
    requires Rectangular(t.rows, |t.kinds|)
    ensures r.kinds == t.kinds && |r.rows| == |t.rows| && Rectangular(r.rows, |r.kinds|)
    ensures forall j :: 0 <= j < |t.kinds| ==> Column(r.rows, j) == ImputeColumn(t.kinds[j], Column(t.rows, j))
    ensures WellTyped(t) ==> WellTyped(r)
  {
    var cols := seq(|t.kinds|, j requires 0 <= j < |t.kinds| => ImputeColumn(t.kinds[j], Column(t.rows, j)));
    var r := Table(t.kinds, FromColumns(cols, |t.rows|));
    WellTypedByColumns(t);
    WellTypedByColumns(r);
    r
  }

  /** `fillna(fill, inplace=True)`: the cells are visited in order and each
      missing one is overwritten with `fill`. */
  method FillGaps(col: seq<Cell>, fill: Cell) returns (r: seq<Cell>)
    ensures r == FillMissing(col, fill)
  {
    r := col;
    for i := 0 to |col|
      invariant |r| == |col|
      invariant forall j :: 0 <= j < i ==> r[j] == (if col[j].Missing? then fill else col[j])
      invariant forall j :: i <= j < |col| ==> r[j] == col[j]
    {
      if col[i].Missing? {
        r := r[i := fill];
      }
    }
  }

  /** `fillna(method='ffill', inplace=True)`: the cells are visited in order and
      each missing one takes the value just settled above it. */
  method ForwardFill(col: seq<Cell>) returns (r: seq<Cell>)
    ensures r == FillForward(col)
  {
    r := col;
    for i := 0 to |col|
      invariant |r| == |col|
      invariant r[..i] == FillForward(col[..i])
      invariant r[i..] == col[i..]
    {
      var c := col[..i + 1];
      assert c[..|c| - 1] == col[..i] && c[|c| - 1] == col[i];
      assert r[i] == col[i] by { assert r[i..][0] == col[i..][0]; }
      if col[i].Missing? && i > 0 {
        r := r[i := r[i - 1]];
      }
      assert r[..i + 1] == r[..i] + [r[i]];
    }
    assert col[..|col|] == col;
  }

  /** The body of the loop in `handle_missing_values` for one column: nothing
      when no cell is missing, otherwise the `fillna` its dtype selects. */
  method FillColumn(kind: Kind, col: seq<Cell>) returns (r: seq<Cell>)
    ensures r == ImputeColumn(kind, col)
  {
    r := col;
    if HasMissing(col) {
      match kind
      case Numeric =>
        var xs := PresentReals(col);
        // The median of no values is NaN, and filling with NaN changes nothing.
        if |xs| > 0 {
          r := FillGaps(col, Present(Num(Median(xs))));
        }
      case Temporal =>
        r := ForwardFill(col);
      case Categorical =>
        var codes := PresentCodes(col);
        if |codes| > 0 {
          r := FillGaps(col, Present(Text(Mode(codes))));
        }
    }
  }

  /** `handle_missing_values(df)`: the loop over the columns, filling each in place. */
  method HandleMissingValues(df: DataFrame)
    requires df.Valid()
    modifies df
    ensures df.Valid()
    ensures df.Contents() == Imputed(old(df.Contents()))
  {
    ghost var t := df.Contents();
    for j := 0 to |df.kinds|
      invariant df.kinds == t.kinds && |df.rows| == |t.rows| && Rectangular(df.rows, |t.kinds|)
      invariant forall c :: 0 <= c < j ==> Column(df.rows, c) == ImputeColumn(t.kinds[c], Column(t.rows, c))
      invariant forall c :: j <= c < |t.kinds| ==> Column(df.rows, c) == Column(t.rows, c)
    {
      var filled := FillColumn(df.kinds[j], Column(df.rows, j));
      df.rows := SetColumn(df.rows, j, filled);
    }
    EqualByColumns(df.rows, Imputed(t).rows, |t.kinds|);
  }
}
