/**
 `clean_data`: the stages in their fixed order on the loaded table —
 drop duplicate rows, fill missing values, convert date columns, remove
 outliers. Loading the CSV, the summary report and saving the result are
 input and output around this core.
 */
module Cleaner {
  import opened DataModel
  import opened Dedup
  import opened Impute
  import opened Dates
  import opened Outliers
  import opened Stats

  /** The table `clean_data` saves for a loaded table, threshold `k` and date parser. */
  function Cleaned(t: Table, k: real, parse: Parser): (r: Table)
    requires WellTyped(t)
    ensures WellTyped(r) && |r.kinds| == |t.kinds|
    ensures |r.rows| <= |Deduplicated(t).rows| <= |t.rows|
  {
    var converted := DatesConverted(Imputed(Deduplicated(t)), parse);
    OutliersRemovedWellTyped(converted, k);
    OutliersRemoved(converted, k)
  }

  /** `clean_data(input_path)` from the loaded table on: the frame is cleaned in
      place by the first three stages, then rebound to the filtered copy. Also
      returns the counts it logs: duplicates dropped and rows removed per numeric
      column. */
  method CleanData(input: Table, k: real, parse: Parser) returns (cleaned: Table, duplicates: nat, removed: seq<nat>)
    requires WellTyped(input)
    ensures cleaned == Cleaned(input, k, parse)
    ensures duplicates == |input.rows| - |Deduplicated(input).rows|
    ensures var converted := DatesConverted(Imputed(Deduplicated(input)), parse);
            removed == Removed(converted.rows, |converted.kinds|, NumericColumns(converted.kinds), QuartileFence(k))
  {
    var df := new DataFrame(input);
    var before := |df.rows|;
    DropDuplicates(df);
    duplicates := before - |df.rows|;
    HandleMissingValues(df);
    ConvertDateColumns(df, parse);
    cleaned, removed := RemoveOutliers(df.Contents(), k);
  }

  /** A numeric column whose every present cell the date parser accepts is
      turned into a datetime column. */
  lemma ParsedNumericColumnIsNotNumeric(kind: Kind, col: seq<Cell>, parse: Parser)
    requires ColumnFits(kind, col) && forall x :: parse(Num(x)).Some?
    ensures ConvertColumn(kind, col, parse).0 != Numeric
  {
    if kind == Numeric {
      assert AllParse(col, parse) by {
        forall i | 0 <= i < |col| && col[i].Present?
          ensures parse(col[i].v).Some?
        {
          assert Fits(Numeric, col[i]);
        }
      }
    }
  }

  /** Date conversion runs before outlier removal. When the parser accepts
      every number (as `pd.to_datetime` does, reading it as an epoch offset),
      every numeric column becomes a datetime column first, and outlier
      removal then finds no numeric column and removes nothing. */
  lemma NumericParserDisablesOutlierStage(t: Table, k: real, parse: Parser)
    requires WellTyped(t) && forall x :: parse(Num(x)).Some?
    ensures Cleaned(t, k, parse) == DatesConverted(Imputed(Deduplicated(t)), parse)
  {
    var imputed := Imputed(Deduplicated(t));
    var converted := DatesConverted(imputed, parse);
    WellTypedByColumns(imputed);
    forall j | 0 <= j < |converted.kinds|
      ensures converted.kinds[j] != Numeric
    {
      ParsedNumericColumnIsNotNumeric(imputed.kinds[j], Column(imputed.rows, j), parse);
    }
    NoNumericColumns(converted.kinds);
  }

  /** Duplicates are dropped before missing values are filled, so filling can
      make two kept rows equal again: a one-column numeric table holding `1` and
      a missing cell keeps both rows, and the median fill turns both into `1`. */
  lemma DuplicatesCanReappearAfterImputation()
    ensures var t := Table([Numeric], [[Present(Num(1.0))], [Missing]]);
            && Deduplicated(t) == t
            && Imputed(Deduplicated(t)).rows == [[Present(Num(1.0))], [Present(Num(1.0))]]
  {
    var t := Table([Numeric], [[Present(Num(1.0))], [Missing]]);
    TwoDistinctRowsAreKept(t.rows);
    OneNumberAndGapImputed();
  }

  lemma OneNumberAndGapImputed()
    ensures Imputed(Table([Numeric], [[Present(Num(1.0))], [Missing]])).rows == [[Present(Num(1.0))], [Present(Num(1.0))]]
  {
    var t := Table([Numeric], [[Present(Num(1.0))], [Missing]]);
    var r := Imputed(t).rows;
    assert Column(r, 0) == [Present(Num(1.0)), Present(Num(1.0))] by {
      assert Column(t.rows, 0) == [Present(Num(1.0)), Missing];
      MedianOfOneNumberFillsTheGap();
    }
    RowsOfOneColumn(r, [Present(Num(1.0)), Present(Num(1.0))]);
  }

  /** A two-row, one-column table is determined by its column. */
  lemma RowsOfOneColumn(r: seq<Row>, c: seq<Cell>)
    requires Rectangular(r, 1) && |r| == 2 && Column(r, 0) == c
    ensures r == [[c[0]], [c[1]]]
  {
    assert r[0] == [r[0][0]] && r[1] == [r[1][0]];
  }

  lemma TwoDistinctRowsAreKept(rows: seq<Row>)
    requires |rows| == 2 && rows[0] != rows[1]
    ensures Unique(rows) == rows
  {
    assert rows[..1][..0] == [];
    assert rows[..1] == [rows[0]];
    assert rows == rows[..1] + [rows[1]];
  }

  lemma MedianOfOneNumberFillsTheGap()
    ensures ImputeColumn(Numeric, [Present(Num(1.0)), Missing]) == [Present(Num(1.0)), Present(Num(1.0))]
  {
    var col := [Present(Num(1.0)), Missing];
    assert col[..1] == [Present(Num(1.0))] && col[..1][..0] == [];
    assert PresentReals(col) == [1.0];
    assert Sort([1.0]) == [1.0] by {
      assert [1.0][1..] == [];
    }
    assert HasMissing(col) by { assert col[1] == Missing; }
    assert Median([1.0]) == 1.0;
    assert FillMissing(col, Present(Num(1.0))) == [Present(Num(1.0)), Present(Num(1.0))];
  }

  /** The three-row sample `a = 1, 100, 2`: linear quartiles 1.5 and 51 give,
      with threshold 1.5, the fence [−72.75, 125.25], so 100 is not an outlier. */
  lemma SmallSampleFence()
    ensures ColumnFence([Present(Num(1.0)), Present(Num(100.0)), Present(Num(2.0))], 1.5) == Bounds(-72.75, 125.25)
  {
    var col := [Present(Num(1.0)), Present(Num(100.0)), Present(Num(2.0))];
    PresentRealsOfSample();
    var xs := PresentReals(col);
    SortOfSample();
    SampleQuartiles();
    assert FirstQuartile(xs) == 1.5 && ThirdQuartile(xs) == 51.0;
  }

  lemma SampleQuartiles()
    ensures QuantileOfSorted([1.0, 2.0, 100.0], 1, 4) == 1.5
    ensures QuantileOfSorted([1.0, 2.0, 100.0], 3, 4) == 51.0
  {
    assert Rank(1, 4, 2) == (0, 2);
    assert Rank(3, 4, 2) == (1, 2);
    SampleInterpolation();
  }

  lemma SampleInterpolation()
    ensures Interpolate([1.0, 2.0, 100.0], 0, 2, 4) == 1.5
    ensures Interpolate([1.0, 2.0, 100.0], 1, 2, 4) == 51.0
  {
  }

  lemma PresentRealsOfSample()
    ensures PresentReals([Present(Num(1.0)), Present(Num(100.0)), Present(Num(2.0))]) == [1.0, 100.0, 2.0]
  {
    var col := [Present(Num(1.0)), Present(Num(100.0)), Present(Num(2.0))];
    var c2, c1 := col[..2], col[..1];
    assert c2 == [Present(Num(1.0)), Present(Num(100.0))] && c2[..1] == c1;
    assert c1 == [Present(Num(1.0))] && c1[..0] == [];
    assert PresentReals(c1) == [1.0];
    assert PresentReals(c2) == [1.0, 100.0];
  }

  lemma SortOfSample()
    ensures Sort([1.0, 100.0, 2.0]) == [1.0, 2.0, 100.0]
  {
    var xs := [1.0, 100.0, 2.0];
    assert xs[1..] == [100.0, 2.0];
    SortOfSampleTail();
    assert Insert(1.0, [2.0, 100.0]) == [1.0, 2.0, 100.0];
  }

  lemma SortOfSampleTail()
    ensures Sort([100.0, 2.0]) == [2.0, 100.0]
  {
    var xs, s1 := [100.0, 2.0], [2.0];
    assert xs[1..] == s1 && s1[1..] == [];
    assert Sort(s1) == s1 by {
      assert Sort(s1) == Insert(2.0, Sort([]));
    }
    assert Insert(100.0, s1) == [2.0, 100.0] by {
      assert Insert(100.0, s1) == [2.0] + Insert(100.0, []);
    }
  }

  /** A two-column sample: `a` numeric, `b` text with codes 0 ("x") and 1 ("y");
      its second row repeats the first and its last `b` is missing. */
  function SampleTable(): (t: Table)
    ensures WellTyped(t) && |t.rows| == 4
  {
    var x, y := Present(Text(0)), Present(Text(1));
    var t := Table([Numeric, Categorical],
                   [[Present(Num(1.0)), x], [Present(Num(1.0)), x], [Present(Num(100.0)), y], [Present(Num(2.0)), Missing]]);
    assert forall i, j :: 0 <= i < 4 && 0 <= j < 2 ==> Fits(t.kinds[j], t.rows[i][j]);
    t
  }

  /** On the sample, `clean_data` drops the repeated row, fills the missing `b`
      with "x" (the smaller of the two values tied for the mode) and, whatever
      the date parser does, removes no row as an outlier: either `a` stays
      numeric and 100 lies inside its fence, or `a` is read as dates and no
      numeric column is left. */
  lemma SampleIsCleanedWithoutOutliers(parse: Parser)
    ensures var t := SampleTable();
            var filled := Imputed(Deduplicated(t));
            && |t.rows| - |Deduplicated(t).rows| == 1
            && filled.rows == [[Present(Num(1.0)), Present(Text(0))],
                               [Present(Num(100.0)), Present(Text(1))],
                               [Present(Num(2.0)), Present(Text(0))]]
            && Cleaned(t, 1.5, parse) == DatesConverted(filled, parse)
  {
    var t := SampleTable();
    SampleDeduplicated();
    SampleImputed();
    var filled := Imputed(Deduplicated(t));
    SampleKeepsEveryRow(DatesConverted(filled, parse), filled, parse);
  }

  lemma SampleDeduplicated()
    ensures Unique(SampleTable().rows) == [SampleTable().rows[0], SampleTable().rows[2], SampleTable().rows[3]]
  {
    var rows := SampleTable().rows;
    var r0, r2, r3 := rows[0], rows[2], rows[3];
    var p3, p2, p1 := rows[..3], rows[..2], rows[..1];
    assert p3[..2] == p2 && p2[..1] == p1 && p1[..0] == [];
    assert Unique(p1) == [r0];
    assert Unique(p2) == [r0];
    assert Unique(p3) == [r0, r2];
  }

  lemma SampleImputed()
    ensures var t := Table([Numeric, Categorical], [SampleTable().rows[0], SampleTable().rows[2], SampleTable().rows[3]]);
            Imputed(t).rows == [[Present(Num(1.0)), Present(Text(0))],
                                [Present(Num(100.0)), Present(Text(1))],
                                [Present(Num(2.0)), Present(Text(0))]]
  {
    var rows := SampleTable().rows;
    var r := Imputed(Table([Numeric, Categorical], [rows[0], rows[2], rows[3]])).rows;
    SampleImputedColumns();
    RowsOfTwoColumns(r, [Present(Num(1.0)), Present(Num(100.0)), Present(Num(2.0))],
                     [Present(Text(0)), Present(Text(1)), Present(Text(0))]);
  }

  lemma SampleImputedColumns()
    ensures var t := Table([Numeric, Categorical], [SampleTable().rows[0], SampleTable().rows[2], SampleTable().rows[3]]);
            var r := Imputed(t).rows;
            && Rectangular(r, 2)
            && Column(r, 0) == [Present(Num(1.0)), Present(Num(100.0)), Present(Num(2.0))]
            && Column(r, 1) == [Present(Text(0)), Present(Text(1)), Present(Text(0))]
  {
    var rows := SampleTable().rows;
    var t := Table([Numeric, Categorical], [rows[0], rows[2], rows[3]]);
    var a := Column(t.rows, 0);
    var b := Column(t.rows, 1);
    assert a == [Present(Num(1.0)), Present(Num(100.0)), Present(Num(2.0))];
    assert !HasMissing(a);
    assert b == [Present(Text(0)), Present(Text(1)), Missing];
    SampleModeFill();
  }

  /** A three-row, two-column table is determined by its two columns. */
  lemma RowsOfTwoColumns(r: seq<Row>, c0: seq<Cell>, c1: seq<Cell>)
    requires Rectangular(r, 2) && |r| == 3 && Column(r, 0) == c0 && Column(r, 1) == c1
    ensures r == [[c0[0], c1[0]], [c0[1], c1[1]], [c0[2], c1[2]]]
  {
    assert r[0] == [r[0][0], r[0][1]] && r[1] == [r[1][0], r[1][1]] && r[2] == [r[2][0], r[2][1]];
  }

  lemma SampleModeFill()
    ensures ImputeColumn(Categorical, [Present(Text(0)), Present(Text(1)), Missing])
         == [Present(Text(0)), Present(Text(1)), Present(Text(0))]
  {
    var b := [Present(Text(0)), Present(Text(1)), Missing];
    PresentCodesOfSample();
    TieGoesToSmallerCode();
    assert HasMissing(b) by { assert b[2] == Missing; }
  }

  lemma PresentCodesOfSample()
    ensures PresentCodes([Present(Text(0)), Present(Text(1)), Missing]) == [0, 1]
  {
    var b := [Present(Text(0)), Present(Text(1)), Missing];
    var b2, b1 := b[..2], b[..1];
    assert b2[..1] == b1 && b1[..0] == [];
    assert PresentCodes(b1) == [0];
    assert PresentCodes(b2) == [0, 1];
  }

  /** "x" and "y" occur once each, so the mode is the smaller code. */
  lemma TieGoesToSmallerCode()
    ensures Mode([0, 1]) == 0
  {
    var codes := [0, 1];
    assert codes[..1] == [0] && codes[..1][..0] == [];
    assert Count(codes, 0) == 1 && Count(codes, 1) == 1;
    assert IsSmallestMode(codes, 0);
    ModeIsUnique(codes, 0);
  }

  /** On the converted sample, outlier removal keeps every row. */
  lemma SampleKeepsEveryRow(conv: Table, filled: Table, parse: Parser)
    requires filled.rows == [[Present(Num(1.0)), Present(Text(0))],
                             [Present(Num(100.0)), Present(Text(1))],
                             [Present(Num(2.0)), Present(Text(0))]]
    requires filled.kinds == [Numeric, Categorical] && conv == DatesConverted(filled, parse)
    ensures OutliersRemoved(conv, 1.5) == conv
  {
    var a := [Present(Num(1.0)), Present(Num(100.0)), Present(Num(2.0))];
    assert Column(filled.rows, 0) == a;
    assert conv.kinds[1] != Numeric by {
      assert (conv.kinds[1], Column(conv.rows, 1)) == ConvertColumn(Categorical, Column(filled.rows, 1), parse);
    }
    assert (conv.kinds[0], Column(conv.rows, 0)) == ConvertColumn(Numeric, a, parse);
    if conv.kinds[0] == Numeric {
      assert Column(conv.rows, 0) == a;
      SampleSweepKeepsEveryRow(conv.rows, conv.kinds);
    } else {
      NoNumericColumns(conv.kinds);
    }
  }

  lemma OnlyFirstColumnNumeric(kinds: seq<Kind>)
    requires |kinds| == 2 && kinds[0] == Numeric && kinds[1] != Numeric
    ensures NumericColumns(kinds) == [0]
  {
    var k1 := kinds[..1];
    assert k1[..0] == [] && k1[0] == Numeric;
    assert NumericColumns(k1) == [0];
    assert kinds[..|kinds| - 1] == k1;
  }

  lemma SampleSweepKeepsEveryRow(rows: seq<Row>, kinds: seq<Kind>)
    requires |kinds| == 2 && kinds[0] == Numeric && kinds[1] != Numeric && Rectangular(rows, 2)
    requires Column(rows, 0) == [Present(Num(1.0)), Present(Num(100.0)), Present(Num(2.0))]
    ensures Sweep(rows, 2, NumericColumns(kinds), QuartileFence(1.5)) == rows
  {
    var a := [Present(Num(1.0)), Present(Num(100.0)), Present(Num(2.0))];
    OnlyFirstColumnNumeric(kinds);
    var cols := NumericColumns(kinds);
    assert cols[..0] == [];
    var f := Bounds(-72.75, 125.25);
    forall i | 0 <= i < |rows|
      ensures Admits(f, rows[i][0])
    {
      assert rows[i][0] == a[i];
      if i == 0 {} else if i == 1 {} else {}
    }
    KeepAdmittedKeepsAll(rows, 2, 0, f);
    SmallSampleFence();
    assert QuartileFence(1.5)(Column(rows, 0)) == f;
  }
}
