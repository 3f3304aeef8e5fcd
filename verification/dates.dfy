/**
 Step 3 of the pipeline: `convert_date_columns`. Every column is handed to the
 date parser; when the parser accepts every present cell the column is replaced
 by the parsed timestamps and becomes a datetime column, and when it rejects any
 cell the raised error is caught and the column stays exactly as it was.

 The parser (`pd.to_datetime`) is a parameter: a partial function from a cell
 value to a timestamp. It is applied to every column that is not already a
 datetime column, numeric columns included; missing cells stay missing.
 */
module Dates {
  import opened DataModel

  type Parser = Value -> Option<int>

  /** Every present cell of the column parses. */
  predicate AllParse(col: seq<Cell>, parse: Parser) {
    forall i :: 0 <= i < |col| && col[i].Present? ==> parse(col[i].v).Some?
  }

  /** The parsed cell: a timestamp for a present cell, missing for a missing one. */
  function ParsedCell(c: Cell, parse: Parser): Cell
    requires c.Present? ==> parse(c.v).Some?
  {
    if c.Present? then Present(Time(parse(c.v).value)) else Missing
  }

  /** `pd.to_datetime` on a column that is not yet datetime: the parsed cells, or
      `None` when some present cell does not parse (the `ValueError`/`TypeError`). */
  function ParseAll(col: seq<Cell>, parse: Parser): (r: Option<seq<Cell>>)
    ensures r.Some? <==> AllParse(col, parse)
    ensures r.Some? ==> |r.value| == |col| && forall i :: 0 <= i < |col| ==> r.value[i] == ParsedCell(col[i], parse)
  {
    if |col| == 0 then Some([])
    else
      var init, last := col[..|col| - 1], col[|col| - 1];
      assert forall i :: 0 <= i < |init| ==> init[i] == col[i];
      match ParseAll(init, parse)
      case None => None
      case Some(cells) =>
        if last.Present? && parse(last.v).None? then None
        else Some(cells + [ParsedCell(last, parse)])
  }

  /** `pd.to_datetime(df[col])`: a datetime column comes back as it is. */
  function ToDatetime(kind: Kind, col: seq<Cell>, parse: Parser): (r: Option<seq<Cell>>)
    ensures r.Some? <==> kind == Temporal || AllParse(col, parse)
    ensures kind == Temporal ==> r == Some(col)
    ensures r.Some? ==> |r.value| == |col| && forall i :: 0 <= i < |col| && col[i].Missing? ==> r.value[i].Missing?
  {
    if kind == Temporal then Some(col) else ParseAll(col, parse)
  }

  /** One iteration of the loop in `convert_date_columns`: the column's new kind
      and cells. The column is either replaced wholesale by parsed timestamps or
      left identical. */
  function ConvertColumn(kind: Kind, col: seq<Cell>, parse: Parser): (r: (Kind, seq<Cell>))
    ensures |r.1| == |col|
    ensures r.0 == Temporal <==> kind == Temporal || AllParse(col, parse)
    ensures r.0 != Temporal ==> r == (kind, col)
    ensures kind != Temporal && AllParse(col, parse) ==>
              forall i :: 0 <= i < |col| ==> r.1[i] == ParsedCell(col[i], parse)
    ensures kind == Temporal ==> r.1 == col
  {
    match ToDatetime(kind, col, parse)
    case Some(cells) => (Temporal, cells)
    case None => (kind, col)
  }

  /** A converted column holds timestamps and missing cells only, missing exactly
      where the original was missing. */
  lemma ConvertedColumnIsTemporal(kind: Kind, col: seq<Cell>, parse: Parser)
    requires ColumnFits(kind, col)
    ensures var (k, cells) := ConvertColumn(kind, col, parse);
            && ColumnFits(k, cells)
            && forall i :: 0 <= i < |col| ==> (cells[i].Missing? <==> col[i].Missing?)
  {
  }

  /** A column with no present cell always parses, so it becomes a datetime
      column of missing cells, whatever its kind was. */
  lemma AllMissingColumnBecomesDatetime(kind: Kind, col: seq<Cell>, parse: Parser)
    requires forall i :: 0 <= i < |col| ==> col[i].Missing?
    ensures ConvertColumn(kind, col, parse) == (Temporal, col)
  {
    var r := ConvertColumn(kind, col, parse);
    assert AllParse(col, parse);
    forall i | 0 <= i < |col|
      ensures r.1[i] == col[i]
    {
      if kind != Temporal {
        assert r.1[i] == ParsedCell(col[i], parse);
      }
    }
    assert r.0 == Temporal && r.1 == col;
  }

  /** The frame after `convert_date_columns`. */
  function DatesConverted(t: Table, parse: Parser): (r: Table)
    requires Rectangular(t.rows, |t.kinds|)
    ensures |r.kinds| == |t.kinds| && |r.rows| == |t.rows| && Rectangular(r.rows, |r.kinds|)
    ensures forall j :: 0 <= j < |t.kinds| ==> (r.kinds[j], Column(r.rows, j)) == ConvertColumn(t.kinds[j], Column(t.rows, j), parse)
    ensures WellTyped(t) ==> WellTyped(r)
  {
    var converted := seq(|t.kinds|, j requires 0 <= j < |t.kinds| => ConvertColumn(t.kinds[j], Column(t.rows, j), parse));
    var cols := seq(|t.kinds|, j requires 0 <= j < |t.kinds| => converted[j].1);
    var r := Table(seq(|t.kinds|, j requires 0 <= j < |t.kinds| => converted[j].0), FromColumns(cols, |t.rows|));
    WellTypedByColumns(t);
    WellTypedByColumns(r);
    ConvertedColumnsFit(t, parse);
    r
  }

  lemma ConvertedColumnsFit(t: Table, parse: Parser)
    requires Rectangular(t.rows, |t.kinds|)
    ensures WellTyped(t) ==> forall j :: 0 <= j < |t.kinds| ==>
              var c := ConvertColumn(t.kinds[j], Column(t.rows, j), parse); ColumnFits(c.0, c.1)
  {
    if WellTyped(t) {
      WellTypedByColumns(t);
      forall j | 0 <= j < |t.kinds|
        ensures var c := ConvertColumn(t.kinds[j], Column(t.rows, j), parse); ColumnFits(c.0, c.1)
      {
        ConvertedColumnIsTemporal(t.kinds[j], Column(t.rows, j), parse);
      }
    }
  }

  /** Converting a second time changes nothing: a converted column is a datetime
      column, which the parser hands back unchanged, and a column that failed to
      parse fails again. */
  lemma {:induction false} ConvertDatesIdempotent(t: Table, parse: Parser)
    requires Rectangular(t.rows, |t.kinds|)
    ensures DatesConverted(DatesConverted(t, parse), parse) == DatesConverted(t, parse)
  {
    var once := DatesConverted(t, parse);
    var twice := DatesConverted(once, parse);
    forall j | 0 <= j < |t.kinds|
      ensures twice.kinds[j] == once.kinds[j] && Column(twice.rows, j) == Column(once.rows, j)
    {
      assert (twice.kinds[j], Column(twice.rows, j)) == ConvertColumn(once.kinds[j], Column(once.rows, j), parse);
    }
    EqualByColumns(twice.rows, once.rows, |t.kinds|);
  }

  /** `convert_date_columns(df)`: the loop over the columns, each converted in
      place or, when parsing raises, skipped. */
  method ConvertDateColumns(df: DataFrame, parse: Parser)
    requires df.Valid()
    modifies df
    ensures df.Valid()
    ensures df.Contents() == DatesConverted(old(df.Contents()), parse)
  {
    ghost var t := df.Contents();
    for j := 0 to |df.kinds|
      invariant |df.kinds| == |t.kinds| && |df.rows| == |t.rows| && Rectangular(df.rows, |t.kinds|)
      invariant forall c :: 0 <= c < j ==> (df.kinds[c], Column(df.rows, c)) == ConvertColumn(t.kinds[c], Column(t.rows, c), parse)
      invariant forall c :: j <= c < |t.kinds| ==> df.kinds[c] == t.kinds[c] && Column(df.rows, c) == Column(t.rows, c)
    {
      var parsed := ToDatetime(df.kinds[j], Column(df.rows, j), parse);
      if parsed.Some? {
        df.rows := SetColumn(df.rows, j, parsed.value);
        df.kinds := df.kinds[j := Temporal];
      }
    }
    var r := DatesConverted(t, parse);
    forall c | 0 <= c < |t.kinds|
      ensures df.kinds[c] == r.kinds[c] && Column(df.rows, c) == Column(r.rows, c)
    {
    }
    EqualByColumns(df.rows, r.rows, |t.kinds|);
  }
}
