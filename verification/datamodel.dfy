/**
 The in-memory table the cleaning pipeline works on: a sequence of rows, each a
 sequence of cells, together with one kind tag per column. The kind tag stands for
 the pandas dtype of the column, collapsed to the three cases the pipeline
 dispatches on.
 */
module DataModel {

  datatype Option<T> = None | Some(value: T)

  /** What a column holds: numbers, timestamps, or anything else (text). */
  datatype Kind = Numeric | Temporal | Categorical

  /** A present cell value. Timestamps are nanoseconds since the epoch; a text value
      is represented by an opaque code whose order is the order of the strings. */
  datatype Value = Num(x: real) | Time(t: int) | Text(code: int)

  /** A cell is missing (NaN / NaT / None) or holds a value. */
  datatype Cell = Missing | Present(v: Value)

  type Row = seq<Cell>

  datatype Table = Table(kinds: seq<Kind>, rows: seq<Row>)

  /** A cell may sit in a column of the given kind. */
  predicate Fits(k: Kind, c: Cell) {
    match c
    case Missing => true
    case Present(v) =>
      match k
      case Numeric => v.Num?
      case Temporal => v.Time?
      case Categorical => v.Text?
  }

  /** Every row has exactly `width` cells. */
  predicate Rectangular(rows: seq<Row>, width: nat) {
    forall i :: 0 <= i < |rows| ==> |rows[i]| == width
  }

  /** The invariant pandas keeps for every frame: one cell per column in each row,
      and every present cell of the dtype its column has. */
  predicate WellTyped(t: Table) {
    && Rectangular(t.rows, |t.kinds|)
    && forall i, j :: 0 <= i < |t.rows| && 0 <= j < |t.kinds| ==> Fits(t.kinds[j], t.rows[i][j])
  }

  predicate ColumnFits(k: Kind, col: seq<Cell>) {
    forall i :: 0 <= i < |col| ==> Fits(k, col[i])
  }

  /** Column `j` exists in every row. */
  predicate HasColumn(rows: seq<Row>, j: nat) {
    forall i :: 0 <= i < |rows| ==> j < |rows[i]|
  }

  /** The cells of column `j`, top to bottom (`df[col]`). */
  function Column(rows: seq<Row>, j: nat): seq<Cell>
    requires HasColumn(rows, j)
  {
    seq(|rows|, i requires 0 <= i < |rows| => rows[i][j])
  }

  /** The rows with column `j` replaced by `col` (`df[col] = ...`). */
  function SetColumn(rows: seq<Row>, j: nat, col: seq<Cell>): (r: seq<Row>)
    requires HasColumn(rows, j) && |col| == |rows|
    ensures |r| == |rows| && HasColumn(r, j)
    ensures forall i :: 0 <= i < |rows| ==> |r[i]| == |rows[i]|
    ensures Column(r, j) == col
    ensures forall c :: c != j && HasColumn(rows, c) ==> HasColumn(r, c) && Column(r, c) == Column(rows, c)
  {
    seq(|rows|, i requires 0 <= i < |rows| => rows[i][j := col[i]])
  }

  /** The rows of a table given column by column, each of `height` cells. */
  function FromColumns(cols: seq<seq<Cell>>, height: nat): (r: seq<Row>)
    requires forall j :: 0 <= j < |cols| ==> |cols[j]| == height
    ensures |r| == height && Rectangular(r, |cols|)
    ensures forall j :: 0 <= j < |cols| ==> Column(r, j) == cols[j]
  {
    seq(height, i requires 0 <= i < height => seq(|cols|, j requires 0 <= j < |cols| => cols[j][i]))
  }

  /** A table is well typed exactly when each of its columns fits its kind. */
  lemma WellTypedByColumns(t: Table)
    requires Rectangular(t.rows, |t.kinds|)
    ensures WellTyped(t) <==> forall j :: 0 <= j < |t.kinds| ==> ColumnFits(t.kinds[j], Column(t.rows, j))
  {
    if forall j :: 0 <= j < |t.kinds| ==> ColumnFits(t.kinds[j], Column(t.rows, j)) {
      forall i, j | 0 <= i < |t.rows| && 0 <= j < |t.kinds|
        ensures Fits(t.kinds[j], t.rows[i][j])
      {
        assert Column(t.rows, j)[i] == t.rows[i][j];
      }
    }
  }

  /** Two rectangular tables with the same columns are the same table. */
  lemma {:induction false} EqualByColumns(a: seq<Row>, b: seq<Row>, width: nat)
    requires Rectangular(a, width) && Rectangular(b, width) && |a| == |b|
    requires forall j :: 0 <= j < width ==> Column(a, j) == Column(b, j)
    ensures a == b
  {
    forall i | 0 <= i < |a|
      ensures a[i] == b[i]
    {
      forall j | 0 <= j < width
        ensures a[i][j] == b[i][j]
      {
        assert Column(a, j)[i] == Column(b, j)[i];
      }
    }
  }

  /** The numbers held by the present numeric cells of a column, in row order
      (what pandas' NaN-skipping statistics see). */
  function PresentReals(col: seq<Cell>): seq<real> {
    if |col| == 0 then []
    else
      var last := col[|col| - 1];
      PresentReals(col[..|col| - 1]) + (if last.Present? && last.v.Num? then [last.v.x] else [])
  }

  /** The codes held by the present text cells of a column, in row order. */
  function PresentCodes(col: seq<Cell>): seq<int> {
    if |col| == 0 then []
    else
      var last := col[|col| - 1];
      PresentCodes(col[..|col| - 1]) + (if last.Present? && last.v.Text? then [last.v.code] else [])
  }

  lemma {:induction false} PresentRealsMembers(col: seq<Cell>)
    ensures forall x :: x in PresentReals(col) <==> Present(Num(x)) in col
  {
    if |col| > 0 {
      var init := col[..|col| - 1];
      PresentRealsMembers(init);
      assert col == init + [col[|col| - 1]];
    }
  }

  lemma {:induction false} PresentCodesMembers(col: seq<Cell>)
    ensures forall c :: c in PresentCodes(col) <==> Present(Text(c)) in col
  {
    if |col| > 0 {
      var init := col[..|col| - 1];
      PresentCodesMembers(init);
      assert col == init + [col[|col| - 1]];
    }
  }

  /**
   The pandas frame the pipeline owns and mutates in place. `Valid` is the dtype
   invariant every frame keeps.
   */
  class DataFrame {
    var kinds: seq<Kind>
    var rows: seq<Row>

    ghost predicate Valid()
      reads this
    {
      WellTyped(Table(kinds, rows))
    }

    function Contents(): Table
      reads this
    {
      Table(kinds, rows)
    }

    constructor (t: Table)
      requires WellTyped(t)
      ensures Valid() && Contents() == t
    {
      kinds := t.kinds;
      rows := t.rows;
    }
  }
}
