/**
 Step 1 of the pipeline: `df.drop_duplicates(inplace=True)`. Rows equal in every
 column (missing cells compare equal to each other, as pandas does here) are
 dropped; the first occurrence of each row is kept, in the original order.
 */
module Dedup {
  import opened DataModel

  predicate Distinct<T(==)>(s: seq<T>) {
    forall i, j :: 0 <= i < j < |s| ==> s[i] != s[j]
  }

  /** The position of the first occurrence of `x` in `s`. */
  function FirstIndex<T(==)>(s: seq<T>, x: T): (i: nat)
    requires x in s
    ensures i < |s| && s[i] == x && x !in s[..i]
  {
    if s[0] == x then 0
    else
      var k := FirstIndex(s[1..], x);
      assert s[..k + 1] == [s[0]] + s[1..][..k];
      k + 1
  }

  /** The first occurrence of each distinct element, in order. */
  function Unique<T(==, !new)>(s: seq<T>): (r: seq<T>)
    ensures forall x :: x in r <==> x in s
    ensures Distinct(r)
    ensures |r| <= |s|
  {
    if |s| == 0 then []
    else
      var p := Unique(s[..|s| - 1]);
      var last := s[|s| - 1];
      assert s == s[..|s| - 1] + [last];
      if last in p then p else p + [last]
  }

  /** Extending a sequence does not move the first occurrence of an element it already held. */
  lemma FirstIndexOfPrefix<T>(s: seq<T>, t: seq<T>, x: T)
    requires x in s
    ensures x in s + t && FirstIndex(s + t, x) == FirstIndex(s, x)
  {
    var i, j := FirstIndex(s + t, x), FirstIndex(s, x);
    assert (s + t)[..j] == s[..j];
    assert forall m :: 0 <= m < i ==> (s + t)[m] != x;
    assert forall m :: 0 <= m < j ==> s[m] != x;
    assert (s + t)[j] == x;
    assert i <= j;
    assert s[i] == x;
  }

  /** The kept rows appear in the order of their first occurrences in the input. */
  lemma {:induction false} UniqueKeepsFirstOccurrenceOrder<T(!new)>(s: seq<T>)
    ensures forall i, j :: 0 <= i < j < |Unique(s)| ==> FirstIndex(s, Unique(s)[i]) < FirstIndex(s, Unique(s)[j])
  {
    if |s| > 0 {
      var init, last := s[..|s| - 1], s[|s| - 1];
      assert s == init + [last];
      var p := Unique(init);
      UniqueKeepsFirstOccurrenceOrder(init);
      forall x | x in p
        ensures FirstIndex(s, x) == FirstIndex(init, x) < |init|
      {
        FirstIndexOfPrefix(init, [last], x);
      }
      if last !in p {
        assert last !in init;
        assert FirstIndex(s, last) == |init|;
      }
    }
  }

  /** The loaded frame with duplicate rows dropped. */
  function Deduplicated(t: Table): (r: Table)
    ensures r.kinds == t.kinds
    ensures WellTyped(t) ==> WellTyped(r)
  {
    var r := Table(t.kinds, Unique(t.rows));
    assert forall i :: 0 <= i < |r.rows| ==> r.rows[i] in t.rows;
    r
  }

  /** `df.drop_duplicates(inplace=True)`, scanning the rows once and keeping a row
      only when no equal row was kept before it. */
  method DropDuplicates(df: DataFrame)
    requires df.Valid()
    modifies df
    ensures df.Valid()
    ensures df.Contents() == Deduplicated(old(df.Contents()))
  {
    var kept: seq<Row> := [];
    for i := 0 to |df.rows|
      invariant kept == Unique(df.rows[..i])
    {
      assert df.rows[..i + 1][..i] == df.rows[..i];
      if df.rows[i] !in kept {
        kept := kept + [df.rows[i]];
      }
    }
    assert df.rows[..|df.rows|] == df.rows;
    ghost var before := df.Contents();
    df.rows := kept;
    assert df.Contents() == Deduplicated(before);
  }
}
