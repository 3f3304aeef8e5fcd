/**
 The statistics the pipeline takes from pandas, written out over exact reals:
 the median (`Series.median`), the linearly interpolated quantile
 (`Series.quantile`, numpy's default "linear" method) and the mode with its
 smallest-value tie-break (`Series.mode()[0]`). All of them see only the present
 values of a column.
 */
module Stats {

  predicate Sorted(s: seq<real>) {
    forall i, j :: 0 <= i < j < |s| ==> s[i] <= s[j]
  }

  function Insert(x: real, s: seq<real>): (r: seq<real>)
    requires Sorted(s)
    ensures Sorted(r) && multiset(r) == multiset(s) + multiset{x}
  {
    if |s| == 0 || x <= s[0] then [x] + s
    else
      var rest := Insert(x, s[1..]);
      assert s == [s[0]] + s[1..];
      NoneBelowHead(x, s, rest);
      [s[0]] + rest
  }

  lemma NoneBelowHead(x: real, s: seq<real>, rest: seq<real>)
    requires Sorted(s) && |s| > 0 && s[0] < x && multiset(rest) == multiset(s[1..]) + multiset{x}
    ensures forall k :: 0 <= k < |rest| ==> s[0] <= rest[k]
  {
    forall k | 0 <= k < |rest|
      ensures s[0] <= rest[k]
    {
      assert rest[k] in multiset(rest);
      if rest[k] != x {
        assert rest[k] in s[1..];
      }
    }
  }

  /** The values in ascending order. */
  function Sort(xs: seq<real>): (r: seq<real>)
    ensures Sorted(r) && multiset(r) == multiset(xs) && |r| == |xs|
  {
    if |xs| == 0 then []
    else
      assert xs == [xs[0]] + xs[1..];
      Insert(xs[0], Sort(xs[1..]))
  }

  function Min(xs: seq<real>): (m: real)
    requires |xs| > 0
    ensures m in xs && forall x :: x in xs ==> m <= x
  {
    if |xs| == 1 then xs[0]
    else
      var m := Min(xs[1..]);
      assert xs == [xs[0]] + xs[1..];
      if xs[0] <= m then xs[0] else m
  }

  function Max(xs: seq<real>): (m: real)
    requires |xs| > 0
    ensures m in xs && forall x :: x in xs ==> x <= m
  {
    if |xs| == 1 then xs[0]
    else
      var m := Max(xs[1..]);
      assert xs == [xs[0]] + xs[1..];
      if m <= xs[0] then xs[0] else m
  }

  lemma MulMonotone(a: nat, b: nat, c: nat)
    requires a <= b
    ensures a * c <= b * c
  {
  }

  lemma DivBound(h: nat, den: nat, m: nat)
    requires 0 < den && h <= den * m
    ensures den * (h / den) + h % den == h && h % den < den
    ensures h / den <= m && (h % den != 0 ==> h / den < m)
  {
    var lo, rem := h / den, h % den;
    assert h == den * lo + rem;
  }

  /** Where the quantile at probability num/den falls among m + 1 sorted values:
      numpy's position h = (num/den)·m, split into the index `lo` = ⌊h⌋ below it and
      the remainder `rem` = den·(h − ⌊h⌋). */
  function Rank(num: nat, den: nat, m: nat): (r: (nat, nat))
    requires 0 < den && num <= den
    ensures den * r.0 + r.1 == num * m && r.1 < den
    ensures r.0 <= m && (r.1 != 0 ==> r.0 < m)
  {
    var h := num * m;
    MulMonotone(num, den, m);
    DivBound(h, den, m);
    (h / den, h % den)
  }

  /** numpy's linear quantile of already-sorted values at probability num/den:
      s[lo] + (h − lo)·(s[lo + 1] − s[lo]). */
  function QuantileOfSorted(s: seq<real>, num: nat, den: nat): (q: real)
    requires |s| > 0 && 0 < den && num <= den
    ensures num == 0 ==> q == s[0]
    ensures num == den ==> q == s[|s| - 1]
    ensures Sorted(s) ==> s[0] <= q <= s[|s| - 1]
  {
    var (lo, rem) := Rank(num, den, |s| - 1);
    RankAtEnds(num, den, |s| - 1);
    assert Sorted(s) ==> s[0] <= Interpolate(s, lo, rem, den) <= s[|s| - 1] by {
      if Sorted(s) {
        InterpolateWithinEnds(s, lo, rem, den);
      }
    }
    Interpolate(s, lo, rem, den)
  }

  /** Probability 0 sits on the first value and probability 1 on the last. */
  lemma RankAtEnds(num: nat, den: nat, m: nat)
    requires 0 < den && num <= den
    ensures num == 0 ==> Rank(num, den, m) == (0, 0)
    ensures num == den ==> Rank(num, den, m) == (m, 0)
  {
    var (lo, rem) := Rank(num, den, m);
    MultipleOrZero(den, lo);
    MultipleOrZero(den, m - lo);
    assert den * (m - lo) == den * m - den * lo;
  }

  lemma MultipleOrZero(a: nat, b: nat)
    ensures b == 0 || a <= a * b
  {
    if b > 0 {
      MulMonotone(1, b, a);
    }
  }

  /** The value rem/den of the way from s[lo] to s[lo + 1]. */
  function Interpolate(s: seq<real>, lo: nat, rem: nat, den: nat): (r: real)
    requires lo < |s| && rem < den && (rem != 0 ==> lo + 1 < |s|)
    ensures rem == 0 ==> r == s[lo]
    ensures rem != 0 ==> (s[lo] <= r <= s[lo + 1]) || (s[lo + 1] <= r <= s[lo])
  {
    if rem == 0 then s[lo]
    else
      LerpBetween(s[lo], s[lo + 1], rem, den);
      s[lo] + (rem as real / den as real) * (s[lo + 1] - s[lo])
  }

  /** A point a fraction rem/den of the way from `a` to `b` lies between them,
      whichever of the two is larger. */
  lemma LerpBetween(a: real, b: real, rem: nat, den: nat)
    requires rem < den
    ensures var r := a + (rem as real / den as real) * (b - a); (a <= r <= b) || (b <= r <= a)
  {
    var d := b - a;
    var f := rem as real / den as real;
    var p := f * d;
    if 0.0 <= d {
      FractionOfGap(rem, den, d);
      assert 0.0 <= p <= d;
    } else {
      FractionOfGap(rem, den, -d);
      NegatedScale(f, d);
      assert d <= p <= 0.0;
    }
  }

  lemma NegatedScale(f: real, d: real)
    ensures f * -d == -(f * d)
  {
  }

  /** A larger probability never moves the position down. */
  lemma RankMonotone(num1: nat, num2: nat, den: nat, m: nat)
    requires 0 < den && num1 <= num2 <= den
    ensures var (lo1, rem1) := Rank(num1, den, m);
            var (lo2, rem2) := Rank(num2, den, m);
            lo1 < lo2 || (lo1 == lo2 && rem1 <= rem2)
  {
    var (lo1, rem1) := Rank(num1, den, m);
    var (lo2, rem2) := Rank(num2, den, m);
    MulMonotone(num1, num2, m);
    if lo2 < lo1 {
      MulMonotone(lo2 + 1, lo1, den);
      assert false;
    }
  }

  /** A remainder below the denominator is a fraction in [0, 1), and scaling a
      non-negative gap by it stays within the gap. */
  lemma FractionOfGap(rem: nat, den: nat, d: real)
    requires rem < den && 0.0 <= d
    ensures 0.0 <= (rem as real / den as real) * d <= d
  {
    var f := rem as real / den as real;
    assert f * (den as real) == rem as real;
    assert f < 1.0;
  }

  /** `Series.quantile(num/den)` of the given present values. */
  function Quantile(xs: seq<real>, num: nat, den: nat): (q: real)
    requires |xs| > 0 && 0 < den && num <= den
    ensures num == 0 ==> q == Min(xs)
    ensures num == den ==> q == Max(xs)
  {
    SortedEnds(xs);
    QuantileOfSorted(Sort(xs), num, den)
  }

  /** `Series.median()` of the given present values: the middle value, or the
      mean of the two middle values when their number is even. */
  function Median(xs: seq<real>): (m: real)
    requires |xs| > 0
    ensures var s := Sort(xs); s[(|xs| - 1) / 2] <= m <= s[|xs| / 2]
  {
    var s := Sort(xs);
    var n := |s|;
    MiddlePositions(n);
    if n % 2 == 1 then s[n / 2]
    else
      MeanBetween(s[n / 2 - 1], s[n / 2]);
      (s[n / 2 - 1] + s[n / 2]) / 2.0
  }

  /** The lower middle position is the middle one for an odd count and the one
      just before it for an even count. */
  lemma MiddlePositions(n: nat)
    requires n > 0
    ensures n % 2 == 1 ==> (n - 1) / 2 == n / 2
    ensures n % 2 == 0 ==> (n - 1) / 2 == n / 2 - 1
  {
  }

  lemma MeanBetween(a: real, b: real)
    requires a <= b
    ensures a <= (a + b) / 2.0 <= b
  {
  }

  /** Between sorted neighbours the interpolated value lies above the lower one. */
  lemma SortedNeighbours(s: seq<real>, lo: nat, rem: nat, den: nat)
    requires lo < |s| && rem < den && (rem != 0 ==> lo + 1 < |s|) && Sorted(s)
    ensures s[lo] <= Interpolate(s, lo, rem, den)
    ensures rem != 0 ==> Interpolate(s, lo, rem, den) <= s[lo + 1]
  {
    if rem != 0 {
      assert s[lo] <= s[lo + 1];
    }
  }

  /** Moving the position up never lowers the interpolated value. */
  lemma InterpolateMonotone(s: seq<real>, lo1: nat, rem1: nat, lo2: nat, rem2: nat, den: nat)
    requires lo1 < |s| && rem1 < den && (rem1 != 0 ==> lo1 + 1 < |s|)
    requires lo2 < |s| && rem2 < den && (rem2 != 0 ==> lo2 + 1 < |s|)
    requires Sorted(s) && (lo1 < lo2 || (lo1 == lo2 && rem1 <= rem2))
    ensures Interpolate(s, lo1, rem1, den) <= Interpolate(s, lo2, rem2, den)
  {
    SortedNeighbours(s, lo1, rem1, den);
    SortedNeighbours(s, lo2, rem2, den);
    if lo1 == lo2 {
      if rem1 != 0 {
        var d := s[lo1 + 1] - s[lo1];
        ScaleMonotone(rem1, rem2, den, d);
        assert Interpolate(s, lo1, rem1, den) == s[lo1] + (rem1 as real / den as real) * d;
        assert Interpolate(s, lo2, rem2, den) == s[lo1] + (rem2 as real / den as real) * d;
      }
    } else if rem1 != 0 {
      assert s[lo1 + 1] <= s[lo2];
    }
  }

  /** The sorted values start at the minimum and end at the maximum. */
  lemma SortedEnds(xs: seq<real>)
    requires |xs| > 0
    ensures Sort(xs)[0] == Min(xs) && Sort(xs)[|xs| - 1] == Max(xs)
  {
    var s := Sort(xs);
    var last := |s| - 1;
    SameElements(s, xs);
    SortedBounds(s);
    assert Min(xs) in s && s[0] in xs;
    assert Max(xs) in s && s[last] in xs;
    assert s[last] <= Max(xs) <= s[last];
  }

  /** Sequences with the same multiset hold the same elements. */
  lemma SameElements(a: seq<real>, b: seq<real>)
    requires multiset(a) == multiset(b)
    ensures forall x :: x in a <==> x in b
  {
    forall x
      ensures x in a <==> x in b
    {
      assert x in a <==> x in multiset(a);
      assert x in b <==> x in multiset(b);
    }
  }

  /** The first element of a sorted sequence is its least, the last its greatest. */
  lemma SortedBounds(s: seq<real>)
    requires Sorted(s) && |s| > 0
    ensures forall x :: x in s ==> s[0] <= x <= s[|s| - 1]
  {
    forall x | x in s
      ensures s[0] <= x <= s[|s| - 1]
    {
      var i :| 0 <= i < |s| && s[i] == x;
      if 0 < i {}
      if i < |s| - 1 {}
    }
  }

  /** An interpolated value never leaves the range of the sorted values. */
  lemma InterpolateWithinEnds(s: seq<real>, lo: nat, rem: nat, den: nat)
    requires lo < |s| && rem < den && (rem != 0 ==> lo + 1 < |s|) && Sorted(s)
    ensures s[0] <= Interpolate(s, lo, rem, den) <= s[|s| - 1]
  {
    SortedNeighbours(s, lo, rem, den);
    assert s[0] <= s[lo] by {
      if lo > 0 {}
    }
    var hi := if rem == 0 then lo else lo + 1;
    assert s[hi] <= s[|s| - 1] by {
      if hi < |s| - 1 {}
    }
  }

  /** Every quantile lies between the smallest and the largest value. */
  lemma QuantileWithinRange(xs: seq<real>, num: nat, den: nat)
    requires |xs| > 0 && 0 < den && num <= den
    ensures Min(xs) <= Quantile(xs, num, den) <= Max(xs)
  {
    QuantileWithinSortedEnds(xs, num, den);
    SortedEnds(xs);
  }

  lemma QuantileWithinSortedEnds(xs: seq<real>, num: nat, den: nat)
    requires |xs| > 0 && 0 < den && num <= den
    ensures Sort(xs)[0] <= Quantile(xs, num, den) <= Sort(xs)[|xs| - 1]
  {
    var s := Sort(xs);
    var (lo, rem) := Rank(num, den, |s| - 1);
    assert Quantile(xs, num, den) == Interpolate(s, lo, rem, den);
    InterpolateWithinEnds(s, lo, rem, den);
  }

  lemma ScaleMonotone(r1: nat, r2: nat, den: nat, d: real)
    requires r1 <= r2 && 0 < den && 0.0 <= d
    ensures (r1 as real / den as real) * d <= (r2 as real / den as real) * d
  {
    var f1, f2 := r1 as real / den as real, r2 as real / den as real;
    assert f1 <= f2;
    assert (f2 - f1) * d >= 0.0;
  }

  /** A larger probability never gives a smaller quantile. */
  lemma QuantileMonotone(xs: seq<real>, num1: nat, num2: nat, den: nat)
    requires |xs| > 0 && 0 < den && num1 <= num2 <= den
    ensures Quantile(xs, num1, den) <= Quantile(xs, num2, den)
  {
    var s := Sort(xs);
    RankMonotone(num1, num2, den, |s| - 1);
    var (lo1, r1) := Rank(num1, den, |s| - 1);
    var (lo2, r2) := Rank(num2, den, |s| - 1);
    InterpolateMonotone(s, lo1, r1, lo2, r2, den);
  }

  /** The median is the quantile at one half. */
  lemma MedianIsMiddleQuantile(xs: seq<real>)
    requires |xs| > 0
    ensures Median(xs) == Quantile(xs, 1, 2)
  {
    var s := Sort(xs);
    var n := |s|;
    var (lo, rem) := Rank(1, 2, n - 1);
    assert Quantile(xs, 1, 2) == Interpolate(s, lo, rem, 2);
    assert 2 * lo + rem == n - 1 && rem < 2;
    if n % 2 == 1 {
      assert lo == n / 2 && rem == 0;
    } else {
      assert lo == n / 2 - 1 && rem == 1;
      HalfWay(s[lo], s[lo + 1]);
    }
  }

  lemma HalfWay(a: real, b: real)
    ensures a + (1 as real / 2 as real) * (b - a) == (a + b) / 2.0
  {
  }

  /** So the median obeys the quantile's bounds. */
  lemma MedianWithinRange(xs: seq<real>)
    requires |xs| > 0
    ensures Min(xs) <= Median(xs) <= Max(xs)
  {
    MedianIsMiddleQuantile(xs);
    QuantileWithinRange(xs, 1, 2);
  }

  /** How often `v` occurs in `vals`. */
  function Count(vals: seq<int>, v: int): nat {
    if |vals| == 0 then 0
    else Count(vals[..|vals| - 1], v) + (if vals[|vals| - 1] == v then 1 else 0)
  }

  /** `a` is ranked ahead of `b` by `Series.mode()`: more frequent, or as frequent
      and smaller (pandas returns the modes sorted). */
  predicate RankedAhead(a: int, b: int, vals: seq<int>) {
    Count(vals, a) > Count(vals, b) || (Count(vals, a) == Count(vals, b) && a < b)
  }

  /** The candidate that no other candidate is ranked ahead of. */
  function Best(cands: seq<int>, vals: seq<int>): (m: int)
    requires |cands| > 0
    ensures m in cands
    ensures forall c :: c in cands ==> !RankedAhead(c, m, vals)
  {
    if |cands| == 1 then cands[0]
    else
      var b := Best(cands[1..], vals);
      assert cands == [cands[0]] + cands[1..];
      if RankedAhead(cands[0], b, vals) then cands[0] else b
  }

  /** `m` is a most frequent value of `vals`, and the smallest of those. */
  predicate IsSmallestMode(vals: seq<int>, m: int) {
    && m in vals
    && (forall v :: v in vals ==> Count(vals, v) <= Count(vals, m))
    && (forall v :: v in vals && Count(vals, v) == Count(vals, m) ==> m <= v)
  }

  /** `Series.mode()[0]`: the most frequent value, the smallest one on a tie. */
  function Mode(vals: seq<int>): (m: int)
    requires |vals| > 0
    ensures IsSmallestMode(vals, m)
  {
    Best(vals, vals)
  }

  /** Only one value is the smallest mode: the tie-break is deterministic. */
  lemma ModeIsUnique(vals: seq<int>, m: int)
    requires |vals| > 0 && IsSmallestMode(vals, m)
    ensures m == Mode(vals)
  {
  }
}
