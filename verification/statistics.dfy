/**
 * StatisticsService: descriptive statistics over lists of Java `int` values.
 * Averages are exact reals where the service computes in `double`, and the
 * square root is a parameter (`Math.sqrt`).
 */
module Statistics {
  import opened Basics

  function Sum(v: seq<int>): int
  {
    if v == [] then 0 else v[0] + Sum(v[1..])
  }

  /** `calculateMean`: 0.0 for an empty list, otherwise the exact average. */
  function Mean(values: seq<Int32>): (m: real)
    ensures values == [] ==> m == 0.0
    ensures values != [] ==> m * |values| as real == Sum(values) as real
  {
    if values == [] then 0.0 else Sum(values) as real / |values| as real
  }

  /** `findMinimum`: null (`None`) for an empty list, otherwise an element no larger than any other. */
  function FindMinimum(values: seq<Int32>): (r: Option<Int32>)
    ensures r.None? <==> values == []
    ensures r.Some? ==> r.value in values && forall x :: x in values ==> r.value <= x
  {
    if values == [] then None
    else
      var rest := FindMinimum(values[1..]);
      assert values == [values[0]] + values[1..];
      if rest.None? || values[0] <= rest.value then Some(values[0]) else rest
  }

  /** `findMaximum`: null (`None`) for an empty list, otherwise an element no smaller than any other. */
  function FindMaximum(values: seq<Int32>): (r: Option<Int32>)
    ensures r.None? <==> values == []
    ensures r.Some? ==> r.value in values && forall x :: x in values ==> x <= r.value
  {
    if values == [] then None
    else
      var rest := FindMaximum(values[1..]);
      assert values == [values[0]] + values[1..];
      if rest.None? || values[0] >= rest.value then Some(values[0]) else rest
  }

  function Key(x: Int32): int
  {
    x
  }

  /** `values.stream().sorted().toList()`. */
  function Ascending(values: seq<Int32>): (r: seq<Int32>)
    ensures SortedBy(r, Key)
    ensures multiset(r) == multiset(values)
    ensures |r| == |values|
  {
    SortBy(values, Key)
  }

  /** A permutation has the same elements. */
  lemma SameElements(a: seq<Int32>, b: seq<Int32>)
    requires multiset(a) == multiset(b)
    ensures forall x :: x in a <==> x in b
  {
    forall x
      ensures x in a <==> x in b
    {
      assert x in a <==> x in multiset(a);
      assert x in b <==> x in multiset(b);
    }
  }

  lemma SortedEnds(s: seq<Int32>, x: Int32)
    requires SortedBy(s, Key) && x in s
    ensures s[0] <= x <= s[|s| - 1]
  {
    var i :| 0 <= i < |s| && s[i] == x;
    assert Key(s[0]) <= Key(s[i]) <= Key(s[|s| - 1]);
  }

  /** The smallest value is the first of the sorted list, the largest the last. */
  lemma ExtremesOfSorted(values: seq<Int32>)
    requires values != []
    ensures FindMinimum(values) == Some(Ascending(values)[0])
    ensures FindMaximum(values) == Some(Ascending(values)[|values| - 1])
  {
    var s := Ascending(values);
    SameElements(values, s);
    LeastIsFirst(values, s);
    GreatestIsLast(values, s);
  }

  lemma LeastIsFirst(values: seq<Int32>, s: seq<Int32>)
    requires values != [] && |s| == |values| && SortedBy(s, Key)
    requires forall x :: x in values <==> x in s
    ensures FindMinimum(values) == Some(s[0])
  {
    var lo := FindMinimum(values).value;
    SortedEnds(s, lo);
    assert s[0] in values;
  }

  lemma GreatestIsLast(values: seq<Int32>, s: seq<Int32>)
    requires values != [] && |s| == |values| && SortedBy(s, Key)
    requires forall x :: x in values <==> x in s
    ensures FindMaximum(values) == Some(s[|s| - 1])
  {
    var hi := FindMaximum(values).value;
    SortedEnds(s, hi);
    assert s[|s| - 1] in values;
  }

  /**
   * `calculateMedian` as intended: 0.0 for an empty list, the middle element of
   * the sorted list for an odd length, and the exact mean of the two middle
   * elements for an even length.
   */
  function Median(values: seq<Int32>): (m: real)
    ensures values == [] ==> m == 0.0
  {
    if values == [] then 0.0
    else
      var s := Ascending(values);
      var n := |s|;
      if n % 2 == 0 then (s[n / 2 - 1] as int + s[n / 2] as int) as real / 2.0 else s[n / 2] as real
  }

  /**
   * `calculateMedian` as written: the two middle `int`s are added in 32-bit
   * arithmetic before the division, so their sum wraps around.
   */
  function MedianAsWritten(values: seq<Int32>): (m: real)
    ensures values == [] ==> m == 0.0
    ensures |values| % 2 == 1 ==> m == Median(values)
    ensures m == Median(values) || m == Median(values) - 2147483648.0 || m == Median(values) + 2147483648.0
  {
    if values == [] then 0.0
    else
      var s := Ascending(values);
      var n := |s|;
      if n % 2 == 0 then
        var sum := s[n / 2 - 1] as int + s[n / 2] as int;
        WrapShift(sum);
        Wrap32(sum) as real / 2.0
      else s[n / 2] as real
  }

  /** A sum of two `int`s wraps around at most once, by 2^32 either way. */
  lemma WrapShift(x: int)
    requires -0x1_0000_0000 <= x < 0x1_0000_0000
    ensures Wrap32(x) == x || Wrap32(x) == x - 0x1_0000_0000 || Wrap32(x) == x + 0x1_0000_0000
  {
    var r := Wrap32(x);
    var k := (r - x) / 0x1_0000_0000;
    assert r - x == k * 0x1_0000_0000;
  }

  /** The median always lies between the smallest and the largest value. */
  lemma MedianBetweenExtremes(values: seq<Int32>)
    requires values != []
    ensures FindMinimum(values).value as real <= Median(values) <= FindMaximum(values).value as real
  {
    ExtremesOfSorted(values);
    var s := Ascending(values);
    var n := |s|;
    assert Key(s[0]) <= Key(s[n / 2]) <= Key(s[n - 1]);
    if n % 2 == 0 {
      assert Key(s[0]) <= Key(s[n / 2 - 1]) <= Key(s[n - 1]);
    }
  }

  /** Where the two middle values fit in an `int`, the code as written agrees with the intended median. */
  lemma MedianAsWrittenAgrees(values: seq<Int32>)
    requires values != []
    requires var s := Ascending(values); var n := |s|;
      n % 2 == 0 ==> -0x8000_0000 <= s[n / 2 - 1] as int + s[n / 2] as int < 0x8000_0000
    ensures MedianAsWritten(values) == Median(values)
  {
  }

  /** Two maximal ages: the intended median is 2147483647, the code as written answers -1. */
  lemma MedianAsWrittenOverflows()
    ensures Median([0x7FFF_FFFF, 0x7FFF_FFFF]) == 2147483647.0
    ensures MedianAsWritten([0x7FFF_FFFF, 0x7FFF_FFFF]) == -1.0
  {
    var v: seq<Int32> := [0x7FFF_FFFF, 0x7FFF_FFFF];
    var s := Ascending(v);
    assert multiset(s) == multiset{0x7FFF_FFFF, 0x7FFF_FFFF};
    assert s[0] in multiset(s) && s[1] in multiset(s);
    assert s == v;
    assert Wrap32(0x7FFF_FFFF + 0x7FFF_FFFF) == -2;
  }

  /** Java's `Math.ceil` on an exact real. */
  function Ceil(x: real): (c: int)
    ensures x <= c as real < x + 1.0
  {
    if x.Floor as real == x then x.Floor else x.Floor + 1
  }

  /**
   * The fractional rank `(percentile / 100.0) * (size - 1)`, computed as
   * `percentile * (size - 1) / 100`, which is the same exact real.
   */
  function Rank(percentile: int, n: nat): (index: real)
    requires 0 < percentile < 100 && n >= 1
    ensures 0.0 <= index <= (n - 1) as real
    ensures n > 1 ==> index < (n - 1) as real
    ensures 0 <= index.Floor <= Ceil(index) <= n - 1
  {
    var scaled := percentile * (n - 1);
    ScaledRankBounds(percentile, n - 1);
    FloorCeilWithin(scaled as real / 100.0, n - 1);
    scaled as real / 100.0
  }

  lemma ScaledRankBounds(p: int, top: nat)
    requires 0 < p < 100
    ensures 0 <= p * top <= 100 * top
    ensures top > 0 ==> p * top < 100 * top
  {
  }

  lemma FloorCeilWithin(x: real, top: int)
    requires 0.0 <= x <= top as real
    ensures 0 <= x.Floor <= Ceil(x) <= top
  {
  }

  /** Linear interpolation between two neighbouring ranks of a sorted list. */
  function Interpolate(s: seq<Int32>, index: real): (r: real)
    requires 0 <= index.Floor <= Ceil(index) < |s|
    ensures s[index.Floor] <= s[Ceil(index)] ==> s[index.Floor] as real <= r <= s[Ceil(index)] as real
  {
    var lower := index.Floor;
    var upper := Ceil(index);
    if lower == upper then s[lower] as real
    else
      var weight := index - lower as real;
      assert 0.0 <= weight <= 1.0;
      WeightedBetween(s[lower] as real, s[upper] as real, weight);
      Times(s[lower] as real, 1.0 - weight) + Times(s[upper] as real, weight)
  }

  /**
   * `calculatePercentile`: 0.0 for an empty list or a percentile outside 0..100,
   * the sorted extremes at 0 and 100, and linear interpolation between the two
   * neighbouring ranks otherwise.
   */
  function Percentile(values: seq<Int32>, percentile: int): (r: real)
    ensures values == [] || percentile < 0 || percentile > 100 ==> r == 0.0
    ensures values != [] && percentile == 0 ==> r == Ascending(values)[0] as real
    ensures values != [] && percentile == 100 ==> r == Ascending(values)[|values| - 1] as real
  {
    if values == [] || percentile < 0 || percentile > 100 then 0.0
    else
      var s := Ascending(values);
      if percentile == 0 then s[0] as real
      else if percentile == 100 then s[|s| - 1] as real
      else Interpolate(s, Rank(percentile, |s|))
  }

  lemma InterpolationBetween(s: seq<Int32>, index: real)
    requires 0 <= index.Floor <= Ceil(index) < |s|
    requires SortedBy(s, Key)
    ensures s[0] as real <= Interpolate(s, index) <= s[|s| - 1] as real
  {
    var lower := index.Floor;
    var upper := Ceil(index);
    assert Key(s[0]) <= Key(s[lower]) <= Key(s[upper]) <= Key(s[|s| - 1]);
  }

  lemma WeightedBetween(a: real, b: real, w: real)
    requires 0.0 <= w <= 1.0
    ensures a <= b ==> a <= Times(a, 1.0 - w) + Times(b, w) <= b
  {
    Spread(a, b, w);
    if a <= b {
      ScaleBetween(b - a, w);
      Combine(a, b, Times(a, 1.0 - w) + Times(b, w), Times(b - a, w));
    }
  }

  lemma Spread(a: real, b: real, w: real)
    ensures Times(a, 1.0 - w) + Times(b, w) == a + Times(b - a, w)
  {
  }

  lemma Combine(a: real, b: real, e: real, t: real)
    requires e == a + t && 0.0 <= t <= b - a
    ensures a <= e <= b
  {
  }

  lemma ScaleBetween(c: real, w: real)
    requires c >= 0.0 && 0.0 <= w <= 1.0
    ensures 0.0 <= Times(c, w) <= c
  {
    assert c - c * w == c * (1.0 - w);
    assert c * (1.0 - w) >= 0.0;
  }

  /** Every percentile of a non-empty list lies between its smallest and largest value. */
  lemma PercentileBetweenExtremes(values: seq<Int32>, percentile: int)
    requires values != [] && 0 <= percentile <= 100
    ensures FindMinimum(values).value as real <= Percentile(values, percentile) <= FindMaximum(values).value as real
  {
    ExtremesOfSorted(values);
    var s := Ascending(values);
    if 0 < percentile < 100 {
      InterpolationBetween(s, Rank(percentile, |s|));
    } else {
      assert Key(s[0]) <= Key(s[|s| - 1]);
    }
  }

  lemma FloorOf(k: int, f: real)
    requires 0.0 <= f < 1.0
    ensures (k as real + f).Floor == k
  {
  }

  /** The 50th percentile is the median, for every length. */
  lemma {:induction false} PercentileFiftyIsMedian(values: seq<Int32>)
    ensures Percentile(values, 50) == Median(values)
  {
    if values != [] {
      var s := Ascending(values);
      var n := |s|;
      assert Percentile(values, 50) == Interpolate(s, Rank(50, n));
      MiddleRank(n);
      if n % 2 == 1 {
        assert Rank(50, n) == (n / 2) as real;
        InterpolateAtRank(s, n / 2);
      } else {
        assert Rank(50, n) == (n / 2 - 1) as real + 0.5;
        InterpolateHalfway(s, n / 2 - 1);
      }
    }
  }

  lemma MiddleRank(n: nat)
    requires n >= 1
    ensures Rank(50, n) == (n - 1) as real / 2.0
  {
  }

  lemma InterpolateAtRank(s: seq<Int32>, k: int)
    requires 0 <= k < |s|
    ensures Interpolate(s, k as real) == s[k] as real
  {
    assert (k as real).Floor == k;
  }

  lemma InterpolateHalfway(s: seq<Int32>, k: int)
    requires 0 <= k && k + 1 < |s|
    ensures Interpolate(s, k as real + 0.5) == (s[k] as int + s[k + 1] as int) as real / 2.0
  {
    FloorOf(k, 0.5);
    assert Ceil(k as real + 0.5) == k + 1;
    WeightedHalf(s[k] as real, s[k + 1] as real);
  }

  lemma WeightedHalf(a: real, b: real)
    ensures Times(a, 1.0 - 0.5) + Times(b, 0.5) == (a + b) / 2.0
  {
  }

  /** Real multiplication, kept behind a function so the solver sees squares as ordinary products. */
  function Times(a: real, b: real): real
  {
    a * b
  }

  lemma TimesPositive(a: real, b: real)
    requires a > 0.0 && b > 0.0
    ensures Times(a, b) > 0.0
  {
  }

  lemma TimesNegate(a: real)
    ensures Times(-a, -a) == Times(a, a)
  {
  }

  /** A square is never negative, and zero only for zero. */
  lemma SquareFacts(x: real)
    ensures Times(x, x) >= 0.0
    ensures Times(x, x) == 0.0 <==> x == 0.0
  {
    if x > 0.0 {
      TimesPositive(x, x);
    } else if x < 0.0 {
      TimesPositive(-x, -x);
      TimesNegate(x);
    } else {
      assert Times(x, x) == Times(0.0, 0.0);
    }
  }

  /** The sum of squared distances from `m`. */
  function SquaredDeviations(v: seq<int>, m: real): (r: real)
    ensures r >= 0.0
  {
    if v == [] then 0.0
    else
      SquareFacts(v[0] as real - m);
      Times(v[0] as real - m, v[0] as real - m) + SquaredDeviations(v[1..], m)
  }

  /** The population variance, Σ(xᵢ - μ)² / N. */
  function Variance(values: seq<Int32>): (r: real)
    requires values != []
    ensures r >= 0.0
  {
    SquaredDeviations(values, Mean(values)) / |values| as real
  }

  /**
   * `calculateStandardDeviation`: 0.0 for an empty or one-element list,
   * otherwise `sqrt` of the population variance.
   */
  function StandardDeviation(values: seq<Int32>, sqrt: real -> real): (r: real)
    ensures |values| <= 1 ==> r == 0.0
  {
    if |values| <= 1 then 0.0 else sqrt(Variance(values))
  }

  /** How many values lie within `bound` of `m`. */
  function CountWithin(v: seq<int>, m: real, bound: real): (k: nat)
    ensures k <= |v|
  {
    if v == [] then 0
    else (if Abs2(v[0] as real - m) <= bound then 1 else 0) + CountWithin(v[1..], m, bound)
  }

  function Abs2(x: real): real
  {
    if x < 0.0 then -x else x
  }

  /**
   * `isWithinNormalRange`: true for fewer than three values or a zero
   * deviation, otherwise whether at least 90% of the values lie within two
   * standard deviations of the mean.
   */
  function IsWithinNormalRange(values: seq<Int32>, sqrt: real -> real): (ok: bool)
    ensures |values| < 3 ==> ok
  {
    if |values| < 3 then true
    else
      var mean := Mean(values);
      var stdDev := StandardDeviation(values, sqrt);
      if stdDev == 0.0 then true
      else CountWithin(values, mean, 2.0 * stdDev) as real / |values| as real >= 0.90
  }

  lemma {:induction false} SumBounds(v: seq<int>, lo: int, hi: int)
    requires forall x :: x in v ==> lo <= x <= hi
    ensures |v| * lo <= Sum(v) <= |v| * hi
    decreases |v|
  {
    if v != [] {
      assert forall x :: x in v[1..] ==> x in v;
      assert v[0] in v;
      SumBounds(v[1..], lo, hi);
      MulStep(|v| - 1, lo);
      MulStep(|v| - 1, hi);
    }
  }

  lemma MulStep(n: int, a: int)
    ensures (n + 1) * a == a + n * a
  {
  }

  lemma CastProduct(a: int, b: int)
    ensures (a * b) as real == a as real * b as real
  {
  }

  lemma IntQuotientBetween(total: int, n: int, lo: int, hi: int)
    requires n > 0 && n * lo <= total <= n * hi
    ensures lo as real <= total as real / n as real <= hi as real
  {
    CastProduct(n, lo);
    CastProduct(n, hi);
    QuotientBetween(total as real, n as real, lo as real, hi as real);
  }

  lemma QuotientBetween(total: real, n: real, lo: real, hi: real)
    requires n > 0.0 && n * lo <= total <= n * hi
    ensures lo <= total / n <= hi
  {
  }

  /** The mean of a non-empty list lies between its smallest and largest value. */
  lemma MeanBetweenExtremes(values: seq<Int32>)
    requires values != []
    ensures FindMinimum(values).value as real <= Mean(values) <= FindMaximum(values).value as real
  {
    var lo := FindMinimum(values).value;
    var hi := FindMaximum(values).value;
    SumBounds(values, lo, hi);
    IntQuotientBetween(Sum(values), |values|, lo, hi);
  }

  lemma {:induction false} SumConstant(v: seq<int>, c: int)
    requires forall i :: 0 <= i < |v| ==> v[i] == c
    ensures Sum(v) == |v| * c
    decreases |v|
  {
    if v != [] {
      SumConstant(v[1..], c);
    }
  }

  lemma {:induction false} SquaredDeviationsZero(v: seq<int>, m: real)
    ensures SquaredDeviations(v, m) == 0.0 <==> forall i :: 0 <= i < |v| ==> v[i] as real == m
    decreases |v|
  {
    if v != [] {
      SquaredDeviationsZero(v[1..], m);
      SquareFacts(v[0] as real - m);
      assert forall i :: 1 <= i < |v| ==> v[i] == v[1..][i - 1];
    }
  }

  lemma ZeroQuotient(x: real, n: real)
    requires n > 0.0
    ensures x / n == 0.0 <==> x == 0.0
  {
    assert x / n * n == x;
  }

  lemma DivideBack(n: int, c: int)
    requires n > 0
    ensures (n * c) as real / n as real == c as real
  {
    assert (n * c) as real == n as real * c as real;
  }

  /** The variance is zero exactly when all the values are equal. */
  lemma VarianceZeroIffConstant(values: seq<Int32>)
    requires values != []
    ensures Variance(values) == 0.0 <==> forall i :: 0 <= i < |values| ==> values[i] == values[0]
  {
    var m := Mean(values);
    SquaredDeviationsZero(values, m);
    ZeroQuotient(SquaredDeviations(values, m), |values| as real);
    if forall i :: 0 <= i < |values| ==> values[i] == values[0] {
      SumConstant(values, values[0]);
      DivideBack(|values|, values[0]);
      assert m == values[0] as real;
    } else {
      var i :| 0 <= i < |values| && values[i] != values[0];
      assert values[i] as real != m || values[0] as real != m;
    }
  }

  /** With a square root that maps 0 to 0, a list of equal values is always within the normal range. */
  lemma ConstantIsNormal(values: seq<Int32>, sqrt: real -> real)
    requires sqrt(0.0) == 0.0
    requires forall i :: 0 <= i < |values| ==> values[i] == values[0]
    ensures IsWithinNormalRange(values, sqrt)
  {
    if |values| >= 3 {
      VarianceZeroIffConstant(values);
    }
  }
}
