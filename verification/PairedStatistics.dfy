/**
 Median, interquartile spread and the bootstrap interval of the paired benchmark,
 in exact arithmetic and for every stream of random draws.
 */
module PairedStatistics {
  import opened Common
  import opened OrderStatistics

  /** `ZeroQuartile` stands for the infinite or undefined quotient of a division by zero. */
  datatype Failure = EmptySample | ArgumentOutOfRange | ZeroQuartile

  datatype Result<+T> = Success(value: T) | Failed(failure: Failure)

  datatype Interval = Interval(lower: real, upper: real)

  // ---------- median ----------

  function MedianOf(s: Sample): real
    requires s != []
  {
    var sorted, midpoint := Sort(s), |s| / 2;
    if |s| % 2 == 0 then (sorted[midpoint - 1] + sorted[midpoint]) / 2.0 else sorted[midpoint]
  }

  /** The value of the middle rank, or the mean of the values of the two middle ranks. */
  ghost predicate IsMedian(s: Sample, m: real) {
    if |s| % 2 == 1 then HasRank(s, |s| / 2, m)
    else
      var middle := |s| / 2;
      var before := middle - 1;
      middle > 0 && exists low, high :: HasRank(s, before, low) && HasRank(s, middle, high) && 2.0 * m == low + high
  }

  lemma MedianIsMedian(s: Sample)
    requires s != []
    ensures IsMedian(s, MedianOf(s))
  {
    hide Sort, HasRank;
    var middle := |s| / 2;
    SortedHasRank(s, middle);
    if |s| % 2 == 0 {
      SortedHasRank(s, middle - 1);
      var low, high := Sort(s)[middle - 1], Sort(s)[middle];
      assert HasRank(s, middle - 1, low) && HasRank(s, middle, high) && 2.0 * MedianOf(s) == low + high;
    }
  }

  method Median(values: Sample) returns (r: Result<real>)
    ensures values == [] ==> r == Failed(EmptySample)
    ensures values != [] ==> r == Success(MedianOf(values)) && IsMedian(values, r.value)
  {
    var sorted := Sort(values);
    if |sorted| == 0 {
      return Failed(EmptySample);
    }
    MedianIsMedian(values);
    var midpoint := |sorted| / 2;
    r := Success(if |sorted| % 2 == 0 then (sorted[midpoint - 1] + sorted[midpoint]) / 2.0 else sorted[midpoint]);
  }

  lemma MedianIsMonotone(a: Sample, b: Sample)
    requires a != [] && Dominated(a, b)
    ensures MedianOf(a) <= MedianOf(b)
  {
    SortIsMonotone(a, b);
  }

  lemma MedianWithin(s: Sample, low: real, high: real)
    requires s != [] && forall i :: 0 <= i < |s| ==> low <= s[i] <= high
    ensures low <= MedianOf(s) <= high
  {
    SortedWithin(s, low, high);
  }

  function Shift(c: real): real -> real {
    x => x + c
  }

  function Negate(x: real): real {
    -x
  }

  lemma MedianShifts(s: Sample, c: real)
    requires s != []
    ensures MedianOf(Map(Shift(c), s)) == MedianOf(s) + c
  {
    SortOfIncreasingMap(Shift(c), s);
  }

  lemma MedianNegates(s: Sample)
    requires s != []
    ensures MedianOf(Map(Negate, s)) == -MedianOf(s)
  {
    hide Sort, Map;
    SortOfNegated(s);
  }

  lemma SortOfNegated(s: Sample)
    ensures forall i :: 0 <= i < |s| ==> Sort(Map(Negate, s))[i] == -Sort(s)[|s| - 1 - i]
  {
    hide Sort;
    NegateDecreases();
    SortOfDecreasingMap(Negate, s);
  }

  lemma NegateDecreases()
    ensures Decreasing(Negate)
  {
  }

  /** For an odd sample the median commutes with every increasing map. */
  lemma OddMedianCommutes(f: real -> real, s: Sample)
    requires |s| % 2 == 1 && Increasing(f)
    ensures MedianOf(Map(f, s)) == f(MedianOf(s))
  {
    SortOfIncreasingMap(f, s);
  }

  // ---------- interquartile spread ----------

  predicate Positive(s: Sample) {
    forall i :: 0 <= i < |s| ==> s[i] > 0.0
  }

  lemma PositiveSorted(s: Sample)
    requires Positive(s)
    ensures Positive(Sort(s))
  {
    SortIsSortedPermutation(s);
    forall i | 0 <= i < |s| ensures Sort(s)[i] > 0.0 {
      var x := Sort(s)[i];
      assert x in multiset(Sort(s));
      assert x in s;
    }
  }

  function LowerQuartile(n: nat): (index: nat)
    requires n > 0
    ensures index < n
  {
    ((n - 1) as real * 0.25).Floor
  }

  function UpperQuartile(n: nat): (index: nat)
    requires n > 0
    ensures index < n && LowerQuartile(n) <= index
  {
    Ceiling((n - 1) as real * 0.75)
  }

  function SpreadOf(s: Sample): real
    requires s != [] && Positive(s)
  {
    PositiveSorted(s);
    Sort(s)[UpperQuartile(|s|)] / Sort(s)[LowerQuartile(|s|)]
  }

  /** A quarter of the last index, rounded down, and three quarters of it, rounded up. */
  lemma QuartileIndices(n: nat)
    requires n > 0
    ensures LowerQuartile(n) == (n - 1) / 4 && UpperQuartile(n) == (3 * (n - 1) + 3) / 4
  {
    var last, q := n - 1, (n - 1) / 4;
    assert (4 * q) as real <= last as real < (4 * q + 4) as real;
    assert q as real <= last as real * 0.25 < q as real + 1.0;
    var u := (3 * last + 3) / 4;
    assert (3 * last) as real <= (4 * u) as real < (3 * last + 4) as real;
    assert last as real * 0.75 <= u as real < last as real * 0.75 + 1.0;
  }

  /** The quotient of the values of the two quartile ranks. */
  ghost predicate IsSpread(s: Sample, spread: real) {
    |s| > 0 &&
    var lower, upper := (|s| - 1) / 4, (3 * (|s| - 1) + 3) / 4;
    exists low, high :: HasRank(s, lower, low) && HasRank(s, upper, high) && low > 0.0 && spread == high / low
  }

  lemma SpreadIsSpread(s: Sample)
    requires s != [] && Positive(s)
    ensures IsSpread(s, SpreadOf(s))
  {
    hide Sort, HasRank, LowerQuartile, UpperQuartile;
    QuartileIndices(|s|);
    PositiveSorted(s);
    var lower, upper := (|s| - 1) / 4, (3 * (|s| - 1) + 3) / 4;
    assert lower == LowerQuartile(|s|) && upper == UpperQuartile(|s|);
    SortedHasRank(s, lower);
    SortedHasRank(s, upper);
    var low, high := Sort(s)[lower], Sort(s)[upper];
    assert Positive(Sort(s)) && low > 0.0;
    assert SpreadOf(s) == high / low;
    assert HasRank(s, lower, low) && HasRank(s, upper, high);
  }

  method InterquartileSpread(values: Sample) returns (r: Result<real>)
    ensures values == [] ==> r == Failed(EmptySample)
    ensures values != [] && Sort(values)[LowerQuartile(|values|)] == 0.0 ==> r == Failed(ZeroQuartile)
    ensures values != [] && Sort(values)[LowerQuartile(|values|)] != 0.0 ==>
              r == Success(Sort(values)[UpperQuartile(|values|)] / Sort(values)[LowerQuartile(|values|)])
    ensures values != [] && Positive(values) ==> r == Success(SpreadOf(values)) && IsSpread(values, r.value)
  {
    hide Sort, LowerQuartile, UpperQuartile, IsSpread;
    var sorted := Sort(values);
    if |sorted| == 0 {
      return Failed(EmptySample);
    }
    var lower := sorted[LowerQuartile(|sorted|)];
    var upper := sorted[UpperQuartile(|sorted|)];
    if Positive(values) {
      PositiveSorted(values);
      SpreadIsSpread(values);
    }
    r := if lower == 0.0 then Failed(ZeroQuartile) else Success(upper / lower);
  }

  function Scale(k: real): real -> real {
    x => k * x
  }

  lemma SpreadAtLeastOne(s: Sample)
    requires s != [] && Positive(s)
    ensures SpreadOf(s) >= 1.0
  {
    hide Sort, LowerQuartile, UpperQuartile;
    var sorted := Sort(s);
    PositiveSorted(s);
    SortIsSortedPermutation(s);
    ScaledQuotient(sorted[LowerQuartile(|s|)], sorted[UpperQuartile(|s|)], 1.0);
  }

  /** The spread does not depend on the unit of measurement. */
  lemma SpreadIgnoresUnit(s: Sample, k: real)
    requires s != [] && Positive(s) && k > 0.0
    ensures Positive(Map(Scale(k), s)) && SpreadOf(Map(Scale(k), s)) == SpreadOf(s)
  {
    hide Sort, LowerQuartile, UpperQuartile, Positive;
    var sorted := Sort(s);
    SortIsSortedPermutation(s);
    PositiveSorted(s);
    PositiveQuartiles(s);
    ScaledQuotient(sorted[LowerQuartile(|s|)], sorted[UpperQuartile(|s|)], k);
    ScaleIncreases(k);
    PositiveScaled(s, k);
    SortOfIncreasingMap(Scale(k), s);
  }

  lemma PositiveQuartiles(s: Sample)
    requires s != [] && Positive(s)
    ensures 0.0 < Sort(s)[LowerQuartile(|s|)] <= Sort(s)[UpperQuartile(|s|)]
  {
    hide Sort, LowerQuartile, UpperQuartile;
    PositiveSorted(s);
    SortIsSortedPermutation(s);
  }

  lemma PositiveScaled(s: Sample, k: real)
    requires Positive(s) && k > 0.0
    ensures Positive(Map(Scale(k), s))
  {
    forall i | 0 <= i < |s| ensures Map(Scale(k), s)[i] > 0.0 {
      assert s[i] > 0.0;
    }
  }

  lemma ScaleIncreases(k: real)
    requires k > 0.0
    ensures Increasing(Scale(k))
  {
    forall x: real, y: real | x <= y ensures Scale(k)(x) <= Scale(k)(y) {
      assert k * (y - x) >= 0.0;
    }
  }

  lemma ScaledQuotient(lower: real, upper: real, k: real)
    requires 0.0 < lower <= upper && k > 0.0
    ensures upper / lower >= 1.0 && k * lower > 0.0 && (k * upper) / (k * lower) == upper / lower
  {
    var q := upper / lower;
    assert q * lower == upper;
    assert k * upper == q * (k * lower);
  }

  // ---------- the bootstrap ----------

  /** The source of random indices: the k-th draw. */
  type Draws = nat -> nat

  function Resample(x: Sample, draws: Draws, from: nat): (r: Sample)
    requires forall k :: draws(k) < |x|
    ensures |r| == |x| && forall i :: 0 <= i < |x| ==> r[i] == x[draws(from + i)]
  {
    seq(|x|, i requires 0 <= i < |x| => x[draws(from + i)])
  }

  function Medians(x: Sample, draws: Draws, resamples: nat): (r: Sample)
    requires x != [] && forall k :: draws(k) < |x|
    ensures |r| == resamples
    ensures forall b :: 0 <= b < resamples ==> r[b] == MedianOf(Resample(x, draws, b * |x|))
  {
    seq(resamples, b requires 0 <= b < resamples => MedianOf(Resample(x, draws, b * |x|)))
  }

  function LowerIndex(n: nat): (index: nat)
    requires n > 0
    ensures index < n
  {
    ((n - 1) as real * 0.025).Floor
  }

  function UpperIndex(n: nat): (index: nat)
    requires n > 0
    ensures index < n && LowerIndex(n) <= index
    ensures index == n - 1 - LowerIndex(n)
  {
    var last := (n - 1) as real;
    assert -(last * 0.975) == last * 0.025 + (-(n - 1)) as real;
    Ceiling(last * 0.975)
  }

  function IntervalOf(medians: Sample): Interval
    requires medians != []
  {
    Interval(Sort(medians)[LowerIndex(|medians|)], Sort(medians)[UpperIndex(|medians|)])
  }

  function Bootstrap(x: Sample, draws: Draws, resamples: nat): Interval
    requires x != [] && resamples > 0 && forall k :: draws(k) < |x|
  {
    IntervalOf(Medians(x, draws, resamples))
  }

  /** Array.Sort */
  method SortInPlace(a: array<real>)
    modifies a
    ensures a[..] == Sort(old(a[..]))
  {
    var sorted := Sort(a[..]);
    for i := 0 to a.Length
      invariant a[..i] == sorted[..i]
    {
      a[i] := sorted[i];
    }
    assert a[..] == a[..a.Length] && sorted[..a.Length] == sorted;
  }

  /** A fortieth of the last index, rounded down, and 39 fortieths of it, rounded up. */
  lemma IntervalIndices(n: nat)
    requires n > 0
    ensures LowerIndex(n) == (n - 1) / 40 && UpperIndex(n) == (39 * (n - 1) + 39) / 40
  {
    var last, q := n - 1, (n - 1) / 40;
    assert (40 * q) as real <= last as real < (40 * q + 40) as real;
    assert q as real <= last as real * 0.025 < q as real + 1.0;
    assert 39 * last + 39 == 40 * (last - q) + (39 - (last - 40 * q));
  }

  /** Each resample median is the median of as many draws as there are values, taken one after the other. */
  ghost predicate AreResampleMedians(medians: Sample, x: Sample, draws: Draws)
    requires forall k :: draws(k) < |x|
  {
    forall b :: 0 <= b < |medians| ==>
      IsMedian(seq(|x|, i requires 0 <= i < |x| => x[draws(b * |x| + i)]), medians[b])
  }

  lemma MediansAreMedians(x: Sample, draws: Draws, resamples: nat)
    requires x != [] && forall k :: draws(k) < |x|
    ensures AreResampleMedians(Medians(x, draws, resamples), x, draws)
  {
    hide MedianOf, IsMedian;
    forall b | 0 <= b < resamples
      ensures IsMedian(seq(|x|, i requires 0 <= i < |x| => x[draws(b * |x| + i)]), Medians(x, draws, resamples)[b])
    {
      var drawn := seq(|x|, i requires 0 <= i < |x| => x[draws(b * |x| + i)]);
      assert drawn == Resample(x, draws, b * |x|);
      MedianIsMedian(drawn);
    }
  }

  ghost function PositionsFrom(s: Sample, v: real): set<nat> {
    set i: nat | i < |s| && v <= s[i]
  }

  ghost function PositionsAbove(s: Sample, v: real): set<nat> {
    set i: nat | i < |s| && v < s[i]
  }

  /** At most one fortieth lies beyond either bound, and more than that up to and including it. */
  ghost predicate Covers95(medians: Sample, interval: Interval) {
    var last := |medians| - 1;
    && 40 * |PositionsBelow(medians, interval.lower)| <= last < 40 * |PositionsUpTo(medians, interval.lower)|
    && 40 * |PositionsAbove(medians, interval.upper)| <= last < 40 * |PositionsFrom(medians, interval.upper)|
  }

  lemma Complements(s: Sample, v: real)
    ensures |PositionsFrom(s, v)| == |s| - |PositionsBelow(s, v)|
    ensures |PositionsAbove(s, v)| == |s| - |PositionsUpTo(s, v)|
  {
    AllPositions(s);
    assert Positions(s) == PositionsFrom(s, v) + PositionsBelow(s, v);
    assert Positions(s) == PositionsAbove(s, v) + PositionsUpTo(s, v);
  }

  ghost function Positions(s: Sample): set<nat> {
    set i: nat | i < |s| && s[i] == s[i]
  }

  lemma {:induction false} AllPositions(s: Sample)
    ensures |Positions(s)| == |s|
  {
    if s == [] {
      assert Positions(s) == {};
    } else {
      var front := s[..|s| - 1];
      AllPositions(front);
      assert Positions(s) == Positions(front) + {|s| - 1};
    }
  }

  lemma IntervalCovers(medians: Sample)
    requires medians != []
    ensures Covers95(medians, IntervalOf(medians))
  {
    hide Sort, LowerIndex, UpperIndex, PositionsBelow, PositionsUpTo, PositionsFrom, PositionsAbove;
    var n := |medians|;
    IntervalIndices(n);
    SortedHasRank(medians, LowerIndex(n));
    SortedHasRank(medians, UpperIndex(n));
    Complements(medians, IntervalOf(medians).upper);
  }

  /** For every stream of draws the bounds cut off one fortieth of the resample medians on either side. */
  lemma BootstrapCovers(x: Sample, draws: Draws, resamples: nat)
    requires x != [] && resamples > 0 && forall k :: draws(k) < |x|
    ensures exists medians :: |medians| == resamples && AreResampleMedians(medians, x, draws) &&
                              Covers95(medians, Bootstrap(x, draws, resamples))
  {
    hide Medians, IntervalOf, AreResampleMedians, Covers95;
    var medians := Medians(x, draws, resamples);
    MediansAreMedians(x, draws, resamples);
    IntervalCovers(medians);
    assert |medians| == resamples && AreResampleMedians(medians, x, draws) && Covers95(medians, Bootstrap(x, draws, resamples));
  }

  method BootstrapMedianLogRatio(logRatios: Sample, draws: Draws, resamples: int) returns (r: Result<Interval>)
    requires forall k :: logRatios != [] ==> draws(k) < |logRatios|
    ensures logRatios == [] ==> r == Failed(EmptySample)
    ensures logRatios != [] && resamples <= 0 ==> r == Failed(ArgumentOutOfRange)
    ensures logRatios != [] && resamples > 0 ==> r == Success(Bootstrap(logRatios, draws, resamples))
    ensures logRatios != [] && resamples > 0 ==>
              exists medians :: |medians| == resamples && AreResampleMedians(medians, logRatios, draws) &&
                                Covers95(medians, r.value)
  {
    if |logRatios| == 0 {
      return Failed(EmptySample);
    }
    if resamples <= 0 {
      return Failed(ArgumentOutOfRange);
    }
    hide Medians, MedianOf, Sort, LowerIndex, UpperIndex, AreResampleMedians, Covers95;
    BootstrapCovers(logRatios, draws, resamples);
    var bootstrapMedians := new real[resamples];
    FillMedians(bootstrapMedians, logRatios, draws);
    SortInPlace(bootstrapMedians);
    var lowerIndex := LowerIndex(bootstrapMedians.Length);
    var upperIndex := UpperIndex(bootstrapMedians.Length);
    r := Success(Interval(bootstrapMedians[lowerIndex], bootstrapMedians[upperIndex]));
  }

  /** The outer loop: one median for each resample, over one stream of draws. */
  method FillMedians(bootstrapMedians: array<real>, x: Sample, draws: Draws)
    requires x != [] && forall k :: draws(k) < |x|
    modifies bootstrapMedians
    ensures bootstrapMedians[..] == Medians(x, draws, bootstrapMedians.Length)
  {
    hide Medians, Resample, MedianOf, Sort;
    var drawn := 0;
    var resample := new real[|x|];
    for b := 0 to bootstrapMedians.Length
      invariant forall k :: 0 <= k < b ==> bootstrapMedians[k] == Medians(x, draws, bootstrapMedians.Length)[k]
      invariant drawn == b * |x|
    {
      assert (b + 1) * |x| == b * |x| + |x|;
      drawn := FillResample(resample, x, draws, drawn);
      var median := Median(resample[..]);
      bootstrapMedians[b] := median.value;
    }
  }

  /** The inner loop: one resample, drawn with replacement. */
  method FillResample(resample: array<real>, x: Sample, draws: Draws, from: nat) returns (drawn: nat)
    requires resample.Length == |x| && forall k :: draws(k) < |x|
    modifies resample
    ensures resample[..] == Resample(x, draws, from)
    ensures drawn == from + |x|
  {
    drawn := from;
    for i := 0 to resample.Length
      invariant drawn == from + i
      invariant forall k :: 0 <= k < i ==> resample[k] == x[draws(from + k)]
    {
      resample[i] := x[draws(drawn)];
      drawn := drawn + 1;
    }
  }

  // ---------- what the interval means, for every stream of draws ----------

  lemma BootstrapWithin(x: Sample, draws: Draws, resamples: nat, low: real, high: real)
    requires x != [] && resamples > 0 && forall k :: draws(k) < |x|
    requires forall i :: 0 <= i < |x| ==> low <= x[i] <= high
    ensures low <= Bootstrap(x, draws, resamples).lower
    ensures Bootstrap(x, draws, resamples).lower <= Bootstrap(x, draws, resamples).upper
    ensures Bootstrap(x, draws, resamples).upper <= high
  {
    var medians := Medians(x, draws, resamples);
    forall b | 0 <= b < resamples ensures low <= medians[b] <= high {
      MedianWithin(Resample(x, draws, b * |x|), low, high);
    }
    SortedWithin(medians, low, high);
    SortIsSortedPermutation(medians);
  }

  /** Raising any log ratios never lowers either bound. */
  lemma BootstrapIsMonotone(x: Sample, y: Sample, draws: Draws, resamples: nat)
    requires x != [] && Dominated(x, y) && resamples > 0 && forall k :: draws(k) < |x|
    ensures Bootstrap(x, draws, resamples).lower <= Bootstrap(y, draws, resamples).lower
    ensures Bootstrap(x, draws, resamples).upper <= Bootstrap(y, draws, resamples).upper
  {
    hide Sort, MedianOf, LowerIndex, UpperIndex;
    var a, b := Medians(x, draws, resamples), Medians(y, draws, resamples);
    forall k | 0 <= k < resamples ensures a[k] <= b[k] {
      MedianIsMonotone(Resample(x, draws, k * |x|), Resample(y, draws, k * |x|));
    }
    SortIsMonotone(a, b);
  }

  /** A common factor on all ratios shifts the interval and nothing else. */
  lemma BootstrapShifts(x: Sample, draws: Draws, resamples: nat, c: real)
    requires x != [] && resamples > 0 && forall k :: draws(k) < |x|
    ensures var i := Bootstrap(x, draws, resamples);
            Bootstrap(Map(Shift(c), x), draws, resamples) == Interval(i.lower + c, i.upper + c)
  {
    hide Sort, MedianOf, LowerIndex, UpperIndex;
    var a, b := Medians(x, draws, resamples), Medians(Map(Shift(c), x), draws, resamples);
    forall k | 0 <= k < resamples ensures b[k] == a[k] + c {
      var r := Resample(x, draws, k * |x|);
      MedianShifts(r, c);
      assert Resample(Map(Shift(c), x), draws, k * |x|) == Map(Shift(c), r);
    }
    assert b == Map(Shift(c), a);
    SortOfIncreasingMap(Shift(c), a);
  }

  /** Exchanging the two lanes negates the log ratios and mirrors the interval. */
  lemma BootstrapMirrors(x: Sample, draws: Draws, resamples: nat)
    requires x != [] && resamples > 0 && forall k :: draws(k) < |x|
    ensures var i := Bootstrap(x, draws, resamples);
            Bootstrap(Map(Negate, x), draws, resamples) == Interval(-i.upper, -i.lower)
  {
    hide Sort, MedianOf, LowerIndex, UpperIndex;
    var a, b := Medians(x, draws, resamples), Medians(Map(Negate, x), draws, resamples);
    forall k | 0 <= k < resamples ensures b[k] == -a[k] {
      var r := Resample(x, draws, k * |x|);
      MedianNegates(r);
      assert Resample(Map(Negate, x), draws, k * |x|) == Map(Negate, r);
    }
    assert b == Map(Negate, a);
    SortOfNegated(a);
  }
}
