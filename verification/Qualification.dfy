/**
 The paired record that a qualification run produces, and the independently written
 checks that every stored record has to pass.
 */
module Qualification {
  import opened Common
  import opened OrderStatistics
  import opened PairedStatistics
  import opened InterleavedPair

  const PROTOCOL_VERSION := 9
  const MINIMUM_SAMPLES := 9
  const BOOTSTRAP_RESAMPLES := 10_000
  const MINIMUM_SAMPLE_MS: real := 20.0
  const MAXIMUM_SPREAD: real := 1.10
  const NEAR: real := 0.000_000_000_001

  datatype Status = Unqualified | Excluded | Inconclusive | Equivalent | ManagedFaster | NativeFaster

  /** The logarithm and exponential in use; what is needed of them is stated where it is. */
  datatype Logs = Logs(ln: real -> real, exp: real -> real)

  datatype Pair = Pair(
    protocolVersion: int,
    sampleCount: int,
    laneOrders: seq<LaneOrder>,
    managedMicroseconds: Sample,
    comparatorMicroseconds: Sample,
    managedMilliseconds: Sample,
    comparatorMilliseconds: Sample,
    pairedRatios: Sample,
    managedMedian: real,
    comparatorMedian: real,
    ratioMedian: real,
    ratioLower95: real,
    ratioUpper95: real,
    excessMedian: real,
    orderEffectRatio: real,
    managedSpread: real,
    comparatorSpread: real,
    status: Status)

  // ---------- the two status derivations ----------

  /** The producer's derivation, from the bounds of the log ratio. */
  function DeriveStatus(logs: Logs, lowerLogRatio: real, upperLogRatio: real, orderEffectRatio: real,
                        managedSpread: real, comparatorSpread: real, durationsQualified: bool): Status
  {
    if !durationsQualified then Unqualified
    else if managedSpread > MAXIMUM_SPREAD || comparatorSpread > MAXIMUM_SPREAD then Inconclusive
    else if orderEffectRatio < 0.98 || orderEffectRatio > 1.02 then Inconclusive
    else
      var lowerRatio, upperRatio := logs.exp(lowerLogRatio), logs.exp(upperLogRatio);
      if upperRatio < 0.98 then ManagedFaster
      else if lowerRatio > 1.02 then NativeFaster
      else if lowerRatio >= 0.98 && upperRatio <= 1.02 then Equivalent
      else Inconclusive
  }

  /** The verifier's derivation, from the stored bounds of the ratio itself. */
  function DeriveConsistencyStatus(lowerRatio: real, upperRatio: real, orderEffectRatio: real,
                                   managedSpread: real, comparatorSpread: real, durationsQualified: bool): Status
  {
    if !durationsQualified then Unqualified
    else if managedSpread > MAXIMUM_SPREAD || comparatorSpread > MAXIMUM_SPREAD then Inconclusive
    else if orderEffectRatio < 0.98 || orderEffectRatio > 1.02 then Inconclusive
    else if upperRatio < 0.98 then ManagedFaster
    else if lowerRatio > 1.02 then NativeFaster
    else if lowerRatio >= 0.98 && upperRatio <= 1.02 then Equivalent
    else Inconclusive
  }

  // ---------- pieces both sides use ----------

  function OrderOf(sample: nat, comparatorFirst: bool): LaneOrder {
    if (sample + if comparatorFirst then 1 else 0) % 2 == 0 then ManagedFirst else ComparatorFirst
  }

  /** The values at the positions where a lane went first. */
  function Selected(orders: seq<LaneOrder>, values: Sample, lane: LaneOrder): Sample
    requires |orders| == |values|
  {
    if orders == [] then []
    else
      var n := |orders| - 1;
      Selected(orders[..n], values[..n], lane) + if orders[n] == lane then [values[n]] else []
  }

  function CountOrders(orders: seq<LaneOrder>, lane: LaneOrder): nat {
    if orders == [] then 0
    else CountOrders(orders[..|orders| - 1], lane) + if orders[|orders| - 1] == lane then 1 else 0
  }

  predicate Alternates(orders: seq<LaneOrder>) {
    forall i :: 0 < i < |orders| ==> orders[i] != orders[i - 1]
  }

  predicate AllAtLeast(s: Sample, bound: real) {
    forall i :: 0 <= i < |s| ==> s[i] >= bound
  }

  function Quotients(a: Sample, b: Sample): (q: Sample)
    requires |a| == |b| && Positive(b)
    ensures |q| == |a| && forall i :: 0 <= i < |a| ==> q[i] == a[i] / b[i]
  {
    seq(|a|, i requires 0 <= i < |a| => assert b[i] > 0.0; a[i] / b[i])
  }

  function Differences(a: Sample, b: Sample): (d: Sample)
    requires |a| == |b|
    ensures |d| == |a| && forall i :: 0 <= i < |a| ==> d[i] == a[i] - b[i]
  {
    seq(|a|, i requires 0 <= i < |a| => a[i] - b[i])
  }

  lemma {:induction false} SelectedCount(orders: seq<LaneOrder>, values: Sample, lane: LaneOrder)
    requires |orders| == |values|
    ensures |Selected(orders, values, lane)| == CountOrders(orders, lane)
  {
    if orders == [] {
    } else {
      SelectedCount(orders[..|orders| - 1], values[..|orders| - 1], lane);
    }
  }

  /** The positions where a lane went first. */
  ghost function PositionsOf(orders: seq<LaneOrder>, lane: LaneOrder): set<nat> {
    set i: nat | i < |orders| && orders[i] == lane
  }

  lemma {:induction false} CountsOrders(orders: seq<LaneOrder>, lane: LaneOrder)
    ensures CountOrders(orders, lane) == |PositionsOf(orders, lane)|
  {
    if orders == [] {
      assert PositionsOf(orders, lane) == {};
    } else {
      var n := |orders| - 1;
      CountsOrders(orders[..n], lane);
      if orders[n] == lane {
        assert PositionsOf(orders, lane) == PositionsOf(orders[..n], lane) + {n};
      } else {
        assert PositionsOf(orders, lane) == PositionsOf(orders[..n], lane);
      }
    }
  }

  /** What stands at a position of the lane is selected, behind what stands at the lane's earlier positions. */
  lemma {:induction false} SelectedInOrder(orders: seq<LaneOrder>, values: Sample, lane: LaneOrder, i: nat)
    requires |orders| == |values| && i < |orders| && orders[i] == lane
    ensures |Selected(orders, values, lane)| == |PositionsOf(orders, lane)|
    ensures |PositionsOf(orders[..i], lane)| < |Selected(orders, values, lane)|
    ensures Selected(orders, values, lane)[|PositionsOf(orders[..i], lane)|] == values[i]
  {
    hide PositionsOf;
    var n := |orders| - 1;
    SelectedCount(orders, values, lane);
    CountsOrders(orders, lane);
    SelectedCount(orders[..n], values[..n], lane);
    CountsOrders(orders[..n], lane);
    if i == n {
    } else {
      SelectedInOrder(orders[..n], values[..n], lane, i);
      assert orders[..n][..i] == orders[..i];
    }
  }

  /** The values from one position on, leaving out every second one. */
  function EveryOther(values: Sample, from: nat): (some: Sample)
    ensures |some| == if from < |values| then (|values| - from + 1) / 2 else 0
    ensures forall j :: 0 <= j < |some| ==> some[j] == values[2 * j + from]
  {
    if from < |values| then seq((|values| - from + 1) / 2, j requires 0 <= j < (|values| - from + 1) / 2 => values[2 * j + from])
    else []
  }

  lemma EveryOtherFront(values: Sample, from: nat)
    requires from <= 1 && values != []
    ensures var n := |values| - 1;
            EveryOther(values, from) == EveryOther(values[..n], from) + if n % 2 == from then [values[n]] else []
  {
    var n := |values| - 1;
    var some, front := EveryOther(values, from), EveryOther(values[..n], from);
    assert forall j :: 0 <= j < |front| ==> front[j] == values[..n][2 * j + from] == values[2 * j + from];
    if n % 2 == from {
      assert 2 * |front| + from == n;
    }
  }

  /** Where lanes alternate from the one given, each lane's values are every other one. */
  lemma {:induction false} SelectedEveryOther(orders: seq<LaneOrder>, values: Sample, comparatorFirst: bool)
    requires |orders| == |values| && forall i :: 0 <= i < |orders| ==> orders[i] == OrderOf(i, comparatorFirst)
    ensures Selected(orders, values, ManagedFirst) == EveryOther(values, if comparatorFirst then 1 else 0)
    ensures Selected(orders, values, ComparatorFirst) == EveryOther(values, if comparatorFirst then 0 else 1)
  {
    if orders == [] {
    } else {
      var n := |orders| - 1;
      SelectedEveryOther(orders[..n], values[..n], comparatorFirst);
      EveryOtherFront(values, 0);
      EveryOtherFront(values, 1);
    }
  }

  lemma {:induction false} SelectedPositive(orders: seq<LaneOrder>, values: Sample, lane: LaneOrder)
    requires |orders| == |values| && Positive(values)
    ensures Positive(Selected(orders, values, lane))
  {
    if orders == [] {
    } else {
      SelectedPositive(orders[..|orders| - 1], values[..|orders| - 1], lane);
    }
  }

  lemma QuotientsAppend(a: Sample, b: Sample, x: real, y: real)
    requires |a| == |b| && Positive(b) && y > 0.0
    ensures Positive(b + [y]) && Quotients(a + [x], b + [y]) == Quotients(a, b) + [x / y]
  {
  }

  lemma QuotientsPositive(a: Sample, b: Sample)
    requires |a| == |b| && Positive(a) && Positive(b)
    ensures Positive(Quotients(a, b))
  {
    forall i | 0 <= i < |a| ensures Quotients(a, b)[i] > 0.0 {
      assert a[i] > 0.0 && b[i] > 0.0;
    }
  }

  lemma MedianPositive(s: Sample)
    requires s != [] && Positive(s)
    ensures MedianOf(s) > 0.0
  {
    PositiveSorted(s);
  }

  /** Alternation alone already balances the lanes. */
  lemma {:induction false} AlternationBalances(orders: seq<LaneOrder>)
    requires Alternates(orders)
    ensures orders == [] || orders[|orders| - 1] == ManagedFirst ==>
              CountOrders(orders, ManagedFirst) - CountOrders(orders, ComparatorFirst) in {0, 1}
    ensures orders == [] || orders[|orders| - 1] == ComparatorFirst ==>
              CountOrders(orders, ComparatorFirst) - CountOrders(orders, ManagedFirst) in {0, 1}
    ensures CountOrders(orders, ManagedFirst) + CountOrders(orders, ComparatorFirst) == |orders|
  {
    if orders == [] {
    } else {
      var n := |orders| - 1;
      var shorter := orders[..n];
      AlternationBalances(shorter);
      assert n > 0 ==> shorter[n - 1] == orders[n - 1] != orders[n];
    }
  }

  // ---------- the producer ----------

  /** Total time of each lane in one sample, in microseconds: an arbitrary measurement. */
  type Timings = nat -> (real, real)

  ghost predicate PositiveTimings(timings: Timings) {
    forall k: nat :: timings(k).0 > 0.0 && timings(k).1 > 0.0
  }

  /** Microseconds per operation of a batch. */
  function PerOperation(total: real, batch: int): real
    requires batch >= 1
  {
    total / batch as real
  }

  lemma PerOperationPositive(total: real, batch: int)
    requires batch >= 1 && total > 0.0
    ensures PerOperation(total, batch) > 0.0
  {
  }

  /** What the collection loop has stored after some number of samples. */
  ghost predicate Collected(orders: seq<LaneOrder>, managedUs: Sample, comparatorUs: Sample, managedMs: Sample,
                            comparatorMs: Sample, ratios: Sample, n: nat, comparatorFirst: bool,
                            timings: Timings, managedBatch: int, comparatorBatch: int)
    requires managedBatch >= 1 && comparatorBatch >= 1
  {
    && |orders| == |managedUs| == |comparatorUs| == |managedMs| == |comparatorMs| == |ratios| == n
    && (forall i :: 0 <= i < n ==> orders[i] == OrderOf(i, comparatorFirst))
    && (forall i :: 0 <= i < n ==> managedUs[i] == PerOperation(timings(i).0, managedBatch))
    && (forall i :: 0 <= i < n ==> comparatorUs[i] == PerOperation(timings(i).1, comparatorBatch))
    && (forall i :: 0 <= i < n ==> managedMs[i] == timings(i).0 / 1000.0 && comparatorMs[i] == timings(i).1 / 1000.0)
    && Positive(managedUs) && Positive(comparatorUs)
    && ratios == Quotients(managedUs, comparatorUs)
  }

  /** What every derived field of a freshly measured record holds. */
  ghost predicate Derived(p: Pair, logs: Logs, draws: Draws) {
    && p.protocolVersion == PROTOCOL_VERSION && p.sampleCount >= MINIMUM_SAMPLES
    && |p.laneOrders| == |p.managedMicroseconds| == |p.comparatorMicroseconds| == p.sampleCount
    && |p.managedMilliseconds| == |p.comparatorMilliseconds| == p.sampleCount
    && Alternates(p.laneOrders)
    && Positive(p.managedMicroseconds) && Positive(p.comparatorMicroseconds)
    && p.pairedRatios == Quotients(p.managedMicroseconds, p.comparatorMicroseconds)
    && (forall k :: draws(k) < p.sampleCount)
    && var logRatios := Map(logs.ln, p.pairedRatios);
       var interval := Bootstrap(logRatios, draws, BOOTSTRAP_RESAMPLES);
       var managedFirst := Selected(p.laneOrders, p.pairedRatios, ManagedFirst);
       var comparatorFirst := Selected(p.laneOrders, p.pairedRatios, ComparatorFirst);
       && p.ratioMedian == logs.exp(MedianOf(logRatios))
       && p.ratioLower95 == logs.exp(interval.lower) && p.ratioUpper95 == logs.exp(interval.upper)
       && managedFirst != [] && comparatorFirst != [] && MedianOf(comparatorFirst) > 0.0
       && p.orderEffectRatio == MedianOf(managedFirst) / MedianOf(comparatorFirst)
       && p.managedSpread == SpreadOf(p.managedMicroseconds)
       && p.comparatorSpread == SpreadOf(p.comparatorMicroseconds)
       && p.managedMedian == MedianOf(p.managedMicroseconds)
       && p.comparatorMedian == MedianOf(p.comparatorMicroseconds)
       && p.excessMedian == MedianOf(Differences(p.managedMicroseconds, p.comparatorMicroseconds))
       && p.status == DeriveStatus(logs, interval.lower, interval.upper, p.orderEffectRatio,
                                   p.managedSpread, p.comparatorSpread,
                                   AllAtLeast(p.managedMilliseconds, MINIMUM_SAMPLE_MS) &&
                                   AllAtLeast(p.comparatorMilliseconds, MINIMUM_SAMPLE_MS))
  }

  lemma CollectedShape(orders: seq<LaneOrder>, managedUs: Sample, comparatorUs: Sample, managedMs: Sample,
                       comparatorMs: Sample, ratios: Sample, n: nat, comparatorFirst: bool,
                       timings: Timings, managedBatch: int, comparatorBatch: int)
    requires managedBatch >= 1 && comparatorBatch >= 1
    requires Collected(orders, managedUs, comparatorUs, managedMs, comparatorMs, ratios, n, comparatorFirst,
                       timings, managedBatch, comparatorBatch)
    ensures |orders| == |managedUs| == |comparatorUs| == |managedMs| == |comparatorMs| == |ratios| == n
    ensures Positive(managedUs) && Positive(comparatorUs) && ratios == Quotients(managedUs, comparatorUs)
    ensures Alternates(orders)
  {
    hide PerOperation, Quotients, Positive;
    forall i | 0 < i < n ensures orders[i] != orders[i - 1] {
      assert orders[i] == OrderOf(i, comparatorFirst) && orders[i - 1] == OrderOf(i - 1, comparatorFirst);
    }
  }

  method CollectSamples(samples: nat, comparatorFirst: bool, timings: Timings, managedBatch: int, comparatorBatch: int)
    returns (orders: seq<LaneOrder>, managedUs: Sample, comparatorUs: Sample, managedMs: Sample,
             comparatorMs: Sample, ratios: Sample)
    requires managedBatch >= 1 && comparatorBatch >= 1 && PositiveTimings(timings)
    ensures Collected(orders, managedUs, comparatorUs, managedMs, comparatorMs, ratios, samples, comparatorFirst,
                      timings, managedBatch, comparatorBatch)
  {
    hide PerOperation, Quotients, Collected;
    orders, managedUs, comparatorUs, managedMs, comparatorMs, ratios := [], [], [], [], [], [];
    CollectedNothing(comparatorFirst, timings, managedBatch, comparatorBatch);
    for sample := 0 to samples
      invariant Collected(orders, managedUs, comparatorUs, managedMs, comparatorMs, ratios, sample, comparatorFirst,
                          timings, managedBatch, comparatorBatch)
    {
      var order := if (sample + if comparatorFirst then 1 else 0) % 2 == 0 then ManagedFirst else ComparatorFirst;
      var (managedTotal, comparatorTotal) := timings(sample);
      var managedPerOperation := PerOperation(managedTotal, managedBatch);
      var comparatorPerOperation := PerOperation(comparatorTotal, comparatorBatch);
      PerOperationPositive(comparatorTotal, comparatorBatch);
      CollectedOneMore(orders, managedUs, comparatorUs, managedMs, comparatorMs, ratios, sample, comparatorFirst,
                       timings, managedBatch, comparatorBatch);
      orders := orders + [order];
      managedUs := managedUs + [managedPerOperation];
      comparatorUs := comparatorUs + [comparatorPerOperation];
      managedMs := managedMs + [managedTotal / 1000.0];
      comparatorMs := comparatorMs + [comparatorTotal / 1000.0];
      ratios := ratios + [managedPerOperation / comparatorPerOperation];
    }
  }

  lemma CollectedNothing(comparatorFirst: bool, timings: Timings, managedBatch: int, comparatorBatch: int)
    requires managedBatch >= 1 && comparatorBatch >= 1
    ensures Collected([], [], [], [], [], [], 0, comparatorFirst, timings, managedBatch, comparatorBatch)
  {
  }

  lemma CollectedOneMore(orders: seq<LaneOrder>, managedUs: Sample, comparatorUs: Sample, managedMs: Sample,
                         comparatorMs: Sample, ratios: Sample, n: nat, comparatorFirst: bool,
                         timings: Timings, managedBatch: int, comparatorBatch: int)
    requires managedBatch >= 1 && comparatorBatch >= 1 && PositiveTimings(timings)
    requires Collected(orders, managedUs, comparatorUs, managedMs, comparatorMs, ratios, n, comparatorFirst,
                       timings, managedBatch, comparatorBatch)
    ensures var x, y := PerOperation(timings(n).0, managedBatch), PerOperation(timings(n).1, comparatorBatch);
            && y > 0.0
            && Collected(orders + [OrderOf(n, comparatorFirst)], managedUs + [x], comparatorUs + [y],
                         managedMs + [timings(n).0 / 1000.0], comparatorMs + [timings(n).1 / 1000.0],
                         ratios + [x / y], n + 1, comparatorFirst, timings, managedBatch, comparatorBatch)
  {
    hide PerOperation, Quotients;
    var x, y := PerOperation(timings(n).0, managedBatch), PerOperation(timings(n).1, comparatorBatch);
    PerOperationPositive(timings(n).0, managedBatch);
    PerOperationPositive(timings(n).1, comparatorBatch);
    QuotientsAppend(managedUs, comparatorUs, x, y);
  }

  /** Times for one operation and for the batch, in microseconds and milliseconds, and their ratios. */
  ghost predicate AreTimes(managedUs: Sample, comparatorUs: Sample, managedMs: Sample, comparatorMs: Sample, ratios: Sample,
                           n: nat, timings: Timings, managedBatch: int, comparatorBatch: int)
  {
    && |managedUs| == |comparatorUs| == |managedMs| == |comparatorMs| == |ratios| == n
    && forall i :: 0 <= i < n ==>
         && managedUs[i] * managedBatch as real == timings(i).0 == managedMs[i] * 1000.0
         && comparatorUs[i] * comparatorBatch as real == timings(i).1 == comparatorMs[i] * 1000.0
         && ratios[i] * comparatorUs[i] == managedUs[i]
  }

  /** The median over the samples that one lane began, divided by that over the samples the other one began. */
  ghost predicate IsOrderEffect(effect: real, ratios: Sample, comparatorFirst: bool) {
    var managedFirst := EveryOther(ratios, if comparatorFirst then 1 else 0);
    var comparatorFirstRatios := EveryOther(ratios, if comparatorFirst then 0 else 1);
    exists high, low :: IsMedian(managedFirst, high) && IsMedian(comparatorFirstRatios, low) && low > 0.0 && effect == high / low
  }

  lemma OrderEffectIs(orders: seq<LaneOrder>, ratios: Sample, comparatorFirst: bool)
    requires |orders| == |ratios| && forall i :: 0 <= i < |orders| ==> orders[i] == OrderOf(i, comparatorFirst)
    requires Selected(orders, ratios, ManagedFirst) != [] && Selected(orders, ratios, ComparatorFirst) != []
    requires MedianOf(Selected(orders, ratios, ComparatorFirst)) > 0.0
    ensures IsOrderEffect(MedianOf(Selected(orders, ratios, ManagedFirst)) / MedianOf(Selected(orders, ratios, ComparatorFirst)),
                          ratios, comparatorFirst)
  {
    hide Selected, MedianOf, EveryOther, IsMedian;
    SelectedEveryOther(orders, ratios, comparatorFirst);
    MedianIsMedian(Selected(orders, ratios, ManagedFirst));
    MedianIsMedian(Selected(orders, ratios, ComparatorFirst));
  }

  /** `None` is the refusal to qualify on fewer than nine samples. */
  method MeasureSection(samples: int, comparatorFirst: bool, timings: Timings, managedBatch: int, comparatorBatch: int,
                        logs: Logs, draws: Draws) returns (pair: Option<Pair>)
    requires managedBatch >= 1 && comparatorBatch >= 1 && PositiveTimings(timings)
    requires forall k :: samples > 0 ==> draws(k) < samples
    ensures samples < MINIMUM_SAMPLES <==> pair.None?
    ensures pair.Some? ==> Derived(pair.value, logs, draws)
    ensures pair.Some? ==> var p := pair.value;
              Collected(p.laneOrders, p.managedMicroseconds, p.comparatorMicroseconds, p.managedMilliseconds,
                        p.comparatorMilliseconds, p.pairedRatios, samples, comparatorFirst,
                        timings, managedBatch, comparatorBatch)
    ensures pair.Some? ==> var p := pair.value;
              AreTimes(p.managedMicroseconds, p.comparatorMicroseconds, p.managedMilliseconds, p.comparatorMilliseconds,
                       p.pairedRatios, samples, timings, managedBatch, comparatorBatch)
    ensures pair.Some? ==> IsOrderEffect(pair.value.orderEffectRatio, pair.value.pairedRatios, comparatorFirst)
  {
    hide MedianOf, SpreadOf, Bootstrap, Selected, DeriveStatus, Quotients, Sort, Collected, IsMedian, EveryOther, AreResampleMedians,
         Covers95, AreTimes, IsOrderEffect;
    hide Differences;
    if samples < MINIMUM_SAMPLES {
      return None;
    }
    var orders, managedUs, comparatorUs, managedMs, comparatorMs, ratios :=
      CollectSamples(samples, comparatorFirst, timings, managedBatch, comparatorBatch);
    CollectedShape(orders, managedUs, comparatorUs, managedMs, comparatorMs, ratios, samples, comparatorFirst,
                   timings, managedBatch, comparatorBatch);
    var logRatios := Map(logs.ln, ratios);
    var bootstrap := BootstrapMedianLogRatio(logRatios, draws, BOOTSTRAP_RESAMPLES);
    var interval := bootstrap.value;
    var managedFirst := Selected(orders, ratios, ManagedFirst);
    var comparatorFirstRatios := Selected(orders, ratios, ComparatorFirst);
    BothLanesSelected(orders, ratios);
    QuotientsPositive(managedUs, comparatorUs);
    SelectedPositive(orders, ratios, ComparatorFirst);
    MedianPositive(comparatorFirstRatios);
    var orderEffectRatio := MedianOf(managedFirst) / MedianOf(comparatorFirstRatios);
    OrdersCollected(orders, managedUs, comparatorUs, managedMs, comparatorMs, ratios, samples, comparatorFirst,
                    timings, managedBatch, comparatorBatch);
    OrderEffectIs(orders, ratios, comparatorFirst);
    CollectedNumbers(orders, managedUs, comparatorUs, managedMs, comparatorMs, ratios, samples, comparatorFirst,
                     timings, managedBatch, comparatorBatch);
    var managedSpread := SpreadOf(managedUs);
    var comparatorSpread := SpreadOf(comparatorUs);
    var qualified := AllAtLeast(managedMs, MINIMUM_SAMPLE_MS) && AllAtLeast(comparatorMs, MINIMUM_SAMPLE_MS);
    var status := DeriveStatus(logs, interval.lower, interval.upper, orderEffectRatio, managedSpread,
                               comparatorSpread, qualified);
    pair := Some(Pair(
      PROTOCOL_VERSION, samples, orders, managedUs, comparatorUs, managedMs, comparatorMs, ratios,
      MedianOf(managedUs), MedianOf(comparatorUs), logs.exp(MedianOf(logRatios)),
      logs.exp(interval.lower), logs.exp(interval.upper), MedianOf(Differences(managedUs, comparatorUs)),
      orderEffectRatio, managedSpread, comparatorSpread, status));
  }

  lemma CollectedNumbers(orders: seq<LaneOrder>, managedUs: Sample, comparatorUs: Sample, managedMs: Sample,
                         comparatorMs: Sample, ratios: Sample, n: nat, comparatorFirst: bool,
                         timings: Timings, managedBatch: int, comparatorBatch: int)
    requires managedBatch >= 1 && comparatorBatch >= 1
    requires Collected(orders, managedUs, comparatorUs, managedMs, comparatorMs, ratios, n, comparatorFirst,
                       timings, managedBatch, comparatorBatch)
    ensures AreTimes(managedUs, comparatorUs, managedMs, comparatorMs, ratios, n, timings, managedBatch, comparatorBatch)
  {
    hide PerOperation, OrderOf;
    forall i | 0 <= i < n
      ensures managedUs[i] * managedBatch as real == timings(i).0 == managedMs[i] * 1000.0
      ensures comparatorUs[i] * comparatorBatch as real == timings(i).1 == comparatorMs[i] * 1000.0
      ensures ratios[i] * comparatorUs[i] == managedUs[i]
    {
      PerOperationTimes(timings(i).0, managedBatch);
      PerOperationTimes(timings(i).1, comparatorBatch);
      assert comparatorUs[i] > 0.0 && ratios[i] == managedUs[i] / comparatorUs[i];
      QuotientTimes(managedUs[i], comparatorUs[i]);
    }
  }

  lemma PerOperationTimes(total: real, batch: int)
    requires batch >= 1
    ensures PerOperation(total, batch) * batch as real == total
  {
  }

  lemma QuotientTimes(a: real, b: real)
    requires b > 0.0
    ensures a / b * b == a
  {
  }

  lemma OrdersCollected(orders: seq<LaneOrder>, managedUs: Sample, comparatorUs: Sample, managedMs: Sample,
                        comparatorMs: Sample, ratios: Sample, n: nat, comparatorFirst: bool,
                        timings: Timings, managedBatch: int, comparatorBatch: int)
    requires managedBatch >= 1 && comparatorBatch >= 1
    requires Collected(orders, managedUs, comparatorUs, managedMs, comparatorMs, ratios, n, comparatorFirst,
                       timings, managedBatch, comparatorBatch)
    ensures |orders| == |ratios| == n && forall i :: 0 <= i < n ==> orders[i] == OrderOf(i, comparatorFirst)
  {
    hide PerOperation, Quotients, Positive;
  }

  /** With two or more alternating samples each lane goes first at least once. */
  lemma BothLanesSelected(orders: seq<LaneOrder>, values: Sample)
    requires |orders| == |values| >= 2 && Alternates(orders)
    ensures Selected(orders, values, ManagedFirst) != [] && Selected(orders, values, ComparatorFirst) != []
  {
    AlternationBalances(orders);
    SelectedCount(orders, values, ManagedFirst);
    SelectedCount(orders, values, ComparatorFirst);
  }

  // ---------- the verifier ----------

  datatype CheckError =
    | StaleProtocol
    | IncompleteVectors
    | Unbalanced
    | DoesNotAlternate(sample: int)
    | RatioMismatch
    | StaleMedianRatio
    | StaleOrderEffect
    | StaleSpread
    | WrongStatus(stored: Status, expected: Status)

  /** `Threw` is the exception that the median of an empty selection raises. */
  datatype Verdict = Errors(errors: seq<CheckError>) | Threw

  function Abs(x: real): real {
    if x < 0.0 then -x else x
  }

  function Larger(x: real, y: real): real {
    if x < y then y else x
  }

  predicate NearlyEqual(left: real, right: real) {
    Abs(left - right) <= Larger(Abs(left), Abs(right)) * NEAR
  }

  predicate AllNearlyEqual(a: Sample, b: Sample) {
    |a| == |b| && forall i :: 0 <= i < |a| ==> NearlyEqual(a[i], b[i])
  }

  predicate CompleteVectors(p: Pair) {
    && p.sampleCount >= MINIMUM_SAMPLES
    && |p.laneOrders| == |p.managedMicroseconds| == |p.comparatorMicroseconds| == p.sampleCount
    && |p.managedMilliseconds| == |p.comparatorMilliseconds| == |p.pairedRatios| == p.sampleCount
  }

  /** What a record that passes must satisfy. */
  ghost predicate Accepted(p: Pair, logs: Logs) {
    && p.protocolVersion == PROTOCOL_VERSION
    && CompleteVectors(p)
    && Alternates(p.laneOrders)
    && Positive(p.managedMicroseconds) && Positive(p.comparatorMicroseconds)
    && var ratios := Quotients(p.managedMicroseconds, p.comparatorMicroseconds);
       var managedFirst := Selected(p.laneOrders, ratios, ManagedFirst);
       var comparatorFirst := Selected(p.laneOrders, ratios, ComparatorFirst);
       && managedFirst != [] && comparatorFirst != [] && MedianOf(comparatorFirst) > 0.0
       && var orderEffect := MedianOf(managedFirst) / MedianOf(comparatorFirst);
          && AllNearlyEqual(ratios, p.pairedRatios)
          && NearlyEqual(logs.exp(MedianOf(Map(logs.ln, ratios))), p.ratioMedian)
          && NearlyEqual(orderEffect, p.orderEffectRatio)
          && NearlyEqual(SpreadOf(p.managedMicroseconds), p.managedSpread)
          && NearlyEqual(SpreadOf(p.comparatorMicroseconds), p.comparatorSpread)
          && p.status == DeriveConsistencyStatus(
                           p.ratioLower95, p.ratioUpper95, orderEffect,
                           SpreadOf(p.managedMicroseconds), SpreadOf(p.comparatorMicroseconds),
                           AllAtLeast(p.managedMilliseconds, MINIMUM_SAMPLE_MS) &&
                           AllAtLeast(p.comparatorMilliseconds, MINIMUM_SAMPLE_MS))
  }

  method CheckAlternation(orders: seq<LaneOrder>) returns (errors: seq<CheckError>)
    ensures errors == [] <==> Alternates(orders)
    ensures errors != [] ==>
              exists i :: 0 < i < |orders| && orders[i] == orders[i - 1] && Alternates(orders[..i]) &&
                          errors == [DoesNotAlternate(i)]
  {
    var sample := 1;
    while sample < |orders|
      invariant 1 <= sample && forall i :: 0 < i < sample && i < |orders| ==> orders[i] != orders[i - 1]
    {
      if orders[sample] == orders[sample - 1] {
        return [DoesNotAlternate(sample)];
      }
      sample := sample + 1;
    }
    errors := [];
  }

  /** The checks on one stored record with positive per-operation times. */
  method VerifyPair(p: Pair, logs: Logs) returns (verdict: Verdict)
    requires Positive(p.managedMicroseconds) && Positive(p.comparatorMicroseconds)
    ensures verdict == Errors([]) <==> Accepted(p, logs)
    ensures verdict == Errors([]) ==> MatchesSamples(p, logs)
    ensures verdict.Threw? <==>
              CompleteVectors(p) && (CountOrders(p.laneOrders, ManagedFirst) == 0 || CountOrders(p.laneOrders, ComparatorFirst) == 0)
  {
    hide MedianOf, SpreadOf, Selected, DeriveConsistencyStatus, Quotients, Sort, NearlyEqual, CountOrders, MatchesSamples;
    var errors: seq<CheckError> := [];
    if p.protocolVersion != PROTOCOL_VERSION {
      errors := errors + [StaleProtocol];
    }
    if !CompleteVectors(p) {
      return Errors(errors + [IncompleteVectors]);
    }
    var managedFirstCount: int := CountOrders(p.laneOrders, ManagedFirst);
    var comparatorFirstCount: int := CountOrders(p.laneOrders, ComparatorFirst);
    var imbalance := managedFirstCount - comparatorFirstCount;
    if imbalance > 1 || imbalance < -1 {
      errors := errors + [Unbalanced];
    }
    if Alternates(p.laneOrders) {
      AlternationBalances(p.laneOrders);
    }
    var alternation := CheckAlternation(p.laneOrders);
    errors := errors + alternation;
    var ratios := Quotients(p.managedMicroseconds, p.comparatorMicroseconds);
    if !AllNearlyEqual(ratios, p.pairedRatios) {
      errors := errors + [RatioMismatch];
    }
    if !NearlyEqual(logs.exp(MedianOf(Map(logs.ln, ratios))), p.ratioMedian) {
      errors := errors + [StaleMedianRatio];
    }
    var managedFirst := Selected(p.laneOrders, ratios, ManagedFirst);
    var comparatorFirst := Selected(p.laneOrders, ratios, ComparatorFirst);
    SelectedCount(p.laneOrders, ratios, ManagedFirst);
    SelectedCount(p.laneOrders, ratios, ComparatorFirst);
    if |managedFirst| == 0 || |comparatorFirst| == 0 {
      return Threw;
    }
    QuotientsPositive(p.managedMicroseconds, p.comparatorMicroseconds);
    SelectedPositive(p.laneOrders, ratios, ComparatorFirst);
    MedianPositive(comparatorFirst);
    var orderEffect := MedianOf(managedFirst) / MedianOf(comparatorFirst);
    if !NearlyEqual(orderEffect, p.orderEffectRatio) {
      errors := errors + [StaleOrderEffect];
    }
    var managedSpread := SpreadOf(p.managedMicroseconds);
    var comparatorSpread := SpreadOf(p.comparatorMicroseconds);
    if !NearlyEqual(managedSpread, p.managedSpread) || !NearlyEqual(comparatorSpread, p.comparatorSpread) {
      errors := errors + [StaleSpread];
    }
    var qualified := AllAtLeast(p.managedMilliseconds, MINIMUM_SAMPLE_MS) &&
                     AllAtLeast(p.comparatorMilliseconds, MINIMUM_SAMPLE_MS);
    var expected := DeriveConsistencyStatus(p.ratioLower95, p.ratioUpper95, orderEffect, managedSpread,
                                            comparatorSpread, qualified);
    if p.status != expected {
      errors := errors + [WrongStatus(p.status, expected)];
    }
    if Accepted(p, logs) {
      AcceptedMatchesSamples(p, logs);
    }
    verdict := Errors(errors);
  }

  // ---------- what the producer writes, the verifier accepts ----------

  lemma SelfEqual(x: real)
    ensures NearlyEqual(x, x)
  {
    assert Abs(x) * NEAR >= 0.0;
  }

  /** The difference is at most a trillionth of one of the two values, whichever sign it has. */
  predicate IsClose(a: real, b: real) {
    IsTrillionth(a - b, a) || IsTrillionth(a - b, -a) || IsTrillionth(a - b, b) || IsTrillionth(a - b, -b)
  }

  predicate IsTrillionth(difference: real, value: real) {
    -value <= 1_000_000_000_000.0 * difference <= value
  }

  lemma NearlyEqualIsClose(a: real, b: real)
    ensures NearlyEqual(a, b) <==> IsClose(a, b)
  {
    var larger := Larger(Abs(a), Abs(b));
    assert 1_000_000_000_000.0 * (larger * NEAR) == larger;
  }

  /** The record holds what its samples give, to a trillionth. */
  ghost predicate MatchesSamples(p: Pair, logs: Logs) {
    && p.protocolVersion == 9 && p.sampleCount >= 9
    && |p.managedMicroseconds| == |p.comparatorMicroseconds| == |p.pairedRatios| == |p.laneOrders| == p.sampleCount
    && |p.managedMilliseconds| == |p.comparatorMilliseconds| == p.sampleCount
    && Positive(p.managedMicroseconds) && Positive(p.comparatorMicroseconds)
    && (forall i :: 0 < i < p.sampleCount ==> p.laneOrders[i] != p.laneOrders[i - 1])
    && var ratios := Quotients(p.managedMicroseconds, p.comparatorMicroseconds);
       var managedFirst := Selected(p.laneOrders, ratios, ManagedFirst);
       var comparatorFirst := Selected(p.laneOrders, ratios, ComparatorFirst);
       && (forall i :: 0 <= i < p.sampleCount ==> IsClose(ratios[i], p.pairedRatios[i]))
       && managedFirst != [] && comparatorFirst != [] && MedianOf(comparatorFirst) > 0.0
       && IsClose(logs.exp(MedianOf(Map(logs.ln, ratios))), p.ratioMedian)
       && IsClose(MedianOf(managedFirst) / MedianOf(comparatorFirst), p.orderEffectRatio)
       && IsClose(SpreadOf(p.managedMicroseconds), p.managedSpread)
       && IsClose(SpreadOf(p.comparatorMicroseconds), p.comparatorSpread)
       && StatusFits(p.status, p.managedMilliseconds, p.comparatorMilliseconds, SpreadOf(p.managedMicroseconds),
                     SpreadOf(p.comparatorMicroseconds), MedianOf(managedFirst) / MedianOf(comparatorFirst),
                     p.ratioLower95, p.ratioUpper95)
  }

  lemma AcceptedMatchesSamples(p: Pair, logs: Logs)
    requires Accepted(p, logs)
    ensures MatchesSamples(p, logs)
  {
    hide MedianOf, SpreadOf, Selected, Sort, NearlyEqual, IsClose, DeriveConsistencyStatus, StatusFits, AllAtLeast;
    ghost var checked := Quotients(p.managedMicroseconds, p.comparatorMicroseconds);
    ConsistencyStatusFits(
      p.managedMilliseconds, p.comparatorMilliseconds, SpreadOf(p.managedMicroseconds), SpreadOf(p.comparatorMicroseconds),
      MedianOf(Selected(p.laneOrders, checked, ManagedFirst)) / MedianOf(Selected(p.laneOrders, checked, ComparatorFirst)),
      p.ratioLower95, p.ratioUpper95);
    forall a: real, b: real ensures NearlyEqual(a, b) <==> IsClose(a, b) {
      NearlyEqualIsClose(a, b);
    }
    var ratios := Quotients(p.managedMicroseconds, p.comparatorMicroseconds);
    forall i | 0 <= i < p.sampleCount ensures IsClose(ratios[i], p.pairedRatios[i]) {
      assert NearlyEqual(ratios[i], p.pairedRatios[i]);
    }
  }

  /** A measured record in which one derived field has been changed by more than a trillionth is not accepted. */
  lemma StaleIsRejected(p: Pair, logs: Logs, draws: Draws, x: real)
    requires Derived(p, logs, draws)
    ensures !IsClose(p.ratioMedian, x) ==> !Accepted(p.(ratioMedian := x), logs)
    ensures !IsClose(p.orderEffectRatio, x) ==> !Accepted(p.(orderEffectRatio := x), logs)
    ensures !IsClose(p.managedSpread, x) ==> !Accepted(p.(managedSpread := x), logs)
    ensures !IsClose(p.comparatorSpread, x) ==> !Accepted(p.(comparatorSpread := x), logs)
    ensures forall i :: 0 <= i < |p.pairedRatios| && !IsClose(p.pairedRatios[i], x) ==>
              !Accepted(p.(pairedRatios := p.pairedRatios[i := x]), logs)
  {
    hide MedianOf, SpreadOf, Bootstrap, Selected, Sort, NearlyEqual, IsClose, DeriveStatus, DeriveConsistencyStatus;
    NearlyEqualIsClose(p.ratioMedian, x);
    NearlyEqualIsClose(p.orderEffectRatio, x);
    NearlyEqualIsClose(p.managedSpread, x);
    NearlyEqualIsClose(p.comparatorSpread, x);
    forall i | 0 <= i < |p.pairedRatios| && !IsClose(p.pairedRatios[i], x)
      ensures !Accepted(p.(pairedRatios := p.pairedRatios[i := x]), logs)
    {
      NearlyEqualIsClose(p.pairedRatios[i], x);
      assert p.pairedRatios[i := x][i] == x;
    }
  }

  /** What each status says, in the numbers of a record. */
  predicate StatusFits(status: Status, managedMs: Sample, comparatorMs: Sample, managedSpread: real, comparatorSpread: real,
                       orderEffect: real, lower: real, upper: real)
  {
    var longEnough := (forall i :: 0 <= i < |managedMs| ==> managedMs[i] >= 20.0) &&
                      (forall i :: 0 <= i < |comparatorMs| ==> comparatorMs[i] >= 20.0);
    var sound := longEnough && managedSpread <= 1.1 && comparatorSpread <= 1.1 && 0.98 <= orderEffect <= 1.02;
    && (status == Unqualified <==> !longEnough)
    && (status == ManagedFaster <==> sound && upper < 0.98)
    && (status == NativeFaster <==> sound && upper >= 0.98 && lower > 1.02)
    && (status == Equivalent <==> sound && 0.98 <= upper <= 1.02 && 0.98 <= lower <= 1.02)
    && status != Excluded
  }

  lemma MeasuredStatusFits(p: Pair, logs: Logs, draws: Draws)
    requires Derived(p, logs, draws)
    ensures StatusFits(p.status, p.managedMilliseconds, p.comparatorMilliseconds, p.managedSpread, p.comparatorSpread,
                       p.orderEffectRatio, p.ratioLower95, p.ratioUpper95)
  {
    hide MedianOf, SpreadOf, Bootstrap, Selected, Sort, Quotients;
  }

  lemma ConsistencyStatusFits(managedMs: Sample, comparatorMs: Sample, managedSpread: real, comparatorSpread: real,
                              orderEffect: real, lower: real, upper: real)
    ensures StatusFits(
              DeriveConsistencyStatus(lower, upper, orderEffect, managedSpread, comparatorSpread,
                                      AllAtLeast(managedMs, MINIMUM_SAMPLE_MS) && AllAtLeast(comparatorMs, MINIMUM_SAMPLE_MS)),
              managedMs, comparatorMs, managedSpread, comparatorSpread, orderEffect, lower, upper)
  {
  }

  lemma MeasuredRecordIsAccepted(p: Pair, logs: Logs, draws: Draws)
    requires Derived(p, logs, draws)
    ensures Accepted(p, logs)
  {
    hide MedianOf, SpreadOf, Bootstrap, Selected, Quotients, Sort, NearlyEqual;
    SelfEqual(p.ratioMedian);
    SelfEqual(p.orderEffectRatio);
    SelfEqual(p.managedSpread);
    SelfEqual(p.comparatorSpread);
    forall i | 0 <= i < |p.pairedRatios| ensures NearlyEqual(p.pairedRatios[i], p.pairedRatios[i]) {
      SelfEqual(p.pairedRatios[i]);
    }
  }

  /** Every qualification run, whatever its timings, lane order and draws, passes every check. */
  method QualifyAndVerify(samples: int, comparatorFirst: bool, timings: Timings, managedBatch: int,
                          comparatorBatch: int, logs: Logs, draws: Draws) returns (verdict: Option<Verdict>)
    requires managedBatch >= 1 && comparatorBatch >= 1 && PositiveTimings(timings)
    requires forall k :: samples > 0 ==> draws(k) < samples
    ensures samples >= MINIMUM_SAMPLES ==> verdict == Some(Errors([]))
  {
    var pair := MeasureSection(samples, comparatorFirst, timings, managedBatch, comparatorBatch, logs, draws);
    if pair.None? {
      return None;
    }
    MeasuredRecordIsAccepted(pair.value, logs, draws);
    var v := VerifyPair(pair.value, logs);
    verdict := Some(v);
  }

  // ---------- what the recorded interval means ----------

  /** Mutually inverse, with an increasing exponential. */
  ghost predicate LawfulLogs(logs: Logs) {
    && (forall x :: x > 0.0 ==> logs.exp(logs.ln(x)) == x)
    && (forall x, y :: x < y ==> logs.exp(x) < logs.exp(y))
  }

  lemma LnIsMonotone(logs: Logs, x: real, y: real)
    requires LawfulLogs(logs) && 0.0 < x <= y
    ensures logs.ln(x) <= logs.ln(y)
  {
    assert logs.ln(y) < logs.ln(x) ==> logs.exp(logs.ln(y)) < logs.exp(logs.ln(x));
  }

  /** The recorded interval lies between the smallest and the largest measured ratio. */
  lemma IntervalWithinRatios(p: Pair, logs: Logs, draws: Draws, low: real, high: real)
    requires Derived(p, logs, draws) && LawfulLogs(logs) && 0.0 < low
    requires forall i :: 0 <= i < p.sampleCount ==> low <= p.pairedRatios[i] <= high
    ensures low <= p.ratioLower95 <= p.ratioUpper95 <= high
  {
    hide MedianOf, SpreadOf, Bootstrap, Selected, DeriveStatus, Quotients, Sort;
    var logRatios := Map(logs.ln, p.pairedRatios);
    forall i | 0 <= i < |logRatios| ensures logs.ln(low) <= logRatios[i] <= logs.ln(high) {
      LnIsMonotone(logs, low, p.pairedRatios[i]);
      LnIsMonotone(logs, p.pairedRatios[i], high);
    }
    BootstrapWithin(logRatios, draws, BOOTSTRAP_RESAMPLES, logs.ln(low), logs.ln(high));
    assert p.pairedRatios[0] <= high;
  }

  /** A qualified record never contradicts unanimous samples. */
  lemma UnanimousSamplesDecide(p: Pair, logs: Logs, draws: Draws)
    requires Derived(p, logs, draws) && LawfulLogs(logs)
    ensures p.status == ManagedFaster ==> exists i :: 0 <= i < p.sampleCount && p.pairedRatios[i] < 0.98
    ensures p.status == NativeFaster ==> exists i :: 0 <= i < p.sampleCount && p.pairedRatios[i] > 1.02
    ensures p.status != Unqualified && p.managedSpread <= MAXIMUM_SPREAD && p.comparatorSpread <= MAXIMUM_SPREAD &&
            0.98 <= p.orderEffectRatio <= 1.02 &&
            (forall i :: 0 <= i < p.sampleCount ==> 0.98 <= p.pairedRatios[i] <= 1.02) ==>
              p.status == Equivalent
  {
    hide MedianOf, SpreadOf, Bootstrap, Selected, Quotients, Sort;
    var least, greatest := Extremes(p.pairedRatios);
    QuotientsPositive(p.managedMicroseconds, p.comparatorMicroseconds);
    IntervalWithinRatios(p, logs, draws, least, greatest);
  }

  lemma {:induction false} Extremes(s: Sample) returns (least: real, greatest: real)
    requires s != []
    ensures least in s && greatest in s
    ensures forall i :: 0 <= i < |s| ==> least <= s[i] <= greatest
  {
    if |s| == 1 {
      least, greatest := s[0], s[0];
    } else {
      least, greatest := Extremes(s[1..]);
      assert forall i :: 0 < i < |s| ==> s[i] == s[1..][i - 1];
      least := if s[0] < least then s[0] else least;
      greatest := if s[0] > greatest then s[0] else greatest;
    }
  }

  /** For an odd number of samples the recorded median ratio is the median of the ratios. */
  lemma OddMedianRatioIsExact(p: Pair, logs: Logs, draws: Draws)
    requires Derived(p, logs, draws) && LawfulLogs(logs) && p.sampleCount % 2 == 1
    ensures p.ratioMedian == MedianOf(p.pairedRatios)
  {
    var logRatios := Map(logs.ln, p.pairedRatios);
    QuotientsPositive(p.managedMicroseconds, p.comparatorMicroseconds);
    assert Increasing(logs.exp) by {
      assert forall x: real, y: real :: x < y ==> logs.exp(x) < logs.exp(y);
    }
    OddMedianCommutes(logs.exp, logRatios);
    assert Map(logs.exp, logRatios) == p.pairedRatios;
  }
}
