/**
 One paired measurement: each lane's batch is cut into slices, and the slices of the
 two lanes alternate. Clock readings and action results are arbitrary streams.
 */
module InterleavedPair {
  import opened Common
  import opened Words

  const INTERLEAVE_SLICES := 8

  datatype LaneOrder = ManagedFirst | ComparatorFirst

  datatype Batch = Batch(elapsed: real, sink: Word32)

  // ---------- slice sizes ----------

  function SliceCount(total: nat, slices: nat, slice: nat): nat
    requires slices > 0
  {
    total / slices + if slice < total % slices then 1 else 0
  }

  function SumOfSlices(total: nat, slices: nat, k: nat): nat
    requires slices > 0
  {
    if k == 0 then 0 else SumOfSlices(total, slices, k - 1) + SliceCount(total, slices, k - 1)
  }

  lemma {:induction false} SumOfSlicesIs(total: nat, slices: nat, k: nat)
    requires slices > 0 && k <= slices
    ensures SumOfSlices(total, slices, k) ==
            k * (total / slices) + if k < total % slices then k else total % slices
  {
    if k == 0 {
    } else {
      SumOfSlicesIs(total, slices, k - 1);
      assert k * (total / slices) == (k - 1) * (total / slices) + total / slices;
    }
  }

  /** The slices add up to the whole, and no two differ by more than one; the larger ones come first. */
  lemma SlicesMakeTheWhole(total: nat, slices: nat)
    requires slices > 0
    ensures SumOfSlices(total, slices, slices) == total
    ensures forall i, j :: 0 <= i < slices && 0 <= j < slices ==>
              SliceCount(total, slices, i) <= SliceCount(total, slices, j) + 1
    ensures forall i, j :: 0 <= i <= j < slices ==> SliceCount(total, slices, j) <= SliceCount(total, slices, i)
    ensures slices <= total ==> forall i :: 0 <= i < slices ==> SliceCount(total, slices, i) >= 1
  {
    SumOfSlicesIs(total, slices, slices);
    assert total == slices * (total / slices) + total % slices;
    if slices <= total {
      assert total / slices >= 1;
    }
  }

  // ---------- clock and actions ----------

  class Clock {
    const ticks: nat -> real
    var readings: nat

    constructor (ticks: nat -> real)
      ensures this.ticks == ticks && readings == 0
    {
      this.ticks := ticks;
      readings := 0;
    }

    method GetTimestamp() returns (t: real)
      modifies this
      ensures t == ticks(old(readings)) && readings == old(readings) + 1
    {
      t := ticks(readings);
      readings := readings + 1;
    }
  }

  class Action {
    const results: nat -> Word32
    var calls: nat

    constructor (results: nat -> Word32)
      ensures this.results == results && calls == 0
    {
      this.results := results;
      calls := 0;
    }

    method Invoke() returns (r: Word32)
      modifies this
      ensures r == results(old(calls)) && calls == old(calls) + 1
    {
      r := results(calls);
      calls := calls + 1;
    }
  }

  /** The exclusive or of the results of calls `from` to `to - 1`. */
  function XorOfCalls(results: nat -> Word32, from: nat, to: nat): Word32 {
    if to <= from then 0 else Xor32(XorOfCalls(results, from, to - 1), results(to - 1))
  }

  lemma OneCallIsItself(results: nat -> Word32, k: nat)
    ensures XorOfCalls(results, k, k + 1) == results(k)
  {
    XorUnits(results(k));
  }

  lemma {:induction false} XorOfCallsSplits(results: nat -> Word32, from: nat, middle: nat, to: nat)
    requires from <= middle <= to
    ensures XorOfCalls(results, from, to) ==
            Xor32(XorOfCalls(results, from, middle), XorOfCalls(results, middle, to))
  {
    hide IsXor;
    if middle == to {
      XorUnits(XorOfCalls(results, from, middle));
    } else {
      XorOfCallsSplits(results, from, middle, to - 1);
      XorAssociates(XorOfCalls(results, from, middle), XorOfCalls(results, middle, to - 1), results(to - 1));
    }
  }

  method MeasureBatch(action: Action, clock: Clock, batchCount: nat) returns (batch: Batch)
    modifies action, clock
    ensures action.calls == old(action.calls) + batchCount
    ensures clock.readings == old(clock.readings) + 2
    ensures batch == Batch(clock.ticks(old(clock.readings) + 1) - clock.ticks(old(clock.readings)),
                           XorOfCalls(action.results, old(action.calls), action.calls))
  {
    hide IsXor;
    var sink: Word32 := 0;
    var start := clock.GetTimestamp();
    for iteration := 0 to batchCount
      invariant action.calls == old(action.calls) + iteration && clock.readings == old(clock.readings) + 1
      invariant sink == XorOfCalls(action.results, old(action.calls), action.calls)
    {
      var result := action.Invoke();
      sink := Xor32(sink, result);
    }
    var end := clock.GetTimestamp();
    batch := Batch(end - start, sink);
  }

  function Add(left: Batch, right: Batch): Batch {
    Batch(left.elapsed + right.elapsed, Xor32(left.sink, right.sink))
  }

  /** Time spent inside `n` measured batches whose first clock reading is number `from`. */
  function TimeInside(ticks: nat -> real, from: nat, n: nat): real {
    if n == 0 then 0.0
    else TimeInside(ticks, from, n - 1) + (ticks(from + 2 * n - 1) - ticks(from + 2 * n - 2))
  }

  ghost predicate Monotone(ticks: nat -> real) {
    forall i: nat, j: nat :: i <= j ==> ticks(i) <= ticks(j)
  }

  lemma {:induction false} MeasuredTimeIsBounded(ticks: nat -> real, from: nat, n: nat)
    requires Monotone(ticks) && n > 0
    ensures 0.0 <= TimeInside(ticks, from, n) <= ticks(from + 2 * n - 1) - ticks(from)
  {
    assert ticks(from + 2 * n - 2) <= ticks(from + 2 * n - 1);
    if n > 1 {
      MeasuredTimeIsBounded(ticks, from, n - 1);
      assert ticks(from + 2 * n - 3) <= ticks(from + 2 * n - 2);
    } else {
      assert TimeInside(ticks, from, 0) == 0.0;
    }
  }

  // ---------- the interleaved loop ----------

  /** Which lane a completed slice belonged to. */
  datatype Lane = Managed | Comparator

  function Schedule(firstLane: LaneOrder, slices: nat): (lanes: seq<Lane>)
    ensures |lanes| == 2 * slices
    ensures forall i :: 0 <= i < |lanes| ==>
              lanes[i] == if (i % 2 == 0) == firstLane.ManagedFirst? then Managed else Comparator
  {
    seq(2 * slices, i => if (i % 2 == 0) == firstLane.ManagedFirst? then Managed else Comparator)
  }

  function CountLane(lanes: seq<Lane>, lane: Lane): nat {
    if lanes == [] then 0 else CountLane(lanes[..|lanes| - 1], lane) + if lanes[|lanes| - 1] == lane then 1 else 0
  }

  /** At every moment the lanes' completed slices differ by at most one. */
  lemma {:induction false} LanesStayLevel(firstLane: LaneOrder, slices: nat, k: nat)
    requires k <= 2 * slices
    ensures var done := Schedule(firstLane, slices)[..k];
            && CountLane(done, if firstLane.ManagedFirst? then Managed else Comparator) == (k + 1) / 2
            && CountLane(done, if firstLane.ManagedFirst? then Comparator else Managed) == k / 2
  {
    if k == 0 {
    } else {
      LanesStayLevel(firstLane, slices, k - 1);
      var lanes := Schedule(firstLane, slices);
      assert lanes[..k][..k - 1] == lanes[..k - 1] && lanes[..k][k - 1] == lanes[k - 1];
    }
  }

  /** The time measured inside the slices of one lane; slice `i` lies between readings `2 * i` and `2 * i + 1`. */
  function TimeOf(ticks: nat -> real, lanes: seq<Lane>, lane: Lane): real {
    if lanes == [] then 0.0
    else
      var i := |lanes| - 1;
      TimeOf(ticks, lanes[..i], lane) + if lanes[i] == lane then ticks(2 * i + 1) - ticks(2 * i) else 0.0
  }

  lemma TimeOfOneMore(ticks: nat -> real, lanes: seq<Lane>, next: Lane, lane: Lane)
    ensures TimeOf(ticks, lanes + [next], lane) ==
            TimeOf(ticks, lanes, lane) +
            if next == lane then ticks(2 * |lanes| + 1) - ticks(2 * |lanes|) else 0.0
  {
    assert (lanes + [next])[..|lanes|] == lanes;
  }

  /** No time is lost or counted twice: the lanes share what was measured. */
  lemma {:induction false} LanesShareTime(ticks: nat -> real, lanes: seq<Lane>)
    ensures TimeOf(ticks, lanes, Managed) + TimeOf(ticks, lanes, Comparator) == TimeInside(ticks, 0, |lanes|)
  {
    if lanes == [] {
    } else {
      LanesShareTime(ticks, lanes[..|lanes| - 1]);
    }
  }

  method MeasurePair(managedAction: Action, managedBatchCount: nat,
                     comparatorAction: Action, comparatorBatchCount: nat,
                     firstLane: LaneOrder, clock: Clock)
    returns (managed: Batch, comparator: Batch, lanes: seq<Lane>)
    requires managedAction != comparatorAction
    requires managedAction.calls == comparatorAction.calls == clock.readings == 0
    modifies managedAction, comparatorAction, clock
    // every slice is run, in turn
    ensures lanes == Schedule(firstLane, Min(8, Min(managedBatchCount, comparatorBatchCount)))
    // each action runs exactly its batch count; with an empty batch neither runs
    ensures managedBatchCount > 0 && comparatorBatchCount > 0 ==>
              managedAction.calls == managedBatchCount && comparatorAction.calls == comparatorBatchCount
    ensures managedBatchCount == 0 || comparatorBatchCount == 0 ==>
              managedAction.calls == 0 && comparatorAction.calls == 0
    // the sinks are those of uninterrupted runs
    ensures managed.sink == XorOfCalls(managedAction.results, 0, managedAction.calls)
    ensures comparator.sink == XorOfCalls(comparatorAction.results, 0, comparatorAction.calls)
    // each lane is charged the time of its own slices
    ensures clock.readings == 2 * |lanes|
    ensures managed.elapsed == TimeOf(clock.ticks, lanes, Managed)
    ensures comparator.elapsed == TimeOf(clock.ticks, lanes, Comparator)
  {
    hide IsXor, Xor32, SumOfSlices, SliceCount, TimeOf, XorOfCalls, Schedule;
    var sliceCount := Min(INTERLEAVE_SLICES, Min(managedBatchCount, comparatorBatchCount));
    managed, comparator := Batch(0.0, 0), Batch(0.0, 0);
    lanes := [];
    NothingMeasured(managedAction.results, clock.ticks, managedBatchCount, sliceCount);
    NothingMeasured(comparatorAction.results, clock.ticks, comparatorBatchCount, sliceCount);
    assert lanes == Schedule(firstLane, 0);
    for slice := 0 to sliceCount
      invariant LaneState(managedAction, managed, managedBatchCount, sliceCount, slice)
      invariant LaneState(comparatorAction, comparator, comparatorBatchCount, sliceCount, slice)
      invariant lanes == Schedule(firstLane, slice)
      invariant clock.readings == 2 * |lanes|
      invariant managed.elapsed == TimeOf(clock.ticks, lanes, Managed)
      invariant comparator.elapsed == TimeOf(clock.ticks, lanes, Comparator)
    {
      var turns := if firstLane == ManagedFirst then [Managed, Comparator] else [Comparator, Managed];
      TimeOfTwoMore(clock.ticks, lanes, turns[0], turns[1]);
      if firstLane == ManagedFirst {
        managed := RunSlice(managedAction, managed, managedBatchCount, sliceCount, slice, clock);
        comparator := RunSlice(comparatorAction, comparator, comparatorBatchCount, sliceCount, slice, clock);
      } else {
        comparator := RunSlice(comparatorAction, comparator, comparatorBatchCount, sliceCount, slice, clock);
        managed := RunSlice(managedAction, managed, managedBatchCount, sliceCount, slice, clock);
      }
      lanes := lanes + turns;
      assert lanes == Schedule(firstLane, slice + 1);
    }
    if sliceCount > 0 {
      SlicesMakeTheWhole(managedBatchCount, sliceCount);
      SlicesMakeTheWhole(comparatorBatchCount, sliceCount);
    }
  }

  /** A lane's action and accumulated batch after its first `slice` slices. */
  ghost predicate LaneState(action: Action, batch: Batch, total: nat, slices: nat, slice: nat)
    reads action
  {
    && action.calls == (if slices > 0 then SumOfSlices(total, slices, slice) else 0)
    && batch.sink == XorOfCalls(action.results, 0, action.calls)
  }

  lemma NothingMeasured(results: nat -> Word32, ticks: nat -> real, total: nat, slices: nat)
    ensures XorOfCalls(results, 0, 0) == 0
    ensures forall lane :: TimeOf(ticks, [], lane) == 0.0
    ensures slices > 0 ==> SumOfSlices(total, slices, 0) == 0
  {
  }

  /** `Add(lane, MeasureBatch(action, sliceCount))` */
  method RunSlice(action: Action, before: Batch, total: nat, slices: nat, slice: nat, clock: Clock)
    returns (after: Batch)
    requires slice < slices && LaneState(action, before, total, slices, slice)
    modifies action, clock
    ensures LaneState(action, after, total, slices, slice + 1)
    ensures clock.readings == old(clock.readings) + 2
    ensures after.elapsed == before.elapsed + (clock.ticks(old(clock.readings) + 1) - clock.ticks(old(clock.readings)))
  {
    hide IsXor, Xor32, SliceCount, XorOfCalls;
    var sliceCount := SliceCount(total, slices, slice);
    XorOfCallsSplits(action.results, 0, action.calls, action.calls + sliceCount);
    var batch := MeasureBatch(action, clock, sliceCount);
    after := Add(before, batch);
  }

  lemma TimeOfTwoMore(ticks: nat -> real, lanes: seq<Lane>, first: Lane, second: Lane)
    ensures forall lane :: TimeOf(ticks, lanes + [first, second], lane) ==
              TimeOf(ticks, lanes, lane) +
              (if first == lane then ticks(2 * |lanes| + 1) - ticks(2 * |lanes|) else 0.0) +
              (if second == lane then ticks(2 * |lanes| + 3) - ticks(2 * |lanes| + 2) else 0.0)
  {
    hide TimeOf;
    forall lane
      ensures TimeOf(ticks, lanes + [first, second], lane) ==
              TimeOf(ticks, lanes, lane) +
              (if first == lane then ticks(2 * |lanes| + 1) - ticks(2 * |lanes|) else 0.0) +
              (if second == lane then ticks(2 * |lanes| + 3) - ticks(2 * |lanes| + 2) else 0.0)
    {
      TimeOfOneMore(ticks, lanes, first, lane);
      TimeOfOneMore(ticks, lanes + [first], second, lane);
      assert lanes + [first] + [second] == lanes + [first, second];
    }
  }
}
