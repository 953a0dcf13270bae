/**
 Filling a table without a graph: the buffers that grow together, the check for
 overlapping edges, and the work each edge charges.
 */
module AsciiLineBuilder {
  import opened Words
  import opened AsciiNfa
  import opened AsciiProgram
  import opened AsciiItems
  import opened AsciiLine

  // ---------- what adding an item comes to ----------

  /** An edge is added, or the work or the table is too large, or two edges of a state overlap. */
  datatype Adding = Added | Exceeded | Clashed

  /** The loops of the last state. */
  function LoopsHere(items: Items): Items {
    if items == [] || Last(items).One? then [] else LoopsHere(Front(items)) + [Last(items)]
  }

  /** The first of the items that shares a byte with the class, or how many there are. */
  function FirstOverlap(loops: Items, bytes: ByteClass): (f: nat)
    ensures f <= |loops|
    ensures forall i :: 0 <= i < f ==> loops[i].bytes !! bytes
    ensures f < |loops| ==> !(loops[f].bytes !! bytes)
  {
    if loops == [] || !(loops[0].bytes !! bytes) then 0 else 1 + FirstOverlap(loops[1..], bytes)
  }

  function AddCharges(items: Items): nat {
    1 + |LoopsHere(items)|
  }

  /** Adding an edge to the last state. */
  function AddEvent(items: Items, bytes: ByteClass, spent: nat): Adding {
    var loops := LoopsHere(items);
    var f := FirstOverlap(loops, bytes);
    if f < |loops| then if spent + 2 + f > MAX_OPTIMIZATION_STEPS then Exceeded else Clashed
    else if spent + AddCharges(items) > MAX_OPTIMIZATION_STEPS || |items| >= MAX_LINE_TRANSITIONS then Exceeded
    else Added
  }

  function AppendCharges(items: Items): nat {
    if LoopsHere(items) == [] then 2 else 2 + AddCharges(items)
  }

  /** Adding a state behind the last one, and the edge to it. */
  function AppendEvent(items: Items, bytes: ByteClass, spent: nat): Adding {
    if spent + 2 > MAX_OPTIMIZATION_STEPS || Level(items) + 1 >= MAX_LINE_STATES then Exceeded
    else if LoopsHere(items) == [] then if |items| >= MAX_LINE_TRANSITIONS then Exceeded else Added
    else AddEvent(items, bytes, spent + 2)
  }

  // ---------- the rows of a growing line ----------

  lemma {:induction false} LoopsAreLast(items: Items)
    ensures |LoopsHere(items)| <= |items| && LoopsHere(items) == items[|items| - |LoopsHere(items)|..]
    ensures forall t :: 0 <= t < |items| ==>
              (|items| - |LoopsHere(items)| <= t <==> Source(items, t) == Level(items))
    ensures forall t :: 0 <= t < |items| ==> Source(items, t) <= Level(items)
  {
    if items == [] {
    } else {
      var n := |items| - 1;
      LastItem(items);
      LoopsAreLast(Front(items));
      PrefixLevels(items, n);
      assert forall t :: 0 <= t < n ==> Source(items, t) == Source(Front(items), t);
      assert items == Front(items) + [Last(items)];
    }
  }

  /** The row of the last state is the end of the table: as long as there are loops, and free to begin if there are none. */
  lemma LastRow(items: Items, offset: nat, count: nat)
    requires RowHolds(items, Level(items), offset, count)
    ensures count == |LoopsHere(items)|
    ensures count > 0 ==> offset + count == |items|
  {
    hide Source;
    LoopsAreLast(items);
    var m := |LoopsHere(items)|;
    if m > 0 {
      var last := |items| - 1;
      assert Source(items, last) == Level(items);
      assert offset <= last < offset + count;
      assert Source(items, |items| - m) == Level(items);
      assert offset <= |items| - m;
      if offset < |items| - m {
        assert Source(items, offset) == Level(items);
      }
    } else if count > 0 {
      assert Source(items, offset) == Level(items);
    }
  }

  lemma LevelsOfOneMore(items: Items, x: Item)
    ensures var more := items + [x];
            && Level(more) == Level(items) + (if x.One? then 1 else 0)
            && Source(more, |items|) == Level(items) && Target(more, |items|) == Level(more)
            && (forall t :: 0 <= t < |items| ==> Source(more, t) == Source(items, t) && Target(more, t) == Target(items, t))
  {
    var more := items + [x];
    assert Front(more) == items;
    LastItem(more);
    PrefixLevels(more, |items|);
    assert more[..|items|] == items;
  }

  /** A row of its own for a state without edges. */
  lemma PadRows(offsets: seq<nat>, counts: seq<nat>, sets: seq<ByteClass>, targets: seq<nat>, items: Items)
    requires Lines(offsets, counts, sets, targets, items)
    ensures Lines(offsets + [0], counts + [0], sets, targets, items)
  {
    hide Source, Target;
    forall s | 0 <= s < |offsets| + 1 ensures RowHolds(items, s, (offsets + [0])[s], (counts + [0])[s]) {
      assert s < |offsets| ==> RowHolds(items, s, offsets[s], counts[s]);
    }
  }

  lemma OtherRowOneMore(items: Items, x: Item, s: nat, offset: nat, count: nat)
    requires RowHolds(items, s, offset, count) && s != Level(items)
    ensures RowHolds(items + [x], s, offset, count)
  {
    hide Source, Target, Level;
    LevelsOfOneMore(items, x);
    var more := items + [x];
    forall t | 0 <= t < |more| ensures offset <= t < offset + count <==> Source(more, t) == s {
      assert t < |items| ==> Source(more, t) == Source(items, t);
    }
  }

  lemma LastRowOneMore(items: Items, x: Item, offset: nat, count: nat)
    requires RowHolds(items, Level(items), offset, count)
    ensures RowHolds(items + [x], Level(items), if count == 0 then |items| else offset, count + 1)
  {
    hide Source, Target, Level;
    LevelsOfOneMore(items, x);
    LastRow(items, offset, count);
    var more, begin := items + [x], if count == 0 then |items| else offset;
    forall t | 0 <= t < |more| ensures begin <= t < begin + count + 1 <==> Source(more, t) == Level(items) {
      assert t < |items| ==> Source(more, t) == Source(items, t);
    }
  }

  /** One more edge at the end of the table. */
  lemma LinesOneMore(offsets: seq<nat>, counts: seq<nat>, sets: seq<ByteClass>, targets: seq<nat>, items: Items, x: Item)
    requires Lines(offsets, counts, sets, targets, items) && Level(items) < |offsets|
    ensures var s := Level(items);
            Lines(if counts[s] == 0 then offsets[s := |sets|] else offsets, counts[s := counts[s] + 1],
                  sets + [x.bytes], targets + [Level(items + [x])], items + [x])
  {
    hide Source, Target, RowHolds;
    var s := Level(items);
    LevelsOfOneMore(items, x);
    var more := items + [x];
    var begins := if counts[s] == 0 then offsets[s := |sets|] else offsets;
    forall r | 0 <= r < |begins| ensures RowHolds(more, r, begins[r], counts[s := counts[s] + 1][r]) {
      assert RowHolds(items, r, offsets[r], counts[r]);
      if r == s {
        LastRowOneMore(items, x, offsets[r], counts[r]);
      } else {
        OtherRowOneMore(items, x, r, offsets[r], counts[r]);
      }
    }
  }

  /** What shares no byte with the loops of the last state can be added to it. */
  lemma ApartOneMore(items: Items, x: Item)
    requires ItemsApart(items) && FirstOverlap(LoopsHere(items), x.bytes) == |LoopsHere(items)|
    ensures ItemsApart(items + [x])
  {
    hide Source, Target, FirstOverlap;
    var more, loops := items + [x], LoopsHere(items);
    LoopsAreLast(items);
    LevelsOfOneMore(items, x);
    forall t, u | 0 <= t < u < |more| && Source(more, t) == Source(more, u) ensures more[t].bytes !! more[u].bytes {
      if u == |items| {
        assert loops[t - (|items| - |loops|)] == items[t];
      }
    }
  }

  // ---------- the buffers ----------

  class Buffers {
    var offsets: seq<nat>
    var counts: seq<nat>
    var sets: seq<ByteClass>
    var targets: seq<nat>
    var accepting: seq<bool>
    var optimizationSteps: nat
    ghost var items: Items

    /** The edges are those of the items, whatever states there are already. */
    ghost predicate Filled()
      reads this
    {
      && Lines(offsets, counts, sets, targets, items) && ItemsApart(items)
      && |items| <= MAX_LINE_TRANSITIONS && |offsets| <= |accepting| <= MAX_LINE_STATES
      && (forall s :: 0 <= s < |accepting| ==> !accepting[s])
      && optimizationSteps <= MAX_OPTIMIZATION_STEPS
    }

    /** ... and the last state is the one behind the items. */
    ghost predicate Valid()
      reads this
    {
      Filled() && |accepting| == Level(items) + 1
    }

    constructor (spent: nat)
      requires spent <= MAX_OPTIMIZATION_STEPS
      ensures Filled() && items == [] && accepting == [] && optimizationSteps == spent
    {
      offsets, counts, sets, targets, accepting, items := [], [], [], [], [], [];
      optimizationSteps := spent;
    }

    method ChargeCompilationStep() returns (ok: bool)
      modifies this`optimizationSteps
      ensures optimizationSteps == old(optimizationSteps) + 1
      ensures ok == (optimizationSteps <= MAX_OPTIMIZATION_STEPS)
    {
      optimizationSteps := optimizationSteps + 1;
      ok := optimizationSteps <= MAX_OPTIMIZATION_STEPS;
    }

    method AddDfaState() returns (ok: bool, index: nat)
      requires Filled()
      modifies this`accepting, this`optimizationSteps
      ensures index == |old(accepting)| && optimizationSteps == old(optimizationSteps) + 1
      ensures ok == (optimizationSteps <= MAX_OPTIMIZATION_STEPS && |old(accepting)| < MAX_LINE_STATES)
      ensures ok ==> Filled() && |accepting| == |old(accepting)| + 1
    {
      index := |accepting|;
      ok := ChargeCompilationStep();
      if !ok || |accepting| >= MAX_LINE_STATES {
        return false, index;
      }
      accepting := accepting + [false];
    }

    /** Rows for all states up to this one. */
    method PadTo(stateIndex: nat)
      requires Filled() && stateIndex < |accepting|
      modifies this`offsets, this`counts
      ensures Filled() && stateIndex < |offsets|
    {
      hide Lines, ItemsApart;
      while |offsets| <= stateIndex
        invariant Filled()
        decreases stateIndex + 1 - |offsets|
      {
        PadRows(offsets, counts, sets, targets, items);
        offsets := offsets + [0];
        counts := counts + [0];
      }
    }

    /** One more edge of the last state: a loop, or a class to the next one. */
    method AddDeterministicTransition(stateIndex: nat, transitionSet: ByteClass, targetState: nat, ghost x: Item)
      returns (r: Adding)
      requires Filled() && stateIndex == Level(items) < |accepting|
      requires x.bytes == transitionSet && targetState == Level(items + [x])
      modifies this
      ensures r == AddEvent(old(items), transitionSet, old(optimizationSteps))
      ensures accepting == old(accepting)
      ensures r.Added? ==> Filled() && items == old(items) + [x]
      ensures r.Added? ==> optimizationSteps == old(optimizationSteps) + AddCharges(old(items))
    {
      hide Lines, ItemsApart, Source, Target, FirstOverlap, Level, LoopsHere;
      ghost var loops := LoopsHere(items);
      var ok := ChargeCompilationStep();
      if !ok {
        return Exceeded;
      }
      PadTo(stateIndex);
      RowOfLast(offsets, counts, sets, targets, items);
      ghost var padded, rows := offsets, counts;
      if counts[stateIndex] == 0 {
        offsets := offsets[stateIndex := |sets|];
      }
      var offset, count := offsets[stateIndex], counts[stateIndex];
      ghost var begins := offsets;
      for i := 0 to count
        invariant optimizationSteps == old(optimizationSteps) + 1 + i <= MAX_OPTIMIZATION_STEPS
        invariant forall j :: 0 <= j < i ==> loops[j].bytes !! transitionSet
        invariant items == old(items) && accepting == old(accepting) && sets == old(sets) && targets == old(targets)
        invariant offsets == begins && counts == rows
      {
        ok := ChargeCompilationStep();
        OverlapAtLeast(loops, transitionSet, i);
        if !ok {
          return Exceeded;
        }
        if !(sets[offset + i] !! transitionSet) {
          OverlapHere(loops, transitionSet, i);
          return Clashed;
        }
      }
      OverlapAtLeast(loops, transitionSet, count);
      if |sets| >= MAX_LINE_TRANSITIONS {
        return Exceeded;
      }
      LinesOneMore(padded, rows, sets, targets, items, x);
      ApartOneMore(items, x);
      sets := sets + [transitionSet];
      targets := targets + [targetState];
      counts := counts[stateIndex := count + 1];
      items := items + [x];
      r := Added;
    }

    /** A new state behind the last one, and the edge to it. */
    method AppendDeterministicTransition(transitionSet: ByteClass, stateIndex: nat) returns (r: Adding, nextState: nat)
      requires Valid() && stateIndex == Level(items)
      modifies this
      ensures r == AppendEvent(old(items), transitionSet, old(optimizationSteps))
      ensures r.Added? ==> Valid() && items == old(items) + [One(transitionSet)] && nextState == Level(items)
      ensures r.Added? ==> optimizationSteps == old(optimizationSteps) + AppendCharges(old(items))
    {
      hide Lines, ItemsApart, Source, Target, FirstOverlap, LoopsHere;
      LevelsOfOneMore(items, One(transitionSet));
      nextState := stateIndex;
      var ok := ChargeCompilationStep();
      if !ok {
        return Exceeded, nextState;
      }
      PadTo(stateIndex);
      ok, nextState := AddDfaState();
      if !ok {
        return Exceeded, nextState;
      }
      RowOfLast(offsets, counts, sets, targets, items);
      if counts[stateIndex] == 0 {
        if |sets| >= MAX_LINE_TRANSITIONS {
          return Exceeded, nextState;
        }
        NoLoops(items, transitionSet);
        LinesOneMore(offsets, counts, sets, targets, items, One(transitionSet));
        ApartOneMore(items, One(transitionSet));
        offsets := offsets[stateIndex := |sets|];
        counts := counts[stateIndex := 1];
        sets := sets + [transitionSet];
        targets := targets + [nextState];
        items := items + [One(transitionSet)];
        r := Added;
      } else {
        r := AddDeterministicTransition(stateIndex, transitionSet, nextState, One(transitionSet));
      }
    }
  }

  lemma NoLoops(items: Items, bytes: ByteClass)
    ensures LoopsHere(items) == [] ==> FirstOverlap(LoopsHere(items), bytes) == |LoopsHere(items)|
  {
  }

  lemma OverlapAtLeast(loops: Items, bytes: ByteClass, n: nat)
    requires n <= |loops| && forall j :: 0 <= j < n ==> loops[j].bytes !! bytes
    ensures n <= FirstOverlap(loops, bytes)
  {
  }

  lemma OverlapHere(loops: Items, bytes: ByteClass, n: nat)
    requires n < |loops| && !(loops[n].bytes !! bytes) && forall j :: 0 <= j < n ==> loops[j].bytes !! bytes
    ensures FirstOverlap(loops, bytes) == n
  {
  }

  lemma RowOfLast(offsets: seq<nat>, counts: seq<nat>, sets: seq<ByteClass>, targets: seq<nat>, items: Items)
    requires Lines(offsets, counts, sets, targets, items) && Level(items) < |offsets|
    ensures |sets| == |targets| == |items| && |offsets| == |counts|
    ensures var s, loops := Level(items), LoopsHere(items);
            && counts[s] == |loops| && (counts[s] > 0 ==> offsets[s] + counts[s] == |items|)
            && (forall i :: 0 <= i < |loops| ==> sets[offsets[s] + i] == loops[i].bytes)
  {
    hide Source, Target;
    var s := Level(items);
    assert RowHolds(items, s, offsets[s], counts[s]);
    LastRow(items, offsets[s], counts[s]);
    LoopsAreLast(items);
  }
}
