/**
 When comparing a loop with the next class is enough: if that class is passed for good,
 the direct kernel neither fails nor misreads anything.
 */
module AsciiLookahead {
  import opened Common
  import opened Words
  import opened AsciiNfa
  import opened AsciiProgram
  import opened AsciiItems
  import opened AsciiLine
  import opened AsciiLineBuilder
  import opened AsciiDirectCompiler
  import opened AsciiLoopCompiler
  import opened AsciiAdmission
  import opened AsciiVerifier

  /** Every loop that may be left out is followed by a class that is passed for good. */
  predicate OneLoopEach(steps: seq<Step>) {
    forall i :: 0 <= i < |steps| && IsOptionalLoop(steps[i]) ==> i + 1 < |steps| && Passing(steps[i + 1])
  }

  lemma {:induction false} AddClasses(items: Items, more: Items)
    requires Alone(items) && forall t :: 0 <= t < |more| ==> more[t].One?
    ensures Alone(items + more)
    ensures LoopsHere(items + more) == if more == [] then LoopsHere(items) else []
    decreases |more|
  {
    hide Alone, LoopsHere;
    if more == [] {
      assert items + more == items;
    } else {
      var front, x := more[..|more| - 1], more[|more| - 1];
      AddClasses(items, front);
      assert items + more == (items + front) + [x];
      AloneOneMore(items + front, x);
      LoopsOfOneMore(items + front, x);
    }
  }

  /** There is a loop to stay with only just behind it. */
  lemma {:induction false} LoopsBehindLoop(steps: seq<Step>, i: nat)
    requires i <= |steps| && OneLoopEach(steps)
    ensures Alone(ItemsOf(steps, i))
    ensures LoopsHere(ItemsOf(steps, i)) ==
            if i > 0 && IsOptionalLoop(steps[i - 1]) then [Star(steps[i - 1].charClass.Members())] else []
    decreases i
  {
    hide Alone, LoopsHere, Passing, IsOptionalLoop;
    if i == 0 {
      NoItemsAtAll();
    } else {
      var items, step := ItemsOf(steps, i - 1), steps[i - 1];
      LoopsBehindLoop(steps, i - 1);
      StarsOfStep(step);
      if i > 1 && IsOptionalLoop(steps[i - 2]) {
        PassingIsNoLoop(step);
        AddClasses(items, ItemsOfStep(step));
      } else if IsOptionalLoop(step) {
        AloneOneMore(items, Star(step.charClass.Members()));
        LoopsOfOneMore(items, Star(step.charClass.Members()));
      } else {
        AddClasses(items, ItemsOfStep(step));
      }
    }
  }

  /** Without an overlap in the last state, no step clashes. */
  lemma ClashNeedsOverlap(steps: seq<Step>, i: nat, spent: nat)
    requires i < |steps| && EventAt(steps, i, spent) == Clash
    ensures Consuming(steps[i])
    ensures FirstOverlap(LoopsHere(ItemsOf(steps, i)), steps[i].charClass.Members()) < |LoopsHere(ItemsOf(steps, i))|
  {
    hide ItemsOf, LoopsHere, FirstOverlap, Following, ScanCharges, Level;
  }

  /** A loop the kernel goes on after shares nothing with the next class. */
  lemma GoneOnApart(steps: seq<Step>, i: nat, spent: nat)
    requires i + 1 < |steps| && EventAt(steps, i, spent) == Continue && IsOptionalLoop(steps[i]) && Consuming(steps[i + 1])
    ensures steps[i].charClass.Members() !! steps[i + 1].charClass.Members()
  {
    hide ItemsOf, LoopsHere, FirstOverlap, ScanCharges, Level, AddEvent;
  }

  lemma NoClash(steps: seq<Step>, i: nat, spent: nat)
    requires OneLoopEach(steps) && i < |steps|
    requires i > 0 ==> EventHere(steps, i - 1, spent) == Continue
    ensures EventHere(steps, i, spent) != Clash
  {
    hide ItemsOf, LoopsHere, EventAt, SpentBefore, Passing, FirstOverlap;
    LoopsBehindLoop(steps, i);
    if i > 0 && IsOptionalLoop(steps[i - 1]) && Consuming(steps[i]) {
      GoneOnApart(steps, i - 1, SpentBefore(steps, i - 1, spent));
      OverlapAtLeast([Star(steps[i - 1].charClass.Members())], steps[i].charClass.Members(), 1);
    }
    if EventHere(steps, i, spent) == Clash {
      ClashNeedsOverlap(steps, i, SpentBefore(steps, i, spent));
      assert false;
    }
  }

  /** Where every loop is followed by a class that is passed for good, the compiler does not fail, and its program is right. */
  lemma LookaheadSuffices(steps: seq<Step>)
    requires OneLoopEach(steps)
    ensures RouteOf(steps) != Overlapping && LineSuits(steps)
  {
    hide EventHere, AnchorsInPlace, LoopEnd, Alone, Hopeless, ItemsOf, OneLoopEach;
    var spent := SpentOnLoops(steps);
    var stop := Stop(steps, 0, spent);
    StopMeans(steps, 0, spent);
    if stop < |steps| {
      NoClash(steps, stop, spent);
    }
    LoopsBehindLoop(steps, AcceptIndex(steps));
  }
}
