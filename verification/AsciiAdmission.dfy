/**
 Which programs the compiler takes on, and which of its ways they go, told from the
 steps alone: what the direct kernel takes, where loops overlap, and when there is too much.
 */
module AsciiAdmission {
  import opened Common
  import opened Words
  import opened AsciiNfa
  import opened AsciiNfaCompiler
  import opened AsciiClosure
  import opened AsciiDfaRows
  import opened AsciiDfaCompiler
  import opened AsciiItems
  import opened AsciiLine
  import opened AsciiLineBuilder
  import opened AsciiDirectCompiler
  import opened AsciiLoopCompiler

  // ---------- anchors ----------

  /** One beginning at most, before anything that consumes; an end only just before a final Accept. */
  predicate AnchorsInPlace(steps: seq<Step>) {
    forall i :: 0 <= i < |steps| ==> AnchorInPlace(steps, i)
  }

  predicate AnchorInPlace(steps: seq<Step>, i: nat)
    requires i < |steps|
  {
    match steps[i]
    case RequireBeginning => forall j :: 0 <= j < i ==> !Consuming(steps[j]) && !steps[j].RequireBeginning?
    case RequireEnd => i == |steps| - 2 && steps[|steps| - 1].Accept?
    case _ => true
  }

  // ---------- what the direct kernel takes ----------

  /** Step `j` is the next one after step `i` that consumes anything. */
  predicate IsNext(steps: seq<Step>, i: nat, j: nat) {
    i < j < |steps| && Consuming(steps[j]) && forall m :: i < m < j ==> !Consuming(steps[m])
  }

  /** The loop is followed by a class that it shares nothing with. */
  ghost predicate NextApart(steps: seq<Step>, i: nat)
    requires i < |steps| && Consuming(steps[i])
  {
    exists j: nat :: IsNext(steps, i, j) && !steps[j].charClass.IsEmpty() &&
                     steps[i].charClass.Members() !! steps[j].charClass.Members()
  }

  /** No class is declared empty; a loop is taken a fixed number of times, or any number of times before a class apart. */
  ghost predicate TakenDirectly(steps: seq<Step>, i: nat)
    requires i < |steps|
  {
    match steps[i]
    case MatchClass(charClass) => !charClass.IsEmpty()
    case LoopClass(charClass, min, max) =>
      && !charClass.IsEmpty()
      && (min == max || (min == 0 && (max < 0 || max == 0x7FFF_FFFF) && NextApart(steps, i)))
    case _ => true
  }

  ghost predicate DirectUpTo(steps: seq<Step>, k: nat)
    requires k <= |steps|
  {
    forall i :: 0 <= i < k ==> TakenDirectly(steps, i)
  }

  /** The kernel takes every step up to the Accept, and no other kernel was there before it. */
  ghost predicate GoesByLine(steps: seq<Step>) {
    !IsLoopSequence(steps) && AcceptIndex(steps) < |steps| && DirectUpTo(steps, AcceptIndex(steps))
  }

  lemma {:induction false} FollowingIsNext(steps: seq<Step>, i: nat, from: nat)
    requires i < from <= |steps| && forall m :: i < m < from ==> !Consuming(steps[m])
    ensures Following(steps, from).Some? <==> exists j: nat :: IsNext(steps, i, j) && !steps[j].charClass.IsEmpty()
    ensures forall j: nat :: IsNext(steps, i, j) && Following(steps, from).Some? ==>
                             Following(steps, from).value == steps[j].charClass
    decreases |steps| - from
  {
    if from == |steps| {
    } else if Consuming(steps[from]) {
      assert IsNext(steps, i, from);
      assert forall j: nat :: IsNext(steps, i, j) ==> j == from;
    } else {
      FollowingIsNext(steps, i, from + 1);
    }
  }

  lemma FollowedApartIff(steps: seq<Step>, i: nat)
    requires i < |steps| && IsStar(steps[i])
    ensures FollowedApart(steps, i) <==> NextApart(steps, i)
  {
    hide Following, IsNext;
    FollowingIsNext(steps, i, i + 1);
  }

  // ---------- how many states it needs ----------

  /** The states that a step takes in the kernel. */
  function CopiesOf(step: Step): nat {
    match step
    case MatchClass(_) => 1
    case LoopClass(_, min, max) => if min == max then min else 0
    case _ => 0
  }

  function Copies(steps: seq<Step>, k: nat): nat
    requires k <= |steps|
  {
    if k == 0 then 0 else Copies(steps, k - 1) + CopiesOf(steps[k - 1])
  }

  /** Steps that the kernel takes one by one need more than 255 states behind the first. */
  ghost predicate TooLong(steps: seq<Step>) {
    exists k: nat :: k <= AcceptIndex(steps) && DirectUpTo(steps, k) && Copies(steps, k) > 255
  }

  lemma {:induction false} LevelOfAppended(items: Items, step: Step)
    ensures Level(items + ItemsOfStep(step)) == Level(items) + CopiesOf(step)
    ensures |ItemsOfStep(step)| <= CopiesOf(step) + 1
  {
    hide Level;
    match step {
      case MatchClass(charClass) =>
        LevelsOfOneMore(items, One(charClass.Members()));
      case LoopClass(charClass, min, max) =>
        LevelsOfOneMore(items, Star(charClass.Members()));
        LevelOfOnes(items, charClass.Members(), min);
        assert items + [] == items;
      case _ =>
        assert items + [] == items;
    }
  }

  lemma {:induction false} LevelIsCopies(steps: seq<Step>, k: nat)
    requires k <= |steps|
    ensures Level(ItemsOf(steps, k)) == Copies(steps, k) && |ItemsOf(steps, k)| <= Copies(steps, k) + k
  {
    hide Level, ItemsOfStep;
    if k == 0 {
      NoItemsAtAll();
    } else {
      LevelIsCopies(steps, k - 1);
      LevelOfAppended(ItemsOf(steps, k - 1), steps[k - 1]);
    }
  }

  lemma {:induction false} NothingCopied(steps: seq<Step>, k: nat)
    requires k <= |steps| && forall j :: 0 <= j < k ==> !Consuming(steps[j])
    ensures Copies(steps, k) == 0
  {
    if k == 0 {
    } else {
      NothingCopied(steps, k - 1);
    }
  }

  // ---------- where loops overlap ----------

  predicate IsOptionalLoop(step: Step) {
    step.LoopClass? && step.min != step.max && step.min == 0 && IsOpenEnded(step.max)
  }

  /** A class that is passed for good, once or a fixed number of times. */
  predicate Passing(step: Step) {
    step.MatchClass? || (step.LoopClass? && step.min == step.max && step.min > 0)
  }

  /** Nothing has been passed for good since loop `i`. */
  predicate StaysOpen(steps: seq<Step>, i: nat, j: nat)
    requires j <= |steps|
  {
    i < j && IsOptionalLoop(steps[i]) && forall m :: i < m < j ==> !Passing(steps[m])
  }

  ghost predicate IsOpenLoop(steps: seq<Step>, j: nat, x: Item)
    requires j <= |steps|
  {
    exists i: nat :: StaysOpen(steps, i, j) && x == Star(steps[i].charClass.Members())
  }

  /** Loop `i` is still open at step `j`, and a byte belongs to both. */
  predicate Overlaps(steps: seq<Step>, i: nat, j: nat) {
    && j < |steps| && StaysOpen(steps, i, j) && (Passing(steps[j]) || IsOptionalLoop(steps[j]))
    && !(steps[i].charClass.Members() !! steps[j].charClass.Members())
  }

  /** Two steps overlap that the kernel takes directly, with everything before them. */
  ghost predicate Clashes(steps: seq<Step>) {
    && !IsLoopSequence(steps)
    && exists i: nat, j: nat :: Overlaps(steps, i, j) && j < AcceptIndex(steps) && DirectUpTo(steps, j + 1)
  }

  lemma StarsOfStep(step: Step)
    ensures IsOptionalLoop(step) ==> ItemsOfStep(step) == [Star(step.charClass.Members())]
    ensures !IsOptionalLoop(step) ==> forall t :: 0 <= t < |ItemsOfStep(step)| ==> ItemsOfStep(step)[t].One?
    ensures !IsOptionalLoop(step) ==> (Passing(step) <==> ItemsOfStep(step) != [])
  {
    match step {
      case LoopClass(charClass, min, max) =>
        if min == max {
          OnesAreOne(charClass.Members(), min);
        }
      case _ =>
    }
  }

  lemma {:induction false} OnesAreOne(bytes: ByteClass, n: nat)
    ensures forall t :: 0 <= t < n ==> Ones(bytes, n)[t].One?
  {
    if n == 0 {
    } else {
      OnesAreOne(bytes, n - 1);
    }
  }

  lemma {:induction false} LoopsAfterClasses(items: Items, more: Items)
    requires forall t :: 0 <= t < |more| ==> more[t].One?
    ensures LoopsHere(items + more) == if more == [] then LoopsHere(items) else []
    decreases |more|
  {
    hide LoopsHere;
    if more == [] {
      assert items + more == items;
    } else {
      var front, x := more[..|more| - 1], more[|more| - 1];
      LoopsAfterClasses(items, front);
      assert items + more == (items + front) + [x];
      LoopsOfOneMore(items + front, x);
    }
  }

  /** The loops of the last state are those that are still open. */
  lemma {:induction false} LoopsAreOpen(steps: seq<Step>, j: nat, x: Item)
    requires j <= |steps|
    ensures x in LoopsHere(ItemsOf(steps, j)) <==> IsOpenLoop(steps, j, x)
    ensures |LoopsHere(ItemsOf(steps, j))| <= j
    decreases j
  {
    hide LoopsHere, Passing, ItemsOfStep;
    if j == 0 {
      NoItemsAtAll();
    } else {
      var items, step := ItemsOf(steps, j - 1), steps[j - 1];
      LoopsAreOpen(steps, j - 1, x);
      StarsOfStep(step);
      PassingIsNoLoop(step);
      if IsOptionalLoop(step) {
        LoopsOfOneMore(items, Star(step.charClass.Members()));
        assert StaysOpen(steps, j - 1, j);
      } else {
        LoopsAfterClasses(items, ItemsOfStep(step));
      }
      OpenOneMore(steps, j, x);
    }
  }

  lemma PassingIsNoLoop(step: Step)
    ensures Passing(step) ==> !IsOptionalLoop(step)
  {
  }

  lemma OpenOneMore(steps: seq<Step>, j: nat, x: Item)
    requires 0 < j <= |steps|
    ensures IsOpenLoop(steps, j, x) <==>
              (IsOptionalLoop(steps[j - 1]) && x == Star(steps[j - 1].charClass.Members())) ||
              (!Passing(steps[j - 1]) && IsOpenLoop(steps, j - 1, x))
  {
    hide Passing, IsOptionalLoop;
    assert forall i: nat :: i < j - 1 ==>
                            (StaysOpen(steps, i, j) <==> StaysOpen(steps, i, j - 1) && !Passing(steps[j - 1]));
    assert IsOptionalLoop(steps[j - 1]) <==> StaysOpen(steps, j - 1, j);
  }

  /** There is an overlap exactly if a loop that is still open shares a byte. */
  lemma OverlapIff(steps: seq<Step>, j: nat)
    requires j < |steps| && (Passing(steps[j]) || IsOptionalLoop(steps[j]))
    ensures var loops := LoopsHere(ItemsOf(steps, j));
            FirstOverlap(loops, steps[j].charClass.Members()) < |loops| <==> exists i: nat :: Overlaps(steps, i, j)
  {
    hide LoopsHere, ItemsOf, FirstOverlap;
    var loops, bytes := LoopsHere(ItemsOf(steps, j)), steps[j].charClass.Members();
    var f := FirstOverlap(loops, bytes);
    if f < |loops| {
      LoopsAreOpen(steps, j, loops[f]);
      var i: nat :| StaysOpen(steps, i, j) && loops[f] == Star(steps[i].charClass.Members());
      assert Overlaps(steps, i, j);
    }
    if i: nat :| Overlaps(steps, i, j) {
      var x := Star(steps[i].charClass.Members());
      LoopsAreOpen(steps, j, x);
      assert IsOpenLoop(steps, j, x);
      var t :| 0 <= t < |loops| && loops[t] == x;
      assert !(loops[t].bytes !! bytes);
    }
  }

  // ---------- the events of the kernel, step by step ----------

  lemma GivenUp(steps: seq<Step>, i: nat, spent: nat)
    requires i < |steps| && AnchorInPlace(steps, i) && EventAt(steps, i, spent) == GiveUp
    ensures !TakenDirectly(steps, i)
  {
    hide ItemsOf, LoopsHere, FirstOverlap, Following, ScanCharges, Level, NextApart, AppendEvent, AddEvent, CopiesEvent, FollowedApart;
    if steps[i].RequireBeginning? {
      LevelIsCopies(steps, i);
      NothingCopied(steps, i);
    } else if IsStar(steps[i]) {
      FollowedApartIff(steps, i);
    }
  }

  lemma TakenOrClashed(steps: seq<Step>, i: nat, spent: nat)
    requires i < |steps| && EventAt(steps, i, spent) in {Continue, Clash}
    ensures TakenDirectly(steps, i)
    ensures !steps[i].Accept?
  {
    hide ItemsOf, LoopsHere, FirstOverlap, Following, ScanCharges, Level, NextApart, AppendEvent, AddEvent, CopiesEvent, FollowedApart;
    if IsStar(steps[i]) {
      FollowedApartIff(steps, i);
    }
  }

  /** A step that overlaps is never gone on after; without an overlap nothing clashes. */
  lemma OverlapStops(steps: seq<Step>, j: nat, spent: nat)
    requires j < |steps|
    ensures EventAt(steps, j, spent) == Clash ==> exists i: nat :: Overlaps(steps, i, j)
    ensures TakenDirectly(steps, j) && (exists i: nat :: Overlaps(steps, i, j)) ==> EventAt(steps, j, spent) in {Clash, Exceed}
  {
    hide ItemsOf, LoopsHere, FirstOverlap, Following, ScanCharges, Level, NextApart, FollowedApart, StaysOpen;
    var step := steps[j];
    if Passing(step) || IsOptionalLoop(step) {
      OverlapIff(steps, j);
      if IsStar(step) {
        FollowedApartIff(steps, j);
      }
    } else {
      assert EventAt(steps, j, spent) != Clash;
      assert forall i: nat :: !Overlaps(steps, i, j);
    }
  }

  /** As long as the kernel goes on, its states fit. */
  lemma {:induction false} GoneOnFits(steps: seq<Step>, k: nat, spent: nat)
    requires k <= |steps| && forall i :: 0 <= i < k ==> EventHere(steps, i, spent) == Continue
    ensures Level(ItemsOf(steps, k)) <= 255 && DirectUpTo(steps, k) && k <= AcceptIndex(steps)
    decreases k
  {
    hide ItemsOf, EventAt, SpentBefore, Level, TakenDirectly;
    if k == 0 {
      NoItems(steps, spent);
    } else {
      GoneOnFits(steps, k - 1, spent);
      assert EventHere(steps, k - 1, spent) == Continue;
      TakenOrClashed(steps, k - 1, SpentBefore(steps, k - 1, spent));
      GoneOnFitsOne(steps, k - 1, SpentBefore(steps, k - 1, spent));
      assert !steps[k - 1].Accept?;
    }
  }

  lemma GoneOnFitsOne(steps: seq<Step>, i: nat, spent: nat)
    requires i < |steps| && EventAt(steps, i, spent) == Continue && Level(ItemsOf(steps, i)) <= 255
    ensures Level(ItemsOf(steps, i + 1)) <= 255
  {
    hide LoopsHere, FirstOverlap, Following, ScanCharges, Level, FollowedApart, AddEvent, ItemsOfStep, ItemsOf;
    ItemsOneMore(steps, i);
    LevelOfAppended(ItemsOf(steps, i), steps[i]);
  }

  // ---------- what the kernel charges ----------

  lemma {:induction false} ScanIsShort(steps: seq<Step>, from: nat)
    requires from <= |steps|
    ensures ScanCharges(steps, from) <= |steps| - from
    decreases |steps| - from
  {
    if from == |steps| || Consuming(steps[from]) {
    } else {
      ScanIsShort(steps, from + 1);
    }
  }

  lemma StepIsCheap(steps: seq<Step>, i: nat)
    requires i < |steps| <= 400
    ensures StepCharges(steps, i) <= 802 + 2 * CopiesOf(steps[i])
  {
    hide ItemsOf, LoopsHere, ScanCharges;
    LoopsAreOpen(steps, i, One({}));
    ScanIsShort(steps, i + 1);
  }

  lemma {:induction false} StepsAreCheap(steps: seq<Step>, k: nat, spent: nat)
    requires k <= |steps| <= 400
    ensures SpentBefore(steps, k, spent) <= spent + 1 + 802 * k + 2 * Copies(steps, k)
  {
    hide StepCharges;
    if k == 0 {
    } else {
      StepsAreCheap(steps, k - 1, spent);
      StepIsCheap(steps, k - 1);
    }
  }

  /** Steps that fit are not too much work. */
  lemma NoExcess(steps: seq<Step>, i: nat, spent: nat)
    requires i < |steps| <= 400 && spent <= 400_000 && Copies(steps, i) <= 255
    requires TakenDirectly(steps, i) ==> Copies(steps, i + 1) <= 255
    ensures EventAt(steps, i, spent) != Exceed
  {
    hide ItemsOf, LoopsHere, ScanCharges, Level, FirstOverlap, FollowedApart, NextApart, Following;
    LoopsAreOpen(steps, i, One({}));
    ScanIsShort(steps, i + 1);
    LevelIsCopies(steps, i);
    assert Copies(steps, i + 1) == Copies(steps, i) + CopiesOf(steps[i]);
  }

  // ---------- the kernels as a whole ----------

  /** The first kernel takes the sequences of loops, and is never too much work for a short program. */
  lemma LoopKernel(steps: seq<Step>)
    requires |steps| <= MAX_OPTIMIZATION_STEPS
    ensures LoopEnd(steps, |steps|) == Finish ==> IsLoopSequence(steps)
    ensures LoopEnd(steps, |steps|) == GiveUp ==> !IsLoopSequence(steps)
    ensures |steps| <= 400 ==> LoopEnd(steps, |steps|) != Exceed && LoopSequenceCharges(steps) <= 1280
  {
    hide CoreStepSuits;
  }

  /** The step at which the kernel stops, and the steps before it. */
  lemma UpToStop(steps: seq<Step>, spent: nat) returns (stop: nat)
    ensures stop == Stop(steps, 0, spent) <= AcceptIndex(steps)
    ensures DirectUpTo(steps, stop) && Copies(steps, stop) <= 255
    ensures forall j :: 0 <= j < stop ==> EventHere(steps, j, spent) == Continue
    ensures stop < |steps| ==> EventHere(steps, stop, spent) != Continue
  {
    hide EventHere, ItemsOf, Level, Copies, TakenDirectly;
    stop := Stop(steps, 0, spent);
    StopMeans(steps, 0, spent);
    GoneOnFits(steps, stop, spent);
    LevelIsCopies(steps, stop);
  }

  /** Where the kernel is through with the steps, or leaves them to the graph, or fails. */
  lemma DirectKernel(steps: seq<Step>, spent: nat)
    requires AnchorsInPlace(steps) && spent + 1 <= MAX_OPTIMIZATION_STEPS && !IsLoopSequence(steps)
    ensures DirectEnd(steps, spent) == Finish ==> GoesByLine(steps) && !Clashes(steps) && !TooLong(steps)
    ensures DirectEnd(steps, spent) == GiveUp ==> !GoesByLine(steps) && !Clashes(steps) && !TooLong(steps)
    ensures DirectEnd(steps, spent) == Clash ==> Clashes(steps)
    ensures DirectEnd(steps, spent) != Continue
  {
    hide EventAt, SpentBefore, ItemsOf, Level, Copies, TakenDirectly, Overlaps, AnchorInPlace, IsLoopSequence;
    var stop := UpToStop(steps, spent);
    var end := DirectEnd(steps, spent);
    if end == Finish {
      FinishedAtAcceptOnly(steps, stop, SpentBefore(steps, stop, spent));
      AcceptStandsAt(steps, stop);
      NeitherClashNorLong(steps, stop, spent);
    } else if end == GiveUp {
      if stop < |steps| {
        GivenUp(steps, stop, SpentBefore(steps, stop, spent));
        NotAtAccept(steps, stop, SpentBefore(steps, stop, spent));
      }
      NeitherClashNorLong(steps, stop, spent);
    } else if end == Clash {
      OverlapStops(steps, stop, SpentBefore(steps, stop, spent));
      TakenOrClashed(steps, stop, SpentBefore(steps, stop, spent));
      var i: nat :| Overlaps(steps, i, stop);
      assert DirectUpTo(steps, stop + 1);
    }
  }

  lemma FinishedAtAcceptOnly(steps: seq<Step>, i: nat, spent: nat)
    requires i < |steps| && EventAt(steps, i, spent) == Finish
    ensures steps[i].Accept?
  {
    hide AppendEvent, AddEvent, Following, ScanCharges, CopiesEvent;
  }

  lemma NotAtAccept(steps: seq<Step>, i: nat, spent: nat)
    requires i < |steps| && EventAt(steps, i, spent) == GiveUp
    ensures !steps[i].Accept?
  {
  }

  /** All steps up to the first one that is not taken directly were gone on after. */
  lemma NeitherClashNorLong(steps: seq<Step>, stop: nat, spent: nat)
    requires stop <= AcceptIndex(steps) && forall j :: 0 <= j < stop ==> EventHere(steps, j, spent) == Continue
    requires stop == AcceptIndex(steps) || !TakenDirectly(steps, stop)
    ensures !Clashes(steps) && !TooLong(steps)
  {
    hide EventAt, SpentBefore, ItemsOf, Level, Copies, TakenDirectly, Overlaps, IsLoopSequence;
    forall i: nat, j: nat | Overlaps(steps, i, j) && j < AcceptIndex(steps) && DirectUpTo(steps, j + 1) ensures false {
      assert j < stop;
      assert EventHere(steps, j, spent) == Continue;
      OverlapStops(steps, j, SpentBefore(steps, j, spent));
    }
    forall k: nat | k <= AcceptIndex(steps) && DirectUpTo(steps, k) ensures Copies(steps, k) <= 255 {
      assert k <= stop;
      GoneOnFits(steps, k, spent);
      LevelIsCopies(steps, k);
    }
  }

  /** A short program that is not too long is never too much work for the kernel. */
  lemma DirectKernelIsCheap(steps: seq<Step>, spent: nat)
    requires |steps| <= 400 && spent <= 2000 && !TooLong(steps)
    ensures DirectEnd(steps, spent) != Exceed && DirectCharges(steps, spent) <= 324_000
  {
    hide EventAt, ItemsOf, Level, TakenDirectly, SpentBefore, Copies, Stop;
    var stop := UpToStop(steps, spent);
    StepsAreCheap(steps, stop, spent);
    if stop < |steps| {
      ScanIsShort(steps, stop + 1);
      if stop == AcceptIndex(steps) {
        AcceptIsCheap(steps, stop, SpentBefore(steps, stop, spent));
      } else {
        assert TakenDirectly(steps, stop) ==> DirectUpTo(steps, stop + 1);
        NoExcess(steps, stop, SpentBefore(steps, stop, spent));
      }
    }
  }

  lemma AcceptIsCheap(steps: seq<Step>, i: nat, spent: nat)
    requires i < |steps| && spent < MAX_OPTIMIZATION_STEPS && i == AcceptIndex(steps)
    ensures EventAt(steps, i, spent) == Finish
  {
    hide ItemsOf, Level;
  }

  // ---------- the graph ----------

  /** A class that is declared empty before the Accept. */
  predicate HasEmptyClass(steps: seq<Step>) {
    exists i :: 0 <= i < AcceptIndex(steps) && Consuming(steps[i]) && steps[i].charClass.IsEmpty()
  }

  /** More than 2048 states, more than 256 reachable sets or 4096 moves between them, or too much work. */
  ghost predicate GraphIsTooMuch(steps: seq<Step>) {
    var g := GraphOf(steps).states;
    |g| > 2048 || TooLarge(g) || TooCostly(g, 400_000)
  }

  lemma {:induction false} StepsChargeLittle(steps: seq<Step>, k: nat)
    requires k <= |steps|
    ensures ChargesOfSteps(steps, k) <= 2 * StatesNeeded(steps, k) + 2 * k
  {
    if k == 0 {
    } else {
      StepsChargeLittle(steps, k - 1);
    }
  }

  lemma GraphIsCheap(steps: seq<Step>)
    requires AcceptIndex(steps) < |steps| <= 400 && StatesNeeded(steps, AcceptIndex(steps)) <= 2047
    ensures NfaCharges(steps) <= 5000
  {
    var k := AcceptIndex(steps);
    StepsChargeLittle(steps, k + 1);
    assert StatesNeeded(steps, k + 1) == StatesNeeded(steps, k);
  }

  lemma CostGrows(g: Graph, less: nat, more: nat)
    requires TooCostly(g, less) && less <= more
    ensures TooCostly(g, more)
  {
    hide Fits, RowsCharges, AllReachable, ClosureCharges;
  }

  lemma GraphCompiles(steps: seq<Step>)
    requires AnchorsInPlace(steps) && AcceptIndex(steps) < |steps| && !HasEmptyClass(steps)
    requires |GraphOf(steps).states| <= 2048
    ensures Compiles(steps) && StatesNeeded(steps, AcceptIndex(steps)) <= 2047
  {
    hide WithSteps;
    var k := AcceptIndex(steps);
    forall i | 0 <= i < k ensures StepAllowed(steps, i) {
      assert AnchorInPlace(steps, i);
      assert forall j :: 0 <= j < i && steps[i].RequireBeginning? ==> !Consuming(steps[j]);
    }
  }

  // ---------- when a program may be declined ----------

  /**
   An anchor out of place, no Accept, or more than 400 steps; a line of more than 255
   states; or, where only the graph is left, an empty class or too large a graph.
   */
  ghost predicate MayBeDeclined(steps: seq<Step>) {
    || !AnchorsInPlace(steps) || AcceptIndex(steps) == |steps| || |steps| > 400
    || (!IsLoopSequence(steps) && TooLong(steps))
    || (!IsLoopSequence(steps) && !GoesByLine(steps) && (HasEmptyClass(steps) || GraphIsTooMuch(steps)))
  }
}
