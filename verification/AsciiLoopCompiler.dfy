/**
 The kernel for nothing but loops between both anchors: each without an upper end, taken
 at least once (the last one perhaps not at all), and disjoint from the one before.
 */
module AsciiLoopCompiler {
  import opened Common
  import opened Words
  import opened AsciiNfa
  import opened AsciiProgram
  import opened AsciiItems
  import opened AsciiLine
  import opened AsciiLineBuilder
  import opened AsciiDirectCompiler

  // ---------- where the kernel applies ----------

  /** Both anchors, an Accept, and something in between that is not too long. */
  predicate HasCore(steps: seq<Step>) {
    && 4 <= |steps| && |steps| - 3 < MAX_LINE_STATES
    && steps[0].RequireBeginning? && steps[|steps| - 2].RequireEnd? && steps[|steps| - 1].Accept?
  }

  function CoreOf(steps: seq<Step>): (core: seq<Step>)
    requires HasCore(steps)
    ensures |core| == |steps| - 3 > 0
  {
    steps[1..|steps| - 2]
  }

  predicate CoreStepSuits(core: seq<Step>, i: nat)
    requires i < |core|
  {
    && core[i].LoopClass? && !core[i].charClass.IsEmpty() && IsOpenEnded(core[i].max)
    && (core[i].min == 1 || (i == |core| - 1 && core[i].min == 0))
    && (i > 0 && Consuming(core[i - 1]) ==> core[i - 1].charClass.Members() !! core[i].charClass.Members())
  }

  function FirstUnsuited(core: seq<Step>, i: nat): (f: nat)
    requires i <= |core|
    ensures i <= f <= |core| && forall j :: i <= j < f ==> CoreStepSuits(core, j)
    ensures f < |core| ==> !CoreStepSuits(core, f)
    decreases |core| - i
  {
    if i == |core| || !CoreStepSuits(core, i) then i else FirstUnsuited(core, i + 1)
  }

  predicate AllLoops(core: seq<Step>) {
    forall i :: 0 <= i < |core| ==> core[i].LoopClass?
  }

  /** The steps are a sequence of disjoint loops. */
  predicate IsLoopSequence(steps: seq<Step>) {
    HasCore(steps) && AllLoops(CoreOf(steps)) && forall i :: 0 <= i < |CoreOf(steps)| ==> CoreStepSuits(CoreOf(steps), i)
  }

  /** Step `i` is a loop without an upper end, of a class that is not declared empty and shares nothing with the one before. */
  predicate IsDisjointLoop(steps: seq<Step>, i: nat)
    requires 1 < |steps| && 0 < i < |steps|
  {
    && steps[i].LoopClass?
    && (steps[i].charClass.negated || steps[i].charClass.positive != {})
    && (steps[i].max < 0 || steps[i].max == 0x7FFF_FFFF)
    && (steps[i].min == 1 || (i == |steps| - 3 && steps[i].min == 0))
    && (i > 1 ==> steps[i - 1].LoopClass? && steps[i - 1].charClass.Members() !! steps[i].charClass.Members())
  }

  /** One to 255 such loops between both anchors and an Accept. */
  lemma LoopSequenceMeans(steps: seq<Step>)
    ensures IsLoopSequence(steps) <==>
              && 4 <= |steps| <= 258
              && steps[0] == RequireBeginning && steps[|steps| - 2] == RequireEnd && steps[|steps| - 1] == Accept
              && forall i :: 0 < i < |steps| - 2 ==> IsDisjointLoop(steps, i)
  {
    if HasCore(steps) {
      var core := CoreOf(steps);
      assert forall i :: 0 <= i < |core| ==> core[i] == steps[i + 1];
      if IsLoopSequence(steps) {
        forall i | 0 < i < |steps| - 2 ensures IsDisjointLoop(steps, i) {
          assert CoreStepSuits(core, i - 1);
          assert core[i - 1] == steps[i];
          if i > 1 {
            assert CoreStepSuits(core, i - 2);
            assert core[i - 2] == steps[i - 1];
          }
        }
      }
      if forall i :: 0 < i < |steps| - 2 ==> IsDisjointLoop(steps, i) {
        forall i | 0 <= i < |core| ensures CoreStepSuits(core, i) && core[i].LoopClass? {
          assert IsDisjointLoop(steps, i + 1);
          assert core[i] == steps[i + 1];
          if i > 0 {
            assert core[i - 1] == steps[i];
          }
        }
      }
    }
  }

  /** One unit for each step looked at, and for a sequence its states and edges. */
  function LoopSequenceCharges(steps: seq<Step>): nat {
    if !HasCore(steps) then 0
    else
      var core := CoreOf(steps);
      var f := FirstUnsuited(core, 0);
      if f < |core| then f + 1 else 5 * |core|
  }

  // ---------- the items of the loops ----------

  function LoopItems(core: seq<Step>, n: nat): (items: Items)
    requires n <= |core| && forall i :: 0 <= i < n ==> core[i].LoopClass?
    ensures |items| == 2 * n
  {
    if n == 0 then []
    else
      var bytes := core[n - 1].charClass.Members();
      LoopItems(core, n - 1) + [One(bytes)] + [Star(bytes)]
  }

  lemma AloneOneMore(items: Items, x: Item)
    requires Alone(items) && (x.One? || LoopsHere(items) == [])
    ensures Alone(items + [x])
  {
    hide Source, Target;
    var more := items + [x];
    LevelsOfOneMore(items, x);
    LoopsAreLast(items);
    forall t, u | 0 <= t < u < |more| && more[t].Star? && more[u].Star? && Source(more, t) == Source(more, u)
      ensures more[t].bytes == {} || more[u].bytes == {}
    {
      assert u < |items|;
    }
  }

  lemma LoopsOfOneMore(items: Items, x: Item)
    ensures LoopsHere(items + [x]) == if x.One? then [] else LoopsHere(items) + [x]
  {
    assert Front(items + [x]) == items;
  }

  lemma {:induction false} LoopItemsLevel(core: seq<Step>, n: nat)
    requires n <= |core| && forall i :: 0 <= i < n ==> core[i].LoopClass?
    ensures Level(LoopItems(core, n)) == n && Alone(LoopItems(core, n))
    ensures LoopsHere(LoopItems(core, n)) == if n == 0 then [] else [Star(core[n - 1].charClass.Members())]
  {
    hide Alone, Level, LoopsHere;
    if n == 0 {
      NoItemsAtAll();
    } else {
      LoopItemsLevel(core, n - 1);
      var items, bytes := LoopItems(core, n - 1), core[n - 1].charClass.Members();
      LevelsOfOneMore(items, One(bytes));
      LevelsOfOneMore(items + [One(bytes)], Star(bytes));
      LoopsOfOneMore(items, One(bytes));
      LoopsOfOneMore(items + [One(bytes)], Star(bytes));
      AloneOneMore(items, One(bytes));
      AloneOneMore(items + [One(bytes)], Star(bytes));
    }
  }

  lemma NoItemsAtAll()
    ensures Level([]) == 0 && LoopsHere([]) == [] && Alone([])
  {
  }

  // ---------- what the loops consume ----------

  ghost predicate RunsAtLeast(items: Items, bytes: ByteClass, w: Text, least: nat) {
    exists n: nat :: least <= n && RunThenConsume(items, bytes, w, n)
  }

  /** One byte and then any number are one or more. */
  lemma ConsumeOneStar(items: Items, bytes: ByteClass, w: Text)
    ensures ItemsConsume(items + [One(bytes)] + [Star(bytes)], w) <==> RunsAtLeast(items, bytes, w, 1)
  {
    hide ItemsConsume, AllIn;
    var first := items + [One(bytes)];
    ConsumeStars(first, bytes, w);
    forall n: nat | n < |w| ensures RunThenConsume(first, bytes, w, n) <==> RunThenConsume(items, bytes, w, n + 1) {
      var rest := w[..|w| - n];
      ConsumeOne(items, bytes, rest);
      assert rest[..|rest| - 1] == w[..|w| - (n + 1)];
      RunOneEarlier(w, bytes, n);
    }
    ConsumeOne(items, bytes, w[..|w| - |w|]);
    if n: nat :| RunThenConsume(first, bytes, w, n) {
      assert n < |w| ==> RunThenConsume(items, bytes, w, n + 1);
    }
    if n: nat :| 1 <= n && RunThenConsume(items, bytes, w, n) {
      assert RunThenConsume(first, bytes, w, n - 1);
    }
  }

  lemma RunOneEarlier(w: Text, bytes: ByteClass, n: nat)
    requires n < |w|
    ensures AllIn(w[|w| - (n + 1)..], bytes) <==> w[|w| - n - 1] in bytes && AllIn(w[|w| - n..], bytes)
  {
    var longer, run := w[|w| - (n + 1)..], w[|w| - n..];
    assert longer == [w[|w| - n - 1]] + run;
    assert longer[0] == w[|w| - n - 1];
    assert forall i :: 0 <= i < n ==> longer[i + 1] == run[i];
  }

  /** Without a least number, the loop may also be left out. */
  lemma RunsOrNone(items: Items, bytes: ByteClass, w: Text)
    ensures RunsAtLeast(items, bytes, w, 0) <==> ItemsConsume(items, w) || RunsAtLeast(items, bytes, w, 1)
  {
    hide ItemsConsume;
    assert w[..|w| - 0] == w;
    EmptyRun(w, bytes);
    assert RunThenConsume(items, bytes, w, 0) <==> ItemsConsume(items, w);
  }

  lemma LoopConsumes(steps: seq<Step>, k: nat, items: Items, w: Text)
    requires 0 < k <= |steps| && steps[k - 1].LoopClass? && IsOpenEnded(steps[k - 1].max)
    requires forall v :: ItemsConsume(items, v) <==> Consumes(steps, k - 1, v)
    ensures Consumes(steps, k, w) <==> RunsAtLeast(items, steps[k - 1].charClass.Members(), w, steps[k - 1].min)
  {
    hide ItemsConsume;
    var step := steps[k - 1];
    LoopMeans(steps, k, items, step.charClass.Members(), step.min, step.max, w);
  }

  /** As long as every loop is taken at least once, the items mean the steps. */
  lemma {:induction false} LoopItemsMean(steps: seq<Step>, n: nat, w: Text)
    requires IsLoopSequence(steps) && n <= |CoreOf(steps)| && forall i :: 0 <= i < n ==> CoreOf(steps)[i].min == 1
    ensures ItemsConsume(LoopItems(CoreOf(steps), n), w) <==> Consumes(steps, n + 1, w)
    decreases n
  {
    hide ItemsConsume;
    var core := CoreOf(steps);
    if n == 0 {
      ConsumeNothing(w);
      assert Consumes(steps, 0, w) <==> w == [];
    } else {
      var items := LoopItems(core, n - 1);
      forall v ensures ItemsConsume(items, v) <==> Consumes(steps, n, v) {
        LoopItemsMean(steps, n - 1, v);
      }
      assert CoreStepSuits(core, n - 1) && core[n - 1] == steps[n];
      LoopConsumes(steps, n + 1, items, w);
      ConsumeOneStar(items, core[n - 1].charClass.Members(), w);
    }
  }

  /** What the whole sequence consumes: all its loops, or all but a last one that may be left out. */
  lemma SequenceConsumes(steps: seq<Step>, w: Text)
    requires IsLoopSequence(steps)
    ensures var core := CoreOf(steps);
            var n := |core|;
            Consumes(steps, |steps| - 1, w) <==>
              ItemsConsume(LoopItems(core, n), w) || (core[n - 1].min == 0 && ItemsConsume(LoopItems(core, n - 1), w))
  {
    hide ItemsConsume;
    var core := CoreOf(steps);
    var n := |core|;
    forall i | 0 <= i < n - 1 ensures core[i].min == 1 {
      assert CoreStepSuits(core, i);
    }
    assert CoreStepSuits(core, n - 1);
    var items, bytes := LoopItems(core, n - 1), core[n - 1].charClass.Members();
    forall v ensures ItemsConsume(items, v) <==> Consumes(steps, n, v) {
      LoopItemsMean(steps, n - 1, v);
    }
    assert core[n - 1] == steps[n];
    LoopConsumes(steps, n + 1, items, w);
    ConsumeOneStar(items, bytes, w);
    RunsOrNone(items, bytes, w);
    EndIsPassive(steps, w);
  }

  lemma EndIsPassive(steps: seq<Step>, w: Text)
    requires HasCore(steps)
    ensures Consumes(steps, |steps| - 1, w) <==> Consumes(steps, |steps| - 2, w)
  {
  }

  // ---------- the table of the loops ----------

  /** The states behind the last loop and, if that may be left out, behind the one before it accept. */
  predicate AcceptsLoops(p: Program, core: seq<Step>) {
    && |p.accepting| == |core| + 1 > 1 && core[|core| - 1].LoopClass?
    && forall s :: 0 <= s < |p.accepting| ==>
         p.accepting[s] == (s == |core| || (s == |core| - 1 && core[|core| - 1].min == 0))
  }

  ghost predicate IsLoopTable(p: Program, steps: seq<Step>) {
    && IsLoopSequence(steps) && AcceptsLoops(p, CoreOf(steps))
    && IsLine(p, LoopItems(CoreOf(steps), |CoreOf(steps)|)) && ItemsApart(LoopItems(CoreOf(steps), |CoreOf(steps)|))
    && p.requiresBeginning && p.requiresEnd
  }

  /** Walks to a state do not need the loop that comes after it. */
  lemma WalksBeforeLoop(items: Items, bytes: ByteClass, w: Text)
    ensures Walks(items + [One(bytes)] + [Star(bytes)], w, Level(items)) <==> Walks(items, w, Level(items))
  {
    hide Walks, Source, Target, Level;
    var first := items + [One(bytes)];
    var all := first + [Star(bytes)];
    LevelsOfOneMore(items, One(bytes));
    LevelsOfOneMore(first, Star(bytes));
    assert all[..|items|] == items;
    if Walks(items, w, Level(items)) {
      WalksInPrefix(all, |items|, w, Level(items));
    }
    if Walks(all, w, Level(items)) {
      assert Target(all, |items|) > Level(items) && Target(all, |items| + 1) > Level(items);
      WalksBelow(all, |items|, w, Level(items));
    }
  }

  lemma WalksBeforeLast(core: seq<Step>, n: nat, w: Text)
    requires 0 < n <= |core| && forall i :: 0 <= i < n ==> core[i].LoopClass?
    ensures Walks(LoopItems(core, n), w, n - 1) <==> Walks(LoopItems(core, n - 1), w, n - 1)
  {
    hide Walks, Alone, LoopsHere;
    LoopItemsLevel(core, n - 1);
    WalksBeforeLoop(LoopItems(core, n - 1), core[n - 1].charClass.Members(), w);
  }

  lemma LoopsWalkedIsConsumed(core: seq<Step>, n: nat, w: Text)
    requires n <= |core| && forall i :: 0 <= i < n ==> core[i].LoopClass?
    ensures Walks(LoopItems(core, n), w, n) <==> ItemsConsume(LoopItems(core, n), w)
  {
    hide Walks, ItemsConsume, Alone;
    LoopItemsLevel(core, n);
    var items := LoopItems(core, n);
    if Walks(items, w, n) {
      WalkedIsConsumed(items, w);
    }
    if ItemsConsume(items, w) {
      ConsumedIsWalked(items, w);
    }
  }

  lemma LoopTableAccepts(p: Program, steps: seq<Step>, w: Text)
    requires IsLoopTable(p, steps)
    ensures IsTable(p)
    ensures var core := CoreOf(steps);
            var n := |core|;
            Accepts(p, w) <==>
              ItemsConsume(LoopItems(core, n), w) || (core[n - 1].min == 0 && ItemsConsume(LoopItems(core, n - 1), w))
  {
    hide Walks, ItemsConsume, Run, IsLine, ItemsApart, LoopItems;
    var core := CoreOf(steps);
    var n := |core|;
    var items := LoopItems(core, n);
    LineIsTable(p, items);
    RunIsWalk(p, items, w);
    LoopsWalkedIsConsumed(core, n, w);
    LoopsWalkedIsConsumed(core, n - 1, w);
    WalksBeforeLast(core, n, w);
  }

  /** The table of a sequence of disjoint loops always decides it. */
  lemma LoopTableDecides(p: Program, steps: seq<Step>)
    requires IsLoopTable(p, steps)
    ensures IsTable(p) && Decides(p, steps)
  {
    hide IsLine, ItemsApart, LoopItems, ItemsConsume, Consumes, Accepts, AcceptsLoops, IsTable;
    SequenceAnchors(steps);
    LoopTableAccepts(p, steps, []);
    forall w ensures Accepts(p, w) <==> Consumes(steps, |steps| - 1, w) {
      LoopTableAccepts(p, steps, w);
      SequenceConsumes(steps, w);
    }
  }

  lemma SequenceAnchors(steps: seq<Step>)
    requires IsLoopSequence(steps)
    ensures AcceptIndex(steps) == |steps| - 1
    ensures RequireBeginning in steps[..|steps| - 1] && RequireEnd in steps[..|steps| - 1]
  {
    var core, k := CoreOf(steps), |steps| - 1;
    forall j | 0 <= j < k ensures !steps[j].Accept? {
      if 0 < j < k - 1 {
        assert CoreStepSuits(core, j - 1) && core[j - 1] == steps[j];
      }
    }
    AcceptStandsAt(steps, k);
    assert steps[..k][0] == RequireBeginning && steps[..k][k - 1] == RequireEnd;
  }

  // ---------- the kernel ----------

  function LoopEnd(steps: seq<Step>, spent: nat): (end: Event)
    ensures end.Finish? || end.GiveUp? || end.Exceed?
  {
    if !HasCore(steps) then GiveUp
    else if spent + LoopSequenceCharges(steps) > MAX_OPTIMIZATION_STEPS then Exceed
    else if IsLoopSequence(steps) then Finish
    else GiveUp
  }

  lemma SequenceIff(steps: seq<Step>)
    requires HasCore(steps)
    ensures IsLoopSequence(steps) <==> FirstUnsuited(CoreOf(steps), 0) == |CoreOf(steps)|
  {
    var core := CoreOf(steps);
    if FirstUnsuited(core, 0) == |core| {
      forall i | 0 <= i < |core| ensures core[i].LoopClass? {
        assert CoreStepSuits(core, i);
      }
    }
  }

  lemma {:induction false} SuitedSoFar(core: seq<Step>, i: nat, n: nat)
    requires i <= n <= |core| && forall j :: i <= j < n ==> CoreStepSuits(core, j)
    ensures n <= FirstUnsuited(core, i)
    ensures n < |core| && !CoreStepSuits(core, n) ==> FirstUnsuited(core, i) == n
    ensures n == |core| ==> FirstUnsuited(core, i) == n
    decreases n - i
  {
    hide CoreStepSuits;
    if i == n {
    } else {
      SuitedSoFar(core, i + 1, n);
    }
  }

  /** One unit for each step; all of them suit, or this one does not. */
  method CheckLoops(core: seq<Step>, spent: nat) returns (end: Event, spentAfter: nat)
    requires spent <= MAX_OPTIMIZATION_STEPS
    ensures var f := FirstUnsuited(core, 0);
            var charges := if f < |core| then f + 1 else f;
            && end == (if spent + charges > MAX_OPTIMIZATION_STEPS then Exceed else if f < |core| then GiveUp else Continue)
            && (!end.Exceed? ==> spentAfter == spent + charges)
  {
    spentAfter := spent;
    for i := 0 to |core|
      invariant spentAfter == spent + i <= MAX_OPTIMIZATION_STEPS
      invariant forall j :: 0 <= j < i ==> CoreStepSuits(core, j)
    {
      SuitedSoFar(core, 0, i);
      spentAfter := spentAfter + 1;
      if spentAfter > MAX_OPTIMIZATION_STEPS {
        return Exceed, spentAfter;
      }
      if !CoreStepSuits(core, i) {
        return GiveUp, spentAfter;
      }
    }
    SuitedSoFar(core, 0, |core|);
    end := Continue;
  }

  /** The state of loop `i`: reached by its class, and kept by it. */
  method AddLoop(b: Buffers, core: seq<Step>, i: nat) returns (ok: bool)
    requires i < |core| < MAX_LINE_STATES && AllLoops(core) && CoreStepSuits(core, i)
    requires b.Valid() && b.items == LoopItems(core, i)
    modifies b
    ensures ok <==> old(b.optimizationSteps) + LoopCost(i) <= MAX_OPTIMIZATION_STEPS
    ensures ok ==> b.Valid() && b.items == LoopItems(core, i + 1)
    ensures ok ==> b.optimizationSteps == old(b.optimizationSteps) + LoopCost(i)
  {
    hide Lines, ItemsApart, Source, Target, FirstOverlap, LoopItems, Alone, Level, LoopsHere;
    var bytes := core[i].charClass.Members();
    ghost var items := b.items;
    LoopItemsLevel(core, i);
    LoopItemsSize(core, i);
    LoopItemsOneMore(core, i);
    LoopAddEvents(core, i, b.optimizationSteps + 1);
    LevelsOfOneMore(items, One(bytes));
    LevelsOfOneMore(items + [One(bytes)], Star(bytes));
    var stageState;
    ok, stageState := b.AddDfaState();
    if !ok {
      return;
    }
    var adding := b.AddDeterministicTransition(i, bytes, stageState, One(bytes));
    if !adding.Added? {
      return false;
    }
    adding := b.AddDeterministicTransition(stageState, bytes, stageState, Star(bytes));
    ok := adding.Added?;
  }

  /** A state and two edges; the loop before is compared with the first of them. */
  function LoopCost(i: nat): nat {
    if i == 0 then 3 else 4
  }

  lemma LoopItemsSize(core: seq<Step>, n: nat)
    requires n <= |core| && AllLoops(core)
    ensures |LoopItems(core, n)| == 2 * n
  {
  }

  lemma LoopItemsOneMore(core: seq<Step>, i: nat)
    requires i < |core| && AllLoops(core)
    ensures var bytes := core[i].charClass.Members();
            LoopItems(core, i + 1) == LoopItems(core, i) + [One(bytes)] + [Star(bytes)]
  {
  }

  /** The two edges are never refused for overlapping, and there is always room for them. */
  lemma LoopAddEvents(core: seq<Step>, i: nat, spent: nat)
    requires i < |core| < MAX_LINE_STATES && AllLoops(core) && CoreStepSuits(core, i)
    ensures var bytes := core[i].charClass.Members();
            var items := LoopItems(core, i);
            var first := items + [One(bytes)];
            && AddCharges(items) == (if i == 0 then 1 else 2) && AddCharges(first) == 1
            && AddEvent(items, bytes, spent) == (if spent + AddCharges(items) > MAX_OPTIMIZATION_STEPS then Exceeded else Added)
            && AddEvent(first, bytes, spent + AddCharges(items)) ==
               (if spent + AddCharges(items) + 1 > MAX_OPTIMIZATION_STEPS then Exceeded else Added)
  {
    hide LoopItems, Alone, Level, LoopsHere;
    LoopItemsLevel(core, i);
    LoopItemsSize(core, i);
    var bytes, items := core[i].charClass.Members(), LoopItems(core, i);
    LoopsOfOneMore(items, One(bytes));
  }

  method TryCompileLoops(steps: seq<Step>, spent: nat) returns (end: Event, program: Option<Program>, spentAfter: nat)
    requires spent <= MAX_OPTIMIZATION_STEPS
    ensures end == LoopEnd(steps, spent)
    ensures end.Finish? <==> program.Some?
    ensures end.Finish? ==> IsLoopTable(program.value, steps)
    ensures end.GiveUp? ==> spentAfter == spent + LoopSequenceCharges(steps) <= MAX_OPTIMIZATION_STEPS
  {
    hide Lines, ItemsApart, LoopItems, CoreStepSuits;
    program, spentAfter := None, spent;
    if !HasCore(steps) {
      return GiveUp, None, spent;
    }
    SequenceIff(steps);
    var core := steps[1..|steps| - 2];
    end, spentAfter := CheckLoops(core, spent);
    if !end.Continue? {
      return;
    }
    NoLoopItems(core);
    var b := new Buffers(spentAfter);
    var ok, previousStageState := b.AddDfaState();
    if !ok {
      return Exceed, None, b.optimizationSteps;
    }
    for i := 0 to |core|
      invariant fresh(b) && b.Valid() && b.items == LoopItems(core, i)
      invariant b.optimizationSteps == spent + |core| + (if i == 0 then 1 else 4 * i)
    {
      assert CoreStepSuits(core, i);
      ok := AddLoop(b, core, i);
      if !ok {
        return Exceed, None, b.optimizationSteps;
      }
    }
    var table := FinishLoops(b, core);
    end, program, spentAfter := Finish, Some(table), b.optimizationSteps;
  }

  lemma NoLoopItems(core: seq<Step>)
    ensures LoopItems(core, 0) == [] && Level([]) == 0
  {
  }

  method FinishLoops(b: Buffers, core: seq<Step>) returns (p: Program)
    requires core != [] && AllLoops(core) && b.Valid() && b.items == LoopItems(core, |core|)
    modifies b
    ensures IsLine(p, LoopItems(core, |core|)) && AcceptsLoops(p, core) && p.requiresBeginning && p.requiresEnd
  {
    hide Lines, ItemsApart, LoopItems, Alone, LoopsHere;
    LoopItemsLevel(core, |core|);
    b.PadTo(|core|);
    var accepting := b.accepting[|core| := true];
    if core[|core| - 1].min == 0 {
      accepting := accepting[|core| - 1 := true];
    }
    p := Program(b.offsets, b.counts, b.sets, b.targets, accepting, true, true);
  }
}
