/**
 The kernel that compiles steps to a table directly, without a graph: every class leads
 to a state of its own, and a loop stays where it is. Only the next class is compared
 with a loop before it is added.
 */
module AsciiDirectCompiler {
  import opened Common
  import opened Words
  import opened AsciiNfa
  import opened AsciiProgram
  import opened AsciiItems
  import opened AsciiLine
  import opened AsciiLineBuilder

  // ---------- what each step comes to ----------

  /** Go on, a program, give up in favour of the graph, overlapping edges, or too large. */
  datatype Event = Continue | Finish | GiveUp | Clash | Exceed

  function EventOf(adding: Adding): Event {
    match adding
    case Added => Continue
    case Exceeded => Exceed
    case Clashed => Clash
  }

  predicate Consuming(step: Step) {
    step.MatchClass? || step.LoopClass?
  }

  /** The class of the first step from here on that consumes anything, unless it is declared empty. */
  function Following(steps: seq<Step>, from: nat): Option<AsciiClass>
    requires from <= |steps|
    decreases |steps| - from
  {
    if from == |steps| then None
    else if Consuming(steps[from]) then if steps[from].charClass.IsEmpty() then None else Some(steps[from].charClass)
    else Following(steps, from + 1)
  }

  /** The steps looked at to find it. */
  function ScanCharges(steps: seq<Step>, from: nat): nat
    requires from <= |steps|
    decreases |steps| - from
  {
    if from == |steps| then 0 else if Consuming(steps[from]) then 1 else 1 + ScanCharges(steps, from + 1)
  }

  /** Several copies of a class: only the first one can meet loops. */
  function CopiesEvent(items: Items, bytes: ByteClass, n: nat, spent: nat): Adding {
    if n == 0 then Added
    else
      var first := AppendEvent(items, bytes, spent);
      if !first.Added? then first
      else if Level(items) + n >= MAX_LINE_STATES || |items| + n > MAX_LINE_TRANSITIONS ||
              spent + CopiesCharges(items, n) > MAX_OPTIMIZATION_STEPS then Exceeded
      else Added
  }

  function CopiesCharges(items: Items, n: nat): nat {
    if n == 0 then 0 else AppendCharges(items) + 2 * (n - 1)
  }

  /** A loop without an upper end that may also not be taken. */
  predicate IsStar(step: Step) {
    step.LoopClass? && step.min != step.max && step.min == 0 && IsOpenEnded(step.max) && !step.charClass.IsEmpty()
  }

  predicate FollowedApart(steps: seq<Step>, i: nat)
    requires i < |steps| && IsStar(steps[i])
  {
    var following := Following(steps, i + 1);
    following.Some? && steps[i].charClass.Members() !! following.value.Members()
  }

  /** What comes of step `i` when the steps before it have been added and `spent` has been charged. */
  function EventAt(steps: seq<Step>, i: nat, spent: nat): Event
    requires i < |steps|
  {
    var items := ItemsOf(steps, i);
    if spent + 1 > MAX_OPTIMIZATION_STEPS then Exceed
    else
      match steps[i]
      case RequireBeginning => if Level(items) == 0 then Continue else GiveUp
      case RequireEnd => Continue
      case Accept => Finish
      case MatchClass(charClass) =>
        if charClass.IsEmpty() then GiveUp else EventOf(AppendEvent(items, charClass.Members(), spent + 1))
      case LoopClass(charClass, min, max) =>
        if min == max then
          if charClass.IsEmpty() then GiveUp else EventOf(CopiesEvent(items, charClass.Members(), min, spent + 1))
        else if !IsStar(steps[i]) then GiveUp
        else if spent + 1 + ScanCharges(steps, i + 1) > MAX_OPTIMIZATION_STEPS then Exceed
        else if !FollowedApart(steps, i) then GiveUp
        else EventOf(AddEvent(items, charClass.Members(), spent + 1 + ScanCharges(steps, i + 1)))
  }

  /** What a step charges when the compiler goes on after it. */
  function StepCharges(steps: seq<Step>, i: nat): nat
    requires i < |steps|
  {
    var items := ItemsOf(steps, i);
    match steps[i]
    case MatchClass(_) => 1 + AppendCharges(items)
    case LoopClass(_, min, max) =>
      if min == max then 1 + CopiesCharges(items, min) else 1 + ScanCharges(steps, i + 1) + AddCharges(items)
    case _ => 1
  }

  /** ... and when it gives up there. */
  function GivingUpCharges(steps: seq<Step>, i: nat): nat
    requires i < |steps|
  {
    1 + if IsStar(steps[i]) then ScanCharges(steps, i + 1) else 0
  }

  /** Everything charged before step `i`, beginning with the first state. */
  function SpentBefore(steps: seq<Step>, i: nat, spent: nat): nat
    requires i <= |steps|
  {
    if i == 0 then spent + 1 else SpentBefore(steps, i - 1, spent) + StepCharges(steps, i - 1)
  }

  /** What comes of step `i` when the kernel began with `spent`. */
  function EventHere(steps: seq<Step>, i: nat, spent: nat): Event
    requires i < |steps|
  {
    EventAt(steps, i, SpentBefore(steps, i, spent))
  }

  /** The first step from `i` on after which the compiler does not go on. */
  function Stop(steps: seq<Step>, i: nat, spent: nat): (stop: nat)
    requires i <= |steps|
    ensures i <= stop <= |steps|
    decreases |steps| - i
  {
    hide EventHere;
    if i == |steps| || EventHere(steps, i, spent) != Continue then i else Stop(steps, i + 1, spent)
  }

  lemma {:induction false} StopMeans(steps: seq<Step>, i: nat, spent: nat)
    requires i <= |steps|
    ensures forall j :: i <= j < Stop(steps, i, spent) ==> EventHere(steps, j, spent) == Continue
    ensures Stop(steps, i, spent) < |steps| ==> EventHere(steps, Stop(steps, i, spent), spent) != Continue
    decreases |steps| - i
  {
    hide EventHere;
    if i == |steps| || EventHere(steps, i, spent) != Continue {
    } else {
      StopMeans(steps, i + 1, spent);
    }
  }

  /** How the kernel ends on these steps. */
  function DirectEnd(steps: seq<Step>, spent: nat): Event {
    var stop := Stop(steps, 0, spent);
    if spent + 1 > MAX_OPTIMIZATION_STEPS then Exceed
    else if stop == |steps| then GiveUp
    else EventHere(steps, stop, spent)
  }

  /** What has been charged when the kernel gives up. */
  function DirectCharges(steps: seq<Step>, spent: nat): nat {
    var stop := Stop(steps, 0, spent);
    SpentBefore(steps, stop, spent) + if stop < |steps| then GivingUpCharges(steps, stop) else 0
  }

  // ---------- lemmas about single steps ----------

  lemma ItemsOneMore(steps: seq<Step>, i: nat)
    requires i < |steps|
    ensures ItemsOf(steps, i + 1) == ItemsOf(steps, i) + ItemsOfStep(steps[i])
  {
  }

  lemma OnesSnoc(items: Items, bytes: ByteClass, n: nat)
    ensures items + Ones(bytes, n + 1) == items + Ones(bytes, n) + [One(bytes)]
    ensures items + Ones(bytes, 0) == items
  {
  }

  lemma {:induction false} LevelOfOnes(items: Items, bytes: ByteClass, n: nat)
    ensures Level(items + Ones(bytes, n)) == Level(items) + n
    ensures n > 0 ==> LoopsHere(items + Ones(bytes, n)) == []
  {
    hide Ones;
    OnesSnoc(items, bytes, 0);
    if n == 0 {
    } else {
      LevelOfOnes(items, bytes, n - 1);
      OnesSnoc(items, bytes, n - 1);
      LevelsOfOneMore(items + Ones(bytes, n - 1), One(bytes));
    }
  }

  /** A later copy is added exactly when it fits. */
  lemma LaterCopy(items: Items, bytes: ByteClass, n: nat, spent: nat)
    requires n > 0
    ensures var some := items + Ones(bytes, n);
            && AppendCharges(some) == 2
            && AppendEvent(some, bytes, spent) ==
               if spent + 2 > MAX_OPTIMIZATION_STEPS || Level(items) + n + 1 >= MAX_LINE_STATES ||
                  |items| + n >= MAX_LINE_TRANSITIONS then Exceeded else Added
  {
    LevelOfOnes(items, bytes, n);
  }

  /** Appends the class as often as the loop must be taken. */
  method AppendCopies(b: Buffers, bytes: ByteClass, n: nat, start: nat) returns (r: Adding, stateIndex: nat)
    requires b.Valid() && start == Level(b.items)
    modifies b
    ensures r == CopiesEvent(old(b.items), bytes, n, old(b.optimizationSteps))
    ensures r.Added? ==> b.Valid() && b.items == old(b.items) + Ones(bytes, n) && stateIndex == Level(b.items)
    ensures r.Added? ==> b.optimizationSteps == old(b.optimizationSteps) + CopiesCharges(old(b.items), n)
  {
    hide Lines, ItemsApart, AppendEvent, AppendCharges, Level, Ones;
    r, stateIndex := Added, start;
    ghost var items, spent := b.items, b.optimizationSteps;
    OnesSnoc(items, bytes, 0);
    for i := 0 to n
      invariant b.Valid() && b.items == items + Ones(bytes, i) && stateIndex == Level(b.items)
      invariant b.optimizationSteps == spent + CopiesCharges(items, i) <= MAX_OPTIMIZATION_STEPS
      invariant i > 0 ==> AppendEvent(items, bytes, spent) == Added
      invariant i > 0 ==> Level(items) + i < MAX_LINE_STATES && |items| + i <= MAX_LINE_TRANSITIONS
    {
      OnesSnoc(items, bytes, i);
      if i > 0 {
        LaterCopy(items, bytes, i, b.optimizationSteps);
      } else {
        FirstCopyFits(items, bytes, spent);
      }
      r, stateIndex := b.AppendDeterministicTransition(bytes, stateIndex);
      if !r.Added? {
        return;
      }
    }
    r := Added;
  }

  lemma FirstCopyFits(items: Items, bytes: ByteClass, spent: nat)
    ensures AppendEvent(items, bytes, spent) == Added ==>
              Level(items) + 1 < MAX_LINE_STATES && |items| + 1 <= MAX_LINE_TRANSITIONS &&
              spent + AppendCharges(items) <= MAX_OPTIMIZATION_STEPS
  {
  }

  // ---------- the kernel ----------

  method TryGetFirstTransitionSet(steps: seq<Step>, startIndex: nat, spent: nat)
    returns (ok: bool, found: Option<AsciiClass>, spentAfter: nat)
    requires startIndex <= |steps| && spent <= MAX_OPTIMIZATION_STEPS
    ensures ok <==> spent + ScanCharges(steps, startIndex) <= MAX_OPTIMIZATION_STEPS
    ensures ok ==> found == Following(steps, startIndex) && spentAfter == spent + ScanCharges(steps, startIndex)
  {
    spentAfter := spent;
    for index := startIndex to |steps|
      invariant spentAfter + ScanCharges(steps, index) == spent + ScanCharges(steps, startIndex)
      invariant spentAfter <= MAX_OPTIMIZATION_STEPS
      invariant Following(steps, index) == Following(steps, startIndex)
    {
      spentAfter := spentAfter + 1;
      if spentAfter > MAX_OPTIMIZATION_STEPS {
        return false, None, spentAfter;
      }
      if Consuming(steps[index]) {
        found := if steps[index].charClass.IsEmpty() then None else Some(steps[index].charClass);
        return true, found, spentAfter;
      }
    }
    ok, found := true, None;
  }

  /** One step; what it comes to, and the state behind it. */
  method AddStep(b: Buffers, steps: seq<Step>, i: nat, start: nat) returns (event: Event, stateIndex: nat)
    requires i < |steps| && b.Valid() && start == Level(b.items) && b.items == ItemsOf(steps, i)
    modifies b
    ensures event == EventAt(steps, i, old(b.optimizationSteps))
    ensures event.Continue? ==> b.Valid() && b.items == ItemsOf(steps, i + 1) && stateIndex == Level(b.items)
    ensures event.Continue? ==> b.optimizationSteps == old(b.optimizationSteps) + StepCharges(steps, i)
    ensures event.Finish? ==> b.Valid() && b.items == ItemsOf(steps, i) && stateIndex == Level(b.items)
    ensures event.GiveUp? ==> b.optimizationSteps == old(b.optimizationSteps) + GivingUpCharges(steps, i)
  {
    hide Lines, ItemsApart, AppendEvent, AppendCharges, AddEvent, AddCharges, CopiesEvent, CopiesCharges, ItemsOf, Level,
         Following, ScanCharges;
    stateIndex := start;
    ghost var items := b.items;
    ItemsOneMore(steps, i);
    assert items + [] == items;
    var ok := b.ChargeCompilationStep();
    if !ok {
      return Exceed, stateIndex;
    }
    match steps[i] {
      case RequireBeginning =>
        return (if stateIndex != 0 then GiveUp else Continue), stateIndex;
      case RequireEnd =>
        return Continue, stateIndex;
      case Accept =>
        return Finish, stateIndex;
      case MatchClass(charClass) =>
        if charClass.IsEmpty() {
          return GiveUp, stateIndex;
        }
        var adding;
        adding, stateIndex := b.AppendDeterministicTransition(charClass.Members(), stateIndex);
        return EventOf(adding), stateIndex;
      case LoopClass(charClass, min, max) =>
        if min == max {
          if charClass.IsEmpty() {
            return GiveUp, stateIndex;
          }
          var adding;
          adding, stateIndex := AppendCopies(b, charClass.Members(), min, stateIndex);
          return EventOf(adding), stateIndex;
        }
        if min != 0 || !IsOpenEnded(max) || charClass.IsEmpty() {
          return GiveUp, stateIndex;
        }
        var following, spent;
        ok, following, spent := TryGetFirstTransitionSet(steps, i + 1, b.optimizationSteps);
        if !ok {
          return Exceed, stateIndex;
        }
        b.optimizationSteps := spent;
        if following.None? || !(charClass.Members() !! following.value.Members()) {
          return GiveUp, stateIndex;
        }
        LevelsOfOneMore(b.items, Star(charClass.Members()));
        var adding := b.AddDeterministicTransition(stateIndex, charClass.Members(), stateIndex, Star(charClass.Members()));
        return EventOf(adding), stateIndex;
    }
  }

  /** The line of the steps up to the Accept, under their anchors. */
  ghost predicate IsLineOf(p: Program, steps: seq<Step>) {
    var k := AcceptIndex(steps);
    && k < |steps| && AllDirect(steps, k) && SameAnchors(p, steps) && AcceptsLast(p)
    && IsLine(p, ItemsOf(steps, k)) && ItemsApart(ItemsOf(steps, k))
  }

  lemma {:induction false} StopIsFirst(steps: seq<Step>, i: nat, n: nat, spent: nat)
    requires i <= n <= |steps| && (forall j :: i <= j < n ==> EventHere(steps, j, spent) == Continue)
    requires n < |steps| ==> EventHere(steps, n, spent) != Continue
    ensures Stop(steps, i, spent) == n
    decreases n - i
  {
    hide EventHere;
    if i == n {
    } else {
      StopIsFirst(steps, i + 1, n, spent);
    }
  }

  /** Going on after a step means that items can stand for it, and that it is no Accept. */
  lemma ContinuedIsDirect(steps: seq<Step>, i: nat, spent: nat)
    requires i < |steps| && EventAt(steps, i, spent) == Continue
    ensures IsDirect(steps[i]) && !steps[i].Accept?
  {
    hide AppendEvent, AddEvent, Following, ScanCharges;
  }

  method TryCompileSequence(steps: seq<Step>, spent: nat) returns (end: Event, program: Option<Program>, spentAfter: nat)
    requires spent <= MAX_OPTIMIZATION_STEPS
    ensures end == DirectEnd(steps, spent) && !end.Continue?
    ensures end.Finish? <==> program.Some?
    ensures end.Finish? ==> IsLineOf(program.value, steps)
    ensures end.GiveUp? ==> spentAfter == DirectCharges(steps, spent)
  {
    hide Lines, ItemsApart, EventAt, SpentBefore, ItemsOf, Level, Stop, GivingUpCharges, StepCharges, IsDirect;
    NoItems(steps, spent);
    var b := new Buffers(spent);
    var requiresBeginning, requiresEnd := false, false;
    program, spentAfter := None, spent;
    var ok, stateIndex := b.AddDfaState();
    if !ok {
      return Exceed, None, b.optimizationSteps;
    }
    for index := 0 to |steps|
      invariant fresh(b) && b.Valid() && stateIndex == Level(b.items) && b.items == ItemsOf(steps, index)
      invariant b.optimizationSteps == SpentBefore(steps, index, spent)
      invariant forall j :: 0 <= j < index ==> EventHere(steps, j, spent) == Continue
      invariant forall j :: 0 <= j < index ==> IsDirect(steps[j]) && !steps[j].Accept?
      invariant requiresBeginning == (RequireBeginning in steps[..index])
      invariant requiresEnd == (RequireEnd in steps[..index])
    {
      AnchorsOneMore(steps, index);
      var before := b.optimizationSteps;
      SpentOneMore(steps, index, spent);
      end, stateIndex := AddStep(b, steps, index, stateIndex);
      if end.Continue? {
        ContinuedIsDirect(steps, index, before);
        requiresBeginning := requiresBeginning || steps[index].RequireBeginning?;
        requiresEnd := requiresEnd || steps[index].RequireEnd?;
      } else {
        StopIsFirst(steps, 0, index, spent);
        spentAfter := b.optimizationSteps;
        if end.Finish? {
          FinishedAtAccept(steps, index, before);
          var table := FinishTable(b, stateIndex, requiresBeginning, requiresEnd);
          program := Some(table);
        }
        return;
      }
    }
    StopIsFirst(steps, 0, |steps|, spent);
    end, spentAfter := GiveUp, b.optimizationSteps;
  }

  /** Marks the last state as accepting and gives every state a row. */
  method FinishTable(b: Buffers, stateIndex: nat, requiresBeginning: bool, requiresEnd: bool) returns (p: Program)
    requires b.Valid() && stateIndex == Level(b.items)
    modifies b
    ensures IsLine(p, old(b.items)) && AcceptsLast(p) && b.optimizationSteps == old(b.optimizationSteps)
    ensures p.requiresBeginning == requiresBeginning && p.requiresEnd == requiresEnd
  {
    hide Lines, ItemsApart;
    b.PadTo(stateIndex);
    p := Program(b.offsets, b.counts, b.sets, b.targets, b.accepting[stateIndex := true], requiresBeginning, requiresEnd);
  }

  lemma NoItems(steps: seq<Step>, spent: nat)
    ensures ItemsOf(steps, 0) == [] && Level([]) == 0 && SpentBefore(steps, 0, spent) == spent + 1
  {
  }

  lemma SpentOneMore(steps: seq<Step>, i: nat, spent: nat)
    requires i < |steps|
    ensures SpentBefore(steps, i + 1, spent) == SpentBefore(steps, i, spent) + StepCharges(steps, i)
  {
  }

  lemma AnchorsOneMore(steps: seq<Step>, k: nat)
    requires k < |steps|
    ensures forall step :: step in steps[..k + 1] <==> step in steps[..k] || step == steps[k]
  {
    assert steps[..k + 1] == steps[..k] + [steps[k]];
  }

  lemma FinishedAtAccept(steps: seq<Step>, i: nat, spent: nat)
    requires i < |steps| && EventAt(steps, i, spent) == Finish && forall j :: 0 <= j < i ==> !steps[j].Accept?
    ensures steps[i].Accept? && AcceptIndex(steps) == i
  {
    hide AppendEvent, AddEvent, Following, ScanCharges;
    AcceptStandsAt(steps, i);
  }

  lemma AcceptStandsAt(steps: seq<Step>, i: nat)
    requires i < |steps| && steps[i].Accept? && forall j :: 0 <= j < i ==> !steps[j].Accept?
    ensures AcceptIndex(steps) == i
  {
  }
}
