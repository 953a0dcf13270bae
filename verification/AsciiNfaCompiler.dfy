/**
 The compiler that turns a flat ASCII program into a graph, with the work it charges.
 The graph accepts exactly what the program consumes.
 */
module AsciiNfaCompiler {
  import opened Common
  import opened Words
  import opened AsciiNfa
  import opened AsciiNfaGadgets

  // ---------- what the compiler accepts ----------

  /** The states a loop takes: its copies, its exit and, without an upper end, the state it returns from. */
  function LoopStates(min: nat, max: int): (n: nat)
    ensures n > 0
  {
    if IsOpenEnded(max) then min + 2 else Larger(min, max) + 1
  }

  function StatesOf(step: Step): nat {
    match step
    case MatchClass(_) => 1
    case LoopClass(_, min, max) => LoopStates(min, max)
    case _ => 0
  }

  /** The states that the first `k` steps add to the start state. */
  function StatesNeeded(steps: seq<Step>, k: nat): nat
    requires k <= |steps|
  {
    if k == 0 then 0 else StatesNeeded(steps, k - 1) + StatesOf(steps[k - 1])
  }

  lemma {:induction false} StatesNeededGrows(steps: seq<Step>, j: nat, k: nat)
    requires j <= k <= |steps|
    ensures StatesNeeded(steps, j) <= StatesNeeded(steps, k)
    decreases k
  {
    if j == k {
    } else {
      StatesNeededGrows(steps, j, k - 1);
    }
  }

  /** A beginning comes before anything is consumed, an end just before the final Accept, and no class is empty. */
  predicate StepAllowed(steps: seq<Step>, i: nat)
    requires i < |steps|
  {
    match steps[i]
    case RequireBeginning => forall j :: 0 <= j < i ==> !steps[j].MatchClass? && !steps[j].LoopClass?
    case RequireEnd => i == |steps| - 2 && steps[|steps| - 1].Accept?
    case Accept => true
    case MatchClass(charClass) => !charClass.IsEmpty()
    case LoopClass(charClass, _, _) => !charClass.IsEmpty()
  }

  predicate Supported(steps: seq<Step>) {
    var k := AcceptIndex(steps);
    k < |steps| && forall i :: 0 <= i < k ==> StepAllowed(steps, i)
  }

  /** The program is one the compiler supports, and the graph for it is not too large. */
  predicate Compiles(steps: seq<Step>) {
    Supported(steps) && 1 + StatesNeeded(steps, AcceptIndex(steps)) <= 2048
  }

  /** The start state alone means that nothing has been consumed. */
  lemma {:induction false} NothingConsumed(steps: seq<Step>, k: nat)
    requires k <= |steps|
    ensures StatesNeeded(steps, k) == 0 <==> forall j :: 0 <= j < k ==> !steps[j].MatchClass? && !steps[j].LoopClass?
  {
    if k == 0 {
    } else {
      NothingConsumed(steps, k - 1);
    }
  }

  lemma StepRule(steps: seq<Step>, i: nat)
    requires i < |steps|
    ensures StatesNeeded(steps, i + 1) == StatesNeeded(steps, i) + StatesOf(steps[i])
    ensures match steps[i]
            case RequireBeginning => StepAllowed(steps, i) <==> StatesNeeded(steps, i) == 0
            case RequireEnd => StepAllowed(steps, i) <==> i == |steps| - 2 && steps[|steps| - 1].Accept?
            case Accept => StepAllowed(steps, i)
            case MatchClass(charClass) => StepAllowed(steps, i) <==> !charClass.IsEmpty()
            case LoopClass(charClass, _, _) => StepAllowed(steps, i) <==> !charClass.IsEmpty()
  {
    NothingConsumed(steps, i);
  }

  lemma DeclinedStep(steps: seq<Step>, i: nat)
    requires i < |steps| && (forall j :: 0 <= j < i ==> !steps[j].Accept?) && !StepAllowed(steps, i)
    ensures !Compiles(steps)
  {
    assert !steps[i].Accept?;
  }

  lemma DeclinedSize(steps: seq<Step>, i: nat)
    requires i < |steps| && (forall j :: 0 <= j <= i ==> !steps[j].Accept?)
    requires 1 + StatesNeeded(steps, i + 1) > MAX_NFA_STATES
    ensures !Compiles(steps)
  {
    var k := AcceptIndex(steps);
    if k < |steps| {
      StatesNeededGrows(steps, i + 1, k);
    }
  }

  lemma Accepted(steps: seq<Step>, k: nat)
    requires k < |steps| && k == AcceptIndex(steps) && (forall i :: 0 <= i < k ==> StepAllowed(steps, i))
    requires 1 + StatesNeeded(steps, k) <= MAX_NFA_STATES
    ensures Compiles(steps)
  {
  }

  // ---------- what the compiler charges ----------

  function LoopCharges(min: nat, max: int): nat {
    2 * min + 1 + if IsOpenEnded(max) then 1 else 2 * (Larger(min, max) - min)
  }

  /** One unit for the step, one for appending it, and what its states cost. */
  function ChargesOf(step: Step): nat {
    match step
    case MatchClass(_) => 3
    case LoopClass(_, min, max) => 2 + LoopCharges(min, max)
    case _ => 2
  }

  function ChargesOfSteps(steps: seq<Step>, k: nat): nat
    requires k <= |steps|
  {
    if k == 0 then 0 else ChargesOfSteps(steps, k - 1) + ChargesOf(steps[k - 1])
  }

  lemma {:induction false} ChargesGrow(steps: seq<Step>, j: nat, k: nat)
    requires j <= k <= |steps|
    ensures ChargesOfSteps(steps, j) <= ChargesOfSteps(steps, k)
    decreases k
  {
    if j == k {
    } else {
      ChargesGrow(steps, j, k - 1);
    }
  }

  /** The start state, and every step up to the Accept. */
  function NfaCharges(steps: seq<Step>): nat {
    var k := AcceptIndex(steps);
    1 + ChargesOfSteps(steps, if k < |steps| then k + 1 else k)
  }

  predicate Affordable(steps: seq<Step>, spent: nat) {
    spent + NfaCharges(steps) <= 1_048_576
  }

  lemma ChargedTooMuch(steps: seq<Step>, spent: nat, i: nat)
    requires i <= |steps| && (forall j :: 0 <= j < i - 1 ==> !steps[j].Accept?)
    requires spent + 1 + ChargesOfSteps(steps, i) > MAX_OPTIMIZATION_STEPS
    ensures !Affordable(steps, spent)
  {
    var k := AcceptIndex(steps);
    ChargesGrow(steps, i, if k < |steps| then k + 1 else k);
  }

  // ---------- the graph of a program ----------

  datatype Compiled = Compiled(states: Graph, accept: nat, requiresBeginning: bool, requiresEnd: bool)

  /** A graph and the state its next step starts from. */
  datatype Growing = Growing(states: Graph, current: nat)

  function WithCopies(g: Growing, bytes: ByteClass, n: nat): (h: Growing)
    requires g.current < |g.states|
    ensures h.current < |h.states| == |g.states| + n
  {
    if n == 0 then g
    else
      var h := WithCopies(g, bytes, n - 1);
      Growing(WithSet(h.states, h.current, bytes), |h.states|)
  }

  /** Optional copies: from each of them the loop can be left. */
  function WithOptionalCopies(g: Growing, exit: nat, bytes: ByteClass, n: nat): (h: Growing)
    requires g.current < |g.states|
    ensures h.current < |h.states| == |g.states| + n
  {
    if n == 0 then g
    else
      var h := WithOptionalCopies(g, exit, bytes, n - 1);
      Growing(WithSet(WithEpsilon(h.states, h.current, exit), h.current, bytes), |h.states|)
  }

  function WithLoop(g: Growing, bytes: ByteClass, min: nat, max: int): (h: Growing)
    requires g.current < |g.states|
    ensures h.current < |h.states| == |g.states| + LoopStates(min, max)
  {
    var copied := WithCopies(g, bytes, min);
    var exit := |copied.states|;
    if IsOpenEnded(max) then Growing(WithOpenLoop(copied.states, copied.current, bytes), exit)
    else
      var left := WithOptionalCopies(Growing(WithState(copied.states), copied.current), exit, bytes, Larger(min, max) - min);
      Growing(WithEpsilon(left.states, left.current, exit), exit)
  }

  function WithStep(g: Growing, step: Step): (h: Growing)
    requires g.current < |g.states|
    ensures h.current < |h.states| == |g.states| + StatesOf(step)
  {
    match step
    case MatchClass(charClass) => Growing(WithSet(g.states, g.current, charClass.Members()), |g.states|)
    case LoopClass(charClass, min, max) => WithLoop(g, charClass.Members(), min, max)
    case _ => g
  }

  function WithSteps(steps: seq<Step>, k: nat): (g: Growing)
    requires k <= |steps|
    ensures g.current < |g.states| == 1 + StatesNeeded(steps, k)
  {
    if k == 0 then Growing([State([], [])], 0) else WithStep(WithSteps(steps, k - 1), steps[k - 1])
  }

  /** The one graph of a program: that of its steps up to the Accept. */
  function GraphOf(steps: seq<Step>): Compiled {
    var k := AcceptIndex(steps);
    var g := WithSteps(steps, k);
    Compiled(g.states, g.current, RequireBeginning in steps[..k], RequireEnd in steps[..k])
  }

  predicate EdgesInside(g: Graph) {
    forall s :: 0 <= s < |g| ==>
      (forall t :: t in g[s].epsilons ==> t < |g|) && (forall e :: e in g[s].transitions ==> e.target < |g|)
  }

  /** The graph accepts what the program consumes up to its Accept, under the program's anchors. */
  ghost predicate Implements(c: Compiled, steps: seq<Step>) {
    var k := AcceptIndex(steps);
    && k < |steps|
    && (forall w :: Arrives(c.states, w, c.accept) <==> Consumes(steps, k, w))
    && c.requiresBeginning == (RequireBeginning in steps[..k])
    && c.requiresEnd == (RequireEnd in steps[..k])
    && |c.states| > 0 && EdgesInside(c.states)
  }

  lemma SoundEdgesInside(g: Graph, labels: seq<Label>, steps: seq<Step>)
    requires Sound(g, labels, steps)
    ensures EdgesInside(g)
  {
    hide Denotes, Includes, Continues;
    forall s | 0 <= s < |g|
      ensures (forall t :: t in g[s].epsilons ==> t < |g|) && (forall e :: e in g[s].transitions ==> e.target < |g|)
    {
      forall t | t in g[s].epsilons ensures t < |g| {
        assert HasEpsilon(g, s, t);
      }
      forall e | e in g[s].transitions ensures e.target < |g| {
        assert HasTransition(g, s, e.bytes, e.target);
      }
    }
  }

  lemma LooseEndDenotes(g: Graph, labels: seq<Label>, steps: seq<Step>, current: nat, tag: Label, w: Text)
    requires LooseEnd(g, labels, steps, -1, current, tag) && Denotes(steps, tag, w)
    ensures Arrives(g, w, current)
  {
    hide Arrives, Denotes, Sound;
  }

  lemma LooseEndImplements(c: Compiled, labels: seq<Label>, steps: seq<Step>, k: nat)
    requires k < |steps| && k == AcceptIndex(steps)
    requires LooseEnd(c.states, labels, steps, -1, c.accept, After(k))
    requires c.requiresBeginning == (RequireBeginning in steps[..k])
    requires c.requiresEnd == (RequireEnd in steps[..k])
    ensures Implements(c, steps)
  {
    hide Arrives, Denotes, Consumes, EdgesInside, HasEpsilon, HasTransition, CompleteExcept;
    forall w ensures Arrives(c.states, w, c.accept) <==> Consumes(steps, k, w) {
      DenotesAfter(steps, k, w);
      if Arrives(c.states, w, c.accept) {
        ArrivalIsDenoted(c.states, labels, steps, w, c.accept);
      }
      if Denotes(steps, After(k), w) {
        LooseEndDenotes(c.states, labels, steps, c.accept, After(k), w);
      }
    }
    SoundEdgesInside(c.states, labels, steps);
  }

  lemma AcceptIs(steps: seq<Step>, k: nat)
    requires k < |steps| && steps[k].Accept? && forall i :: 0 <= i < k ==> !steps[i].Accept?
    ensures AcceptIndex(steps) == k
  {
  }

  lemma OneMoreStep(steps: seq<Step>, k: nat)
    requires k < |steps|
    ensures forall step :: step in steps[..k + 1] <==> step in steps[..k] || step == steps[k]
  {
    assert steps[..k + 1] == steps[..k] + [steps[k]];
  }

  // ---------- the compiler ----------

  class Builder {
    var states: Graph
    var optimizationSteps: nat

    constructor (spent: nat)
      ensures states == [] && optimizationSteps == spent
    {
      states := [];
      optimizationSteps := spent;
    }

    method ChargeCompilationStep() returns (ok: bool)
      modifies this`optimizationSteps
      ensures optimizationSteps == old(optimizationSteps) + 1
      ensures ok == (optimizationSteps <= MAX_OPTIMIZATION_STEPS)
    {
      optimizationSteps := optimizationSteps + 1;
      ok := optimizationSteps <= MAX_OPTIMIZATION_STEPS;
    }

    /** Declines when the graph is full. */
    method AddState() returns (ok: bool, index: nat)
      modifies this
      ensures index == |old(states)|
      ensures optimizationSteps == old(optimizationSteps) + 1
      ensures ok == (|old(states)| < MAX_NFA_STATES && optimizationSteps <= MAX_OPTIMIZATION_STEPS)
      ensures states == if ok then WithState(old(states)) else old(states)
    {
      index := |states|;
      ok := ChargeCompilationStep();
      if !ok || |states| >= MAX_NFA_STATES {
        return false, index;
      }
      states := states + [State([], [])];
    }

    method AddEpsilon(s: nat, t: nat)
      requires s < |states|
      modifies this`states
      ensures states == WithEpsilon(old(states), s, t)
    {
      states := states[s := State(states[s].epsilons + [t], states[s].transitions)];
    }

    method AppendSet(current: nat, bytes: ByteClass) returns (ok: bool, next: nat)
      requires current < |states|
      modifies this
      ensures optimizationSteps == old(optimizationSteps) + 1
      ensures ok == (|old(states)| < MAX_NFA_STATES && optimizationSteps <= MAX_OPTIMIZATION_STEPS)
      ensures ok ==> |states| == |old(states)| + 1
      ensures ok ==> states == WithSet(old(states), current, bytes) && next == |old(states)|
    {
      ok, next := AddState();
      if ok {
        states := states[current := State(states[current].epsilons, states[current].transitions + [Transition(bytes, next)])];
      }
    }

    /** The mandatory copies of a loop. */
    method AppendCopies(start: nat, bytes: ByteClass, min: nat, ghost steps: seq<Step>, ghost k: nat, ghost labels: seq<Label>)
      returns (ok: bool, current: nat, ghost after: seq<Label>)
      requires k <= |steps| && LooseEnd(states, labels, steps, -1, start, Label(k, bytes, Exactly(0)))
      requires |states| <= MAX_NFA_STATES && start < |states| && optimizationSteps <= MAX_OPTIMIZATION_STEPS
      modifies this
      ensures ok == (|old(states)| + min <= MAX_NFA_STATES && old(optimizationSteps) + 2 * min <= MAX_OPTIMIZATION_STEPS)
      ensures ok ==> optimizationSteps == old(optimizationSteps) + 2 * min
      ensures ok ==> Growing(states, current) == WithCopies(Growing(old(states), start), bytes, min)
      ensures ok ==> LooseEnd(states, after, steps, -1, current, Label(k, bytes, Exactly(min)))
    {
      hide LooseEnd, Follows, WithSet;
      ok, current, after := true, start, labels;
      for index := 0 to min
        invariant LooseEnd(states, after, steps, -1, current, Label(k, bytes, Exactly(index)))
        invariant |states| == |old(states)| + index <= MAX_NFA_STATES
        invariant optimizationSteps == old(optimizationSteps) + 2 * index <= MAX_OPTIMIZATION_STEPS
        invariant Growing(states, current) == WithCopies(Growing(old(states), start), bytes, index)
      {
        CurrentInGraph(states, after, steps, -1, current, Label(k, bytes, Exactly(index)));
        FollowsOnce(steps, k, bytes, index);
        SetGadget(states, after, steps, -1, current, Label(k, bytes, Exactly(index)), bytes, Label(k, bytes, Exactly(index + 1)));
        ok := ChargeCompilationStep();
        if !ok {
          return;
        }
        var next;
        ok, next := AppendSet(current, bytes);
        if !ok {
          return;
        }
        after := after + [Label(k, bytes, Exactly(index + 1))];
        current := next;
      }
      ok := true;
    }

    /** The optional copies of a closed loop. */
    method AppendOptionalCopies(start: nat, exit: nat, bytes: ByteClass, min: nat, max: int,
                                ghost steps: seq<Step>, ghost k: nat, ghost labels: seq<Label>)
      returns (ok: bool, current: nat, ghost after: seq<Label>)
      requires ClosedLoop(states, labels, steps, k, bytes, min, max, exit, min, start)
      requires |states| <= MAX_NFA_STATES && start < |states| && optimizationSteps <= MAX_OPTIMIZATION_STEPS
      modifies this
      ensures ok == (|old(states)| + (Larger(min, max) - min) <= MAX_NFA_STATES &&
                     old(optimizationSteps) + 2 * (Larger(min, max) - min) <= MAX_OPTIMIZATION_STEPS)
      ensures ok ==> optimizationSteps == old(optimizationSteps) + 2 * (Larger(min, max) - min)
      ensures ok ==> Growing(states, current) == WithOptionalCopies(Growing(old(states), start), exit, bytes, Larger(min, max) - min)
      ensures ok ==> ClosedLoop(states, after, steps, k, bytes, min, max, exit, Larger(min, max), current)
    {
      hide WithSet, ClosedLoop;
      ok, current, after := true, start, labels;
      var index := min;
      while index < max
        invariant min <= index <= Larger(min, max)
        invariant ClosedLoop(states, after, steps, k, bytes, min, max, exit, index, current)
        invariant |states| == |old(states)| + index - min <= MAX_NFA_STATES
        invariant optimizationSteps == old(optimizationSteps) + 2 * (index - min) <= MAX_OPTIMIZATION_STEPS
        invariant Growing(states, current) == WithOptionalCopies(Growing(old(states), start), exit, bytes, index - min)
      {
        ClosedLoopInGraph(states, after, steps, k, bytes, min, max, exit, index, current);
        ClosedLoopStep(states, after, steps, k, bytes, min, max, exit, index, current);
        ok := ChargeCompilationStep();
        if !ok {
          return;
        }
        AddEpsilon(current, exit);
        ok, current := AppendSet(current, bytes);
        if !ok {
          return;
        }
        after := after + [Label(k, bytes, Exactly(index + 1))];
        index := index + 1;
      }
      ok := true;
    }

    method AppendLoop(start: nat, bytes: ByteClass, min: nat, max: int,
                      ghost steps: seq<Step>, ghost k: nat, ghost labels: seq<Label>)
      returns (ok: bool, exit: nat, ghost after: seq<Label>)
      requires k < |steps| && IsLoop(steps[k], bytes, min, max)
      requires LooseEnd(states, labels, steps, -1, start, After(k))
      requires |states| <= MAX_NFA_STATES && start < |states| && optimizationSteps <= MAX_OPTIMIZATION_STEPS
      modifies this
      ensures ok == (|old(states)| + LoopStates(min, max) <= MAX_NFA_STATES &&
                     old(optimizationSteps) + LoopCharges(min, max) <= MAX_OPTIMIZATION_STEPS)
      ensures ok ==> optimizationSteps == old(optimizationSteps) + LoopCharges(min, max)
      ensures ok ==> Growing(states, exit) == WithLoop(Growing(old(states), start), bytes, min, max)
      ensures ok ==> |old(states)| <= exit
      ensures ok ==> LooseEnd(states, after, steps, -1, exit, After(k + 1))
    {
      hide LooseEnd, WithSet, WithState, ClosedLoop, Sound, CompleteExcept, WithCopies, WithOptionalCopies;
      after := BeginLoop(states, labels, steps, start, k, bytes);
      var current;
      ok, current, after := AppendCopies(start, bytes, min, steps, k, after);
      exit := |states|;
      if !ok {
        return;
      }
      ghost var g := states;
      CurrentInGraph(g, after, steps, -1, current, Label(k, bytes, Exactly(min)));
      ok, exit := AddState();
      if !ok {
        return;
      }
      StateAdded(g);
      if IsOpenEnded(max) {
        AddEpsilon(current, exit);
        var loopStart := current;
        ok, current := AppendSet(current, bytes);
        if !ok {
          return;
        }
        SetAdded(WithEpsilon(WithState(g), loopStart, exit), loopStart, bytes);
        AddEpsilon(current, loopStart);
        AddEpsilon(current, exit);
        OpenLoopGadget(g, after, steps, loopStart, k, bytes, min, max);
        after := OpenLabels(after, loopStart, k, bytes, min);
      } else {
        ClosedLoopStart(g, after, steps, k, bytes, min, max, current);
        after := after + [After(k + 1)];
        ok, current, after := AppendOptionalCopies(current, exit, bytes, min, max, steps, k, after);
        if !ok {
          return;
        }
        ClosedLoopInGraph(states, after, steps, k, bytes, min, max, exit, Larger(min, max), current);
        ClosedLoopEnd(states, after, steps, k, bytes, min, max, exit, current);
        AddEpsilon(current, exit);
        ok := true;
      }
    }

    method AppendMatch(current: nat, bytes: ByteClass, ghost steps: seq<Step>, ghost k: nat, ghost labels: seq<Label>)
      returns (ok: bool, next: nat, ghost after: seq<Label>)
      requires k < |steps| && IsMatch(steps[k], bytes) && current < |states|
      requires LooseEnd(states, labels, steps, -1, current, After(k))
      modifies this
      ensures optimizationSteps == old(optimizationSteps) + 1
      ensures ok == (|old(states)| < MAX_NFA_STATES && optimizationSteps <= MAX_OPTIMIZATION_STEPS)
      ensures ok ==> states == WithSet(old(states), current, bytes) && next == |old(states)|
      ensures ok ==> LooseEnd(states, after, steps, -1, next, After(k + 1))
    {
      hide LooseEnd, WithSet, Follows;
      CurrentInGraph(states, labels, steps, -1, current, After(k));
      FollowsMatch(steps, k, bytes);
      SetGadget(states, labels, steps, -1, current, After(k), bytes, After(k + 1));
      ok, next := AppendSet(current, bytes);
      after := labels + [After(k + 1)];
    }

    /** One step of the program; `isLastBeforeAccept` says whether only the Accept follows. */
    method TryAppendNfaStep(start: nat, steps: seq<Step>, k: nat, isLastBeforeAccept: bool,
                            hadBeginning: bool, hadEnd: bool, ghost labels: seq<Label>)
      returns (ok: bool, current: nat, requiresBeginning: bool, requiresEnd: bool, ghost after: seq<Label>)
      requires k < |steps| && LooseEnd(states, labels, steps, -1, start, After(k)) && start < |states|
      requires |states| == 1 + StatesNeeded(steps, k) <= MAX_NFA_STATES && optimizationSteps <= MAX_OPTIMIZATION_STEPS
      requires start == 0 <==> StatesNeeded(steps, k) == 0
      requires isLastBeforeAccept == (k == |steps| - 2 && steps[|steps| - 1].Accept?)
      modifies this
      ensures ok == (StepAllowed(steps, k) && |old(states)| + StatesOf(steps[k]) <= MAX_NFA_STATES &&
                     old(optimizationSteps) + (ChargesOf(steps[k]) - 1) <= MAX_OPTIMIZATION_STEPS)
      ensures ok ==> optimizationSteps == old(optimizationSteps) + (ChargesOf(steps[k]) - 1)
      ensures ok ==> Growing(states, current) == WithStep(Growing(old(states), start), steps[k])
      ensures ok ==> (current == 0 <==> start == 0 && StatesOf(steps[k]) == 0)
      ensures ok ==> requiresBeginning == (hadBeginning || steps[k].RequireBeginning?)
      ensures ok ==> requiresEnd == (hadEnd || steps[k].RequireEnd?)
      ensures ok ==> LooseEnd(states, after, steps, -1, current, After(if steps[k].Accept? then k else k + 1))
    {
      hide LooseEnd, WithSet, WithLoop, StatesNeeded, StepAllowed, LoopStates, LoopCharges;
      StepRule(steps, k);
      current, requiresBeginning, requiresEnd, after := start, hadBeginning, hadEnd, labels;
      ok := ChargeCompilationStep();
      if !ok {
        return;
      }
      match steps[k] {
        case RequireBeginning =>
          if current != 0 {
            ok := false;
            return;
          }
          requiresBeginning := true;
          after := PassiveStep(states, labels, steps, current, k);
        case RequireEnd =>
          if !isLastBeforeAccept {
            ok := false;
            return;
          }
          requiresEnd := true;
          after := PassiveStep(states, labels, steps, current, k);
        case Accept =>
        case MatchClass(charClass) =>
          if charClass.IsEmpty() {
            ok := false;
            return;
          }
          ok, current, after := AppendMatch(current, charClass.Members(), steps, k, labels);
        case LoopClass(charClass, min, max) =>
          if charClass.IsEmpty() {
            ok := false;
            return;
          }
          ok, current, after := AppendLoop(current, charClass.Members(), min, max, steps, k, labels);
      }
    }
  }

  lemma StepCosts(steps: seq<Step>, i: nat)
    requires i < |steps|
    ensures ChargesOfSteps(steps, i + 1) == ChargesOfSteps(steps, i) + ChargesOf(steps[i])
    ensures WithSteps(steps, i + 1) == WithStep(WithSteps(steps, i), steps[i])
    ensures StatesNeeded(steps, i + 1) == StatesNeeded(steps, i) + StatesOf(steps[i])
    ensures ChargesOf(steps[i]) >= 2
    ensures steps[i].Accept? ==> StatesOf(steps[i]) == 0 && WithSteps(steps, i + 1) == WithSteps(steps, i)
  {
  }

  lemma NoStepsYet(steps: seq<Step>)
    ensures WithSteps(steps, 0) == Growing([State([], [])], 0)
    ensures StatesNeeded(steps, 0) == 0 && ChargesOfSteps(steps, 0) == 0
  {
  }

  method CompileNfa(steps: seq<Step>, spent: nat) returns (r: Option<Compiled>, spentAfter: nat)
    ensures r.Some? <==> Compiles(steps) && Affordable(steps, spent)
    ensures r.Some? ==> r.value == GraphOf(steps) && Implements(GraphOf(steps), steps)
    ensures r.Some? ==> spentAfter == spent + NfaCharges(steps) <= MAX_OPTIMIZATION_STEPS
  {
    hide LooseEnd, Implements, Compiles, StatesNeeded, ChargesOfSteps, StatesOf, ChargesOf, StepAllowed, WithSteps, WithStep,
         Affordable;
    var builder := new Builder(spent);
    var requiresBeginning, requiresEnd := false, false;
    NoStepsYet(steps);
    var ok, current := builder.AddState();
    if !ok {
      ChargedTooMuch(steps, spent, 0);
      return None, builder.optimizationSteps;
    }
    assert builder.states == [State([], [])];
    FirstState(steps);
    ghost var labels := [After(0)];
    var index := 0;
    while index < |steps|
      invariant 0 <= index <= |steps| && fresh(builder)
      invariant LooseEnd(builder.states, labels, steps, -1, current, After(index))
      invariant Growing(builder.states, current) == WithSteps(steps, index)
      invariant |builder.states| == 1 + StatesNeeded(steps, index) <= MAX_NFA_STATES
      invariant builder.optimizationSteps == spent + 1 + ChargesOfSteps(steps, index) <= MAX_OPTIMIZATION_STEPS
      invariant current == 0 <==> StatesNeeded(steps, index) == 0
      invariant forall i :: 0 <= i < index ==> !steps[i].Accept? && StepAllowed(steps, i)
      invariant requiresBeginning == (RequireBeginning in steps[..index])
      invariant requiresEnd == (RequireEnd in steps[..index])
      decreases |steps| - index
    {
      OneMoreStep(steps, index);
      StepCosts(steps, index);
      ok := builder.ChargeCompilationStep();
      if ok {
        ok, current, requiresBeginning, requiresEnd, labels :=
          builder.TryAppendNfaStep(current, steps, index, index == |steps| - 2 && steps[|steps| - 1].Accept?,
                                   requiresBeginning, requiresEnd, labels);
      }
      if !ok {
        Declined(steps, spent, index);
        return None, builder.optimizationSteps;
      }
      if steps[index].Accept? {
        AcceptIs(steps, index);
        Accepted(steps, index);
        var compiled := Compiled(builder.states, current, requiresBeginning, requiresEnd);
        LooseEndImplements(compiled, labels, steps, index);
        Paid(steps, spent, index, builder.optimizationSteps);
        return Some(compiled), builder.optimizationSteps;
      }
      index := index + 1;
    }
    NoAccept(steps);
    r, spentAfter := None, builder.optimizationSteps;
  }

  lemma Paid(steps: seq<Step>, spent: nat, k: nat, paid: nat)
    requires k < |steps| && AcceptIndex(steps) == k
    requires paid == spent + 1 + ChargesOfSteps(steps, k + 1) <= MAX_OPTIMIZATION_STEPS
    ensures Affordable(steps, spent) && paid == spent + NfaCharges(steps)
  {
  }

  /** A step that is not allowed, too many states or too much work: either way the program is declined. */
  lemma Declined(steps: seq<Step>, spent: nat, i: nat)
    requires i < |steps| && forall j :: 0 <= j < i ==> !steps[j].Accept?
    requires !StepAllowed(steps, i) || 1 + StatesNeeded(steps, i + 1) > MAX_NFA_STATES ||
             spent + 1 + ChargesOfSteps(steps, i + 1) > MAX_OPTIMIZATION_STEPS
    requires steps[i].Accept? ==> 1 + StatesNeeded(steps, i) <= MAX_NFA_STATES
    ensures !Compiles(steps) || !Affordable(steps, spent)
  {
    hide Compiles, Affordable;
    if !StepAllowed(steps, i) {
      DeclinedStep(steps, i);
    } else if spent + 1 + ChargesOfSteps(steps, i + 1) > MAX_OPTIMIZATION_STEPS {
      ChargedTooMuch(steps, spent, i + 1);
    } else {
      DeclinedSize(steps, i);
    }
  }

  lemma NoAccept(steps: seq<Step>)
    requires forall i :: 0 <= i < |steps| ==> !steps[i].Accept?
    ensures !Compiles(steps)
  {
  }
}
