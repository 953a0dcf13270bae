/**
 The whole compiler of the anchored ASCII verifier: two kernels that fill a table
 directly, and the way through the graph for the steps that neither takes on.
 */
module AsciiVerifier {
  import opened Common
  import opened Words
  import opened AsciiNfa
  import opened AsciiNfaCompiler
  import opened AsciiProgram
  import opened AsciiClosure
  import opened AsciiDfa
  import opened AsciiDfaCompiler
  import opened AsciiItems
  import opened AsciiLine
  import opened AsciiLineBuilder
  import opened AsciiDirectCompiler
  import opened AsciiLoopCompiler
  import opened AsciiAdmission

  // ---------- anchors ----------

  method TryReadAnchors(steps: seq<Step>) returns (ok: bool, spentAfter: nat)
    ensures ok <==> AnchorsInPlace(steps) && |steps| <= MAX_OPTIMIZATION_STEPS
    ensures ok ==> spentAfter == |steps|
  {
    var consumed, hasBeginning := false, false;
    spentAfter := 0;
    for index := 0 to |steps|
      invariant spentAfter == index <= MAX_OPTIMIZATION_STEPS
      invariant consumed <==> exists j :: 0 <= j < index && Consuming(steps[j])
      invariant hasBeginning <==> exists j :: 0 <= j < index && steps[j].RequireBeginning?
      invariant forall i :: 0 <= i < index ==> AnchorInPlace(steps, i)
    {
      spentAfter := spentAfter + 1;
      if spentAfter > MAX_OPTIMIZATION_STEPS {
        return false, spentAfter;
      }
      var step := steps[index];
      if step.RequireBeginning? {
        if consumed || hasBeginning {
          assert !AnchorInPlace(steps, index);
          return false, spentAfter;
        }
        hasBeginning := true;
      } else if step.RequireEnd? {
        if index != |steps| - 2 || !steps[|steps| - 1].Accept? {
          assert !AnchorInPlace(steps, index);
          return false, spentAfter;
        }
      } else if !step.Accept? {
        consumed := true;
      }
    }
    ok := true;
  }

  // ---------- the way a program takes ----------

  /** `Clashed` stands for the exception that leaves the compiler when two edges overlap. */
  datatype Outcome = Succeeded(program: Program) | Declined | Clashed

  datatype Route = Refused | ByLoops | ByLine | Overlapping | ByGraph

  /** What has been charged when the second kernel begins ... */
  function SpentOnLoops(steps: seq<Step>): nat {
    |steps| + LoopSequenceCharges(steps)
  }

  /** ... and when the graph begins. */
  function SpentOnKernels(steps: seq<Step>): nat {
    DirectCharges(steps, SpentOnLoops(steps))
  }

  function RouteOf(steps: seq<Step>): Route {
    if steps == [] || !AnchorsInPlace(steps) || |steps| > MAX_OPTIMIZATION_STEPS then Refused
    else
      match LoopEnd(steps, |steps|)
      case Finish => ByLoops
      case Exceed => Refused
      case _ =>
        match DirectEnd(steps, SpentOnLoops(steps))
        case Finish => ByLine
        case Clash => Overlapping
        case Exceed => Refused
        case _ => ByGraph
  }

  /** The steps have a graph that is neither too large nor too costly to make deterministic. */
  ghost predicate GraphSuits(steps: seq<Step>, spent: nat) {
    Compiles(steps) && Affordable(steps, spent) && !Overtaxes(GraphOf(steps).states, spent + NfaCharges(steps))
  }

  /** The routes, told from the steps alone. */
  lemma RoutesMean(steps: seq<Step>)
    ensures RouteOf(steps) == ByLoops ==> IsLoopSequence(steps)
    ensures RouteOf(steps) == ByLine ==> GoesByLine(steps)
    ensures RouteOf(steps) == ByGraph ==> !IsLoopSequence(steps) && !GoesByLine(steps)
    ensures RouteOf(steps) in {ByLine, ByGraph} ==> !Clashes(steps) && !TooLong(steps)
    ensures RouteOf(steps) == Overlapping ==> Clashes(steps)
  {
    hide AnchorsInPlace, LoopEnd, DirectEnd, IsLoopSequence, GoesByLine, Clashes, TooLong, LoopSequenceCharges;
    if steps != [] && AnchorsInPlace(steps) && |steps| <= MAX_OPTIMIZATION_STEPS {
      LoopKernel(steps);
      if LoopEnd(steps, |steps|) == GiveUp {
        if SpentOnLoops(steps) + 1 <= MAX_OPTIMIZATION_STEPS {
          DirectKernel(steps, SpentOnLoops(steps));
        } else {
          NothingLeft(steps, SpentOnLoops(steps));
        }
      }
    }
  }

  lemma NothingLeft(steps: seq<Step>, spent: nat)
    requires spent + 1 > MAX_OPTIMIZATION_STEPS
    ensures DirectEnd(steps, spent) == Exceed
  {
  }

  /** A program that none of the conditions holds for takes a route that leads to a table. */
  lemma AdmittedLeadsOn(steps: seq<Step>)
    requires !MayBeDeclined(steps)
    ensures RouteOf(steps) != Refused
    ensures RouteOf(steps) == ByGraph ==> GraphSuits(steps, SpentOnKernels(steps))
  {
    hide AnchorsInPlace, LoopEnd, DirectEnd, DirectCharges, IsLoopSequence, GoesByLine, Clashes, TooLong, LoopSequenceCharges,
         HasEmptyClass, TooLarge, TooCostly, GraphOf, StatesNeeded, Compiles;
    RoutesMean(steps);
    LoopKernel(steps);
    if LoopEnd(steps, |steps|) == GiveUp {
      DirectKernelIsCheap(steps, SpentOnLoops(steps));
      if RouteOf(steps) == ByGraph {
        GraphCompiles(steps);
        GraphIsCheap(steps);
        if TooCostly(GraphOf(steps).states, SpentOnKernels(steps) + NfaCharges(steps)) {
          CostGrows(GraphOf(steps).states, SpentOnKernels(steps) + NfaCharges(steps), 400_000);
        }
      }
    }
  }

  /** Without an Accept there is no route to a table. */
  lemma AcceptIsNeeded(steps: seq<Step>)
    requires AcceptIndex(steps) == |steps|
    ensures RouteOf(steps) !in {ByLoops, ByLine} && !Compiles(steps)
  {
    hide LoopEnd, DirectEnd, AnchorsInPlace, LoopSequenceCharges;
    RoutesMean(steps);
    if IsLoopSequence(steps) {
      SequenceAnchors(steps);
    }
  }

  /**
   What comes of the steps. In terms of the routes: exactly when there is a table. In
   terms of the steps alone: when there may be none, when two edges overlap, and
   that the table is right but for loops taken directly that do not stand alone.
   */
  method Compile(steps: seq<Step>) returns (r: Outcome)
    ensures r.Clashed? <==> RouteOf(steps) == Overlapping
    ensures r.Succeeded? <==>
              RouteOf(steps) in {ByLoops, ByLine} || (RouteOf(steps) == ByGraph && GraphSuits(steps, SpentOnKernels(steps)))
    ensures r.Succeeded? ==> IsTable(r.program)
    ensures r.Succeeded? ==> (Decides(r.program, steps) <==> (GoesByLine(steps) ==> LineSuits(steps)))
    ensures r.Succeeded? && GoesByLine(steps) ==> IsLineOf(r.program, steps)
    ensures r.Declined? ==> MayBeDeclined(steps)
    ensures !AnchorsInPlace(steps) ==> r.Declined?
    ensures AcceptIndex(steps) == |steps| || (TooLong(steps) && !IsLoopSequence(steps)) ==> !r.Succeeded?
    ensures r.Clashed? ==> Clashes(steps)
    ensures Clashes(steps) ==> !r.Succeeded?
  {
    hide AnchorsInPlace, LoopEnd, DirectEnd, LoopSequenceCharges, DirectCharges, IsLoopTable, IsLineOf, LineSuits, Decides, IsTable,
         Compiles, Affordable, Overtaxes, GraphOf, Implements, Simulates, EdgesInside, NfaCharges;
    hide MayBeDeclined, GoesByLine, Clashes, TooLong, IsLoopSequence;
    RoutesMean(steps);
    if !MayBeDeclined(steps) {
      AdmittedLeadsOn(steps);
    }
    if AcceptIndex(steps) == |steps| {
      AcceptIsNeeded(steps);
    }
    LoopsDoNotClash(steps);
    if steps == [] {
      return Declined;
    }
    var anchored, spent := TryReadAnchors(steps);
    if !anchored {
      return Declined;
    }
    var end, program;
    end, program, spent := TryCompileLoops(steps, spent);
    match end {
      case Finish =>
        LoopTableDecides(program.value, steps);
        return Succeeded(program.value);
      case Exceed => return Declined;
      case _ =>
    }
    end, program, spent := TryCompileSequence(steps, spent);
    match end {
      case Finish =>
        LineOfStepsDecidesIff(program.value, steps);
        return Succeeded(program.value);
      case Clash => return Outcome.Clashed;
      case Exceed => return Declined;
      case _ =>
    }
    var nfa;
    nfa, spent := CompileNfa(steps, spent);
    if nfa.None? {
      return Declined;
    }
    GraphIsInside(nfa.value, steps);
    var dfa;
    ghost var table, sources;
    dfa, table, sources := BuildDfa(nfa.value, spent);
    if dfa.None? {
      return Declined;
    }
    SimulationDecides(dfa.value, nfa.value, table, sources, steps);
    SimulatingTable(dfa.value, nfa.value, table, sources);
    r := Succeeded(dfa.value);
  }

  lemma LoopsDoNotClash(steps: seq<Step>)
    ensures IsLoopSequence(steps) ==> !Clashes(steps) && !GoesByLine(steps)
  {
  }

  lemma LineOfStepsDecidesIff(p: Program, steps: seq<Step>)
    requires IsLineOf(p, steps)
    ensures IsTable(p) && (Decides(p, steps) <==> LineSuits(steps))
  {
    hide Decides, LineSuits, AcceptsLast, IsLine, ItemsApart, AllDirect;
    LineDecidesIff(p, steps);
  }

  lemma GraphIsInside(c: Compiled, steps: seq<Step>)
    requires Implements(c, steps)
    ensures |c.states| > 0 && EdgesInside(c.states)
  {
  }
}
