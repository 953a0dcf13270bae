/**
 What it means that a table simulates a graph, and why such a table decides the steps
 that the graph implements.
 */
module AsciiDfa {
  import opened Words
  import opened AsciiNfa
  import opened AsciiNfaCompiler
  import opened AsciiProgram
  import opened AsciiClosure
  import opened SortedLists

  // ---------- moves between sets of states ----------

  ghost predicate MovesFrom(g: Graph, from: seq<nat>, b: Byte, t: nat) {
    exists q :: q in from && MovesTo(g, q, b, t)
  }

  /** `to` lists, in order, the states reached from `from` by reading `b`. */
  ghost predicate IsMove(g: Graph, from: seq<nat>, b: Byte, to: seq<nat>) {
    StrictlySorted(to) && forall t: nat :: t in to <==> MovesFrom(g, from, b, t)
  }

  // ---------- tables that simulate a graph ----------

  type StateSets = seq<seq<nat>>

  /** The list holds the states in which the graph can be after `w`. */
  ghost predicate Tracks(g: Graph, w: Text, states: seq<nat>) {
    forall t: nat :: t in states <==> Arrives(g, w, t)
  }

  /** A sorted, non-empty set of states in which some text leaves the graph. */
  ghost predicate Reachable(g: Graph, states: seq<nat>) {
    StrictlySorted(states) && states != [] && exists w :: Tracks(g, w, states)
  }

  /** The states are reachable sets, none of them twice, and the first one is where the graph starts. */
  ghost predicate States(c: Compiled, stateSets: StateSets, accepting: seq<bool>) {
    && 0 < |stateSets| == |accepting|
    && Tracks(c.states, [], stateSets[0])
    && (forall i :: 0 <= i < |stateSets| ==> Within(stateSets[i], c.states) && Reachable(c.states, stateSets[i]))
    && (forall i :: 0 <= i < |stateSets| ==> accepting[i] == (c.accept in stateSets[i]))
    && (forall i, j :: 0 <= i < j < |stateSets| ==> stateSets[i] != stateSets[j])
  }

  ghost predicate EdgeMoves(g: Graph, from: seq<nat>, bytes: ByteClass, to: seq<nat>) {
    bytes != {} && forall b :: b in bytes ==> IsMove(g, from, b, to)
  }

  /** Every edge makes its moves, and no two edges join the same two states. */
  ghost predicate Edges(g: Graph, stateSets: StateSets, sources: seq<nat>, sets: seq<ByteClass>, targets: seq<nat>) {
    && |sources| == |sets| == |targets|
    && (forall e :: 0 <= e < |sets| ==> sources[e] < |stateSets| && targets[e] < |stateSets|)
    && (forall e :: 0 <= e < |sets| ==> EdgeMoves(g, stateSets[sources[e]], sets[e], stateSets[targets[e]]))
    && (forall e, f :: 0 <= e < f < |sets| ==> sources[e] != sources[f] || targets[e] != targets[f])
  }

  ghost predicate HasEdge(sets: seq<ByteClass>, first: nat, end: nat, b: Byte)
    requires end <= |sets|
  {
    exists e :: first <= e < end && b in sets[e]
  }

  /** The edges from `first` to `end` leave state `i`, and every move of that state has one. */
  ghost predicate Row(g: Graph, from: seq<nat>, sources: seq<nat>, sets: seq<ByteClass>, i: nat, first: nat, end: nat) {
    && first <= end <= |sets| == |sources|
    && (forall e :: first <= e < end ==> sources[e] == i)
    && (forall b, t: nat :: MovesFrom(g, from, b, t) ==> HasEdge(sets, first, end, b))
  }

  ghost predicate Rows(g: Graph, stateSets: StateSets, sources: seq<nat>, sets: seq<ByteClass>,
                       offsets: seq<nat>, counts: seq<nat>) {
    && |offsets| == |counts| <= |stateSets|
    && forall i :: 0 <= i < |counts| ==>
         Row(g, stateSets[i], sources, sets, i, offsets[i], offsets[i] + counts[i])
  }

  ghost predicate Simulates(p: Program, c: Compiled, stateSets: StateSets, sources: seq<nat>) {
    && States(c, stateSets, p.accepting)
    && Edges(c.states, stateSets, sources, p.sets, p.targets)
    && Rows(c.states, stateSets, sources, p.sets, p.offsets, p.counts)
    && |p.offsets| == |stateSets|
    && p.requiresBeginning == c.requiresBeginning && p.requiresEnd == c.requiresEnd
  }

  lemma TracksMove(g: Graph, w: Text, from: seq<nat>, b: Byte, to: seq<nat>)
    requires Tracks(g, w, from) && IsMove(g, from, b, to)
    ensures Tracks(g, w + [b], to)
  {
    hide MovesTo, StrictlySorted;
    var longer := w + [b];
    assert longer[..|longer| - 1] == w && longer[|longer| - 1] == b;
  }

  // ---------- the run of a program ----------

  /** The edge that a byte takes leads to the move on it. */
  lemma EdgeTracks(p: Program, c: Compiled, stateSets: StateSets, sources: seq<nat>, i: nat, e: nat, w: Text, b: Byte)
    requires Simulates(p, c, stateSets, sources) && i < |stateSets| && Tracks(c.states, w, stateSets[i])
    requires p.offsets[i] <= e < p.offsets[i] + p.counts[i] && b in p.sets[e]
    ensures p.targets[e] < |stateSets| && Tracks(c.states, w + [b], stateSets[p.targets[e]])
  {
    hide Tracks, IsMove, States, HasEdge, MovesFrom;
    assert Row(c.states, stateSets[i], sources, p.sets, i, p.offsets[i], p.offsets[i] + p.counts[i]);
    assert EdgeMoves(c.states, stateSets[sources[e]], p.sets[e], stateSets[p.targets[e]]);
    TracksMove(c.states, w, stateSets[i], b, stateSets[p.targets[e]]);
  }

  ghost predicate Dead(g: Graph, w: Text) {
    forall t: nat :: !Arrives(g, w, t)
  }

  /** Without an edge for the byte, nothing is reached, now or later. */
  lemma NoEdgeIsDead(p: Program, c: Compiled, stateSets: StateSets, sources: seq<nat>, i: nat, w: Text, b: Byte)
    requires Simulates(p, c, stateSets, sources) && i < |stateSets| && Tracks(c.states, w, stateSets[i])
    requires forall e :: p.offsets[i] <= e < p.offsets[i] + p.counts[i] ==> b !in p.sets[e]
    ensures Dead(c.states, w + [b])
  {
    hide MovesTo, States, Edges;
    var g, longer := c.states, w + [b];
    assert Row(g, stateSets[i], sources, p.sets, i, p.offsets[i], p.offsets[i] + p.counts[i]);
    assert longer[..|longer| - 1] == w && longer[|longer| - 1] == b;
    forall t: nat ensures !Arrives(g, longer, t) {
      assert !MovesFrom(g, stateSets[i], b, t);
    }
  }

  lemma NothingAfterDead(g: Graph, w: Text)
    requires w != [] && Dead(g, w[..|w| - 1])
    ensures Dead(g, w)
  {
  }

  /** The run is in the state that holds all the states of the graph, or dead when the graph is in none. */
  ghost predicate RunAgrees(p: Program, c: Compiled, stateSets: StateSets, w: Text)
    requires IsTable(p) && |p.accepting| == |stateSets|
  {
    if Run(p, w) < 0 then Dead(c.states, w) else Tracks(c.states, w, stateSets[Run(p, w)])
  }

  lemma {:induction false} RunTracks(p: Program, c: Compiled, stateSets: StateSets, sources: seq<nat>, w: Text)
    requires Simulates(p, c, stateSets, sources)
    ensures IsTable(p) && |p.accepting| == |stateSets| && RunAgrees(p, c, stateSets, w)
    decreases |w|
  {
    hide Simulates, Tracks, Dead;
    SimulatingTable(p, c, stateSets, sources);
    if w == [] {
      SameAnchors(p, c, stateSets, sources);
    } else {
      var front, b := w[..|w| - 1], w[|w| - 1];
      assert front + [b] == w;
      RunTracks(p, c, stateSets, sources, front);
      RunOneMore(p, front, b);
      var i := Run(p, front);
      if i < 0 {
        NothingAfterDead(c.states, w);
      } else if Next(p, i, b) < 0 {
        NoEdgeIsDead(p, c, stateSets, sources, i, front, b);
      } else {
        var e :| p.offsets[i] <= e < p.offsets[i] + p.counts[i] && b in p.sets[e] && p.targets[e] == Next(p, i, b);
        EdgeTracks(p, c, stateSets, sources, i, e, front, b);
      }
    }
  }

  /** A simulating table accepts what the graph accepts; so it decides the steps the graph implements. */
  lemma SimulationDecides(p: Program, c: Compiled, stateSets: StateSets, sources: seq<nat>, steps: seq<Step>)
    requires Simulates(p, c, stateSets, sources) && Implements(c, steps)
    ensures Decides(p, steps)
  {
    hide Arrives, Consumes, EdgesInside, Edges, Rows, Run;
    SimulatingTable(p, c, stateSets, sources);
    var k := AcceptIndex(steps);
    forall w ensures Accepts(p, w) <==> Consumes(steps, k, w) {
      RunTracks(p, c, stateSets, sources, w);
      assert Accepts(p, w) <==> Arrives(c.states, w, c.accept);
    }
  }

  lemma SimulatingTable(p: Program, c: Compiled, stateSets: StateSets, sources: seq<nat>)
    requires Simulates(p, c, stateSets, sources)
    ensures IsTable(p) && |p.accepting| == |stateSets|
  {
    hide EdgeMoves, HasEdge, MovesFrom, Reachable, Tracks, Within;
    forall i | 0 <= i < |stateSets| ensures p.offsets[i] + p.counts[i] <= |p.sets| {
      assert Row(c.states, stateSets[i], sources, p.sets, i, p.offsets[i], p.offsets[i] + p.counts[i]);
    }
  }

  lemma SameAnchors(p: Program, c: Compiled, stateSets: StateSets, sources: seq<nat>)
    requires Simulates(p, c, stateSets, sources)
    ensures p.requiresBeginning == c.requiresBeginning && p.requiresEnd == c.requiresEnd
    ensures |stateSets| > 0 && Tracks(c.states, [], stateSets[0])
  {
  }

  /** The edges of one state share no byte: in which order they are scanned does not matter. */
  lemma EdgesAreDisjoint(p: Program, c: Compiled, stateSets: StateSets, sources: seq<nat>, i: nat, e: nat, f: nat, b: Byte)
    requires Simulates(p, c, stateSets, sources) && i < |stateSets|
    requires p.offsets[i] <= e < p.offsets[i] + p.counts[i] && b in p.sets[e]
    requires p.offsets[i] <= f < p.offsets[i] + p.counts[i] && b in p.sets[f]
    ensures e == f
  {
    hide IsMove, HasEdge, Reachable, Within, Tracks;
    assert Row(c.states, stateSets[i], sources, p.sets, i, p.offsets[i], p.offsets[i] + p.counts[i]);
    assert EdgeMoves(c.states, stateSets[i], p.sets[e], stateSets[p.targets[e]]);
    assert EdgeMoves(c.states, stateSets[i], p.sets[f], stateSets[p.targets[f]]);
    MoveIsUnique(c.states, stateSets[i], b, stateSets[p.targets[e]], stateSets[p.targets[f]]);
  }

  lemma MoveIsUnique(g: Graph, from: seq<nat>, b: Byte, a: seq<nat>, to: seq<nat>)
    requires IsMove(g, from, b, a) && IsMove(g, from, b, to)
    ensures a == to
  {
    hide MovesFrom, StrictlySorted;
    SortedStatesAreUnique(a, to);
  }
}
