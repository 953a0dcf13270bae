/**
 The subset construction. It declines exactly when the reachable sets of states, or the
 moves between them, are too many, or when finding them charges too much work.
 */
module AsciiDfaCompiler {
  import opened Common
  import opened Words
  import opened AsciiNfa
  import opened AsciiNfaCompiler
  import opened AsciiClosure
  import opened AsciiAlphabet
  import opened AsciiProgram
  import opened AsciiDfa
  import opened AsciiDfaRows
  import opened SortedLists

  const MAX_DFA_STATES := 256
  const MAX_DFA_TRANSITIONS := 4096

  // ---------- counting ----------

  lemma {:induction false} DistinctCount<T>(s: seq<T>)
    requires forall i, j :: 0 <= i < j < |s| ==> s[i] != s[j]
    ensures |set x | x in s| == |s|
  {
    if s == [] {
      assert (set x | x in s) == {};
    } else {
      var front, last := s[..|s| - 1], s[|s| - 1];
      DistinctCount(front);
      assert s == front + [last];
      assert (set x | x in s) == (set x | x in front) + {last};
    }
  }

  lemma {:induction false} MembersCount<T>(s: seq<T>)
    ensures |set x | x in s| <= |s|
  {
    if s == [] {
      assert (set x | x in s) == {};
    } else {
      var front, last := s[..|s| - 1], s[|s| - 1];
      MembersCount(front);
      assert s == front + [last];
      assert (set x | x in s) == (set x | x in front) + {last};
    }
  }

  lemma {:induction false} SubsetCount<T>(a: set<T>, b: set<T>)
    requires a <= b
    ensures |a| <= |b|
  {
    assert b == a + (b - a);
  }

  ghost predicate TooManyStates(g: Graph) {
    exists sets: set<seq<nat>> :: |sets| > 256 && forall s :: s in sets ==> Reachable(g, s)
  }

  ghost predicate IsLiveMove(g: Graph, move: (seq<nat>, seq<nat>)) {
    Reachable(g, move.0) && Reachable(g, move.1) && exists b :: IsMove(g, move.0, b, move.1)
  }

  ghost predicate TooManyMoves(g: Graph) {
    exists moves: set<(seq<nat>, seq<nat>)> :: |moves| > 4096 && forall m :: m in moves ==> IsLiveMove(g, m)
  }

  ghost function MovesOf(stateSets: StateSets, sources: seq<nat>, targets: seq<nat>): (r: seq<(seq<nat>, seq<nat>)>)
    requires |sources| == |targets|
    requires forall e :: 0 <= e < |sources| ==> sources[e] < |stateSets| && targets[e] < |stateSets|
    ensures |r| == |sources|
    ensures forall e :: 0 <= e < |r| ==> r[e] == (stateSets[sources[e]], stateSets[targets[e]])
  {
    seq(|sources|, e requires 0 <= e < |sources| => (stateSets[sources[e]], stateSets[targets[e]]))
  }

  lemma ManyStates(c: Compiled, stateSets: StateSets, accepting: seq<bool>)
    requires States(c, stateSets, accepting) && |stateSets| > 256
    ensures TooManyStates(c.states)
  {
    hide Reachable, Tracks, Within;
    DistinctCount(stateSets);
    var sets := set s | s in stateSets;
    assert forall s :: s in sets ==> Reachable(c.states, s);
  }

  lemma ManyMoves(c: Compiled, stateSets: StateSets, accepting: seq<bool>, sources: seq<nat>, sets: seq<ByteClass>, targets: seq<nat>)
    requires States(c, stateSets, accepting) && Edges(c.states, stateSets, sources, sets, targets) && |sets| > 4096
    ensures TooManyMoves(c.states)
  {
    hide Reachable, Tracks, Within, IsMove;
    var all := MovesOf(stateSets, sources, targets);
    forall e, f | 0 <= e < f < |all| ensures all[e] != all[f] {
      assert sources[e] != sources[f] || targets[e] != targets[f];
    }
    DistinctCount(all);
    var moves := set m | m in all;
    forall m | m in moves ensures IsLiveMove(c.states, m) {
      var e :| 0 <= e < |all| && all[e] == m;
      EdgeIsLive(c.states, stateSets[sources[e]], sets[e], stateSets[targets[e]]);
    }
  }

  lemma EdgeIsLive(g: Graph, from: seq<nat>, bytes: ByteClass, to: seq<nat>)
    requires Reachable(g, from) && Reachable(g, to) && EdgeMoves(g, from, bytes, to)
    ensures IsLiveMove(g, (from, to))
  {
    hide Reachable, IsMove;
    var b :| b in bytes;
    assert IsMove(g, from, b, to);
  }

  /** A program has every reachable set among its states, and every live move among its edges. */
  lemma ReachableIsState(p: Program, c: Compiled, stateSets: StateSets, sources: seq<nat>, s: seq<nat>)
    requires Simulates(p, c, stateSets, sources) && Reachable(c.states, s)
    ensures s in stateSets
  {
    hide Edges, Rows, Arrives, StrictlySorted, Run;
    var w :| Tracks(c.states, w, s);
    RunTracks(p, c, stateSets, sources, w);
    var t := s[0];
    assert t in s;
    assert Arrives(c.states, w, t);
    var i := Run(p, w);
    assert Tracks(c.states, w, stateSets[i]);
    assert Reachable(c.states, stateSets[i]);
    SortedStatesAreUnique(s, stateSets[i]);
  }

  lemma LiveMoveIsEdge(p: Program, c: Compiled, stateSets: StateSets, sources: seq<nat>, move: (seq<nat>, seq<nat>))
    returns (e: nat)
    requires Simulates(p, c, stateSets, sources) && IsLiveMove(c.states, move)
    ensures e < |p.sets| == |sources| == |p.targets| && sources[e] < |stateSets| && p.targets[e] < |stateSets|
    ensures stateSets[sources[e]] == move.0 && stateSets[p.targets[e]] == move.1
  {
    hide Simulates, Reachable, IsMove;
    ReachableIsState(p, c, stateSets, sources, move.0);
    var i :| 0 <= i < |stateSets| && stateSets[i] == move.0;
    var b :| IsMove(c.states, move.0, b, move.1);
    ReachableIsInhabited(c.states, move.1);
    e := MoveHasEdge(p, c, stateSets, sources, i, b, move.1);
  }

  lemma MoveHasEdge(p: Program, c: Compiled, stateSets: StateSets, sources: seq<nat>, i: nat, b: Byte, to: seq<nat>)
    returns (e: nat)
    requires Simulates(p, c, stateSets, sources) && i < |stateSets| && IsMove(c.states, stateSets[i], b, to) && to != []
    ensures e < |p.sets| == |sources| == |p.targets| && sources[e] == i && p.targets[e] < |stateSets|
    ensures stateSets[p.targets[e]] == to
  {
    hide States, IsMove, MovesFrom;
    MoveIsMade(c.states, stateSets[i], b, to);
    assert Row(c.states, stateSets[i], sources, p.sets, i, p.offsets[i], p.offsets[i] + p.counts[i]);
    e :| p.offsets[i] <= e < p.offsets[i] + p.counts[i] && b in p.sets[e];
    assert EdgeMoves(c.states, stateSets[i], p.sets[e], stateSets[p.targets[e]]);
    MoveIsUnique(c.states, stateSets[i], b, stateSets[p.targets[e]], to);
  }

  lemma MoveIsMade(g: Graph, from: seq<nat>, b: Byte, to: seq<nat>)
    requires IsMove(g, from, b, to) && to != []
    ensures exists t: nat :: MovesFrom(g, from, b, t)
  {
    hide MovesFrom;
    var t := to[0];
    assert t in to;
  }

  lemma ReachableIsInhabited(g: Graph, s: seq<nat>)
    requires Reachable(g, s)
    ensures s != []
  {
  }

  lemma NotTooLarge(p: Program, c: Compiled, stateSets: StateSets, sources: seq<nat>)
    requires Simulates(p, c, stateSets, sources) && |stateSets| <= 256 && |p.sets| <= 4096
    ensures !TooManyStates(c.states) && !TooManyMoves(c.states)
  {
    hide Simulates, Reachable, IsLiveMove;
    var members := set s | s in stateSets;
    MembersCount(stateSets);
    forall sets: set<seq<nat>> | forall s :: s in sets ==> Reachable(c.states, s) ensures |sets| <= 256 {
      forall s | s in sets ensures s in members {
        ReachableIsState(p, c, stateSets, sources, s);
      }
      SubsetCount(sets, members);
    }
    EdgesInRange(p, c, stateSets, sources);
    var all := MovesOf(stateSets, sources, p.targets);
    var edges := set m | m in all;
    MembersCount(all);
    forall moves: set<(seq<nat>, seq<nat>)> | forall m :: m in moves ==> IsLiveMove(c.states, m) ensures |moves| <= 4096 {
      forall m | m in moves ensures m in edges {
        var e := LiveMoveIsEdge(p, c, stateSets, sources, m);
        assert all[e] == m;
      }
      SubsetCount(moves, edges);
    }
  }

  lemma EdgesInRange(p: Program, c: Compiled, stateSets: StateSets, sources: seq<nat>)
    requires Simulates(p, c, stateSets, sources)
    ensures |sources| == |p.targets| == |p.sets|
    ensures forall e :: 0 <= e < |sources| ==> sources[e] < |stateSets| && p.targets[e] < |stateSets|
  {
  }

  // ---------- what the construction charges ----------

  ghost predicate AllFit(g: Graph, states: StateSets) {
    forall i :: 0 <= i < |states| ==> Fits(g, states[i])
  }

  ghost function RowsCharges(g: Graph, states: StateSets): nat
    requires AllFit(g, states)
  {
    if states == [] then 0
    else RowsCharges(g, states[..|states| - 1]) + RowCharges(g, states[|states| - 1])
  }

  predicate Distinct(states: StateSets) {
    forall i, j :: 0 <= i < j < |states| ==> states[i] != states[j]
  }

  ghost predicate AllReachable(g: Graph, states: StateSets) {
    forall i :: 0 <= i < |states| ==> Reachable(g, states[i])
  }

  /** The closure of the start and the rows of some reachable sets charge more than the ceiling leaves. */
  ghost predicate TooCostly(g: Graph, spent: nat) {
    && |g| > 0 && Fits(g, [0])
    && exists states :: Distinct(states) && AllReachable(g, states) && AllFit(g, states) &&
                        spent + ClosureCharges(g, [0]) + RowsCharges(g, states) > 1_048_576
  }

  lemma RowsChargesOneMore(g: Graph, states: StateSets, s: seq<nat>)
    requires AllFit(g, states) && Fits(g, s)
    ensures AllFit(g, states + [s]) && RowsCharges(g, states + [s]) == RowsCharges(g, states) + RowCharges(g, s)
  {
    hide Fits, RowCharges;
    assert (states + [s])[..|states|] == states;
  }

  lemma {:induction false} RowsChargesWithout(g: Graph, states: StateSets, j: nat)
    requires AllFit(g, states) && j < |states|
    ensures AllFit(g, states[..j] + states[j + 1..])
    ensures RowsCharges(g, states) == RowsCharges(g, states[..j] + states[j + 1..]) + RowCharges(g, states[j])
    decreases |states|
  {
    hide Fits, RowCharges;
    var front, last := states[..|states| - 1], states[|states| - 1];
    if j == |states| - 1 {
      assert states[..j] + states[j + 1..] == front;
    } else {
      RowsChargesWithout(g, front, j);
      var rest := front[..j] + front[j + 1..];
      assert states[..j] + states[j + 1..] == rest + [last];
      RowsChargesOneMore(g, rest, last);
    }
  }

  /** Different rows out of a table charge no more than the whole table. */
  lemma {:induction false} RowsChargesOfSome(g: Graph, some: StateSets, table: StateSets)
    requires Distinct(some) && AllFit(g, some) && AllFit(g, table) && forall i :: 0 <= i < |some| ==> some[i] in table
    ensures RowsCharges(g, some) <= RowsCharges(g, table)
    decreases |some|
  {
    hide Fits, RowCharges;
    if some == [] {
    } else {
      var front, last := some[..|some| - 1], some[|some| - 1];
      assert last in table;
      var j :| 0 <= j < |table| && table[j] == last;
      RowsChargesWithout(g, table, j);
      var rest := table[..j] + table[j + 1..];
      forall i | 0 <= i < |front| ensures front[i] in rest {
        assert some[i] in table && some[i] != last;
        InRest(table, j, some[i]);
      }
      RowsChargesOfSome(g, front, rest);
    }
  }

  lemma InRest(table: StateSets, j: nat, x: seq<nat>)
    requires j < |table| && x in table && x != table[j]
    ensures x in table[..j] + table[j + 1..]
  {
    var i :| 0 <= i < |table| && table[i] == x;
    var rest := table[..j] + table[j + 1..];
    assert rest[if i < j then i else i - 1] == x;
  }

  lemma StatesFit(c: Compiled, stateSets: StateSets, accepting: seq<bool>)
    requires States(c, stateSets, accepting) && EdgesInside(c.states)
    ensures AllFit(c.states, stateSets) && Distinct(stateSets) && AllReachable(c.states, stateSets)
  {
    hide EdgesInside, Reachable, Tracks, Within;
  }

  /** Work charged within the rows of known states is work that the graph demands. */
  lemma CostlyHere(c: Compiled, stateSets: StateSets, accepting: seq<bool>, n: nat, spent: nat)
    requires States(c, stateSets, accepting) && EdgesInside(c.states) && |c.states| > 0 && n <= |stateSets|
    ensures Fits(c.states, [0]) && AllFit(c.states, stateSets[..n])
    ensures spent + ClosureCharges(c.states, [0]) + RowsCharges(c.states, stateSets[..n]) > MAX_OPTIMIZATION_STEPS ==>
              TooCostly(c.states, spent)
  {
    hide EdgesInside, ClosureCharges, RowsCharges, States, Reachable;
    StatesFit(c, stateSets, accepting);
    var states := stateSets[..n];
    assert Distinct(states) && AllReachable(c.states, states);
  }

  lemma NotTooCostly(p: Program, c: Compiled, stateSets: StateSets, sources: seq<nat>, spent: nat)
    requires Simulates(p, c, stateSets, sources) && EdgesInside(c.states) && |c.states| > 0
    ensures Fits(c.states, [0]) && AllFit(c.states, stateSets)
    ensures spent + ClosureCharges(c.states, [0]) + RowsCharges(c.states, stateSets) <= MAX_OPTIMIZATION_STEPS ==>
              !TooCostly(c.states, spent)
  {
    hide EdgesInside, ClosureCharges, RowsCharges, Simulates, Reachable, Fits;
    TableFits(p, c, stateSets, sources);
    forall states | Distinct(states) && AllReachable(c.states, states) && AllFit(c.states, states)
      ensures RowsCharges(c.states, states) <= RowsCharges(c.states, stateSets)
    {
      forall i | 0 <= i < |states| ensures states[i] in stateSets {
        ReachableIsState(p, c, stateSets, sources, states[i]);
      }
      RowsChargesOfSome(c.states, states, stateSets);
    }
  }

  lemma TableFits(p: Program, c: Compiled, stateSets: StateSets, sources: seq<nat>)
    requires Simulates(p, c, stateSets, sources) && EdgesInside(c.states) && |c.states| > 0
    ensures Fits(c.states, [0]) && AllFit(c.states, stateSets)
  {
    hide EdgesInside, Reachable, Tracks, Edges, Rows;
    StatesFit(c, stateSets, p.accepting);
  }

  // ---------- the construction ----------

  /** The map finds each state by its set. */
  predicate MapAgrees(stateSets: StateSets, stateMap: map<seq<nat>, nat>) {
    && (forall i :: 0 <= i < |stateSets| ==> stateSets[i] in stateMap && stateMap[stateSets[i]] == i)
    && (forall s :: s in stateMap ==> stateMap[s] < |stateSets| && stateSets[stateMap[s]] == s)
  }

  lemma FirstState(c: Compiled, start: seq<nat>)
    requires |c.states| > 0 && IsClosure(start, c.states, [0]) && Within(start, c.states)
    ensures States(c, [start], [c.accept in start])
  {
    hide EpsilonReaches, StrictlySorted;
    var g := c.states;
    assert forall t: nat :: ReachedFrom(g, [0], t) <==> EpsilonReaches(g, 0, t);
    assert Tracks(g, [], start);
    EpsilonStays(g, 0);
    assert 0 in start;
  }

  lemma StateAdded(c: Compiled, stateSets: StateSets, accepting: seq<bool>, stateMap: map<seq<nat>, nat>, closure: seq<nat>)
    requires States(c, stateSets, accepting) && MapAgrees(stateSets, stateMap) && closure !in stateMap
    requires Reachable(c.states, closure) && Within(closure, c.states)
    ensures States(c, stateSets + [closure], accepting + [c.accept in closure])
    ensures MapAgrees(stateSets + [closure], stateMap[closure := |stateSets|])
  {
    hide Tracks, Reachable, Within;
  }

  /** The edges from `first` on leave state `i` and carry the bytes of the classes dealt with. */
  ghost predicate RowSoFar(sources: seq<nat>, sets: seq<ByteClass>, i: nat, first: nat, covered: seq<ByteClass>) {
    && first <= |sets| == |sources|
    && (forall e :: 0 <= e < first ==> sources[e] < i)
    && (forall e :: first <= e < |sets| ==> sources[e] == i)
    && (forall b :: Covers(covered, b) ==> HasEdge(sets, first, |sets|, b))
  }

  lemma CoversMore(covered: seq<ByteClass>, class0: ByteClass, b: Byte)
    ensures Covers(covered + [class0], b) <==> Covers(covered, b) || b in class0
  {
    var more := covered + [class0];
    assert more[..|covered|] == covered && more[..|covered| + 1] == more;
    CoversOneMore(more, |covered|, b);
  }

  /** Equal destinations share an edge. */
  lemma EdgeMerged(g: Graph, stateSets: StateSets, sources: seq<nat>, sets: seq<ByteClass>, targets: seq<nat>, i: nat,
                   first: nat, covered: seq<ByteClass>, class0: ByteClass, edge: nat)
    requires Edges(g, stateSets, sources, sets, targets) && RowSoFar(sources, sets, i, first, covered)
    requires i < |stateSets| && first <= edge < |sets|
    requires EdgeMoves(g, stateSets[i], class0, stateSets[targets[edge]])
    ensures var merged := sets[edge := sets[edge] + class0];
            Edges(g, stateSets, sources, merged, targets) && RowSoFar(sources, merged, i, first, covered + [class0])
  {
    hide Covers, IsMove;
    var merged := sets[edge := sets[edge] + class0];
    forall b | Covers(covered + [class0], b) ensures HasEdge(merged, first, |merged|, b) {
      CoversMore(covered, class0, b);
      if b in class0 {
        assert b in merged[edge];
      } else {
        var e :| first <= e < |sets| && b in sets[e];
        assert b in merged[e];
      }
    }
    assert EdgeMoves(g, stateSets[i], sets[edge], stateSets[targets[edge]]);
    assert EdgeMoves(g, stateSets[i], merged[edge], stateSets[targets[edge]]);
  }

  lemma EdgeAppended(g: Graph, stateSets: StateSets, sources: seq<nat>, sets: seq<ByteClass>, targets: seq<nat>, i: nat,
                     first: nat, covered: seq<ByteClass>, class0: ByteClass, target: nat)
    requires Edges(g, stateSets, sources, sets, targets) && RowSoFar(sources, sets, i, first, covered)
    requires i < |stateSets| && target < |stateSets| && EdgeMoves(g, stateSets[i], class0, stateSets[target])
    requires forall e :: first <= e < |sets| ==> targets[e] != target
    ensures Edges(g, stateSets, sources + [i], sets + [class0], targets + [target])
    ensures RowSoFar(sources + [i], sets + [class0], i, first, covered + [class0])
  {
    hide Covers, EdgeMoves;
    var more := sets + [class0];
    forall b | Covers(covered + [class0], b) ensures HasEdge(more, first, |more|, b) {
      CoversMore(covered, class0, b);
      if b in class0 {
        assert b in more[|sets|];
      } else {
        var e :| first <= e < |sets| && b in sets[e];
        assert b in more[e];
      }
    }
  }

  /** Every class has its edge, so every move has one. */
  lemma RowCompleted(g: Graph, from: seq<nat>, classes: seq<ByteClass>, sources: seq<nat>, sets: seq<ByteClass>, i: nat, first: nat)
    requires Within(from, g) && SplitAlong(classes, Outgoing(from, g)) && RowSoFar(sources, sets, i, first, classes)
    ensures Row(g, from, sources, sets, i, first, |sets|)
    ensures forall e :: 0 <= e < |sources| ==> sources[e] < i + 1
  {
    hide Covers, MovesFrom, HasEdge, SplitAlong, Outgoing;
    forall b, t: nat | MovesFrom(g, from, b, t) ensures HasEdge(sets, first, |sets|, b) {
      MovesAreCovered(g, from, classes, b, t);
    }
  }

  /** The rows before `first` are finished. */
  ghost predicate Finished(g: Graph, stateSets: StateSets, sources: seq<nat>, sets: seq<ByteClass>,
                           offsets: seq<nat>, counts: seq<nat>, first: nat) {
    && Rows(g, stateSets, sources, sets, offsets, counts)
    && forall i :: 0 <= i < |counts| ==> offsets[i] + counts[i] <= first
  }

  lemma RowSurvives(g: Graph, from: seq<nat>, sources: seq<nat>, sets: seq<ByteClass>, moreSources: seq<nat>,
                    moreSets: seq<ByteClass>, i: nat, first: nat, end: nat, known: nat)
    requires Row(g, from, sources, sets, i, first, end) && end <= known <= |moreSets| == |moreSources| && known <= |sets|
    requires forall e :: 0 <= e < known ==> moreSources[e] == sources[e] && moreSets[e] == sets[e]
    ensures Row(g, from, moreSources, moreSets, i, first, end)
  {
    hide MovesFrom;
    forall b | HasEdge(sets, first, end, b) ensures HasEdge(moreSets, first, end, b) {
      var e :| first <= e < end && b in sets[e];
      assert b in moreSets[e];
    }
  }

  /** Finished rows outlive everything that is appended after them. */
  lemma RowFinished(g: Graph, stateSets: StateSets, sources: seq<nat>, sets: seq<ByteClass>, offsets: seq<nat>, counts: seq<nat>,
                    first: nat, moreStates: StateSets, moreSources: seq<nat>, moreSets: seq<ByteClass>)
    requires Finished(g, stateSets, sources, sets, offsets, counts, first)
    requires |offsets| < |stateSets| <= |moreStates| && stateSets == moreStates[..|stateSets|]
    requires first == |sets| == |sources| <= |moreSets| == |moreSources|
    requires forall e :: 0 <= e < first ==> moreSources[e] == sources[e] && moreSets[e] == sets[e]
    requires Row(g, stateSets[|offsets|], moreSources, moreSets, |offsets|, first, |moreSets|)
    ensures Finished(g, moreStates, moreSources, moreSets, offsets + [first], counts + [|moreSets| - first], |moreSets|)
  {
    hide Row;
    forall i | 0 <= i < |counts| ensures Row(g, moreStates[i], moreSources, moreSets, i, offsets[i], offsets[i] + counts[i]) {
      RowSurvives(g, stateSets[i], sources, sets, moreSources, moreSets, i, offsets[i], offsets[i] + counts[i], first);
    }
  }

  ghost predicate TooLarge(g: Graph) {
    TooManyStates(g) || TooManyMoves(g)
  }

  /** The edges of the row lead to the targets in the list. */
  predicate RowListed(stateSets: StateSets, targets: seq<nat>, first: nat, list: StateSets) {
    && first <= |targets| == first + |list|
    && forall e :: first <= e < |targets| ==> targets[e] < |stateSets| && stateSets[targets[e]] == list[e - first]
  }

  /** Looking for the target's number is looking for the target. */
  lemma SameIndex(stateSets: StateSets, targets: seq<nat>, first: nat, list: StateSets, target: nat)
    requires RowListed(stateSets, targets, first, list) && target < |stateSets| && Distinct(stateSets)
    ensures IndexIn(targets[first..], target) == IndexIn(list, stateSets[target])
    ensures stateSets[target] in list <==> IndexIn(targets[first..], target) < |list|
  {
    hide IndexIn;
    var i, k := IndexIn(targets[first..], target), IndexIn(list, stateSets[target]);
    assert i < |list| ==> list[i] == stateSets[target];
    assert k < |list| ==> targets[first..][k] == target;
  }

  lemma ListedAfter(stateSets: StateSets, targets: seq<nat>, first: nat, list: StateSets, target: nat, moreStates: StateSets)
    requires RowListed(stateSets, targets, first, list) && stateSets <= moreStates && target < |moreStates|
    ensures RowListed(moreStates, targets, first, list)
    ensures RowListed(moreStates, targets + [target], first, list + [moreStates[target]])
  {
    ListKept(stateSets, targets, first, list, moreStates);
    ListOneMore(moreStates, targets, first, list, target);
  }

  lemma ListKept(stateSets: StateSets, targets: seq<nat>, first: nat, list: StateSets, moreStates: StateSets)
    requires RowListed(stateSets, targets, first, list) && stateSets <= moreStates
    ensures RowListed(moreStates, targets, first, list)
  {
    PrefixAgrees(stateSets, moreStates);
  }

  lemma PrefixAgrees(stateSets: StateSets, moreStates: StateSets)
    requires stateSets <= moreStates
    ensures |stateSets| <= |moreStates| && forall s :: 0 <= s < |stateSets| ==> moreStates[s] == stateSets[s]
  {
  }

  lemma ListOneMore(stateSets: StateSets, targets: seq<nat>, first: nat, list: StateSets, target: nat)
    requires RowListed(stateSets, targets, first, list) && target < |stateSets|
    ensures RowListed(stateSets, targets + [target], first, list + [stateSets[target]])
  {
    var more, longer := targets + [target], list + [stateSets[target]];
    assert |more| == first + |longer|;
    forall e | first <= e < |more| ensures more[e] < |stateSets| && stateSets[more[e]] == longer[e - first] {
      if e < |targets| {
        assert stateSets[targets[e]] == list[e - first];
        assert more[e] == targets[e];
      }
    }
  }

  method FindEdge(targets: seq<nat>, first: nat, target: nat, spent: nat) returns (ok: bool, edge: nat, spentAfter: nat)
    requires first <= |targets| && spent <= MAX_OPTIMIZATION_STEPS
    ensures ok <==> spent + IndexIn(targets[first..], target) <= MAX_OPTIMIZATION_STEPS
    ensures ok ==> spentAfter == spent + IndexIn(targets[first..], target)
    ensures ok ==> edge == first + IndexIn(targets[first..], target)
  {
    edge, spentAfter := first, spent;
    ghost var row := targets[first..];
    assert row[0..] == row;
    while edge < |targets| && targets[edge] != target
      invariant first <= edge <= |targets| && spentAfter == spent + (edge - first) <= MAX_OPTIMIZATION_STEPS
      invariant IndexIn(row, target) == (edge - first) + IndexIn(row[edge - first..], target)
    {
      assert row[edge - first..][1..] == row[edge + 1 - first..];
      spentAfter := spentAfter + 1;
      if spentAfter > MAX_OPTIMIZATION_STEPS {
        return false, edge, spentAfter;
      }
      edge := edge + 1;
    }
    ok := true;
  }

  /** Every way in which a graph is more than the construction takes on. */
  ghost predicate Overtaxes(g: Graph, spent: nat) {
    TooLarge(g) || TooCostly(g, spent)
  }

  /** All charges before class `i` of state `next`. */
  ghost function PaidBefore(g: Graph, stateSets: StateSets, next: nat, i: nat, spent: nat): nat
    requires |g| > 0 && Fits(g, [0]) && next < |stateSets| && AllFit(g, stateSets)
    requires i <= |ClassesOf(Outgoing(stateSets[next], g))|
  {
    var from := stateSets[next];
    var transitions := Outgoing(from, g);
    spent + ClosureCharges(g, [0]) + RowsCharges(g, stateSets[..next]) + 1 + |from| + SplitWork(transitions) +
    ClassesCharges(g, from, ClassesOf(transitions)[..i])
  }

  /** Any part of the work on one class, added to what was paid before, is part of the whole. */
  lemma PaidWithin(c: Compiled, stateSets: StateSets, accepting: seq<bool>, next: nat, i: nat, spent: nat)
    requires States(c, stateSets, accepting) && EdgesInside(c.states) && |c.states| > 0 && next < |stateSets|
    requires i < |ClassesOf(Outgoing(stateSets[next], c.states))|
    ensures Fits(c.states, [0]) && AllFit(c.states, stateSets)
    ensures var from, classes := stateSets[next], ClassesOf(Outgoing(stateSets[next], c.states));
            var paid := PaidBefore(c.states, stateSets, next, i, spent) + ClassCharges(c.states, from, classes[..i], classes[i]);
            && paid == PaidBefore(c.states, stateSets, next, i + 1, spent)
            && (paid > MAX_OPTIMIZATION_STEPS ==> TooCostly(c.states, spent))
  {
    hide EdgesInside, ClosureCharges, RowsCharges, States, Reachable, Outgoing, ClassesOf, ClassCharges, ClassesCharges, Within, Fits,
         TooCostly, SplitWork;
    var g, from := c.states, stateSets[next];
    StatesFit(c, stateSets, accepting);
    FitsStart(g);
    FitAt(g, stateSets, next);
    var classes := ClassesOf(Outgoing(from, g));
    ChargesUpTo(g, from, classes, i);
    RowsUpTo(g, stateSets, next);
    CostlyHere(c, stateSets, accepting, next + 1, spent);
  }

  lemma FitAt(g: Graph, stateSets: StateSets, i: nat)
    requires AllFit(g, stateSets) && i < |stateSets|
    ensures Fits(g, stateSets[i]) && Within(stateSets[i], g) && EdgesInside(g)
  {
    hide EdgesInside, Within;
  }

  lemma FitsStart(g: Graph)
    requires EdgesInside(g) && |g| > 0
    ensures Fits(g, [0])
  {
    hide EdgesInside;
  }

  lemma RowsUpTo(g: Graph, stateSets: StateSets, next: nat)
    requires next < |stateSets| && AllFit(g, stateSets)
    ensures RowsCharges(g, stateSets[..next + 1]) == RowsCharges(g, stateSets[..next]) + RowCharges(g, stateSets[next])
  {
    hide Fits, RowCharges;
    assert stateSets[..next + 1] == stateSets[..next] + [stateSets[next]];
    RowsChargesOneMore(g, stateSets[..next], stateSets[next]);
  }

  /** Where a class leads. */
  method LeadClass(from: seq<nat>, g: Graph, class0: ByteClass, spent: nat)
    returns (ok: bool, closure: seq<nat>, spentAfter: nat)
    requires Fits(g, from) && spent <= MAX_OPTIMIZATION_STEPS
    ensures Within(from, g) && EdgesInside(g) && Within(TargetsOf(Outgoing(from, g), class0), g)
    ensures var work := 1 + |from| + |Outgoing(from, g)| + ClosureCharges(g, TargetsOf(Outgoing(from, g), class0));
            (ok <==> spent + work <= MAX_OPTIMIZATION_STEPS) && (ok ==> spentAfter == spent + work)
    ensures ok ==> closure == ClassTarget(g, from, class0)
  {
    hide EdgesInside, Outgoing, TargetsOf, ClosureCharges, IndexIn, RowTargets;
    ClassCosts(g, from, [], class0);
    closure, spentAfter := [], spent + 1;
    if spentAfter > MAX_OPTIMIZATION_STEPS {
      return false, closure, spentAfter;
    }
    var destinations;
    ok, destinations, spentAfter := Destinations(from, g, class0, spentAfter);
    if !ok {
      return;
    }
    ok, closure, spentAfter := ComputeClosure(destinations, g, spentAfter);
  }

  /** The number of a set of states, which is added to the table if it is new. */
  method InternState(c: Compiled, closure: seq<nat>, stateSets: StateSets, accepting: seq<bool>, stateMap: map<seq<nat>, nat>)
    returns (ok: bool, targetIndex: nat, states: StateSets, accepts: seq<bool>, numbers: map<seq<nat>, nat>)
    requires States(c, stateSets, accepting) && MapAgrees(stateSets, stateMap) && |stateSets| <= MAX_DFA_STATES
    requires Reachable(c.states, closure) && Within(closure, c.states)
    ensures ok ==> States(c, states, accepts) && MapAgrees(states, numbers) && |states| <= MAX_DFA_STATES
    ensures ok ==> stateSets <= states && targetIndex < |states| && states[targetIndex] == closure
    ensures !ok ==> TooManyStates(c.states)
  {
    hide States, MapAgrees, Reachable, Within, TooManyStates;
    MapKnows(stateSets, stateMap, closure);
    states, accepts, numbers := stateSets, accepting, stateMap;
    if closure in stateMap {
      return true, stateMap[closure], states, accepts, numbers;
    }
    targetIndex := |stateSets|;
    StateAdded(c, stateSets, accepting, stateMap, closure);
    if targetIndex >= MAX_DFA_STATES {
      ManyStates(c, stateSets + [closure], accepting + [c.accept in closure]);
      return false, targetIndex, states, accepts, numbers;
    }
    states := stateSets + [closure];
    numbers := stateMap[closure := targetIndex];
    accepts := accepting + [c.accept in closure];
    ok := true;
  }

  lemma EdgesKeptBy(g: Graph, stateSets: StateSets, more: StateSets, sources: seq<nat>, sets: seq<ByteClass>, targets: seq<nat>)
    requires Edges(g, stateSets, sources, sets, targets) && stateSets <= more
    ensures Edges(g, more, sources, sets, targets)
  {
    hide EdgeMoves;
  }

  /** Equal destinations share an edge; a new one gets an edge of its own. */
  method ShareEdge(c: Compiled, stateSets: StateSets, ghost accepting: seq<bool>, sets: seq<ByteClass>, targets: seq<nat>,
                   ghost sources: seq<nat>, first: nat, ghost covered: seq<ByteClass>, ghost list: StateSets,
                   class0: ByteClass, targetIndex: nat, next: nat, spent: nat)
    returns (ok: bool, moreSets: seq<ByteClass>, moreTargets: seq<nat>, ghost moreSources: seq<nat>, spentAfter: nat)
    requires States(c, stateSets, accepting) && Edges(c.states, stateSets, sources, sets, targets)
    requires |sources| == |sets| == |targets| <= MAX_DFA_TRANSITIONS && spent <= MAX_OPTIMIZATION_STEPS
    requires RowSoFar(sources, sets, next, first, covered) && RowListed(stateSets, targets, first, list)
    requires next < |stateSets| && targetIndex < |stateSets|
    requires EdgeMoves(c.states, stateSets[next], class0, stateSets[targetIndex])
    ensures ok ==> spentAfter == spent + IndexIn(list, stateSets[targetIndex]) <= MAX_OPTIMIZATION_STEPS
    ensures ok ==> |moreSources| == |moreSets| == |moreTargets| <= MAX_DFA_TRANSITIONS
    ensures ok ==> Edges(c.states, stateSets, moreSources, moreSets, moreTargets)
    ensures ok ==> RowSoFar(moreSources, moreSets, next, first, covered + [class0])
    ensures ok ==> RowListed(stateSets, moreTargets, first,
                             if stateSets[targetIndex] in list then list else list + [stateSets[targetIndex]])
    ensures ok ==> |sets| <= |moreSets| && forall e :: 0 <= e < first ==> moreSources[e] == sources[e] && moreSets[e] == sets[e]
    ensures !ok ==> TooManyMoves(c.states) || spent + IndexIn(list, stateSets[targetIndex]) > MAX_OPTIMIZATION_STEPS
  {
    hide States, Edges, EdgeMoves, TooManyMoves, IndexIn, Covers, HasEdge;
    var g := c.states;
    DistinctStates(c, stateSets, accepting);
    SameIndex(stateSets, targets, first, list, targetIndex);
    ListedAfter(stateSets, targets, first, list, targetIndex, stateSets);
    IndexBounds(targets[first..], targetIndex);
    moreSets, moreTargets, moreSources := sets, targets, sources;
    var edge;
    ok, edge, spentAfter := FindEdge(targets, first, targetIndex, spent);
    if !ok {
      return;
    }
    if edge < |sets| {
      EdgeMerged(g, stateSets, sources, sets, targets, next, first, covered, class0, edge);
      moreSets := sets[edge := sets[edge] + class0];
    } else {
      EdgeAppended(g, stateSets, sources, sets, targets, next, first, covered, class0, targetIndex);
      if |sets| >= MAX_DFA_TRANSITIONS {
        ManyMoves(c, stateSets, accepting, sources + [next], sets + [class0], targets + [targetIndex]);
        ok := false;
        return;
      }
      moreSets := sets + [class0];
      moreTargets := targets + [targetIndex];
      moreSources := sources + [next];
    }
  }

  lemma DistinctStates(c: Compiled, stateSets: StateSets, accepting: seq<bool>)
    requires States(c, stateSets, accepting)
    ensures Distinct(stateSets)
  {
  }

  lemma IndexBounds(list: seq<nat>, x: nat)
    ensures var i := IndexIn(list, x);
            i <= |list| && (i < |list| ==> list[i] == x) && forall j :: 0 <= j < i ==> list[j] != x
  {
    hide IndexIn;
  }

  /** The row of state `next` with its first `i` classes dealt with; its edges begin at `first`. */
  ghost predicate RowState(c: Compiled, next: nat, i: nat, states: StateSets, accepts: seq<bool>, numbers: map<seq<nat>, nat>,
                           sets: seq<ByteClass>, targets: seq<nat>, sources: seq<nat>, first: nat)
  {
    && |c.states| > 0 && EdgesInside(c.states) && Fits(c.states, [0])
    && States(c, states, accepts) && MapAgrees(states, numbers) && next < |states| <= MAX_DFA_STATES
    && AllFit(c.states, states) && Fits(c.states, states[next])
    && first <= |sources| == |sets| == |targets| <= MAX_DFA_TRANSITIONS
    && Edges(c.states, states, sources, sets, targets)
    && var classes := ClassesOf(Outgoing(states[next], c.states));
    && i <= |classes| && SplitAlong(classes, Outgoing(states[next], c.states))
    && RowSoFar(sources, sets, next, first, classes[..i])
    && RowListed(states, targets, first, RowTargets(c.states, states[next], classes[..i]))
  }

  /** One class of a row: it leads somewhere, and an edge is shared or added. */
  method AddClass(c: Compiled, next: nat, class0: ByteClass, ghost i: nat,
                  stateSets: StateSets, accepting: seq<bool>, stateMap: map<seq<nat>, nat>,
                  sets: seq<ByteClass>, targets: seq<nat>, ghost sources: seq<nat>, first: nat, spent: nat, ghost base: nat)
    returns (ok: bool, states: StateSets, accepts: seq<bool>, numbers: map<seq<nat>, nat>,
             moreSets: seq<ByteClass>, moreTargets: seq<nat>, ghost moreSources: seq<nat>, spentAfter: nat)
    requires RowState(c, next, i, stateSets, accepting, stateMap, sets, targets, sources, first)
    requires i < |ClassesOf(Outgoing(stateSets[next], c.states))| && class0 == ClassesOf(Outgoing(stateSets[next], c.states))[i]
    requires spent == PaidBefore(c.states, stateSets, next, i, base) <= MAX_OPTIMIZATION_STEPS
    ensures ok ==> RowState(c, next, i + 1, states, accepts, numbers, moreSets, moreTargets, moreSources, first)
    ensures ok ==> stateSets <= states && |sets| <= |moreSets|
    ensures ok ==> forall e :: 0 <= e < first ==> moreSources[e] == sources[e] && moreSets[e] == sets[e]
    ensures ok ==> spentAfter == PaidBefore(c.states, states, next, i + 1, base) <= MAX_OPTIMIZATION_STEPS
    ensures !ok ==> Overtaxes(c.states, base)
  {
    hide States, Edges, RowSoFar, MapAgrees, Reachable, EdgeMoves, SplitAlong, Outgoing, TooManyStates,
         TooManyMoves, EdgesInside, Fits, AllFit, ClosureCharges, ClassCharges,
         ClassesOf, TargetsOf, ClassTarget, RowTargets, TooCostly, Within, PaidBefore, IndexIn, RowListed;
    var g := c.states;
    var from := stateSets[next];
    FitAt(g, stateSets, next);
    ghost var classes := ClassesOf(Outgoing(from, g));
    ghost var list := RowTargets(g, from, classes[..i]);
    states, accepts, numbers := stateSets, accepting, stateMap;
    moreSets, moreTargets, moreSources := sets, targets, sources;
    StateAt(c, stateSets, accepting, next);
    PaidWithin(c, stateSets, accepting, next, i, base);
    ClassCosts(g, from, classes[..i], class0);
    ClassTargetMoves(g, from, i);
    ChargesUpTo(g, from, classes, i);
    assert classes[..i + 1] == classes[..i] + [class0];
    var closure, targetIndex;
    ok, closure, spentAfter := LeadClass(from, g, class0, spent);
    if !ok {
      return;
    }
    ok, targetIndex, states, accepts, numbers := InternState(c, closure, stateSets, accepting, stateMap);
    if !ok {
      return;
    }
    StatesFit(c, states, accepts);
    PaidKept(g, stateSets, states, next, i + 1, base);
    EdgesKeptBy(g, stateSets, states, sources, sets, targets);
    ListedAfter(stateSets, targets, first, list, targetIndex, states);
    ok, moreSets, moreTargets, moreSources, spentAfter :=
      ShareEdge(c, states, accepts, sets, targets, sources, first, classes[..i], list, class0, targetIndex, next, spentAfter);
  }

  /** The row of state `next`: its edges are appended, and the states they lead to. */
  method BuildRow(c: Compiled, next: nat, stateSets: StateSets, accepting: seq<bool>, stateMap: map<seq<nat>, nat>,
                  sets: seq<ByteClass>, targets: seq<nat>, ghost sources: seq<nat>, spent: nat, ghost base: nat)
    returns (ok: bool, states: StateSets, accepts: seq<bool>, numbers: map<seq<nat>, nat>,
             moreSets: seq<ByteClass>, moreTargets: seq<nat>, ghost moreSources: seq<nat>, spentAfter: nat)
    requires |c.states| > 0 && EdgesInside(c.states)
    requires States(c, stateSets, accepting) && MapAgrees(stateSets, stateMap) && next < |stateSets| <= MAX_DFA_STATES
    requires |sources| == |sets| == |targets| <= MAX_DFA_TRANSITIONS && Edges(c.states, stateSets, sources, sets, targets)
    requires forall e :: 0 <= e < |sources| ==> sources[e] < next
    requires Fits(c.states, [0]) && AllFit(c.states, stateSets[..next])
    requires spent == base + ClosureCharges(c.states, [0]) + RowsCharges(c.states, stateSets[..next]) <= MAX_OPTIMIZATION_STEPS
    ensures ok ==> States(c, states, accepts) && MapAgrees(states, numbers) && stateSets <= states && |states| <= MAX_DFA_STATES
    ensures ok ==> |sets| <= |moreSources| == |moreSets| == |moreTargets| <= MAX_DFA_TRANSITIONS
    ensures ok ==> Edges(c.states, states, moreSources, moreSets, moreTargets)
    ensures ok ==> forall e :: 0 <= e < |sets| ==> moreSources[e] == sources[e] && moreSets[e] == sets[e]
    ensures ok ==> forall e :: 0 <= e < |moreSources| ==> moreSources[e] < next + 1
    ensures ok ==> Row(c.states, stateSets[next], moreSources, moreSets, next, |sets|, |moreSets|)
    ensures ok ==> AllFit(c.states, states[..next + 1])
    ensures ok ==> spentAfter == base + ClosureCharges(c.states, [0]) + RowsCharges(c.states, states[..next + 1])
    ensures ok ==> spentAfter <= MAX_OPTIMIZATION_STEPS
    ensures !ok ==> Overtaxes(c.states, base)
  {
    hide States, Edges, MapAgrees, Outgoing, Row, EdgesInside, Fits, AllFit, ClosureCharges, RowsCharges, SplitWork,
         ClassesOf, TooCostly, TooLarge, Within, PaidBefore, RowState, SplitAlong;
    var g := c.states;
    states, accepts, numbers := stateSets, accepting, stateMap;
    moreSets, moreTargets, moreSources, spentAfter := sets, targets, sources, spent + 1;
    var from := stateSets[next];
    RowOpened(c, stateSets, accepting, next, base);
    if spentAfter > MAX_OPTIMIZATION_STEPS {
      ok := false;
      return;
    }
    var classes;
    ok, classes, spentAfter := SplitAlphabet(from, g, spentAfter);
    if !ok {
      return;
    }
    RowStateBegins(c, next, stateSets, accepting, stateMap, sets, targets, sources);
    for i := 0 to |classes|
      invariant RowState(c, next, i, states, accepts, numbers, moreSets, moreTargets, moreSources, |sets|)
      invariant stateSets <= states && AllFit(g, states) && |sets| <= |moreSets| == |moreSources|
      invariant forall e :: 0 <= e < |sets| ==> moreSources[e] == sources[e] && moreSets[e] == sets[e]
      invariant spentAfter == PaidBefore(g, states, next, i, base) <= MAX_OPTIMIZATION_STEPS
    {
      ok, states, accepts, numbers, moreSets, moreTargets, moreSources, spentAfter :=
        AddClass(c, next, classes[i], i, states, accepts, numbers, moreSets, moreTargets, moreSources, |sets|, spentAfter, base);
      if !ok {
        return;
      }
      RowStateSizes(c, next, i + 1, states, accepts, numbers, moreSets, moreTargets, moreSources, |sets|);
    }
    RowStateEnds(c, next, states, accepts, numbers, moreSets, moreTargets, moreSources, |sets|, base);
    ok := true;
  }

  lemma RowStateBegins(c: Compiled, next: nat, stateSets: StateSets, accepting: seq<bool>, stateMap: map<seq<nat>, nat>,
                       sets: seq<ByteClass>, targets: seq<nat>, sources: seq<nat>)
    requires |c.states| > 0 && EdgesInside(c.states) && Fits(c.states, [0])
    requires States(c, stateSets, accepting) && MapAgrees(stateSets, stateMap) && next < |stateSets| <= MAX_DFA_STATES
    requires |sources| == |sets| == |targets| <= MAX_DFA_TRANSITIONS && Edges(c.states, stateSets, sources, sets, targets)
    requires (forall e :: 0 <= e < |sources| ==> sources[e] < next) && Within(stateSets[next], c.states)
    requires SplitAlong(ClassesOf(Outgoing(stateSets[next], c.states)), Outgoing(stateSets[next], c.states))
    ensures RowState(c, next, 0, stateSets, accepting, stateMap, sets, targets, sources, |sets|)
  {
    hide States, Edges, MapAgrees, Outgoing, EdgesInside, AllFit, ClassesOf, Within, SplitAlong, RowSoFar, RowListed, RowTargets;
    StatesFit(c, stateSets, accepting);
    RowBegins(sources, sets, next);
    ListBegins(c.states, stateSets[next], stateSets, targets);
    var classes := ClassesOf(Outgoing(stateSets[next], c.states));
    assert classes[..0] == [];
  }

  lemma RowStateSizes(c: Compiled, next: nat, i: nat, states: StateSets, accepts: seq<bool>, numbers: map<seq<nat>, nat>,
                      sets: seq<ByteClass>, targets: seq<nat>, sources: seq<nat>, first: nat)
    requires RowState(c, next, i, states, accepts, numbers, sets, targets, sources, first)
    ensures next < |states| && AllFit(c.states, states) && |sets| == |sources|
  {
    hide States, Edges, MapAgrees, Outgoing, EdgesInside, AllFit, ClassesOf, Within, SplitAlong, RowSoFar, RowListed, RowTargets, Fits;
  }

  /** With all classes dealt with the row is complete, and all of it has been charged. */
  lemma RowStateEnds(c: Compiled, next: nat, states: StateSets, accepts: seq<bool>, numbers: map<seq<nat>, nat>,
                     sets: seq<ByteClass>, targets: seq<nat>, sources: seq<nat>, first: nat, base: nat)
    requires next < |states| && Within(states[next], c.states)
    requires RowState(c, next, |ClassesOf(Outgoing(states[next], c.states))|, states, accepts, numbers, sets, targets, sources, first)
    ensures Fits(c.states, [0]) && AllFit(c.states, states) && AllFit(c.states, states[..next + 1]) && |c.states| > 0
    ensures States(c, states, accepts) && MapAgrees(states, numbers) && |states| <= MAX_DFA_STATES
    ensures first <= |sources| == |sets| == |targets| <= MAX_DFA_TRANSITIONS && Edges(c.states, states, sources, sets, targets)
    ensures Row(c.states, states[next], sources, sets, next, first, |sets|)
    ensures forall e :: 0 <= e < |sources| ==> sources[e] < next + 1
    ensures PaidBefore(c.states, states, next, |ClassesOf(Outgoing(states[next], c.states))|, base) ==
            base + ClosureCharges(c.states, [0]) + RowsCharges(c.states, states[..next + 1])
  {
    hide States, Edges, MapAgrees, Outgoing, EdgesInside, AllFit, ClassesOf, Within, SplitAlong, RowSoFar, RowListed, RowTargets,
         Row, PaidBefore, RowsCharges, ClosureCharges, Fits;
    var classes := ClassesOf(Outgoing(states[next], c.states));
    assert classes[..|classes|] == classes;
    RowPaid(c, states, accepts, next, base);
    RowCompleted(c.states, states[next], classes, sources, sets, next, first);
  }

  method BuildDfa(c: Compiled, spent: nat) returns (r: Option<Program>, ghost table: StateSets, ghost sources: seq<nat>)
    requires |c.states| > 0 && EdgesInside(c.states) && spent <= MAX_OPTIMIZATION_STEPS
    ensures r.Some? ==> Simulates(r.value, c, table, sources)
    ensures r.None? <==> Overtaxes(c.states, spent)
  {
    hide States, Edges, Finished, MapAgrees, IsClosure, TooLarge, Row, EdgesInside, Simulates, Fits, AllFit, ClosureCharges,
         RowsCharges, TooCostly, Within, Reachable;
    var g := c.states;
    table, sources := [], [];
    FitsStart(g);
    StartFits(g);
    var ok, start, paid := ComputeClosure([0], g, spent);
    if !ok {
      StartTooCostly(g, spent);
      return None, table, sources;
    }
    FirstState(c, start);
    var stateSets, accepting := [start], [c.accept in start];
    var stateMap: map<seq<nat>, nat> := map[start := 0];
    MapOfOne(start);
    var offsets: seq<nat>, counts: seq<nat>, sets: seq<ByteClass>, targets: seq<nat> := [], [], [], [];
    NoRows(g, stateSets);
    NothingPaid(g, stateSets);
    var next := 0;
    // The ordered states are also the queue of those whose row is still missing.
    while next < |stateSets|
      invariant next <= |stateSets| <= MAX_DFA_STATES && |offsets| == |counts| == next
      invariant |sources| == |sets| == |targets| <= MAX_DFA_TRANSITIONS
      invariant States(c, stateSets, accepting) && MapAgrees(stateSets, stateMap)
      invariant Edges(g, stateSets, sources, sets, targets)
      invariant forall e :: 0 <= e < |sources| ==> sources[e] < next
      invariant Finished(g, stateSets, sources, sets, offsets, counts, |sets|)
      invariant AllFit(g, stateSets[..next])
      invariant paid == spent + ClosureCharges(g, [0]) + RowsCharges(g, stateSets[..next]) <= MAX_OPTIMIZATION_STEPS
      decreases MAX_DFA_STATES - next
    {
      var firstTransition := |sets|;
      ghost var before, oldSources, oldSets := stateSets, sources, sets;
      ok, stateSets, accepting, stateMap, sets, targets, sources, paid :=
        BuildRow(c, next, stateSets, accepting, stateMap, sets, targets, sources, paid, spent);
      if !ok {
        return None, table, sources;
      }
      RowFinished(g, before, oldSources, oldSets, offsets, counts, firstTransition, stateSets, sources, sets);
      offsets := offsets + [firstTransition];
      counts := counts + [|sets| - firstTransition];
      next := next + 1;
    }
    assert stateSets[..next] == stateSets;
    var program := Program(offsets, counts, sets, targets, accepting, c.requiresBeginning, c.requiresEnd);
    table := stateSets;
    AllRowsFinished(program, c, table, sources);
    NotTooBig(program, c, table, sources);
    NotTooCostly(program, c, table, sources, spent);
    r := Some(program);
  }

  lemma NotTooBig(p: Program, c: Compiled, stateSets: StateSets, sources: seq<nat>)
    requires Simulates(p, c, stateSets, sources) && |stateSets| <= 256 && |p.sets| <= 4096
    ensures !TooLarge(c.states)
  {
    hide Simulates, TooManyStates, TooManyMoves;
    NotTooLarge(p, c, stateSets, sources);
  }

  lemma StartFits(g: Graph)
    requires Fits(g, [0])
    ensures Within([0], g) && EdgesInside(g)
  {
  }

  lemma StartTooCostly(g: Graph, spent: nat)
    requires |g| > 0 && Fits(g, [0]) && spent + ClosureCharges(g, [0]) > MAX_OPTIMIZATION_STEPS
    ensures TooCostly(g, spent)
  {
    hide ClosureCharges, Fits;
    var states: StateSets := [];
    assert Distinct(states) && AllReachable(g, states) && AllFit(g, states) && RowsCharges(g, states) == 0;
  }

  lemma NothingPaid(g: Graph, stateSets: StateSets)
    ensures AllFit(g, stateSets[..0]) && RowsCharges(g, stateSets[..0]) == 0
  {
  }

  /** The work before the first class of a row. */
  lemma RowOpened(c: Compiled, stateSets: StateSets, accepting: seq<bool>, next: nat, spent: nat)
    requires States(c, stateSets, accepting) && EdgesInside(c.states) && |c.states| > 0 && next < |stateSets|
    ensures Fits(c.states, [0]) && AllFit(c.states, stateSets) && Fits(c.states, stateSets[next])
    ensures Within(stateSets[next], c.states)
    ensures var base := spent + ClosureCharges(c.states, [0]) + RowsCharges(c.states, stateSets[..next]);
            var work := 1 + |stateSets[next]| + SplitWork(Outgoing(stateSets[next], c.states));
            && PaidBefore(c.states, stateSets, next, 0, spent) == base + work
            && (base + work > MAX_OPTIMIZATION_STEPS ==> TooCostly(c.states, spent))
  {
    hide EdgesInside, ClosureCharges, RowsCharges, States, Reachable, Outgoing, ClassesOf, ClassesCharges, TooCostly, SplitWork;
    var g, from := c.states, stateSets[next];
    StatesFit(c, stateSets, accepting);
    RowsUpTo(g, stateSets, next);
    CostlyHere(c, stateSets, accepting, next + 1, spent);
    NoClassesYet(g, from, ClassesOf(Outgoing(from, g)));
  }

  lemma NoClassesYet(g: Graph, from: seq<nat>, classes: seq<ByteClass>)
    requires Fits(g, from)
    ensures ClassesCharges(g, from, classes[..0]) == 0 && RowTargets(g, from, classes[..0]) == []
  {
  }

  lemma ListBegins(g: Graph, from: seq<nat>, stateSets: StateSets, targets: seq<nat>)
    requires Fits(g, from)
    ensures RowListed(stateSets, targets, |targets|, RowTargets(g, from, []))
  {
  }

  lemma ClassCosts(g: Graph, from: seq<nat>, earlier: seq<ByteClass>, class0: ByteClass)
    requires Fits(g, from)
    ensures Within(from, g) && EdgesInside(g) && Within(TargetsOf(Outgoing(from, g), class0), g)
    ensures ClassTarget(g, from, class0) == ClosureOf(g, TargetsOf(Outgoing(from, g), class0))
    ensures ClassCharges(g, from, earlier, class0) ==
            1 + |from| + |Outgoing(from, g)| + ClosureCharges(g, TargetsOf(Outgoing(from, g), class0)) +
            IndexIn(RowTargets(g, from, earlier), ClassTarget(g, from, class0))
  {
    hide EdgesInside, Outgoing, ClosureCharges, IndexIn;
    TargetsInside(g, from, class0);
  }

  /** States found later do not change what was paid. */
  lemma PaidKept(g: Graph, stateSets: StateSets, more: StateSets, next: nat, i: nat, spent: nat)
    requires |g| > 0 && Fits(g, [0]) && next < |stateSets| && stateSets <= more && AllFit(g, more) && AllFit(g, stateSets)
    requires i <= |ClassesOf(Outgoing(stateSets[next], g))|
    ensures PaidBefore(g, more, next, i, spent) == PaidBefore(g, stateSets, next, i, spent)
  {
    hide Fits, ClosureCharges, RowsCharges, Outgoing, ClassesOf, ClassesCharges, SplitWork;
    assert more[..next] == stateSets[..next];
  }

  lemma RowPaid(c: Compiled, stateSets: StateSets, accepting: seq<bool>, next: nat, spent: nat)
    requires States(c, stateSets, accepting) && EdgesInside(c.states) && |c.states| > 0 && next < |stateSets|
    ensures Fits(c.states, [0]) && AllFit(c.states, stateSets) && AllFit(c.states, stateSets[..next + 1])
    ensures PaidBefore(c.states, stateSets, next, |ClassesOf(Outgoing(stateSets[next], c.states))|, spent) ==
            spent + ClosureCharges(c.states, [0]) + RowsCharges(c.states, stateSets[..next + 1])
  {
    hide EdgesInside, ClosureCharges, RowsCharges, States, Reachable, Outgoing, ClassesOf, ClassesCharges, SplitWork;
    var g, from := c.states, stateSets[next];
    StatesFit(c, stateSets, accepting);
    RowsUpTo(g, stateSets, next);
    var classes := ClassesOf(Outgoing(from, g));
    assert classes[..|classes|] == classes;
  }

  // ---------- work alone can be too much ----------

  /** One state with many empty moves to itself: a single reachable set and no move at all. */
  function Whirl(n: nat): Graph {
    [State(seq(n, _ => 0), [])]
  }

  lemma {:induction false} WhirlStays(n: nat, s: nat, t: nat, k: nat)
    requires s == 0 && EpsilonPath(Whirl(n), s, t, k)
    ensures t == 0
    decreases k
  {
    if k == 0 {
    } else {
      var e: nat :| HasEpsilon(Whirl(n), s, e) && EpsilonPath(Whirl(n), e, t, k - 1);
      assert Whirl(n)[0].epsilons == seq(n, _ => 0);
      WhirlStays(n, e, t, k - 1);
    }
  }

  lemma WhirlMovesNowhere(n: nat, q: nat, b: Byte, t: nat)
    ensures !MovesTo(Whirl(n), q, b, t)
  {
  }

  lemma WhirlArrives(n: nat, w: Text, t: nat)
    ensures Arrives(Whirl(n), w, t) ==> t == 0 && w == []
  {
    hide MovesTo;
    if w == [] {
      if Arrives(Whirl(n), w, t) {
        var k: nat :| EpsilonPath(Whirl(n), 0, t, k);
        WhirlStays(n, 0, t, k);
      }
    } else {
      var last := w[|w| - 1];
      forall q: nat ensures !MovesTo(Whirl(n), q, last, t) {
        WhirlMovesNowhere(n, q, last, t);
      }
    }
  }

  lemma WhirlReaches(n: nat, s: seq<nat>)
    requires Reachable(Whirl(n), s)
    ensures s == [0]
  {
    hide Arrives, StrictlySorted;
    var w :| Tracks(Whirl(n), w, s);
    forall t: nat | t in s ensures t == 0 {
      WhirlArrives(n, w, t);
    }
    var t := s[0];
    assert t in s;
    OneState(s);
  }

  lemma OneState(s: seq<nat>)
    requires StrictlySorted(s) && s != [] && forall t: nat :: t in s ==> t == 0
    ensures s == [0]
  {
    var ascends := |s| > 1 ==> s[0] < s[1];
    assert ascends;
    forall i | 0 <= i < |s| ensures s[i] == 0 {
      var t := s[i];
      assert t in s;
    }
  }

  /** The third reason is not contained in the other two. */
  lemma CostAloneDeclines()
    ensures EdgesInside(Whirl(600_000)) && !TooLarge(Whirl(600_000)) && TooCostly(Whirl(600_000), 0)
  {
    hide Reachable, IsMove, ClosureCharges, EdgesInside, Fits;
    var g := Whirl(600_000);
    WhirlInside(600_000);
    forall sets: set<seq<nat>> | forall s :: s in sets ==> Reachable(g, s) ensures |sets| <= 256 {
      forall s | s in sets ensures s in {[0]} {
        WhirlReaches(600_000, s);
      }
      SubsetCount(sets, {[0]});
    }
    forall moves: set<(seq<nat>, seq<nat>)> | forall m :: m in moves ==> IsLiveMove(g, m) ensures |moves| <= 4096 {
      forall m | m in moves ensures m in {([0], [0])} {
        WhirlReaches(600_000, m.0);
        WhirlReaches(600_000, m.1);
      }
      SubsetCount(moves, {([0], [0])});
    }
    FitsStart(g);
    WhirlCharges(600_000);
    StartTooCostly(g, 0);
  }

  lemma WhirlInside(n: nat)
    ensures EdgesInside(Whirl(n)) && |Whirl(n)| == 1
  {
  }

  lemma WhirlCharges(n: nat)
    requires Fits(Whirl(n), [0])
    ensures ClosureCharges(Whirl(n), [0]) == 1 + 2 * n
  {
    hide EdgesInside, StrictlySorted, EpsilonReaches;
    var g := Whirl(n);
    var c := ClosureOf(g, [0]);
    EpsilonStays(g, 0);
    assert ReachedFrom(g, [0], 0);
    forall t: nat | t in c ensures t == 0 {
      var i :| 0 <= i < |c| && c[i] == t;
    }
    assert 0 in c;
    OneState(c);
    assert c[..0] == [] && |g[0].epsilons| == n;
    assert EpsilonsOf(g, c[..0]) == 0;
  }

  lemma MapOfOne(start: seq<nat>)
    ensures MapAgrees([start], map[start := 0])
  {
  }

  lemma MapKnows(stateSets: StateSets, stateMap: map<seq<nat>, nat>, s: seq<nat>)
    requires MapAgrees(stateSets, stateMap)
    ensures s in stateMap ==> stateMap[s] < |stateSets| && stateSets[stateMap[s]] == s
  {
  }

  lemma NoRows(g: Graph, stateSets: StateSets)
    ensures Edges(g, stateSets, [], [], []) && Finished(g, stateSets, [], [], [], [], 0)
  {
  }

  lemma StateAt(c: Compiled, stateSets: StateSets, accepting: seq<bool>, i: nat)
    requires States(c, stateSets, accepting) && i < |stateSets|
    ensures |accepting| == |stateSets| && Within(stateSets[i], c.states) && Reachable(c.states, stateSets[i])
  {
  }

  lemma RowBegins(sources: seq<nat>, sets: seq<ByteClass>, i: nat)
    requires |sources| == |sets| && forall e :: 0 <= e < |sources| ==> sources[e] < i
    ensures RowSoFar(sources, sets, i, |sets|, [])
  {
  }

  lemma AllRowsFinished(p: Program, c: Compiled, stateSets: StateSets, sources: seq<nat>)
    requires States(c, stateSets, p.accepting) && Edges(c.states, stateSets, sources, p.sets, p.targets)
    requires Finished(c.states, stateSets, sources, p.sets, p.offsets, p.counts, |p.sets|)
    requires |p.offsets| == |stateSets|
    requires p.requiresBeginning == c.requiresBeginning && p.requiresEnd == c.requiresEnd
    ensures Simulates(p, c, stateSets, sources)
  {
    hide States, Edges, Rows;
  }
}
