/**
 Small graphs are never too large and never too costly: every list of states is one of a
 few, and so is every class of bytes. A program with such a graph is not declined.
 */
module AsciiSmallGraphs {
  import opened Common
  import opened Words
  import opened SortedLists
  import opened AsciiNfa
  import opened AsciiNfaGadgets
  import opened AsciiNfaCompiler
  import opened AsciiClosure
  import opened AsciiAlphabet
  import opened AsciiDfa
  import opened AsciiDfaRows
  import opened AsciiDfaCompiler
  import opened AsciiProgram
  import opened AsciiItems
  import opened AsciiLine
  import opened AsciiDirectCompiler
  import opened AsciiLoopCompiler
  import opened AsciiAdmission
  import opened AsciiVerifier

  // ---------- lists of few states ----------

  function WithLast(lists: StateSets, x: nat): (r: StateSets)
    ensures |r| == |lists| && forall i :: 0 <= i < |r| ==> r[i] == lists[i] + [x]
  {
    seq(|lists|, i requires 0 <= i < |lists| => lists[i] + [x])
  }

  /** Every ascending list of states below `n`. */
  function ListsBelow(n: nat): (lists: StateSets)
    ensures |lists| == Pow2(n)
  {
    if n == 0 then [[]] else ListsBelow(n - 1) + WithLast(ListsBelow(n - 1), n - 1)
  }

  lemma ListedWithout(s: seq<nat>, n: nat)
    requires n > 0 && s in ListsBelow(n - 1)
    ensures s in ListsBelow(n)
  {
  }

  lemma ListedWith(front: seq<nat>, n: nat)
    requires n > 0 && front in ListsBelow(n - 1)
    ensures front + [n - 1] in ListsBelow(n)
  {
    var lists := ListsBelow(n - 1);
    var i :| 0 <= i < |lists| && lists[i] == front;
    assert ListsBelow(n)[|lists| + i] == front + [n - 1];
  }

  lemma {:induction false} AscendingIsListed(s: seq<nat>, n: nat)
    requires StrictlySorted(s) && forall i :: 0 <= i < |s| ==> s[i] < n
    ensures s in ListsBelow(n)
  {
    if n == 0 {
      InhabitedBelow(s, n);
      assert ListsBelow(0)[0] == s;
    } else {
      hide ListsBelow;
      if n - 1 in s {
        LastIsGreatest(s, n);
        var front := s[..|s| - 1];
        AscendingIsListed(front, n - 1);
        ListedWith(front, n);
        assert s == front + [n - 1];
      } else {
        forall i | 0 <= i < |s| ensures s[i] < n - 1 {
          assert s[i] in s;
        }
        AscendingIsListed(s, n - 1);
        ListedWithout(s, n);
      }
    }
  }

  lemma {:induction false} ArrivesInside(g: Graph, w: Text, t: nat)
    requires EdgesInside(g) && |g| > 0 && Arrives(g, w, t)
    ensures t < |g|
  {
    hide EdgesInside;
    if w == [] {
      EpsilonInside(g, 0, t);
    } else {
      var front, b := w[..|w| - 1], w[|w| - 1];
      var q: nat :| Arrives(g, front, q) && MovesTo(g, q, b, t);
      MoveInside(g, q, b, t);
    }
  }

  lemma EpsilonInside(g: Graph, s: nat, t: nat)
    requires EdgesInside(g) && s < |g| && EpsilonReaches(g, s, t)
    ensures t < |g|
  {
    hide EdgesInside, EpsilonPath;
    var n: nat :| EpsilonPath(g, s, t, n);
    PathStaysInside(g, s, t, n);
  }

  lemma MoveInside(g: Graph, q: nat, b: Byte, t: nat)
    requires EdgesInside(g) && MovesTo(g, q, b, t)
    ensures t < |g|
  {
    hide EpsilonReaches;
    var bytes, m: nat :| HasTransition(g, q, bytes, m) && b in bytes && EpsilonReaches(g, m, t);
    assert Transition(bytes, m) in g[q].transitions;
    EpsilonInside(g, m, t);
  }

  lemma ReachableIsListed(g: Graph, s: seq<nat>)
    requires EdgesInside(g) && |g| > 0 && Reachable(g, s)
    ensures Within(s, g) && s in ListsBelow(|g|)
  {
    hide EdgesInside, Arrives, StrictlySorted, ListsBelow;
    var w :| Tracks(g, w, s);
    forall i | 0 <= i < |s| ensures s[i] < |g| {
      assert s[i] in s;
      ArrivesInside(g, w, s[i]);
    }
    AscendingIsListed(s, |g|);
  }

  /** Different reachable sets are at most as many as there are lists. */
  lemma FewReachable(g: Graph, sets: set<seq<nat>>)
    requires EdgesInside(g) && |g| > 0 && forall s :: s in sets ==> Reachable(g, s)
    ensures |sets| <= Pow2(|g|)
  {
    hide EdgesInside, Reachable, ListsBelow;
    var lists := ListsBelow(|g|);
    var all := set s | s in lists;
    MembersCount(lists);
    forall s | s in sets ensures s in all {
      ReachableIsListed(g, s);
    }
    SubsetCount(sets, all);
  }

  function PairsWith(x: seq<nat>, b: StateSets): (r: seq<(seq<nat>, seq<nat>)>)
    ensures |r| == |b| && forall i :: 0 <= i < |r| ==> r[i] == (x, b[i])
  {
    seq(|b|, i requires 0 <= i < |b| => (x, b[i]))
  }

  function Pairs(a: StateSets, b: StateSets): (r: seq<(seq<nat>, seq<nat>)>) {
    if a == [] then [] else Pairs(a[..|a| - 1], b) + PairsWith(a[|a| - 1], b)
  }

  lemma {:induction false} PairsCount(a: StateSets, b: StateSets)
    ensures |Pairs(a, b)| == |a| * |b|
  {
    if a == [] {
    } else {
      PairsCount(a[..|a| - 1], b);
      assert |a| * |b| == (|a| - 1) * |b| + |b|;
    }
  }

  lemma {:induction false} PairIsListed(a: StateSets, b: StateSets, x: seq<nat>, y: seq<nat>)
    requires x in a && y in b
    ensures (x, y) in Pairs(a, b)
  {
    var front, last := a[..|a| - 1], a[|a| - 1];
    if x == last {
      var i :| 0 <= i < |b| && b[i] == y;
      assert PairsWith(x, b)[i] == (x, y);
    } else {
      assert a == front + [last];
      PairIsListed(front, b, x, y);
    }
  }

  lemma FewMoves(g: Graph, moves: set<(seq<nat>, seq<nat>)>)
    requires EdgesInside(g) && |g| > 0 && forall m :: m in moves ==> IsLiveMove(g, m)
    ensures |moves| <= Pow2(|g|) * Pow2(|g|)
  {
    hide EdgesInside, Reachable, ListsBelow, IsMove, Pairs;
    var lists := ListsBelow(|g|);
    var pairs := Pairs(lists, lists);
    var all := set m | m in pairs;
    PairsCount(lists, lists);
    MembersCount(pairs);
    forall m | m in moves ensures m in all {
      ReachableIsListed(g, m.0);
      ReachableIsListed(g, m.1);
      PairIsListed(lists, lists, m.0, m.1);
    }
    SubsetCount(moves, all);
  }

  lemma PowersOfSix(n: nat)
    requires n <= 6
    ensures Pow2(n) <= 64 && Pow2(n) * Pow2(n) <= 4096
  {
    Pow2Monotone(n, 6);
    assert Pow2(6) == 64;
    ProductsGrow(Pow2(n), 64);
  }

  lemma ProductsGrow(a: nat, b: nat)
    requires a <= b
    ensures a * a <= b * b
  {
  }

  /** Up to six states have no more than 64 reachable sets and 4096 moves between them. */
  lemma SmallIsNotTooLarge(g: Graph)
    requires EdgesInside(g) && 0 < |g| <= 6
    ensures !TooLarge(g)
  {
    hide EdgesInside, Reachable, IsLiveMove;
    PowersOfSix(|g|);
    forall sets: set<seq<nat>> | forall s :: s in sets ==> Reachable(g, s) ensures |sets| <= 256 {
      FewReachable(g, sets);
    }
    forall moves: set<(seq<nat>, seq<nat>)> | forall m :: m in moves ==> IsLiveMove(g, m) ensures |moves| <= 4096 {
      FewMoves(g, moves);
    }
  }

  // ---------- few edges ----------

  function Transitions(g: Graph): nat {
    if g == [] then 0 else Transitions(g[..|g| - 1]) + |g[|g| - 1].transitions|
  }

  function Epsilons(g: Graph): nat {
    if g == [] then 0 else Epsilons(g[..|g| - 1]) + |g[|g| - 1].epsilons|
  }

  lemma {:induction false} OutgoingFew(from: seq<nat>, g: Graph, n: nat)
    requires StrictlySorted(from) && n <= |g| && forall i :: 0 <= i < |from| ==> from[i] < n
    ensures Within(from, g) && |Outgoing(from, g)| <= Transitions(g[..n]) && EpsilonsOf(g, from) <= Epsilons(g[..n])
    ensures |from| <= n
    decreases n
  {
    if n == 0 {
      InhabitedBelow(from, n);
    } else {
      assert g[..n][..n - 1] == g[..n - 1];
      if n - 1 in from {
        LastIsGreatest(from, n);
        OutgoingFew(from[..|from| - 1], g, n - 1);
      } else {
        forall i | 0 <= i < |from| ensures from[i] < n - 1 {
          assert from[i] in from;
        }
        OutgoingFew(from, g, n - 1);
      }
    }
  }

  lemma SortedFew(from: seq<nat>, g: Graph)
    requires StrictlySorted(from) && Within(from, g)
    ensures |Outgoing(from, g)| <= Transitions(g) && EpsilonsOf(g, from) <= Epsilons(g) && |from| <= |g|
  {
    hide Transitions, Epsilons, StrictlySorted;
    OutgoingFew(from, g, |g|);
    assert g[..|g|] == g;
  }

  // ---------- the least work ----------

  /** Without a move, a row looks at its states. */
  lemma RowOfNone(g: Graph, from: seq<nat>)
    requires Fits(g, from) && Outgoing(from, g) == []
    ensures RowCharges(g, from) == 1 + |from|
  {
  }

  /** With one, it also splits off a class and follows it. */
  lemma RowOfOne(g: Graph, from: seq<nat>, e: Transition)
    requires Fits(g, from) && Outgoing(from, g) == [e] && e.bytes != {}
    ensures Within([e.target], g)
    ensures RowCharges(g, from) == 4 + 2 * |from| + ClosureCharges(g, [e.target])
  {
    hide EdgesInside, Outgoing, ClosureCharges, ClosureOf;
    ClassOfOne(e);
    TargetsInside(g, from, e.bytes);
    assert [e.bytes][..0] == [];
    assert RowTargets(g, from, []) == [];
    assert ClassesCharges(g, from, [e.bytes]) == ClassCharges(g, from, [], e.bytes);
  }

  lemma ClassOfOne(e: Transition)
    requires e.bytes != {}
    ensures ClassesOf([e]) == [e.bytes] && SplitWork([e]) == 1 && TargetsOf([e], e.bytes) == [e.target]
  {
    assert [e][..0] == [];
    assert ClassesOf([]) == [];
    var b :| b in e.bytes;
    assert !(e.bytes !! e.bytes);
  }

  // ---------- few classes ----------

  lemma {:induction false} SplitIsSmall(classes: seq<ByteClass>, bytes: ByteClass, k: nat, n: nat)
    requires k <= n <= |classes|
    ensures |SplitFrom(classes, bytes, k, n)| <= |classes| + (n - k) + 1 && SplitRounds(classes, bytes, k, n) <= n - k
    decreases n - k
  {
    if k == n {
    } else {
      var low := classes[k] * bytes;
      if low == {} {
        SplitIsSmall(classes, bytes, k + 1, n);
      } else if bytes - low != {} {
        SplitIsSmall(Cut(classes, k, low), bytes - low, k + 1, n);
      }
    }
  }

  lemma {:induction false} ClassesFew(transitions: seq<Transition>)
    ensures |ClassesOf(transitions)| < Pow2(|transitions|) && SplitWork(transitions) < Pow2(|transitions|)
  {
    hide SplitFrom, SplitRounds;
    if transitions == [] {
    } else {
      var before := transitions[..|transitions| - 1];
      ClassesFew(before);
      var front := ClassesOf(before);
      SplitIsSmall(front, transitions[|transitions| - 1].bytes, 0, |front|);
    }
  }

  lemma {:induction false} TargetsFew(transitions: seq<Transition>, class0: ByteClass)
    ensures |TargetsOf(transitions, class0)| <= |transitions|
  {
    if transitions == [] {
    } else {
      TargetsFew(transitions[..|transitions| - 1], class0);
    }
  }

  lemma {:induction false} RowTargetsFew(g: Graph, from: seq<nat>, classes: seq<ByteClass>)
    requires Fits(g, from)
    ensures |RowTargets(g, from, classes)| <= |classes|
  {
    hide Fits, ClassTarget;
    if classes == [] {
    } else {
      RowTargetsFew(g, from, classes[..|classes| - 1]);
    }
  }

  // ---------- little work ----------

  /** Up to six states, five transitions and ten empty moves. */
  ghost predicate Small(g: Graph) {
    EdgesInside(g) && 0 < |g| <= 6 && Transitions(g) <= 5 && Epsilons(g) <= 10
  }

  lemma ClosureIsCheap(g: Graph, from: seq<nat>)
    requires Small(g) && Within(from, g)
    ensures ClosureCharges(g, from) <= |from| + 20
  {
    hide EdgesInside, Transitions, Epsilons, StrictlySorted, ReachedFrom;
    var closure := ClosureOf(g, from);
    SortedFew(closure, g);
  }

  lemma ClassIsCheap(g: Graph, from: seq<nat>, earlier: seq<ByteClass>, class0: ByteClass)
    requires Small(g) && Fits(g, from) && StrictlySorted(from) && |earlier| <= 31
    ensures ClassCharges(g, from, earlier, class0) <= 68
  {
    hide EdgesInside, Transitions, Epsilons, StrictlySorted, Outgoing, TargetsOf, ClosureCharges, RowTargets, IndexIn, Within;
    SortedFew(from, g);
    TargetsInside(g, from, class0);
    TargetsFew(Outgoing(from, g), class0);
    ClosureIsCheap(g, TargetsOf(Outgoing(from, g), class0));
    RowTargetsFew(g, from, earlier);
  }

  lemma {:induction false} ClassesAreCheap(g: Graph, from: seq<nat>, classes: seq<ByteClass>)
    requires Small(g) && Fits(g, from) && StrictlySorted(from) && |classes| <= 31
    ensures ClassesCharges(g, from, classes) <= 68 * |classes|
  {
    hide Small, Fits, StrictlySorted, ClassCharges;
    if classes == [] {
    } else {
      var front := classes[..|classes| - 1];
      ClassesAreCheap(g, from, front);
      ClassIsCheap(g, from, front, classes[|classes| - 1]);
    }
  }

  lemma RowIsCheap(g: Graph, from: seq<nat>)
    requires Small(g) && Fits(g, from) && StrictlySorted(from)
    ensures RowCharges(g, from) <= 2200
  {
    hide EdgesInside, Transitions, Epsilons, StrictlySorted, Outgoing, ClassesOf, SplitWork, ClassesCharges, Within, Pow2;
    var transitions := Outgoing(from, g);
    SortedFew(from, g);
    ClassesFew(transitions);
    Pow2Monotone(|transitions|, 5);
    ThirtyTwo();
    ClassesAreCheap(g, from, ClassesOf(transitions));
  }

  lemma ThirtyTwo()
    ensures Pow2(5) == 32
  {
  }

  lemma {:induction false} RowsAreCheap(g: Graph, states: StateSets)
    requires Small(g) && AllFit(g, states) && AllReachable(g, states)
    ensures RowsCharges(g, states) <= 2200 * |states|
  {
    hide Small, Fits, RowCharges;
    if states == [] {
    } else {
      var front, last := states[..|states| - 1], states[|states| - 1];
      assert Reachable(g, last);
      assert AllReachable(g, front);
      RowsAreCheap(g, front);
      RowIsCheap(g, last);
    }
  }

  lemma SmallIsNotTooCostly(g: Graph)
    requires Small(g)
    ensures !TooCostly(g, 400_000)
  {
    hide EdgesInside, Transitions, Epsilons, Fits, RowsCharges, ClosureCharges, Reachable;
    PowersOfSix(|g|);
    forall states | Distinct(states) && AllReachable(g, states) && AllFit(g, states)
      ensures RowsCharges(g, states) <= 2200 * 64
    {
      RowsAreCheap(g, states);
      DistinctCount(states);
      FewReachable(g, set s | s in states);
    }
    if Fits(g, [0]) {
      StartIsCheap(g);
    }
  }

  lemma StartIsCheap(g: Graph)
    requires Small(g) && Fits(g, [0])
    ensures ClosureCharges(g, [0]) <= 21
  {
    hide EdgesInside, Transitions, Epsilons, ClosureCharges;
    ClosureIsCheap(g, [0]);
  }

  // ---------- the edges of a compiled graph ----------

  /** How far a graph has grown: its states, transitions and empty moves. */
  ghost predicate Measures(g: Graph, states: nat, transitions: nat, epsilons: nat) {
    EdgesInside(g) && |g| == states && Transitions(g) == transitions && Epsilons(g) == epsilons
  }

  lemma {:induction false} CountUpdate(g: Graph, s: nat, state: State)
    requires s < |g|
    ensures Transitions(g[s := state]) == Transitions(g) - |g[s].transitions| + |state.transitions|
    ensures Epsilons(g[s := state]) == Epsilons(g) - |g[s].epsilons| + |state.epsilons|
    decreases |g|
  {
    var n := |g| - 1;
    var h := g[s := state];
    if s == n {
      assert h[..n] == g[..n];
    } else {
      CountUpdate(g[..n], s, state);
      assert h[..n] == g[..n][s := state];
    }
  }

  lemma StateMeasures(g: Graph, n: nat, t: nat, e: nat)
    requires Measures(g, n, t, e)
    ensures Measures(WithState(g), n + 1, t, e)
  {
    assert WithState(g)[..|g|] == g;
  }

  lemma TransitionMeasures(g: Graph, s: nat, bytes: ByteClass, target: nat, n: nat, t: nat, e: nat)
    requires Measures(g, n, t, e) && s < n && target < n
    ensures Measures(WithTransition(g, s, bytes, target), n, t + 1, e)
  {
    hide Transitions, Epsilons;
    CountUpdate(g, s, State(g[s].epsilons, g[s].transitions + [Transition(bytes, target)]));
  }

  lemma EpsilonMeasures(g: Graph, s: nat, target: nat, n: nat, t: nat, e: nat)
    requires Measures(g, n, t, e) && s < n && target < n
    ensures Measures(WithEpsilon(g, s, target), n, t, e + 1)
  {
    hide Transitions, Epsilons;
    CountUpdate(g, s, State(g[s].epsilons + [target], g[s].transitions));
  }

  lemma SetMeasures(g: Graph, s: nat, bytes: ByteClass, n: nat, t: nat, e: nat)
    requires Measures(g, n, t, e) && s < n
    ensures Measures(WithSet(g, s, bytes), n + 1, t + 1, e)
  {
    hide Measures, WithTransition;
    StateMeasures(g, n, t, e);
    assert |g| == n by {
      MeasuresStates(g, n, t, e);
    }
    TransitionMeasures(WithState(g), s, bytes, n, n + 1, t, e);
  }

  lemma MeasuresStates(g: Graph, n: nat, t: nat, e: nat)
    requires Measures(g, n, t, e)
    ensures |g| == n
  {
  }

  lemma OpenLoopMeasures(g: Graph, s: nat, bytes: ByteClass, n: nat, t: nat, e: nat)
    requires Measures(g, n, t, e) && s < n
    ensures Measures(WithOpenLoop(g, s, bytes), n + 2, t + 1, e + 3)
  {
    hide Measures, WithSet, WithEpsilon;
    MeasuresStates(g, n, t, e);
    StateMeasures(g, n, t, e);
    EpsilonMeasures(WithState(g), s, n, n + 1, t, e);
    var left := WithEpsilon(WithState(g), s, n);
    MeasuresStates(left, n + 1, t, e + 1);
    SetMeasures(left, s, bytes, n + 1, t, e + 1);
    var entered := WithSet(left, s, bytes);
    MeasuresStates(entered, n + 2, t + 1, e + 1);
    EpsilonMeasures(entered, n + 1, s, n + 2, t + 1, e + 1);
    EpsilonMeasures(WithEpsilon(entered, n + 1, s), n + 1, n, n + 2, t + 1, e + 2);
  }

  lemma {:induction false} CopiesMeasure(g: Growing, bytes: ByteClass, m: nat, n: nat, t: nat, e: nat)
    requires g.current < |g.states| && Measures(g.states, n, t, e)
    ensures Measures(WithCopies(g, bytes, m).states, n + m, t + m, e)
  {
    hide Measures, WithSet;
    if m == 0 {
    } else {
      CopiesMeasure(g, bytes, m - 1, n, t, e);
      var h := WithCopies(g, bytes, m - 1);
      MeasuresStates(h.states, n + m - 1, t + m - 1, e);
      SetMeasures(h.states, h.current, bytes, n + m - 1, t + m - 1, e);
    }
  }

  lemma {:induction false} OptionalCopiesMeasure(g: Growing, exit: nat, bytes: ByteClass, m: nat, n: nat, t: nat, e: nat)
    requires g.current < |g.states| && exit < |g.states| && Measures(g.states, n, t, e)
    ensures Measures(WithOptionalCopies(g, exit, bytes, m).states, n + m, t + m, e + m)
  {
    hide Measures, WithSet, WithEpsilon;
    MeasuresStates(g.states, n, t, e);
    if m == 0 {
    } else {
      OptionalCopiesMeasure(g, exit, bytes, m - 1, n, t, e);
      var h := WithOptionalCopies(g, exit, bytes, m - 1);
      MeasuresStates(h.states, n + m - 1, t + m - 1, e + m - 1);
      EpsilonMeasures(h.states, h.current, exit, n + m - 1, t + m - 1, e + m - 1);
      SetMeasures(WithEpsilon(h.states, h.current, exit), h.current, bytes, n + m - 1, t + m - 1, e + m);
    }
  }

  /** No more transitions than states, and no more than two empty moves for each of them. */
  ghost predicate Lean(g: Graph) {
    EdgesInside(g) && Transitions(g) < |g| && Epsilons(g) <= 2 * (|g| - 1)
  }

  lemma MeasuredIsLean(g: Graph, n: nat, t: nat, e: nat)
    requires Measures(g, n, t, e) && t < n && e <= 2 * (n - 1)
    ensures Lean(g)
  {
  }

  lemma LeanMeasures(g: Graph) returns (t: nat, e: nat)
    requires Lean(g)
    ensures Measures(g, |g|, t, e) && t < |g| && e <= 2 * (|g| - 1)
  {
    t, e := Transitions(g), Epsilons(g);
  }

  lemma LoopIsLean(g: Growing, bytes: ByteClass, min: nat, max: int)
    requires g.current < |g.states| && Lean(g.states)
    ensures Lean(WithLoop(g, bytes, min, max).states)
  {
    hide Measures, Lean, WithCopies, WithOpenLoop, WithOptionalCopies, WithEpsilon;
    var n := |g.states|;
    var t, e := LeanMeasures(g.states);
    var copied := WithCopies(g, bytes, min);
    CopiesMeasure(g, bytes, min, n, t, e);
    if IsOpenEnded(max) {
      OpenLoopMeasures(copied.states, copied.current, bytes, n + min, t + min, e);
      MeasuredIsLean(WithLoop(g, bytes, min, max).states, n + min + 2, t + min + 1, e + 3);
    } else {
      var m := Larger(min, max) - min;
      var entered := Growing(WithState(copied.states), copied.current);
      StateMeasures(copied.states, n + min, t + min, e);
      OptionalCopiesMeasure(entered, n + min, bytes, m, n + min + 1, t + min, e);
      var left := WithOptionalCopies(entered, n + min, bytes, m);
      EpsilonMeasures(left.states, left.current, n + min, n + min + 1 + m, t + min + m, e + m);
      MeasuredIsLean(WithEpsilon(left.states, left.current, n + min), n + min + 1 + m, t + min + m, e + m + 1);
    }
  }

  lemma {:induction false} GraphIsLean(steps: seq<Step>, k: nat)
    requires k <= |steps|
    ensures Lean(WithSteps(steps, k).states)
  {
    hide Lean, WithLoop, WithSet, Measures;
    if k == 0 {
      StartIsLean();
    } else {
      GraphIsLean(steps, k - 1);
      var g := WithSteps(steps, k - 1);
      match steps[k - 1] {
        case MatchClass(charClass) =>
          var t, e := LeanMeasures(g.states);
          SetMeasures(g.states, g.current, charClass.Members(), |g.states|, t, e);
          MeasuredIsLean(WithSet(g.states, g.current, charClass.Members()), |g.states| + 1, t + 1, e);
        case LoopClass(charClass, min, max) =>
          LoopIsLean(g, charClass.Members(), min, max);
        case _ =>
      }
    }
  }

  lemma StartIsLean()
    ensures Lean([State([], [])])
  {
    var g: Graph := [State([], [])];
    assert g[..0] == [];
  }

  // ---------- small programs ----------

  lemma SmallGraphIsNotTooMuch(steps: seq<Step>)
    requires |GraphOf(steps).states| <= 6
    ensures !GraphIsTooMuch(steps)
  {
    hide TooLarge, TooCostly, WithSteps, EdgesInside, Transitions, Epsilons;
    GraphIsLean(steps, AcceptIndex(steps));
    SmallIsNotTooLarge(GraphOf(steps).states);
    SmallIsNotTooCostly(GraphOf(steps).states);
  }

  lemma {:induction false} CopiesAreStates(steps: seq<Step>, j: nat, k: nat)
    requires j <= k <= |steps|
    ensures Copies(steps, j) <= StatesNeeded(steps, k)
    decreases k
  {
    if k == 0 {
    } else if j == k {
      CopiesAreStates(steps, k - 1, k - 1);
    } else {
      CopiesAreStates(steps, j, k - 1);
    }
  }

  /** The anchors in place, an Accept, no class declared empty, and at most six states: such a program is never declined. */
  lemma SmallProgramIsAdmitted(steps: seq<Step>)
    requires AnchorsInPlace(steps) && AcceptIndex(steps) < |steps| <= 400 && !HasEmptyClass(steps)
    requires |GraphOf(steps).states| <= 6
    ensures !MayBeDeclined(steps)
  {
    hide AnchorsInPlace, HasEmptyClass, TakenDirectly, IsLoopSequence, WithSteps, GraphIsTooMuch, GoesByLine;
    SmallGraphIsNotTooMuch(steps);
    forall k: nat | k <= AcceptIndex(steps) ensures Copies(steps, k) <= 255 {
      CopiesAreStates(steps, k, AcceptIndex(steps));
    }
  }

  /** A loop that the direct kernel cannot take leads to the graph, unless the first kernel takes it. */
  lemma LoopLeadsToGraph(steps: seq<Step>, i: nat)
    requires !MayBeDeclined(steps) && !Clashes(steps) && i < AcceptIndex(steps) && steps[i].LoopClass?
    requires steps[i].min != steps[i].max && (steps[i].min > 0 || 0 <= steps[i].max < 0x7FFF_FFFF)
    ensures RouteOf(steps) == if IsLoopSequence(steps) then ByLoops else ByGraph
    ensures !IsLoopSequence(steps) ==> GraphSuits(steps, SpentOnKernels(steps))
  {
    hide MayBeDeclined, Clashes, TooLong, IsLoopSequence, GraphSuits, RouteOf;
    AdmittedLeadsOn(steps);
    RoutesMean(steps);
    assert !TakenDirectly(steps, i);
    if IsLoopSequence(steps) {
      SequenceGoesByLoops(steps);
    }
  }

  lemma SequenceGoesByLoops(steps: seq<Step>)
    requires IsLoopSequence(steps) && !MayBeDeclined(steps)
    ensures RouteOf(steps) == ByLoops
  {
    hide LoopEnd, IsLoopSequence, AnchorsInPlace, GoesByLine, TooLong, GraphIsTooMuch, HasEmptyClass;
    LoopKernel(steps);
  }

  /** `^a+b$` */
  function SomeThenOne(): seq<Step> {
    var a, b := AsciiClass({97}, false), AsciiClass({98}, false);
    [RequireBeginning, LoopClass(a, 1, MAX_INT32), MatchClass(b), RequireEnd, Accept]
  }

  /** `^a+b$` is compiled by way of the graph. */
  lemma SomeThenOneGoesByGraph()
    ensures var steps := SomeThenOne();
            && !MayBeDeclined(steps) && !Clashes(steps)
            && RouteOf(steps) == ByGraph && GraphSuits(steps, SpentOnKernels(steps))
  {
    hide MayBeDeclined, TakenDirectly, RouteOf, GraphSuits, WithSteps, Overlaps;
    var steps := SomeThenOne();
    AcceptStandsAt(steps, 4);
    StatesOfSomeThenOne();
    SmallProgramIsAdmitted(steps);
    assert CoreOf(steps)[1] == steps[2];
    assert !IsLoopSequence(steps);
    NoLoopToClashWith(steps);
    LoopLeadsToGraph(steps, 1);
  }

  lemma StatesOfSomeThenOne()
    ensures StatesNeeded(SomeThenOne(), 4) == 4 && NfaCharges(SomeThenOne()) == 16
  {
    var steps := SomeThenOne();
    AcceptStandsAt(steps, 4);
    assert ChargesOfSteps(steps, 1) == 2 && ChargesOfSteps(steps, 2) == 8 && ChargesOfSteps(steps, 3) == 11;
    assert ChargesOfSteps(steps, 4) == 13 && ChargesOfSteps(steps, 5) == 15;
    assert StatesNeeded(steps, 1) == 0 && StatesNeeded(steps, 2) == 3 && StatesNeeded(steps, 3) == 4;
  }

  lemma NoLoopToClashWith(steps: seq<Step>)
    requires forall i :: 0 <= i < |steps| ==> !IsOptionalLoop(steps[i])
    ensures !Clashes(steps)
  {
  }
}
