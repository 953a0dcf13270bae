/**
 One row of the subset construction: the classes a set of states splits the bytes into,
 where each class leads, and what finding that out charges.
 */
module AsciiDfaRows {
  import opened Words
  import opened AsciiNfa
  import opened AsciiNfaCompiler
  import opened AsciiClosure
  import opened AsciiAlphabet
  import opened AsciiDfa
  import opened SortedLists

  // ---------- the transitions that leave a set of states ----------

  ghost function Outgoing(states: seq<nat>, g: Graph): seq<Transition>
    requires Within(states, g)
  {
    if states == [] then []
    else
      var front := states[..|states| - 1];
      Outgoing(front, g) + g[states[|states| - 1]].transitions
  }

  lemma {:induction false} OutgoingMembers(states: seq<nat>, g: Graph, bytes: ByteClass, t: nat)
    requires Within(states, g)
    ensures Transition(bytes, t) in Outgoing(states, g) <==> exists s :: s in states && HasTransition(g, s, bytes, t)
  {
    if states == [] {
    } else {
      var front, s := states[..|states| - 1], states[|states| - 1];
      assert states == front + [s];
      OutgoingMembers(front, g, bytes, t);
      var e := Transition(bytes, t);
      assert e in Outgoing(states, g) <==> e in Outgoing(front, g) || e in g[s].transitions;
      if HasTransition(g, s, bytes, t) {
        assert s in states;
      }
      if q :| q in front && HasTransition(g, q, bytes, t) {
        assert q in states;
      }
    }
  }

  /** One of the transitions is taken on `b`. */
  ghost predicate Labels(transitions: seq<Transition>, b: Byte) {
    exists i :: 0 <= i < |transitions| && b in transitions[i].bytes
  }

  /** One of the transitions that share a byte with the class leads to `t`. */
  ghost predicate Leads(transitions: seq<Transition>, class0: ByteClass, t: nat) {
    exists i :: 0 <= i < |transitions| && !(class0 !! transitions[i].bytes) && transitions[i].target == t
  }

  /** Disjoint classes that cover what the transitions cover and lie inside or outside each of them. */
  ghost predicate SplitAlong(classes: seq<ByteClass>, transitions: seq<Transition>) {
    && Apart(classes) && NoneEmpty(classes)
    && (forall i :: 0 <= i < |transitions| ==> Respects(classes, transitions[i].bytes))
    && (forall b :: Covers(classes, b) <==> Labels(transitions, b))
  }

  lemma LabelsOneMore(transitions: seq<Transition>, e: Transition, b: Byte)
    ensures Labels(transitions + [e], b) <==> Labels(transitions, b) || b in e.bytes
  {
    var more := transitions + [e];
    if i :| 0 <= i < |transitions| && b in transitions[i].bytes {
      assert b in more[i].bytes;
    }
    if b in e.bytes {
      assert b in more[|transitions|].bytes;
    }
    if i :| 0 <= i < |more| && b in more[i].bytes {
      assert i < |transitions| ==> b in transitions[i].bytes;
    }
  }

  lemma LeadsOneMore(transitions: seq<Transition>, e: Transition, class0: ByteClass, t: nat)
    ensures Leads(transitions + [e], class0, t) <==>
            Leads(transitions, class0, t) || (!(class0 !! e.bytes) && e.target == t)
  {
    var more := transitions + [e];
    if i :| 0 <= i < |transitions| && !(class0 !! transitions[i].bytes) && transitions[i].target == t {
      assert more[i] == transitions[i];
    }
    assert more[|transitions|] == e;
    if i :| 0 <= i < |more| && !(class0 !! more[i].bytes) && more[i].target == t {
      assert i < |transitions| ==> transitions[i] == more[i];
    }
  }

  lemma SplitAlongOneMore(before: seq<ByteClass>, after: seq<ByteClass>, transitions: seq<Transition>, e: Transition)
    requires SplitAlong(before, transitions) && Split(before, e.bytes, after)
    ensures SplitAlong(after, transitions + [e])
  {
    hide Covers, Labels, Respects, Apart, NoneEmpty;
    forall b ensures Labels(transitions + [e], b) <==> Labels(transitions, b) || b in e.bytes {
      LabelsOneMore(transitions, e, b);
    }
    forall i, b | 0 <= i < |transitions| && b in transitions[i].bytes ensures Covers(before, b) {
      LabelsHere(transitions, i, b);
    }
    forall i | 0 <= i < |transitions + [e]| ensures Respects(after, (transitions + [e])[i].bytes) {
    }
  }

  lemma LabelsHere(transitions: seq<Transition>, i: nat, b: Byte)
    requires i < |transitions| && b in transitions[i].bytes
    ensures Labels(transitions, b)
  {
  }

  // ---------- classes and destinations as functions ----------

  /** The classes the transitions split the bytes into, one transition after the other. */
  function ClassesOf(transitions: seq<Transition>): seq<ByteClass> {
    if transitions == [] then []
    else
      var front := ClassesOf(transitions[..|transitions| - 1]);
      SplitFrom(front, transitions[|transitions| - 1].bytes, 0, |front|)
  }

  /** One unit for each transition and one for each class it is compared with. */
  function SplitWork(transitions: seq<Transition>): nat {
    if transitions == [] then 0
    else
      var before := transitions[..|transitions| - 1];
      var front := ClassesOf(before);
      SplitWork(before) + 1 + SplitRounds(front, transitions[|transitions| - 1].bytes, 0, |front|)
  }

  /** The targets of the transitions that share a byte with the class, in order. */
  function TargetsOf(transitions: seq<Transition>, class0: ByteClass): seq<nat> {
    if transitions == [] then []
    else
      var e := transitions[|transitions| - 1];
      TargetsOf(transitions[..|transitions| - 1], class0) + if class0 !! e.bytes then [] else [e.target]
  }

  lemma FrontOfOneMore(transitions: seq<Transition>, e: Transition)
    ensures (transitions + [e])[..|transitions + [e]| - 1] == transitions
  {
  }

  lemma {:induction false} TargetsLead(transitions: seq<Transition>, class0: ByteClass, t: nat)
    ensures t in TargetsOf(transitions, class0) <==> Leads(transitions, class0, t)
  {
    hide Leads;
    if transitions == [] {
      LeadsNowhere(class0);
    } else {
      var front, e := transitions[..|transitions| - 1], transitions[|transitions| - 1];
      TargetsLead(front, class0, t);
      LeadsOneMore(front, e, class0, t);
      assert transitions == front + [e];
    }
  }

  lemma {:induction false} SplitWorkGrows(transitions: seq<Transition>, n: nat)
    requires n <= |transitions|
    ensures SplitWork(transitions[..n]) <= SplitWork(transitions)
    decreases |transitions|
  {
    if n == |transitions| {
      assert transitions[..n] == transitions;
    } else {
      var front := transitions[..|transitions| - 1];
      SplitWorkGrows(front, n);
      assert front[..n] == transitions[..n];
    }
  }

  /** The transitions of the first states are the first transitions. */
  lemma {:induction false} OutgoingPrefix(states: seq<nat>, g: Graph, i: nat)
    requires Within(states, g) && i <= |states|
    ensures Outgoing(states[..i], g) <= Outgoing(states, g)
    decreases |states|
  {
    if i == |states| {
      assert states[..i] == states;
    } else {
      var front := states[..|states| - 1];
      OutgoingPrefix(front, g, i);
      assert front[..i] == states[..i];
    }
  }

  lemma OutgoingOneMore(states: seq<nat>, g: Graph, i: nat)
    requires Within(states, g) && i < |states|
    ensures Outgoing(states[..i + 1], g) == Outgoing(states[..i], g) + g[states[i]].transitions
  {
    assert states[..i + 1][..i] == states[..i];
  }

  /** Partway through the transitions of state `i`. */
  lemma SeenSoFar(states: seq<nat>, g: Graph, i: nat, j: nat)
    requires Within(states, g) && i < |states| && j <= |g[states[i]].transitions|
    ensures var seen := Outgoing(states[..i], g) + g[states[i]].transitions[..j];
            && |seen| <= |Outgoing(states, g)|
            && SplitWork(seen) <= SplitWork(Outgoing(states, g))
  {
    hide SplitWork;
    var seen := Outgoing(states[..i], g) + g[states[i]].transitions[..j];
    var all := Outgoing(states, g);
    OutgoingOneMore(states, g, i);
    OutgoingPrefix(states, g, i + 1);
    assert seen == all[..|seen|];
    SplitWorkGrows(all, |seen|);
  }

  lemma WorkOfOneMore(transitions: seq<Transition>, e: Transition)
    ensures var front := ClassesOf(transitions);
            && ClassesOf(transitions + [e]) == SplitFrom(front, e.bytes, 0, |front|)
            && SplitWork(transitions + [e]) == SplitWork(transitions) + 1 + SplitRounds(front, e.bytes, 0, |front|)
  {
    hide SplitFrom, SplitRounds;
    FrontOfOneMore(transitions, e);
  }

  method SplitAlphabet(states: seq<nat>, g: Graph, spent: nat) returns (ok: bool, classes: seq<ByteClass>, spentAfter: nat)
    requires Within(states, g) && spent <= MAX_OPTIMIZATION_STEPS
    ensures ok <==> spent + |states| + SplitWork(Outgoing(states, g)) <= MAX_OPTIMIZATION_STEPS
    ensures ok ==> spentAfter == spent + |states| + SplitWork(Outgoing(states, g))
    ensures ok ==> classes == ClassesOf(Outgoing(states, g)) && SplitAlong(classes, Outgoing(states, g))
  {
    hide SplitAlong, Split, Outgoing, Within, SplitFrom, SplitRounds, ClassesOf, SplitWork;
    classes, spentAfter := [], spent;
    ghost var all := Outgoing(states, g);
    ghost var seen: seq<Transition> := [];
    NothingToSplit();
    NothingOutgoing(g);
    assert states[..0] == [];
    for i := 0 to |states|
      invariant Within(states[..i], g) && seen == Outgoing(states[..i], g)
      invariant SplitAlong(classes, seen) && classes == ClassesOf(seen)
      invariant spentAfter == spent + i + SplitWork(seen) <= MAX_OPTIMIZATION_STEPS
    {
      WithinAt(states, g, i);
      OutgoingOneMore(states, g, i);
      ghost var before := seen;
      var transitions := g[states[i]].transitions;
      assert before + transitions[..0] == before;
      SeenSoFar(states, g, i, 0);
      spentAfter := spentAfter + 1;
      if spentAfter > MAX_OPTIMIZATION_STEPS {
        return false, classes, spentAfter;
      }
      for j := 0 to |transitions|
        invariant seen == before + transitions[..j]
        invariant SplitAlong(classes, seen) && classes == ClassesOf(seen)
        invariant spentAfter == spent + i + 1 + SplitWork(seen) <= MAX_OPTIMIZATION_STEPS
      {
        SplitIsParted(classes, seen);
        WorkOfOneMore(seen, transitions[j]);
        SeenSoFar(states, g, i, j + 1);
        assert before + transitions[..j + 1] == seen + [transitions[j]];
        spentAfter := spentAfter + 1;
        if spentAfter > MAX_OPTIMIZATION_STEPS {
          return false, classes, spentAfter;
        }
        var split;
        ok, split, spentAfter := SplitClasses(classes, transitions[j].bytes, spentAfter);
        if !ok {
          return;
        }
        SplitAlongOneMore(classes, split, seen, transitions[j]);
        classes := split;
        seen := seen + [transitions[j]];
      }
      assert transitions[..|transitions|] == transitions;
    }
    assert states[..|states|] == states;
    ok := true;
  }

  lemma NothingOutgoing(g: Graph)
    ensures Within([], g) && Outgoing([], g) == [] && SplitWork([]) == 0 && ClassesOf([]) == []
  {
  }

  lemma WithinAt(states: seq<nat>, g: Graph, i: nat)
    requires Within(states, g) && i < |states|
    ensures states[i] < |g| && Within(states[..i], g) && Within(states[..i + 1], g)
  {
  }

  lemma NothingToSplit()
    ensures SplitAlong([], [])
  {
  }

  lemma SplitIsParted(classes: seq<ByteClass>, transitions: seq<Transition>)
    requires SplitAlong(classes, transitions)
    ensures Apart(classes) && NoneEmpty(classes)
  {
  }

  lemma NoTargets(class0: ByteClass)
    ensures TargetsOf([], class0) == []
  {
  }

  lemma TargetsOfOneMore(transitions: seq<Transition>, e: Transition, class0: ByteClass)
    ensures TargetsOf(transitions + [e], class0) == TargetsOf(transitions, class0) + if class0 !! e.bytes then [] else [e.target]
  {
    FrontOfOneMore(transitions, e);
  }

  /** Looks at every transition again for one class. */
  method Destinations(states: seq<nat>, g: Graph, class0: ByteClass, spent: nat)
    returns (ok: bool, destinations: seq<nat>, spentAfter: nat)
    requires Within(states, g) && spent <= MAX_OPTIMIZATION_STEPS
    ensures ok <==> spent + |states| + |Outgoing(states, g)| <= MAX_OPTIMIZATION_STEPS
    ensures ok ==> spentAfter == spent + |states| + |Outgoing(states, g)|
    ensures ok ==> destinations == TargetsOf(Outgoing(states, g), class0)
  {
    hide Outgoing, Within, TargetsOf, SplitWork;
    destinations, spentAfter := [], spent;
    ghost var seen: seq<Transition> := [];
    NothingOutgoing(g);
    NoTargets(class0);
    assert states[..0] == [];
    for i := 0 to |states|
      invariant Within(states[..i], g) && seen == Outgoing(states[..i], g)
      invariant destinations == TargetsOf(seen, class0)
      invariant spentAfter == spent + i + |seen| <= MAX_OPTIMIZATION_STEPS
    {
      WithinAt(states, g, i);
      OutgoingOneMore(states, g, i);
      ghost var before := seen;
      var transitions := g[states[i]].transitions;
      assert before + transitions[..0] == before;
      SeenSoFar(states, g, i, 0);
      spentAfter := spentAfter + 1;
      if spentAfter > MAX_OPTIMIZATION_STEPS {
        return false, destinations, spentAfter;
      }
      for j := 0 to |transitions|
        invariant seen == before + transitions[..j]
        invariant destinations == TargetsOf(seen, class0)
        invariant spentAfter == spent + i + 1 + |seen| <= MAX_OPTIMIZATION_STEPS
      {
        TargetsOfOneMore(seen, transitions[j], class0);
        SeenSoFar(states, g, i, j + 1);
        assert before + transitions[..j + 1] == seen + [transitions[j]];
        spentAfter := spentAfter + 1;
        if spentAfter > MAX_OPTIMIZATION_STEPS {
          return false, destinations, spentAfter;
        }
        if !(class0 !! transitions[j].bytes) {
          destinations := destinations + [transitions[j].target];
        }
        seen := seen + [transitions[j]];
      }
      assert transitions[..|transitions|] == transitions;
    }
    assert states[..|states|] == states;
    ok := true;
  }

  lemma LeadsNowhere(class0: ByteClass)
    ensures forall t: nat :: !Leads([], class0, t)
  {
  }

  /** Closing over the destinations of a class is the move on any of its bytes. */
  lemma ClosureIsMove(g: Graph, from: seq<nat>, classes: seq<ByteClass>, i: nat, b: Byte, destinations: seq<nat>, to: seq<nat>)
    requires Within(from, g) && SplitAlong(classes, Outgoing(from, g)) && i < |classes| && b in classes[i]
    requires forall t: nat :: t in destinations <==> Leads(Outgoing(from, g), classes[i], t)
    requires IsClosure(to, g, destinations)
    ensures IsMove(g, from, b, to)
  {
    hide Covers, Labels, Outgoing, EpsilonReaches, Apart, NoneEmpty, StrictlySorted;
    var transitions := Outgoing(from, g);
    forall t: nat | ReachedFrom(g, destinations, t) ensures MovesFrom(g, from, b, t) {
      var m :| m in destinations && EpsilonReaches(g, m, t);
      var j :| 0 <= j < |transitions| && !(classes[i] !! transitions[j].bytes) && transitions[j].target == m;
      var e := transitions[j];
      assert e in transitions;
      assert Keeps(classes[i], e.bytes);
      OutgoingMembers(from, g, e.bytes, m);
      var q :| q in from && HasTransition(g, q, e.bytes, m);
      assert MovesTo(g, q, b, t);
    }
    forall t: nat | MovesFrom(g, from, b, t) ensures ReachedFrom(g, destinations, t) {
      var q :| q in from && MovesTo(g, q, b, t);
      var bytes, m: nat :| HasTransition(g, q, bytes, m) && b in bytes && EpsilonReaches(g, m, t);
      OutgoingMembers(from, g, bytes, m);
      assert Transition(bytes, m) in transitions;
      assert Leads(transitions, classes[i], m);
    }
  }

  /** A byte on which some state moves lies in one of the classes. */
  lemma MovesAreCovered(g: Graph, from: seq<nat>, classes: seq<ByteClass>, b: Byte, t: nat)
    requires Within(from, g) && SplitAlong(classes, Outgoing(from, g)) && MovesFrom(g, from, b, t)
    ensures Covers(classes, b)
  {
    hide Outgoing, EpsilonReaches;
    var q :| q in from && MovesTo(g, q, b, t);
    var bytes, m: nat :| HasTransition(g, q, bytes, m) && b in bytes && EpsilonReaches(g, m, t);
    OutgoingMembers(from, g, bytes, m);
    var e := Transition(bytes, m);
    assert e in Outgoing(from, g);
    assert Labels(Outgoing(from, g), b);
  }

  /** A class leads from a reachable set of states to another one. */
  lemma ClassMoves(g: Graph, from: seq<nat>, classes: seq<ByteClass>, i: nat, destinations: seq<nat>, to: seq<nat>)
    requires Reachable(g, from) && Within(from, g) && SplitAlong(classes, Outgoing(from, g)) && i < |classes|
    requires forall t: nat :: t in destinations <==> Leads(Outgoing(from, g), classes[i], t)
    requires IsClosure(to, g, destinations)
    ensures EdgeMoves(g, from, classes[i], to) && Reachable(g, to)
  {
    hide Leads, Outgoing, IsClosure, IsMove, Tracks, Labels, StrictlySorted;
    forall b | b in classes[i] ensures IsMove(g, from, b, to) {
      ClosureIsMove(g, from, classes, i, b, destinations, to);
    }
    assert classes[i] != {};
    var b :| b in classes[i];
    var w :| Tracks(g, w, from);
    TracksMove(g, w, from, b, to);
    assert Covers(classes, b);
    ClassLeadsOn(Outgoing(from, g), classes[i], b, destinations, g, to);
  }

  lemma ClassLeadsOn(transitions: seq<Transition>, class0: ByteClass, b: Byte, destinations: seq<nat>, g: Graph, to: seq<nat>)
    requires Labels(transitions, b) && b in class0
    requires forall t: nat :: t in destinations <==> Leads(transitions, class0, t)
    requires IsClosure(to, g, destinations)
    ensures StrictlySorted(to) && to != []
  {
    var j :| 0 <= j < |transitions| && b in transitions[j].bytes;
    var m := transitions[j].target;
    assert Leads(transitions, class0, m);
    EpsilonStays(g, m);
    assert ReachedFrom(g, destinations, m);
  }

  lemma DestinationsInside(g: Graph, from: seq<nat>, class0: ByteClass, t: nat)
    requires EdgesInside(g) && Within(from, g) && Leads(Outgoing(from, g), class0, t)
    ensures t < |g|
  {
    hide Outgoing;
    var transitions := Outgoing(from, g);
    var i :| 0 <= i < |transitions| && !(class0 !! transitions[i].bytes) && transitions[i].target == t;
    var e := transitions[i];
    assert e in transitions;
    OutgoingMembers(from, g, e.bytes, t);
  }

  // ---------- where a row leads and what it charges ----------

  ghost predicate Fits(g: Graph, from: seq<nat>) {
    EdgesInside(g) && Within(from, g)
  }

  lemma TargetsInside(g: Graph, from: seq<nat>, class0: ByteClass)
    requires Fits(g, from)
    ensures Within(TargetsOf(Outgoing(from, g), class0), g)
  {
    hide EdgesInside, Outgoing;
    var targets := TargetsOf(Outgoing(from, g), class0);
    forall k | 0 <= k < |targets| ensures targets[k] < |g| {
      var t := targets[k];
      assert t in targets;
      TargetsLead(Outgoing(from, g), class0, t);
      DestinationsInside(g, from, class0, t);
    }
  }

  /** The set of states that a class leads to. */
  ghost function ClassTarget(g: Graph, from: seq<nat>, class0: ByteClass): (to: seq<nat>)
    requires Fits(g, from)
    ensures Within(to, g)
  {
    TargetsInside(g, from, class0);
    ClosureOf(g, TargetsOf(Outgoing(from, g), class0))
  }

  function IndexIn<T(==)>(list: seq<T>, x: T): (i: nat)
    ensures i <= |list| && (i < |list| <==> x in list)
    ensures i < |list| ==> list[i] == x
    ensures forall j :: 0 <= j < i ==> list[j] != x
  {
    if list == [] || list[0] == x then 0 else 1 + IndexIn(list[1..], x)
  }

  /** Where the classes lead, each target once, in order of appearance. */
  ghost function RowTargets(g: Graph, from: seq<nat>, classes: seq<ByteClass>): (targets: StateSets)
    requires Fits(g, from)
  {
    if classes == [] then []
    else
      var front := RowTargets(g, from, classes[..|classes| - 1]);
      var to := ClassTarget(g, from, classes[|classes| - 1]);
      if to in front then front else front + [to]
  }

  /**
   One class: itself, a look at every state and transition, the closure, and the edges
   passed over before the one that is shared or added.
   */
  ghost function ClassCharges(g: Graph, from: seq<nat>, earlier: seq<ByteClass>, class0: ByteClass): nat
    requires Fits(g, from)
  {
    TargetsInside(g, from, class0);
    1 + |from| + |Outgoing(from, g)| + ClosureCharges(g, TargetsOf(Outgoing(from, g), class0)) +
    IndexIn(RowTargets(g, from, earlier), ClassTarget(g, from, class0))
  }

  ghost function ClassesCharges(g: Graph, from: seq<nat>, classes: seq<ByteClass>): nat
    requires Fits(g, from)
  {
    if classes == [] then 0
    else
      var front := classes[..|classes| - 1];
      ClassesCharges(g, from, front) + ClassCharges(g, from, front, classes[|classes| - 1])
  }

  /** What the row of a set of states charges in all. */
  ghost function RowCharges(g: Graph, from: seq<nat>): nat
    requires Fits(g, from)
  {
    var transitions := Outgoing(from, g);
    1 + |from| + SplitWork(transitions) + ClassesCharges(g, from, ClassesOf(transitions))
  }

  lemma {:induction false} ClassesChargesGrow(g: Graph, from: seq<nat>, classes: seq<ByteClass>, n: nat)
    requires Fits(g, from) && n <= |classes|
    ensures ClassesCharges(g, from, classes[..n]) <= ClassesCharges(g, from, classes)
    decreases |classes|
  {
    hide Fits, ClassCharges;
    if n == |classes| {
      assert classes[..n] == classes;
    } else {
      var front := classes[..|classes| - 1];
      ClassesChargesGrow(g, from, front, n);
      assert front[..n] == classes[..n];
    }
  }

  /** The charges up to and including class `i`. */
  lemma ChargesUpTo(g: Graph, from: seq<nat>, classes: seq<ByteClass>, i: nat)
    requires Fits(g, from) && i < |classes|
    ensures ClassesCharges(g, from, classes[..i + 1]) ==
            ClassesCharges(g, from, classes[..i]) + ClassCharges(g, from, classes[..i], classes[i])
    ensures ClassesCharges(g, from, classes[..i + 1]) <= ClassesCharges(g, from, classes)
    ensures RowTargets(g, from, classes[..i + 1]) ==
            var front, to := RowTargets(g, from, classes[..i]), ClassTarget(g, from, classes[i]);
            if to in front then front else front + [to]
  {
    hide Fits, ClassCharges;
    assert classes[..i + 1][..i] == classes[..i];
    ClassesChargesGrow(g, from, classes, i + 1);
  }

  /** Sharing a byte with the class or not, every class of a reachable set leads to a reachable one. */
  lemma ClassTargetMoves(g: Graph, from: seq<nat>, i: nat)
    requires Fits(g, from) && Reachable(g, from)
    requires var classes := ClassesOf(Outgoing(from, g)); i < |classes| && SplitAlong(classes, Outgoing(from, g))
    ensures var to := ClassTarget(g, from, ClassesOf(Outgoing(from, g))[i]);
            EdgeMoves(g, from, ClassesOf(Outgoing(from, g))[i], to) && Reachable(g, to)
  {
    hide EdgesInside, Outgoing, ClassesOf, Leads, IsClosure, EdgeMoves, Reachable, SplitAlong;
    var transitions := Outgoing(from, g);
    var classes := ClassesOf(transitions);
    var destinations := TargetsOf(transitions, classes[i]);
    TargetsInside(g, from, classes[i]);
    forall t: nat ensures t in destinations <==> Leads(transitions, classes[i], t) {
      TargetsLead(transitions, classes[i], t);
    }
    ClassMoves(g, from, classes, i, destinations, ClosureOf(g, destinations));
  }
}
