/**
 Closure under empty moves: the canonical sorted list of the states that a worklist
 of pending states reaches, and the work that finding it charges.
 */
module AsciiClosure {
  import opened AsciiNfa
  import opened AsciiNfaCompiler
  import opened SortedLists

  /** `t` is reached by empty moves from one of the given states. */
  ghost predicate ReachedFrom(g: Graph, from: seq<nat>, t: nat) {
    exists s :: s in from && EpsilonReaches(g, s, t)
  }

  ghost predicate IsClosure(states: seq<nat>, g: Graph, from: seq<nat>) {
    StrictlySorted(states) && forall t :: t in states <==> ReachedFrom(g, from, t)
  }

  /** Visited or pending states are reached, and nothing that is reached is forgotten. */
  ghost predicate ClosureState(g: Graph, from: seq<nat>, visited: set<nat>, pending: seq<nat>) {
    && (forall t :: t in visited || t in pending ==> t < |g| && ReachedFrom(g, from, t))
    && (forall s :: s in from ==> s in visited || s in pending)
    && (forall s: nat, t: nat :: s in visited && HasEpsilon(g, s, t) ==> t in visited || t in pending)
  }

  lemma {:induction false} VisitedIsClosed(g: Graph, from: seq<nat>, visited: set<nat>, s: nat, t: nat, n: nat)
    requires ClosureState(g, from, visited, []) && s in visited && EpsilonPath(g, s, t, n)
    ensures t in visited
    decreases n
  {
    hide ReachedFrom, HasEpsilon;
    if n == 0 {
    } else {
      var e: nat :| HasEpsilon(g, s, e) && EpsilonPath(g, e, t, n - 1);
      VisitedIsClosed(g, from, visited, e, t, n - 1);
    }
  }

  lemma ClosureComplete(g: Graph, from: seq<nat>, visited: set<nat>)
    requires ClosureState(g, from, visited, [])
    ensures forall t: nat :: t in visited <==> ReachedFrom(g, from, t)
  {
    forall t: nat | ReachedFrom(g, from, t) ensures t in visited {
      var s :| s in from && EpsilonReaches(g, s, t);
      var n: nat :| EpsilonPath(g, s, t, n);
      VisitedIsClosed(g, from, visited, s, t, n);
    }
  }

  lemma PopVisited(g: Graph, from: seq<nat>, visited: set<nat>, pending: seq<nat>)
    requires pending != [] && ClosureState(g, from, visited, pending)
    requires pending[|pending| - 1] in visited
    ensures ClosureState(g, from, visited, pending[..|pending| - 1])
  {
    hide ReachedFrom, HasEpsilon;
    PendingMembers(pending);
    var rest := pending[..|pending| - 1];
    forall s: nat, t: nat | s in visited && HasEpsilon(g, s, t) ensures t in visited || t in rest {
      assert t in visited || t in pending;
    }
    forall s | s in from ensures s in visited || s in rest {
      assert s in visited || s in pending;
    }
    forall t | t in visited || t in rest ensures t < |g| && ReachedFrom(g, from, t) {
      assert t in visited || t in pending;
    }
  }

  lemma PendingMembers(pending: seq<nat>)
    requires pending != []
    ensures forall t :: t in pending <==> t in pending[..|pending| - 1] || t == pending[|pending| - 1]
  {
    assert pending == pending[..|pending| - 1] + [pending[|pending| - 1]];
  }

  lemma VisitState(g: Graph, from: seq<nat>, visited: set<nat>, pending: seq<nat>)
    requires pending != [] && ClosureState(g, from, visited, pending) && EdgesInside(g)
    ensures pending[|pending| - 1] < |g|
    ensures var s := pending[|pending| - 1];
            ClosureState(g, from, visited + {s}, pending[..|pending| - 1] + g[s].epsilons)
  {
    var s, rest := pending[|pending| - 1], pending[..|pending| - 1];
    PendingMembers(pending);
    assert s in pending;
    var more := rest + g[s].epsilons;
    forall t | t in more ensures t < |g| && ReachedFrom(g, from, t) {
      if t in rest {
        assert t in pending;
      } else {
        assert t in g[s].epsilons;
        var a :| a in from && EpsilonReaches(g, a, s);
        assert HasEpsilon(g, s, t);
        EpsilonReachesExtends(g, a, s, t);
        assert ReachedFrom(g, from, t);
      }
    }
  }

  lemma StartOfClosure(g: Graph, from: seq<nat>)
    requires Within(from, g)
    ensures ClosureState(g, from, {}, from)
  {
    forall s | s in from ensures ReachedFrom(g, from, s) {
      EpsilonStays(g, s);
    }
  }

  lemma {:induction false} SubsetOfBelow(s: set<nat>, n: nat)
    requires forall x :: x in s ==> x < n
    ensures |s| <= n
  {
    if n == 0 {
      assert forall x :: x !in s;
      assert s == {};
    } else {
      var rest := s - {n - 1};
      SubsetOfBelow(rest, n - 1);
      if n - 1 in s {
        assert s == rest + {n - 1};
      } else {
        assert s == rest;
      }
    }
  }

  // ---------- the closure as a function ----------

  predicate Within(states: seq<nat>, g: Graph) {
    forall i :: 0 <= i < |states| ==> states[i] < |g|
  }

  lemma {:induction false} PathStaysInside(g: Graph, s: nat, t: nat, n: nat)
    requires EdgesInside(g) && s < |g| && EpsilonPath(g, s, t, n)
    ensures t < |g|
    decreases n
  {
    if n == 0 {
    } else {
      var e: nat :| HasEpsilon(g, s, e) && EpsilonPath(g, e, t, n - 1);
      PathStaysInside(g, e, t, n - 1);
    }
  }

  lemma ReachedIsInside(g: Graph, from: seq<nat>, t: nat)
    requires EdgesInside(g) && Within(from, g) && ReachedFrom(g, from, t)
    ensures t < |g|
  {
    hide EdgesInside, EpsilonPath;
    var s :| s in from && EpsilonReaches(g, s, t);
    var n: nat :| EpsilonPath(g, s, t, n);
    PathStaysInside(g, s, t, n);
  }

  ghost function ClosureOf(g: Graph, from: seq<nat>): (states: seq<nat>)
    requires EdgesInside(g) && Within(from, g)
    ensures IsClosure(states, g, from) && Within(states, g)
  {
    hide ReachedFrom, EdgesInside;
    var reached := set t: nat | 0 <= t < |g| && ReachedFrom(g, from, t);
    var states := Ascending(reached);
    assert forall i :: 0 <= i < |states| ==> states[i] in reached;
    assert forall t: nat :: ReachedFrom(g, from, t) ==> t in reached by {
      forall t: nat | ReachedFrom(g, from, t) ensures t < |g| {
        ReachedIsInside(g, from, t);
      }
    }
    states
  }

  lemma ClosureIsUnique(g: Graph, from: seq<nat>, states: seq<nat>)
    requires EdgesInside(g) && Within(from, g) && IsClosure(states, g, from)
    ensures states == ClosureOf(g, from)
  {
    hide ReachedFrom, EdgesInside;
    SortedStatesAreUnique(states, ClosureOf(g, from));
  }

  lemma SortedStatesAreUnique(a: seq<nat>, b: seq<nat>)
    requires StrictlySorted(a) && StrictlySorted(b) && forall t: nat :: t in a <==> t in b
    ensures a == b
  {
    hide StrictlySorted;
    forall x: int ensures x in a <==> x in b {
      if x in a {
        var i :| 0 <= i < |a| && a[i] == x;
        assert x in b;
      }
      if x in b {
        var i :| 0 <= i < |b| && b[i] == x;
        assert x in a;
      }
    }
    SortedListIsUnique(a, b);
  }

  // ---------- what a closure charges ----------

  ghost function MembersOf(states: seq<nat>): set<nat> {
    set t | t in states
  }

  /** The empty moves that leave the listed states. */
  function EpsilonsOf(g: Graph, states: seq<nat>): nat
    requires Within(states, g)
  {
    if states == [] then 0
    else
      var last := states[|states| - 1];
      EpsilonsOf(g, states[..|states| - 1]) + |g[last].epsilons|
  }

  /** One unit for each state taken from the worklist and one for each empty move put there. */
  ghost function ClosureCharges(g: Graph, from: seq<nat>): nat
    requires EdgesInside(g) && Within(from, g)
  {
    |from| + 2 * EpsilonsOf(g, ClosureOf(g, from))
  }

  /** The same count for a set of states below `n`. */
  ghost function EpsilonsBelow(g: Graph, states: set<nat>, n: nat): nat
    requires n <= |g|
  {
    if n == 0 then 0 else EpsilonsBelow(g, states, n - 1) + if n - 1 in states then |g[n - 1].epsilons| else 0
  }

  lemma {:induction false} EpsilonsOfOneMore(g: Graph, states: set<nat>, s: nat, n: nat)
    requires n <= |g| && s !in states
    ensures EpsilonsBelow(g, states + {s}, n) == EpsilonsBelow(g, states, n) + if s < n then |g[s].epsilons| else 0
  {
    if n == 0 {
    } else {
      EpsilonsOfOneMore(g, states, s, n - 1);
    }
  }

  lemma {:induction false} EpsilonsGrow(g: Graph, a: set<nat>, b: set<nat>, n: nat)
    requires n <= |g| && a <= b
    ensures EpsilonsBelow(g, a, n) <= EpsilonsBelow(g, b, n)
  {
    if n == 0 {
    } else {
      EpsilonsGrow(g, a, b, n - 1);
    }
  }

  /** A sorted list and the set of its members count the same moves. */
  lemma {:induction false} EpsilonsOfList(g: Graph, states: seq<nat>, n: nat)
    requires StrictlySorted(states) && n <= |g| && forall i :: 0 <= i < |states| ==> states[i] < n
    ensures Within(states, g)
    ensures EpsilonsOf(g, states) == EpsilonsBelow(g, MembersOf(states), n)
    decreases n
  {
    if n == 0 {
      InhabitedBelow(states, n);
    } else if n - 1 in states {
      var front := states[..|states| - 1];
      LastIsGreatest(states, n);
      EpsilonsOfList(g, front, n - 1);
      assert states == front + [n - 1];
      assert MembersOf(states) == MembersOf(front) + {n - 1};
      EpsilonsOfOneMore(g, MembersOf(front), n - 1, n - 1);
    } else {
      forall i | 0 <= i < |states| ensures states[i] < n - 1 {
        var t := states[i];
        assert t in states;
      }
      EpsilonsOfList(g, states, n - 1);
    }
  }

  lemma InhabitedBelow(states: seq<nat>, n: nat)
    requires forall i :: 0 <= i < |states| ==> states[i] < n
    ensures states == [] || n > 0
  {
    if states != [] {
      var s := states[0];
      assert s < n;
    }
  }

  lemma LastIsGreatest(states: seq<nat>, n: nat)
    requires n > 0 && StrictlySorted(states) && n - 1 in states && forall i :: 0 <= i < |states| ==> states[i] < n
    ensures states[|states| - 1] == n - 1
    ensures forall i :: 0 <= i < |states| - 1 ==> states[i] < n - 1
  {
    var i, last :| 0 <= i < |states| && states[i] == n - 1 && last == |states| - 1;
    assert states[i] <= states[last];
  }

  ghost function ClosureSet(g: Graph, from: seq<nat>): set<nat>
    requires EdgesInside(g) && Within(from, g)
  {
    MembersOf(ClosureOf(g, from))
  }

  lemma ChargesOfSet(g: Graph, from: seq<nat>)
    requires EdgesInside(g) && Within(from, g)
    ensures ClosureCharges(g, from) == |from| + 2 * EpsilonsBelow(g, ClosureSet(g, from), |g|)
  {
    hide EdgesInside, ReachedFrom;
    EpsilonsOfList(g, ClosureOf(g, from), |g|);
  }

  /** Whatever is visited or pending belongs to the closure. */
  lemma VisitedInClosure(g: Graph, from: seq<nat>, visited: set<nat>, pending: seq<nat>)
    requires EdgesInside(g) && Within(from, g) && ClosureState(g, from, visited, pending)
    ensures visited <= ClosureSet(g, from) && forall t :: t in pending ==> t in ClosureSet(g, from)
  {
    hide EdgesInside, ReachedFrom, HasEpsilon;
  }

  /** Part of the work is never more than all of it: with `more` of the moves of one new state charged. */
  lemma ChargedSoFar(g: Graph, from: seq<nat>, visited: set<nat>, pending: seq<nat>, more: nat)
    requires EdgesInside(g) && Within(from, g) && ClosureState(g, from, visited, pending) && pending != []
    requires var s := pending[|pending| - 1]; s < |g| && more <= |g[s].epsilons| && (s in visited ==> more == 0)
    ensures |from| - |pending| + 1 + 2 * EpsilonsBelow(g, visited, |g|) + more <= ClosureCharges(g, from)
  {
    hide EdgesInside, ClosureCharges, ClosureState, ClosureSet;
    var s := pending[|pending| - 1];
    var all := ClosureSet(g, from);
    VisitedInClosure(g, from, visited, pending);
    ChargesOfSet(g, from);
    assert s in pending;
    if s in visited {
      EpsilonsGrow(g, visited, all, |g|);
    } else {
      EpsilonsOfOneMore(g, visited, s, |g|);
      EpsilonsGrow(g, visited + {s}, all, |g|);
    }
  }

  lemma AllCharged(g: Graph, from: seq<nat>, visited: set<nat>)
    requires EdgesInside(g) && Within(from, g) && ClosureState(g, from, visited, [])
    ensures |from| + 2 * EpsilonsBelow(g, visited, |g|) == ClosureCharges(g, from)
  {
    hide EdgesInside, ReachedFrom, HasEpsilon, ClosureState, ClosureCharges;
    ClosureComplete(g, from, visited);
    ChargesOfSet(g, from);
    assert visited == ClosureSet(g, from);
  }

  /** The closure, unless finding it charges more than the ceiling allows. */
  method ComputeClosure(from: seq<nat>, g: Graph, spent: nat) returns (ok: bool, states: seq<nat>, spentAfter: nat)
    requires EdgesInside(g) && Within(from, g) && spent <= MAX_OPTIMIZATION_STEPS
    ensures ok <==> spent + ClosureCharges(g, from) <= MAX_OPTIMIZATION_STEPS
    ensures ok ==> spentAfter == spent + ClosureCharges(g, from)
    ensures ok ==> states == ClosureOf(g, from)
  {
    hide ClosureState, ReachedFrom, EdgesInside, ClosureCharges, EpsilonsBelow, IsClosure;
    var visited := new bool[|g|](_ => false);
    var pending := from;
    ghost var done: set<nat> := {};
    states, spentAfter := [], spent;
    StartOfClosure(g, from);
    NothingCharged(g, |g|);
    while pending != []
      invariant ClosureState(g, from, done, pending)
      invariant forall s: nat :: s in done <==> s < |g| && visited[s]
      invariant spentAfter == spent + |from| - |pending| + 2 * EpsilonsBelow(g, done, |g|) <= MAX_OPTIMIZATION_STEPS
      decreases |g| - |done|, |pending|
    {
      var state := pending[|pending| - 1];
      VisitState(g, from, done, pending);
      ChargedSoFar(g, from, done, pending, 0);
      spentAfter := spentAfter + 1;
      if spentAfter > MAX_OPTIMIZATION_STEPS {
        return false, [], spentAfter;
      }
      if visited[state] {
        PopVisited(g, from, done, pending);
        pending := pending[..|pending| - 1];
      } else {
        visited[state] := true;
        ChargedSoFar(g, from, done, pending, |g[state].epsilons|);
        EpsilonsOfOneMore(g, done, state, |g|);
        ghost var before := spentAfter;
        pending := pending[..|pending| - 1];
        ghost var rest := pending;
        for j := 0 to |g[state].epsilons|
          invariant pending == rest + g[state].epsilons[..j] && spentAfter == before + j <= MAX_OPTIMIZATION_STEPS
        {
          spentAfter := spentAfter + 1;
          if spentAfter > MAX_OPTIMIZATION_STEPS {
            return false, [], spentAfter;
          }
          pending := pending + [g[state].epsilons[j]];
        }
        assert g[state].epsilons[..|g[state].epsilons|] == g[state].epsilons;
        done := done + {state};
        SubsetOfBelow(done, |g|);
      }
    }
    AllCharged(g, from, done);
    ok := true;
    for state := 0 to |g|
      invariant forall s: nat :: s in done <==> s < |g| && visited[s]
      invariant forall i :: 0 <= i < |states| ==> states[i] < state
      invariant StrictlySorted(states) && forall t :: t in states <==> t < state && t in done
      invariant forall t :: t in done ==> t < |g|
    {
      if visited[state] {
        states := states + [state];
      }
    }
    ScannedClosure(g, from, done, states);
  }

  lemma ScannedClosure(g: Graph, from: seq<nat>, visited: set<nat>, states: seq<nat>)
    requires EdgesInside(g) && Within(from, g) && ClosureState(g, from, visited, [])
    requires StrictlySorted(states) && forall t :: t in states <==> t in visited
    ensures states == ClosureOf(g, from)
  {
    hide ClosureState, ReachedFrom, EdgesInside, StrictlySorted;
    ClosureComplete(g, from, visited);
    ClosureIsUnique(g, from, states);
  }

  lemma NothingCharged(g: Graph, n: nat)
    requires n <= |g|
    ensures EpsilonsBelow(g, {}, n) == 0
  {
  }
}
