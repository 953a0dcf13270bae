/**
 The gadgets that the steps of a flat ASCII program add to the graph. Each keeps the
 graph sound and complete for what its states stand for.
 */
module AsciiNfaGadgets {
  import opened Common
  import opened Words
  import opened AsciiNfa

  // ---------- edits of a graph ----------

  function WithState(g: Graph): Graph {
    g + [State([], [])]
  }

  function WithTransition(g: Graph, s: nat, bytes: ByteClass, t: nat): Graph
    requires s < |g|
  {
    g[s := State(g[s].epsilons, g[s].transitions + [Transition(bytes, t)])]
  }

  function WithEpsilon(g: Graph, s: nat, t: nat): Graph
    requires s < |g|
  {
    g[s := State(g[s].epsilons + [t], g[s].transitions)]
  }

  function WithSet(g: Graph, current: nat, bytes: ByteClass): Graph
    requires current < |g|
  {
    WithTransition(WithState(g), current, bytes, |g|)
  }

  lemma EdgesOfState(g: Graph)
    ensures forall s: nat, t: nat :: HasEpsilon(WithState(g), s, t) <==> HasEpsilon(g, s, t)
    ensures forall s: nat, bytes, t: nat :: HasTransition(WithState(g), s, bytes, t) <==> HasTransition(g, s, bytes, t)
  {
  }

  lemma EdgesOfTransition(g: Graph, a: nat, set0: ByteClass, b: nat)
    requires a < |g|
    ensures forall s: nat, t: nat :: HasEpsilon(WithTransition(g, a, set0, b), s, t) <==> HasEpsilon(g, s, t)
    ensures forall s: nat, bytes, t: nat :: HasTransition(WithTransition(g, a, set0, b), s, bytes, t) <==>
              HasTransition(g, s, bytes, t) || (s == a && bytes == set0 && t == b)
  {
  }

  lemma EdgesOfEpsilon(g: Graph, a: nat, b: nat)
    requires a < |g|
    ensures forall s: nat, t: nat :: HasEpsilon(WithEpsilon(g, a, b), s, t) <==>
              HasEpsilon(g, s, t) || (s == a && t == b)
    ensures forall s: nat, bytes, t: nat :: HasTransition(WithEpsilon(g, a, b), s, bytes, t) <==>
              HasTransition(g, s, bytes, t)
  {
  }

  predicate NoEdgesFrom(g: Graph, s: nat) {
    s < |g| && g[s] == State([], [])
  }

  // ---------- how labels relate ----------

  function Exactly(n: nat): Count {
    Count(n, Some(n))
  }

  function AtLeast(n: nat): Count {
    Count(n, None)
  }

  function Once(count: Count): Count {
    Count(count.low + 1, if count.high.Some? then Some(count.high.value + 1) else None)
  }

  /** One more byte of the class is one more repetition. */
  lemma DenotesOnce(steps: seq<Step>, k: nat, bytes: ByteClass, count: Count, w: Text)
    requires k <= |steps|
    ensures Denotes(steps, Label(k, bytes, Once(count)), w) <==>
            |w| > 0 && w[|w| - 1] in bytes && Denotes(steps, Label(k, bytes, count), w[..|w| - 1])
  {
    hide Consumes;
    var more, fewer := Label(k, bytes, Once(count)), Label(k, bytes, count);
    if n: nat :| Splits(steps, more, w, n) {
      var front := w[..|w| - 1];
      assert w[|w| - n..][n - 1] == w[|w| - 1];
      assert front[|front| - (n - 1)..] == w[|w| - n..][..n - 1];
      assert front[..|front| - (n - 1)] == w[..|w| - n];
      assert Splits(steps, fewer, front, n - 1);
    }
    if |w| > 0 && w[|w| - 1] in bytes && Denotes(steps, fewer, w[..|w| - 1]) {
      var front := w[..|w| - 1];
      var n: nat :| Splits(steps, fewer, front, n);
      assert w[|w| - (n + 1)..] == front[|front| - n..] + [w[|w| - 1]];
      assert w[..|w| - (n + 1)] == front[..|front| - n];
      assert Splits(steps, more, w, n + 1);
    }
  }

  lemma DenotesExactlyZero(steps: seq<Step>, k: nat, bytes: ByteClass, w: Text)
    requires k <= |steps|
    ensures Denotes(steps, Label(k, bytes, Exactly(0)), w) <==> Denotes(steps, After(k), w)
  {
    hide Consumes;
    assert w[..|w| - 0] == w && w[|w| - 0..] == [];
    assert Splits(steps, After(k), w, 0) <==> Splits(steps, Label(k, bytes, Exactly(0)), w, 0);
  }

  /** A wider count denotes more. */
  lemma DenotesWider(steps: seq<Step>, k: nat, bytes: ByteClass, a: Count, b: Count, w: Text)
    requires k <= |steps| && (forall n: nat :: Allows(a, n) ==> Allows(b, n))
    ensures Denotes(steps, Label(k, bytes, a), w) ==> Denotes(steps, Label(k, bytes, b), w)
  {
    hide Consumes, Allows;
    if n: nat :| Splits(steps, Label(k, bytes, a), w, n) {
      assert Splits(steps, Label(k, bytes, b), w, n);
    }
  }

  lemma DenotesSome(steps: seq<Step>, k: nat, bytes: ByteClass, count: Count, w: Text)
    requires k <= |steps| && Denotes(steps, Label(k, bytes, count), w)
    ensures exists n: nat :: Allows(count, n) && Denotes(steps, Label(k, bytes, Exactly(n)), w)
  {
    hide Consumes;
    var n: nat :| Splits(steps, Label(k, bytes, count), w, n);
    assert Splits(steps, Label(k, bytes, Exactly(n)), w, n);
    assert Denotes(steps, Label(k, bytes, Exactly(n)), w);
  }

  /** After a loop step stands for the allowed repetitions before it. */
  lemma DenotesLoop(steps: seq<Step>, k: nat, bytes: ByteClass, min: nat, max: int, w: Text)
    requires k < |steps| && IsLoop(steps[k], bytes, min, max)
    ensures Denotes(steps, After(k + 1), w) <==> Denotes(steps, Label(k, bytes, LoopCount(min, max)), w)
  {
    DenotesAfter(steps, k + 1, w);
    var tag := Label(k, bytes, LoopCount(min, max));
    if n: nat :| Splits(steps, tag, w, n) {
      assert Consumes(steps, k + 1, w);
    }
    if Consumes(steps, k + 1, w) {
      var n: nat :| n <= |w| && Allows(LoopCount(min, max), n) && AllIn(w[|w| - n..], bytes) &&
                    Consumes(steps, k, w[..|w| - n]);
      assert Splits(steps, tag, w, n);
    }
  }

  lemma DenotesMatch(steps: seq<Step>, k: nat, bytes: ByteClass, w: Text)
    requires k < |steps| && IsMatch(steps[k], bytes)
    ensures Denotes(steps, After(k + 1), w) <==>
            |w| > 0 && w[|w| - 1] in bytes && Denotes(steps, After(k), w[..|w| - 1])
  {
    DenotesAfter(steps, k + 1, w);
    if |w| > 0 {
      DenotesAfter(steps, k, w[..|w| - 1]);
    }
  }

  /** `b` denotes the words of `a` with one byte of the class appended, and no others. */
  ghost predicate Follows(steps: seq<Step>, a: Label, bytes: ByteClass, b: Label)
    requires a.k <= |steps| && b.k <= |steps|
  {
    forall w :: Denotes(steps, b, w) <==> |w| > 0 && w[|w| - 1] in bytes && Denotes(steps, a, w[..|w| - 1])
  }

  lemma FollowsContinues(steps: seq<Step>, a: Label, bytes: ByteClass, b: Label)
    requires a.k <= |steps| && b.k <= |steps| && Follows(steps, a, bytes, b)
    ensures Continues(steps, a, bytes, b)
  {
    hide Denotes;
    forall w, c: Byte | Denotes(steps, a, w) && c in bytes ensures Denotes(steps, b, w + [c]) {
      assert (w + [c])[..|w + [c]| - 1] == w;
    }
  }

  // ---------- the invariant between gadgets ----------

  /** Everything a label denotes leads to its state; but nothing is claimed of state `x`. */
  ghost predicate CompleteExcept(g: Graph, labels: seq<Label>, steps: seq<Step>, x: int) {
    && |labels| == |g| && LabelsFit(labels, steps)
    && forall s: nat, w :: s < |g| && s != x && Denotes(steps, labels[s], w) ==> Arrives(g, w, s)
  }

  /** The graph so far, with a state that stands for `tag`. */
  ghost predicate Stands(g: Graph, labels: seq<Label>, steps: seq<Step>, x: int, current: nat, tag: Label) {
    && Sound(g, labels, steps) && CompleteExcept(g, labels, steps, x)
    && current < |g| && labels[current] == tag && current != x
  }

  /** ... and which nothing leaves yet. */
  ghost predicate LooseEnd(g: Graph, labels: seq<Label>, steps: seq<Step>, x: int, current: nat, tag: Label) {
    Stands(g, labels, steps, x, current, tag) && NoEdgesFrom(g, current)
  }

  /** Two labels with the same words can stand for each other. */
  lemma Relabel(g: Graph, labels: seq<Label>, steps: seq<Step>, x: int, current: nat, tag: Label, other: Label)
    requires LooseEnd(g, labels, steps, x, current, tag) && other.k <= |steps|
    requires forall w :: Denotes(steps, tag, w) <==> Denotes(steps, other, w)
    ensures LooseEnd(g, labels[current := other], steps, x, current, other)
  {
    hide Denotes, Arrives, HasEpsilon, HasTransition;
    var changed := labels[current := other];
    forall s: nat, t: nat | HasEpsilon(g, s, t)
      ensures s < |g| && t < |g| && Includes(steps, changed[s], changed[t])
    {
      EpsilonInGraph(g, s, t);
      assert Includes(steps, labels[s], labels[t]);
    }
    forall s: nat, bytes, t: nat | HasTransition(g, s, bytes, t)
      ensures s < |g| && t < |g| && Continues(steps, changed[s], bytes, changed[t])
    {
      TransitionInGraph(g, s, bytes, t);
      assert Continues(steps, labels[s], bytes, labels[t]);
    }
  }

  lemma EpsilonInGraph(g: Graph, s: nat, t: nat)
    requires HasEpsilon(g, s, t)
    ensures s < |g|
  {
  }

  lemma TransitionInGraph(g: Graph, s: nat, bytes: ByteClass, t: nat)
    requires HasTransition(g, s, bytes, t)
    ensures s < |g|
  {
  }

  /** Appending one class transition moves the loose end to a new state. */
  lemma SetGadget(g: Graph, labels: seq<Label>, steps: seq<Step>, x: int, current: nat, tag: Label,
                  bytes: ByteClass, next: Label)
    requires Stands(g, labels, steps, x, current, tag) && x < |g|
    requires next.k <= |steps| && Follows(steps, tag, bytes, next)
    ensures LooseEnd(WithSet(g, current, bytes), labels + [next], steps, x, |g|, next)
    ensures Extends(g, WithSet(g, current, bytes))
  {
    hide Denotes, Arrives, HasEpsilon, HasTransition;
    var h, more := WithSet(g, current, bytes), labels + [next];
    EdgesOfState(g);
    EdgesOfTransition(WithState(g), current, bytes, |g|);
    FollowsContinues(steps, tag, bytes, next);
    forall s: nat, t: nat | HasEpsilon(g, s, t) ensures s < |g| && t < |g| && Includes(steps, more[s], more[t]) {
      EpsilonInGraph(g, s, t);
    }
    forall s: nat, c, t: nat | HasTransition(g, s, c, t)
      ensures s < |g| && t < |g| && Continues(steps, more[s], c, more[t])
    {
      TransitionInGraph(g, s, c, t);
    }
    forall s: nat, w | s < |h| && s != x && Denotes(steps, more[s], w) ensures Arrives(h, w, s) {
      if s < |g| {
        ArrivalSurvives(g, h, w, s);
      } else {
        var front, c := w[..|w| - 1], w[|w| - 1];
        ArrivalSurvives(g, h, front, current);
        assert HasTransition(h, current, bytes, |g|);
        ArrivesByByte(h, front, c, current, bytes, |g|);
        assert front + [c] == w;
      }
    }
  }

  /** A fresh exit state: sound at once, complete only later. */
  lemma ExitState(g: Graph, labels: seq<Label>, steps: seq<Step>, current: nat, tag: Label, exit: Label)
    requires LooseEnd(g, labels, steps, -1, current, tag) && exit.k <= |steps|
    ensures LooseEnd(WithState(g), labels + [exit], steps, |g|, current, tag)
  {
    hide Denotes, Arrives, HasEpsilon, HasTransition;
    var h, more := WithState(g), labels + [exit];
    EdgesOfState(g);
    forall s: nat, t: nat | HasEpsilon(g, s, t) ensures s < |g| && t < |g| && Includes(steps, more[s], more[t]) {
      EpsilonInGraph(g, s, t);
    }
    forall s: nat, c, t: nat | HasTransition(g, s, c, t)
      ensures s < |g| && t < |g| && Continues(steps, more[s], c, more[t])
    {
      TransitionInGraph(g, s, c, t);
    }
    forall s: nat, w | s < |h| && s != |g| && Denotes(steps, more[s], w) ensures Arrives(h, w, s) {
      ArrivalSurvives(g, h, w, s);
    }
  }

  /** An empty move to the exit keeps everything that is claimed. */
  lemma ExitEdge(g: Graph, labels: seq<Label>, steps: seq<Step>, exit: nat, a: nat)
    requires Sound(g, labels, steps) && CompleteExcept(g, labels, steps, exit)
    requires a < |g| && exit < |g| && Includes(steps, labels[a], labels[exit])
    ensures Sound(WithEpsilon(g, a, exit), labels, steps)
    ensures CompleteExcept(WithEpsilon(g, a, exit), labels, steps, exit)
    ensures Extends(g, WithEpsilon(g, a, exit)) && HasEpsilon(WithEpsilon(g, a, exit), a, exit)
  {
    hide Denotes, Arrives, HasEpsilon, HasTransition;
    var h := WithEpsilon(g, a, exit);
    EdgesOfEpsilon(g, a, exit);
    forall s: nat, w | s < |h| && s != exit && Denotes(steps, labels[s], w) ensures Arrives(h, w, s) {
      ArrivalSurvives(g, h, w, s);
    }
  }

  // ---------- the closed loop ----------

  /** State `s` stands for exactly `n` repetitions and leads to the exit. */
  predicate Exits(g: Graph, labels: seq<Label>, k: nat, bytes: ByteClass, exit: nat, n: nat, s: nat) {
    s < |labels| == |g| && labels[s] == Label(k, bytes, Exactly(n)) && HasEpsilon(g, s, exit)
  }

  ghost predicate SomeExit(g: Graph, labels: seq<Label>, k: nat, bytes: ByteClass, exit: nat, n: nat) {
    exists s: nat :: Exits(g, labels, k, bytes, exit, n, s)
  }

  /** For every count from `low` up to `below` some state with that count leads to the exit. */
  ghost predicate ExitCovers(g: Graph, labels: seq<Label>, k: nat, bytes: ByteClass, exit: nat, low: nat, below: nat) {
    forall n: nat :: low <= n < below ==> SomeExit(g, labels, k, bytes, exit, n)
  }

  lemma ExitCoversOneMore(g: Graph, h: Graph, labels: seq<Label>, k: nat, bytes: ByteClass, exit: nat,
                          low: nat, below: nat, s: nat)
    requires ExitCovers(g, labels, k, bytes, exit, low, below) && Extends(g, h) && |g| == |h|
    requires Exits(h, labels, k, bytes, exit, below, s)
    ensures ExitCovers(h, labels, k, bytes, exit, low, below + 1)
  {
    hide HasEpsilon;
    forall n: nat | low <= n < below + 1 ensures SomeExit(h, labels, k, bytes, exit, n) {
      if n < below {
        assert SomeExit(g, labels, k, bytes, exit, n);
        var u: nat :| Exits(g, labels, k, bytes, exit, n, u);
        assert Exits(h, labels, k, bytes, exit, n, u);
      }
    }
  }

  lemma ExitCoversSurvives(g: Graph, h: Graph, labels: seq<Label>, next: Label, k: nat, bytes: ByteClass, exit: nat,
                           low: nat, below: nat)
    requires ExitCovers(g, labels, k, bytes, exit, low, below) && Extends(g, h) && |h| == |g| + 1
    ensures ExitCovers(h, labels + [next], k, bytes, exit, low, below)
  {
    hide HasEpsilon;
    forall n: nat | low <= n < below ensures SomeExit(h, labels + [next], k, bytes, exit, n) {
      assert SomeExit(g, labels, k, bytes, exit, n);
      var u: nat :| Exits(g, labels, k, bytes, exit, n, u);
      assert Exits(h, labels + [next], k, bytes, exit, n, u);
    }
  }

  /** Once every allowed count leads to the exit, the exit is complete too. */
  lemma ClosedExitIsComplete(g: Graph, labels: seq<Label>, steps: seq<Step>, k: nat, bytes: ByteClass,
                             min: nat, max: int, exit: nat)
    requires k < |steps| && IsLoop(steps[k], bytes, min, max) && !IsOpenEnded(max)
    requires Sound(g, labels, steps) && CompleteExcept(g, labels, steps, exit)
    requires exit < |g| && labels[exit] == After(k + 1)
    requires ExitCovers(g, labels, k, bytes, exit, min, (if max < min then min else max) + 1)
    ensures CompleteExcept(g, labels, steps, -1)
  {
    hide Denotes, Arrives, HasEpsilon, Sound;
    forall s: nat, w | s < |g| && Denotes(steps, labels[s], w) ensures Arrives(g, w, s) {
      if s == exit {
        DenotesLoop(steps, k, bytes, min, max, w);
        DenotesSome(steps, k, bytes, LoopCount(min, max), w);
        var n: nat :| Allows(LoopCount(min, max), n) && Denotes(steps, Label(k, bytes, Exactly(n)), w);
        assert SomeExit(g, labels, k, bytes, exit, n);
        var u: nat :| Exits(g, labels, k, bytes, exit, n, u);
        ArrivesByEpsilon(g, w, u, exit);
      }
    }
  }

  function Larger(a: int, b: int): int {
    if a < b then b else a
  }

  /** A closed loop whose copies up to `index` have been appended. */
  ghost predicate ClosedLoop(g: Graph, labels: seq<Label>, steps: seq<Step>, k: nat, bytes: ByteClass, min: nat, max: int,
                             exit: nat, index: nat, current: nat)
  {
    && k < |steps| && IsLoop(steps[k], bytes, min, max) && !IsOpenEnded(max)
    && min <= index <= Larger(min, max)
    && LooseEnd(g, labels, steps, exit, current, Label(k, bytes, Exactly(index)))
    && NoEdgesFrom(g, exit) && labels[exit] == After(k + 1)
    && ExitCovers(g, labels, k, bytes, exit, min, index)
  }

  lemma ClosedLoopStart(g: Graph, labels: seq<Label>, steps: seq<Step>, k: nat, bytes: ByteClass, min: nat, max: int,
                        current: nat)
    requires k < |steps| && IsLoop(steps[k], bytes, min, max) && !IsOpenEnded(max)
    requires LooseEnd(g, labels, steps, -1, current, Label(k, bytes, Exactly(min)))
    ensures ClosedLoop(WithState(g), labels + [After(k + 1)], steps, k, bytes, min, max, |g|, min, current)
  {
    hide Stands, Sound, CompleteExcept, Exits;
    CurrentInGraph(g, labels, steps, -1, current, Label(k, bytes, Exactly(min)));
    ExitState(g, labels, steps, current, Label(k, bytes, Exactly(min)), After(k + 1));
  }

  lemma ClosedLoopExitEdge(g: Graph, labels: seq<Label>, steps: seq<Step>, k: nat, bytes: ByteClass, min: nat, max: int,
                           exit: nat, index: nat, current: nat)
    requires ClosedLoop(g, labels, steps, k, bytes, min, max, exit, index, current)
    ensures var h := WithEpsilon(g, current, exit);
            && Stands(h, labels, steps, exit, current, Label(k, bytes, Exactly(index)))
            && NoEdgesFrom(h, exit) && labels[exit] == After(k + 1)
            && ExitCovers(h, labels, k, bytes, exit, min, index + 1)
  {
    hide Denotes, Arrives, HasEpsilon, HasTransition;
    var h := WithEpsilon(g, current, exit);
    forall w ensures Denotes(steps, Label(k, bytes, Exactly(index)), w) ==> Denotes(steps, After(k + 1), w) {
      DenotesWider(steps, k, bytes, Exactly(index), LoopCount(min, max), w);
      DenotesLoop(steps, k, bytes, min, max, w);
    }
    ExitEdge(g, labels, steps, exit, current);
    assert Exits(h, labels, k, bytes, exit, index, current);
    ExitCoversOneMore(g, h, labels, k, bytes, exit, min, index, current);
  }

  lemma ClosedLoopStep(g: Graph, labels: seq<Label>, steps: seq<Step>, k: nat, bytes: ByteClass, min: nat, max: int,
                       exit: nat, index: nat, current: nat)
    requires ClosedLoop(g, labels, steps, k, bytes, min, max, exit, index, current) && index < max
    ensures ClosedLoop(WithSet(WithEpsilon(g, current, exit), current, bytes), labels + [Label(k, bytes, Exactly(index + 1))],
                       steps, k, bytes, min, max, exit, index + 1, |g|)
  {
    hide Stands, Sound, CompleteExcept, Exits, ExitCovers, Follows, Extends;
    var next := Label(k, bytes, Exactly(index + 1));
    ClosedLoopExitEdge(g, labels, steps, k, bytes, min, max, exit, index, current);
    CurrentInGraph(g, labels, steps, exit, current, Label(k, bytes, Exactly(index)));
    var h := WithEpsilon(g, current, exit);
    FollowsOnce(steps, k, bytes, index);
    SetGadget(h, labels, steps, exit, current, Label(k, bytes, Exactly(index)), bytes, next);
    ExitCoversSurvives(h, WithSet(h, current, bytes), labels, next, k, bytes, exit, min, index + 1);
    DifferentEnds(k, bytes, index);
  }

  lemma DifferentEnds(k: nat, bytes: ByteClass, n: nat)
    ensures Label(k, bytes, Exactly(n)) != After(k + 1)
  {
  }

  lemma ClosedLoopEnd(g: Graph, labels: seq<Label>, steps: seq<Step>, k: nat, bytes: ByteClass, min: nat, max: int,
                      exit: nat, current: nat)
    requires ClosedLoop(g, labels, steps, k, bytes, min, max, exit, Larger(min, max), current)
    ensures LooseEnd(WithEpsilon(g, current, exit), labels, steps, -1, exit, After(k + 1))
  {
    hide Denotes, Arrives, HasEpsilon, HasTransition, Exits, Includes, Continues;
    ClosedLoopExitEdge(g, labels, steps, k, bytes, min, max, exit, Larger(min, max), current);
    ClosedExitIsComplete(WithEpsilon(g, current, exit), labels, steps, k, bytes, min, max, exit);
  }

  // ---------- the open loop ----------

  /** The graph of an open loop: an exit, one more copy of the class, and the way back. */
  function WithOpenLoop(g: Graph, current: nat, bytes: ByteClass): Graph
    requires current < |g|
  {
    var exit, again := |g|, |g| + 1;
    var entered := WithSet(WithEpsilon(WithState(g), current, exit), current, bytes);
    WithEpsilon(WithEpsilon(entered, again, current), again, exit)
  }

  lemma OpenLoopEdges(g: Graph, current: nat, bytes: ByteClass)
    requires current < |g|
    ensures var h := WithOpenLoop(g, current, bytes);
            && |h| == |g| + 2 && Extends(g, h) && NoEdgesFrom(h, |g|)
            && (forall s: nat, t: nat :: HasEpsilon(h, s, t) <==>
                  HasEpsilon(g, s, t) || (s == current && t == |g|) || (s == |g| + 1 && (t == current || t == |g|)))
            && (forall s: nat, c, t: nat :: HasTransition(h, s, c, t) <==>
                  HasTransition(g, s, c, t) || (s == current && c == bytes && t == |g| + 1))
  {
    var exit, again := |g|, |g| + 1;
    var g1 := WithState(g);
    var g2 := WithEpsilon(g1, current, exit);
    var g3 := WithState(g2);
    var g4 := WithTransition(g3, current, bytes, again);
    var g5 := WithEpsilon(g4, again, current);
    EdgesOfState(g);
    EdgesOfEpsilon(g1, current, exit);
    EdgesOfState(g2);
    EdgesOfTransition(g3, current, bytes, again);
    EdgesOfEpsilon(g4, again, current);
    EdgesOfEpsilon(g5, again, exit);
    hide HasEpsilon, HasTransition;
  }

  /** The labels once the way back exists: the loop start repeats at least `min` times. */
  function OpenLabels(labels: seq<Label>, current: nat, k: nat, bytes: ByteClass, min: nat): seq<Label>
    requires current < |labels|
  {
    labels[current := Label(k, bytes, AtLeast(min))] + [After(k + 1), Label(k, bytes, AtLeast(min + 1))]
  }

  lemma OpenLoopIsSound(g: Graph, labels: seq<Label>, steps: seq<Step>, current: nat, k: nat, bytes: ByteClass,
                        min: nat, max: int)
    requires k < |steps| && IsLoop(steps[k], bytes, min, max) && IsOpenEnded(max)
    requires LooseEnd(g, labels, steps, -1, current, Label(k, bytes, Exactly(min)))
    ensures Sound(WithOpenLoop(g, current, bytes), OpenLabels(labels, current, k, bytes, min), steps)
  {
    hide Denotes, Arrives, Allows;
    var h, changed := WithOpenLoop(g, current, bytes), OpenLabels(labels, current, k, bytes, min);
    OpenLoopEdges(g, current, bytes);
    LoopLabels(steps, k, bytes, min, max);
    NothingLeaves(g, current);
    hide HasEpsilon, HasTransition, NoEdgesFrom;
    forall s: nat, t: nat | HasEpsilon(h, s, t)
      ensures s < |h| && t < |h| && Includes(steps, changed[s], changed[t])
    {
      EpsilonInGraph(h, s, t);
      if HasEpsilon(g, s, t) {
        EpsilonInGraph(g, s, t);
        assert Includes(steps, labels[s], labels[t]);
      }
    }
    forall s: nat, c, t: nat | HasTransition(h, s, c, t)
      ensures s < |h| && t < |h| && Continues(steps, changed[s], c, changed[t])
    {
      TransitionInGraph(h, s, c, t);
      if HasTransition(g, s, c, t) {
        TransitionInGraph(g, s, c, t);
        assert Continues(steps, labels[s], c, labels[t]);
      }
    }
  }

  lemma NothingLeaves(g: Graph, s: nat)
    requires NoEdgesFrom(g, s)
    ensures forall t: nat :: !HasEpsilon(g, s, t)
    ensures forall bytes, t: nat :: !HasTransition(g, s, bytes, t)
  {
  }

  /** How the labels around an open loop relate. */
  lemma LoopLabels(steps: seq<Step>, k: nat, bytes: ByteClass, min: nat, max: int)
    requires k < |steps| && IsLoop(steps[k], bytes, min, max) && IsOpenEnded(max)
    ensures Includes(steps, Label(k, bytes, Exactly(min)), Label(k, bytes, AtLeast(min)))
    ensures Includes(steps, Label(k, bytes, AtLeast(min + 1)), Label(k, bytes, AtLeast(min)))
    ensures Includes(steps, Label(k, bytes, AtLeast(min)), After(k + 1))
    ensures Includes(steps, Label(k, bytes, AtLeast(min + 1)), After(k + 1))
    ensures Follows(steps, Label(k, bytes, AtLeast(min)), bytes, Label(k, bytes, AtLeast(min + 1)))
    ensures Continues(steps, Label(k, bytes, AtLeast(min)), bytes, Label(k, bytes, AtLeast(min + 1)))
  {
    forall w
      ensures Denotes(steps, Label(k, bytes, Exactly(min)), w) ==> Denotes(steps, Label(k, bytes, AtLeast(min)), w)
      ensures Denotes(steps, Label(k, bytes, AtLeast(min + 1)), w) ==> Denotes(steps, Label(k, bytes, AtLeast(min)), w)
      ensures Denotes(steps, Label(k, bytes, AtLeast(min)), w) <==> Denotes(steps, After(k + 1), w)
    {
      DenotesWider(steps, k, bytes, Exactly(min), AtLeast(min), w);
      DenotesWider(steps, k, bytes, AtLeast(min + 1), AtLeast(min), w);
      DenotesLoop(steps, k, bytes, min, max, w);
    }
    hide Denotes;
    forall w
      ensures Denotes(steps, Label(k, bytes, AtLeast(min + 1)), w) <==>
        |w| > 0 && w[|w| - 1] in bytes && Denotes(steps, Label(k, bytes, AtLeast(min)), w[..|w| - 1])
    {
      DenotesOnce(steps, k, bytes, AtLeast(min), w);
    }
    FollowsContinues(steps, Label(k, bytes, AtLeast(min)), bytes, Label(k, bytes, AtLeast(min + 1)));
  }

  /** Every longer run goes round the loop once more. */
  lemma {:induction false} LoopStartArrives(h: Graph, steps: seq<Step>, k: nat, bytes: ByteClass, min: nat,
                                            current: nat, again: nat, w: Text)
    requires k <= |steps|
    requires forall v :: Denotes(steps, Label(k, bytes, Exactly(min)), v) ==> Arrives(h, v, current)
    requires HasTransition(h, current, bytes, again) && HasEpsilon(h, again, current)
    requires Denotes(steps, Label(k, bytes, AtLeast(min)), w)
    ensures Arrives(h, w, current)
    decreases |w|
  {
    hide Denotes, Arrives, HasTransition, HasEpsilon;
    DenotesSome(steps, k, bytes, AtLeast(min), w);
    var n: nat :| Allows(AtLeast(min), n) && Denotes(steps, Label(k, bytes, Exactly(n)), w);
    if n == min {
    } else {
      DenotesOnce(steps, k, bytes, Exactly(n - 1), w);
      var front, c := w[..|w| - 1], w[|w| - 1];
      DenotesWider(steps, k, bytes, Exactly(n - 1), AtLeast(min), front);
      LoopStartArrives(h, steps, k, bytes, min, current, again, front);
      ArrivesByByte(h, front, c, current, bytes, again);
      assert front + [c] == w;
      ArrivesByEpsilon(h, w, again, current);
    }
  }

  /** What the labels of an open loop denote leads to its three states. */
  lemma OpenLoopStates(g: Graph, labels: seq<Label>, steps: seq<Step>, current: nat, k: nat, bytes: ByteClass,
                       min: nat, max: int, w: Text)
    requires k < |steps| && IsLoop(steps[k], bytes, min, max) && IsOpenEnded(max)
    requires LooseEnd(g, labels, steps, -1, current, Label(k, bytes, Exactly(min)))
    ensures var h := WithOpenLoop(g, current, bytes);
            && (Denotes(steps, Label(k, bytes, AtLeast(min)), w) ==> Arrives(h, w, current))
            && (Denotes(steps, Label(k, bytes, AtLeast(min + 1)), w) ==> Arrives(h, w, |g| + 1))
            && (Denotes(steps, After(k + 1), w) ==> Arrives(h, w, |g|))
  {
    hide Denotes, Arrives, Sound, HasEpsilon, HasTransition, WithOpenLoop, Allows, AtLeast, IsLoop;
    var h, again := WithOpenLoop(g, current, bytes), |g| + 1;
    OpenLoopEdges(g, current, bytes);
    forall v | Denotes(steps, Label(k, bytes, AtLeast(min)), v) ensures Arrives(h, v, current) {
      OpenLoopStart(g, labels, steps, current, k, bytes, min, h, v);
    }
    if Denotes(steps, Label(k, bytes, AtLeast(min + 1)), w) {
      OnceMore(k, bytes, min);
      DenotesOnce(steps, k, bytes, AtLeast(min), w);
      var front, c := w[..|w| - 1], w[|w| - 1];
      ArrivesByByte(h, front, c, current, bytes, again);
      assert front + [c] == w;
    }
    if Denotes(steps, After(k + 1), w) {
      DenotesLoop(steps, k, bytes, min, max, w);
      OpenCount(min, max);
      ArrivesByEpsilon(h, w, current, |g|);
    }
  }

  lemma OnceMore(k: nat, bytes: ByteClass, min: nat)
    ensures Once(AtLeast(min)) == AtLeast(min + 1)
  {
  }

  lemma OpenCount(min: nat, max: int)
    requires IsOpenEnded(max)
    ensures LoopCount(min, max) == AtLeast(min)
  {
  }

  lemma OpenLoopStart(g: Graph, labels: seq<Label>, steps: seq<Step>, current: nat, k: nat, bytes: ByteClass,
                      min: nat, h: Graph, w: Text)
    requires k < |steps| && LooseEnd(g, labels, steps, -1, current, Label(k, bytes, Exactly(min)))
    requires Extends(g, h) && HasTransition(h, current, bytes, |g| + 1) && HasEpsilon(h, |g| + 1, current)
    requires Denotes(steps, Label(k, bytes, AtLeast(min)), w)
    ensures Arrives(h, w, current)
  {
    hide Denotes, Arrives, Sound, HasEpsilon, HasTransition, Extends, AtLeast;
    forall v | Denotes(steps, Label(k, bytes, Exactly(min)), v) ensures Arrives(h, v, current) {
      ArrivalSurvives(g, h, v, current);
    }
    LoopStartArrives(h, steps, k, bytes, min, current, |g| + 1, w);
  }

  lemma OpenLoopIsComplete(g: Graph, labels: seq<Label>, steps: seq<Step>, current: nat, k: nat, bytes: ByteClass,
                           min: nat, max: int)
    requires k < |steps| && IsLoop(steps[k], bytes, min, max) && IsOpenEnded(max)
    requires LooseEnd(g, labels, steps, -1, current, Label(k, bytes, Exactly(min)))
    ensures CompleteExcept(WithOpenLoop(g, current, bytes), OpenLabels(labels, current, k, bytes, min), steps, -1)
  {
    hide Denotes, Arrives, Sound, HasEpsilon, HasTransition, WithOpenLoop, Allows, AtLeast, Exactly, Extends, IsLoop;
    var h, changed := WithOpenLoop(g, current, bytes), OpenLabels(labels, current, k, bytes, min);
    OpenLoopEdges(g, current, bytes);
    forall s: nat, w | s < |h| && Denotes(steps, changed[s], w) ensures Arrives(h, w, s) {
      if s < |g| && s != current {
        ArrivalSurvives(g, h, w, s);
      } else {
        OpenLoopStates(g, labels, steps, current, k, bytes, min, max, w);
      }
    }
  }

  // ---------- the loose end from gadget to gadget ----------

  lemma CurrentInGraph(g: Graph, labels: seq<Label>, steps: seq<Step>, x: int, current: nat, tag: Label)
    requires LooseEnd(g, labels, steps, x, current, tag)
    ensures current < |g| == |labels| && Stands(g, labels, steps, x, current, tag)
  {
  }

  lemma FollowsOnce(steps: seq<Step>, k: nat, bytes: ByteClass, n: nat)
    requires k <= |steps|
    ensures Follows(steps, Label(k, bytes, Exactly(n)), bytes, Label(k, bytes, Exactly(n + 1)))
  {
    hide Denotes;
    forall w
      ensures Denotes(steps, Label(k, bytes, Exactly(n + 1)), w) <==>
        |w| > 0 && w[|w| - 1] in bytes && Denotes(steps, Label(k, bytes, Exactly(n)), w[..|w| - 1])
    {
      DenotesOnce(steps, k, bytes, Exactly(n), w);
    }
  }

  lemma StateAdded(g: Graph)
    ensures |WithState(g)| == |g| + 1
  {
  }

  lemma SetAdded(g: Graph, current: nat, bytes: ByteClass)
    requires current < |g|
    ensures |WithSet(g, current, bytes)| == |g| + 1
  {
  }

  lemma ClosedLoopInGraph(g: Graph, labels: seq<Label>, steps: seq<Step>, k: nat, bytes: ByteClass, min: nat, max: int,
                          exit: nat, index: nat, current: nat)
    requires ClosedLoop(g, labels, steps, k, bytes, min, max, exit, index, current)
    ensures current < |g| && exit < |g|
  {
  }

  /** No repetition yet is as good as the label before the loop. */
  lemma BeginLoop(g: Graph, labels: seq<Label>, steps: seq<Step>, start: nat, k: nat, bytes: ByteClass)
    returns (after: seq<Label>)
    requires k <= |steps| && LooseEnd(g, labels, steps, -1, start, After(k))
    ensures LooseEnd(g, after, steps, -1, start, Label(k, bytes, Exactly(0)))
  {
    hide Denotes, Sound, CompleteExcept;
    forall w ensures Denotes(steps, After(k), w) <==> Denotes(steps, Label(k, bytes, Exactly(0)), w) {
      DenotesExactlyZero(steps, k, bytes, w);
    }
    Relabel(g, labels, steps, -1, start, After(k), Label(k, bytes, Exactly(0)));
    CurrentInGraph(g, labels, steps, -1, start, After(k));
    after := labels[start := Label(k, bytes, Exactly(0))];
  }

  lemma OpenLoopGadget(g: Graph, labels: seq<Label>, steps: seq<Step>, current: nat, k: nat, bytes: ByteClass,
                       min: nat, max: int)
    requires k < |steps| && IsLoop(steps[k], bytes, min, max) && IsOpenEnded(max)
    requires LooseEnd(g, labels, steps, -1, current, Label(k, bytes, Exactly(min)))
    ensures current < |labels|
    ensures LooseEnd(WithOpenLoop(g, current, bytes), OpenLabels(labels, current, k, bytes, min), steps, -1, |g|, After(k + 1))
  {
    hide Sound, CompleteExcept, WithOpenLoop;
    CurrentInGraph(g, labels, steps, -1, current, Label(k, bytes, Exactly(min)));
    OpenLoopEdges(g, current, bytes);
    OpenLoopIsSound(g, labels, steps, current, k, bytes, min, max);
    OpenLoopIsComplete(g, labels, steps, current, k, bytes, min, max);
  }

  lemma FollowsMatch(steps: seq<Step>, k: nat, bytes: ByteClass)
    requires k < |steps| && IsMatch(steps[k], bytes)
    ensures Follows(steps, After(k), bytes, After(k + 1))
  {
    hide Denotes;
    forall w
      ensures Denotes(steps, After(k + 1), w) <==>
        |w| > 0 && w[|w| - 1] in bytes && Denotes(steps, After(k), w[..|w| - 1])
    {
      DenotesMatch(steps, k, bytes, w);
    }
  }

  /** A step that consumes nothing changes only what the label is called. */
  lemma PassiveStep(g: Graph, labels: seq<Label>, steps: seq<Step>, current: nat, k: nat) returns (after: seq<Label>)
    requires k < |steps| && (steps[k].RequireBeginning? || steps[k].RequireEnd?)
    requires LooseEnd(g, labels, steps, -1, current, After(k))
    ensures LooseEnd(g, after, steps, -1, current, After(k + 1))
  {
    hide Denotes, Sound, CompleteExcept;
    forall w ensures Denotes(steps, After(k), w) <==> Denotes(steps, After(k + 1), w) {
      DenotesAfter(steps, k, w);
      DenotesAfter(steps, k + 1, w);
    }
    Relabel(g, labels, steps, -1, current, After(k), After(k + 1));
    CurrentInGraph(g, labels, steps, -1, current, After(k));
    after := labels[current := After(k + 1)];
  }

  lemma FirstState(steps: seq<Step>)
    ensures LooseEnd([State([], [])], [After(0)], steps, -1, 0, After(0))
  {
    var g, labels := [State([], [])], [After(0)];
    DenotesAfter(steps, 0, []);
    forall w | Denotes(steps, After(0), w) ensures Arrives(g, w, 0) {
      DenotesAfter(steps, 0, w);
      EpsilonStays(g, 0);
    }
  }
}
