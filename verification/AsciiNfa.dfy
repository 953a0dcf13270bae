/**
 The anchored ASCII verifier's nondeterministic graph: what it means, and the compiler
 that appends one gadget to it for each step of a flat program.
 */
module AsciiNfa {
  import opened Common
  import opened Words

  type Text = seq<Byte>

  /** A class of ASCII bytes: the two 64-bit masks of the source as one set. */
  type ByteClass = set<Byte>

  const MAX_NFA_STATES := 2048

  /** The ceiling on the work of one compilation. */
  const MAX_OPTIMIZATION_STEPS := 1_048_576

  datatype Transition = Transition(bytes: ByteClass, target: nat)

  datatype State = State(epsilons: seq<nat>, transitions: seq<Transition>)

  type Graph = seq<State>

  // ---------- meaning of a graph ----------

  predicate HasEpsilon(g: Graph, s: nat, t: nat) {
    s < |g| && t in g[s].epsilons
  }

  predicate HasTransition(g: Graph, s: nat, bytes: ByteClass, t: nat) {
    s < |g| && Transition(bytes, t) in g[s].transitions
  }

  /** `t` is reached from `s` by `n` empty moves. */
  ghost predicate EpsilonPath(g: Graph, s: nat, t: nat, n: nat)
    decreases n
  {
    if n == 0 then s == t else exists e: nat :: HasEpsilon(g, s, e) && EpsilonPath(g, e, t, n - 1)
  }

  ghost predicate EpsilonReaches(g: Graph, s: nat, t: nat) {
    exists n: nat :: EpsilonPath(g, s, t, n)
  }

  /** Some transition on `b` leaves `q`, and empty moves lead on to `t`. */
  ghost predicate MovesTo(g: Graph, q: nat, b: Byte, t: nat) {
    exists bytes, m: nat :: HasTransition(g, q, bytes, m) && b in bytes && EpsilonReaches(g, m, t)
  }

  /** Having read `w` from the start state, the graph can be in `t`. */
  ghost predicate Arrives(g: Graph, w: Text, t: nat) {
    if w == [] then EpsilonReaches(g, 0, t)
    else
      var front, last := w[..|w| - 1], w[|w| - 1];
      exists q: nat :: Arrives(g, front, q) && MovesTo(g, q, last, t)
  }

  lemma EpsilonStays(g: Graph, s: nat)
    ensures EpsilonReaches(g, s, s)
  {
    assert EpsilonPath(g, s, s, 0);
  }

  lemma {:induction false} EpsilonPathExtends(g: Graph, s: nat, t: nat, u: nat, n: nat)
    requires EpsilonPath(g, s, t, n) && HasEpsilon(g, t, u)
    ensures EpsilonPath(g, s, u, n + 1)
    decreases n
  {
    if n == 0 {
      assert EpsilonPath(g, u, u, 0);
    } else {
      var e: nat :| HasEpsilon(g, s, e) && EpsilonPath(g, e, t, n - 1);
      EpsilonPathExtends(g, e, t, u, n - 1);
    }
  }

  lemma EpsilonReachesExtends(g: Graph, s: nat, t: nat, u: nat)
    requires EpsilonReaches(g, s, t) && HasEpsilon(g, t, u)
    ensures EpsilonReaches(g, s, u)
  {
    var n: nat :| EpsilonPath(g, s, t, n);
    EpsilonPathExtends(g, s, t, u, n);
  }

  /** Arrival follows empty moves ... */
  lemma ArrivesByEpsilon(g: Graph, w: Text, t: nat, u: nat)
    requires Arrives(g, w, t) && HasEpsilon(g, t, u)
    ensures Arrives(g, w, u)
  {
    if w == [] {
      EpsilonReachesExtends(g, 0, t, u);
    } else {
      var q: nat :| Arrives(g, w[..|w| - 1], q) && MovesTo(g, q, w[|w| - 1], t);
      var bytes, m: nat :| HasTransition(g, q, bytes, m) && w[|w| - 1] in bytes && EpsilonReaches(g, m, t);
      EpsilonReachesExtends(g, m, t, u);
      assert MovesTo(g, q, w[|w| - 1], u);
    }
  }

  /** ... and transitions. */
  lemma ArrivesByByte(g: Graph, w: Text, b: Byte, q: nat, bytes: ByteClass, t: nat)
    requires Arrives(g, w, q) && HasTransition(g, q, bytes, t) && b in bytes
    ensures Arrives(g, w + [b], t)
  {
    EpsilonStays(g, t);
    assert MovesTo(g, q, b, t);
    assert (w + [b])[..|w + [b]| - 1] == w;
  }

  /** `h` has every edge of `g`. */
  ghost predicate Extends(g: Graph, h: Graph) {
    && (forall s: nat, t: nat :: HasEpsilon(g, s, t) ==> HasEpsilon(h, s, t))
    && (forall s: nat, bytes, t: nat :: HasTransition(g, s, bytes, t) ==> HasTransition(h, s, bytes, t))
  }

  lemma {:induction false} EpsilonPathSurvives(g: Graph, h: Graph, s: nat, t: nat, n: nat)
    requires Extends(g, h) && EpsilonPath(g, s, t, n)
    ensures EpsilonPath(h, s, t, n)
    decreases n
  {
    if n == 0 {
    } else {
      var e: nat :| HasEpsilon(g, s, e) && EpsilonPath(g, e, t, n - 1);
      EpsilonPathSurvives(g, h, e, t, n - 1);
    }
  }

  lemma EpsilonReachesSurvives(g: Graph, h: Graph, s: nat, t: nat)
    requires Extends(g, h) && EpsilonReaches(g, s, t)
    ensures EpsilonReaches(h, s, t)
  {
    var n: nat :| EpsilonPath(g, s, t, n);
    EpsilonPathSurvives(g, h, s, t, n);
  }

  lemma {:induction false} ArrivalSurvives(g: Graph, h: Graph, w: Text, t: nat)
    requires Extends(g, h) && Arrives(g, w, t)
    ensures Arrives(h, w, t)
  {
    if w == [] {
      EpsilonReachesSurvives(g, h, 0, t);
    } else {
      var q: nat :| Arrives(g, w[..|w| - 1], q) && MovesTo(g, q, w[|w| - 1], t);
      ArrivalSurvives(g, h, w[..|w| - 1], q);
      var bytes, m: nat :| HasTransition(g, q, bytes, m) && w[|w| - 1] in bytes && EpsilonReaches(g, m, t);
      EpsilonReachesSurvives(g, h, m, t);
      assert MovesTo(h, q, w[|w| - 1], t);
    }
  }

  // ---------- meaning of a program ----------

  predicate IsAsciiByte(b: Byte) {
    b < 0x80
  }

  function AllAscii(): ByteClass {
    set b: Byte | IsAsciiByte(b)
  }

  /** A class as it is declared: some ASCII bytes, or all the others. */
  datatype AsciiClass = AsciiClass(positive: ByteClass, negated: bool) {
    function Members(): ByteClass {
      if negated then AllAscii() - positive else positive
    }

    /** Only a class that is declared empty counts as such. */
    predicate IsEmpty() {
      !negated && positive == {}
    }
  }

  /** A class consists of the bytes it lists, or of the other ASCII bytes; a negated one never counts as empty. */
  lemma ClassMeans(c: AsciiClass)
    ensures forall b: Byte :: b in c.Members() <==> if c.negated then b < 128 && b !in c.positive else b in c.positive
    ensures c.IsEmpty() <==> !c.negated && forall b: Byte :: b !in c.Members()
  {
    if !c.negated && c.positive != {} {
      var b :| b in c.positive;
      assert b in c.Members();
    }
  }

  datatype Step =
    | MatchClass(charClass: AsciiClass)
    | LoopClass(charClass: AsciiClass, min: nat, max: int)
    | RequireBeginning
    | RequireEnd
    | Accept

  predicate IsMatch(step: Step, bytes: ByteClass) {
    step.MatchClass? && step.charClass.Members() == bytes
  }

  predicate IsLoop(step: Step, bytes: ByteClass, min: nat, max: int) {
    step.LoopClass? && step.charClass.Members() == bytes && step.min == min && step.max == max
  }

  predicate IsOpenEnded(max: int) {
    max < 0 || max == MAX_INT32
  }

  predicate AllIn(w: Text, bytes: ByteClass) {
    forall i :: 0 <= i < |w| ==> w[i] in bytes
  }

  /** A repetition count between `low` and `high`; without an upper end when `high` is absent. */
  datatype Count = Count(low: nat, high: Option<nat>)

  predicate Allows(count: Count, n: nat) {
    count.low <= n && (count.high.Some? ==> n <= count.high.value)
  }

  /** A closed loop never repeats fewer than `min` times, even when `max` is smaller. */
  function LoopCount(min: nat, max: int): Count {
    Count(min, if IsOpenEnded(max) then None else Some(if max < min then min else max))
  }

  /** The first `k` steps consume exactly `w`. */
  ghost predicate Consumes(steps: seq<Step>, k: nat, w: Text)
    requires k <= |steps|
    decreases k
  {
    if k == 0 then w == []
    else
      match steps[k - 1]
      case MatchClass(charClass) =>
        |w| > 0 && w[|w| - 1] in charClass.Members() && Consumes(steps, k - 1, w[..|w| - 1])
      case LoopClass(charClass, min, max) =>
        exists n: nat :: n <= |w| && Allows(LoopCount(min, max), n) && AllIn(w[|w| - n..], charClass.Members()) &&
                         Consumes(steps, k - 1, w[..|w| - n])
      case _ => Consumes(steps, k - 1, w)
  }

  /** Where the program ends: its first Accept, or its length. */
  function AcceptIndex(steps: seq<Step>): (k: nat)
    ensures k <= |steps| && (k < |steps| ==> steps[k].Accept?)
    ensures forall i :: 0 <= i < k ==> !steps[i].Accept?
  {
    if steps == [] || steps[0].Accept? then 0 else 1 + AcceptIndex(steps[1..])
  }

  // ---------- labels: what each state of the graph stands for ----------

  /** The first `k` steps, then a run over `bytes` as often as `count` allows. */
  datatype Label = Label(k: nat, bytes: ByteClass, count: Count)

  ghost predicate Denotes(steps: seq<Step>, tag: Label, w: Text)
    requires tag.k <= |steps|
  {
    exists n: nat :: Splits(steps, tag, w, n)
  }

  ghost predicate Splits(steps: seq<Step>, tag: Label, w: Text, n: nat)
    requires tag.k <= |steps|
  {
    n <= |w| && Allows(tag.count, n) && AllIn(w[|w| - n..], tag.bytes) && Consumes(steps, tag.k, w[..|w| - n])
  }

  const ZERO_TIMES := Count(0, Some(0))

  function After(k: nat): Label {
    Label(k, {}, ZERO_TIMES)
  }

  lemma DenotesAfter(steps: seq<Step>, k: nat, w: Text)
    requires k <= |steps|
    ensures Denotes(steps, After(k), w) <==> Consumes(steps, k, w)
  {
    assert w[..|w| - 0] == w && w[|w| - 0..] == [];
    if Consumes(steps, k, w) {
      assert Splits(steps, After(k), w, 0);
    }
  }

  ghost predicate LabelsFit(labels: seq<Label>, steps: seq<Step>) {
    forall s :: 0 <= s < |labels| ==> labels[s].k <= |steps|
  }

  /** Everything the label of `s` denotes, the label of `t` denotes too. */
  ghost predicate Includes(steps: seq<Step>, a: Label, b: Label)
    requires a.k <= |steps| && b.k <= |steps|
  {
    forall w :: Denotes(steps, a, w) ==> Denotes(steps, b, w)
  }

  ghost predicate Continues(steps: seq<Step>, a: Label, bytes: ByteClass, b: Label)
    requires a.k <= |steps| && b.k <= |steps|
  {
    forall w, c: Byte :: Denotes(steps, a, w) && c in bytes ==> Denotes(steps, b, w + [c])
  }

  /** Edges stay inside the graph and never leave what the labels denote. */
  ghost predicate Sound(g: Graph, labels: seq<Label>, steps: seq<Step>) {
    && |labels| == |g| > 0 && LabelsFit(labels, steps)
    && Denotes(steps, labels[0], [])
    && (forall s: nat, t: nat :: HasEpsilon(g, s, t) ==> t < |g| && Includes(steps, labels[s], labels[t]))
    && (forall s: nat, bytes, t: nat :: HasTransition(g, s, bytes, t) ==>
          t < |g| && Continues(steps, labels[s], bytes, labels[t]))
  }

  lemma {:induction false} EpsilonStaysInLabel(g: Graph, labels: seq<Label>, steps: seq<Step>, w: Text, s: nat, t: nat, n: nat)
    requires Sound(g, labels, steps) && s < |g| && Denotes(steps, labels[s], w) && EpsilonPath(g, s, t, n)
    ensures t < |g| && Denotes(steps, labels[t], w)
    decreases n
  {
    hide Denotes, HasEpsilon;
    if n == 0 {
    } else {
      var e: nat :| HasEpsilon(g, s, e) && EpsilonPath(g, e, t, n - 1);
      assert Includes(steps, labels[s], labels[e]);
      EpsilonStaysInLabel(g, labels, steps, w, e, t, n - 1);
    }
  }

  /** In a sound labelling a state is only reached by words its label denotes. */
  lemma {:induction false} ArrivalIsDenoted(g: Graph, labels: seq<Label>, steps: seq<Step>, w: Text, t: nat)
    requires Sound(g, labels, steps) && Arrives(g, w, t)
    ensures t < |g| && Denotes(steps, labels[t], w)
  {
    hide Denotes, HasEpsilon, HasTransition, EpsilonPath;
    if w == [] {
      var n: nat :| EpsilonPath(g, 0, t, n);
      EpsilonStaysInLabel(g, labels, steps, w, 0, t, n);
    } else {
      var front, c := w[..|w| - 1], w[|w| - 1];
      var q: nat :| Arrives(g, front, q) && MovesTo(g, q, c, t);
      ArrivalIsDenoted(g, labels, steps, front, q);
      var bytes, m: nat :| HasTransition(g, q, bytes, m) && c in bytes && EpsilonReaches(g, m, t);
      assert front + [c] == w;
      var n: nat :| EpsilonPath(g, m, t, n);
      EpsilonStaysInLabel(g, labels, steps, w, m, t, n);
    }
  }
}
