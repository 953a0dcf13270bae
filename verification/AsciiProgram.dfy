/**
 The tables of the anchored ASCII verifier: what they accept, and the scan that finds
 the longest match. Nothing is assumed about who filled the tables.
 */
module AsciiProgram {
  import opened Words
  import opened AsciiNfa

  datatype Program = Program(offsets: seq<nat>, counts: seq<nat>, sets: seq<ByteClass>, targets: seq<nat>,
                             accepting: seq<bool>, requiresBeginning: bool, requiresEnd: bool)

  /** Every row lies inside the table, and every edge leads to a state. */
  predicate IsTable(p: Program) {
    && 0 < |p.accepting| == |p.offsets| == |p.counts| && |p.sets| == |p.targets|
    && (forall s :: 0 <= s < |p.offsets| ==> p.offsets[s] + p.counts[s] <= |p.sets|)
    && (forall e :: 0 <= e < |p.targets| ==> p.targets[e] < |p.accepting|)
  }

  // ---------- the run of a program ----------

  /** The target of the first edge in [from, end) that takes `b`, or -1. */
  function FirstEdge(p: Program, from: nat, end: nat, b: Byte): (next: int)
    requires from <= end <= |p.sets| == |p.targets|
    ensures next < 0 ==> next == -1 && forall e :: from <= e < end ==> b !in p.sets[e]
    ensures 0 <= next ==> exists e :: from <= e < end && b in p.sets[e] && p.targets[e] == next
    decreases end - from
  {
    if from == end then -1
    else if b in p.sets[from] then p.targets[from]
    else FirstEdge(p, from + 1, end, b)
  }

  function Next(p: Program, state: nat, b: Byte): (next: int)
    requires IsTable(p) && state < |p.accepting|
    ensures -1 <= next < |p.accepting|
  {
    FirstEdge(p, p.offsets[state], p.offsets[state] + p.counts[state], b)
  }

  /** The state after `w`, or -1 once no edge was found. */
  function Run(p: Program, w: Text): (state: int)
    requires IsTable(p)
    ensures -1 <= state < |p.accepting|
  {
    if w == [] then 0
    else
      var before := Run(p, w[..|w| - 1]);
      if before < 0 then -1 else Next(p, before, w[|w| - 1])
  }

  predicate Accepts(p: Program, w: Text)
    requires IsTable(p)
  {
    Run(p, w) >= 0 && p.accepting[Run(p, w)]
  }

  lemma RunOneMore(p: Program, w: Text, b: Byte)
    requires IsTable(p)
    ensures Run(p, w + [b]) == if Run(p, w) < 0 then -1 else Next(p, Run(p, w), b)
  {
    var longer := w + [b];
    assert longer[..|longer| - 1] == w && longer[|longer| - 1] == b;
  }

  /** Once no edge is found, no longer text leads anywhere. */
  lemma {:induction false} DeadStaysDead(p: Program, w: Text, more: Text)
    requires IsTable(p) && Run(p, w) < 0
    ensures Run(p, w + more) < 0
    decreases |more|
  {
    if more == [] {
      assert w + more == w;
    } else {
      var front, b := more[..|more| - 1], more[|more| - 1];
      DeadStaysDead(p, w, front);
      RunOneMore(p, w + front, b);
      assert w + front + [b] == w + more;
    }
  }

  // ---------- matching ----------

  predicate IsAtEnd(input: Text, index: nat) {
    index == |input| || (index == |input| - 1 && input[index] == 10)
  }

  /** Under its anchors, the program accepts the `length` bytes from `startIndex`. */
  predicate Takes(p: Program, input: Text, startIndex: int, length: nat)
    requires IsTable(p)
  {
    && 0 <= startIndex && startIndex + length <= |input|
    && (p.requiresBeginning ==> startIndex == 0)
    && (p.requiresEnd ==> IsAtEnd(input, startIndex + length))
    && Accepts(p, input[startIndex..startIndex + length])
  }

  method FindTransition(p: Program, state: nat, value: Byte) returns (next: int)
    requires IsTable(p) && state < |p.accepting|
    ensures next == Next(p, state, value)
  {
    var offset, count := p.offsets[state], p.counts[state];
    for i := 0 to count
      invariant Next(p, state, value) == FirstEdge(p, offset + i, offset + count, value)
    {
      var transitionIndex := offset + i;
      if value in p.sets[transitionIndex] {
        return p.targets[transitionIndex];
      }
    }
    next := -1;
  }

  /** The longest match up to `index` is known. */
  ghost predicate BestSoFar(p: Program, input: Text, startIndex: int, index: int, best: int)
    requires IsTable(p)
  {
    && -1 <= best <= index - startIndex
    && (0 <= best ==> Takes(p, input, startIndex, best))
    && forall length: nat :: best < length <= index - startIndex ==> !Takes(p, input, startIndex, length)
  }

  lemma TakesHere(p: Program, input: Text, startIndex: nat, index: nat)
    requires IsTable(p) && startIndex <= index <= |input| && (p.requiresBeginning ==> startIndex == 0)
    requires Run(p, input[startIndex..index]) >= 0
    ensures Takes(p, input, startIndex, index - startIndex) <==>
              p.accepting[Run(p, input[startIndex..index])] && (!p.requiresEnd || IsAtEnd(input, index))
  {
    hide Run;
  }

  lemma DeadTakesNoLonger(p: Program, input: Text, startIndex: nat, index: nat, best: int)
    requires IsTable(p) && startIndex <= index < |input| && Run(p, input[startIndex..index + 1]) < 0
    requires BestSoFar(p, input, startIndex, index, best)
    ensures BestSoFar(p, input, startIndex, |input|, best)
  {
    hide Run, IsAtEnd;
    forall length: nat | best < length <= |input| - startIndex ensures !Takes(p, input, startIndex, length) {
      if index - startIndex < length {
        var w, v := input[startIndex..index + 1], input[startIndex..startIndex + length];
        assert v == w + v[|w|..];
        DeadStaysDead(p, w, v[|w|..]);
      }
    }
  }

  /** The program is the deterministic form of the steps. */
  ghost predicate Decides(p: Program, steps: seq<Step>) {
    var k := AcceptIndex(steps);
    && IsTable(p) && k < |steps|
    && (forall w :: Accepts(p, w) <==> Consumes(steps, k, w))
    && p.requiresBeginning == (RequireBeginning in steps[..k])
    && p.requiresEnd == (RequireEnd in steps[..k])
  }

  /** Nothing is left from here on, or a final line feed. */
  predicate EndsHere(input: Text, index: nat)
    requires index <= |input|
  {
    input[index..] == [] || input[index..] == [10]
  }

  lemma EndsHereIff(input: Text, index: nat)
    requires index <= |input|
    ensures IsAtEnd(input, index) <==> EndsHere(input, index)
  {
  }

  /** From `startIndex` the steps up to the Accept consume `length` bytes, with every anchor in place. */
  ghost predicate Matches(steps: seq<Step>, input: Text, startIndex: int, length: nat) {
    var k := AcceptIndex(steps);
    && k < |steps| && 0 <= startIndex && startIndex + length <= |input|
    && (RequireBeginning in steps[..k] ==> startIndex == 0)
    && (RequireEnd in steps[..k] ==> EndsHere(input, startIndex + length))
    && Consumes(steps, k, input[startIndex..startIndex + length])
  }

  /** A program that decides the steps takes what they match, and nothing else. */
  lemma TakesWhatMatches(p: Program, steps: seq<Step>, input: Text, startIndex: int, length: nat)
    requires Decides(p, steps)
    ensures Takes(p, input, startIndex, length) <==> Matches(steps, input, startIndex, length)
  {
    hide Accepts, Consumes, IsAtEnd, EndsHere;
    if 0 <= startIndex && startIndex + length <= |input| {
      EndsHereIff(input, startIndex + length);
    }
  }

  /** `length` is the longest one the program takes, if it takes any. */
  ghost predicate LongestTaken(p: Program, input: Text, startIndex: int, found: bool, length: nat)
    requires IsTable(p)
  {
    && (found <==> exists n: nat :: Takes(p, input, startIndex, n))
    && (found ==> Takes(p, input, startIndex, length))
    && (forall n: nat :: Takes(p, input, startIndex, n) ==> n <= length)
    && (!found ==> length == 0)
  }

  /** `length` is the longest one the steps match, if they match any. */
  ghost predicate LongestMatch(steps: seq<Step>, input: Text, startIndex: int, found: bool, length: nat) {
    && (found <==> exists n: nat :: Matches(steps, input, startIndex, n))
    && (found ==> Matches(steps, input, startIndex, length))
    && (forall n: nat :: Matches(steps, input, startIndex, n) ==> n <= length)
    && (!found ==> length == 0)
  }

  /** What the program takes is what any steps match that it decides. */
  lemma LongestTakenIsLongestMatch(p: Program, input: Text, startIndex: int, found: bool, length: nat)
    requires IsTable(p) && LongestTaken(p, input, startIndex, found, length)
    ensures forall steps :: Decides(p, steps) ==> LongestMatch(steps, input, startIndex, found, length)
  {
    hide Takes, Matches, Decides;
    forall steps | Decides(p, steps) ensures LongestMatch(steps, input, startIndex, found, length) {
      forall n: nat ensures Takes(p, input, startIndex, n) <==> Matches(steps, input, startIndex, n) {
        TakesWhatMatches(p, steps, input, startIndex, n);
      }
    }
  }

  /** For every table the longest text it takes; for the steps it decides, their longest match. */
  method TryMatch(p: Program, input: Text, startIndex: int) returns (found: bool, matchedLength: nat)
    requires IsTable(p)
    ensures LongestTaken(p, input, startIndex, found, matchedLength)
    ensures forall steps :: Decides(p, steps) ==> LongestMatch(steps, input, startIndex, found, matchedLength)
  {
    hide Run, Next, Takes, Decides, LongestMatch, LongestTaken, BestSoFar;
    found, matchedLength := false, 0;
    if startIndex < 0 || startIndex > |input| || (p.requiresBeginning && startIndex != 0) {
      TakesNothing(p, input, startIndex);
      return;
    }
    var state, index := 0, startIndex;
    assert input[startIndex..index] == [];
    NothingRead(p);
    TakesHere(p, input, startIndex, index);
    var lastAcceptLength := if p.accepting[state] && (!p.requiresEnd || IsAtEnd(input, index)) then 0 else -1;
    FirstCandidate(p, input, startIndex, lastAcceptLength);
    while index < |input|
      invariant startIndex <= index <= |input| && 0 <= state < |p.accepting|
      invariant Run(p, input[startIndex..index]) == state
      invariant BestSoFar(p, input, startIndex, index, lastAcceptLength)
    {
      var nextState := FindTransition(p, state, input[index]);
      assert input[startIndex..index + 1] == input[startIndex..index] + [input[index]];
      RunOneMore(p, input[startIndex..index], input[index]);
      if nextState < 0 {
        DeadTakesNoLonger(p, input, startIndex, index, lastAcceptLength);
        break;
      }
      state := nextState;
      index := index + 1;
      TakesHere(p, input, startIndex, index);
      NextCandidate(p, input, startIndex, index, lastAcceptLength);
      if p.accepting[state] && (!p.requiresEnd || IsAtEnd(input, index)) {
        lastAcceptLength := index - startIndex;
      }
    }
    BestOfAll(p, input, startIndex, lastAcceptLength);
    if lastAcceptLength < 0 {
      return;
    }
    return true, lastAcceptLength;
  }

  lemma NothingRead(p: Program)
    requires IsTable(p)
    ensures Run(p, []) == 0
  {
  }

  lemma TakesNothing(p: Program, input: Text, startIndex: int)
    requires IsTable(p) && (!(0 <= startIndex <= |input|) || (p.requiresBeginning && startIndex != 0))
    ensures LongestTaken(p, input, startIndex, false, 0)
    ensures forall steps :: Decides(p, steps) ==> LongestMatch(steps, input, startIndex, false, 0)
  {
    hide Decides, LongestMatch, Accepts;
    assert forall n: nat :: !Takes(p, input, startIndex, n);
    LongestTakenIsLongestMatch(p, input, startIndex, false, 0);
  }

  lemma FirstCandidate(p: Program, input: Text, startIndex: nat, best: int)
    requires IsTable(p) && startIndex <= |input| && best == if Takes(p, input, startIndex, 0) then 0 else -1
    ensures BestSoFar(p, input, startIndex, startIndex, best)
  {
    hide Takes;
  }

  lemma NextCandidate(p: Program, input: Text, startIndex: nat, index: nat, best: int)
    requires IsTable(p) && startIndex < index <= |input| && BestSoFar(p, input, startIndex, index - 1, best)
    ensures BestSoFar(p, input, startIndex, index,
                      if Takes(p, input, startIndex, index - startIndex) then index - startIndex else best)
  {
    hide Takes;
  }

  lemma BestOfAll(p: Program, input: Text, startIndex: nat, best: int)
    requires IsTable(p) && startIndex <= |input| && BestSoFar(p, input, startIndex, |input|, best)
    ensures LongestTaken(p, input, startIndex, 0 <= best, if best < 0 then 0 else best)
    ensures forall steps :: Decides(p, steps) ==> LongestMatch(steps, input, startIndex, 0 <= best, if best < 0 then 0 else best)
  {
    hide Accepts, Decides, LongestMatch;
    forall n: nat | Takes(p, input, startIndex, n) ensures n <= best {
      assert n <= |input| - startIndex;
    }
    LongestTakenIsLongestMatch(p, input, startIndex, 0 <= best, if best < 0 then 0 else best);
  }
}
