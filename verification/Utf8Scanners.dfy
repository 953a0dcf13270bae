/**
 The byte-level scanners of the PCRE2 inspection report: the backward scalar step,
 the backward leading-run walk and the overlapping literal count.
 */
module Utf8Scanners {
  import opened Common
  import opened Words
  import opened Utf8

  // ---------- the backward step ----------

  /** The nearest earlier position that is not inside a scalar, or the start. */
  function Retreat(input: seq<Byte>, position: nat): (previous: nat)
    requires 0 < position <= |input|
    ensures previous < position
    ensures previous == 0 || !IsContinuation(input[previous])
    ensures forall i :: previous < i < position ==> IsContinuation(input[i])
  {
    if position == 1 || !IsContinuation(input[position - 1]) then position - 1
    else Retreat(input, position - 1)
  }

  method TryRetreatScalar(input: seq<Byte>, position: nat) returns (moved: bool, previous: nat)
    requires position <= |input|
    ensures moved == (position > 0)
    ensures previous == if position == 0 then 0 else Retreat(input, position)
  {
    if position == 0 {
      return false, 0;
    }
    previous := position - 1;
    while previous > 0 && IsContinuation(input[previous])
      invariant previous < position
      invariant Retreat(input, previous + 1) == Retreat(input, position)
    {
      previous := previous - 1;
    }
    moved := true;
  }

  /**
   From the end of the k-th scalar the step goes to its start, from where a forward
   decode reads exactly that scalar and lands on the position the step came from.
   */
  lemma RetreatLandsOnScalarStart(cs: seq<Scalar>, k: nat)
    requires k < |cs|
    ensures 0 < Boundary(cs, k + 1) <= |EncodeAll(cs)|
    ensures Retreat(EncodeAll(cs), Boundary(cs, k + 1)) == Boundary(cs, k)
    ensures DecodeFirst(EncodeAll(cs)[Boundary(cs, k)..]) ==
            Some((cs[k], Boundary(cs, k + 1) - Boundary(cs, k)))
  {
    hide DecodeFirst, Encode, EncodeAll, Retreat, IsContinuation;
    BoundaryStep(cs, k);
    RetreatOverOneScalar(EncodeAll(cs[..k]), Encode(cs[k]), EncodeAll(cs[k + 1..]));
    DecodeFirstInvertsEncode(cs[k], EncodeAll(cs[k + 1..]));
    assert EncodeAll(cs)[Boundary(cs, k)..] == Encode(cs[k]) + EncodeAll(cs[k + 1..]);
  }

  lemma RetreatOverOneScalar(before: seq<Byte>, bytes: seq<Byte>, after: seq<Byte>)
    requires 0 < |bytes| && !IsContinuation(bytes[0])
    requires forall i :: 0 < i < |bytes| ==> IsContinuation(bytes[i])
    ensures Retreat(before + bytes + after, |before| + |bytes|) == |before|
  {
    var input, start := before + bytes + after, |before|;
    assert forall i :: 0 <= i < |bytes| ==> input[start + i] == bytes[i];
    var previous := Retreat(input, start + |bytes|);
    assert previous > start ==> IsContinuation(bytes[previous - start]);
  }

  /** The positions visited by stepping back until the start is reached. */
  function RetreatChain(input: seq<Byte>, position: nat): seq<nat>
    requires position <= |input|
    decreases position
  {
    if position == 0 then [] else [Retreat(input, position)] + RetreatChain(input, Retreat(input, position))
  }

  lemma BoundaryZero(cs: seq<Scalar>)
    ensures Boundary(cs, 0) == 0
  {
  }

  /** The boundaries below the k-th one, last first. */
  function BoundariesDown(cs: seq<Scalar>, k: nat): (down: seq<nat>)
    requires k <= |cs|
    ensures |down| == k && forall i :: 0 <= i < k ==> down[i] == Boundary(cs, k - 1 - i)
  {
    if k == 0 then [] else [Boundary(cs, k - 1)] + BoundariesDown(cs, k - 1)
  }

  /** Stepping back from the k-th boundary visits every earlier boundary exactly once. */
  lemma {:induction false} RetreatsVisitEveryBoundary(cs: seq<Scalar>, k: nat)
    requires k <= |cs|
    ensures Boundary(cs, k) <= |EncodeAll(cs)|
    ensures RetreatChain(EncodeAll(cs), Boundary(cs, k)) == BoundariesDown(cs, k)
  {
    hide EncodeAll, Encode, Retreat, Boundary;
    if k == 0 {
      BoundaryZero(cs);
    } else {
      RetreatLandsOnScalarStart(cs, k - 1);
      RetreatsVisitEveryBoundary(cs, k - 1);
    }
  }

  // ---------- the leading-run walk ----------

  /** Token `i` tried at a position: where its match ends, if it matches. */
  type TokenMatcher = (int, nat) -> Option<int>

  predicate Steps(input: seq<Byte>, matcher: TokenMatcher, token: int, p: nat)
    requires p <= |input|
  {
    p > 0 && matcher(token, Retreat(input, p)) == Some(p)
  }

  /** Where one token's stretch of single-scalar matches, read backwards from `p`, begins. */
  function StretchStart(input: seq<Byte>, matcher: TokenMatcher, token: int, p: nat): (start: nat)
    requires p <= |input|
    ensures start <= p && !Steps(input, matcher, token, start)
  {
    if Steps(input, matcher, token, p) then StretchStart(input, matcher, token, Retreat(input, p)) else p
  }

  function StretchChecks(input: seq<Byte>, matcher: TokenMatcher, token: int, p: nat): nat
    requires p <= |input|
  {
    if p == 0 then 0
    else if Steps(input, matcher, token, p) then 1 + StretchChecks(input, matcher, token, Retreat(input, p))
    else 1
  }

  /** Checks made from `p` when `tokens` tokens are left, the last one first. */
  function WalkChecks(input: seq<Byte>, matcher: TokenMatcher, tokens: nat, p: nat): nat
    requires p <= |input|
    decreases tokens
  {
    if tokens == 0 then 0
    else
      var start := StretchStart(input, matcher, tokens - 1, p);
      StretchChecks(input, matcher, tokens - 1, p) +
      if start == p then 0 else WalkChecks(input, matcher, tokens - 1, start)
  }

  /** Where reading backwards from `p` comes by, `p` itself first. */
  function Visited(input: seq<Byte>, p: nat): seq<nat>
    requires p <= |input|
  {
    [p] + RetreatChain(input, p)
  }

  /** The token matches the next `n` scalars before `p`, each on its own, and not the one before them. */
  predicate MatchesScalars(input: seq<Byte>, matcher: TokenMatcher, token: int, p: nat, n: nat)
    requires p <= |input|
  {
    var visited := Visited(input, p);
    && n < |visited|
    && (forall i :: 0 <= i < n ==> matcher(token, visited[i + 1]) == Some(visited[i]))
    && (n + 1 < |visited| ==> matcher(token, visited[n + 1]) != Some(visited[n]))
  }

  /** A stretch of `n` scalars takes one check for each, and one more unless it reaches the start. */
  lemma {:induction false} StretchMeans(input: seq<Byte>, matcher: TokenMatcher, token: int, p: nat) returns (n: nat)
    requires p <= |input|
    ensures MatchesScalars(input, matcher, token, p, n)
    ensures StretchStart(input, matcher, token, p) == Visited(input, p)[n]
    ensures StretchChecks(input, matcher, token, p) == if StretchStart(input, matcher, token, p) == 0 then n else n + 1
  {
    hide Retreat;
    if Steps(input, matcher, token, p) {
      var previous := Retreat(input, p);
      var m := StretchMeans(input, matcher, token, previous);
      n := m + 1;
      assert Visited(input, p) == [p] + Visited(input, previous);
      forall i | 0 <= i < n ensures matcher(token, Visited(input, p)[i + 1]) == Some(Visited(input, p)[i]) {
        if i > 0 {
          assert matcher(token, Visited(input, previous)[i]) == Some(Visited(input, previous)[i - 1]);
        }
      }
    } else {
      n := 0;
    }
  }

  /** The walk ends with the first token that does not match the scalar before it. */
  lemma WalkEnds(input: seq<Byte>, matcher: TokenMatcher, tokens: nat, p: nat)
    requires 0 < p <= |input| && tokens > 0 && matcher(tokens - 1, Retreat(input, p)) != Some(p)
    ensures WalkChecks(input, matcher, tokens, p) == 1
  {
    hide Retreat;
  }

  /** The inner loop: one token, read backwards for as long as it matches one scalar. */
  method ReadStretch(input: seq<Byte>, matcher: TokenMatcher, token: int, from: nat)
    returns (runStart: nat, checks: nat)
    requires from <= |input|
    ensures runStart == StretchStart(input, matcher, token, from)
    ensures checks == StretchChecks(input, matcher, token, from)
  {
    checks := 0;
    runStart := from;
    var moved, previous := TryRetreatScalar(input, runStart);
    while moved
      invariant runStart <= from
      invariant moved == (runStart > 0) && (moved ==> previous == Retreat(input, runStart))
      invariant StretchStart(input, matcher, token, runStart) == StretchStart(input, matcher, token, from)
      invariant checks + StretchChecks(input, matcher, token, runStart) == StretchChecks(input, matcher, token, from)
      decreases runStart, moved
    {
      checks := checks + 1;
      var next := matcher(token, previous);
      if next.None? || next.value != runStart {
        break;
      }
      runStart := previous;
      moved, previous := TryRetreatScalar(input, runStart);
    }
  }

  method CountRunChecks(input: seq<Byte>, matcher: TokenMatcher, tokens: nat, hit: nat) returns (checks: nat)
    requires hit <= |input|
    ensures checks == WalkChecks(input, matcher, tokens, hit)
    ensures checks <= |RetreatChain(input, hit)| + tokens
  {
    hide StretchStart, StretchChecks, RetreatChain;
    checks := 0;
    var runStart: nat := hit;
    var i: int := tokens - 1;
    while i >= 0
      invariant -1 <= i < tokens && runStart <= hit
      invariant checks + WalkChecks(input, matcher, i + 1, runStart) == WalkChecks(input, matcher, tokens, hit)
    {
      var start, more := ReadStretch(input, matcher, i, runStart);
      checks := checks + more;
      if start == runStart {
        break;
      }
      runStart := start;
      i := i - 1;
    }
    WalkIsAmortized(input, matcher, tokens, hit);
  }

  lemma {:induction false} StretchIsAmortized(input: seq<Byte>, matcher: TokenMatcher, token: int, p: nat)
    requires p <= |input|
    ensures StretchChecks(input, matcher, token, p) + |RetreatChain(input, StretchStart(input, matcher, token, p))| <=
            |RetreatChain(input, p)| + 1
  {
    if !Steps(input, matcher, token, p) {
    } else {
      StretchIsAmortized(input, matcher, token, Retreat(input, p));
    }
  }

  /** Every check either passes a scalar for good or uses up a token. */
  lemma {:induction false} WalkIsAmortized(input: seq<Byte>, matcher: TokenMatcher, tokens: nat, p: nat)
    requires p <= |input|
    ensures WalkChecks(input, matcher, tokens, p) <= |RetreatChain(input, p)| + tokens
    decreases tokens
  {
    if tokens == 0 {
    } else {
      StretchIsAmortized(input, matcher, tokens - 1, p);
      WalkIsAmortized(input, matcher, tokens - 1, StretchStart(input, matcher, tokens - 1, p));
    }
  }

  /** On valid UTF-8 with the hit at a scalar boundary: scalars before the hit plus tokens. */
  lemma WalkBoundOnText(cs: seq<Scalar>, k: nat, matcher: TokenMatcher, tokens: nat)
    requires k <= |cs|
    ensures Boundary(cs, k) <= |EncodeAll(cs)|
    ensures WalkChecks(EncodeAll(cs), matcher, tokens, Boundary(cs, k)) <= k + tokens
  {
    RetreatsVisitEveryBoundary(cs, k);
    WalkIsAmortized(EncodeAll(cs), matcher, tokens, Boundary(cs, k));
  }

  function TotalChecks(input: seq<Byte>, matcher: TokenMatcher, tokens: nat, hits: seq<nat>): nat
    requires forall n :: 0 <= n < |hits| ==> hits[n] <= |input|
  {
    if hits == [] then 0
    else TotalChecks(input, matcher, tokens, hits[..|hits| - 1]) +
         WalkChecks(input, matcher, tokens, hits[|hits| - 1])
  }

  method CountLeadingRunFilterChecks(input: seq<Byte>, matcher: TokenMatcher, tokens: nat, hits: seq<nat>)
    returns (checks: nat)
    requires forall n :: 0 <= n < |hits| ==> hits[n] <= |input|
    ensures checks == TotalChecks(input, matcher, tokens, hits)
    ensures checks <= TotalBound(input, tokens, hits)
  {
    checks := 0;
    for n := 0 to |hits|
      invariant checks == TotalChecks(input, matcher, tokens, hits[..n])
    {
      var more := CountRunChecks(input, matcher, tokens, hits[n]);
      assert hits[..n + 1][..n] == hits[..n];
      checks := checks + more;
    }
    assert hits[..|hits|] == hits;
    TotalIsBounded(input, matcher, tokens, hits);
  }

  /** What each hit can cost at most: the steps back from it to the start, and one check for each token. */
  function TotalBound(input: seq<Byte>, tokens: nat, hits: seq<nat>): nat
    requires forall n :: 0 <= n < |hits| ==> hits[n] <= |input|
  {
    if hits == [] then 0
    else TotalBound(input, tokens, hits[..|hits| - 1]) + |RetreatChain(input, hits[|hits| - 1])| + tokens
  }

  lemma {:induction false} TotalIsBounded(input: seq<Byte>, matcher: TokenMatcher, tokens: nat, hits: seq<nat>)
    requires forall n :: 0 <= n < |hits| ==> hits[n] <= |input|
    ensures TotalChecks(input, matcher, tokens, hits) <= TotalBound(input, tokens, hits)
  {
    if hits == [] {
    } else {
      TotalIsBounded(input, matcher, tokens, hits[..|hits| - 1]);
      WalkIsAmortized(input, matcher, tokens, hits[|hits| - 1]);
    }
  }

  function HitsAt(cs: seq<Scalar>, positions: seq<nat>): (hits: seq<nat>)
    requires forall n :: 0 <= n < |positions| ==> positions[n] <= |cs|
    ensures |hits| == |positions|
    ensures forall n :: 0 <= n < |hits| ==> hits[n] == Boundary(cs, positions[n])
  {
    seq(|positions|, n requires 0 <= n < |positions| => Boundary(cs, positions[n]))
  }

  function Sum(s: seq<nat>): nat {
    if s == [] then 0 else Sum(s[..|s| - 1]) + s[|s| - 1]
  }

  /** On valid UTF-8 with hits at scalar boundaries: the scalars before each hit, plus tokens times hits. */
  lemma {:induction false} TotalBoundOnText(cs: seq<Scalar>, positions: seq<nat>, matcher: TokenMatcher, tokens: nat)
    requires forall n :: 0 <= n < |positions| ==> positions[n] <= |cs|
    ensures forall n :: 0 <= n < |positions| ==> HitsAt(cs, positions)[n] <= |EncodeAll(cs)|
    ensures TotalChecks(EncodeAll(cs), matcher, tokens, HitsAt(cs, positions)) <= Sum(positions) + |positions| * tokens
  {
    hide EncodeAll, WalkChecks, Boundary;
    if positions == [] {
    } else {
      var front, last := positions[..|positions| - 1], positions[|positions| - 1];
      TotalBoundOnText(cs, front, matcher, tokens);
      WalkBoundOnText(cs, last, matcher, tokens);
      var hits := HitsAt(cs, positions);
      assert hits[..|hits| - 1] == HitsAt(cs, front);
      OneMoreProduct(|front|, tokens);
    }
  }

  lemma OneMoreProduct(n: nat, tokens: nat)
    ensures (n + 1) * tokens == n * tokens + tokens
  {
  }

  // ---------- overlapping literal occurrences ----------

  predicate OccursAt(input: seq<Byte>, literal: seq<Byte>, i: int) {
    0 <= i <= |input| - |literal| && input[i..i + |literal|] == literal
  }

  /** Byte for byte, the literal stands there. */
  lemma OccursMeans(input: seq<Byte>, literal: seq<Byte>, i: nat)
    ensures OccursAt(input, literal, i) <==>
              i + |literal| <= |input| && forall j :: 0 <= j < |literal| ==> input[i + j] == literal[j]
  {
    if i + |literal| <= |input| {
      var part := input[i..i + |literal|];
      assert forall j :: 0 <= j < |literal| ==> part[j] == input[i + j];
    }
  }

  lemma OccurrencesShift(span: seq<Byte>, literal: seq<Byte>)
    requires |span| > 0
    ensures forall i :: 0 < i ==> OccursAt(span, literal, i) == OccursAt(span[1..], literal, i - 1)
  {
    forall i | 0 < i
      ensures OccursAt(span, literal, i) == OccursAt(span[1..], literal, i - 1)
    {
      if i <= |span| - |literal| {
        var here, there := span[i..i + |literal|], span[1..][i - 1..i - 1 + |literal|];
        assert |here| == |there| && forall j :: 0 <= j < |here| ==> here[j] == span[i + j] == there[j];
      }
    }
  }

  /** The first occurrence in a span, or -1. */
  function IndexOf(span: seq<Byte>, literal: seq<Byte>): (r: int)
    ensures -1 <= r
    ensures r >= 0 ==> OccursAt(span, literal, r)
    ensures forall i :: OccursAt(span, literal, i) ==> 0 <= r <= i
  {
    if |span| < |literal| then -1
    else if span[..|literal|] == literal then 0
    else if |span| == 0 then -1
    else
      var r := IndexOf(span[1..], literal);
      OccurrencesShift(span, literal);
      if r < 0 then -1 else r + 1
  }

  ghost function Occurrences(input: seq<Byte>, literal: seq<Byte>, below: int): set<int> {
    set i | 0 <= i < below && OccursAt(input, literal, i)
  }

  lemma OneMore(input: seq<Byte>, literal: seq<Byte>, from: int, found: int)
    requires 0 <= from <= found && OccursAt(input, literal, found)
    requires forall i :: from <= i < found ==> !OccursAt(input, literal, i)
    ensures |Occurrences(input, literal, found + 1)| == |Occurrences(input, literal, from)| + 1
  {
    hide OccursAt;
    assert Occurrences(input, literal, found + 1) == Occurrences(input, literal, from) + {found};
  }

  lemma NoneAtFirst(input: seq<Byte>, literal: seq<Byte>)
    ensures Occurrences(input, literal, 0) == {}
  {
  }

  lemma NoneLeft(input: seq<Byte>, literal: seq<Byte>, from: int)
    requires 0 <= from <= |input|
    requires forall i :: from <= i ==> !OccursAt(input, literal, i)
    ensures Occurrences(input, literal, |input|) == Occurrences(input, literal, from)
  {
  }

  method CountWindowLiteralHits(input: seq<Byte>, literal: seq<Byte>) returns (count: nat)
    ensures literal == [] ==> count == 0
    ensures literal != [] ==> count == |Occurrences(input, literal, |input|)|
  {
    if |literal| == 0 {
      return 0;
    }
    count := 0;
    var nextStart := 0;
    hide IndexOf, Occurrences;
    NoneAtFirst(input, literal);
    while nextStart <= |input| - |literal|
      invariant 0 <= nextStart <= |input|
      invariant count == |Occurrences(input, literal, nextStart)|
    {
      var relative := IndexOf(input[nextStart..], literal);
      SearchFrom(input, literal, nextStart, relative);
      if relative < 0 {
        break;
      }
      OneMore(input, literal, nextStart, nextStart + relative);
      count := count + 1;
      nextStart := nextStart + relative + 1;
    }
    NoneLeft(input, literal, nextStart);
  }

  /** A search from `from` finds the first occurrence that starts there or later. */
  lemma SearchFrom(input: seq<Byte>, literal: seq<Byte>, from: nat, relative: int)
    requires from <= |input| && relative == IndexOf(input[from..], literal)
    ensures relative < 0 ==> forall i :: from <= i ==> !OccursAt(input, literal, i)
    ensures relative >= 0 ==> OccursAt(input, literal, from + relative)
    ensures relative >= 0 ==> forall i :: from <= i < from + relative ==> !OccursAt(input, literal, i)
  {
    forall i | from <= i
      ensures OccursAt(input, literal, i) == OccursAt(input[from..], literal, i - from)
    {
      if i <= |input| - |literal| {
        assert input[i..i + |literal|] == input[from..][i - from..i - from + |literal|];
      }
    }
  }
}
