/**
 Splitting the bytes into disjoint classes, so that every class lies inside or outside
 each of a family of sets. Grouping equal sets would lose paths where two sets overlap.
 */
module AsciiAlphabet {
  import opened Words
  import opened AsciiNfa

  predicate Apart(classes: seq<ByteClass>) {
    forall i, j :: 0 <= i < j < |classes| ==> classes[i] !! classes[j]
  }

  predicate NoneEmpty(classes: seq<ByteClass>) {
    forall i :: 0 <= i < |classes| ==> classes[i] != {}
  }

  ghost predicate Covers(classes: seq<ByteClass>, b: Byte) {
    exists i :: 0 <= i < |classes| && b in classes[i]
  }

  /** The class does not straddle the border of `bytes`. */
  predicate Keeps(class0: ByteClass, bytes: ByteClass) {
    class0 <= bytes || class0 !! bytes
  }

  predicate Respects(classes: seq<ByteClass>, bytes: ByteClass) {
    forall i :: 0 <= i < |classes| ==> Keeps(classes[i], bytes)
  }

  /** Every class is a part of an earlier one, its parent. */
  predicate Parented(before: seq<ByteClass>, classes: seq<ByteClass>, parents: seq<nat>) {
    && |classes| == |parents|
    && forall i :: 0 <= i < |classes| ==> parents[i] < |before| && classes[i] <= before[parents[i]]
  }

  /** From `k` on the earlier classes are as they were; the others are done with. */
  predicate Settled(before: seq<ByteClass>, bytes: ByteClass, k: nat, classes: seq<ByteClass>, remaining: ByteClass) {
    && k <= |before| <= |classes|
    && (forall i :: k <= i < |before| ==> classes[i] == before[i])
    && (forall i :: 0 <= i < k ==> Keeps(classes[i], bytes) && classes[i] !! remaining)
    && (forall i :: |before| <= i < |classes| ==> Keeps(classes[i], bytes) && classes[i] !! remaining)
  }

  /** `remaining` is what the first `k` classes leave of `bytes`. */
  ghost predicate Remains(before: seq<ByteClass>, bytes: ByteClass, k: nat, remaining: ByteClass)
    requires k <= |before|
  {
    forall b :: b in remaining <==> b in bytes && !Covers(before[..k], b)
  }

  /** The classes cover what they covered before. */
  ghost predicate SameCover(before: seq<ByteClass>, classes: seq<ByteClass>) {
    forall b :: Covers(classes, b) <==> Covers(before, b)
  }

  ghost predicate Splitting(before: seq<ByteClass>, bytes: ByteClass, k: nat, classes: seq<ByteClass>,
                            parents: seq<nat>, remaining: ByteClass) {
    && Apart(classes) && NoneEmpty(classes) && Parented(before, classes, parents) && SameCover(before, classes)
    && Settled(before, bytes, k, classes, remaining) && Remains(before, bytes, k, remaining)
  }

  lemma StartOfSplit(before: seq<ByteClass>, bytes: ByteClass) returns (parents: seq<nat>)
    requires Apart(before) && NoneEmpty(before)
    ensures Splitting(before, bytes, 0, before, parents, bytes)
  {
    parents := seq(|before|, i => i);
  }

  function Cut(classes: seq<ByteClass>, k: nat, low: ByteClass): seq<ByteClass>
    requires k < |classes|
  {
    var rest := classes[k] - low;
    classes[k := low] + (if rest != {} then [rest] else [])
  }

  lemma CoversOneMore(before: seq<ByteClass>, k: nat, b: Byte)
    requires k < |before|
    ensures Covers(before[..k + 1], b) <==> Covers(before[..k], b) || b in before[k]
  {
    var shorter, longer := before[..k], before[..k + 1];
    if i :| 0 <= i < |longer| && b in longer[i] {
      assert i < k ==> b in shorter[i];
    }
    if i :| 0 <= i < |shorter| && b in shorter[i] {
      assert b in longer[i];
    }
    if b in before[k] {
      assert b in longer[k];
    }
  }

  /** What is left after the class at `k`. */
  lemma RemainsAfter(before: seq<ByteClass>, bytes: ByteClass, k: nat, remaining: ByteClass)
    requires k < |before| && Remains(before, bytes, k, remaining)
    ensures Remains(before, bytes, k + 1, remaining - before[k])
  {
    hide Covers;
    forall b ensures Covers(before[..k + 1], b) <==> Covers(before[..k], b) || b in before[k] {
      CoversOneMore(before, k, b);
    }
  }

  /** Disjoint classes: what the first `k` leave of `bytes` is all that the next one can share with it. */
  lemma SharedIsRemaining(before: seq<ByteClass>, bytes: ByteClass, k: nat, remaining: ByteClass)
    requires k < |before| && Apart(before) && Remains(before, bytes, k, remaining)
    ensures before[k] * bytes == before[k] * remaining
  {
    forall b | b in before[k] ensures !Covers(before[..k], b) {
    }
  }

  lemma CutSettled(before: seq<ByteClass>, bytes: ByteClass, k: nat, classes: seq<ByteClass>, remaining: ByteClass)
    requires Settled(before, bytes, k, classes, remaining) && k < |before|
    requires before[k] * bytes == before[k] * remaining && remaining <= bytes
    ensures Settled(before, bytes, k + 1, Cut(classes, k, before[k] * remaining), remaining - before[k])
  {
    var low, rest := before[k] * remaining, before[k] - before[k] * remaining;
    assert Keeps(low, bytes) && Keeps(rest, bytes);
  }

  lemma Disjoint(a: ByteClass, b: ByteClass)
    requires a * b == {}
    ensures a !! b
  {
    assert forall x :: x in a && x in b ==> x in a * b;
  }

  lemma SkipSettled(before: seq<ByteClass>, bytes: ByteClass, k: nat, classes: seq<ByteClass>, remaining: ByteClass)
    requires Settled(before, bytes, k, classes, remaining) && k < |before|
    requires before[k] * bytes == {} && before[k] * remaining == {}
    ensures Settled(before, bytes, k + 1, classes, remaining)
  {
    Disjoint(classes[k], bytes);
    Disjoint(classes[k], remaining);
  }

  lemma CutApart(classes: seq<ByteClass>, k: nat, low: ByteClass)
    requires Apart(classes) && NoneEmpty(classes) && k < |classes| && low <= classes[k] && low != {}
    ensures Apart(Cut(classes, k, low)) && NoneEmpty(Cut(classes, k, low))
  {
    var cut := Cut(classes, k, low);
    forall i, j | 0 <= i < j < |cut| ensures cut[i] !! cut[j] {
      var p := if i == k then k else i;
      assert cut[i] <= classes[p];
      if j < |classes| {
        assert cut[j] <= classes[j];
      } else if i != k {
        assert cut[j] <= classes[k];
        assert classes[i] !! classes[k];
      }
    }
  }

  lemma CutCovers(classes: seq<ByteClass>, k: nat, low: ByteClass)
    requires k < |classes| && low <= classes[k]
    ensures SameCover(classes, Cut(classes, k, low))
  {
    var cut, rest := Cut(classes, k, low), classes[k] - low;
    forall b ensures Covers(classes, b) ==> Covers(cut, b) {
      if i :| 0 <= i < |classes| && b in classes[i] {
        if i == k && b !in low {
          assert b in rest;
          assert cut[|classes|] == rest;
        } else {
          assert b in cut[i];
        }
      }
    }
    forall b ensures Covers(cut, b) ==> Covers(classes, b) {
      if i :| 0 <= i < |cut| && b in cut[i] {
        var p := if i < |classes| then i else k;
        assert cut[i] <= classes[p];
        assert b in classes[p];
      }
    }
  }

  lemma CutClass(before: seq<ByteClass>, bytes: ByteClass, k: nat, classes: seq<ByteClass>, parents: seq<nat>,
                 remaining: ByteClass) returns (after: seq<nat>)
    requires Apart(before) && k < |before| && Splitting(before, bytes, k, classes, parents, remaining)
    requires classes[k] * remaining != {}
    ensures var low := classes[k] * remaining;
            Splitting(before, bytes, k + 1, Cut(classes, k, low), after, remaining - low)
  {
    hide Apart, NoneEmpty, SameCover, Covers, Keeps;
    var low := classes[k] * remaining;
    SharedIsRemaining(before, bytes, k, remaining);
    RemainsAfter(before, bytes, k, remaining);
    CutSettled(before, bytes, k, classes, remaining);
    CutApart(classes, k, low);
    CutCovers(classes, k, low);
    SameCoverChains(before, classes, Cut(classes, k, low));
    assert remaining - low == remaining - before[k];
    after := parents + (if |Cut(classes, k, low)| > |classes| then [parents[k]] else []);
  }

  lemma SameCoverChains(a: seq<ByteClass>, b: seq<ByteClass>, c: seq<ByteClass>)
    requires SameCover(a, b) && SameCover(b, c)
    ensures SameCover(a, c)
  {
    hide Covers;
  }

  lemma SkipClass(before: seq<ByteClass>, bytes: ByteClass, k: nat, classes: seq<ByteClass>, parents: seq<nat>,
                  remaining: ByteClass)
    requires Apart(before) && k < |before| && Splitting(before, bytes, k, classes, parents, remaining)
    requires classes[k] * remaining == {}
    ensures Splitting(before, bytes, k + 1, classes, parents, remaining)
  {
    hide Apart, NoneEmpty, SameCover, Covers, Keeps;
    SharedIsRemaining(before, bytes, k, remaining);
    RemainsAfter(before, bytes, k, remaining);
    SkipSettled(before, bytes, k, classes, remaining);
    assert remaining - before[k] == remaining by { Disjoint(before[k], remaining); }
  }

  lemma ClassAt(before: seq<ByteClass>, bytes: ByteClass, k: nat, classes: seq<ByteClass>, remaining: ByteClass)
    requires k < |before| && Settled(before, bytes, k, classes, remaining)
    ensures k < |classes| && classes[k] == before[k]
  {
  }

  /** Once nothing remains, the classes not yet looked at have nothing in common with `bytes`. */
  lemma {:induction false} NothingRemains(before: seq<ByteClass>, bytes: ByteClass, k: nat, classes: seq<ByteClass>,
                                          parents: seq<nat>, remaining: ByteClass)
    requires Apart(before) && k <= |before| && Splitting(before, bytes, k, classes, parents, remaining)
    requires remaining == {}
    ensures Splitting(before, bytes, |before|, classes, parents, remaining)
    decreases |before| - k
  {
    hide Apart, NoneEmpty, SameCover, Covers, Keeps, Parented, Remains, Settled;
    if k == |before| {
    } else {
      ClassAt(before, bytes, k, classes, remaining);
      assert classes[k] * remaining == {};
      SkipClass(before, bytes, k, classes, parents, remaining);
      NothingRemains(before, bytes, k + 1, classes, parents, remaining);
    }
  }

  /** The classes after the whole comparison. */
  ghost predicate Split(before: seq<ByteClass>, bytes: ByteClass, after: seq<ByteClass>) {
    && Apart(after) && NoneEmpty(after) && Respects(after, bytes)
    && (forall b :: Covers(after, b) <==> Covers(before, b) || b in bytes)
    && (forall earlier :: Respects(before, earlier) && (forall b :: b in earlier ==> Covers(before, b)) ==>
          Respects(after, earlier))
  }

  lemma EarlierKept(before: seq<ByteClass>, classes: seq<ByteClass>, parents: seq<nat>, earlier: ByteClass)
    requires Parented(before, classes, parents) && Respects(before, earlier)
    ensures Respects(classes, earlier)
  {
    forall i | 0 <= i < |classes| ensures Keeps(classes[i], earlier) {
      assert Keeps(before[parents[i]], earlier);
    }
  }

  lemma SplitEnds(before: seq<ByteClass>, bytes: ByteClass, classes: seq<ByteClass>, parents: seq<nat>,
                  remaining: ByteClass)
    requires Splitting(before, bytes, |before|, classes, parents, remaining) && remaining == {}
    ensures Split(before, bytes, classes)
  {
    hide Covers, Apart, NoneEmpty, Keeps, Parented;
    forall earlier | Respects(before, earlier) ensures Respects(classes, earlier) {
      EarlierKept(before, classes, parents, earlier);
    }
    assert before[..|before|] == before;
  }

  lemma SplitEndsWithRest(before: seq<ByteClass>, bytes: ByteClass, classes: seq<ByteClass>, parents: seq<nat>,
                          remaining: ByteClass)
    requires Splitting(before, bytes, |before|, classes, parents, remaining) && remaining != {}
    ensures Split(before, bytes, classes + [remaining])
  {
    hide Covers, Apart, NoneEmpty, Keeps, Parented;
    assert before[..|before|] == before;
    RestAppended(classes, remaining, bytes);
    forall earlier | Respects(before, earlier) && (forall b :: b in earlier ==> Covers(before, b))
      ensures Respects(classes + [remaining], earlier)
    {
      EarlierKept(before, classes, parents, earlier);
      KeepsApart(remaining, earlier);
    }
  }

  lemma KeepsApart(a: ByteClass, b: ByteClass)
    requires forall x :: x in a ==> x !in b
    ensures Keeps(a, b)
  {
  }

  lemma RestAppended(classes: seq<ByteClass>, rest: ByteClass, bytes: ByteClass)
    requires Apart(classes) && NoneEmpty(classes) && rest != {} && rest <= bytes
    requires forall i :: 0 <= i < |classes| ==> classes[i] !! rest
    ensures Apart(classes + [rest]) && NoneEmpty(classes + [rest]) && Keeps(rest, bytes)
    ensures forall b :: Covers(classes + [rest], b) <==> Covers(classes, b) || b in rest
  {
    var longer := classes + [rest];
    forall b ensures Covers(longer, b) <==> Covers(classes, b) || b in rest {
      assert longer[..|classes|] == classes && longer[..|longer|] == longer;
      CoversOneMore(longer, |classes|, b);
    }
  }

  // ---------- the split and its work as functions ----------

  /** Splitting from class `k` on, of the `n` classes there were. */
  function SplitFrom(classes: seq<ByteClass>, bytes: ByteClass, k: nat, n: nat): seq<ByteClass>
    requires k <= n <= |classes|
    decreases n - k
  {
    if k == n then if bytes == {} then classes else classes + [bytes]
    else
      var low := classes[k] * bytes;
      if low == {} then SplitFrom(classes, bytes, k + 1, n)
      else if bytes - low == {} then Cut(classes, k, low)
      else SplitFrom(Cut(classes, k, low), bytes - low, k + 1, n)
  }

  /** The classes looked at before the set is used up. */
  function SplitRounds(classes: seq<ByteClass>, bytes: ByteClass, k: nat, n: nat): nat
    requires k <= n <= |classes|
    decreases n - k
  {
    if k == n then 0
    else
      var low := classes[k] * bytes;
      if low == {} then 1 + SplitRounds(classes, bytes, k + 1, n)
      else if bytes - low == {} then 1
      else 1 + SplitRounds(Cut(classes, k, low), bytes - low, k + 1, n)
  }

  lemma RoundsAhead(classes: seq<ByteClass>, bytes: ByteClass, k: nat, n: nat)
    requires k < n <= |classes|
    ensures SplitRounds(classes, bytes, k, n) >= 1
  {
  }

  /** Compares every class there is with `bytes`, cutting those that straddle its border. */
  method SplitClasses(before: seq<ByteClass>, bytes: ByteClass, spent: nat)
    returns (ok: bool, classes: seq<ByteClass>, spentAfter: nat)
    requires Apart(before) && NoneEmpty(before) && spent <= MAX_OPTIMIZATION_STEPS
    ensures ok <==> spent + SplitRounds(before, bytes, 0, |before|) <= MAX_OPTIMIZATION_STEPS
    ensures ok ==> spentAfter == spent + SplitRounds(before, bytes, 0, |before|)
    ensures ok ==> Split(before, bytes, classes) && classes == SplitFrom(before, bytes, 0, |before|)
  {
    hide Split, Splitting, Apart, NoneEmpty, Covers, Keeps;
    classes, spentAfter := before, spent;
    var remaining := bytes;
    ghost var parents := StartOfSplit(before, bytes);
    var existingCount := |classes|;
    var index := 0;
    while index < existingCount
      invariant 0 <= index <= existingCount == |before| <= |classes|
      invariant Splitting(before, bytes, index, classes, parents, remaining)
      invariant spentAfter <= MAX_OPTIMIZATION_STEPS
      invariant spentAfter + SplitRounds(classes, remaining, index, |before|) == spent + SplitRounds(before, bytes, 0, |before|)
      invariant SplitFrom(classes, remaining, index, |before|) == SplitFrom(before, bytes, 0, |before|)
    {
      RoundsAhead(classes, remaining, index, |before|);
      spentAfter := spentAfter + 1;
      if spentAfter > MAX_OPTIMIZATION_STEPS {
        return false, classes, spentAfter;
      }
      var previous := classes[index];
      var low := previous * remaining;
      if low == {} {
        SkipClass(before, bytes, index, classes, parents, remaining);
        index := index + 1;
        continue;
      }
      parents := CutClass(before, bytes, index, classes, parents, remaining);
      ghost var cut := Cut(classes, index, low);
      classes := classes[index := low];
      var rest := previous - low;
      if rest != {} {
        classes := classes + [rest];
      }
      assert classes == cut;
      remaining := remaining - low;
      index := index + 1;
      if remaining == {} {
        NothingRemains(before, bytes, index, classes, parents, remaining);
        break;
      }
    }
    ok := true;
    if remaining != {} {
      SplitEndsWithRest(before, bytes, classes, parents, remaining);
      classes := classes + [remaining];
    } else {
      SplitEnds(before, bytes, classes, parents, remaining);
    }
  }
}
