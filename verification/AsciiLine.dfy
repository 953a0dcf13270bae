/**
 Tables that are filled without a graph, one item after the other, and what such a
 table decides.
 */
module AsciiLine {
  import opened Words
  import opened AsciiNfa
  import opened AsciiProgram
  import opened AsciiItems

  const MAX_LINE_STATES := 256
  const MAX_LINE_TRANSITIONS := 4096

  // ---------- a table of items ----------

  /** The row holds exactly the items of state `s`. */
  ghost predicate RowHolds(items: Items, s: nat, offset: nat, count: nat) {
    && offset + count <= |items|
    && forall t :: 0 <= t < |items| ==> (offset <= t < offset + count <==> Source(items, t) == s)
  }

  /** Every item has its edge, and every state that has items has its row. */
  ghost predicate Lines(offsets: seq<nat>, counts: seq<nat>, sets: seq<ByteClass>, targets: seq<nat>, items: Items) {
    && |sets| == |targets| == |items| && |offsets| == |counts|
    && (forall t :: 0 <= t < |items| ==> sets[t] == items[t].bytes && targets[t] == Target(items, t))
    && (forall t :: 0 <= t < |items| ==> Source(items, t) < |offsets|)
    && (forall s :: 0 <= s < |offsets| ==> RowHolds(items, s, offsets[s], counts[s]))
  }

  ghost predicate IsLine(p: Program, items: Items) {
    && Lines(p.offsets, p.counts, p.sets, p.targets, items)
    && |p.offsets| == |p.accepting| == Level(items) + 1
  }

  lemma LineIsTable(p: Program, items: Items)
    requires IsLine(p, items)
    ensures IsTable(p)
  {
    hide Source, Target;
    forall e | 0 <= e < |p.targets| ensures p.targets[e] < |p.accepting| {
      LevelGrows(items, e + 1, |items|);
      assert items[..|items|] == items;
      TargetIs(items, e);
    }
    forall s | 0 <= s < |p.offsets| ensures p.offsets[s] + p.counts[s] <= |p.sets| {
      assert RowHolds(items, s, p.offsets[s], p.counts[s]);
    }
  }

  lemma TargetIs(items: Items, t: nat)
    requires t < |items|
    ensures Target(items, t) == Level(items[..t + 1])
  {
  }

  /** A run of the table is a walk along the items, and the only one. */
  lemma {:induction false} RunIsWalk(p: Program, items: Items, w: Text)
    requires IsLine(p, items) && ItemsApart(items)
    ensures IsTable(p)
    ensures Run(p, w) >= 0 ==> Walks(items, w, Run(p, w))
    ensures forall s :: Walks(items, w, s) ==> Run(p, w) == s
    decreases |w|
  {
    hide IsLine, ItemsApart, Passes;
    LineIsTable(p, items);
    if w == [] {
    } else {
      var front, b := w[..|w| - 1], w[|w| - 1];
      assert front + [b] == w;
      RunIsWalk(p, items, front);
      RunOneMore(p, front, b);
      var q := Run(p, front);
      if q >= 0 && Next(p, q, b) >= 0 {
        var t := EdgeTaken(p, items, q, b);
        assert Moves(items, q, b, Next(p, q, b));
      }
      forall s | Walks(items, w, s) ensures Run(p, w) == s {
        var _, _, r, t := LastStep(items, w, s);
        TakenEdge(p, items, r, b, t, s);
      }
    }
  }

  lemma EdgeTaken(p: Program, items: Items, q: nat, b: Byte) returns (t: nat)
    requires IsLine(p, items) && IsTable(p) && q < |p.accepting| && Next(p, q, b) >= 0
    ensures Passes(items, t, q, b, Next(p, q, b))
  {
    hide Source, Target;
    assert RowHolds(items, q, p.offsets[q], p.counts[q]);
    t :| p.offsets[q] <= t < p.offsets[q] + p.counts[q] && b in p.sets[t] && p.targets[t] == Next(p, q, b);
  }

  lemma TakenEdge(p: Program, items: Items, q: nat, b: Byte, t: nat, s: nat)
    requires IsLine(p, items) && IsTable(p) && ItemsApart(items) && Passes(items, t, q, b, s)
    ensures q < |p.accepting| && Next(p, q, b) == s
  {
    hide Source, Target, ItemsApart;
    assert RowHolds(items, q, p.offsets[q], p.counts[q]);
    assert p.offsets[q] <= t < p.offsets[q] + p.counts[q] && b in p.sets[t];
    assert Next(p, q, b) >= 0;
    var u := EdgeTaken(p, items, q, b);
    PassesOnce(items, t, u, q, b, s, Next(p, q, b));
  }

  /** Only the last state accepts. */
  predicate AcceptsLast(p: Program) {
    |p.accepting| > 0 && forall s :: 0 <= s < |p.accepting| ==> p.accepting[s] == (s == |p.accepting| - 1)
  }

  lemma LineAccepts(p: Program, items: Items, w: Text)
    requires IsLine(p, items) && ItemsApart(items) && AcceptsLast(p)
    ensures IsTable(p) && (Accepts(p, w) <==> Walks(items, w, Level(items)))
  {
    hide ItemsApart, Walks, Run;
    LineIsTable(p, items);
    RunIsWalk(p, items, w);
  }

  predicate AllDirect(steps: seq<Step>, k: nat)
    requires k <= |steps|
  {
    forall j :: 0 <= j < k ==> IsDirect(steps[j])
  }

  predicate SameAnchors(p: Program, steps: seq<Step>) {
    var k := AcceptIndex(steps);
    p.requiresBeginning == (RequireBeginning in steps[..k]) && p.requiresEnd == (RequireEnd in steps[..k])
  }

  /** The loops of the steps up to the Accept stand alone, or some class before it has no bytes. */
  predicate LineSuits(steps: seq<Step>) {
    var items := ItemsOf(steps, AcceptIndex(steps));
    Alone(items) || Hopeless(items)
  }

  /** Accepting what the steps consume is walking what the items consume. */
  lemma AcceptsIffWalks(p: Program, steps: seq<Step>, k: nat, items: Items)
    requires k <= |steps| && AllDirect(steps, k) && items == ItemsOf(steps, k)
    requires IsLine(p, items) && ItemsApart(items) && AcceptsLast(p)
    ensures IsTable(p) && ((forall w :: Accepts(p, w) <==> Consumes(steps, k, w)) <==> LineIsSound(items))
  {
    hide IsLine, ItemsApart, AcceptsLast, Walks, ItemsConsume, ItemsOf, Accepts, Consumes, Level, IsTable;
    LineIsTable(p, items);
    forall w ensures (Accepts(p, w) <==> Walks(items, w, Level(items))) && (ItemsConsume(items, w) <==> Consumes(steps, k, w)) {
      LineAccepts(p, items, w);
      ItemsMean(steps, k, w);
    }
  }

  /** The exact condition under which a line of states decides the steps it was filled from. */
  lemma LineDecidesIff(p: Program, steps: seq<Step>)
    requires AcceptIndex(steps) < |steps| && AllDirect(steps, AcceptIndex(steps)) && SameAnchors(p, steps)
    requires var items := ItemsOf(steps, AcceptIndex(steps)); IsLine(p, items) && ItemsApart(items)
    requires AcceptsLast(p)
    ensures IsTable(p) && (Decides(p, steps) <==> LineSuits(steps))
  {
    hide IsLine, ItemsApart, AcceptsLast, Alone, Hopeless, Walks, ItemsConsume, ItemsOf, Accepts, Consumes, AllDirect, IsTable,
         AcceptIndex, LineIsSound;
    var k := AcceptIndex(steps);
    var items := ItemsOf(steps, k);
    AcceptsIffWalks(p, steps, k, items);
    LineMeansItemsIff(items);
  }
}
