/**
 The shape of a table that is filled without a graph: a line of states, each left by one
 class and kept by the loops on it. When such a table means what the steps mean.
 */
module AsciiItems {
  import opened Words
  import opened AsciiNfa

  /** One byte of the class, or any number of them. */
  datatype Item = One(bytes: ByteClass) | Star(bytes: ByteClass)

  type Items = seq<Item>

  function Front(items: Items): Items
    requires items != []
  {
    items[..|items| - 1]
  }

  function Last(items: Items): Item
    requires items != []
  {
    items[|items| - 1]
  }

  /** The state behind the items: how often a class has been passed for good. */
  function Level(items: Items): nat {
    if items == [] then 0 else Level(Front(items)) + if Last(items).One? then 1 else 0
  }

  // ---------- what the items consume ----------

  ghost predicate ItemsConsume(items: Items, w: Text)
    decreases |items|, |w|
  {
    if items == [] then w == []
    else
      match Last(items)
      case One(bytes) => |w| > 0 && w[|w| - 1] in bytes && ItemsConsume(Front(items), w[..|w| - 1])
      case Star(bytes) =>
        ItemsConsume(Front(items), w) || (|w| > 0 && w[|w| - 1] in bytes && ItemsConsume(items, w[..|w| - 1]))
  }

  // ---------- how the line of states is walked ----------

  /** The state that item `t` leaves or keeps ... */
  function Source(items: Items, t: nat): nat
    requires t < |items|
  {
    Level(items[..t])
  }

  /** ... and the one it leads to. */
  function Target(items: Items, t: nat): nat
    requires t < |items|
  {
    Level(items[..t + 1])
  }

  /** Item `t` takes `b` from state `s` to state `next`: a class to the state after it, a loop to its own. */
  predicate Passes(items: Items, t: nat, s: nat, b: Byte, next: nat) {
    t < |items| && Source(items, t) == s && b in items[t].bytes && Target(items, t) == next
  }

  ghost predicate Moves(items: Items, s: nat, b: Byte, next: nat) {
    exists t :: Passes(items, t, s, b, next)
  }

  /** The states that `w` can lead to. */
  ghost predicate Walks(items: Items, w: Text, s: nat) {
    if w == [] then s == 0
    else
      var front, b := w[..|w| - 1], w[|w| - 1];
      exists q: nat :: Walks(items, front, q) && Moves(items, q, b, s)
  }

  lemma {:induction false} LevelGrows(items: Items, i: nat, j: nat)
    requires i <= j <= |items|
    ensures Level(items[..i]) <= Level(items[..j])
    decreases j
  {
    if i == j {
    } else {
      LevelGrows(items, i, j - 1);
      assert Front(items[..j]) == items[..j - 1];
    }
  }

  lemma LevelOfOneMore(items: Items, t: nat)
    requires t < |items|
    ensures Target(items, t) == Source(items, t) + if items[t].One? then 1 else 0
  {
    assert Front(items[..t + 1]) == items[..t];
  }

  /** What takes a byte in the first items takes it in all of them, and the other way round below their level. */
  lemma PassesInPrefix(items: Items, n: nat, t: nat, s: nat, b: Byte, next: nat)
    requires n <= |items|
    ensures Passes(items[..n], t, s, b, next) ==> Passes(items, t, s, b, next)
    ensures t < n && Passes(items, t, s, b, next) ==> Passes(items[..n], t, s, b, next)
  {
    if t < n {
      assert items[..n][..t] == items[..t] && items[..n][..t + 1] == items[..t + 1];
    }
  }

  lemma {:induction false} WalksInPrefix(items: Items, n: nat, w: Text, s: nat)
    requires n <= |items| && Walks(items[..n], w, s)
    ensures Walks(items, w, s)
    decreases |w|
  {
    hide Passes;
    if w == [] {
    } else {
      var front, b := w[..|w| - 1], w[|w| - 1];
      var q: nat :| Walks(items[..n], front, q) && Moves(items[..n], q, b, s);
      var t :| Passes(items[..n], t, q, b, s);
      PassesInPrefix(items, n, t, q, b, s);
      WalksInPrefix(items, n, front, q);
    }
  }

  lemma WalksOneMore(items: Items, w: Text, t: nat, s: nat, b: Byte, next: nat)
    requires Walks(items, w, s) && Passes(items, t, s, b, next)
    ensures Walks(items, w + [b], next)
  {
    var longer := w + [b];
    assert longer[..|longer| - 1] == w && longer[|longer| - 1] == b;
    assert Moves(items, s, b, next);
  }

  /** What the items consume leads along all of them. */
  lemma {:induction false} ConsumedIsWalked(items: Items, w: Text)
    requires ItemsConsume(items, w)
    ensures Walks(items, w, Level(items))
    decreases |items|, |w|
  {
    hide Walks;
    if items == [] {
      WalksNowhere(items);
    } else {
      var n := |items| - 1;
      assert items[..n] == Front(items) && items[..n + 1] == items;
      if Last(items).Star? && ItemsConsume(Front(items), w) {
        ConsumedIsWalked(Front(items), w);
        WalksInPrefix(items, n, w, Level(items));
      } else {
        var front, b := w[..|w| - 1], w[|w| - 1];
        assert front + [b] == w;
        if Last(items).Star? {
          ConsumedIsWalked(items, front);
        } else {
          ConsumedIsWalked(Front(items), front);
          WalksInPrefix(items, n, front, Level(Front(items)));
        }
        WalksOneMore(items, front, n, Level(Front(items)), b, Level(items));
      }
    }
  }

  lemma WalksNowhere(items: Items)
    ensures Walks(items, [], 0)
  {
  }

  // ---------- when walking is consuming ----------

  /** No state keeps two loops, other than loops that take nothing. */
  predicate Alone(items: Items) {
    forall t, u :: 0 <= t < u < |items| && items[t].Star? && items[u].Star? && Source(items, t) == Source(items, u) ==>
                     items[t].bytes == {} || items[u].bytes == {}
  }

  /** A class that must be passed has no bytes. */
  predicate Hopeless(items: Items) {
    exists t :: 0 <= t < |items| && items[t].One? && items[t].bytes == {}
  }

  /** The items of one state share no byte. */
  predicate ItemsApart(items: Items) {
    forall t, u :: 0 <= t < u < |items| && Source(items, t) == Source(items, u) ==> items[t].bytes !! items[u].bytes
  }

  /** Walks that end before the last items only use the items before them. */
  lemma {:induction false} WalksBelow(items: Items, n: nat, w: Text, s: nat)
    requires n <= |items| && Walks(items, w, s)
    requires forall t :: n <= t < |items| ==> Target(items, t) > s
    ensures Walks(items[..n], w, s)
    decreases |w|
  {
    hide Passes;
    if w == [] {
    } else {
      var front, b := w[..|w| - 1], w[|w| - 1];
      var q: nat :| Walks(items, front, q) && Moves(items, q, b, s);
      var t :| Passes(items, t, q, b, s);
      PassesMeans(items, t, q, b, s);
      PassesInPrefix(items, n, t, q, b, s);
      WalksBelow(items, n, front, q);
    }
  }

  lemma PassesMeans(items: Items, t: nat, s: nat, b: Byte, next: nat)
    requires Passes(items, t, s, b, next)
    ensures t < |items| && Source(items, t) == s <= next == Target(items, t) && b in items[t].bytes
    ensures next == s + if items[t].One? then 1 else 0
  {
    LevelOfOneMore(items, t);
  }

  lemma PrefixLevels(items: Items, n: nat)
    requires n <= |items|
    ensures forall t :: 0 <= t < n ==> Source(items[..n], t) == Source(items, t) && Target(items[..n], t) == Target(items, t)
  {
    forall t | 0 <= t < n
      ensures Source(items[..n], t) == Source(items, t) && Target(items[..n], t) == Target(items, t)
    {
      assert items[..n][..t] == items[..t] && items[..n][..t + 1] == items[..t + 1];
    }
  }

  lemma AloneFront(items: Items)
    requires items != [] && Alone(items)
    ensures Alone(Front(items))
  {
    hide Source;
    PrefixLevels(items, |items| - 1);
  }

  lemma LastItem(items: Items)
    requires items != []
    ensures var n := |items| - 1;
            && items[..n] == Front(items) && items[..n + 1] == items && items[n] == Last(items)
            && Source(items, n) == Level(Front(items)) && Target(items, n) == Level(items)
  {
    var n := |items| - 1;
    assert items[..n] == Front(items) && items[..n + 1] == items;
  }

  /** Before the last class only the items before it can be used. */
  lemma WalksToLastClass(items: Items, w: Text, s: nat)
    requires items != [] && Walks(items, w, s) && s < Level(items)
    requires Last(items).One?
    ensures Walks(Front(items), w, s)
  {
    hide Walks, Source, Target;
    var n := |items| - 1;
    LastItem(items);
    WalksBelow(items, n, w, s);
  }

  /** A loop that takes nothing changes nothing. */
  lemma {:induction false} WalksWithoutEmpty(items: Items, w: Text, s: nat)
    requires items != [] && Last(items).bytes == {} && Walks(items, w, s)
    ensures Walks(Front(items), w, s)
    decreases |w|
  {
    hide Passes;
    if w == [] {
    } else {
      var front, b := w[..|w| - 1], w[|w| - 1];
      var q: nat :| Walks(items, front, q) && Moves(items, q, b, s);
      var t :| Passes(items, t, q, b, s);
      PassesMeans(items, t, q, b, s);
      LastItem(items);
      PassesInPrefix(items, |items| - 1, t, q, b, s);
      WalksWithoutEmpty(items, front, q);
    }
  }

  /** Alone, the loops lose nothing: whatever leads along all items is consumed by them. */
  lemma {:induction false} WalkedIsConsumed(items: Items, w: Text)
    requires Alone(items) && Walks(items, w, Level(items))
    ensures ItemsConsume(items, w)
    decreases |items|, |w|
  {
    hide Alone, Passes, Source, Target;
    if items == [] {
      WalksNothing(w);
    } else {
      var n := |items| - 1;
      LastItem(items);
      AloneFront(items);
      if Last(items).One? {
        var front, b, q, t := LastStep(items, w, Level(items));
        OnlyLastReaches(items, t, q, b);
        WalksToLastClass(items, front, q);
        WalkedIsConsumed(Front(items), front);
      } else if Last(items).bytes == {} {
        WalksWithoutEmpty(items, w, Level(items));
        WalkedIsConsumed(Front(items), w);
      } else if w == [] {
        WalkedIsConsumed(Front(items), w);
      } else {
        var front, b, q, t := LastStep(items, w, Level(items));
        PassesMeans(items, t, q, b, Level(items));
        if t == n {
          WalkedIsConsumed(items, front);
        } else {
          WalksInFront(items, front, b, q, t);
          WalkedIsConsumed(Front(items), w);
        }
      }
    }
  }

  lemma WalksNothing(w: Text)
    requires Walks([], w, 0)
    ensures w == []
  {
  }

  lemma LastStep(items: Items, w: Text, s: nat) returns (front: Text, b: Byte, q: nat, t: nat)
    requires Walks(items, w, s) && (w != [] || s != 0)
    ensures w != [] && front == w[..|w| - 1] && b == w[|w| - 1]
    ensures Walks(items, front, q) && Passes(items, t, q, b, s)
  {
    hide Passes;
    front, b := w[..|w| - 1], w[|w| - 1];
    q :| Walks(items, front, q) && Moves(items, q, b, s);
    t :| Passes(items, t, q, b, s);
  }

  /** Nothing but the last class leads to the last state. */
  lemma OnlyLastReaches(items: Items, t: nat, q: nat, b: Byte)
    requires items != [] && Last(items).One? && Passes(items, t, q, b, Level(items))
    ensures t == |items| - 1 && q == Level(Front(items)) < Level(items) && b in Last(items).bytes
  {
    PassesMeans(items, t, q, b, Level(items));
    LastItem(items);
    if t < |items| - 1 {
      LevelGrows(items, t + 1, |items| - 1);
    }
  }

  /** Where the last loop stands alone, a step by an earlier item does without it. */
  lemma WalksInFront(items: Items, front: Text, b: Byte, q: nat, t: nat)
    requires Alone(items) && items != [] && Last(items).Star? && Last(items).bytes != {}
    requires Walks(items, front, q) && Passes(items, t, q, b, Level(items)) && t < |items| - 1
    ensures Walks(Front(items), front + [b], Level(items))
  {
    hide Walks;
    var n := |items| - 1;
    LastItem(items);
    PassesMeans(items, t, q, b, Level(items));
    var c := items[t].bytes;
    assert b in c;
    assert items[t].Star? ==> c == {};
    WalksBelow(items, n, front, q);
    PassesInPrefix(items, n, t, q, b, Level(items));
    WalksOneMore(Front(items), front, t, q, b, Level(items));
  }

  // ---------- when it is not ----------

  /** Where the items of a state share no byte, a text leads to one state at most. */
  lemma {:induction false} WalksToOne(items: Items, w: Text, r: nat, s: nat)
    requires ItemsApart(items) && Walks(items, w, r) && Walks(items, w, s)
    ensures r == s
    decreases |w|
  {
    hide ItemsApart, Passes;
    if w == [] {
    } else {
      var front, b, p, t := LastStep(items, w, r);
      var _, _, q, u := LastStep(items, w, s);
      WalksToOne(items, front, p, q);
      PassesOnce(items, t, u, p, b, r, s);
    }
  }

  lemma PassesOnce(items: Items, t: nat, u: nat, q: nat, b: Byte, r: nat, s: nat)
    requires ItemsApart(items) && Passes(items, t, q, b, r) && Passes(items, u, q, b, s)
    ensures t == u && r == s
  {
    hide Source, Target;
    var x, y := items[t].bytes, items[u].bytes;
    assert t < u ==> x !! y;
    assert u < t ==> y !! x;
  }

  /** The item that consumed the last byte, and what was consumed before it. */
  predicate ConsumedBy(items: Items, i: nat, j: nat, b: Byte) {
    j < i <= |items| && b in items[j].bytes
  }

  /** How many of the items were in use before item `j` took a byte. */
  function InUse(items: Items, j: nat): nat
    requires j < |items|
  {
    if items[j].Star? then j + 1 else j
  }

  lemma {:induction false} LastByte(items: Items, i: nat, w: Text, b: Byte) returns (j: nat)
    requires i <= |items| && ItemsConsume(items[..i], w + [b])
    ensures ConsumedBy(items, i, j, b) && ItemsConsume(items[..InUse(items, j)], w)
    decreases i
  {
    var longer := w + [b];
    assert longer[..|longer| - 1] == w && longer[|longer| - 1] == b;
    var some := items[..i];
    LastItem(some);
    assert some[..i - 1] == items[..i - 1];
    if Last(some).Star? && ItemsConsume(Front(some), longer) {
      j := LastByte(items, i - 1, w, b);
    } else {
      j := i - 1;
    }
  }

  /** It is the one item of the state before that takes the byte. */
  lemma LastByteBy(items: Items, i: nat, w: Text, q: nat, t: nat, b: Byte, s: nat)
    requires ItemsApart(items) && i <= |items| && ItemsConsume(items[..i], w + [b])
    requires Walks(items, w, q) && Passes(items, t, q, b, s)
    ensures t < i && ItemsConsume(items[..InUse(items, t)], w)
  {
    hide ItemsApart, ItemsConsume, Walks, Passes;
    var j := LastByte(items, i, w, b);
    var n := InUse(items, j);
    ConsumedIsWalked(items[..n], w);
    WalksInPrefix(items, n, w, Level(items[..n]));
    WalksToOne(items, w, q, Level(items[..n]));
    PassesItself(items, j, b);
    PassesOnce(items, t, j, q, b, s, Target(items, j));
  }

  lemma PassesItself(items: Items, j: nat, b: Byte)
    requires j < |items| && b in items[j].bytes
    ensures Level(items[..InUse(items, j)]) == Source(items, j)
    ensures Passes(items, j, Source(items, j), b, Target(items, j))
  {
    LevelOfOneMore(items, j);
  }

  /** `w` leads to state `s`, but none of the items up to there consume it. */
  ghost predicate Astray(items: Items, w: Text, s: nat) {
    Walks(items, w, s) && forall i :: 0 <= i <= |items| && Level(items[..i]) == s ==> !ItemsConsume(items[..i], w)
  }

  /** Two loops of one state: taken in the wrong order, they lead astray. */
  lemma WrongOrder(items: Items, w: Text, t: nat, u: nat, x: Byte, y: Byte)
    requires ItemsApart(items) && t < u < |items| && items[t].Star? && items[u].Star?
    requires Source(items, t) == Source(items, u) && Walks(items, w, Source(items, t))
    requires x in items[t].bytes && y in items[u].bytes
    ensures Astray(items, w + [y] + [x], Source(items, t))
  {
    hide ItemsApart, ItemsConsume, Walks, Passes;
    var s := Source(items, t);
    LevelOfOneMore(items, t);
    LevelOfOneMore(items, u);
    PassesItself(items, t, x);
    PassesItself(items, u, y);
    WalksOneMore(items, w, u, s, y, s);
    WalksOneMore(items, w + [y], t, s, x, s);
    forall i | 0 <= i <= |items| && Level(items[..i]) == s ensures !ItemsConsume(items[..i], w + [y] + [x]) {
      if ItemsConsume(items[..i], w + [y] + [x]) {
        LastByteBy(items, i, w + [y], s, t, x, s);
        LastByteBy(items, t + 1, w, s, u, y, s);
        assert false;
      }
    }
  }

  /** Passing the class of a state, what went astray stays astray. */
  lemma AstrayOneMore(items: Items, w: Text, t: nat, b: Byte)
    requires ItemsApart(items) && t < |items| && items[t].One? && b in items[t].bytes
    requires Astray(items, w, Source(items, t))
    ensures Astray(items, w + [b], Target(items, t))
  {
    hide ItemsApart, ItemsConsume, Walks, Passes;
    PassesItself(items, t, b);
    WalksOneMore(items, w, t, Source(items, t), b, Target(items, t));
    assert !ItemsConsume(items[..t], w);
    forall i | 0 <= i <= |items| && Level(items[..i]) == Target(items, t) ensures !ItemsConsume(items[..i], w + [b]) {
      if ItemsConsume(items[..i], w + [b]) {
        LastByteBy(items, i, w, Source(items, t), t, b, Target(items, t));
        assert false;
      }
    }
  }

  /** The class that leaves a state before the last one. */
  lemma {:induction false} ClassOfState(items: Items, s: nat) returns (t: nat)
    requires s < Level(items)
    ensures t < |items| && items[t].One? && Source(items, t) == s && Target(items, t) == s + 1
    decreases |items|
  {
    LastItem(items);
    var n := |items| - 1;
    if s < Level(Front(items)) {
      t := ClassOfState(Front(items), s);
      PrefixLevels(items, n);
    } else {
      t := n;
    }
  }

  lemma ByteOf(items: Items, t: nat) returns (b: Byte)
    requires !Hopeless(items) && t < |items| && items[t].One?
    ensures b in items[t].bytes
  {
    assert items[t].bytes != {};
    b :| b in items[t].bytes;
  }

  lemma {:induction false} SomeWalk(items: Items, s: nat) returns (w: Text)
    requires !Hopeless(items) && s <= Level(items)
    ensures Walks(items, w, s)
    decreases s
  {
    hide Hopeless, Passes, Walks;
    if s == 0 {
      w := [];
      WalksNowhere(items);
    } else {
      var front := SomeWalk(items, s - 1);
      var t := ClassOfState(items, s - 1);
      var b := ByteOf(items, t);
      PassesItself(items, t, b);
      WalksOneMore(items, front, t, s - 1, b, s);
      w := front + [b];
    }
  }

  lemma {:induction false} AstrayToTheEnd(items: Items, w: Text, s: nat) returns (v: Text)
    requires ItemsApart(items) && !Hopeless(items) && s <= Level(items) && Astray(items, w, s)
    ensures Astray(items, v, Level(items))
    decreases Level(items) - s
  {
    hide Hopeless, ItemsApart, Astray;
    if s == Level(items) {
      v := w;
    } else {
      var t := ClassOfState(items, s);
      var b := ByteOf(items, t);
      AstrayOneMore(items, w, t, b);
      v := AstrayToTheEnd(items, w + [b], s + 1);
    }
  }

  /** Behind a class without bytes there is nowhere to go. */
  lemma {:induction false} HopelessStops(items: Items, t: nat, w: Text, s: nat)
    requires t < |items| && items[t].One? && items[t].bytes == {} && Walks(items, w, s)
    ensures s <= Source(items, t)
    decreases |w|
  {
    hide Passes, Source, Target;
    if w == [] {
    } else {
      var front, b, q, u := LastStep(items, w, s);
      HopelessStops(items, t, front, q);
      PassesMeans(items, u, q, b, s);
      if q == Source(items, t) && items[u].One? {
        OneClassEach(items, t, u);
      }
    }
  }

  /** A state is left by one class only. */
  lemma OneClassEach(items: Items, t: nat, u: nat)
    requires t < |items| && u < |items| && items[t].One? && items[u].One? && Source(items, t) == Source(items, u)
    ensures t == u
  {
    LevelOfOneMore(items, t);
    LevelOfOneMore(items, u);
    if t < u {
      LevelGrows(items, t + 1, u);
    } else if u < t {
      LevelGrows(items, u + 1, t);
    }
  }

  lemma HopelessConsumesNothing(items: Items, w: Text)
    requires Hopeless(items)
    ensures !Walks(items, w, Level(items)) && !ItemsConsume(items, w)
  {
    hide Walks, ItemsConsume;
    var t :| 0 <= t < |items| && items[t].One? && items[t].bytes == {};
    LevelOfOneMore(items, t);
    LevelGrows(items, t + 1, |items|);
    assert items[..|items|] == items;
    if Walks(items, w, Level(items)) {
      HopelessStops(items, t, w, Level(items));
      assert false;
    }
    if ItemsConsume(items, w) {
      ConsumedIsWalked(items, w);
      assert false;
    }
  }

  /** Two loops on one state make a text that is walked to the end but not consumed. */
  lemma SomethingAstray(items: Items) returns (w: Text)
    requires ItemsApart(items) && !Alone(items) && !Hopeless(items)
    ensures Walks(items, w, Level(items)) && !ItemsConsume(items, w)
  {
    hide ItemsApart, Hopeless, Walks, ItemsConsume, Source, Target;
    var t, u :| 0 <= t < u < |items| && items[t].Star? && items[u].Star? && Source(items, t) == Source(items, u) &&
                items[t].bytes != {} && items[u].bytes != {};
    var x :| x in items[t].bytes;
    var y :| y in items[u].bytes;
    SourceBelow(items, t);
    var front := SomeWalk(items, Source(items, t));
    WrongOrder(items, front, t, u, x, y);
    w := AstrayToTheEnd(items, front + [y] + [x], Source(items, t));
    assert items[..|items|] == items;
  }

  lemma SourceBelow(items: Items, t: nat)
    requires t < |items|
    ensures Source(items, t) <= Level(items)
  {
    LevelGrows(items, t, |items|);
    assert items[..|items|] == items;
  }

  /** Exactly what leads along all items is consumed by them. */
  ghost predicate LineIsSound(items: Items) {
    forall w :: Walks(items, w, Level(items)) <==> ItemsConsume(items, w)
  }

  /** The line of states means what the items mean exactly when every loop stands alone, or nothing is ever accepted. */
  lemma LineMeansItemsIff(items: Items)
    requires ItemsApart(items)
    ensures LineIsSound(items) <==> Alone(items) || Hopeless(items)
  {
    hide ItemsApart, Alone, Hopeless, Walks, ItemsConsume;
    if Hopeless(items) {
      forall w ensures Walks(items, w, Level(items)) <==> ItemsConsume(items, w) {
        HopelessConsumesNothing(items, w);
      }
    } else if Alone(items) {
      forall w ensures Walks(items, w, Level(items)) <==> ItemsConsume(items, w) {
        if Walks(items, w, Level(items)) {
          WalkedIsConsumed(items, w);
        }
        if ItemsConsume(items, w) {
          ConsumedIsWalked(items, w);
        }
      }
    } else {
      var w := SomethingAstray(items);
      assert !(Walks(items, w, Level(items)) <==> ItemsConsume(items, w));
    }
  }

  // ---------- the items of a program ----------

  function Ones(bytes: ByteClass, n: nat): (items: Items)
    ensures |items| == n
  {
    if n == 0 then [] else Ones(bytes, n - 1) + [One(bytes)]
  }

  /** A class, a fixed number of classes, or a loop of any number. */
  function ItemsOfStep(step: Step): Items {
    match step
    case MatchClass(charClass) => [One(charClass.Members())]
    case LoopClass(charClass, min, max) =>
      if min == max then Ones(charClass.Members(), min)
      else if min == 0 && IsOpenEnded(max) then [Star(charClass.Members())]
      else []
    case _ => []
  }

  function ItemsOf(steps: seq<Step>, k: nat): Items
    requires k <= |steps|
  {
    if k == 0 then [] else ItemsOf(steps, k - 1) + ItemsOfStep(steps[k - 1])
  }

  /** The steps that items can stand for. */
  predicate IsDirect(step: Step) {
    step.LoopClass? ==> (step.min == step.max && !IsOpenEnded(step.max)) || (step.min == 0 && IsOpenEnded(step.max))
  }

  lemma ConsumeOne(items: Items, bytes: ByteClass, w: Text)
    ensures ItemsConsume(items + [One(bytes)], w) <==>
              |w| > 0 && w[|w| - 1] in bytes && ItemsConsume(items, w[..|w| - 1])
  {
    var longer := items + [One(bytes)];
    assert Front(longer) == items;
  }

  ghost predicate RunThenConsume(items: Items, bytes: ByteClass, w: Text, n: nat) {
    n <= |w| && AllIn(w[|w| - n..], bytes) && ItemsConsume(items, w[..|w| - n])
  }

  lemma {:induction false} ConsumeOnes(items: Items, bytes: ByteClass, n: nat, w: Text)
    ensures ItemsConsume(items + Ones(bytes, n), w) <==> RunThenConsume(items, bytes, w, n)
    decreases n
  {
    hide ItemsConsume;
    if n == 0 {
      assert items + [] == items && w[..|w| - 0] == w;
    } else {
      var some := items + Ones(bytes, n - 1);
      assert some + [One(bytes)] == items + Ones(bytes, n);
      ConsumeOne(some, bytes, w);
      if |w| > 0 {
        var front := w[..|w| - 1];
        ConsumeOnes(items, bytes, n - 1, front);
        if n <= |w| {
          RunOneLonger(w, bytes, n);
          assert front[..|front| - (n - 1)] == w[..|w| - n];
        }
      }
    }
  }

  lemma RunOneLonger(w: Text, bytes: ByteClass, n: nat)
    requires 0 < n <= |w|
    ensures var front := w[..|w| - 1];
            AllIn(w[|w| - n..], bytes) <==> w[|w| - 1] in bytes && AllIn(front[|front| - (n - 1)..], bytes)
  {
    var front, run := w[..|w| - 1], w[|w| - n..];
    var shorter := front[|front| - (n - 1)..];
    assert run == shorter + [w[|w| - 1]];
    assert run[n - 1] == w[|w| - 1];
    assert forall i :: 0 <= i < n - 1 ==> run[i] == shorter[i];
  }

  lemma ConsumeStar(items: Items, bytes: ByteClass, w: Text)
    ensures ItemsConsume(items + [Star(bytes)], w) <==>
              ItemsConsume(items, w) ||
              (|w| > 0 && w[|w| - 1] in bytes && ItemsConsume(items + [Star(bytes)], w[..|w| - 1]))
  {
    var longer := items + [Star(bytes)];
    assert Front(longer) == items;
  }

  lemma {:induction false} ConsumeStars(items: Items, bytes: ByteClass, w: Text)
    ensures ItemsConsume(items + [Star(bytes)], w) <==> exists n: nat :: RunThenConsume(items, bytes, w, n)
    decreases |w|
  {
    hide ItemsConsume, AllIn;
    ConsumeStar(items, bytes, w);
    assert w[..|w| - 0] == w;
    EmptyRun(w, bytes);
    assert ItemsConsume(items, w) <==> RunThenConsume(items, bytes, w, 0);
    if |w| == 0 {
    } else {
      var front := w[..|w| - 1];
      ConsumeStars(items, bytes, front);
      forall n: nat | 0 < n <= |w|
        ensures RunThenConsume(items, bytes, w, n) <==> w[|w| - 1] in bytes && RunThenConsume(items, bytes, front, n - 1)
      {
        RunOneLonger(w, bytes, n);
        assert front[..|front| - (n - 1)] == w[..|w| - n];
      }
      if n: nat :| RunThenConsume(items, bytes, front, n) {
        assert w[|w| - 1] in bytes ==> RunThenConsume(items, bytes, w, n + 1);
      }
    }
  }

  lemma EmptyRun(w: Text, bytes: ByteClass)
    ensures AllIn(w[|w| - 0..], bytes)
  {
  }

  /** The items of direct steps consume what the steps consume. */
  lemma {:induction false} ItemsMean(steps: seq<Step>, k: nat, w: Text)
    requires k <= |steps| && forall j :: 0 <= j < k ==> IsDirect(steps[j])
    ensures ItemsConsume(ItemsOf(steps, k), w) <==> Consumes(steps, k, w)
    decreases k
  {
    hide ItemsConsume, AllIn;
    if k == 0 {
      ConsumeNothing(w);
    } else {
      var items := ItemsOf(steps, k - 1);
      forall v ensures ItemsConsume(items, v) <==> Consumes(steps, k - 1, v) {
        ItemsMean(steps, k - 1, v);
      }
      match steps[k - 1] {
        case MatchClass(charClass) =>
          ConsumeOne(items, charClass.Members(), w);
        case LoopClass(charClass, min, max) =>
          var bytes := charClass.Members();
          assert IsDirect(steps[k - 1]);
          if min == max {
            ConsumeOnes(items, bytes, min, w);
          } else {
            ConsumeStars(items, bytes, w);
          }
          LoopMeans(steps, k, items, bytes, min, max, w);
        case _ =>
          assert items + [] == items;
      }
    }
  }

  lemma ConsumeNothing(w: Text)
    ensures ItemsConsume([], w) <==> w == []
  {
  }

  lemma LoopMeans(steps: seq<Step>, k: nat, items: Items, bytes: ByteClass, min: nat, max: int, w: Text)
    requires 0 < k <= |steps| && IsLoop(steps[k - 1], bytes, min, max)
    requires forall v :: ItemsConsume(items, v) <==> Consumes(steps, k - 1, v)
    ensures Consumes(steps, k, w) <==> exists n: nat :: Allows(LoopCount(min, max), n) && RunThenConsume(items, bytes, w, n)
  {
    hide ItemsConsume, AllIn, Allows, LoopCount;
  }
}
