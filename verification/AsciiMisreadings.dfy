/**
 Two programs that the direct kernel gets wrong: one whose table accepts a text that the
 steps reject, and one on which the compiler fails with an exception.
 */
module AsciiMisreadings {
  import opened Common
  import opened Words
  import opened AsciiNfa
  import opened AsciiProgram
  import opened AsciiItems
  import opened AsciiLine
  import opened AsciiLineBuilder
  import opened AsciiDirectCompiler
  import opened AsciiLoopCompiler
  import opened AsciiAdmission
  import opened AsciiVerifier

  function ClassOf(b: Byte): AsciiClass {
    AsciiClass({b}, false)
  }

  function AnyNumberOf(b: Byte): Step {
    LoopClass(ClassOf(b), 0, -1)
  }

  /** `^a*b*c$` for c = 99, `^a*b*a$` for c = 97 */
  function TwoLoopsThen(c: Byte): seq<Step> {
    [RequireBeginning, AnyNumberOf(97), AnyNumberOf(98), MatchClass(ClassOf(c)), RequireEnd, Accept]
  }

  function TwoStars(): Items {
    [Star({97}), Star({98})]
  }

  lemma ItemsOfTwoLoops(c: Byte)
    ensures var steps := TwoLoopsThen(c);
            && ItemsOf(steps, 0) == [] && ItemsOf(steps, 1) == [] && ItemsOf(steps, 2) == [Star({97})]
            && ItemsOf(steps, 3) == TwoStars() && ItemsOf(steps, 4) == TwoStars() + [One({c})]
            && ItemsOf(steps, 5) == TwoStars() + [One({c})]
  {
    hide ItemsOf, SpentBefore;
    var steps := TwoLoopsThen(c);
    NoItems(steps, 0);
    ItemsOneMore(steps, 0);
    ItemsOneMore(steps, 1);
    ItemsOneMore(steps, 2);
    ItemsOneMore(steps, 3);
    ItemsOneMore(steps, 4);
    assert [] + [Star({97})] == [Star({97})];
    assert [Star({97})] + [Star({98})] == TwoStars();
    assert TwoStars() + [One({c})] + [] == TwoStars() + [One({c})];
  }

  /** A loop is taken by the kernel as long as the next class differs from it. */
  lemma StarGoesOn(steps: seq<Step>, i: nat, b: Byte, next: Byte, spent: nat)
    requires i + 1 < |steps| && steps[i] == AnyNumberOf(b) && b != next
    requires Consuming(steps[i + 1]) && steps[i + 1].charClass == ClassOf(next)
    requires spent <= 1000 && |ItemsOf(steps, i)| <= 10 && |LoopsHere(ItemsOf(steps, i))| <= 10
    requires FirstOverlap(LoopsHere(ItemsOf(steps, i)), {b}) == |LoopsHere(ItemsOf(steps, i))|
    ensures EventAt(steps, i, spent) == Continue && StepCharges(steps, i) == 3 + |LoopsHere(ItemsOf(steps, i))|
  {
    hide ItemsOf, LoopsHere, FirstOverlap;
    assert Following(steps, i + 1) == Some(ClassOf(next)) && ScanCharges(steps, i + 1) == 1;
    assert b !in {next};
  }

  lemma LevelsOfTwoStars()
    ensures LoopsHere([]) == [] && Level([]) == 0
    ensures LoopsHere([Star({97})]) == [Star({97})] && Level([Star({97})]) == 0
    ensures LoopsHere(TwoStars()) == TwoStars() && Level(TwoStars()) == 0
  {
    hide LoopsHere, Level, Source, Target;
    var a: Items := [Star({97})];
    NoItemsAtAll();
    LoopsOfOneMore([], Star({97}));
    LevelsOfOneMore([], Star({97}));
    assert [] + [Star({97})] == a;
    LoopsOfOneMore(a, Star({98}));
    LevelsOfOneMore(a, Star({98}));
    assert a + [Star({98})] == TwoStars();
  }

  lemma Differ(b: Byte, c: Byte)
    ensures ({b} !! {c}) <==> b != c
  {
    assert b in {b};
  }

  lemma OverlapsOfTwoStars(c: Byte)
    requires c != 98
    ensures FirstOverlap([], {97}) == 0 && FirstOverlap([Star({97})], {98}) == 1
    ensures FirstOverlap(TwoStars(), {c}) == if c == 97 then 0 else 2
  {
    hide FirstOverlap;
    Differ(97, 98);
    Differ(97, c);
    Differ(98, c);
    OverlapAtLeast([Star({97})], {98}, 1);
    if c == 97 {
      OverlapHere(TwoStars(), {c}, 0);
    } else {
      OverlapAtLeast(TwoStars(), {c}, 2);
    }
  }

  lemma LoopsOfTwoStars(c: Byte)
    requires c != 98
    ensures LoopsHere([]) == [] && Level([]) == 0
    ensures LoopsHere([Star({97})]) == [Star({97})] && LoopsHere(TwoStars()) == TwoStars() && Level(TwoStars()) == 0
    ensures FirstOverlap([], {97}) == 0 && FirstOverlap([Star({97})], {98}) == 1
    ensures FirstOverlap(TwoStars(), {c}) == if c == 97 then 0 else 2
  {
    hide LoopsHere, Level, FirstOverlap;
    LevelsOfTwoStars();
    OverlapsOfTwoStars(c);
  }

  /** The kernel goes on up to the class behind the two loops. */
  lemma BothLoopsGoOn(c: Byte)
    requires c != 98
    ensures var steps := TwoLoopsThen(c);
            && (forall j :: 0 <= j < 3 ==> EventHere(steps, j, 7) == Continue)
            && SpentBefore(steps, 3, 7) == 16
  {
    hide ItemsOf, LoopsHere, FirstOverlap, Level;
    var steps := TwoLoopsThen(c);
    ItemsOfTwoLoops(c);
    LoopsOfTwoStars(c);
    assert SpentBefore(steps, 0, 7) == 8 && EventAt(steps, 0, 8) == Continue && StepCharges(steps, 0) == 1;
    SpentOneMore(steps, 0, 7);
    StarGoesOn(steps, 1, 97, 98, 9);
    SpentOneMore(steps, 1, 7);
    StarGoesOn(steps, 2, 98, c, 12);
    SpentOneMore(steps, 2, 7);
  }

  lemma KernelBeginsAtSeven(c: Byte)
    ensures var steps := TwoLoopsThen(c);
            && steps != [] && AnchorsInPlace(steps) && |steps| <= MAX_OPTIMIZATION_STEPS
            && LoopEnd(steps, |steps|) == GiveUp && SpentOnLoops(steps) == 7
  {
    var steps := TwoLoopsThen(c);
    var core := CoreOf(steps);
    assert core[0] == AnyNumberOf(97) && |core| == 3;
    assert !CoreStepSuits(core, 0);
    assert FirstUnsuited(core, 0) == 0;
    assert !IsLoopSequence(steps);
  }

  /** `^a*b*c$` is compiled to one line of states. */
  lemma TwoLoopsGoByLine()
    ensures RouteOf(TwoLoopsThen(99)) == ByLine
  {
    hide ItemsOf, LoopsHere, FirstOverlap, Level, AnchorsInPlace, LoopEnd, LoopSequenceCharges;
    var steps := TwoLoopsThen(99);
    KernelBeginsAtSeven(99);
    BothLoopsGoOn(99);
    ItemsOfTwoLoops(99);
    LoopsOfTwoStars(99);
    assert EventAt(steps, 3, 16) == Continue && StepCharges(steps, 3) == 6;
    SpentOneMore(steps, 3, 7);
    assert EventAt(steps, 4, 22) == Continue && StepCharges(steps, 4) == 1;
    SpentOneMore(steps, 4, 7);
    assert EventAt(steps, 5, 23) == Finish;
    StopIsFirst(steps, 0, 5, 7);
  }

  /** On `^a*b*a$` the compiler fails: the class behind the loops meets the first of them. */
  lemma TwoLoopsClash()
    ensures RouteOf(TwoLoopsThen(97)) == Overlapping
  {
    hide ItemsOf, LoopsHere, FirstOverlap, Level, AnchorsInPlace, LoopEnd, LoopSequenceCharges;
    var steps := TwoLoopsThen(97);
    KernelBeginsAtSeven(97);
    BothLoopsGoOn(97);
    ItemsOfTwoLoops(97);
    LoopsOfTwoStars(97);
    assert EventAt(steps, 3, 16) == Clash;
    StopIsFirst(steps, 0, 3, 7);
  }

  /** b, a, c */
  const WRONG_ORDER: Text := [98, 97, 99]

  lemma AcceptOfTwoLoops(c: Byte)
    ensures AcceptIndex(TwoLoopsThen(c)) == 5 && AllDirect(TwoLoopsThen(c), 5)
  {
    AcceptStandsAt(TwoLoopsThen(c), 5);
  }

  lemma StatesOfTwoLoops()
    ensures var items := TwoStars() + [One({99})];
            && Source(items, 0) == Source(items, 1) == Source(items, 2) == 0
            && Target(items, 0) == Target(items, 1) == 0 && Target(items, 2) == Level(items) == 1
  {
    hide Level;
    var items := TwoStars() + [One({99})];
    LevelsOfTwoStars();
    LevelsOfOneMore(TwoStars(), One({99}));
    assert items[..0] == [] && items[..1] == [Star({97})] && items[..2] == TwoStars() && items[..3] == items;
  }

  /** Along the line the loops are taken in any order. */
  lemma WrongOrderIsWalked()
    ensures Walks(TwoStars() + [One({99})], WRONG_ORDER, 1)
  {
    hide Walks, Source, Target, Level;
    var items := TwoStars() + [One({99})];
    StatesOfTwoLoops();
    WalksNowhere(items);
    WalksOneMore(items, [], 1, 0, 98, 0);
    WalksOneMore(items, [] + [98], 0, 0, 97, 0);
    WalksOneMore(items, [] + [98] + [97], 2, 0, 99, 1);
    assert [] + [98] + [97] + [99] == WRONG_ORDER;
  }

  /** By the steps they are not. */
  lemma WrongOrderIsNotConsumed()
    ensures !ItemsConsume(TwoStars() + [One({99})], WRONG_ORDER)
  {
    var a: Items := [Star({97})];
    ConsumeOne(TwoStars(), {99}, WRONG_ORDER);
    assert WRONG_ORDER[..2] == [98, 97];
    assert TwoStars() == a + [Star({98})] && a == [] + [Star({97})];
    ConsumeStar(a, {98}, [98, 97]);
    ConsumeStar([], {97}, [98, 97]);
    assert [98, 97][..1] == [98];
    ConsumeStar([], {97}, [98]);
    ConsumeNothing([98, 97]);
    ConsumeNothing([98]);
  }

  /** `bac` is taken by every program the kernel makes of `^a*b*c$`, and does not match. */
  lemma TwoLoopsMisread(p: Program)
    requires IsLineOf(p, TwoLoopsThen(99))
    ensures IsTable(p) && Takes(p, WRONG_ORDER, 0, 3) && !Matches(TwoLoopsThen(99), WRONG_ORDER, 0, 3)
    ensures !LineSuits(TwoLoopsThen(99)) && !Decides(p, TwoLoopsThen(99))
  {
    hide ItemsOf, Walks, ItemsConsume, IsLine, ItemsApart, Consumes, AcceptIndex, Level, Alone, Hopeless, Run;
    var steps := TwoLoopsThen(99);
    var items := TwoStars() + [One({99})];
    AcceptOfTwoLoops(99);
    ItemsOfTwoLoops(99);
    LoopsOfTwoStars(99);
    LevelsOfOneMore(TwoStars(), One({99}));
    WrongOrderIsWalked();
    WrongOrderIsNotConsumed();
    LineAccepts(p, items, WRONG_ORDER);
    ItemsMean(steps, 5, WRONG_ORDER);
    assert WRONG_ORDER[0..3] == WRONG_ORDER;
    LineOfStepsDecidesIff(p, steps);
    assert Accepts(p, WRONG_ORDER) && !Consumes(steps, 5, WRONG_ORDER);
  }
}
