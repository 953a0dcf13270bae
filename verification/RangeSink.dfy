/**
 The 32-bit mixing sink that keeps a benchmarked operation from being optimised
 away. Signed 32-bit values are carried as their bit patterns.
 */
module RangeSink {
  import opened Words
  import opened Checksum

  /** Unchecked 32-bit multiplication by the mixing constant. */
  function Scale(sink: Word32): Word32 {
    sink * 16777619 % 0x1_0000_0000
  }

  function Mix(sink: Word32, v: Int32): Word32 {
    Xor32(Scale(sink), Bits32(v))
  }

  function Add(sink: Word32, r: Range): Word32 {
    Mix(Mix(sink, r.start), r.length)
  }

  function Complete(sink: Word32, count: Int32, isMore: bool): Word32 {
    Mix(Mix(sink, count), if isMore then 1 else 0)
  }

  function AddAll(sink: Word32, ranges: seq<Range>): Word32
    decreases |ranges|
  {
    if ranges == [] then sink else AddAll(Add(sink, ranges[0]), ranges[1..])
  }

  /** The mixing constant is odd, so scaling by it can be undone. */
  lemma ScaleSeparates(v: Word32, w: Word32)
    ensures Scale(v) == Scale(w) <==> v == w
  {
    UndoScale(v);
    UndoScale(w);
  }

  lemma UndoScale(v: Word32)
    ensures Scale(v) * 899433627 % TWO_TO_THE_32 == v
  {
    var q := v * 16777619 / TWO_TO_THE_32;
    RemainderOfMultiple32(Scale(v) * 899433627, v * 3513497 - q * 899433627, v);
  }

  lemma MixSeparatesSinks(s: Word32, t: Word32, v: Int32)
    ensures Mix(s, v) == Mix(t, v) <==> s == t
  {
    var bits := Bits32(v);
    ScaleSeparates(s, t);
    XorCancels(Scale(s), bits);
    XorCancels(Scale(t), bits);
  }

  lemma XorSeparates(a: Word32, v: Word32, w: Word32)
    ensures Xor32(a, v) == Xor32(a, w) <==> v == w
  {
    XorCommutes(a, v);
    XorCommutes(a, w);
    XorCancels(v, a);
    XorCancels(w, a);
  }

  lemma MixSeparatesValues(s: Word32, v: Int32, w: Int32)
    ensures Mix(s, v) == Mix(s, w) <==> v == w
  {
    XorSeparates(Scale(s), Bits32(v), Bits32(w));
    BitsSeparate(v, w);
  }

  lemma BitsSeparate(v: Int32, w: Int32)
    ensures Bits32(v) == Bits32(w) <==> v == w
  {
  }

  /** Where everything but one operand is zero, the sink is that operand, scaled as often as another one follows. */
  lemma SinkOfOne(v: Int32, isMore: bool)
    ensures Add(0, Range(0, v)) == Bits32(v) && Complete(0, 0, isMore) == if isMore then 1 else 0
    ensures Scale(1) == 16777619 && Add(0, Range(1, 0)) == 16777619 && Complete(0, 1, false) == 16777619
    ensures Add(1, Range(0, 0)) == 16777619 * 16777619 % 4294967296
  {
    XorUnits(Bits32(v));
    XorUnits(0);
    XorUnits(1);
    XorUnits(16777619);
    XorUnits(Scale(16777619));
  }

  lemma {:induction false} AddAllSeparates(s: Word32, t: Word32, ranges: seq<Range>)
    ensures AddAll(s, ranges) == AddAll(t, ranges) <==> s == t
    decreases |ranges|
  {
    if ranges == [] {
    } else {
      var r := ranges[0];
      MixSeparatesSinks(s, t, r.start);
      MixSeparatesSinks(Mix(s, r.start), Mix(t, r.start), r.length);
      AddAllSeparates(Add(s, r), Add(t, r), ranges[1..]);
    }
  }

  lemma AddAllNothing(s: Word32)
    ensures AddAll(s, []) == s
  {
  }

  lemma {:induction false} AddAllConcat(s: Word32, a: seq<Range>, b: seq<Range>)
    ensures AddAll(s, a + b) == AddAll(AddAll(s, a), b)
    decreases |a|
  {
    if a == [] {
      assert a + b == b;
    } else {
      assert (a + b)[1..] == a[1..] + b;
      AddAllConcat(Add(s, a[0]), a[1..], b);
    }
  }

  /**
   Two completed runs whose streams differ in one coordinate of one range, or only
   in `isMore`, never leave the same sink.
   */
  lemma OneCoordinateAlwaysShows(before: seq<Range>, r: Range, t: Range, after: seq<Range>, count: Int32, isMore: bool)
    requires r.start == t.start || r.length == t.length
    ensures r == t <==>
            Complete(AddAll(0, before + [r] + after), count, isMore) == Complete(AddAll(0, before + [t] + after), count, isMore)
  {
    var s := AddAll(0, before);
    AddAllConcat(0, before + [r], after);
    AddAllConcat(0, before + [t], after);
    AddAllConcat(0, before, [r]);
    AddAllConcat(0, before, [t]);
    assert AddAll(s, [r]) == Add(s, r) && AddAll(s, [t]) == Add(s, t);
    AddSeparates(s, r, t);
    AddAllSeparates(Add(s, r), Add(s, t), after);
    CompleteSeparates(AddAll(Add(s, r), after), AddAll(Add(s, t), after), count, isMore);
  }

  lemma AddSeparates(s: Word32, r: Range, t: Range)
    requires r.start == t.start || r.length == t.length
    ensures Add(s, r) == Add(s, t) <==> r == t
  {
    MixSeparatesValues(s, r.start, t.start);
    MixSeparatesSinks(Mix(s, r.start), Mix(s, t.start), r.length);
    MixSeparatesValues(Mix(s, r.start), r.length, t.length);
  }

  lemma CompleteSeparates(s: Word32, t: Word32, count: Int32, isMore: bool)
    ensures Complete(s, count, isMore) == Complete(t, count, isMore) <==> s == t
    ensures Complete(s, count, true) != Complete(s, count, false)
  {
    MixSeparatesSinks(s, t, count);
    MixSeparatesSinks(Mix(s, count), Mix(t, count), if isMore then 1 else 0);
    MixSeparatesValues(Mix(s, count), 1, 0);
  }
}
