/**
 The two independent producers of result checksums, sinks and progression audits:
 one reads the native engine's match stream, the other the managed engine's.
 A match stream is an arbitrary input here; what each producer does with it is not.
 */
module ResultProducers {
  import opened Common
  import opened Words
  import opened Checksum
  import RangeSink

  const MATCH_MANY_CAPACITY := 8

  datatype Operation = NoOperation | IsMatch | Count | EnumerateMatches | MatchMany | Replace

  function Code(op: Operation): Byte {
    match op
    case NoOperation => 0
    case IsMatch => 1
    case Count => 2
    case EnumerateMatches => 4
    case MatchMany => 8
    case Replace => 16
  }

  lemma CodesAre()
    ensures [Code(NoOperation), Code(IsMatch), Code(Count), Code(EnumerateMatches), Code(MatchMany), Code(Replace)] ==
            [0, 1, 2, 4, 8, 16]
  {
  }

  /** What the native match buffer answers for one pattern and subject. */
  datatype NativeEngine = NativeEngine(isMatch: bool, matches: seq<Range>)

  /** A managed match reports its end rather than its length. */
  datatype Span = Span(start: Int32, end: Int32)

  /**
   `assumesMoreWhenFull` holds of a direct backtracking program that may throw a
   deferred lookaround reset: such a program is not probed past a full destination.
   */
  datatype ManagedEngine = ManagedEngine(isMatch: bool, count: Int32, matches: seq<Span>, assumesMoreWhenFull: bool)

  function ToRange(m: Span): Range {
    Range(m.start, Wrap32(m.end - m.start))
  }

  /** Start and length reach the end, modulo 2^32; exactly so for a span that ends behind its start and is not too long. */
  lemma RangeReachesEnd(m: Span)
    ensures ToRange(m).start == m.start && (m.start + ToRange(m).length - m.end) % 4_294_967_296 == 0
    ensures 0 <= m.end - m.start < 2_147_483_648 ==> m.start + ToRange(m).length == m.end
  {
    WrapMeans(m.end - m.start, 0);
    var length := ToRange(m).length;
    assert (m.end - m.start - length) % 4_294_967_296 == 0;
    assert m.start + length - m.end == -(m.end - m.start - length);
  }

  function ToRanges(ms: seq<Span>): (ranges: seq<Range>)
    ensures |ranges| == |ms| && forall i :: 0 <= i < |ms| ==> ranges[i] == ToRange(ms[i])
  {
    if ms == [] then [] else [ToRange(ms[0])] + ToRanges(ms[1..])
  }

  /** What a stream cut off after `limit` ranges reports. */
  function Limited(code: Byte, matches: seq<Range>, limit: nat): Result {
    var taken := Min(|matches|, limit);
    Result(code, matches[..taken], Wrap32(taken), |matches| > limit)
  }

  // ---------- native side ----------

  method CountMatches(matches: seq<Range>) returns (count: Int32)
    ensures count == Wrap32(|matches|)
  {
    count := 0;
    for i := 0 to |matches|
      invariant count == Wrap32(i)
    {
      count := Wrap32(count + 1);
    }
  }

  method ComputeRangeChecksum(matches: seq<Range>, checksum: Builder, limit: Int32) returns (value: Word64)
    requires 0 <= limit
    requires checksum.Valid() && checksum.ranges == []
    modifies checksum
    ensures value == ChecksumOf(Limited(old(checksum.operation), matches, limit))
  {
    hide HashFrom, Serialize, RangesBytes, Header;
    var written, isMore := 0, false;
    while written < |matches|
      invariant 0 <= written <= Min(|matches|, limit)
      invariant checksum.Valid() && checksum.operation == old(checksum.operation)
      invariant checksum.ranges == matches[..written] && !isMore
    {
      if written == limit {
        isMore := true;
        break;
      }
      checksum.AddRange(matches[written]);
      written := written + 1;
    }
    value := checksum.Complete(written, isMore);
  }

  /** What the native side serializes; `None` is its NotSupportedException. */
  function NativeResult(op: Operation, engine: NativeEngine): Option<Result> {
    match op
    case IsMatch => Some(Result(Code(op), [], if engine.isMatch then 1 else 0, false))
    case Count => Some(Result(Code(op), [], Wrap32(|engine.matches|), false))
    case EnumerateMatches => Some(Limited(Code(op), engine.matches, MAX_INT32))
    case MatchMany => Some(Limited(Code(op), engine.matches, MATCH_MANY_CAPACITY))
    case _ => None
  }

  method NativeChecksum(op: Operation, engine: NativeEngine) returns (checksum: Option<Word64>)
    ensures NativeResult(op, engine).None? ==> checksum == None
    ensures NativeResult(op, engine).Some? ==> checksum == Some(ChecksumOf(NativeResult(op, engine).value))
  {
    hide HashFrom, Serialize, RangesBytes, Header;
    var builder := new Builder(Code(op));
    var value;
    match op {
      case IsMatch =>
        value := builder.Complete(if engine.isMatch then 1 else 0, false);
      case Count =>
        var count := CountMatches(engine.matches);
        value := builder.Complete(count, false);
      case EnumerateMatches =>
        value := ComputeRangeChecksum(engine.matches, builder, MAX_INT32);
      case MatchMany =>
        value := ComputeRangeChecksum(engine.matches, builder, MATCH_MANY_CAPACITY);
      case _ =>
        return None;
    }
    checksum := Some(value);
  }

  // ---------- managed side ----------

  /** Copies at most eight matches and says whether another one is available. */
  function MatchManyOf(engine: ManagedEngine): (r: (seq<Span>, bool)) {
    var written := Min(|engine.matches|, MATCH_MANY_CAPACITY);
    if written == MATCH_MANY_CAPACITY && engine.assumesMoreWhenFull then (engine.matches[..written], true)
    else (engine.matches[..written], |engine.matches| > written)
  }

  function ManagedResult(op: Operation, engine: ManagedEngine): Option<Result> {
    match op
    case IsMatch => Some(Result(Code(op), [], if engine.isMatch then 1 else 0, false))
    case Count => Some(Result(Code(op), [], engine.count, false))
    case EnumerateMatches =>
      Some(Result(Code(op), ToRanges(engine.matches), Wrap32(|engine.matches|), false))
    case MatchMany =>
      var (matches, isMore) := MatchManyOf(engine);
      Some(Result(Code(op), ToRanges(matches), |matches|, isMore))
    case _ => None
  }

  method AddSpans(matches: seq<Span>, checksum: Builder) returns (count: Int32)
    requires checksum.Valid() && checksum.ranges == []
    modifies checksum
    ensures checksum.Valid() && checksum.operation == old(checksum.operation)
    ensures checksum.ranges == ToRanges(matches)
    ensures count == Wrap32(|matches|)
  {
    hide *;
    count := 0;
    WrapFits(0);
    ghost var ranges := ToRanges(matches);
    for i := 0 to |matches|
      invariant checksum.Valid() && checksum.operation == old(checksum.operation)
      invariant checksum.ranges == ranges[..i]
      invariant count == Wrap32(i)
    {
      WrapSuccessor(i);
      checksum.AddRange(ToRange(matches[i]));
      assert ranges[..i + 1] == ranges[..i] + [ranges[i]];
      count := Wrap32(count + 1);
    }
  }

  method ManagedChecksum(op: Operation, engine: ManagedEngine) returns (checksum: Option<Word64>)
    ensures ManagedResult(op, engine).None? ==> checksum == None
    ensures ManagedResult(op, engine).Some? ==> checksum == Some(ChecksumOf(ManagedResult(op, engine).value))
  {
    hide HashFrom, Serialize, RangesBytes, Header;
    var builder := new Builder(Code(op));
    var value;
    match op {
      case IsMatch =>
        value := builder.Complete(if engine.isMatch then 1 else 0, false);
      case Count =>
        value := builder.Complete(engine.count, false);
      case EnumerateMatches =>
        var count := AddSpans(engine.matches, builder);
        value := builder.Complete(count, false);
      case MatchMany =>
        var (matches, isMore) := MatchManyOf(engine);
        var written := AddSpans(matches, builder);
        value := builder.Complete(written, isMore);
      case _ =>
        return None;
    }
    checksum := Some(value);
  }

  // ---------- agreement ----------

  /** Both engines found the same matches in the same order. */
  predicate SameAnswers(native: NativeEngine, managed: ManagedEngine) {
    && native.isMatch == managed.isMatch
    && managed.count == Wrap32(|native.matches|)
    && ToRanges(managed.matches) == native.matches
  }

  lemma {:induction false} ToRangesPrefix(ms: seq<Span>, k: nat)
    requires k <= |ms|
    ensures ToRanges(ms[..k]) == ToRanges(ms)[..k]
  {
    assert forall i :: 0 <= i < k ==> ToRanges(ms[..k])[i] == ToRange(ms[..k][i]) == ToRanges(ms)[i];
  }

  /**
   When the engines agree on the matches, the two checksums are equal for every
   operation, with one exception: MatchMany over exactly eight matches by a program
   that is not probed past a full destination.
   */
  lemma ChecksumsAgreeIff(op: Operation, native: NativeEngine, managed: ManagedEngine)
    requires SameAnswers(native, managed) && |native.matches| <= MAX_INT32
    ensures NativeResult(op, native).Some? == ManagedResult(op, managed).Some?
    ensures NativeResult(op, native).Some? ==>
              (ChecksumOf(NativeResult(op, native).value) == ChecksumOf(ManagedResult(op, managed).value) <==>
               !(op == MatchMany && managed.assumesMoreWhenFull && |native.matches| == MATCH_MANY_CAPACITY))
  {
    hide ChecksumOf, ToRanges;
    var n := |native.matches|;
    if op == EnumerateMatches {
      assert native.matches[..n] == native.matches;
    } else if op == MatchMany {
      MatchManyResults(native, managed);
      IsMoreAlwaysShows(NativeResult(op, native).value);
    }
  }

  /** The two MatchMany results differ in what they say about more matches, if at all. */
  lemma MatchManyResults(native: NativeEngine, managed: ManagedEngine)
    requires SameAnswers(native, managed)
    ensures NativeResult(MatchMany, native).Some? && ManagedResult(MatchMany, managed).Some?
    ensures var r, s := NativeResult(MatchMany, native).value, ManagedResult(MatchMany, managed).value;
            s == r || (s == r.(isMore := !r.isMore) &&
                       managed.assumesMoreWhenFull && |native.matches| == MATCH_MANY_CAPACITY)
    ensures managed.assumesMoreWhenFull && |native.matches| == MATCH_MANY_CAPACITY ==>
              NativeResult(MatchMany, native).value != ManagedResult(MatchMany, managed).value
  {
    ToRangesPrefix(managed.matches, Min(|native.matches|, MATCH_MANY_CAPACITY));
  }

  // ---------- where the checksums part ----------

  /** Eight matches of one byte each, seen by both engines. */
  function EightRanges(): (ranges: seq<Range>)
    ensures |ranges| == MATCH_MANY_CAPACITY
  {
    seq(8, i requires 0 <= i < 8 => Range(i, 1))
  }

  function EightNative(): NativeEngine {
    NativeEngine(true, EightRanges())
  }

  /** A program that may throw on a deferred lookaround reset, with the same eight matches. */
  function EightManaged(): ManagedEngine {
    ManagedEngine(true, 8, seq(8, i requires 0 <= i < 8 => Span(i, i + 1)), true)
  }

  /** The engines agree on every answer, and yet the MatchMany checksums and sinks differ. */
  lemma EightMatchesDisagree()
    ensures SameAnswers(EightNative(), EightManaged())
    ensures NativeResult(MatchMany, EightNative()).Some? && ManagedResult(MatchMany, EightManaged()).Some?
    ensures ChecksumOf(NativeResult(MatchMany, EightNative()).value) != ChecksumOf(ManagedResult(MatchMany, EightManaged()).value)
    ensures LimitedSink(EightNative().matches, MATCH_MANY_CAPACITY) != ManagedMatchManySink(EightManaged())
  {
    hide ChecksumOf, LimitedSink, ManagedMatchManySink, NativeResult, ManagedResult;
    EightSameAnswers();
    SupportsMatchMany(EightNative());
    ChecksumsAgreeIff(MatchMany, EightNative(), EightManaged());
    SinksAgreeIff(EightNative(), EightManaged());
  }

  lemma EightSameAnswers()
    ensures SameAnswers(EightNative(), EightManaged())
  {
    var managed := EightManaged();
    assert ToRanges(managed.matches) == EightRanges();
  }

  lemma SupportsMatchMany(engine: NativeEngine)
    ensures NativeResult(MatchMany, engine).Some?
  {
  }

  // ---------- progression audits ----------

  datatype ProgressionAudit = ProgressionAudit(countResult: Int32, enumeratedCount: Int32, checksum: Word64)

  function NativeAuditOf(engine: NativeEngine): ProgressionAudit {
    var count := Wrap32(|engine.matches|);
    ProgressionAudit(count, count, ChecksumOf(Result(Code(EnumerateMatches), engine.matches, count, false)))
  }

  function ManagedAuditOf(engine: ManagedEngine): ProgressionAudit {
    var enumerated := Wrap32(|engine.matches|);
    ProgressionAudit(engine.count, enumerated,
                     ChecksumOf(Result(Code(EnumerateMatches), ToRanges(engine.matches), enumerated, false)))
  }

  method NativeAudit(engine: NativeEngine) returns (audit: ProgressionAudit)
    ensures audit == NativeAuditOf(engine)
  {
    hide ChecksumOf, Serialize, RangesBytes, Header, HashFrom;
    var builder := new Builder(Code(EnumerateMatches));
    var enumerated: Int32 := 0;
    WrapFits(0);
    for i := 0 to |engine.matches|
      invariant fresh(builder) && builder.Valid() && builder.operation == Code(EnumerateMatches)
      invariant builder.ranges == engine.matches[..i]
      invariant enumerated == Wrap32(i)
    {
      WrapSuccessor(i);
      builder.AddRange(engine.matches[i]);
      assert engine.matches[..i + 1] == engine.matches[..i] + [engine.matches[i]];
      enumerated := Wrap32(enumerated + 1);
    }
    assert engine.matches[..|engine.matches|] == engine.matches;
    var count := CountMatches(engine.matches);
    var value := builder.Complete(enumerated, false);
    audit := ProgressionAudit(count, enumerated, value);
  }

  method ManagedAudit(engine: ManagedEngine) returns (audit: ProgressionAudit)
    ensures audit == ManagedAuditOf(engine)
  {
    hide HashFrom, Serialize, RangesBytes, Header, ChecksumOf;
    var builder := new Builder(Code(EnumerateMatches));
    var enumerated := AddSpans(engine.matches, builder);
    var value := builder.Complete(enumerated, false);
    audit := ProgressionAudit(engine.count, enumerated, value);
  }

  const REPEATS := 3

  /** Both audits of one repeat are the expected one, whose two counts agree. */
  predicate RepeatAgrees(native: nat -> NativeEngine, managed: nat -> ManagedEngine, r: nat) {
    var expected := ManagedAuditOf(managed(0));
    && ManagedAuditOf(managed(r + 1)) == expected && NativeAuditOf(native(r)) == expected
    && expected.countResult == expected.enumeratedCount
  }

  predicate Stable(native: nat -> NativeEngine, managed: nat -> ManagedEngine) {
    forall r: nat :: r < REPEATS ==> RepeatAgrees(native, managed, r)
  }

  /** Audits what both engines answer, which may differ from one repeat to the next. */
  method CheckProgression(native: nat -> NativeEngine, managed: nat -> ManagedEngine) returns (stable: bool)
    ensures stable <==> Stable(native, managed)
  {
    hide NativeAuditOf, ManagedAuditOf;
    var expected := ManagedAudit(managed(0));
    var previousManaged: Option<ProgressionAudit>, previousComparator: Option<ProgressionAudit> := None, None;
    stable := true;
    for repeat := 0 to REPEATS
      invariant previousManaged.Some? && stable ==> previousManaged.value == expected
      invariant previousComparator.Some? && stable ==> previousComparator.value == expected
      invariant stable <==> forall r: nat :: r < repeat ==> RepeatAgrees(native, managed, r)
    {
      var a := ManagedAudit(managed(repeat + 1));
      var b := NativeAudit(native(repeat));
      if a.countResult != a.enumeratedCount || b.countResult != b.enumeratedCount || a != expected || b != expected ||
         (previousManaged.Some? && previousManaged.value != a) ||
         (previousComparator.Some? && previousComparator.value != b)
      {
        stable := false;
      }
      assert a == b == expected && a.countResult == a.enumeratedCount <==> RepeatAgrees(native, managed, repeat);
      previousManaged, previousComparator := Some(a), Some(b);
    }
  }

  /** Engines that keep giving the same answers are stable, however long the stream of matches. */
  lemma SameAnswersAreStable(native: nat -> NativeEngine, managed: nat -> ManagedEngine)
    requires forall r: nat :: SameAnswers(native(r), managed(r)) && managed(r) == managed(0)
    ensures Stable(native, managed)
  {
    hide ChecksumOf;
    forall r: nat | r < REPEATS ensures RepeatAgrees(native, managed, r) {
      assert SameAnswers(native(r), managed(r)) && SameAnswers(native(r + 1), managed(r + 1));
    }
  }

  /** A stable report means equal checksums in all three repeats, and of streams that fit 32 bits equally many matches. */
  lemma StableCounts(native: nat -> NativeEngine, managed: nat -> ManagedEngine, r: nat)
    requires Stable(native, managed) && r < 3
    requires |native(r).matches| <= MAX_INT32 && |managed(r + 1).matches| <= MAX_INT32
    ensures NativeAuditOf(native(r)).checksum == ManagedAuditOf(managed(r + 1)).checksum
    ensures |native(r).matches| == |managed(r + 1).matches| == managed(r + 1).count
  {
    hide ChecksumOf;
    assert RepeatAgrees(native, managed, r);
    WrapFits(|native(r).matches|);
    WrapFits(|managed(r + 1).matches|);
  }

  // ---------- range sinks ----------

  /** The sink of a stream cut off after `limit` ranges. */
  function LimitedSink(matches: seq<Range>, limit: nat): Word32 {
    var taken := Min(|matches|, limit);
    RangeSink.Complete(RangeSink.AddAll(0, matches[..taken]), Wrap32(taken), |matches| > limit)
  }

  method ComputeRangeSink(matches: seq<Range>, limit: Int32) returns (sink: Word32)
    requires 0 <= limit
    ensures sink == LimitedSink(matches, limit)
  {
    hide RangeSink.AddAll, RangeSink.Add, RangeSink.Complete;
    var written, isMore := 0, false;
    sink := 0;
    RangeSink.AddAllNothing(0);
    while written < |matches|
      invariant 0 <= written <= Min(|matches|, limit)
      invariant !isMore && sink == RangeSink.AddAll(0, matches[..written])
    {
      if written == limit {
        isMore := true;
        break;
      }
      ExtendSink(matches, written);
      sink := RangeSink.Add(sink, matches[written]);
      written := written + 1;
    }
    sink := RangeSink.Complete(sink, written, isMore);
  }

  lemma ExtendSink(ranges: seq<Range>, k: nat)
    requires k < |ranges|
    ensures RangeSink.AddAll(0, ranges[..k + 1]) == RangeSink.Add(RangeSink.AddAll(0, ranges[..k]), ranges[k])
  {
    assert ranges[..k + 1] == ranges[..k] + [ranges[k]];
    RangeSink.AddAllConcat(0, ranges[..k], [ranges[k]]);
    var s := RangeSink.AddAll(0, ranges[..k]);
    assert RangeSink.AddAll(s, [ranges[k]]) == RangeSink.Add(s, ranges[k]);
  }

  function ManagedMatchManySink(engine: ManagedEngine): Word32 {
    var (matches, isMore) := MatchManyOf(engine);
    RangeSink.Complete(RangeSink.AddAll(0, ToRanges(matches)), |matches|, isMore)
  }

  method ExecuteMatchManyRangeSink(engine: ManagedEngine) returns (sink: Word32)
    ensures sink == ManagedMatchManySink(engine)
  {
    hide RangeSink.AddAll, RangeSink.Add, RangeSink.Complete;
    var (buffer, isMore) := MatchManyOf(engine);
    var ranges := ToRanges(buffer);
    sink := 0;
    RangeSink.AddAllNothing(0);
    for i := 0 to |buffer|
      invariant sink == RangeSink.AddAll(0, ranges[..i])
    {
      ExtendSink(ranges, i);
      sink := RangeSink.Add(sink, Range(buffer[i].start, Wrap32(buffer[i].end - buffer[i].start)));
    }
    assert ranges[..|buffer|] == ranges;
    sink := RangeSink.Complete(sink, |buffer|, isMore);
  }

  /** The MatchMany sinks agree under exactly the same condition as the checksums. */
  lemma SinksAgreeIff(native: NativeEngine, managed: ManagedEngine)
    requires SameAnswers(native, managed)
    ensures LimitedSink(native.matches, MATCH_MANY_CAPACITY) == ManagedMatchManySink(managed) <==>
            !(managed.assumesMoreWhenFull && |native.matches| == MATCH_MANY_CAPACITY)
  {
    hide RangeSink.AddAll, RangeSink.Add, RangeSink.Complete;
    var taken := Min(|native.matches|, MATCH_MANY_CAPACITY);
    ToRangesPrefix(managed.matches, taken);
    var s := RangeSink.AddAll(0, native.matches[..taken]);
    RangeSink.CompleteSeparates(s, s, taken, true);
  }
}
