/**
 The 64-bit FNV-1a result checksum (draft-eastlake-fnv, section 2) over a tagged
 serialization of a match stream.
 */
module Checksum {
  import opened Common
  import opened Words

  const OFFSET_BASIS := 14695981039346656037

  datatype Range = Range(start: Int32, length: Int32)

  /** What a completed builder has been told about one run of an operation. */
  datatype Result = Result(operation: Byte, ranges: seq<Range>, count: Int32, isMore: bool)

  // ---------- the byte step ----------

  /** Unchecked 64-bit multiplication by the FNV prime. */
  function TimesPrime(v: Word64): Word64 {
    v * 1099511628211 % 0x1_0000_0000_0000_0000
  }

  /** Multiplication by the inverse of the FNV prime modulo 2^64. */
  function OverPrime(v: Word64): Word64 {
    v * 14886173955864302971 % 0x1_0000_0000_0000_0000
  }

  function Step(state: Word64, b: Byte): Word64 {
    TimesPrime(Xor64(state, b))
  }

  /** Undoes `Step` for a known byte. */
  function Unstep(state: Word64, b: Byte): Word64 {
    Xor64(OverPrime(state), b)
  }

  /** Multiplying by `p` and then by its inverse modulo 2^64 changes nothing. */
  lemma InverseCancels(v: Word64, p: int, inverse: int, k: int)
    requires p * inverse == 1 + k * TWO_TO_THE_64
    ensures (v * p % TWO_TO_THE_64) * inverse % TWO_TO_THE_64 == v
  {
    var m := TWO_TO_THE_64;
    var q, r := v * p / m, v * p % m;
    calc {
      r * inverse;
      (v * p - q * m) * inverse;
      v * (p * inverse) - q * inverse * m;
      v * (1 + k * m) - q * inverse * m;
      v + (v * k - q * inverse) * m;
    }
    RemainderOfMultiple(r * inverse, v * k - q * inverse, v);
  }

  lemma TimesPrimeIsBijective(v: Word64)
    ensures OverPrime(TimesPrime(v)) == v
    ensures TimesPrime(OverPrime(v)) == v
  {
    InverseCancels(v, 1099511628211, 14886173955864302971, 887285111055);
    InverseCancels(v, 14886173955864302971, 1099511628211, 887285111055);
  }

  /** The byte step is a bijection on 64-bit states, for every byte. */
  lemma StepIsBijective(state: Word64, b: Byte)
    ensures Unstep(Step(state, b), b) == state
    ensures Step(Unstep(state, b), b) == state
  {
    TimesPrimeIsBijective(Xor64(state, b));
    XorCancels(state, b);
    TimesPrimeIsBijective(state);
    XorCancels(OverPrime(state), b);
  }

  // ---------- whole streams ----------

  function HashFrom(state: Word64, bytes: seq<Byte>): Word64
    decreases |bytes|
  {
    if bytes == [] then state else HashFrom(Step(state, bytes[0]), bytes[1..])
  }

  lemma {:induction false} HashOfConcat(state: Word64, a: seq<Byte>, b: seq<Byte>)
    ensures HashFrom(state, a + b) == HashFrom(HashFrom(state, a), b)
    decreases |a|
  {
    if a == [] {
      assert a + b == b;
    } else {
      assert (a + b)[1..] == a[1..] + b;
      HashOfConcat(Step(state, a[0]), a[1..], b);
    }
  }

  lemma HashOfOne(state: Word64, b: Byte)
    ensures HashFrom(state, [b]) == Step(state, b)
  {
  }

  lemma HashOfFour(state: Word64, a: Byte, b: Byte, c: Byte, d: Byte)
    ensures HashFrom(state, [a, b, c, d]) == Step(Step(Step(Step(state, a), b), c), d)
  {
    assert [a, b, c, d] == [a, b, c] + [d];
    assert [a, b, c] == [a, b] + [c];
    assert [a, b] == [a] + [b];
    HashOfConcat(state, [a, b, c], [d]);
    HashOfConcat(state, [a, b], [c]);
    HashOfConcat(state, [a], [b]);
  }

  /** A common suffix never merges two states. */
  lemma {:induction false} SuffixKeepsStatesApart(v: Word64, w: Word64, suffix: seq<Byte>)
    ensures HashFrom(v, suffix) == HashFrom(w, suffix) <==> v == w
    decreases |suffix|
  {
    if suffix == [] {
    } else {
      StepIsBijective(v, suffix[0]);
      StepIsBijective(w, suffix[0]);
      SuffixKeepsStatesApart(Step(v, suffix[0]), Step(w, suffix[0]), suffix[1..]);
    }
  }

  lemma StepSeparatesBytes(state: Word64, a: Byte, b: Byte)
    ensures Step(state, a) == Step(state, b) <==> a == b
  {
    if Step(state, a) == Step(state, b) {
      TimesPrimeIsBijective(Xor64(state, a));
      TimesPrimeIsBijective(Xor64(state, b));
      XorCommutes(state, a);
      XorCommutes(state, b);
      XorCancels(a, state);
      XorCancels(b, state);
    }
  }

  /** Two streams that differ in exactly one byte never share a checksum. */
  lemma OneByteAlwaysShows(state: Word64, prefix: seq<Byte>, a: Byte, b: Byte, suffix: seq<Byte>)
    ensures HashFrom(state, prefix + [a] + suffix) == HashFrom(state, prefix + [b] + suffix) <==> a == b
  {
    HashOfConcat(state, prefix + [a], suffix);
    HashOfConcat(state, prefix + [b], suffix);
    HashOfConcat(state, prefix, [a]);
    HashOfConcat(state, prefix, [b]);
    var middle := HashFrom(state, prefix);
    SuffixKeepsStatesApart(Step(middle, a), Step(middle, b), suffix);
    StepSeparatesBytes(middle, a, b);
  }

  // ---------- the serialization ----------

  function LittleEndian(v: Int32): (bytes: seq<Byte>)
    ensures |bytes| == 4
  {
    var w := Bits32(v);
    [w % 0x100, w / 0x100 % 0x100, w / 0x1_0000 % 0x100, w / 0x100_0000]
  }

  function ReadLittleEndian(bytes: seq<Byte>): Int32
    requires |bytes| == 4
  {
    var b: seq<int> := bytes;
    Wrap32(b[0] + 0x100 * b[1] + 0x1_0000 * b[2] + 0x100_0000 * b[3])
  }

  lemma WordOfBytes(w: Word32, a: Byte, b: Byte, c: Byte, d: Byte)
    ensures w == a + 0x100 * b as int + 0x1_0000 * c as int + 0x100_0000 * d as int <==>
            (a == w % 0x100 && b == w / 0x100 % 0x100 && c == w / 0x1_0000 % 0x100 && d == w / 0x100_0000)
  {
    LowByte(w, a, b + 0x100 * c as int + 0x1_0000 * d as int);
    LowByte(w / 0x100, b, c + 0x100 * d as int);
    LowByte(w / 0x100 / 0x100, c, d);
  }

  lemma LowByte(w: nat, low: Byte, high: nat)
    ensures w == low + 0x100 * high <==> (low == w % 0x100 && high == w / 0x100)
  {
  }

  lemma ReadInvertsWrite(v: Int32)
    ensures ReadLittleEndian(LittleEndian(v)) == v
  {
    var w, bytes := Bits32(v), LittleEndian(v);
    WordOfBytes(w, bytes[0], bytes[1], bytes[2], bytes[3]);
    assert Wrap32(w) == v;
  }

  lemma WriteInvertsRead(bytes: seq<Byte>)
    requires |bytes| == 4
    ensures LittleEndian(ReadLittleEndian(bytes)) == bytes
  {
    var b: seq<int> := bytes;
    var w := b[0] + 0x100 * b[1] + 0x1_0000 * b[2] + 0x100_0000 * b[3];
    WordOfBytes(w, bytes[0], bytes[1], bytes[2], bytes[3]);
    assert Bits32(Wrap32(w)) == w;
  }

  /** The four bytes at `at` are the number, lowest first; a negative one has 2^32 added. */
  predicate HoldsInt32(bytes: seq<Byte>, at: nat, v: Int32) {
    && at + 4 <= |bytes|
    && bytes[at] + 256 * bytes[at + 1] as int + 65536 * bytes[at + 2] as int + 16777216 * bytes[at + 3] as int ==
       if v < 0 then v + 4294967296 else v
  }

  lemma LittleEndianHolds(v: Int32)
    ensures HoldsInt32(LittleEndian(v), 0, v)
  {
    var bytes := LittleEndian(v);
    WordOfBytes(Bits32(v), bytes[0], bytes[1], bytes[2], bytes[3]);
    WrapMeans(0, v);
  }

  function Header(operation: Byte): seq<Byte> {
    [1, operation]
  }

  function RangeBytes(r: Range): (bytes: seq<Byte>)
    ensures |bytes| == 9
  {
    [0xA1] + LittleEndian(r.start) + LittleEndian(r.length)
  }

  function RangesBytes(ranges: seq<Range>): seq<Byte> {
    if ranges == [] then [] else RangeBytes(ranges[0]) + RangesBytes(ranges[1..])
  }

  function FlagByte(isMore: bool): Byte {
    if isMore then 1 else 0
  }

  function Trailer(rangeCount: Int32, resultCount: Int32, isMore: bool): seq<Byte> {
    [0xFF] + LittleEndian(rangeCount) + LittleEndian(resultCount) + [FlagByte(isMore)]
  }

  function Serialize(r: Result): seq<Byte> {
    Header(r.operation) + (RangesBytes(r.ranges) + Trailer(Wrap32(|r.ranges|), r.count, r.isMore))
  }

  /** Nine bytes for range `i`: its tag, its start and its length. */
  predicate HoldsRange(bytes: seq<Byte>, at: nat, r: Range) {
    at < |bytes| && bytes[at] == 0xA1 && HoldsInt32(bytes, at + 1, r.start) && HoldsInt32(bytes, at + 5, r.length)
  }

  /** Version and operation; nine bytes for each range; the end tag, both counts and the flag. */
  predicate IsLaidOut(bytes: seq<Byte>, r: Result) {
    var end := 2 + 9 * |r.ranges|;
    && |bytes| == end + 10
    && bytes[0] == 1 && bytes[1] == r.operation
    && (forall i :: 0 <= i < |r.ranges| ==> HoldsRange(bytes, 2 + 9 * i, r.ranges[i]))
    && bytes[end] == 0xFF && bytes[end + 9] == (if r.isMore then 1 else 0)
    && HoldsInt32(bytes, end + 1, Wrap32(|r.ranges|)) && HoldsInt32(bytes, end + 5, r.count)
  }

  /** What stands in a part of the bytes stands in the whole. */
  lemma HeldInside(before: seq<Byte>, bytes: seq<Byte>, after: seq<Byte>, at: nat, v: Int32)
    requires HoldsInt32(bytes, at, v)
    ensures HoldsInt32(before + bytes + after, |before| + at, v)
  {
    var all := before + bytes + after;
    assert forall j :: 0 <= j < |bytes| ==> all[|before| + j] == bytes[j];
  }

  lemma RangeInside(before: seq<Byte>, r: Range, after: seq<Byte>)
    ensures HoldsRange(before + RangeBytes(r) + after, |before|, r)
  {
    hide HoldsInt32, LittleEndian;
    var bytes := RangeBytes(r);
    LittleEndianHolds(r.start);
    LittleEndianHolds(r.length);
    HeldInside([0xA1], LittleEndian(r.start), LittleEndian(r.length), 0, r.start);
    HeldInside([0xA1] + LittleEndian(r.start), LittleEndian(r.length), [], 0, r.length);
    assert bytes == [0xA1] + LittleEndian(r.start) + LittleEndian(r.length) + [];
    HeldInside(before, bytes, after, 1, r.start);
    HeldInside(before, bytes, after, 5, r.length);
    assert (before + bytes + after)[|before|] == bytes[0];
  }

  lemma {:induction false} RangesInside(before: seq<Byte>, ranges: seq<Range>, after: seq<Byte>)
    ensures |RangesBytes(ranges)| == 9 * |ranges|
    ensures forall i :: 0 <= i < |ranges| ==> HoldsRange(before + RangesBytes(ranges) + after, |before| + 9 * i, ranges[i])
    decreases |ranges|
  {
    hide HoldsRange, RangeBytes;
    if ranges == [] {
    } else {
      var first, rest := RangeBytes(ranges[0]), RangesBytes(ranges[1..]);
      var all := before + RangesBytes(ranges) + after;
      RangeInside(before, ranges[0], rest + after);
      RangesInside(before + first, ranges[1..], after);
      assert all == before + first + (rest + after) && all == before + first + rest + after;
      forall i | 0 <= i < |ranges| ensures HoldsRange(all, |before| + 9 * i, ranges[i]) {
        if i > 0 {
          assert HoldsRange(all, |before + first| + 9 * (i - 1), ranges[1..][i - 1]);
        }
      }
    }
  }

  /** Every byte of the serialization, by its position. */
  lemma SerializeIsLaidOut(r: Result)
    ensures IsLaidOut(Serialize(r), r)
  {
    hide HoldsRange, HoldsInt32, RangesBytes, LittleEndian;
    var header, ranges := Header(r.operation), RangesBytes(r.ranges);
    var rangeCount, count := LittleEndian(Wrap32(|r.ranges|)), LittleEndian(r.count);
    var trailer := Trailer(Wrap32(|r.ranges|), r.count, r.isMore);
    RangesInside(header, r.ranges, trailer);
    LittleEndianHolds(Wrap32(|r.ranges|));
    LittleEndianHolds(r.count);
    var flag := [FlagByte(r.isMore)];
    HeldInside(header + ranges + [0xFF], rangeCount, count + flag, 0, Wrap32(|r.ranges|));
    HeldInside(header + ranges + [0xFF] + rangeCount, count, flag, 0, r.count);
    assert Serialize(r) == header + ranges + trailer;
    assert Serialize(r) == header + ranges + [0xFF] + rangeCount + (count + flag);
    assert Serialize(r) == header + ranges + [0xFF] + rangeCount + count + flag;
  }

  /** The published values: the prime, and the hash of a single zero byte. */
  lemma HashIsFnv1a()
    ensures Step(0, 1) == 0x100_0000_01B3
    ensures HashFrom(OFFSET_BASIS, []) == 0xCBF2_9CE4_8422_2325
    ensures HashFrom(OFFSET_BASIS, [0]) == 0xAF63_BD4C_8601_B7DF
  {
    XorUnits(1);
    XorUnits(OFFSET_BASIS);
    HashOfOne(OFFSET_BASIS, 0);
  }

  function ChecksumOf(r: Result): Word64 {
    HashFrom(OFFSET_BASIS, Serialize(r))
  }

  lemma {:induction false} RangesBytesAppend(ranges: seq<Range>, r: Range)
    ensures RangesBytes(ranges + [r]) == RangesBytes(ranges) + RangeBytes(r)
  {
    if ranges == [] {
      assert RangesBytes([r]) == RangeBytes(r) + RangesBytes([]);
    } else {
      assert (ranges + [r])[1..] == ranges[1..] + [r];
      RangesBytesAppend(ranges[1..], r);
    }
  }

  // ---------- reading the serialization back ----------

  function DecodeRange(bytes: seq<Byte>): Range
    requires |bytes| >= 9
  {
    Range(ReadLittleEndian(bytes[1..5]), ReadLittleEndian(bytes[5..9]))
  }

  /** Reads ranges for as long as the tag announces one, and returns the rest. */
  function DecodeRanges(bytes: seq<Byte>): (seq<Range>, seq<Byte>) {
    if |bytes| < 9 || bytes[0] != 0xA1 then ([], bytes)
    else
      var (ranges, rest) := DecodeRanges(bytes[9..]);
      ([DecodeRange(bytes)] + ranges, rest)
  }

  function Decode(bytes: seq<Byte>): Option<Result> {
    if |bytes| < 2 || bytes[0] != 1 then None
    else
      var (ranges, rest) := DecodeRanges(bytes[2..]);
      if |rest| != 10 || rest[0] != 0xFF || rest[9] > 1 then None
      else if ReadLittleEndian(rest[1..5]) != Wrap32(|ranges|) then None
      else Some(Result(bytes[1], ranges, ReadLittleEndian(rest[5..9]), rest[9] == 1))
  }

  lemma DecodeRangeInverts(r: Range, rest: seq<Byte>)
    ensures DecodeRange(RangeBytes(r) + rest) == r
    ensures (RangeBytes(r) + rest)[9..] == rest && (RangeBytes(r) + rest)[0] == 0xA1
  {
    var bytes := RangeBytes(r) + rest;
    assert bytes[1..5] == LittleEndian(r.start);
    assert bytes[5..9] == LittleEndian(r.length);
    ReadInvertsWrite(r.start);
    ReadInvertsWrite(r.length);
  }

  lemma EncodeRangeInverts(bytes: seq<Byte>)
    requires |bytes| >= 9 && bytes[0] == 0xA1
    ensures RangeBytes(DecodeRange(bytes)) == bytes[..9]
  {
    WriteInvertsRead(bytes[1..5]);
    WriteInvertsRead(bytes[5..9]);
    assert bytes[..9] == [bytes[0]] + bytes[1..5] + bytes[5..9];
  }

  lemma {:induction false} DecodeRangesInverts(ranges: seq<Range>, rest: seq<Byte>)
    requires rest == [] || rest[0] != 0xA1
    ensures DecodeRanges(RangesBytes(ranges) + rest) == (ranges, rest)
  {
    if ranges == [] {
      assert RangesBytes(ranges) + rest == rest;
    } else {
      var tail := RangesBytes(ranges[1..]) + rest;
      assert RangesBytes(ranges) + rest == RangeBytes(ranges[0]) + tail;
      DecodeRangeInverts(ranges[0], tail);
      DecodeRangesInverts(ranges[1..], rest);
      assert [ranges[0]] + ranges[1..] == ranges;
    }
  }

  lemma {:induction false} EncodeRangesInverts(bytes: seq<Byte>)
    ensures var (ranges, rest) := DecodeRanges(bytes); RangesBytes(ranges) + rest == bytes
    decreases |bytes|
  {
    hide DecodeRange, RangeBytes, RangesBytes;
    NoRangesBytes();
    if |bytes| >= 9 && bytes[0] == 0xA1 {
      EncodeRangeInverts(bytes);
      EncodeRangesInverts(bytes[9..]);
      var (ranges, rest) := DecodeRanges(bytes[9..]);
      RangesBytesPrepend(DecodeRange(bytes), ranges);
      assert bytes == bytes[..9] + bytes[9..];
    }
  }

  lemma NoRangesBytes()
    ensures RangesBytes([]) == []
  {
  }

  lemma RangesBytesPrepend(r: Range, ranges: seq<Range>)
    ensures RangesBytes([r] + ranges) == RangeBytes(r) + RangesBytes(ranges)
  {
    assert ([r] + ranges)[1..] == ranges;
  }

  /** The byte stream determines the result, whatever the ranges are. */
  lemma DecodeInvertsSerialize(r: Result)
    ensures Decode(Serialize(r)) == Some(r)
  {
    var bytes := Serialize(r);
    var trailer := Trailer(Wrap32(|r.ranges|), r.count, r.isMore);
    assert bytes[2..] == RangesBytes(r.ranges) + trailer;
    DecodeRangesInverts(r.ranges, trailer);
    assert trailer[1..5] == LittleEndian(Wrap32(|r.ranges|));
    assert trailer[5..9] == LittleEndian(r.count);
    ReadInvertsWrite(Wrap32(|r.ranges|));
    ReadInvertsWrite(r.count);
  }

  /** Nothing but serializations is accepted by the decoder. */
  lemma SerializeInvertsDecode(bytes: seq<Byte>)
    ensures Decode(bytes).Some? ==> Serialize(Decode(bytes).value) == bytes
  {
    if Decode(bytes).Some? {
      var r := Decode(bytes).value;
      var (ranges, rest) := DecodeRanges(bytes[2..]);
      EncodeRangesInverts(bytes[2..]);
      WriteInvertsRead(rest[1..5]);
      WriteInvertsRead(rest[5..9]);
      assert rest == [rest[0]] + rest[1..5] + rest[5..9] + [rest[9]];
      assert rest == Trailer(Wrap32(|ranges|), r.count, r.isMore);
      assert bytes == [bytes[0], bytes[1]] + bytes[2..];
    }
  }

  /** Runs that differ only in `isMore` are told apart. */
  lemma IsMoreAlwaysShows(r: Result)
    ensures ChecksumOf(r) != ChecksumOf(r.(isMore := !r.isMore))
  {
    var flipped := r.(isMore := !r.isMore);
    var body := RangesBytes(r.ranges);
    var counts := [0xFF] + LittleEndian(Wrap32(|r.ranges|)) + LittleEndian(r.count);
    var prefix := Header(r.operation) + (body + counts);
    SerializeEndsWithFlag(r, body, counts);
    SerializeEndsWithFlag(flipped, body, counts);
    OneByteAlwaysShows(OFFSET_BASIS, prefix, FlagByte(r.isMore), FlagByte(flipped.isMore), []);
  }

  lemma SerializeEndsWithFlag(r: Result, body: seq<Byte>, counts: seq<Byte>)
    requires body == RangesBytes(r.ranges)
    requires counts == [0xFF] + LittleEndian(Wrap32(|r.ranges|)) + LittleEndian(r.count)
    ensures Serialize(r) == Header(r.operation) + (body + counts) + [FlagByte(r.isMore)] + []
  {
  }

  /** Runs that differ only in the operation are told apart. */
  lemma OperationAlwaysShows(r: Result, operation: Byte)
    ensures ChecksumOf(r) == ChecksumOf(r.(operation := operation)) <==> r.operation == operation
  {
    var body := RangesBytes(r.ranges) + Trailer(Wrap32(|r.ranges|), r.count, r.isMore);
    assert Serialize(r) == [1] + [r.operation] + body;
    assert Serialize(r.(operation := operation)) == [1] + [operation] + body;
    OneByteAlwaysShows(OFFSET_BASIS, [1], r.operation, operation, body);
  }

  // ---------- the mutable builder ----------

  lemma WrapFits(v: Int32)
    ensures Wrap32(v) == v
  {
  }

  lemma WrapSuccessor(n: int)
    ensures Wrap32(Wrap32(n) + 1) == Wrap32(n + 1)
  {
  }

  lemma HashOfRange(state: Word64, r: Range)
    ensures HashFrom(state, RangeBytes(r)) ==
            HashFrom(HashFrom(HashFrom(state, [0xA1]), LittleEndian(r.start)), LittleEndian(r.length))
  {
    HashOfConcat(state, [0xA1], LittleEndian(r.start));
    HashOfConcat(state, [0xA1] + LittleEndian(r.start), LittleEndian(r.length));
  }

  lemma HashOfTrailer(state: Word64, rangeCount: Int32, resultCount: Int32, isMore: bool)
    ensures HashFrom(state, Trailer(rangeCount, resultCount, isMore)) ==
            HashFrom(HashFrom(HashFrom(HashFrom(state, [0xFF]), LittleEndian(rangeCount)), LittleEndian(resultCount)),
                     [FlagByte(isMore)])
  {
    var counts := [0xFF] + LittleEndian(rangeCount);
    HashOfConcat(state, [0xFF], LittleEndian(rangeCount));
    HashOfConcat(state, counts, LittleEndian(resultCount));
    HashOfConcat(state, counts + LittleEndian(resultCount), [FlagByte(isMore)]);
  }

  lemma ExtendStream(operation: Byte, ranges: seq<Range>, r: Range)
    ensures HashFrom(HashFrom(OFFSET_BASIS, Header(operation) + RangesBytes(ranges)), RangeBytes(r)) ==
            HashFrom(OFFSET_BASIS, Header(operation) + RangesBytes(ranges + [r]))
  {
    RangesBytesAppend(ranges, r);
    assert Header(operation) + RangesBytes(ranges + [r]) == Header(operation) + RangesBytes(ranges) + RangeBytes(r);
    HashOfConcat(OFFSET_BASIS, Header(operation) + RangesBytes(ranges), RangeBytes(r));
  }

  lemma FinishStream(r: Result)
    ensures HashFrom(HashFrom(OFFSET_BASIS, Header(r.operation) + RangesBytes(r.ranges)),
                     Trailer(Wrap32(|r.ranges|), r.count, r.isMore)) == ChecksumOf(r)
  {
    hide HashFrom, RangesBytes, LittleEndian, Header, Trailer;
    var trailer := Trailer(Wrap32(|r.ranges|), r.count, r.isMore);
    HashOfConcat(OFFSET_BASIS, Header(r.operation) + RangesBytes(r.ranges), trailer);
    assert Serialize(r) == Header(r.operation) + RangesBytes(r.ranges) + trailer;
  }

  class Builder {
    ghost var operation: Byte      // what the builder was created for
    ghost var ranges: seq<Range>   // what it has been given since
    var value: Word64
    var rangeCount: Int32

    ghost predicate Valid()
      reads this
    {
      && value == HashFrom(OFFSET_BASIS, Header(operation) + RangesBytes(ranges))
      && rangeCount == Wrap32(|ranges|)
    }

    constructor (operation: Byte)
      ensures Valid() && this.operation == operation && ranges == []
    {
      this.operation := operation;
      ranges := [];
      value := OFFSET_BASIS;
      rangeCount := 0;
      new;
      AppendByte(1);
      HashOfOne(OFFSET_BASIS, 1);
      HashOfOne(value, operation);
      AppendByte(operation);
      HashOfConcat(OFFSET_BASIS, [1], [operation]);
      assert [1] + [operation] == Header(operation) == Header(operation) + RangesBytes([]);
    }

    method AddRange(r: Range)
      requires Valid()
      modifies this
      ensures Valid() && operation == old(operation)
      ensures ranges == old(ranges) + [r]
    {
      hide HashFrom, RangesBytes, RangeBytes, LittleEndian, Header, Wrap32, Step;
      HashOfOne(value, 0xA1);
      AppendByte(0xA1);
      AppendInt32(r.start);
      AppendInt32(r.length);
      rangeCount := Wrap32(rangeCount + 1);
      WrapSuccessor(|ranges|);
      ranges := ranges + [r];
      HashOfRange(old(value), r);
      ExtendStream(operation, old(ranges), r);
    }

    method Complete(resultCount: Int32, isMore: bool) returns (checksum: Word64)
      requires Valid()
      modifies this`value
      ensures checksum == value == ChecksumOf(Result(operation, ranges, resultCount, isMore))
    {
      hide HashFrom, RangesBytes, Header, LittleEndian, Trailer, ChecksumOf, Wrap32, Step;
      HashOfOne(value, 0xFF);
      AppendByte(0xFF);
      AppendInt32(rangeCount);
      AppendInt32(resultCount);
      HashOfOne(value, FlagByte(isMore));
      AppendByte(FlagByte(isMore));
      checksum := value;
      HashOfTrailer(old(value), rangeCount, resultCount, isMore);
      FinishStream(Result(operation, ranges, resultCount, isMore));
    }

    method AppendInt32(v: Int32)
      modifies this`value
      ensures value == HashFrom(old(value), LittleEndian(v))
    {
      var bytes := LittleEndian(v);
      AppendByte(bytes[0]);
      AppendByte(bytes[1]);
      AppendByte(bytes[2]);
      AppendByte(bytes[3]);
      HashOfFour(old(value), bytes[0], bytes[1], bytes[2], bytes[3]);
      assert bytes == [bytes[0], bytes[1], bytes[2], bytes[3]];
    }

    method AppendByte(b: Byte)
      modifies this`value
      ensures value == Step(old(value), b)
    {
      value := Xor64(value, b);
      value := TimesPrime(value);
    }
  }
}
