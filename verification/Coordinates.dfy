/**
 The capture snapshot's projection from scalar indices to UTF-8 byte offsets and
 UTF-16 code-unit offsets, and the two byte-control gates that rely on it.
 */
module Coordinates {
  import opened Common
  import opened Words
  import opened Utf8

  type Word16 = x: int | 0 <= x < 0x1_0000

  // ---------- UTF-16 ----------

  function Encode16(c: Scalar): (units: seq<Word16>)
    ensures 1 <= |units| <= 2
    ensures |units| <= |Encode(c)| && (|units| == |Encode(c)| <==> c < 0x80)
  {
    if c < 0x1_0000 then [c] else [0xD800 + (c - 0x1_0000) / 0x400, 0xDC00 + (c - 0x1_0000) % 0x400]
  }

  function EncodeAll16(cs: seq<Scalar>): seq<Word16> {
    if cs == [] then [] else Encode16(cs[0]) + EncodeAll16(cs[1..])
  }

  predicate IsPair(units: seq<Word16>) {
    |units| >= 2 && 0xD800 <= units[0] < 0xDC00 && 0xDC00 <= units[1] < 0xE000
  }

  /** Reads any UTF-16 string; a surrogate without its partner becomes U+FFFD. */
  function Repair(units: seq<Word16>): seq<Scalar>
    decreases |units|
  {
    if units == [] then []
    else if IsPair(units) then
      var high: int, low: int := units[0], units[1];
      [0x1_0000 + (high - 0xD800) * 0x400 + (low - 0xDC00)] + Repair(units[2..])
    else [if 0xD800 <= units[0] < 0xE000 then 0xFFFD else units[0]] + Repair(units[1..])
  }

  /** A unit that begins no pair is read alone, as itself or, if it is a surrogate, as U+FFFD. */
  lemma RepairAlone(u: Word16, rest: seq<Word16>)
    requires rest == [] || !(0xD800 <= u <= 0xDBFF && 0xDC00 <= rest[0] <= 0xDFFF)
    ensures Repair([u] + rest) == [if 0xD800 <= u <= 0xDFFF then 65533 else u] + Repair(rest)
  {
    assert ([u] + rest)[1..] == rest;
  }

  lemma RepairFirst(c: Scalar, rest: seq<Word16>)
    ensures Repair(Encode16(c) + rest) == [c] + Repair(rest)
  {
    var units := Encode16(c) + rest;
    if c < 0x1_0000 {
      assert units[1..] == rest;
    } else {
      assert units[2..] == rest;
      assert c - 0x1_0000 == (c - 0x1_0000) / 0x400 * 0x400 + (c - 0x1_0000) % 0x400;
    }
  }

  /** Well-formed UTF-16 is read back exactly. */
  lemma {:induction false} RepairInvertsEncode(cs: seq<Scalar>)
    ensures Repair(EncodeAll16(cs)) == cs
  {
    if cs == [] {
    } else {
      RepairFirst(cs[0], EncodeAll16(cs[1..]));
      RepairInvertsEncode(cs[1..]);
    }
  }

  lemma {:induction false} EncodeAll16Concat(a: seq<Scalar>, b: seq<Scalar>)
    ensures EncodeAll16(a + b) == EncodeAll16(a) + EncodeAll16(b)
  {
    if a == [] {
      assert a + b == b;
    } else {
      assert (a + b)[1..] == a[1..] + b;
      EncodeAll16Concat(a[1..], b);
    }
  }

  /** The UTF-16 offset at which the k-th scalar of a text starts. */
  function Boundary16(cs: seq<Scalar>, k: nat): nat
    requires k <= |cs|
  {
    |EncodeAll16(cs[..k])|
  }

  lemma Boundary16Step(cs: seq<Scalar>, k: nat)
    requires k < |cs|
    ensures Boundary16(cs, k + 1) == Boundary16(cs, k) + |Encode16(cs[k])|
  {
    assert cs[..k + 1] == cs[..k] + [cs[k]];
    EncodeAll16Concat(cs[..k], [cs[k]]);
    assert EncodeAll16([cs[k]]) == Encode16(cs[k]) + EncodeAll16([]);
  }

  lemma {:induction false} Boundaries16Increase(cs: seq<Scalar>, j: nat, k: nat)
    requires j < k <= |cs|
    ensures Boundary16(cs, j) < Boundary16(cs, k)
  {
    Boundary16Step(cs, k - 1);
    if j == k - 1 {
    } else {
      Boundaries16Increase(cs, j, k - 1);
    }
  }

  lemma Cut16AtBoundaries(cs: seq<Scalar>, j: nat, k: nat)
    requires j <= k <= |cs|
    ensures Boundary16(cs, j) <= Boundary16(cs, k) <= |EncodeAll16(cs)|
    ensures EncodeAll16(cs)[Boundary16(cs, j)..Boundary16(cs, k)] == EncodeAll16(cs[j..k])
  {
    assert cs == cs[..k] + cs[k..] && cs[..k] == cs[..j] + cs[j..k];
    EncodeAll16Concat(cs[..k], cs[k..]);
    EncodeAll16Concat(cs[..j], cs[j..k]);
    assert EncodeAll16(cs) == EncodeAll16(cs[..j]) + EncodeAll16(cs[j..k]) + EncodeAll16(cs[k..]);
  }

  // ---------- the snapshot ----------

  /** A match's span of one group in scalar indices; an unmatched group has (-1, -1). */
  type GroupSpan = (int, int)

  predicate ValidSpan(span: GroupSpan, text: seq<Scalar>) {
    span == (-1, -1) || 0 <= span.0 <= span.1 <= |text|
  }

  datatype GroupRow = GroupRow(
    success: bool, text: seq<Scalar>,
    startByte: nat, endByte: nat, startUtf16: nat, endUtf16: nat)

  /** A row says where the group is in both encodings, and those cuts read as its text. */
  predicate Faithful(row: GroupRow, span: GroupSpan, text: seq<Scalar>) {
    if span.0 < 0 then row == GroupRow(false, [], 0, 0, 0, 0)
    else
      && row.success
      && 0 <= span.0 <= span.1 <= |text| && row.text == text[span.0..span.1]
      && row.startByte <= row.endByte <= |EncodeAll(text)|
      && Decode(EncodeAll(text)[row.startByte..row.endByte]) == Some(row.text)
      && Decode(EncodeAll(text)[..row.startByte]) == Some(text[..span.0])
      && row.startUtf16 <= row.endUtf16 <= |EncodeAll16(text)|
      && Repair(EncodeAll16(text)[row.startUtf16..row.endUtf16]) == row.text
      && Repair(EncodeAll16(text)[..row.startUtf16]) == text[..span.0]
  }

  method Snapshot(spans: seq<GroupSpan>, text: seq<Scalar>) returns (groups: seq<GroupRow>)
    requires forall i :: 0 <= i < |spans| ==> ValidSpan(spans[i], text)
    ensures |groups| == |spans|
    ensures forall i :: 0 <= i < |spans| ==> Faithful(groups[i], spans[i], text)
  {
    groups := [];
    for number := 0 to |spans|
      invariant |groups| == number
      invariant forall i :: 0 <= i < number ==> Faithful(groups[i], spans[i], text)
    {
      var row := ProjectGroup(spans[number], text);
      ProjectionIsFaithful(spans[number], text);
      groups := groups + [row];
    }
  }

  function ProjectGroup(span: GroupSpan, text: seq<Scalar>): GroupRow
    requires ValidSpan(span, text)
  {
    var (start, end) := span;
    GroupRow(
      start >= 0,
      if start >= 0 then text[start..end] else [],
      if start >= 0 then Boundary(text, start) else 0,
      if end >= 0 then Boundary(text, end) else 0,
      if start >= 0 then Boundary16(text, start) else 0,
      if end >= 0 then Boundary16(text, end) else 0)
  }

  lemma ProjectionIsFaithful(span: GroupSpan, text: seq<Scalar>)
    requires ValidSpan(span, text)
    ensures Faithful(ProjectGroup(span, text), span, text)
  {
    if span.0 >= 0 {
      var (start, end) := span;
      CutAtBoundaries(text, start, end);
      Cut16AtBoundaries(text, start, end);
      DecodeInvertsEncode(text[start..end]);
      RepairInvertsEncode(text[start..end]);
      PrefixAtBoundary(text, start);
    }
  }

  lemma PrefixAtBoundary(text: seq<Scalar>, k: nat)
    requires k <= |text|
    ensures Boundary(text, k) <= |EncodeAll(text)| && Boundary16(text, k) <= |EncodeAll16(text)|
    ensures Decode(EncodeAll(text)[..Boundary(text, k)]) == Some(text[..k])
    ensures Repair(EncodeAll16(text)[..Boundary16(text, k)]) == text[..k]
  {
    assert text == text[..k] + text[k..];
    EncodeAllConcat(text[..k], text[k..]);
    EncodeAll16Concat(text[..k], text[k..]);
    assert EncodeAll(text)[..Boundary(text, k)] == EncodeAll(text[..k]);
    assert EncodeAll16(text)[..Boundary16(text, k)] == EncodeAll16(text[..k]);
    DecodeInvertsEncode(text[..k]);
    RepairInvertsEncode(text[..k]);
  }

  // ---------- where the two coordinates agree ----------

  predicate IsAscii(cs: seq<Scalar>) {
    forall i :: 0 <= i < |cs| ==> cs[i] < 0x80
  }

  lemma AsciiCons(first: Scalar, rest: seq<Scalar>)
    ensures IsAscii([first] + rest) <==> first < 0x80 && IsAscii(rest)
  {
    var cs := [first] + rest;
    assert cs[0] == first && forall i :: 0 <= i < |rest| ==> rest[i] == cs[i + 1];
  }

  lemma AsciiAppend(cs: seq<Scalar>, k: nat)
    requires 0 < k <= |cs|
    ensures IsAscii(cs[..k]) <==> IsAscii(cs[..k - 1]) && cs[k - 1] < 0x80
  {
    assert cs[..k] == cs[..k - 1] + [cs[k - 1]];
    assert forall i :: 0 <= i < k - 1 ==> cs[..k - 1][i] == cs[..k][i];
  }

  lemma OffsetsAtStart(cs: seq<Scalar>)
    ensures Boundary(cs, 0) == Boundary16(cs, 0) == 0 && IsAscii(cs[..0])
  {
  }

  /** Byte offsets never fall behind UTF-16 offsets, and keep up only over ASCII. */
  lemma {:induction false} OffsetsCompared(cs: seq<Scalar>, k: nat)
    requires k <= |cs|
    ensures Boundary16(cs, k) <= Boundary(cs, k)
    ensures Boundary16(cs, k) == Boundary(cs, k) <==> IsAscii(cs[..k])
  {
    hide Encode, Encode16, EncodeAll, EncodeAll16, IsAscii, Boundary, Boundary16;
    if k == 0 {
      OffsetsAtStart(cs);
    } else {
      OffsetsCompared(cs, k - 1);
      BoundaryStep(cs, k - 1);
      Boundary16Step(cs, k - 1);
      AsciiAppend(cs, k);
    }
  }

  /** The coordinates agree at every boundary, or just at the end, iff the text is ASCII. */
  lemma CoordinatesAgreeIffAscii(cs: seq<Scalar>)
    ensures IsAscii(cs) <==> |EncodeAll(cs)| == |EncodeAll16(cs)|
    ensures IsAscii(cs) <==> forall k :: 0 <= k <= |cs| ==> Boundary(cs, k) == Boundary16(cs, k)
  {
    assert cs[..|cs|] == cs;
    OffsetsCompared(cs, |cs|);
    if IsAscii(cs) {
      forall k | 0 <= k <= |cs| ensures Boundary(cs, k) == Boundary16(cs, k) {
        OffsetsCompared(cs, k);
      }
    } else {
      assert Boundary(cs, |cs|) != Boundary16(cs, |cs|);
    }
  }
}
