/**
 UTF-8 as in sections 3 and 4 of RFC 3629, and UTF-16 as in section 2.1 of RFC 2781,
 over Unicode scalar values.
 */
module Utf8 {
  import opened Common
  import opened Words

  type Scalar = c: int | 0 <= c < 0x11_0000 && !(0xD800 <= c < 0xE000)

  /** The number of a scalar. */
  function CodePoint(c: Scalar): int {
    c
  }

  ghost predicate IsCodePoint(s: int) {
    exists c: Scalar :: CodePoint(c) == s
  }

  lemma CodePointIs(c: Scalar)
    ensures IsCodePoint(CodePoint(c))
  {
  }

  /** `(b & 0xC0) == 0x80` for a byte: its two top bits are 10. */
  predicate IsContinuation(b: Byte) {
    b / 0x40 == 2
  }

  lemma ContinuationMeans(b: Byte)
    ensures IsContinuation(b) <==> 128 <= b < 192
  {
  }

  // ---------- one scalar ----------

  function Encode(c: Scalar): (bytes: seq<Byte>)
    ensures 1 <= |bytes| <= 4
    ensures !IsContinuation(bytes[0])
    ensures forall i :: 0 < i < |bytes| ==> IsContinuation(bytes[i])
    ensures |bytes| == 1 <==> c < 0x80
  {
    if c < 0x80 then [c]
    else if c < 0x800 then [0xC0 + c / 0x40, 0x80 + c % 0x40]
    else if c < 0x1_0000 then [0xE0 + c / 0x1000, 0x80 + c / 0x40 % 0x40, 0x80 + c % 0x40]
    else [0xF0 + c / 0x4_0000, 0x80 + c / 0x1000 % 0x40, 0x80 + c / 0x40 % 0x40, 0x80 + c % 0x40]
  }

  predicate InRange(b: int, low: int, high: int) {
    low <= b <= high
  }

  /** Reads one scalar by the byte ranges of the RFC 3629 grammar, with its length. */
  function DecodeFirst(b: seq<Byte>): Option<(Scalar, nat)> {
    var s: seq<int> := b;
    if |s| == 0 then None
    else if s[0] < 0x80 then Some((s[0], 1))
    else if |s| >= 2 && InRange(s[0], 0xC2, 0xDF) && IsContinuation(s[1]) then
      Some(((s[0] - 0xC0) * 0x40 + (s[1] - 0x80), 2))
    else if |s| >= 3 && InRange(s[0], 0xE0, 0xEF) && IsContinuation(s[1]) && IsContinuation(s[2])
            && (s[0] == 0xE0 ==> s[1] >= 0xA0) && (s[0] == 0xED ==> s[1] <= 0x9F) then
      Some(((s[0] - 0xE0) * 0x1000 + (s[1] - 0x80) * 0x40 + (s[2] - 0x80), 3))
    else if |s| >= 4 && InRange(s[0], 0xF0, 0xF4) && IsContinuation(s[1]) && IsContinuation(s[2]) && IsContinuation(s[3])
            && (s[0] == 0xF0 ==> s[1] >= 0x90) && (s[0] == 0xF4 ==> s[1] <= 0x8F) then
      Some(((s[0] - 0xF0) * 0x4_0000 + (s[1] - 0x80) * 0x1000 + (s[2] - 0x80) * 0x40 + (s[3] - 0x80), 4))
    else None
  }

  lemma DecodeFirstInvertsEncode(c: Scalar, rest: seq<Byte>)
    ensures DecodeFirst(Encode(c) + rest) == Some((c, |Encode(c)|))
  {
    var s: seq<int> := Encode(c) + rest;
    var low, high := c % 0x40, c / 0x40;
    assert c == high * 0x40 + low;
    if c >= 0x800 {
      assert c / 0x1000 == high / 0x40 && high == high / 0x40 * 0x40 + high % 0x40;
      if c >= 0x1_0000 {
        var top := c / 0x1000;
        assert c / 0x4_0000 == top / 0x40 && top == top / 0x40 * 0x40 + top % 0x40;
      }
    }
  }

  lemma ThreeDigits(c: nat, x: nat, y: nat, z: nat)
    requires c == x * 0x1000 + y * 0x40 + z && y < 0x40 && z < 0x40
    ensures c / 0x1000 == x && c / 0x40 % 0x40 == y && c % 0x40 == z
  {
    assert c / 0x40 == x * 0x40 + y;
    assert c / 0x1000 == c / 0x40 / 0x40;
  }

  lemma FourDigits(c: nat, w: nat, x: nat, y: nat, z: nat)
    requires c == w * 0x4_0000 + x * 0x1000 + y * 0x40 + z && x < 0x40 && y < 0x40 && z < 0x40
    ensures c / 0x4_0000 == w && c / 0x1000 % 0x40 == x && c / 0x40 % 0x40 == y && c % 0x40 == z
  {
    ThreeDigits(c, w * 0x40 + x, y, z);
    assert c / 0x4_0000 == c / 0x1000 / 0x40;
  }

  lemma EncodeInvertsDecodeFirst(b: seq<Byte>)
    ensures DecodeFirst(b).Some? ==>
              var (c, n) := DecodeFirst(b).value; 0 < n <= |b| && Encode(c) == b[..n]
  {
    if DecodeFirst(b).Some? {
      var s: seq<int> := b;
      var (c, n) := DecodeFirst(b).value;
      if n == 2 {
        ThreeDigits(c, 0, s[0] - 0xC0, s[1] - 0x80);
      } else if n == 3 {
        ThreeDigits(c, s[0] - 0xE0, s[1] - 0x80, s[2] - 0x80);
      } else if n == 4 {
        FourDigits(c, s[0] - 0xF0, s[1] - 0x80, s[2] - 0x80, s[3] - 0x80);
      }
    }
  }

  // ---------- texts ----------

  function EncodeAll(cs: seq<Scalar>): seq<Byte> {
    if cs == [] then [] else Encode(cs[0]) + EncodeAll(cs[1..])
  }

  function Decode(b: seq<Byte>): Option<seq<Scalar>>
    decreases |b|
  {
    if b == [] then Some([])
    else
      match DecodeFirst(b)
      case None => None
      case Some((c, n)) =>
        EncodeInvertsDecodeFirst(b);
        match Decode(b[n..])
        case None => None
        case Some(cs) => Some([c] + cs)
  }

  /** Every text is read back from its encoding. */
  lemma {:induction false} DecodeInvertsEncode(cs: seq<Scalar>)
    ensures Decode(EncodeAll(cs)) == Some(cs)
  {
    if cs == [] {
    } else {
      DecodeFirstInvertsEncode(cs[0], EncodeAll(cs[1..]));
      assert EncodeAll(cs)[|Encode(cs[0])|..] == EncodeAll(cs[1..]);
      DecodeInvertsEncode(cs[1..]);
      assert [cs[0]] + cs[1..] == cs;
    }
  }

  /** Only encodings are accepted, so well-formed means "some text's encoding". */
  lemma {:induction false} EncodeInvertsDecode(b: seq<Byte>)
    ensures Decode(b).Some? ==> EncodeAll(Decode(b).value) == b
    decreases |b|
  {
    if b == [] || Decode(b).None? {
    } else {
      EncodeInvertsDecodeFirst(b);
      var (c, n) := DecodeFirst(b).value;
      EncodeInvertsDecode(b[n..]);
      var cs := Decode(b[n..]).value;
      assert ([c] + cs)[1..] == cs;
    }
  }

  lemma {:induction false} EncodeAllConcat(a: seq<Scalar>, b: seq<Scalar>)
    ensures EncodeAll(a + b) == EncodeAll(a) + EncodeAll(b)
  {
    if a == [] {
      assert a + b == b;
    } else {
      assert (a + b)[1..] == a[1..] + b;
      EncodeAllConcat(a[1..], b);
    }
  }

  /** The byte offset at which the k-th scalar of a text starts. */
  function Boundary(cs: seq<Scalar>, k: nat): nat
    requires k <= |cs|
  {
    |EncodeAll(cs[..k])|
  }

  lemma BoundaryStep(cs: seq<Scalar>, k: nat)
    requires k < |cs|
    ensures EncodeAll(cs) == EncodeAll(cs[..k]) + Encode(cs[k]) + EncodeAll(cs[k + 1..])
    ensures Boundary(cs, k + 1) == Boundary(cs, k) + |Encode(cs[k])| <= |EncodeAll(cs)|
  {
    assert cs == cs[..k] + ([cs[k]] + cs[k + 1..]);
    EncodeAllConcat(cs[..k], [cs[k]] + cs[k + 1..]);
    EncodeAllConcat([cs[k]], cs[k + 1..]);
    assert cs[..k + 1] == cs[..k] + [cs[k]];
    EncodeAllConcat(cs[..k], [cs[k]]);
    assert EncodeAll([cs[k]]) == Encode(cs[k]) + EncodeAll([]);
  }

  /** Cutting the encoded text at two boundaries yields the encoding of the slice. */
  lemma CutAtBoundaries(cs: seq<Scalar>, j: nat, k: nat)
    requires j <= k <= |cs|
    ensures Boundary(cs, j) <= Boundary(cs, k) <= |EncodeAll(cs)|
    ensures EncodeAll(cs)[Boundary(cs, j)..Boundary(cs, k)] == EncodeAll(cs[j..k])
  {
    assert cs == cs[..k] + cs[k..] && cs[..k] == cs[..j] + cs[j..k];
    EncodeAllConcat(cs[..k], cs[k..]);
    EncodeAllConcat(cs[..j], cs[j..k]);
    assert EncodeAll(cs) == EncodeAll(cs[..j]) + EncodeAll(cs[j..k]) + EncodeAll(cs[k..]);
  }

  lemma {:induction false} BoundariesIncrease(cs: seq<Scalar>, j: nat, k: nat)
    requires j < k <= |cs|
    ensures Boundary(cs, j) < Boundary(cs, k)
  {
    BoundaryStep(cs, k - 1);
    if j == k - 1 {
    } else {
      BoundariesIncrease(cs, j, k - 1);
    }
  }
}
