/**
 The byte-control gate of the Python benchmark: one version inspects the encoded
 subject, an independent one the subject string. Strings are UTF-16 and may hold
 unpaired surrogates.
 */
module ByteControl {
  import opened Words
  import opened Utf8
  import opened Coordinates

  datatype Operation =
    | IsMatch | Search | Match | FullMatch | SearchDetailed | Count | FindAllStrings | FindAllUtf8
    | FindIterDetailed | ReplaceString | ReplaceUtf8 | SubnString | SubnUtf8 | SubnEvaluatorString
    | SplitStrings | SubnEvaluatorUtf8 | SearchFromOffset | CountFromOffset | FindAllStructural
    | ReplaceStringLimited | ReplaceEvaluatorString | SplitStringsLimited | SplitDetailed
    | FindAllStringsFromOffset

  /** `options` are the compile flags as an integer. */
  datatype Case = Case(pattern: seq<Word16>, options: nat, operation: Operation, input: seq<Word16>)

  datatype Verdict = OperationExcluded | NonAscii | FlagsExcluded | Eligible

  const LOCALE_FLAG := 1   // 1 << 1
  const UNICODE_FLAG := 6  // 1 << 6

  predicate IsOneShot(op: Operation) {
    op.IsMatch? || op.Search? || op.SearchFromOffset? || op.Match? || op.FullMatch?
  }

  predicate AsciiUnits(units: seq<Word16>) {
    forall i :: 0 <= i < |units| ==> units[i] <= 0x7F
  }

  predicate AsciiBytes(bytes: seq<Byte>) {
    forall i :: 0 <= i < |bytes| ==> bytes[i] <= 0x7F
  }

  predicate HasExcludedFlags(options: nat) {
    Bit(options, LOCALE_FLAG) || Bit(options, UNICODE_FLAG)
  }

  /** The gate that decides from the pattern and the encoded subject. */
  function Eligibility(c: Case, inputBytes: seq<Byte>): Verdict {
    if !IsOneShot(c.operation) then OperationExcluded
    else if !AsciiUnits(c.pattern) || !AsciiBytes(inputBytes) then NonAscii
    else if HasExcludedFlags(c.options) then FlagsExcluded
    else Eligible
  }

  /** The expectation that is computed from the strings alone. */
  function Expectation(c: Case): Verdict {
    if !IsOneShot(c.operation) then OperationExcluded
    else if !AsciiUnits(c.pattern) || !AsciiUnits(c.input) then NonAscii
    else if !HasExcludedFlags(c.options) then Eligible
    else FlagsExcluded
  }

  /** Encoding.UTF8.GetBytes */
  function GetBytes(units: seq<Word16>): seq<Byte> {
    EncodeAll(Repair(units))
  }

  lemma {:induction false} AsciiBytesIffAsciiScalars(cs: seq<Scalar>)
    ensures AsciiBytes(EncodeAll(cs)) <==> IsAscii(cs)
  {
    if cs == [] {
    } else {
      var first, rest := Encode(cs[0]), EncodeAll(cs[1..]);
      AsciiBytesIffAsciiScalars(cs[1..]);
      assert cs == [cs[0]] + cs[1..];
      assert EncodeAll(cs)[0] == first[0];
      assert cs[0] >= 0x80 ==> first[0] >= 0x80;
      assert forall i :: 0 <= i < |rest| ==> rest[i] == EncodeAll(cs)[|first| + i];
    }
  }

  lemma {:induction false} AsciiScalarsIffAsciiUnits(units: seq<Word16>)
    ensures IsAscii(Repair(units)) <==> AsciiUnits(units)
    decreases |units|
  {
    if units == [] {
    } else if IsPair(units) {
      assert units[0] > 0x7F && Repair(units)[0] > 0x7F;
    } else {
      AsciiScalarsIffAsciiUnits(units[1..]);
      var first, rest := Repair(units)[0], Repair(units[1..]);
      AsciiCons(first, rest);
      AsciiUnitsCons(units[0], units[1..]);
      assert Repair(units) == [first] + rest && units == [units[0]] + units[1..];
    }
  }

  lemma AsciiUnitsCons(first: Word16, rest: seq<Word16>)
    ensures AsciiUnits([first] + rest) <==> first <= 0x7F && AsciiUnits(rest)
  {
    var units := [first] + rest;
    assert units[0] == first && forall i :: 0 <= i < |rest| ==> rest[i] == units[i + 1];
  }

  /** Each verdict by its reason: five operations, seven-bit text, and neither flag 2 nor flag 64. */
  lemma VerdictMeans(c: Case)
    ensures Expectation(c) == OperationExcluded <==> c.operation !in {IsMatch, Search, Match, FullMatch, SearchFromOffset}
    ensures Expectation(c) == NonAscii <==>
              Expectation(c) != OperationExcluded &&
              exists i :: (0 <= i < |c.pattern| && c.pattern[i] >= 128) || (0 <= i < |c.input| && c.input[i] >= 128)
    ensures Expectation(c) == FlagsExcluded <==>
              Expectation(c) !in {OperationExcluded, NonAscii} && (c.options / 2 % 2 == 1 || c.options / 64 % 2 == 1)
  {
    SixthBit(c.options);
    if !AsciiUnits(c.pattern) {
      var i :| 0 <= i < |c.pattern| && c.pattern[i] > 0x7F;
    } else if !AsciiUnits(c.input) {
      var i :| 0 <= i < |c.input| && c.input[i] > 0x7F;
    }
  }

  lemma SixthBit(options: nat)
    ensures Bit(options, 1) <==> options / 2 % 2 == 1
    ensures Bit(options, 6) <==> options / 64 % 2 == 1
  {
    BitIsDigit(options, 1);
    BitIsDigit(options, 6);
    assert Pow2(1) == 2 && Pow2(6) == 64;
  }

  /** Both gates give the same verdict, with the same reason, for every case. */
  lemma GatesAgree(c: Case)
    ensures Eligibility(c, GetBytes(c.input)) == Expectation(c)
  {
    AsciiBytesIffAsciiScalars(Repair(c.input));
    AsciiScalarsIffAsciiUnits(c.input);
  }

  /** What the gate's reason claims: over an eligible subject all coordinates are identical. */
  lemma EligibleCoordinatesAreIdentical(c: Case)
    requires Eligibility(c, GetBytes(c.input)) == Eligible
    ensures var text := Repair(c.input);
            |text| == |c.input| && forall k :: 0 <= k <= |text| ==> Boundary(text, k) == Boundary16(text, k) == k
  {
    hide Eligibility, Boundary, Boundary16;
    GatesAgree(c);
    EligibleMeansAscii(c);
    var text := Repair(c.input);
    AsciiScalarsIffAsciiUnits(c.input);
    CoordinatesAgreeIffAscii(text);
    forall k | 0 <= k <= |text| ensures Boundary(text, k) == k {
      AsciiBoundary(text, k);
    }
    AsciiRepairKeepsLength(c.input);
  }

  lemma EligibleMeansAscii(c: Case)
    requires Expectation(c) == Eligible
    ensures AsciiUnits(c.input)
  {
  }

  lemma {:induction false} AsciiBoundary(cs: seq<Scalar>, k: nat)
    requires IsAscii(cs) && k <= |cs|
    ensures Boundary(cs, k) == k
  {
    if k == 0 {
    } else {
      AsciiBoundary(cs, k - 1);
      BoundaryStep(cs, k - 1);
    }
  }

  lemma {:induction false} AsciiRepairKeepsLength(units: seq<Word16>)
    requires AsciiUnits(units)
    ensures |Repair(units)| == |units|
  {
    if units == [] {
    } else {
      assert !IsPair(units);
      AsciiRepairKeepsLength(units[1..]);
    }
  }

  // ---------- the input width class ----------

  /** Some scalar of the text takes `width` bytes. */
  ghost predicate HasWidth(cs: seq<Scalar>, width: int) {
    exists i :: 0 <= i < |cs| && |Encode(cs[i])| == width
  }

  /** The byte widths that occur in the text, narrowest first. */
  method InputWidthClass(input: seq<Word16>) returns (widths: seq<int>)
    ensures forall w :: w in widths <==> HasWidth(Repair(input), w)
    ensures forall i, j :: 0 <= i < j < |widths| ==> widths[i] < widths[j]
  {
    hide HasWidth, Encode, Repair;
    var runes := Repair(input);
    var hasAscii, hasTwoByte, hasThreeByte, hasFourByte := false, false, false, false;
    NoWidths();
    for n := 0 to |runes|
      invariant hasAscii == HasWidth(runes[..n], 1)
      invariant hasTwoByte == HasWidth(runes[..n], 2)
      invariant hasThreeByte == HasWidth(runes[..n], 3)
      invariant hasFourByte == HasWidth(runes[..n], 4)
    {
      var rune := runes[n];
      WidthsAppend(runes, n);
      WidthOf(rune);
      if rune <= 0x7F {
        hasAscii := true;
      } else if rune <= 0x7FF {
        hasTwoByte := true;
      } else if rune <= 0xFFFF {
        hasThreeByte := true;
      } else {
        hasFourByte := true;
      }
    }
    assert runes[..|runes|] == runes;
    WidthsBounded(runes);
    widths := [];
    if hasAscii { widths := widths + [1]; }
    if hasTwoByte { widths := widths + [2]; }
    if hasThreeByte { widths := widths + [3]; }
    if hasFourByte { widths := widths + [4]; }
  }

  lemma NoWidths()
    ensures forall w :: !HasWidth([], w)
  {
  }

  lemma WidthsBounded(cs: seq<Scalar>)
    ensures forall w :: HasWidth(cs, w) ==> 1 <= w <= 4
  {
  }

  lemma WidthOf(c: Scalar)
    ensures |Encode(c)| == if c <= 0x7F then 1 else if c <= 0x7FF then 2 else if c <= 0xFFFF then 3 else 4
  {
  }

  lemma WidthsAppend(cs: seq<Scalar>, n: nat)
    requires n < |cs|
    ensures forall w :: HasWidth(cs[..n + 1], w) <==> HasWidth(cs[..n], w) || w == |Encode(cs[n])|
  {
    var longer, shorter := cs[..n + 1], cs[..n];
    forall w ensures HasWidth(longer, w) <==> HasWidth(shorter, w) || w == |Encode(cs[n])| {
      if HasWidth(shorter, w) {
        var i :| 0 <= i < |shorter| && |Encode(shorter[i])| == w;
        assert longer[i] == shorter[i];
      }
      if w == |Encode(cs[n])| {
        assert longer[n] == cs[n];
      }
      if HasWidth(longer, w) {
        var i :| 0 <= i < |longer| && |Encode(longer[i])| == w;
        assert i < n ==> shorter[i] == longer[i];
      }
    }
  }
}
