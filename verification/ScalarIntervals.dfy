/**
 The run scan that turns a predicate on scalars into half-open interval endpoints, the
 emitted interval search, and the ASCII membership masks.
 */
module ScalarIntervals {
  import opened Common
  import opened Words
  import Utf8

  type Predicate = int -> bool

  const FIRST := 128

  /** What the scan counts as a hit: an accepted scalar. */
  predicate Hit(accepts: Predicate, scalar: int) {
    scalar < 0x11_0000 && !(0xD800 <= scalar <= 0xDFFF) && accepts(scalar)
  }

  /** Strictly increasing, and every interval closed. */
  predicate IsEndpointList(endpoints: seq<int>) {
    && |endpoints| % 2 == 0
    && forall i, j :: 0 <= i < j < |endpoints| ==> endpoints[i] < endpoints[j]
  }

  predicate InInterval(endpoints: seq<int>, k: int, x: int) {
    0 <= 2 * k && 2 * k + 1 < |endpoints| && endpoints[2 * k] <= x < endpoints[2 * k + 1]
  }

  ghost predicate Denotes(endpoints: seq<int>, x: int) {
    exists k :: InInterval(endpoints, k, x)
  }

  // ---------- the run scan ----------

  /** The state of the scan just before `scalar`: closed runs and perhaps an open one. */
  ghost predicate ScanState(accepts: Predicate, endpoints: seq<int>, start: Option<int>, scalar: int) {
    && IsEndpointList(endpoints)
    && (endpoints != [] ==> endpoints[|endpoints| - 1] < (if start.Some? then start.value else scalar))
    && (start.Some? ==> FIRST <= start.value < scalar)
    && (start.Some? ==> forall x :: start.value <= x < scalar ==> Hit(accepts, x))
    && (forall x :: Denotes(endpoints, x) <==>
          FIRST <= x < (if start.Some? then start.value else scalar) && Hit(accepts, x))
  }

  lemma CloseRun(accepts: Predicate, endpoints: seq<int>, start: int, scalar: int)
    requires ScanState(accepts, endpoints, Some(start), scalar) && !Hit(accepts, scalar)
    ensures ScanState(accepts, endpoints + [start, scalar], None, scalar + 1)
  {
    var longer := endpoints + [start, scalar];
    var last := |endpoints| / 2;
    forall x ensures Denotes(longer, x) <==> FIRST <= x < scalar + 1 && Hit(accepts, x) {
      if Denotes(endpoints, x) {
        var k :| InInterval(endpoints, k, x);
        assert InInterval(longer, k, x);
      }
      if start <= x < scalar {
        assert InInterval(longer, last, x);
      }
      if k :| InInterval(longer, k, x) {
        assert k < last ==> InInterval(endpoints, k, x);
      }
    }
  }

  lemma HitIsScalar(accepts: Predicate, s: int)
    ensures 0 <= s ==> (Hit(accepts, s) <==> Utf8.IsCodePoint(s) && accepts(s))
  {
    if 0 <= s && Hit(accepts, s) {
      var c: Utf8.Scalar := s;
      assert Utf8.CodePoint(c) == s;
    }
  }

  /** The endpoints denote the accepted Unicode scalars from 128 on, and no other number. */
  ghost predicate DenoteScalars(endpoints: seq<int>, accepts: Predicate) {
    && (forall c: Utf8.Scalar :: Denotes(endpoints, Utf8.CodePoint(c)) <==> 128 <= Utf8.CodePoint(c) && accepts(Utf8.CodePoint(c)))
    && (forall s: int :: Denotes(endpoints, s) ==> Utf8.IsCodePoint(s))
  }

  lemma HitsAreScalars(accepts: Predicate, endpoints: seq<int>)
    requires forall x :: Denotes(endpoints, x) <==> FIRST <= x && Hit(accepts, x)
    ensures DenoteScalars(endpoints, accepts)
  {
    hide Denotes;
    forall s: int | Denotes(endpoints, s) ensures Utf8.IsCodePoint(s) {
      var c: Utf8.Scalar := s;
      assert Utf8.CodePoint(c) == s;
    }
  }

  method BuildEndpoints(accepts: Predicate) returns (endpoints: seq<int>)
    ensures IsEndpointList(endpoints)
    ensures forall x :: Denotes(endpoints, x) <==> FIRST <= x && Hit(accepts, x)
    ensures DenoteScalars(endpoints, accepts)
  {
    endpoints := [];
    var start: Option<int> := None;
    for scalar := FIRST to 0x11_0001
      invariant ScanState(accepts, endpoints, start, scalar)
    {
      var hit := Hit(accepts, scalar);
      if hit && start.None? {
        start := Some(scalar);
      } else if !hit && start.Some? {
        CloseRun(accepts, endpoints, start.value, scalar);
        endpoints := endpoints + [start.value, scalar];
        start := None;
      }
    }
    assert start.Some? ==> Hit(accepts, 0x11_0000);
    HitsAreScalars(accepts, endpoints);
  }

  // ---------- the emitted search ----------

  /** `Contains`, which also reports how many intervals it looked at. */
  method Contains(ranges: seq<int>, scalar: int) returns (found: bool, probes: nat)
    requires IsEndpointList(ranges)
    ensures found <==> Denotes(ranges, scalar)
    ensures probes > 0 ==> Pow2(probes - 1) <= |ranges| / 2
  {
    var low, high := 0, |ranges| / 2;
    probes := 0;
    while low < high
      invariant 0 <= low <= high <= |ranges| / 2
      invariant forall k :: InInterval(ranges, k, scalar) ==> low <= k < high
      invariant Pow2(probes) * (high - low) <= |ranges| / 2
      invariant probes > 0 ==> Pow2(probes - 1) <= |ranges| / 2
    {
      var middle := low + (high - low) / 2;
      HalvingProbes(probes, low, high);
      probes := probes + 1;
      if scalar < ranges[2 * middle] {
        high := middle;
      } else if scalar >= ranges[2 * middle + 1] {
        low := middle + 1;
      } else {
        assert InInterval(ranges, middle, scalar);
        return true, probes;
      }
    }
    found := false;
  }

  lemma HalvingProbes(probes: nat, low: nat, high: nat)
    requires low < high
    ensures var middle := low + (high - low) / 2;
            && Pow2(probes + 1) * (middle - low) <= Pow2(probes) * (high - low)
            && Pow2(probes + 1) * (high - (middle + 1)) <= Pow2(probes) * (high - low)
            && Pow2(probes) <= Pow2(probes) * (high - low)
  {
    var p, size := Pow2(probes), high - low;
    var half := size / 2;
    assert p * (2 * half) <= p * size by { MultiplyMonotone(p, 2 * half, size); }
    assert p * (2 * (size - half - 1)) <= p * size by { MultiplyMonotone(p, 2 * (size - half - 1), size); }
    MultiplyMonotone(p, 1, size);
  }

  lemma MultiplyMonotone(p: nat, a: int, b: int)
    requires a <= b
    ensures p * a <= p * b
  {
  }

  /** An emitted classifier: a spelled-out test below 128, the compiled intervals above. */
  method Classify(accepts: Predicate, asciiTest: Predicate, scalar: int) returns (member: bool)
    ensures member <==> if scalar < 128 then asciiTest(scalar) else Utf8.IsCodePoint(scalar) && accepts(scalar)
  {
    hide Utf8.IsCodePoint;
    HitIsScalar(accepts, scalar);
    if scalar < FIRST {
      return asciiTest(scalar);
    }
    var endpoints := BuildEndpoints(accepts);
    var probes;
    member, probes := Contains(endpoints, scalar);
  }

  // ---------- the list is canonical ----------

  lemma FirstIsLeast(a: seq<int>, x: int)
    requires IsEndpointList(a) && a != []
    ensures Denotes(a, a[0]) && !Denotes(a, a[1])
    ensures Denotes(a, x) ==> a[0] <= x
    ensures a[0] <= x < a[1] ==> Denotes(a, x)
  {
    assert InInterval(a, 0, a[0]);
    if a[0] <= x < a[1] {
      assert InInterval(a, 0, x);
    }
  }

  lemma DropFirst(a: seq<int>, x: int)
    requires IsEndpointList(a) && a != []
    ensures IsEndpointList(a[2..])
    ensures Denotes(a[2..], x) <==> Denotes(a, x) && a[1] <= x
  {
    if k :| InInterval(a, k, x) {
      assert k > 0 ==> InInterval(a[2..], k - 1, x);
    }
    if k :| InInterval(a[2..], k, x) {
      assert InInterval(a, k + 1, x);
    }
  }

  lemma NothingDenoted()
    ensures forall x :: !Denotes([], x)
  {
  }

  /** Any two endpoint lists that denote the same set are equal. */
  lemma {:induction false} EndpointsAreCanonical(a: seq<int>, b: seq<int>)
    requires IsEndpointList(a) && IsEndpointList(b)
    requires forall x :: Denotes(a, x) <==> Denotes(b, x)
    ensures a == b
  {
    hide Denotes;
    NothingDenoted();
    if a == [] && b == [] {
    } else if a == [] {
      FirstIsLeast(b, 0);
      assert false;
    } else if b == [] {
      FirstIsLeast(a, 0);
      assert false;
    } else {
      FirstIsLeast(a, b[0]);
      FirstIsLeast(b, a[0]);
      FirstIsLeast(a, b[1]);
      FirstIsLeast(b, a[1]);
      forall x ensures Denotes(a[2..], x) <==> Denotes(b[2..], x) {
        DropFirst(a, x);
        DropFirst(b, x);
      }
      DropFirst(a, 0);
      DropFirst(b, 0);
      EndpointsAreCanonical(a[2..], b[2..]);
      assert a == [a[0], a[1]] + a[2..] && b == [b[0], b[1]] + b[2..];
    }
  }

  // ---------- the ASCII masks ----------

  /** `sum(1 << bit for bit in range(bits) if accepts(...))` */
  function MaskByte(accepts: Predicate, base: int, bits: nat): nat {
    if bits == 0 then 0
    else MaskByte(accepts, base, bits - 1) + if accepts(base + bits - 1) then Pow2(bits - 1) else 0
  }

  function AsciiMask(accepts: Predicate): (mask: seq<nat>)
    ensures |mask| == 16
    ensures forall index :: 0 <= index < 16 ==> mask[index] == MaskByte(accepts, index * 8, 8)
  {
    seq(16, index requires 0 <= index < 16 => MaskByte(accepts, index * 8, 8))
  }

  lemma {:induction false} MaskByteBits(accepts: Predicate, base: int, bits: nat, q: nat)
    ensures MaskByte(accepts, base, bits) < Pow2(bits)
    ensures Bit(MaskByte(accepts, base, bits), q) <==> q < bits && accepts(base + q)
  {
    if bits == 0 {
      NoBitsAbove(0, 0, q);
    } else {
      MaskByteBits(accepts, base, bits - 1, q);
      AddTopBit(MaskByte(accepts, base, bits - 1), bits - 1, q);
    }
  }

  /** Adding a power of two above a number sets just that bit. */
  lemma {:induction false} AddTopBit(low: nat, p: nat, q: nat)
    requires low < Pow2(p)
    ensures Bit(low + Pow2(p), q) <==> q == p || Bit(low, q)
    decreases p
  {
    if p == 0 {
      if q > 0 {
        NoBitsAbove(0, 0, q - 1);
        NoBitsAbove(0, 0, q);
      }
    } else if q > 0 {
      AddTopBit(low / 2, p - 1, q - 1);
      assert (low + Pow2(p)) / 2 == low / 2 + Pow2(p - 1);
    }
  }

  /** Bit by bit, the masks hold the predicate on every ASCII character; each fits a byte. */
  lemma AsciiMaskDecides(accepts: Predicate, scalar: nat)
    requires scalar < 128
    ensures Bit(AsciiMask(accepts)[scalar / 8], scalar % 8) <==> accepts(scalar)
    ensures AsciiMask(accepts)[scalar / 8] < 0x100
  {
    MaskByteBits(accepts, scalar / 8 * 8, 8, scalar % 8);
    Pow2Zero();
    FourMoreBits(0);
    FourMoreBits(4);
  }
}
