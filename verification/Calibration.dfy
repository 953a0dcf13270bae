/**
 Calibration of a qualification batch: grow until a probe is long enough to trust,
 scale to the target duration, then confirm at most twice. Probe durations are arbitrary.
 */
module Calibration {
  import opened Common
  import opened Words

  const MAXIMUM_BATCH := 100_000_000
  const MINIMUM_PROBE_MS: real := 2.0
  const TARGET_MS: real := 40.0
  const CONFIRM_LOW_MS: real := 30.0
  const CONFIRM_HIGH_MS: real := 50.0
  const CONFIRMATIONS := 2

  /** Math.Round: to the nearest integer, ties to the even one. */
  function Round(x: real): (n: int)
    ensures x - 0.5 <= n as real <= x + 0.5
    ensures n as real == x - 0.5 || n as real == x + 0.5 ==> n % 2 == 0
  {
    var below := x.Floor;
    var rest := x - below as real;
    if rest < 0.5 || (rest == 0.5 && below % 2 == 0) then below else below + 1
  }

  function Clamp(x: int, low: int, high: int): int
    requires low <= high
  {
    if x < low then low else if x > high then high else x
  }

  /** The duration in milliseconds of the k-th probe when it runs a batch of the given size. */
  type ProbeClock = (nat, int) -> real

  predicate InRange(b: int) {
    1 <= b <= MAXIMUM_BATCH
  }

  /** The batch size that would have hit the target, had this probe been exact. */
  function Rescaled(batch: int, elapsed: real): (r: int)
    requires elapsed > 0.0
    ensures InRange(r)
  {
    Clamp(Round(batch as real * TARGET_MS / elapsed), 1, MAXIMUM_BATCH)
  }

  function GrowthScale(elapsed: real): (scale: int)
    ensures 2 <= scale <= 32
  {
    if elapsed <= 0.0 then 32 else Clamp(Ceiling(MINIMUM_PROBE_MS / elapsed), 2, 32)
  }

  /** `factor` probes of this duration take that many milliseconds. */
  function Lasting(factor: int, elapsed: real): real {
    factor as real * elapsed
  }

  /** The least factor from 2 to 32 that makes two milliseconds of the probe, or 32 if none does. */
  predicate IsScale(scale: int, elapsed: real) {
    && 2 <= scale <= 32
    && (scale < 32 ==> Lasting(scale, elapsed) >= 2.0)
    && (scale > 2 ==> Lasting(scale - 1, elapsed) < 2.0)
  }

  lemma GrowthScaleIsScale(elapsed: real)
    ensures IsScale(GrowthScale(elapsed), elapsed)
  {
    hide Lasting;
    var scale := GrowthScale(elapsed);
    if elapsed <= 0.0 {
      NothingLasts(scale - 1, elapsed);
    } else {
      var q := MINIMUM_PROBE_MS / elapsed;
      LastingTwo(q, scale, elapsed);
      LastingTwo(q, scale - 1, elapsed);
    }
  }

  lemma NothingLasts(factor: int, elapsed: real)
    requires factor >= 0 && elapsed <= 0.0
    ensures Lasting(factor, elapsed) < 2.0
  {
  }

  lemma LastingTwo(q: real, factor: int, elapsed: real)
    requires elapsed > 0.0 && q == 2.0 / elapsed
    ensures q <= factor as real ==> Lasting(factor, elapsed) >= 2.0
    ensures q > factor as real ==> Lasting(factor, elapsed) < 2.0
  {
    assert q * elapsed == 2.0;
    var difference := factor as real - q;
    assert difference >= 0.0 ==> difference * elapsed >= 0.0;
    assert difference < 0.0 ==> difference * elapsed < 0.0;
    assert difference * elapsed == Lasting(factor, elapsed) - 2.0;
  }

  lemma ScaleIsUnique(a: int, b: int, elapsed: real)
    requires IsScale(a, elapsed) && IsScale(b, elapsed)
    ensures a == b
  {
    if a < b {
      LastingGrows(a, b - 1, elapsed);
    }
    if b < a {
      LastingGrows(b, a - 1, elapsed);
    }
  }

  lemma LastingGrows(a: int, b: int, elapsed: real)
    requires 0 <= a <= b && Lasting(a, elapsed) >= 2.0
    ensures Lasting(b, elapsed) >= 2.0
  {
    if elapsed <= 0.0 {
      NothingLasts(a, elapsed);
      assert false;
    } else {
      assert (b - a) as real * elapsed >= 0.0;
    }
  }

  lemma ScaledBounds(batch: int, scale: int)
    requires InRange(batch) && 2 <= scale <= 32
    ensures 2 * batch <= batch * scale <= 32 * batch <= 3_200_000_000
  {
    assert 0 <= batch * (scale - 2) && 0 <= batch * (32 - scale);
  }

  /** One growth step: at least a doubling, computed in 64 bits and cut off at the maximum. */
  function Grown(batch: int, elapsed: real): (r: int)
    requires InRange(batch)
    ensures InRange(r) && r <= 32 * batch && (r >= 2 * batch || r == MAXIMUM_BATCH)
  {
    var scale := GrowthScale(elapsed);
    ScaledBounds(batch, scale);
    if batch * scale < MAXIMUM_BATCH then batch * scale else MAXIMUM_BATCH
  }

  /** The batch times the scale that the probe asks for, up to a hundred million. */
  lemma GrownMeans(batch: int, elapsed: real, scale: int)
    requires InRange(batch) && IsScale(scale, elapsed)
    ensures Grown(batch, elapsed) == if batch * scale < 100_000_000 then batch * scale else 100_000_000
  {
    hide IsScale;
    GrowthScaleIsScale(elapsed);
    ScaleIsUnique(scale, GrowthScale(elapsed), elapsed);
  }

  /** The nearest batch to the one that would have taken forty milliseconds, from one to a hundred million. */
  predicate IsRescaled(r: int, batch: int, elapsed: real) {
    var perfect := Lasting(batch, 40.0);
    && 1 <= r <= 100_000_000
    && (r > 1 ==> Lasting(r, elapsed) <= perfect + elapsed / 2.0)
    && (r < 100_000_000 ==> Lasting(r, elapsed) >= perfect - elapsed / 2.0)
  }

  lemma RescaledMeans(batch: int, elapsed: real)
    requires elapsed > 0.0
    ensures IsRescaled(Rescaled(batch, elapsed), batch, elapsed)
  {
    var x := batch as real * TARGET_MS / elapsed;
    assert Lasting(batch, 40.0) == x * elapsed;
    NearestFits(x, Rescaled(batch, elapsed), batch, elapsed);
  }

  lemma NearestFits(x: real, r: int, batch: int, elapsed: real)
    requires elapsed > 0.0 && x * elapsed == Lasting(batch, 40.0) && 1 <= r <= 100_000_000
    requires (r > 1 ==> r as real <= x + 0.5) && (r < 100_000_000 ==> x - 0.5 <= r as real)
    ensures IsRescaled(r, batch, elapsed)
  {
    var less, more := r as real - x + 0.5, x + 0.5 - r as real;
    assert less * elapsed == Lasting(r, elapsed) - x * elapsed + elapsed / 2.0;
    assert more * elapsed == x * elapsed + elapsed / 2.0 - Lasting(r, elapsed);
    assert less >= 0.0 ==> less * elapsed >= 0.0;
    assert more >= 0.0 ==> more * elapsed >= 0.0;
  }

  /** The probe before was too short, and this one is at least twice and at most 32 times as large, or the maximum. */
  predicate GrowsAt(clock: ProbeClock, probes: seq<int>, i: nat)
    requires 0 < i < |probes|
  {
    var before, elapsed := probes[i - 1], clock(i - 1, probes[i - 1]);
    && elapsed < 2.0 && InRange(before)
    && probes[i] == Grown(before, elapsed) <= 32 * before
    && (probes[i] >= 2 * before || probes[i] == MAXIMUM_BATCH)
  }

  lemma GrowsOnce(clock: ProbeClock, probes: seq<int>)
    requires probes != [] && InRange(probes[|probes| - 1])
    requires clock(|probes| - 1, probes[|probes| - 1]) < MINIMUM_PROBE_MS
    requires forall i :: 0 < i < |probes| ==> GrowsAt(clock, probes, i)
    ensures var last := probes[|probes| - 1];
            var longer := probes + [Grown(last, clock(|probes| - 1, last))];
            forall i :: 0 < i < |longer| ==> GrowsAt(clock, longer, i)
  {
    hide Grown;
    var last := probes[|probes| - 1];
    var longer := probes + [Grown(last, clock(|probes| - 1, last))];
    forall i | 0 < i < |longer| ensures GrowsAt(clock, longer, i) {
      assert i < |probes| ==> GrowsAt(clock, probes, i);
    }
  }

  method GrowProbe(clock: ProbeClock) returns (batch: int, elapsed: real, probes: seq<int>)
    ensures InRange(batch) && forall i :: 0 <= i < |probes| ==> InRange(probes[i])
    ensures 1 <= |probes| <= 28 && probes[|probes| - 1] == batch
    ensures elapsed == clock(|probes| - 1, batch)
    ensures elapsed >= 2.0 || batch == 100_000_000
    ensures probes[0] == 1 && forall i :: 0 < i < |probes| ==> GrowsAt(clock, probes, i)
  {
    hide GrowsAt, Grown, Pow2;
    batch := 1;
    elapsed := clock(0, batch);
    probes := [batch];
    Pow2Zero();
    while elapsed < MINIMUM_PROBE_MS && batch < MAXIMUM_BATCH
      invariant InRange(batch) && 1 <= |probes| <= 28 && probes[|probes| - 1] == batch
      invariant forall i :: 0 <= i < |probes| ==> InRange(probes[i])
      invariant elapsed == clock(|probes| - 1, batch)
      invariant batch == MAXIMUM_BATCH || Pow2(|probes| - 1) <= batch
      invariant probes[0] == 1 && forall i :: 0 < i < |probes| ==> GrowsAt(clock, probes, i)
      decreases MAXIMUM_BATCH - batch
    {
      DoublingsBounded(|probes| - 1, batch);
      GrowsOnce(clock, probes);
      batch := Grown(batch, elapsed);
      elapsed := clock(|probes|, batch);
      probes := probes + [batch];
    }
  }

  /** A batch still below the maximum has been doubled fewer than 27 times. */
  lemma DoublingsBounded(doublings: nat, batch: int)
    requires Pow2(doublings) <= batch < MAXIMUM_BATCH
    ensures doublings < 27 && Pow2(doublings + 1) <= 2 * batch
  {
    if doublings >= 27 {
      Pow2Monotone(27, doublings);
      TwentySevenDoublings();
    }
  }

  lemma TwentySevenDoublings()
    ensures Pow2(27) == 134_217_728
  {
    hide Pow2;
    Pow2Zero();
    FourMoreBits(0);
    FourMoreBits(4);
    FourMoreBits(8);
    FourMoreBits(12);
    FourMoreBits(16);
    FourMoreBits(20);
    ThreeMoreBits(24);
  }

  lemma ThreeMoreBits(n: nat)
    ensures Pow2(n + 3) == 8 * Pow2(n)
  {
    assert Pow2(n + 3) == 2 * Pow2(n + 2) && Pow2(n + 2) == 2 * Pow2(n + 1);
  }

  predicate InWindow(elapsed: real) {
    CONFIRM_LOW_MS <= elapsed <= CONFIRM_HIGH_MS
  }

  /** The batch that is left after at most `rounds` confirmations, the next probe being number `k`. */
  function Confirmed(clock: ProbeClock, k: nat, batch: int, rounds: nat): (r: int)
    requires InRange(batch)
    ensures InRange(r)
    decreases rounds
  {
    var confirmation := clock(k, batch);
    if rounds == 0 || InWindow(confirmation) || confirmation <= 0.0 then batch
    else
      var adjusted := Rescaled(batch, confirmation);
      if adjusted == batch then batch else Confirmed(clock, k + 1, adjusted, rounds - 1)
  }

  /** Measured by this probe the batch is inside the window, or took no time, or is its own correction. */
  predicate IsSettled(clock: ProbeClock, batch: int, probe: nat)
    requires InRange(batch)
  {
    var elapsed := clock(probe, batch);
    30.0 <= elapsed <= 50.0 || elapsed <= 0.0 || Rescaled(batch, elapsed) == batch
  }

  /** A settled batch is kept; any other is corrected, as long as a confirmation is left. */
  lemma ConfirmedUnlessSettled(clock: ProbeClock, k: nat, batch: int, rounds: nat)
    requires InRange(batch) && rounds > 0
    ensures IsSettled(clock, batch, k) ==> Confirmed(clock, k, batch, rounds) == batch
    ensures !IsSettled(clock, batch, k) ==>
              clock(k, batch) > 0.0 &&
              Confirmed(clock, k, batch, rounds) == Confirmed(clock, k + 1, Rescaled(batch, clock(k, batch)), rounds - 1)
  {
    hide Rescaled;
  }

  ghost predicate SettledBetween(clock: ProbeClock, batch: int, from: nat, to: nat)
    requires InRange(batch)
  {
    exists probe: nat :: from <= probe < to && IsSettled(clock, batch, probe)
  }

  /** The batch corrects what this probe measured. */
  ghost predicate Corrects(clock: ProbeClock, batch: int, probe: nat) {
    exists before :: InRange(before) && clock(probe, before) > 0.0 && batch == Rescaled(before, clock(probe, before))
  }

  /** On any clock a confirmation settles the batch, or it is the correction of the last probe allowed. */
  lemma {:induction false} ConfirmationSettles(clock: ProbeClock, k: nat, batch: int, rounds: nat)
    requires InRange(batch) && rounds > 0
    ensures var r := Confirmed(clock, k, batch, rounds);
            SettledBetween(clock, r, k, k + rounds) || Corrects(clock, r, k + rounds - 1)
    decreases rounds
  {
    hide Rescaled;
    var confirmation := clock(k, batch);
    if InWindow(confirmation) || confirmation <= 0.0 || Rescaled(batch, confirmation) == batch {
      assert IsSettled(clock, batch, k);
    } else if rounds == 1 {
    } else {
      var next := Rescaled(batch, confirmation);
      ConfirmationSettles(clock, k + 1, next, rounds - 1);
    }
  }

  lemma GrowthKept(clock: ProbeClock, growth: seq<int>, probes: seq<int>)
    requires growth <= probes && forall i :: 0 < i < |growth| ==> GrowsAt(clock, growth, i)
    ensures forall i :: 0 < i < |growth| ==> GrowsAt(clock, probes, i)
  {
    hide Grown, GrowthScale;
    forall i | 0 < i < |growth| ensures GrowsAt(clock, probes, i) {
      assert GrowsAt(clock, growth, i);
    }
  }

  method CalibrateBatch(clock: ProbeClock) returns (batch: int, probes: seq<int>, ghost grown: nat)
    ensures InRange(batch) && forall i :: 0 <= i < |probes| ==> InRange(probes[i])
    ensures 1 <= grown <= 28 && grown <= |probes| <= grown + 2
    // growth ends with probe `grown - 1`; what it suggests is then confirmed
    ensures (forall i :: 0 < i < grown ==> GrowsAt(clock, probes, i)) && probes[0] == 1
    ensures var probe := probes[grown - 1];
            var elapsed := clock(grown - 1, probe);
            && (elapsed >= 2.0 || probe == 100_000_000)
            && batch == if elapsed <= 0.0 then probe else Confirmed(clock, grown, Rescaled(probe, elapsed), 2)
    ensures forall cost :: cost > 0.0 && SteadyClock(clock, cost) ==> batch == Rescaled(1, cost)
  {
    hide Rescaled, SteadyClock, InWindow, GrowsAt;
    var elapsed;
    batch, elapsed, probes := GrowProbe(clock);
    grown := |probes|;
    ghost var growth := probes;
    SteadyRescale(clock, |probes| - 1, batch);
    if elapsed <= 0.0 {
      return;
    }
    batch := Rescaled(batch, elapsed);
    ghost var suggested := batch;
    var attempt := 0;
    while attempt < CONFIRMATIONS
      invariant 0 <= attempt <= CONFIRMATIONS && InRange(batch)
      invariant |probes| == grown + attempt && growth <= probes
      invariant forall i :: 0 <= i < |probes| ==> InRange(probes[i])
      invariant Confirmed(clock, grown, suggested, CONFIRMATIONS) ==
                Confirmed(clock, grown + attempt, batch, CONFIRMATIONS - attempt)
      invariant forall cost :: cost > 0.0 && SteadyClock(clock, cost) ==> batch == Rescaled(1, cost)
    {
      var confirmation := clock(|probes|, batch);
      SteadyRescale(clock, |probes|, batch);
      probes := probes + [batch];
      if InWindow(confirmation) || confirmation <= 0.0 {
        break;
      }
      var adjusted := Rescaled(batch, confirmation);
      if adjusted == batch {
        break;
      }
      batch := adjusted;
      attempt := attempt + 1;
    }
    GrowthKept(clock, growth, probes);
  }

  // ---------- a clock that always charges the same per operation ----------

  ghost predicate SteadyClock(clock: ProbeClock, cost: real) {
    forall k: nat, b: int :: clock(k, b) == b as real * cost
  }

  lemma SteadyQuotient(batch: int, cost: real)
    requires batch >= 1 && cost > 0.0
    ensures batch as real * cost > 0.0
    ensures batch as real * TARGET_MS / (batch as real * cost) == 1.0 * TARGET_MS / cost
  {
    var b := batch as real;
    assert b * cost > 0.0;
    var q := TARGET_MS / cost;
    assert q * cost == TARGET_MS;
    assert b * TARGET_MS == q * (b * cost);
  }

  /** From any probe of a steady clock the same batch size is derived. */
  lemma SteadyRescale(clock: ProbeClock, k: nat, batch: int)
    requires batch >= 1
    ensures forall cost :: cost > 0.0 && SteadyClock(clock, cost) ==>
              clock(k, batch) > 0.0 && Rescaled(batch, clock(k, batch)) == Rescaled(1, cost)
  {
    forall cost | cost > 0.0 && SteadyClock(clock, cost)
      ensures clock(k, batch) > 0.0 && Rescaled(batch, clock(k, batch)) == Rescaled(1, cost)
    {
      SteadyQuotient(batch, cost);
    }
  }

  /** What `count` operations take, for any real count. */
  function Duration(count: real, cost: real): real {
    count * cost
  }

  /** A batch that lasts the target to half an operation, unless a bound cut it off. */
  predicate OnTarget(batch: int, cost: real) {
    var duration := Duration(batch as real, cost);
    || (40.0 - cost / 2.0 <= duration <= 40.0 + cost / 2.0)
    || (batch == 1 && 40.0 < duration)
    || (batch == 100_000_000 && duration < 40.0)
  }

  /** What calibration derives from a steady clock is on target. */
  lemma SteadySampleHitsTarget(cost: real)
    requires cost > 0.0
    ensures OnTarget(Rescaled(1, cost), cost)
  {
    hide OnTarget;
    var q := TARGET_MS / cost;
    assert Duration(q, cost) == TARGET_MS;
    assert 1 as real * TARGET_MS / cost == q;
    ClampedSample(q, Round(q), Rescaled(1, cost), cost);
  }

  lemma ClampedSample(q: real, n: int, batch: int, cost: real)
    requires cost > 0.0 && Duration(q, cost) == TARGET_MS && q - 0.5 <= n as real <= q + 0.5
    requires batch == Clamp(n, 1, MAXIMUM_BATCH)
    ensures OnTarget(batch, cost)
  {
    hide Duration;
    HalfAStep(q, batch as real, cost);
    DurationOfUnits(cost);
    if n < 1 {
      DurationGrows(q, 0.5, cost);
    } else if n > MAXIMUM_BATCH {
      HalfLess(q, cost);
      DurationGrows(batch as real, q - 0.5, cost);
    }
  }

  lemma DurationOfUnits(cost: real)
    ensures Duration(1.0, cost) == cost && Duration(0.5, cost) == cost / 2.0
  {
  }

  lemma DurationGrows(a: real, b: real, cost: real)
    requires a <= b && cost > 0.0
    ensures Duration(a, cost) <= Duration(b, cost)
  {
    assert (b - a) * cost >= 0.0;
  }

  lemma HalfLess(q: real, cost: real)
    ensures Duration(q - 0.5, cost) == Duration(q, cost) - cost / 2.0
  {
  }

  /** Half an operation less or more. */
  lemma HalfAStep(q: real, n: real, cost: real)
    requires cost > 0.0
    ensures q - 0.5 <= n <= q + 0.5 ==> Duration(q, cost) - cost / 2.0 <= Duration(n, cost) <= Duration(q, cost) + cost / 2.0
  {
    if q - 0.5 <= n <= q + 0.5 {
      var less, more := n - q + 0.5, q + 0.5 - n;
      assert less * cost >= 0.0 && more * cost >= 0.0;
      assert less * cost == n * cost - q * cost + cost / 2.0;
      assert more * cost == q * cost + cost / 2.0 - n * cost;
    }
  }
}
