/**
 Choosing the processors a benchmark may run on: the scan over the system's CPU-set
 records, and the probe that picks one candidate. Masks are 64-bit numbers.
 */
module ProcessorMasks {
  import opened Common
  import opened Words

  const MINIMUM_ENTRY_SIZE := 20

  // ---------- reading the records ----------

  /** The memory that holds the records; nothing is known of what lies past them. */
  type Memory = int -> Byte

  function ReadInt16(memory: Memory, at: int): int {
    memory(at) + 0x100 * memory(at + 1) as int
  }

  function ReadInt32(memory: Memory, at: int): Int32 {
    Wrap32(memory(at) + 0x100 * memory(at + 1) as int + 0x1_0000 * memory(at + 2) as int + 0x100_0000 * memory(at + 3) as int)
  }

  datatype Entry = Entry(isCpuSet: bool, group: int, processor: Byte, efficiency: Byte)

  function ReadEntry(memory: Memory, at: int): Entry {
    Entry(ReadInt32(memory, at + 4) == 0, ReadInt16(memory, at + 12), memory(at + 14), memory(at + 18))
  }

  /** The records in [offset, end), or `None` when one has an impossible size. */
  function Entries(memory: Memory, offset: int, end: int): Option<seq<Entry>>
    decreases end - offset
  {
    if offset >= end then Some([])
    else
      var size := ReadInt32(memory, offset);
      if size < MINIMUM_ENTRY_SIZE || size > end - offset then None
      else
        match Entries(memory, offset + size, end)
        case None => None
        case Some(rest) => Some([ReadEntry(memory, offset)] + rest)
  }

  /** A record as it lies in memory; a CPU set has kind 0. */
  datatype Record = Record(size: Int32, kind: Int32, group: int, processor: Byte, efficiency: Byte)

  /** The four bytes at `at` are the number, lowest first; a negative one has 2^32 added. */
  predicate Holds32(memory: Memory, at: int, v: Int32) {
    memory(at) + 256 * memory(at + 1) as int + 65536 * memory(at + 2) as int + 16777216 * memory(at + 3) as int ==
    if v < 0 then v + 4294967296 else v
  }

  predicate HoldsRecord(memory: Memory, at: int, r: Record) {
    && Holds32(memory, at, r.size) && Holds32(memory, at + 4, r.kind)
    && memory(at + 12) + 256 * memory(at + 13) as int == r.group
    && memory(at + 14) == r.processor && memory(at + 18) == r.efficiency
  }

  /** The records lie one after the other, each as long as its size says and no shorter than twenty bytes. */
  ghost predicate HoldsRecords(memory: Memory, at: int, end: int, records: seq<Record>)
    decreases |records|
  {
    if records == [] then at == end
    else
      && HoldsRecord(memory, at, records[0]) && 20 <= records[0].size
      && HoldsRecords(memory, at + records[0].size, end, records[1..])
  }

  function EntryOf(r: Record): Entry {
    Entry(r.kind == 0, r.group, r.processor, r.efficiency)
  }

  lemma HeldIsRead(memory: Memory, at: int, v: Int32)
    ensures Holds32(memory, at, v) <==> ReadInt32(memory, at) == v
  {
    var word := memory(at) + 0x100 * memory(at + 1) as int + 0x1_0000 * memory(at + 2) as int + 0x100_0000 * memory(at + 3) as int;
    WrapMeans(word, v);
  }

  lemma {:induction false} RecordsReachEnd(memory: Memory, at: int, end: int, records: seq<Record>)
    requires HoldsRecords(memory, at, end, records)
    ensures at <= end && (records == [] <==> at == end)
    decreases |records|
  {
    if records == [] {
    } else {
      RecordsReachEnd(memory, at + records[0].size, end, records[1..]);
    }
  }

  /** Records that lie in memory are read back, all of them and in order. */
  lemma {:induction false} RecordsAreRead(memory: Memory, at: int, end: int, records: seq<Record>)
    requires HoldsRecords(memory, at, end, records)
    ensures Entries(memory, at, end) == Some(seq(|records|, i requires 0 <= i < |records| => EntryOf(records[i])))
    decreases |records|
  {
    hide Holds32, ReadInt32;
    RecordsReachEnd(memory, at, end, records);
    if records == [] {
    } else {
      var first, rest := records[0], records[1..];
      RecordsReachEnd(memory, at + first.size, end, rest);
      RecordsAreRead(memory, at + first.size, end, rest);
      HeldIsRead(memory, at, first.size);
      HeldIsRead(memory, at + 4, first.kind);
      HeldIsRead(memory, at + 4, 0);
      assert ReadEntry(memory, at) == EntryOf(first);
      assert [EntryOf(first)] + seq(|rest|, i requires 0 <= i < |rest| => EntryOf(rest[i])) ==
             seq(|records|, i requires 0 <= i < |records| => EntryOf(records[i]));
    }
  }

  /** A record that is shorter than twenty bytes or reaches past the end spoils them all. */
  lemma {:induction false} BadRecordIsNone(memory: Memory, at: int, middle: int, end: int, records: seq<Record>, size: Int32)
    requires HoldsRecords(memory, at, middle, records) && middle < end
    requires Holds32(memory, middle, size) && (size < 20 || middle + size > end)
    ensures Entries(memory, at, end) == None
    decreases |records|
  {
    hide Holds32, ReadInt32, ReadEntry;
    RecordsReachEnd(memory, at, middle, records);
    if records == [] {
      HeldIsRead(memory, at, size);
    } else {
      var first := records[0];
      HeldIsRead(memory, at, first.size);
      RecordsReachEnd(memory, at + first.size, middle, records[1..]);
      BadRecordIsNone(memory, at + first.size, middle, end, records[1..], size);
    }
  }

  /** Eligible is a CPU set of group 0 whose processor is one of the 64 digits of the mask, and that digit is one. */
  lemma EligibleMeans(e: Entry, allowedMask: Word64)
    ensures Eligible(e, allowedMask) <==>
              e.isCpuSet && e.group == 0 && e.processor < 64 && allowedMask / Pow2(e.processor) % 2 == 1
  {
    BitIsDigit(allowedMask, e.processor);
  }

  /** A record that names a processor of group 0 that the process may use. */
  predicate Eligible(e: Entry, allowedMask: Word64) {
    e.isCpuSet && e.group == 0 && e.processor < 64 && Bit(allowedMask, e.processor)
  }

  /** `best` is the greatest class among the eligible records, and there is one exactly when some record is eligible. */
  ghost predicate IsBestClass(best: Option<Byte>, entries: seq<Entry>, allowedMask: Word64) {
    && (best.None? <==> forall e :: e in entries ==> !Eligible(e, allowedMask))
    && (best.Some? ==> exists e :: e in entries && Eligible(e, allowedMask) && e.efficiency == best.value)
    && (best.Some? ==> forall e :: e in entries && Eligible(e, allowedMask) ==> e.efficiency <= best.value)
  }

  /** The selection after some records: the best class so far, and its processors. */
  ghost predicate Selects(mask: Word64, best: Option<Byte>, entries: seq<Entry>, allowedMask: Word64) {
    && IsBestClass(best, entries, allowedMask)
    && (forall p: nat :: Bit(mask, p) <==>
          exists e :: e in entries && Eligible(e, allowedMask) && e.processor == p && best == Some(e.efficiency))
  }

  /** One step of the selection. */
  function Consider(mask: Word64, best: Option<Byte>, e: Entry, allowedMask: Word64): (Word64, Option<Byte>) {
    if Eligible(e, allowedMask) && (best.None? || e.efficiency >= best.value) then
      var kept := if best.Some? && e.efficiency > best.value then 0 else mask;
      (AddProcessor(kept, e.processor), Some(e.efficiency))
    else (mask, best)
  }

  function AddProcessor(mask: Word64, p: nat): Word64
    requires p < 64
  {
    Pow2Words();
    SetBitBelow(mask, 64, p);
    SetBit(mask, p)
  }

  lemma ConsiderExtends(mask: Word64, best: Option<Byte>, entries: seq<Entry>, e: Entry, allowedMask: Word64)
    requires Selects(mask, best, entries, allowedMask)
    ensures var (m, b) := Consider(mask, best, e, allowedMask); Selects(m, b, entries + [e], allowedMask)
  {
    hide Bit, SetBit, Eligible;
    var (m, b) := Consider(mask, best, e, allowedMask);
    var longer := entries + [e];
    assert e in longer && forall x :: x in longer <==> x in entries || x == e;
    BestClassExtends(best, b, entries, e, allowedMask);
    forall p: nat
      ensures Bit(m, p) <==>
        exists x :: x in longer && Eligible(x, allowedMask) && x.processor == p && b == Some(x.efficiency)
    {
      BitOfSetBit(mask, e.processor, p);
      BitOfSetBit(0, e.processor, p);
      NoBitsAbove(0, 0, p);
    }
  }

  lemma BestClassExtends(best: Option<Byte>, b: Option<Byte>, entries: seq<Entry>, e: Entry, allowedMask: Word64)
    requires IsBestClass(best, entries, allowedMask)
    requires b == if Eligible(e, allowedMask) && (best.None? || e.efficiency >= best.value) then Some(e.efficiency) else best
    ensures IsBestClass(b, entries + [e], allowedMask)
  {
    hide Eligible;
    var longer := entries + [e];
    assert e in longer && forall x :: x in longer <==> x in entries || x == e;
    if best.Some? {
      var x :| x in entries && Eligible(x, allowedMask) && x.efficiency == best.value;
      assert x in longer;
    }
  }

  method ReadHighestEfficiencyProcessorMask(memory: Memory, returnedLength: nat, allowedMask: Word64)
    returns (mask: Word64, best: Option<Byte>)
    ensures Entries(memory, 0, returnedLength).None? ==> mask == 0 && best == None
    ensures Entries(memory, 0, returnedLength).Some? ==>
              Selects(mask, best, Entries(memory, 0, returnedLength).value, allowedMask)
  {
    hide Bit, SetBit, Selects, Consider, ReadInt32, ReadEntry;
    mask, best := 0, None;
    var offset := 0;
    ghost var seen: seq<Entry> := [];
    NothingSelected(allowedMask);
    StartOfEntries(Entries(memory, 0, returnedLength));
    while offset < returnedLength
      invariant 0 <= offset
      invariant Selects(mask, best, seen, allowedMask)
      invariant var all, rest := Entries(memory, 0, returnedLength), Entries(memory, offset, returnedLength);
                if rest.None? then all.None? else all == Some(seen + rest.value)
      decreases returnedLength - offset
    {
      var entrySize := ReadInt32(memory, offset);
      if entrySize < MINIMUM_ENTRY_SIZE || entrySize > returnedLength - offset {
        return 0, None;
      }
      var entry := ReadEntry(memory, offset);
      ConsiderExtends(mask, best, seen, entry, allowedMask);
      var selection := Consider(mask, best, entry, allowedMask);
      mask, best := selection.0, selection.1;
      ghost var rest := Entries(memory, offset + entrySize, returnedLength);
      assert rest.Some? ==> seen + ([entry] + rest.value) == seen + [entry] + rest.value;
      seen := seen + [entry];
      offset := offset + entrySize;
    }
    assert seen + [] == seen;
  }

  lemma StartOfEntries(entries: Option<seq<Entry>>)
    ensures entries.Some? ==> entries == Some([] + entries.value)
  {
    if entries.Some? {
      assert [] + entries.value == entries.value;
    }
  }

  lemma NothingSelected(allowedMask: Word64)
    ensures Selects(0, None, [], allowedMask)
  {
    forall p: nat ensures !Bit(0, p) {
      NoBitsAbove(0, 0, p);
    }
  }

  /** Every selected processor is allowed. */
  lemma SelectionIsAllowed(mask: Word64, best: Option<Byte>, entries: seq<Entry>, allowedMask: Word64, p: nat)
    requires Selects(mask, best, entries, allowedMask) && Bit(mask, p)
    ensures p < 64 && Bit(allowedMask, p)
  {
  }

  /** The selection is not empty exactly when some record is eligible. */
  lemma SelectionExistsIff(mask: Word64, best: Option<Byte>, entries: seq<Entry>, allowedMask: Word64)
    requires Selects(mask, best, entries, allowedMask)
    ensures mask != 0 <==> exists e :: e in entries && Eligible(e, allowedMask)
  {
    hide Bit, LowestBit, Eligible;
    if mask != 0 {
      var p := LowestBit(mask);
      assert Bit(mask, p);
    }
    if best.Some? {
      var e :| e in entries && Eligible(e, allowedMask) && e.efficiency == best.value;
      EligibleFits(e, allowedMask);
      assert Bit(mask, e.processor);
      NoBitsAbove(0, 0, e.processor);
    }
  }

  /** The records leave no choice: they determine the class and the mask. */
  lemma SelectionIsUnique(mask: Word64, best: Option<Byte>, other: Word64, otherBest: Option<Byte>, entries: seq<Entry>, allowedMask: Word64)
    requires Selects(mask, best, entries, allowedMask) && Selects(other, otherBest, entries, allowedMask)
    ensures mask == other && best == otherBest
  {
    hide Bit, Eligible;
    if best.Some? && otherBest.Some? {
      var e :| e in entries && Eligible(e, allowedMask) && e.efficiency == best.value;
      var f :| f in entries && Eligible(f, allowedMask) && f.efficiency == otherBest.value;
    }
    forall p: nat ensures Bit(mask, p) == Bit(other, p) {
    }
    SameBitsSameMask(mask, other);
  }

  lemma EligibleFits(e: Entry, allowedMask: Word64)
    requires Eligible(e, allowedMask)
    ensures e.processor < 64
  {
  }

  /** What stands past the returned length never influences the selection. */
  lemma {:induction false} OnlyReturnedBytesMatter(a: Memory, b: Memory, offset: int, end: int)
    requires 0 <= offset && forall i :: 0 <= i < end ==> a(i) == b(i)
    ensures Entries(a, offset, end) == Entries(b, offset, end)
    decreases end - offset
  {
    hide ReadEntry, ReadInt32;
    if offset >= end {
    } else {
      SizesAgree(a, b, offset, end);
      var size := ReadInt32(a, offset);
      if MINIMUM_ENTRY_SIZE <= size <= end - offset {
        OnlyReturnedBytesMatter(a, b, offset + size, end);
      }
    }
  }

  lemma SizesAgree(a: Memory, b: Memory, offset: int, end: int)
    requires 0 <= offset && forall i :: 0 <= i < end ==> a(i) == b(i)
    ensures MINIMUM_ENTRY_SIZE <= end - offset ==>
              ReadInt32(a, offset) == ReadInt32(b, offset) && ReadEntry(a, offset) == ReadEntry(b, offset)
  {
  }

  // ---------- the least contended candidate ----------

  const PROBE_SAMPLES := 3
  const MAX_TICKS := 0x7FFF_FFFF_FFFF_FFFF

  /** Elapsed ticks of the given sample on the given processor. */
  type Probe = (nat, nat) -> int

  function MiddleOf(a: int, b: int, c: int): int {
    var low, high := (if a < b then a else b), (if a < b then b else a);
    if c <= low then low else if c >= high then high else c
  }

  function MedianTicks(probe: Probe, p: nat): int {
    MiddleOf(probe(p, 0), probe(p, 1), probe(p, 2))
  }

  /** Span.Sort over the three samples, in place. */
  method SortThree(a: array<int>)
    requires a.Length == PROBE_SAMPLES
    modifies a
    ensures a[0] <= a[1] <= a[2]
    ensures a[1] == MiddleOf(old(a[0]), old(a[1]), old(a[2]))
    ensures multiset{a[0], a[1], a[2]} == multiset{old(a[0]), old(a[1]), old(a[2])}
  {
    var x, y, z := a[0], a[1], a[2];
    if y < x {
      x, y := y, x;
    }
    if z < y {
      y, z := z, y;
    }
    if y < x {
      x, y := y, x;
    }
    a[0], a[1], a[2] := x, y, z;
  }

  /** The lowest set bit: TrailingZeroCount of a mask that is not zero. */
  function LowestBit(mask: nat): (p: nat)
    requires mask != 0
    ensures Bit(mask, p) && forall q: nat :: q < p ==> !Bit(mask, q)
  {
    if mask % 2 == 1 then 0 else 1 + LowestBit(mask / 2)
  }

  /** Ticks are 64-bit signed numbers. */
  ghost predicate TicksFit(probe: Probe) {
    forall p: nat, k: nat :: probe(p, k) <= MAX_TICKS
  }

  /** `p` is the first candidate in `visited` with the least median, if that is below the limit. */
  ghost predicate IsWinner(p: nat, visited: seq<nat>, probe: Probe) {
    && p in visited && MedianTicks(probe, p) < MAX_TICKS
    && forall q :: q in visited ==>
         MedianTicks(probe, p) < MedianTicks(probe, q) || (MedianTicks(probe, p) == MedianTicks(probe, q) && p <= q)
  }

  ghost predicate VisitsBitsInOrder(visited: seq<nat>, candidateMask: Word64, remaining: nat) {
    && (forall i, j :: 0 <= i < j < |visited| ==> visited[i] < visited[j])
    && (forall p: nat :: Bit(candidateMask, p) <==> p in visited || Bit(remaining, p))
    && (forall i, q: nat :: 0 <= i < |visited| && Bit(remaining, q) ==> visited[i] < q)
  }

  method SelectLeastContendedProcessorMask(candidateMask: Word64, probe: Probe)
    returns (bestMask: Word64, visited: seq<nat>)
    requires TicksFit(probe)
    // every candidate is probed exactly once, lowest first
    ensures forall i, j :: 0 <= i < j < |visited| ==> visited[i] < visited[j]
    ensures forall p: nat :: p in visited <==> Bit(candidateMask, p)
    // the result is one candidate's bit, of least median ticks, or nothing if no probe is below the limit
    ensures bestMask == 0 ==> forall p :: p in visited ==> MedianTicks(probe, p) == MAX_TICKS
    ensures bestMask != 0 ==> exists p: nat :: IsWinner(p, visited, probe) && bestMask == Pow2(p)
  {
    hide Bit, ClearBit, Pow2, MiddleOf;
    bestMask := 0;
    visited := [];
    var bestMedianTicks := MAX_TICKS;
    ghost var winner: nat := 0;
    var remaining: nat := candidateMask;
    var elapsedTicks := new int[PROBE_SAMPLES];
    while remaining != 0
      invariant VisitsBitsInOrder(visited, candidateMask, remaining)
      invariant bestMedianTicks <= MAX_TICKS
      invariant bestMask == 0 ==> bestMedianTicks == MAX_TICKS && forall p :: p in visited ==> MedianTicks(probe, p) >= MAX_TICKS
      invariant bestMask != 0 ==>
                  IsWinner(winner, visited, probe) && bestMask == Pow2(winner) && bestMedianTicks == MedianTicks(probe, winner)
      decreases remaining
    {
      var processor := LowestBit(remaining);
      VisitNext(visited, candidateMask, remaining, processor);
      ProcessorBitFits(candidateMask, processor);
      remaining := ClearBit(remaining, processor);
      for sample := 0 to PROBE_SAMPLES
        invariant forall k :: 0 <= k < sample ==> elapsedTicks[k] == probe(processor, k)
      {
        elapsedTicks[sample] := probe(processor, sample);
      }
      SortThree(elapsedTicks);
      WinnerNext(winner, visited, processor, probe);
      visited := visited + [processor];
      if elapsedTicks[PROBE_SAMPLES / 2] < bestMedianTicks {
        bestMedianTicks := elapsedTicks[PROBE_SAMPLES / 2];
        bestMask := Pow2(processor);
        winner := processor;
      }
    }
    AllVisited(visited, candidateMask);
    MediansFit(probe);
  }

  lemma MediansFit(probe: Probe)
    requires TicksFit(probe)
    ensures forall p: nat :: MedianTicks(probe, p) <= MAX_TICKS
  {
  }

  lemma AllVisited(visited: seq<nat>, candidateMask: Word64)
    requires VisitsBitsInOrder(visited, candidateMask, 0)
    ensures forall p: nat :: p in visited <==> Bit(candidateMask, p)
  {
    forall p: nat ensures !Bit(0, p) {
      NoBitsAbove(0, 0, p);
    }
  }

  lemma ProcessorBitFits(candidateMask: Word64, p: nat)
    requires Bit(candidateMask, p)
    ensures 0 < Pow2(p) < TWO_TO_THE_64
  {
    Pow2Words();
    if p >= 64 {
      NoBitsAbove(candidateMask, 64, p);
    } else {
      Pow2Monotone(p, 63);
      assert Pow2(64) == 2 * Pow2(63);
    }
  }

  lemma VisitNext(visited: seq<nat>, candidateMask: Word64, remaining: nat, p: nat)
    requires VisitsBitsInOrder(visited, candidateMask, remaining)
    requires Bit(remaining, p) && forall q: nat :: q < p ==> !Bit(remaining, q)
    ensures VisitsBitsInOrder(visited + [p], candidateMask, ClearBit(remaining, p))
    ensures ClearBit(remaining, p) < remaining && Bit(candidateMask, p)
    ensures forall q :: q in visited ==> q < p
  {
    hide Bit, ClearBit;
    forall q: nat ensures Bit(ClearBit(remaining, p), q) <==> q != p && Bit(remaining, q) {
      BitOfClearBit(remaining, p, q);
    }
    ClearBitShrinks(remaining, p);
    assert forall q :: q in visited + [p] <==> q in visited || q == p;
  }

  lemma WinnerNext(winner: nat, visited: seq<nat>, p: nat, probe: Probe)
    requires forall q :: q in visited ==> q < p
    ensures (forall q :: q in visited ==> MedianTicks(probe, q) >= MAX_TICKS) && MedianTicks(probe, p) < MAX_TICKS ==>
              IsWinner(p, visited + [p], probe)
    ensures IsWinner(winner, visited, probe) && MedianTicks(probe, p) < MedianTicks(probe, winner) ==>
              IsWinner(p, visited + [p], probe)
    ensures IsWinner(winner, visited, probe) && MedianTicks(probe, p) >= MedianTicks(probe, winner) ==>
              IsWinner(winner, visited + [p], probe)
  {
    hide MedianTicks;
    assert forall q :: q in visited + [p] <==> q in visited || q == p;
  }

  /** A power of two has exactly one bit. */
  lemma {:induction false} SingleBit(p: nat, q: nat)
    ensures Bit(Pow2(p), q) <==> p == q
  {
    if p == 0 && q > 0 {
      NoBitsAbove(0, 0, q - 1);
    } else if p > 0 && q > 0 {
      SingleBit(p - 1, q - 1);
    }
  }
}
