/** The physical page manager: a bit-packed bitmap filled from the Multiboot memory map in two
    passes, saturating KiB counters, and a circular next-fit page search. */
module PhysicalMemory {
  import opened Word

  const MAX_TRACKED: int := 0x4000_0000
  const MAX_PAGES: int := 262144
  const BITMAP_BYTES: int := 32768
  const LOW_LIMIT: int := 0x0010_0000
  const KERNEL_START: int := 0x0010_0000

  // One entry of the memory map (Multiboot Specification 0.6.96, section 3.3).
  datatype MapEntry = MapEntry(
    size: u32, baseLow: u32, baseHigh: u32, lengthLow: u32, lengthHigh: u32, kind: u32)

  // The boot information record. `entryAt` is the memory the map is read from: entries lie wherever
  // the `size` fields lead, so they may even overlap.
  datatype BootInfo = BootInfo(
    flags: u32, memLower: u32, memUpper: u32, mapLength: u32, mapAddress: u32, entryAt: u32 -> MapEntry)
  {
    predicate HasBasicMemory() { flags % 2 == 1 }

    predicate HasMap() { (flags / 64) % 2 == 1 && mapAddress != 0 && mapLength != 0 }

    function Entry(offset: u32): MapEntry { entryAt(Wrap(mapAddress + offset)) }

    // Walking the map from `offset` never wraps the offset; a map that wraps it makes the source loop.
    ghost predicate Walks(offset: nat)
      decreases mapLength - offset
    {
      offset >= mapLength ||
      (offset + Entry(offset).size + 4 < 0x1_0000_0000 && Walks(offset + Entry(offset).size + 4))
    }

    ghost function Entries(offset: nat): seq<MapEntry>
      requires Walks(offset)
      decreases mapLength - offset
    {
      if offset >= mapLength then []
      else [Entry(offset)] + Entries(offset + Entry(offset).size + 4)
    }
  }

  // The memory sizes and region counts the manager reports.
  datatype Tally = Tally(
    totalKib: u32, usableKib: u32, reservedKib: u32, regions: u32, usableRegions: u32, reservedRegions: u32)

  const NO_TALLY := Tally(0, 0, 0, 0, 0, 0)

  // ---------------------------------------------------------------- addresses and pages

  // Page-aligned addresses are written as page numbers: rounding up adds 4095 with wrap-around first.
  function PageUp(value: u32): u32 {
    Wrap(value + 4095) / 4096
  }

  function PageDown(value: u32): u32 {
    value / 4096
  }

  // The page a marking loop stops before: tracking ends at 1 GiB, and so does a range that wraps.
  function FreeEnd(base: u32, length: u32): u32 {
    Min(if Wrap(base + length) < base then MAX_PAGES else PageDown(Wrap(base + length)), MAX_PAGES)
  }

  function UsedEnd(base: u32, length: u32): u32 {
    Min(if Wrap(base + length) < base then MAX_PAGES else PageUp(Wrap(base + length)), MAX_PAGES)
  }

  // The pages the two marking loops visit.
  predicate Frees(base: u32, length: u32, page: int) {
    length >= 4096 && PageUp(base) <= page < FreeEnd(base, length)
  }

  predicate Reserves(base: u32, length: u32, page: int) {
    length != 0 && PageDown(base) <= page < UsedEnd(base, length)
  }

  // What marking is for, on unbounded addresses: a range wholly contains a page, or meets it.
  predicate Contains(base: int, length: int, page: int) {
    base <= page * 4096 && (page + 1) * 4096 <= base + length
  }

  predicate Meets(base: int, length: int, page: int) {
    length > 0 && page * 4096 < base + length && base < (page + 1) * 4096
  }

  predicate Tracked(page: int) {
    0 <= page < MAX_PAGES
  }

  // A range's base wraps when rounded up to a page, and the range is long enough to be marked.
  predicate BaseWraps(base: u32, length: u32) {
    base > 0xFFFF_F000 && length >= 4096
  }

  lemma FreesContained(base: u32, length: u32, page: int)
    requires !BaseWraps(base, length) && Tracked(page)
    ensures Frees(base, length, page) <==> Contains(base, length, page)
  {
  }

  /** Freeing a range frees exactly the tracked pages it wholly contains, for exactly the ranges whose
      base does not wrap when it is rounded up. */
  lemma FreesExactlyContained(base: u32, length: u32)
    ensures (forall page :: Tracked(page) ==> (Frees(base, length, page) <==> Contains(base, length, page)))
            <==> !BaseWraps(base, length)
  {
    if BaseWraps(base, length) {
      assert Tracked(0) && Frees(base, length, 0) && !Contains(base, length, 0);
    } else {
      forall page | Tracked(page)
        ensures Frees(base, length, page) <==> Contains(base, length, page)
      {
        FreesContained(base, length, page);
      }
    }
  }

  // A range's end wraps when rounded up to a page, and the range starts among the tracked pages.
  predicate EndWraps(base: u32, length: u32) {
    base < MAX_TRACKED && 0xFFFF_F000 < base + length < 0x1_0000_0000
  }

  lemma ReservesMet(base: u32, length: u32, page: int)
    requires !EndWraps(base, length) && Tracked(page)
    ensures Reserves(base, length, page) <==> Meets(base, length, page)
  {
  }

  /** Reserving a range reserves exactly the tracked pages it meets, for exactly the ranges whose end does
      not wrap when it is rounded up. */
  lemma ReservesExactlyMet(base: u32, length: u32)
    ensures (forall page :: Tracked(page) ==> (Reserves(base, length, page) <==> Meets(base, length, page)))
            <==> !EndWraps(base, length)
  {
    if EndWraps(base, length) {
      var page := base / 4096;
      assert Tracked(page) && Meets(base, length, page) && !Reserves(base, length, page);
    } else {
      forall page | Tracked(page)
        ensures Reserves(base, length, page) <==> Meets(base, length, page)
      {
        ReservesMet(base, length, page);
      }
    }
  }

  // ---------------------------------------------------------------- the two passes over the map

  predicate Available(e: MapEntry) {
    e.kind == 1
  }

  function EntryEnd(e: MapEntry): u32 {
    if e.baseHigh == 0 && e.lengthHigh == 0 && e.baseLow + e.lengthLow < 0x1_0000_0000
    then e.baseLow + e.lengthLow
    else MAX_TRACKED
  }

  function HighestFrom(highest: u32, es: seq<MapEntry>): u32
    decreases |es|
  {
    if es == [] then highest else HighestFrom(Max(EntryEnd(es[0]), highest), es[1..])
  }

  function PagesFor(highest: u32): u32 {
    Min(PageUp(Min(highest, MAX_TRACKED)), MAX_PAGES)
  }

  predicate EntryFrees(e: MapEntry, page: int) {
    Available(e) && e.baseHigh == 0 && Frees(e.baseLow, e.lengthLow, page)
  }

  predicate MapFrees(es: seq<MapEntry>, page: int) {
    exists i :: 0 <= i < |es| && EntryFrees(es[i], page)
  }

  lemma {:induction false} HighestBounds(highest: u32, es: seq<MapEntry>)
    ensures HighestFrom(highest, es) >= highest
    ensures forall i :: 0 <= i < |es| ==> HighestFrom(highest, es) >= EntryEnd(es[i])
    decreases |es|
  {
    if es != [] {
      HighestBounds(Max(EntryEnd(es[0]), highest), es[1..]);
      forall i | 0 <= i < |es| ensures HighestFrom(highest, es) >= EntryEnd(es[i]) {
        if i > 0 { assert es[i] == es[1..][i - 1]; }
      }
    }
  }

  // The 64-bit end of the highest entry, at least the low limit.
  function HighestEnd(es: seq<MapEntry>): nat {
    if es == [] then LOW_LIMIT else Max(Base(es[|es| - 1]) + Bytes(es[|es| - 1]), HighestEnd(es[..|es| - 1]))
  }

  lemma EntryEndCapped(e: MapEntry)
    ensures Min(EntryEnd(e), MAX_TRACKED) == Min(Base(e) + Bytes(e), MAX_TRACKED)
  {
  }

  lemma {:induction false} HighestFromLast(highest: u32, es: seq<MapEntry>)
    requires es != []
    ensures HighestFrom(highest, es) == Max(EntryEnd(es[|es| - 1]), HighestFrom(highest, es[..|es| - 1]))
    decreases |es|
  {
    hide EntryEnd;
    if |es| > 1 {
      assert es[1..][..|es| - 2] == es[..|es| - 1][1..];
      HighestFromLast(Max(EntryEnd(es[0]), highest), es[1..]);
    } else {
      assert es[..0] == [] && es[1..] == [];
    }
  }

  lemma {:induction false} HighestCapped(es: seq<MapEntry>)
    ensures Min(HighestFrom(LOW_LIMIT, es), MAX_TRACKED) == Min(HighestEnd(es), MAX_TRACKED)
  {
    if es != [] {
      HighestCapped(es[..|es| - 1]);
      HighestFromLast(LOW_LIMIT, es);
      EntryEndCapped(es[|es| - 1]);
      hide HighestFrom, EntryEnd, Base, Bytes;
    }
  }

  /** The page count is exactly that of the highest 64-bit end of any entry, of at least 1 MiB, cut at 1 GiB. */
  lemma PagesCoverHighest(es: seq<MapEntry>)
    ensures var end, pages := Min(HighestEnd(es), MAX_TRACKED), PagesFor(HighestFrom(LOW_LIMIT, es));
            (pages - 1) * 4096 < end <= pages * 4096
  {
    HighestCapped(es);
    hide HighestFrom, HighestEnd;
  }

  lemma FreedBelowEnd(e: MapEntry, page: int)
    requires EntryFrees(e, page)
    ensures 0 <= page && (page + 1) * 4096 <= Min(EntryEnd(e), MAX_TRACKED)
  {
  }

  lemma PagesForCovers(highest: u32, page: nat)
    requires (page + 1) * 4096 <= Min(highest, MAX_TRACKED)
    ensures page < PagesFor(highest)
  {
  }

  /** The sizing pass covers the marking pass: no page the second pass frees is at or above the page
      count the first pass settled on, so the bound check in marking never drops one. */
  lemma SizingCoversMarking(es: seq<MapEntry>, page: int)
    requires MapFrees(es, page)
    ensures 0 <= page < PagesFor(HighestFrom(LOW_LIMIT, es))
  {
    var i :| 0 <= i < |es| && EntryFrees(es[i], page);
    HighestBounds(LOW_LIMIT, es);
    FreedBelowEnd(es[i], page);
    PagesForCovers(HighestFrom(LOW_LIMIT, es), page);
  }

  function EntryKib(e: MapEntry): u32 {
    if e.lengthHigh != 0 then U32_MAX else e.lengthLow / 1024
  }

  // Unbounded KiB and entry counts of the entries of type 1, the available ones, or of all others.
  function SumKib(es: seq<MapEntry>, usable: bool): nat {
    if es == [] then 0
    else (if (es[0].kind == 1) == usable then EntryKib(es[0]) else 0) + SumKib(es[1..], usable)
  }

  function CountKind(es: seq<MapEntry>, usable: bool): nat {
    if es == [] then 0
    else (if (es[0].kind == 1) == usable then 1 else 0) + CountKind(es[1..], usable)
  }

  // An entry's 64-bit base and length, and the length in whole KiB.
  function Base(e: MapEntry): nat {
    e.baseHigh * 0x1_0000_0000 + e.baseLow
  }

  function Bytes(e: MapEntry): nat {
    e.lengthHigh * 0x1_0000_0000 + e.lengthLow
  }

  /** A recorded length is the 64-bit length in KiB, capped at 2^32 - 1, exactly for the entries below 4 GiB and
      those that reach the cap; any entry of 4 GiB or more counts as the cap. */
  lemma EntryKibExactly(e: MapEntry)
    ensures EntryKib(e) == Min(Bytes(e) / 1024, U32_MAX) <==> Bytes(e) < 0x1_0000_0000 || Bytes(e) / 1024 >= U32_MAX
    ensures Bytes(e) >= 0x1_0000_0000 ==> EntryKib(e) == U32_MAX
  {
  }

  function SumBytesKib(es: seq<MapEntry>, usable: bool): nat {
    if es == [] then 0
    else (if (es[0].kind == 1) == usable then Bytes(es[0]) / 1024 else 0) + SumBytesKib(es[1..], usable)
  }

  /** On a map of entries recorded exactly, the capped sums are those of the 64-bit lengths. */
  lemma {:induction false} SumKibExactly(es: seq<MapEntry>, usable: bool)
    requires forall i :: 0 <= i < |es| ==> Bytes(es[i]) < 0x1_0000_0000 || Bytes(es[i]) / 1024 >= U32_MAX
    ensures Saturate(SumKib(es, usable)) == Saturate(SumBytesKib(es, usable))
  {
    if es != [] {
      EntryKibExactly(es[0]);
      hide EntryKib, Bytes;
      SumKibExactly(es[1..], usable) by {
        forall i | 0 <= i < |es[1..]|
          ensures Bytes(es[1..][i]) < 0x1_0000_0000 || Bytes(es[1..][i]) / 1024 >= U32_MAX
        {
          assert es[1..][i] == es[i + 1];
        }
      }
    }
  }

  function Saturate(kib: nat): u32 {
    Min(kib, U32_MAX)
  }

  function AddKib(target: u32, amount: u32): (sum: u32)
    ensures sum == Saturate(target + amount)
  {
    if U32_MAX - target < amount then U32_MAX else target + amount
  }

  // What the marking pass records about one entry, and about the rest of the map.
  function Record(t: Tally, e: MapEntry): Tally {
    var t := t.(regions := Wrap(t.regions + 1), totalKib := AddKib(t.totalKib, EntryKib(e)));
    if Available(e)
    then t.(usableRegions := Wrap(t.usableRegions + 1), usableKib := AddKib(t.usableKib, EntryKib(e)))
    else t.(reservedRegions := Wrap(t.reservedRegions + 1), reservedKib := AddKib(t.reservedKib, EntryKib(e)))
  }

  ghost function RecordAll(t: Tally, es: seq<MapEntry>): Tally
    decreases |es|
  {
    if es == [] then t else RecordAll(Record(t, es[0]), es[1..])
  }

  lemma RecordStep(t: Tally, es: seq<MapEntry>)
    requires es != []
    ensures RecordAll(t, es) == RecordAll(Record(t, es[0]), es[1..])
  {
  }

  lemma RecordNothing(t: Tally)
    ensures RecordAll(t, []) == t
  {
  }

  // The tally of a map whose available and other entries have these unbounded sizes and counts.
  ghost predicate Tallies(t: Tally, usable: nat, reserved: nat, usableCount: nat, reservedCount: nat) {
    && t.usableKib == Saturate(usable)
    && t.reservedKib == Saturate(reserved)
    && t.totalKib == Saturate(usable + reserved)
    && t.usableRegions == Wrap(usableCount)
    && t.reservedRegions == Wrap(reservedCount)
    && t.regions == Wrap(usableCount + reservedCount)
  }

  lemma RecordTallies(t: Tally, e: MapEntry, usable: nat, reserved: nat, usableCount: nat, reservedCount: nat)
    requires Tallies(t, usable, reserved, usableCount, reservedCount)
    ensures if Available(e) then Tallies(Record(t, e), usable + EntryKib(e), reserved, usableCount + 1, reservedCount)
            else Tallies(Record(t, e), usable, reserved + EntryKib(e), usableCount, reservedCount + 1)
  {
    hide EntryKib, Wrap;
    WrapAdd(usableCount, 1);
    WrapAdd(reservedCount, 1);
    WrapAdd(usableCount + reservedCount, 1);
  }

  /** The recorded sizes and counts are the capped sums over the map. */
  lemma {:induction false} RecordAllTallies(t: Tally, es: seq<MapEntry>,
                                            usable: nat, reserved: nat, usableCount: nat, reservedCount: nat)
    requires Tallies(t, usable, reserved, usableCount, reservedCount)
    ensures Tallies(RecordAll(t, es), usable + SumKib(es, true), reserved + SumKib(es, false),
                    usableCount + CountKind(es, true), reservedCount + CountKind(es, false))
    decreases |es|
  {
    hide Tallies, Record, EntryKib;
    if es != [] {
      RecordTallies(t, es[0], usable, reserved, usableCount, reservedCount);
      if Available(es[0]) {
        RecordAllTallies(Record(t, es[0]), es[1..],
                         usable + EntryKib(es[0]), reserved, usableCount + 1, reservedCount);
      } else {
        RecordAllTallies(Record(t, es[0]), es[1..],
                         usable, reserved + EntryKib(es[0]), usableCount, reservedCount + 1);
      }
    }
  }

  /** On the map path the total is the sum of the usable and the reserved size, capped at 2^32 - 1. */
  lemma MapTotalIsSum(es: seq<MapEntry>)
    ensures var t := RecordAll(NO_TALLY, es);
            && t.totalKib == Saturate(t.usableKib + t.reservedKib)
            && t.usableKib == Saturate(SumKib(es, true)) && t.reservedKib == Saturate(SumKib(es, false))
            && t.regions == Wrap(t.usableRegions + t.reservedRegions)
  {
    hide Wrap, RecordAll;
    WrapSmall(0);
    RecordAllTallies(NO_TALLY, es, 0, 0, 0, 0);
    var usable, reserved := CountKind(es, true), CountKind(es, false);
    WrapAdd(usable, Wrap(reserved));
    WrapAdd(reserved, usable);
  }

  // ---------------------------------------------------------------- bits

  function Mask(index: nat): bv8
    requires index < 8
  {
    match index
    case 0 => 1
    case 1 => 2
    case 2 => 4
    case 3 => 8
    case 4 => 16
    case 5 => 32
    case 6 => 64
    case _ => 128
  }

  predicate Bit(cell: bv8, index: nat)
    requires index < 8
  {
    cell & Mask(index) != 0
  }

  lemma SetBit(cell: bv8, index: nat, k: nat)
    requires index < 8 && k < 8
    ensures Bit(cell | Mask(index), k) <==> k == index || Bit(cell, k)
  {
  }

  lemma ClearBit(cell: bv8, index: nat, k: nat)
    requires index < 8 && k < 8
    ensures Bit(cell & !Mask(index), k) <==> k != index && Bit(cell, k)
  {
  }

  predicate PageBit(cells: seq<bv8>, page: nat)
    requires page / 8 < |cells|
  {
    Bit(cells[page / 8], page % 8)
  }

  lemma SetPage(cells: seq<bv8>, page: nat, q: nat)
    requires page / 8 < |cells| && q / 8 < |cells|
    ensures PageBit(cells[page / 8 := cells[page / 8] | Mask(page % 8)], q) <==> q == page || PageBit(cells, q)
  {
    SetBit(cells[page / 8], page % 8, q % 8);
  }

  lemma ClearPage(cells: seq<bv8>, page: nat, q: nat)
    requires page / 8 < |cells| && q / 8 < |cells|
    ensures PageBit(cells[page / 8 := cells[page / 8] & !Mask(page % 8)], q) <==> q != page && PageBit(cells, q)
  {
    ClearBit(cells[page / 8], page % 8, q % 8);
  }

  // The pages whose bit is clear.
  ghost function FreeIn(cells: seq<bv8>): set<nat> {
    set p: nat | p < 8 * |cells| && !PageBit(cells, p)
  }

  lemma SetRemoves(cells: seq<bv8>, page: nat)
    requires page / 8 < |cells|
    ensures FreeIn(cells[page / 8 := cells[page / 8] | Mask(page % 8)]) == FreeIn(cells) - {page}
  {
    forall q: nat | q < 8 * |cells| {
      SetPage(cells, page, q);
    }
  }

  lemma ClearAdds(cells: seq<bv8>, page: nat)
    requires page / 8 < |cells|
    ensures FreeIn(cells[page / 8 := cells[page / 8] & !Mask(page % 8)]) == FreeIn(cells) + {page}
  {
    forall q: nat | q < 8 * |cells| {
      ClearPage(cells, page, q);
    }
  }

  lemma AllSetIsFull(cells: seq<bv8>)
    requires forall i :: 0 <= i < |cells| ==> cells[i] == 0xFF
    ensures FreeIn(cells) == {}
  {
  }

  // ---------------------------------------------------------------- the next-fit search

  function Probe(total: nat, cursor: nat, k: nat): nat
    requires total > 0
  {
    (cursor + k) % total
  }

  // The page the search settles on, scanning from the cursor; 0 when the scan runs out.
  ghost function Scan(free: set<nat>, total: nat, cursor: nat, k: nat): nat
    decreases total - k
  {
    if k >= total then 0
    else if Probe(total, cursor, k) in free then Probe(total, cursor, k)
    else Scan(free, total, cursor, k + 1)
  }

  // `page` is the first free page met when scanning cyclically from the cursor.
  ghost predicate CyclicallyFirst(free: set<nat>, total: nat, cursor: nat, page: nat)
    requires total > 0
  {
    page in free &&
    exists k: nat :: k < total && page == Probe(total, cursor, k) &&
      forall j: nat :: j < k ==> Probe(total, cursor, j) !in free
  }

  lemma {:induction false} ScanFromPrefix(free: set<nat>, total: nat, cursor: nat, k: nat, target: nat)
    requires k <= target < total && Probe(total, cursor, target) in free
    requires forall j: nat :: j < k ==> Probe(total, cursor, j) !in free
    ensures CyclicallyFirst(free, total, cursor, Scan(free, total, cursor, k))
    decreases total - k
  {
    if Probe(total, cursor, k) !in free {
      ScanFromPrefix(free, total, cursor, k + 1, target);
    }
  }

  lemma ProbeReaches(total: nat, cursor: nat, page: nat)
    requires page < total && cursor <= total
    ensures Probe(total, cursor, if page >= cursor then page - cursor else page + total - cursor) == page
  {
    if page < cursor {
      assert (1 * total + page) % total == page;
    }
  }

  /** With any page free the search finds the cyclically first one. */
  lemma ScanIsNextFit(free: set<nat>, total: nat, cursor: nat)
    requires cursor <= total
    requires free != {} && forall p :: p in free ==> p < total
    ensures CyclicallyFirst(free, total, cursor, Scan(free, total, cursor, 0))
  {
    var p :| p in free;
    var k := if p >= cursor then p - cursor else p + total - cursor;
    ProbeReaches(total, cursor, p);
    hide Probe;
    ScanFromPrefix(free, total, cursor, 0, k);
  }

  lemma ScanInFree(free: set<nat>, total: nat, cursor: nat)
    requires cursor <= total
    requires free != {} && forall p :: p in free ==> p < total
    ensures Scan(free, total, cursor, 0) in free
  {
    ScanIsNextFit(free, total, cursor);
  }

  // ---------------------------------------------------------------- page sets

  predicate Between(first: int, p: int, last: int) {
    first <= p < last
  }

  ghost function PagesIn(first: int, last: int, total: nat): set<nat> {
    set p: nat | p < total && Between(first, p, last)
  }

  ghost function FreedBy(base: u32, length: u32, total: nat): set<nat> {
    set p: nat | p < total && Frees(base, length, p)
  }

  ghost function ReservedBy(base: u32, length: u32, total: nat): set<nat> {
    set p: nat | p < total && Reserves(base, length, p)
  }

  ghost function MapFreed(es: seq<MapEntry>, total: nat): set<nat> {
    set p: nat | p < total && MapFrees(es, p)
  }

  lemma PagesInEmpty(first: int, last: int, total: nat)
    requires last <= first
    ensures PagesIn(first, last, total) == {}
  {
  }

  lemma PagesInGrows(free: set<nat>, first: int, page: nat, total: nat)
    requires first <= page
    ensures var step := if page < total then {page} else {};
            && free + PagesIn(first, page + 1, total) == free + PagesIn(first, page, total) + step
            && free - PagesIn(first, page + 1, total) == free - PagesIn(first, page, total) - step
  {
    assert PagesIn(first, page + 1, total) ==
           PagesIn(first, page, total) + (if page < total then {page} else {});
    hide PagesIn;
  }

  lemma FreedBySpan(base: u32, length: u32, total: nat)
    requires length >= 4096
    ensures PagesIn(PageUp(base), FreeEnd(base, length), total) == FreedBy(base, length, total)
  {
  }

  lemma ReservedBySpan(base: u32, length: u32, total: nat)
    requires length != 0
    ensures PagesIn(PageDown(base), UsedEnd(base, length), total) == ReservedBy(base, length, total)
  {
  }

  lemma MapFreedNone(total: nat)
    ensures MapFreed([], total) == {}
  {
  }

  lemma MapFreedStep(es: seq<MapEntry>, total: nat)
    requires es != []
    ensures MapFreed(es, total) == MapFreed(es[1..], total) +
            (if Available(es[0]) && es[0].baseHigh == 0
             then FreedBy(es[0].baseLow, es[0].lengthLow, total) else {})
  {
    forall p: nat ensures MapFrees(es, p) <==> EntryFrees(es[0], p) || MapFrees(es[1..], p) {
      if i :| 0 <= i < |es| && EntryFrees(es[i], p) {
        assert i > 0 ==> es[1..][i - 1] == es[i];
      }
      if i :| 0 <= i < |es[1..]| && EntryFrees(es[1..][i], p) {
        assert es[i + 1] == es[1..][i];
      }
    }
  }

  // ---------------------------------------------------------------- what initialisation reserves

  // The pages taken back after the map is parsed: low memory, the kernel image and the boot record.
  predicate Withheld(kernelEnd: u32, infoAddress: u32, page: int) {
    || Reserves(0, LOW_LIMIT, page)
    || Reserves(KERNEL_START, Wrap(PageUp(kernelEnd) * 4096 - KERNEL_START), page)
    || (infoAddress != 0 && Reserves(infoAddress, 4096, page))
  }

  predicate OffLimits(kernelEnd: u32, infoAddress: u32, page: int) {
    || Meets(0, LOW_LIMIT, page)
    || Meets(KERNEL_START, kernelEnd - KERNEL_START, page)
    || (infoAddress != 0 && Meets(infoAddress, 4096, page))
  }

  lemma KernelWithheld(kernelEnd: u32, page: int)
    requires Tracked(page) && KERNEL_START <= kernelEnd <= 0xFFFF_F000
    ensures Reserves(KERNEL_START, Wrap(PageUp(kernelEnd) * 4096 - KERNEL_START), page)
            <==> Meets(KERNEL_START, kernelEnd - KERNEL_START, page)
  {
    var up := PageUp(kernelEnd);
    assert kernelEnd <= up * 4096 < kernelEnd + 4096;
    WrapSmall(up * 4096 - KERNEL_START);
    ReservesMet(KERNEL_START, PageUp(kernelEnd) * 4096 - KERNEL_START, page);
  }

  lemma WithheldIsOffLimits(kernelEnd: u32, infoAddress: u32, page: int)
    requires Tracked(page) && KERNEL_START <= kernelEnd <= 0xFFFF_F000
    ensures Withheld(kernelEnd, infoAddress, page) <==> OffLimits(kernelEnd, infoAddress, page)
  {
    hide Reserves, Meets;
    ReservesMet(0, LOW_LIMIT, page);
    KernelWithheld(kernelEnd, page);
    ReservesMet(infoAddress, 4096, page);
  }

  // The free set the map path ends with, and the meaning it has to have.
  ghost function MapFreeSet(es: seq<MapEntry>, kernelEnd: u32, infoAddress: u32): set<nat> {
    set page: nat | page < MAX_PAGES && MapFrees(es, page) && !Withheld(kernelEnd, infoAddress, page)
  }

  ghost function WithheldPages(kernelEnd: u32, infoAddress: u32, total: nat): set<nat> {
    set p: nat | p < total && Withheld(kernelEnd, infoAddress, p)
  }

  lemma PagesForBound(highest: u32)
    ensures PagesFor(highest) <= MAX_PAGES
  {
  }

  lemma LowPages()
    ensures PagesFor(LOW_LIMIT) == 256
  {
  }

  lemma WithheldPagesSplit(free: set<nat>, kernelEnd: u32, infoAddress: u32, total: nat)
    ensures free - WithheldPages(kernelEnd, infoAddress, total) ==
            free - ReservedBy(0, LOW_LIMIT, total)
            - ReservedBy(KERNEL_START, Wrap(PageUp(kernelEnd) * 4096 - KERNEL_START), total)
            - (if infoAddress != 0 then ReservedBy(infoAddress, 4096, total) else {})
    ensures total > 0 ==> 0 in WithheldPages(kernelEnd, infoAddress, total)
  {
    LowMemoryReserved();
    hide Wrap, PageUp, Reserves;
  }

  lemma LowMemoryReserved()
    ensures Reserves(0, LOW_LIMIT, 0)
  {
  }

  lemma MapFreeSetSplit(es: seq<MapEntry>, kernelEnd: u32, infoAddress: u32)
    ensures var total := PagesFor(HighestFrom(LOW_LIMIT, es));
            MapFreed(es, total) - WithheldPages(kernelEnd, infoAddress, total)
            == MapFreeSet(es, kernelEnd, infoAddress)
  {
    hide Withheld, MapFrees, HighestFrom;
    forall page: nat | page < MAX_PAGES && MapFrees(es, page)
      ensures page < PagesFor(HighestFrom(LOW_LIMIT, es))
    {
      SizingCoversMarking(es, page);
    }
  }

  // The free set of the path without a map: the upper memory, all sizes wrapping as the source wraps them.
  ghost function BasicFreeSet(memLower: u32, memUpper: u32, kernelEnd: u32, infoAddress: u32): set<nat> {
    var total := PagesFor(Wrap(Wrap(memLower + memUpper + 1024) * 1024));
    FreedBy(LOW_LIMIT, Wrap(memUpper * 1024), total) - WithheldPages(kernelEnd, infoAddress, total)
  }

  // The sizes and counts recorded without a map: one usable and one reserved region.
  function BasicTally(memLower: u32, memUpper: u32): Tally {
    var kib := Wrap(memLower + memUpper + 1024);
    Tally(kib, memUpper, Wrap(kib - memUpper), 2, 1, 1)
  }

  /** Upper memory is usable; low memory and the first MiB are reserved; the total is their sum, all modulo 2^32. */
  lemma BasicTallyMeaning(memLower: u32, memUpper: u32)
    ensures var t := BasicTally(memLower, memUpper);
            && t.usableKib == memUpper && t.reservedKib == Wrap(memLower + 1024)
            && t.totalKib == Wrap(t.usableKib + t.reservedKib)
            && t.regions == 2 && t.usableRegions == 1 && t.reservedRegions == 1
  {
    var upper: int := memUpper;
    WrapAdd(memLower + upper + 1024, -upper);
    WrapAdd(memLower + 1024, upper);
    hide Wrap;
  }

  // The page behind the last one the upper memory should give.
  function UpperEnd(memUpper: u32): nat {
    Min((LOW_LIMIT + memUpper * 1024) / 4096, MAX_PAGES)
  }

  // The wrapped sizes still reach the end of the upper memory.
  predicate SizesReach(memLower: u32, memUpper: u32) {
    var last := UpperEnd(memUpper);
    last > 256 ==>
      && LOW_LIMIT + Wrap(memUpper * 1024) >= last * 4096
      && Wrap(Wrap(memLower + memUpper + 1024) * 1024) > (last - 1) * 4096
  }

  // Wanted without a map: the tracked pages of the upper memory that are not off limits.
  predicate BasicWanted(memUpper: u32, kernelEnd: u32, infoAddress: u32, page: int) {
    Tracked(page) && Contains(LOW_LIMIT, memUpper * 1024, page) && !OffLimits(kernelEnd, infoAddress, page)
  }

  lemma WantedUpper(memUpper: u32, page: int)
    requires Tracked(page)
    ensures Contains(LOW_LIMIT, memUpper * 1024, page) <==> 256 <= page < UpperEnd(memUpper)
  {
  }

  lemma PagesForReaches(bytes: u32, page: nat)
    requires page < MAX_PAGES
    ensures page < PagesFor(bytes) <==> bytes > page * 4096
  {
  }

  lemma UpperFrees(upper: u32, page: nat)
    requires page < MAX_PAGES
    ensures Frees(LOW_LIMIT, upper, page) <==> 256 <= page && (page + 1) * 4096 <= LOW_LIMIT + upper
  {
  }

  lemma BasicFreed(memLower: u32, memUpper: u32, kernelEnd: u32, infoAddress: u32, page: nat)
    requires KERNEL_START <= kernelEnd <= 0xFFFF_F000
    ensures page in BasicFreeSet(memLower, memUpper, kernelEnd, infoAddress) <==>
            && page < MAX_PAGES && !OffLimits(kernelEnd, infoAddress, page)
            && 256 <= page && (page + 1) * 4096 <= LOW_LIMIT + Wrap(memUpper * 1024)
            && Wrap(Wrap(memLower + memUpper + 1024) * 1024) > page * 4096
  {
    hide Wrap, PagesFor, Frees, Withheld, OffLimits;
    var bytes, upper := Wrap(Wrap(memLower + memUpper + 1024) * 1024), Wrap(memUpper * 1024);
    PagesForBound(bytes);
    if page < MAX_PAGES {
      WithheldIsOffLimits(kernelEnd, infoAddress, page);
      PagesForReaches(bytes, page);
      UpperFrees(upper, page);
    }
  }

  lemma WrapLess(x: nat)
    ensures Wrap(x) <= x
  {
  }

  /** Without a map, and when the wrapped sizes reach, a page is free exactly when it lies in upper memory,
      ends at or below 1 GiB, and is not off limits. */
  lemma BasicFreeSetMeaning(memLower: u32, memUpper: u32, kernelEnd: u32, infoAddress: u32, page: nat)
    requires SizesReach(memLower, memUpper) && KERNEL_START <= kernelEnd <= 0xFFFF_F000
    ensures page in BasicFreeSet(memLower, memUpper, kernelEnd, infoAddress) <==>
            BasicWanted(memUpper, kernelEnd, infoAddress, page)
  {
    BasicFreed(memLower, memUpper, kernelEnd, infoAddress, page);
    WrapLess(memUpper * 1024);
    hide Wrap, BasicFreeSet, OffLimits;
    if page < MAX_PAGES {
      WantedUpper(memUpper, page);
    }
  }

  /** It means that for every kernel end and record address for exactly the sizes that reach: all those whose
      total fits the address space, and of the larger ones those whose wrapped sizes are still large enough. */
  lemma BasicFreeSetExactly(memLower: u32, memUpper: u32)
    ensures (forall kernelEnd: u32, infoAddress: u32, page: nat :: KERNEL_START <= kernelEnd <= 0xFFFF_F000 ==>
               (page in BasicFreeSet(memLower, memUpper, kernelEnd, infoAddress) <==>
                BasicWanted(memUpper, kernelEnd, infoAddress, page)))
            <==> SizesReach(memLower, memUpper)
    ensures (memLower + memUpper + 1024) * 1024 < 0x1_0000_0000 ==> SizesReach(memLower, memUpper)
  {
    if (memLower + memUpper + 1024) * 1024 < 0x1_0000_0000 {
      FittingSizesReach(memLower, memUpper);
    }
    if SizesReach(memLower, memUpper) {
      hide BasicFreeSet, BasicWanted, SizesReach;
      forall kernelEnd: u32, infoAddress: u32, page: nat | KERNEL_START <= kernelEnd <= 0xFFFF_F000
        ensures page in BasicFreeSet(memLower, memUpper, kernelEnd, infoAddress) <==>
                BasicWanted(memUpper, kernelEnd, infoAddress, page)
      {
        BasicFreeSetMeaning(memLower, memUpper, kernelEnd, infoAddress, page);
      }
    } else {
      var page := UpperEnd(memUpper) - 1;
      BasicFreed(memLower, memUpper, KERNEL_START, 0, page);
      WantedUpper(memUpper, page);
      hide Wrap, BasicFreeSet, Contains;
      assert BasicWanted(memUpper, KERNEL_START, 0, page);
    }
  }

  /** Exactly 4 GiB without a map: the total wraps to 0 and nothing is free, not even the page at 2 MiB. */
  lemma BasicSizesExample()
    ensures !SizesReach(0, 0x3F_FC00)
    ensures BasicFreeSet(0, 0x3F_FC00, KERNEL_START, 0) == {} && BasicWanted(0x3F_FC00, KERNEL_START, 0, 512)
  {
    assert Wrap(Wrap(0 + 0x3F_FC00 + 1024) * 1024) == 0;
    forall page: nat ensures page !in BasicFreeSet(0, 0x3F_FC00, KERNEL_START, 0) {
      BasicFreed(0, 0x3F_FC00, KERNEL_START, 0, page);
    }
    hide BasicFreeSet;
  }

  lemma FittingSizesReach(memLower: u32, memUpper: u32)
    requires (memLower + memUpper + 1024) * 1024 < 0x1_0000_0000
    ensures SizesReach(memLower, memUpper)
  {
    WrapSmall(memLower + memUpper + 1024);
    WrapSmall((memLower + memUpper + 1024) * 1024);
    WrapSmall(memUpper * 1024);
    hide Wrap;
  }

  ghost predicate Usable(es: seq<MapEntry>, page: int) {
    exists i :: 0 <= i < |es| && es[i].kind == 1 && es[i].baseHigh == 0
                && Contains(es[i].baseLow, es[i].lengthLow, page)
  }

  ghost predicate NoBaseWraps(es: seq<MapEntry>) {
    forall i :: 0 <= i < |es| && es[i].kind == 1 && es[i].baseHigh == 0 ==>
      !BaseWraps(es[i].baseLow, es[i].lengthLow)
  }

  /** After the map is processed a page is free exactly when one available low entry wholly contains it,
      it ends at or below 1 GiB, and it meets neither low memory, nor the kernel, nor the boot record. */
  lemma MapFreeSetMeaning(es: seq<MapEntry>, kernelEnd: u32, infoAddress: u32, page: nat)
    requires NoBaseWraps(es) && KERNEL_START <= kernelEnd <= 0xFFFF_F000
    ensures page in MapFreeSet(es, kernelEnd, infoAddress) <==>
            (page + 1) * 4096 <= MAX_TRACKED && Usable(es, page) && !OffLimits(kernelEnd, infoAddress, page)
    ensures page in MapFreeSet(es, kernelEnd, infoAddress) ==> page < PagesFor(HighestFrom(LOW_LIMIT, es))
  {
    if page < MAX_PAGES {
      WithheldIsOffLimits(kernelEnd, infoAddress, page);
      forall i | 0 <= i < |es| && es[i].kind == 1 && es[i].baseHigh == 0
        ensures EntryFrees(es[i], page) <==> Contains(es[i].baseLow, es[i].lengthLow, page)
      {
        FreesContained(es[i].baseLow, es[i].lengthLow, page);
      }
      if MapFrees(es, page) {
        SizingCoversMarking(es, page);
      }
    }
  }

  // For every map, a free page is below the page count and not off limits.
  lemma FreeIsAllowed(es: seq<MapEntry>, kernelEnd: u32, infoAddress: u32, page: nat)
    requires page in MapFreeSet(es, kernelEnd, infoAddress) && KERNEL_START <= kernelEnd <= 0xFFFF_F000
    ensures page < PagesFor(HighestFrom(LOW_LIMIT, es)) && !OffLimits(kernelEnd, infoAddress, page)
  {
    WithheldIsOffLimits(kernelEnd, infoAddress, page);
    SizingCoversMarking(es, page);
  }

  lemma WrappedFreesAll(base: u32, length: u32, page: int)
    requires BaseWraps(base, length) && Tracked(page)
    ensures Frees(base, length, page)
  {
  }

  /** One available entry whose base wraps frees every tracked page that is not off limits, whatever the rest
      of the map says. */
  lemma WrappedMapFreesAll(es: seq<MapEntry>, kernelEnd: u32, infoAddress: u32, page: nat)
    requires !NoBaseWraps(es) && KERNEL_START <= kernelEnd <= 0xFFFF_F000
    ensures page in MapFreeSet(es, kernelEnd, infoAddress) <==>
            (page + 1) * 4096 <= MAX_TRACKED && !OffLimits(kernelEnd, infoAddress, page)
  {
    if page < MAX_PAGES {
      WithheldIsOffLimits(kernelEnd, infoAddress, page);
      var i :| 0 <= i < |es| && es[i].kind == 1 && es[i].baseHigh == 0 && BaseWraps(es[i].baseLow, es[i].lengthLow);
      WrappedFreesAll(es[i].baseLow, es[i].lengthLow, page);
      hide Frees, BaseWraps, Withheld, OffLimits;
      assert EntryFrees(es[i], page);
      SizingCoversMarking(es, page);
    }
  }

  // The free set means what it should: usable pages, but for those off limits.
  ghost predicate MapWanted(es: seq<MapEntry>, kernelEnd: u32, infoAddress: u32, page: nat) {
    (page + 1) * 4096 <= MAX_TRACKED && Usable(es, page) && !OffLimits(kernelEnd, infoAddress, page)
  }

  /** For every map the free set has the intended meaning for all pages exactly when no available low entry's
      base wraps, or every tracked page that is not off limits is usable anyway. */
  lemma MapFreeSetExactly(es: seq<MapEntry>, kernelEnd: u32, infoAddress: u32)
    requires KERNEL_START <= kernelEnd <= 0xFFFF_F000
    ensures (forall page: nat ::
               page in MapFreeSet(es, kernelEnd, infoAddress) <==> MapWanted(es, kernelEnd, infoAddress, page))
            <==>
            NoBaseWraps(es)
            || forall page: nat ::
                 (page + 1) * 4096 <= MAX_TRACKED && !OffLimits(kernelEnd, infoAddress, page) ==> Usable(es, page)
  {
    if NoBaseWraps(es) {
      forall page: nat
        ensures page in MapFreeSet(es, kernelEnd, infoAddress) <==> MapWanted(es, kernelEnd, infoAddress, page)
      {
        MapFreeSetMeaning(es, kernelEnd, infoAddress, page);
      }
    } else {
      forall page: nat
        ensures page in MapFreeSet(es, kernelEnd, infoAddress) <==>
                (page + 1) * 4096 <= MAX_TRACKED && !OffLimits(kernelEnd, infoAddress, page)
      {
        WrappedMapFreesAll(es, kernelEnd, infoAddress, page);
      }
      hide MapFreeSet, OffLimits, Usable, NoBaseWraps;
    }
  }

  /** For every map at all, a free page comes from an entry of type 1 below 4 GiB: one that wholly contains it,
      or one whose base wraps. */
  lemma FreeNeedsTypeOne(es: seq<MapEntry>, kernelEnd: u32, infoAddress: u32, page: nat)
    requires page in MapFreeSet(es, kernelEnd, infoAddress)
    ensures exists i :: 0 <= i < |es| && es[i].kind == 1 && es[i].baseHigh == 0 &&
              (Contains(es[i].baseLow, es[i].lengthLow, page) || BaseWraps(es[i].baseLow, es[i].lengthLow))
  {
    var i :| 0 <= i < |es| && EntryFrees(es[i], page);
    if !BaseWraps(es[i].baseLow, es[i].lengthLow) {
      FreesContained(es[i].baseLow, es[i].lengthLow, page);
    }
    hide Frees, BaseWraps, Contains;
  }

  /** 128 MiB with the last 128 KiB reserved: the reserved pages stay used, the page before them is free. */
  lemma ReservedExample(es: seq<MapEntry>)
    requires es == [MapEntry(20, 0x10_0000, 0, 0x7EE_0000, 0, 1), MapEntry(20, 0x7FE_0000, 0, 0x2_0000, 0, 2)]
    ensures 0x7FE0 !in MapFreeSet(es, 0x20_0000, 0) && 0x7FDF in MapFreeSet(es, 0x20_0000, 0)
    ensures RecordAll(NO_TALLY, es) == Tally(130048, 129920, 128, 2, 1, 1)
  {
    assert NoBaseWraps(es);
    MapFreeSetMeaning(es, 0x20_0000, 0, 0x7FE0);
    assert es[0].kind == 1 && Contains(es[0].baseLow, es[0].lengthLow, 0x7FDF);
    MapFreeSetMeaning(es, 0x20_0000, 0, 0x7FDF);
    assert es[1..] == [es[1]] && es[1..][1..] == [];
    RecordStep(NO_TALLY, es);
    RecordStep(Record(NO_TALLY, es[0]), es[1..]);
    WrapSmall(1);
    WrapSmall(2);
  }

  /** Such a map: one entry of 8 KiB that runs past the end of the address space, and the page at 2 MiB is free. */
  lemma WrappedMapExample(es: seq<MapEntry>)
    requires es == [MapEntry(20, 0xFFFF_F001, 0, 0x2000, 0, 1)]
    ensures 512 in MapFreeSet(es, KERNEL_START, 0) && !Usable(es, 512)
  {
    assert !NoBaseWraps(es) by { assert BaseWraps(es[0].baseLow, es[0].lengthLow); }
    WrappedMapFreesAll(es, KERNEL_START, 0, 512);
  }

  lemma {:induction false} BoundedSize(s: set<nat>, n: nat)
    requires forall x :: x in s ==> x < n
    ensures |s| <= n
  {
    if n > 0 {
      BoundedSize(s - {n - 1}, n - 1);
    } else {
      assert s == {};
    }
  }

  lemma RoomLeft(s: set<nat>, x: nat, n: nat)
    requires (forall y :: y in s ==> y < n) && x < n && x !in s
    ensures |s| < n
  {
    BoundedSize(s + {x}, n);
  }

  // ---------------------------------------------------------------- the page manager

  class PageManager {
    const kernelEnd: u32
    const bitmap: array<bv8>
    var tally: Tally
    var totalPages: u32
    var usedPages: u32
    var freePages: u32
    var mapAvailable: bool
    var initialized: bool
    var nextSearch: u32

    ghost function Free(): set<nat>
      reads bitmap
    {
      FreeIn(bitmap[..])
    }

    // The counters count the bitmap, and every bit from `totalPages` on is set.
    ghost predicate Counted()
      reads this, bitmap
    {
      && bitmap.Length == BITMAP_BYTES
      && totalPages <= MAX_PAGES
      && (forall p :: p in Free() ==> p < totalPages)
      && freePages == |Free()|
      && freePages + usedPages == totalPages
    }

    ghost predicate Valid()
      reads this, bitmap
    {
      && bitmap.Length == BITMAP_BYTES
      && (initialized ==> Counted() && 0 !in Free() && nextSearch <= totalPages)
    }

    constructor (kernelEnd: u32)
      ensures Valid() && !initialized && this.kernelEnd == kernelEnd && fresh(bitmap)
    {
      this.kernelEnd := kernelEnd;
      bitmap := new bv8[BITMAP_BYTES](_ => 0);
      tally := NO_TALLY;
      totalPages, usedPages, freePages, nextSearch := 0, 0, 0, 0;
      mapAvailable, initialized := false, false;
    }

    predicate PageIsUsed(page: nat)
      requires bitmap.Length == BITMAP_BYTES && page < MAX_PAGES
      reads bitmap
      ensures PageIsUsed(page) <==> page !in Free()
    {
      PageBit(bitmap[..], page)
    }

    method SetPageUsed(page: nat)
      requires bitmap.Length == BITMAP_BYTES && page < MAX_PAGES
      modifies bitmap
      ensures Free() == old(Free()) - {page}
    {
      ghost var cells := bitmap[..];
      SetRemoves(cells, page);
      bitmap[page / 8] := bitmap[page / 8] | Mask(page % 8);
      assert bitmap[..] == cells[page / 8 := cells[page / 8] | Mask(page % 8)];
    }

    method SetPageFree(page: nat)
      requires bitmap.Length == BITMAP_BYTES && page < MAX_PAGES
      modifies bitmap
      ensures Free() == old(Free()) + {page}
    {
      ghost var cells := bitmap[..];
      ClearAdds(cells, page);
      bitmap[page / 8] := bitmap[page / 8] & !Mask(page % 8);
      assert bitmap[..] == cells[page / 8 := cells[page / 8] & !Mask(page % 8)];
    }

    method MarkPageFree(page: u32)
      requires Counted()
      modifies `freePages, `usedPages, bitmap
      ensures Counted()
      ensures Free() == old(Free()) + (if page < totalPages then {page} else {})
    {
      hide FreeIn, PageBit;
      if page >= totalPages || !PageIsUsed(page) {
        return;
      }
      RoomLeft(Free(), page, totalPages);
      SetPageFree(page);
      freePages := freePages + 1;
      usedPages := usedPages - 1;
    }

    method MarkPageUsed(page: u32)
      requires Counted()
      modifies `freePages, `usedPages, bitmap
      ensures Counted()
      ensures Free() == old(Free()) - (if page < totalPages then {page} else {})
    {
      hide FreeIn, PageBit;
      if page >= totalPages || PageIsUsed(page) {
        return;
      }
      SetPageUsed(page);
      freePages := freePages - 1;
      usedPages := usedPages + 1;
    }

    // The marking loop, over page-aligned addresses.
    method MarkSpanFree(first: u32, last: u32)
      requires Counted() && first <= 0x10_0000 && last <= MAX_PAGES
      modifies `freePages, `usedPages, bitmap
      ensures Counted()
      ensures Free() == old(Free()) + PagesIn(first, last, totalPages)
    {
      hide FreeIn, PagesIn;
      PagesInEmpty(first, first, totalPages);
      PagesInEmpty(first, Min(first, last), totalPages);
      var address := first * 4096;
      ghost var page: nat := first;
      while address < last * 4096
        invariant first <= page <= Max(first, last) && address == page * 4096
        invariant Counted()
        invariant Free() == old(Free()) + PagesIn(first, page, totalPages)
      {
        PagesInGrows(old(Free()), first, page, totalPages);
        MarkPageFree(address / 4096);
        address, page := address + 4096, page + 1;
      }
    }

    method MarkRangeFree(base: u32, length: u32)
      requires Counted()
      modifies `freePages, `usedPages, bitmap
      ensures Counted()
      ensures Free() == old(Free()) + FreedBy(base, length, totalPages)
    {
      if length < 4096 {
        return;
      }
      hide FreeIn, PagesIn, FreedBy;
      MarkSpanFree(PageUp(base), FreeEnd(base, length));
      FreedBySpan(base, length, totalPages);
    }

    // The marking loop, over page-aligned addresses.
    method MarkSpanUsed(first: u32, last: u32)
      requires Counted() && first <= 0x10_0000 && last <= MAX_PAGES
      modifies `freePages, `usedPages, bitmap
      ensures Counted()
      ensures Free() == old(Free()) - PagesIn(first, last, totalPages)
    {
      hide FreeIn, PagesIn;
      PagesInEmpty(first, first, totalPages);
      PagesInEmpty(first, Min(first, last), totalPages);
      var address := first * 4096;
      ghost var page: nat := first;
      while address < last * 4096
        invariant first <= page <= Max(first, last) && address == page * 4096
        invariant Counted()
        invariant Free() == old(Free()) - PagesIn(first, page, totalPages)
      {
        PagesInGrows(old(Free()), first, page, totalPages);
        MarkPageUsed(address / 4096);
        address, page := address + 4096, page + 1;
      }
    }

    method MarkRangeUsed(base: u32, length: u32)
      requires Counted()
      modifies `freePages, `usedPages, bitmap
      ensures Counted()
      ensures Free() == old(Free()) - ReservedBy(base, length, totalPages)
    {
      if length == 0 {
        return;
      }
      hide FreeIn, PagesIn, ReservedBy;
      MarkSpanUsed(PageDown(base), UsedEnd(base, length));
      ReservedBySpan(base, length, totalPages);
    }

    method PrepareBitmap(highestAddress: u32)
      requires bitmap.Length == BITMAP_BYTES
      modifies `totalPages, `freePages, `usedPages, bitmap
      ensures Counted() && Free() == {}
      ensures totalPages == PagesFor(highestAddress)
    {
      var highest := highestAddress;
      if highest > MAX_TRACKED {
        highest := MAX_TRACKED;
      }
      var total: int := PageUp(highest);
      if total > MAX_PAGES {
        total := MAX_PAGES;
      }
      for i := 0 to BITMAP_BYTES
        invariant forall j :: 0 <= j < i ==> bitmap[j] == 0xFF
      {
        bitmap[i] := 0xFF;
      }
      AllSetIsFull(bitmap[..]);
      totalPages, usedPages, freePages := total, total, 0;
    }

    // The sizing pass.
    method MapHighestAddress(info: BootInfo) returns (highest: u32)
      requires info.Walks(0)
      ensures highest == HighestFrom(LOW_LIMIT, info.Entries(0))
    {
      highest := LOW_LIMIT;
      var offset: nat := 0;
      while offset < info.mapLength
        invariant info.Walks(offset)
        invariant HighestFrom(highest, info.Entries(offset)) == HighestFrom(LOW_LIMIT, info.Entries(0))
        decreases info.mapLength - offset
      {
        var entry := info.Entry(offset);
        var end := EntryEnd(entry);
        if end > highest {
          highest := end;
        }
        offset := offset + entry.size + 4;
      }
    }

    // The marking pass.
    method ParseMap(info: BootInfo)
      requires info.Walks(0) && Counted() && Free() == {} && tally == NO_TALLY
      modifies `tally, `mapAvailable, `freePages, `usedPages, bitmap
      ensures Counted() && mapAvailable
      ensures Free() == MapFreed(info.Entries(0), totalPages)
      ensures tally == RecordAll(NO_TALLY, info.Entries(0))
    {
      hide FreeIn, MapFreed, FreedBy, MapFrees, Record, RecordAll, Wrap;
      ghost var es := info.Entries(0);
      mapAvailable := true;
      var offset: nat := 0;
      while offset < info.mapLength
        invariant info.Walks(offset)
        invariant Counted() && mapAvailable
        invariant Free() + MapFreed(info.Entries(offset), totalPages) == MapFreed(es, totalPages)
        invariant RecordAll(tally, info.Entries(offset)) == RecordAll(NO_TALLY, es)
        decreases info.mapLength - offset
      {
        var entry := info.Entry(offset);
        MapFreedStep(info.Entries(offset), totalPages);
        RecordStep(tally, info.Entries(offset));
        if Available(entry) && entry.baseHigh == 0 {
          MarkRangeFree(entry.baseLow, entry.lengthLow);
        }
        tally := Record(tally, entry);
        offset := offset + entry.size + 4;
      }
      MapFreedNone(totalPages);
      RecordNothing(tally);
    }

    // The sizing pass, then the marking pass.
    method InitFromMap(info: BootInfo)
      requires bitmap.Length == BITMAP_BYTES && info.Walks(0) && tally == NO_TALLY
      modifies `tally, `mapAvailable, `totalPages, `freePages, `usedPages, bitmap
      ensures Counted() && mapAvailable
      ensures totalPages == PagesFor(HighestFrom(LOW_LIMIT, info.Entries(0)))
      ensures Free() == MapFreed(info.Entries(0), totalPages)
      ensures tally == RecordAll(NO_TALLY, info.Entries(0))
    {
      hide FreeIn, FreedBy, MapFreed, HighestFrom, PagesFor;
      var highest := MapHighestAddress(info);
      PrepareBitmap(highest);
      ParseMap(info);
    }

    method InitFromBasicMemory(info: BootInfo)
      requires bitmap.Length == BITMAP_BYTES
      modifies `tally, `mapAvailable, `totalPages, `freePages, `usedPages, bitmap
      ensures Counted() && !mapAvailable
      ensures info.HasBasicMemory() ==>
                var kib := Wrap(info.memLower + info.memUpper + 1024);
                && totalPages == PagesFor(Wrap(kib * 1024))
                && Free() == FreedBy(LOW_LIMIT, Wrap(info.memUpper * 1024), totalPages)
                && tally == BasicTally(info.memLower, info.memUpper)
      ensures !info.HasBasicMemory() ==>
                && totalPages == PagesFor(LOW_LIMIT) && Free() == {}
                && tally == old(tally).(totalKib := 1024, usableKib := 0, reservedKib := 1024)
    {
      hide FreeIn, FreedBy, Wrap, PagesFor;
      var totalKib: u32 := 1024;
      mapAvailable := false;
      if info.HasBasicMemory() {
        totalKib := Wrap(info.memLower + info.memUpper + 1024);
        tally := Tally(totalKib, info.memUpper, Wrap(totalKib - info.memUpper), 2, 1, 1);
        PrepareBitmap(Wrap(totalKib * 1024));
        MarkRangeFree(LOW_LIMIT, Wrap(info.memUpper * 1024));
        return;
      }
      tally := tally.(totalKib := totalKib, usableKib := 0, reservedKib := totalKib);
      WrapSmall(totalKib * 1024);
      PrepareBitmap(Wrap(totalKib * 1024));
    }

    method ReserveKernelRanges(infoAddress: u32)
      requires Counted()
      modifies `freePages, `usedPages, bitmap
      ensures Counted()
      ensures Free() == old(Free()) - WithheldPages(kernelEnd, infoAddress, totalPages)
      ensures 0 !in Free()
    {
      hide FreeIn, ReservedBy, WithheldPages, Wrap, PageUp;
      WithheldPagesSplit(Free(), kernelEnd, infoAddress, totalPages);
      MarkRangeUsed(0, LOW_LIMIT);
      MarkRangeUsed(KERNEL_START, Wrap(PageUp(kernelEnd) * 4096 - KERNEL_START));
      if infoAddress != 0 {
        MarkRangeUsed(infoAddress, 4096);
      }
    }

    // Sizes the bitmap and frees what the boot record offers.
    method Populate(infoAddress: u32, info: BootInfo)
      requires bitmap.Length == BITMAP_BYTES && tally == NO_TALLY && !mapAvailable
      requires infoAddress != 0 && info.HasMap() ==> info.Walks(0)
      modifies `tally, `mapAvailable, `totalPages, `freePages, `usedPages, bitmap
      ensures Counted() && mapAvailable == (infoAddress != 0 && info.HasMap())
      ensures mapAvailable ==>
                && totalPages == PagesFor(HighestFrom(LOW_LIMIT, info.Entries(0)))
                && Free() == MapFreed(info.Entries(0), totalPages)
                && tally == RecordAll(NO_TALLY, info.Entries(0))
      ensures !mapAvailable && infoAddress != 0 && info.HasBasicMemory() ==>
                && totalPages == PagesFor(Wrap(Wrap(info.memLower + info.memUpper + 1024) * 1024))
                && Free() == FreedBy(LOW_LIMIT, Wrap(info.memUpper * 1024), totalPages)
                && tally == BasicTally(info.memLower, info.memUpper)
      ensures !mapAvailable && (infoAddress == 0 || !info.HasBasicMemory()) ==>
                && totalPages == PagesFor(LOW_LIMIT) && Free() == {}
                && tally.totalKib == 1024 && tally.usableKib == 0 && tally.reservedKib == 1024
    {
      hide FreeIn, FreedBy, MapFreed, HighestFrom, RecordAll, Wrap, PagesFor;
      if infoAddress != 0 && info.HasMap() {
        InitFromMap(info);
      } else if infoAddress != 0 {
        InitFromBasicMemory(info);
      } else {
        PrepareBitmap(LOW_LIMIT);
        tally := tally.(totalKib := 1024, reservedKib := 1024);
      }
    }

    // `info` is the record at `infoAddress`.
    method Init(infoAddress: u32, info: BootInfo)
      requires Valid()
      requires infoAddress != 0 && info.HasMap() ==> info.Walks(0)
      modifies this, bitmap
      ensures Valid() && initialized && nextSearch == 0
      ensures infoAddress != 0 && info.HasMap() ==>
                && mapAvailable
                && totalPages == PagesFor(HighestFrom(LOW_LIMIT, info.Entries(0)))
                && Free() == MapFreeSet(info.Entries(0), kernelEnd, infoAddress)
                && tally == RecordAll(NO_TALLY, info.Entries(0))
      ensures infoAddress != 0 && !info.HasMap() && info.HasBasicMemory() ==>
                && !mapAvailable
                && totalPages == PagesFor(Wrap(Wrap(info.memLower + info.memUpper + 1024) * 1024))
                && tally == BasicTally(info.memLower, info.memUpper)
                && Free() == BasicFreeSet(info.memLower, info.memUpper, kernelEnd, infoAddress)
      ensures infoAddress == 0 || (!info.HasMap() && !info.HasBasicMemory()) ==>
                && !mapAvailable && totalPages == 256 && Free() == {}
                && tally.totalKib == 1024 && tally.usableKib == 0 && tally.reservedKib == 1024
    {
      hide FreeIn, FreedBy, MapFreed, MapFreeSet, WithheldPages, HighestFrom, RecordAll, Wrap, PagesFor;
      LowPages();
      tally := NO_TALLY;
      totalPages, usedPages, freePages, nextSearch := 0, 0, 0, 0;
      mapAvailable, initialized := false, false;
      Populate(infoAddress, info);
      ReserveKernelRanges(infoAddress);
      initialized := true;
      if mapAvailable {
        MapFreeSetSplit(info.Entries(0), kernelEnd, infoAddress);
      }
    }

    // Returns the address of a page, or 0.
    method AllocPage() returns (address: u32)
      requires Valid()
      modifies `freePages, `usedPages, `nextSearch, bitmap
      ensures Valid()
      ensures if !initialized || old(Free()) == {}
              then address == 0 && Free() == old(Free()) && nextSearch == old(nextSearch)
              else var page := Scan(old(Free()), totalPages, old(nextSearch), 0);
                && CyclicallyFirst(old(Free()), totalPages, old(nextSearch), page)
                && address == page * 4096 && address != 0
                && Free() == old(Free()) - {page} && nextSearch == page + 1
    {
      hide FreeIn, PageBit, CyclicallyFirst;
      address := 0;
      if !initialized || freePages == 0 {
        return;
      }
      ghost var free := Free();
      ScanIsNextFit(free, totalPages, nextSearch);
      ScanInFree(free, totalPages, nextSearch);
      var scanned := 0;
      while scanned < totalPages
        invariant 0 <= scanned <= totalPages
        invariant address == 0
        invariant Scan(free, totalPages, nextSearch, 0) == Scan(free, totalPages, nextSearch, scanned)
      {
        var page := (nextSearch + scanned) % totalPages;
        if !PageIsUsed(page) {
          MarkPageUsed(page);
          nextSearch := page + 1;
          return page * 4096;
        }
        scanned := scanned + 1;
      }
    }

    method FreePage(address: u32)
      requires Valid()
      modifies `freePages, `usedPages, bitmap
      ensures Valid()
      ensures Free() == if initialized && address != 0 && address % 4096 == 0 && address / 4096 < totalPages
                        then old(Free()) + {address / 4096} else old(Free())
    {
      hide FreeIn;
      if !initialized || address == 0 || address % 4096 != 0 {
        return;
      }
      MarkPageFree(address / 4096);
    }
  }
}
