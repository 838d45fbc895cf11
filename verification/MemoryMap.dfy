/**
 * The BIOS E820 map parser (kernel/memory.c:31-117). Type 1 is usable memory (section 15 of the
 * ACPI specification, INT 15h E820h).
 */
module MemoryMap {
  import opened Words
  import opened PhysicalMemory
  import opened PagePool

  const DEFAULT_END: nat := 0x2000_0000
  const MAX_BITMAP: nat := 0x1_FFE0

  datatype MapEntry = MapEntry(baseLow: U32, baseHigh: U32, lengthLow: U32, lengthHigh: U32, kind: U32)

  /** `((uint64_t)high << 32) | low`. */
  function Base(e: MapEntry): U64 {
    e.baseHigh * TWO_32 + e.baseLow
  }

  function Length(e: MapEntry): U64 {
    e.lengthHigh * TWO_32 + e.lengthLow
  }

  predicate Considered(e: MapEntry) {
    Base(e) <= MAX_MEMORY && Length(e) <= MAX_MEMORY && e.kind == 1
  }

  /** Where the entry's usable part above 1 MB begins and how long it is. */
  function UsableBase(e: MapEntry): nat {
    if Base(e) >= MEMORY_START then Base(e) else MEMORY_START
  }

  function UsableLength(e: MapEntry): nat {
    if Considered(e) && Base(e) + Length(e) > UsableBase(e) then Base(e) + Length(e) - UsableBase(e) else 0
  }

  /** `k` is the earliest entry with the largest usable length, and that length is positive. */
  ghost predicate Chosen(entries: seq<MapEntry>, k: nat) {
    && k < |entries|
    && UsableLength(entries[k]) > 0
    && (forall j :: 0 <= j < |entries| ==> UsableLength(entries[j]) <= UsableLength(entries[k]))
    && (forall j :: 0 <= j < k ==> UsableLength(entries[j]) < UsableLength(entries[k]))
  }

  function BlockEnd(e: MapEntry): nat {
    var end := UsableBase(e) + UsableLength(e);
    if end > MAX_MEMORY then MAX_MEMORY else end
  }

  /** The memory end the parser settles on, or `None` for its -1 result. */
  ghost predicate ParseResult(entries: seq<MapEntry>, r: Option<nat>) {
    match r
    case None => |entries| == 0 || |entries| > 50 || forall j :: 0 <= j < |entries| ==> UsableLength(entries[j]) == 0
    case Some(end) => 0 < |entries| <= 50 && exists k: nat :: Chosen(entries, k) && end == BlockEnd(entries[k])
  }

  /** `end` is the memory end for this map: the parsed one, or 512 MB when parsing fails. */
  ghost predicate EndFor(entries: seq<MapEntry>, end: nat) {
    exists r: Option<nat> :: ParseResult(entries, r) && end == if r.Some? then r.value else DEFAULT_END
  }

  method SafeParse(entries: seq<MapEntry>) returns (r: Option<nat>)
    requires |entries| < 0x1_0000
    ensures ParseResult(entries, r)
    ensures r.Some? ==> MEMORY_START < r.value <= MAX_MEMORY
  {
    if |entries| > 100 {
      return None;
    }
    if |entries| == 0 || |entries| > 50 {
      return None;
    }
    var largestSize: U64 := 0;
    var largestBase: U64 := MEMORY_START;
    ghost var best := 0;
    for i := 0 to |entries|
      invariant forall j :: 0 <= j < i ==> UsableLength(entries[j]) <= largestSize
      invariant largestSize == 0 ==> largestBase == MEMORY_START
      invariant largestSize > 0 ==> best < i && largestSize == UsableLength(entries[best])
      invariant largestSize > 0 ==> largestBase == UsableBase(entries[best])
      invariant largestSize > 0 ==> forall j :: 0 <= j < best ==> UsableLength(entries[j]) < largestSize
      invariant largestSize <= MAX_MEMORY && MEMORY_START <= largestBase <= MAX_MEMORY
    {
      var base: U64 := Base(entries[i]);
      var length: U64 := Length(entries[i]);
      if base > MAX_MEMORY || length > MAX_MEMORY {
        continue;
      }
      if entries[i].kind == 1 {
        if base >= MEMORY_START {
          if length > largestSize {
            largestSize, largestBase, best := length, base, i;
          }
        } else if base + length > MEMORY_START {
          var end: U64 := base + length;
          var usable := end - MEMORY_START;
          if usable > largestSize {
            largestSize, largestBase, best := usable, MEMORY_START, i;
          }
        }
      }
    }
    if largestSize > 0 {
      assert Chosen(entries, best);
      var end: U64 := largestBase + largestSize;
      if end > MAX_MEMORY {
        end := MAX_MEMORY;
      }
      return Some(end);
    }
    return None;
  }

  /** As many whole pages as fit between 1 MB and the end. */
  function TotalPages(end: nat): (r: nat)
    requires MEMORY_START <= end
    ensures 0x10_0000 + 0x1000 * r <= end < 0x10_0000 + 0x1000 * (r + 1)
  {
    (end - MEMORY_START) / PAGE_SIZE
  }

  /** `calculate_bitmap_size`. */
  function BitmapSize(total: nat): (r: nat)
    ensures total <= 8 * r < total + 8
  {
    (total + 7) / 8
  }

  /** The earliest maximum is unique, so the parser has only one possible answer. */
  lemma ParseUnique(entries: seq<MapEntry>, a: Option<nat>, b: Option<nat>)
    requires ParseResult(entries, a) && ParseResult(entries, b)
    ensures a == b
  {
    if a.Some? {
      var k: nat :| Chosen(entries, k) && a.value == BlockEnd(entries[k]);
      assert b.Some?;
      var l: nat :| Chosen(entries, l) && b.value == BlockEnd(entries[l]);
      assert k == l;
    }
  }

  /**
   * What an entry contributes: if it is of type 1 and neither its 64-bit base nor its length exceeds
   * 4 GB, the bytes of its block that lie at or above 1 MB; otherwise nothing. Its end is cut at 4 GB.
   */
  lemma UsableIs(e: MapEntry, x: nat)
    ensures var base, length := e.baseHigh * 0x1_0000_0000 + e.baseLow, e.lengthHigh * 0x1_0000_0000 + e.lengthLow;
      && (UsableBase(e) <= x < UsableBase(e) + UsableLength(e) <==>
            && e.kind == 1 && base <= 0x1_0000_0000 && length <= 0x1_0000_0000
            && 0x10_0000 <= x && base <= x < base + length)
      && (UsableLength(e) > 0 ==>
            BlockEnd(e) == if base + length > 0x1_0000_0000 then 0x1_0000_0000 else base + length)
  {
  }

  /** No entry, more than 50, or none with a usable byte: then, and only then, the end is the 512 MB default. */
  lemma FallbackEnd(entries: seq<MapEntry>, end: nat)
    requires EndFor(entries, end)
    ensures ParseResult(entries, None)
      <==> |entries| == 0 || |entries| > 50 || forall j :: 0 <= j < |entries| ==> UsableLength(entries[j]) == 0
    ensures ParseResult(entries, None) ==> end == 0x2000_0000
  {
    var r: Option<nat> :| ParseResult(entries, r) && end == if r.Some? then r.value else DEFAULT_END;
    if ParseResult(entries, None) {
      ParseUnique(entries, None, r);
    }
  }

  /** Of two blocks of the same size the first in the map is taken. */
  lemma EarliestWins(a: MapEntry, b: MapEntry)
    requires UsableLength(a) == UsableLength(b) > 0
    ensures ParseResult([a, b], Some(BlockEnd(a)))
  {
    assert Chosen([a, b], 0);
  }

  ghost predicate PageInside(e: MapEntry, i: nat) {
    Base(e) <= PageAddress(i) && PageAddress(i + 1) <= Base(e) + Length(e)
  }

  /**
   * The start of managed memory is never raised to the chosen block, so the managed pages all lie
   * inside that usable entry exactly when the entry begins at or below 1 MB (or no page fits).
   */
  lemma ManagedInsideIff(entries: seq<MapEntry>, k: nat)
    requires Chosen(entries, k)
    ensures (forall i: nat :: i < TotalPages(BlockEnd(entries[k])) ==> PageInside(entries[k], i))
       <==> (Base(entries[k]) <= MEMORY_START || TotalPages(BlockEnd(entries[k])) == 0)
  {
    var e := entries[k];
    if Base(e) <= MEMORY_START {
      forall i: nat | i < TotalPages(BlockEnd(e)) ensures PageInside(e, i) {
      }
    } else if TotalPages(BlockEnd(e)) != 0 {
      assert !PageInside(e, 0);
    }
  }

  /** A machine whose only usable block starts at 16 MB: page 0, at 1 MB, is outside it. */
  lemma HighBlockIsMismanaged()
    ensures var e := MapEntry(0x100_0000, 0, 0x100_0000, 0, 1);
      && ParseResult([e], Some(0x200_0000))
      && 0 < TotalPages(0x200_0000) && !PageInside(e, 0)
  {
    var e := MapEntry(0x100_0000, 0, 0x100_0000, 0, 1);
    assert Chosen([e], 0);
  }

  /** The bitmap at 0x60000 stays below 0x7FFE0: clear of video memory and of every managed page. */
  lemma BitmapFits(end: nat)
    requires MEMORY_START <= end <= MAX_MEMORY
    ensures 0x6_0000 + BitmapSize(TotalPages(end)) <= 0x7_FFE0 < 0xB_8000 < MEMORY_START
    ensures BitmapSize(TotalPages(end)) <= MAX_BITMAP
  {
  }

  /** All five boot reservations lie below 1 MB and so reserve nothing. */
  lemma BootReservationsEmpty(p: Pool, size: nat)
    requires size <= MAX_BITMAP
    ensures MarkUsed(p, 0x1_0000, 0x2_0000) == p
    ensures MarkUsed(p, 0x1000, 0x5000) == p
    ensures MarkUsed(p, 0x5000, 0x6000) == p
    ensures MarkUsed(p, 0x6_0000, 0x6_0000 + size) == p
    ensures MarkUsed(p, 0xB_8000, 0xB_8000 + 0x8000) == p
  {
    MarkNothing(p, 0x1_0000, 0x2_0000);
    MarkNothing(p, 0x1000, 0x5000);
    MarkNothing(p, 0x5000, 0x6000);
    MarkNothing(p, 0x6_0000, 0x6_0000 + size);
    MarkNothing(p, 0xB_8000, 0xB_8000 + 0x8000);
  }
}
