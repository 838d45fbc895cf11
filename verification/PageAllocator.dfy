/** The bitmap allocator of kernel/memory.c, proved to follow the page pool. */
module Allocator {
  import opened Words
  import opened PhysicalMemory
  import opened PagePool
  import opened MemoryMap

  /** Size of the memory window from 0x60000 to 0x80000 that holds the bitmap. */
  const BITMAP_BYTES: nat := 0x2_0000

  // ---------------------------------------------------------------- bits of the bitmap

  /** `1 << x` for a bit of a byte, by doubling. */
  function OneBit(x: nat): bv8
    requires x < 8
  {
    if x == 0 then 1 else OneBit(x - 1) << 1
  }

  lemma OneBitValues(x: nat)
    requires x < 8
    ensures OneBit(x) == (1 as bv8) << x
    ensures OneBit(x) == [1, 2, 4, 8, 16, 32, 64, 128 as bv8][x]
  {
    assert OneBit(2) == 4 && OneBit(4) == 16 && OneBit(6) == 64;
    assert x == 0 || x == 1 || x == 2 || x == 3 || x == 4 || x == 5 || x == 6 || x == 7;
  }

  predicate FreeBit(bitmap: seq<bv8>, i: nat)
    requires i < 8 * |bitmap|
  {
    TestBit(bitmap[i / 8], i % 8)
  }

  /** The first `n` bits say exactly which of the first `n` pages are free. */
  ghost predicate Agrees(bitmap: seq<bv8>, free: set<nat>, n: nat)
    requires n <= 8 * |bitmap|
  {
    n == 0 || (Agrees(bitmap, free, n - 1) && (n - 1 in free <==> FreeBit(bitmap, n - 1)))
  }

  lemma {:induction false} AgreesAt(bitmap: seq<bv8>, free: set<nat>, n: nat, i: nat)
    requires i < n <= 8 * |bitmap| && Agrees(bitmap, free, n)
    ensures i in free <==> FreeBit(bitmap, i)
    decreases n
  {
    if i < n - 1 {
      AgreesAt(bitmap, free, n - 1, i);
    }
  }

  lemma {:induction false} AgreesIntro(bitmap: seq<bv8>, free: set<nat>, n: nat)
    requires n <= 8 * |bitmap| && forall i: nat :: i < n ==> (i in free <==> FreeBit(bitmap, i))
    ensures Agrees(bitmap, free, n)
    decreases n
  {
    if n != 0 {
      AgreesIntro(bitmap, free, n - 1);
    }
  }

  /** The set bits past the last page. */
  ghost function Padding(bitmap: seq<bv8>, total: nat): set<nat>
    requires total <= 8 * |bitmap|
  {
    set i | i in Interval(total, 8 * |bitmap|) && FreeBit(bitmap, i)
  }

  predicate TestBit(b: bv8, x: nat)
    requires x < 8
  {
    b & OneBit(x) != 0
  }

  function ClearBit(b: bv8, x: nat): bv8
    requires x < 8
  {
    b & !OneBit(x)
  }

  function RaiseBit(b: bv8, x: nat): bv8
    requires x < 8
  {
    b | OneBit(x)
  }

  /** Bit `y` of a byte after clearing or setting bit `x`. */
  lemma MaskBits(b: bv8, x: nat, y: nat)
    requires x < 8 && y < 8
    ensures TestBit(ClearBit(b, x), y) <==> TestBit(b, y) && x != y
    ensures TestBit(RaiseBit(b, x), y) <==> TestBit(b, y) || x == y
  {
    OneBitValues(x);
    OneBitValues(y);
    MaskValues(b, OneBit(x), OneBit(y));
  }

  predicate IsMask(m: bv8) {
    m == 1 || m == 2 || m == 4 || m == 8 || m == 16 || m == 32 || m == 64 || m == 128
  }

  lemma MaskValues(b: bv8, m: bv8, n: bv8)
    requires IsMask(m) && IsMask(n)
    ensures (b & !m) & n != 0 <==> b & n != 0 && m != n
    ensures (b | m) & n != 0 <==> b & n != 0 || m == n
  {
  }

  function Cleared(bitmap: seq<bv8>, i: nat): seq<bv8>
    requires i < 8 * |bitmap|
  {
    bitmap[i / 8 := ClearBit(bitmap[i / 8], i % 8)]
  }

  function Raised(bitmap: seq<bv8>, i: nat): seq<bv8>
    requires i < 8 * |bitmap|
  {
    bitmap[i / 8 := RaiseBit(bitmap[i / 8], i % 8)]
  }

  /** Clearing or setting one bit moves exactly that page, whatever it held before. */
  lemma BitMoves(bitmap: seq<bv8>, i: nat, j: nat)
    requires i < 8 * |bitmap| && j < 8 * |bitmap|
    ensures FreeBit(Cleared(bitmap, i), j) <==> FreeBit(bitmap, j) && i != j
    ensures FreeBit(Raised(bitmap, i), j) <==> FreeBit(bitmap, j) || i == j
  {
    if i / 8 == j / 8 {
      SameByte(bitmap, i, j);
    } else {
      OtherByte(bitmap, i, j);
    }
  }

  lemma SameByte(bitmap: seq<bv8>, i: nat, j: nat)
    requires i < 8 * |bitmap| && j < 8 * |bitmap| && i / 8 == j / 8
    ensures FreeBit(Cleared(bitmap, i), j) <==> FreeBit(bitmap, j) && i != j
    ensures FreeBit(Raised(bitmap, i), j) <==> FreeBit(bitmap, j) || i == j
  {
    BytePosition(i, j);
    MaskBits(bitmap[i / 8], i % 8, j % 8);
  }

  lemma BytePosition(i: nat, j: nat)
    requires i / 8 == j / 8
    ensures i % 8 == j % 8 <==> i == j
  {
  }

  lemma OtherByte(bitmap: seq<bv8>, i: nat, j: nat)
    requires i < 8 * |bitmap| && j < 8 * |bitmap| && i / 8 != j / 8
    ensures Cleared(bitmap, i)[j / 8] == bitmap[j / 8] == Raised(bitmap, i)[j / 8]
  {
  }

  /** A byte of the bitmap is tested, cleared and set with the eight masks from 1 to 128. */
  lemma ByteFormat(b: bv8, x: nat)
    requires x < 8
    ensures TestBit(b, x) <==> b & Mask(x) != 0
    ensures ClearBit(b, x) == b & !Mask(x) && RaiseBit(b, x) == b | Mask(x)
  {
    OneBitValues(x);
  }

  function Mask(x: nat): bv8
    requires x < 8
  {
    [1, 2, 4, 8, 16, 32, 64, 128][x]
  }

  /** Page `i` is bit `i % 8`, counted from the low end, of byte `i / 8`; a set bit means free. */
  lemma BitmapFormat(bitmap: seq<bv8>, i: nat)
    requires i < 8 * |bitmap|
    ensures FreeBit(bitmap, i) <==> TestBit(bitmap[i / 8], i % 8)
    ensures Cleared(bitmap, i) == bitmap[i / 8 := ClearBit(bitmap[i / 8], i % 8)]
    ensures Raised(bitmap, i) == bitmap[i / 8 := RaiseBit(bitmap[i / 8], i % 8)]
  {
  }

  lemma PageMoves(bitmap: seq<bv8>, free: set<nat>, i: nat, total: nat)
    requires i < total <= 8 * |bitmap| && Agrees(bitmap, free, total)
    ensures Agrees(Cleared(bitmap, i), free - {i}, total)
    ensures Agrees(Raised(bitmap, i), free + {i}, total)
    ensures Padding(Cleared(bitmap, i), total) == Padding(bitmap, total) == Padding(Raised(bitmap, i), total)
  {
    forall j: nat | j < 8 * |bitmap|
      ensures FreeBit(Cleared(bitmap, i), j) <==> FreeBit(bitmap, j) && i != j
      ensures FreeBit(Raised(bitmap, i), j) <==> FreeBit(bitmap, j) || i == j
    {
      BitMoves(bitmap, i, j);
    }
    forall j: nat | j < total ensures j in free <==> FreeBit(bitmap, j) {
      AgreesAt(bitmap, free, total, j);
    }
    AgreesIntro(Cleared(bitmap, i), free - {i}, total);
    AgreesIntro(Raised(bitmap, i), free + {i}, total);
  }

  lemma AllOnesFree(bitmap: seq<bv8>, total: nat)
    requires total <= 8 * |bitmap|
    requires forall k :: 0 <= k < BitmapSize(total) ==> bitmap[k] == 0xFF
    ensures Agrees(bitmap, Pages(total), total)
  {
    forall i: nat | i < total ensures FreeBit(bitmap, i) {
      assert i / 8 < BitmapSize(total);
      var x := i % 8;
      assert x == 0 || x == 1 || x == 2 || x == 3 || x == 4 || x == 5 || x == 6 || x == 7;
    }
    AgreesIntro(bitmap, Pages(total), total);
  }

  // ---------------------------------------------------------------- the allocator

  class PageAllocator {
    const memoryMap: array<bv8>
    var mapped: bool        // memory_map != NULL
    var totalPages: nat
    var usedPages: nat
    var memoryEnd: nat
    var mem: Memory
    ghost var free: set<nat>

    /** Shape of the fields, without the agreement between counter and bitmap. */
    ghost predicate Shaped()
      reads this
    {
      && memoryMap.Length == BITMAP_BYTES
      && (!mapped ==> totalPages == 0)
      && totalPages <= 8 * BITMAP_BYTES
      && PageAddress(totalPages) <= memoryEnd
      && MEMORY_START < memoryEnd <= MAX_MEMORY
    }

    /** `free` is what the bitmap says. */
    ghost predicate Bits()
      reads this, memoryMap
    {
      && memoryMap.Length == BITMAP_BYTES && totalPages <= 8 * BITMAP_BYTES
      && free <= Pages(totalPages) && Agrees(memoryMap[..], free, totalPages)
    }

    ghost function View(): Pool
      reads this
    {
      Pool(memoryEnd, totalPages, free, usedPages, mem)
    }

    ghost predicate Valid()
      reads this, memoryMap
    {
      Shaped() && Bits() && PagePool.Valid(View())
    }

    // The byte-index and bit-mask idiom that every operation below repeats.

    method TestPage(i: nat) returns (isFree: bool)
      requires Bits() && i < totalPages
      ensures isFree <==> i in free
    {
      AgreesAt(memoryMap[..], free, totalPages, i);
      isFree := TestBit(memoryMap[i / 8], i % 8);
    }

    method ClearPage(i: nat)
      requires Bits() && i < totalPages
      modifies memoryMap, this`free
      ensures Bits() && free == old(free) - {i}
      ensures Padding(memoryMap[..], totalPages) == old(Padding(memoryMap[..], totalPages))
    {
      PageMoves(memoryMap[..], free, i, totalPages);
      ghost var before := memoryMap[..];
      memoryMap[i / 8] := ClearBit(memoryMap[i / 8], i % 8);
      assert memoryMap[..] == Cleared(before, i);
      free := free - {i};
    }

    method RaisePage(i: nat)
      requires Bits() && i < totalPages
      modifies memoryMap, this`free
      ensures Bits() && free == old(free) + {i}
      ensures Padding(memoryMap[..], totalPages) == old(Padding(memoryMap[..], totalPages))
    {
      PageMoves(memoryMap[..], free, i, totalPages);
      ghost var before := memoryMap[..];
      memoryMap[i / 8] := RaiseBit(memoryMap[i / 8], i % 8);
      assert memoryMap[..] == Raised(before, i);
      free := free + {i};
    }

    /** The static initialisers; `mem` is whatever the machine holds. */
    constructor (mem: Memory)
      ensures Valid() && !mapped && totalPages == usedPages == 0 && memoryEnd == 0x2000_0000 && this.mem == mem
      ensures fresh(memoryMap)
    {
      memoryMap := new bv8[BITMAP_BYTES];
      mapped := false;
      totalPages, usedPages := 0, 0;
      memoryEnd := DEFAULT_END;
      this.mem := mem;
      free := {};
    }

    /**
     * `Init_Memory`. Every page comes out free. The counter is not reset, so it agrees with the
     * bitmap exactly when it was zero before, as it is on the first call.
     */
    method Init(entries: seq<MapEntry>)
      requires Shaped() && |entries| < 0x1_0000
      modifies this, memoryMap
      ensures Shaped() && Bits() && mapped && mem == old(mem) && usedPages == old(usedPages)
      ensures totalPages == TotalPages(memoryEnd)
      ensures EndFor(entries, memoryEnd)
      ensures free == Pages(totalPages)
      ensures Valid() <==> old(usedPages) == 0
    {
      var r := SafeParse(entries);
      if r.Some? {
        memoryEnd := r.value;
      } else {
        memoryEnd := DEFAULT_END;
      }
      totalPages := TotalPages(memoryEnd);
      var size := BitmapSize(totalPages);
      BitmapFits(memoryEnd);
      mapped := true;
      FillBitmap(size);
      ReserveBootRanges(size);
      AllFree(View());
    }

    method FillBitmap(size: nat)
      requires memoryMap.Length == BITMAP_BYTES && totalPages <= 8 * BITMAP_BYTES && size == BitmapSize(totalPages)
      modifies memoryMap, this`free
      ensures Bits() && free == Pages(totalPages)
    {
      for i := 0 to size
        invariant forall k :: 0 <= k < i ==> memoryMap[k] == 0xFF
      {
        memoryMap[i] := 0xFF;
      }
      AllOnesFree(memoryMap[..], totalPages);
      free := Pages(totalPages);
    }

    /** The five boot reservations, all of which clip to nothing. */
    method ReserveBootRanges(size: nat)
      requires Shaped() && Bits() && size <= MAX_BITMAP
      modifies this`usedPages, this`free, memoryMap
      ensures Shaped() && Bits() && View() == old(View())
    {
      BootReservationsEmpty(View(), size);
      MarkRangeUsed(0x1_0000, 0x2_0000);
      MarkRangeUsed(0x1000, 0x5000);
      MarkRangeUsed(0x5000, 0x6000);
      MarkRangeUsed(0x6_0000, 0x6_0000 + size);
      MarkRangeUsed(0xB_8000, 0xB_8000 + 0x8000);
    }

    /** `mark_memory_range_used`; the padding bits past the last page keep their value. */
    method MarkRangeUsed(start: nat, end: nat)
      requires Shaped() && Bits()
      modifies this`usedPages, this`free, memoryMap
      ensures Shaped() && Bits() && View() == MarkUsed(old(View()), start, end)
      ensures Padding(memoryMap[..], totalPages) == old(Padding(memoryMap[..], totalPages))
    {
      var s := if start < MEMORY_START then MEMORY_START else start;
      var e := if end > memoryEnd then memoryEnd else end;
      if s >= e {
        MarkNothing(View(), start, end);
        return;
      }
      var startPage := (s - MEMORY_START) / PAGE_SIZE;
      var endPage := (e - MEMORY_START) / PAGE_SIZE;
      MarkPages(startPage, endPage);
      MarkIs(old(View()), start, end, startPage, endPage, free, usedPages);
    }

    /** The loop of `mark_memory_range_used`. */
    method MarkPages(first: nat, last: nat)
      requires Bits()
      modifies this`usedPages, this`free, memoryMap
      ensures Bits() && forall j :: j in free <==> j in old(free) && !(first <= j < last)
      ensures usedPages + |free| == old(usedPages) + |old(free)|
      ensures Padding(memoryMap[..], totalPages) == old(Padding(memoryMap[..], totalPages))
    {
      var i := first;
      while i < last && i < totalPages
        invariant Bits() && first <= i
        invariant forall j :: j in free <==> j in old(free) && !(first <= j < i && j < last)
        invariant usedPages + |free| == old(usedPages) + |old(free)|
        invariant Padding(memoryMap[..], totalPages) == old(Padding(memoryMap[..], totalPages))
      {
        var isFree := TestPage(i);
        if isFree {
          ClearPage(i);
          usedPages := usedPages + 1;
        }
        i := i + 1;
      }
      assert forall j :: j in old(free) ==> j < totalPages;
    }

    /** The first-fit search of `get_physical_page`: the lowest free page, or `totalPages`. */
    method FirstFree() returns (i: nat)
      requires Valid()
      ensures i <= totalPages && (i == totalPages <==> free == {})
      ensures i < totalPages ==> i == Least(free)
    {
      i := 0;
      while i < totalPages
        invariant i <= totalPages
        invariant forall j :: j in free ==> i <= j
      {
        var isFree := TestPage(i);
        if isFree {
          LeastUnique(free, i);
          return;
        }
        i := i + 1;
      }
    }

    /** `get_physical_page`; 0 is the null pointer. */
    method GetPhysicalPage() returns (address: nat)
      requires Valid()
      modifies this`usedPages, this`mem, this`free, memoryMap
      ensures Valid() && View() == Get(old(View())).0
      ensures address == AddressOf(Get(old(View())).1)
    {
      if !mapped {
        return 0;
      }
      var i := FirstFree();
      if i == totalPages {
        return 0;
      }
      GetIs(View(), i);
      ClearPage(i);
      usedPages := usedPages + 1;
      address := MEMORY_START + i * PAGE_SIZE;
      // The source's rollback for an address past the end can never run.
      assert address < memoryEnd;
      mem := Zeroed(mem, address / PAGE_SIZE);
    }

    /** `free_physical_page`. */
    method FreePhysicalPage(address: nat)
      requires Valid()
      modifies this`usedPages, this`mem, this`free, memoryMap
      ensures Valid() && View() == Release(old(View()), address)
    {
      if !mapped {
        return;
      }
      if address < MEMORY_START || address >= memoryEnd {
        return;
      }
      if address % PAGE_SIZE != 0 {
        return;
      }
      var i := (address - MEMORY_START) / PAGE_SIZE;
      if i >= totalPages {
        return;
      }
      var isFree := TestPage(i);
      if !isFree {
        ReleaseIs(View(), address, i);
        RaisePage(i);
        usedPages := usedPages - 1;
        mem := Zeroed(mem, address / PAGE_SIZE);
      }
    }

    /** A store of one word through a table pointer; the allocator's own state is elsewhere. */
    method Store(f: nat, i: nat, e: U64)
      requires Valid() && i < ENTRIES
      modifies this`mem
      ensures Valid() && View() == old(View()).(mem := Write(old(mem), f, i, e))
    {
      mem := Write(mem, f, i, e);
    }

    /**
     * `find_contiguous_free_pages`: the lowest start of `count` free pages, or 0 when there is none.
     * A 0 is also the answer for a run that begins at page 0, so only a nonzero result is proof.
     */
    method FindContiguous(count: nat) returns (start: nat)
      requires Valid()
      ensures (count == 0 || count > totalPages) ==> start == 0
      ensures 0 < count <= totalPages && start != 0 ==> FreeWindow(free, start, count)
      ensures 0 < count <= totalPages ==> forall s: nat :: s < start ==> !FreeWindow(free, s, count)
      ensures 0 < count <= totalPages ==>
        (start == 0 <==> FreeWindow(free, 0, count) || forall s: nat :: !FreeWindow(free, s, count))
    {
      if !mapped || count == 0 || count > totalPages {
        return 0;
      }
      var consecutive := 0;
      start := 0;
      for i := 0 to totalPages
        invariant consecutive < count && consecutive <= i
        invariant consecutive > 0 ==> start == i - consecutive
        invariant FreeWindow(free, i - consecutive, consecutive)
        invariant forall s: nat :: s < i - consecutive ==> !FreeWindow(free, s, count)
      {
        var isFree := TestPage(i);
        if isFree {
          if consecutive == 0 {
            start := i;
          }
          consecutive := consecutive + 1;
          if consecutive >= count {
            assert FreeWindow(free, start, count);
            return start;
          }
        } else {
          consecutive := 0;
        }
      }
      forall s: nat ensures !FreeWindow(free, s, count) {
        if s >= totalPages - consecutive {
          assert s + count - 1 !in free;
        }
      }
      return 0;
    }

    /** `get_free_memory`: the counter arithmetic is the size of the free set in bytes. */
    method GetFreeMemory() returns (bytes: nat)
      requires Valid()
      ensures bytes == |free| * PAGE_SIZE
    {
      bytes := (totalPages - usedPages) * PAGE_SIZE;
    }
  }

  /** The pointer a page is returned as; null when there is none. */
  function AddressOf(page: Option<nat>): nat {
    match page
    case None => 0
    case Some(i) => PageAddress(i)
  }
}
