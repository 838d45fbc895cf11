/**
 * The physical page allocator as a set of free page indices (kernel/memory.c).
 * Page `i` is the 4 KB block at `0x100000 + 4096 * i`, that is, frame `256 + i`.
 * The bitmap class in PageAllocator.dfy is proved to follow these functions.
 */
module PagePool {
  import opened Words
  import opened PhysicalMemory

  const MEMORY_START: nat := 0x10_0000
  const MAX_MEMORY: nat := 0x1_0000_0000
  const FIRST_FRAME: nat := 256

  datatype Pool = Pool(end: nat, total: nat, free: set<nat>, used: nat, mem: Memory)

  /** A named range test, for the comprehension below to match on. */
  predicate Within(i: int, lo: nat, hi: nat) {
    lo <= i < hi
  }

  /** The integers from `lo` up to but excluding `hi`. */
  ghost function Interval(lo: nat, hi: nat): (r: set<nat>)
    ensures forall i :: i in r <==> lo <= i < hi
  {
    set i: nat | i < hi && Within(i, lo, hi)
  }

  lemma {:induction false} IntervalSize(lo: nat, hi: nat)
    requires lo <= hi
    ensures |Interval(lo, hi)| == hi - lo
    decreases hi
  {
    if lo == hi {
      assert Interval(lo, hi) == {};
    } else {
      IntervalSize(lo, hi - 1);
      assert Interval(lo, hi) == Interval(lo, hi - 1) + {hi - 1};
    }
  }

  ghost function Pages(n: nat): set<nat> {
    Interval(0, n)
  }

  function PageAddress(i: nat): nat {
    MEMORY_START + i * PAGE_SIZE
  }

  /** The counter and the free set agree, and every page lies below the end of memory. */
  ghost predicate Valid(p: Pool) {
    && PageAddress(p.total) <= p.end <= MAX_MEMORY
    && p.free <= Pages(p.total)
    && p.used + |p.free| == p.total
  }

  ghost function UsedPages(p: Pool): set<nat> {
    Pages(p.total) - p.free
  }

  lemma UsedCount(p: Pool)
    requires Valid(p)
    ensures |UsedPages(p)| == p.used
  {
    IntervalSize(0, p.total);
    assert UsedPages(p) + p.free == Pages(p.total);
    assert |UsedPages(p) + p.free| == |UsedPages(p)| + |p.free|;
  }

  ghost function Least(s: set<nat>): (k: nat)
    requires s != {}
    ensures k in s && forall j :: j in s ==> k <= j
  {
    var x :| x in s;
    if s == {x} then x
    else
      assert s == {x} + (s - {x});
      var y := Least(s - {x});
      if x < y then x else y
  }

  lemma LeastUnique(s: set<nat>, k: nat)
    requires k in s && forall j :: j in s ==> k <= j
    ensures Least(s) == k
  {
  }

  // ---------------------------------------------------------------- steps

  /** `get_physical_page`: first fit, the page is zeroed; `None` is the null pointer. */
  ghost function Get(p: Pool): (r: (Pool, Option<nat>)) {
    if p.free == {} then (p, None)
    else
      var i := Least(p.free);
      (p.(free := p.free - {i}, used := p.used + 1, mem := Zeroed(p.mem, FIRST_FRAME + i)), Some(i))
  }

  /** The page a byte address names, if `free_physical_page` accepts it. */
  ghost function PageOf(p: Pool, address: nat): Option<nat> {
    if address < MEMORY_START || address >= p.end || address % PAGE_SIZE != 0 then None
    else
      var i := (address - MEMORY_START) / PAGE_SIZE;
      if i >= p.total then None else Some(i)
  }

  /** `free_physical_page`. */
  ghost function Release(p: Pool, address: nat): (r: Pool)
    requires Valid(p)
  {
    match PageOf(p, address)
    case None => p
    case Some(i) =>
      if i in p.free then p
      else
        assert p.used > 0 by { UsedCount(p); assert i in UsedPages(p); }
        p.(free := p.free + {i}, used := p.used - 1, mem := Zeroed(p.mem, FIRST_FRAME + i))
  }

  lemma GetValid(p: Pool)
    requires Valid(p)
    ensures Valid(Get(p).0)
    ensures Get(p).1.None? <==> p.used == p.total
    ensures Get(p).1.None? ==> Get(p).0 == p
  {
    if p.free != {} {
      var i := Least(p.free);
      assert p.free == (p.free - {i}) + {i};
    }
  }

  lemma PageOfAddress(p: Pool, i: nat)
    requires Valid(p) && i < p.total
    ensures PageOf(p, PageAddress(i)) == Some(i)
  {
  }

  lemma PageOfIsAddress(p: Pool, address: nat)
    ensures PageOf(p, address).Some? ==> PageAddress(PageOf(p, address).value) == address
  {
  }

  lemma ReleaseValid(p: Pool, address: nat)
    requires Valid(p)
    ensures Valid(Release(p, address))
  {
    PageOfIsAddress(p, address);
  }

  lemma GetIs(p: Pool, i: nat)
    requires Valid(p) && p.free != {} && i == Least(p.free)
    ensures Get(p) == (Pool(p.end, p.total, p.free - {i}, p.used + 1, Zeroed(p.mem, FIRST_FRAME + i)), Some(i))
    ensures Valid(Get(p).0) && PageAddress(i) < p.end && PageAddress(i) / PAGE_SIZE == FIRST_FRAME + i
  {
    GetValid(p);
  }

  lemma ReleaseIs(p: Pool, address: nat, i: nat)
    requires Valid(p) && PageOf(p, address) == Some(i) && i !in p.free
    ensures p.used > 0 && address / PAGE_SIZE == FIRST_FRAME + i
    ensures Release(p, address) == Pool(p.end, p.total, p.free + {i}, p.used - 1, Zeroed(p.mem, FIRST_FRAME + i))
    ensures Valid(Release(p, address))
  {
    UsedCount(p);
    assert i in UsedPages(p);
    ReleaseValid(p, address);
  }

  /**
   * `free_physical_page` on any address whatever: the page it names goes back, cleared, if that page
   * is in use; every other address, a page already free included, changes nothing.
   */
  lemma ReleaseEffect(p: Pool, address: nat)
    requires Valid(p)
    ensures forall i :: i in UsedPages(p) && address == 0x10_0000 + 0x1000 * i ==>
        p.used > 0
        && Release(p, address) == Pool(p.end, p.total, p.free + {i}, p.used - 1, p.mem[256 + i := ZeroFrame()])
    ensures (forall i :: i in UsedPages(p) ==> address != 0x10_0000 + 0x1000 * i) ==> Release(p, address) == p
  {
    PageOfIsAddress(p, address);
    forall i | i in UsedPages(p) && address == 0x10_0000 + 0x1000 * i
      ensures p.used > 0
      ensures Release(p, address) == Pool(p.end, p.total, p.free + {i}, p.used - 1, p.mem[256 + i := ZeroFrame()])
    {
      PageOfAddress(p, i);
      ReleaseIs(p, address, i);
    }
    if PageOf(p, address).Some? && PageOf(p, address).value !in p.free {
      assert PageOf(p, address).value in UsedPages(p);
    }
  }

  /** Taking a page and giving it back restores the free set and the counter. */
  lemma GetThenRelease(p: Pool)
    requires Valid(p) && p.free != {}
    ensures var (q, i) := Get(p);
      && Valid(q)
      && Release(q, PageAddress(i.value)) == p.(mem := Zeroed(p.mem, FIRST_FRAME + i.value))
  {
    var (q, i) := Get(p);
    GetValid(p);
    PageOfAddress(q, i.value);
    assert (p.free - {i.value}) + {i.value} == p.free;
    assert Zeroed(Zeroed(p.mem, FIRST_FRAME + i.value), FIRST_FRAME + i.value) == Zeroed(p.mem, FIRST_FRAME + i.value);
  }

  // ---------------------------------------------------------------- traces

  datatype Request = GetPage | FreePage(address: nat)

  ghost function Serve(p: Pool, op: Request): Pool
    requires Valid(p)
  {
    match op
    case GetPage => Get(p).0
    case FreePage(a) => Release(p, a)
  }

  lemma ServeValid(p: Pool, op: Request)
    requires Valid(p)
    ensures Valid(Serve(p, op))
  {
    match op
    case GetPage => GetValid(p);
    case FreePage(a) => ReleaseValid(p, a);
  }

  ghost function ServeAll(p: Pool, ops: seq<Request>): Pool
    requires Valid(p)
    decreases |ops|
  {
    if ops == [] then p
    else
      ServeValid(p, ops[0]);
      ServeAll(Serve(p, ops[0]), ops[1..])
  }

  /**
   * The pages a client holds, worked out only from what the calls returned: a page joins when it
   * is handed out and leaves when exactly its address is freed.
   */
  ghost function HeldStep(p: Pool, op: Request, held: set<nat>): set<nat> {
    match op
    case GetPage => if Get(p).1.Some? then held + {Get(p).1.value} else held
    case FreePage(a) => set i | i in held && PageAddress(i) != a
  }

  lemma HeldStepIsUsed(p: Pool, op: Request, held: set<nat>)
    requires Valid(p) && held == UsedPages(p)
    ensures HeldStep(p, op, held) == UsedPages(Serve(p, op))
  {
    if op.FreePage? {
      PageOfIsAddress(p, op.address);
      forall i | i in held && PageAddress(i) == op.address ensures PageOf(p, op.address) == Some(i) {
        PageOfAddress(p, i);
      }
    }
  }

  ghost function Held(p: Pool, ops: seq<Request>, held: set<nat>): set<nat>
    requires Valid(p)
    decreases |ops|
  {
    if ops == [] then held
    else
      ServeValid(p, ops[0]);
      Held(Serve(p, ops[0]), ops[1..], HeldStep(p, ops[0], held))
  }

  /**
   * Over every trace of gets and frees (invalid and double frees included) the free set is exactly
   * the complement of what the client holds, and `used_pages` is how many it holds.
   */
  lemma {:induction false} TraceRefinesHeldSet(p: Pool, ops: seq<Request>, held: set<nat>)
    requires Valid(p) && held == UsedPages(p)
    ensures var q := ServeAll(p, ops);
      && Valid(q) && q.total == p.total && q.end == p.end
      && Held(p, ops, held) == UsedPages(q)
      && q.used == |Held(p, ops, held)|
    decreases |ops|
  {
    if ops == [] {
      UsedCount(p);
    } else {
      ServeValid(p, ops[0]);
      HeldStepIsUsed(p, ops[0], held);
      TraceRefinesHeldSet(Serve(p, ops[0]), ops[1..], HeldStep(p, ops[0], held));
    }
  }

  /** Page `i` is handed out by `Get(q)`: lowest page outside `held`, zeroed, other frames untouched. */
  ghost predicate FreshPage(q: Pool, held: set<nat>, i: nat) {
    && i < q.total && i !in held
    && (forall j: nat :: j < i ==> j in held)
    && FrameAt(Get(q).0.mem, FIRST_FRAME + i) == ZeroFrame()
    && (forall f :: f != FIRST_FRAME + i ==> FrameAt(Get(q).0.mem, f) == FrameAt(q.mem, f))
  }

  lemma GetIsFresh(q: Pool)
    requires Valid(q)
    ensures Get(q).1.None? ==> UsedPages(q) == Pages(q.total)
    ensures Get(q).1.Some? ==> FreshPage(q, UsedPages(q), Get(q).1.value)
  {
    if q.free != {} {
      var i := Least(q.free);
      assert i in Pages(q.total);
      assert forall j: nat :: j < i ==> j in Pages(q.total) && j !in q.free;
    } else {
      assert UsedPages(q) == Pages(q.total);
    }
  }

  /** After any trace the next page handed out is the lowest one not held, and it is zero. */
  lemma TraceGetIsFresh(p: Pool, ops: seq<Request>, held: set<nat>)
    requires Valid(p) && held == UsedPages(p)
    ensures Get(ServeAll(p, ops)).1.None? ==> Held(p, ops, held) == Pages(p.total)
    ensures Get(ServeAll(p, ops)).1.Some? ==>
      FreshPage(ServeAll(p, ops), Held(p, ops, held), Get(ServeAll(p, ops)).1.value)
  {
    TraceRefinesHeldSet(p, ops, held);
    GetIsFresh(ServeAll(p, ops));
  }

  // ---------------------------------------------------------------- reserving a range

  /** The pages `mark_memory_range_used` covers: whole pages of the clipped range, the tail rounded down. */
  ghost function RangePages(p: Pool, start: nat, end: nat): set<nat> {
    var s := if start < MEMORY_START then MEMORY_START else start;
    var e := ClippedEnd(p, end);
    if s >= e then {}
    else Interval((s - MEMORY_START) / PAGE_SIZE, (e - MEMORY_START) / PAGE_SIZE) * Pages(p.total)
  }

  ghost function MarkUsed(p: Pool, start: nat, end: nat): Pool {
    var free' := p.free - RangePages(p, start, end);
    p.(free := free', used := p.used + |p.free - free'|)
  }

  /** The counter rises by exactly the number of pages newly taken. */
  lemma MarkUsedCount(p: Pool, start: nat, end: nat)
    ensures MarkUsed(p, start, end).used == p.used + |RangePages(p, start, end) * p.free|
    ensures MarkUsed(p, start, end).used + |MarkUsed(p, start, end).free| == p.used + |p.free|
  {
    var free' := p.free - RangePages(p, start, end);
    assert p.free - free' == RangePages(p, start, end) * p.free;
    assert p.free == free' + (p.free - free');
  }

  /** Marking keeps the agreement, takes exactly the range, and is idempotent. */
  lemma MarkUsedValid(p: Pool, start: nat, end: nat)
    requires Valid(p)
    ensures Valid(MarkUsed(p, start, end))
    ensures UsedPages(MarkUsed(p, start, end)) == UsedPages(p) + RangePages(p, start, end)
    ensures MarkUsed(MarkUsed(p, start, end), start, end) == MarkUsed(p, start, end)
  {
    MarkUsedCount(p, start, end);
    assert UsedPages(MarkUsed(p, start, end)) == UsedPages(p) + RangePages(p, start, end) by {
      UsedSplit(p, RangePages(p, start, end));
    }
    MarkTwice(p, start, end);
  }

  lemma UsedSplit(p: Pool, range: set<nat>)
    requires range <= Pages(p.total)
    ensures Pages(p.total) - (p.free - range) == (Pages(p.total) - p.free) + range
  {
  }

  lemma MarkTwice(p: Pool, start: nat, end: nat)
    ensures MarkUsed(MarkUsed(p, start, end), start, end) == MarkUsed(p, start, end)
  {
    var range := RangePages(p, start, end);
    var q := MarkUsed(p, start, end);
    assert RangePages(q, start, end) == range;
    assert q.free - range == q.free;
    assert q.free - q.free == {};
  }

  /** A range whose clipped form is empty reserves nothing. */
  lemma MarkNothing(p: Pool, start: nat, end: nat)
    requires end <= MEMORY_START || start >= ClippedEnd(p, end) || ClippedEnd(p, end) <= MEMORY_START
    ensures MarkUsed(p, start, end) == p
  {
    assert RangePages(p, start, end) == {};
    assert p.free - {} == p.free && p.free - p.free == {};
  }

  /** Exactly the managed pages that end after `start` and no later than `end`. */
  lemma RangeIs(p: Pool, start: nat, end: nat, i: nat)
    requires Valid(p)
    ensures i in RangePages(p, start, end)
      <==> i < p.total && start < 0x10_0000 + 0x1000 * (i + 1) <= end
  {
    var s := if start < MEMORY_START then MEMORY_START else start;
    var e := ClippedEnd(p, end);
    if s < e {
      PageOrder(i, s - MEMORY_START);
      PageOrder(i + 1, e - MEMORY_START);
    }
  }

  lemma PageOrder(i: nat, x: nat)
    ensures x / PAGE_SIZE <= i <==> x < PAGE_SIZE * (i + 1)
    ensures i <= x / PAGE_SIZE <==> PAGE_SIZE * i <= x
  {
  }

  /** Removing the pages between the two rounded bounds is what marking a range does. */
  lemma MarkIs(p: Pool, start: nat, end: nat, first: nat, last: nat,
               free': set<nat>, used': nat)
    requires p.free <= Pages(p.total)
    requires var s := if start < MEMORY_START then MEMORY_START else start;
      var e := ClippedEnd(p, end);
      s < e && first == (s - MEMORY_START) / PAGE_SIZE && last == (e - MEMORY_START) / PAGE_SIZE
    requires (forall j :: j in free' <==> j in p.free && !(first <= j < last)) && used' + |free'| == p.used + |p.free|
    ensures MarkUsed(p, start, end) == Pool(p.end, p.total, free', used', p.mem)
  {
    assert p.free - RangePages(p, start, end) == free';
    MarkUsedCount(p, start, end);
  }

  /** With every page free the counter agrees only at zero. */
  lemma AllFree(p: Pool)
    requires PageAddress(p.total) <= p.end <= MAX_MEMORY && p.free == Pages(p.total)
    ensures Valid(p) <==> p.used == 0
  {
    IntervalSize(0, p.total);
  }

  function ClippedEnd(p: Pool, end: nat): nat {
    if end > p.end then p.end else end
  }

  /** Page `i` shares a byte with the clipped range. */
  ghost predicate Overlaps(p: Pool, i: nat, start: nat, end: nat) {
    i < p.total && start < PageAddress(i + 1) && PageAddress(i) < ClippedEnd(p, end) && start < ClippedEnd(p, end)
  }

  lemma OverlapCovered(p: Pool, i: nat, start: nat, end: nat)
    requires Overlaps(p, i, start, end)
    requires ClippedEnd(p, end) % PAGE_SIZE == 0 || ClippedEnd(p, end) >= PageAddress(p.total)
    ensures i in RangePages(p, start, end)
  {
    var s := if start < MEMORY_START then MEMORY_START else start;
    var e := ClippedEnd(p, end);
    assert (s - MEMORY_START) / PAGE_SIZE <= i;
    assert i < (e - MEMORY_START) / PAGE_SIZE;
  }

  /** Reserving takes no page the range does not touch. */
  lemma MarkTakesOnlyOverlap(p: Pool, start: nat, end: nat, i: nat)
    requires i in RangePages(p, start, end)
    ensures Overlaps(p, i, start, end)
  {
  }

  lemma TailLost(p: Pool, start: nat, end: nat) returns (last: nat)
    requires start < ClippedEnd(p, end) && MEMORY_START < ClippedEnd(p, end)
    requires ClippedEnd(p, end) % PAGE_SIZE != 0 && ClippedEnd(p, end) < PageAddress(p.total)
    ensures Overlaps(p, last, start, end) && last !in RangePages(p, start, end)
  {
    last := (ClippedEnd(p, end) - MEMORY_START) / PAGE_SIZE;
  }

  /**
   * Rounding the tail down loses a page: every managed page the range overlaps is reserved exactly
   * when the clipped end sits on a page boundary or past the last managed page.
   */
  lemma MarkCoversIff(p: Pool, start: nat, end: nat)
    ensures var e := ClippedEnd(p, end);
      (forall i: nat :: Overlaps(p, i, start, end) ==> i in RangePages(p, start, end))
      <==> (start >= e || e <= MEMORY_START || e % PAGE_SIZE == 0 || e >= PageAddress(p.total))
  {
    var e := ClippedEnd(p, end);
    if start < e && MEMORY_START < e {
      if e % PAGE_SIZE != 0 && e < PageAddress(p.total) {
        var last := TailLost(p, start, end);
      } else {
        forall i: nat | Overlaps(p, i, start, end) ensures i in RangePages(p, start, end) {
          OverlapCovered(p, i, start, end);
        }
      }
    }
  }

  // ---------------------------------------------------------------- contiguous runs

  ghost predicate FreeWindow(free: set<nat>, start: nat, count: nat) {
    forall j :: start <= j < start + count ==> j in free
  }
}
