/** What holds over every run from boot, in absolute terms. */
module KernelRuns {
  import opened Words
  import opened PhysicalMemory
  import opened PagePool
  import opened PageTables
  import opened Mappings
  import opened KernelPaging
  import opened Processes
  import opened KernelSystem

  // ---------------------------------------------------------------- the translations boot leaves behind

  /** The paging state between `Init_Paging` and `InitProcessManager`. */
  ghost function PagingAfterInit(p: Pool): PageState
    requires Booted(p)
  {
    BootGood(p);
    InitPaging(BootPaging(p)).0
  }

  /** `InitProcessManager` only takes free pages, so the page tables stay as `Init_Paging` left them. */
  lemma BootKeepsTables(p: Pool, slots: seq<Process>, idleEntry: U64)
    requires Booted(p) && |slots| == MAX_PROCESSES
    ensures var st, b := PagingAfterInit(p), Boot(p, slots, idleEntry);
      && Sound(st) && b.paging == WithPool(st, PoolOf(b)) && PoolOf(b).free <= st.space.pool.free
      && (forall f: nat, i: nat :: f in st.space.tables && i < ENTRIES ==>
            Entry(MemoryOf(b), f, i) == Entry(st.space.pool.mem, f, i))
  {
    BootGood(p);
    InitPagingTranslation(BootPaging(p), 0);
    var st := PagingAfterInit(p);
    var t0 := Table(ResetAll(slots), None, 1, 0);
    CreatePages(st.space.pool, t0, KernelTable(st), idleEntry);
    PoolSwap(st, Create(st.space.pool, t0, KernelTable(st), idleEntry).0);
  }

  lemma AllPagesFree(p: Pool)
    requires Booted(p)
    ensures |p.free| == p.total
  {
    IntervalSize(0, p.total);
  }

  /** Every address right after boot, whether or not there was memory for the kernel window. */
  lemma BootTranslation(p: Pool, slots: seq<Process>, idleEntry: U64, va: U64)
    requires Booted(p) && |slots| == MAX_PROCESSES
    ensures var b := Boot(p, slots, idleEntry);
      Walk(MemoryOf(b), b.paging.cr3, va) ==
        if va < 0x20_0000 then Mapped(va, Rights(true, false))
        else if p.total >= 3 && InKernelWindow(va) then Mapped(va - KERNEL_BASE, Rights(true, false))
        else Fault
  {
    var b, st := Boot(p, slots, idleEntry), PagingAfterInit(p);
    BootKeepsTables(p, slots, idleEntry);
    WalkKeeps(st.space.pool.mem, MemoryOf(b), st.space.tables, st.cr3, 0, va, ALL_RIGHTS, 7);
    BootGood(p);
    AllPagesFree(p);
    BootWalk(p.mem, va);
    BootRights(p.mem, va);
    InitPagingTranslation(BootPaging(p), va);
    BootOutcome(BootPaging(p));
  }

  /** The 2 MB block a leaf maps is the one the shortcut names. */
  predicate LeafMatchesShortcut(leaf: U64, va: U64) {
    LeafNames(leaf, GetPhysicalAddress(va))
  }

  /** The leaf maps onto the 2 MB block of physical address `a`. */
  predicate LeafNames(leaf: U64, a: U64) {
    Present(leaf) && leaf % TWO_52 / 0x20_0000 == a / 0x20_0000
  }

  lemma LeafMeetsShortcut(leaf: U64, va: U64, r: Rights)
    ensures var t := LeafTranslation(leaf, 2, va, r);
      t.Mapped? && t.address == GetPhysicalAddress(va) <==> LeafMatchesShortcut(leaf, va)
  {
    BlockArithmetic(leaf % TWO_52, GetPhysicalAddress(va));
    assert GetPhysicalAddress(va) % 0x20_0000 == va % 0x20_0000;
  }

  lemma BlockArithmetic(e: nat, a: nat)
    ensures e - e % 0x20_0000 + a % 0x20_0000 == a <==> e / 0x20_0000 == a / 0x20_0000
  {
  }

  /**
   * `get_physical_address` in every state reachable from boot: it agrees with the hardware exactly
   * where the last mapping of the address is onto the block the shortcut names, or, with no mapping
   * since boot, on the first 2 MB and on the kernel window if that was set up.
   */
  lemma ShortcutOverRuns(p: Pool, slots: seq<Process>, idleEntry: U64, ops: seq<Op>, va: U64)
    requires Booted(p) && |slots| == MAX_PROCESSES
    ensures Inv(Boot(p, slots, idleEntry))
    ensures var b := Boot(p, slots, idleEntry);
      var s := Run(b, ops);
      var t := Walk(MemoryOf(s), s.paging.cr3, va);
      t.Mapped? && t.address == GetPhysicalAddress(va) <==>
        Canonical(va) && match LastLeaf(b, ops, va) {
          case Some(leaf) => LeafMatchesShortcut(leaf, va)
          case None => va < 0x20_0000 || (p.total >= 3 && InKernelWindow(va))
        }
  {
    var b := Boot(p, slots, idleEntry);
    BootInv(p, slots, idleEntry);
    if Canonical(va) {
      RunTranslation(b, ops, va);
      BootTranslation(p, slots, idleEntry, va);
      if LastLeaf(b, ops, va).Some? {
        LeafMeetsShortcut(LastLeaf(b, ops, va).value, va, InheritedRights(MemoryOf(b), b.paging.cr3, va, 7));
      }
    }
  }

  /**
   * Where the allocator's own addresses work: page `i` is found at its physical address exactly if it
   * lies below 2 MB, or if the last mapping over that address is onto the page's own block.
   */
  lemma PageAtOwnAddress(p: Pool, slots: seq<Process>, idleEntry: U64, ops: seq<Op>, i: nat)
    requires Booted(p) && |slots| == MAX_PROCESSES && i < p.total
    ensures Inv(Boot(p, slots, idleEntry)) && PageAddress(i) < 0x1_0000_0000
    ensures var b := Boot(p, slots, idleEntry);
      var s := Run(b, ops);
      var t := Walk(MemoryOf(s), s.paging.cr3, PageAddress(i));
      t.Mapped? && t.address == PageAddress(i) <==>
        match LastLeaf(b, ops, PageAddress(i)) {
          case Some(leaf) => LeafNames(leaf, PageAddress(i))
          case None => i < 256
        }
  {
    ShortcutOverRuns(p, slots, idleEntry, ops, PageAddress(i));
  }

  // ---------------------------------------------------------------- the entries boot leaves behind

  /** The boot entries that lead to the first 2 MB are still in place, and user-inaccessible. */
  lemma BootEntries(p: Pool, slots: seq<Process>, idleEntry: U64)
    requires Booted(p) && |slots| == MAX_PROCESSES
    ensures var b := Boot(p, slots, idleEntry);
      && Entry(MemoryOf(b), b.paging.cr3, 0) == 0x2003 && Entry(MemoryOf(b), 2, 0) == 0x3003
      && (forall i: nat :: 1 <= i < 511 ==> Entry(MemoryOf(b), b.paging.cr3, i) == 0)
  {
    var st := PagingAfterInit(p);
    BootKeepsTables(p, slots, idleEntry);
    InitEntries(p);
  }

  lemma InitEntries(p: Pool)
    requires Booted(p)
    ensures var st := PagingAfterInit(p);
      && st.cr3 in st.space.tables && 2 in st.space.tables
      && Entry(st.space.pool.mem, st.cr3, 0) == 0x2003 && Entry(st.space.pool.mem, 2, 0) == 0x3003
      && (forall i: nat :: 1 <= i < 511 ==> Entry(st.space.pool.mem, st.cr3, i) == 0)
  {
    BootGood(p);
    var s := BootPaging(p).space;
    if Get(p).1.Some? {
      var (s1, root) := NewRoot(s, 1);
      NewRootGood(s, 1);
      NewRootAgrees(s, 1);
      KernelWindowEntries(s1, root);
    }
  }

  /** Setting up the kernel window leaves the lower PML4 slots and the boot PDPT alone. */
  lemma KernelWindowEntries(s: Space, root: nat)
    requires Good(s, root) && 2 in s.tables && s.tables[2] == [0]
    ensures var s' := Install(s, root, KERNEL_BASE, 3, KERNEL_LEAF).0;
      && root in s'.tables && 2 in s'.tables
      && Entry(s'.pool.mem, 2, 0) == Entry(s.pool.mem, 2, 0)
      && (forall i: nat :: i < 511 ==> Entry(s'.pool.mem, root, i) == Entry(s.pool.mem, root, i))
  {
    KernelPath();
    assert ([0] + [0])[0] == 0;
    InstallKeepsEntry(s, root, KERNEL_BASE, 3, KERNEL_LEAF, 2, 0);
    forall i: nat | i < 511
      ensures root in Install(s, root, KERNEL_BASE, 3, KERNEL_LEAF).0.tables
      ensures Entry(Install(s, root, KERNEL_BASE, 3, KERNEL_LEAF).0.pool.mem, root, i) == Entry(s.pool.mem, root, i)
    {
      assert [] + [i] == [i];
      InstallKeepsEntry(s, root, KERNEL_BASE, 3, KERNEL_LEAF, root, i);
    }
    ReachLabels(s, root, KERNEL_BASE, 3);
  }

  lemma KernelPath()
    ensures PathOf(KERNEL_BASE, 1) == [511] && PathOf(KERNEL_BASE, 2) == [511, 510]
  {
    KernelIndices();
    assert PathOf(KERNEL_BASE, 1) == [511];
  }

  /**
   * One call is enough to break the shortcut on the whole first 2 MB: a mapping of any address there
   * onto any aligned base but 0.
   */
  lemma RemapBreaksShortcut(p: Pool, slots: seq<Process>, idleEntry: U64, pa: U64, flags: U64, va: U64, va': U64)
    requires Booted(p) && |slots| == MAX_PROCESSES && p.total >= 1
    requires 0 < pa < TWO_52 && pa % 0x20_0000 == 0 && flags < 0x1000 && Present(flags)
    requires va < 0x20_0000 && va' < 0x20_0000
    ensures Inv(Boot(p, slots, idleEntry))
    ensures var s := Step(Boot(p, slots, idleEntry), MapOp(va, pa, flags));
      && Walk(MemoryOf(s), s.paging.cr3, va') == Mapped(pa + va', Rights(Writable(flags), false))
      && GetPhysicalAddress(va') == va'
  {
    var b := Boot(p, slots, idleEntry);
    BootInv(p, slots, idleEntry);
    BootEntries(p, slots, idleEntry);
    RootExists(p, slots, idleEntry);
    LowRights(MemoryOf(b), b.paging.cr3, va);
    LowRights(MemoryOf(b), b.paging.cr3, va');
    RemapLow(b.paging, pa, flags, va, va');
  }

  lemma RemapLow(st: PageState, pa: U64, flags: U64, va: U64, va': U64)
    requires Sound(st) && st.kernelPml4.Some? && Missing(st.space.pool.mem, st.cr3, va) == 0
    requires InheritedRights(st.space.pool.mem, st.cr3, va', 7) == Rights(true, false)
    requires pa < TWO_52 && pa % 0x20_0000 == 0 && flags < 0x1000 && Present(flags)
    requires va < 0x20_0000 && va' < 0x20_0000
    ensures MapPage(st, va, pa, flags).0.cr3 == st.cr3
    ensures Walk(MapPage(st, va, pa, flags).0.space.pool.mem, st.cr3, va')
      == Mapped(pa + va', Rights(Writable(flags), false))
  {
    assert va / 0x20_0000 == va' / 0x20_0000 && va' % 0x20_0000 == va';
    MapsBlock(st, va, pa, flags, va');
  }

  /** A call with enough pages maps the whole block of its address. */
  lemma MapsBlock(st: PageState, va: U64, pa: U64, flags: U64, va': U64)
    requires Sound(st) && st.kernelPml4.Some? && Canonical(va) && va / 0x20_0000 == va' / 0x20_0000
    requires Missing(st.space.pool.mem, st.cr3, va) <= |st.space.pool.free|
    requires pa < TWO_52 && pa % 0x20_0000 == 0 && flags < 0x1000 && Present(flags)
    ensures MapPage(st, va, pa, flags).0.cr3 == st.cr3
    ensures Walk(MapPage(st, va, pa, flags).0.space.pool.mem, st.cr3, va')
      == Mapped(pa + va' % 0x20_0000, Meet(InheritedRights(st.space.pool.mem, st.cr3, va', 7), flags))
  {
    MapPageOutcome(st, va, pa, flags);
    MapPageMapsBlock(st, va, pa, flags, va');
  }

  lemma LowRights(m: Memory, root: nat, va: U64)
    requires Entry(m, root, 0) == 0x2003 && Entry(m, 2, 0) == 0x3003 && va < 0x20_0000
    ensures InheritedRights(m, root, va, 7) == Rights(true, false) && Missing(m, root, va) == 0
  {
    assert Index(va, 0) == 0 && Index(va, 1) == 0;
    var r := Rights(true, false);
    assert RightsFrom(m, 3, 2, va, r, 7) == r;
    assert RightsFrom(m, 2, 1, va, r, 7) == r;
  }

  lemma RootExists(p: Pool, slots: seq<Process>, idleEntry: U64)
    requires Booted(p) && |slots| == MAX_PROCESSES
    ensures Boot(p, slots, idleEntry).paging.kernelPml4.Some? <==> p.total >= 1
  {
    BootKeepsTables(p, slots, idleEntry);
    BootGood(p);
    AllPagesFree(p);
  }

  // ---------------------------------------------------------------- the words boot and the first mapping write

  /** The tables of `Init_Paging`, word for word: the PML4, PDPT and PD go to pages 0, 1 and 2. */
  ghost predicate KernelTables(m: Memory) {
    && (forall j: nat :: j < ENTRIES ==>
          Entry(m, 256, j) == (if j == 0 then 0x2003 else if j == 511 then 0x10_1003 else 0))
    && (forall j: nat :: j < ENTRIES ==> Entry(m, 257, j) == (if j == 510 then 0x10_2003 else 0))
    && (forall j: nat :: j < ENTRIES ==> Entry(m, 258, j) == (if j == 0 then 0x183 else 0))
  }

  lemma TablesAfterInit(p: Pool)
    requires Booted(p) && p.total >= 3
    ensures var st := PagingAfterInit(p);
      && st.cr3 == 256 && st.kernelPml4 == Some(256) && st.space.pool.free == Interval(3, p.total)
      && KernelTables(st.space.pool.mem)
  {
    BootGood(p);
    LowestOf(0, p.total);
    var p0, p1, p2 := InitPagingWrites(BootPaging(p));
    FirstRoot(p, p0);
    var (st, ok) := InitPaging(BootPaging(p));
    WindowTables(p0, p1, p2, st.space.pool, ok, p.total);
  }

  /** The kernel window under a PML4 that holds only the boot entry. */
  lemma WindowTables(p: Pool, p1: Pool, p2: Pool, q: Pool, ok: bool, n: nat)
    requires InstallSteps(p, p1, p2, q, ok, 256, 511, 510, 0, 3, 0x183)
    requires p.free == Interval(1, n) && 3 <= n <= 0x10_0000
    requires forall j: nat :: j < ENTRIES ==> Entry(p.mem, 256, j) == (if j == 0 then 0x2003 else 0)
    ensures KernelTables(q.mem) && q.free == Interval(3, n)
  {
    TwoTables(p, p1, p2, q, ok, 256, 511, 510, 0, 3, 0x183, 1, n);
  }

  /** The new PML4 on page 0: the boot entry and nothing else. */
  lemma FirstRoot(p: Pool, q: Pool)
    requires Booted(p) && p.total >= 1 && RootCopied(p, q, 1)
    ensures q.free == Interval(1, p.total) && p.total <= 0x10_0000
    ensures forall j: nat :: j < ENTRIES ==> Entry(q.mem, 256, j) == (if j == 0 then 0x2003 else 0)
  {
    LowestOf(0, p.total);
  }

  /** After boot with at least five pages: the tables in place, two stacks taken, the rest free. */
  lemma BootLayoutIs(p: Pool, slots: seq<Process>, idleEntry: U64)
    requires Booted(p) && |slots| == MAX_PROCESSES && p.total >= 5
    ensures var b := Boot(p, slots, idleEntry);
      && b.paging.cr3 == 256 && b.paging.kernelPml4 == Some(256)
      && KernelTables(MemoryOf(b)) && PoolOf(b).free == Interval(5, p.total)
      && b.procs.slots[0].kernelStack == 0x10_3000 && b.procs.slots[0].userStack == 0x10_4000
  {
    var st := PagingAfterInit(p);
    BootGood(p);
    InitPagingTranslation(BootPaging(p), 0);
    TablesAfterInit(p);
    FourthAndFifth(p.total);
    IdleStacks(st.space.pool, slots, KernelTable(st), idleEntry, 3, 4);
    FramesKept(st.space.pool, slots, KernelTable(st), idleEntry);
    TablesKept(st.space.pool, Init(st.space.pool, slots, KernelTable(st), idleEntry).0, p.total);
  }

  lemma FourthAndFifth(n: nat)
    requires n >= 5
    ensures var free := Interval(3, n);
      && |free| >= 2 && Least(free) == 3 && free != {3} && Least(free - {3}) == 4 && free - {3, 4} == Interval(5, n)
  {
    LowestOf(3, n);
    LowestOf(4, n);
    TwoLeft(n);
    assert Interval(3, n) - {3, 4} == Interval(3, n) - {3} - {4};
  }

  /** Taking pages from page 3 on leaves the kernel's tables as they are. */
  lemma TablesKept(p: Pool, q: Pool, n: nat)
    requires KernelTables(p.mem) && p.free == Interval(3, n) && OnlyFreeFrames(p, q)
    ensures KernelTables(q.mem)
  {
    assert 0 !in p.free && 1 !in p.free && 2 !in p.free;
    forall g: nat, j: nat | 256 <= g <= 258 && j < ENTRIES ensures Entry(q.mem, g, j) == Entry(p.mem, g, j) {
      assert FrameAt(q.mem, g) == FrameAt(p.mem, g);
    }
  }

  lemma TwoLeft(n: nat)
    requires n >= 5
    ensures |Interval(3, n)| >= 2 && Interval(3, n) != {3}
  {
    IntervalSize(3, n);
    assert 4 in Interval(3, n);
  }

  /** The idle process takes the two lowest free pages. */
  lemma IdleStacks(p: Pool, slots: seq<Process>, pageTable: nat, idleEntry: U64, k: nat, u: nat)
    requires Valid(p) && |slots| == MAX_PROCESSES && |p.free| >= 2
    requires k == Least(p.free) && p.free != {k} && u == Least(p.free - {k})
    ensures var (q, t) := Init(p, slots, pageTable, idleEntry);
      && |t.slots| == MAX_PROCESSES && q.free == p.free - {k, u}
      && t.slots[0].kernelStack == 0x10_0000 + 0x1000 * k && t.slots[0].userStack == 0x10_0000 + 0x1000 * u
  {
    var t0 := Table(ResetAll(slots), None, 1, 0);
    assert FirstUnused(t0.slots, 0) == 0;
    InitShape(p, slots, pageTable, idleEntry);
    var proc := CreateShape(p, t0, pageTable, idleEntry);
    CreateStacks(p, t0, pageTable, idleEntry);
    CreatePages(p, t0, pageTable, idleEntry);
  }

  /** Initialising the process manager leaves the frames of pages in use alone. */
  lemma FramesKept(p: Pool, slots: seq<Process>, pageTable: nat, idleEntry: U64)
    requires Valid(p) && |slots| == MAX_PROCESSES
    ensures OnlyFreeFrames(p, Init(p, slots, pageTable, idleEntry).0)
  {
    var t0 := Table(ResetAll(slots), None, 1, 0);
    InitShape(p, slots, pageTable, idleEntry);
    CreatePages(p, t0, pageTable, idleEntry);
  }

  /** The idle process after boot with at least five pages. */
  lemma BootIdle(p: Pool, slots: seq<Process>, idleEntry: U64)
    requires Booted(p) && |slots| == MAX_PROCESSES && p.total >= 5
    ensures var t := Boot(p, slots, idleEntry).procs;
      var idle := t.slots[0];
      && t.current == Some(0) && t.count == 1 && t.nextPid == 2
      && StartsAt(idle, idleEntry) && idle.context.rip == idleEntry && idle.context.rsp == 0x10_4000
      && idle.pid == 1 && idle.state == Ready && idle.parent == None
      && idle.brk == 0x40_0000 && idle.pageTable == 0x10_0000
  {
    var st := PagingAfterInit(p);
    BootLayoutIs(p, slots, idleEntry);
    TablesAfterInit(p);
    BootGood(p);
    InitPagingTranslation(BootPaging(p), 0);
    TwoLeft(p.total);
    InitOrdered(st.space.pool, slots, KernelTable(st), idleEntry);
    assert SlotOrdered(Boot(p, slots, idleEntry).procs.slots[0], 0);
  }

  lemma UserTables(p: Pool, p1: Pool, p2: Pool, q: Pool, ok: bool, i: nat, j: nat, k: nat, leaf: U64, n: nat)
    requires 1 <= i <= 510 && j < ENTRIES && k < ENTRIES
    requires InstallSteps(p, p1, p2, q, ok, 256, i, j, k, 7, leaf) && KernelTables(p.mem)
    requires p.free == Interval(5, n) && 7 <= n <= 0x10_0000
    ensures q.free == Interval(7, n)
    ensures Entry(q.mem, 256, i) == 0x10_5007 && Entry(q.mem, 261, j) == 0x10_6007 && Entry(q.mem, 262, k) == leaf
  {
    assert Entry(p.mem, 256, i) == 0;
    TwoTables(p, p1, p2, q, ok, 256, i, j, k, 7, leaf, 5, n);
  }

  lemma PagesFit(p: Pool)
    requires Valid(p)
    ensures p.total <= 0x10_0000
  {
  }

  /** The first mapping under an empty PML4 slot, word for word: two tables with user rights and the leaf. */
  lemma FirstMappingWords(p: Pool, slots: seq<Process>, idleEntry: U64, va: U64, pa: U64, flags: U64)
    requires Booted(p) && |slots| == MAX_PROCESSES && p.total >= 7 && 1 <= Index(va, 0) <= 510
    ensures Inv(Boot(p, slots, idleEntry))
    ensures var s := Step(Boot(p, slots, idleEntry), MapOp(va, pa, flags));
      && PoolOf(s).free == Interval(7, p.total)
      && Entry(MemoryOf(s), 256, Index(va, 0)) == 0x10_5007
      && Entry(MemoryOf(s), 261, Index(va, 1)) == 0x10_6007
      && Entry(MemoryOf(s), 262, Index(va, 2)) == BitOr(BitOr(pa, flags), 0x80)
  {
    var b := Boot(p, slots, idleEntry);
    BootInv(p, slots, idleEntry);
    BootLayoutIs(p, slots, idleEntry);
    var p1, p2 := MapPageWrites(b.paging, va, pa, flags);
    var (st, ok) := MapPage(b.paging, va, pa, flags);
    PagesFit(PoolOf(b));
    UserTables(PoolOf(b), p1, p2, st.space.pool, ok, Index(va, 0), Index(va, 1), Index(va, 2),
               BitOr(BitOr(pa, flags), 0x80), p.total);
  }

  // ---------------------------------------------------------------- who can reach what from user mode

  /** PML4 slot `i` gives no user access, and no table can be made there that would. */
  ghost predicate SupervisorSlot(st: PageState, i: nat)
    requires i < ENTRIES
  {
    var e := Entry(st.space.pool.mem, st.cr3, i);
    if Present(e) then !User(e) else st.space.pool.free == {}
  }

  lemma CreateKeepsSlot(s: System, entry: U64, i: nat)
    requires Inv(s) && i < ENTRIES && SupervisorSlot(s.paging, i)
    ensures var q := Create(PoolOf(s), s.procs, KernelTable(s.paging), entry).0;
      SupervisorSlot(WithPool(s.paging, q), i)
  {
    CreatePages(PoolOf(s), s.procs, KernelTable(s.paging), entry);
    PoolSwap(s.paging, Create(PoolOf(s), s.procs, KernelTable(s.paging), entry).0);
  }

  lemma MapKeepsSlot(s: System, va: U64, pa: U64, flags: U64, i: nat)
    requires Inv(s) && i < ENTRIES && SupervisorSlot(s.paging, i)
    ensures SupervisorSlot(MapPage(s.paging, va, pa, flags).0, i)
  {
    if s.paging.kernelPml4.Some? {
      InstallKeepsEntry(s.paging.space, s.paging.cr3, va, 7, PageLeaf(pa, flags), s.paging.cr3, i);
    }
  }

  lemma StepKeepsSlot(s: System, op: Op, i: nat)
    requires Inv(s) && i < ENTRIES && SupervisorSlot(s.paging, i)
    ensures SupervisorSlot(Step(s, op).paging, i)
  {
    match op
    case MapOp(va, pa, flags) => MapKeepsSlot(s, va, pa, flags, i);
    case CreateOp(entry) => CreateKeepsSlot(s, entry, i);
    case ForkOp => CreateKeepsSlot(s, s.procs.slots[s.procs.current.value].context.rip, i);
    case ExitOp(status, sp) =>
    case ScheduleOp(sp) =>
    case BrkOp(address) =>
  }

  lemma {:induction false} RunKeepsSlot(s: System, ops: seq<Op>, i: nat)
    requires Inv(s) && i < ENTRIES && SupervisorSlot(s.paging, i)
    ensures SupervisorSlot(Run(s, ops).paging, i) && Run(s, ops).paging.cr3 == s.paging.cr3
    decreases |ops|
  {
    if ops != [] {
      StepInv(s, ops[0]);
      StepKeepsSlot(s, ops[0], i);
      StepTranslation(s, ops[0], 0);
      RunKeepsSlot(Step(s, ops[0]), ops[1..], i);
    }
  }

  /** The slot of the boot mapping and the slot of the kernel window start out closed to user mode. */
  lemma BootSlots(p: Pool, slots: seq<Process>, idleEntry: U64)
    requires Booted(p) && |slots| == MAX_PROCESSES
    ensures SupervisorSlot(Boot(p, slots, idleEntry).paging, 0) && SupervisorSlot(Boot(p, slots, idleEntry).paging, 511)
  {
    BootEntries(p, slots, idleEntry);
    BootKeepsTables(p, slots, idleEntry);
    KernelSlotAfterInit(p);
  }

  lemma KernelSlotAfterInit(p: Pool)
    requires Booted(p)
    ensures var st := PagingAfterInit(p);
      var e := Entry(st.space.pool.mem, st.cr3, 511);
      if Present(e) then !User(e) else st.space.pool.free == {}
  {
    BootGood(p);
    var s := BootPaging(p).space;
    if Get(p).1.Some? {
      var (s1, root) := NewRoot(s, 1);
      NewRootGood(s, 1);
      NewRootAgrees(s, 1);
      KernelIndices();
      KernelSlotMade(s1, root);
    }
  }

  /** Installing the kernel window from an absent slot makes a supervisor slot, or finds no page for it. */
  lemma KernelSlotMade(s: Space, root: nat)
    requires Good(s, root) && Entry(s.pool.mem, root, 511) == 0
    ensures var s' := Install(s, root, KERNEL_BASE, 3, KERNEL_LEAF).0;
      var e := Entry(s'.pool.mem, root, 511);
      if Present(e) then !User(e) else s'.pool.free == {}
  {
    KernelIndices();
    var (s1, t1) := EnsureTable(s, root, root, 511, 3);
    EnsureTableGood(s, root, root, 511, 3);
    TopEntryMade(s, root);
    if t1.Some? {
      var (s2, t2) := EnsureTable(s1, root, t1.value, 510, 3);
      EnsureTableGood(s1, root, t1.value, 510, 3);
      EnsureKeepsEntry(s1, root, t1.value, 510, 3, root, 511);
    }
  }

  lemma TopEntryMade(s: Space, root: nat)
    requires Good(s, root) && Entry(s.pool.mem, root, 511) == 0
    ensures var (s1, t1) := EnsureTable(s, root, root, 511, 3);
      var e := Entry(s1.pool.mem, root, 511);
      if t1.Some? then Present(e) && !User(e) else e == 0 && s1.pool.free == {}
  {
    var t1 := EnsureTable(s, root, root, 511, 3).1;
    if t1.Some? {
      LinkAgrees(s, root, root, 511, 3);
      LinkEntryBits(t1.value, 3);
    }
  }

  /**
   * Over every run from boot, whatever is mapped with whatever flags, only addresses under PML4
   * slots 1 to 510 are ever accessible from user mode.
   */
  lemma UserOnlyInMiddleSlots(p: Pool, slots: seq<Process>, idleEntry: U64, ops: seq<Op>, va: U64)
    requires Booted(p) && |slots| == MAX_PROCESSES
    ensures Inv(Boot(p, slots, idleEntry))
    ensures var s := Run(Boot(p, slots, idleEntry), ops);
      var t := Walk(MemoryOf(s), s.paging.cr3, va);
      t.Mapped? && t.rights.user ==> 1 <= Index(va, 0) <= 510
  {
    var b := Boot(p, slots, idleEntry);
    BootInv(p, slots, idleEntry);
    BootSlots(p, slots, idleEntry);
    RunKeepsSlot(b, ops, 0);
    RunKeepsSlot(b, ops, 511);
    UserNeedsMiddle(Run(b, ops).paging, va);
  }

  lemma UserNeedsMiddle(st: PageState, va: U64)
    requires SupervisorSlot(st, 0) && SupervisorSlot(st, 511)
    ensures var t := Walk(st.space.pool.mem, st.cr3, va);
      t.Mapped? && t.rights.user ==> 1 <= Index(va, 0) <= 510
  {
    var t := Walk(st.space.pool.mem, st.cr3, va);
    if t.Mapped? && t.rights.user {
      UserFromTop(st.space.pool.mem, st.cr3, 0, va, ALL_RIGHTS);
    }
  }

  /**
   * The exact user-accessible addresses over every run from boot: those under PML4 slots 1 to 510
   * whose last mapping is present and asks for user access.
   */
  lemma UserAccessOverRuns(p: Pool, slots: seq<Process>, idleEntry: U64, ops: seq<Op>, va: U64)
    requires Booted(p) && |slots| == MAX_PROCESSES
    ensures Inv(Boot(p, slots, idleEntry))
    ensures var b := Boot(p, slots, idleEntry);
      var s := Run(b, ops);
      var t := Walk(MemoryOf(s), s.paging.cr3, va);
      t.Mapped? && t.rights.user <==>
        && Canonical(va) && 1 <= Index(va, 0) <= 510
        && match LastLeaf(b, ops, va) {
             case Some(leaf) => Present(leaf) && User(leaf)
             case None => false
           }
  {
    var b := Boot(p, slots, idleEntry);
    UserOnlyInMiddleSlots(p, slots, idleEntry, ops, va);
    if Canonical(va) {
      RunTranslation(b, ops, va);
      BootTranslation(p, slots, idleEntry, va);
      if 1 <= Index(va, 0) <= 510 {
        BootEntries(p, slots, idleEntry);
        RightsOfEmptySlot(MemoryOf(b), b.paging.cr3, va);
      }
    }
  }

  /** Under an empty PML4 slot a `map_page` gives all the rights its leaf asks for. */
  lemma RightsOfEmptySlot(m: Memory, root: nat, va: U64)
    requires Entry(m, root, Index(va, 0)) == 0
    ensures InheritedRights(m, root, va, 7) == ALL_RIGHTS
  {
  }

  /** How many pages are left after a boot with room for the tables and the idle process. */
  lemma BootFree(p: Pool, slots: seq<Process>, idleEntry: U64)
    requires Booted(p) && |slots| == MAX_PROCESSES && p.total >= 5
    ensures |PoolOf(Boot(p, slots, idleEntry)).free| == p.total - 5
  {
    BootGood(p);
    AllPagesFree(p);
    InitPagingTranslation(BootPaging(p), 0);
    TablesCost(p);
    var st := PagingAfterInit(p);
    var t0 := Table(ResetAll(slots), None, 1, 0);
    assert FirstUnused(t0.slots, 0) == 0;
    var proc := CreateShape(st.space.pool, t0, KernelTable(st), idleEntry);
    CreatePages(st.space.pool, t0, KernelTable(st), idleEntry);
    CreateCost(st.space.pool, t0, KernelTable(st), idleEntry);
  }

  lemma TablesCost(p: Pool)
    requires Booted(p) && p.total >= 3
    ensures |PagingAfterInit(p).space.pool.free| == p.total - 3
  {
    BootGood(p);
    AllPagesFree(p);
    var s := BootPaging(p).space;
    var (s1, root) := NewRoot(s, 1);
    NewRootGood(s, 1);
    NewRootAgrees(s, 1);
    KernelIndices();
    assert |s1.pool.free| == p.total - 1;
    InstallOutcome(s1, root, KERNEL_BASE, 3, KERNEL_LEAF);
    assert Missing(s1.pool.mem, root, KERNEL_BASE) == 2;
  }

  lemma CreateCost(p: Pool, t: Table, pageTable: nat, entry: U64)
    requires Valid(p) && Create(p, t, pageTable, entry).2.Some?
    ensures |Create(p, t, pageTable, entry).0.free| == |p.free| - 2
  {
    CreatePages(p, t, pageTable, entry);
    var proc := Create(p, t, pageTable, entry).1.slots[Create(p, t, pageTable, entry).2.value];
    var q := Create(p, t, pageTable, entry).0;
    var k, u := StackPage(proc.kernelStack), StackPage(proc.userStack);
    assert p.free == q.free + {k, u};
    assert |q.free + {k, u}| == |q.free| + |{k, u}|;
  }

  /** And each of those slots can be: one mapping with the user flag right after boot opens it. */
  lemma MiddleSlotsCanBeUser(p: Pool, slots: seq<Process>, idleEntry: U64, va: U64)
    requires Booted(p) && |slots| == MAX_PROCESSES && p.total >= 7
    requires Canonical(va) && 1 <= Index(va, 0) <= 510
    ensures Inv(Boot(p, slots, idleEntry))
    ensures var s := Step(Boot(p, slots, idleEntry), MapOp(va, 0, 7));
      Walk(MemoryOf(s), s.paging.cr3, va) == Mapped(va % 0x20_0000, Rights(true, true))
  {
    var b := Boot(p, slots, idleEntry);
    BootInv(p, slots, idleEntry);
    BootEntries(p, slots, idleEntry);
    RootExists(p, slots, idleEntry);
    BootFree(p, slots, idleEntry);
    OpenBlock(b.paging, va);
  }

  lemma OpenBlock(st: PageState, va: U64)
    requires Sound(st) && st.kernelPml4.Some? && Canonical(va) && |st.space.pool.free| >= 2
    requires Entry(st.space.pool.mem, st.cr3, Index(va, 0)) == 0
    ensures MapPage(st, va, 0, 7).0.cr3 == st.cr3
    ensures Walk(MapPage(st, va, 0, 7).0.space.pool.mem, st.cr3, va) == Mapped(va % 0x20_0000, Rights(true, true))
  {
    MapsBlock(st, va, 0, 7, va);
  }

  // ---------------------------------------------------------------- reachable states where the counter goes wrong

  /** With five pages boot uses all of them, and the next creation is miscounted. */
  lemma MiscountIsReachable(p: Pool, slots: seq<Process>, idleEntry: U64, entry: U64)
    requires Booted(p) && |slots| == MAX_PROCESSES && p.total == 5
    ensures Inv(Boot(p, slots, idleEntry))
    ensures var t := Step(Boot(p, slots, idleEntry), CreateOp(entry)).procs;
      t.count == 1 && Live(t.slots) == 2
  {
    var b := Boot(p, slots, idleEntry);
    BootInv(p, slots, idleEntry);
    BootCounts(p, slots, idleEntry);
    BootFree(p, slots, idleEntry);
    FirstUnusedOrdered(b.procs);
    var proc := CreateShape(PoolOf(b), b.procs, KernelTable(b.paging), entry);
    LiveUpdate(b.procs.slots, 1, proc);
  }

  /** With seven pages one creation after boot makes the state in which an exit stalls. */
  lemma StallIsReachable(p: Pool, slots: seq<Process>, idleEntry: U64, entry: U64, status: U32, sp: U64)
    requires Booted(p) && |slots| == MAX_PROCESSES && p.total >= 7
    ensures Inv(Boot(p, slots, idleEntry))
    ensures var t := Run(Boot(p, slots, idleEntry), [CreateOp(entry), ExitOp(status, sp)]).procs;
      Active(t) && t.current == Some(0) && t.slots[0].state.Zombie? && t.slots[1].state.Ready?
  {
    BootInv(p, slots, idleEntry);
    BootCounts(p, slots, idleEntry);
    BootFree(p, slots, idleEntry);
    var b := Boot(p, slots, idleEntry);
    SecondProcessStalls(PoolOf(b), b.procs, KernelTable(b.paging), entry, status, sp);
    CreateThenExit(b, entry, status, sp);
  }

  lemma CreateThenExit(s: System, entry: U64, status: U32, sp: U64)
    requires Inv(s) && Active(Create(PoolOf(s), s.procs, KernelTable(s.paging), entry).1)
    ensures Run(s, [CreateOp(entry), ExitOp(status, sp)]).procs
      == Exit(Create(PoolOf(s), s.procs, KernelTable(s.paging), entry).1, status, sp)
  {
    StepInv(s, CreateOp(entry));
    RunTwo(s, CreateOp(entry), ExitOp(status, sp));
    ExitStep(Step(s, CreateOp(entry)), status, sp);
  }

  lemma ExitStep(s: System, status: U32, sp: U64)
    requires Inv(s)
    ensures Step(s, ExitOp(status, sp)).procs == Exit(s.procs, status, sp)
  {
  }

  lemma RunTwo(s: System, a: Op, b: Op)
    requires Inv(s) && Inv(Step(s, a))
    ensures Run(s, [a, b]) == Step(Step(s, a), b)
  {
    assert [a, b][1..] == [b] && [b][1..] == [];
    StepInv(Step(s, a), b);
    assert Run(Step(s, a), [b]) == Step(Step(s, a), b);
  }

  // ---------------------------------------------------------------- no underflow

  /** No exit in the run finds the counter at zero. */
  ghost predicate NeverUnderflows(s: System, ops: seq<Op>)
    requires Inv(s)
    decreases |ops|
  {
    ops != [] ==>
      (ops[0].ExitOp? ==> s.procs.count >= 1) && (StepInv(s, ops[0]); NeverUnderflows(Step(s, ops[0]), ops[1..]))
  }

  /** As long as no creation fails for want of stacks and no zombie exits, `process_count` never underflows. */
  lemma {:induction false} NoDriftNoUnderflow(s: System, ops: seq<Op>)
    requires Inv(s) && s.procs.count == Live(s.procs.slots) && Drift(s, ops) == 0
    ensures NeverUnderflows(s, ops)
    decreases |ops|
  {
    if ops != [] {
      var s' := Step(s, ops[0]);
      var cur := s.procs.current.value;
      StepInv(s, ops[0]);
      var laps := StepGap(s, ops[0]);
      GapClosed(s.procs, s'.procs, 0, laps);
      if ops[0].ExitOp? {
        assert SlotOrdered(s.procs.slots[cur], cur);
        LivePositive(s.procs.slots, cur);
      }
      NoDriftNoUnderflow(s', ops[1..]);
    }
  }

  lemma NoUnderflowFromBoot(p: Pool, slots: seq<Process>, idleEntry: U64, ops: seq<Op>)
    requires Booted(p) && |slots| == MAX_PROCESSES
    ensures Inv(Boot(p, slots, idleEntry))
    ensures Drift(Boot(p, slots, idleEntry), ops) == 0 ==> NeverUnderflows(Boot(p, slots, idleEntry), ops)
  {
    BootInv(p, slots, idleEntry);
    BootCounts(p, slots, idleEntry);
    if Drift(Boot(p, slots, idleEntry), ops) == 0 {
      NoDriftNoUnderflow(Boot(p, slots, idleEntry), ops);
    }
  }

  // ---------------------------------------------------------------- breaks over runs

  /** The last nonzero address a run passes to `brk` while slot `i` is current. */
  ghost function LastBreak(s: System, ops: seq<Op>, i: nat): Option<U64>
    requires Inv(s)
    decreases |ops|
  {
    if ops == [] then None
    else
      StepInv(s, ops[0]);
      var later := LastBreak(Step(s, ops[0]), ops[1..], i);
      if later.Some? then later
      else if ops[0].BrkOp? && ops[0].address != 0 && s.procs.current == Some(i) then Some(ops[0].address)
      else None
  }

  /** How a step treats the breaks: `brk` sets the current one, and a new slot starts at 4 MB. */
  ghost predicate BreaksFollow(t: Table, t': Table, address: U64) {
    && Active(t) && Active(t') && t.nextPid <= t'.nextPid <= t.nextPid + 1
    && forall i: nat :: i < MAX_PROCESSES ==>
         t'.slots[i].brk ==
           (if address != 0 && t.current == Some(i) then address
            else if t.nextPid - 1 <= i < t'.nextPid - 1 then 0x40_0000
            else t.slots[i].brk)
  }

  lemma CreateBreaks(p: Pool, t: Table, pageTable: nat, entry: U64)
    requires Valid(p) && Ordered(t)
    ensures BreaksFollow(t, Create(p, t, pageTable, entry).1, 0) && BreaksFollow(t, Fork(p, t, pageTable).1, 0)
  {
    FirstUnusedOrdered(t);
    CreateOrdered(p, t, pageTable, entry);
    ForkEffect(p, t, pageTable);
    if t.nextPid - 1 < MAX_PROCESSES {
      var proc := CreateShape(p, t, pageTable, entry);
    }
  }

  lemma StepBreaks(s: System, op: Op)
    requires Inv(s)
    ensures BreaksFollow(s.procs, Step(s, op).procs, if op.BrkOp? then op.address else 0)
  {
    match op
    case MapOp(va, pa, flags) =>
    case CreateOp(entry) => CreateBreaks(PoolOf(s), s.procs, KernelTable(s.paging), entry);
    case ForkOp => CreateBreaks(PoolOf(s), s.procs, KernelTable(s.paging), 0);
    case ExitOp(status, sp) => ExitEffect(s.procs, status, sp);
    case ScheduleOp(sp) => ScheduleEffect(s.procs, sp);
    case BrkOp(address) => BrkEffect(s.procs, address);
  }

  /** A break is what `brk` last set it to, or what the slot held at the start, or 4 MB for a slot made since. */
  lemma {:induction false} RunBreak(s: System, ops: seq<Op>, i: nat)
    requires Inv(s) && i < MAX_PROCESSES
    ensures var t := Run(s, ops).procs;
      && Active(t) && s.procs.nextPid <= t.nextPid
      && (i < t.nextPid - 1 ==>
            var first := if i < s.procs.nextPid - 1 then s.procs.slots[i].brk else 0x40_0000;
            t.slots[i].brk == LastBreak(s, ops, i).UnwrapOr(first))
    decreases |ops|
  {
    if ops != [] {
      StepInv(s, ops[0]);
      StepBreaks(s, ops[0]);
      RunBreak(Step(s, ops[0]), ops[1..], i);
    }
  }

  /** From boot: a process's break is the last nonzero address it passed to `brk`, or 4 MB; forking inherits nothing. */
  lemma BreakOverRuns(p: Pool, slots: seq<Process>, idleEntry: U64, ops: seq<Op>, i: nat)
    requires Booted(p) && |slots| == MAX_PROCESSES && i < MAX_PROCESSES
    ensures Inv(Boot(p, slots, idleEntry))
    ensures var b := Boot(p, slots, idleEntry);
      var t := Run(b, ops).procs;
      Active(t) && (InUse(t.slots[i]) ==> t.slots[i].brk == LastBreak(b, ops, i).UnwrapOr(0x40_0000))
  {
    var b := Boot(p, slots, idleEntry);
    var st := PagingAfterInit(p);
    BootInv(p, slots, idleEntry);
    BootGood(p);
    InitPagingTranslation(BootPaging(p), 0);
    InitOrdered(st.space.pool, slots, KernelTable(st), idleEntry);
    RunInv(b, ops);
    RunBreak(b, ops, i);
  }
}
