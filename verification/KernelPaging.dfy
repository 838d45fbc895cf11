/** The operations of kernel/paging.c as steps on memory, and what they do to translations. */
module KernelPaging {
  import opened Words
  import opened PhysicalMemory
  import opened PagePool
  import opened PageTables
  import opened Mappings

  datatype PageState = PageState(space: Space, kernelPml4: Option<nat>, cr3: nat)

  /** The active root is a tree, and it is the kernel's own root once that exists. */
  ghost predicate Sound(st: PageState) {
    && Good(st.space, st.cr3)
    && (st.kernelPml4.Some? ==> st.kernelPml4.value == st.cr3)
  }

  // ---------------------------------------------------------------- map_page

  /** `physical_addr | flags | PAGE_HUGE`. */
  function PageLeaf(pa: U64, flags: U64): (e: U64)
    ensures Huge(e)
    ensures Present(e) <==> Present(pa) || Present(flags)
    ensures Writable(e) <==> Writable(pa) || Writable(flags)
    ensures User(e) <==> User(pa) || User(flags)
  {
    LeafBits(pa, flags);
    BitOr(BitOr(pa, flags), HUGE)
  }

  lemma ShrValues(x: nat)
    ensures Shr(x, 0) == x && Shr(x, 1) == x / 2 && Shr(x, 2) == x / 4 && Shr(x, 7) == x / 128
  {
    ShrNext(x, 0);
    ShrNext(x, 1);
    ShrNext(x, 2);
    ShrNext(x, 3);
    ShrNext(x, 4);
    ShrNext(x, 5);
    ShrNext(x, 6);
  }

  lemma {:induction false} ShrNext(x: nat, k: nat)
    ensures Shr(x, k + 1) == Shr(x, k) / 2
    decreases k
  {
    if k != 0 {
      ShrNext(x / 2, k - 1);
    }
  }

  lemma OrFlag(x: nat, y: nat, k: nat)
    requires k in {0, 1, 2, 7}
    ensures Shr(BitOr(x, y), k) % 2 == 1 <==> Shr(x, k) % 2 == 1 || Shr(y, k) % 2 == 1
  {
    BitOrBit(x, y, k);
  }

  lemma LeafBits(pa: U64, flags: U64)
    ensures var e := BitOr(BitOr(pa, flags), HUGE);
      && 0 <= e < TWO_64
      && e / 128 % 2 == 1
      && (e % 2 == 1 <==> pa % 2 == 1 || flags % 2 == 1)
      && (e / 2 % 2 == 1 <==> pa / 2 % 2 == 1 || flags / 2 % 2 == 1)
      && (e / 4 % 2 == 1 <==> pa / 4 % 2 == 1 || flags / 4 % 2 == 1)
  {
    var x := BitOr(pa, flags);
    Pow2Values();
    BitOrBound(pa, flags, 64);
    BitOrBound(x, HUGE, 64);
    ShrValues(pa);
    ShrValues(flags);
    ShrValues(x);
    ShrValues(HUGE);
    ShrValues(BitOr(x, HUGE));
    OrFlag(pa, flags, 0);
    OrFlag(pa, flags, 1);
    OrFlag(pa, flags, 2);
    OrFlag(x, HUGE, 0);
    OrFlag(x, HUGE, 1);
    OrFlag(x, HUGE, 2);
    OrFlag(x, HUGE, 7);
  }

  /** `map_page`; the flag says whether the mapping was written. */
  ghost function MapPage(st: PageState, va: U64, pa: U64, flags: U64): (r: (PageState, bool))
    requires Sound(st)
  {
    match st.kernelPml4
    case None => (st, false)
    case Some(root) =>
      var (s, ok) := Install(st.space, root, va, 7, PageLeaf(pa, flags));
      (st.(space := s), ok)
  }

  /** What one address translates to after `map_page(va, pa, flags)`, for any arguments at all. */
  lemma MapPageTranslation(st: PageState, va: U64, pa: U64, flags: U64, va': U64)
    requires Sound(st)
    ensures var (st', ok) := MapPage(st, va, pa, flags);
      var m := st.space.pool.mem;
      && Sound(st') && st'.cr3 == st.cr3 && st'.kernelPml4 == st.kernelPml4
      && InheritedRights(st'.space.pool.mem, st.cr3, va', 7) == InheritedRights(m, st.cr3, va', 7)
      && Walk(st'.space.pool.mem, st.cr3, va') ==
         if ok && Canonical(va') && SameRegion(va, va')
         then LeafTranslation(PageLeaf(pa, flags), 2, va', InheritedRights(m, st.cr3, va', 7))
         else Walk(m, st.cr3, va')
  {
    if st.kernelPml4.Some? {
      InstallTranslation(st.space, st.cr3, va, 7, PageLeaf(pa, flags), va');
    }
  }

  /** `map_page` goes through exactly when the kernel root exists and the missing tables can be had. */
  lemma MapPageOutcome(st: PageState, va: U64, pa: U64, flags: U64)
    requires Sound(st)
    ensures MapPage(st, va, pa, flags).1
      <==> st.kernelPml4.Some? && |st.space.pool.free| >= Missing(st.space.pool.mem, st.cr3, va)
  {
    if st.kernelPml4.Some? {
      InstallOutcome(st.space, st.cr3, va, 7, PageLeaf(pa, flags));
    }
  }

  /** The words `map_page` writes: `PRESENT | WRITABLE | USER` on new tables at both levels, and the leaf. */
  lemma MapPageWrites(st: PageState, va: U64, pa: U64, flags: U64) returns (p1: Pool, p2: Pool)
    requires Sound(st)
    ensures var (st', ok) := MapPage(st, va, pa, flags);
      && st' == st.(space := st'.space)
      && (st.kernelPml4.None? ==> st' == st && !ok)
      && (st.kernelPml4.Some? ==>
            InstallSteps(st.space.pool, p1, p2, st'.space.pool, ok, st.kernelPml4.value,
                         Index(va, 0), Index(va, 1), Index(va, 2), 7, BitOr(BitOr(pa, flags), 0x80)))
  {
    if st.kernelPml4.Some? {
      p1, p2 := InstallWrites(st.space, st.cr3, va, 7, PageLeaf(pa, flags));
    } else {
      p1, p2 := st.space.pool, st.space.pool;
    }
  }

  /** With one page left and no table in the PML4 slot, the new PDPT stays linked and its page stays taken. */
  lemma LastPageIsLinked(st: PageState, va: U64, pa: U64, flags: U64)
    requires Sound(st) && st.kernelPml4.Some? && |st.space.pool.free| == 1
    requires !Present(Entry(st.space.pool.mem, st.cr3, Index(va, 0)))
    ensures var (st', ok) := MapPage(st, va, pa, flags);
      !ok && st'.space.pool.free == {} && Hung(st.space.pool, st'.space.pool, st.cr3, Index(va, 0), 7)
  {
    var p := st.space.pool;
    var p1, p2 := MapPageWrites(st, va, pa, flags);
    assert |p.free - {Least(p.free)}| == 0;
    HungTable(st.space, p1, st.cr3, Index(va, 0), Index(va, 1));
  }

  /** What a level leaves behind when it hangs a new table: an entry that leads to an empty one. */
  lemma HungTable(s: Space, q: Pool, table: nat, i: nat, j: nat)
    requires Valid(s.pool) && i < ENTRIES && j < ENTRIES && Hung(s.pool, q, table, i, 7)
    requires table >= FIRST_FRAME ==> table - FIRST_FRAME !in s.pool.free
    ensures Present(Entry(q.mem, table, i)) && Entry(q.mem, TableOf(Entry(q.mem, table, i)), j) == 0
  {
    var k := Least(s.pool.free);
    GetIs(s.pool, k);
    LinkEntryBits(256 + k, 7);
  }

  /** That is the only way in which a call that fails leaves something behind. */
  lemma FailureLeavesTraceIff(st: PageState, va: U64, pa: U64, flags: U64)
    requires Sound(st)
    ensures var (st', ok) := MapPage(st, va, pa, flags);
      !ok && st'.space.pool != st.space.pool
      <==> st.kernelPml4.Some? && !Present(Entry(st.space.pool.mem, st.cr3, Index(va, 0))) && |st.space.pool.free| == 1
  {
    var e := Entry(st.space.pool.mem, st.cr3, Index(va, 0));
    MapPageOutcome(st, va, pa, flags);
    if st.kernelPml4.Some? && !Present(e) && |st.space.pool.free| == 1 {
      LastPageIsLinked(st, va, pa, flags);
    } else {
      var p1, p2 := MapPageWrites(st, va, pa, flags);
    }
  }

  /** Bit by bit the leaf is the address, the flags and bit 7. */
  lemma PageLeafBit(pa: U64, flags: U64, k: nat)
    ensures Bit(PageLeaf(pa, flags), k) <==> Bit(pa, k) || Bit(flags, k) || k == 7
  {
    BitOrBit(pa, flags, k);
    BitOrBit(BitOr(pa, flags), HUGE, k);
    Pow2Bit(7, k);
    assert Pow2(7) == HUGE;
  }

  lemma AlignedLeafValue(pa: U64, flags: U64)
    requires pa % 0x20_0000 == 0 && flags < 0x1000
    ensures BitOr(flags, HUGE) < 0x1000 && PageLeaf(pa, flags) == pa + BitOr(flags, HUGE)
    ensures !Present(pa) && !Writable(pa) && !User(pa)
  {
    Pow2Values();
    var a := pa / 0x20_0000;
    BitOrBound(flags, HUGE, 12);
    BitOrLeft(pa, flags, HUGE);
    BitOrDisjoint(a, BitOr(flags, HUGE), 21);
    LowBitsClear(pa);
  }

  lemma LowBitsClear(pa: U64)
    requires pa % 0x20_0000 == 0
    ensures !Present(pa) && !Writable(pa) && !User(pa)
  {
    var a := pa / 0x20_0000;
    assert pa == 2 * (a * 0x10_0000) && pa == 4 * (a * 0x8_0000) && pa == 8 * (a * 0x4_0000);
  }

  /** With a 2 MB aligned address and flags in the low bits, the leaf maps base plus offset. */
  lemma AlignedLeaf(pa: U64, flags: U64, va: U64, r: Rights)
    requires pa < TWO_52 && pa % 0x20_0000 == 0 && flags < 0x1000
    ensures LeafTranslation(PageLeaf(pa, flags), 2, va, r) ==
      if Present(flags) then Mapped(pa + va % 0x20_0000, Meet(r, flags)) else Fault
  {
    AlignedLeafValue(pa, flags);
    AlignedBase(pa, PageLeaf(pa, flags) - pa);
  }

  lemma AlignedBase(pa: nat, y: nat)
    requires pa < TWO_52 && pa % 0x20_0000 == 0 && y < 0x1000
    ensures (pa + y) % TWO_52 - (pa + y) % TWO_52 % 0x20_0000 == pa
  {
    assert pa <= TWO_52 - 0x20_0000;
  }

  /**
   * `map_page` with a 2 MB aligned physical address and flags in the low bits, once its tables are
   * there: the target 2 MB block maps to the given memory with the given rights as far as the upper
   * levels allow, or is unmapped if the flags lack PRESENT, and every other address is unaffected.
   */
  lemma MapPageMapsBlock(st: PageState, va: U64, pa: U64, flags: U64, va': U64)
    requires Sound(st) && MapPage(st, va, pa, flags).1 && Canonical(va)
    requires pa < TWO_52 && pa % 0x20_0000 == 0 && flags < 0x1000
    ensures var m, m' := st.space.pool.mem, MapPage(st, va, pa, flags).0.space.pool.mem;
      Walk(m', st.cr3, va') ==
        if va' / 0x20_0000 != va / 0x20_0000 then Walk(m, st.cr3, va')
        else if Present(flags) then Mapped(pa + va' % 0x20_0000, Meet(InheritedRights(m, st.cr3, va', 7), flags))
        else Fault
  {
    MapPageTranslation(st, va, pa, flags, va');
    AlignedLeaf(pa, flags, va', InheritedRights(st.space.pool.mem, st.cr3, va', 7));
    if Canonical(va') {
      SameRegionIs2MB(va, va');
    } else if va' / 0x20_0000 == va / 0x20_0000 {
      CanonicalBlock(va, va');
    }
  }

  /** A 2 MB block is canonical as a whole or not at all. */
  lemma CanonicalBlock(va: U64, va': U64)
    requires va / 0x20_0000 == va' / 0x20_0000
    ensures Canonical(va) == Canonical(va')
  {
  }

  lemma {:induction false} BitOrLeft(x: nat, y: nat, z: nat)
    ensures BitOr(BitOr(x, y), z) == BitOr(x, BitOr(y, z))
    decreases x + y + z
  {
    if x != 0 || y != 0 || z != 0 {
      BitOrLeft(x / 2, y / 2, z / 2);
      BitOrHalves(x, y);
      BitOrHalves(y, z);
      BitOrHalves(BitOr(x, y), z);
      BitOrHalves(x, BitOr(y, z));
    }
  }

  lemma BitOrHalves(x: nat, y: nat)
    ensures BitOr(x, y) == BitOr(x, y) % 2 + 2 * BitOr(x / 2, y / 2)
    ensures BitOr(x, y) / 2 == BitOr(x / 2, y / 2)
    ensures BitOr(x, y) % 2 == 1 <==> x % 2 == 1 || y % 2 == 1
  {
    if x != 0 || y != 0 {
      var low := if x % 2 == 1 || y % 2 == 1 then 1 else 0;
      assert BitOr(x, y) == 2 * BitOr(x / 2, y / 2) + low;
      Halve(BitOr(x / 2, y / 2), low);
    }
  }

  /** The offset is only added to the given base when that base is 2 MB aligned. */
  lemma ExactBaseIff(pa: U64, flags: U64, r: Rights)
    requires pa < TWO_52 && flags < 0x1000 && Present(flags)
    ensures (forall va: U64 ::
        LeafTranslation(PageLeaf(pa, flags), 2, va, r) == Mapped(pa + va % 0x20_0000, Meet(r, flags)))
      <==> pa % 0x20_0000 == 0
  {
    if pa % 0x20_0000 == 0 {
      forall va: U64
        ensures LeafTranslation(PageLeaf(pa, flags), 2, va, r) == Mapped(pa + va % 0x20_0000, Meet(r, flags))
      {
        AlignedLeaf(pa, flags, va, r);
      }
    } else {
      var zero: U64 := 0;
      LeafBaseAligned(PageLeaf(pa, flags), r);
      assert LeafTranslation(PageLeaf(pa, flags), 2, zero, r) != Mapped(pa + zero % 0x20_0000, Meet(r, flags));
    }
  }

  lemma LeafBaseAligned(e: U64, r: Rights)
    requires Present(e)
    ensures LeafTranslation(e, 2, 0, r).Mapped? && LeafTranslation(e, 2, 0, r).address % 0x20_0000 == 0
  {
  }

  // ---------------------------------------------------------------- Init_Paging

  /** `copy_boot_mappings` into a cleared PML4: the present entries only. */
  function CopiedFrame(boot: Frame): (r: Frame)
    ensures forall i :: 0 <= i < ENTRIES ==> r[i] == if Present(boot[i]) then boot[i] else 0
  {
    seq(ENTRIES, i requires 0 <= i < ENTRIES => if Present(boot[i]) then boot[i] else 0)
  }

  /** A new PML4 on a fresh page, carrying the present entries of the active one. */
  ghost function NewRoot(s: Space, cr3: nat): (r: (Space, nat))
    requires Good(s, cr3) && Get(s.pool).1.Some?
  {
    var q := Get(s.pool).0;
    var f := FIRST_FRAME + Get(s.pool).1.value;
    (Space(q.(mem := q.mem[f := CopiedFrame(FrameAt(q.mem, cr3))]), s.tables[f := []]), f)
  }

  /** The PML4 `Init_Paging` works on: the active one if it lies in [1 MB, 2 MB), else a new one. */
  ghost function ChooseRoot(s: Space, cr3: nat): (r: (Space, Option<nat>))
    requires Good(s, cr3)
  {
    if FIRST_FRAME <= cr3 < 2 * FIRST_FRAME then (s, Some(cr3))
    else if Get(s.pool).1.None? then (s, None)
    else (NewRoot(s, cr3).0, Some(NewRoot(s, cr3).1))
  }

  /** `Init_Paging`; the flag says whether every allocation went through. */
  ghost function InitPaging(st: PageState): (r: (PageState, bool))
    requires Good(st.space, st.cr3)
  {
    ChooseRootGood(st.space, st.cr3);
    var (s1, root) := ChooseRoot(st.space, st.cr3);
    if root.None? then (st.(kernelPml4 := None), false)
    else
      var (s, ok) := Install(s1, root.value, KERNEL_BASE, 3, KERNEL_LEAF);
      (PageState(s, root, root.value), ok)
  }

  lemma ChooseRootGood(s: Space, cr3: nat)
    requires Good(s, cr3)
    ensures var (s1, root) := ChooseRoot(s, cr3);
      root.Some? ==> Good(s1, root.value)
  {
    if Get(s.pool).1.Some? {
      NewRootGood(s, cr3);
    }
  }

  lemma NewRootIs(s: Space, cr3: nat)
    requires Good(s, cr3) && Get(s.pool).1.Some?
    ensures var f := FIRST_FRAME + Get(s.pool).1.value;
      f != cr3 && PageAddress(Get(s.pool).1.value) == PAGE_SIZE * f
  {
    FreshFrame(s, cr3);
  }

  lemma NewRootAgrees(s: Space, cr3: nat)
    requires Good(s, cr3) && Get(s.pool).1.Some?
    ensures var (s1, f) := NewRoot(s, cr3);
      && f !in s.tables
      && (forall g: nat, i: nat :: g in s.tables && i < ENTRIES ==> Entry(s1.pool.mem, g, i) == Entry(s.pool.mem, g, i))
      && (forall i: nat :: i < ENTRIES ==>
           Entry(s1.pool.mem, f, i) == if Present(Entry(s.pool.mem, cr3, i)) then Entry(s.pool.mem, cr3, i) else 0)
  {
    FreshFrame(s, cr3);
    GetIs(s.pool, Get(s.pool).1.value);
  }

  lemma NewRootGood(s: Space, cr3: nat)
    requires Good(s, cr3) && Get(s.pool).1.Some?
    ensures Good(NewRoot(s, cr3).0, NewRoot(s, cr3).1)
  {
    var (s1, f) := NewRoot(s, cr3);
    var m, m' := s.pool.mem, s1.pool.mem;
    GetIs(s.pool, Get(s.pool).1.value);
    NewRootAgrees(s, cr3);
    forall g: nat, i: nat | g in s1.tables && i < ENTRIES && PointsDown(|s1.tables[g]|, Entry(m', g, i))
      ensures Linked(s1.tables, s1.tables[g] + [i], Entry(m', g, i))
    {
      if g == f {
        assert Linked(s.tables, s.tables[cr3] + [i], Entry(m, cr3, i));
      } else {
        assert Entry(m', g, i) == Entry(m, g, i);
        assert Linked(s.tables, s.tables[g] + [i], Entry(m, g, i));
      }
    }
  }

  /** The copied root translates every address as the old one did. */
  lemma NewRootTranslation(s: Space, cr3: nat, va: U64, link: U64)
    requires Good(s, cr3) && Get(s.pool).1.Some?
    ensures var (s1, f) := NewRoot(s, cr3);
      && Walk(s1.pool.mem, f, va) == Walk(s.pool.mem, cr3, va)
      && InheritedRights(s1.pool.mem, f, va, link) == InheritedRights(s.pool.mem, cr3, va, link)
  {
    var (s1, f) := NewRoot(s, cr3);
    var m, m' := s.pool.mem, s1.pool.mem;
    var i := Index(va, 0);
    NewRootAgrees(s, cr3);
    var e := Entry(m, cr3, i);
    if Present(e) {
      assert Linked(s.tables, s.tables[cr3] + [i], e);
      assert s.tables[TableOf(e)] == PathOf(va, 1);
      WalkKeeps(m, m', s.tables, TableOf(e), 1, va, Meet(ALL_RIGHTS, e), link);
    }
  }

  lemma KernelIndices()
    ensures Index(KERNEL_BASE, 0) == 511 && Index(KERNEL_BASE, 1) == 510 && Index(KERNEL_BASE, 2) == 0
  {
  }

  predicate InKernelWindow(va: U64) {
    KERNEL_BASE <= va < KERNEL_BASE + 0x20_0000
  }

  /** In the kernel window the leaf maps to physical 0 upwards, supervisor only. */
  lemma KernelLeaf(va: U64, r: Rights)
    ensures InKernelWindow(va) <==> Canonical(va) && SameRegion(KERNEL_BASE, va)
    ensures InKernelWindow(va) ==>
      LeafTranslation(KERNEL_LEAF, 2, va, r) == Mapped(va - KERNEL_BASE, Rights(r.writable, false))
  {
    if Canonical(va) {
      SameRegionIs2MB(KERNEL_BASE, va);
    }
  }

  /**
   * `Init_Paging` keeps every translation outside the kernel window and, when its allocations
   * succeed, maps the window to physical 0. If any allocation fails no translation changes.
   */
  lemma InitPagingTranslation(st: PageState, va: U64)
    requires Good(st.space, st.cr3)
    ensures var (st', ok) := InitPaging(st);
      && Sound(st')
      && Walk(st'.space.pool.mem, st'.cr3, va) ==
         if ok && InKernelWindow(va)
         then Mapped(va - KERNEL_BASE, Rights(InheritedRights(st.space.pool.mem, st.cr3, va, 3).writable, false))
         else Walk(st.space.pool.mem, st.cr3, va)
  {
    KernelLeaf(va, InheritedRights(st.space.pool.mem, st.cr3, va, 3));
    var (s1, root) := ChooseRoot(st.space, st.cr3);
    ChooseRootGood(st.space, st.cr3);
    if root.Some? {
      if s1 != st.space {
        NewRootTranslation(st.space, st.cr3, va, 3);
      }
      InstallTranslation(s1, root.value, KERNEL_BASE, 3, KERNEL_LEAF, va);
    }
  }

  /** `Init_Paging` step by step, for the loop-and-field form. */
  lemma InitPagingIs(st: PageState, s1: Space, root: nat)
    requires Good(st.space, st.cr3) && ChooseRoot(st.space, st.cr3) == (s1, Some(root))
    ensures Good(s1, root)
    ensures var (s, ok) := Install(s1, root, KERNEL_BASE, 3, KERNEL_LEAF);
      Good(s, root) && InitPaging(st) == (PageState(s, Some(root), root), ok)
  {
    ChooseRootGood(st.space, st.cr3);
    InstallTranslation(s1, root, KERNEL_BASE, 3, KERNEL_LEAF, KERNEL_BASE);
  }

  /** A new PML4 on the lowest free page, with the present entries of the active one and no others. */
  ghost predicate RootCopied(p: Pool, q: Pool, cr3: nat) {
    && p.free != {}
    && var f := 256 + Least(p.free);
    && q.end == p.end && q.total == p.total && q.free == p.free - {f - 256} && q.used == p.used + 1
    && forall g: nat, j: nat :: j < ENTRIES ==>
         Entry(q.mem, g, j)
         == (if g != f then Entry(p.mem, g, j) else if Present(Entry(p.mem, cr3, j)) then Entry(p.mem, cr3, j) else 0)
  }

  /**
   * The words `Init_Paging` writes and the registers it leaves: the active PML4 is kept if it lies
   * from 1 MB up to 2 MB, otherwise copied to a new page; then `PRESENT | WRITABLE` on the tables of
   * the kernel window and 0x183 as its leaf.
   */
  lemma InitPagingWrites(st: PageState) returns (p0: Pool, p1: Pool, p2: Pool)
    requires Good(st.space, st.cr3)
    ensures var p, (st', ok) := st.space.pool, InitPaging(st);
      var reused := 0x10_0000 <= 0x1000 * st.cr3 < 0x20_0000;
      if !reused && p.free == {} then st' == st.(kernelPml4 := None) && !ok
      else
        var root := if reused then st.cr3 else 256 + Least(p.free);
        && st'.kernelPml4 == Some(root) && st'.cr3 == root
        && (if reused then p0 == p else RootCopied(p, p0, st.cr3))
        && InstallSteps(p0, p1, p2, st'.space.pool, ok, root, 511, 510, 0, 3, 0x183)
  {
    var p := st.space.pool;
    var (s1, root) := ChooseRoot(st.space, st.cr3);
    ChooseRootGood(st.space, st.cr3);
    p0, p1, p2 := s1.pool, p, p;
    if root.Some? {
      KernelIndices();
      p1, p2 := InstallWrites(s1, root.value, KERNEL_BASE, 3, KERNEL_LEAF);
      if s1 != st.space {
        RootIsCopied(st.space, st.cr3);
      }
    }
  }

  lemma RootIsCopied(s: Space, cr3: nat)
    requires Good(s, cr3) && Get(s.pool).1.Some?
    ensures RootCopied(s.pool, NewRoot(s, cr3).0.pool, cr3) && NewRoot(s, cr3).1 == 256 + Least(s.pool.free)
  {
    FreshFrame(s, cr3);
    GetIs(s.pool, Least(s.pool.free));
  }

  /** Every page `Init_Paging` takes becomes a page table. */
  lemma InitPagingPages(st: PageState) returns (taken: set<nat>)
    requires Good(st.space, st.cr3)
    ensures Takes(st.space, InitPaging(st).0.space, taken)
  {
    var (s1, root) := ChooseRoot(st.space, st.cr3);
    ChooseRootGood(st.space, st.cr3);
    taken := ChooseRootPages(st.space, st.cr3);
    if root.Some? {
      var more := InstallPages(s1, root.value, KERNEL_BASE, 3, KERNEL_LEAF);
      TakesBoth(st.space, s1, Install(s1, root.value, KERNEL_BASE, 3, KERNEL_LEAF).0, taken, more);
      taken := taken + more;
    }
  }

  lemma ChooseRootPages(s: Space, cr3: nat) returns (taken: set<nat>)
    requires Good(s, cr3)
    ensures Takes(s, ChooseRoot(s, cr3).0, taken)
  {
    if ChooseRoot(s, cr3).0 == s {
      TakesNone(s, s);
      taken := {};
    } else {
      var k := Get(s.pool).1.value;
      GetIs(s.pool, k);
      TakesOne(s, NewRoot(s, cr3).0, k);
      taken := {k};
    }
  }

  // ---------------------------------------------------------------- the boot tables

  /** The tables boot/boot.asm builds at 0x1000 to 0x4FFF, the unwritten entries being zero. */
  ghost predicate BootLayout(m: Memory) {
    && (forall i: nat :: i < ENTRIES ==> Entry(m, 1, i) == if i == 0 then 0x2003 else 0)
    && (forall i: nat :: i < ENTRIES ==> Entry(m, 2, i) == if i == 0 then 0x3003 else 0)
    && (forall i: nat :: i < ENTRIES ==> Entry(m, 3, i) == if i == 0 then 0x4003 else 0)
    && (forall i: nat :: i < ENTRIES ==> Entry(m, 4, i) == 0x1000 * i + 3)
  }

  function BootTables(): Labels {
    map[1 := [], 2 := [0], 3 := [0, 0], 4 := [0, 0, 0]]
  }

  lemma BootTree(m: Memory)
    requires BootLayout(m)
    ensures Tree(m, 1, BootTables())
  {
    assert [0] + [0] == [0, 0] && [0, 0] + [0] == [0, 0, 0];
  }

  /** The boot tables identity-map exactly the first 2 MB. */
  lemma BootWalk(m: Memory, va: U64)
    requires BootLayout(m)
    ensures Walk(m, 1, va) == if va < 0x20_0000 then Mapped(va, Rights(true, false)) else Fault
  {
    var r := Rights(true, false);
    BootPageTable(m, va, r);
    BootUpper(m, va, r);
    if Canonical(va) {
      IndicesMakeBlock(va);
    }
  }

  /** A table whose only entry is the first one. */
  lemma OneEntry(m: Memory, table: nat, next: nat, depth: nat, va: U64, r: Rights)
    requires depth < 3 && next < 0x1000
    requires forall i: nat :: i < ENTRIES ==> Entry(m, table, i) == if i == 0 then LinkEntry(next, 3) else 0
    ensures WalkFrom(m, table, depth, va, r) ==
      if Index(va, depth) == 0 then WalkFrom(m, next, depth + 1, va, Rights(r.writable, false)) else Fault
  {
    LinkEntryBits(next, 3);
    assert Entry(m, table, Index(va, depth)) == if Index(va, depth) == 0 then LinkEntry(next, 3) else 0;
  }

  lemma BootUpper(m: Memory, va: U64, r: Rights)
    requires BootLayout(m) && r == Rights(true, false)
    ensures WalkFrom(m, 1, 0, va, ALL_RIGHTS) ==
      if Index(va, 0) == 0 && Index(va, 1) == 0 && Index(va, 2) == 0 then WalkFrom(m, 4, 3, va, r) else Fault
  {
    OneEntry(m, 1, 2, 0, va, ALL_RIGHTS);
    OneEntry(m, 2, 3, 1, va, r);
    OneEntry(m, 3, 4, 2, va, r);
  }

  /** Every upper entry of the boot tables is writable. */
  lemma BootRights(m: Memory, va: U64)
    requires BootLayout(m)
    ensures InheritedRights(m, 1, va, 3).writable
  {
    var r := Rights(true, false);
    assert RightsFrom(m, 3, 2, va, r, 3) == r;
    assert RightsFrom(m, 2, 1, va, r, 3) == r;
  }

  lemma BootPageTable(m: Memory, va: U64, r: Rights)
    requires BootLayout(m) && r == Rights(true, false)
    ensures WalkFrom(m, 4, 3, va, r) == Mapped(va % 0x20_0000, r)
  {
    var i := Index(va, 3);
    assert Entry(m, 4, i) == 0x1000 * i + 3;
    SmallPageBits(i);
    SmallPageOffset(va);
  }

  lemma SmallPageBits(i: nat)
    requires i < ENTRIES
    ensures var e: U64 := 0x1000 * i + 3;
      Present(e) && Writable(e) && !User(e) && e % TWO_52 == e && e % 0x1000 == 3
  {
    var e: U64 := 0x1000 * i + 3;
    assert e == 2 * (0x800 * i + 1) + 1;
    assert e / 2 == 2 * (0x400 * i) + 1;
    assert e / 4 == 2 * (0x200 * i);
  }

  lemma SmallPageOffset(va: nat)
    ensures va % 0x20_0000 == 0x1000 * (va / 0x1000 % 512) + va % 0x1000
  {
    var q := va / 0x1000;
    assert va == 0x20_0000 * (q / 512) + 0x1000 * (q % 512) + va % 0x1000;
  }

  /** `get_physical_address`. */
  function GetPhysicalAddress(va: U64): U64 {
    if va >= KERNEL_BASE then va - KERNEL_BASE else va
  }

  /** It takes the offset in the top 2 GB and leaves every lower address alone. */
  lemma PhysicalOffset(va: U64)
    ensures va < 0xFFFF_FFFF_8000_0000 ==> GetPhysicalAddress(va) == va
    ensures va >= 0xFFFF_FFFF_8000_0000 ==> 0xFFFF_FFFF_8000_0000 + GetPhysicalAddress(va) == va
  {
  }

  /**
   * From the boot tables, with three pages to be had, `Init_Paging` succeeds and its translations
   * are known everywhere: the first 2 MB one to one, the kernel window onto physical 0, nothing else.
   */
  lemma BootToKernel(st: PageState, va: U64)
    requires Good(st.space, st.cr3) && st.cr3 == 1 && BootLayout(st.space.pool.mem) && |st.space.pool.free| >= 3
    ensures var (st', ok) := InitPaging(st);
      && ok
      && Walk(st'.space.pool.mem, st'.cr3, va) ==
         if va < 0x20_0000 then Mapped(va, Rights(true, false))
         else if InKernelWindow(va) then Mapped(va - KERNEL_BASE, Rights(true, false))
         else Fault
  {
    BootWalk(st.space.pool.mem, va);
    BootRights(st.space.pool.mem, va);
    InitPagingTranslation(st, va);
    BootOutcome(st);
  }

  lemma BootOutcome(st: PageState)
    requires Good(st.space, st.cr3) && st.cr3 == 1 && BootLayout(st.space.pool.mem)
    ensures InitPaging(st).1 <==> |st.space.pool.free| >= 3
  {
    var p := st.space.pool;
    if Get(p).1.Some? {
      var (s1, root) := NewRoot(st.space, st.cr3);
      NewRootGood(st.space, st.cr3);
      NewRootAgrees(st.space, st.cr3);
      KernelIndices();
      InstallOutcome(s1, root, KERNEL_BASE, 3, KERNEL_LEAF);
      assert Missing(s1.pool.mem, root, KERNEL_BASE) == 2;
    }
  }

  /**
   * The arithmetic shortcut agrees with the hardware walk exactly on the identity-mapped first
   * 2 MB and on the kernel window; elsewhere it names an address that is not mapped at all.
   */
  lemma ShortcutAgreesIff(st: PageState, va: U64)
    requires Good(st.space, st.cr3) && st.cr3 == 1 && BootLayout(st.space.pool.mem) && |st.space.pool.free| >= 3
    ensures var st' := InitPaging(st).0;
      var t := Walk(st'.space.pool.mem, st'.cr3, va);
      t.Mapped? && t.address == GetPhysicalAddress(va) <==> va < 0x20_0000 || InKernelWindow(va)
  {
    BootToKernel(st, va);
  }
}
