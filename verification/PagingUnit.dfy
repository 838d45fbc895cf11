/** kernel/paging.c in its own form: table entries written in place through physical memory. */
module PagingUnit {
  import opened Words
  import opened PhysicalMemory
  import opened PagePool
  import opened Allocator
  import opened PageTables
  import opened Mappings
  import opened KernelPaging

  class Paging {
    const alloc: PageAllocator
    var kernelPml4: nat      // byte address, 0 is NULL
    var cr3: nat
    ghost var tables: Labels

    ghost function CurrentSpace(): Space
      reads this, alloc
    {
      Space(alloc.View(), tables)
    }

    ghost function View(): PageState
      reads this, alloc
    {
      PageState(CurrentSpace(), if kernelPml4 == 0 then None else Some(kernelPml4 / PAGE_SIZE), cr3 / PAGE_SIZE)
    }

    ghost predicate Valid()
      reads this, alloc, alloc.memoryMap
    {
      alloc.Valid() && Sound(View()) && kernelPml4 % PAGE_SIZE == 0
    }

    /** The state the boot loader leaves: CR3 set, no kernel root yet. */
    constructor (alloc: PageAllocator, cr3: nat, ghost tables: Labels)
      requires alloc.Valid() && Good(Space(alloc.View(), tables), cr3 / PAGE_SIZE)
      ensures Valid() && this.alloc == alloc && this.cr3 == cr3 && this.tables == tables && kernelPml4 == 0
    {
      this.alloc, this.cr3, this.tables := alloc, cr3, tables;
      kernelPml4 := 0;
    }

    /** The loop that zeroes a table entry by entry. */
    method ClearTable(table: nat)
      requires alloc.Valid()
      modifies alloc`mem
      ensures alloc.Valid() && alloc.View() == old(alloc.View()).(mem := Zeroed(old(alloc.mem), table / PAGE_SIZE))
    {
      var f := table / PAGE_SIZE;
      for i := 0 to ENTRIES
        invariant alloc.Valid() && alloc.View() == old(alloc.View()).(mem := alloc.mem)
        invariant forall j: nat :: j < i ==> FrameAt(alloc.mem, f)[j] == 0
        invariant alloc.mem == old(alloc.mem) || alloc.mem == old(alloc.mem)[f := FrameAt(alloc.mem, f)]
        invariant i > 0 ==> f in alloc.mem
      {
        alloc.Store(f, i, 0);
      }
      assert FrameAt(alloc.mem, f) == ZeroFrame();
    }

    /** A page from the allocator, cleared once more entry by entry. */
    method ClearedPage() returns (page: nat)
      requires alloc.Valid()
      modifies alloc, alloc.memoryMap
      ensures alloc.Valid() && alloc.View() == Get(old(alloc.View())).0
      ensures page == AddressOf(Get(old(alloc.View())).1)
      ensures page != 0 ==> FrameAt(alloc.mem, page / PAGE_SIZE) == ZeroFrame() && page / PAGE_SIZE in alloc.mem
    {
      ghost var p := alloc.View();
      page := alloc.GetPhysicalPage();
      if page != 0 {
        GetIs(p, Get(p).1.value);
        ClearTable(page);
        ZeroTwice(p.mem, page / PAGE_SIZE);
      }
    }

    /**
     * The block repeated at each level of `map_page` and `setup_kernel_mappings`: follow entry `i`,
     * or allocate, clear and link a new table.
     */
    method NextTable(ghost root: nat, table: nat, i: nat, link: U64) returns (ok: bool, next: nat)
      requires alloc.Valid() && Good(CurrentSpace(), root) && LinkFlags(link) && i < ENTRIES
      requires table % PAGE_SIZE == 0 && table / PAGE_SIZE in tables && |tables[table / PAGE_SIZE]| < 2
      modifies this`tables, alloc, alloc.memoryMap
      ensures alloc.Valid() && next % PAGE_SIZE == 0
      ensures CurrentSpace() == EnsureTable(old(CurrentSpace()), root, table / PAGE_SIZE, i, link).0
      ensures match EnsureTable(old(CurrentSpace()), root, table / PAGE_SIZE, i, link).1
        case None => !ok
        case Some(t) => ok && next == t * PAGE_SIZE
    {
      var f := table / PAGE_SIZE;
      ghost var s := CurrentSpace();
      ok := LinkIfAbsent(root, f, i, link);
      if !ok {
        return false, 0;
      }
      EnsuredAddress(s, root, f, i, link);
      next := AddressBehind(f, i);
    }

    /** The test at the head of the block: a table is made only where there is none. */
    method LinkIfAbsent(ghost root: nat, f: nat, i: nat, link: U64) returns (ok: bool)
      requires alloc.Valid() && Good(CurrentSpace(), root) && LinkFlags(link) && i < ENTRIES && f in tables
      modifies this`tables, alloc, alloc.memoryMap
      ensures alloc.Valid()
      ensures CurrentSpace() == EnsureTable(old(CurrentSpace()), root, f, i, link).0
      ensures ok == EnsureTable(old(CurrentSpace()), root, f, i, link).1.Some?
    {
      ok := true;
      if !Present(Entry(alloc.mem, f, i)) {
        ok := LinkNewTable(f, i, link);
      }
    }

    /** `table[i] & ~0xFFF`. */
    method AddressBehind(f: nat, i: nat) returns (next: nat)
      requires i < ENTRIES
      ensures next == Entry(alloc.mem, f, i) - Entry(alloc.mem, f, i) % PAGE_SIZE
    {
      var e := Entry(alloc.mem, f, i);
      next := e - e % PAGE_SIZE;
    }

    /** The branch that makes a new table. */
    method LinkNewTable(f: nat, i: nat, link: U64) returns (ok: bool)
      requires alloc.Valid() && LinkFlags(link) && i < ENTRIES && f in tables
      modifies this`tables, alloc, alloc.memoryMap
      ensures alloc.Valid() && (ok <==> Get(old(alloc.View())).1.Some?)
      ensures CurrentSpace() == if ok then LinkNew(old(CurrentSpace()), f, i, link) else old(CurrentSpace())
    {
      GetValid(alloc.View());
      ghost var p := alloc.View();
      var page := ClearedPage();
      if page == 0 {
        return false;
      }
      FrameFits(p);
      alloc.Store(f, i, page + link);
      tables := tables[page / PAGE_SIZE := tables[f] + [i]];
      return true;
    }

    /** Both levels down to the PD, as `map_page` and `setup_kernel_mappings` do. */
    method ReachTable(root: nat, va: U64, link: U64) returns (ok: bool, pd: nat)
      requires alloc.Valid() && root % PAGE_SIZE == 0 && Good(CurrentSpace(), root / PAGE_SIZE) && LinkFlags(link)
      modifies this`tables, alloc, alloc.memoryMap
      ensures alloc.Valid()
      ensures CurrentSpace() == ReachPd(old(CurrentSpace()), root / PAGE_SIZE, va, link).0
      ensures match ReachPd(old(CurrentSpace()), root / PAGE_SIZE, va, link).1
        case None => !ok
        case Some(t) => ok && pd == t * PAGE_SIZE
    {
      ghost var r, s := root / PAGE_SIZE, CurrentSpace();
      EnsureTableGood(s, r, r, Index(va, 0), link);
      var pdpt;
      ok, pdpt := NextTable(r, root, Index(va, 0), link);
      if !ok {
        return false, 0;
      }
      assert EnsureTable(s, r, r, Index(va, 0), link) == (CurrentSpace(), Some(pdpt / PAGE_SIZE));
      ok, pd := NextTable(r, pdpt, Index(va, 1), link);
    }

    method InstallLeaf(root: nat, va: U64, link: U64, leaf: U64) returns (ok: bool)
      requires alloc.Valid() && root % PAGE_SIZE == 0 && Good(CurrentSpace(), root / PAGE_SIZE) && LinkFlags(link)
      modifies this`tables, alloc, alloc.memoryMap
      ensures alloc.Valid()
      ensures (CurrentSpace(), ok) == Install(old(CurrentSpace()), root / PAGE_SIZE, va, link, leaf)
    {
      var pd;
      ok, pd := ReachTable(root, va, link);
      if ok {
        alloc.Store(pd / PAGE_SIZE, Index(va, 2), leaf);
      }
    }

    /** `map_page`. */
    method MapPage(va: U64, pa: U64, flags: U64) returns (ghost ok: bool)
      requires Valid()
      modifies this`tables, alloc, alloc.memoryMap
      ensures Valid()
      ensures (View(), ok) == KernelPaging.MapPage(old(View()), va, pa, flags)
    {
      MapPageTranslation(View(), va, pa, flags, va);
      if kernelPml4 == 0 {
        return false;
      }
      var done := InstallLeaf(kernelPml4, va, 7, PageLeaf(pa, flags));
      ok := done;
    }

    /** `get_current_pml4`: CR3 without its flag bits. */
    method CurrentPml4() returns (table: nat)
      ensures table == cr3 / PAGE_SIZE * PAGE_SIZE
    {
      table := cr3 - cr3 % PAGE_SIZE;
    }

    /** `copy_boot_mappings`, into a table that was just cleared. */
    method CopyBootMappings(newPml4: nat)
      requires alloc.Valid() && newPml4 / PAGE_SIZE != cr3 / PAGE_SIZE
      requires FrameAt(alloc.mem, newPml4 / PAGE_SIZE) == ZeroFrame()
      requires newPml4 / PAGE_SIZE in alloc.mem
      modifies alloc`mem
      ensures alloc.Valid()
      ensures alloc.View() == old(alloc.View()).(mem :=
        old(alloc.mem)[newPml4 / PAGE_SIZE := CopiedFrame(FrameAt(old(alloc.mem), cr3 / PAGE_SIZE))])
    {
      var boot := CurrentPml4();
      var b, f := boot / PAGE_SIZE, newPml4 / PAGE_SIZE;
      ghost var m := alloc.mem;
      for i := 0 to ENTRIES
        invariant alloc.Valid() && alloc.View() == old(alloc.View()).(mem := alloc.mem)
        invariant f in alloc.mem && alloc.mem == m[f := alloc.mem[f]]
        invariant forall j: nat :: j < i ==> alloc.mem[f][j] == CopiedFrame(FrameAt(m, b))[j]
        invariant forall j: nat :: i <= j < ENTRIES ==> alloc.mem[f][j] == 0
      {
        var e := Entry(alloc.mem, b, i);
        if Present(e) {
          alloc.Store(f, i, e);
        }
      }
      assert alloc.mem[f] == CopiedFrame(FrameAt(m, b));
    }

    /** `setup_kernel_mappings`; its 2 MB loop runs exactly once. */
    method SetupKernelMappings(pml4: nat) returns (ok: bool)
      requires alloc.Valid() && pml4 % PAGE_SIZE == 0 && Good(CurrentSpace(), pml4 / PAGE_SIZE)
      modifies this`tables, alloc, alloc.memoryMap
      ensures alloc.Valid()
      ensures (CurrentSpace(), ok) == Install(old(CurrentSpace()), pml4 / PAGE_SIZE, KERNEL_BASE, 3, KERNEL_LEAF)
    {
      ok := InstallLeaf(pml4, KERNEL_BASE, 3, KERNEL_LEAF);
    }

    /** The branch of `Init_Paging` that builds a new PML4; 0 when no page is left. */
    method BuildRoot() returns (pml4: nat)
      requires alloc.Valid() && Good(CurrentSpace(), cr3 / PAGE_SIZE)
      modifies this`tables, alloc, alloc.memoryMap
      ensures alloc.Valid() && pml4 % PAGE_SIZE == 0
      ensures Get(old(CurrentSpace()).pool).1.None? ==> pml4 == 0 && CurrentSpace() == old(CurrentSpace())
      ensures Get(old(CurrentSpace()).pool).1.Some? ==>
        pml4 != 0 && (CurrentSpace(), pml4 / PAGE_SIZE) == NewRoot(old(CurrentSpace()), cr3 / PAGE_SIZE)
    {
      ghost var s, c := CurrentSpace(), cr3 / PAGE_SIZE;
      pml4 := ClearedPage();
      if pml4 == 0 {
        return;
      }
      NewRootIs(s, c);
      CopyBootMappings(pml4);
      tables := tables[pml4 / PAGE_SIZE := []];
    }

    /** Picks the PML4 for `Init_Paging`: reuse the active one or build a new one. */
    method PickRoot(current: nat) returns (pml4: nat)
      requires alloc.Valid() && Good(CurrentSpace(), cr3 / PAGE_SIZE) && current == cr3 / PAGE_SIZE * PAGE_SIZE
      modifies this`tables, alloc, alloc.memoryMap
      ensures alloc.Valid() && pml4 % PAGE_SIZE == 0
      ensures CurrentSpace() == ChooseRoot(old(CurrentSpace()), cr3 / PAGE_SIZE).0
      ensures match ChooseRoot(old(CurrentSpace()), cr3 / PAGE_SIZE).1
        case None => pml4 == 0
        case Some(root) => pml4 == root * PAGE_SIZE && pml4 != 0
    {
      if 0x10_0000 <= current < 0x20_0000 {
        pml4 := current;
      } else {
        pml4 := BuildRoot();
      }
    }

    /** `Init_Paging`. */
    method InitPaging() returns (ghost ok: bool)
      requires alloc.Valid() && Good(CurrentSpace(), cr3 / PAGE_SIZE)
      modifies this, alloc, alloc.memoryMap
      ensures Valid()
      ensures (View(), ok) == KernelPaging.InitPaging(old(View()))
    {
      ghost var st := View();
      var current := CurrentPml4();
      var pml4 := PickRoot(current);
      kernelPml4 := pml4;
      if pml4 == 0 {
        return false;
      }
      InitPagingIs(st, CurrentSpace(), pml4 / PAGE_SIZE);
      var done := SetupKernelMappings(pml4);
      if pml4 != current {
        cr3 := pml4;
      }
      ok := done;
    }
  }

  lemma ZeroTwice(m: Memory, f: nat)
    ensures Zeroed(Zeroed(m, f), f) == Zeroed(m, f)
  {
  }
}
