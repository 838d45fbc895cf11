/** The three stateful parts together: booting them and running them follows the state machine. */
module Kernel {
  import opened Words
  import opened PhysicalMemory
  import opened PagePool
  import opened MemoryMap
  import opened Allocator
  import opened KernelPaging
  import opened PagingUnit
  import opened Processes
  import opened ProcessManagement
  import opened KernelSystem

  /** The kernel as one state, for parts that share one allocator. */
  ghost function SystemOf(paging: Paging, procs: ProcessManager): System
    reads paging, paging.alloc, procs, procs.processes
  {
    System(paging.View(), procs.View())
  }

  ghost predicate Wired(paging: Paging, procs: ProcessManager)
    reads paging, paging.alloc, paging.alloc.memoryMap, procs, procs.processes
  {
    && procs.alloc == paging.alloc && procs.paging == paging
    && paging.Valid() && procs.Valid()
  }

  /** `Init_Memory` on a fresh allocator over memory that holds the boot tables. */
  method BootMemory(mem: Memory, entries: seq<MapEntry>) returns (alloc: PageAllocator)
    requires |entries| < 0x1_0000 && BootLayout(mem)
    ensures fresh(alloc) && fresh(alloc.memoryMap) && alloc.Valid() && Booted(alloc.View())
    ensures alloc.mem == mem && EndFor(entries, alloc.memoryEnd) && alloc.totalPages == TotalPages(alloc.memoryEnd)
  {
    alloc := new PageAllocator(mem);
    alloc.Init(entries);
  }

  /** `InitProcessManager` on the zeroed static slots. */
  method StartProcesses(paging: Paging, idleEntry: U64)
    returns (procs: ProcessManager, ghost slots: seq<Process>, ghost st: PageState)
    requires paging.Valid()
    modifies paging.alloc, paging.alloc.memoryMap
    ensures procs.alloc == paging.alloc && procs.paging == paging && procs.Valid()
    ensures procs.current.Some? && BlankContexts(slots)
    ensures st == old(paging.View()) && Valid(st.space.pool)
    ensures SystemOf(paging, procs) == var (p, t) := Processes.Init(st.space.pool, slots, KernelTable(st), idleEntry);
      System(WithPool(st, p), t)
  {
    procs := new ProcessManager(paging.alloc, paging);
    slots, st := procs.processes[..], paging.View();
    assert KernelTable(st) == paging.kernelPml4;
    procs.Init(idleEntry);
    assert paging.View() == WithPool(st, paging.alloc.View());
  }

  /** The initialisation calls of `_kmain` end in the boot state of the machine, where its invariant holds. */
  method Kmain(mem: Memory, entries: seq<MapEntry>, idleEntry: U64) returns (paging: Paging, procs: ProcessManager)
    requires |entries| < 0x1_0000 && BootLayout(mem)
    ensures Wired(paging, procs) && procs.current.Some? && Inv(SystemOf(paging, procs))
    ensures exists p: Pool, slots: seq<Process> ::
      && Booted(p) && p.mem == mem && EndFor(entries, p.end) && p.end >= MEMORY_START && p.total == TotalPages(p.end)
      && BlankContexts(slots) && SystemOf(paging, procs) == Boot(p, slots, idleEntry)
  {
    var alloc := BootMemory(mem, entries);
    ghost var p := alloc.View();
    BootGood(p);
    paging := new Paging(alloc, 0x1000, BootTables());
    ghost var st := paging.View();
    assert st == BootPaging(p);
    ghost var ok := paging.InitPaging();
    ghost var slots, st1;
    procs, slots, st1 := StartProcesses(paging, idleEntry);
    assert SystemOf(paging, procs) == Boot(p, slots, idleEntry);
    BootInv(p, slots, idleEntry);
  }

  /** Every operation of the kernel is the corresponding step of the machine. */
  method Execute(paging: Paging, procs: ProcessManager, op: Op)
    requires Wired(paging, procs) && Inv(SystemOf(paging, procs))
    modifies paging, procs, procs.processes, paging.alloc, paging.alloc.memoryMap
    ensures Wired(paging, procs) && SystemOf(paging, procs) == Step(old(SystemOf(paging, procs)), op)
    ensures Inv(SystemOf(paging, procs))
  {
    StepInv(SystemOf(paging, procs), op);
    if op.MapOp? {
      ghost var s := SystemOf(paging, procs);
      ghost var ok := paging.MapPage(op.va, op.pa, op.flags);
      assert SystemOf(paging, procs) == Step(s, op);
    } else if op.CreateOp? || op.ForkOp? {
      ExecuteCreation(paging, procs, op);
    } else {
      ExecuteOnTable(paging, procs, op);
    }
  }

  /** The two operations that take pages for stacks. */
  method ExecuteCreation(paging: Paging, procs: ProcessManager, op: Op)
    requires Wired(paging, procs) && Inv(SystemOf(paging, procs)) && (op.CreateOp? || op.ForkOp?)
    modifies procs, procs.processes, paging.alloc, paging.alloc.memoryMap
    ensures Wired(paging, procs) && SystemOf(paging, procs) == Step(old(SystemOf(paging, procs)), op)
  {
    ghost var s := SystemOf(paging, procs);
    StepInv(s, op);
    assert KernelTable(s.paging) == paging.kernelPml4;
    if op.CreateOp? {
      var r := procs.CreateProcess(op.entry);
      assert SystemOf(paging, procs) == Step(s, op);
    } else {
      var r := procs.Fork();
      assert SystemOf(paging, procs) == Step(s, op);
    }
  }

  /** The operations that only touch the process table. */
  method ExecuteOnTable(paging: Paging, procs: ProcessManager, op: Op)
    requires Wired(paging, procs) && Inv(SystemOf(paging, procs)) && (op.ExitOp? || op.ScheduleOp? || op.BrkOp?)
    modifies procs, procs.processes
    ensures Wired(paging, procs) && SystemOf(paging, procs) == Step(old(SystemOf(paging, procs)), op)
  {
    ghost var s := SystemOf(paging, procs);
    match op
    case ExitOp(status, sp) =>
      procs.Exit(status, sp);
      assert SystemOf(paging, procs) == Step(s, op);
    case ScheduleOp(sp) =>
      procs.Schedule(sp);
      assert SystemOf(paging, procs) == Step(s, op);
    case BrkOp(address) =>
      var b := procs.Brk(address);
      assert SystemOf(paging, procs) == Step(s, op);
  }
}
