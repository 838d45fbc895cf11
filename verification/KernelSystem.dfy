/**
 * Page tables, process table and the one page pool they share, as a single state machine, and what
 * holds over all of its runs.
 */
module KernelSystem {
  import opened Words
  import opened PhysicalMemory
  import opened PagePool
  import opened PageTables
  import opened Mappings
  import opened KernelPaging
  import opened Processes

  datatype System = System(paging: PageState, procs: Table)

  function PoolOf(s: System): Pool {
    s.paging.space.pool
  }

  function MemoryOf(s: System): Memory {
    s.paging.space.pool.mem
  }

  datatype Op =
    | MapOp(va: U64, pa: U64, flags: U64)
    | CreateOp(entry: U64)
    | ForkOp
    | ExitOp(status: U32, sp: U64)
    | ScheduleOp(sp: U64)
    | BrkOp(address: U64)

  /** `get_kernel_page_table`: the address of the kernel root, 0 before there is one. */
  function KernelTable(st: PageState): nat {
    if st.kernelPml4.Some? then st.kernelPml4.value * PAGE_SIZE else 0
  }

  function WithPool(st: PageState, p: Pool): PageState {
    st.(space := st.space.(pool := p))
  }

  ghost function Step(s: System, op: Op): System
    requires Inv(s)
  {
    match op
    case MapOp(va, pa, flags) => s.(paging := MapPage(s.paging, va, pa, flags).0)
    case CreateOp(entry) =>
      var (p, t, _) := Create(PoolOf(s), s.procs, KernelTable(s.paging), entry);
      System(WithPool(s.paging, p), t)
    case ForkOp =>
      var (p, t, _) := Fork(PoolOf(s), s.procs, KernelTable(s.paging));
      System(WithPool(s.paging, p), t)
    case ExitOp(status, sp) => s.(procs := Exit(s.procs, status, sp))
    case ScheduleOp(sp) => s.(procs := Schedule(s.procs, sp))
    case BrkOp(address) => s.(procs := Brk(s.procs, address))
  }

  // ---------------------------------------------------------------- the invariant

  /** The pages in use are the page tables and the stacks, all of them different pages. */
  ghost predicate Accounted(s: System) {
    && UsedPages(PoolOf(s)) == TablePages(s.paging.space) + StackPages(s.procs.slots)
    && TablePages(s.paging.space) !! StackPages(s.procs.slots)
    && StacksDistinct(s.procs.slots)
  }

  ghost predicate Inv(s: System) {
    Sound(s.paging) && Ordered(s.procs) && Accounted(s)
  }

  /** `used_pages` is the number of table pages plus two for every process created. */
  lemma UsedPagesFormula(s: System)
    requires Inv(s)
    ensures PoolOf(s).used == |TablePages(s.paging.space)| + 2 * Created(s.procs.slots)
  {
    UsedCount(PoolOf(s));
    StackCount(s.procs.slots);
  }

  // ---------------------------------------------------------------- steps keep it

  /** Taking or returning free pages disturbs no page table. */
  lemma PoolSwap(st: PageState, q: Pool)
    requires Sound(st) && Valid(q) && OnlyFreeFrames(st.space.pool, q) && q.free <= st.space.pool.free
    ensures Sound(WithPool(st, q))
    ensures forall f: nat, i: nat :: f in st.space.tables && i < ENTRIES ==>
        Entry(q.mem, f, i) == Entry(st.space.pool.mem, f, i)
  {
    var m := st.space.pool.mem;
    forall f: nat, i: nat | f in st.space.tables && i < ENTRIES ensures Entry(q.mem, f, i) == Entry(m, f, i) {
      assert f >= FIRST_FRAME ==> f - FIRST_FRAME !in st.space.pool.free;
    }
  }

  lemma CreateAccounted(s: System, entry: U64)
    requires Inv(s)
    ensures Inv(Step(s, CreateOp(entry)))
  {
    var p, t, pt := PoolOf(s), s.procs, KernelTable(s.paging);
    CreateOrdered(p, t, pt, entry);
    CreatePages(p, t, pt, entry);
    PoolSwap(s.paging, Create(p, t, pt, entry).0);
    CreateBooks(s, entry);
  }

  lemma CreateBooks(s: System, entry: U64)
    requires Valid(PoolOf(s)) && Ordered(s.procs) && Accounted(s)
    ensures var (q, t, r) := Create(PoolOf(s), s.procs, KernelTable(s.paging), entry);
      Accounted(System(WithPool(s.paging, q), t))
  {
    var p, t, pt := PoolOf(s), s.procs, KernelTable(s.paging);
    CreatePages(p, t, pt, entry);
    FirstUnusedOrdered(t);
    if t.nextPid - 1 < MAX_PROCESSES {
      var proc := CreateShape(p, t, pt, entry);
      SlotFilled(s, Create(p, t, pt, entry).0, t.nextPid - 1, proc, Create(p, t, pt, entry).2.Some?);
    }
  }

  lemma TablePagesKept(st: PageState, q: Pool)
    requires q.total == st.space.pool.total
    ensures TablePages(WithPool(st, q).space) == TablePages(st.space)
  {
  }

  /** Putting a process with two fresh pages, or with none, into an empty slot keeps the accounts. */
  lemma SlotFilled(s: System, q: Pool, i: nat, proc: Process, ok: bool)
    requires Accounted(s) && i < |s.procs.slots| && !HasStacks(s.procs.slots[i])
    requires q.total == PoolOf(s).total && (HasStacks(proc) <==> ok)
    requires PoolOf(s).free <= Pages(q.total)
    requires if ok then TwoPages(PoolOf(s), q, proc) else q.free == PoolOf(s).free
    ensures var slots := s.procs.slots[i := proc];
      && UsedPages(q) == TablePages(WithPool(s.paging, q).space) + StackPages(slots)
      && TablePages(WithPool(s.paging, q).space) !! StackPages(slots)
      && StacksDistinct(slots)
  {
    var slots, p := s.procs.slots, PoolOf(s);
    TablePagesKept(s.paging, q);
    StackUpdate(slots, i, proc);
    assert Owned(proc) <= p.free;
    assert Owned(proc) !! UsedPages(p);
    if ok {
      assert q.free == p.free - Owned(proc);
      UsedGrows(p, q, Owned(proc));
    }
    StackUpdateDistinct(slots, i, proc);
  }

  lemma UsedGrows(p: Pool, q: Pool, taken: set<nat>)
    requires q.total == p.total && p.free <= Pages(p.total) && taken <= p.free && q.free == p.free - taken
    ensures UsedPages(q) == UsedPages(p) + taken
  {
  }

  lemma ForkAccounted(s: System)
    requires Inv(s)
    ensures Inv(Step(s, ForkOp))
  {
    var entry := s.procs.slots[s.procs.current.value].context.rip;
    CreateAccounted(s, entry);
    ForkStacks(PoolOf(s), s.procs, KernelTable(s.paging));
    StacksUntouched(Step(s, CreateOp(entry)), Fork(PoolOf(s), s.procs, KernelTable(s.paging)).1);
  }

  lemma MapAccounted(s: System, va: U64, pa: U64, flags: U64)
    requires Inv(s)
    ensures Inv(Step(s, MapOp(va, pa, flags)))
  {
    MapPageTranslation(s.paging, va, pa, flags, va);
    if s.paging.kernelPml4.Some? {
      var taken := InstallPages(s.paging.space, s.paging.cr3, va, 7, PageLeaf(pa, flags));
      TablesGrow(s, Step(s, MapOp(va, pa, flags)), taken);
    }
  }

  lemma TablesGrow(s: System, s': System, taken: set<nat>)
    requires Accounted(s) && s'.procs == s.procs && Takes(s.paging.space, s'.paging.space, taken)
    ensures Accounted(s')
  {
  }

  lemma StacksUntouched(s: System, t: Table)
    requires Inv(s) && Ordered(t) && SameStacks(s.procs.slots, t.slots)
    ensures Inv(s.(procs := t))
  {
    StacksKept(s.procs.slots, t.slots);
  }

  lemma StepInv(s: System, op: Op)
    requires Inv(s)
    ensures Inv(Step(s, op))
  {
    match op
    case MapOp(va, pa, flags) => MapAccounted(s, va, pa, flags);
    case CreateOp(entry) => CreateAccounted(s, entry);
    case ForkOp => ForkAccounted(s);
    case ExitOp(status, sp) =>
      BuryOrdered(s.procs, status);
      ScheduleOrdered(Bury(s.procs, status), sp);
      StacksUntouched(s, Exit(s.procs, status, sp));
    case ScheduleOp(sp) =>
      ScheduleOrdered(s.procs, sp);
      StacksUntouched(s, Schedule(s.procs, sp));
    case BrkOp(address) =>
      BrkOrdered(s.procs, address);
      StacksUntouched(s, Brk(s.procs, address));
  }

  ghost function Run(s: System, ops: seq<Op>): System
    requires Inv(s)
    decreases |ops|
  {
    if ops == [] then s
    else
      StepInv(s, ops[0]);
      Run(Step(s, ops[0]), ops[1..])
  }

  /** Safety over all runs: tree, table order and page accounts hold in every reachable state. */
  lemma {:induction false} RunInv(s: System, ops: seq<Op>)
    requires Inv(s)
    ensures Inv(Run(s, ops))
    ensures PoolOf(Run(s, ops)).used == |TablePages(Run(s, ops).paging.space)| + 2 * Created(Run(s, ops).procs.slots)
    decreases |ops|
  {
    if ops == [] {
      UsedPagesFormula(s);
    } else {
      StepInv(s, ops[0]);
      RunInv(Step(s, ops[0]), ops[1..]);
    }
  }

  // ---------------------------------------------------------------- booting

  /** `Init_Memory` is done and the boot loader's tables are active. */
  ghost predicate Booted(p: Pool) {
    Valid(p) && p.free == Pages(p.total) && BootLayout(p.mem)
  }

  function BootPaging(p: Pool): PageState {
    PageState(Space(p, BootTables()), None, 1)
  }

  lemma BootGood(p: Pool)
    requires Booted(p)
    ensures Good(BootPaging(p).space, 1) && TablePages(BootPaging(p).space) == {} == UsedPages(p)
  {
    BootTree(p.mem);
  }

  /** `Init_Paging` and then `InitProcessManager`, as `_kmain` calls them. */
  ghost function Boot(p: Pool, slots: seq<Process>, idleEntry: U64): System
    requires Booted(p) && |slots| == MAX_PROCESSES
  {
    BootGood(p);
    InitPagingTranslation(BootPaging(p), 0);
    var st := InitPaging(BootPaging(p)).0;
    var (q, t) := Init(st.space.pool, slots, KernelTable(st), idleEntry);
    System(WithPool(st, q), t)
  }

  /** The invariant holds from the start, even if an allocation fails while booting. */
  lemma BootInv(p: Pool, slots: seq<Process>, idleEntry: U64)
    requires Booted(p) && |slots| == MAX_PROCESSES
    ensures Inv(Boot(p, slots, idleEntry))
  {
    BootGood(p);
    InitPagingTranslation(BootPaging(p), 0);
    var st := InitPaging(BootPaging(p)).0;
    var taken := InitPagingPages(BootPaging(p));
    var t0 := Table(ResetAll(slots), None, 1, 0);
    NoStacks(t0.slots);
    OnlyTables(System(st, t0), taken);
    InitAccounted(System(st, t0), slots, idleEntry);
  }

  lemma OnlyTables(s: System, taken: set<nat>)
    requires UsedPages(PoolOf(s)) == taken == TablePages(s.paging.space)
    requires StackPages(s.procs.slots) == {} && StacksDistinct(s.procs.slots)
    ensures Accounted(s)
  {
  }

  lemma InitAccounted(s0: System, slots: seq<Process>, idleEntry: U64)
    requires Sound(s0.paging) && Accounted(s0)
    requires |slots| == MAX_PROCESSES && s0.procs == Table(ResetAll(slots), None, 1, 0)
    ensures var (q, t) := Init(PoolOf(s0), slots, KernelTable(s0.paging), idleEntry);
      Inv(System(WithPool(s0.paging, q), t))
  {
    var p, t0, pt := PoolOf(s0), s0.procs, KernelTable(s0.paging);
    var (q, t1, r) := Create(p, t0, pt, idleEntry);
    InitOrdered(p, slots, pt, idleEntry);
    InitShape(p, slots, pt, idleEntry);
    CreatePages(p, t0, pt, idleEntry);
    PoolSwap(s0.paging, q);
    SlotFilled(s0, q, 0, t1.slots[0], r.Some?);
    StacksKept(t1.slots, Init(p, slots, pt, idleEntry).1.slots);
  }

  /** Everything the invariant says holds in every state reachable from boot, whatever fails on the way. */
  lemma ReachableInv(p: Pool, slots: seq<Process>, idleEntry: U64, ops: seq<Op>)
    requires Booted(p) && |slots| == MAX_PROCESSES
    ensures Inv(Boot(p, slots, idleEntry))
    ensures var s := Run(Boot(p, slots, idleEntry), ops);
      && Inv(s) && s.procs.nextPid <= 65
      && PoolOf(s).used == |TablePages(s.paging.space)| + 2 * Created(s.procs.slots)
  {
    BootInv(p, slots, idleEntry);
    RunInv(Boot(p, slots, idleEntry), ops);
  }

  // ---------------------------------------------------------------- translations over runs

  /** The leaf a step writes over `va`, if it does. */
  ghost function Covers(s: System, op: Op, va: U64): Option<U64>
    requires Inv(s)
  {
    if op.MapOp? && MapPage(s.paging, op.va, op.pa, op.flags).1 && SameRegion(op.va, va)
    then Some(PageLeaf(op.pa, op.flags))
    else None
  }

  lemma StepTranslation(s: System, op: Op, va: U64)
    requires Inv(s) && Canonical(va)
    ensures var s' := Step(s, op);
      var r := InheritedRights(MemoryOf(s), s.paging.cr3, va, 7);
      && s'.paging.cr3 == s.paging.cr3
      && InheritedRights(MemoryOf(s'), s.paging.cr3, va, 7) == r
      && Walk(MemoryOf(s'), s.paging.cr3, va) == match Covers(s, op, va) {
           case Some(leaf) => LeafTranslation(leaf, 2, va, r)
           case None => Walk(MemoryOf(s), s.paging.cr3, va)
         }
  {
    match op
    case MapOp(va', pa, flags) => MapPageTranslation(s.paging, va', pa, flags, va);
    case CreateOp(entry) => CreateInvisible(s, entry, va);
    case ForkOp => CreateInvisible(s, s.procs.slots[s.procs.current.value].context.rip, va);
    case ExitOp(status, sp) =>
    case ScheduleOp(sp) =>
    case BrkOp(address) =>
  }

  lemma CreateInvisible(s: System, entry: U64, va: U64)
    requires Inv(s)
    ensures var q := Create(PoolOf(s), s.procs, KernelTable(s.paging), entry).0;
      && InheritedRights(q.mem, s.paging.cr3, va, 7) == InheritedRights(MemoryOf(s), s.paging.cr3, va, 7)
      && Walk(q.mem, s.paging.cr3, va) == Walk(MemoryOf(s), s.paging.cr3, va)
  {
    CreatePages(PoolOf(s), s.procs, KernelTable(s.paging), entry);
    var q := Create(PoolOf(s), s.procs, KernelTable(s.paging), entry).0;
    PoolSwap(s.paging, q);
    WalkKeeps(MemoryOf(s), q.mem, s.paging.space.tables, s.paging.cr3, 0, va, ALL_RIGHTS, 7);
  }

  /** The last leaf a run writes over `va`. */
  ghost function LastLeaf(s: System, ops: seq<Op>, va: U64): Option<U64>
    requires Inv(s)
    decreases |ops|
  {
    if ops == [] then None
    else
      StepInv(s, ops[0]);
      var later := LastLeaf(Step(s, ops[0]), ops[1..], va);
      if later.Some? then later else Covers(s, ops[0], va)
  }

  /**
   * The page tables implement an address space: after any run an address translates by the last
   * `map_page` that went through for its region, or as at the start if there was none. Processes
   * coming, forking, exiting and being scheduled never change a translation.
   */
  lemma {:induction false} RunTranslation(s: System, ops: seq<Op>, va: U64)
    requires Inv(s) && Canonical(va)
    ensures var s' := Run(s, ops);
      var r := InheritedRights(MemoryOf(s), s.paging.cr3, va, 7);
      && s'.paging.cr3 == s.paging.cr3
      && Walk(MemoryOf(s'), s'.paging.cr3, va) == match LastLeaf(s, ops, va) {
           case Some(leaf) => LeafTranslation(leaf, 2, va, r)
           case None => Walk(MemoryOf(s), s.paging.cr3, va)
         }
    decreases |ops|
  {
    if ops != [] {
      StepInv(s, ops[0]);
      StepTranslation(s, ops[0], va);
      RunTranslation(Step(s, ops[0]), ops[1..], va);
    }
  }

  // ---------------------------------------------------------------- the process counter over runs

  /** A step after which the counter falls one short of the truth: a creation without stacks, or an exit by a zombie. */
  ghost predicate Drifts(s: System, op: Op)
    requires Inv(s)
  {
    match op
    case CreateOp(_) => s.procs.nextPid - 1 < MAX_PROCESSES && PoolOf(s).total < PoolOf(s).used + 2
    case ForkOp => s.procs.nextPid - 1 < MAX_PROCESSES && PoolOf(s).total < PoolOf(s).used + 2
    case ExitOp(_, _) => s.procs.slots[s.procs.current.value].state.Zombie?
    case _ => false
  }

  ghost function Drift(s: System, ops: seq<Op>): nat
    requires Inv(s)
    decreases |ops|
  {
    if ops == [] then 0
    else
      StepInv(s, ops[0]);
      (if Drifts(s, ops[0]) then 1 else 0) + Drift(Step(s, ops[0]), ops[1..])
  }

  lemma StepGap(s: System, op: Op) returns (laps: int)
    requires Inv(s)
    ensures GapMoves(s.procs, Step(s, op).procs, if Drifts(s, op) then 1 else 0, laps)
  {
    var t := s.procs;
    laps := 0;
    match op
    case MapOp(va, pa, flags) =>
    case CreateOp(entry) => laps := CreateGap(PoolOf(s), t, KernelTable(s.paging), entry);
    case ForkOp => laps := ForkGap(PoolOf(s), t, KernelTable(s.paging));
    case ExitOp(status, sp) => laps := ExitGap(t, status, sp);
    case ScheduleOp(sp) => QuietGap(t, sp, 0);
    case BrkOp(address) => QuietGap(t, 0, address);
  }

  lemma {:induction false} RunGap(s: System, ops: seq<Op>) returns (laps: int)
    requires Inv(s)
    ensures GapMoves(s.procs, Run(s, ops).procs, Drift(s, ops), laps)
    decreases |ops|
  {
    laps := 0;
    if ops != [] {
      var s' := Step(s, ops[0]);
      StepInv(s, ops[0]);
      var l := StepGap(s, ops[0]);
      var m := RunGap(s', ops[1..]);
      laps := l + m;
      GapMovesOn(s.procs, s'.procs, Run(s', ops[1..]).procs,
                 if Drifts(s, ops[0]) then 1 else 0, Drift(s', ops[1..]), l, m);
    }
  }

  /**
   * Over every run the counter misses the number of live processes by exactly the number of
   * drifting steps (modulo 2^32), so it is right if and only if that number is a multiple of 2^32:
   * for any real run, exactly when no creation failed for want of stacks and no zombie exited.
   */
  lemma CountLaw(s: System, ops: seq<Op>)
    requires Inv(s) && s.procs.count == Live(s.procs.slots)
    ensures Run(s, ops).procs.count == Live(Run(s, ops).procs.slots) <==> Drift(s, ops) % 0x1_0000_0000 == 0
  {
    var laps := RunGap(s, ops);
    RunInv(s, ops);
    GapClosed(s.procs, Run(s, ops).procs, Drift(s, ops), laps);
  }

  /** The law from boot: one live process and a counter of one. */
  lemma CountLawFromBoot(p: Pool, slots: seq<Process>, idleEntry: U64, ops: seq<Op>)
    requires Booted(p) && |slots| == MAX_PROCESSES
    ensures Inv(Boot(p, slots, idleEntry))
    ensures var s := Boot(p, slots, idleEntry);
      Run(s, ops).procs.count == Live(Run(s, ops).procs.slots) <==> Drift(s, ops) % 0x1_0000_0000 == 0
  {
    BootInv(p, slots, idleEntry);
    BootCounts(p, slots, idleEntry);
    CountLaw(Boot(p, slots, idleEntry), ops);
  }

  lemma BootCounts(p: Pool, slots: seq<Process>, idleEntry: U64)
    requires Booted(p) && |slots| == MAX_PROCESSES
    ensures var t := Boot(p, slots, idleEntry).procs;
      Ordered(t) && t.count == 1 == Live(t.slots) && t.nextPid == 2 && t.current == Some(0)
  {
    BootGood(p);
    InitPagingTranslation(BootPaging(p), 0);
    var st := InitPaging(BootPaging(p)).0;
    InitOrdered(st.space.pool, slots, KernelTable(st), idleEntry);
  }

  /** One creation without stacks is enough: its slot is READY but not counted. */
  lemma FailedCreateMiscounts(s: System, entry: U64)
    requires Inv(s) && s.procs.count == Live(s.procs.slots)
    requires s.procs.nextPid - 1 < MAX_PROCESSES && PoolOf(s).total < PoolOf(s).used + 2
    ensures var t := Step(s, CreateOp(entry)).procs;
      && |t.slots| == MAX_PROCESSES && t.slots[s.procs.nextPid - 1].state.Ready? && t.count != Live(t.slots)
  {
    FirstUnusedOrdered(s.procs);
    var proc := CreateShape(PoolOf(s), s.procs, KernelTable(s.paging), entry);
    LiveUpdate(s.procs.slots, s.procs.nextPid - 1, proc);
  }

  // ---------------------------------------------------------------- bounded waiting

  /** A call of `schedule` that gets past its early return. */
  predicate Effective(t: Table, op: Op)
    requires Active(t)
  {
    match op
    case ScheduleOp(_) => t.count > 1
    case ExitOp(status, _) => Bury(t, status).count > 1
    case _ => false
  }

  ghost function Calls(s: System, ops: seq<Op>): nat
    requires Inv(s)
    decreases |ops|
  {
    if ops == [] then 0
    else
      StepInv(s, ops[0]);
      (if Effective(s.procs, ops[0]) then 1 else 0) + Calls(Step(s, ops[0]), ops[1..])
  }

  /** Slot `j` is current after some prefix of the run. */
  ghost predicate GetsTurn(s: System, ops: seq<Op>, j: nat)
    requires Inv(s)
    decreases |ops|
  {
    || s.procs.current == Some(j)
    || (ops != [] && (StepInv(s, ops[0]); GetsTurn(Step(s, ops[0]), ops[1..], j)))
  }

  /** Until its turn a waiting slot stays READY, and every effective call brings the turn closer. */
  lemma StepWaits(s: System, op: Op, j: nat)
    requires Inv(s) && Waiting(s.procs, j)
    ensures Nearer(s.procs, Step(s, op).procs, j, if Effective(s.procs, op) then 1 else 0)
  {
    var t := s.procs;
    match op
    case MapOp(va, pa, flags) =>
    case CreateOp(entry) => CreateWaits(PoolOf(s), t, KernelTable(s.paging), entry, j);
    case ForkOp => CreateWaits(PoolOf(s), t, KernelTable(s.paging), 0, j);
    case ExitOp(status, sp) => ExitWaits(t, status, sp, j);
    case ScheduleOp(sp) => ScheduleWaits(t, sp, j);
    case BrkOp(address) =>
  }

  lemma {:induction false} WaitingShrinks(s: System, ops: seq<Op>, j: nat)
    requires Inv(s) && Waiting(s.procs, j)
    ensures GetsTurn(s, ops, j) || Calls(s, ops) < Distance(s.procs.current.value, j)
    decreases |ops|
  {
    if ops != [] {
      StepInv(s, ops[0]);
      StepWaits(s, ops[0], j);
      var s' := Step(s, ops[0]);
      if s'.procs.current != Some(j) {
        WaitingShrinks(s', ops[1..], j);
      }
    }
  }

  /**
   * Bounded waiting: in any interleaving of mapping, creating, forking, exiting, growing and
   * scheduling, a READY slot becomes current within 63 effective scheduling calls.
   */
  lemma BoundedWaiting(s: System, ops: seq<Op>, j: nat)
    requires Inv(s) && Waiting(s.procs, j) && Calls(s, ops) >= MAX_PROCESSES - 1
    ensures GetsTurn(s, ops, j)
  {
    WaitingShrinks(s, ops, j);
  }
}
