/** The process table and round-robin scheduler of kernel/process.c as steps on values. */
module Processes {
  import opened Words
  import opened PhysicalMemory
  import opened PagePool

  const MAX_PROCESSES: nat := 64
  const KERNEL_STACK_SIZE: nat := 4096
  const INITIAL_BRK: U64 := 0x40_0000

  datatype RunState = Unused | Running | Ready | Blocked | Zombie

  datatype Context = Context(
    r15: U64, r14: U64, r13: U64, r12: U64, r11: U64, r10: U64, r9: U64, r8: U64,
    rdi: U64, rsi: U64, rbp: U64, rbx: U64, rdx: U64, rcx: U64, rax: U64,
    rip: U64, cs: U64, rflags: U64, rsp: U64, ss: U64)

  datatype Process = Process(
    pid: U32, state: RunState, context: Context, pageTable: nat,
    kernelStack: nat, userStack: nat, exitCode: U32, parent: Option<nat>, brk: U64)

  datatype Table = Table(slots: seq<Process>, current: Option<nat>, nextPid: U32, count: U32)

  /** A zero-initialised static slot. */
  function ZeroProcess(): Process {
    Process(0, Unused, Context(0, 0, 0, 0, 0, 0, 0, 0, 0, 0, 0, 0, 0, 0, 0, 0, 0, 0, 0, 0), 0, 0, 0, 0, None, 0)
  }

  /** Static slots whose contexts are zero, as they are when the kernel starts. */
  ghost predicate BlankContexts(slots: seq<Process>) {
    && |slots| == 64
    && forall i :: 0 <= i < 64 ==>
         slots[i].context == Context(0, 0, 0, 0, 0, 0, 0, 0, 0, 0, 0, 0, 0, 0, 0, 0, 0, 0, 0, 0)
  }

  predicate InUse(p: Process) { !p.state.Unused? }
  predicate Alive(p: Process) { InUse(p) && !p.state.Zombie? }
  /** Both stacks were obtained. */
  predicate HasStacks(p: Process) { p.userStack != 0 }

  function NewContext(entry: U64, stackTop: U64): Context {
    Context(0, 0, 0, 0, 0, 0, 0, 0, 0, 0, 0, 0, 0, 0, 0, entry, 0x08, 0x202, stackTop, 0x10)
  }

  // ---------------------------------------------------------------- steps

  /** The first unused slot from `i` on, or the number of slots. */
  function FirstUnused(slots: seq<Process>, i: nat): (r: nat)
    requires i <= |slots|
    ensures i <= r <= |slots|
    ensures r < |slots| ==> !InUse(slots[r])
    ensures forall j :: i <= j < r ==> InUse(slots[j])
    decreases |slots| - i
  {
    if i == |slots| || !InUse(slots[i]) then i else FirstUnused(slots, i + 1)
  }

  /** The slot as `create_process` fills it before it asks for stacks. */
  function Claimed(p: Process, t: Table, pageTable: nat): Process {
    p.(pid := t.nextPid, state := Ready, pageTable := pageTable, parent := t.current, brk := INITIAL_BRK)
  }

  lemma FreePageBelowEnd(p: Pool)
    requires Valid(p) && p.free != {}
    ensures PageAddress(Least(p.free)) < MAX_MEMORY
  {
    GetIs(p, Least(p.free));
  }

  /**
   * The two stack allocations of `create_process`: pool, kernel stack, user stack, 0 being null.
   * A kernel stack whose partner cannot be had is given back.
   */
  ghost function TakeStacks(p: Pool): (r: (Pool, nat, nat))
    requires Valid(p)
    ensures r.1 < MAX_MEMORY
  {
    if p.free == {} then (p, 0, 0)
    else
      var k := Least(p.free);
      var q := Get(p).0;
      GetValid(p);
      FreePageBelowEnd(p);
      if q.free == {} then (Release(q, PageAddress(k)), PageAddress(k), 0)
      else (Get(q).0, PageAddress(k), PageAddress(Least(q.free)))
  }

  /** The stack fields as they end up; after a first failure the second is never written. */
  function WithStacks(p: Process, kernelStack: nat, userStack: nat): Process {
    if kernelStack == 0 then p.(kernelStack := 0) else p.(kernelStack := kernelStack, userStack := userStack)
  }

  /** `create_process`: new pool, new table, and the slot of the new process or null. */
  ghost function Create(p: Pool, t: Table, pageTable: nat, entry: U64): (r: (Pool, Table, Option<nat>))
    requires Valid(p)
  {
    var i := FirstUnused(t.slots, 0);
    if i == |t.slots| then (p, t, None)
    else
      var (q, kernelStack, userStack) := TakeStacks(p);
      var proc := WithStacks(Claimed(t.slots[i], t, pageTable), kernelStack, userStack);
      var t1 := t.(nextPid := Inc32(t.nextPid));
      if kernelStack == 0 || userStack == 0 then (q, t1.(slots := t.slots[i := proc]), None)
      else
        var ready := proc.(context := NewContext(entry, kernelStack + KERNEL_STACK_SIZE));
        (q, t1.(slots := t.slots[i := ready], count := Inc32(t.count)), Some(i))
  }

  /** The scan of `schedule`: the first READY slot after `cur` in cyclic order, starting `k` places on. */
  function NextReady(slots: seq<Process>, cur: nat, k: nat): Option<nat>
    requires |slots| == MAX_PROCESSES && k <= MAX_PROCESSES
    decreases |slots| - k
  {
    if k == MAX_PROCESSES then None
    else if slots[(cur + k) % MAX_PROCESSES].state.Ready? then Some((cur + k) % MAX_PROCESSES)
    else NextReady(slots, cur, k + 1)
  }

  /** The index that turn `i` of the scan looks at. */
  function Probe(cur: nat, i: nat): nat {
    (cur + 1 + i) % MAX_PROCESSES
  }

  /** What the scan will answer if turns before `i` found nothing; the last turn is the process itself. */
  function FromProbe(slots: seq<Process>, cur: nat, i: nat): Option<nat>
    requires |slots| == MAX_PROCESSES && i <= MAX_PROCESSES
  {
    if i < MAX_PROCESSES then NextReady(slots, cur, 1 + i) else None
  }

  lemma FromProbeStep(slots: seq<Process>, cur: nat, i: nat)
    requires |slots| == MAX_PROCESSES && cur < MAX_PROCESSES && i < MAX_PROCESSES
    ensures Probe(cur, i) < MAX_PROCESSES && Probe(cur, i + 1) == (Probe(cur, i) + 1) % MAX_PROCESSES
    ensures FromProbe(slots, cur, i) ==
      if slots[Probe(cur, i)].state.Ready? && Probe(cur, i) != cur then Some(Probe(cur, i))
      else FromProbe(slots, cur, i + 1)
  {
    ProbeSteps(cur, i);
  }

  lemma ProbeSteps(cur: nat, i: nat)
    requires cur < MAX_PROCESSES && i < MAX_PROCESSES
    ensures (cur + 1 + i) % 64 == (if cur + 1 + i < 64 then cur + 1 + i else cur + 1 + i - 64)
    ensures ((cur + 1 + i) % 64 + 1) % 64 == (cur + 2 + i) % 64
  {
  }

  /** The table has its full size and someone is running. */
  predicate Active(t: Table) {
    |t.slots| == MAX_PROCESSES && t.current.Some? && t.current.value < MAX_PROCESSES
  }

  /**
   * `schedule`. `switch_process` stores the old stack pointer `sp` at offset 0 of the old context,
   * which is the field `r15`.
   */
  function Schedule(t: Table, sp: U64): Table
    requires Active(t)
  {
    if t.count <= 1 then t
    else
      var cur := t.current.value;
      match NextReady(t.slots, cur, 1)
      case None => t
      case Some(next) =>
        var was := t.slots[cur];
        t.(slots := t.slots[cur := was.(context := was.context.(r15 := sp))], current := Some(next))
  }

  /** The state change of `sys_exit_handler_real` before it calls `schedule`. */
  function Bury(t: Table, status: U32): Table
    requires Active(t)
  {
    var cur := t.current.value;
    t.(slots := t.slots[cur := t.slots[cur].(state := Zombie, exitCode := status)], count := Dec32(t.count))
  }

  function Exit(t: Table, status: U32, sp: U64): Table
    requires Active(t)
  {
    Schedule(Bury(t, status), sp)
  }

  /** `sys_fork_handler`; the result is the child's pid or -1 as an unsigned word. */
  ghost function Fork(p: Pool, t: Table, pageTable: nat): (r: (Pool, Table, U64))
    requires Valid(p) && Active(t)
  {
    var parent := t.slots[t.current.value];
    var (q, t', child) := Create(p, t, pageTable, parent.context.rip);
    match child
    case None => (q, t', TWO_64 - 1)
    case Some(i) =>
      var context := t'.slots[t.current.value].context.(rax := 0);
      (q, t'.(slots := t'.slots[i := t'.slots[i].(context := context)]), t'.slots[i].pid)
  }

  /** `sys_brk_handler`. */
  function Brk(t: Table, address: U64): Table
    requires Active(t)
  {
    if address == 0 then t
    else t.(slots := t.slots[t.current.value := t.slots[t.current.value].(brk := address)])
  }

  /** The slot as the reset loop of `InitProcessManager` leaves it. */
  function Reset(p: Process): Process {
    p.(state := Unused, pid := 0, parent := None, kernelStack := 0, userStack := 0, pageTable := 0)
  }

  function ResetAll(slots: seq<Process>): (r: seq<Process>)
    ensures |r| == |slots| && forall i :: 0 <= i < |r| ==> r[i] == Reset(slots[i])
  {
    seq(|slots|, i requires 0 <= i < |slots| => Reset(slots[i]))
  }

  /** The idle process becomes current, or slot 0 by hand if it could not be created. */
  function Adopt(t: Table, idle: Option<nat>, pageTable: nat): Table
    requires |t.slots| == MAX_PROCESSES && (idle.Some? ==> idle.value < MAX_PROCESSES)
  {
    match idle
    case Some(i) => t.(slots := t.slots[i := t.slots[i].(pid := 1)], current := Some(i))
    case None =>
      var first := t.slots[0].(pid := 1, state := RunState.Running, pageTable := pageTable, brk := INITIAL_BRK);
      t.(slots := t.slots[0 := first], current := Some(0), count := 1)
  }

  /** `InitProcessManager`, with the fallback for when the idle process gets no stacks. */
  ghost function Init(p: Pool, slots: seq<Process>, pageTable: nat, idleEntry: U64): (r: (Pool, Table))
    requires Valid(p) && |slots| == MAX_PROCESSES
  {
    var (q, t, idle) := Create(p, Table(ResetAll(slots), None, 1, 0), pageTable, idleEntry);
    (q, Adopt(t, idle, pageTable))
  }

  // ---------------------------------------------------------------- the table invariant

  /**
   * Slots fill from the bottom and are never reused: slot `i` is in use exactly when a pid `i + 1`
   * was given out, it carries that pid, and its parent sits strictly below it.
   */
  ghost predicate Ordered(t: Table) {
    && Active(t)
    && 2 <= t.nextPid <= MAX_PROCESSES + 1
    && t.current.value < t.nextPid - 1
    && (forall i :: 0 <= i < MAX_PROCESSES ==> (InUse(t.slots[i]) <==> i < t.nextPid - 1))
    && (forall i :: 0 <= i < t.nextPid - 1 ==> SlotOrdered(t.slots[i], i))
    && (forall i :: t.nextPid - 1 <= i < MAX_PROCESSES ==> !HasStacks(t.slots[i]))
  }

  predicate SlotOrdered(p: Process, i: nat) {
    && p.pid == i + 1
    && (i == 0 <==> p.parent.None?)
    && (p.parent.Some? ==> p.parent.value < i)
    && !p.state.Blocked?
    && (p.state.Running? ==> i == 0)
  }

  /** Pids are unique and nonzero among the slots in use. */
  lemma PidsUnique(t: Table, i: nat, j: nat)
    requires Ordered(t) && i < MAX_PROCESSES && j < MAX_PROCESSES && InUse(t.slots[i]) && InUse(t.slots[j])
    ensures t.slots[i].pid != 0 && (t.slots[i].pid == t.slots[j].pid ==> i == j)
  {
    assert SlotOrdered(t.slots[i], i) && SlotOrdered(t.slots[j], j);
  }

  /** The slot reached by following parent links as far as they go. */
  ghost function Ancestor(t: Table, i: nat): (r: nat)
    requires Ordered(t) && i < t.nextPid - 1
    decreases i
  {
    if t.slots[i].parent.None? then i
    else
      assert SlotOrdered(t.slots[i], i);
      Ancestor(t, t.slots[i].parent.value)
  }

  /** Parent chains have no cycle and all end at slot 0. */
  lemma {:induction false} ChainsEndAtIdle(t: Table, i: nat)
    requires Ordered(t) && i < t.nextPid - 1
    ensures Ancestor(t, i) == 0
    decreases i
  {
    assert SlotOrdered(t.slots[i], i);
    if t.slots[i].parent.Some? {
      ChainsEndAtIdle(t, t.slots[i].parent.value);
    }
  }

  lemma FirstUnusedOrdered(t: Table)
    requires Ordered(t)
    ensures FirstUnused(t.slots, 0) == t.nextPid - 1
  {
    var r := FirstUnused(t.slots, 0);
    assert r < |t.slots| ==> !InUse(t.slots[r]);
    assert t.nextPid - 1 < |t.slots| ==> !InUse(t.slots[t.nextPid - 1]);
  }

  /** The process a creation puts in its slot, whether it gets stacks or not. */
  ghost predicate Fresh(proc: Process, t: Table, ok: bool) {
    && proc.pid == t.nextPid && proc.state == Ready && proc.parent == t.current && proc.brk == 0x40_0000
    && (HasStacks(proc) <==> ok)
  }

  /** At its entry, on top of its own kernel stack, interrupts on, every other register clear. */
  ghost predicate StartsAt(proc: Process, entry: U64) {
    var c := proc.context;
    && c.rip == entry && c.rsp == proc.kernelStack + 4096 && c.rflags == 0x202 && c.cs == 0x08 && c.ss == 0x10
    && c.rax == 0 && c.rbx == 0 && c.rcx == 0 && c.rdx == 0 && c.rsi == 0 && c.rdi == 0 && c.rbp == 0
    && c.r8 == 0 && c.r9 == 0 && c.r10 == 0 && c.r11 == 0 && c.r12 == 0 && c.r13 == 0 && c.r14 == 0 && c.r15 == 0
  }

  /** Every creation that finds a slot fills that slot and nothing else; it succeeds on two free pages. */
  lemma CreateShape(p: Pool, t: Table, pageTable: nat, entry: U64) returns (proc: Process)
    requires Valid(p) && FirstUnused(t.slots, 0) < |t.slots| && !HasStacks(t.slots[FirstUnused(t.slots, 0)])
    ensures var i := FirstUnused(t.slots, 0);
      var (q, t', r) := Create(p, t, pageTable, entry);
      && t' == Table(t.slots[i := proc], t.current, Inc32(t.nextPid), if r.Some? then Inc32(t.count) else t.count)
      && Fresh(proc, t, r.Some?) && proc.pageTable == pageTable && proc.exitCode == t.slots[i].exitCode
      && (if r.Some? then r.value == i && StartsAt(proc, entry) else proc.context == t.slots[i].context)
      && (r.Some? <==> |p.free| >= 2)
      && (r.Some? <==> p.total >= p.used + 2)
  {
    var i := FirstUnused(t.slots, 0);
    var (q, t', r) := Create(p, t, pageTable, entry);
    proc := t'.slots[i];
    if p.free != {} {
      var k := Least(p.free);
      assert p.free == (p.free - {k}) + {k};
      assert |Get(p).0.free| == |p.free| - 1;
    }
  }

  /** With every slot in use a creation changes nothing at all. */
  lemma CreateFull(p: Pool, t: Table, pageTable: nat, entry: U64)
    requires Valid(p) && forall i :: 0 <= i < |t.slots| ==> InUse(t.slots[i])
    ensures Create(p, t, pageTable, entry) == (p, t, None)
  {
  }

  /**
   * Which pages become the stacks: the lowest free one the kernel stack, the next one the user stack,
   * both cleared. With one page left the slot keeps that address although the page goes back, with
   * none it gets null. No other frame changes.
   */
  lemma CreateStacks(p: Pool, t: Table, pageTable: nat, entry: U64)
    requires Valid(p) && FirstUnused(t.slots, 0) < |t.slots| && !HasStacks(t.slots[FirstUnused(t.slots, 0)])
    ensures var (q, t', r) := Create(p, t, pageTable, entry);
      var proc := t'.slots[FirstUnused(t.slots, 0)];
      if p.free == {} then q == p && proc.kernelStack == 0 && proc.userStack == 0
      else
        var k := Least(p.free);
        && proc.kernelStack == 0x10_0000 + 0x1000 * k
        && if p.free == {k} then proc.userStack == 0 && q == p.(mem := p.mem[256 + k := ZeroFrame()])
           else
             var u := Least(p.free - {k});
             && proc.userStack == 0x10_0000 + 0x1000 * u
             && q.mem == p.mem[256 + k := ZeroFrame()][256 + u := ZeroFrame()]
  {
    if p.free != {} {
      var k, q := Least(p.free), Get(p).0;
      GetIs(p, k);
      if q.free == {} {
        assert p.free == {k} + (p.free - {k});
        GetThenRelease(p);
      } else {
        GetIs(q, Least(q.free));
      }
    }
  }

  lemma CreateOrdered(p: Pool, t: Table, pageTable: nat, entry: U64)
    requires Valid(p) && Ordered(t)
    ensures var (q, t', r) := Create(p, t, pageTable, entry);
      && Ordered(t') && t'.current == t.current
      && (r.Some? ==> r.value == t.nextPid - 1 < MAX_PROCESSES)
      && (forall i :: 0 <= i < MAX_PROCESSES && i != t.nextPid - 1 ==> t'.slots[i] == t.slots[i])
  {
    FirstUnusedOrdered(t);
    if t.nextPid - 1 < MAX_PROCESSES {
      var proc := CreateShape(p, t, pageTable, entry);
      var t' := Create(p, t, pageTable, entry).1;
      forall i | 0 <= i < t'.nextPid - 1 ensures SlotOrdered(t'.slots[i], i) {
        assert i < t.nextPid - 1 ==> SlotOrdered(t.slots[i], i);
      }
    }
  }

  /** `create_process` is all or nothing on pages: two fresh pages, or the pool as it was. */
  lemma CreatePages(p: Pool, t: Table, pageTable: nat, entry: U64)
    requires Valid(p)
    ensures var (q, t', r) := Create(p, t, pageTable, entry);
      && Valid(q) && q.total == p.total && q.end == p.end
      && OnlyFreeFrames(p, q)
      && (r.None? ==> q.free == p.free && q.used == p.used)
      && (r.Some? ==> r.value < |t'.slots| && TwoPages(p, q, t'.slots[r.value]))
  {
    if FirstUnused(t.slots, 0) < |t.slots| && p.free != {} {
      var q := Get(p).0;
      GetValid(p);
      if q.free == {} {
        GetThenRelease(p);
      } else {
        TakeTwo(p);
      }
    }
  }

  lemma TakeTwo(p: Pool)
    requires Valid(p) && p.free != {} && Valid(Get(p).0) && Get(p).0.free != {}
    ensures var k := Least(p.free);
      var u := Least(Get(p).0.free);
      var q := Get(Get(p).0).0;
      && Valid(q) && q.total == p.total && q.end == p.end && OnlyFreeFrames(p, q)
      && StackPage(PageAddress(k)) == k && StackPage(PageAddress(u)) == u
      && k != u && k in p.free && u in p.free && q.free == p.free - {k, u}
  {
    var k, q := Least(p.free), Get(p).0;
    GetIs(p, k);
    GetIs(q, Least(q.free));
    assert p.free - {k} - {Least(q.free)} == p.free - {k, Least(q.free)};
  }

  /** Only frames of pages that were free may have changed. */
  ghost predicate OnlyFreeFrames(p: Pool, q: Pool) {
    forall f: nat :: FrameAt(q.mem, f) == FrameAt(p.mem, f) || (f >= FIRST_FRAME && f - FIRST_FRAME in p.free)
  }

  /** The page a stack address lies at. */
  function StackPage(address: nat): nat {
    if address < MEMORY_START then 0 else (address - MEMORY_START) / PAGE_SIZE
  }

  /** The process owns two distinct pages that were free before and are gone from the pool now. */
  ghost predicate TwoPages(p: Pool, q: Pool, proc: Process) {
    var k, u := StackPage(proc.kernelStack), StackPage(proc.userStack);
    && proc.kernelStack == PageAddress(k) && proc.userStack == PageAddress(u)
    && k != u && k in p.free && u in p.free && q.free == p.free - {k, u}
  }

  /**
   * `sys_fork_handler`: on success it returns the old `next_pid`, takes two fresh pages, the child's
   * context is the parent's saved one with `rax` = 0 (so also its `rsp` field), and nothing
   * else moves. The child is READY and counted, with the break of a new process and not its parent's.
   * On failure the pool is as it was and the counter stays, but a slot that was free is READY.
   */
  lemma ForkEffect(p: Pool, t: Table, pageTable: nat)
    requires Valid(p) && Ordered(t)
    ensures var (q, t', r) := Fork(p, t, pageTable);
      var cur := t.current.value;
      && Ordered(t') && t'.current == t.current
      && (forall i :: 0 <= i < MAX_PROCESSES && i != t.nextPid - 1 ==> t'.slots[i] == t.slots[i])
      && (r == 0xFFFF_FFFF_FFFF_FFFF <==> t.nextPid - 1 == MAX_PROCESSES || |p.free| < 2)
      && Valid(q) && OnlyFreeFrames(p, q)
      && (r == TWO_64 - 1 ==> q.free == p.free && q.used == p.used)
      && (r != TWO_64 - 1 ==>
           var child := t'.slots[t.nextPid - 1];
           && TwoPages(p, q, child)
           && r == t.nextPid && child.pid == t.nextPid && child.parent == Some(cur)
           && child.context == t.slots[cur].context.(rax := 0)
           && child.context.rsp == t.slots[cur].context.rsp)
      && (t.nextPid - 1 == MAX_PROCESSES ==> t' == t)
      && (t.nextPid - 1 < MAX_PROCESSES ==>
           var child, was := t'.slots[t.nextPid - 1], t.slots[t.nextPid - 1];
           && t'.nextPid == t.nextPid + 1
           && t'.count == (if r != TWO_64 - 1 then Inc32(t.count) else t.count)
           && child.pid == t.nextPid && child.state == Ready && child.parent == Some(cur)
           && child.brk == 0x40_0000 && child.pageTable == pageTable && child.exitCode == was.exitCode
           && (r == TWO_64 - 1 ==> child.context == was.context))
  {
    FirstUnusedOrdered(t);
    var entry := t.slots[t.current.value].context.rip;
    CreateOrdered(p, t, pageTable, entry);
    CreatePages(p, t, pageTable, entry);
    if t.nextPid - 1 < MAX_PROCESSES {
      var proc := CreateShape(p, t, pageTable, entry);
      var t1 := Create(p, t, pageTable, entry).1;
      var t' := Fork(p, t, pageTable).1;
      assert SlotOrdered(t1.slots[t.nextPid - 1], t.nextPid - 1);
      forall i | 0 <= i < t'.nextPid - 1 ensures SlotOrdered(t'.slots[i], i) {
        assert SlotOrdered(t1.slots[i], i);
      }
    }
  }

  // ---------------------------------------------------------------- scheduling

  /** How many places after `cur` slot `j` comes in cyclic order: (j - cur) mod 64. */
  function Distance(cur: nat, j: nat): (d: nat)
    requires cur < MAX_PROCESSES && j < MAX_PROCESSES
    ensures d < MAX_PROCESSES && (cur + d) % MAX_PROCESSES == j
  {
    if j >= cur then j - cur else j + MAX_PROCESSES - cur
  }

  /** The scan stops at the nearest READY slot. */
  lemma {:induction false} NextReadyNearest(slots: seq<Process>, cur: nat, k: nat, j: nat)
    requires |slots| == MAX_PROCESSES && cur < MAX_PROCESSES && j < MAX_PROCESSES && slots[j].state.Ready?
    requires 1 <= k <= Distance(cur, j)
    ensures var next := NextReady(slots, cur, k);
      && next.Some? && next.value < MAX_PROCESSES && next.value != cur && slots[next.value].state.Ready?
      && k <= Distance(cur, next.value) <= Distance(cur, j)
    decreases MAX_PROCESSES - k
  {
    var n := (cur + k) % MAX_PROCESSES;
    assert Distance(cur, n) == k;
    if !slots[n].state.Ready? {
      NextReadyNearest(slots, cur, k + 1, j);
    }
  }

  lemma {:induction false} NextReadyIsReady(slots: seq<Process>, cur: nat, k: nat)
    requires |slots| == MAX_PROCESSES && cur < MAX_PROCESSES && 1 <= k <= MAX_PROCESSES
    ensures var next := NextReady(slots, cur, k);
      next.Some? ==> next.value < MAX_PROCESSES && next.value != cur && slots[next.value].state.Ready?
    decreases MAX_PROCESSES - k
  {
    if k < MAX_PROCESSES && !slots[(cur + k) % MAX_PROCESSES].state.Ready? {
      NextReadyIsReady(slots, cur, k + 1);
    }
  }

  /** `schedule` switches exactly when more than one process is counted and another slot is READY. */
  lemma ScheduleSwitchesIff(t: Table, sp: U64)
    requires Active(t)
    ensures t.count <= 1 ==> Schedule(t, sp) == t
    ensures Schedule(t, sp).current != t.current
      <==> t.count > 1 && exists j :: 0 <= j < MAX_PROCESSES && j != t.current.value && t.slots[j].state.Ready?
  {
    NextReadyIsReady(t.slots, t.current.value, 1);
    if t.count > 1 && exists j :: 0 <= j < MAX_PROCESSES && j != t.current.value && t.slots[j].state.Ready? {
      var j :| 0 <= j < MAX_PROCESSES && j != t.current.value && t.slots[j].state.Ready?;
      ScheduleCloser(t, sp, j);
    }
  }

  /** Each effective call lands on a waiting slot or brings the running one strictly closer to it. */
  lemma ScheduleCloser(t: Table, sp: U64, j: nat)
    requires Active(t) && j < MAX_PROCESSES && t.slots[j].state.Ready? && t.current != Some(j) && t.count > 1
    ensures var t' := Schedule(t, sp);
      && Active(t') && t'.current != t.current && t'.slots[t'.current.value].state.Ready?
      && (t'.current != Some(j) ==> 0 < Distance(t'.current.value, j) < Distance(t.current.value, j))
  {
    var cur := t.current.value;
    NextReadyNearest(t.slots, cur, 1, j);
  }

  /** A context switch touches one word: word 0 of the context switched away from. */
  lemma ScheduleEffect(t: Table, sp: U64)
    requires Active(t)
    ensures var t' := Schedule(t, sp);
      var cur := t.current.value;
      && Active(t') && t'.nextPid == t.nextPid && t'.count == t.count
      && (t'.current == t.current ==> t' == t)
      && (t'.current != t.current ==> t'.slots[cur].context.r15 == sp)
      && t'.slots[cur].(context := t'.slots[cur].context.(r15 := t.slots[cur].context.r15)) == t.slots[cur]
      && (forall i :: 0 <= i < MAX_PROCESSES && i != cur ==> t'.slots[i] == t.slots[i])
  {
    NextReadyIsReady(t.slots, t.current.value, 1);
  }

  lemma ScheduleOrdered(t: Table, sp: U64)
    requires Ordered(t)
    ensures Ordered(Schedule(t, sp))
    ensures forall i :: 0 <= i < MAX_PROCESSES ==> Schedule(t, sp).slots[i].state == t.slots[i].state
    ensures Schedule(t, sp).count == t.count
  {
    NextReadyIsReady(t.slots, t.current.value, 1);
    var t' := Schedule(t, sp);
    forall i | 0 <= i < t.nextPid - 1 ensures SlotOrdered(t'.slots[i], i) {
      assert SlotOrdered(t.slots[i], i);
    }
  }

  lemma BuryOrdered(t: Table, status: U32)
    requires Ordered(t)
    ensures Ordered(Bury(t, status))
  {
    var t' := Bury(t, status);
    forall i | 0 <= i < t.nextPid - 1 ensures SlotOrdered(t'.slots[i], i) {
      assert SlotOrdered(t.slots[i], i);
    }
  }

  lemma BrkOrdered(t: Table, address: U64)
    requires Ordered(t)
    ensures Ordered(Brk(t, address))
  {
    var t' := Brk(t, address);
    forall i | 0 <= i < t.nextPid - 1 ensures SlotOrdered(t'.slots[i], i) {
      assert SlotOrdered(t.slots[i], i);
    }
  }

  /** `brk` with null changes nothing; with an address it changes the break of the current slot alone. */
  lemma BrkEffect(t: Table, address: U64)
    requires Active(t)
    ensures var t', cur := Brk(t, address), t.current.value;
      && (address == 0 ==> t' == t)
      && t'.current == t.current && t'.nextPid == t.nextPid && t'.count == t.count && |t'.slots| == |t.slots|
      && (forall i :: 0 <= i < |t.slots| && i != cur ==> t'.slots[i] == t.slots[i])
      && t'.slots[cur].brk == (if address != 0 then address else t.slots[cur].brk)
      && t'.slots[cur].(brk := t.slots[cur].brk) == t.slots[cur]
  {
  }

  /**
   * What an exit touches: state and status of the exiting slot, the counter, and, if another process
   * takes over, who is current and word 0 of the slot switched away from. Nothing else.
   */
  lemma ExitEffect(t: Table, status: U32, sp: U64)
    requires Ordered(t)
    ensures var t' := Exit(t, status, sp);
      var cur := t.current.value;
      var was, now := t.slots[cur], t'.slots[cur];
      && Active(t') && t'.nextPid == t.nextPid && t'.count == (if t.count == 0 then 0xFFFF_FFFF else t.count - 1)
      && (forall i :: 0 <= i < MAX_PROCESSES && i != cur ==> t'.slots[i] == t.slots[i])
      && now.state == Zombie && now.exitCode == status
      && now.context.r15 == (if t'.current != t.current then sp else was.context.r15)
      && now.(state := was.state, exitCode := was.exitCode, context := now.context.(r15 := was.context.r15)) == was
      && (t'.current != t.current <==>
            && (t.count == 0 || t.count > 2)
            && exists j :: 0 <= j < MAX_PROCESSES && j != cur && t.slots[j].state.Ready?)
  {
    var b := Bury(t, status);
    ScheduleEffect(b, sp);
    ScheduleSwitchesIff(b, sp);
    forall j | 0 <= j < MAX_PROCESSES && j != t.current.value ensures b.slots[j] == t.slots[j] {
    }
  }

  // ---------------------------------------------------------------- counting live processes

  function Live(slots: seq<Process>): (n: nat)
    ensures n <= |slots|
  {
    if slots == [] then 0
    else Live(slots[..|slots| - 1]) + (if Alive(slots[|slots| - 1]) then 1 else 0)
  }

  lemma {:induction false} LiveUpdate(slots: seq<Process>, i: nat, p: Process)
    requires i < |slots|
    ensures Live(slots[i := p]) == Live(slots) - (if Alive(slots[i]) then 1 else 0) + (if Alive(p) then 1 else 0)
  {
    var n := |slots| - 1;
    if i == n {
      assert slots[i := p][..n] == slots[..n];
    } else {
      LiveUpdate(slots[..n], i, p);
      assert slots[i := p][..n] == slots[..n][i := p];
    }
  }

  lemma {:induction false} LiveNone(slots: seq<Process>)
    requires forall i :: 0 <= i < |slots| ==> !InUse(slots[i])
    ensures Live(slots) == 0
  {
    if slots != [] {
      LiveNone(slots[..|slots| - 1]);
    }
  }

  lemma {:induction false} LivePositive(slots: seq<Process>, i: nat)
    requires i < |slots| && Alive(slots[i])
    ensures Live(slots) >= 1
  {
    if i < |slots| - 1 {
      LivePositive(slots[..|slots| - 1], i);
    }
  }

  /** Some live slot other than `i` exists whenever more than slot `i` itself is counted. */
  lemma {:induction false} LiveWitness(slots: seq<Process>, i: nat) returns (j: nat)
    requires Live(slots) > (if i < |slots| && Alive(slots[i]) then 1 else 0)
    ensures j < |slots| && j != i && Alive(slots[j])
  {
    var n := |slots| - 1;
    if Alive(slots[n]) && n != i {
      j := n;
    } else {
      j := LiveWitness(slots[..n], i);
    }
  }

  /** `InitProcessManager` is one creation followed by edits that touch no stack. */
  lemma InitShape(p: Pool, slots: seq<Process>, pageTable: nat, idleEntry: U64)
    requires Valid(p) && |slots| == MAX_PROCESSES
    ensures var t0 := Table(ResetAll(slots), None, 1, 0);
      var (q, t1, r) := Create(p, t0, pageTable, idleEntry);
      var (q', t) := Init(p, slots, pageTable, idleEntry);
      && q' == q && t1.slots == t0.slots[0 := t1.slots[0]] && (HasStacks(t1.slots[0]) <==> r.Some?)
      && (r.Some? ==> r.value == 0) && SameStacks(t1.slots, t.slots)
  {
    var t0 := Table(ResetAll(slots), None, 1, 0);
    assert FirstUnused(t0.slots, 0) == 0;
    var proc := CreateShape(p, t0, pageTable, idleEntry);
  }

  /** `InitProcessManager` sets up an ordered table with exactly one live, counted process. */
  lemma InitOrdered(p: Pool, slots: seq<Process>, pageTable: nat, idleEntry: U64)
    requires Valid(p) && |slots| == MAX_PROCESSES
    ensures var (q, t) := Init(p, slots, pageTable, idleEntry);
      && Ordered(t) && t.current == Some(0) && t.count == 1 && Live(t.slots) == 1 && t.nextPid == 2
      && (forall i :: 1 <= i < MAX_PROCESSES ==> !HasStacks(t.slots[i]))
      && (HasStacks(t.slots[0]) <==> |p.free| >= 2)
      && t.slots[0].state == (if |p.free| >= 2 then Ready else RunState.Running)
      && t.slots[0].pageTable == pageTable && t.slots[0].brk == 0x40_0000 && t.slots[0].exitCode == slots[0].exitCode
      && (if |p.free| >= 2 then StartsAt(t.slots[0], idleEntry) else t.slots[0].context == slots[0].context)
      && (forall i :: 1 <= i < MAX_PROCESSES ==>
            t.slots[i] == slots[i].(pid := 0, state := Unused, parent := None,
                                    kernelStack := 0, userStack := 0, pageTable := 0))
  {
    var t0 := Table(ResetAll(slots), None, 1, 0);
    assert FirstUnused(t0.slots, 0) == 0;
    var proc := CreateShape(p, t0, pageTable, idleEntry);
    LiveNone(t0.slots);
    var t := Init(p, slots, pageTable, idleEntry).1;
    assert t.slots == t0.slots[0 := t.slots[0]];
    LiveUpdate(t0.slots, 0, t.slots[0]);
    assert SlotOrdered(t.slots[0], 0);
  }

  /**
   * What an exit by a live process leads to: a READY process takes over exactly when the counter
   * still exceeds 1 and another slot is READY; otherwise the zombie stays current.
   */
  lemma ExitOutcome(t: Table, status: U32, sp: U64)
    requires Ordered(t)
    ensures var t' := Exit(t, status, sp);
      var cur := t.current.value;
      && Ordered(t') && t'.slots[cur].state.Zombie? && t'.slots[cur].exitCode == status
      && (t'.slots[t'.current.value].state.Ready?
          <==> Bury(t, status).count > 1 && exists j :: 0 <= j < MAX_PROCESSES && j != cur && t.slots[j].state.Ready?)
      && (!t'.slots[t'.current.value].state.Ready? ==> t' == Bury(t, status))
  {
    var b := Bury(t, status);
    BuryOrdered(t, status);
    ScheduleOrdered(b, sp);
    var cur := t.current.value;
    NextReadyIsReady(b.slots, cur, 1);
    if b.count > 1 && exists j :: 0 <= j < MAX_PROCESSES && j != cur && t.slots[j].state.Ready? {
      var j :| 0 <= j < MAX_PROCESSES && j != cur && t.slots[j].state.Ready?;
      ScheduleCloser(b, sp, j);
    }
  }

  // ---------------------------------------------------------------- stacks

  /** The pages a process holds as stacks. */
  function Owned(p: Process): set<nat> {
    if HasStacks(p) then {StackPage(p.kernelStack), StackPage(p.userStack)} else {}
  }

  predicate ProperStacks(p: Process) {
    HasStacks(p) ==>
      && p.kernelStack == PageAddress(StackPage(p.kernelStack)) && p.userStack == PageAddress(StackPage(p.userStack))
      && p.kernelStack != p.userStack
  }

  /** All stacks of all processes are different pages. */
  ghost predicate StacksDistinct(slots: seq<Process>) {
    && (forall i :: 0 <= i < |slots| ==> ProperStacks(slots[i]))
    && (forall i, j :: 0 <= i < j < |slots| ==> Owned(slots[i]) !! Owned(slots[j]))
  }

  function StackPages(slots: seq<Process>): set<nat> {
    if slots == [] then {} else StackPages(slots[..|slots| - 1]) + Owned(slots[|slots| - 1])
  }

  /** How many processes were created successfully. */
  function Created(slots: seq<Process>): nat {
    if slots == [] then 0 else Created(slots[..|slots| - 1]) + (if HasStacks(slots[|slots| - 1]) then 1 else 0)
  }

  lemma {:induction false} StackMember(slots: seq<Process>, x: nat)
    ensures x in StackPages(slots) <==> exists i :: 0 <= i < |slots| && x in Owned(slots[i])
  {
    if slots != [] {
      var n := |slots| - 1;
      StackMember(slots[..n], x);
      if x in StackPages(slots[..n]) {
        var i :| 0 <= i < n && x in Owned(slots[..n][i]);
        assert x in Owned(slots[i]);
      }
      forall i | 0 <= i < |slots| && x in Owned(slots[i]) ensures x in StackPages(slots) {
        if i < n {
          assert x in Owned(slots[..n][i]);
        }
      }
    }
  }

  /** Distinct stacks: two pages for each process created. */
  lemma {:induction false} StackCount(slots: seq<Process>)
    requires StacksDistinct(slots)
    ensures |StackPages(slots)| == 2 * Created(slots)
  {
    if slots != [] {
      var n := |slots| - 1;
      StackCount(slots[..n]);
      forall x | x in Owned(slots[n]) ensures x !in StackPages(slots[..n]) {
        StackMember(slots[..n], x);
      }
      assert StackPages(slots[..n]) !! Owned(slots[n]);
      assert HasStacks(slots[n]) ==> StackPage(slots[n].kernelStack) != StackPage(slots[n].userStack);
    }
  }

  /** Filling a slot that held no stacks adds just the new ones. */
  lemma {:induction false} StackUpdate(slots: seq<Process>, i: nat, p: Process)
    requires i < |slots| && !HasStacks(slots[i])
    ensures StackPages(slots[i := p]) == StackPages(slots) + Owned(p)
    ensures Created(slots[i := p]) == Created(slots) + (if HasStacks(p) then 1 else 0)
  {
    var n := |slots| - 1;
    if i == n {
      assert slots[i := p][..n] == slots[..n];
    } else {
      StackUpdate(slots[..n], i, p);
      assert slots[i := p][..n] == slots[..n][i := p];
    }
  }

  lemma StackUpdateDistinct(slots: seq<Process>, i: nat, p: Process)
    requires i < |slots| && !HasStacks(slots[i]) && StacksDistinct(slots)
    requires ProperStacks(p) && Owned(p) !! StackPages(slots)
    ensures StacksDistinct(slots[i := p])
  {
    forall j | 0 <= j < |slots| ensures Owned(p) !! Owned(slots[j]) {
      forall x | x in Owned(slots[j]) ensures x in StackPages(slots) {
        StackMember(slots, x);
      }
    }
  }

  ghost predicate SameStacks(a: seq<Process>, b: seq<Process>) {
    |a| == |b| && forall i :: 0 <= i < |a| ==> a[i].kernelStack == b[i].kernelStack && a[i].userStack == b[i].userStack
  }

  lemma {:induction false} StacksKept(a: seq<Process>, b: seq<Process>)
    requires SameStacks(a, b)
    ensures StackPages(a) == StackPages(b) && Created(a) == Created(b)
    ensures StacksDistinct(a) ==> StacksDistinct(b)
  {
    if a != [] {
      var n := |a| - 1;
      StacksKept(a[..n], b[..n]);
      assert a[n].userStack == b[n].userStack;
    }
    if StacksDistinct(a) {
      forall i | 0 <= i < |b| ensures ProperStacks(b[i]) && Owned(a[i]) == Owned(b[i]) {
        assert ProperStacks(a[i]);
      }
    }
  }

  lemma {:induction false} NoStacks(slots: seq<Process>)
    requires forall i :: 0 <= i < |slots| ==> !HasStacks(slots[i])
    ensures StackPages(slots) == {} && StacksDistinct(slots)
  {
    if slots != [] {
      NoStacks(slots[..|slots| - 1]);
    }
  }

  // ---------------------------------------------------------------- counter against truth

  /** How far the counter falls short of the number of live processes. */
  function Gap(t: Table): int {
    Live(t.slots) - t.count
  }

  /** From `t` to `t'` the gap grows by `drift`, up to `laps` times round the 32-bit counter. */
  ghost predicate GapMoves(t: Table, t': Table, drift: nat, laps: int) {
    Gap(t') == Gap(t) + drift + laps * 0x1_0000_0000
  }

  lemma GapMovesOn(a: Table, b: Table, c: Table, d: nat, e: nat, l: int, m: int)
    requires GapMoves(a, b, d, l) && GapMoves(b, c, e, m)
    ensures GapMoves(a, c, d + e, l + m)
  {
  }

  /** The counter is right exactly when the drift is a multiple of 2^32, as there are at most 64 processes. */
  lemma GapClosed(t: Table, t': Table, drift: nat, laps: int)
    requires |t'.slots| == MAX_PROCESSES && t.count == Live(t.slots) && GapMoves(t, t', drift, laps)
    ensures t'.count == Live(t'.slots) <==> drift % 0x1_0000_0000 == 0
  {
    var g := Gap(t');
    assert -0x1_0000_0000 < g < 0x1_0000_0000;
    if drift % 0x1_0000_0000 == 0 {
      var q := drift / 0x1_0000_0000;
      assert g == (q + laps) * 0x1_0000_0000;
    }
  }

  lemma {:induction false} LiveSame(a: seq<Process>, b: seq<Process>)
    requires |a| == |b| && forall i :: 0 <= i < |a| ==> a[i].state == b[i].state
    ensures Live(a) == Live(b)
  {
    if a != [] {
      LiveSame(a[..|a| - 1], b[..|b| - 1]);
      assert a[|a| - 1].state == b[|b| - 1].state;
    }
  }

  /** An exit lowers both, unless a zombie exits again. */
  lemma ExitGap(t: Table, status: U32, sp: U64) returns (laps: int)
    requires Ordered(t)
    ensures var zombie := t.slots[t.current.value].state.Zombie?;
      && Live(Exit(t, status, sp).slots) == Live(t.slots) - (if zombie then 0 else 1)
      && Exit(t, status, sp).count == Dec32(t.count)
      && GapMoves(t, Exit(t, status, sp), if zombie then 1 else 0, laps)
  {
    var b := Bury(t, status);
    var cur := t.current.value;
    BuryOrdered(t, status);
    ScheduleOrdered(b, sp);
    assert SlotOrdered(t.slots[cur], cur);
    LiveUpdate(t.slots, cur, b.slots[cur]);
    LiveSame(b.slots, Schedule(b, sp).slots);
    laps := if t.count == 0 then -1 else 0;
  }

  /** A creation raises both, unless it claims a slot and then finds no stacks. */
  lemma CreateGap(p: Pool, t: Table, pageTable: nat, entry: U64) returns (laps: int)
    requires Valid(p) && Ordered(t)
    ensures GapMoves(t, Create(p, t, pageTable, entry).1,
                     if t.nextPid - 1 < MAX_PROCESSES && p.total < p.used + 2 then 1 else 0, laps)
  {
    FirstUnusedOrdered(t);
    laps := 0;
    if t.nextPid - 1 < MAX_PROCESSES {
      var proc := CreateShape(p, t, pageTable, entry);
      LiveUpdate(t.slots, t.nextPid - 1, proc);
      laps := if p.total >= p.used + 2 && t.count == 0xFFFF_FFFF then 1 else 0;
    }
  }

  lemma ForkGap(p: Pool, t: Table, pageTable: nat) returns (laps: int)
    requires Valid(p) && Ordered(t)
    ensures GapMoves(t, Fork(p, t, pageTable).1,
                     if t.nextPid - 1 < MAX_PROCESSES && p.total < p.used + 2 then 1 else 0, laps)
  {
    var entry := t.slots[t.current.value].context.rip;
    laps := CreateGap(p, t, pageTable, entry);
    CreateOrdered(p, t, pageTable, entry);
    LiveSame(Create(p, t, pageTable, entry).1.slots, Fork(p, t, pageTable).1.slots);
  }

  /** Scheduling and brk change no state that is counted. */
  lemma QuietGap(t: Table, sp: U64, address: U64)
    requires Ordered(t)
    ensures GapMoves(t, Schedule(t, sp), 0, 0) && GapMoves(t, Brk(t, address), 0, 0)
  {
    ScheduleOrdered(t, sp);
    LiveSame(t.slots, Schedule(t, sp).slots);
    LiveSame(t.slots, Brk(t, address).slots);
  }

  /** Where the counter is right, an exit that leaves two live processes hands over to a READY one. */
  lemma ExitHandsOver(t: Table, status: U32, sp: U64)
    requires Ordered(t) && t.count == Live(t.slots) >= 3 && Alive(t.slots[t.current.value])
    ensures var t' := Exit(t, status, sp);
      && Active(t') && t'.count == Live(t'.slots) == Live(t.slots) - 1
      && t'.current != t.current && t'.slots[t'.current.value].state.Ready?
  {
    var cur := t.current.value;
    var b := Bury(t, status);
    var laps := ExitGap(t, status, sp);
    BuryOrdered(t, status);
    LiveUpdate(t.slots, cur, b.slots[cur]);
    var j := ReadyWitness(b, cur);
    ScheduleCloser(b, sp, j);
  }

  /** Two live slots beside a zombie: one of them is READY, since only slot 0 can be RUNNING. */
  lemma ReadyWitness(b: Table, cur: nat) returns (j: nat)
    requires Ordered(b) && cur < MAX_PROCESSES && b.slots[cur].state.Zombie? && Live(b.slots) >= 2
    ensures j < MAX_PROCESSES && j != cur && b.slots[j].state.Ready?
  {
    j := LiveWitness(b.slots, 0);
    assert SlotOrdered(b.slots[j], j);
  }

  /** A fork takes the pages of the creation inside it and moves no stack. */
  lemma ForkStacks(p: Pool, t: Table, pageTable: nat)
    requires Valid(p) && Ordered(t)
    ensures var (q, t1, r) := Create(p, t, pageTable, t.slots[t.current.value].context.rip);
      var (q', t', pid) := Fork(p, t, pageTable);
      q' == q && Ordered(t') && SameStacks(t1.slots, t'.slots)
  {
    ForkOrdered(p, t, pageTable);
    ForkKeepsStacks(p, t, pageTable);
  }

  lemma ForkKeepsStacks(p: Pool, t: Table, pageTable: nat)
    requires Valid(p) && Active(t)
    ensures var (q, t1, r) := Create(p, t, pageTable, t.slots[t.current.value].context.rip);
      var (q', t', pid) := Fork(p, t, pageTable);
      q' == q && SameStacks(t1.slots, t'.slots)
  {
  }

  lemma ForkOrdered(p: Pool, t: Table, pageTable: nat)
    requires Valid(p) && Ordered(t)
    ensures Ordered(Fork(p, t, pageTable).1)
  {
    ForkEffect(p, t, pageTable);
  }

  // ---------------------------------------------------------------- where natural claims fail

  /** With two live processes an exit stops at the early return: the zombie stays current beside a READY slot. */
  lemma ExitOfTwoStalls(t: Table, status: U32, sp: U64, j: nat)
    requires Ordered(t) && t.count == 2 && Waiting(t, j)
    ensures var t' := Exit(t, status, sp);
      t'.current == t.current && t'.slots[t'.current.value].state.Zombie? && t'.slots[j].state.Ready?
  {
  }

  /** Two exits by the last counted process wrap the counter, after which `schedule` runs again. */
  lemma ExitTwiceWraps(t: Table, status: U32, sp: U64)
    requires Ordered(t) && t.count == 1
    ensures Active(Exit(t, status, sp)) && Exit(Exit(t, status, sp), status, sp).count == 0xFFFF_FFFF
  {
    BuryOrdered(t, status);
    ScheduleOrdered(Bury(Exit(t, status, sp), status), sp);
  }

  /**
   * With fewer than two pages left a creation leaves a slot that is READY and waiting for its turn.
   * Its kernel stack address is that of a page gone back to the pool if one page was left, and null if
   * none was.
   */
  lemma FailedCreateDangles(p: Pool, t: Table, pageTable: nat, entry: U64)
    requires Valid(p) && Ordered(t) && t.nextPid - 1 < MAX_PROCESSES && |p.free| < 2
    ensures var n := t.nextPid - 1;
      var (q, t', r) := Create(p, t, pageTable, entry);
      && r.None? && Waiting(t', n)
      && (t'.slots[n].kernelStack != 0 <==> |p.free| == 1)
      && (t'.slots[n].kernelStack != 0 ==> StackPage(t'.slots[n].kernelStack) in q.free)
  {
    FirstUnusedOrdered(t);
    CreateOrdered(p, t, pageTable, entry);
    CreatePages(p, t, pageTable, entry);
    var proc := CreateShape(p, t, pageTable, entry);
    if p.free != {} {
      assert |p.free - {Least(p.free)}| == 0;
    }
  }

  // ---------------------------------------------------------------- waiting

  ghost predicate Waiting(t: Table, j: nat) {
    Active(t) && j < MAX_PROCESSES && t.slots[j].state.Ready? && t.current != Some(j)
  }

  /** Slot `j` got its turn, or still waits and is nearer to it by at least `calls`. */
  ghost predicate Nearer(t: Table, t': Table, j: nat, calls: nat)
    requires Waiting(t, j)
  {
    || t'.current == Some(j)
    || (Waiting(t', j) && Distance(t'.current.value, j) + calls <= Distance(t.current.value, j))
  }

  /** A second process beside the idle one is counted and waits for its turn. */
  lemma SecondProcess(p: Pool, t: Table, pageTable: nat, entry: U64)
    requires Valid(p) && |p.free| >= 2
    requires Ordered(t) && t.nextPid == 2 && t.count == 1 && t.current == Some(0)
    ensures var t' := Create(p, t, pageTable, entry).1;
      Ordered(t') && t'.count == 2 && t'.current == Some(0) && Waiting(t', 1)
  {
    FirstUnusedOrdered(t);
    CreateOrdered(p, t, pageTable, entry);
    var proc := CreateShape(p, t, pageTable, entry);
  }

  /** And if the idle process then exits, it stays current as a zombie beside the waiting one. */
  lemma SecondProcessStalls(p: Pool, t: Table, pageTable: nat, entry: U64, status: U32, sp: U64)
    requires Valid(p) && |p.free| >= 2
    requires Ordered(t) && t.nextPid == 2 && t.count == 1 && t.current == Some(0)
    ensures Active(Create(p, t, pageTable, entry).1)
    ensures var t' := Exit(Create(p, t, pageTable, entry).1, status, sp);
      Active(t') && t'.current == Some(0) && t'.slots[0].state.Zombie? && t'.slots[1].state.Ready?
  {
    SecondProcess(p, t, pageTable, entry);
    ExitOfTwoStalls(Create(p, t, pageTable, entry).1, status, sp, 1);
  }

  lemma CreateWaits(p: Pool, t: Table, pageTable: nat, entry: U64, j: nat)
    requires Valid(p) && Ordered(t) && Waiting(t, j)
    ensures Nearer(t, Create(p, t, pageTable, entry).1, j, 0) && Nearer(t, Fork(p, t, pageTable).1, j, 0)
  {
    assert InUse(t.slots[j]);
    CreateOrdered(p, t, pageTable, entry);
    ForkEffect(p, t, pageTable);
  }

  lemma ScheduleWaits(t: Table, sp: U64, j: nat)
    requires Ordered(t) && Waiting(t, j)
    ensures Nearer(t, Schedule(t, sp), j, if t.count > 1 then 1 else 0)
  {
    if t.count > 1 {
      ScheduleCloser(t, sp, j);
      ScheduleOrdered(t, sp);
    }
  }

  lemma ExitWaits(t: Table, status: U32, sp: U64, j: nat)
    requires Ordered(t) && Waiting(t, j)
    ensures Nearer(t, Exit(t, status, sp), j, if Bury(t, status).count > 1 then 1 else 0)
  {
    BuryOrdered(t, status);
    ScheduleWaits(Bury(t, status), sp, j);
  }
}
