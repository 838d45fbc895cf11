/**
 * The two stack pointers of a context: the `rsp` field, which creation and fork fill in, and word 0
 * (`r15`), which is the one `switch_process` stores and loads.
 */
module StackPointers {
  import opened Words
  import opened PagePool
  import opened KernelPaging
  import opened Processes
  import opened KernelSystem
  import opened KernelRuns

  // ---------------------------------------------------------------- where the rsp field comes from

  /** The `rsp` field points into the process's own kernel stack, its very top included. */
  predicate InOwnStack(p: Process) {
    p.kernelStack < p.context.rsp <= p.kernelStack + KERNEL_STACK_SIZE
  }

  function StackTop(p: Process): nat {
    p.kernelStack + KERNEL_STACK_SIZE
  }

  /** Slot `i`'s `rsp` field is the top of slot `j`'s stack. */
  predicate SharesTop(t: Table, i: nat, j: nat)
    requires i < |t.slots|
  {
    j < |t.slots| && j != i && HasStacks(t.slots[j]) && t.slots[i].context.rsp == StackTop(t.slots[j])
  }

  /**
   * Without stacks the `rsp` field is still zero. With stacks it is the slot's own stack top,
   * unless a fork filled the slot: then it is zero or the stack top of another slot.
   */
  ghost predicate StackSource(t: Table, forked: set<nat>, i: nat)
    requires i < |t.slots|
  {
    var rsp := t.slots[i].context.rsp;
    if !HasStacks(t.slots[i]) then rsp == 0
    else if i !in forked then rsp == StackTop(t.slots[i])
    else rsp == 0 || exists j: nat :: SharesTop(t, i, j)
  }

  ghost predicate StackSources(t: Table, forked: set<nat>) {
    && Ordered(t)
    && (forall i :: i in forked ==> i < t.nextPid - 1)
    && (forall i :: 0 <= i < |t.slots| ==> StackSource(t, forked, i))
  }

  lemma OwnStackIff(t: Table, forked: set<nat>, i: nat)
    requires StackSources(t, forked) && StacksDistinct(t.slots) && i < |t.slots|
    ensures InOwnStack(t.slots[i]) <==> HasStacks(t.slots[i]) && i !in forked
  {
    assert StackSource(t, forked, i);
    if HasStacks(t.slots[i]) && i in forked && t.slots[i].context.rsp != 0 {
      var j: nat :| SharesTop(t, i, j);
      assert ProperStacks(t.slots[i]) && ProperStacks(t.slots[j]);
      OtherStack(t.slots[i], t.slots[j]);
    }
  }

  /** The top of another process's stack does not lie in one's own. */
  lemma OtherStack(a: Process, b: Process)
    requires HasStacks(a) && HasStacks(b) && ProperStacks(a) && ProperStacks(b) && Owned(a) !! Owned(b)
    requires a.context.rsp == StackTop(b)
    ensures !InOwnStack(a)
  {
    assert StackPage(a.kernelStack) in Owned(a) && StackPage(b.kernelStack) in Owned(b);
  }

  /** Filling the first free slot keeps the sources, if the new slot's own source is in order. */
  lemma SourcesFill(t: Table, t': Table, forked: set<nat>, forked': set<nat>)
    requires StackSources(t, forked) && Ordered(t') && t.nextPid - 1 < MAX_PROCESSES && t'.nextPid == t.nextPid + 1
    requires forall i :: 0 <= i < MAX_PROCESSES && i != t.nextPid - 1 ==> t'.slots[i] == t.slots[i]
    requires forked' == forked || forked' == forked + {t.nextPid - 1}
    requires StackSource(t', forked', t.nextPid - 1)
    ensures StackSources(t', forked')
  {
    var n := t.nextPid - 1;
    forall i | 0 <= i < |t'.slots| ensures StackSource(t', forked', i) {
      if i != n {
        assert StackSource(t, forked, i);
        assert !HasStacks(t.slots[n]);
        if HasStacks(t.slots[i]) && i in forked && t.slots[i].context.rsp != 0 {
          var j: nat :| SharesTop(t, i, j);
          assert SharesTop(t', i, j);
        }
      }
    }
  }

  lemma CreateSources(p: Pool, t: Table, pageTable: nat, entry: U64, forked: set<nat>)
    requires Valid(p) && StackSources(t, forked)
    ensures StackSources(Create(p, t, pageTable, entry).1, forked)
  {
    FirstUnusedOrdered(t);
    CreateOrdered(p, t, pageTable, entry);
    if t.nextPid - 1 < MAX_PROCESSES {
      var proc := CreateShape(p, t, pageTable, entry);
      assert StackSource(t, forked, t.nextPid - 1);
      SourcesFill(t, Create(p, t, pageTable, entry).1, forked, forked);
    }
  }

  /** The slots a step fills by forking. */
  ghost function ForkedBy(p: Pool, t: Table, pageTable: nat): set<nat>
    requires Valid(p) && Active(t)
  {
    if Fork(p, t, pageTable).2 == TWO_64 - 1 then {} else {FirstUnused(t.slots, 0)}
  }

  lemma ForkSources(p: Pool, t: Table, pageTable: nat, forked: set<nat>)
    requires Valid(p) && StackSources(t, forked)
    ensures StackSources(Fork(p, t, pageTable).1, forked + ForkedBy(p, t, pageTable))
  {
    if Fork(p, t, pageTable).2 == TWO_64 - 1 {
      CreateSources(p, t, pageTable, t.slots[t.current.value].context.rip, forked);
      ForkFailureIsCreate(p, t, pageTable);
      assert forked + {} == forked;
    } else {
      FirstUnusedOrdered(t);
      ForkFills(p, t, pageTable, forked);
    }
  }

  lemma ForkFailureIsCreate(p: Pool, t: Table, pageTable: nat)
    requires Valid(p) && Ordered(t) && Fork(p, t, pageTable).2 == TWO_64 - 1
    ensures Fork(p, t, pageTable).1 == Create(p, t, pageTable, t.slots[t.current.value].context.rip).1
  {
    CreateOrdered(p, t, pageTable, t.slots[t.current.value].context.rip);
    FirstUnusedOrdered(t);
    if t.nextPid - 1 < MAX_PROCESSES {
      var proc := CreateShape(p, t, pageTable, t.slots[t.current.value].context.rip);
    }
  }

  lemma ForkFills(p: Pool, t: Table, pageTable: nat, forked: set<nat>)
    requires Valid(p) && StackSources(t, forked) && Fork(p, t, pageTable).2 != TWO_64 - 1
    ensures StackSources(Fork(p, t, pageTable).1, forked + {t.nextPid - 1})
  {
    var n, cur := t.nextPid - 1, t.current.value;
    var t' := Fork(p, t, pageTable).1;
    ForkEffect(p, t, pageTable);
    FirstUnusedOrdered(t);
    var proc := CreateShape(p, t, pageTable, t.slots[cur].context.rip);
    assert StackSource(t, forked, cur);
    assert t'.slots[cur] == t.slots[cur];
    if t.slots[cur].context.rsp != 0 {
      var j := if cur in forked then var k: nat :| SharesTop(t, cur, k); k else cur;
      assert SharesTop(t', n, j);
    }
    SourcesFill(t, t', forked, forked + {n});
  }

  /** Steps that move no stack and no `rsp` field. */
  lemma SourcesKept(t: Table, t': Table, forked: set<nat>)
    requires StackSources(t, forked) && Ordered(t') && t'.nextPid == t.nextPid && SameStacks(t.slots, t'.slots)
    requires forall i :: 0 <= i < MAX_PROCESSES ==> t'.slots[i].context.rsp == t.slots[i].context.rsp
    ensures StackSources(t', forked)
  {
    forall i | 0 <= i < |t'.slots| ensures StackSource(t', forked, i) {
      assert StackSource(t, forked, i);
      if HasStacks(t.slots[i]) && i in forked && t.slots[i].context.rsp != 0 {
        var j: nat :| SharesTop(t, i, j);
        assert SharesTop(t', i, j);
      }
    }
  }

  /** Leaving, scheduling and brk move no stack. */
  lemma QuietSources(t: Table, status: U32, sp: U64, address: U64, forked: set<nat>)
    requires StackSources(t, forked)
    ensures StackSources(Exit(t, status, sp), forked)
    ensures StackSources(Schedule(t, sp), forked)
    ensures StackSources(Brk(t, address), forked)
  {
    var b := Bury(t, status);
    BuryOrdered(t, status);
    SourcesKept(t, b, forked);
    ScheduleSources(b, sp, forked);
    ScheduleSources(t, sp, forked);
    BrkOrdered(t, address);
    SourcesKept(t, Brk(t, address), forked);
  }

  lemma ScheduleSources(t: Table, sp: U64, forked: set<nat>)
    requires StackSources(t, forked)
    ensures StackSources(Schedule(t, sp), forked)
  {
    ScheduleOrdered(t, sp);
    SourcesKept(t, Schedule(t, sp), forked);
  }

  // ---------------------------------------------------------------- whose stack a process runs on

  /** The slot a step fills by forking, if it does. */
  ghost function StepForks(s: System, op: Op): set<nat>
    requires Inv(s)
  {
    if op.ForkOp? then ForkedBy(PoolOf(s), s.procs, KernelTable(s.paging)) else {}
  }

  /** The slots a run fills by forking. */
  ghost function Forked(s: System, ops: seq<Op>): set<nat>
    requires Inv(s)
    decreases |ops|
  {
    if ops == [] then {}
    else
      StepInv(s, ops[0]);
      StepForks(s, ops[0]) + Forked(Step(s, ops[0]), ops[1..])
  }

  lemma StepSources(s: System, op: Op, forked: set<nat>)
    requires Inv(s) && Inv(Step(s, op)) && StackSources(s.procs, forked)
    ensures StackSources(Step(s, op).procs, forked + StepForks(s, op))
  {
    var t := s.procs;
    assert forked + {} == forked;
    match op
    case MapOp(va, pa, flags) =>
    case CreateOp(entry) => CreateSources(PoolOf(s), t, KernelTable(s.paging), entry, forked);
    case ForkOp => ForkSources(PoolOf(s), t, KernelTable(s.paging), forked);
    case ExitOp(status, sp) => QuietSources(t, status, sp, 0, forked);
    case ScheduleOp(sp) => QuietSources(t, 0, sp, 0, forked);
    case BrkOp(address) => QuietSources(t, 0, 0, address, forked);
  }

  lemma Unroll(s: System, ops: seq<Op>)
    requires Inv(s) && ops != []
    ensures Inv(Step(s, ops[0])) && Run(s, ops) == Run(Step(s, ops[0]), ops[1..])
    ensures Forked(s, ops) == StepForks(s, ops[0]) + Forked(Step(s, ops[0]), ops[1..])
  {
    StepInv(s, ops[0]);
  }

  lemma UnionAssociates(a: set<nat>, b: set<nat>, c: set<nat>)
    ensures a + b + c == a + (b + c)
  {
  }

  lemma {:induction false} RunSources(s: System, ops: seq<Op>, forked: set<nat>)
    requires Inv(s) && StackSources(s.procs, forked)
    ensures StackSources(Run(s, ops).procs, forked + Forked(s, ops))
    decreases |ops|
  {
    if ops == [] {
      assert forked + {} == forked;
    } else {
      Unroll(s, ops);
      StepSources(s, ops[0], forked);
      RunSources(Step(s, ops[0]), ops[1..], forked + StepForks(s, ops[0]));
      UnionAssociates(forked, StepForks(s, ops[0]), Forked(Step(s, ops[0]), ops[1..]));
    }
  }

  lemma BootSources(p: Pool, slots: seq<Process>, idleEntry: U64)
    requires Booted(p) && BlankContexts(slots)
    ensures StackSources(Boot(p, slots, idleEntry).procs, {})
  {
    BootCounts(p, slots, idleEntry);
    var st := PagingAfterInit(p);
    var t0 := Table(ResetAll(slots), None, 1, 0);
    var t := Boot(p, slots, idleEntry).procs;
    BootGood(p);
    InitPagingTranslation(BootPaging(p), 0);
    InitShape(st.space.pool, slots, KernelTable(st), idleEntry);
    assert FirstUnused(t0.slots, 0) == 0;
    var proc := CreateShape(st.space.pool, t0, KernelTable(st), idleEntry);
    forall i | 0 <= i < |t.slots| ensures StackSource(t, {}, i) {
    }
  }

  lemma OwnStackInRun(s: System, ops: seq<Op>, i: nat)
    requires Inv(s) && StackSources(s.procs, {}) && i < MAX_PROCESSES
    ensures var t := Run(s, ops).procs;
      |t.slots| == MAX_PROCESSES && (InOwnStack(t.slots[i]) <==> HasStacks(t.slots[i]) && i !in Forked(s, ops))
  {
    RunSources(s, ops, {});
    RunInv(s, ops);
    assert {} + Forked(s, ops) == Forked(s, ops);
    OwnStackIff(Run(s, ops).procs, Forked(s, ops), i);
  }

  /**
   * Over every run from boot the `rsp` field of a slot points into its own kernel stack exactly when
   * the slot was created with stacks and not by fork. No switch loads this field; see below for the
   * word that is loaded.
   */
  lemma OwnStackOverRuns(p: Pool, slots: seq<Process>, idleEntry: U64, ops: seq<Op>, i: nat)
    requires Booted(p) && BlankContexts(slots) && i < MAX_PROCESSES
    ensures Inv(Boot(p, slots, idleEntry))
    ensures var b := Boot(p, slots, idleEntry);
      var t := Run(b, ops).procs;
      |t.slots| == MAX_PROCESSES && (InOwnStack(t.slots[i]) <==> HasStacks(t.slots[i]) && i !in Forked(b, ops))
  {
    var b := Boot(p, slots, idleEntry);
    BootInv(p, slots, idleEntry);
    BootSources(p, slots, idleEntry);
    OwnStackInRun(b, ops, i);
  }

  // ---------------------------------------------------------------- the word a switch stores and loads

  /** Word 0 of the context, which `switch_process` stores the stack pointer to and loads it from. */
  function StackWord(p: Process): U64 {
    p.context.r15
  }

  /** No slot that is still unused holds a word. */
  ghost predicate FreshWords(t: Table) {
    forall i :: 0 <= i < |t.slots| && t.nextPid - 1 <= i ==> StackWord(t.slots[i]) == 0
  }

  /** The step from `t` to `t'` switches away from slot `i`. */
  predicate Leaves(t: Table, t': Table, i: nat) {
    t.current == Some(i) && t'.current != Some(i)
  }

  /**
   * How a step treats the words: it stores `sp` for the slot it switches away from, copies the current
   * slot's word to the slots of `forks`, which were unused, and leaves every other word alone.
   */
  ghost predicate WordsFollow(t: Table, t': Table, forks: set<nat>, sp: U64) {
    && Active(t) && Active(t') && FreshWords(t') && t.nextPid <= t'.nextPid
    && (forall i :: i in forks ==> i == t.nextPid - 1 < t'.nextPid - 1 && t'.current == t.current)
    && (forall i: nat :: i < MAX_PROCESSES ==> StackWord(t'.slots[i]) == WordAfter(t, t', forks, sp, i))
  }

  ghost function WordAfter(t: Table, t': Table, forks: set<nat>, sp: U64, i: nat): U64
    requires Active(t) && i < MAX_PROCESSES
  {
    if Leaves(t, t', i) then sp
    else if i in forks then StackWord(t.slots[t.current.value])
    else StackWord(t.slots[i])
  }

  lemma CreateWords(p: Pool, t: Table, pageTable: nat, entry: U64)
    requires Valid(p) && Ordered(t) && FreshWords(t)
    ensures WordsFollow(t, Create(p, t, pageTable, entry).1, {}, 0)
  {
    FirstUnusedOrdered(t);
    CreateOrdered(p, t, pageTable, entry);
    if t.nextPid - 1 < MAX_PROCESSES {
      var proc := CreateShape(p, t, pageTable, entry);
    }
  }

  lemma ForkWords(p: Pool, t: Table, pageTable: nat)
    requires Valid(p) && Ordered(t) && FreshWords(t)
    ensures WordsFollow(t, Fork(p, t, pageTable).1, ForkedBy(p, t, pageTable), 0)
  {
    FirstUnusedOrdered(t);
    CreateWords(p, t, pageTable, t.slots[t.current.value].context.rip);
    if Fork(p, t, pageTable).2 == TWO_64 - 1 {
      ForkFailureIsCreate(p, t, pageTable);
    } else {
      ForkEffect(p, t, pageTable);
    }
  }

  lemma ScheduleWords(t: Table, sp: U64)
    requires Ordered(t) && FreshWords(t)
    ensures WordsFollow(t, Schedule(t, sp), {}, sp)
  {
    ScheduleEffect(t, sp);
  }

  lemma ExitWords(t: Table, status: U32, sp: U64)
    requires Ordered(t) && FreshWords(t)
    ensures WordsFollow(t, Exit(t, status, sp), {}, sp)
  {
    BuryOrdered(t, status);
    ScheduleEffect(Bury(t, status), sp);
  }

  lemma BrkWords(t: Table, address: U64)
    requires Ordered(t) && FreshWords(t)
    ensures WordsFollow(t, Brk(t, address), {}, 0)
  {
  }

  /** The stack pointer a switch during this operation stores. */
  function PointerOf(op: Op): U64 {
    match op
    case ExitOp(_, sp) => sp
    case ScheduleOp(sp) => sp
    case _ => 0
  }

  lemma StepWords(s: System, op: Op)
    requires Inv(s) && FreshWords(s.procs)
    ensures WordsFollow(s.procs, Step(s, op).procs, StepForks(s, op), PointerOf(op))
  {
    match op
    case MapOp(va, pa, flags) =>
    case CreateOp(entry) => CreateWords(PoolOf(s), s.procs, KernelTable(s.paging), entry);
    case ForkOp => ForkWords(PoolOf(s), s.procs, KernelTable(s.paging));
    case ExitOp(status, sp) => ExitWords(s.procs, status, sp);
    case ScheduleOp(sp) => ScheduleWords(s.procs, sp);
    case BrkOp(address) => BrkWords(s.procs, address);
  }

  /** The stack pointer of the last switch away from slot `i` in a run, if there was one. */
  ghost function LastStored(s: System, ops: seq<Op>, i: nat): Option<U64>
    requires Inv(s)
    decreases |ops|
  {
    if ops == [] then None
    else
      StepInv(s, ops[0]);
      var later := LastStored(Step(s, ops[0]), ops[1..], i);
      if later.Some? then later
      else if Leaves(s.procs, Step(s, ops[0]).procs, i) then Some(PointerOf(ops[0]))
      else None
  }

  /** The word the parent held when a fork of the run filled slot `i`, if one did. */
  ghost function Inherited(s: System, ops: seq<Op>, i: nat): Option<U64>
    requires Inv(s)
    decreases |ops|
  {
    if ops == [] then None
    else if i in StepForks(s, ops[0]) then Some(StackWord(s.procs.slots[s.procs.current.value]))
    else
      StepInv(s, ops[0]);
      Inherited(Step(s, ops[0]), ops[1..], i)
  }

  lemma {:induction false} InheritedIffForked(s: System, ops: seq<Op>, i: nat)
    requires Inv(s)
    ensures Inherited(s, ops, i).Some? <==> i in Forked(s, ops)
    decreases |ops|
  {
    if ops != [] {
      StepInv(s, ops[0]);
      InheritedIffForked(Step(s, ops[0]), ops[1..], i);
    }
  }

  /** A slot in use is never filled again. */
  lemma {:induction false} InUseNotForked(s: System, ops: seq<Op>, i: nat)
    requires Inv(s) && FreshWords(s.procs) && i < s.procs.nextPid - 1
    ensures Inherited(s, ops, i).None?
    decreases |ops|
  {
    if ops != [] {
      StepInv(s, ops[0]);
      StepWords(s, ops[0]);
      InUseNotForked(Step(s, ops[0]), ops[1..], i);
    }
  }

  /** The word of a slot: the last pointer stored there, or the parent's at the fork, or the one at the start. */
  lemma {:induction false} RunWord(s: System, ops: seq<Op>, i: nat)
    requires Inv(s) && FreshWords(s.procs) && i < MAX_PROCESSES
    ensures FreshWords(Run(s, ops).procs) && |Run(s, ops).procs.slots| == MAX_PROCESSES
    ensures StackWord(Run(s, ops).procs.slots[i]) == match LastStored(s, ops, i) {
        case Some(sp) => sp
        case None => Inherited(s, ops, i).UnwrapOr(StackWord(s.procs.slots[i]))
      }
    decreases |ops|
  {
    if ops != [] {
      var s' := Step(s, ops[0]);
      StepInv(s, ops[0]);
      StepWords(s, ops[0]);
      RunWord(s', ops[1..], i);
      if i < s'.procs.nextPid - 1 {
        InUseNotForked(s', ops[1..], i);
      }
    }
  }

  lemma BootWords(p: Pool, slots: seq<Process>, idleEntry: U64)
    requires Booted(p) && BlankContexts(slots)
    ensures var t := Boot(p, slots, idleEntry).procs;
      FreshWords(t) && forall i :: 0 <= i < |t.slots| ==> StackWord(t.slots[i]) == 0
  {
    var st := PagingAfterInit(p);
    var t0 := Table(ResetAll(slots), None, 1, 0);
    BootGood(p);
    InitPagingTranslation(BootPaging(p), 0);
    assert FirstUnused(t0.slots, 0) == 0;
    var proc := CreateShape(st.space.pool, t0, KernelTable(st), idleEntry);
  }

  /**
   * Over every run from boot, the word a switch to slot `i` would load: the stack pointer of the last
   * switch away from the slot; if there was none, the word its parent held at the fork that filled
   * it; and 0 for a slot that was never switched away from and not filled by fork.
   */
  lemma StackWordOverRuns(p: Pool, slots: seq<Process>, idleEntry: U64, ops: seq<Op>, i: nat)
    requires Booted(p) && BlankContexts(slots) && i < MAX_PROCESSES
    ensures Inv(Boot(p, slots, idleEntry))
    ensures var b := Boot(p, slots, idleEntry);
      var t := Run(b, ops).procs;
      && |t.slots| == MAX_PROCESSES
      && (Inherited(b, ops, i).Some? <==> i in Forked(b, ops))
      && StackWord(t.slots[i]) == match LastStored(b, ops, i) {
           case Some(sp) => sp
           case None => Inherited(b, ops, i).UnwrapOr(0)
         }
  {
    var b := Boot(p, slots, idleEntry);
    BootInv(p, slots, idleEntry);
    BootWords(p, slots, idleEntry);
    InheritedIffForked(b, ops, i);
    RunWord(b, ops, i);
  }

  // ---------------------------------------------------------------- which switches load a null stack pointer

  /** The slots that hold a nonzero word: those switched away from, and those forked by a holder. */
  ghost function HoldersAfter(t: Table, t': Table, forks: set<nat>, sp: U64, held: set<nat>): set<nat>
    requires Active(t)
  {
    var cur := t.current.value;
    if Leaves(t, t', cur) then (if sp != 0 then held + {cur} else held - {cur})
    else if cur in held then held + forks
    else held
  }

  ghost function Holders(s: System, ops: seq<Op>, held: set<nat>): set<nat>
    requires Inv(s)
    decreases |ops|
  {
    if ops == [] then held
    else
      StepInv(s, ops[0]);
      var s' := Step(s, ops[0]);
      Holders(s', ops[1..], HoldersAfter(s.procs, s'.procs, StepForks(s, ops[0]), PointerOf(ops[0]), held))
  }

  ghost predicate HeldBy(t: Table, held: set<nat>) {
    Active(t) && forall i: nat :: i < MAX_PROCESSES ==> (StackWord(t.slots[i]) != 0 <==> i in held)
  }

  lemma HeldAfter(t: Table, t': Table, forks: set<nat>, sp: U64, held: set<nat>)
    requires FreshWords(t) && HeldBy(t, held) && WordsFollow(t, t', forks, sp)
    ensures HeldBy(t', HoldersAfter(t, t', forks, sp, held))
  {
    forall i: nat | i < MAX_PROCESSES
      ensures StackWord(t'.slots[i]) != 0 <==> i in HoldersAfter(t, t', forks, sp, held)
    {
      assert StackWord(t'.slots[i]) == WordAfter(t, t', forks, sp, i);
    }
  }

  lemma {:induction false} RunHeld(s: System, ops: seq<Op>, held: set<nat>)
    requires Inv(s) && FreshWords(s.procs) && HeldBy(s.procs, held)
    ensures Inv(Run(s, ops)) && HeldBy(Run(s, ops).procs, Holders(s, ops, held))
    decreases |ops|
  {
    if ops != [] {
      var s', forks, sp := Step(s, ops[0]), StepForks(s, ops[0]), PointerOf(ops[0]);
      StepInv(s, ops[0]);
      StepWords(s, ops[0]);
      HeldAfter(s.procs, s'.procs, forks, sp, held);
      RunHeld(s', ops[1..], HoldersAfter(s.procs, s'.procs, forks, sp, held));
    }
  }

  /**
   * In every state reachable from boot, a step that hands over to another process loads a null stack
   * pointer exactly when that process holds no word: it last left with a null pointer, or it never left
   * and no holder forked it.
   */
  lemma NullStackIff(p: Pool, slots: seq<Process>, idleEntry: U64, ops: seq<Op>, op: Op)
    requires Booted(p) && BlankContexts(slots)
    ensures Inv(Boot(p, slots, idleEntry)) && Inv(Run(Boot(p, slots, idleEntry), ops))
    ensures var b := Boot(p, slots, idleEntry);
      var t, t' := Run(b, ops).procs, Step(Run(b, ops), op).procs;
      && Active(t')
      && (t'.current != t.current ==>
            var n := t'.current.value;
            && StackWord(t'.slots[n]) == StackWord(t.slots[n])
            && (StackWord(t'.slots[n]) == 0 <==> n !in Holders(b, ops, {})))
  {
    var b := Boot(p, slots, idleEntry);
    BootInv(p, slots, idleEntry);
    BootCounts(p, slots, idleEntry);
    BootWords(p, slots, idleEntry);
    RunHeld(b, ops, {});
    RunWord(b, ops, 0);
    var s := Run(b, ops);
    StepInv(s, op);
    StepWords(s, op);
  }

  /** The first switch to a process just created loads a null pointer, though its `rsp` field is in order. */
  lemma FirstSwitchLoadsNull(p: Pool, slots: seq<Process>, idleEntry: U64, entry: U64, sp: U64)
    requires Booted(p) && BlankContexts(slots) && p.total >= 7
    ensures Inv(Boot(p, slots, idleEntry))
    ensures var t := Run(Boot(p, slots, idleEntry), [CreateOp(entry), ScheduleOp(sp)]).procs;
      && Active(t) && t.current == Some(1)
      && HasStacks(t.slots[1]) && InOwnStack(t.slots[1]) && StackWord(t.slots[1]) == 0
  {
    var b := Boot(p, slots, idleEntry);
    BootInv(p, slots, idleEntry);
    BootCounts(p, slots, idleEntry);
    BootFree(p, slots, idleEntry);
    CreateThenSchedule(b, entry, sp);
    SecondProcessRuns(PoolOf(b), b.procs, KernelTable(b.paging), entry, sp);
  }

  lemma CreateThenSchedule(s: System, entry: U64, sp: U64)
    requires Inv(s) && Active(Create(PoolOf(s), s.procs, KernelTable(s.paging), entry).1)
    ensures Run(s, [CreateOp(entry), ScheduleOp(sp)]).procs
      == Schedule(Create(PoolOf(s), s.procs, KernelTable(s.paging), entry).1, sp)
  {
    StepInv(s, CreateOp(entry));
    RunTwo(s, CreateOp(entry), ScheduleOp(sp));
    ScheduleStep(Step(s, CreateOp(entry)), sp);
  }

  lemma ScheduleStep(s: System, sp: U64)
    requires Inv(s)
    ensures Step(s, ScheduleOp(sp)).procs == Schedule(s.procs, sp)
  {
  }

  /** The second process is next in turn; it starts with its stack top in `rsp` and 0 in word 0. */
  lemma SecondProcessRuns(p: Pool, t: Table, pageTable: nat, entry: U64, sp: U64)
    requires Valid(p) && |p.free| >= 2
    requires Ordered(t) && t.nextPid == 2 && t.count == 1 && t.current == Some(0)
    ensures Active(Create(p, t, pageTable, entry).1)
    ensures var t' := Schedule(Create(p, t, pageTable, entry).1, sp);
      && Active(t') && t'.current == Some(1)
      && HasStacks(t'.slots[1]) && InOwnStack(t'.slots[1]) && StackWord(t'.slots[1]) == 0
  {
    SecondProcess(p, t, pageTable, entry);
    FirstUnusedOrdered(t);
    var proc := CreateShape(p, t, pageTable, entry);
    var t1 := Create(p, t, pageTable, entry).1;
    ScheduleCloser(t1, sp, 1);
    ScheduleEffect(t1, sp);
  }
}
