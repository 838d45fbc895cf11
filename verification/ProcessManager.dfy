/** kernel/process.c in its own form: a slot array and static variables updated in place. */
module ProcessManagement {
  import opened Words
  import opened PagePool
  import opened Allocator
  import opened PagingUnit
  import opened Processes

  class ProcessManager {
    const alloc: PageAllocator
    const paging: Paging
    const processes: array<Process>
    var current: Option<nat>      // None is the null pointer
    var nextPid: U32
    var processCount: U32

    ghost function View(): Table
      reads this, processes
    {
      Table(processes[..], current, nextPid, processCount)
    }

    ghost predicate Valid()
      reads this, processes, alloc, alloc.memoryMap
    {
      && alloc.Valid() && paging.alloc == alloc
      && processes.Length == MAX_PROCESSES
      && (current.Some? ==> current.value < MAX_PROCESSES)
    }

    /** The static initialisers. */
    constructor (alloc: PageAllocator, paging: Paging)
      requires alloc.Valid() && paging.alloc == alloc
      ensures Valid() && this.alloc == alloc && this.paging == paging && fresh(processes)
      ensures current == None && nextPid == 1 && processCount == 0
      ensures forall i :: 0 <= i < 64 ==>
        processes[i] == Process(0, Unused, Context(0, 0, 0, 0, 0, 0, 0, 0, 0, 0, 0, 0, 0, 0, 0, 0, 0, 0, 0, 0),
                                0, 0, 0, 0, None, 0)
    {
      this.alloc, this.paging := alloc, paging;
      processes := new Process[MAX_PROCESSES](i => ZeroProcess());
      current, nextPid, processCount := None, 1, 0;
    }

    /** The slot search of `create_process`. */
    method FindSlot() returns (i: nat)
      requires processes.Length == MAX_PROCESSES
      ensures i == FirstUnused(processes[..], 0)
    {
      i := 0;
      while i < MAX_PROCESSES
        invariant i <= MAX_PROCESSES && FirstUnused(processes[..], 0) == FirstUnused(processes[..], i)
      {
        if processes[i].state.Unused? {
          return;
        }
        i := i + 1;
      }
    }

    /** The stack allocations of `create_process`, into slot `i`. */
    method AllocateStacks(i: nat) returns (ok: bool)
      requires Valid() && i < MAX_PROCESSES
      modifies processes, alloc, alloc.memoryMap
      ensures Valid()
      ensures var (q, kernelStack, userStack) := TakeStacks(old(alloc.View()));
        && alloc.View() == q
        && processes[..] == old(processes[..])[i := WithStacks(old(processes[i]), kernelStack, userStack)]
        && ok == (kernelStack != 0 && userStack != 0)
    {
      ghost var p, slots := alloc.View(), processes[..];
      StacksTaken(p);
      var kernelStack := alloc.GetPhysicalPage();
      processes[i] := processes[i].(kernelStack := kernelStack);
      if kernelStack == 0 {
        assert processes[..] == slots[i := WithStacks(slots[i], 0, 0)];
        return false;
      }
      var userStack := alloc.GetPhysicalPage();
      processes[i] := processes[i].(userStack := userStack);
      assert processes[..] == slots[i := WithStacks(slots[i], kernelStack, userStack)];
      if userStack == 0 {
        alloc.FreePhysicalPage(kernelStack);
        return false;
      }
      return true;
    }

    /** The fields `create_process` sets before it asks for stacks. */
    method ClaimSlot(i: nat)
      requires processes.Length == MAX_PROCESSES && i < MAX_PROCESSES
      modifies this`nextPid, processes
      ensures processes[..] == old(processes[..])[i := Claimed(old(processes[i]), old(View()), paging.kernelPml4)]
      ensures nextPid == Inc32(old(nextPid))
    {
      processes[i] := processes[i].(pid := nextPid, state := Ready);
      nextPid := Inc32(nextPid);
      processes[i] := processes[i].(pageTable := paging.kernelPml4, parent := current, brk := INITIAL_BRK);
    }

    /** The end of `create_process`: the start context, and one more process counted. */
    method Start(i: nat, entry: U64)
      requires processes.Length == MAX_PROCESSES && i < MAX_PROCESSES && processes[i].kernelStack < MAX_MEMORY
      modifies this`processCount, processes
      ensures processCount == Inc32(old(processCount))
      ensures var p := old(processes[i]);
        processes[..] == old(processes[..])[i := p.(context := NewContext(entry, p.kernelStack + KERNEL_STACK_SIZE))]
    {
      var stackTop := processes[i].kernelStack + KERNEL_STACK_SIZE;
      processes[i] := processes[i].(context := NewContext(entry, stackTop));
      processCount := Inc32(processCount);
    }

    /** A slot for `create_process`, claimed and given stacks if there are any. */
    method Equip(i: nat) returns (ok: bool)
      requires Valid() && i < MAX_PROCESSES
      modifies this`nextPid, processes, alloc, alloc.memoryMap
      ensures Valid() && nextPid == Inc32(old(nextPid))
      ensures var (q, kernelStack, userStack) := TakeStacks(old(alloc.View()));
        var claimed := Claimed(old(processes[i]), old(View()), paging.kernelPml4);
        && alloc.View() == q && ok == (kernelStack != 0 && userStack != 0)
        && processes[..] == old(processes[..])[i := WithStacks(claimed, kernelStack, userStack)]
    {
      ghost var slots := processes[..];
      ClaimSlot(i);
      ok := AllocateStacks(i);
      assert processes[..] == slots[i := processes[i]];
    }

    /** `create_process`. */
    method CreateProcess(entry: U64) returns (r: Option<nat>)
      requires Valid()
      modifies this`nextPid, this`processCount, processes, alloc, alloc.memoryMap
      ensures Valid()
      ensures (alloc.View(), View(), r) == Create(old(alloc.View()), old(View()), paging.kernelPml4, entry)
    {
      ghost var t := View();
      var i := FindSlot();
      if i == MAX_PROCESSES {
        return None;
      }
      var ok := Equip(i);
      ghost var proc := processes[i];
      if !ok {
        return None;
      }
      Start(i, entry);
      assert processes[..] == t.slots[i := proc.(context := NewContext(entry, proc.kernelStack + KERNEL_STACK_SIZE))];
      return Some(i);
    }

    /** The round-robin scan of `schedule`. */
    method FindReady(cur: nat) returns (next: Option<nat>)
      requires processes.Length == MAX_PROCESSES && cur < MAX_PROCESSES
      ensures next == NextReady(processes[..], cur, 1)
    {
      ghost var slots := processes[..];
      var nextIndex := (cur + 1) % MAX_PROCESSES;
      var i := 0;
      while i < MAX_PROCESSES
        invariant i <= MAX_PROCESSES && nextIndex < MAX_PROCESSES && nextIndex == Probe(cur, i)
        invariant NextReady(slots, cur, 1) == FromProbe(slots, cur, i)
      {
        FromProbeStep(slots, cur, i);
        if processes[nextIndex].state.Ready? && nextIndex != cur {
          return Some(nextIndex);
        }
        nextIndex := (nextIndex + 1) % MAX_PROCESSES;
        i := i + 1;
      }
      return None;
    }

    /**
     * `schedule`; `sp` is the stack pointer `switch_process` saves for the old process. Past the
     * early return the source reads through the current process without a check.
     */
    method Schedule(sp: U64)
      requires Valid() && (current.None? ==> processCount <= 1)
      modifies this`current, processes
      ensures Valid() && (current.Some? <==> old(current).Some?)
      ensures View() == if old(current).Some? then Processes.Schedule(old(View()), sp) else old(View())
    {
      if processCount <= 1 {
        return;
      }
      var cur := current.value;
      var next := FindReady(cur);
      NextReadyIsReady(processes[..], cur, 1);
      if next.Some? {
        current := next;
        processes[cur] := processes[cur].(context := processes[cur].context.(r15 := sp));
      }
    }

    /** `sys_fork_handler`. */
    method Fork() returns (r: U64)
      requires Valid() && current.Some?
      modifies this`nextPid, this`processCount, processes, alloc, alloc.memoryMap
      ensures Valid()
      ensures (alloc.View(), View(), r) == Processes.Fork(old(alloc.View()), old(View()), paging.kernelPml4)
    {
      var cur := current.value;
      var child := CreateProcess(processes[cur].context.rip);
      if child.None? {
        return TWO_64 - 1;
      }
      var i := child.value;
      ghost var slots := processes[..];
      processes[i] := processes[i].(context := processes[cur].context);
      processes[i] := processes[i].(context := processes[i].context.(rax := 0));
      assert processes[..] == slots[i := slots[i].(context := slots[cur].context.(rax := 0))];
      return processes[i].pid;
    }

    /** `sys_exit_handler_real`; without a current process it only calls `schedule`. */
    method Exit(status: U32, sp: U64)
      requires Valid() && (current.None? ==> processCount <= 1)
      modifies this`current, this`processCount, processes
      ensures Valid() && (current.Some? <==> old(current).Some?)
      ensures View() == if old(current).Some? then Processes.Exit(old(View()), status, sp) else old(View())
    {
      if current.Some? {
        var cur := current.value;
        ghost var t := View();
        processes[cur] := processes[cur].(state := Zombie);
        processes[cur] := processes[cur].(exitCode := status);
        processCount := Dec32(processCount);
        assert View() == Bury(t, status);
      }
      Schedule(sp);
    }

    /** `sys_brk_handler`; without a current process nothing changes and the answer is 0. */
    method Brk(address: U64) returns (brk: U64)
      requires Valid()
      modifies processes
      ensures Valid() && View() == if current.Some? then Processes.Brk(old(View()), address) else old(View())
      ensures current.None? ==> brk == 0
      ensures current.Some? ==> brk == processes[current.value].brk
      ensures current.Some? ==> brk == if address == 0 then old(processes[current.value].brk) else address
      ensures current.None? || address == 0 ==> View() == old(View())
    {
      if current.None? {
        return 0;
      }
      if address != 0 {
        processes[current.value] := processes[current.value].(brk := address);
      }
      return processes[current.value].brk;
    }

    /** The reset loop of `InitProcessManager`. */
    method ResetSlots()
      requires processes.Length == MAX_PROCESSES
      modifies processes
      ensures processes[..] == ResetAll(old(processes[..]))
    {
      for i := 0 to MAX_PROCESSES
        invariant forall j :: 0 <= j < i ==> processes[j] == Reset(old(processes[j]))
        invariant forall j :: i <= j < MAX_PROCESSES ==> processes[j] == old(processes[j])
      {
        processes[i] := Reset(processes[i]);
      }
    }

    /** The end of `InitProcessManager`: adopt the idle process or fall back to slot 0. */
    method AdoptIdle(idle: Option<nat>)
      requires Valid() && (idle.Some? ==> idle.value < MAX_PROCESSES)
      modifies this`current, this`processCount, processes
      ensures Valid() && current.Some? && View() == Adopt(old(View()), idle, paging.kernelPml4)
    {
      if idle.Some? {
        processes[idle.value] := processes[idle.value].(pid := 1);
        current := idle;
      } else {
        current := Some(0);
        processes[0] := processes[0].(pid := 1, state := Running);
        processes[0] := processes[0].(pageTable := paging.kernelPml4, brk := INITIAL_BRK);
        processCount := 1;
      }
    }

    /** `InitProcessManager`. */
    method Init(idleEntry: U64)
      requires Valid()
      modifies this, processes, alloc, alloc.memoryMap
      ensures Valid() && current.Some?
      ensures (alloc.View(), View())
        == Processes.Init(old(alloc.View()), old(processes[..]), paging.kernelPml4, idleEntry)
    {
      current, nextPid, processCount := None, 1, 0;
      ResetSlots();
      var idle := CreateProcess(idleEntry);
      AdoptIdle(idle);
    }
  }

  /** The stack step in terms of the two addresses the allocator answers with. */
  lemma StacksTaken(p: Pool)
    requires Valid(p)
    ensures Valid(Get(p).0)
    ensures var k, u := AddressOf(Get(p).1), AddressOf(Get(Get(p).0).1);
      TakeStacks(p) ==
        if k == 0 then (Get(p).0, 0, 0)
        else if u == 0 then (Release(Get(Get(p).0).0, k), k, 0)
        else (Get(Get(p).0).0, k, u)
  {
    GetValid(p);
  }
}
