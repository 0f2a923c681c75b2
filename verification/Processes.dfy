/** The process table and scheduler as they run, in place (kernel/process.c, kernel/sched.c, kernel/syscall.c). */
module Processes {
  import opened Bytes
  import opened ProcTable

  class ProcessManager {
    const procTable: array<Process>
    const tableBase: u32
    var nextPid: nat
    var currentPid: nat
    var tickCounter: nat
    var schedEnabled: bool

    ghost predicate Valid()
      reads this
    {
      procTable.Length == PROC_MAX
    }

    /** The kernel state these statics hold. */
    ghost function State(): (k: Kernel)
      reads this, procTable
      requires Valid()
      ensures Sized(k)
    {
      Kernel(procTable[..], nextPid, currentPid, tickCounter, schedEnabled, tableBase)
    }

    /** proc_init and sched_init */
    constructor (tableBase: u32)
      ensures Valid() && fresh(procTable)
      ensures State() == Kernel(seq(PROC_MAX, _ => EMPTY), 1, 0, 0, false, tableBase)
    {
      procTable := new Process[PROC_MAX](_ => EMPTY);
      this.tableBase := tableBase;
      nextPid, currentPid, tickCounter, schedEnabled := 1, 0, 0, false;
    }

    /** The boot sequence of kmain: the shell is created, marked RUNNING and made current, and ticks are let in. */
    method Boot()
      requires Valid() && State() == Kernel(seq(PROC_MAX, _ => EMPTY), 1, 0, 0, false, tableBase)
      modifies this, procTable
      ensures Valid() && State() == Booted(tableBase)
    {
      ghost var empty := State();
      assert FreeSlot(empty.procs, 0) == 0;
      var i := ProcCreate("shell", 0);
      if i < PROC_MAX {
        procTable[i] := procTable[i].(state := Running);
        currentPid := procTable[i].pid;
      }
      schedEnabled := true;
    }

    /** proc_current; PROC_MAX for NULL */
    method ProcCurrent() returns (i: nat)
      requires Valid()
      ensures i == Current(State())
    {
      i := 0;
      while i < PROC_MAX
        invariant 0 <= i <= PROC_MAX
        invariant i + SlotOf(procTable[i..], currentPid) == Current(State())
      {
        if procTable[i].pid == currentPid {
          return;
        }
        i := i + 1;
      }
    }

    /** The search for an unused slot in proc_create and proc_fork. */
    method FindUnused() returns (i: nat)
      requires Valid()
      ensures i == FreeSlot(procTable[..], 0)
    {
      i := 0;
      while i < PROC_MAX
        invariant 0 <= i <= PROC_MAX
        invariant FreeSlot(procTable[..], i) == FreeSlot(procTable[..], 0)
      {
        if procTable[i].state == Unused {
          return;
        }
        i := i + 1;
      }
    }

    /** proc_create */
    method ProcCreate(name: string, entry: u32) returns (slot: nat)
      requires Valid()
      modifies this`nextPid, procTable
      ensures Valid() && Made(State(), slot) == Create(old(State()), name, entry)
    {
      slot := FindUnused();
      if slot == PROC_MAX {
        return;
      }
      var top := (StackAddress(tableBase, slot) + STACK_SIZE) % 0x1_0000_0000;
      procTable[slot] := EMPTY;
      procTable[slot] := procTable[slot].(pid := nextPid, state := Ready, name := ShortName(name));
      nextPid := nextPid + 1;
      procTable[slot] := procTable[slot].(stackTop := top, ctx := ZERO_CONTEXT.(esp := top, eip := entry, eflags := 0x202));
    }

    /** sys_exec behind a successful load */
    method SysExec(path: string, entry: u32) returns (slot: nat)
      requires Valid()
      modifies this`nextPid, procTable
      ensures Valid() && Made(State(), slot) == Exec(old(State()), path, entry)
    {
      slot := ProcCreate(path, entry);
      if slot == PROC_MAX {
        return;
      }
      procTable[slot] := procTable[slot].(parentPid := currentPid, state := Ready);
    }

    /** proc_fork */
    method ProcFork(parentEsp: u32) returns (slot: nat)
      requires Valid()
      modifies this`nextPid, procTable
      ensures Valid() && Made(State(), slot) == Fork(old(State()), parentEsp)
    {
      ghost var k := State();
      var parent := ProcCurrent();
      if parent == PROC_MAX {
        return PROC_MAX;
      }
      slot := FindUnused();
      if slot == PROC_MAX {
        return;
      }
      procTable[slot] := procTable[parent];
      procTable[slot] := procTable[slot].(pid := nextPid, parentPid := procTable[parent].pid, state := Ready);
      nextPid := nextPid + 1;
      var offset := parentEsp - StackAddress(tableBase, parent);
      procTable[slot] := procTable[slot].(
        stackTop := (StackAddress(tableBase, slot) + STACK_SIZE) % 0x1_0000_0000,
        ctx := procTable[slot].ctx.(esp := (StackAddress(tableBase, slot) + offset) % 0x1_0000_0000, eax := 0));
      assert State().procs == Fork(k, parentEsp).kernel.procs;
    }

    /** sys_fork: the child's pid for the parent, or -1 */
    method SysFork(esp: u32) returns (ret: int)
      requires Valid()
      modifies this`nextPid, procTable
      ensures Valid() && State() == Fork(old(State()), esp).kernel
      ensures ret == if Fork(old(State()), esp).slot == PROC_MAX then -1 else old(nextPid)
    {
      var slot := ProcFork(esp);
      if slot == PROC_MAX {
        return -1;
      }
      ret := procTable[slot].pid;
    }

    /** sys_exit, without the signal to the parent */
    method SysExit(code: int)
      requires Valid()
      modifies this`currentPid, procTable
      ensures Valid() && State() == Exit(old(State()), code)
    {
      var p := ProcCurrent();
      if p < PROC_MAX {
        procTable[p] := procTable[p].(exitCode := code, state := Zombie);
      }
      currentPid := 1;
    }

    /** One pass of proc_wait over the table; found tells whether the caller returns or sleeps and tries again. */
    method WaitPass(child: u32) returns (found: bool, pid: nat, exitCode: int)
      requires Valid()
      modifies procTable
      ensures Valid() && Reaped(State(), found, pid, exitCode) == Wait(old(State()), child)
    {
      var i := 0;
      while i < PROC_MAX
        invariant 0 <= i <= PROC_MAX
        invariant State() == old(State())
        invariant FirstReapable(State(), child, i) == FirstReapable(State(), child, 0)
      {
        var p := procTable[i];
        if p.state != Zombie {
          i := i + 1;
          continue;
        }
        if child == ANY_CHILD {
          var cur := ProcCurrent();
          if cur == PROC_MAX || p.parentPid != procTable[cur].pid {
            i := i + 1;
            continue;
          }
        } else if p.pid != child {
          i := i + 1;
          continue;
        }
        procTable[i] := EMPTY;
        return true, p.pid, p.exitCode;
      }
      return false, 0, 0;
    }

    /** pick_next; PROC_MAX stands for NULL */
    method PickNextSlot(cur: nat) returns (next: nat)
      requires Valid() && cur <= PROC_MAX
      ensures next == PickNext(State(), cur)
    {
      hide Around;
      var start := 0;
      if cur < PROC_MAX {
        start := Around(cur, 1);
      }
      ghost var goal := ReadyFrom(procTable[..], start, 0);
      var i := 0;
      while i < PROC_MAX
        invariant 0 <= i <= PROC_MAX
        invariant ReadyFrom(procTable[..], start, i) == goal
      {
        var idx := Around(start, i);
        if procTable[idx].state == Ready {
          return idx;
        }
        i := i + 1;
      }
      next := cur;
    }

    /** sched_tick: the frame handed back is the one the interrupt returns to. */
    method SchedTick(regs: Context) returns (frame: Context)
      requires Valid()
      modifies this`currentPid, this`tickCounter, procTable
      ensures Valid() && Switched(State(), frame) == Tick(old(State()), regs)
    {
      if !schedEnabled {
        return regs;
      }
      tickCounter := tickCounter + 1;
      if tickCounter < SCHED_TICKS {
        return regs;
      }
      tickCounter := 0;
      ghost var k := State();
      assert k == old(State()).(ticks := 0);
      var cur := ProcCurrent();
      var next := PickNextSlot(cur);
      if next == PROC_MAX || next == cur {
        return regs;
      }
      if cur < PROC_MAX && procTable[cur].state == Running {
        procTable[cur] := procTable[cur].(ctx := regs, state := Ready);
      }
      procTable[next] := procTable[next].(state := Running);
      currentPid := procTable[next].pid;
      frame := procTable[next].ctx;
      assert State().procs == SwitchTo(k, cur, next, regs).kernel.procs;
    }
  }
}
