/** Safety of the process table and the scheduler over all runs. */
module ProcSafety {
  import opened Bytes
  import opened ProcTable

  /** Pids are unique, at most the current process is RUNNING, and the current process is RUNNING unless it is the
      shell, which an exit makes current without resuming it. */
  ghost predicate Safe(k: Kernel)
  {
    && Sized(k)
    && 1 <= k.currentPid < k.nextPid
    && (forall i :: 0 <= i < PROC_MAX && k.procs[i].state == Unused ==> k.procs[i].pid == 0)
    && (forall i :: 0 <= i < PROC_MAX && k.procs[i].state != Unused ==> 1 <= k.procs[i].pid < k.nextPid)
    && (forall i, j :: 0 <= i < PROC_MAX && 0 <= j < PROC_MAX && k.procs[i].state != Unused && k.procs[i].pid == k.procs[j].pid ==> i == j)
    && (forall i :: 0 <= i < PROC_MAX && k.procs[i].state == Running ==> k.procs[i].pid == k.currentPid)
    && (forall i :: 0 <= i < PROC_MAX && k.procs[i].pid == k.currentPid ==> k.procs[i].state == Running || k.currentPid == 1)
  }

  lemma BootedSafe(tableBase: u32)
    ensures Safe(Booted(tableBase)) && Booted(tableBase).procs[0].state == Running
  {
    var empty := Kernel(seq(PROC_MAX, _ => EMPTY), 1, 0, 0, false, tableBase);
    assert FreeSlot(empty.procs, 0) == 0;
  }

  /** The current slot, if there is one, is the only one with the current pid. */
  lemma CurrentIs(k: Kernel, i: nat)
    requires Safe(k) && i < PROC_MAX && k.procs[i].pid == k.currentPid
    ensures Current(k) == i
  {
    assert k.procs[i].state != Unused;
  }

  /** A new process in an unused slot. */
  lemma AddedSafe(k: Kernel, i: nat, p: Process)
    requires Safe(k) && i < PROC_MAX && k.procs[i].state == Unused && p.state == Ready && p.pid == k.nextPid
    ensures Safe(k.(procs := k.procs[i := p], nextPid := k.nextPid + 1))
  {
  }

  lemma CreateSafe(k: Kernel, name: string, entry: u32)
    requires Safe(k)
    ensures Safe(Create(k, name, entry).kernel)
  {
    var m := Create(k, name, entry);
    if m.slot < PROC_MAX {
      AddedSafe(k, m.slot, m.kernel.procs[m.slot]);
    }
  }

  lemma ExecSafe(k: Kernel, name: string, entry: u32)
    requires Safe(k)
    ensures Safe(Exec(k, name, entry).kernel)
  {
    var m := Exec(k, name, entry);
    if m.slot < PROC_MAX {
      AddedSafe(k, m.slot, m.kernel.procs[m.slot]);
      assert m.kernel.procs == k.procs[m.slot := m.kernel.procs[m.slot]];
    }
  }

  lemma ForkSafe(k: Kernel, esp: u32)
    requires Safe(k)
    ensures Safe(Fork(k, esp).kernel)
  {
    var m := Fork(k, esp);
    if m.slot < PROC_MAX {
      AddedSafe(k, m.slot, m.kernel.procs[m.slot]);
    }
  }

  lemma ExitSafe(k: Kernel, code: int)
    requires Safe(k)
    ensures Safe(Exit(k, code))
  {
    forall i | 0 <= i < PROC_MAX && k.procs[i].pid == k.currentPid
      ensures i == Current(k)
    {
      CurrentIs(k, i);
    }
  }

  lemma WaitSafe(k: Kernel, child: u32)
    requires Safe(k)
    ensures Safe(Wait(k, child).kernel)
  {
  }

  lemma PushSafe(k: Kernel, offset: nat, value: u8)
    requires Safe(k)
    ensures Safe(Push(k, offset, value))
  {
  }

  /** A switch changes no pid; only the two slots concerned change state. */
  lemma SwitchSlots(k: Kernel, cur: nat, next: nat, frame: Context, i: nat)
    requires Sized(k) && cur <= PROC_MAX && next < PROC_MAX && next != cur && i < PROC_MAX
    ensures var k' := SwitchTo(k, cur, next, frame).kernel;
            && k'.nextPid == k.nextPid && k'.currentPid == k.procs[next].pid
            && k'.procs[i].pid == k.procs[i].pid
            && k'.procs[i].state == if i == next then Running
                                    else if i == cur && k.procs[i].state == Running then Ready
                                    else k.procs[i].state
  {
  }

  lemma SwitchSafe(k: Kernel, cur: nat, next: nat, frame: Context)
    requires Safe(k) && cur == Current(k) && next < PROC_MAX && next != cur && k.procs[next].state == Ready
    ensures Safe(SwitchTo(k, cur, next, frame).kernel)
  {
    forall i | 0 <= i < PROC_MAX && k.procs[i].state == Running
      ensures i == cur
    {
      CurrentIs(k, i);
    }
    hide SwitchTo, Current;
    forall i: nat | i < PROC_MAX
      ensures var k' := SwitchTo(k, cur, next, frame).kernel;
              && k'.procs[i].pid == k.procs[i].pid
              && k'.procs[i].state == if i == next then Running
                                      else if i == cur && k.procs[i].state == Running then Ready
                                      else k.procs[i].state
    {
      SwitchSlots(k, cur, next, frame, i);
    }
    SwitchSlots(k, cur, next, frame, next);
  }

  lemma TickSafe(k: Kernel, frame: Context)
    requires Safe(k)
    ensures Safe(Tick(k, frame).kernel)
  {
    if k.enabled && k.ticks + 1 >= SCHED_TICKS {
      var k' := k.(ticks := 0);
      assert Safe(k') && Current(k') == Current(k);
      var next := PickNext(k', Current(k'));
      if next != Current(k') {
        SwitchSafe(k', Current(k'), next, frame);
      }
    }
  }

  /** Every kernel entry keeps the table safe. */
  lemma StepSafe(k: Kernel, e: Event)
    requires Safe(k)
    ensures Safe(Step(k, e))
  {
    match e
    case TickEvent(frame) => TickSafe(k, frame);
    case CreateEvent(name, entry) => CreateSafe(k, name, entry);
    case ExecEvent(name, entry) => ExecSafe(k, name, entry);
    case ForkEvent(esp) => ForkSafe(k, esp);
    case ExitEvent(code) => ExitSafe(k, code);
    case WaitEvent(child) => WaitSafe(k, child);
    case StackEvent(offset, value) => PushSafe(k, offset, value);
  }

  lemma {:induction false} RunSafe(k: Kernel, events: seq<Event>)
    requires Safe(k)
    ensures Safe(Run(k, events))
    decreases |events|
  {
    if events != [] {
      StepSafe(k, events[0]);
      RunSafe(Step(k, events[0]), events[1..]);
    }
  }

  // ---------------------------------------------------------------- saved contexts

  /** What one step can do to a READY process: nothing; or a tick resumes it with exactly its saved context; or, if it
      is the shell made current by an earlier exit, another exit ends it. */
  lemma ReadyStep(k: Kernel, e: Event, i: nat)
    requires Safe(k) && i < PROC_MAX && k.procs[i].state == Ready
    ensures var k' := Step(k, e);
            || k'.procs[i] == k.procs[i]
            || (e.TickEvent? && k'.procs[i] == k.procs[i].(state := Running) && k'.currentPid == k.procs[i].pid
                && Tick(k, e.frame).frame == k.procs[i].ctx)
            || (e.ExitEvent? && k.procs[i].pid == k.currentPid == 1)
  {
    hide StackBase, Zeros, Around;
    match e
    case TickEvent(frame) =>
      if k.enabled && k.ticks + 1 >= SCHED_TICKS {
        var k' := k.(ticks := 0);
        assert Current(k') == Current(k);
      }
    case ExitEvent(code) =>
    case CreateEvent(name, entry) =>
    case ExecEvent(name, entry) =>
    case ForkEvent(esp) =>
    case WaitEvent(child) =>
    case StackEvent(offset, value) =>
  }

  /** The process in slot i is READY after each event of a run. */
  predicate StaysReady(k: Kernel, events: seq<Event>, i: nat)
    requires Sized(k) && i < PROC_MAX
    decreases |events|
  {
    k.procs[i].state == Ready && (events == [] || StaysReady(Step(k, events[0]), events[1..], i))
  }

  lemma {:induction false} StaysReadyKept(k: Kernel, events: seq<Event>, i: nat)
    requires Safe(k) && i < PROC_MAX && StaysReady(k, events, i)
    ensures Run(k, events).procs[i] == k.procs[i]
    decreases |events|
  {
    if events != [] {
      ReadyStep(k, events[0], i);
      StepSafe(k, events[0]);
      StaysReadyKept(Step(k, events[0]), events[1..], i);
    }
  }

  /** The frame resumed is the frame preempted: whatever happens while a process waits, the tick that switches it back
      in restores the ten registers it was interrupted with. */
  lemma ResumesWherePreempted(k: Kernel, f: Context, events: seq<Event>, g: Context, i: nat)
    requires Safe(k) && i < PROC_MAX && k.procs[i].state == Running
    requires Tick(k, f).kernel.procs[i].state == Ready
    requires StaysReady(Tick(k, f).kernel, events, i)
    requires var k2 := Run(Tick(k, f).kernel, events);
             Tick(k2, g).kernel.procs[i].state == Running
    ensures var k2 := Run(Tick(k, f).kernel, events);
            Tick(k2, g).frame == f
  {
    CurrentIs(k, i);
    var k1 := Tick(k, f).kernel;
    assert Current(k.(ticks := 0)) == Current(k);
    assert k1.procs[i].ctx == f;
    TickSafe(k, f);
    StaysReadyKept(k1, events, i);
    RunSafe(k1, events);
    ReadyStep(Run(k1, events), TickEvent(g), i);
  }

  // ---------------------------------------------------------------- zombies

  /** fork fails exactly without a current process or a free slot; otherwise the child is a new process of the current
      one that returns 0 and stands at the same place of its own copy of the stack. */
  lemma ForkChild(k: Kernel, esp: u32)
    requires Safe(k)
    ensures var i, cur, k' := Fork(k, esp).slot, Current(k), Fork(k, esp).kernel;
            && (i == PROC_MAX <==> cur == PROC_MAX || forall j :: 0 <= j < PROC_MAX ==> k.procs[j].state != Unused)
            && (i == PROC_MAX ==> k' == k)
            && (i < PROC_MAX ==>
                 var child, parent := k'.procs[i], k.procs[cur];
                 && i != cur && (forall j :: 0 <= j < PROC_MAX && j != i ==> k'.procs[j] == k.procs[j])
                 && (forall j :: 0 <= j < PROC_MAX ==> k.procs[j].pid != child.pid)
                 && child.parentPid == k.currentPid && child.state == Ready && child.stack == parent.stack
                 && child == parent.(pid := child.pid, parentPid := k.currentPid, state := Ready, ctx := child.ctx,
                                     stackTop := (StackBase(k, i) + 4096) % 0x1_0000_0000)
                 && child.ctx.eax == 0 && child.ctx == parent.ctx.(eax := 0, esp := child.ctx.esp)
                 && (child.ctx.esp - StackBase(k, i)) % 0x1_0000_0000 == (esp - StackBase(k, cur)) % 0x1_0000_0000)
  {
    var cur, i := Current(k), FreeSlot(k.procs, 0);
    FreeSlotNone(k.procs, 0);
    if cur < PROC_MAX && i < PROC_MAX {
      SameOffset(StackBase(k, i), StackBase(k, cur), esp);
    }
  }

  lemma {:induction false} FreeSlotNone(procs: seq<Process>, i: nat)
    requires i <= |procs|
    ensures FreeSlot(procs, i) == |procs| <==> forall j :: i <= j < |procs| ==> procs[j].state != Unused
    decreases |procs| - i
  {
    if i < |procs| {
      FreeSlotNone(procs, i + 1);
    }
  }

  lemma SameOffset(child: u32, parent: u32, esp: u32)
    ensures ((child + (esp - parent)) % 0x1_0000_0000 - child) % 0x1_0000_0000 == (esp - parent) % 0x1_0000_0000
  {
  }

  /** Whatever happens between, writes to the parent's stack included, the tick that first resumes a forked child finds
      its stack as the parent's was at the fork, and returns 0 in its eax. */
  lemma ChildReturnsZero(k: Kernel, esp: u32, events: seq<Event>, g: Context)
    requires Safe(k) && Fork(k, esp).slot < PROC_MAX
    requires StaysReady(Fork(k, esp).kernel, events, Fork(k, esp).slot)
    requires var k2 := Run(Fork(k, esp).kernel, events);
             Tick(k2, g).kernel.procs[Fork(k, esp).slot].state == Running
    ensures Tick(Run(Fork(k, esp).kernel, events), g).frame.eax == 0
    ensures Current(k) < PROC_MAX
    ensures Tick(Run(Fork(k, esp).kernel, events), g).kernel.procs[Fork(k, esp).slot].stack == k.procs[Current(k)].stack
  {
    var i, k1 := Fork(k, esp).slot, Fork(k, esp).kernel;
    ForkChild(k, esp);
    ForkSafe(k, esp);
    RunSafe(k1, events);
    StaysReadyKept(k1, events, i);
    ReadyStep(Run(k1, events), TickEvent(g), i);
  }

  /** sys_exec fails exactly when all sixteen slots are taken; otherwise the new process is a new child of the caller. */
  lemma ExecChild(k: Kernel, name: string, entry: u32)
    requires Safe(k)
    ensures var m := Exec(k, name, entry);
            && (m.slot >= 16 <==> forall j :: 0 <= j < 16 ==> k.procs[j].state != Unused)
            && (m.slot >= 16 ==> m.kernel == k)
            && (m.slot < 16 ==>
                 var child := m.kernel.procs[m.slot];
                 && k.procs[m.slot].state == Unused && m.kernel.currentPid == k.currentPid
                 && (forall j :: 0 <= j < 16 && j != m.slot ==> m.kernel.procs[j] == k.procs[j])
                 && (forall j :: 0 <= j < 16 ==> k.procs[j].pid != child.pid)
                 && child.parentPid == k.currentPid && child.name == name[..Min(|name|, 31)] && child.state == Ready
                 && child.ctx.eip == entry && child.ctx.eflags == 0x202
                 && child.ctx.esp == (StackBase(k, m.slot) + 4096) % 0x1_0000_0000)
  {
    hide StackBase, Zeros;
    FreeSlotNone(k.procs, 0);
  }

  /** Whatever happens between, the tick that first resumes it enters the program, interrupts on, at the top of a stack of
      its own. */
  lemma ExecStarts(k: Kernel, name: string, entry: u32, events: seq<Event>, g: Context)
    requires Safe(k)
    requires Exec(k, name, entry).slot < PROC_MAX && StaysReady(Exec(k, name, entry).kernel, events, Exec(k, name, entry).slot)
    requires var m := Exec(k, name, entry); Tick(Run(m.kernel, events), g).kernel.procs[m.slot].state == Running
    ensures var m := Exec(k, name, entry);
            var frame := Tick(Run(m.kernel, events), g).frame;
            frame.eip == entry && frame.eflags == 0x202 && frame.esp == (StackBase(k, m.slot) + 4096) % 0x1_0000_0000
  {
    hide Exec, Run, Tick, StackBase;
    var m := Exec(k, name, entry);
    ExecChild(k, name, entry);
    ExecSafe(k, name, entry);
    RunSafe(m.kernel, events);
    StaysReadyKept(m.kernel, events, m.slot);
    ReadyStep(Run(m.kernel, events), TickEvent(g), m.slot);
  }

  /** The stack buffers of different slots do not overlap. */
  lemma StacksApart(k: Kernel, i: nat, j: nat)
    requires k.tableBase + PROC_MAX * PROC_BYTES <= 0x1_0000_0000 && i < PROC_MAX && j < PROC_MAX && i != j
    ensures StackBase(k, i) + STACK_SIZE <= StackBase(k, j) || StackBase(k, j) + STACK_SIZE <= StackBase(k, i)
  {
  }

  /** A zombie other than pid 1 is untouched until a wait reaps it, and that wait returns its exit code. */
  lemma ZombieStep(k: Kernel, e: Event, i: nat)
    requires Safe(k) && i < PROC_MAX && k.procs[i].state == Zombie && k.procs[i].pid != 1
    ensures var k' := Step(k, e);
            || k'.procs[i] == k.procs[i]
            || (e.WaitEvent? && k'.procs[i] == EMPTY
                && Wait(k, e.child) == Reaped(k', true, k.procs[i].pid, k.procs[i].exitCode))
  {
    hide StackBase, Zeros, Around;
    match e
    case TickEvent(frame) =>
      if k.enabled && k.ticks + 1 >= SCHED_TICKS {
        var k' := k.(ticks := 0);
        assert Current(k') == Current(k);
      }
    case ExitEvent(code) =>
      assert k.procs[i].pid != k.currentPid;
    case CreateEvent(name, entry) =>
    case ExecEvent(name, entry) =>
    case ForkEvent(esp) =>
    case WaitEvent(child) =>
    case StackEvent(offset, value) =>
  }

  /** A wait for one pid returns that pid, as soon as it is a zombie; a wait for any child returns a zombie whose parent
      is the current process, if there is one. It empties that slot only. */
  lemma WaitReturns(k: Kernel, child: u32)
    requires Safe(k)
    ensures var w := Wait(k, child);
            && (child != 0xFFFF_FFFF ==>
                  && (w.found <==> exists i :: 0 <= i < PROC_MAX && k.procs[i].state == Zombie && k.procs[i].pid == child)
                  && (w.found ==> w.pid == child))
            && (child == 0xFFFF_FFFF ==>
                  (w.found <==> Current(k) < PROC_MAX
                                && exists i :: 0 <= i < PROC_MAX && k.procs[i].state == Zombie && k.procs[i].parentPid == k.currentPid))
            && (!w.found ==> w.kernel == k)
            && (w.found ==>
                  exists i :: 0 <= i < PROC_MAX && k.procs[i].state == Zombie
                              && k.procs[i].pid == w.pid && k.procs[i].exitCode == w.exitCode
                              && (child == 0xFFFF_FFFF ==> k.procs[i].parentPid == k.currentPid)
                              && w.kernel == k.(procs := k.procs[i := EMPTY]))
  {
    var i := FirstReapable(k, child, 0);
    assert Current(k) < PROC_MAX ==> k.procs[Current(k)].pid == k.currentPid;
    if i == PROC_MAX {
      forall j | 0 <= j < PROC_MAX && k.procs[j].state == Zombie
        ensures if child == ANY_CHILD then Current(k) == PROC_MAX || k.procs[j].parentPid != k.currentPid else k.procs[j].pid != child
      {
        assert !Reapable(k, j, child);
      }
    } else {
      assert Reapable(k, i, child);
    }
  }

  /** No slot carries the pid and none ever will again. */
  ghost predicate Gone(k: Kernel, pid: nat)
  {
    Sized(k) && 1 <= pid < k.nextPid && forall i :: 0 <= i < PROC_MAX ==> k.procs[i].pid != pid
  }

  /** A step leaves a slot's pid alone, clears it, or gives it the next one. */
  lemma StepPids(k: Kernel, e: Event, i: nat)
    requires Safe(k) && i < PROC_MAX
    ensures Step(k, e).nextPid >= k.nextPid
    ensures Step(k, e).procs[i].pid in {k.procs[i].pid, 0, k.nextPid}
  {
    hide StackBase, Zeros, Around, ReadyFrom, FirstReapable;
    match e
    case TickEvent(frame) =>
    case CreateEvent(name, entry) =>
    case ExecEvent(name, entry) =>
    case ForkEvent(esp) =>
    case ExitEvent(code) =>
    case WaitEvent(child) =>
    case StackEvent(offset, value) =>
  }

  lemma GoneStays(k: Kernel, e: Event, pid: nat)
    requires Safe(k) && Gone(k, pid)
    ensures Gone(Step(k, e), pid)
    ensures e.WaitEvent? && Wait(k, e.child).found ==> Wait(k, e.child).pid != pid
  {
    hide Step;
    forall i: nat | i < PROC_MAX ensures Step(k, e).procs[i].pid != pid && Step(k, e).nextPid >= k.nextPid {
      StepPids(k, e, i);
    }
    StepPids(k, e, 0);
  }

  /** How many waits of a run return a pid. */
  function Reaps(k: Kernel, events: seq<Event>, pid: nat): nat
    requires Sized(k)
    decreases |events|
  {
    if events == [] then 0
    else
      var e := events[0];
      (if e.WaitEvent? && Wait(k, e.child).found && Wait(k, e.child).pid == pid then 1 else 0)
      + Reaps(Step(k, e), events[1..], pid)
  }

  lemma {:induction false} GoneNeverReaped(k: Kernel, events: seq<Event>, pid: nat)
    requires Safe(k) && Gone(k, pid)
    ensures Reaps(k, events, pid) == 0
    decreases |events|
  {
    if events != [] {
      GoneStays(k, events[0], pid);
      StepSafe(k, events[0]);
      GoneNeverReaped(Step(k, events[0]), events[1..], pid);
    }
  }

  /** Reaping empties the only slot with that pid. */
  lemma ReapedIsGone(k: Kernel, child: u32)
    requires Safe(k) && Wait(k, child).found
    ensures Gone(Wait(k, child).kernel, Wait(k, child).pid)
  {
  }

  /** In any run, at most one wait returns a given pid. */
  lemma {:induction false} ReapedOnce(k: Kernel, events: seq<Event>, pid: nat)
    requires Safe(k)
    ensures Reaps(k, events, pid) <= 1
    decreases |events|
  {
    if events != [] {
      var e := events[0];
      StepSafe(k, e);
      if e.WaitEvent? && Wait(k, e.child).found && Wait(k, e.child).pid == pid {
        ReapedIsGone(k, e.child);
        GoneNeverReaped(Step(k, e), events[1..], pid);
      } else {
        ReapedOnce(Step(k, e), events[1..], pid);
      }
    }
  }

  /** Over any run a zombie other than pid 1 is either still there, unchanged, or has been reaped by exactly one wait. */
  lemma {:induction false} ZombieKeptOrReaped(k: Kernel, events: seq<Event>, i: nat)
    requires Safe(k) && i < PROC_MAX && k.procs[i].state == Zombie && k.procs[i].pid != 1
    ensures || (Run(k, events).procs[i] == k.procs[i] && Reaps(k, events, k.procs[i].pid) == 0)
            || (Gone(Run(k, events), k.procs[i].pid) && Reaps(k, events, k.procs[i].pid) == 1)
    decreases |events|
  {
    if events != [] {
      var e, pid := events[0], k.procs[i].pid;
      var k' := Step(k, e);
      StepSafe(k, e);
      ZombieStep(k, e, i);
      if k'.procs[i] == k.procs[i] {
        OnlyOwnSlotReaped(k, e, i);
        ZombieKeptOrReaped(k', events[1..], i);
      } else {
        ReapedIsGone(k, e.child);
        GoneNeverReaped(k', events[1..], pid);
        GoneOverRun(k', events[1..], pid);
      }
    }
  }

  /** The slot of the process that exits. */
  lemma ExitLeavesZombie(k: Kernel, code: int)
    requires Safe(k) && Current(k) < PROC_MAX && k.currentPid != 1
    ensures var z, r := k.procs[Current(k)], Exit(k, code);
            && Safe(r) && r.procs[Current(k)] == z.(state := Zombie, exitCode := code) && z.pid == k.currentPid
            && (forall j :: 0 <= j < PROC_MAX && j != Current(k) ==> r.procs[j] == k.procs[j])
  {
    ExitSafe(k, code);
  }

  /** Whatever happens between, the wait that returns a process returns the code the process exited with. */
  lemma WaitReturnsExitCode(k: Kernel, code: int, events: seq<Event>, child: u32)
    requires Safe(k) && Current(k) < PROC_MAX && k.currentPid != 1
    requires var w := Wait(Run(Exit(k, code), events), child); w.found && w.pid == k.currentPid
    ensures Wait(Run(Exit(k, code), events), child).exitCode == code
  {
    hide Exit, Run, Wait, Current, Reapable;
    var i, z := Current(k), Exit(k, code);
    var r := Run(z, events);
    ExitLeavesZombie(k, code);
    ZombieKeptOrReaped(z, events, i);
    RunSafe(z, events);
    WaitReturns(r, child);
  }

  /** Until then the parent finds it: by its pid, or as any child once the parent is current. */
  lemma ParentFinds(k: Kernel, code: int, events: seq<Event>)
    requires Safe(k) && Current(k) < PROC_MAX && k.currentPid != 1
    requires Reaps(Exit(k, code), events, k.currentPid) == 0
    ensures var r, p := Run(Exit(k, code), events), k.currentPid;
            && (p < 0xFFFF_FFFF ==> Wait(r, p).found && Wait(r, p).exitCode == code)
            && (Current(r) < PROC_MAX && r.currentPid == k.procs[Current(k)].parentPid ==> Wait(r, 0xFFFF_FFFF).found)
  {
    hide Exit, Run, Wait, Current, Reapable;
    var i, z := Current(k), Exit(k, code);
    ExitLeavesZombie(k, code);
    ZombieKeptOrReaped(z, events, i);
    RunSafe(z, events);
    var r, p := Run(z, events), k.currentPid;
    assert r.procs[i] == z.procs[i];
    WaitReturns(r, 0xFFFF_FFFF);
    if p < 0xFFFF_FFFF {
      WaitReturns(r, p);
    }
  }

  lemma OnlyOwnSlotReaped(k: Kernel, e: Event, i: nat)
    requires Safe(k) && i < PROC_MAX && k.procs[i].state == Zombie && Step(k, e).procs[i] == k.procs[i]
    ensures e.WaitEvent? && Wait(k, e.child).found ==> Wait(k, e.child).pid != k.procs[i].pid
  {
  }

  lemma {:induction false} GoneOverRun(k: Kernel, events: seq<Event>, pid: nat)
    requires Safe(k) && Gone(k, pid)
    ensures Gone(Run(k, events), pid)
    decreases |events|
  {
    if events != [] {
      GoneStays(k, events[0], pid);
      StepSafe(k, events[0]);
      GoneOverRun(Step(k, events[0]), events[1..], pid);
    }
  }
}
