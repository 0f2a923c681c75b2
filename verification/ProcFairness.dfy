/** Who gets the processor: bounded waiting, and what an exit does to the shell (kernel/sched.c, kernel/syscall.c). */
module ProcFairness {
  import opened Bytes
  import opened ProcTable
  import opened ProcSafety

  // ---------------------------------------------------------------- bounded waiting

  /** Places from slot c forward around the table to slot i. */
  function Dist(c: nat, i: nat): (d: nat)
    ensures d < PROC_MAX
  {
    (i - c) % PROC_MAX
  }

  /** The current process runs and the one in slot i waits for the processor. */
  predicate Waiting(k: Kernel, i: nat)
  {
    && Sized(k) && i < PROC_MAX && k.enabled && k.ticks < SCHED_TICKS
    && Current(k) < PROC_MAX && k.procs[Current(k)].state == Running
    && k.procs[i].state == Ready
  }

  /** Ticks after which slot i is switched in at the latest. */
  function TicksLeft(k: Kernel, i: nat): (n: int)
    requires Waiting(k, i)
    ensures n <= 150
  {
    SCHED_TICKS * Dist(Current(k), i) - k.ticks
  }

  /** The pick is no further around the table than any READY process. */
  lemma PickNotPast(k: Kernel, c: nat, i: nat)
    requires Sized(k) && c < PROC_MAX && i < PROC_MAX && i != c && k.procs[i].state == Ready && k.procs[c].state == Running
    ensures var n := PickNext(k, c);
            && n < PROC_MAX && n != c && k.procs[n].state == Ready
            && (n == i || Dist(n, i) < Dist(c, i))
  {
    hide Around, Dist, ReadyFrom;
    var start := Around(c, 1);
    var e := Dist(start, i);
    AroundDist(start, i);
    FoundBy(k.procs, start, e);
    var d := ReadyFrom(k.procs, start, 0);
    DistAround(c, i, d, e);
  }

  lemma AroundDist(start: nat, i: nat)
    requires start < PROC_MAX && i < PROC_MAX
    ensures Around(start, Dist(start, i)) == i
  {
    DistIs(start, i);
    AroundIs(start, Dist(start, i));
  }

  /** The search goes no further than a READY slot. */
  lemma FoundBy(procs: seq<Process>, start: nat, e: nat)
    requires |procs| == PROC_MAX && e < PROC_MAX && procs[Around(start, e)].state == Ready
    ensures ReadyFrom(procs, start, 0) <= e
  {
    hide Around;
  }

  lemma DistAround(c: nat, i: nat, d: nat, e: nat)
    requires c < PROC_MAX && i < PROC_MAX && i != c && d <= e && e == Dist(Around(c, 1), i)
    ensures Dist(c, i) == e + 1
    ensures Dist(Around(Around(c, 1), d), i) == e - d
  {
    hide Around, Dist;
    AroundIs(c, 1);
    AroundIs(Around(c, 1), d);
    DistIs(c, i);
    DistIs(Around(c, 1), i);
    DistIs(Around(Around(c, 1), d), i);
  }

  lemma AroundIs(c: nat, d: nat)
    requires c < PROC_MAX && d <= PROC_MAX
    ensures Around(c, d) == if c + d < PROC_MAX then c + d else c + d - PROC_MAX
  {
  }

  lemma DistIs(c: nat, i: nat)
    requires c < PROC_MAX && i < PROC_MAX
    ensures Dist(c, i) == if i >= c then i - c else i - c + PROC_MAX
  {
  }

  /** A tick switches the waiting process in or brings its turn closer. */
  lemma TickProgress(k: Kernel, f: Context, i: nat)
    requires Safe(k) && Waiting(k, i)
    ensures var k' := Tick(k, f).kernel;
            || (k'.procs[i].state == Running && k'.currentPid == k'.procs[i].pid)
            || (Waiting(k', i) && TicksLeft(k', i) < TicksLeft(k, i))
  {
    if k.ticks + 1 >= SCHED_TICKS {
      var k0 := k.(ticks := 0);
      var c := Current(k);
      assert Current(k0) == c;
      PickNotPast(k0, c, i);
      var n := PickNext(k0, c);
      var k' := Tick(k, f).kernel;
      TickSafe(k, f);
      CurrentIs(k', n);
    }
  }

  /** Creating, forking and reaping leave the order of turns alone. */
  lemma OtherStepWaits(k: Kernel, e: Event, i: nat)
    requires Safe(k) && Waiting(k, i) && !e.TickEvent? && !e.ExitEvent?
    ensures Waiting(Step(k, e), i) && TicksLeft(Step(k, e), i) == TicksLeft(k, i)
  {
    var c, k' := Current(k), Step(k, e);
    StepSafe(k, e);
    ReadyStep(k, e, i);
    assert k'.procs[c].pid == k.procs[c].pid && k'.procs[c].state == Running && k'.currentPid == k.currentPid;
    CurrentIs(k', c);
  }

  /** One step of any run without an exit: the waiting process is switched in, or waits on, closer by each tick. */
  lemma WaitingStep(k: Kernel, e: Event, i: nat)
    requires Safe(k) && Waiting(k, i) && !e.ExitEvent?
    ensures var k' := Step(k, e);
            && Safe(k') && k'.procs[i].pid == k.procs[i].pid
            && (|| (e.TickEvent? && k'.procs[i].state == Running && k'.currentPid == k'.procs[i].pid)
                || (Waiting(k', i) && TicksLeft(k', i) <= TicksLeft(k, i) - if e.TickEvent? then 1 else 0))
  {
    StepSafe(k, e);
    ReadyStep(k, e, i);
    if e.TickEvent? {
      TickProgress(k, e.frame, i);
    } else {
      OtherStepWaits(k, e, i);
    }
  }

  function TickCount(events: seq<Event>): nat
  {
    if events == [] then 0 else (if events[0].TickEvent? then 1 else 0) + TickCount(events[1..])
  }

  predicate NoExit(events: seq<Event>)
  {
    forall k :: 0 <= k < |events| ==> !events[k].ExitEvent?
  }

  lemma NoExitTail(events: seq<Event>)
    requires NoExit(events) && events != []
    ensures NoExit(events[1..])
  {
    assert forall j :: 0 <= j < |events[1..]| ==> events[1..][j] == events[j + 1];
  }

  /** One event in front of a run. */
  lemma RunFrom(k: Kernel, events: seq<Event>, m: nat)
    requires Sized(k) && m < |events|
    ensures Run(k, events[..m + 1]) == Run(Step(k, events[0]), events[1..][..m])
  {
    assert events[..m + 1][0] == events[0] && events[..m + 1][1..] == events[1..][..m];
  }

  /** Bounded waiting: in any run without an exit that holds as many ticks as TicksLeft says, never more than 150, a
      READY process gets the processor. */
  lemma {:induction false} BoundedWait(k: Kernel, events: seq<Event>, i: nat) returns (n: nat)
    requires Safe(k) && Waiting(k, i) && NoExit(events)
    requires TickCount(events) >= TicksLeft(k, i)
    ensures n <= |events|
    ensures var r := Run(k, events[..n]);
            r.procs[i].state == Running && r.currentPid == r.procs[i].pid == k.procs[i].pid
    decreases |events|
  {
    DistPositive(k, i);
    var e := events[0];
    WaitingStep(k, e, i);
    NoExitTail(events);
    var k' := Step(k, e);
    hide Step, Safe, Waiting, TicksLeft;
    if Waiting(k', i) {
      n := BoundedWait(k', events[1..], i);
    } else {
      n := 0;
      RunNothing(k', events[1..]);
    }
    RunFrom(k, events, n);
    n := n + 1;
  }

  lemma RunNothing(k: Kernel, events: seq<Event>)
    requires Sized(k)
    ensures Run(k, events[..0]) == k
  {
  }

  /** A waiting process is not the current one, so its turn is at least one tick away. */
  lemma DistPositive(k: Kernel, i: nat)
    requires Waiting(k, i)
    ensures TicksLeft(k, i) >= 1
  {
    assert i != Current(k);
  }

  // ---------------------------------------------------------------- bounded waiting with exits

  /** A process other than the shell that waits for the processor, whoever holds it, and if nobody does. */
  ghost predicate Due(k: Kernel, i: nat)
  {
    && Safe(k) && k.enabled && k.ticks < SCHED_TICKS
    && i < PROC_MAX && k.procs[i].state == Ready && k.procs[i].pid != 1
  }

  /** The processor is with a RUNNING process, not in the frame of one that has exited. */
  predicate Busy(k: Kernel)
  {
    Sized(k) && Current(k) < PROC_MAX && k.procs[Current(k)].state == Running
  }

  /** Ticks after which slot i is switched in at the latest, if nobody exits before. */
  function WaitLeft(k: Kernel, i: nat): int
  {
    SCHED_TICKS * (if Busy(k) then Dist(Current(k), i) else PROC_MAX) - k.ticks
  }

  lemma WaitBounds(k: Kernel, i: nat)
    requires Due(k, i)
    ensures 1 <= WaitLeft(k, i) <= 160
  {
    hide Dist, Current, Safe;
    if Busy(k) {
      DistIs(Current(k), i);
    }
  }

  /** With nobody RUNNING the tenth tick picks some READY process. */
  lemma IdlePick(k: Kernel, i: nat)
    requires Due(k, i) && !Busy(k)
    ensures var n := PickNext(k, Current(k)); n < PROC_MAX && n != Current(k) && k.procs[n].state == Ready
  {
    hide Around, ReadyFrom;
    var c := Current(k);
    assert k.procs[i].pid != k.currentPid;
    if c < PROC_MAX {
      OtherPicked(k, c, i);
    } else {
      AroundIs(0, i);
      FoundBy(k.procs, 0, i);
    }
  }

  lemma IdleTick(k: Kernel, f: Context, i: nat)
    requires Due(k, i) && !Busy(k)
    ensures var k' := Tick(k, f).kernel;
            || (k'.procs[i].state == Running && k'.currentPid == k'.procs[i].pid)
            || (Due(k', i) && WaitLeft(k', i) <= WaitLeft(k, i) - 1)
  {
    hide PickNext, Dist;
    var k' := Tick(k, f).kernel;
    TickSafe(k, f);
    if k.ticks + 1 >= SCHED_TICKS {
      var k0 := k.(ticks := 0);
      assert Current(k0) == Current(k) && !Busy(k0);
      IdlePick(k0, i);
      var n := PickNext(k0, Current(k0));
      hide SwitchTo, Safe, Current;
      SwitchSlots(k0, Current(k0), n, f, i);
      SwitchSlots(k0, Current(k0), n, f, n);
      CurrentIs(k', n);
      if n != i {
        DistIs(n, i);
      }
    }
  }

  /** Nothing but a tick makes a process RUNNING. */
  lemma StaysIdle(k: Kernel, e: Event)
    requires Safe(k) && !Busy(k) && !e.TickEvent? && !e.ExitEvent?
    ensures !Busy(Step(k, e))
  {
    StepSafe(k, e);
    var k' := Step(k, e);
    if Busy(k') {
      var c := Current(k');
      RunningBefore(k, e, c);
      CurrentIs(k, c);
    }
  }

  lemma RunningBefore(k: Kernel, e: Event, c: nat)
    requires Safe(k) && c < PROC_MAX && !e.TickEvent? && !e.ExitEvent?
    requires Step(k, e).procs[c].state == Running
    ensures k.procs[c].state == Running && k.procs[c].pid == k.currentPid
  {
    hide StackBase, Zeros;
    match e
    case CreateEvent(name, entry) =>
    case ExecEvent(name, entry) =>
    case ForkEvent(esp) =>
    case WaitEvent(child) =>
    case StackEvent(offset, value) =>
  }

  /** One step of any run: the process is switched in, or waits on; only an exit makes its turn later. */
  lemma DueStep(k: Kernel, e: Event, i: nat)
    requires Due(k, i)
    ensures var k' := Step(k, e);
            && Safe(k') && k'.procs[i].pid == k.procs[i].pid
            && (|| (k'.procs[i].state == Running && k'.currentPid == k'.procs[i].pid)
                || (Due(k', i) && (e.ExitEvent? || WaitLeft(k', i) <= WaitLeft(k, i) - if e.TickEvent? then 1 else 0)))
  {
    StepSafe(k, e);
    ReadyStep(k, e, i);
    var k' := Step(k, e);
    if e.TickEvent? {
      if Busy(k) {
        BusyTick(k, e.frame, i);
      } else {
        IdleTick(k, e.frame, i);
      }
    } else {
      StepKeepsClock(k, e);
      if !e.ExitEvent? {
        if Busy(k) {
          BusyStep(k, e, i);
        } else {
          StaysIdle(k, e);
        }
      }
    }
  }

  lemma StepKeepsClock(k: Kernel, e: Event)
    requires Sized(k) && !e.TickEvent?
    ensures Step(k, e).enabled == k.enabled && Step(k, e).ticks == k.ticks
  {
  }

  lemma BusyTick(k: Kernel, f: Context, i: nat)
    requires Due(k, i) && Busy(k)
    ensures var k' := Tick(k, f).kernel;
            || (k'.procs[i].state == Running && k'.currentPid == k'.procs[i].pid)
            || (Due(k', i) && WaitLeft(k', i) <= WaitLeft(k, i) - 1)
  {
    TickSafe(k, f);
    TickProgress(k, f, i);
    ReadyStep(k, TickEvent(f), i);
    hide Tick, Dist, Current, Safe;
  }

  lemma BusyStep(k: Kernel, e: Event, i: nat)
    requires Due(k, i) && Busy(k) && !e.TickEvent? && !e.ExitEvent?
    ensures Busy(Step(k, e)) && WaitLeft(Step(k, e), i) == WaitLeft(k, i)
  {
    OtherStepWaits(k, e, i);
    hide Step, Dist, Current, Safe;
  }

  function Exits(events: seq<Event>): nat
  {
    if events == [] then 0 else (if events[0].ExitEvent? then 1 else 0) + Exits(events[1..])
  }

  /** Bounded waiting over every run: a READY process other than the shell has the processor within 160 ticks, and 160
      more for each exit on the way, whatever else happens. */
  lemma {:induction false} BoundedWaitWithExits(k: Kernel, events: seq<Event>, i: nat) returns (n: nat)
    requires Due(k, i) && TickCount(events) >= WaitLeft(k, i) + 160 * Exits(events)
    ensures n <= |events|
    ensures var r := Run(k, events[..n]);
            r.procs[i].state == Running && r.currentPid == r.procs[i].pid == k.procs[i].pid
    decreases |events|
  {
    hide Step, WaitLeft;
    WaitBounds(k, i);
    var e, k' := events[0], Step(k, events[0]);
    DueStep(k, e, i);
    if Due(k', i) {
      WaitBounds(k', i);
      n := BoundedWaitWithExits(k', events[1..], i);
    } else {
      n := 0;
      RunNothing(k', events[1..]);
    }
    RunFrom(k, events, n);
    n := n + 1;
  }

  // ---------------------------------------------------------------- after an exit

  /** When a process exits and only the shell is READY, no tick ever resumes the shell: it is already current, so the
      processor stays in the frame of the process that exited. */
  lemma {:induction false} ExitWithoutOthersSticks(k: Kernel, frames: seq<Context>)
    requires Safe(k) && k.currentPid == 1 && Current(k) < PROC_MAX && k.procs[Current(k)].state == Ready
    requires forall i :: 0 <= i < PROC_MAX && k.procs[i].state == Ready ==> i == Current(k)
    ensures AllTicksIdle(k, frames)
    decreases |frames|
  {
    if frames != [] {
      var r := Tick(k, frames[0]);
      if k.enabled && k.ticks + 1 >= SCHED_TICKS {
        assert Current(k.(ticks := 0)) == Current(k);
      }
      ExitWithoutOthersSticks(r.kernel, frames[1..]);
    }
  }

  /** Each tick of a run of ticks hands back the frame it was given and changes no process. */
  predicate AllTicksIdle(k: Kernel, frames: seq<Context>)
    requires Sized(k)
    decreases |frames|
  {
    frames == []
    || (var r := Tick(k, frames[0]);
        r.frame == frames[0] && r.kernel.procs == k.procs && AllTicksIdle(r.kernel, frames[1..]))
  }

  /** That is the state an exit leaves when nobody but the shell is READY. */
  lemma ExitStrandsShell(k: Kernel, code: int, shell: nat, frames: seq<Context>)
    requires Safe(k) && shell < PROC_MAX && k.procs[shell].pid == 1 && k.procs[shell].state == Ready && k.currentPid != 1
    requires forall i :: 0 <= i < PROC_MAX && k.procs[i].state == Ready ==> i == shell
    ensures Exit(k, code).procs[shell] == k.procs[shell]
    ensures AllTicksIdle(Exit(k, code), frames)
  {
    var r := Exit(k, code);
    ExitSafe(k, code);
    CurrentIs(r, shell);
    ExitWithoutOthersSticks(r, frames);
  }

  lemma {:induction false} IdleKeeps(k: Kernel, frames: seq<Context>, n: nat)
    requires Sized(k) && AllTicksIdle(k, frames) && n <= |frames|
    ensures Run(k, Ticks(frames)[..n]).procs == k.procs
    decreases n
  {
    if n > 0 {
      var r := Tick(k, frames[0]).kernel;
      IdleKeeps(r, frames[1..], n - 1);
      assert Ticks(frames)[1..] == Ticks(frames[1..]);
      RunFrom(k, Ticks(frames), n - 1);
    } else {
      RunNothing(k, Ticks(frames));
    }
  }

  /** The shell is current but READY, as an exit leaves it: the processor is still in the frame of who exited. */
  predicate Held(k: Kernel, shell: nat)
  {
    && Sized(k) && shell < PROC_MAX && k.enabled && k.ticks < SCHED_TICKS && k.currentPid == 1
    && Current(k) == shell && k.procs[shell].state == Ready
  }

  /** With another process READY, the tenth tick switches to one, and the shell starts to wait for its turn. */
  lemma HeldTick(k: Kernel, f: Context, shell: nat, j: nat)
    requires Safe(k) && Held(k, shell) && j < PROC_MAX && j != shell && k.procs[j].state == Ready
    ensures var k' := Tick(k, f).kernel;
            if k.ticks + 1 < SCHED_TICKS then k' == k.(ticks := k.ticks + 1)
            else Waiting(k', shell) && k'.ticks == 0 && k'.procs[shell] == k.procs[shell]
  {
    if k.ticks + 1 >= SCHED_TICKS {
      var k0 := k.(ticks := 0);
      assert Current(k0) == shell;
      OtherPicked(k0, shell, j);
      var n := PickNext(k0, shell);
      TickSafe(k, f);
      CurrentIs(Tick(k, f).kernel, n);
    }
  }

  /** The search starts behind the current slot and reaches every other slot before it comes round again. */
  lemma OtherPicked(k: Kernel, c: nat, j: nat)
    requires Sized(k) && c < PROC_MAX && j < PROC_MAX && j != c && k.procs[j].state == Ready
    ensures PickNext(k, c) < PROC_MAX && PickNext(k, c) != c
  {
    hide Around, Dist, ReadyFrom;
    var start := Around(c, 1);
    var e := Dist(start, j);
    AroundIs(c, 1);
    DistIs(start, j);
    AroundDist(start, j);
    FoundBy(k.procs, start, e);
    AroundIs(start, ReadyFrom(k.procs, start, 0));
  }

  /** One step of a run without an exit while the shell is held and slot j is READY. */
  lemma HeldStep(k: Kernel, e: Event, shell: nat, j: nat)
    requires Safe(k) && Held(k, shell) && j < PROC_MAX && j != shell && k.procs[j].state == Ready && !e.ExitEvent?
    ensures var k' := Step(k, e);
            && Safe(k') && k'.procs[shell] == k.procs[shell]
            && (|| (Held(k', shell) && k'.procs[j].state == Ready && k'.ticks == k.ticks + if e.TickEvent? then 1 else 0)
                || (e.TickEvent? && k.ticks + 1 == SCHED_TICKS && Waiting(k', shell) && k'.ticks == 0))
  {
    StepSafe(k, e);
    if e.TickEvent? {
      HeldTick(k, e.frame, shell, j);
    } else {
      ReadyStep(k, e, shell);
      ReadyStep(k, e, j);
      CurrentIs(Step(k, e), shell);
    }
  }

  /** In any further run without an exit, the shell gets the processor back within 160 ticks, less those counted. */
  lemma {:induction false} ShellResumes(k: Kernel, events: seq<Event>, shell: nat, j: nat) returns (n: nat)
    requires Safe(k) && Held(k, shell) && j < PROC_MAX && j != shell && k.procs[j].state == Ready && NoExit(events)
    requires TickCount(events) >= 160 - k.ticks
    ensures n <= |events|
    ensures Run(k, events[..n]).procs[shell].state == Running && Run(k, events[..n]).currentPid == k.procs[shell].pid
    decreases |events|
  {
    hide Step, Waiting, Held, TicksLeft;
    HeldTicks(k, k, shell);
    var e := events[0];
    HeldStep(k, e, shell, j);
    NoExitTail(events);
    var k' := Step(k, e);
    HeldTicks(k, k', shell);
    if Held(k', shell) && k'.procs[j].state == Ready {
      n := ShellResumes(k', events[1..], shell, j);
    } else {
      n := BoundedWait(k', events[1..], shell);
    }
    RunFrom(k, events, n);
    n := n + 1;
  }

  /** What the two phases say about tick counts. */
  lemma HeldTicks(k: Kernel, k': Kernel, shell: nat)
    requires Held(k, shell)
    ensures k.ticks < SCHED_TICKS && (Waiting(k', shell) ==> TicksLeft(k', shell) <= 150)
    ensures !(Held(k', shell) && Waiting(k', shell))
  {
  }

  function Ticks(frames: seq<Context>): (events: seq<Event>)
    ensures |events| == |frames| && forall k :: 0 <= k < |events| ==> events[k] == TickEvent(frames[k])
  {
    seq(|frames|, k requires 0 <= k < |frames| => TickEvent(frames[k]))
  }

  lemma {:induction false} TicksCounted(frames: seq<Context>)
    ensures TickCount(Ticks(frames)) == |frames|
    decreases |frames|
  {
    if frames != [] {
      TicksCounted(frames[1..]);
      assert Ticks(frames)[1..] == Ticks(frames[1..]);
    }
  }

  /** Some other slot than the shell's is READY. */
  predicate AnotherReady(k: Kernel, shell: nat)
  {
    Sized(k) && exists j :: 0 <= j < PROC_MAX && j != shell && k.procs[j].state == Ready
  }

  /** After an exit, ticks alone bring the shell back exactly if another process is READY. */
  lemma ShellResumesIff(k: Kernel, code: int, shell: nat, frames: seq<Context>)
    requires Safe(k) && k.enabled && k.ticks < SCHED_TICKS && k.currentPid != 1
    requires shell < PROC_MAX && k.procs[shell].pid == 1 && k.procs[shell].state == Ready
    requires |frames| >= 160 - k.ticks
    ensures (exists n :: 0 <= n <= |frames| && Run(Exit(k, code), Ticks(frames)[..n]).procs[shell].state == Running)
            <==> AnotherReady(k, shell)
  {
    var r := Exit(k, code);
    if AnotherReady(k, shell) {
      var j :| 0 <= j < PROC_MAX && j != shell && k.procs[j].state == Ready;
      ExitSafe(k, code);
      ExitHolds(k, code, shell, j);
      TicksCounted(frames);
      var n := ShellResumes(r, Ticks(frames), shell, j);
    } else {
      ExitStrandsShell(k, code, shell, frames);
      forall n: nat | n <= |frames|
        ensures Run(r, Ticks(frames)[..n]).procs[shell].state == Ready
      {
        IdleKeeps(r, frames, n);
      }
    }
  }

  lemma ExitHolds(k: Kernel, code: int, shell: nat, j: nat)
    requires Safe(k) && k.enabled && k.ticks < SCHED_TICKS && k.currentPid != 1
    requires shell < PROC_MAX && k.procs[shell].pid == 1 && k.procs[shell].state == Ready
    requires j < PROC_MAX && k.procs[j].state == Ready
    ensures var r := Exit(k, code);
            Held(r, shell) && r.procs[j].state == Ready && r.ticks == k.ticks && r.procs[shell] == k.procs[shell]
  {
    ExitSafe(k, code);
    CurrentIs(Exit(k, code), shell);
  }

  /** Fewer ticks than make a slice only count. */
  lemma {:induction false} TicksPass(k: Kernel, frames: seq<Context>)
    requires Sized(k) && k.enabled && k.ticks + |frames| < SCHED_TICKS
    ensures Run(k, Ticks(frames)) == k.(ticks := k.ticks + |frames|)
    decreases |frames|
  {
    if frames != [] {
      TicksPass(Tick(k, frames[0]).kernel, frames[1..]);
      assert Ticks(frames)[1..] == Ticks(frames[1..]);
    }
  }

  /** The state in which an exit strands the shell is reached from boot by one exec and ten ticks. */
  lemma StrandingReached(tableBase: u32, name: string, entry: u32, frames: seq<Context>, f: Context, code: int,
                         more: seq<Context>)
    requires |frames| == 9
    ensures var k1 := Run(Exec(Booted(tableBase), name, entry).kernel, Ticks(frames));
            var k := Tick(k1, f).kernel;
            && Safe(k) && k.enabled && k.ticks == 0 && k.currentPid == 2
            && k.procs[0].pid == 1 && k.procs[0].state == Ready && !AnotherReady(k, 0)
            && Exit(k, code).procs[0] == k.procs[0] && AllTicksIdle(Exit(k, code), more)
  {
    var b := Booted(tableBase);
    BootedSafe(tableBase);
    BootedIs(tableBase);
    ExecSafe(b, name, entry);
    ExecSecond(b, name, entry);
    var k0 := Exec(b, name, entry).kernel;
    TicksPass(k0, frames);
    RunSafe(k0, Ticks(frames));
    var k1 := Run(k0, Ticks(frames));
    TickSafe(k1, f);
    hide Booted, Exec, Run, Safe;
    SecondSwitchedIn(k1, f);
    ExitStrandsShell(Tick(k1, f).kernel, code, 0, more);
  }

  lemma BootedIs(tableBase: u32)
    ensures var b := Booted(tableBase);
            && b.enabled && b.ticks == 0 && b.nextPid == 2 && b.currentPid == 1 && b.procs[0].pid == 1
            && b.procs[0].state == Running && (forall i :: 1 <= i < PROC_MAX ==> b.procs[i].state == Unused)
  {
    assert FreeSlot(seq(PROC_MAX, _ => EMPTY), 0) == 0;
  }

  lemma ExecSecond(k: Kernel, name: string, entry: u32)
    requires Sized(k) && k.procs[0].state == Running && forall i :: 1 <= i < PROC_MAX ==> k.procs[i].state == Unused
    ensures var k' := Exec(k, name, entry).kernel;
            && k'.procs[0] == k.procs[0] && k'.procs[1].state == Ready && k'.procs[1].pid == k.nextPid
            && (forall i :: 2 <= i < PROC_MAX ==> k'.procs[i] == k.procs[i])
            && k'.currentPid == k.currentPid && k'.enabled == k.enabled && k'.ticks == k.ticks
  {
    assert FreeSlot(k.procs, 0) == 1;
  }

  lemma SecondSwitchedIn(k: Kernel, f: Context)
    requires Sized(k) && k.enabled && k.ticks == SCHED_TICKS - 1 && k.currentPid == 1 && k.procs[0].pid == 1
    requires k.procs[0].state == Running && k.procs[1].state == Ready
    requires forall i :: 2 <= i < PROC_MAX ==> k.procs[i].state == Unused
    ensures var r := Tick(k, f).kernel;
            && r.enabled && r.ticks == 0 && r.currentPid == k.procs[1].pid && r.procs[0].pid == 1
            && r.procs[0].state == Ready && r.procs[1].state == Running
            && forall i :: 2 <= i < PROC_MAX ==> r.procs[i].state == Unused
  {
    var k0 := k.(ticks := 0);
    assert Current(k0) == 0;
    AroundIs(0, 1);
    AroundIs(1, 0);
    assert PickNext(k0, 0) == 1;
  }
}
