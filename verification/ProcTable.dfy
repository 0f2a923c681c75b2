/** The process table and what each kernel entry does to it (kernel/process.c, kernel/sched.c, kernel/syscall.c). */
module ProcTable {
  import opened Bytes

  const PROC_MAX := 16
  const STACK_SIZE := 4096
  const SCHED_TICKS := 10

  /** sizeof(process_t) and the offset of the stack in it. */
  const PROC_BYTES := 4188
  const STACK_OFFSET := 60

  /** proc_wait's "any child" */
  const ANY_CHILD: u32 := 0xFFFF_FFFF

  datatype ProcState = Unused | Ready | Running | Sleeping | Dead | Zombie

  /** The ten registers that a context switch saves from the interrupt frame and restores into it. */
  datatype Context = Context(eax: u32, ecx: u32, edx: u32, ebx: u32, esp: u32, ebp: u32, esi: u32, edi: u32, eip: u32, eflags: u32)

  const ZERO_CONTEXT := Context(0, 0, 0, 0, 0, 0, 0, 0, 0, 0)

  datatype Process = Process(
    pid: nat,
    parentPid: nat,
    exitCode: int,
    state: ProcState,
    ctx: Context,
    stackTop: u32,
    stack: seq<u8>,
    name: string)

  /** A slot as memset leaves it. */
  const EMPTY := Process(0, 0, 0, Unused, ZERO_CONTEXT, 0, Zeros(STACK_SIZE), [])

  /** The statics of the process table and the scheduler; tableBase is the table's address. */
  datatype Kernel = Kernel(
    procs: seq<Process>,
    nextPid: nat,
    currentPid: nat,
    ticks: nat,
    enabled: bool,
    tableBase: u32)

  predicate Sized(k: Kernel) { |k.procs| == PROC_MAX }

  /** The address of a slot's stack buffer. */
  function StackAddress(tableBase: u32, i: nat): u32
  {
    (tableBase + PROC_BYTES * i + STACK_OFFSET) % 0x1_0000_0000
  }

  function StackBase(k: Kernel, i: nat): u32 { StackAddress(k.tableBase, i) }

  // ---------------------------------------------------------------- lookups

  /** proc_current: the first slot that carries the current pid, or PROC_MAX for NULL. */
  function SlotOf(procs: seq<Process>, pid: nat): (i: nat)
    ensures i <= |procs|
    ensures i < |procs| ==> procs[i].pid == pid
    ensures forall j :: 0 <= j < i ==> procs[j].pid != pid
  {
    if procs == [] || procs[0].pid == pid then 0 else 1 + SlotOf(procs[1..], pid)
  }

  function Current(k: Kernel): nat { SlotOf(k.procs, k.currentPid) }

  /** The first unused slot from i on, or the number of slots. */
  function FreeSlot(procs: seq<Process>, i: nat): (r: nat)
    requires i <= |procs|
    ensures i <= r <= |procs|
    ensures r < |procs| ==> procs[r].state == Unused
    decreases |procs| - i
  {
    if i == |procs| || procs[i].state == Unused then i else FreeSlot(procs, i + 1)
  }

  /** The slot d places behind start, around the table. */
  function Around(start: nat, d: nat): (i: nat)
    ensures i < PROC_MAX
  {
    (start + d) % PROC_MAX
  }

  /** The number of places from start, d of which are known not to be READY, to the first READY slot, or PROC_MAX. */
  function ReadyFrom(procs: seq<Process>, start: nat, d: nat): (r: nat)
    requires |procs| == PROC_MAX && d <= PROC_MAX
    ensures d <= r <= PROC_MAX
    ensures r < PROC_MAX ==> procs[Around(start, r)].state == Ready
    ensures forall j :: d <= j < r ==> procs[Around(start, j)].state != Ready
    decreases PROC_MAX - d
  {
    if d == PROC_MAX || procs[Around(start, d)].state == Ready then d else ReadyFrom(procs, start, d + 1)
  }

  /** pick_next: the first READY slot after cur around the table, else cur itself; PROC_MAX stands for NULL. */
  function PickNext(k: Kernel, cur: nat): (r: nat)
    requires Sized(k) && cur <= PROC_MAX
    ensures r <= PROC_MAX
    ensures r != cur ==> r < PROC_MAX && k.procs[r].state == Ready
  {
    var start := if cur < PROC_MAX then Around(cur, 1) else 0;
    var d := ReadyFrom(k.procs, start, 0);
    if d < PROC_MAX then Around(start, d) else cur
  }

  // ---------------------------------------------------------------- transitions

  datatype Made = Made(kernel: Kernel, slot: nat)

  /** The strncpy of a process name into its 32 bytes. */
  function ShortName(name: string): (r: string)
    ensures |r| < 32
  {
    if |name| < 32 then name else name[..31]
  }

  /** proc_create; the slot is PROC_MAX when the table is full. */
  function Create(k: Kernel, name: string, entry: u32): (m: Made)
    requires Sized(k)
    ensures Sized(m.kernel)
  {
    var i := FreeSlot(k.procs, 0);
    if i == PROC_MAX then Made(k, PROC_MAX)
    else
      var top := (StackBase(k, i) + STACK_SIZE) % 0x1_0000_0000;
      var p := Process(k.nextPid, 0, 0, Ready, ZERO_CONTEXT.(esp := top, eip := entry, eflags := 0x202), top, Zeros(STACK_SIZE), ShortName(name));
      Made(k.(procs := k.procs[i := p], nextPid := k.nextPid + 1), i)
  }

  /** sys_exec of a program whose image has loaded at entry: a new process, child of the current pid. */
  function Exec(k: Kernel, name: string, entry: u32): (m: Made)
    requires Sized(k)
    ensures Sized(m.kernel)
  {
    var m := Create(k, name, entry);
    if m.slot == PROC_MAX then m
    else Made(m.kernel.(procs := m.kernel.procs[m.slot := m.kernel.procs[m.slot].(parentPid := k.currentPid, state := Ready)]), m.slot)
  }

  /** proc_fork with the stack pointer of the caller. */
  function Fork(k: Kernel, parentEsp: u32): (m: Made)
    requires Sized(k)
    ensures Sized(m.kernel)
  {
    var cur, i := Current(k), FreeSlot(k.procs, 0);
    if cur == PROC_MAX || i == PROC_MAX then Made(k, PROC_MAX)
    else
      var parent := k.procs[cur];
      var base := StackBase(k, i);
      var child := parent.(
        pid := k.nextPid,
        parentPid := parent.pid,
        state := Ready,
        stackTop := (base + STACK_SIZE) % 0x1_0000_0000,
        ctx := parent.ctx.(esp := (base + (parentEsp - StackBase(k, cur))) % 0x1_0000_0000, eax := 0));
      Made(k.(procs := k.procs[i := child], nextPid := k.nextPid + 1), i)
  }

  /** sys_exit: the current process becomes a zombie, and pid 1 becomes current whatever its state. */
  function Exit(k: Kernel, code: int): (r: Kernel)
    requires Sized(k)
    ensures Sized(r)
  {
    var cur := Current(k);
    (if cur == PROC_MAX then k else k.(procs := k.procs[cur := k.procs[cur].(exitCode := code, state := Zombie)])).(currentPid := 1)
  }

  /** A zombie that a wait for child may reap. */
  predicate Reapable(k: Kernel, i: nat, child: u32)
    requires i < |k.procs|
  {
    var p := k.procs[i];
    && p.state == Zombie
    && (if child == ANY_CHILD then Current(k) < |k.procs| && p.parentPid == k.procs[Current(k)].pid else p.pid == child)
  }

  function FirstReapable(k: Kernel, child: u32, i: nat): (r: nat)
    requires i <= |k.procs|
    ensures i <= r <= |k.procs|
    ensures r < |k.procs| ==> Reapable(k, r, child)
    ensures forall j :: i <= j < r ==> !Reapable(k, j, child)
    decreases |k.procs| - i
  {
    if i == |k.procs| || Reapable(k, i, child) then i else FirstReapable(k, child, i + 1)
  }

  datatype Reaped = Reaped(kernel: Kernel, found: bool, pid: nat, exitCode: int)

  /** One pass of proc_wait's loop over the table. */
  function Wait(k: Kernel, child: u32): (r: Reaped)
    requires Sized(k)
    ensures Sized(r.kernel)
  {
    var i := FirstReapable(k, child, 0);
    if i == PROC_MAX then Reaped(k, false, 0, 0)
    else Reaped(k.(procs := k.procs[i := EMPTY]), true, k.procs[i].pid, k.procs[i].exitCode)
  }

  datatype Switched = Switched(kernel: Kernel, frame: Context)

  /** sched_tick on an interrupt frame: every tenth tick picks the next READY process. */
  function Tick(k: Kernel, frame: Context): (r: Switched)
    requires Sized(k)
    ensures Sized(r.kernel)
  {
    if !k.enabled then Switched(k, frame)
    else if k.ticks + 1 < SCHED_TICKS then Switched(k.(ticks := k.ticks + 1), frame)
    else
      var k' := k.(ticks := 0);
      var cur := Current(k');
      var next := PickNext(k', cur);
      if next == cur then Switched(k', frame) else SwitchTo(k', cur, next, frame)
  }

  /** The context switch of sched_tick. */
  function SwitchTo(k: Kernel, cur: nat, next: nat, frame: Context): (r: Switched)
    requires Sized(k) && cur <= PROC_MAX && next < PROC_MAX && next != cur
    ensures Sized(r.kernel)
  {
    var saved := if cur < PROC_MAX && k.procs[cur].state == Running
                 then k.procs[cur := k.procs[cur].(ctx := frame, state := Ready)] else k.procs;
    Switched(
      k.(procs := saved[next := saved[next].(state := Running)], currentPid := saved[next].pid),
      saved[next].ctx)
  }

  /** The running process writes a byte of its own stack buffer, which no kernel entry does. */
  function Push(k: Kernel, offset: nat, value: u8): (r: Kernel)
    requires Sized(k)
    ensures Sized(r)
  {
    var cur := Current(k);
    if cur < PROC_MAX && k.procs[cur].state == Running && offset < |k.procs[cur].stack| then
      k.(procs := k.procs[cur := k.procs[cur].(stack := k.procs[cur].stack[offset := value])])
    else k
  }

  // ---------------------------------------------------------------- events and runs

  datatype Event =
    | TickEvent(frame: Context)
    | CreateEvent(name: string, entry: u32)
    | ExecEvent(name: string, entry: u32)
    | ForkEvent(esp: u32)
    | ExitEvent(code: int)
    | WaitEvent(child: u32)
    | StackEvent(offset: nat, value: u8)

  function Step(k: Kernel, e: Event): (r: Kernel)
    requires Sized(k)
    ensures Sized(r)
  {
    match e
    case TickEvent(frame) => Tick(k, frame).kernel
    case CreateEvent(name, entry) => Create(k, name, entry).kernel
    case ExecEvent(name, entry) => Exec(k, name, entry).kernel
    case ForkEvent(esp) => Fork(k, esp).kernel
    case ExitEvent(code) => Exit(k, code)
    case WaitEvent(child) => Wait(k, child).kernel
    case StackEvent(offset, value) => Push(k, offset, value)
  }

  function Run(k: Kernel, events: seq<Event>): (r: Kernel)
    requires Sized(k)
    ensures Sized(r)
    decreases |events|
  {
    if events == [] then k else Run(Step(k, events[0]), events[1..])
  }

  /** The kernel when kmain has created the shell and made it current. */
  function Booted(tableBase: u32): Kernel
  {
    var empty := Kernel(seq(PROC_MAX, _ => EMPTY), 1, 0, 0, false, tableBase);
    var k := Create(empty, "shell", 0).kernel;
    k.(procs := k.procs[0 := k.procs[0].(state := Running)], currentPid := 1, enabled := true)
  }
}
