// The process side of the kernel as one transition system: PCB queues, the
// round-robin scheduler, the mutexes, the keyboard buffer and the directory
// reference counts.  Interrupts are off inside the kernel, so each system call,
// clock tick and key press is one step.  Kernel.dfy implements these steps.

module SchedSpec {
  import opened Common
  import opened RingBuffers

  const TAM_BUF: nat := 4
  const INIT_QUANTUM: nat := 10

  /** idle_task is the first PCB, task[0]. */
  const IDLE: nat := 0

  // Queue numbers: freequeue, readyqueue, blocked, then one queue per mutex.
  const FREE: nat := 0
  const READY: nat := 1
  const BLOCKED: nat := 2

  function MutexQueue(m: nat): nat { 3 + m }

  /** Where a task continues when it is switched to: the return address on its kernel stack. */
  datatype Resume = User | Locking(mutex: nat) | Reading

  /** struct task_struct without its list node, stack pointer and statistics. */
  datatype Task = Task(pid: int, dir: nat, quantum: nat, toRead: int, resume: Resume)

  /** The rest of a task's sys_read: circ_buff_maxchars, and diff, how far into the buffer the next characters
      go. */
  datatype Request = Request(maxchars: int, diff: int)

  /** Characters stored at offset at of the buffer that task t has given to sys_read. */
  datatype Copy = Copy(t: nat, at: int, chars: seq<char>)

  /** History of the run, for stating properties of whole runs. */
  datatype Event =
    | Locked(m: nat)             // a sys_mutex_lock completed its count++
    | Unlocked(m: nat)           // a sys_mutex_unlock did its count--
    | Barged(m: nat)             // a fast-path lock while a woken waiter was pending
    | Queued(m: nat, t: nat)     // t went to sleep on the mutex
    | WokenUp(m: nat, t: nat)    // t was moved from the mutex to the ready queue
    | PagesFreed(dir: nat)       // free_user_pages ran for the directory

  datatype Sched = Sched(
    q: seq<seq<nat>>,
    cur: nat,
    ticks: int,
    count: seq<int>,
    task: seq<Task>,
    refs: seq<int>,
    pids: int,
    requests: seq<Request>,
    keys: seq<char>,
    log: seq<Event>)

  ghost predicate WF(s: Sched) {
    && |s.q| == NR_QUEUES && |s.count| == MAX_MUTEXES && |s.task| == NR_TASKS && |s.refs| == NR_TASKS
    && |s.requests| == NR_TASKS
    && s.cur < NR_TASKS
    && (forall d, i :: 0 <= d < NR_QUEUES && 0 <= i < |s.q[d]| ==> s.q[d][i] < NR_TASKS)
    && (forall t :: 0 <= t < NR_TASKS ==> s.task[t].dir < NR_TASKS)
    && (forall t :: 0 <= t < NR_TASKS && s.task[t].resume.Locking? ==> s.task[t].resume.mutex < MAX_MUTEXES)
  }

  function Occurs(log: seq<Event>, e: Event): nat {
    multiset(log)[e]
  }

  // ---------- queue moves

  function Append(s: Sched, d: nat, t: nat): (r: Sched)
    requires WF(s) && d < NR_QUEUES && t < NR_TASKS
    ensures WF(r)
  {
    s.(q := s.q[d := s.q[d] + [t]])
  }

  function Prepend(s: Sched, d: nat, t: nat): (r: Sched)
    requires WF(s) && d < NR_QUEUES && t < NR_TASKS
    ensures WF(r)
  {
    s.(q := s.q[d := [t] + s.q[d]])
  }

  function DropFirst(s: Sched, d: nat): (r: Sched)
    requires WF(s) && d < NR_QUEUES && s.q[d] != []
    ensures WF(r)
  {
    s.(q := s.q[d := s.q[d][1..]])
  }

  function SetTask(s: Sched, t: nat, x: Task): (r: Sched)
    requires WF(s) && t < NR_TASKS && x.dir < NR_TASKS && (x.resume.Locking? ==> x.resume.mutex < MAX_MUTEXES)
    ensures WF(r)
  {
    s.(task := s.task[t := x])
  }

  function Record(s: Sched, e: Event): (r: Sched)
    requires WF(s)
    ensures WF(r)
  {
    s.(log := s.log + [e])
  }

  // ---------- sched.c

  /** The task chosen by sched_next_rr. */
  function Next(s: Sched): (t: nat)
    requires WF(s)
    ensures t < NR_TASKS
  {
    if s.q[READY] == [] then IDLE else s.q[READY][0]
  }

  /** The switch itself: dequeue the next task, give it its quantum, make it current. */
  function SwitchToNext(s: Sched): (r: Sched)
    requires WF(s)
    ensures WF(r)
  {
    var next := Next(s);
    var s1 := if next != s.cur && next != IDLE then DropFirst(s, READY) else s;
    s1.(cur := next, ticks := s.task[next].quantum)
  }

  /** The switched-to task runs on: a blocked sys_mutex_lock performs its count++. */
  function ResumeCurrent(s: Sched): (r: Sched)
    requires WF(s)
    ensures WF(r)
  {
    var t := s.task[s.cur];
    if t.resume.Locking? then
      var m := t.resume.mutex;
      Record(SetTask(s, s.cur, t.(resume := User)).(count := s.count[m := s.count[m] + 1]), Locked(m))
    else s
  }

  /** sched_next_rr, up to the point where the new task is back in user mode. */
  function SchedNext(s: Sched): (r: Sched)
    requires WF(s)
    ensures WF(r)
  {
    ResumeCurrent(SwitchToNext(s))
  }

  /** clock_routine: schedule. */
  function Tick(s: Sched): (r: Sched)
    requires WF(s)
    ensures WF(r)
  {
    var s1 := s.(ticks := s.ticks - 1);
    if s1.ticks == 0 && s1.q[READY] != [] then
      SchedNext(if s.cur != IDLE then Append(s1, READY, s.cur) else s1)
    else if s1.ticks == 0 then
      s1.(ticks := s.task[s.cur].quantum)
    else s1
  }

  // ---------- sys.c

  /** The first free PCB leaves the free queue with the running task's PCB copied over it. */
  function CopyParent(s: Sched): (r: Sched)
    requires WF(s) && s.q[FREE] != []
    ensures WF(r)
  {
    SetTask(DropFirst(s, FREE), s.q[FREE][0], s.task[s.cur].(resume := User))
  }

  /** allocate_DIR: the PCB's own directory gains a reference. */
  function AllocateDir(s: Sched, t: nat): (r: Sched)
    requires WF(s) && t < NR_TASKS
    ensures WF(r)
  {
    SetTask(s, t, s.task[t].(dir := t)).(refs := s.refs[t := s.refs[t] + 1])
  }

  /** pcb->PID = pids++ */
  function AssignPid(s: Sched, t: nat): (r: Sched)
    requires WF(s) && t < NR_TASKS
    ensures WF(r)
  {
    SetTask(s, t, s.task[t].(pid := s.pids)).(pids := s.pids + 1)
  }

  /** sys_fork; enoughPages tells whether copy_and_allocate_pages succeeded. */
  function Fork(s: Sched, enoughPages: bool): (r: Sched)
    requires WF(s)
    ensures WF(r)
  {
    if s.q[FREE] == [] then s
    else
      var child := s.q[FREE][0];
      var s1 := AllocateDir(CopyParent(s), child);
      if enoughPages then AssignPid(Append(s1, READY, child), child) else Append(s1, FREE, child)
  }

  /** pcbs_in_dir[get_DIR_pos(...)]++ for the directory the running task shares. */
  function ShareDir(s: Sched): (r: Sched)
    requires WF(s)
    ensures WF(r)
  {
    var d := s.task[s.cur].dir;
    s.(refs := s.refs[d := s.refs[d] + 1])
  }

  /** sys_create_thread with a valid start address and a frame for the stack. */
  function CreateThread(s: Sched): (r: Sched)
    requires WF(s)
    ensures WF(r)
  {
    if s.q[FREE] == [] then s else Append(ShareDir(CopyParent(s)), READY, s.q[FREE][0])
  }

  /** The running task gives up its directory, whose pages are freed with the last reference. */
  function DropReference(s: Sched): (r: Sched)
    requires WF(s)
    ensures WF(r)
  {
    var d := s.task[s.cur].dir;
    var s1 := s.(refs := s.refs[d := s.refs[d] - 1]);
    if s1.refs[d] == 0 then Record(s1, PagesFreed(d)) else s1
  }

  /** sys_exit up to its call of sched_next_rr. */
  function Leave(s: Sched): (r: Sched)
    requires WF(s)
    ensures WF(r)
  {
    Append(DropReference(s), FREE, s.cur)
  }

  /** sys_exit, and the end of sys_exit_thread. */
  function Exit(s: Sched): (r: Sched)
    requires WF(s)
    ensures WF(r)
  {
    SchedNext(Leave(s))
  }

  /** mutex_get succeeds and the mutex is not marked unusable. */
  predicate Usable(s: Sched, m: int)
    requires WF(s)
  {
    0 <= m < MAX_MUTEXES && s.count[m] != -1
  }

  function InitMutex(s: Sched, m: int): (r: Sched)
    requires WF(s)
    ensures WF(r)
  {
    if 0 <= m < MAX_MUTEXES then s.(count := s.count[m := 0]) else s
  }

  /** A task that was woken from mutex m and waits in the ready queue for the processor. */
  predicate IsWoken(task: seq<Task>, m: nat, t: nat) {
    t < |task| && task[t].resume == Locking(m)
  }

  function Lock(s: Sched, m: int): (r: Sched)
    requires WF(s)
    ensures WF(r)
  {
    if !Usable(s, m) then s
    else if s.count[m] >= 1 then
      var s1 := SetTask(s, s.cur, s.task[s.cur].(resume := Locking(m)));
      SchedNext(Record(Append(s1, MutexQueue(m), s.cur), Queued(m, s.cur)))
    else
      var s1 := if exists t :: t in s.q[READY] && IsWoken(s.task, m, t) then Record(s, Barged(m)) else s;
      Record(s1.(count := s.count[m := s.count[m] + 1]), Locked(m))
  }

  function Unlock(s: Sched, m: int): (r: Sched)
    requires WF(s)
    ensures WF(r)
  {
    if !Usable(s, m) || s.count[m] == 0 then s
    else
      var d := MutexQueue(m);
      var s1 :=
        if s.q[d] == [] then s
        else Record(Prepend(DropFirst(s, d), READY, s.q[d][0]), WokenUp(m, s.q[d][0]));
      Record(s1.(count := s.count[m := s.count[m] - 1]), Unlocked(m))
  }

  /** What a reader still wants after draining the buffer on entry; a full buffer is left alone. */
  function LeftAtEntry(s: Sched, n: int): int {
    if |s.keys| == TAM_BUF then n else n - |s.keys|
  }

  /** The running task, its PCB updated to x, goes to sleep in the blocked queue. */
  function Block(s: Sched, x: Task): (r: Sched)
    requires WF(s) && x.dir < NR_TASKS && !x.resume.Locking?
    ensures WF(r)
  {
    Append(SetTask(s, s.cur, x), BLOCKED, s.cur)
  }

  /** The rest of sys_read after the first drain: sleep for what is missing, or return at once. */
  function FinishRead(s: Sched, left: int): (r: Sched)
    requires WF(s)
    ensures WF(r)
  {
    var x := s.task[s.cur].(toRead := left, resume := if left > 0 then Reading else User);
    if left > 0 then SchedNext(Block(s, x)) else SetTask(s, s.cur, x)
  }

  /** sys_read up to its loop: the drain, unless the buffer is full, and the request. */
  function Entered(s: Sched, n: int): (r: Sched)
    requires WF(s)
    ensures WF(r)
  {
    s.(keys := if |s.keys| == TAM_BUF then s.keys else [],
       requests := s.requests[s.cur := Request(n, n - LeftAtEntry(s, n))])
  }

  /** sys_read for a valid user buffer of n characters. */
  function Read(s: Sched, n: int): (r: Sched)
    requires WF(s)
    ensures WF(r)
  {
    if n <= 0 then s else FinishRead(Entered(s, n), LeftAtEntry(s, n))
  }

  // ---------- interrupt.c

  /** circ_buff_append */
  function Typed(keys: seq<char>, c: char): (r: seq<char>)
  {
    Appended(keys, c, TAM_BUF)
  }

  /** The key press hands the processor to the first reader. */
  predicate Wakes(s: Sched, c: char)
    requires WF(s)
  {
    && s.q[BLOCKED] != []
    && var left := s.task[s.q[BLOCKED][0]].toRead;
       left > 0 && (left == 1 || |Typed(s.keys, c)| == TAM_BUF)
  }

  /** The key is buffered and counted for the first reader. */
  function Counted(s: Sched, c: char): (r: Sched)
    requires WF(s) && s.q[BLOCKED] != []
    ensures WF(r)
  {
    var t := s.q[BLOCKED][0];
    SetTask(s.(keys := Typed(s.keys, c)), t, s.task[t].(toRead := s.task[t].toRead - 1))
  }

  /** The reader's request after it has drained the buffer: the next characters go behind these. */
  function Drained(s: Sched, t: nat): Request
    requires WF(s) && t < NR_TASKS
  {
    s.requests[t].(diff := s.requests[t].maxchars - s.task[t].toRead)
  }

  /** The interrupted task is queued; the first reader runs and drains the buffer. */
  function HandedOver(s: Sched): (r: Sched)
    requires WF(s) && s.q[BLOCKED] != []
    ensures WF(r)
  {
    var t := s.q[BLOCKED][0];
    Append(s, READY, s.cur).(cur := t, keys := [], requests := s.requests[t := Drained(s, t)])
  }

  /** The reader has all it wanted: it leaves the blocked queue and returns to user mode. */
  function ReadDone(s: Sched): (r: Sched)
    requires WF(s) && s.q[BLOCKED] != []
    ensures WF(r)
  {
    SetTask(DropFirst(s, BLOCKED), s.cur, s.task[s.cur].(resume := User))
  }

  /** The woken reader in the loop of sys_read. */
  function ReaderRuns(s: Sched): (r: Sched)
    requires WF(s) && s.q[BLOCKED] != []
    ensures WF(r)
  {
    if s.task[s.cur].toRead > 0 then SchedNext(s) else ReadDone(s)
  }

  /** keyboard_routine for a key that maps to c. */
  function Key(s: Sched, c: char): (r: Sched)
    requires WF(s)
    ensures WF(r)
  {
    if s.q[BLOCKED] == [] || s.task[s.q[BLOCKED][0]].toRead <= 0 then
      s.(keys := Typed(s.keys, c))
    else
      var s2 := Counted(s, c);
      if !Wakes(s, c) then s2
      else
        ReaderRuns(HandedOver(s2))
  }

  /** The NUL that ends a read, behind all characters copied. */
  function Closing(t: nat, request: Request): Copy {
    Copy(t, request.diff, "\0")
  }

  /** What step a stores in the buffers of readers: what sys_read finds on entry, and what a woken reader
      drains. */
  function Handed(s: Sched, a: Step): (r: seq<Copy>)
    requires WF(s)
  {
    match a
    case ReadCall(n) => if n > 0 then HandedOnEntry(s, n) else []
    case KeyPress(c) => if Wakes(s, c) then HandedOnWake(Counted(s, c)) else []
    case _ => []
  }

  function HandedOnEntry(s: Sched, n: int): (r: seq<Copy>)
    requires WF(s) && n > 0
  {
    (if |s.keys| == TAM_BUF then [] else [Copy(s.cur, 0, s.keys)])
    + if LeftAtEntry(s, n) > 0 then [] else [Closing(s.cur, Entered(s, n).requests[s.cur])]
  }

  /** What the first reader stores when it is handed the processor. */
  function HandedOnWake(s: Sched): (r: seq<Copy>)
    requires WF(s) && s.q[BLOCKED] != []
  {
    var t := s.q[BLOCKED][0];
    [Copy(t, s.requests[t].diff, s.keys)] + if s.task[t].toRead > 0 then [] else [Closing(t, Drained(s, t))]
  }

  // ---------- the transition system

  datatype Step =
    | ClockTick
    | ForkCall(enoughPages: bool)
    | CreateThreadCall
    | ExitCall
    | InitMutexCall(m: int)
    | LockCall(m: int)
    | UnlockCall(m: int)
    | ReadCall(n: int)
    | KeyPress(c: char)

  /** Only the clock and the keyboard can interrupt idle. */
  predicate Enabled(s: Sched, a: Step) {
    s.cur == IDLE ==> a.ClockTick? || a.KeyPress?
  }

  function Apply(s: Sched, a: Step): (r: Sched)
    requires WF(s)
    ensures WF(r)
  {
    match a
    case ClockTick => Tick(s)
    case ForkCall(ok) => Fork(s, ok)
    case CreateThreadCall => CreateThread(s)
    case ExitCall => Exit(s)
    case InitMutexCall(m) => InitMutex(s, m)
    case LockCall(m) => Lock(s, m)
    case UnlockCall(m) => Unlock(s, m)
    case ReadCall(n) => Read(s, n)
    case KeyPress(c) => Key(s, c)
  }

  /** The zeroed kernel image with every queue head initialised. */
  function Image(): (s: Sched)
    ensures WF(s)
  {
    Sched(seq(NR_QUEUES, d => []), 0, INIT_QUANTUM, seq(MAX_MUTEXES, m => 0),
          seq(NR_TASKS, t => Task(0, 0, 0, 0, User)), seq(NR_TASKS, d => 0), 0, seq(NR_TASKS, t => Request(0, 0)), [], [])
  }

  function Upto(n: nat): (x: seq<nat>)
    ensures |x| == n && forall i :: 0 <= i < n ==> x[i] == i
  {
    seq(n, (i: nat) => i)
  }

  /** init_sched queues every PCB as free. */
  function InitSched(s: Sched): (r: Sched)
    requires WF(s)
    ensures WF(r)
  {
    s.(q := s.q[FREE := Upto(NR_TASKS)])
  }

  /** init_idle on the first free PCB. */
  function InitIdle(s: Sched): (r: Sched)
    requires WF(s) && s.q[FREE] != []
    ensures WF(r)
  {
    AssignPid(DropFirst(s, FREE), s.q[FREE][0])
  }

  /** init_task1 on the next free PCB, which becomes the running task. */
  function InitTask1(s: Sched): (r: Sched)
    requires WF(s) && s.q[FREE] != []
    ensures WF(r)
  {
    var t := s.q[FREE][0];
    var s1 := AssignPid(AllocateDir(DropFirst(s, FREE), t), t);
    SetTask(s1, t, s1.task[t].(quantum := INIT_QUANTUM)).(cur := t)
  }

  /** The state main() leaves behind: init_mm gives idle a directory, then the three init calls. */
  function Boot(): (s: Sched)
    ensures WF(s)
  {
    InitTask1(InitIdle(InitSched(AllocateDir(Image(), IDLE))))
  }

  /** The boot state spelled out. */
  lemma BootState()
    ensures var s := Boot();
            && s.q == seq(NR_QUEUES, d => [])[FREE := seq(NR_TASKS - 2, i => 2 + i)]
            && s.cur == 1 && s.ticks == INIT_QUANTUM && s.keys == [] && s.log == []
            && s.count == seq(MAX_MUTEXES, m => 0)
            && s.refs == seq(NR_TASKS, t => if t <= 1 then 1 else 0)
            && s.task[IDLE] == Task(0, 0, 0, 0, User) && s.task[1] == Task(1, 1, INIT_QUANTUM, 0, User)
            && (forall t :: 2 <= t < NR_TASKS ==> s.task[t] == Task(0, 0, 0, 0, User)) && s.pids == 2
  {
    var s0 := AllocateDir(Image(), IDLE);
    var s1 := InitSched(s0);
    var s2 := InitIdle(s1);
    assert s1.q[FREE][1..][1..] == seq(NR_TASKS - 2, i => 2 + i);
    assert Boot().q == seq(NR_QUEUES, d => [])[FREE := s1.q[FREE][1..][1..]];
    assert Boot().refs == seq(NR_TASKS, t => if t <= 1 then 1 else 0);
  }
}
