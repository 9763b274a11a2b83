// The kernel's own data structures, changed in place.  Each public method is one kernel entry of
// sched.c, sys.c or interrupt.c and implements the step of the same name in SchedSpec.

module Kernels {
  import opened Common
  import opened RingBuffers
  import opened SchedSpec
  import opened PcbListsOnHeap
  import opened Partition
  import opened PartitionRuns
  import opened Deliveries

  const ENOMEM: int := -12
  const EINVAL: int := -22

  class Kernel {
    const lists: PcbLists
    const ring: RingBuffer           // circ_buffer
    var cur: nat                     // current()
    var ticks: int                   // current_ticks_left
    var count: seq<int>              // mutexes[m].count
    var task: seq<Task>
    var refs: seq<int>               // pcbs_in_dir
    var pids: int
    var requests: seq<Request>       // circ_buff_maxchars, and diff on the kernel stack
    ghost var log: seq<Event>

    ghost function Abs(): Sched
      reads this, lists, ring
    {
      Sched(lists.q, cur, ticks, count, task, refs, pids, requests, ring.contents, log)
    }

    ghost predicate Valid()
      reads this, lists, lists.node, lists.head, ring, ring.data
    {
      lists.Valid() && ring.Valid() && ring.data.Length == TAM_BUF && WF(Abs())
    }

    /** Between kernel entries neither the running task nor idle is in a list. */
    ghost predicate UserMode()
      reads this, lists, lists.node, lists.head, ring, ring.data
    {
      Valid() && cur !in lists.place && IDLE !in lists.place
    }

    /** The zeroed PCBs and counters of the kernel image, with every queue empty. */
    constructor ()
      ensures Valid() && lists.place == map[]
      ensures Abs() == Image()
      ensures fresh(lists) && fresh(ring) && fresh(ring.data)
      ensures forall t :: 0 <= t < NR_TASKS ==> fresh(lists.node[t])
      ensures forall d :: 0 <= d < NR_QUEUES ==> fresh(lists.head[d])
    {
      lists := new PcbLists();
      ring := new RingBuffer(TAM_BUF);
      cur, ticks, pids, log := 0, INIT_QUANTUM, 0, [];
      count, refs := seq(MAX_MUTEXES, m => 0), seq(NR_TASKS, d => 0);
      task := seq(NR_TASKS, t => Task(0, 0, 0, 0, User));
      requests := seq(NR_TASKS, t => Request(0, 0));
    }

    // ---------- queue moves

    method Enqueue(d: nat, t: nat)
      requires Valid() && d < NR_QUEUES && t < NR_TASKS && t !in lists.place
      modifies lists, lists.node, lists.head
      ensures Abs() == Append(old(Abs()), d, t) && lists.place == old(lists.place)[t := d]
      ensures Valid()
    {
      lists.LinkLast(d, t);
    }

    method EnqueueFirst(d: nat, t: nat)
      requires Valid() && d < NR_QUEUES && t < NR_TASKS && t !in lists.place
      modifies lists, lists.node, lists.head
      ensures Abs() == Prepend(old(Abs()), d, t) && lists.place == old(lists.place)[t := d]
      ensures Valid()
    {
      lists.LinkFirst(d, t);
    }

    method Dequeue(d: nat) returns (t: nat)
      requires Valid() && d < NR_QUEUES && lists.q[d] != []
      modifies lists, lists.node, lists.head
      ensures t == old(lists.q)[d][0] && t < NR_TASKS && t in old(lists.place)
      ensures Abs() == DropFirst(old(Abs()), d) && lists.place == old(lists.place) - {t}
      ensures Valid()
    {
      t := lists.First(d);
      lists.UnlinkFirst(t, d);
    }

    // ---------- sched.c

    /** update_process_state_rr; dest < 0 stands for NULL, from is the list t is first in. */
    method UpdateProcessStateRr(t: nat, dest: int, ghost from: nat)
      requires Valid() && t < NR_TASKS && dest < NR_QUEUES
      requires t != cur && t != IDLE ==> from < NR_QUEUES && lists.q[from] != [] && lists.q[from][0] == t
      requires (t == cur || t == IDLE) && dest >= 0 ==> t !in lists.place
      modifies lists, lists.node, lists.head
      ensures var unlinked := t != cur && t != IDLE;
              var s1 := if unlinked then DropFirst(old(Abs()), from) else old(Abs());
              var p1 := if unlinked then old(lists.place) - {t} else old(lists.place);
              && Abs() == (if dest >= 0 then Append(s1, dest, t) else s1)
              && lists.place == if dest >= 0 then p1[t := dest] else p1
      ensures Valid()
    {
      if t != cur && t != IDLE {
        lists.UnlinkFirst(t, from);
      }
      if dest >= 0 {
        Enqueue(dest, t);
      }
    }

    /** The choice of sched_next_rr. */
    method ChooseNext() returns (next: nat)
      requires Valid()
      ensures next == Next(Abs()) && (next == IDLE || (lists.q[READY] != [] && lists.q[READY][0] == next))
    {
      next := IDLE;
      var empty := lists.IsEmpty(READY);
      if !empty {
        next := lists.First(READY);
      }
    }

    /** sched_next_rr up to and including task_switch. */
    method SwitchTask()
      requires Valid()
      modifies this`cur, this`ticks, lists, lists.node, lists.head
      ensures Abs() == SwitchToNext(old(Abs()))
      ensures lists.place == if cur != old(cur) && cur != IDLE then old(lists.place) - {cur} else old(lists.place)
      ensures Valid()
    {
      var next := ChooseNext();
      UpdateProcessStateRr(next, -1, READY);
      ticks := task[next].quantum;
      cur := next;
    }

    /** What the switched-to task does before it returns to user mode. */
    method Resume()
      requires Valid()
      modifies this`task, this`count, this`log
      ensures Abs() == ResumeCurrent(old(Abs()))
      ensures Valid()
    {
      if task[cur].resume.Locking? {
        var m := task[cur].resume.mutex;
        task := task[cur := task[cur].(resume := User)];
        count := count[m := count[m] + 1];
        log := log + [Locked(m)];
      }
    }

    /** sched_next_rr, and the next task back in user mode. */
    method SchedNextRr()
      requires Valid()
      requires lists.q[READY] != [] ==> lists.q[READY][0] != cur
      modifies this, lists, lists.node, lists.head
      ensures Abs() == SchedNext(old(Abs()))
      ensures Valid() && (IDLE !in old(lists.place) ==> UserMode())
    {
      SwitchTask();
      Resume();
    }

    /** needs_sched_rr */
    method NeedsSchedRr() returns (needed: bool)
      requires Valid()
      modifies this`ticks
      ensures needed == (old(ticks) == 0 && lists.q[READY] != [])
      ensures ticks == if old(ticks) == 0 && !needed then task[cur].quantum else old(ticks)
      ensures Valid()
    {
      var empty := lists.IsEmpty(READY);
      if ticks == 0 && !empty {
        return true;
      }
      if ticks == 0 {
        ticks := task[cur].quantum;
      }
      return false;
    }

    /** update_sched_data_rr and schedule, on a clock interrupt. */
    method ClockRoutine()
      requires UserMode()
      modifies this, lists, lists.node, lists.head
      ensures Abs() == Tick(old(Abs()))
      ensures old(cur) != IDLE && old(lists.q)[READY] == [] ==>
                cur == old(cur) && ticks == if old(ticks) == 1 then task[cur].quantum else old(ticks) - 1
      ensures UserMode()
    {
      ticks := ticks - 1;
      var needed := NeedsSchedRr();
      if needed {
        if cur != IDLE {
          UpdateProcessStateRr(cur, READY, FREE);
        }
        SchedNextRr();
      }
    }

    // ---------- sys.c

    /** Taking the first free PCB and copying the parent's over it, stale list links included. */
    method CopyParentPcb() returns (child: nat)
      requires UserMode() && lists.q[FREE] != []
      modifies this`task, lists, lists.node, lists.head
      ensures child == old(lists.q)[FREE][0] && child < NR_TASKS && child in old(lists.place)
      ensures lists.place == old(lists.place) - {child}
      ensures Abs() == CopyParent(old(Abs()))
      ensures Valid()
    {
      child := Dequeue(FREE);
      lists.OverwriteLinks(child, cur);
      task := task[child := task[cur].(resume := User)];
    }

    /** allocate_DIR: the PCB's own directory. */
    method GiveOwnDir(t: nat)
      requires Valid() && t < NR_TASKS
      modifies this`task, this`refs
      ensures Abs() == AllocateDir(old(Abs()), t)
      ensures Valid()
    {
      task := task[t := task[t].(dir := t)];
      refs := refs[t := refs[t] + 1];
    }

    /** pcb->PID = pids++ */
    method GivePid(t: nat)
      requires Valid() && t < NR_TASKS
      modifies this`task, this`pids
      ensures Abs() == AssignPid(old(Abs()), t)
      ensures Valid()
    {
      task := task[t := task[t].(pid := pids)];
      pids := pids + 1;
    }

    /** A copy of the running task with a directory of its own, in no queue yet. */
    method NewProcess() returns (child: nat)
      requires UserMode() && lists.q[FREE] != []
      modifies this`task, this`refs, lists, lists.node, lists.head
      ensures child == old(lists.q)[FREE][0] && child < NR_TASKS && child in old(lists.place)
      ensures lists.place == old(lists.place) - {child}
      ensures Abs() == AllocateDir(CopyParent(old(Abs())), child)
      ensures Valid()
    {
      child := CopyParentPcb();
      GiveOwnDir(child);
    }

    /** sys_fork; enoughPages is the outcome of copy_and_allocate_pages. */
    method SysFork(enoughPages: bool) returns (r: int)
      requires UserMode()
      modifies this, lists, lists.node, lists.head
      ensures Abs() == Fork(old(Abs()), enoughPages)
      ensures r == if old(lists.q)[FREE] == [] || !enoughPages then ENOMEM else old(pids)
      ensures old(lists.q)[FREE] != [] && enoughPages ==>
                var child := old(lists.q)[FREE][0]; child < NR_TASKS && r == task[child].pid
      ensures UserMode()
    {
      var empty := lists.IsEmpty(FREE);
      if empty {
        return ENOMEM;
      }
      var child := NewProcess();
      if !enoughPages {
        Enqueue(FREE, child);
        return ENOMEM;
      }
      Enqueue(READY, child);
      GivePid(child);
      return task[child].pid;
    }

    method ShareOwnDir()
      requires Valid()
      modifies this`refs
      ensures Abs() == ShareDir(old(Abs()))
      ensures Valid()
    {
      var d := task[cur].dir;
      refs := refs[d := refs[d] + 1];
    }

    /** sys_create_thread with a valid start address and a frame for its stack. */
    method SysCreateThread() returns (r: int)
      requires UserMode()
      modifies this, lists, lists.node, lists.head
      ensures Abs() == CreateThread(old(Abs()))
      ensures r == if old(lists.q)[FREE] == [] then ENOMEM else 0
      ensures UserMode()
    {
      var empty := lists.IsEmpty(FREE);
      if empty {
        return ENOMEM;
      }
      var child := CopyParentPcb();
      ShareOwnDir();
      Enqueue(READY, child);
      return 0;
    }

    /** pcbs_in_dir[...]--; freed tells whether that was the last reference. */
    method ReleaseDir() returns (freed: bool)
      requires Valid()
      modifies this`refs, this`log
      ensures Abs() == DropReference(old(Abs()))
      ensures freed == (old(refs[task[cur].dir]) == 1)
      ensures Valid()
    {
      var d := task[cur].dir;
      refs := refs[d := refs[d] - 1];
      freed := refs[d] == 0;
      if freed {
        log := log + [PagesFreed(d)];
      }
    }

    /** sys_exit; freed tells whether free_user_pages was called. */
    method SysExit() returns (freed: bool)
      requires UserMode() && cur != IDLE
      modifies this, lists, lists.node, lists.head
      ensures Abs() == Exit(old(Abs()))
      ensures freed == (old(refs[task[cur].dir]) == 1)
      ensures UserMode()
    {
      freed := ReleaseDir();
      Enqueue(FREE, cur);
      SchedNextRr();
    }

    /** sys_mutex_init */
    method SysMutexInit(m: int) returns (r: int)
      requires UserMode()
      modifies this`count
      ensures Abs() == InitMutex(old(Abs()), m)
      ensures r == if 0 <= m < MAX_MUTEXES then 0 else -1
      ensures UserMode()
    {
      if !(0 <= m < MAX_MUTEXES) {
        return -1;
      }
      count := count[m := 0];
      return 0;
    }

    /** The running task goes to sleep on the mutex. */
    method SleepOn(m: nat)
      requires UserMode() && m < MAX_MUTEXES
      modifies this`task, this`log, lists, lists.node, lists.head
      ensures var s1 := SetTask(old(Abs()), cur, old(task)[cur].(resume := Locking(m)));
              Abs() == Record(Append(s1, MutexQueue(m), cur), Queued(m, cur))
      ensures lists.place == old(lists.place)[cur := MutexQueue(m)]
      ensures Valid()
    {
      UpdateProcessStateRr(cur, MutexQueue(m), FREE);
      task := task[cur := task[cur].(resume := Locking(m))];
      log := log + [Queued(m, cur)];
    }

    /** sys_mutex_lock */
    method SysMutexLock(m: int) returns (r: int)
      requires UserMode() && cur != IDLE
      modifies this, lists, lists.node, lists.head
      ensures Abs() == Lock(old(Abs()), m)
      ensures r == if Usable(old(Abs()), m) then 0 else -1
      ensures UserMode()
    {
      if !(0 <= m < MAX_MUTEXES) || count[m] == -1 {
        return -1;
      }
      if count[m] >= 1 {
        SleepOn(m);
        SchedNextRr();
      } else {
        ghost var barged := exists t :: t in lists.q[READY] && IsWoken(task, m, t);
        count := count[m := count[m] + 1];
        log := (if barged then log + [Barged(m)] else log) + [Locked(m)];
      }
      return 0;
    }

    /** The first sleeper on the mutex goes to the head of the ready queue. */
    method WakeFirst(m: nat)
      requires UserMode() && m < MAX_MUTEXES && lists.q[MutexQueue(m)] != []
      modifies this`log, lists, lists.node, lists.head
      ensures var t := old(lists.q)[MutexQueue(m)][0];
              Abs() == Record(Prepend(DropFirst(old(Abs()), MutexQueue(m)), READY, t), WokenUp(m, t))
      ensures UserMode()
    {
      var t := Dequeue(MutexQueue(m));
      EnqueueFirst(READY, t);
      log := log + [WokenUp(m, t)];
    }

    /** sys_mutex_unlock */
    method SysMutexUnlock(m: int) returns (r: int)
      requires UserMode()
      modifies this, lists, lists.node, lists.head
      ensures Abs() == Unlock(old(Abs()), m)
      ensures r == if Usable(old(Abs()), m) then 0 else -1
      ensures UserMode()
    {
      if !(0 <= m < MAX_MUTEXES) || count[m] == -1 {
        return -1;
      }
      if count[m] == 0 {
        return 0;
      }
      var empty := lists.IsEmpty(MutexQueue(m));
      if !empty {
        WakeFirst(m);
      }
      count := count[m := count[m] - 1];
      log := log + [Unlocked(m)];
      return 0;
    }

    /** The drain of sys_read: all buffered characters, oldest first. */
    method DrainRing() returns (got: seq<char>)
      requires Valid() && '\0' !in ring.contents
      modifies ring
      ensures got == old(ring.contents) && |got| <= TAM_BUF
      ensures Abs() == old(Abs()).(keys := [])
      ensures Valid()
    {
      var buff := new char[TAM_BUF];
      var i := ring.DrainAll(buff);
      got := buff[..i];
    }

    /** sys_read for a user buffer of n characters; got is what is stored there before it may block, r what the
        call returns, at once or when the last character has come. */
    method SysRead(n: int) returns (r: int, got: seq<Copy>)
      requires UserMode() && cur != IDLE && '\0' !in ring.contents
      modifies this, lists, lists.node, lists.head, ring
      ensures Abs() == Read(old(Abs()), n)
      ensures got == Handed(old(Abs()), ReadCall(n)) && r == if n <= 0 then EINVAL else n
      ensures UserMode()
    {
      if n <= 0 {
        return EINVAL, [];
      }
      ghost var s := Abs();
      var left;
      left, got := EnterRead(n);
      if left <= 0 {
        got := got + [Closing(cur, requests[cur])];
      }
      FinishRead(left);
      assert Abs() == SchedSpec.FinishRead(Entered(s, n), LeftAtEntry(s, n));
      r := n;
    }

    /** The first drain of sys_read. */
    method EnterRead(n: int) returns (left: int, got: seq<Copy>)
      requires UserMode() && '\0' !in ring.contents
      modifies this`requests, ring
      ensures Abs() == Entered(old(Abs()), n) && left == LeftAtEntry(old(Abs()), n)
      ensures got == if |old(ring.contents)| == TAM_BUF then [] else [Copy(cur, 0, old(ring.contents))]
      ensures UserMode()
    {
      left, got := n, [];
      var full := ring.IsFull();
      if !full {
        var chars := DrainRing();
        left := n - |chars|;
        got := [Copy(cur, 0, chars)];
      }
      requests := requests[cur := Request(n, n - left)];
    }

    /** Sleep until the keyboard has delivered the rest, or return at once if nothing is missing. */
    method FinishRead(left: int)
      requires UserMode() && cur != IDLE
      modifies this, lists, lists.node, lists.head
      ensures Abs() == SchedSpec.FinishRead(old(Abs()), left)
      ensures UserMode()
    {
      if left > 0 {
        BlockReader(left);
        SchedNextRr();
      } else {
        PassThroughBlocked(left);
      }
    }

    method BlockReader(left: int)
      requires UserMode()
      modifies this`task, lists, lists.node, lists.head
      ensures Abs() == Block(old(Abs()), old(task)[cur].(toRead := left, resume := Reading))
      ensures lists.place == old(lists.place)[cur := BLOCKED]
      ensures Valid()
    {
      task := task[cur := task[cur].(toRead := left, resume := Reading)];
      UpdateProcessStateRr(cur, BLOCKED, FREE);
    }

    /** Onto the blocked queue and off it again. */
    method PassThroughBlocked(left: int)
      requires UserMode()
      modifies this`task, lists, lists.node, lists.head
      ensures Abs() == SetTask(old(Abs()), cur, old(task)[cur].(toRead := left, resume := User))
      ensures lists.place == old(lists.place)
      ensures Valid()
    {
      ghost var x := lists.q[BLOCKED];
      task := task[cur := task[cur].(toRead := left, resume := User)];
      UpdateProcessStateRr(cur, BLOCKED, FREE);
      lists.Unlink(cur, BLOCKED, |x|);
      assert (x + [cur])[..|x|] + (x + [cur])[|x| + 1..] == x;
      assert old(lists.q)[BLOCKED := x] == old(lists.q);
    }

    // ---------- interrupt.c

    /** keyboard_routine for a key that maps to c; got is what a woken reader stores. */
    method KeyboardRoutine(c: char) returns (got: seq<Copy>)
      requires UserMode() && c != '\0' && '\0' !in ring.contents
      modifies this, lists, lists.node, lists.head, ring, ring.data
      ensures Abs() == Key(old(Abs()), c)
      ensures got == Handed(old(Abs()), KeyPress(c))
      ensures Valid() && (old(cur) != IDLE || !Wakes(old(Abs()), c) ==> UserMode())
    {
      hide HandedOver, ReaderRuns, HandedOnWake;
      got := [];
      ring.Append(c);
      var empty := lists.IsEmpty(BLOCKED);
      if empty {
        return;
      }
      var t := lists.First(BLOCKED);
      if task[t].toRead > 0 {
        task := task[t := task[t].(toRead := task[t].toRead - 1)];
        assert Abs() == Counted(old(Abs()), c);
        got := WakeIfReady(t);
      }
    }

    /** The first reader is woken if it has all it wanted or the buffer is full. */
    method WakeIfReady(t: nat) returns (got: seq<Copy>)
      requires UserMode() && lists.q[BLOCKED] != [] && t == lists.q[BLOCKED][0] && '\0' !in ring.contents
      modifies this, lists, lists.node, lists.head, ring
      ensures var s := old(Abs());
              if s.task[t].toRead == 0 || |s.keys| == TAM_BUF
              then Abs() == ReaderRuns(HandedOver(s)) && got == HandedOnWake(s)
              else Abs() == s && got == [] && UserMode()
      ensures Valid() && (old(cur) != IDLE ==> UserMode())
    {
      got := [];
      var full := ring.IsFull();
      if task[t].toRead == 0 || full {
        got := WakeReader(t);
      }
    }

    /** The running task is queued and the first reader runs: it drains, then sleeps again or leaves. */
    method WakeReader(t: nat) returns (got: seq<Copy>)
      requires UserMode() && lists.q[BLOCKED] != [] && t == lists.q[BLOCKED][0] && '\0' !in ring.contents
      modifies this, lists, lists.node, lists.head, ring
      ensures Abs() == ReaderRuns(HandedOver(old(Abs())))
      ensures got == HandedOnWake(old(Abs()))
      ensures Valid() && (old(cur) != IDLE ==> UserMode())
    {
      got := HandOver(t);
      if task[t].toRead > 0 {
        SchedNextRr();
      } else {
        got := got + [Closing(t, requests[t])];
        LeaveBlocked();
      }
    }

    /** The reader has all it wanted. */
    method LeaveBlocked()
      requires Valid() && lists.q[BLOCKED] != []
      modifies this`task, lists, lists.node, lists.head
      ensures Abs() == ReadDone(old(Abs())) && lists.place == old(lists.place) - {old(lists.q[BLOCKED][0])}
      ensures Valid()
    {
      var u := Dequeue(BLOCKED);
      task := task[cur := task[cur].(resume := User)];
    }

    /** The interrupted task is queued; the first reader becomes current and drains the buffer. */
    method HandOver(t: nat) returns (got: seq<Copy>)
      requires UserMode() && lists.q[BLOCKED] != [] && t == lists.q[BLOCKED][0] && '\0' !in ring.contents
      modifies this`cur, this`requests, lists, lists.node, lists.head, ring
      ensures Abs() == HandedOver(old(Abs()))
      ensures lists.place == old(lists.place)[old(cur) := READY] && lists.q[READY][0] != cur
      ensures got == [Copy(t, old(requests)[t].diff, old(ring.contents))]
      ensures Valid()
    {
      QueueCurrent(t);
      cur := t;
      got := StorePiece(t);
    }

    /** The drain of the woken reader t. */
    method StorePiece(t: nat) returns (got: seq<Copy>)
      requires Valid() && t < NR_TASKS && '\0' !in ring.contents
      modifies this`requests, ring
      ensures Abs() == old(Abs()).(keys := [], requests := old(requests)[t := Drained(old(Abs()), t)])
      ensures got == [Copy(t, old(requests)[t].diff, old(ring.contents))]
      ensures Valid()
    {
      var chars := DrainRing();
      got := [Copy(t, requests[t].diff, chars)];
      requests := requests[t := requests[t].(diff := requests[t].maxchars - task[t].toRead)];
    }

    /** The interrupted task goes to the end of the ready queue. */
    method QueueCurrent(t: nat)
      requires UserMode() && lists.q[BLOCKED] != [] && t == lists.q[BLOCKED][0]
      modifies lists, lists.node, lists.head
      ensures Abs() == Append(old(Abs()), READY, cur) && lists.q[READY][0] != t
      ensures lists.place == old(lists.place)[cur := READY]
      ensures Valid()
    {
      assert lists.q[READY] != [] ==> lists.place[lists.q[READY][0]] == READY;
      UpdateProcessStateRr(cur, READY, FREE);
    }

    // ---------- boot

    /** init_sched: every PCB on the free queue. */
    method QueueAllFree()
      requires Valid() && lists.place == map[] && lists.q == seq(NR_QUEUES, d => [])
      modifies lists, lists.node, lists.head
      ensures Abs() == InitSched(old(Abs())) && lists.q[FREE] == Upto(NR_TASKS)
      ensures Valid()
    {
      ghost var q0 := lists.q;
      assert q0[FREE := Upto(0)] == q0;
      for i := 0 to NR_TASKS
        invariant Valid() && Abs() == old(Abs()).(q := lists.q)
        invariant lists.q == q0[FREE := Upto(i)]
        invariant forall t :: i <= t < NR_TASKS ==> t !in lists.place
      {
        Enqueue(FREE, i);
        assert Upto(i + 1) == Upto(i) + [i];
      }
    }

    /** init_idle */
    method SetUpIdle()
      requires Valid() && lists.q[FREE] != []
      modifies this, lists, lists.node, lists.head
      ensures Abs() == InitIdle(old(Abs())) && lists.q[FREE] == old(lists.q)[FREE][1..]
      ensures lists.place == old(lists.place) - {old(lists.q)[FREE][0]}
      ensures Valid()
    {
      var idle := Dequeue(FREE);
      GivePid(idle);
    }

    /** init_task1, but for its address space. */
    method SetUpTask1()
      requires Valid() && lists.q[FREE] != []
      modifies this, lists, lists.node, lists.head
      ensures Abs() == InitTask1(old(Abs())) && lists.place == old(lists.place) - {cur}
      ensures Valid()
    {
      var init := Dequeue(FREE);
      GiveOwnDir(init);
      GivePid(init);
      MakeCurrent(init);
    }

    method MakeCurrent(t: nat)
      requires Valid() && t < NR_TASKS
      modifies this`task, this`cur
      ensures Abs() == SetTask(old(Abs()), t, old(task)[t].(quantum := INIT_QUANTUM)).(cur := t)
      ensures Valid()
    {
      task := task[t := task[t].(quantum := INIT_QUANTUM)];
      cur := t;
    }

    /** init_mm's directory for idle, and init_sched. */
    method StartQueues()
      requires Valid() && lists.place == map[] && Abs() == Image()
      modifies this, lists, lists.node, lists.head
      ensures Abs() == InitSched(AllocateDir(Image(), IDLE)) && lists.q[FREE] == Upto(NR_TASKS)
      ensures Valid()
    {
      GiveOwnDir(IDLE);
      QueueAllFree();
    }

    /** init_mm's directory for idle, init_sched, init_idle and init_task1. */
    method Start()
      requires Valid() && lists.place == map[] && Abs() == Image()
      modifies this, lists, lists.node, lists.head
      ensures Abs() == Boot()
      ensures UserMode()
    {
      hide AllocateDir, InitSched, InitIdle, InitTask1, Image;
      StartQueues();
      SetUpIdle();
      SetUpTask1();
    }

    // ---------- every kernel entry

    /** One system call or interrupt, from user mode; got is what it copies to a reader's buffer.  It comes back
        to user mode, unless a key wakes a reader over idle. */
    method Enter(a: Step) returns (got: seq<Copy>)
      requires UserMode() && Inv(Abs()) && Possible(Abs(), a)
      modifies this, lists, lists.node, lists.head, ring, ring.data
      ensures Abs() == Apply(old(Abs()), a) && got == Handed(old(Abs()), a)
      ensures Valid()
      ensures Allowed(old(Abs()), a) ==> UserMode() && Inv(Abs())
    {
      hide Tick, Fork, CreateThread, Exit, InitMutex, Lock, Unlock, Read, Key;
      if Allowed(Abs(), a) {
        StepInv(Abs(), a);
      }
      got := [];
      match a
      case ClockTick => ClockRoutine();
      case ForkCall(enoughPages) => var r := SysFork(enoughPages);
      case CreateThreadCall => var r := SysCreateThread();
      case ExitCall => var freed := SysExit();
      case InitMutexCall(m) => var r := SysMutexInit(m);
      case LockCall(m) => var r := SysMutexLock(m);
      case UnlockCall(m) => var r := SysMutexUnlock(m);
      case ReadCall(n) => var r; r, got := SysRead(n);
      case KeyPress(c) => got := KeyboardRoutine(c);
    }

    /** A whole run of the kernel is a run of the transition system, also if it ends with a key that wakes a
        reader over idle. */
    method EnterAll(steps: seq<Step>) returns (got: seq<Copy>)
      requires UserMode() && Inv(Abs()) && AllowedToLast(Abs(), steps)
      modifies this, lists, lists.node, lists.head, ring, ring.data
      ensures Abs() == Run(old(Abs()), steps) && got == AllHanded(old(Abs()), steps)
      ensures Valid()
      ensures AllAllowed(old(Abs()), steps) ==> UserMode() && Inv(Abs())
      decreases |steps|
    {
      got := [];
      ghost var s0 := Abs();
      for i := 0 to |steps|
        invariant Valid() && Halfway(s0, Abs(), steps, i, got)
        invariant i < |steps| || AllAllowed(s0, steps) ==> UserMode() && Inv(Abs())
      {
        hide Apply, Inv, Halfway, AllAllowed;
        HalfwayOn(s0, Abs(), steps, i, got);
        var piece := Enter(steps[i]);
        got := got + piece;
      }
      assert steps[|steps|..] == [];
    }
  }

  /** The run of all steps from s0 is at s after i steps and has handed out got so far. */
  ghost predicate Halfway(s0: Sched, s: Sched, steps: seq<Step>, i: nat, got: seq<Copy>)
    requires WF(s0)
  {
    && WF(s) && i <= |steps| && AllowedToLast(s, steps[i..]) && (AllAllowed(s0, steps) ==> AllAllowed(s, steps[i..]))
    && Run(s, steps[i..]) == Run(s0, steps) && got + AllHanded(s, steps[i..]) == AllHanded(s0, steps)
  }

  lemma HalfwayOn(s0: Sched, s: Sched, steps: seq<Step>, i: nat, got: seq<Copy>)
    requires WF(s0) && Halfway(s0, s, steps, i, got) && i < |steps|
    ensures Possible(s, steps[i]) && (i + 1 < |steps| || AllAllowed(s0, steps) ==> Allowed(s, steps[i]))
    ensures Halfway(s0, Apply(s, steps[i]), steps, i + 1, got + Handed(s, steps[i]))
  {
    hide Apply, Handed, Run, AllAllowed, AllowedToLast, AllHanded;
    var a, rest := steps[i], steps[i + 1..];
    assert steps[i..] == [a] + rest;
    ToLastUnrolls(s, a, rest);
    RunUnrolls(s, a, rest);
    HandedUnrolls(s, a, rest, got);
  }
}
