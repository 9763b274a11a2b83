// What follows a key press that wakes a reader over idle: under the clock alone nobody else ever runs.

module IdleWakes {
  import opened Common
  import opened SchedSpec
  import opened Partition
  import opened PartitionRuns
  import opened RoundRobin

  /** Under the clock alone, the running task keeps the processor for ever. */
  ghost predicate RunsForever(s: Sched)
    requires WF(s)
  {
    forall n: nat, j: nat :: j <= n ==> CpuTrace(s, n)[j] == s.cur
  }

  lemma {:induction false} SliceNeverEnds(s: Sched, n: nat, j: nat)
    requires WF(s) && s.ticks <= 0 && j <= n
    ensures CpuTrace(s, n)[j] == s.cur
    decreases n
  {
    if j > 0 {
      var r := s.(ticks := s.ticks - 1);
      PastTick(s);
      SliceNeverEnds(r, n - 1, j - 1);
      assert CpuTrace(s, n) == [s.cur] + CpuTrace(Tick(s), n - 1);
    }
  }

  /** The slice counter is decremented before it is compared with zero. */
  lemma PastTick(s: Sched)
    requires WF(s) && s.ticks <= 0
    ensures Tick(s) == s.(ticks := s.ticks - 1)
  {
  }

  /** A slice that is not positive never ends. */
  lemma RunsForeverIfOver(s: Sched)
    requires WF(s) && s.ticks <= 0
    ensures RunsForever(s)
  {
    forall n: nat, j: nat | j <= n
      ensures CpuTrace(s, n)[j] == s.cur
    {
      SliceNeverEnds(s, n, j);
    }
  }

  // ---------- idle has no slice

  /** Idle's quantum is zero, and while it runs the slice counter is not positive. */
  ghost predicate IdleHasNoSlice(s: Sched)
    requires WF(s)
  {
    s.task[IDLE].quantum == 0 && (s.cur == IDLE ==> s.ticks <= 0)
  }

  lemma SchedNextIdle(s: Sched)
    requires WF(s) && s.task[IDLE].quantum == 0
    ensures IdleHasNoSlice(SchedNext(s))
  {
  }

  lemma TickIdle(s: Sched)
    requires WF(s) && IdleHasNoSlice(s)
    ensures IdleHasNoSlice(Tick(s))
  {
    hide SchedNext;
    if s.cur == IDLE {
      PastTick(s);
    } else {
      SchedNextIdle(Append(s.(ticks := s.ticks - 1), READY, s.cur));
    }
  }

  lemma NewTaskIdle(s: Sched, ok: bool)
    requires Inv(s) && s.cur != IDLE && IdleHasNoSlice(s)
    ensures IdleHasNoSlice(Fork(s, ok)) && IdleHasNoSlice(CreateThread(s))
  {
    if s.q[FREE] != [] {
      QueuedIsElsewhere(s.q, s.cur, FREE);
    }
  }

  lemma LockIdle(s: Sched, m: int)
    requires WF(s) && IdleHasNoSlice(s)
    ensures IdleHasNoSlice(Lock(s, m))
  {
    hide SchedNext;
    if Usable(s, m) && s.count[m] >= 1 {
      var s1 := SetTask(s, s.cur, s.task[s.cur].(resume := Locking(m)));
      SchedNextIdle(Record(Append(s1, MutexQueue(m), s.cur), Queued(m, s.cur)));
    }
  }

  lemma ReadIdle(s: Sched, n: int)
    requires WF(s) && IdleHasNoSlice(s)
    ensures IdleHasNoSlice(Read(s, n))
  {
    hide SchedNext;
    var left := LeftAtEntry(s, n);
    if n > 0 && left > 0 {
      SchedNextIdle(Block(Entered(s, n), s.task[s.cur].(toRead := left, resume := Reading)));
    }
  }

  lemma KeyIdle(s: Sched, c: char)
    requires Inv(s) && IdleHasNoSlice(s)
    ensures IdleHasNoSlice(Key(s, c))
  {
    hide SchedNext;
    if s.q[BLOCKED] != [] {
      QueuedIsElsewhere(s.q, s.cur, BLOCKED);
      SchedNextIdle(HandedOver(Counted(s, c)));
    }
  }

  lemma StepIdle(s: Sched, a: Step)
    requires Inv(s) && Allowed(s, a) && IdleHasNoSlice(s)
    ensures IdleHasNoSlice(Apply(s, a))
  {
    hide Tick, Fork, CreateThread, Exit, Lock, Read, Key;
    match a
    case ClockTick => TickIdle(s);
    case ForkCall(ok) => NewTaskIdle(s, ok);
    case CreateThreadCall => NewTaskIdle(s, true);
    case ExitCall => ExitIdle(s);
    case InitMutexCall(m) =>
    case LockCall(m) => LockIdle(s, m);
    case UnlockCall(m) =>
    case ReadCall(n) => ReadIdle(s, n);
    case KeyPress(c) => KeyIdle(s, c);
  }

  lemma ExitIdle(s: Sched)
    requires WF(s) && IdleHasNoSlice(s)
    ensures IdleHasNoSlice(Exit(s))
  {
    hide SchedNext;
    SchedNextIdle(Leave(s));
  }

  lemma {:induction false} RunIdle(s: Sched, steps: seq<Step>)
    requires Inv(s) && AllAllowed(s, steps) && IdleHasNoSlice(s)
    ensures IdleHasNoSlice(Run(s, steps))
    decreases steps
  {
    if steps != [] {
      StepInv(s, steps[0]);
      StepIdle(s, steps[0]);
      RunIdle(Apply(s, steps[0]), steps[1..]);
    }
  }

  // ---------- after the key

  /** With idle at the head of the ready queue, a switch runs idle, leaves it there, and under the clock alone
      no task behind it ever runs. */
  lemma StuckBehindIdle(s: Sched)
    requires WF(s) && s.q[READY] != [] && s.q[READY][0] == IDLE
    requires s.task[IDLE].quantum == 0 && s.task[IDLE].resume.User?
    ensures var r := SchedNext(s); r.cur == IDLE && r.q[READY] == s.q[READY] && RunsForever(r)
  {
    RunsForeverIfOver(SchedNext(s));
  }

  lemma KeyOverIdle(s: Sched, c: char)
    requires Inv(s) && IdleHasNoSlice(s) && s.cur == IDLE && Wakes(s, c)
    ensures var r, t := Key(s, c), s.q[BLOCKED][0];
            r.ticks <= 0 && r.cur == if s.task[t].toRead > 1 then IDLE else t
  {
    QueuedIsElsewhere(s.q, s.cur, BLOCKED);
  }

  /** After any run from boot, a key that wakes a reader over idle leaves idle alone in the ready queue, and
      under the clock alone whoever then runs, idle or the reader, keeps the processor for ever. */
  lemma IdleWakeStarves(steps: seq<Step>, c: char)
    requires AllAllowed(Boot(), steps) && c != '\0'
    requires Run(Boot(), steps).cur == IDLE && Wakes(Run(Boot(), steps), c)
    ensures var s := Run(Boot(), steps);
            var r, t := Key(s, c), s.q[BLOCKED][0];
            && r.q[READY] == [IDLE] && r.cur == (if s.task[t].toRead > 1 then IDLE else t) && RunsForever(r)
  {
    BootState();
    BootInv();
    RunInv(Boot(), steps);
    RunIdle(Boot(), steps);
    var s := Run(Boot(), steps);
    IdleIsQueued(s, c);
    KeyOverIdle(s, c);
    RunsForeverIfOver(Key(s, c));
  }

  // ---------- a task that starves

  /** The reader has the processor, with idle alone in the ready queue: it creates a thread and exits. */
  lemma ThreadStarves(s: Sched, child: nat)
    requires WF(s) && s.q[READY] == [IDLE] && s.q[FREE] != [] && s.q[FREE][0] == child && child != IDLE
    requires s.task[IDLE].quantum == 0 && s.task[IDLE].resume.User?
    ensures var r := Exit(CreateThread(s)); r.cur == IDLE && r.q[READY] == [IDLE, child] && RunsForever(r)
  {
    StuckBehindIdle(Leave(CreateThread(s)));
  }

  /** So after any run from boot: a key satisfies a reader over idle, the reader creates a thread and exits, and
      under the clock alone the new thread never runs although it is ready. */
  lemma ThreadStarvesFromBoot(steps: seq<Step>, c: char)
    requires AllAllowed(Boot(), steps) && c != '\0'
    requires var s := Run(Boot(), steps);
             s.cur == IDLE && Wakes(s, c) && s.task[s.q[BLOCKED][0]].toRead <= 1 && s.q[FREE] != []
    ensures var s := Run(Boot(), steps); var r := Exit(CreateThread(Key(s, c)));
            r.cur == IDLE && r.q[READY] == [IDLE, s.q[FREE][0]] && s.q[FREE][0] != IDLE && RunsForever(r)
  {
    hide CreateThread, Exit;
    BootState();
    BootInv();
    RunInv(Boot(), steps);
    RunIdle(Boot(), steps);
    var s := Run(Boot(), steps);
    QueuedIsElsewhere(s.q, s.cur, FREE);
    IdleIsQueued(s, c);
    KeyIdle(s, c);
    KeyKeepsFree(s, c);
    ThreadStarves(Key(s, c), s.q[FREE][0]);
  }

  lemma KeyKeepsFree(s: Sched, c: char)
    requires Inv(s) && s.cur == IDLE && Wakes(s, c)
    ensures Key(s, c).q[FREE] == s.q[FREE] && Key(s, c).task[IDLE].resume.User?
  {
    QueuedIsElsewhere(s.q, s.cur, BLOCKED);
  }
}
