// When the mutexes exclude: exactly on the runs in which the processor never goes to a task woken from a
// mutex while that mutex is held.

module MutexExclusion {
  import opened Common
  import opened SchedSpec
  import opened Partition
  import opened PartitionRuns
  import opened Moves
  import opened Mutexes

  /** A sys_mutex_lock(m) that takes the fast path while a woken waiter has yet to run. */
  ghost predicate Barges(s: Sched, a: Step, m: nat)
    requires WF(s) && m < MAX_MUTEXES
  {
    a == LockCall(m) && s.count[m] == 0 && Woken(s, m) > 0
  }

  /** Calls with a number that is out of range, or for a mutex that is marked unusable, do nothing. */
  lemma UnusableStays(s: Sched, m: int)
    requires WF(s)
    ensures !(0 <= m < 10 && s.count[m] != -1) <==> !Usable(s, m)
    ensures !Usable(s, m) ==> Lock(s, m) == s && Unlock(s, m) == s
    ensures !(0 <= m < 10) ==> InitMutex(s, m) == s
  {
  }

  // ---------- the history records exactly the barging steps

  ghost predicate Grew(log: seq<Event>, log': seq<Event>, m: nat, n: nat) {
    log <= log' && Occurs(log', Barged(m)) == Occurs(log, Barged(m)) + n
  }

  lemma SchedNextLog(s: Sched, m: nat)
    requires WF(s)
    ensures Grew(s.log, SchedNext(s).log, m, 0)
  {
  }

  lemma FastLockLog(s: Sched, k: nat, m: nat)
    requires WF(s) && m < MAX_MUTEXES && k < MAX_MUTEXES && s.count[k] == 0
    ensures Grew(s.log, Lock(s, k).log, m, if Barges(s, LockCall(k), m) then 1 else 0)
  {
    NoneWoken(s.q[READY], s.task, k);
  }

  lemma LockLog(s: Sched, k: int, m: nat)
    requires WF(s) && m < MAX_MUTEXES && (0 <= k < MAX_MUTEXES ==> s.count[k] >= 0)
    ensures Grew(s.log, Lock(s, k).log, m, if Barges(s, LockCall(k), m) then 1 else 0)
  {
    if Usable(s, k) {
      if s.count[k] >= 1 {
        var s1 := SetTask(s, s.cur, s.task[s.cur].(resume := Locking(k)));
        SchedNextLog(Record(Append(s1, MutexQueue(k), s.cur), Queued(k, s.cur)), m);
      } else {
        FastLockLog(s, k, m);
      }
    }
  }

  lemma ExitLog(s: Sched, m: nat)
    requires WF(s)
    ensures Grew(s.log, Exit(s).log, m, 0)
  {
    SchedNextLog(Leave(s), m);
  }

  lemma ReadLog(s: Sched, n: int, m: nat)
    requires WF(s)
    ensures Grew(s.log, Read(s, n).log, m, 0)
  {
    if n > 0 {
      var left := LeftAtEntry(s, n);
      var x := s.task[s.cur].(toRead := left, resume := if left > 0 then Reading else User);
      var s1 := Entered(s, n);
      if left > 0 {
        SchedNextLog(Block(s1, x), m);
      }
    }
  }

  lemma KeyLog(s: Sched, c: char, m: nat)
    requires WF(s)
    ensures Grew(s.log, Key(s, c).log, m, 0)
  {
    if s.q[BLOCKED] != [] && s.task[s.q[BLOCKED][0]].toRead > 0 {
      SchedNextLog(HandedOver(Counted(s, c)), m);
    }
  }

  lemma TickLog(s: Sched, m: nat)
    requires WF(s)
    ensures Grew(s.log, Tick(s).log, m, 0)
  {
    var s1 := s.(ticks := s.ticks - 1);
    SchedNextLog(if s.cur != IDLE then Append(s1, READY, s.cur) else s1, m);
  }

  lemma UnlockLog(s: Sched, k: int, m: nat)
    requires WF(s)
    ensures Grew(s.log, Unlock(s, k).log, m, 0)
  {
  }

  lemma StepLog(s: Sched, a: Step, m: nat)
    requires WF(s) && MutexInv(s) && m < MAX_MUTEXES
    ensures Grew(s.log, Apply(s, a).log, m, if Barges(s, a, m) then 1 else 0)
  {
    match a
    case ClockTick => TickLog(s, m);
    case ForkCall(ok) =>
    case CreateThreadCall =>
    case ExitCall => ExitLog(s, m);
    case InitMutexCall(k) =>
    case LockCall(k) =>
      assert 0 <= k < MAX_MUTEXES ==> Bal(s, k);
      LockLog(s, k, m);
    case UnlockCall(k) => UnlockLog(s, k, m);
    case ReadCall(n) => ReadLog(s, n, m);
    case KeyPress(c) => KeyLog(s, c, m);
  }

  // ---------- the count, exactly, step by step

  /** The head of the ready queue was woken from m and will complete its lock when it runs. */
  predicate HeadWoken(s: Sched, m: nat)
    requires WF(s)
  {
    s.q[READY] != [] && IsWoken(s.task, m, s.q[READY][0])
  }

  function One(b: bool): int {
    if b then 1 else 0
  }

  lemma DispatchCount(s: Sched, m: nat)
    requires ReadyToSwitch(s) && m < MAX_MUTEXES
    ensures SchedNext(s).count[m] == s.count[m] + One(HeadWoken(s, m))
  {
  }

  lemma TickCountIs(s: Sched, m: nat)
    requires Inv(s) && m < MAX_MUTEXES
    ensures Tick(s).count[m] == s.count[m] + One(GivesUp(s, ClockTick) && HeadWoken(s, m))
  {
    if GivesUp(s, ClockTick) {
      var s1 := Append(s.(ticks := 0), READY, s.cur);
      VacateInv(s, READY, s.task[s.cur]);
      assert s.task[s.cur := s.task[s.cur]] == s.task;
      DispatchCount(s1, m);
    }
  }

  lemma ExitCountIs(s: Sched, m: nat)
    requires Inv(s) && s.cur != IDLE && m < MAX_MUTEXES
    ensures Exit(s).count[m] == s.count[m] + One(HeadWoken(s, m))
  {
    VacateInv(s, FREE, s.task[s.cur]);
    assert s.task[s.cur := s.task[s.cur]] == s.task;
    DispatchCount(Leave(s), m);
  }

  lemma LockCountIs(s: Sched, k: int, m: nat)
    requires Inv(s) && s.cur != IDLE && m < MAX_MUTEXES && (0 <= k < MAX_MUTEXES ==> s.count[k] >= 0)
    ensures Lock(s, k).count[m] == s.count[m] + One(k == m && s.count[m] == 0)
                                  + One(GivesUp(s, LockCall(k)) && HeadWoken(s, m))
  {
    if GivesUp(s, LockCall(k)) {
      var x := s.task[s.cur].(resume := Locking(k));
      VacateInv(s, MutexQueue(k), x);
      var s1 := Append(SetTask(s, s.cur, x), MutexQueue(k), s.cur);
      assert s1.q[READY] == s.q[READY] && HeadWoken(s1, m) == HeadWoken(s, m);
      DispatchCount(Record(s1, Queued(k, s.cur)), m);
    }
  }

  lemma ReadCountIs(s: Sched, n: int, m: nat)
    requires Inv(s) && s.cur != IDLE && m < MAX_MUTEXES
    ensures Read(s, n).count[m] == s.count[m] + One(GivesUp(s, ReadCall(n)) && HeadWoken(s, m))
  {
    if GivesUp(s, ReadCall(n)) {
      var x := s.task[s.cur].(toRead := LeftAtEntry(s, n), resume := Reading);
      var s1 := Entered(s, n);
      VacateInv(s1, BLOCKED, x);
      assert HeadWoken(Block(s1, x), m) == HeadWoken(s, m);
      DispatchCount(Block(s1, x), m);
    }
  }

  lemma KeyCountIs(s: Sched, c: char, m: nat)
    requires Inv(s) && c != '\0' && m < MAX_MUTEXES && !(s.cur == IDLE && Wakes(s, c))
    ensures Key(s, c).count[m] == s.count[m] + One(GivesUp(s, KeyPress(c)) && HeadWoken(s, m))
  {
    if GivesUp(s, KeyPress(c)) {
      var s2 := Counted(s, c);
      CountedInv(s, c);
      HandedOverReady(s2);
      assert HeadWoken(HandedOver(s2), m) == HeadWoken(s, m);
      DispatchCount(HandedOver(s2), m);
    }
  }

  lemma NewTaskCountIs(s: Sched, ok: bool)
    requires WF(s)
    ensures Fork(s, ok).count == s.count && CreateThread(s).count == s.count
  {
  }

  lemma UnlockCountIs(s: Sched, k: int, m: nat)
    requires WF(s) && m < MAX_MUTEXES && s.count[m] >= 0
    ensures Unlock(s, k).count[m] == s.count[m] - One(k == m && s.count[m] > 0)
  {
  }

  /** What any step does to the count: one more for a lock at 0, one less for an unlock, and one more when
      the processor goes to a task that was woken from m. */
  lemma StepCount(s: Sched, a: Step, m: nat)
    requires Inv(s) && MutexInv(s) && Allowed(s, a) && !a.InitMutexCall? && m < MAX_MUTEXES
    ensures Apply(s, a).count[m] == s.count[m] + One(a == LockCall(m) && s.count[m] == 0)
                                    - One(a == UnlockCall(m) && s.count[m] > 0)
                                    + One(GivesUp(s, a) && HeadWoken(s, m))
  {
    hide Tick, Fork, CreateThread, Exit, Lock, Unlock, Read, Key, HeadWoken;
    assert Bal(s, m);
    match a
    case ClockTick => TickCountIs(s, m);
    case ForkCall(ok) => NewTaskCountIs(s, ok);
    case CreateThreadCall => NewTaskCountIs(s, true);
    case ExitCall => ExitCountIs(s, m);
    case LockCall(k) =>
      assert 0 <= k < MAX_MUTEXES ==> Bal(s, k);
      LockCountIs(s, k, m);
    case UnlockCall(k) => UnlockCountIs(s, k, m);
    case ReadCall(n) => ReadCountIs(s, n, m);
    case KeyPress(c) => KeyCountIs(s, c, m);
  }

  // ---------- mutual exclusion over a run

  /** At no point of the run have more than one lock of m been completed and not undone. */
  ghost predicate Excludes(s: Sched, steps: seq<Step>, m: nat)
    requires WF(s) && m < MAX_MUTEXES
    decreases steps
  {
    s.count[m] <= 1 && (steps != [] ==> Excludes(Apply(s, steps[0]), steps[1..], m))
  }

  /** The processor goes to a task woken from m while m is held. */
  predicate Overlaps(s: Sched, a: Step, m: nat)
    requires WF(s) && m < MAX_MUTEXES
  {
    s.count[m] >= 1 && HeadWoken(s, m) && GivesUp(s, a)
  }

  ghost predicate SomeOverlap(s: Sched, steps: seq<Step>, m: nat)
    requires WF(s) && m < MAX_MUTEXES
    decreases steps
  {
    steps != [] && (Overlaps(s, steps[0], m) || SomeOverlap(Apply(s, steps[0]), steps[1..], m))
  }

  lemma {:induction false} ExcludesIff(s: Sched, steps: seq<Step>, m: nat)
    requires Inv(s) && MutexInv(s) && AllAllowed(s, steps) && NoInit(steps) && m < MAX_MUTEXES && s.count[m] <= 1
    ensures Excludes(s, steps, m) <==> !SomeOverlap(s, steps, m)
    decreases steps
  {
    if steps != [] {
      var s1 := Apply(s, steps[0]);
      OneStepInv(s, steps);
      StepCount(s, steps[0], m);
      assert s1.count[m] > 1 <==> Overlaps(s, steps[0], m);
      if s1.count[m] <= 1 {
        ExcludesIff(s1, steps[1..], m);
      }
    }
  }

  lemma StepMutexInv(s: Sched, a: Step)
    requires Inv(s) && MutexInv(s) && Allowed(s, a) && !a.InitMutexCall?
    ensures Inv(Apply(s, a)) && MutexInv(Apply(s, a))
  {
    StepInv(s, a);
    forall m: nat | m < MAX_MUTEXES
      ensures Bal(Apply(s, a), m)
    {
      StepBal(s, a, m);
    }
  }

  lemma OneStepInv(s: Sched, steps: seq<Step>)
    requires Inv(s) && MutexInv(s) && AllAllowed(s, steps) && NoInit(steps) && steps != []
    ensures Inv(Apply(s, steps[0])) && MutexInv(Apply(s, steps[0]))
    ensures AllAllowed(Apply(s, steps[0]), steps[1..]) && NoInit(steps[1..])
  {
    StepMutexInv(s, steps[0]);
  }

  /** From boot, a mutex excludes throughout a run iff the processor never goes to a task woken from it
      while it is held. */
  lemma ExclusionOverRuns(steps: seq<Step>, m: nat)
    requires AllAllowed(Boot(), steps) && NoInit(steps) && m < MAX_MUTEXES
    ensures Excludes(Boot(), steps, m) <==> !SomeOverlap(Boot(), steps, m)
  {
    BootInv();
    BootFacts();
    BootMutexInv();
    ExcludesIff(Boot(), steps, m);
  }

  // ---------- a sufficient condition: no fast-path lock overtakes a woken task

  ghost predicate SomeBarging(s: Sched, steps: seq<Step>, m: nat)
    requires WF(s) && m < MAX_MUTEXES
    decreases steps
  {
    steps != [] && (Barges(s, steps[0], m) || SomeBarging(Apply(s, steps[0]), steps[1..], m))
  }

  lemma {:induction false} NoBargingExcludes(s: Sched, steps: seq<Step>, m: nat)
    requires Inv(s) && MutexInv(s) && AllAllowed(s, steps) && NoInit(steps) && m < MAX_MUTEXES
    requires Occurs(s.log, Barged(m)) == 0 && !SomeBarging(s, steps, m)
    ensures Excludes(s, steps, m)
    decreases steps
  {
    assert Bal(s, m);
    if steps != [] {
      OneStepInv(s, steps);
      StepLog(s, steps[0], m);
      NoBargingExcludes(Apply(s, steps[0]), steps[1..], m);
    }
  }

  lemma NoBargingFromBoot(steps: seq<Step>, m: nat)
    requires AllAllowed(Boot(), steps) && NoInit(steps) && m < MAX_MUTEXES && !SomeBarging(Boot(), steps, m)
    ensures Excludes(Boot(), steps, m)
  {
    BootInv();
    BootFacts();
    BootMutexInv();
    NoBargingExcludes(Boot(), steps, m);
  }

  // ---------- leading from state to state

  /** From s the steps, all of them possible and none an initialisation, lead to r. */
  ghost predicate Leads(s: Sched, steps: seq<Step>, r: Sched)
    requires WF(s)
  {
    AllAllowed(s, steps) && NoInit(steps) && Run(s, steps) == r
  }

  lemma LeadsByOne(s: Sched, a: Step)
    requires WF(s) && Allowed(s, a) && !a.InitMutexCall?
    ensures Leads(s, [a], Apply(s, a))
  {
    RunOne(s, a);
  }

  lemma LeadsOnlyTo(s: Sched, a: Step, r: Sched)
    requires WF(s) && Leads(s, [a], r)
    ensures Apply(s, a) == r && Allowed(s, a) && !a.InitMutexCall?
  {
    RunOne(s, a);
    assert [a][0] == a;
  }

  lemma {:induction false} LeadsOn(s: Sched, x: seq<Step>, t: Sched, y: seq<Step>, r: Sched)
    requires WF(s) && WF(t) && Leads(s, x, t) && Leads(t, y, r)
    ensures Leads(s, x + y, r)
    decreases x
  {
    hide Apply;
    if x == [] {
      assert x + y == y;
    } else {
      assert (x + y)[1..] == x[1..] + y;
      LeadsOn(Apply(s, x[0]), x[1..], t, y, r);
    }
  }

  lemma LeadsInv(s: Sched, steps: seq<Step>, r: Sched)
    requires Inv(s) && MutexInv(s) && Leads(s, steps, r)
    ensures Inv(r) && MutexInv(r)
  {
    RunInv(s, steps);
    RunBal(s, steps);
  }

  function TickSteps(n: nat): seq<Step> {
    if n == 0 then [] else [ClockTick] + TickSteps(n - 1)
  }

  /** Ticks within a slice only count it down. */
  lemma {:induction false} LeadsByTicks(s: Sched, n: nat)
    requires WF(s) && s.cur != IDLE && n < s.ticks
    ensures Leads(s, TickSteps(n), s.(ticks := s.ticks - n))
    decreases n
  {
    if n > 0 {
      LeadsByOne(s, ClockTick);
      LeadsByTicks(Tick(s), n - 1);
      LeadsOn(s, [ClockTick], Tick(s), TickSteps(n - 1), s.(ticks := s.ticks - n));
    }
  }

  lemma ExcludesOn(s: Sched, a: Step, t: Sched, steps: seq<Step>, m: nat)
    requires WF(s) && WF(t) && Leads(s, [a], t) && m < MAX_MUTEXES && s.count[m] <= 1 && Excludes(t, steps, m)
    ensures Excludes(s, [a] + steps, m)
  {
    LeadsOnlyTo(s, a, t);
    assert ([a] + steps)[1..] == steps;
  }

  lemma BargingOn(s: Sched, a: Step, t: Sched, steps: seq<Step>, m: nat)
    requires WF(s) && WF(t) && Leads(s, [a], t) && m < MAX_MUTEXES && (Barges(s, a, m) || SomeBarging(t, steps, m))
    ensures SomeBarging(s, [a] + steps, m)
  {
    LeadsOnlyTo(s, a, t);
    assert ([a] + steps)[1..] == steps;
  }

  // ---------- where exclusion fails: unlock, lock again, and give up the processor

  lemma Unlocked(s: Sched, m: nat) returns (u: Sched)
    requires Inv(s) && s.cur != IDLE && m < MAX_MUTEXES && s.count[m] == 1 && s.q[MutexQueue(m)] != []
    ensures WF(u) && Leads(s, [UnlockCall(m)], u)
    ensures u.cur == s.cur && u.ticks == s.ticks && u.task == s.task && u.count[m] == 0
    ensures u.q[READY] == [s.q[MutexQueue(m)][0]] + s.q[READY] && HeadWoken(u, m)
  {
    u := Unlock(s, m);
    LeadsByOne(s, UnlockCall(m));
    assert Fits(MutexQueue(m), s.task[s.q[MutexQueue(m)][0]]);
  }

  lemma FastLocked(u: Sched, m: nat) returns (r: Sched)
    requires WF(u) && u.cur != IDLE && m < MAX_MUTEXES && u.count[m] == 0
    ensures WF(r) && Leads(u, [LockCall(m)], r)
    ensures r.cur == u.cur && r.ticks == u.ticks && r.task == u.task && r.count[m] == 1 && r.q == u.q
  {
    r := Lock(u, m);
    LeadsByOne(u, LockCall(m));
  }

  /** A holder with a sleeper behind it unlocks and locks again. */
  lemma LockedAgain(s: Sched, m: nat) returns (u: Sched, r: Sched)
    requires Inv(s) && s.cur != IDLE && m < MAX_MUTEXES && s.count[m] == 1 && s.q[MutexQueue(m)] != []
    ensures WF(u) && Leads(s, [UnlockCall(m)], u) && u.count[m] == 0 && HeadWoken(u, m)
    ensures WF(r) && Leads(u, [LockCall(m)], r) && r.cur == s.cur && r.ticks == s.ticks && r.count[m] == 1
    ensures r.q[READY] == [s.q[MutexQueue(m)][0]] + s.q[READY] && HeadWoken(r, m)
    ensures Leads(s, [UnlockCall(m)] + [LockCall(m)], r)
  {
    u := Unlocked(s, m);
    r := FastLocked(u, m);
    LeadsOn(s, [UnlockCall(m)], u, [LockCall(m)], r);
  }

  /** After any step with which it then gives up the processor, both hold the mutex. */
  lemma BargingGivesTwoHolds(s: Sched, m: nat, r: Sched, a: Step)
    requires Inv(s) && MutexInv(s) && s.cur != IDLE
    requires m < MAX_MUTEXES && s.count[m] == 1 && s.q[MutexQueue(m)] != []
    requires Leads(s, [UnlockCall(m)] + [LockCall(m)], r) && WF(r) && Allowed(r, a) && GivesUp(r, a)
    ensures Overlaps(r, a, m) && Apply(r, a).count[m] == 2
  {
    var u, r' := LockedAgain(s, m);
    LeadsInv(s, [UnlockCall(m)] + [LockCall(m)], r);
    StepCount(r, a, m);
  }

  lemma OvertakenUnlock(r: Sched, m: nat) returns (v: Sched)
    requires WF(r) && r.cur != IDLE && m < MAX_MUTEXES && r.count[m] == 1
    ensures WF(v) && Leads(r, [UnlockCall(m)], v) && v.count[m] == 0
  {
    v := Unlock(r, m);
    LeadsByOne(r, UnlockCall(m));
  }

  /** Overtaking alone does no harm: if the holder unlocks once more before it gives up the processor, the
      woken task finds the mutex free. */
  lemma BargingCanBeHarmless(s: Sched, m: nat)
    requires Inv(s) && s.cur != IDLE && m < MAX_MUTEXES && s.count[m] == 1 && s.q[MutexQueue(m)] != []
    ensures var steps := [UnlockCall(m)] + ([LockCall(m)] + [UnlockCall(m)]);
            AllAllowed(s, steps) && NoInit(steps) && SomeBarging(s, steps, m) && Excludes(s, steps, m)
  {
    var u, r := LockedAgain(s, m);
    var v := OvertakenUnlock(r, m);
    var last := [UnlockCall(m)];
    LeadsOn(u, [LockCall(m)], r, last, v);
    LeadsOn(s, [UnlockCall(m)], u, [LockCall(m)] + last, v);
    assert last + [] == last;
    ExcludesOn(r, UnlockCall(m), v, [], m);
    ExcludesOn(u, LockCall(m), r, last, m);
    ExcludesOn(s, UnlockCall(m), u, [LockCall(m)] + last, m);
    NoneWoken(u.q[READY], u.task, m);
    BargingOn(u, LockCall(m), r, last, m);
    BargingOn(s, UnlockCall(m), u, [LockCall(m)] + last, m);
  }

  // ---------- the failure is reachable

  /** The first process creates a thread and locks mutex 0. */
  lemma ThreadReady(s: Sched) returns (r: Sched)
    requires WF(s) && s.cur == 1 && s.ticks == INIT_QUANTUM && s.q[FREE] != [] && s.q[FREE][0] == 2
    requires s.q[READY] == [] && s.q[MutexQueue(0)] == [] && s.count[0] == 0
    requires s.task[1] == Task(1, 1, INIT_QUANTUM, 0, User)
    ensures WF(r) && Leads(s, [CreateThreadCall] + [LockCall(0)], r)
    ensures r.cur == 1 && r.ticks == INIT_QUANTUM && r.q[READY] == [2] && r.q[MutexQueue(0)] == [] && r.count[0] == 1
    ensures r.task[1] == r.task[2] == Task(1, 1, INIT_QUANTUM, 0, User)
  {
    var t := CreateThread(s);
    LeadsByOne(s, CreateThreadCall);
    r := FastLocked(t, 0);
    LeadsOn(s, [CreateThreadCall], t, [LockCall(0)], r);
  }

  lemma ThreadRuns(s: Sched) returns (r: Sched)
    requires WF(s) && s.cur == 1 && s.ticks == 1 && s.q[READY] == [2] && s.q[MutexQueue(0)] == [] && s.count[0] == 1
    requires s.task[1] == s.task[2] == Task(1, 1, INIT_QUANTUM, 0, User)
    ensures WF(r) && Leads(s, [ClockTick], r)
    ensures r.cur == 2 && r.q[READY] == [1] && r.q[MutexQueue(0)] == [] && r.count[0] == 1
    ensures r.task[1] == r.task[2] == Task(1, 1, INIT_QUANTUM, 0, User)
  {
    r := Tick(s);
    LeadsByOne(s, ClockTick);
  }

  lemma ThreadSleeps(s: Sched) returns (r: Sched)
    requires WF(s) && s.cur == 2 && s.q[READY] == [1] && s.q[MutexQueue(0)] == [] && s.count[0] == 1
    requires s.task[1] == s.task[2] == Task(1, 1, INIT_QUANTUM, 0, User)
    ensures WF(r) && Leads(s, [LockCall(0)], r)
    ensures r.cur == 1 && r.ticks == INIT_QUANTUM && r.q[MutexQueue(0)] == [2] && r.count[0] == 1
  {
    r := Lock(s, 0);
    LeadsByOne(s, LockCall(0));
  }

  function ToThread(): seq<Step> {
    [CreateThreadCall] + [LockCall(0)] + TickSteps(9)
  }

  /** A thread is ready, its creator holds mutex 0 and is in the last tick of its slice. */
  lemma ThreadWaits(s: Sched) returns (r: Sched)
    requires WF(s) && s.cur == 1 && s.ticks == INIT_QUANTUM && s.q[FREE] != [] && s.q[FREE][0] == 2
    requires s.q[READY] == [] && s.q[MutexQueue(0)] == [] && s.count[0] == 0
    requires s.task[1] == Task(1, 1, INIT_QUANTUM, 0, User)
    ensures WF(r) && Leads(s, ToThread(), r)
    ensures r.cur == 1 && r.ticks == 1 && r.q[READY] == [2] && r.q[MutexQueue(0)] == [] && r.count[0] == 1
    ensures r.task[1] == r.task[2] == Task(1, 1, INIT_QUANTUM, 0, User)
  {
    var t := ThreadReady(s);
    LeadsByTicks(t, 9);
    r := t.(ticks := 1);
    LeadsOn(s, [CreateThreadCall] + [LockCall(0)], t, TickSteps(9), r);
  }

  function ToSleeper(): seq<Step> {
    [ClockTick] + [LockCall(0)] + TickSteps(9)
  }

  /** The thread sleeps on the mutex, whose holder is again in the last tick of its slice. */
  lemma ThreadAsleep(s: Sched) returns (r: Sched)
    requires WF(s) && s.cur == 1 && s.ticks == 1 && s.q[READY] == [2] && s.q[MutexQueue(0)] == [] && s.count[0] == 1
    requires s.task[1] == s.task[2] == Task(1, 1, INIT_QUANTUM, 0, User)
    ensures WF(r) && Leads(s, ToSleeper(), r)
    ensures r.cur == 1 && r.ticks == 1 && r.count[0] == 1 && r.q[MutexQueue(0)] == [2]
  {
    var t := ThreadRuns(s);
    var u := ThreadSleeps(t);
    LeadsOn(s, [ClockTick], t, [LockCall(0)], u);
    LeadsByTicks(u, 9);
    r := u.(ticks := 1);
    LeadsOn(s, [ClockTick] + [LockCall(0)], u, TickSteps(9), r);
  }

  /** Unlock, lock again, and the end of the slice. */
  lemma ToTwoHolds(s: Sched) returns (r: Sched)
    requires Inv(s) && MutexInv(s) && s.cur == 1 && s.ticks == 1 && s.count[0] == 1 && s.q[MutexQueue(0)] == [2]
    ensures WF(r) && Leads(s, [UnlockCall(0)] + [LockCall(0)] + [ClockTick], r) && r.count[0] == 2
  {
    var u, t := LockedAgain(s, 0);
    BargingGivesTwoHolds(s, 0, t, ClockTick);
    r := Tick(t);
    LeadsByOne(t, ClockTick);
    LeadsOn(s, [UnlockCall(0)] + [LockCall(0)], t, [ClockTick], r);
  }

  /** The first process creates a thread and locks; the thread runs into the mutex; the process unlocks,
      locks again, and its slice ends. */
  function ToBothHold(): seq<Step> {
    ToThread() + ToSleeper() + ([UnlockCall(0)] + [LockCall(0)] + [ClockTick])
  }

  lemma BothHold(s: Sched) returns (r: Sched)
    requires Inv(s) && MutexInv(s) && s.cur == 1 && s.ticks == INIT_QUANTUM && s.q[FREE] != [] && s.q[FREE][0] == 2
    requires s.q[READY] == [] && s.q[MutexQueue(0)] == [] && s.count[0] == 0
    requires s.task[1] == Task(1, 1, INIT_QUANTUM, 0, User)
    ensures WF(r) && Leads(s, ToBothHold(), r) && r.count[0] == 2
  {
    var t := ThreadWaits(s);
    var u := ThreadAsleep(t);
    LeadsOn(s, ToThread(), t, ToSleeper(), u);
    LeadsInv(s, ToThread() + ToSleeper(), u);
    r := ToTwoHolds(u);
    LeadsOn(s, ToThread() + ToSleeper(), u, [UnlockCall(0)] + [LockCall(0)] + [ClockTick], r);
  }

  /** Two holds are reachable from boot. */
  lemma TwoHoldsAreReachable()
    ensures AllAllowed(Boot(), ToBothHold()) && NoInit(ToBothHold()) && Run(Boot(), ToBothHold()).count[0] == 2
  {
    BootState();
    BootInv();
    BootMutexInv();
    var r := BothHold(Boot());
  }

  // ---------- sys_mutex_init on a mutex in use

  /** Initialising a mutex keeps its invariant exactly when nobody holds it. */
  lemma InitKeepsBalanceIff(s: Sched, m: nat)
    requires WF(s) && m < MAX_MUTEXES && Bal(s, m)
    ensures Bal(InitMutex(s, m), m) <==> s.count[m] == 0
  {
    var r := InitMutex(s, m);
    assert r.q == s.q && r.task == s.task && r.log == s.log;
  }

  /** With a holder and a sleeper, the holder's unlock then wakes nobody; only another lock and its unlock
      wake the sleeper. */
  lemma InitDelaysSleeper(s: Sched, m: nat)
    requires WF(s) && m < MAX_MUTEXES && s.count[m] > 0 && s.q[MutexQueue(m)] != []
    ensures var r, t := InitMutex(s, m), s.q[MutexQueue(m)][0];
            && Unlock(s, m).q[READY] == [t] + s.q[READY]
            && Unlock(r, m) == r
            && Lock(r, m).cur == s.cur && Lock(r, m).q == s.q
            && Unlock(Lock(r, m), m).q[READY] == [t] + s.q[READY]
  {
  }
}
