// How long a ready task waits: exactly, under the clock alone; at most, under any interleaving.

module RoundRobin {
  import opened Common
  import opened SchedSpec
  import opened Partition
  import opened PartitionRuns
  import opened Moves

  /** The quanta of the tasks in x, added up. */
  ghost function Slices(x: seq<nat>, task: seq<Task>): nat {
    if x == [] then 0 else (if x[0] < |task| then task[x[0]].quantum else 0) + Slices(x[1..], task)
  }

  /** The waiting time of the task at position k: what is left of the running slice, then the slices ahead. */
  ghost function Wait(s: Sched, k: nat): int
    requires WF(s) && k <= |s.q[READY]|
  {
    s.ticks + Slices(s.q[READY][..k], s.task)
  }

  lemma {:induction false} SlicesSetTask(x: seq<nat>, task: seq<Task>, t: nat, y: Task)
    requires t < |task| && (t in x ==> y.quantum == task[t].quantum)
    ensures Slices(x, task[t := y]) == Slices(x, task)
  {
    if x != [] {
      SlicesSetTask(x[1..], task, t, y);
    }
  }

  // ---------- one switch

  /** A switch makes the head run and moves everybody else one place up. */
  lemma SwitchAdvances(s: Sched, k: nat)
    requires ReadyToSwitch(s) && k < |s.q[READY]|
    ensures var r, t := SchedNext(s), s.q[READY][k];
            if k == 0 then r.cur == t
            else k - 1 < |r.q[READY]| && r.q[READY][k - 1] == t && Wait(r, k - 1) == Wait(s, k) - s.ticks
  {
    var r, x := SchedNext(s), s.q[READY][..k];
    TakeFirstReady(s.q);
    var head := s.q[READY][0];
    assert r.q[READY] == s.q[READY][1..];
    if k > 0 {
      assert x[0] == head && x[1..] == r.q[READY][..k - 1];
      SlicesSetTask(x[1..], s.task, head, s.task[head].(resume := User));
    }
  }

  // ---------- the clock alone

  /** Who has the processor now and after each of the next n ticks. */
  ghost function CpuTrace(s: Sched, n: nat): (r: seq<nat>)
    requires WF(s)
    ensures |r| == n + 1
    decreases n
  {
    [s.cur] + if n == 0 then [] else CpuTrace(Tick(s), n - 1)
  }

  /** One tick brings the task at position k one tick nearer. */
  lemma TickAdvances(s: Sched, k: nat)
    requires Inv(s) && s.cur != IDLE && k < |s.q[READY]|
    ensures var r, t := Tick(s), s.q[READY][k];
            if Wait(s, k) == 1 then r.cur == t
            else exists k' :: 0 <= k' < |r.q[READY]| && r.q[READY][k'] == t && Wait(r, k') == Wait(s, k) - 1
                              && r.cur != IDLE && r.cur != t
  {
    var t := s.q[READY][k];
    TickInv(s);
    if s.ticks > 1 {
      QueuedNotRunning(s, k);
      var r := Tick(s);
      assert r.q[READY][k] == t && Wait(r, k) == Wait(s, k) - 1;
    } else {
      TickSwitches(s, k);
    }
  }

  lemma QueuedNotRunning(s: Sched, k: nat)
    requires Inv(s) && k < |s.q[READY]|
    ensures s.q[READY][k] != s.cur
  {
    OccMember(s.q, READY, k);
  }

  lemma {:induction false} PositiveSlice(x: seq<nat>, task: seq<Task>)
    requires x != [] && x[0] < |task| && task[x[0]].quantum > 0
    ensures Slices(x, task) > 0
  {
  }

  /** The last tick of a slice. */
  lemma TickSwitches(s: Sched, k: nat)
    requires Inv(s) && s.cur != IDLE && k < |s.q[READY]| && s.ticks == 1
    ensures var r, t := Tick(s), s.q[READY][k];
            && (k == 0 <==> Wait(s, k) == 1)
            && (k == 0 ==> r.cur == t)
            && (k > 0 ==> k - 1 < |r.q[READY]| && r.q[READY][k - 1] == t && Wait(r, k - 1) == Wait(s, k) - 1
                          && r.cur != IDLE && r.cur != t)
  {
    var s1 := s.(ticks := 0);
    var s2 := Append(s1, READY, s.cur);
    VacateInv(s, READY, s.task[s.cur]);
    assert s.task[s.cur := s.task[s.cur]] == s.task;
    assert s2.q[READY][..k] == s.q[READY][..k] && s2.q[READY][k] == s.q[READY][k];
    SwitchAdvances(s2, k);
    TakeFirstReady(s2.q);
    if k > 0 {
      DropFirstFits(s.q, s.task, READY);
      PositiveSlice(s.q[READY][..k], s.task);
      SchedNextInv(s2);
      QueuedNotRunning(Tick(s), k - 1);
    }
  }

  /** t first gets the processor after exactly w ticks. */
  ghost predicate FirstRunsAfter(s: Sched, t: nat, w: nat)
    requires WF(s)
  {
    FirstAt(CpuTrace(s, w), t, w)
  }

  predicate FirstAt(x: seq<nat>, t: nat, w: nat) {
    w < |x| && x[w] == t && forall j :: 0 <= j < w ==> x[j] != t
  }

  lemma FirstAtOneLater(c: nat, x: seq<nat>, t: nat, w: nat)
    requires c != t && FirstAt(x, t, w)
    ensures FirstAt([c] + x, t, w + 1)
  {
  }

  /** t is in the ready queue with waiting time w. */
  ghost predicate WaitsFor(s: Sched, t: nat, w: int)
    requires WF(s)
  {
    exists k :: 0 <= k < |s.q[READY]| && s.q[READY][k] == t && Wait(s, k) == w
  }

  lemma AfterOneTick(s: Sched, t: nat, w: int)
    requires Inv(s) && s.cur != IDLE && WaitsFor(s, t, w)
    ensures Inv(Tick(s)) && s.cur != t && w >= 1
    ensures if w == 1 then Tick(s).cur == t else Tick(s).cur != IDLE && WaitsFor(Tick(s), t, w - 1)
  {
    var k :| 0 <= k < |s.q[READY]| && s.q[READY][k] == t && Wait(s, k) == w;
    TickAdvances(s, k);
    TickInv(s);
    QueuedNotRunning(s, k);
  }

  lemma {:induction false} ExactWaitOf(s: Sched, t: nat, w: int)
    requires Inv(s) && s.cur != IDLE && WaitsFor(s, t, w)
    ensures w >= 1 && FirstRunsAfter(s, t, w)
    decreases w
  {
    hide WaitsFor, Tick;
    AfterOneTick(s, t, w);
    if w > 1 {
      ExactWaitOf(Tick(s), t, w - 1);
    }
    FirstAtOneLater(s.cur, CpuTrace(Tick(s), w - 1), t, w - 1);
  }

  /** Under the clock alone, the task at position k first runs after exactly Wait(s, k) ticks. */
  lemma ExactWait(s: Sched, k: nat)
    requires Inv(s) && s.cur != IDLE && k < |s.q[READY]|
    ensures Wait(s, k) >= 1 && FirstRunsAfter(s, s.q[READY][k], Wait(s, k))
  {
    ExactWaitOf(s, s.q[READY][k], Wait(s, k));
  }

  /** A task woken by an unlock has the processor as soon as the running slice is over. */
  lemma WokenRunsNext(s: Sched, m: nat)
    requires Inv(s) && s.cur != IDLE && m < MAX_MUTEXES && s.count[m] > 0 && s.q[MutexQueue(m)] != []
    ensures s.ticks > 0 && FirstRunsAfter(Unlock(s, m), s.q[MutexQueue(m)][0], s.ticks)
  {
    UnlockInv(s, m);
    var r := Unlock(s, m);
    assert r.q[READY][0] == s.q[MutexQueue(m)][0] && r.ticks == s.ticks;
    assert Wait(r, 0) == s.ticks;
    ExactWait(r, 0);
  }

  // ---------- any interleaving

  /** The quantum of the task that an unlock puts at the head of the ready queue, ahead of everybody. */
  ghost function Boost(s: Sched, a: Step): nat
    requires WF(s)
  {
    if WakesSleeper(s, a) then s.task[s.q[MutexQueue(a.m)][0]].quantum else 0
  }

  /** t has run, or its waiting time went down by the tick and up by at most the boost. */
  ghost predicate Advanced(r: Sched, t: nat, bound: int)
    requires WF(r)
  {
    r.cur == t || exists k :: 0 <= k < |r.q[READY]| && r.q[READY][k] == t && Wait(r, k) <= bound
  }

  /** A switch that follows the queueing of the running task elsewhere. */
  lemma SwitchKeepsBound(s: Sched, k: nat, bound: int)
    requires ReadyToSwitch(s) && k < |s.q[READY]| && s.ticks >= 0 && Wait(s, k) <= bound
    ensures Advanced(SchedNext(s), s.q[READY][k], bound)
  {
    SwitchAdvances(s, k);
    var r := SchedNext(s);
    assert k > 0 ==> r.q[READY][k - 1] == s.q[READY][k];
  }

  /** The ready queue only grew at its end and no quantum in it changed. */
  lemma StillWaiting(s: Sched, r: Sched, k: nat)
    requires WF(s) && WF(r) && k < |s.q[READY]| && s.q[READY] <= r.q[READY] && r.ticks <= s.ticks
    requires Slices(s.q[READY][..k], r.task) == Slices(s.q[READY][..k], s.task)
    ensures k < |r.q[READY]| && r.q[READY][k] == s.q[READY][k] && Wait(r, k) <= Wait(s, k)
    ensures Advanced(r, s.q[READY][k], Wait(s, k))
  {
    assert r.q[READY][..k] == s.q[READY][..k];
  }

  lemma ChildNotReady(s: Sched)
    requires Inv(s) && s.q[FREE] != []
    ensures s.q[FREE][0] !in s.q[READY]
  {
    var child := s.q[FREE][0];
    QueuedIsElsewhere(s.q, s.cur, FREE);
    if child in s.q[READY] {
      var i :| 0 <= i < |s.q[READY]| && s.q[READY][i] == child;
      OccMember(s.q[FREE := s.q[FREE][1..]], READY, i);
    }
  }

  lemma CreateAdvances(s: Sched, a: Step, k: nat)
    requires Inv(s) && s.cur != IDLE && k < |s.q[READY]| && (a.ForkCall? || a.CreateThreadCall?)
    ensures Advanced(Apply(s, a), s.q[READY][k], Wait(s, k))
  {
    var r := Apply(s, a);
    if s.q[FREE] == [] {
      StillWaiting(s, s, k);
    } else {
      var child := s.q[FREE][0];
      assert r.task == s.task[child := r.task[child]] && r.ticks == s.ticks && s.q[READY] <= r.q[READY];
      ChildNotReady(s);
      SlicesSetTask(s.q[READY][..k], s.task, child, r.task[child]);
      StillWaiting(s, r, k);
    }
  }

  lemma ExitAdvances(s: Sched, k: nat)
    requires Inv(s) && s.cur != IDLE && k < |s.q[READY]|
    ensures Advanced(Exit(s), s.q[READY][k], Wait(s, k))
  {
    VacateInv(s, FREE, s.task[s.cur]);
    assert s.task[s.cur := s.task[s.cur]] == s.task;
    SwitchKeepsBound(Leave(s), k, Wait(s, k));
  }

  lemma LockAdvances(s: Sched, m: int, k: nat)
    requires Inv(s) && s.cur != IDLE && k < |s.q[READY]|
    ensures Advanced(Lock(s, m), s.q[READY][k], Wait(s, k))
  {
    if Usable(s, m) && s.count[m] >= 1 {
      var x := s.task[s.cur].(resume := Locking(m));
      VacateInv(s, MutexQueue(m), x);
      SlicesSetTask(s.q[READY][..k], s.task, s.cur, x);
      SwitchKeepsBound(Record(Append(SetTask(s, s.cur, x), MutexQueue(m), s.cur), Queued(m, s.cur)), k, Wait(s, k));
    } else {
      StillWaiting(s, Lock(s, m), k);
    }
  }

  lemma UnlockAdvances(s: Sched, m: int, k: nat)
    requires Inv(s) && s.cur != IDLE && k < |s.q[READY]|
    ensures Advanced(Unlock(s, m), s.q[READY][k], Wait(s, k) + Boost(s, UnlockCall(m)))
  {
    var r := Unlock(s, m);
    if Boost(s, UnlockCall(m)) == 0 && r.q[READY] == s.q[READY] {
      StillWaiting(s, r, k);
    } else {
      var y := r.q[READY][..k + 1];
      assert r.q[READY][k + 1] == s.q[READY][k];
      assert y[1..] == s.q[READY][..k];
      assert Wait(r, k + 1) == Wait(s, k) + Boost(s, UnlockCall(m));
    }
  }

  lemma ReadAdvances(s: Sched, n: int, k: nat)
    requires Inv(s) && s.cur != IDLE && k < |s.q[READY]|
    ensures Advanced(Read(s, n), s.q[READY][k], Wait(s, k))
  {
    if n > 0 {
      var left := LeftAtEntry(s, n);
      var x := s.task[s.cur].(toRead := left, resume := if left > 0 then Reading else User);
      var s1 := Entered(s, n);
      SlicesSetTask(s.q[READY][..k], s.task, s.cur, x);
      if left > 0 {
        VacateInv(s1, BLOCKED, x);
        SwitchKeepsBound(Block(s1, x), k, Wait(s, k));
      } else {
        StillWaiting(s, SetTask(s1, s.cur, x), k);
      }
    } else {
      StillWaiting(s, s, k);
    }
  }

  lemma KeyAdvances(s: Sched, c: char, k: nat)
    requires Inv(s) && c != '\0' && s.cur != IDLE && k < |s.q[READY]|
    ensures Advanced(Key(s, c), s.q[READY][k], Wait(s, k))
  {
    var r, x := Key(s, c), s.q[READY][..k];
    if s.q[BLOCKED] == [] {
      StillWaiting(s, r, k);
    } else {
      var t, s2 := s.q[BLOCKED][0], Counted(s, c);
      DropFirstFits(s.q, s.task, BLOCKED);
      SlicesSetTask(x, s.task, t, s2.task[t]);
      if Wakes(s, c) && s.task[t].toRead > 1 {
        CountedInv(s, c);
        HandedOverReady(s2);
        var s3 := HandedOver(s2);
        StillWaiting(s, s3, k);
        SwitchKeepsBound(s3, k, Wait(s, k));
      } else {
        SlicesSetTask(x, s2.task, t, r.task[t]);
        StillWaiting(s, r, k);
      }
    }
  }

  /** Any step. */
  lemma StepAdvances(s: Sched, a: Step, k: nat)
    requires Inv(s) && Allowed(s, a) && k < |s.q[READY]|
    ensures Advanced(Apply(s, a), s.q[READY][k], Wait(s, k) + Boost(s, a) - if a.ClockTick? then 1 else 0)
  {
    match a
    case ClockTick => TickAdvances(s, k);
    case ForkCall(ok) => CreateAdvances(s, a, k);
    case CreateThreadCall => CreateAdvances(s, a, k);
    case ExitCall => ExitAdvances(s, k);
    case InitMutexCall(m) => StillWaiting(s, InitMutex(s, m), k);
    case LockCall(m) => LockAdvances(s, m, k);
    case UnlockCall(m) => UnlockAdvances(s, m, k);
    case ReadCall(n) => ReadAdvances(s, n, k);
    case KeyPress(c) => KeyAdvances(s, c, k);
  }

  // ---------- whole runs

  ghost function TickCount(steps: seq<Step>): nat {
    if steps == [] then 0 else (if steps[0].ClockTick? then 1 else 0) + TickCount(steps[1..])
  }

  ghost function Boosts(s: Sched, steps: seq<Step>): nat
    requires WF(s)
    decreases steps
  {
    if steps == [] then 0 else Boost(s, steps[0]) + Boosts(Apply(s, steps[0]), steps[1..])
  }

  ghost predicate Dispatched(s: Sched, steps: seq<Step>, t: nat)
    requires WF(s)
    decreases steps
  {
    steps != [] && (Apply(s, steps[0]).cur == t || Dispatched(Apply(s, steps[0]), steps[1..], t))
  }

  lemma WaitIsPositive(s: Sched, k: nat)
    requires Inv(s) && k < |s.q[READY]|
    ensures s.cur != IDLE && Wait(s, k) >= 1
  {
  }

  /** Whatever else happens, a ready task is dispatched before the clock has ticked its waiting time
      plus the slices of the tasks that unlocks put ahead of it. */
  lemma {:induction false} BoundedWait(s: Sched, steps: seq<Step>, k: nat)
    requires Inv(s) && AllAllowed(s, steps) && k < |s.q[READY]|
    requires TickCount(steps) >= Wait(s, k) + Boosts(s, steps)
    ensures Dispatched(s, steps, s.q[READY][k])
    decreases steps
  {
    var t := s.q[READY][k];
    WaitIsPositive(s, k);
    var a, s1 := steps[0], Apply(s, steps[0]);
    StepInv(s, a);
    StepAdvances(s, a, k);
    if s1.cur != t {
      var k' :| 0 <= k' < |s1.q[READY]| && s1.q[READY][k'] == t
                && Wait(s1, k') <= Wait(s, k) + Boost(s, a) - if a.ClockTick? then 1 else 0;
      BoundedWait(s1, steps[1..], k');
    }
  }

  /** From boot on, idle runs only when no task is ready. */
  lemma IdleRunsOnlyWhenNothingIsReady(steps: seq<Step>)
    requires AllAllowed(Boot(), steps)
    ensures Run(Boot(), steps).cur == IDLE ==> Run(Boot(), steps).q[READY] == []
  {
    BootInv();
    RunInv(Boot(), steps);
  }
}
