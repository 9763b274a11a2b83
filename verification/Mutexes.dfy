// Sleeping and waking on mutexes: no stranded waiter, first-in first-out wake-ups,
// and how far from mutual exclusion a run can drift.

module Mutexes {
  import opened Common
  import opened SchedSpec
  import opened Partition
  import opened PartitionRuns

  // ---------- measures of a state and of a history

  /** How many tasks of x were woken from mutex m and have not been dispatched since. */
  ghost function WokenIn(x: seq<nat>, task: seq<Task>, m: nat): nat {
    if x == [] then 0 else (if IsWoken(task, m, x[0]) then 1 else 0) + WokenIn(x[1..], task, m)
  }

  ghost function Woken(s: Sched, m: nat): nat
    requires WF(s)
  {
    WokenIn(s.q[READY], s.task, m)
  }

  /** The tasks that went to sleep on m, in order. */
  ghost function Sleepers(log: seq<Event>, m: nat): seq<nat> {
    if log == [] then []
    else
      var e := log[|log| - 1];
      Sleepers(log[..|log| - 1], m) + if e.Queued? && e.m == m then [e.t] else []
  }

  /** The tasks that were woken from m, in order. */
  ghost function Wakeups(log: seq<Event>, m: nat): seq<nat> {
    if log == [] then []
    else
      var e := log[|log| - 1];
      Wakeups(log[..|log| - 1], m) + if e.WokenUp? && e.m == m then [e.t] else []
  }

  lemma LogGrows(log: seq<Event>, e: Event, m: nat)
    ensures Sleepers(log + [e], m) == Sleepers(log, m) + if e.Queued? && e.m == m then [e.t] else []
    ensures Wakeups(log + [e], m) == Wakeups(log, m) + if e.WokenUp? && e.m == m then [e.t] else []
  {
    assert (log + [e])[..|log|] == log;
  }

  lemma {:induction false} WokenInAppend(x: seq<nat>, t: nat, task: seq<Task>, m: nat)
    ensures WokenIn(x + [t], task, m) == WokenIn(x, task, m) + if IsWoken(task, m, t) then 1 else 0
  {
    if x == [] {
      assert (x + [t])[1..] == [];
    } else {
      WokenInAppend(x[1..], t, task, m);
      assert (x + [t])[1..] == x[1..] + [t];
    }
  }

  lemma {:induction false} WokenInSetTask(x: seq<nat>, task: seq<Task>, t: nat, y: Task, m: nat)
    requires t < |task| && t !in x
    ensures WokenIn(x, task[t := y], m) == WokenIn(x, task, m)
  {
    if x != [] {
      WokenInSetTask(x[1..], task, t, y, m);
    }
  }

  lemma NotInQueue(q: seq<seq<nat>>, d: nat, t: nat)
    requires d < |q| && Occ(q, t) == 0
    ensures t !in q[d]
  {
    if t in q[d] {
      var i :| 0 <= i < |q[d]| && q[d][i] == t;
      OccMember(q, d, i);
    }
  }

  // ---------- the invariant

  ghost predicate Balanced(m: nat, count: int, woken: nat, waiting: seq<nat>, log: seq<Event>) {
    // count is the completed locks minus the effective unlocks
    && count == Occurs(log, Locked(m)) - Occurs(log, Unlocked(m)) && count >= 0
    // nobody sleeps unless a holder or a woken task is left to wake him
    && (waiting != [] ==> count + woken >= 1)
    // every lock beyond the first is paid for by a fast-path lock that overtook a woken task
    && count + woken <= 1 + Occurs(log, Barged(m))
    // wake-ups happen in the order of falling asleep
    && Sleepers(log, m) == Wakeups(log, m) + waiting
  }

  ghost predicate Bal(s: Sched, m: nat)
    requires WF(s) && m < MAX_MUTEXES
  {
    Balanced(m, s.count[m], Woken(s, m), s.q[MutexQueue(m)], s.log)
  }

  // ---------- the balance, event by event

  predicate About(e: Event, m: nat) {
    !e.PagesFreed? && e.m == m
  }

  lemma OtherEvent(m: nat, count: int, woken: nat, waiting: seq<nat>, log: seq<Event>, e: Event)
    requires Balanced(m, count, woken, waiting, log) && !About(e, m)
    ensures Balanced(m, count, woken, waiting, log + [e])
  {
    LogGrows(log, e, m);
  }

  lemma TwoOtherEvents(m: nat, count: int, woken: nat, waiting: seq<nat>, log: seq<Event>, e1: Event, e2: Event)
    requires Balanced(m, count, woken, waiting, log) && !About(e1, m) && !About(e2, m)
    ensures Balanced(m, count, woken, waiting, log + [e2]) && Balanced(m, count, woken, waiting, log + [e1] + [e2])
  {
    OtherEvent(m, count, woken, waiting, log, e2);
    OtherEvent(m, count, woken, waiting, log, e1);
    OtherEvent(m, count, woken, waiting, log + [e1], e2);
  }

  lemma DispatchEvent(m: nat, count: int, woken: nat, waiting: seq<nat>, log: seq<Event>)
    requires Balanced(m, count, woken, waiting, log) && woken > 0
    ensures Balanced(m, count + 1, woken - 1, waiting, log + [Locked(m)])
  {
    LogGrows(log, Locked(m), m);
  }

  lemma SleepEvent(m: nat, count: int, woken: nat, waiting: seq<nat>, log: seq<Event>, t: nat)
    requires Balanced(m, count, woken, waiting, log) && count > 0
    ensures Balanced(m, count, woken, waiting + [t], log + [Queued(m, t)])
  {
    LogGrows(log, Queued(m, t), m);
    assert Wakeups(log, m) + (waiting + [t]) == Wakeups(log, m) + waiting + [t];
  }

  lemma BargedCount(log: seq<Event>, m: nat)
    ensures Occurs(log + [Barged(m)], Barged(m)) == Occurs(log, Barged(m)) + 1
    ensures Occurs(log + [Barged(m)], Locked(m)) == Occurs(log, Locked(m))
    ensures Occurs(log + [Barged(m)], Unlocked(m)) == Occurs(log, Unlocked(m))
  {
  }

  lemma BargedEvent(m: nat, woken: nat, waiting: seq<nat>, log: seq<Event>)
    requires Balanced(m, 0, woken, waiting, log)
    ensures Balanced(m, 0, woken, waiting, log + [Barged(m)]) && woken <= Occurs(log + [Barged(m)], Barged(m))
  {
    LogGrows(log, Barged(m), m);
    BargedCount(log, m);
  }

  lemma LockedEvent(m: nat, woken: nat, waiting: seq<nat>, log: seq<Event>)
    requires Balanced(m, 0, woken, waiting, log) && woken <= Occurs(log, Barged(m))
    ensures Balanced(m, 1, woken, waiting, log + [Locked(m)])
  {
    LogGrows(log, Locked(m), m);
  }

  lemma FastLockEvent(m: nat, woken: nat, waiting: seq<nat>, log: seq<Event>)
    requires Balanced(m, 0, woken, waiting, log)
    ensures Balanced(m, 1, woken, waiting, (if woken > 0 then log + [Barged(m)] else log) + [Locked(m)])
  {
    if woken > 0 {
      BargedEvent(m, woken, waiting, log);
      LockedEvent(m, woken, waiting, log + [Barged(m)]);
    } else {
      LockedEvent(m, woken, waiting, log);
    }
  }

  lemma UnlockCounts(log: seq<Event>, m: nat)
    ensures Occurs(log + [Unlocked(m)], Unlocked(m)) == Occurs(log, Unlocked(m)) + 1
    ensures Occurs(log + [Unlocked(m)], Locked(m)) == Occurs(log, Locked(m))
    ensures Occurs(log + [Unlocked(m)], Barged(m)) == Occurs(log, Barged(m))
  {
  }

  lemma WakeCounts(log: seq<Event>, m: nat, t: nat)
    ensures Occurs(log + [WokenUp(m, t)], Unlocked(m)) == Occurs(log, Unlocked(m))
    ensures Occurs(log + [WokenUp(m, t)], Locked(m)) == Occurs(log, Locked(m))
    ensures Occurs(log + [WokenUp(m, t)], Barged(m)) == Occurs(log, Barged(m))
  {
  }

  lemma UnlockAlone(m: nat, count: int, woken: nat, log: seq<Event>)
    requires Balanced(m, count, woken, [], log) && count > 0
    ensures Balanced(m, count - 1, woken, [], log + [Unlocked(m)])
  {
    LogGrows(log, Unlocked(m), m);
    UnlockCounts(log, m);
  }

  lemma UnlockAndWake(m: nat, count: int, woken: nat, waiting: seq<nat>, log: seq<Event>)
    requires Balanced(m, count, woken, waiting, log) && count > 0 && waiting != []
    ensures Balanced(m, count - 1, woken + 1, waiting[1..], log + [WokenUp(m, waiting[0])] + [Unlocked(m)])
  {
    var log1 := log + [WokenUp(m, waiting[0])];
    LogGrows(log, WokenUp(m, waiting[0]), m);
    LogGrows(log1, Unlocked(m), m);
    WakeCounts(log, m, waiting[0]);
    UnlockCounts(log1, m);
    assert Wakeups(log, m) + waiting == Wakeups(log, m) + [waiting[0]] + waiting[1..];
  }

  lemma UnlockEvent(m: nat, count: int, woken: nat, waiting: seq<nat>, log: seq<Event>)
    requires Balanced(m, count, woken, waiting, log) && count > 0
    ensures waiting == [] ==> Balanced(m, count - 1, woken, [], log + [Unlocked(m)])
    ensures waiting != [] ==>
              Balanced(m, count - 1, woken + 1, waiting[1..], log + [WokenUp(m, waiting[0])] + [Unlocked(m)])
  {
    if waiting == [] {
      UnlockAlone(m, count, woken, log);
    } else {
      UnlockAndWake(m, count, woken, waiting, log);
    }
  }

  // ---------- one mutex, step by step

  /** The dispatched task leaves the ready queue and, if it was woken from k, completes its lock. */
  lemma ResumeBal(s: Sched, m: nat)
    requires WF(s) && m < MAX_MUTEXES && s.cur !in s.q[READY]
    requires var w := if IsWoken(s.task, m, s.cur) then 1 else 0;
             Balanced(m, s.count[m], Woken(s, m) + w, s.q[MutexQueue(m)], s.log)
    ensures Bal(ResumeCurrent(s), m)
  {
    var x := s.task[s.cur];
    if x.resume.Locking? {
      var k := x.resume.mutex;
      WokenInSetTask(s.q[READY], s.task, s.cur, x.(resume := User), m);
      if k == m {
        DispatchEvent(m, s.count[m], Woken(s, m) + 1, s.q[MutexQueue(m)], s.log);
      } else {
        OtherEvent(m, s.count[m], Woken(s, m), s.q[MutexQueue(m)], s.log, Locked(k));
      }
    }
  }

  lemma SchedNextBal(s: Sched, m: nat)
    requires ReadyToSwitch(s) && m < MAX_MUTEXES && Bal(s, m)
    ensures Bal(SchedNext(s), m)
  {
    var s1 := SwitchToNext(s);
    if s.q[READY] == [] {
      TakeIdle(s.q);
    } else {
      TakeFirstReady(s.q);
      assert s1.q == s.q[READY := s.q[READY][1..]];
    }
    NotInQueue(s1.q, READY, s1.cur);
    ResumeBal(s1, m);
  }

  /** Queueing a task that is not a woken waiter leaves the balance alone. */
  lemma AppendBal(s: Sched, d: nat, t: nat, m: nat)
    requires WF(s) && m < MAX_MUTEXES && d < NR_QUEUES && t < NR_TASKS && Bal(s, m)
    requires d != MutexQueue(m) && (d == READY ==> !IsWoken(s.task, m, t))
    ensures Bal(Append(s, d, t), m)
  {
    if d == READY {
      WokenInAppend(s.q[READY], t, s.task, m);
    }
  }

  lemma SetTaskBal(s: Sched, t: nat, x: Task, m: nat)
    requires WF(s) && m < MAX_MUTEXES && t < NR_TASKS && t !in s.q[READY]
    requires x.dir < NR_TASKS && (x.resume.Locking? ==> x.resume.mutex < MAX_MUTEXES)
    requires Bal(s, m)
    ensures Bal(SetTask(s, t, x), m)
  {
    WokenInSetTask(s.q[READY], s.task, t, x, m);
  }

  lemma TickBal(s: Sched, m: nat)
    requires Inv(s) && m < MAX_MUTEXES && Bal(s, m)
    ensures Bal(Tick(s), m)
  {
    var s1 := s.(ticks := s.ticks - 1);
    if s1.ticks == 0 && s1.q[READY] != [] {
      VacateInv(s, READY, s.task[s.cur]);
      assert s.task[s.cur := s.task[s.cur]] == s.task;
      AppendBal(s1, READY, s.cur, m);
      SchedNextBal(Append(s1, READY, s.cur), m);
    }
  }

  lemma NewTaskBal(s: Sched, r: Sched, x: Task, d: nat, m: nat)
    requires Inv(s) && s.cur != IDLE && s.q[FREE] != [] && WF(r) && m < MAX_MUTEXES && Bal(s, m)
    requires (d == FREE || d == READY) && x.resume.User?
    requires r.count == s.count && r.log == s.log && r.task == s.task[s.q[FREE][0] := x]
    requires var q1 := s.q[FREE := s.q[FREE][1..]]; r.q == q1[d := q1[d] + [s.q[FREE][0]]]
    ensures Bal(r, m)
  {
    var child := s.q[FREE][0];
    QueuedIsElsewhere(s.q, s.cur, FREE);
    var q1 := s.q[FREE := s.q[FREE][1..]];
    NotInQueue(q1, READY, child);
    WokenInSetTask(s.q[READY], s.task, child, x, m);
    WokenInAppend(s.q[READY], child, r.task, m);
  }

  lemma ForkBal(s: Sched, enoughPages: bool, m: nat)
    requires Inv(s) && s.cur != IDLE && m < MAX_MUTEXES && Bal(s, m)
    ensures Bal(Fork(s, enoughPages), m)
  {
    if s.q[FREE] != [] {
      var r := Fork(s, enoughPages);
      NewTaskBal(s, r, r.task[s.q[FREE][0]], if enoughPages then READY else FREE, m);
    }
  }

  lemma CreateThreadBal(s: Sched, m: nat)
    requires Inv(s) && s.cur != IDLE && m < MAX_MUTEXES && Bal(s, m)
    ensures Bal(CreateThread(s), m)
  {
    if s.q[FREE] != [] {
      var r := CreateThread(s);
      NewTaskBal(s, r, r.task[s.q[FREE][0]], READY, m);
    }
  }

  lemma ExitBal(s: Sched, m: nat)
    requires Inv(s) && s.cur != IDLE && m < MAX_MUTEXES && Bal(s, m)
    ensures Bal(Exit(s), m)
  {
    VacateInv(s, FREE, s.task[s.cur]);
    assert s.task[s.cur := s.task[s.cur]] == s.task;
    OtherEvent(m, s.count[m], Woken(s, m), s.q[MutexQueue(m)], s.log, PagesFreed(s.task[s.cur].dir));
    AppendBal(DropReference(s), FREE, s.cur, m);
    SchedNextBal(Leave(s), m);
  }

  /** Falling asleep on k. */
  lemma SleepBal(s: Sched, k: nat, m: nat)
    requires Inv(s) && s.cur != IDLE && m < MAX_MUTEXES && k < MAX_MUTEXES && s.count[k] >= 1 && Bal(s, m)
    ensures var s1 := SetTask(s, s.cur, s.task[s.cur].(resume := Locking(k)));
            Bal(Record(Append(s1, MutexQueue(k), s.cur), Queued(k, s.cur)), m)
  {
    var s1 := SetTask(s, s.cur, s.task[s.cur].(resume := Locking(k)));
    var s2 := Append(s1, MutexQueue(k), s.cur);
    assert Occ(s.q, s.cur) == 0;
    NotInQueue(s.q, READY, s.cur);
    SetTaskBal(s, s.cur, s.task[s.cur].(resume := Locking(k)), m);
    if k == m {
      SleepEvent(m, s.count[m], Woken(s1, m), s.q[MutexQueue(m)], s.log, s.cur);
    } else {
      AppendBal(s1, MutexQueue(k), s.cur, m);
      OtherEvent(m, s.count[m], Woken(s1, m), s.q[MutexQueue(m)], s.log, Queued(k, s.cur));
    }
  }

  lemma {:induction false} NoneWoken(x: seq<nat>, task: seq<Task>, m: nat)
    ensures WokenIn(x, task, m) == 0 <==> !exists t :: t in x && IsWoken(task, m, t)
  {
    if x != [] {
      NoneWoken(x[1..], task, m);
    }
  }

  /** What a fast-path lock of k leaves behind. */
  lemma FastLockShape(s: Sched, k: nat)
    requires WF(s) && k < MAX_MUTEXES && s.count[k] == 0
    ensures var r := Lock(s, k);
            && r.q == s.q && r.task == s.task && r.count == s.count[k := 1]
            && r.log == (if Woken(s, k) > 0 then s.log + [Barged(k)] else s.log) + [Locked(k)]
  {
    NoneWoken(s.q[READY], s.task, k);
  }

  lemma FastLockSame(s: Sched, m: nat)
    requires WF(s) && m < MAX_MUTEXES && s.count[m] == 0 && Bal(s, m)
    ensures Bal(Lock(s, m), m)
  {
    hide Lock;
    FastLockShape(s, m);
    FastLockEvent(m, Woken(s, m), s.q[MutexQueue(m)], s.log);
  }

  lemma FastLockOther(s: Sched, k: nat, m: nat)
    requires WF(s) && m < MAX_MUTEXES && k < MAX_MUTEXES && k != m && s.count[k] == 0 && Bal(s, m)
    ensures Bal(Lock(s, k), m)
  {
    hide Lock, Balanced;
    FastLockShape(s, k);
    TwoOtherEvents(m, s.count[m], Woken(s, m), s.q[MutexQueue(m)], s.log, Barged(k), Locked(k));
  }

  lemma LockBal(s: Sched, k: int, m: nat)
    requires Inv(s) && s.cur != IDLE && m < MAX_MUTEXES && Bal(s, m) && (0 <= k < MAX_MUTEXES ==> Bal(s, k))
    ensures Bal(Lock(s, k), m)
  {
    if Usable(s, k) && s.count[k] >= 1 {
      var x := s.task[s.cur].(resume := Locking(k));
      var s2 := Record(Append(SetTask(s, s.cur, x), MutexQueue(k), s.cur), Queued(k, s.cur));
      VacateInv(s, MutexQueue(k), x);
      SleepBal(s, k, m);
      SchedNextBal(s2, m);
    } else if Usable(s, k) && k == m {
      FastLockSame(s, m);
    } else if Usable(s, k) {
      FastLockOther(s, k, m);
    }
  }

  lemma WakeOneShape(s: Sched, k: nat)
    requires WF(s) && AllFit(s.q, s.task) && k < MAX_MUTEXES && s.count[k] > 0 && s.q[MutexQueue(k)] != []
    ensures var r, t := Unlock(s, k), s.q[MutexQueue(k)][0];
            && r.count == s.count[k := s.count[k] - 1]
            && r.log == s.log + [WokenUp(k, t)] + [Unlocked(k)]
            && r.q[MutexQueue(k)] == s.q[MutexQueue(k)][1..]
            && (forall m :: 0 <= m < MAX_MUTEXES && m != k ==> r.q[MutexQueue(m)] == s.q[MutexQueue(m)])
            && forall m :: Woken(r, m) == Woken(s, m) + if m == k then 1 else 0
  {
    var d := MutexQueue(k);
    DropFirstFits(s.q, s.task, d);
    assert ([s.q[d][0]] + s.q[READY])[1..] == s.q[READY];
  }

  lemma WakeOneBal(s: Sched, k: nat, m: nat)
    requires WF(s) && AllFit(s.q, s.task) && m < MAX_MUTEXES && Bal(s, m) && k < MAX_MUTEXES
    requires s.count[k] > 0 && s.q[MutexQueue(k)] != []
    ensures Bal(Unlock(s, k), m)
  {
    var t := s.q[MutexQueue(k)][0];
    WakeOneShape(s, k);
    if k == m {
      UnlockEvent(m, s.count[m], Woken(s, m), s.q[MutexQueue(m)], s.log);
    } else {
      OtherEvent(m, s.count[m], Woken(s, m), s.q[MutexQueue(m)], s.log, WokenUp(k, t));
      OtherEvent(m, s.count[m], Woken(s, m), s.q[MutexQueue(m)], s.log + [WokenUp(k, t)], Unlocked(k));
    }
  }

  lemma UnlockBal(s: Sched, k: int, m: nat)
    requires Inv(s) && s.cur != IDLE && m < MAX_MUTEXES && Bal(s, m) && (0 <= k < MAX_MUTEXES ==> Bal(s, k))
    ensures Bal(Unlock(s, k), m)
  {
    if Usable(s, k) && s.count[k] != 0 {
      var d := MutexQueue(k);
      if s.q[d] == [] {
        if k == m {
          UnlockEvent(m, s.count[m], Woken(s, m), [], s.log);
        } else {
          OtherEvent(m, s.count[m], Woken(s, m), s.q[MutexQueue(m)], s.log, Unlocked(k));
        }
      } else {
        WakeOneBal(s, k, m);
      }
    }
  }

  lemma ReadBal(s: Sched, n: int, m: nat)
    requires Inv(s) && s.cur != IDLE && m < MAX_MUTEXES && Bal(s, m)
    ensures Bal(Read(s, n), m)
  {
    if n > 0 {
      var left := LeftAtEntry(s, n);
      var x := s.task[s.cur].(toRead := left, resume := if left > 0 then Reading else User);
      var s1 := Entered(s, n);
      assert Occ(s.q, s.cur) == 0;
      NotInQueue(s.q, READY, s.cur);
      SetTaskBal(s1, s.cur, x, m);
      if left > 0 {
        VacateInv(s1, BLOCKED, x);
        AppendBal(SetTask(s1, s.cur, x), BLOCKED, s.cur, m);
        SchedNextBal(Block(s1, x), m);
      }
    }
  }

  lemma ReaderNotReady(s: Sched)
    requires Inv(s) && s.q[BLOCKED] != []
    ensures s.q[BLOCKED][0] !in s.q[READY]
  {
    var t := s.q[BLOCKED][0];
    QueuedIsElsewhere(s.q, s.cur, BLOCKED);
    NotInQueue(s.q[BLOCKED := s.q[BLOCKED][1..]], READY, t);
  }

  lemma CountedBal(s: Sched, c: char, m: nat)
    requires Inv(s) && s.q[BLOCKED] != [] && m < MAX_MUTEXES && Bal(s, m)
    ensures Bal(Counted(s, c), m)
  {
    var t := s.q[BLOCKED][0];
    ReaderNotReady(s);
    SetTaskBal(s.(keys := Typed(s.keys, c)), t, s.task[t].(toRead := s.task[t].toRead - 1), m);
  }

  lemma HandedOverBal(s: Sched, m: nat)
    requires WF(s) && s.q[BLOCKED] != [] && m < MAX_MUTEXES && Bal(s, m) && s.task[s.cur].resume.User?
    ensures Bal(HandedOver(s), m)
  {
    AppendBal(s, READY, s.cur, m);
  }

  lemma ReadDoneBal(s: Sched, m: nat)
    requires WF(s) && s.q[BLOCKED] != [] && m < MAX_MUTEXES && Bal(s, m) && s.cur !in s.q[READY]
    ensures Bal(ReadDone(s), m)
  {
    SetTaskBal(DropFirst(s, BLOCKED), s.cur, s.task[s.cur].(resume := User), m);
  }

  lemma KeyBal(s: Sched, c: char, m: nat)
    requires Inv(s) && c != '\0' && !(s.cur == IDLE && Wakes(s, c)) && m < MAX_MUTEXES && Bal(s, m)
    ensures Bal(Key(s, c), m)
  {
    if s.q[BLOCKED] != [] {
      var s2 := Counted(s, c);
      CountedBal(s, c, m);
      DropFirstFits(s.q, s.task, BLOCKED);
      QueuedIsElsewhere(s.q, s.cur, BLOCKED);
      if Wakes(s, c) {
        HandedOverBal(s2, m);
        if s.task[s.q[BLOCKED][0]].toRead > 1 {
          CountedInv(s, c);
          HandedOverReady(s2);
          SchedNextBal(HandedOver(s2), m);
        } else {
          ReaderNotReady(s);
          ReadDoneBal(HandedOver(s2), m);
        }
      }
    }
  }

  // ---------- all mutexes, whole runs

  ghost predicate MutexInv(s: Sched)
    requires WF(s)
  {
    forall m :: 0 <= m < MAX_MUTEXES ==> Bal(s, m)
  }

  lemma StepBal(s: Sched, a: Step, m: nat)
    requires Inv(s) && Allowed(s, a) && !a.InitMutexCall? && MutexInv(s) && m < MAX_MUTEXES
    ensures Bal(Apply(s, a), m)
  {
    match a
    case ClockTick => TickBal(s, m);
    case ForkCall(ok) => ForkBal(s, ok, m);
    case CreateThreadCall => CreateThreadBal(s, m);
    case ExitCall => ExitBal(s, m);
    case LockCall(k) => LockBal(s, k, m);
    case UnlockCall(k) => UnlockBal(s, k, m);
    case ReadCall(n) => ReadBal(s, n, m);
    case KeyPress(c) => KeyBal(s, c, m);
  }

  ghost predicate NoInit(steps: seq<Step>) {
    forall i :: 0 <= i < |steps| ==> !steps[i].InitMutexCall?
  }

  /** The wait/wake invariant holds along every run that starts in it. */
  lemma {:induction false} RunBal(s: Sched, steps: seq<Step>)
    requires Inv(s) && MutexInv(s) && AllAllowed(s, steps) && NoInit(steps)
    ensures MutexInv(Run(s, steps))
    decreases steps
  {
    if steps != [] {
      StepInv(s, steps[0]);
      forall m: nat | m < MAX_MUTEXES
        ensures Bal(Apply(s, steps[0]), m)
      {
        StepBal(s, steps[0], m);
      }
      RunBal(Apply(s, steps[0]), steps[1..]);
    }
  }

  lemma BootMutexInv()
    ensures MutexInv(Boot())
  {
    BootFacts();
  }

  /** The headline for one mutex after any run from boot. */
  lemma WaitWakeOverRuns(steps: seq<Step>, m: nat)
    requires m < MAX_MUTEXES && NoInit(steps) && AllAllowed(Boot(), steps)
    ensures var s := Run(Boot(), steps);
            && s.count[m] == Occurs(s.log, Locked(m)) - Occurs(s.log, Unlocked(m)) >= 0
            && (s.q[MutexQueue(m)] != [] ==> s.count[m] + Woken(s, m) >= 1)
            && Sleepers(s.log, m) == Wakeups(s.log, m) + s.q[MutexQueue(m)]
            && s.count[m] + Woken(s, m) <= 1 + Occurs(s.log, Barged(m))
            && (Barged(m) !in s.log ==> s.count[m] <= 1)
  {
    BootInv();
    BootMutexInv();
    RunBal(Boot(), steps);
    var s := Run(Boot(), steps);
    assert Bal(s, m);
  }
}
