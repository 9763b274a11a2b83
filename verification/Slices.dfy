// The slice counter: what is left of the running slice under the clock alone, and over every run.

module Slices {
  import opened Common
  import opened SchedSpec
  import opened Partition
  import opened PartitionRuns
  import opened Moves
  import opened RoundRobin

  // ---------- the clock alone, with nobody else ready

  /** After n ticks. */
  ghost function Ticked(s: Sched, n: nat): (r: Sched)
    requires WF(s)
    ensures WF(r)
    decreases n
  {
    if n == 0 then s else Ticked(Tick(s), n - 1)
  }

  /** What is left of the slice of a task with the given quantum, of which left ticks were left n ticks ago, when a
      slice that ends is followed by another one. */
  function LeftAfter(quantum: int, left: int, n: nat): int
    requires quantum > 0
  {
    if n < left then left - n else quantum - (n - left) % quantum
  }

  lemma LeftAfterOne(quantum: int, left: int, n: nat)
    requires quantum > 0 && left > 0 && n > 0
    ensures LeftAfter(quantum, left, n) == LeftAfter(quantum, if left == 1 then quantum else left - 1, n - 1)
  {
    if left == 1 {
      if n - 1 >= quantum {
        AddQuantum(n - 1 - quantum, quantum);
      } else {
        QuotientUnique(n - 1, quantum, 0, n - 1);
      }
    }
  }

  lemma AddQuantum(a: nat, q: int)
    requires q > 0
    ensures (a + q) % q == a % q
  {
    QuotientUnique(a + q, q, a / q + 1, a % q);
  }

  lemma TickAlone(s: Sched)
    requires Inv(s) && s.cur != IDLE && s.q[READY] == []
    ensures Tick(s) == s.(ticks := if s.ticks == 1 then s.task[s.cur].quantum else s.ticks - 1)
  {
  }

  /** A task alone on the processor keeps it, and each slice that ends is followed by a whole one. */
  lemma {:induction false} SliceIsRenewed(s: Sched, n: nat)
    requires Inv(s) && s.cur != IDLE && s.q[READY] == []
    ensures Ticked(s, n) == s.(ticks := LeftAfter(s.task[s.cur].quantum, s.ticks, n))
    decreases n
  {
    var q := s.task[s.cur].quantum;
    if n > 0 {
      TickAlone(s);
      TickInv(s);
      SliceIsRenewed(Tick(s), n - 1);
      LeftAfterOne(q, s.ticks, n);
    } else {
      assert s == s.(ticks := s.ticks);
    }
  }

  // ---------- every run

  /** Every task that is not free has the quantum that init_task1 sets. */
  ghost predicate AllTens(s: Sched)
    requires WF(s)
  {
    forall t: nat :: Live(s, t) && t != IDLE ==> s.task[t].quantum == INIT_QUANTUM
  }

  /** A dispatched task has its whole quantum; a tick takes one off, and the last one is followed by a whole slice
      if nobody else is ready; no other step touches the counter. */
  function TicksAfter(s: Sched, a: Step): int
    requires WF(s)
  {
    if GivesUp(s, a) then (if Runs(s, a) < NR_TASKS then s.task[Runs(s, a)].quantum else 0)
    else if !a.ClockTick? then s.ticks
    else if s.ticks == 1 then s.task[s.cur].quantum
    else s.ticks - 1
  }

  lemma DispatchTicks(s: Sched)
    requires WF(s)
    ensures SchedNext(s).ticks == if s.q[READY] == [] then s.task[IDLE].quantum else s.task[s.q[READY][0]].quantum
  {
  }

  lemma TickTicks(s: Sched)
    requires WF(s) && s.cur != IDLE
    ensures Tick(s).ticks == TicksAfter(s, ClockTick)
  {
    hide SchedNext;
    if s.ticks == 1 && s.q[READY] != [] {
      DispatchTicks(Append(s.(ticks := 0), READY, s.cur));
    }
  }

  lemma ExitTicks(s: Sched)
    requires WF(s)
    ensures Exit(s).ticks == TicksAfter(s, ExitCall)
  {
    hide SchedNext;
    DispatchTicks(Leave(s));
    assert s.q[READY] + [] == s.q[READY];
  }

  lemma LockTicks(s: Sched, m: int)
    requires WF(s)
    ensures Lock(s, m).ticks == TicksAfter(s, LockCall(m))
  {
    hide SchedNext;
    if GivesUp(s, LockCall(m)) {
      var s1 := SetTask(s, s.cur, s.task[s.cur].(resume := Locking(m)));
      DispatchTicks(Record(Append(s1, MutexQueue(m), s.cur), Queued(m, s.cur)));
      assert s.q[READY] + [] == s.q[READY];
    }
  }

  lemma ReadTicks(s: Sched, n: int)
    requires WF(s)
    ensures Read(s, n).ticks == TicksAfter(s, ReadCall(n))
  {
    hide SchedNext;
    if GivesUp(s, ReadCall(n)) {
      DispatchTicks(Block(Entered(s, n), s.task[s.cur].(toRead := LeftAtEntry(s, n), resume := Reading)));
      assert s.q[READY] + [] == s.q[READY];
    }
  }

  lemma KeyTicks(s: Sched, c: char)
    requires WF(s)
    ensures Key(s, c).ticks == TicksAfter(s, KeyPress(c))
  {
    hide SchedNext;
    if GivesUp(s, KeyPress(c)) {
      DispatchTicks(HandedOver(Counted(s, c)));
    }
  }

  /** Every step. */
  lemma StepTicks(s: Sched, a: Step)
    requires WF(s) && s.cur != IDLE
    ensures Apply(s, a).ticks == TicksAfter(s, a)
  {
    hide Tick, Exit, Lock, Read, Key;
    match a
    case ClockTick => TickTicks(s);
    case ExitCall => ExitTicks(s);
    case LockCall(m) => LockTicks(s, m);
    case ReadCall(n) => ReadTicks(s, n);
    case KeyPress(c) => KeyTicks(s, c);
    case _ =>
  }

  /** How many ticks of the running slice are over after step a; spent were before. */
  function SpentAfter(s: Sched, a: Step, spent: nat): nat
    requires WF(s)
  {
    if GivesUp(s, a) then 0 else if a.ClockTick? then (spent + 1) % INIT_QUANTUM else spent
  }

  ghost function Spent(s: Sched, steps: seq<Step>, spent: nat): nat
    requires WF(s)
    decreases steps
  {
    if steps == [] then spent else Spent(Apply(s, steps[0]), steps[1..], SpentAfter(s, steps[0], spent))
  }

  /** The counter is what the ticks of the slice have left of the quantum. */
  ghost predicate InSlice(s: Sched, spent: nat)
    requires WF(s)
  {
    AllTens(s) && (s.cur != IDLE ==> spent < INIT_QUANTUM && s.ticks == INIT_QUANTUM - spent)
  }

  lemma StepTens(s: Sched, a: Step)
    requires Inv(s) && Allowed(s, a) && AllTens(s)
    ensures AllTens(Apply(s, a))
  {
    hide Apply;
    CurrentIsLive(s);
    if Takes(s, a) {
      ChildPcb(s, a);
    } else {
      OtherPcbs(s, a);
    }
    forall t: nat | Live(Apply(s, a), t) && t != IDLE
      ensures Apply(s, a).task[t].quantum == INIT_QUANTUM
    {
      LiveBefore(s, a, t);
    }
  }

  /** Idle runs on until the end of an allowed run. */
  lemma IdleGoesOn(s: Sched, a: Step)
    requires Inv(s) && Allowed(s, a) && s.cur == IDLE
    ensures Apply(s, a).cur == IDLE
  {
    hide Apply;
    StepMoves(s, a, READY);
  }

  /** Who is dispatched and is not idle was live. */
  lemma DispatchedIsLive(s: Sched, a: Step)
    requires Inv(s) && Allowed(s, a) && GivesUp(s, a)
    ensures Runs(s, a) < NR_TASKS && (Runs(s, a) != IDLE ==> Live(s, Runs(s, a)))
  {
    CurrentIsLive(s);
    if s.q[READY] != [] && s.q[READY][0] in s.q[FREE] {
      var i :| 0 <= i < |s.q[FREE]| && s.q[FREE][i] == s.q[READY][0];
      QueuedIsElsewhere(s.q, s.cur, READY);
      OccMember(s.q[READY := s.q[READY][1..]], FREE, i);
    }
  }

  lemma StepInSlice(s: Sched, a: Step, spent: nat)
    requires Inv(s) && Allowed(s, a) && InSlice(s, spent)
    ensures InSlice(Apply(s, a), SpentAfter(s, a, spent))
  {
    hide Apply;
    StepTens(s, a);
    if s.cur == IDLE {
      IdleGoesOn(s, a);
    } else {
      StepTicks(s, a);
      StepMoves(s, a, READY);
      CurrentIsLive(s);
      if GivesUp(s, a) {
        DispatchedIsLive(s, a);
      }
    }
  }

  lemma {:induction false} RunInSlice(s: Sched, steps: seq<Step>, spent: nat)
    requires Inv(s) && AllAllowed(s, steps) && InSlice(s, spent)
    ensures InSlice(Run(s, steps), Spent(s, steps, spent))
    decreases steps
  {
    hide Apply;
    if steps != [] {
      StepInv(s, steps[0]);
      StepInSlice(s, steps[0], spent);
      RunInSlice(Apply(s, steps[0]), steps[1..], SpentAfter(s, steps[0], spent));
    }
  }

  lemma BootInSlice()
    ensures InSlice(Boot(), 0)
  {
    BootState();
    BootLive(Boot());
  }

  /** Over every run from boot: unless idle runs, the slice counter is ten less the ticks since the running slice
      began. */
  lemma SlicesOverRuns(steps: seq<Step>)
    requires AllAllowed(Boot(), steps)
    ensures var s, spent := Run(Boot(), steps), Spent(Boot(), steps, 0);
            s.cur != IDLE ==> 0 <= spent < 10 && s.ticks == 10 - spent && s.task[s.cur].quantum == 10
  {
    BootInv();
    BootInSlice();
    RunInSlice(Boot(), steps, 0);
    RunInv(Boot(), steps);
    CurrentIsLive(Run(Boot(), steps));
  }

  // ---------- how long a new task waits

  /** A fork or the creation of a thread, by a task that runs, that finds a PCB, and pages if it needs them. */
  predicate NewTask(s: Sched, a: Step)
    requires WF(s)
  {
    s.cur != IDLE && Takes(s, a) && (a.ForkCall? ==> a.enoughPages)
  }

  lemma NewTaskWait(s: Sched, a: Step)
    requires Inv(s) && NewTask(s, a)
    ensures var r, k := Apply(s, a), |s.q[READY]|;
            r.q[READY] == s.q[READY] + [s.q[FREE][0]] && Wait(r, k) == s.ticks + Slices(s.q[READY], s.task)
  {
    hide Apply;
    var r, child := Apply(s, a), s.q[FREE][0];
    StepMoves(s, a, READY);
    assert [] + s.q[READY] + [child] == s.q[READY] + [child];
    assert r.q[READY][..|s.q[READY]|] == s.q[READY];
    StepTicks(s, a);
    ChildPcb(s, a);
    ChildNotReady(s);
    assert r.task == s.task[child := r.task[child]];
    SlicesSetTask(s.q[READY], s.task, child, r.task[child]);
  }

  /** A new task is at the end of the ready queue. */
  lemma NewTaskWaits(s: Sched, a: Step)
    requires Inv(s) && NewTask(s, a)
    ensures s.ticks > 0 && FirstRunsAfter(Apply(s, a), s.q[FREE][0], s.ticks + Slices(s.q[READY], s.task))
  {
    hide Apply, FirstRunsAfter, Wait;
    StepInv(s, a);
    StepMoves(s, a, READY);
    NewTaskWait(s, a);
    ExactWait(Apply(s, a), |s.q[READY]|);
  }

  lemma {:induction false} TensAddUp(x: seq<nat>, task: seq<Task>)
    requires forall i :: 0 <= i < |x| ==> x[i] < |task| && task[x[i]].quantum == INIT_QUANTUM
    ensures Slices(x, task) == INIT_QUANTUM * |x|
  {
    if x != [] {
      TensAddUp(x[1..], task);
    }
  }

  lemma ReadyTens(s: Sched)
    requires Inv(s) && AllTens(s)
    ensures Slices(s.q[READY], s.task) == INIT_QUANTUM * |s.q[READY]|
  {
    forall i | 0 <= i < |s.q[READY]|
      ensures s.task[s.q[READY][i]].quantum == INIT_QUANTUM
    {
      ReadyIsLive(s, i);
    }
    TensAddUp(s.q[READY], s.task);
  }

  lemma ReadyIsLive(s: Sched, i: nat)
    requires Inv(s) && i < |s.q[READY]|
    ensures Live(s, s.q[READY][i]) && s.q[READY][i] != IDLE
  {
    var t := s.q[READY][i];
    OccMember(s.q, READY, i);
    assert t in multiset(s.q[READY]);
    OccWithin(s.q, READY, FREE, t);
    assert Occ(s.q, t) + Outside(s.cur, t) == 1;
  }

  /** After every run from boot, a new task first runs after ten ticks for each task ready before it and the rest
      of the running slice: after exactly ten ticks if that has just begun, or been renewed, and nobody is ready. */
  lemma NewTaskWaitsOverRuns(steps: seq<Step>, a: Step)
    requires AllAllowed(Boot(), steps) && NewTask(Run(Boot(), steps), a)
    ensures var s, spent := Run(Boot(), steps), Spent(Boot(), steps, 0);
            spent < 10 && FirstRunsAfter(Apply(s, a), s.q[FREE][0], 10 * |s.q[READY]| + 10 - spent)
  {
    hide Apply, FirstRunsAfter;
    var s := Run(Boot(), steps);
    BootInv();
    BootInSlice();
    RunInSlice(Boot(), steps, 0);
    RunInv(Boot(), steps);
    ReadyTens(s);
    NewTaskWaits(s, a);
  }
}
