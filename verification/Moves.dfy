// Which task each step moves where: who joins each queue at which end, who leaves it, who runs next, and that
// every queue but the ready queue serves in the order of arrival.

module Moves {
  import opened Common
  import opened SchedSpec
  import opened Partition
  import opened PartitionRuns

  /** The step takes the first free PCB for a new task. */
  predicate Takes(s: Sched, a: Step)
    requires WF(s)
  {
    s.q[FREE] != [] && (a.ForkCall? || a.CreateThreadCall?)
  }

  /** The step forks successfully. */
  predicate Forks(s: Sched, a: Step)
    requires WF(s)
  {
    s.q[FREE] != [] && a == ForkCall(true)
  }

  /** An unlock that finds a sleeper. */
  predicate WakesSleeper(s: Sched, a: Step)
    requires WF(s)
  {
    a.UnlockCall? && Usable(s, a.m) && s.count[a.m] != 0 && s.q[MutexQueue(a.m)] != []
  }

  /** A key that is the last one the first reader wants. */
  predicate Satisfies(s: Sched, a: Step)
    requires WF(s)
  {
    a.KeyPress? && s.q[BLOCKED] != [] && s.task[s.q[BLOCKED][0]].toRead == 1
  }

  /** The step hands the processor to the head of the ready queue, if there is one. */
  predicate GivesUp(s: Sched, a: Step)
    requires WF(s)
  {
    match a
    case ClockTick => s.ticks == 1 && s.q[READY] != []
    case ExitCall => true
    case LockCall(k) => Usable(s, k) && s.count[k] >= 1
    case ReadCall(n) => n > 0 && LeftAtEntry(s, n) > 0
    case KeyPress(c) => Wakes(s, c) && s.task[s.q[BLOCKED][0]].toRead > 1
    case _ => false
  }

  /** Who joins queue d at its head: a sleeper that an unlock wakes. */
  function Front(s: Sched, a: Step, d: nat): seq<nat>
    requires WF(s)
  {
    if d == READY && WakesSleeper(s, a) then [s.q[MutexQueue(a.m)][0]] else []
  }

  /** Who joins queue d at its end. */
  function Back(s: Sched, a: Step, d: nat): seq<nat>
    requires WF(s)
  {
    match a
    case ClockTick => if d == READY && GivesUp(s, a) then [s.cur] else []
    case ForkCall(ok) => if Takes(s, a) && d == (if ok then READY else FREE) then [s.q[FREE][0]] else []
    case CreateThreadCall => if Takes(s, a) && d == READY then [s.q[FREE][0]] else []
    case ExitCall => if d == FREE then [s.cur] else []
    case LockCall(m) => if GivesUp(s, a) && d == MutexQueue(m) then [s.cur] else []
    case ReadCall(n) => if GivesUp(s, a) && d == BLOCKED then [s.cur] else []
    case KeyPress(c) => if Wakes(s, c) && d == READY then [s.cur] else []
    case _ => []
  }

  /** How many leave queue d at its head. */
  function Gone(s: Sched, a: Step, d: nat): nat
    requires WF(s)
  {
    if d == FREE then (if Takes(s, a) then 1 else 0)
    else if d == READY then (if GivesUp(s, a) && s.q[READY] + Back(s, a, READY) != [] then 1 else 0)
    else if d == BLOCKED then (if Satisfies(s, a) then 1 else 0)
    else if WakesSleeper(s, a) && d == MutexQueue(a.m) then 1 else 0
  }

  ghost predicate Moved(x: seq<nat>, front: seq<nat>, back: seq<nat>, gone: nat, y: seq<nat>) {
    gone <= |front + x + back| && y == (front + x + back)[gone..]
  }

  /** Who runs after the step. */
  function Runs(s: Sched, a: Step): nat
    requires WF(s)
  {
    if GivesUp(s, a) then
      var ready := s.q[READY] + Back(s, a, READY);
      if ready == [] then IDLE else ready[0]
    else if Satisfies(s, a) then s.q[BLOCKED][0]
    else s.cur
  }

  // ---------- one step

  lemma Unmoved(x: seq<nat>)
    ensures Moved(x, [], [], 0, x)
  {
    assert [] + x + [] == x;
  }

  lemma DispatchMoves(s: Sched)
    requires ReadyToSwitch(s)
    ensures SchedNext(s).q == if s.q[READY] == [] then s.q else s.q[READY := s.q[READY][1..]]
    ensures SchedNext(s).cur == if s.q[READY] == [] then IDLE else s.q[READY][0]
  {
    if s.q[READY] != [] {
      OccMember(s.q, READY, 0);
    }
  }

  /** The step did to queue d what Front, Back and Gone say. */
  ghost predicate QueueAs(s: Sched, a: Step, r: Sched, d: nat)
    requires WF(s) && WF(r) && d < NR_QUEUES
  {
    Moved(s.q[d], Front(s, a, d), Back(s, a, d), Gone(s, a, d), r.q[d])
  }

  lemma TickMoves(s: Sched, d: nat)
    requires Inv(s) && d < NR_QUEUES
    ensures QueueAs(s, ClockTick, Tick(s), d) && Tick(s).cur == Runs(s, ClockTick)
  {
    hide SchedNext;
    Unmoved(s.q[d]);
    if GivesUp(s, ClockTick) {
      var s1 := s.(ticks := 0);
      VacateInv(s, READY, s.task[s.cur]);
      assert s.task[s.cur := s.task[s.cur]] == s.task;
      DispatchMoves(Append(s1, READY, s.cur));
      assert [] + s.q[READY] + [s.cur] == s.q[READY] + [s.cur];
    }
  }

  lemma ExitMoves(s: Sched, d: nat)
    requires Inv(s) && s.cur != IDLE && d < NR_QUEUES
    ensures QueueAs(s, ExitCall, Exit(s), d) && Exit(s).cur == Runs(s, ExitCall)
  {
    hide SchedNext;
    Unmoved(s.q[d]);
    VacateInv(s, FREE, s.task[s.cur]);
    assert s.task[s.cur := s.task[s.cur]] == s.task;
    DispatchMoves(Leave(s));
    assert [] + s.q[d] + [s.cur] == s.q[d] + [s.cur];
    assert s.q[READY] + [] == s.q[READY];
  }

  lemma LockMoves(s: Sched, m: int, d: nat)
    requires Inv(s) && s.cur != IDLE && d < NR_QUEUES
    ensures QueueAs(s, LockCall(m), Lock(s, m), d) && Lock(s, m).cur == Runs(s, LockCall(m))
  {
    hide SchedNext;
    Unmoved(s.q[d]);
    if GivesUp(s, LockCall(m)) {
      var x := s.task[s.cur].(resume := Locking(m));
      VacateInv(s, MutexQueue(m), x);
      DispatchMoves(Record(Append(SetTask(s, s.cur, x), MutexQueue(m), s.cur), Queued(m, s.cur)));
      assert [] + s.q[d] + [s.cur] == s.q[d] + [s.cur];
      assert s.q[READY] + [] == s.q[READY];
    }
  }

  lemma UnlockMoves(s: Sched, m: int, d: nat)
    requires Inv(s) && d < NR_QUEUES
    ensures QueueAs(s, UnlockCall(m), Unlock(s, m), d) && Unlock(s, m).cur == Runs(s, UnlockCall(m))
  {
    Unmoved(s.q[d]);
    if WakesSleeper(s, UnlockCall(m)) {
      var t := s.q[MutexQueue(m)][0];
      assert [t] + s.q[d] + [] == [t] + s.q[d] && ([t] + s.q[d])[0..] == [t] + s.q[d];
      assert [] + s.q[d] + [] == s.q[d];
    }
  }

  lemma ReadMoves(s: Sched, n: int, d: nat)
    requires Inv(s) && s.cur != IDLE && d < NR_QUEUES
    ensures QueueAs(s, ReadCall(n), Read(s, n), d) && Read(s, n).cur == Runs(s, ReadCall(n))
  {
    hide SchedNext;
    Unmoved(s.q[d]);
    if GivesUp(s, ReadCall(n)) {
      var x := s.task[s.cur].(toRead := LeftAtEntry(s, n), resume := Reading);
      VacateInv(Entered(s, n), BLOCKED, x);
      DispatchMoves(Block(Entered(s, n), x));
      assert [] + s.q[d] + [s.cur] == s.q[d] + [s.cur];
      assert s.q[READY] + [] == s.q[READY];
    }
  }

  /** A key for a reader that wants more: it drains the ring and goes on waiting at the head of its queue. */
  lemma HandedBackMoves(s: Sched, c: char, d: nat)
    requires Inv(s) && Allowed(s, KeyPress(c)) && GivesUp(s, KeyPress(c)) && d < NR_QUEUES
    ensures QueueAs(s, KeyPress(c), Key(s, c), d) && Key(s, c).cur == Runs(s, KeyPress(c))
  {
    hide SchedNext, ReadyToSwitch;
    var s2 := Counted(s, c);
    Unmoved(s.q[d]);
    CountedInv(s, c);
    HandedOverReady(s2);
    DispatchMoves(HandedOver(s2));
    assert [] + s.q[d] + [s.cur] == s.q[d] + [s.cur];
  }

  /** A key for a reader that is satisfied: it leaves its queue and runs. */
  lemma SatisfiedMoves(s: Sched, c: char, d: nat)
    requires WF(s) && Satisfies(s, KeyPress(c)) && d < NR_QUEUES
    ensures QueueAs(s, KeyPress(c), Key(s, c), d) && Key(s, c).cur == Runs(s, KeyPress(c))
  {
    Unmoved(s.q[d]);
    assert [] + s.q[d] + [s.cur] == s.q[d] + [s.cur];
    assert [] + s.q[d] + [] == s.q[d];
  }

  lemma KeyMoves(s: Sched, c: char, d: nat)
    requires Inv(s) && Allowed(s, KeyPress(c)) && d < NR_QUEUES
    ensures QueueAs(s, KeyPress(c), Key(s, c), d) && Key(s, c).cur == Runs(s, KeyPress(c))
  {
    hide SchedNext;
    if GivesUp(s, KeyPress(c)) {
      HandedBackMoves(s, c, d);
    } else if Satisfies(s, KeyPress(c)) {
      SatisfiedMoves(s, c, d);
    } else {
      Unmoved(s.q[d]);
    }
  }

  lemma TakeMoves(s: Sched, a: Step, d: nat)
    requires Inv(s) && (a.ForkCall? || a.CreateThreadCall?) && d < NR_QUEUES
    ensures QueueAs(s, a, Apply(s, a), d) && Apply(s, a).cur == Runs(s, a)
  {
    Unmoved(s.q[d]);
    if Takes(s, a) {
      var child := s.q[FREE][0];
      assert [] + s.q[d] + [child] == s.q[d] + [child];
      assert (s.q[FREE] + [child])[1..] == s.q[FREE][1..] + [child];
      assert [] + s.q[d] + [] == s.q[d];
    }
  }

  /** Every step moves exactly these tasks and hands the processor to exactly this one. */
  lemma StepMoves(s: Sched, a: Step, d: nat)
    requires Inv(s) && Allowed(s, a) && d < NR_QUEUES
    ensures QueueAs(s, a, Apply(s, a), d) && Apply(s, a).cur == Runs(s, a)
  {
    match a
    case ClockTick => TickMoves(s, d);
    case ForkCall(ok) => TakeMoves(s, a, d);
    case CreateThreadCall => TakeMoves(s, a, d);
    case ExitCall => ExitMoves(s, d);
    case InitMutexCall(m) => Unmoved(s.q[d]);
    case LockCall(m) => LockMoves(s, m, d);
    case UnlockCall(m) => UnlockMoves(s, m, d);
    case ReadCall(n) => ReadMoves(s, n, d);
    case KeyPress(c) => KeyMoves(s, c, d);
  }

  // ---------- who is live

  ghost predicate Live(s: Sched, t: nat)
    requires WF(s)
  {
    t < NR_TASKS && t !in s.q[FREE]
  }

  /** Who is live after a step was so before, but for the child. */
  lemma LiveBefore(s: Sched, a: Step, t: nat)
    requires Inv(s) && Allowed(s, a) && Live(Apply(s, a), t)
    ensures Live(s, t) || (Takes(s, a) && t == s.q[FREE][0])
    ensures a == ForkCall(false) ==> Live(s, t)
  {
    hide Apply;
    StepMoves(s, a, FREE);
    if t in s.q[FREE] {
      var i :| 0 <= i < |s.q[FREE]| && s.q[FREE][i] == t;
      StaysQueued(s.q[FREE], Back(s, a, FREE), Gone(s, a, FREE), i);
    }
  }

  lemma StaysQueued(x: seq<nat>, back: seq<nat>, gone: nat, i: nat)
    requires i < |x| && gone <= |[] + x + back|
    ensures i >= gone ==> x[i] in ([] + x + back)[gone..]
    ensures i < gone == 1 && back == [x[0]] ==> x[i] in ([] + x + back)[gone..]
  {
    var y := ([] + x + back)[gone..];
    if i >= gone {
      assert y[i - gone] == x[i];
    } else if gone == 1 && back == [x[0]] {
      assert y[|x| - 1] == x[0];
    }
  }

  lemma CurrentIsLive(s: Sched)
    requires Inv(s)
    ensures Live(s, s.cur)
  {
    if s.cur in s.q[FREE] {
      var i :| 0 <= i < |s.q[FREE]| && s.q[FREE][i] == s.cur;
      OccMember(s.q, FREE, i);
    }
  }

  lemma BootLive(s: Sched)
    requires WF(s) && s.q[FREE] == seq(NR_TASKS - 2, i => 2 + i)
    ensures forall t: nat :: Live(s, t) ==> t < 2
  {
    forall t: nat | 2 <= t < NR_TASKS
      ensures !Live(s, t)
    {
      assert s.q[FREE][t - 2] == t;
    }
  }

  // ---------- what PCBs keep

  /** The PID counter is the same, and every PCB has the PID, the directory and the quantum it had. */
  ghost predicate SamePcbs(s: Sched, r: Sched)
    requires WF(s) && WF(r)
  {
    && r.pids == s.pids
    && forall t :: 0 <= t < NR_TASKS ==> SamePcb(s.task[t], r.task[t])
  }

  predicate SamePcb(x: Task, y: Task) {
    y.pid == x.pid && y.dir == x.dir && y.quantum == x.quantum
  }

  lemma DispatchPcbs(s: Sched)
    requires WF(s)
    ensures SamePcbs(s, SchedNext(s))
  {
  }

  lemma TickPcbs(s: Sched)
    requires WF(s)
    ensures SamePcbs(s, Tick(s))
  {
    hide SchedNext;
    var s1 := s.(ticks := s.ticks - 1);
    DispatchPcbs(if s.cur != IDLE then Append(s1, READY, s.cur) else s1);
  }

  lemma ExitPcbs(s: Sched)
    requires WF(s)
    ensures SamePcbs(s, Exit(s))
  {
    hide SchedNext;
    DispatchPcbs(Leave(s));
  }

  lemma LockPcbs(s: Sched, m: int)
    requires WF(s)
    ensures SamePcbs(s, Lock(s, m))
  {
    hide SchedNext;
    if Usable(s, m) && s.count[m] >= 1 {
      var s1 := SetTask(s, s.cur, s.task[s.cur].(resume := Locking(m)));
      DispatchPcbs(Record(Append(s1, MutexQueue(m), s.cur), Queued(m, s.cur)));
    }
  }

  lemma ReadPcbs(s: Sched, n: int)
    requires WF(s)
    ensures SamePcbs(s, Read(s, n))
  {
    hide SchedNext;
    var left := LeftAtEntry(s, n);
    if n > 0 && left > 0 {
      DispatchPcbs(Block(Entered(s, n), s.task[s.cur].(toRead := left, resume := Reading)));
    }
  }

  lemma KeyPcbs(s: Sched, c: char)
    requires WF(s)
    ensures SamePcbs(s, Key(s, c))
  {
    hide SchedNext;
    if s.q[BLOCKED] != [] {
      DispatchPcbs(HandedOver(Counted(s, c)));
    }
  }

  /** Only a step that takes a PCB changes any of these. */
  lemma OtherPcbs(s: Sched, a: Step)
    requires WF(s) && !Takes(s, a)
    ensures SamePcbs(s, Apply(s, a))
  {
    hide Tick, Exit, Lock, Read, Key;
    match a
    case ClockTick => TickPcbs(s);
    case ExitCall => ExitPcbs(s);
    case LockCall(m) => LockPcbs(s, m);
    case ReadCall(n) => ReadPcbs(s, n);
    case KeyPress(c) => KeyPcbs(s, c);
    case _ =>
  }

  /** The child has its creator's PCB, but for the directory of a fork and the PID of one that succeeds. */
  lemma ChildPcb(s: Sched, a: Step)
    requires WF(s) && Takes(s, a)
    ensures var r, child, x := Apply(s, a), s.q[FREE][0], s.task[s.cur];
            && r.pids == s.pids + (if Forks(s, a) then 1 else 0)
            && r.task[child] == Task(if Forks(s, a) then s.pids else x.pid, if a.ForkCall? then child else x.dir,
                                     x.quantum, x.toRead, User)
            && forall t :: 0 <= t < NR_TASKS && t != child ==> r.task[t] == s.task[t]
  {
  }

  // ---------- whole runs

  /** All who join queue d at its end during the run, in order. */
  ghost function Arrivals(s: Sched, steps: seq<Step>, d: nat): seq<nat>
    requires WF(s)
    decreases steps
  {
    if steps == [] then [] else Back(s, steps[0], d) + Arrivals(Apply(s, steps[0]), steps[1..], d)
  }

  /** How many leave queue d during the run. */
  ghost function Departures(s: Sched, steps: seq<Step>, d: nat): nat
    requires WF(s)
    decreases steps
  {
    if steps == [] then 0 else Gone(s, steps[0], d) + Departures(Apply(s, steps[0]), steps[1..], d)
  }

  lemma OneMove(x: seq<nat>, back: seq<nat>, gone: nat, y: seq<nat>, back': seq<nat>, gone': nat, z: seq<nat>)
    requires Moved(x, [], back, gone, y) && Moved(y, [], back', gone', z)
    ensures Moved(x, [], back + back', gone + gone', z)
  {
    assert [] + x + back == x + back && [] + y + back' == y + back';
    assert [] + x + (back + back') == x + back + back';
    assert (x + back + back')[gone..] == y + back';
  }

  /** Free PCBs, readers and the sleepers of a mutex are served in the order of their arrival. */
  lemma {:induction false} FirstComeFirstServed(s: Sched, steps: seq<Step>, d: nat)
    requires Inv(s) && AllAllowed(s, steps) && d < NR_QUEUES && d != READY
    ensures Moved(s.q[d], [], Arrivals(s, steps, d), Departures(s, steps, d), Run(s, steps).q[d])
    decreases steps
  {
    hide Apply, Moved;
    if steps == [] {
      Unmoved(s.q[d]);
    } else {
      var a, r := steps[0], Apply(s, steps[0]);
      StepInv(s, a);
      StepMoves(s, a, d);
      FirstComeFirstServed(r, steps[1..], d);
      OneMove(s.q[d], Back(s, a, d), Gone(s, a, d), r.q[d],
              Arrivals(r, steps[1..], d), Departures(r, steps[1..], d), Run(s, steps).q[d]);
    }
  }
}
