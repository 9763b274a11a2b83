// The reference counts of the page directories: pcbs_in_dir[d] is the number of live PCBs that
// use directory d, and the pages of d are freed when the last of them exits.

module Directories {
  import opened Common
  import opened SchedSpec
  import opened Partition
  import opened PartitionRuns

  /** The live PCBs whose page directory is d.  A PCB is dead while it is in the free queue. */
  ghost function Users(s: Sched, d: nat): set<nat>
    requires WF(s)
  {
    set t: nat | t < NR_TASKS && t !in s.q[FREE] && s.task[t].dir == d
  }

  ghost predicate RefsExact(s: Sched)
    requires WF(s)
  {
    forall d :: 0 <= d < NR_TASKS ==> s.refs[d] == |Users(s, d)|
  }

  // ---------- steps that create or end no task

  ghost predicate SameUse(s: Sched, r: Sched)
    requires WF(s) && WF(r)
  {
    && r.q[FREE] == s.q[FREE] && r.refs == s.refs
    && forall t :: 0 <= t < NR_TASKS ==> r.task[t].dir == s.task[t].dir
  }

  lemma SameUseKeeps(s: Sched, r: Sched)
    requires WF(s) && WF(r) && RefsExact(s) && SameUse(s, r)
    ensures RefsExact(r)
  {
    forall d: nat | d < NR_TASKS
      ensures r.refs[d] == |Users(r, d)|
    {
      assert Users(r, d) == Users(s, d);
    }
  }

  lemma SchedNextUse(s: Sched)
    requires WF(s)
    ensures SameUse(s, SchedNext(s))
  {
  }

  ghost predicate Creates(a: Step) {
    a.ForkCall? || a.CreateThreadCall? || a.ExitCall?
  }

  lemma QuietStepUse(s: Sched, a: Step)
    requires WF(s) && !Creates(a)
    ensures SameUse(s, Apply(s, a))
  {
    match a
    case ClockTick => TickUse(s);
    case InitMutexCall(m) =>
    case LockCall(m) => LockUse(s, m);
    case UnlockCall(m) => UnlockUse(s, m);
    case ReadCall(n) => ReadUse(s, n);
    case KeyPress(c) => KeyUse(s, c);
  }

  lemma TickUse(s: Sched)
    requires WF(s)
    ensures SameUse(s, Tick(s))
  {
    var s1 := s.(ticks := s.ticks - 1);
    SchedNextUse(if s.cur != IDLE then Append(s1, READY, s.cur) else s1);
  }

  lemma LockUse(s: Sched, m: int)
    requires WF(s)
    ensures SameUse(s, Lock(s, m))
  {
    if Usable(s, m) && s.count[m] >= 1 {
      var s1 := SetTask(s, s.cur, s.task[s.cur].(resume := Locking(m)));
      SchedNextUse(Record(Append(s1, MutexQueue(m), s.cur), Queued(m, s.cur)));
    }
  }

  lemma UnlockUse(s: Sched, m: int)
    requires WF(s)
    ensures SameUse(s, Unlock(s, m))
  {
  }

  lemma ReadUse(s: Sched, n: int)
    requires WF(s)
    ensures SameUse(s, Read(s, n))
  {
    if n > 0 {
      var left := LeftAtEntry(s, n);
      var x := s.task[s.cur].(toRead := left, resume := if left > 0 then Reading else User);
      var s1 := Entered(s, n);
      if left > 0 {
        SchedNextUse(Block(s1, x));
      }
    }
  }

  lemma KeyUse(s: Sched, c: char)
    requires WF(s)
    ensures SameUse(s, Key(s, c))
  {
    if s.q[BLOCKED] != [] && s.task[s.q[BLOCKED][0]].toRead > 0 {
      SchedNextUse(HandedOver(Counted(s, c)));
    }
  }

  // ---------- creation and exit

  lemma FreeHeadOnce(s: Sched)
    requires Inv(s) && s.q[FREE] != []
    ensures s.q[FREE][0] !in s.q[FREE][1..]
  {
    var q1 := s.q[FREE := s.q[FREE][1..]];
    QueuedIsElsewhere(s.q, s.cur, FREE);
    if s.q[FREE][0] in q1[FREE] {
      var i :| 0 <= i < |q1[FREE]| && q1[FREE][i] == s.q[FREE][0];
      OccMember(q1, FREE, i);
    }
  }

  /** The head of the free queue becomes a live PCB on directory d, which gains a reference. */
  lemma NewUser(s: Sched, r: Sched, d: nat)
    requires Inv(s) && s.q[FREE] != [] && WF(r) && RefsExact(s) && d < NR_TASKS
    requires r.q[FREE] == s.q[FREE][1..] && r.refs == s.refs[d := s.refs[d] + 1]
    requires r.task == s.task[s.q[FREE][0] := r.task[s.q[FREE][0]]] && r.task[s.q[FREE][0]].dir == d
    ensures RefsExact(r)
  {
    var child := s.q[FREE][0];
    FreeHeadOnce(s);
    forall e: nat | e < NR_TASKS
      ensures r.refs[e] == |Users(r, e)|
    {
      assert Users(r, e) == Users(s, e) + if e == d then {child} else {};
    }
  }

  /** A fork that fails for want of pages keeps a reference it should have dropped. */
  lemma ForkRefsIff(s: Sched, enoughPages: bool)
    requires Inv(s) && RefsExact(s)
    ensures RefsExact(Fork(s, enoughPages)) <==> enoughPages || s.q[FREE] == []
  {
    if s.q[FREE] != [] {
      var r, child := Fork(s, enoughPages), s.q[FREE][0];
      if enoughPages {
        NewUser(s, r, child);
      } else {
        FreeHeadOnce(s);
        assert s.q[FREE] == [child] + s.q[FREE][1..];
        assert Users(r, child) == Users(s, child);
        assert r.refs[child] == s.refs[child] + 1;
      }
    }
  }

  lemma CreateThreadRefs(s: Sched)
    requires Inv(s) && RefsExact(s)
    ensures RefsExact(CreateThread(s))
  {
    if s.q[FREE] != [] {
      NewUser(s, CreateThread(s), s.task[s.cur].dir);
    }
  }

  lemma RunningIsLive(s: Sched)
    requires Inv(s)
    ensures s.cur in Users(s, s.task[s.cur].dir)
  {
    assert Occ(s.q, s.cur) + Outside(s.cur, s.cur) == 1;
    if s.cur in s.q[FREE] {
      var i :| 0 <= i < |s.q[FREE]| && s.q[FREE][i] == s.cur;
      OccMember(s.q, FREE, i);
    }
  }

  lemma LeaveRefs(s: Sched)
    requires Inv(s) && RefsExact(s)
    ensures RefsExact(Leave(s))
  {
    var r := Leave(s);
    RunningIsLive(s);
    forall e: nat | e < NR_TASKS
      ensures r.refs[e] == |Users(r, e)|
    {
      assert Users(r, e) == Users(s, e) - if e == s.task[s.cur].dir then {s.cur} else {};
    }
  }

  lemma ExitRefs(s: Sched)
    requires Inv(s) && RefsExact(s)
    ensures RefsExact(Exit(s))
  {
    LeaveRefs(s);
    SchedNextUse(Leave(s));
    SameUseKeeps(Leave(s), Exit(s));
  }

  // ---------- whole runs

  ghost predicate ForksSucceed(steps: seq<Step>) {
    forall i :: 0 <= i < |steps| && steps[i].ForkCall? ==> steps[i].enoughPages
  }

  lemma StepRefs(s: Sched, a: Step)
    requires Inv(s) && RefsExact(s) && (a.ForkCall? ==> a.enoughPages)
    ensures RefsExact(Apply(s, a))
  {
    match a
    case ForkCall(ok) => ForkRefsIff(s, ok);
    case CreateThreadCall => CreateThreadRefs(s);
    case ExitCall => ExitRefs(s);
    case _ =>
      QuietStepUse(s, a);
      SameUseKeeps(s, Apply(s, a));
  }

  lemma {:induction false} RunRefs(s: Sched, steps: seq<Step>)
    requires Inv(s) && RefsExact(s) && AllAllowed(s, steps) && ForksSucceed(steps)
    ensures RefsExact(Run(s, steps))
    decreases steps
  {
    if steps != [] {
      StepInv(s, steps[0]);
      StepRefs(s, steps[0]);
      RunRefs(Apply(s, steps[0]), steps[1..]);
    }
  }

  lemma BootRefs()
    ensures RefsExact(Boot())
  {
    var s := Boot();
    assert s.q[FREE] == seq(NR_TASKS - 2, i => 2 + i);
    forall t: nat | t < NR_TASKS
      ensures t in s.q[FREE] <==> t >= 2
    {
      if t >= 2 {
        assert s.q[FREE][t - 2] == t;
      }
    }
    assert Users(s, 0) == {0} && Users(s, 1) == {1};
    forall d: nat | 2 <= d < NR_TASKS
      ensures Users(s, d) == {}
    {
    }
  }

  /** The headline: after any run from boot in which forks find their pages. */
  lemma RefsOverRuns(steps: seq<Step>)
    requires AllAllowed(Boot(), steps) && ForksSucceed(steps)
    ensures RefsExact(Run(Boot(), steps))
  {
    BootInv();
    BootRefs();
    RunRefs(Boot(), steps);
  }

  // ---------- when pages are freed

  lemma SchedNextFrees(s: Sched, d: nat)
    requires WF(s)
    ensures Occurs(SchedNext(s).log, PagesFreed(d)) == Occurs(s.log, PagesFreed(d))
  {
  }

  /** free_user_pages runs for directory d in an exit exactly when the exiting task is its only user. */
  lemma ExitFreesIff(s: Sched, d: nat)
    requires Inv(s) && RefsExact(s) && d < NR_TASKS
    ensures Occurs(Exit(s).log, PagesFreed(d)) == Occurs(s.log, PagesFreed(d)) + if Users(s, d) == {s.cur} then 1 else 0
  {
    var e := s.task[s.cur].dir;
    RunningIsLive(s);
    SchedNextFrees(Leave(s), d);
    assert |Users(s, e)| == |Users(s, e) - {s.cur}| + 1;
    if s.refs[e] == 1 {
      assert Users(s, e) - {s.cur} == {};
      assert Users(s, e) == {s.cur};
    }
    assert Users(s, d) == {s.cur} ==> d == e by {
      if Users(s, d) == {s.cur} {
        assert s.cur in Users(s, d);
      }
    }
  }

  lemma KeyFrees(s: Sched, c: char, d: nat)
    requires WF(s)
    ensures Occurs(Key(s, c).log, PagesFreed(d)) == Occurs(s.log, PagesFreed(d))
  {
    if s.q[BLOCKED] != [] && s.task[s.q[BLOCKED][0]].toRead > 0 {
      SchedNextFrees(HandedOver(Counted(s, c)), d);
    }
  }

  lemma LockFrees(s: Sched, m: int, d: nat)
    requires WF(s)
    ensures Occurs(Lock(s, m).log, PagesFreed(d)) == Occurs(s.log, PagesFreed(d))
  {
    if Usable(s, m) && s.count[m] >= 1 {
      var s1 := SetTask(s, s.cur, s.task[s.cur].(resume := Locking(m)));
      SchedNextFrees(Record(Append(s1, MutexQueue(m), s.cur), Queued(m, s.cur)), d);
    }
  }

  lemma ReadFrees(s: Sched, n: int, d: nat)
    requires WF(s)
    ensures Occurs(Read(s, n).log, PagesFreed(d)) == Occurs(s.log, PagesFreed(d))
  {
    if n > 0 {
      var left := LeftAtEntry(s, n);
      var x := s.task[s.cur].(toRead := left, resume := if left > 0 then Reading else User);
      var s1 := Entered(s, n);
      if left > 0 {
        SchedNextFrees(Block(s1, x), d);
      }
    }
  }

  /** No other step frees the pages of a directory. */
  lemma OnlyExitFrees(s: Sched, a: Step, d: nat)
    requires WF(s) && !a.ExitCall?
    ensures Occurs(Apply(s, a).log, PagesFreed(d)) == Occurs(s.log, PagesFreed(d))
  {
    match a
    case KeyPress(c) => KeyFrees(s, c, d);
    case LockCall(m) => LockFrees(s, m, d);
    case ReadCall(n) => ReadFrees(s, n, d);
    case ClockTick =>
      var s1 := s.(ticks := s.ticks - 1);
      SchedNextFrees(if s.cur != IDLE then Append(s1, READY, s.cur) else s1, d);
    case _ =>
  }
}
