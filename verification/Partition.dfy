// Every PCB is in exactly one place whenever the kernel returns to user mode.

module Partition {
  import opened Common
  import opened SchedSpec

  // ---------- occurrences in all queues together

  ghost function Count(x: seq<nat>, t: nat): nat {
    multiset(x)[t]
  }

  ghost function Occ(q: seq<seq<nat>>, t: nat): nat {
    if q == [] then 0 else Occ(q[..|q| - 1], t) + Count(q[|q| - 1], t)
  }

  lemma {:induction false} OccUpdate(q: seq<seq<nat>>, d: nat, x: seq<nat>, t: nat)
    requires d < |q|
    ensures Occ(q[d := x], t) + Count(q[d], t) == Occ(q, t) + Count(x, t)
  {
    var n := |q| - 1;
    if d == n {
      assert q[d := x][..n] == q[..n];
    } else {
      OccUpdate(q[..n], d, x, t);
      assert q[d := x][..n] == q[..n][d := x];
    }
  }

  /** A task is counted in every queue that holds it. */
  lemma OccWithin(q: seq<seq<nat>>, d: nat, e: nat, t: nat)
    requires d < |q| && e < |q|
    ensures Count(q[d], t) <= Occ(q, t)
    ensures d != e ==> Count(q[d], t) + Count(q[e], t) <= Occ(q, t)
  {
    OccUpdate(q, d, [], t);
    OccUpdate(q[d := []], e, [], t);
  }

  lemma OccMember(q: seq<seq<nat>>, d: nat, i: nat)
    requires d < |q| && i < |q[d]|
    ensures Occ(q, q[d][i]) >= Count(q[d], q[d][i]) >= 1
  {
    OccWithin(q, d, d, q[d][i]);
    assert q[d][i] in multiset(q[d]);
  }

  lemma OccAppend(q: seq<seq<nat>>, d: nat, x: nat, t: nat)
    requires d < |q|
    ensures Occ(q[d := q[d] + [x]], t) == Occ(q, t) + if t == x then 1 else 0
    ensures Occ(q[d := [x] + q[d]], t) == Occ(q, t) + if t == x then 1 else 0
  {
    OccUpdate(q, d, q[d] + [x], t);
    OccUpdate(q, d, [x] + q[d], t);
  }

  lemma OccDropFirst(q: seq<seq<nat>>, d: nat, t: nat)
    requires d < |q| && q[d] != []
    ensures Occ(q, t) == Occ(q[d := q[d][1..]], t) + if t == q[d][0] then 1 else 0
  {
    OccUpdate(q, d, q[d][1..], t);
    assert q[d] == [q[d][0]] + q[d][1..];
  }

  // ---------- the invariant

  /** Where t is apart from the queues: on the processor, or the parked idle task. */
  ghost function Outside(cur: nat, t: nat): nat {
    (if cur == t then 1 else 0) + (if t == IDLE && cur != IDLE then 1 else 0)
  }

  /** Every PCB is in exactly one place. */
  ghost predicate Partitioned(q: seq<seq<nat>>, cur: nat) {
    forall t {:trigger Occ(q, t)} :: 0 <= t < NR_TASKS ==> Occ(q, t) + Outside(cur, t) == 1
  }

  /** Every PCB but idle is in exactly one queue: the processor has been vacated. */
  ghost predicate Vacated(q: seq<seq<nat>>) {
    forall t {:trigger Occ(q, t)} :: 0 <= t < NR_TASKS ==> Occ(q, t) == if t == IDLE then 0 else 1
  }

  /** What a task in queue d looks like. */
  ghost predicate Fits(d: nat, x: Task) {
    && (d != FREE ==> x.quantum > 0)
    && (d == READY ==> !x.resume.Reading?)
    && (d == BLOCKED ==> x.resume.Reading? && x.toRead > 0)
    && (d >= MutexQueue(0) ==> x.resume == Locking(d - MutexQueue(0)))
  }

  ghost predicate AllFit(q: seq<seq<nat>>, task: seq<Task>) {
    forall d, i {:trigger q[d][i]} :: 0 <= d < |q| && 0 <= i < |q[d]| && q[d][i] < |task| ==> Fits(d, task[q[d][i]])
  }

  ghost predicate KeysOk(keys: seq<char>) {
    |keys| <= TAM_BUF && '\0' !in keys
  }

  /** The running task is between system calls and has time left; idle runs only if nothing else can. */
  ghost predicate RunningOk(s: Sched)
    requires WF(s)
  {
    && s.task[s.cur].resume.User?
    && (s.cur != IDLE ==> s.task[s.cur].quantum > 0 && s.ticks > 0)
    && (s.cur == IDLE ==> s.q[READY] == [])
  }

  /** Holds whenever the kernel is in user mode. */
  ghost predicate Inv(s: Sched) {
    && WF(s) && Partitioned(s.q, s.cur) && AllFit(s.q, s.task) && KeysOk(s.keys)
    && s.task[IDLE].resume.User? && RunningOk(s)
  }

  /** Holds inside the kernel once the running task has been queued, before sched_next_rr. */
  ghost predicate ReadyToSwitch(s: Sched) {
    && WF(s) && Vacated(s.q) && AllFit(s.q, s.task) && KeysOk(s.keys)
    && s.task[IDLE].resume.User?
    && (s.q[READY] != [] ==> s.q[READY][0] != s.cur)
  }

  // ---------- places, queue move by queue move

  lemma PlaceCurrent(q: seq<seq<nat>>, cur: nat, d: nat)
    requires Partitioned(q, cur) && IDLE != cur < NR_TASKS && d < |q|
    ensures Vacated(q[d := q[d] + [cur]])
  {
    var q1 := q[d := q[d] + [cur]];
    forall t: nat | t < NR_TASKS
      ensures Occ(q1, t) == if t == IDLE then 0 else 1
    {
      OccAppend(q, d, cur, t);
      assert Occ(q, t) + Outside(cur, t) == 1;
    }
  }

  lemma TakeFirstReady(q: seq<seq<nat>>)
    requires Vacated(q) && READY < |q| && q[READY] != [] && q[READY][0] < NR_TASKS
    ensures q[READY][0] != IDLE && Partitioned(q[READY := q[READY][1..]], q[READY][0])
    ensures Occ(q[READY := q[READY][1..]], q[READY][0]) == 0
  {
    OccMember(q, READY, 0);
    var x, q1 := q[READY][0], q[READY := q[READY][1..]];
    OccDropFirst(q, READY, x);
    forall t: nat | t < NR_TASKS
      ensures Occ(q1, t) + Outside(x, t) == 1
    {
      OccDropFirst(q, READY, t);
    }
  }

  lemma TakeIdle(q: seq<seq<nat>>)
    requires Vacated(q)
    ensures Partitioned(q, IDLE) && Occ(q, IDLE) == 0
  {
  }

  /** Moving the first element of one queue to either end of a queue keeps every task in its one place. */
  lemma MoveFirst(q: seq<seq<nat>>, cur: nat, d: nat, e: nat)
    requires Partitioned(q, cur) && d < |q| && e < |q| && q[d] != []
    ensures var x, q1 := q[d][0], q[d := q[d][1..]];
            Partitioned(q1[e := q1[e] + [x]], cur) && Partitioned(q1[e := [x] + q1[e]], cur)
  {
    var x, q1 := q[d][0], q[d := q[d][1..]];
    forall t: nat | t < NR_TASKS
      ensures Occ(q1[e := q1[e] + [x]], t) + Outside(cur, t) == 1
      ensures Occ(q1[e := [x] + q1[e]], t) + Outside(cur, t) == 1
    {
      OccDropFirst(q, d, t);
      OccAppend(q1, e, x, t);
    }
  }

  /** A queued task is neither running nor idle. */
  lemma QueuedIsElsewhere(q: seq<seq<nat>>, cur: nat, d: nat)
    requires Partitioned(q, cur) && d < |q| && q[d] != [] && q[d][0] < NR_TASKS
    ensures q[d][0] != cur && q[d][0] != IDLE
    ensures Occ(q, q[d][0]) == 1 && Occ(q[d := q[d][1..]], q[d][0]) == 0
  {
    OccMember(q, d, 0);
    OccDropFirst(q, d, q[d][0]);
  }

  /** Two queues never start with the same task. */
  lemma FirstsDiffer(q: seq<seq<nat>>, d: nat, e: nat)
    requires d < |q| && e < |q| && d != e && q[d] != [] && q[e] != [] && Occ(q, q[d][0]) <= 1
    ensures q[d][0] != q[e][0]
  {
    OccWithin(q, d, e, q[d][0]);
    OccMember(q, d, 0);
    OccMember(q, e, 0);
  }

  /** The first task of d takes the processor and the running task queues on e. */
  lemma Exchange(q: seq<seq<nat>>, cur: nat, d: nat, e: nat)
    requires Partitioned(q, cur) && IDLE != cur < NR_TASKS
    requires d < |q| && e < |q| && d != e && q[d] != [] && q[d][0] < NR_TASKS
    ensures Partitioned(q[e := q[e] + [cur]][d := q[d][1..]], q[d][0])
  {
    QueuedIsElsewhere(q, cur, d);
    var q1 := q[e := q[e] + [cur]];
    forall t: nat | t < NR_TASKS
      ensures Occ(q1[d := q1[d][1..]], t) + Outside(q[d][0], t) == 1
    {
      OccAppend(q, e, cur, t);
      OccDropFirst(q1, d, t);
    }
  }

  // ---------- what queued tasks look like, queue move by queue move

  lemma SetTaskFits(q: seq<seq<nat>>, task: seq<Task>, t: nat, x: Task)
    requires AllFit(q, task) && t < |task| && Occ(q, t) == 0
    ensures AllFit(q, task[t := x])
  {
    forall d, i {:trigger q[d][i]} | 0 <= d < |q| && 0 <= i < |q[d]| && q[d][i] < |task|
      ensures Fits(d, task[t := x][q[d][i]])
    {
      OccMember(q, d, i);
    }
  }

  lemma AppendFits(q: seq<seq<nat>>, task: seq<Task>, d: nat, t: nat)
    requires AllFit(q, task) && d < |q| && t < |task| && Fits(d, task[t])
    ensures AllFit(q[d := q[d] + [t]], task)
    ensures AllFit(q[d := [t] + q[d]], task)
  {
  }

  lemma DropFirstFits(q: seq<seq<nat>>, task: seq<Task>, d: nat)
    requires AllFit(q, task) && d < |q| && q[d] != []
    ensures AllFit(q[d := q[d][1..]], task)
    ensures q[d][0] < |task| ==> Fits(d, task[q[d][0]])
  {
  }

  // ---------- the steps

  lemma SchedNextInv(s: Sched)
    requires ReadyToSwitch(s)
    ensures Inv(SchedNext(s))
  {
    var next, s1 := Next(s), SwitchToNext(s);
    if s.q[READY] != [] {
      TakeFirstReady(s.q);
      DropFirstFits(s.q, s.task, READY);
      assert s1.q == s.q[READY := s.q[READY][1..]];
    } else {
      TakeIdle(s.q);
    }
    SetTaskFits(s1.q, s1.task, next, s1.task[next].(resume := User));
    assert s1.task[next].resume.User? ==> ResumeCurrent(s1) == s1;
  }

  /** Queueing the running task on d, with its PCB updated to x, vacates the processor. */
  lemma VacateInv(s: Sched, d: nat, x: Task)
    requires Inv(s) && s.cur != IDLE && d < NR_QUEUES
    requires Fits(d, x) && x.dir < NR_TASKS && (x.resume.Locking? ==> x.resume.mutex < MAX_MUTEXES)
    requires d == READY ==> s.q[READY] != []
    ensures ReadyToSwitch(Append(SetTask(s, s.cur, x), d, s.cur))
  {
    assert Occ(s.q, s.cur) == 0;
    PlaceCurrent(s.q, s.cur, d);
    SetTaskFits(s.q, s.task, s.cur, x);
    AppendFits(s.q, s.task[s.cur := x], d, s.cur);
    if s.q[READY] != [] {
      QueuedIsElsewhere(s.q, s.cur, READY);
    }
  }

  lemma TickInv(s: Sched)
    requires Inv(s)
    ensures Inv(Tick(s))
  {
    var s1 := s.(ticks := s.ticks - 1);
    if s1.ticks == 0 && s1.q[READY] != [] {
      VacateInv(s, READY, s.task[s.cur]);
      assert s.task[s.cur := s.task[s.cur]] == s.task;
      SchedNextInv(Append(s1, READY, s.cur));
    }
  }

  /** A new PCB x, taken from the free queue, is queued on d. */
  lemma NewTaskInv(s: Sched, r: Sched, x: Task, d: nat)
    requires Inv(s) && s.cur != IDLE && s.q[FREE] != [] && WF(r)
    requires (d == FREE || d == READY) && x.quantum == s.task[s.cur].quantum && x.resume.User?
    requires r.cur == s.cur && r.ticks == s.ticks && r.keys == s.keys
    requires r.task == s.task[s.q[FREE][0] := x]
    requires var q1 := s.q[FREE := s.q[FREE][1..]]; r.q == q1[d := q1[d] + [s.q[FREE][0]]]
    ensures Inv(r)
  {
    var q1 := s.q[FREE := s.q[FREE][1..]];
    MoveFirst(s.q, s.cur, FREE, d);
    QueuedIsElsewhere(s.q, s.cur, FREE);
    DropFirstFits(s.q, s.task, FREE);
    SetTaskFits(q1, s.task, s.q[FREE][0], x);
    AppendFits(q1, r.task, d, s.q[FREE][0]);
  }

  lemma ForkInv(s: Sched, enoughPages: bool)
    requires Inv(s) && s.cur != IDLE
    ensures Inv(Fork(s, enoughPages))
  {
    if s.q[FREE] != [] {
      var r := Fork(s, enoughPages);
      var child := s.q[FREE][0];
      NewTaskInv(s, r, r.task[child], if enoughPages then READY else FREE);
    }
  }

  lemma CreateThreadInv(s: Sched)
    requires Inv(s) && s.cur != IDLE
    ensures Inv(CreateThread(s))
  {
    if s.q[FREE] != [] {
      var r := CreateThread(s);
      NewTaskInv(s, r, r.task[s.q[FREE][0]], READY);
    }
  }

  lemma ExitInv(s: Sched)
    requires Inv(s) && s.cur != IDLE
    ensures Inv(Exit(s))
  {
    VacateInv(s, FREE, s.task[s.cur]);
    assert s.task[s.cur := s.task[s.cur]] == s.task;
    SchedNextInv(Leave(s));
  }

  lemma LockInv(s: Sched, m: int)
    requires Inv(s) && s.cur != IDLE
    ensures Inv(Lock(s, m))
  {
    if Usable(s, m) && s.count[m] >= 1 {
      var x := s.task[s.cur].(resume := Locking(m));
      VacateInv(s, MutexQueue(m), x);
      SchedNextInv(Record(Append(SetTask(s, s.cur, x), MutexQueue(m), s.cur), Queued(m, s.cur)));
    }
  }

  lemma UnlockInv(s: Sched, m: int)
    requires Inv(s) && s.cur != IDLE
    ensures Inv(Unlock(s, m))
  {
    if Usable(s, m) && s.count[m] != 0 && s.q[MutexQueue(m)] != [] {
      var d := MutexQueue(m);
      MoveFirst(s.q, s.cur, d, READY);
      DropFirstFits(s.q, s.task, d);
      AppendFits(s.q[d := s.q[d][1..]], s.task, READY, s.q[d][0]);
    }
  }

  /** Changing the request fields of the running task and the keyboard buffer. */
  lemma SetRunningInv(s: Sched, x: Task)
    requires Inv(s) && s.cur != IDLE && x.dir < NR_TASKS && x.resume.User? && x.quantum > 0
    ensures Inv(SetTask(s, s.cur, x))
  {
    assert Occ(s.q, s.cur) == 0;
    SetTaskFits(s.q, s.task, s.cur, x);
  }

  lemma ReadInv(s: Sched, n: int)
    requires Inv(s) && s.cur != IDLE
    ensures Inv(Read(s, n))
  {
    if n > 0 {
      var left := LeftAtEntry(s, n);
      var x := s.task[s.cur].(toRead := left, resume := if left > 0 then Reading else User);
      var s1 := Entered(s, n);
      if left > 0 {
        VacateInv(s1, BLOCKED, x);
        SchedNextInv(Block(s1, x));
      } else {
        SetRunningInv(s1, x);
      }
    }
  }

  /** Counting one more key for the first reader. */
  lemma CountKeyFits(q: seq<seq<nat>>, task: seq<Task>, t: nat)
    requires AllFit(q, task) && t < |task| && task[t].toRead > 1
    ensures AllFit(q, task[t := task[t].(toRead := task[t].toRead - 1)])
  {
  }

  lemma CountedInv(s: Sched, c: char)
    requires Inv(s) && c != '\0' && s.q[BLOCKED] != [] && s.task[s.q[BLOCKED][0]].toRead > 1
    ensures Inv(Counted(s, c))
  {
    QueuedIsElsewhere(s.q, s.cur, BLOCKED);
    CountKeyFits(s.q, s.task, s.q[BLOCKED][0]);
  }

  /** The reader runs while it is still in the blocked queue. */
  lemma HandedOverReady(s: Sched)
    requires Inv(s) && s.cur != IDLE && s.q[BLOCKED] != []
    ensures ReadyToSwitch(HandedOver(s))
  {
    PlaceCurrent(s.q, s.cur, READY);
    AppendFits(s.q, s.task, READY, s.cur);
    QueuedIsElsewhere(s.q, s.cur, BLOCKED);
    if s.q[READY] != [] {
      FirstsDiffer(s.q, BLOCKED, READY);
    }
  }

  /** The key completes the request of the first reader, which runs. */
  lemma FinalWakeInv(s: Sched, c: char)
    requires Inv(s) && c != '\0' && s.cur != IDLE && Wakes(s, c) && s.task[s.q[BLOCKED][0]].toRead == 1
    ensures Inv(Key(s, c))
  {
    var t, r := s.q[BLOCKED][0], Key(s, c);
    var q1 := s.q[BLOCKED := s.q[BLOCKED][1..]];
    Exchange(s.q, s.cur, BLOCKED, READY);
    QueuedIsElsewhere(s.q, s.cur, BLOCKED);
    DropFirstFits(s.q, s.task, BLOCKED);
    SetTaskFits(q1, s.task, t, r.task[t]);
    AppendFits(q1, r.task, READY, s.cur);
    assert r.q == q1[READY := q1[READY] + [s.cur]];
  }

  lemma KeyInv(s: Sched, c: char)
    requires Inv(s) && c != '\0'
    requires !(s.cur == IDLE && Wakes(s, c))
    ensures Inv(Key(s, c))
  {
    if s.q[BLOCKED] != [] {
      DropFirstFits(s.q, s.task, BLOCKED);
      if s.task[s.q[BLOCKED][0]].toRead > 1 {
        CountedInv(s, c);
        if Wakes(s, c) {
          HandedOverReady(Counted(s, c));
          SchedNextInv(HandedOver(Counted(s, c)));
        }
      } else {
        FinalWakeInv(s, c);
      }
    }
  }
}
