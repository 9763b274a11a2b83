// The partition invariant over whole runs from boot, and where it stops holding.

module PartitionRuns {
  import opened Common
  import opened SchedSpec
  import opened Partition

  // ---------- runs

  /** A step that user programs, the clock or the keyboard can cause; no key maps to NUL. */
  predicate Possible(s: Sched, a: Step) {
    Enabled(s, a) && (a.KeyPress? ==> a.c != '\0')
  }

  /** A key that would wake a reader while idle runs is set apart: see KeyKeepsPartitionIff. */
  predicate Allowed(s: Sched, a: Step)
    requires WF(s)
  {
    Possible(s, a) && !(s.cur == IDLE && a.KeyPress? && Wakes(s, a.c))
  }

  ghost function Run(s: Sched, steps: seq<Step>): (r: Sched)
    requires WF(s)
    ensures WF(r)
    decreases steps
  {
    if steps == [] then s else Run(Apply(s, steps[0]), steps[1..])
  }

  ghost predicate AllAllowed(s: Sched, steps: seq<Step>)
    requires WF(s)
    decreases steps
  {
    steps != [] ==> Allowed(s, steps[0]) && AllAllowed(Apply(s, steps[0]), steps[1..])
  }

  /** The same, but the last step may also be a key that wakes a reader over idle. */
  ghost predicate AllowedToLast(s: Sched, steps: seq<Step>)
    requires WF(s)
    decreases steps
  {
    steps != [] ==>
      && Possible(s, steps[0])
      && (|steps| > 1 ==> Allowed(s, steps[0]) && AllowedToLast(Apply(s, steps[0]), steps[1..]))
  }

  lemma {:induction false} AllowedIsToLast(s: Sched, steps: seq<Step>)
    requires WF(s) && AllAllowed(s, steps)
    ensures AllowedToLast(s, steps)
    decreases steps
  {
    if steps != [] {
      AllowedIsToLast(Apply(s, steps[0]), steps[1..]);
    }
  }

  lemma StepInv(s: Sched, a: Step)
    requires Inv(s) && Allowed(s, a)
    ensures Inv(Apply(s, a))
  {
    match a
    case ClockTick => TickInv(s);
    case ForkCall(ok) => ForkInv(s, ok);
    case CreateThreadCall => CreateThreadInv(s);
    case ExitCall => ExitInv(s);
    case InitMutexCall(m) =>
    case LockCall(m) => LockInv(s, m);
    case UnlockCall(m) => UnlockInv(s, m);
    case ReadCall(n) => ReadInv(s, n);
    case KeyPress(c) => KeyInv(s, c);
  }

  lemma {:induction false} RunInv(s: Sched, steps: seq<Step>)
    requires Inv(s) && AllAllowed(s, steps)
    ensures Inv(Run(s, steps))
    decreases steps
  {
    if steps != [] {
      StepInv(s, steps[0]);
      RunInv(Apply(s, steps[0]), steps[1..]);
    }
  }

  // ---------- boot

  lemma {:induction false} CountRange(n: nat, lo: nat, t: nat)
    ensures Count(seq(n, i => lo + i), t) == if lo <= t < lo + n then 1 else 0
  {
    var x := seq(n, i => lo + i);
    if n > 0 {
      CountRange(n - 1, lo, t);
      assert x == seq(n - 1, i => lo + i) + [lo + n - 1];
    }
  }

  lemma {:induction false} OccAllEmpty(q: seq<seq<nat>>, t: nat)
    requires forall d :: 0 <= d < |q| ==> q[d] == []
    ensures Occ(q, t) == 0
  {
    if q != [] {
      OccAllEmpty(q[..|q| - 1], t);
    }
  }

  lemma BootInv()
    ensures Inv(Boot())
  {
    var s := Boot();
    var free: seq<nat> := seq(NR_TASKS - 2, i => 2 + i);
    BootState();
    forall t: nat | t < NR_TASKS
      ensures Occ(s.q, t) + Outside(s.cur, t) == 1
    {
      BootOcc(s.q, free, t);
    }
  }

  lemma BootOcc(q: seq<seq<nat>>, free: seq<nat>, t: nat)
    requires q == seq(NR_QUEUES, d => [])[FREE := free] && free == seq(NR_TASKS - 2, i => 2 + i)
    ensures Occ(q, t) == if 2 <= t < NR_TASKS then 1 else 0
  {
    OccUpdate(q, FREE, [], t);
    OccAllEmpty(q[FREE := []], t);
    CountRange(NR_TASKS - 2, 2, t);
  }

  // ---------- exactly one place

  datatype Place = Running | ParkedIdle | InQueue(d: nat, i: nat)

  ghost predicate At(s: Sched, t: nat, p: Place) {
    match p
    case Running => s.cur == t
    case ParkedIdle => t == IDLE && s.cur != IDLE
    case InQueue(d, i) => d < |s.q| && i < |s.q[d]| && s.q[d][i] == t
  }

  ghost predicate InOnePlace(s: Sched, t: nat) {
    && (exists p :: At(s, t, p))
    && (forall p, p' :: At(s, t, p) && At(s, t, p') ==> p == p')
  }

  lemma {:induction false} OccWitness(q: seq<seq<nat>>, t: nat) returns (d: nat, i: nat)
    requires Occ(q, t) > 0
    ensures d < |q| && i < |q[d]| && q[d][i] == t
  {
    var n := |q| - 1;
    if Count(q[n], t) > 0 {
      d := n;
      assert t in q[n];
      i :| 0 <= i < |q[n]| && q[n][i] == t;
    } else {
      d, i := OccWitness(q[..n], t);
    }
  }

  lemma CountTwo(x: seq<nat>, i: nat, j: nat)
    requires i < j < |x| && x[i] == x[j]
    ensures Count(x, x[i]) >= 2
  {
    assert x == x[..j] + [x[j]] + x[j + 1..];
    assert x[i] == x[..j][i] && x[i] in multiset(x[..j]);
  }

  /** The headline: every PCB is in exactly one place. */
  lemma ExactlyOnePlace(s: Sched, t: nat)
    requires Inv(s) && t < NR_TASKS
    ensures InOnePlace(s, t)
    ensures t == IDLE ==> forall p :: At(s, t, p) ==> !p.InQueue?
  {
    assert Occ(s.q, t) + Outside(s.cur, t) == 1;
    if s.cur == t {
      assert At(s, t, Running);
    } else if t == IDLE {
      assert At(s, t, ParkedIdle);
    } else {
      var d, i := OccWitness(s.q, t);
      assert At(s, t, InQueue(d, i));
    }
    forall p, p' | At(s, t, p) && At(s, t, p')
      ensures p == p'
    {
      if p.InQueue? && p'.InQueue? {
        OccWithin(s.q, p.d, p'.d, t);
        OccMember(s.q, p.d, p.i);
        OccMember(s.q, p'.d, p'.i);
        if p.d == p'.d && p.i < p'.i {
          CountTwo(s.q[p.d], p.i, p'.i);
        } else if p.d == p'.d && p'.i < p.i {
          CountTwo(s.q[p.d], p'.i, p.i);
        }
      } else if p.InQueue? {
        OccMember(s.q, p.d, p.i);
      } else if p'.InQueue? {
        OccMember(s.q, p'.d, p'.i);
      }
    }
  }

  lemma PartitionOverRuns(steps: seq<Step>, t: nat)
    requires AllAllowed(Boot(), steps) && t < NR_TASKS
    ensures InOnePlace(Run(Boot(), steps), t)
    ensures t == IDLE ==> forall p :: At(Run(Boot(), steps), t, p) ==> !p.InQueue?
  {
    BootInv();
    RunInv(Boot(), steps);
    ExactlyOnePlace(Run(Boot(), steps), t);
  }

  // ---------- the one step that breaks the partition

  /** keyboard_routine puts the interrupted task on the ready queue, also when it is idle. */
  lemma IdleIsQueued(s: Sched, c: char)
    requires Inv(s) && c != '\0' && s.cur == IDLE && Wakes(s, c)
    ensures Key(s, c).q[READY] == [IDLE]
  {
    var t := s.q[BLOCKED][0];
    DropFirstFits(s.q, s.task, BLOCKED);
    QueuedIsElsewhere(s.q, s.cur, BLOCKED);
  }

  /** A key press keeps every PCB in one place exactly when it does not wake a reader over idle. */
  lemma KeyKeepsPartitionIff(s: Sched, c: char)
    requires Inv(s) && c != '\0'
    ensures Partitioned(Key(s, c).q, Key(s, c).cur) <==> !(s.cur == IDLE && Wakes(s, c))
  {
    if s.cur == IDLE && Wakes(s, c) {
      var r := Key(s, c);
      IdleIsQueued(s, c);
      OccMember(r.q, READY, 0);
      assert Occ(r.q, IDLE) + Outside(r.cur, IDLE) >= 2;
    } else {
      KeyInv(s, c);
    }
  }

  lemma RunOne(s: Sched, a: Step)
    requires WF(s)
    ensures Run(s, [a]) == Apply(s, a) && (AllAllowed(s, [a]) <==> Allowed(s, a))
  {
    assert [a][1..] == [] && Run(Apply(s, a), []) == Apply(s, a);
  }

  lemma BootFacts()
    ensures var s := Boot();
            && s.cur == 1 && s.keys == [] && s.q[READY] == [] && s.q[BLOCKED] == []
            && s.count == seq(MAX_MUTEXES, m => 0) && s.log == []
  {
    BootState();
  }

  /** A process alone in the system that reads one character leaves the processor to idle. */
  lemma LoneRead(s: Sched, c: char)
    requires Inv(s) && s.cur != IDLE && s.keys == [] && s.q[READY] == [] && s.q[BLOCKED] == []
    ensures Read(s, 1).cur == IDLE && Wakes(Read(s, 1), c)
  {
  }

  lemma LoneReadThenKey(s: Sched, c: char)
    requires Inv(s) && s.cur != IDLE && s.keys == [] && s.q[READY] == [] && s.q[BLOCKED] == [] && c != '\0'
    ensures var r := Apply(s, ReadCall(1));
            r.cur == IDLE && Wakes(r, c) && !Partitioned(Key(r, c).q, Key(r, c).cur)
  {
    hide Key, Partitioned, Read;
    var r := Read(s, 1);
    ReadInv(s, 1);
    LoneRead(s, c);
    KeyKeepsPartitionIff(r, c);
  }

  /** The broken step is reachable: the first process reads one character, then a key is pressed. */
  lemma IdleWakeIsReachable(c: char)
    requires c != '\0'
    ensures AllAllowed(Boot(), [ReadCall(1)])
    ensures var r := Run(Boot(), [ReadCall(1)]);
            r.cur == IDLE && Wakes(r, c) && !Partitioned(Key(r, c).q, Key(r, c).cur)
  {
    BootFacts();
    BootInv();
    LoneReadThenKey(Boot(), c);
    RunOne(Boot(), ReadCall(1));
  }
}
