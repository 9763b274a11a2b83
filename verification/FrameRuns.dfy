// Frame accounting over runs of processes: fork, exit, clock, mutexes and reads together with the page
// tables and the frame bytemap, without threads and heap requests.

module FrameRuns {
  import opened Common
  import opened SchedSpec
  import opened Partition
  import opened PartitionRuns
  import opened Directories
  import opened Frames
  import opened Paging
  import opened Ledgers

  datatype Mem = Mem(used: Bytemap, pt: seq<Table>)

  /** Live processes: every PCB that is neither free nor idle. */
  ghost function Procs(s: Sched): set<nat>
    requires WF(s)
  {
    set t: nat | t < NR_TASKS && t != IDLE && t !in s.q[FREE]
  }

  ghost predicate WithinTables(procs: set<nat>, m: Mem) {
    |m.pt| == NR_TASKS && forall t :: t in procs ==> t < NR_TASKS
  }

  /** The data frames of every process, read off its page table. */
  ghost function OwnOf(procs: set<nat>, m: Mem): (own: Ledger)
    requires WithinTables(procs, m)
    ensures own.Keys == procs
  {
    map t | t in procs :: DataFrames(m.pt[t])
  }

  // ---------- the invariant

  /** Nobody shares a directory. */
  ghost predicate OwnDirs(s: Sched)
    requires WF(s)
  {
    forall t :: 0 <= t < NR_TASKS && t !in s.q[FREE] ==> s.task[t].dir == t
  }

  /** One address space, as user programs may see it: data pages, the shared code, nothing beyond. */
  ghost predicate TableOk(t: Table) {
    && Access(t)
    && (forall p :: PAG_LOG_INIT_CODE <= p < FIRST_EXTRA ==> t[p] == CodePte(p - PAG_LOG_INIT_CODE))
    && (forall p :: FIRST_EXTRA <= p < TOTAL_PAGES ==> !t[p].present)
  }

  ghost predicate MemInv(procs: set<nat>, m: Mem) {
    && WithinTables(procs, m)
    && Balanced(m.used, OwnOf(procs, m))
    && forall t :: t in procs ==> TableOk(m.pt[t])
  }

  // ---------- what a step does to memory

  /** copy_and_allocate_pages from directory parent to directory child. */
  ghost predicate ForkMem(m: Mem, m': Mem, parent: nat, child: nat, fs: seq<nat>) {
    && |m.pt| == |m'.pt| == NR_TASKS && parent < NR_TASKS && child < NR_TASKS && parent != child
    && |fs| == NUM_PAG_DATA && Copied(m.used, m.pt[parent], m'.used, m'.pt[child], fs)
    && Trimmed(m.pt[parent], m'.pt[parent])
    && forall i :: 0 <= i < NR_TASKS && i != parent && i != child ==> m'.pt[i] == m.pt[i]
  }

  /** free_user_pages of directory d. */
  ghost predicate ExitMem(m: Mem, m': Mem, d: nat) {
    && |m.pt| == |m'.pt| == NR_TASKS && d < NR_TASKS
    && Released(m.used, m.pt[d], m'.used, m'.pt[d])
    && forall i :: 0 <= i < NR_TASKS && i != d ==> m'.pt[i] == m.pt[i]
  }

  /** copy_and_allocate_pages from directory parent to directory child when it aborts. */
  ghost predicate AbortMem(m: Mem, m': Mem, parent: nat, child: nat) {
    && |m.pt| == |m'.pt| == NR_TASKS && parent < NR_TASKS && child < NR_TASKS && parent != child
    && Aborted(m.used, m.pt[parent], m'.used,
               Min3(NUM_PAG_DATA, |FreeFrames(m.used)|, |FreePages(m.pt[parent])|))
    && Trimmed(m.pt[parent], m'.pt[parent]) && Unmapped(m.pt[parent], m'.pt[child])
    && forall i :: 0 <= i < NR_TASKS && i != parent && i != child ==> m'.pt[i] == m.pt[i]
  }

  /** How copy_and_allocate_pages ends, told by the frames and windows before it. */
  ghost function CopyOutcome(m: Mem, parent: nat): CopyResult
    requires parent < |m.pt|
  {
    OutcomeOf(|FreeFrames(m.used)|, |FreePages(m.pt[parent])|)
  }

  /** The memory side of step a from s; a fork that gets a PCB carries the outcome of its page copy, and is no
      step at all if that leaves the table. */
  ghost predicate MemStep(s: Sched, a: Step, m: Mem, m': Mem)
    requires WF(s) && |m.pt| == NR_TASKS
  {
    var d := s.task[s.cur].dir;
    match a
    case ForkCall(ok) => if s.q[FREE] == [] then m' == m else ForkMemStep(m, m', d, s.q[FREE][0], ok)
    case ExitCall => if s.refs[d] == 1 then ExitMem(m, m', d) else m' == m
    case _ => m' == m
  }

  ghost predicate ForkMemStep(m: Mem, m': Mem, parent: nat, child: nat, ok: bool)
    requires parent < |m.pt|
  {
    match CopyOutcome(m, parent)
    case Done => ok && exists fs :: ForkMem(m, m', parent, child, fs)
    case NoMemory => !ok && AbortMem(m, m', parent, child)
    case OffTable => false
  }

  // ---------- memory under fork and exit

  lemma TrimmedTable(t: Table, t': Table)
    requires TableOk(t) && Trimmed(t, t')
    ensures TableOk(t') && DataFrames(t') == DataFrames(t)
  {
  }

  lemma CopiedTable(used: Bytemap, parent: Table, used': Bytemap, child: Table, fs: seq<nat>)
    requires TableOk(parent) && Copied(used, parent, used', child, fs) && |fs| == NUM_PAG_DATA
    ensures TableOk(child) && DataFrames(child) == fs && Taken(used, used', fs)
  {
    forall k | 0 <= k < NUM_PAG_DATA
      ensures DataFrames(child)[k] == fs[k]
    {
      assert fs[k] in FreeFrames(used);
      assert child[PAG_LOG_INIT_DATA + k] == UserPte(fs[k]);
    }
  }

  /** The table of t after a fork. */
  lemma ForkTable(m: Mem, m': Mem, parent: nat, child: nat, fs: seq<nat>, t: nat)
    requires ForkMem(m, m', parent, child, fs) && t < NR_TASKS
    requires TableOk(m.pt[parent]) && (t != child ==> TableOk(m.pt[t]))
    ensures TableOk(m'.pt[t]) && DataFrames(m'.pt[t]) == if t == child then fs else DataFrames(m.pt[t])
  {
    hide TableOk, DataFrames, Copied, Trimmed;
    if t == child {
      CopiedTable(m.used, m.pt[parent], m'.used, m'.pt[child], fs);
    } else if t == parent {
      TrimmedTable(m.pt[parent], m'.pt[parent]);
    }
  }

  /** The tables after a fork, and whose frames they name. */
  lemma ForkTables(procs: set<nat>, m: Mem, m': Mem, parent: nat, child: nat, fs: seq<nat>)
    requires WithinTables(procs, m) && (forall t :: t in procs ==> TableOk(m.pt[t]))
    requires ForkMem(m, m', parent, child, fs) && parent in procs && child !in procs
    ensures WithinTables(procs + {child}, m') && forall t :: t in procs + {child} ==> TableOk(m'.pt[t])
    ensures OwnOf(procs + {child}, m') == OwnOf(procs, m)[child := fs]
  {
    hide TableOk, DataFrames, Copied, Trimmed;
    forall t | t in procs + {child}
      ensures TableOk(m'.pt[t]) && DataFrames(m'.pt[t]) == if t == child then fs else DataFrames(m.pt[t])
    {
      ForkTable(m, m', parent, child, fs, t);
    }
  }

  /** A fork gives the child frames of its own and keeps every account. */
  lemma ForkKeeps(procs: set<nat>, m: Mem, m': Mem, parent: nat, child: nat, fs: seq<nat>)
    requires MemInv(procs, m) && ForkMem(m, m', parent, child, fs) && parent in procs && child !in procs
    ensures MemInv(procs + {child}, m')
    ensures OwnOf(procs + {child}, m') == OwnOf(procs, m)[child := fs]
  {
    ForkTables(procs, m, m', parent, child, fs);
    CopiedTable(m.used, m.pt[parent], m'.used, m'.pt[child], fs);
    Enter(m.used, m'.used, OwnOf(procs, m), child, fs);
  }

  /** An exit gives all frames of the process back and keeps every account. */
  lemma ExitKeeps(procs: set<nat>, m: Mem, m': Mem, d: nat)
    requires MemInv(procs, m) && ExitMem(m, m', d) && d in procs
    ensures MemInv(procs - {d}, m')
    ensures OwnOf(procs - {d}, m') == OwnOf(procs, m) - {d}
  {
    assert OwnOf(procs - {d}, m') == OwnOf(procs, m) - {d};
    Strike(m.used, m'.used, OwnOf(procs, m), d);
  }

  // ---------- one step

  ghost predicate StateInv(s: Sched, m: Mem) {
    Inv(s) && RefsExact(s) && OwnDirs(s) && MemInv(Procs(s), m)
  }

  /** No threads, and nothing but what a process can do. */
  ghost predicate ProcessStep(s: Sched, a: Step)
    requires WF(s)
  {
    Allowed(s, a) && !a.CreateThreadCall?
  }

  /** Every process but idle has its own directory, which nobody else refers to. */
  lemma SoleUser(s: Sched, t: nat)
    requires WF(s) && RefsExact(s) && OwnDirs(s) && t in Procs(s)
    ensures s.refs[t] == 1
  {
    assert Users(s, t) == {t};
  }

  lemma RunningProc(s: Sched)
    requires Inv(s) && OwnDirs(s) && s.cur != IDLE
    ensures s.cur in Procs(s) && s.task[s.cur].dir == s.cur
  {
    RunningIsLive(s);
  }

  lemma {:induction false} AtMostNine(x: set<nat>, n: nat)
    requires forall t :: t in x ==> t < n
    ensures |x| <= n
  {
    if n > 0 {
      AtMostNine(x - {n - 1}, n - 1);
      assert x - {n - 1} == x || |x| == |x - {n - 1}| + 1;
    } else {
      assert x == {};
    }
  }

  lemma AtMostEightProcs(s: Sched)
    requires Inv(s) && s.q[FREE] != []
    ensures |Procs(s)| <= 8
  {
    QueuedIsElsewhere(s.q, s.cur, FREE);
    AtMostNine(Procs(s) + {IDLE, s.q[FREE][0]}, NR_TASKS);
  }

  lemma RoomInMemory(procs: set<nat>, m: Mem, t: nat)
    requires MemInv(procs, m) && |procs| <= 8 && t in procs
    ensures CopyOutcome(m, t).Done?
  {
    assert |OwnOf(procs, m)| == |procs|;
    RoomForOneMore(m.used, OwnOf(procs, m));
    RangeSize(FIRST_EXTRA, TOTAL_PAGES);
    assert FreePages(m.pt[t]) == Range(FIRST_EXTRA, TOTAL_PAGES);
  }

  /** While a PCB is free there are at most eight processes, so a fork finds its pages. */
  lemma ForkFindsPages(s: Sched, m: Mem)
    requires StateInv(s, m) && s.cur != IDLE && s.q[FREE] != []
    ensures CopyOutcome(m, s.task[s.cur].dir).Done?
  {
    RunningProc(s);
    AtMostEightProcs(s);
    RoomInMemory(Procs(s), m, s.cur);
  }

  lemma ForkProcs(s: Sched)
    requires Inv(s) && s.cur != IDLE && s.q[FREE] != []
    ensures var child, r := s.q[FREE][0], Fork(s, true);
            child !in Procs(s) && Procs(r) == Procs(s) + {child} && (OwnDirs(s) ==> OwnDirs(r))
  {
    FreeHeadOnce(s);
    QueuedIsElsewhere(s.q, s.cur, FREE);
  }

  lemma ForkStep(s: Sched, m: Mem, m': Mem, ok: bool)
    requires StateInv(s, m) && s.cur != IDLE && MemStep(s, ForkCall(ok), m, m')
    ensures s.q[FREE] != [] ==> ok
    ensures StateInv(Fork(s, ok), m')
  {
    if s.q[FREE] != [] {
      var child := s.q[FREE][0];
      ForkFindsPages(s, m);
      ForkInv(s, true);
      ForkRefsIff(s, true);
      RunningProc(s);
      ForkProcs(s);
      var fs :| ForkMem(m, m', s.cur, child, fs);
      ForkKeeps(Procs(s), m, m', s.cur, child, fs);
    }
  }

  lemma ExitProcs(s: Sched)
    requires Inv(s) && OwnDirs(s) && s.cur != IDLE
    ensures Procs(Exit(s)) == Procs(s) - {s.cur} && OwnDirs(Exit(s))
  {
    SchedNextUse(Leave(s));
  }

  lemma ExitStep(s: Sched, m: Mem, m': Mem)
    requires StateInv(s, m) && s.cur != IDLE && MemStep(s, ExitCall, m, m')
    ensures StateInv(Exit(s), m')
  {
    ExitInv(s);
    ExitRefs(s);
    RunningProc(s);
    SoleUser(s, s.cur);
    ExitProcs(s);
    ExitKeeps(Procs(s), m, m', s.cur);
  }

  lemma QuietStep(s: Sched, a: Step, m: Mem)
    requires StateInv(s, m) && ProcessStep(s, a) && !Creates(a)
    ensures StateInv(Apply(s, a), m)
  {
    StepInv(s, a);
    StepRefs(s, a);
    QuietStepUse(s, a);
    assert Procs(Apply(s, a)) == Procs(s);
  }

  // ---------- whole runs

  datatype System = System(s: Sched, m: Mem)

  ghost predicate IsStep(k: System, a: Step, k': System) {
    && WF(k.s) && |k.m.pt| == NR_TASKS
    && ProcessStep(k.s, a) && k'.s == Apply(k.s, a) && MemStep(k.s, a, k.m, k'.m)
  }

  lemma OneStep(k: System, a: Step, k': System)
    requires StateInv(k.s, k.m) && IsStep(k, a, k')
    ensures StateInv(k'.s, k'.m)
    ensures a.ForkCall? && k.s.q[FREE] != [] ==> a.enoughPages
  {
    if a.ForkCall? {
      ForkStep(k.s, k.m, k'.m, a.enoughPages);
    } else if a.ExitCall? {
      ExitStep(k.s, k.m, k'.m);
    } else {
      QuietStep(k.s, a, k.m);
    }
  }

  /** A run: machines one step apart. */
  ghost predicate IsRun(run: seq<System>, steps: seq<Step>) {
    && |run| == |steps| + 1
    && (steps != [] ==> IsStep(run[0], steps[0], run[1]) && IsRun(run[1..], steps[1..]))
  }

  lemma {:induction false} RunKeepsAccounts(run: seq<System>, steps: seq<Step>, n: nat)
    requires IsRun(run, steps) && StateInv(run[0].s, run[0].m) && n < |run|
    ensures StateInv(run[n].s, run[n].m)
    ensures n < |steps| ==> IsStep(run[n], steps[n], run[n + 1])
    decreases n
  {
    hide StateInv, IsStep, Apply;
    if n > 0 {
      OneStep(run[0], steps[0], run[1]);
      RunKeepsAccounts(run[1..], steps[1..], n - 1);
    }
  }

  /** The memory that init_mm and init_task1 leave behind. */
  ghost predicate BootMem(m: Mem) {
    |m.pt| == NR_TASKS && FirstUsed(m.used, NUM_PAG_CODE + NUM_PAG_DATA) && BootTable(m.pt[1])
  }

  lemma BootLedger(m: Mem)
    requires BootMem(m)
    ensures MemInv({1}, m)
  {
    var fs, own := DataFrames(m.pt[1]), OwnOf({1}, m);
    forall k | 0 <= k < NUM_PAG_DATA
      ensures fs[k] == NUM_PAG_KERNEL + 2 * (NUM_PAG_CODE + k)
    {
      assert m.pt[1][PAG_LOG_INIT_DATA + k] == DataPte(k);
    }
    FirstUsedFree(m.used, NUM_PAG_CODE + NUM_PAG_DATA);
    assert |own| == |{1}|;
    forall f: nat | f < TOTAL_PAGES
      ensures m.used[f] <==> Reserved(f) || Owned(own, f)
    {
      if NUM_PAG_KERNEL + 2 * NUM_PAG_CODE <= f < NUM_PAG_KERNEL + 2 * (NUM_PAG_CODE + NUM_PAG_DATA) && Allocatable(f) {
        assert fs[(f - NUM_PAG_KERNEL) / 2 - NUM_PAG_CODE] == f;
        assert f in own[1];
      }
    }
  }

  lemma BootStateInv(m: Mem)
    requires BootMem(m)
    ensures StateInv(Boot(), m)
  {
    var s := Boot();
    BootInv();
    BootRefs();
    BootState();
    assert s.q[FREE] == seq(NR_TASKS - 2, i => 2 + i);
    forall t: nat | 2 <= t < NR_TASKS
      ensures t in s.q[FREE]
    {
      assert s.q[FREE][t - 2] == t;
    }
    assert Procs(s) == {1};
    BootLedger(m);
  }

  /** A frame is used exactly when it is the kernel's, boot code, or a data frame of one live process,
      and free frames and owned frames add up. */
  ghost predicate FramesExact(k: System) {
    && WF(k.s) && WithinTables(Procs(k.s), k.m)
    && var own := OwnOf(Procs(k.s), k.m);
       Accounted(k.m.used, own) && Isolated(own) && AddsUp(k.m.used, own)
  }

  /** The headline, along every run from boot; and no fork that gets a PCB fails. */
  lemma FramesOverRuns(run: seq<System>, steps: seq<Step>, n: nat)
    requires IsRun(run, steps) && run[0].s == Boot() && BootMem(run[0].m) && n < |run|
    ensures FramesExact(run[n])
    ensures n < |steps| && steps[n].ForkCall? && run[n].s.q[FREE] != [] ==> steps[n].enoughPages
  {
    BootStateInv(run[0].m);
    RunKeepsAccounts(run, steps, n);
    if n < |steps| {
      OneStep(run[n], steps[n], run[n + 1]);
    }
  }

  /** And along every run from boot, every live process can write its data pages, can read its code pages and not
      write them, and cannot touch the kernel's. */
  lemma AccessOverRuns(run: seq<System>, steps: seq<Step>, n: nat, t: nat)
    requires IsRun(run, steps) && run[0].s == Boot() && BootMem(run[0].m) && n < |run|
    requires WF(run[n].s) && t in Procs(run[n].s)
    ensures |run[n].m.pt| == NR_TASKS
    ensures var pt := run[n].m.pt[t];
            && (forall p :: 256 <= p < 276 ==> pt[p].present && pt[p].user && pt[p].rw)
            && (forall p :: 276 <= p < 284 ==> pt[p].present && pt[p].user && !pt[p].rw)
            && (forall p :: 0 <= p < 256 ==> !pt[p].user)
  {
    BootStateInv(run[0].m);
    RunKeepsAccounts(run, steps, n);
  }
}
