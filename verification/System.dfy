// The kernel's data structures and the machine's memory side by side: system calls that touch both, from
// boot on, are steps of the frame-accounting runs of FrameRuns.

module Systems {
  import opened Common
  import opened SchedSpec
  import opened Partition
  import opened PartitionRuns
  import opened Directories
  import opened Kernels
  import opened Frames
  import opened Paging
  import opened FrameRuns

  ghost function MemOf(m: Machine): (r: Mem)
    requires m.Valid()
    reads m.phys, m.pt
    ensures |r.pt| == NR_TASKS && forall i :: 0 <= i < NR_TASKS ==> r.pt[i] == m.Row(i)
  {
    Mem(m.Used(), seq(NR_TASKS, i requires 0 <= i < NR_TASKS && m.Valid() reads m.pt => m.Row(i)))
  }

  // ---------- memory calls

  /** The page copy of a fork: how it ends is told by the frames and windows there are. */
  method ForkPages(m: Machine, parent: nat, child: nat) returns (r: CopyResult)
    requires m.Valid() && parent < NR_TASKS && child < NR_TASKS && parent != child
    requires DataMapped(m.Used(), m.Row(parent))
    modifies m.phys, m.pt[parent], m.pt[child], m.ram
    ensures r == CopyOutcome(old(MemOf(m)), parent)
    ensures !r.OffTable? ==> ForkMemStep(old(MemOf(m)), MemOf(m), parent, child, r.Done?)
  {
    ghost var m0, fs := MemOf(m), [];
    r, fs := m.CopyAndAllocatePages(parent, child);
    if r.Done? {
      assert ForkMem(m0, MemOf(m), parent, child, fs);
    }
  }

  /** The release of a process's pages on its exit. */
  method ExitPages(m: Machine, d: nat)
    requires m.Valid() && d < NR_TASKS
    modifies m.phys, m.pt[d]
    ensures ExitMem(old(MemOf(m)), MemOf(m), d)
  {
    m.FreeUserPages(d);
  }

  lemma ProcessTables(s: Sched, m: Mem)
    requires StateInv(s, m) && s.cur != IDLE
    ensures s.task[s.cur].dir == s.cur
    ensures DataMapped(m.used, m.pt[s.cur])
  {
    RunningProc(s);
    var own := OwnOf(Procs(s), m);
    assert own[s.cur] == DataFrames(m.pt[s.cur]);
    forall p | PAG_LOG_INIT_DATA <= p < PAG_LOG_INIT_CODE
      ensures m.pt[s.cur][p].frame < TOTAL_PAGES && m.used[m.pt[s.cur][p].frame]
    {
      assert own[s.cur][p - PAG_LOG_INIT_DATA] == m.pt[s.cur][p].frame;
    }
  }

  // ---------- kernel entries

  /** Steps as user programs ask for them; whether a fork finds its pages is for the kernel to find out. */
  ghost predicate Requested(s: Sched, a: Step)
    requires WF(s)
  {
    ProcessStep(s, a) && (a.ForkCall? ==> a.enoughPages)
  }

  ghost function SystemOf(k: Kernel, m: Machine): System
    requires m.Valid()
    reads k, k.lists, k.ring, m.phys, m.pt
  {
    System(k.Abs(), MemOf(m))
  }

  /** What sys_fork relies on once it has taken a PCB: the caller's data pages are mapped to frames in use, and
      the PCB is not the one that its directory belongs to. */
  ghost predicate CanFork(s: Sched, m: Mem) {
    && WF(s) && |m.pt| == NR_TASKS
    && (s.q[FREE] != [] ==>
          var d := s.task[s.cur].dir; d != s.q[FREE][0] && DataMapped(m.used, m.pt[d]))
  }

  /** A process can always fork: with a PCB to be had, it finds its pages. */
  lemma ProcessCanFork(s: Sched, m: Mem)
    requires StateInv(s, m) && s.cur != IDLE
    ensures CanFork(s, m) && (s.q[FREE] != [] ==> CopyOutcome(m, s.task[s.cur].dir).Done?)
  {
    ProcessTables(s, m);
    if s.q[FREE] != [] {
      ForkFindsPages(s, m);
      QueuedIsElsewhere(s.q, s.cur, FREE);
    }
  }

  /** How sys_fork ends: like its page copy if it gets a PCB, and else with ENOMEM. */
  ghost function ForkOutcome(s: Sched, m: Mem): CopyResult
    requires WF(s) && |m.pt| == NR_TASKS
  {
    if s.q[FREE] == [] then NoMemory else CopyOutcome(m, s.task[s.cur].dir)
  }

  /** The page copy that sys_fork asks for, once it has a PCB; the queues stay as they are. */
  method CopyForFork(k: Kernel, m: Machine) returns (r: CopyResult)
    requires k.UserMode() && m.Valid() && CanFork(k.Abs(), MemOf(m)) && k.lists.q[FREE] != []
    modifies m.phys, m.pt, m.ram
    ensures r == CopyOutcome(old(MemOf(m)), k.task[k.cur].dir)
    ensures !r.OffTable? ==> MemStep(k.Abs(), ForkCall(r.Done?), old(MemOf(m)), MemOf(m))
    ensures k.UserMode()
  {
    var child := k.lists.First(FREE);
    r := ForkPages(m, k.task[k.cur].dir, child);
  }

  /** sys_fork, once it has a PCB. */
  method ForkWithPcb(k: Kernel, m: Machine) returns (r: CopyResult)
    requires k.UserMode() && m.Valid() && CanFork(k.Abs(), MemOf(m)) && k.lists.q[FREE] != []
    modifies k, k.lists, k.lists.node, k.lists.head, m.phys, m.pt, m.ram
    ensures r == CopyOutcome(old(MemOf(m)), old(k.task[k.cur].dir))
    ensures !r.OffTable? ==> k.Abs() == Fork(old(k.Abs()), r.Done?)
    ensures !r.OffTable? ==> MemStep(old(k.Abs()), ForkCall(r.Done?), old(MemOf(m)), MemOf(m))
    ensures k.UserMode()
  {
    hide MemStep, CopyOutcome, Fork;
    r := CopyForFork(k, m);
    ghost var m1 := MemOf(m);
    if !r.OffTable? {
      var pid := k.SysFork(r.Done?);
    }
    assert MemOf(m) == m1;
  }

  /** sys_fork with its page copy; the model stops where the copy leaves the table. */
  method ForkEntry(k: Kernel, m: Machine) returns (r: CopyResult)
    requires k.UserMode() && m.Valid() && CanFork(k.Abs(), MemOf(m))
    modifies k, k.lists, k.lists.node, k.lists.head, m.phys, m.pt, m.ram
    ensures r == ForkOutcome(old(k.Abs()), old(MemOf(m)))
    ensures !r.OffTable? ==> k.Abs() == Fork(old(k.Abs()), r.Done?)
    ensures !r.OffTable? ==> MemStep(old(k.Abs()), ForkCall(r.Done?), old(MemOf(m)), MemOf(m))
    ensures k.UserMode()
  {
    var none := k.lists.IsEmpty(FREE);
    if none {
      return NoMemory;
    }
    r := ForkWithPcb(k, m);
  }

  /** free_user_pages for the directory d that an exit from s gave up; the queues stay as they are. */
  method ReleasePages(k: Kernel, m: Machine, freed: bool, ghost s: Sched, d: nat)
    requires k.UserMode() && m.Valid() && WF(s) && d == s.task[s.cur].dir && freed == (s.refs[d] == 1)
    modifies m.phys, m.pt
    ensures MemStep(s, ExitCall, old(MemOf(m)), MemOf(m))
    ensures k.UserMode()
  {
    if freed {
      ExitPages(m, d);
    }
  }

  /** sys_exit with the release of the pages. */
  method ExitEntry(k: Kernel, m: Machine)
    requires k.UserMode() && m.Valid() && k.cur != IDLE
    modifies k, k.lists, k.lists.node, k.lists.head, m.phys, m.pt
    ensures k.Abs() == Exit(old(k.Abs()))
    ensures MemStep(old(k.Abs()), ExitCall, old(MemOf(m)), MemOf(m))
    ensures k.UserMode()
  {
    ghost var s, m0 := k.Abs(), MemOf(m);
    var d := k.task[k.cur].dir;
    var freed := k.SysExit();
    assert MemOf(m) == m0;
    ReleasePages(k, m, freed, s, d);
  }

  /** An entry that leaves page tables and frames alone. */
  method QuietEntry(k: Kernel, m: Machine, a: Step)
    requires k.UserMode() && m.Valid() && Inv(k.Abs()) && Allowed(k.Abs(), a) && !Creates(a)
    modifies k, k.lists, k.lists.node, k.lists.head, k.ring, k.ring.data
    ensures k.Abs() == Apply(old(k.Abs()), a) && MemStep(old(k.Abs()), a, old(MemOf(m)), MemOf(m))
    ensures k.UserMode()
  {
    var got := k.Enter(a);
  }

  /** Any entry of a process, from user mode back to user mode. */
  method Enter(k: Kernel, m: Machine, a: Step)
    requires k.UserMode() && m.Valid() && StateInv(k.Abs(), MemOf(m)) && Requested(k.Abs(), a)
    modifies k, k.lists, k.lists.node, k.lists.head, k.ring, k.ring.data, m.phys, m.pt, m.ram
    ensures IsStep(old(SystemOf(k, m)), a, SystemOf(k, m))
    ensures k.UserMode() && StateInv(k.Abs(), MemOf(m))
  {
    ghost var before := SystemOf(k, m);
    if a.ForkCall? {
      ProcessCanFork(k.Abs(), MemOf(m));
      var r := ForkEntry(k, m);
    } else if a.ExitCall? {
      ExitEntry(k, m);
    } else {
      QuietEntry(k, m, a);
    }
    OneStep(before, a, SystemOf(k, m));
  }

  ghost predicate AllRequested(s: Sched, steps: seq<Step>)
    requires WF(s)
    decreases steps
  {
    steps != [] ==> Requested(s, steps[0]) && AllRequested(Apply(s, steps[0]), steps[1..])
  }

  /** init_mm's directory, init_sched, init_idle and init_task1 on the kernel's data. */
  method BootKernel() returns (k: Kernel)
    ensures k.UserMode() && k.Abs() == Boot()
    ensures fresh(k) && fresh(k.lists) && fresh(k.ring) && fresh(k.ring.data)
    ensures forall t :: 0 <= t < NR_TASKS ==> fresh(k.lists.node[t])
    ensures forall d :: 0 <= d < NR_QUEUES ==> fresh(k.lists.head[d])
  {
    k := new Kernel();
    k.Start();
  }

  /** init_frames, init_table_pages and set_user_pages on memory. */
  method BootMachine() returns (m: Machine)
    ensures m.Valid() && BootMem(MemOf(m)) && m.sbrk == HEAP_TOP
    ensures fresh(m) && fresh(m.phys)
    ensures (forall i :: 0 <= i < NR_TASKS ==> fresh(m.pt[i])) && (forall f :: 0 <= f < TOTAL_PAGES ==> fresh(m.ram[f]))
  {
    m := new Machine();
    m.InitFrames();
    m.InitTablePages();
    m.SetUserPages(1);
  }

  /** Any run of processes. */
  method EnterAll(k: Kernel, m: Machine, steps: seq<Step>)
    requires k.UserMode() && m.Valid() && StateInv(k.Abs(), MemOf(m)) && AllRequested(k.Abs(), steps)
    modifies k, k.lists, k.lists.node, k.lists.head, k.ring, k.ring.data, m.phys, m.pt, m.ram
    ensures k.Abs() == Run(old(k.Abs()), steps)
    ensures k.UserMode() && StateInv(k.Abs(), MemOf(m))
  {
    ghost var goal := Run(k.Abs(), steps);
    for i := 0 to |steps|
      invariant k.UserMode() && StateInv(k.Abs(), MemOf(m))
      invariant AllRequested(k.Abs(), steps[i..]) && Run(k.Abs(), steps[i..]) == goal
    {
      assert steps[i..][0] == steps[i] && steps[i..][1..] == steps[i + 1..];
      Enter(k, m, steps[i]);
    }
  }

  /** The whole kernel, booted. */
  method BootAll() returns (k: Kernel, m: Machine)
    ensures k.UserMode() && m.Valid() && k.Abs() == Boot() && StateInv(k.Abs(), MemOf(m))
    ensures BootMem(MemOf(m)) && m.sbrk == HEAP_TOP
    ensures fresh(m) && fresh(k) && fresh(k.lists) && fresh(k.ring) && fresh(k.ring.data) && fresh(m.phys)
    ensures forall t :: 0 <= t < NR_TASKS ==> fresh(k.lists.node[t])
    ensures forall d :: 0 <= d < NR_QUEUES ==> fresh(k.lists.head[d])
    ensures (forall i :: 0 <= i < NR_TASKS ==> fresh(m.pt[i])) && (forall f :: 0 <= f < TOTAL_PAGES ==> fresh(m.ram[f]))
  {
    m := BootMachine();
    k := BootKernel();
    BootStateInv(MemOf(m));
  }

  lemma AccountsExact(k: System)
    requires StateInv(k.s, k.m)
    ensures FramesExact(k) && forall t :: t in Procs(k.s) ==> Access(k.m.pt[t])
  {
  }

  /** After any run from boot every frame is accounted for. */
  method RunFromBoot(steps: seq<Step>) returns (k: Kernel, m: Machine)
    requires AllRequested(Boot(), steps)
    ensures k.UserMode() && m.Valid() && k.Abs() == Run(Boot(), steps)
    ensures FramesExact(SystemOf(k, m))
    ensures forall t :: t in Procs(k.Abs()) ==> Access(SystemOf(k, m).m.pt[t])
  {
    k, m := BootAll();
    EnterAll(k, m, steps);
    AccountsExact(SystemOf(k, m));
  }
}
