// What a fork that finds no pages does to the kernel's accounts, told by frames and windows before the
// call, and a run that gets there.

module FailedForks {
  import opened Common
  import opened SchedSpec
  import opened Partition
  import opened PartitionRuns
  import opened Directories
  import opened Kernels
  import opened Frames
  import opened Paging
  import opened FrameRuns
  import opened Systems
  import HeapStacks

  /** A fork keeps the reference counts exact if and only if there is no PCB for it, or 20 frames and 20
      windows for its pages. */
  lemma RefsStayExactIff(s: Sched, ok: bool, m: Mem, m': Mem)
    requires Inv(s) && RefsExact(s) && |m.pt| == NR_TASKS && MemStep(s, ForkCall(ok), m, m')
    ensures RefsExact(Fork(s, ok)) <==>
            s.q[FREE] == []
            || (|FreeFrames(m.used)| >= NUM_PAG_DATA && |FreePages(m.pt[s.task[s.cur].dir])| >= NUM_PAG_DATA)
  {
    ForkRefsIff(s, ok);
  }

  /** An abort takes from the parent, whose table still maps them, the frames of all pages not yet copied, and
      there is at least one. */
  lemma AbortTakesFrames(m: Mem, m': Mem, parent: nat, child: nat)
    requires AbortMem(m, m', parent, child) && CopyOutcome(m, parent).NoMemory? && DataMapped(m.used, m.pt[parent])
    requires forall p :: PAG_LOG_INIT_DATA <= p < PAG_LOG_INIT_CODE ==> m.pt[parent][p].frame > NUM_PAG_KERNEL
    ensures var n := Min3(NUM_PAG_DATA, |FreeFrames(m.used)|, |FreePages(m.pt[parent])|);
            n < NUM_PAG_DATA
            && forall p :: PAG_LOG_INIT_DATA + n <= p < PAG_LOG_INIT_CODE ==>
                 m'.pt[parent][p].present && !m'.used[m'.pt[parent][p].frame]
  {
    var n := Min3(NUM_PAG_DATA, |FreeFrames(m.used)|, |FreePages(m.pt[parent])|);
    forall p | PAG_LOG_INIT_DATA + n <= p < PAG_LOG_INIT_CODE
      ensures m'.pt[parent][p] == m.pt[parent][p] && !m'.used[m.pt[parent][p].frame]
    {
      assert DataFrames(m.pt[parent])[n..][p - PAG_LOG_INIT_DATA - n] == m.pt[parent][p].frame;
      DataFrameNotFree(m.used, m.pt[parent], p);
    }
  }

  // ---------- a failed fork, from boot

  ghost predicate DataAt(t: Table) {
    forall p :: PAG_LOG_INIT_DATA <= p < PAG_LOG_INIT_CODE ==> t[p] == DataPte(p - PAG_LOG_INIT_DATA)
  }

  lemma BootData(m: Mem)
    requires BootMem(m)
    ensures DataAt(m.pt[1]) && DataMapped(m.used, m.pt[1])
  {
    forall p | PAG_LOG_INIT_DATA <= p < PAG_LOG_INIT_CODE
      ensures m.pt[1][p] == DataPte(p - PAG_LOG_INIT_DATA) && m.used[m.pt[1][p].frame]
    {
    }
  }

  /** Task 1 runs in its own directory and the next PCB is task 2. */
  ghost predicate FirstProcess(s: Sched) {
    Inv(s) && RefsExact(s) && s.cur == 1 && s.task[1].dir == 1 && s.q[FREE] != [] && s.q[FREE][0] == 2
  }

  lemma BootIsFirst()
    ensures FirstProcess(Boot())
  {
    BootState();
    BootInv();
    BootRefs();
  }

  /** Every frame is used, and process 1 has its data where boot put it. */
  ghost predicate NoFrameLeft(m: Mem) {
    && |m.pt| == NR_TASKS && FreeFrames(m.used) == {} && FreePages(m.pt[1]) != {}
    && DataAt(m.pt[1]) && DataMapped(m.used, m.pt[1])
  }

  lemma HeapLeavesNoFrame(m0: Mem, m: Mem, sbrk: nat, r: nat)
    requires BootMem(m0) && |m.pt| == NR_TASKS
    requires DynMem(m0.used, m0.pt[1], HEAP_TOP, HeapStacks.WHOLE_HEAP, m.used, m.pt[1], sbrk, r)
    ensures NoFrameLeft(m)
  {
    var s := HeapStacks.Space(m0.used, m0.pt[1], HEAP_TOP, {}, []);
    HeapStacks.HeapUsesUpFrames(s, m.used, m.pt[1], sbrk, r);
    BootData(m0);
    forall p | PAG_LOG_INIT_DATA <= p < PAG_LOG_INIT_CODE
      ensures m.pt[1][p] == m0.pt[1][p] && m.used[m.pt[1][p].frame]
    {
    }
  }

  /** The data pages of t are mapped to frames that the bytemap calls free. */
  ghost predicate AllLost(used: Bytemap, t: Table) {
    forall p :: PAG_LOG_INIT_DATA <= p < PAG_LOG_INIT_CODE ==>
      t[p].present && t[p].frame < TOTAL_PAGES && !used[t[p].frame]
  }

  /** Then a fork leaks a reference and marks all frames behind the process's own data pages as free. */
  lemma FailedFork(s: Sched, m: Mem, m': Mem)
    requires FirstProcess(s) && NoFrameLeft(m) && MemStep(s, ForkCall(false), m, m')
    ensures !RefsExact(Fork(s, false)) && AllLost(m'.used, m'.pt[1])
  {
    hide Fork, RefsExact, Aborted;
    RefsStayExactIff(s, false, m, m');
    assert AbortMem(m, m', 1, 2);
    AbortTakesFrames(m, m', 1, 2);
    assert forall p :: PAG_LOG_INIT_DATA <= p < PAG_LOG_INIT_CODE ==>
        m'.pt[1][p] == m.pt[1][p] == DataPte(p - PAG_LOG_INIT_DATA);
  }

  /** The fork itself. */
  method ForkWithoutFrames(k: Kernel, m: Machine)
    requires k.UserMode() && m.Valid() && FirstProcess(k.Abs()) && NoFrameLeft(MemOf(m))
    modifies k, k.lists, k.lists.node, k.lists.head, m.phys, m.pt, m.ram
    ensures k.Abs() == Fork(old(k.Abs()), false) && !RefsExact(k.Abs()) && AllLost(m.Used(), m.Row(1))
    ensures k.UserMode()
  {
    ghost var s, m0 := k.Abs(), MemOf(m);
    var r := ForkEntry(k, m);
    assert r.NoMemory?;
    FailedFork(s, m0, MemOf(m));
  }

  /** All memory for the first process. */
  method TakeAllMemory(m: Machine) returns (got: nat)
    requires m.Valid() && BootMem(MemOf(m)) && m.sbrk == HEAP_TOP
    modifies m`sbrk, m.phys, m.pt[1]
    ensures NoFrameLeft(MemOf(m))
  {
    ghost var m0 := MemOf(m);
    got := m.SysDynMem(1, HeapStacks.WHOLE_HEAP);
    HeapLeavesNoFrame(m0, MemOf(m), m.sbrk, got);
  }

  /** One request for memory, one fork. */
  method RequestAndFork(k: Kernel, m: Machine)
    requires k.UserMode() && m.Valid() && FirstProcess(k.Abs()) && BootMem(MemOf(m)) && m.sbrk == HEAP_TOP
    modifies k, k.lists, k.lists.node, k.lists.head, m`sbrk, m.phys, m.pt, m.ram
    ensures k.Abs() == Fork(old(k.Abs()), false) && !RefsExact(k.Abs()) && AllLost(m.Used(), m.Row(1))
    ensures k.UserMode()
  {
    var got := TakeAllMemory(m);
    ForkWithoutFrames(k, m);
  }

  /** The same from boot. */
  method FailedForkFromBoot() returns (k: Kernel, m: Machine)
    ensures k.UserMode() && m.Valid() && WF(k.Abs()) && !RefsExact(k.Abs()) && AllLost(m.Used(), m.Row(1))
  {
    k, m := BootAll();
    BootIsFirst();
    RequestAndFork(k, m);
  }
}
