// One address space under create_thread, exit_thread and dyn_mem: thread stacks grow up from page 284,
// the heap grows down from page 1024, and the frames run out before the two can meet.

module HeapStacks {
  import opened Common
  import opened Frames
  import opened Paging

  /** The bytes [lo, hi) handed out by one successful request. */
  datatype Block = Block(lo: nat, hi: nat)

  /** stacks: the pages of the live threads; blocks: the heap requests not released since, oldest first. */
  datatype Space = Space(used: Bytemap, t: Table, sbrk: nat, stacks: set<nat>, blocks: seq<Block>)

  datatype Step = CreateThread | ExitThread(page: nat) | Request(numBytes: int)

  /** Frames left for stacks and heap: every other frame beyond the kernel's, less code and data. */
  const EXTRA_FRAMES: nat := (TOTAL_PAGES - NUM_PAG_KERNEL) / 2 - NUM_PAG_CODE - NUM_PAG_DATA

  /** Blocks a release down to break sbrk leaves alive. */
  function Alive(blocks: seq<Block>, sbrk: nat): (r: seq<Block>)
  {
    if blocks == [] || blocks[|blocks| - 1].lo >= sbrk then blocks else Alive(blocks[..|blocks| - 1], sbrk)
  }

  /** Stacks are only asked for while a frame is left, threads exit on their own stack page, and a
      release never moves the break beyond the top of the heap. */
  ghost predicate Admissible(s: Space, a: Step) {
    match a
    case CreateThread => FreeFrames(s.used) != {}
    case ExitThread(p) => p in s.stacks
    case Request(n) => -0x8000_0000 <= n < 0x8000_0000 && s.sbrk - n <= HEAP_TOP
  }

  ghost predicate Next(s: Space, a: Step, s': Space) {
    match a
    case CreateThread =>
      exists p :: StackMapped(s.used, s.t, s'.used, s'.t, p)
        && s' == s.(used := s'.used, t := s'.t, stacks := s.stacks + {p})
    case ExitThread(p) =>
      p < TOTAL_PAGES && s' == s.(t := s.t[p := CLEAR], stacks := s.stacks - {p})
    case Request(n) =>
      exists r :: DynMem(s.used, s.t, s.sbrk, n, s'.used, s'.t, s'.sbrk, r)
        && s'.stacks == s.stacks
        && s'.blocks == if r == 0 then s.blocks
                        else if n > 0 then s.blocks + [Block(r, s.sbrk)]
                        else Alive(s.blocks, s'.sbrk)
  }

  // ---------- the invariant

  /** Every page of the heap is mapped. */
  ghost predicate HeapMapped(t: Table, sbrk: nat) {
    forall p :: sbrk / PAGE_SIZE <= p < TOTAL_PAGES ==> t[p].present
  }

  ghost predicate StacksMapped(t: Table, stacks: set<nat>) {
    forall p :: p in stacks ==> FIRST_EXTRA <= p < FIRST_EXTRA + EXTRA_FRAMES && t[p].present
  }

  /** Live blocks lie one below the other, between the break and the top of the heap. */
  ghost predicate Stacked(blocks: seq<Block>, sbrk: nat) {
    && (forall i :: 0 <= i < |blocks| ==> sbrk <= blocks[i].lo < blocks[i].hi <= HEAP_TOP)
    && (forall i, j :: 0 <= i < j < |blocks| ==> blocks[j].hi <= blocks[i].lo)
  }

  ghost predicate SpaceInv(s: Space) {
    && Access(s.t)
    && |ExtraPages(s.t)| + |FreeFrames(s.used)| <= EXTRA_FRAMES
    && TOTAL_PAGES - EXTRA_FRAMES <= s.sbrk / PAGE_SIZE && s.sbrk <= HEAP_TOP && HeapMapped(s.t, s.sbrk)
    && StacksMapped(s.t, s.stacks) && Stacked(s.blocks, s.sbrk)
  }

  // ---------- pigeonholes

  /** Frames are never recycled here, so mapped pages are few and a free page is always found. */
  lemma FreePageExists(t: Table)
    requires |ExtraPages(t)| <= EXTRA_FRAMES
    ensures FreePages(t) != {}
  {
    ExtraAndFree(t);
  }

  /** The first free page has only mapped extra pages below it. */
  lemma FirstFreePageIsLow(t: Table, p: nat)
    requires p in FreePages(t) && forall g :: g in FreePages(t) ==> p <= g
    ensures p - FIRST_EXTRA <= |ExtraPages(t)|
  {
    RangeSize(FIRST_EXTRA, p);
    forall q | q in Range(FIRST_EXTRA, p)
      ensures q in ExtraPages(t)
    {
      assert q !in FreePages(t);
    }
    SubsetSize(Range(FIRST_EXTRA, p), ExtraPages(t));
  }

  /** A mapped stretch of pages up to the top is no longer than the mapped extra pages. */
  lemma HeapIsShort(t: Table, lo: nat)
    requires lo <= TOTAL_PAGES && |ExtraPages(t)| <= EXTRA_FRAMES
    requires forall p :: lo <= p < TOTAL_PAGES ==> t[p].present
    ensures TOTAL_PAGES - EXTRA_FRAMES <= lo
  {
    var from := if lo < FIRST_EXTRA then FIRST_EXTRA else lo;
    RangeSize(from, TOTAL_PAGES);
    SubsetSize(Range(from, TOTAL_PAGES), ExtraPages(t));
  }

  // ---------- the steps

  lemma StackKeeps(used: Bytemap, t: Table, stacks: set<nat>, p: nat, f: nat)
    requires Access(t) && |ExtraPages(t)| + |FreeFrames(used)| <= EXTRA_FRAMES && StacksMapped(t, stacks)
    requires p in FreePages(t) && (forall g :: g in FreePages(t) ==> p <= g) && f in FreeFrames(used)
    ensures var t', used' := t[p := UserPte(f)], used[f := true];
            && Access(t') && |ExtraPages(t')| + |FreeFrames(used')| <= EXTRA_FRAMES
            && StacksMapped(t', stacks + {p})
  {
    TakeFrame(used, f);
    MapPage(t, p, UserPte(f));
    MappedAccess(t, p, f);
    assert |FreeFrames(used)| >= 1;
    FirstFreePageIsLow(t, p);
  }

  lemma CreateThreadInv(s: Space, s': Space)
    requires SpaceInv(s) && Admissible(s, CreateThread) && Next(s, CreateThread, s')
    ensures SpaceInv(s')
  {
    var p: nat :| StackMapped(s.used, s.t, s'.used, s'.t, p) && s' == s.(used := s'.used, t := s'.t, stacks := s.stacks + {p});
    var f :| LowestFree(s.used, f) && s'.used == s.used[f := true] && s'.t == s.t[p := UserPte(f)];
    StackKeeps(s.used, s.t, s.stacks, p, f);
  }

  lemma ExitThreadInv(s: Space, p: nat, s': Space)
    requires SpaceInv(s) && Admissible(s, ExitThread(p)) && Next(s, ExitThread(p), s')
    ensures SpaceInv(s')
  {
    UnmapPage(s.t, p);
    MappedAccess(s.t, p, 0);
    assert s'.used == s.used;
  }

  lemma GrownKeeps(used0: Bytemap, t0: Table, used: Bytemap, t: Table, lo: nat, hi: nat)
    requires Grown(used0, t0, used, t, lo, hi) && Access(t0) && PAG_LOG_INIT_DATA <= lo
    ensures Access(t) && |ExtraPages(t)| + |FreeFrames(used)| == |ExtraPages(t0)| + |FreeFrames(used0)|
    ensures forall p :: 0 <= p < TOTAL_PAGES && t0[p].present ==> t[p].present
  {
    GrownAccess(used0, t0, used, t, lo, hi);
  }

  lemma {:induction false} AliveStacked(blocks: seq<Block>, old_: nat, sbrk: nat)
    requires Stacked(blocks, old_) && old_ <= sbrk
    ensures Stacked(Alive(blocks, sbrk), sbrk)
  {
    if blocks != [] {
      var n := |blocks| - 1;
      if blocks[n].lo < sbrk {
        AliveStacked(blocks[..n], old_, sbrk);
      } else {
        forall i | 0 <= i < |blocks|
          ensures sbrk <= blocks[i].lo
        {
          assert i < n ==> blocks[n].hi <= blocks[i].lo;
        }
      }
    }
  }

  /** What a request that was not refused at once does to table, frames and break. */
  lemma TablesAfterRequest(used0: Bytemap, t0: Table, sbrk0: nat, n: int, stacks: set<nat>,
                           used: Bytemap, t: Table, sbrk: nat, r: nat)
    requires Access(t0) && |ExtraPages(t0)| + |FreeFrames(used0)| <= EXTRA_FRAMES && StacksMapped(t0, stacks)
    requires TOTAL_PAGES - EXTRA_FRAMES <= sbrk0 / PAGE_SIZE && sbrk0 <= HEAP_TOP && HeapMapped(t0, sbrk0)
    requires -0x8000_0000 <= n < 0x8000_0000 && sbrk0 - n <= HEAP_TOP
    requires DynMem(used0, t0, sbrk0, n, used, t, sbrk, r)
    ensures Access(t) && |ExtraPages(t)| + |FreeFrames(used)| <= EXTRA_FRAMES && StacksMapped(t, stacks)
    ensures TOTAL_PAGES - EXTRA_FRAMES <= sbrk / PAGE_SIZE && sbrk <= HEAP_TOP && HeapMapped(t, sbrk)
    ensures if r == 0 then sbrk == sbrk0 else r == sbrk == sbrk0 - n
  {
    var target := (sbrk0 - n) % WORD;
    var from, to := sbrk0 / PAGE_SIZE, target / PAGE_SIZE;
    if PAG_LOG_INIT_CODE < to <= TOTAL_PAGES {
      TargetOf(sbrk0, n);
      if to <= from {
        GrownKeeps(used0, t0, used, t, to, from);
        if r != 0 {
          HeapIsShort(t, to);
        }
      } else {
        UnmappingShrinks(t0, t, from, to);
      }
    }
  }

  lemma RequestInv(s: Space, n: int, s': Space)
    requires SpaceInv(s) && Admissible(s, Request(n)) && Next(s, Request(n), s')
    ensures SpaceInv(s')
  {
    var r: nat :| DynMem(s.used, s.t, s.sbrk, n, s'.used, s'.t, s'.sbrk, r)
                  && s'.blocks == if r == 0 then s.blocks
                                  else if n > 0 then s.blocks + [Block(r, s.sbrk)] else Alive(s.blocks, s'.sbrk);
    TablesAfterRequest(s.used, s.t, s.sbrk, n, s.stacks, s'.used, s'.t, s'.sbrk, r);
    BlocksKept(s, n, s', r);
  }

  /** Within the heap the subtraction does not wrap around. */
  lemma TargetOf(sbrk: nat, n: int)
    requires sbrk <= HEAP_TOP && -0x8000_0000 <= n < 0x8000_0000 && sbrk - n <= HEAP_TOP
    requires (sbrk - n) % WORD / PAGE_SIZE <= TOTAL_PAGES
    ensures (sbrk - n) % WORD == sbrk - n
  {
  }

  lemma {:induction false} UnmappingShrinks(t: Table, t': Table, lo: nat, hi: nat)
    requires FIRST_EXTRA <= lo <= hi <= TOTAL_PAGES
    requires forall p :: 0 <= p < TOTAL_PAGES ==> t'[p] == if lo <= p < hi then CLEAR else t[p]
    ensures |ExtraPages(t')| <= |ExtraPages(t)|
  {
    SubsetSize(ExtraPages(t'), ExtraPages(t));
  }

  lemma BlocksKept(s: Space, n: int, s': Space, r: nat)
    requires SpaceInv(s) && s.sbrk - n <= HEAP_TOP
    requires r == 0 ==> s'.sbrk == s.sbrk && s'.blocks == s.blocks
    requires r != 0 ==> r == s'.sbrk == s.sbrk - n
    requires r != 0 ==> s'.blocks == if n > 0 then s.blocks + [Block(r, s.sbrk)] else Alive(s.blocks, s'.sbrk)
    ensures Stacked(s'.blocks, s'.sbrk)
  {
    if r != 0 && n <= 0 {
      AliveStacked(s.blocks, s.sbrk, s'.sbrk);
    }
  }

  // ---------- whole runs

  /** Every byte between two addresses lies in a mapped page. */
  ghost predicate BytesMapped(t: Table, lo: nat, hi: nat) {
    forall a :: lo <= a < hi ==> a / PAGE_SIZE < TOTAL_PAGES && t[a / PAGE_SIZE].present
  }

  ghost predicate IsRun(run: seq<Space>, steps: seq<Step>) {
    |run| == |steps| + 1 && forall i :: 0 <= i < |steps| ==> Admissible(run[i], steps[i]) && Next(run[i], steps[i], run[i + 1])
  }

  lemma {:induction false} RunInv(run: seq<Space>, steps: seq<Step>, n: nat)
    requires IsRun(run, steps) && SpaceInv(run[0]) && n < |run|
    ensures SpaceInv(run[n])
  {
    if n > 0 {
      RunInv(run, steps, n - 1);
      var s, a, s' := run[n - 1], steps[n - 1], run[n];
      match a
      case CreateThread => CreateThreadInv(s, s');
      case ExitThread(p) => ExitThreadInv(s, p, s');
      case Request(k) => RequestInv(s, k, s');
    }
  }

  /** A process that has not asked for anything yet, alone on the machine. */
  ghost predicate Initial(s: Space) {
    && FirstUsed(s.used, NUM_PAG_CODE + NUM_PAG_DATA) && BootTable(s.t)
    && s.sbrk == HEAP_TOP && s.stacks == {} && s.blocks == []
  }

  lemma InitialInv(s: Space)
    requires Initial(s)
    ensures SpaceInv(s)
  {
    FirstUsedFree(s.used, NUM_PAG_CODE + NUM_PAG_DATA);
    BootAccess(s.t);
    assert ExtraPages(s.t) == {};
  }

  /** Every byte from lo to hi is on a page that user programs can read and write. */
  ghost predicate BytesWritable(t: Table, lo: nat, hi: nat) {
    forall a :: lo <= a < hi && a / PAGE_SIZE < TOTAL_PAGES ==> t[a / PAGE_SIZE].user && t[a / PAGE_SIZE].rw
  }

  /** The headline: stacks stay low, the heap stays high, every live block is mapped, live blocks are
      disjoint from each other and from every stack, a page for the next stack is always found, and user
      programs can write stacks and blocks. */
  lemma HeapAndStacksNeverMeet(run: seq<Space>, steps: seq<Step>, n: nat)
    requires IsRun(run, steps) && Initial(run[0]) && n < |run|
    ensures var s := run[n];
            && |ExtraPages(s.t)| <= 356 && FreePages(s.t) != {}
            && (forall p :: p in s.stacks ==> 284 <= p <= 639)
            && 668 <= s.sbrk / PAGE_SIZE
            && (forall i :: 0 <= i < |s.blocks| ==>
                  668 <= s.blocks[i].lo / PAGE_SIZE && BytesMapped(s.t, s.blocks[i].lo, s.blocks[i].hi))
            && (forall i, j :: 0 <= i < j < |s.blocks| ==> s.blocks[j].hi <= s.blocks[i].lo)
            && (forall p :: p in s.stacks ==> s.t[p].present && s.t[p].user && s.t[p].rw)
            && (forall i :: 0 <= i < |s.blocks| ==> BytesWritable(s.t, s.blocks[i].lo, s.blocks[i].hi))
  {
    InitialInv(run[0]);
    RunInv(run, steps, n);
    FreePageExists(run[n].t);
  }

  lemma StepKeepsUsed(s: Space, a: Step, s': Space)
    requires Admissible(s, a) && Next(s, a, s')
    ensures FreeFrames(s'.used) <= FreeFrames(s.used)
  {
  }

  /** No call gives a frame back: what a thread's exit or a release unmaps stays used for good. */
  lemma {:induction false} FramesNeverComeBack(run: seq<Space>, steps: seq<Step>, i: nat, j: nat)
    requires IsRun(run, steps) && i <= j < |run|
    ensures FreeFrames(run[j].used) <= FreeFrames(run[i].used)
    decreases j
  {
    hide Admissible, Next, FreeFrames;
    if i < j {
      FramesNeverComeBack(run, steps, i, j - 1);
      StepKeepsUsed(run[j - 1], steps[j - 1], run[j]);
    }
  }

  // ---------- single requests

  /** A request is granted exactly if the new break is not below page 277 and there are frames for the pages that
      are not mapped yet; what it is refused changes neither break nor, at once, anything else. */
  lemma GrantedIff(used0: Bytemap, t0: Table, sbrk0: nat, n: int, used: Bytemap, t: Table, sbrk: nat, r: nat)
    requires 0 <= n < 0x8000_0000 && sbrk0 < 1025 * 4096
    requires DynMem(used0, t0, sbrk0, n, used, t, sbrk, r)
    ensures r != 0 <==> 277 * 4096 <= sbrk0 - n
                        && |Missing(t0, (sbrk0 - n) / 4096, sbrk0 / 4096)| <= |FreeFrames(used0)|
    ensures r != 0 ==> r == sbrk == sbrk0 - n
    ensures r == 0 ==> sbrk == sbrk0
    ensures sbrk0 - n < 277 * 4096 ==> used == used0 && t == t0
  {
    hide Grown, RanOut, Missing, FreeFrames;
    if sbrk0 - n < 0 {
      assert (sbrk0 - n) % WORD == sbrk0 - n + WORD;
    } else {
      assert (sbrk0 - n) % WORD == sbrk0 - n;
    }
  }

  /** A release is granted exactly if it moves the break to page 1024 at most, and it gives back no frame. */
  lemma ReleasedIff(used0: Bytemap, t0: Table, sbrk0: nat, n: int, used: Bytemap, t: Table, sbrk: nat, r: nat)
    requires -0x8000_0000 <= n < 0 && 277 * 4096 <= sbrk0 < 1025 * 4096
    requires DynMem(used0, t0, sbrk0, n, used, t, sbrk, r)
    ensures r != 0 <==> sbrk0 - n < 1025 * 4096
    ensures used == used0 && sbrk == (if r != 0 then sbrk0 - n else sbrk0) && (r != 0 ==> r == sbrk)
    ensures forall p :: 0 <= p < TOTAL_PAGES ==>
              t[p] == if r != 0 && sbrk0 / 4096 <= p < (sbrk0 - n) / 4096 then CLEAR else t0[p]
  {
    assert (sbrk0 - n) % WORD == sbrk0 - n;
    if (sbrk0 - n) / PAGE_SIZE == sbrk0 / PAGE_SIZE {
      SamePage(used0, t0, used, t, sbrk0 / PAGE_SIZE);
    }
  }

  lemma SamePage(used0: Bytemap, t0: Table, used: Bytemap, t: Table, p: nat)
    ensures Grown(used0, t0, used, t, p, p) ==> used == used0 && t == t0
    ensures Missing(t0, p, p) == {}
  {
    if Grown(used0, t0, used, t, p, p) {
      assert OnlyMissing(t0, t, p, p);
      assert t == t0;
      assert forall f :: !MapsNew(t0, t, f);
    }
  }

  /** A granted request is wholly mapped exactly when the old break was not past the top of the heap,
      where a release of too much can leave it. */
  lemma GrantedIsMappedIff(used0: Bytemap, t0: Table, sbrk0: nat, n: int, used: Bytemap, t: Table, sbrk: nat, r: nat)
    requires 0 < n < 0x8000_0000 && sbrk0 < HEAP_TOP + PAGE_SIZE && HeapMapped(t0, sbrk0)
    requires DynMem(used0, t0, sbrk0, n, used, t, sbrk, r) && r != 0
    ensures r == sbrk0 - n && HeapMapped(t, sbrk)
    ensures BytesMapped(t, r, sbrk0) <==> sbrk0 <= HEAP_TOP
  {
    var from, to := sbrk0 / PAGE_SIZE, r / PAGE_SIZE;
    assert (sbrk0 - n) % WORD / PAGE_SIZE <= TOTAL_PAGES;
    assert r == sbrk0 - n;
    if sbrk0 <= HEAP_TOP {
      forall a | r <= a < sbrk0
        ensures a / PAGE_SIZE < TOTAL_PAGES && t[a / PAGE_SIZE].present
      {
        assert to <= a / PAGE_SIZE;
      }
    } else {
      assert (sbrk0 - 1) / PAGE_SIZE == TOTAL_PAGES;
    }
  }

  /** Giving a granted request back restores the break, and the mapped pages exactly when none of the
      pages in between was mapped before. */
  lemma ReleaseRestoresIff(used0: Bytemap, t0: Table, sbrk0: nat, n: int,
                           used1: Bytemap, t1: Table, sbrk1: nat, r1: nat,
                           used2: Bytemap, t2: Table, sbrk2: nat, r2: nat)
    requires 0 < n < 0x8000_0000 && sbrk0 <= HEAP_TOP
    requires DynMem(used0, t0, sbrk0, n, used1, t1, sbrk1, r1) && r1 != 0
    requires DynMem(used1, t1, sbrk1, -n, used2, t2, sbrk2, r2)
    ensures sbrk2 == r2 == sbrk0
    ensures (forall p :: 0 <= p < TOTAL_PAGES ==> t2[p].present == t0[p].present) <==>
            (forall p :: r1 / PAGE_SIZE <= p < sbrk0 / PAGE_SIZE ==> !t0[p].present)
  {
    assert r1 == sbrk0 - n && (sbrk1 + n) % WORD == sbrk0;
    var lo, hi := r1 / PAGE_SIZE, sbrk0 / PAGE_SIZE;
    assert Grown(used0, t0, used1, t1, lo, hi);
    assert OnlyMissing(t0, t1, lo, hi);
    if lo == hi {
      assert t1 == t0;
      assert t2 == t1 by {
        assert Grown(used1, t1, used2, t2, hi, lo);
      }
    }
  }

  // ---------- where single requests go wrong, from the start

  lemma OneByteReleased(used0: Bytemap, t0: Table, used: Bytemap, t: Table, sbrk: nat, r: nat)
    requires DynMem(used0, t0, HEAP_TOP, -1, used, t, sbrk, r)
    ensures r == sbrk == HEAP_TOP + 1
  {
    assert (HEAP_TOP + 1) % WORD == HEAP_TOP + 1 && (HEAP_TOP + 1) / PAGE_SIZE == HEAP_TOP / PAGE_SIZE == TOTAL_PAGES;
    assert Missing(t0, TOTAL_PAGES, TOTAL_PAGES) == {};
  }

  lemma ByteGranted(used0: Bytemap, t0: Table, used: Bytemap, t: Table, sbrk: nat, r: nat)
    requires DynMem(used0, t0, HEAP_TOP + 1, 1, used, t, sbrk, r)
    ensures r == sbrk == HEAP_TOP
  {
    assert HEAP_TOP % WORD == HEAP_TOP && (HEAP_TOP + 1) / PAGE_SIZE == HEAP_TOP / PAGE_SIZE == TOTAL_PAGES;
    assert Missing(t0, TOTAL_PAGES, TOTAL_PAGES) == {};
  }

  /** Releasing one byte at the very start puts the break past the top of the heap, and the next request for a
      byte is granted that byte although nothing is mapped there. */
  lemma UnmappedByteIsGranted(s: Space, used1: Bytemap, t1: Table, sbrk1: nat, r1: nat,
                              used2: Bytemap, t2: Table, sbrk2: nat, r2: nat)
    requires Initial(s)
    requires DynMem(s.used, s.t, s.sbrk, -1, used1, t1, sbrk1, r1)
    requires DynMem(used1, t1, sbrk1, 1, used2, t2, sbrk2, r2)
    ensures r1 == sbrk1 == HEAP_TOP + 1 && r2 == sbrk2 == HEAP_TOP && !BytesMapped(t2, r2, sbrk1)
  {
    OneByteReleased(s.used, s.t, used1, t1, sbrk1, r1);
    ByteGranted(used1, t1, used2, t2, sbrk2, r2);
    assert HEAP_TOP / PAGE_SIZE >= TOTAL_PAGES;
  }

  /** More than all memory. */
  const TOO_MUCH: nat := (EXTRA_FRAMES + 1) * PAGE_SIZE

  /** A request that fails for want of frames leaves the pages it has mapped behind, the last one among them. */
  lemma FailedRequestLeavesPage(s: Space, used: Bytemap, t: Table, sbrk: nat, r: nat)
    requires Initial(s) && DynMem(s.used, s.t, s.sbrk, TOO_MUCH, used, t, sbrk, r)
    ensures r == 0 && sbrk == s.sbrk && !s.t[TOTAL_PAGES - 1].present && t[TOTAL_PAGES - 1].present
  {
    var to := TOTAL_PAGES - EXTRA_FRAMES - 1;
    assert (HEAP_TOP - TOO_MUCH) % WORD == HEAP_TOP - TOO_MUCH && (HEAP_TOP - TOO_MUCH) / PAGE_SIZE == to;
    FirstUsedFree(s.used, NUM_PAG_CODE + NUM_PAG_DATA);
    RangeSize(to, TOTAL_PAGES);
    assert Missing(s.t, to, TOTAL_PAGES) == Range(to, TOTAL_PAGES);
    assert ExtraPages(s.t) == {};
    assert |ExtraPages(t)| == EXTRA_FRAMES;
    LastPageFirst(s.t, used, t, to);
  }

  lemma LastPageFirst(t0: Table, used: Bytemap, t: Table, to: nat)
    requires RanOut(t0, used, t, to, TOTAL_PAGES) && ExtraPages(t0) == {} && |ExtraPages(t)| > 0
    ensures t[TOTAL_PAGES - 1].present
  {
    var cut :| to < cut <= TOTAL_PAGES && StoppedBelow(t0, t, cut, TOTAL_PAGES);
    var p :| p in ExtraPages(t);
    assert p !in ExtraPages(t0);
  }

  /** After that, a request for one page and its release do not restore the table. */
  lemma ReleaseUnmapsPage(s: Space, used1: Bytemap, t1: Table, sbrk1: nat, r1: nat,
                          used2: Bytemap, t2: Table, sbrk2: nat, r2: nat,
                          used3: Bytemap, t3: Table, sbrk3: nat, r3: nat)
    requires Initial(s) && DynMem(s.used, s.t, s.sbrk, TOO_MUCH, used1, t1, sbrk1, r1)
    requires DynMem(used1, t1, sbrk1, PAGE_SIZE, used2, t2, sbrk2, r2)
    requires DynMem(used2, t2, sbrk2, -(PAGE_SIZE as int), used3, t3, sbrk3, r3)
    ensures r2 != 0 && sbrk3 == sbrk1
    ensures exists p :: 0 <= p < TOTAL_PAGES && t3[p].present != t1[p].present
  {
    FailedRequestLeavesPage(s, used1, t1, sbrk1, r1);
    OnePageGranted(used1, t1, used2, t2, sbrk2, r2);
    ReleaseRestoresIff(used1, t1, sbrk1, PAGE_SIZE, used2, t2, sbrk2, r2, used3, t3, sbrk3, r3);
    assert r2 / PAGE_SIZE == TOTAL_PAGES - 1 && sbrk1 / PAGE_SIZE == TOTAL_PAGES;
  }

  lemma OnePageGranted(used0: Bytemap, t0: Table, used: Bytemap, t: Table, sbrk: nat, r: nat)
    requires DynMem(used0, t0, HEAP_TOP, PAGE_SIZE, used, t, sbrk, r) && t0[TOTAL_PAGES - 1].present
    ensures r == sbrk == HEAP_TOP - PAGE_SIZE
  {
    assert (HEAP_TOP - PAGE_SIZE) % WORD == HEAP_TOP - PAGE_SIZE;
    assert (HEAP_TOP - PAGE_SIZE) / PAGE_SIZE == TOTAL_PAGES - 1 && HEAP_TOP / PAGE_SIZE == TOTAL_PAGES;
    assert Missing(t0, TOTAL_PAGES - 1, TOTAL_PAGES) == {};
  }

  // ---------- a fork from such an address space

  /** There are always windows enough: a fork can fail here, but not by leaving the table. */
  lemma ForkStaysInTable(run: seq<Space>, steps: seq<Step>, n: nat)
    requires IsRun(run, steps) && Initial(run[0]) && n < |run|
    ensures |FreePages(run[n].t)| >= 384
    ensures !OutcomeOf(|FreeFrames(run[n].used)|, |FreePages(run[n].t)|).OffTable?
  {
    InitialInv(run[0]);
    RunInv(run, steps, n);
    ExtraAndFree(run[n].t);
  }

  /** All that lies beyond the code pages is as in t0. */
  ghost predicate SameBeyondCode(t0: Table, t: Table) {
    forall p :: FIRST_EXTRA <= p < TOTAL_PAGES ==> t[p] == t0[p]
  }

  /** A fork trims the table of the parent: heap and stacks stay mapped in the child's only. */
  lemma ForkMovesHeap(s: Space, parent: Table, child: Table)
    requires SpaceInv(s) && Trimmed(s.t, parent) && SameBeyondCode(s.t, child)
    ensures HeapMapped(child, s.sbrk) && StacksMapped(child, s.stacks)
    ensures HeapMapped(parent, s.sbrk) <==> s.sbrk == HEAP_TOP
    ensures StacksMapped(parent, s.stacks) <==> s.stacks == {}
    ensures forall i :: 0 <= i < |s.blocks| ==> !BytesMapped(parent, s.blocks[i].lo, s.blocks[i].hi)
  {
    if s.sbrk < HEAP_TOP {
      assert s.sbrk / PAGE_SIZE <= TOTAL_PAGES - 1 && !parent[TOTAL_PAGES - 1].present;
    }
    if s.stacks != {} {
      var p :| p in s.stacks;
      assert !parent[p].present;
    }
    forall i | 0 <= i < |s.blocks|
      ensures !BytesMapped(parent, s.blocks[i].lo, s.blocks[i].hi)
    {
      var a := s.blocks[i].lo;
      assert TOTAL_PAGES - EXTRA_FRAMES <= a / PAGE_SIZE < TOTAL_PAGES && !parent[a / PAGE_SIZE].present;
    }
  }

  // ---------- a heap that uses up the frames

  /** The first process asks for as many pages as there are frames left. */
  const WHOLE_HEAP: nat := EXTRA_FRAMES * PAGE_SIZE

  lemma NothingMappedYet(s: Space)
    requires Initial(s)
    ensures |FreeFrames(s.used)| == EXTRA_FRAMES && ExtraPages(s.t) == {}
    ensures |Missing(s.t, TOTAL_PAGES - EXTRA_FRAMES, TOTAL_PAGES)| == EXTRA_FRAMES
  {
    FirstUsedFree(s.used, NUM_PAG_CODE + NUM_PAG_DATA);
    RangeSize(TOTAL_PAGES - EXTRA_FRAMES, TOTAL_PAGES);
    assert ExtraPages(s.t) == {};
    assert Missing(s.t, TOTAL_PAGES - EXTRA_FRAMES, TOTAL_PAGES) == Range(TOTAL_PAGES - EXTRA_FRAMES, TOTAL_PAGES);
  }

  lemma GrownByAll(used0: Bytemap, t0: Table, used: Bytemap, t: Table, lo: nat)
    requires Grown(used0, t0, used, t, lo, TOTAL_PAGES) && Access(t0) && FIRST_EXTRA <= lo <= TOTAL_PAGES
    requires ExtraPages(t0) == {} && |FreeFrames(used0)| == TOTAL_PAGES - lo
    requires forall p :: lo <= p < TOTAL_PAGES ==> t[p].present
    ensures FreeFrames(used) == {} && |ExtraPages(t)| == TOTAL_PAGES - lo
  {
    RangeSize(lo, TOTAL_PAGES);
    SubsetSize(Range(lo, TOTAL_PAGES), ExtraPages(t));
    assert |FreeFrames(used)| == 0;
  }

  lemma WholeHeapIsGranted(s: Space, used: Bytemap, t: Table, sbrk: nat, r: nat)
    requires DynMem(s.used, s.t, HEAP_TOP, WHOLE_HEAP, used, t, sbrk, r) && |FreeFrames(s.used)| == EXTRA_FRAMES
    requires |Missing(s.t, TOTAL_PAGES - EXTRA_FRAMES, TOTAL_PAGES)| == EXTRA_FRAMES
    ensures r == sbrk == HEAP_TOP - WHOLE_HEAP
    ensures Grown(s.used, s.t, used, t, TOTAL_PAGES - EXTRA_FRAMES, TOTAL_PAGES)
    ensures forall p :: TOTAL_PAGES - EXTRA_FRAMES <= p < TOTAL_PAGES ==> t[p].present
  {
    hide Grown, RanOut, Missing, FreeFrames;
    assert (HEAP_TOP - WHOLE_HEAP) % WORD == HEAP_TOP - WHOLE_HEAP;
    assert (HEAP_TOP - WHOLE_HEAP) / PAGE_SIZE == TOTAL_PAGES - EXTRA_FRAMES && HEAP_TOP / PAGE_SIZE == TOTAL_PAGES;
  }

  /** The request is granted and leaves no frame, but 384 windows. */
  lemma HeapUsesUpFrames(s: Space, used: Bytemap, t: Table, sbrk: nat, r: nat)
    requires Initial(s) && DynMem(s.used, s.t, HEAP_TOP, WHOLE_HEAP, used, t, sbrk, r)
    ensures r == sbrk == HEAP_TOP - WHOLE_HEAP
    ensures FreeFrames(used) == {} && |FreePages(t)| == TOTAL_PAGES - FIRST_EXTRA - EXTRA_FRAMES
    ensures forall p :: 0 <= p < FIRST_EXTRA ==> t[p] == s.t[p]
    ensures forall f :: 0 <= f < TOTAL_PAGES && s.used[f] ==> used[f]
  {
    NothingMappedYet(s);
    WholeHeapIsGranted(s, used, t, sbrk, r);
    GrownByAll(s.used, s.t, used, t, TOTAL_PAGES - EXTRA_FRAMES);
    ExtraAndFree(t);
  }

  // ---------- the same on the machine

  /** s is the address space of table i. */
  ghost predicate On(m: Machine, i: nat, s: Space)
    requires m.Valid() && i < NR_TASKS
    reads m, m.phys, m.pt[i]
  {
    s.used == m.Used() && s.t == m.Row(i) && s.sbrk == m.sbrk
  }

  /** The stack of a new thread. */
  method NewThread(m: Machine, i: nat, ghost s: Space) returns (ghost s': Space)
    requires m.Valid() && i < NR_TASKS && On(m, i, s) && FreePages(s.t) != {}
    modifies m.phys, m.pt[i]
    ensures On(m, i, s') && Next(s, CreateThread, s')
  {
    ghost var page: nat;
    var inTable, stack;
    inTable, stack, page := m.GetNewStack(i);
    s' := s.(used := m.Used(), t := m.Row(i), stacks := s.stacks + {page});
    assert StackMapped(s.used, s.t, s'.used, s'.t, page);
  }

  /** A request for memory, or the release of some. */
  method HeapRequest(m: Machine, i: nat, n: int, ghost s: Space) returns (ghost s': Space)
    requires m.Valid() && i < NR_TASKS && On(m, i, s) && -0x8000_0000 <= n < 0x8000_0000 && s.sbrk <= HEAP_TOP
    modifies m`sbrk, m.phys, m.pt[i]
    ensures On(m, i, s') && Next(s, Request(n), s')
  {
    var r := m.SysDynMem(i, n);
    s' := Space(m.Used(), m.Row(i), m.sbrk, s.stacks,
                if r == 0 then s.blocks else if n > 0 then s.blocks + [Block(r, s.sbrk)] else Alive(s.blocks, m.sbrk));
    assert DynMem(s.used, s.t, s.sbrk, n, s'.used, s'.t, s'.sbrk, r);
  }

  /** The memory side of one call: a step of the address space, which finds what it needs and keeps the invariant. */
  method Serve(m: Machine, i: nat, a: Step, ghost s: Space) returns (ghost s': Space)
    requires m.Valid() && i < NR_TASKS && On(m, i, s) && SpaceInv(s) && Admissible(s, a)
    modifies m`sbrk, m.phys, m.pt[i]
    ensures On(m, i, s') && Next(s, a, s') && SpaceInv(s')
  {
    match a {
      case CreateThread =>
        FreePageExists(s.t);
        s' := NewThread(m, i, s);
        CreateThreadInv(s, s');
      case ExitThread(page) =>
        m.DelSsPag(i, page);
        s' := s.(t := m.Row(i), stacks := s.stacks - {page});
        ExitThreadInv(s, page, s');
      case Request(n) =>
        s' := HeapRequest(m, i, n, s);
        RequestInv(s, n, s');
    }
  }

  /** The memory side of a fork from such an address space.  It succeeds exactly if there are frames enough;
      either way the parent loses every stack and every byte it was granted, and the child has them. */
  method Fork(m: Machine, parent: nat, child: nat, ghost s: Space) returns (r: CopyResult)
    requires m.Valid() && parent < NR_TASKS && child < NR_TASKS && parent != child
    requires On(m, parent, s) && SpaceInv(s) && DataMapped(s.used, s.t)
    modifies m.phys, m.pt[parent], m.pt[child], m.ram
    ensures r == if |FreeFrames(s.used)| >= NUM_PAG_DATA then Done else NoMemory
    ensures Trimmed(s.t, m.Row(parent)) && SameBeyondCode(s.t, m.Row(child))
    ensures Access(m.Row(parent)) && (r.Done? ==> Access(m.Row(child)))
    ensures HeapMapped(m.Row(child), s.sbrk) && StacksMapped(m.Row(child), s.stacks)
    ensures HeapMapped(m.Row(parent), s.sbrk) <==> s.sbrk == HEAP_TOP
    ensures StacksMapped(m.Row(parent), s.stacks) <==> s.stacks == {}
    ensures forall i :: 0 <= i < |s.blocks| ==> !BytesMapped(m.Row(parent), s.blocks[i].lo, s.blocks[i].hi)
  {
    ghost var fs: seq<nat>;
    ExtraAndFree(s.t);
    r, fs := m.CopyAndAllocatePages(parent, child);
    if r.Done? {
      ForkAccess(s.used, s.t, m.Used(), m.Row(child), fs, m.Row(parent));
    }
    ForkMovesHeap(s, m.Row(parent), m.Row(child));
  }
}
