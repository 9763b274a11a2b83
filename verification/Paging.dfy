// Memory management of lab/zeos/mm.c on the machine's own tables: the frame bytemap, one page table
// per PCB slot, and the contents of the physical frames, all changed in place.

module Paging {
  import opened Common
  import opened Frames

  /** d with size bytes of s, from so, written at position do. */
  ghost function Overwritten<T>(d: seq<T>, do: nat, s: seq<T>, so: nat, size: nat): (r: seq<T>)
    requires do + size <= |d| && so + size <= |s|
    ensures |r| == |d|
    ensures forall o :: 0 <= o < |d| ==> r[o] == if do <= o < do + size then s[so + o - do] else d[o]
  {
    d[..do] + s[so..so + size] + d[do + size..]
  }

  lemma OverwrittenMore<T>(d: seq<T>, do: nat, s: seq<T>, so: nat, k: nat, n: nat)
    requires do + k + n <= |d| && so + k + n <= |s|
    ensures Overwritten(Overwritten(d, do, s, so, k), do + k, s, so + k, n) == Overwritten(d, do, s, so, k + n)
    ensures n == 1 ==> Overwritten(d, do, s, so, k)[do + k := s[so + k]] == Overwritten(d, do, s, so, k + n)
  {
  }

  /** Four stores next to each other. */
  lemma FourStores(d: seq<bv8>, do: nat, s: seq<bv8>, so: nat)
    requires do + 4 <= |d| && so + 4 <= |s|
    ensures d[do := s[so]][do + 1 := s[so + 1]][do + 2 := s[so + 2]][do + 3 := s[so + 3]] == Overwritten(d, do, s, so, 4)
  {
  }

  // ---------- what stacks and the heap do to tables and frames

  const HEAP_TOP: nat := TOTAL_PAGES * PAGE_SIZE

  /** The first free page is mapped: to the first free frame, or to nothing real if there is none. */
  ghost predicate StackMapped(used0: Bytemap, t0: Table, used: Bytemap, t: Table, page: nat) {
    && page in FreePages(t0) && (forall g :: g in FreePages(t0) ==> page <= g)
    && (FreeFrames(used0) == {} ==> used == used0 && t == t0[page := UserPte(0xFFFFF)])
    && (FreeFrames(used0) != {} ==>
          exists f :: LowestFree(used0, f) && used == used0[f := true] && t == t0[page := UserPte(f)])
  }

  /** Pages from lo to hi that map nothing. */
  ghost function Missing(t: Table, lo: nat, hi: nat): set<nat> {
    set p: nat | p < TOTAL_PAGES && Between(lo, p, hi) && !t[p].present
  }

  /** Only missing pages between lo and hi changed. */
  ghost predicate OnlyMissing(t0: Table, t: Table, lo: nat, hi: nat) {
    forall p :: 0 <= p < TOTAL_PAGES && (t0[p].present || !(lo <= p < hi)) ==> t[p] == t0[p]
  }

  /** Each changed page has a frame of its own that was free before and is used now. */
  ghost predicate OwnFrames(used0: Bytemap, t0: Table, used: Bytemap, t: Table) {
    && (forall p :: 0 <= p < TOTAL_PAGES && t[p] != t0[p] ==>
          t[p].frame in FreeFrames(used0) && used[t[p].frame] && t[p] == UserPte(t[p].frame))
    && (forall p, p' :: 0 <= p < TOTAL_PAGES && 0 <= p' < TOTAL_PAGES && t[p] != t0[p] && t[p'] != t0[p'] && p != p' ==>
          t[p].frame != t[p'].frame)
  }

  ghost predicate MapsNew(t0: Table, t: Table, f: int) {
    exists p :: 0 <= p < TOTAL_PAGES && t[p] != t0[p] && t[p].frame == f
  }

  /** The frames used now and not before are exactly those that the changed pages map. */
  ghost predicate NewlyUsed(used0: Bytemap, t0: Table, used: Bytemap, t: Table) {
    forall f :: 0 <= f < TOTAL_PAGES ==> (used[f] <==> used0[f] || MapsNew(t0, t, f))
  }

  lemma NewlyUsedMore(used0: Bytemap, t0: Table, used: Bytemap, t: Table, p: nat, f: nat)
    requires NewlyUsed(used0, t0, used, t) && p < TOTAL_PAGES && t[p] == t0[p] && !t0[p].present && f < TOTAL_PAGES
    ensures NewlyUsed(used0, t0, used[f := true], t[p := UserPte(f)])
  {
    var t1 := t[p := UserPte(f)];
    assert t1[p] != t0[p] && t1[p].frame == f;
    forall g: nat | g < TOTAL_PAGES
      ensures MapsNew(t0, t1, g) <==> MapsNew(t0, t, g) || g == f
    {
      if MapsNew(t0, t, g) {
        var k :| 0 <= k < TOTAL_PAGES && t[k] != t0[k] && t[k].frame == g;
        assert t1[k] == t[k];
      }
    }
  }

  /** Some missing pages between lo and hi were mapped, each to a frame of its own. */
  ghost predicate Grown(used0: Bytemap, t0: Table, used: Bytemap, t: Table, lo: nat, hi: nat) {
    && OnlyMissing(t0, t, lo, hi) && OwnFrames(used0, t0, used, t)
    && NewlyUsed(used0, t0, used, t)
    && ((forall p :: lo <= p < FIRST_EXTRA ==> t0[p].present) ==>
          |ExtraPages(t)| + |FreeFrames(used)| == |ExtraPages(t0)| + |FreeFrames(used0)|)
  }

  lemma GrownNothing(used: Bytemap, t: Table, lo: nat, hi: nat)
    ensures Grown(used, t, used, t, lo, hi) && Missing(t, hi, hi) == {}
  {
  }

  lemma OwnFramesMore(used0: Bytemap, t0: Table, used: Bytemap, t: Table, p: nat, f: nat)
    requires OwnFrames(used0, t0, used, t) && (forall g :: 0 <= g < TOTAL_PAGES && used0[g] ==> used[g])
    requires p < TOTAL_PAGES && t[p] == t0[p] && f in FreeFrames(used)
    ensures OwnFrames(used0, t0, used[f := true], t[p := UserPte(f)])
  {
    assert f in FreeFrames(used0);
  }

  lemma GrownMore(used0: Bytemap, t0: Table, used: Bytemap, t: Table, lo: nat, hi: nat, p: nat, f: nat)
    requires Grown(used0, t0, used, t, lo, hi) && lo <= p < hi <= TOTAL_PAGES && t[p] == t0[p] && !t0[p].present
    requires f in FreeFrames(used)
    ensures Grown(used0, t0, used[f := true], t[p := UserPte(f)], lo, hi)
  {
    OwnFramesMore(used0, t0, used, t, p, f);
    NewlyUsedMore(used0, t0, used, t, p, f);
    TakeFrame(used, f);
    if p >= FIRST_EXTRA {
      MapPage(t, p, UserPte(f));
    }
  }

  /** The mapping went from hi down to a missing page for which there was no frame any more. */
  ghost predicate RanOut(t0: Table, used: Bytemap, t: Table, lo: nat, hi: nat) {
    FreeFrames(used) == {}
    && exists cut :: lo < cut <= hi && StoppedBelow(t0, t, cut, hi)
  }

  ghost predicate StoppedBelow(t0: Table, t: Table, cut: nat, hi: nat) {
    && 0 < cut <= hi <= TOTAL_PAGES && !t0[cut - 1].present
    && (forall p :: cut <= p < hi ==> t[p].present)
    && (forall p :: 0 <= p < cut ==> t[p] == t0[p])
  }

  /** Halfway down: all pages from p on are mapped and none below has been looked at. */
  ghost predicate Mapping(used0: Bytemap, t0: Table, used: Bytemap, t: Table, lo: nat, p: nat, hi: nat) {
    && p <= hi <= TOTAL_PAGES && Grown(used0, t0, used, t, lo, hi)
    && (forall k :: p <= k < hi ==> t[k].present) && (forall k :: 0 <= k < p ==> t[k] == t0[k])
    && |FreeFrames(used0)| - |FreeFrames(used)| == |Missing(t0, p, hi)|
  }

  lemma MissingOneMore(t: Table, p: nat, hi: nat)
    requires p < hi <= TOTAL_PAGES
    ensures |Missing(t, p, hi)| == |Missing(t, p + 1, hi)| + if t[p].present then 0 else 1
  {
    assert Missing(t, p, hi) == Missing(t, p + 1, hi) + if t[p].present then {} else {p};
  }

  lemma MissingMonotone(t: Table, lo: nat, p: nat, hi: nat)
    requires lo <= p
    ensures |Missing(t, p, hi)| <= |Missing(t, lo, hi)|
  {
    SubsetSize(Missing(t, p, hi), Missing(t, lo, hi));
  }

  /** sys_dyn_mem: what it returns and what it leaves behind. */
  ghost predicate DynMem(used0: Bytemap, t0: Table, sbrk0: nat, numBytes: int,
                         used: Bytemap, t: Table, sbrk: nat, r: nat) {
    var target := (sbrk0 - numBytes) % WORD;
    var from, to := sbrk0 / PAGE_SIZE, target / PAGE_SIZE;
    if !(PAG_LOG_INIT_CODE < to <= TOTAL_PAGES) then
      r == 0 && used == used0 && t == t0 && sbrk == sbrk0
    else if to <= from then
      && Grown(used0, t0, used, t, to, from)
      && (if |Missing(t0, to, from)| <= |FreeFrames(used0)|
          then r == sbrk == target && forall p :: to <= p < from && p < TOTAL_PAGES ==> t[p].present
          else r == 0 && sbrk == sbrk0 && RanOut(t0, used, t, to, from))
    else
      && r == sbrk == target && used == used0
      && forall p :: 0 <= p < TOTAL_PAGES ==> t[p] == if from <= p < to then CLEAR else t0[p]
  }

  lemma GrownAccess(used0: Bytemap, t0: Table, used: Bytemap, t: Table, lo: nat, hi: nat)
    requires Grown(used0, t0, used, t, lo, hi) && Access(t0) && NUM_PAG_KERNEL <= lo
    ensures Access(t)
  {
  }

  // ---------- what a fork does to tables and frames

  /** After the first |fs| data pages: each has a new frame of its own in the child's table, and the rest
      of that table is the parent's, as it was at the start. */
  ghost predicate Copied(used0: Bytemap, parent0: Table, used: Bytemap, child: Table, fs: seq<nat>) {
    && |fs| <= NUM_PAG_DATA && Distinct(fs)
    && (forall k :: 0 <= k < |fs| ==> fs[k] in FreeFrames(used0))
    && (forall f :: 0 <= f < TOTAL_PAGES ==> (used[f] <==> used0[f] || f in fs))
    && (forall p :: 0 <= p < TOTAL_PAGES ==>
          child[p] == if Between(PAG_LOG_INIT_DATA, p, PAG_LOG_INIT_DATA + |fs|) then UserPte(fs[p - PAG_LOG_INIT_DATA])
                      else parent0[p])
  }

  lemma CopiedMore(used0: Bytemap, parent0: Table, used: Bytemap, child: Table, fs: seq<nat>, f: nat)
    requires Copied(used0, parent0, used, child, fs) && |fs| < NUM_PAG_DATA && f in FreeFrames(used)
    ensures f in FreeFrames(used0) && f !in fs
    ensures Copied(used0, parent0, used[f := true], child[PAG_LOG_INIT_DATA + |fs| := UserPte(f)], fs + [f])
  {
  }

  /** The parent keeps kernel, data and code pages and loses every page beyond them. */
  ghost predicate Trimmed(t0: Table, t: Table) {
    forall p :: 0 <= p < TOTAL_PAGES ==> t[p] == if p < FIRST_EXTRA then t0[p] else CLEAR
  }

  lemma ForkAccess(used0: Bytemap, t0: Table, used: Bytemap, child: Table, fs: seq<nat>, t: Table)
    requires Copied(used0, t0, used, child, fs) && |fs| == NUM_PAG_DATA && Trimmed(t0, t) && Access(t0)
    ensures Access(child) && Access(t)
  {
  }

  /** Every data page of t is mapped to a frame that the bytemap knows as used. */
  ghost predicate DataMapped(used: Bytemap, t: Table) {
    forall p :: PAG_LOG_INIT_DATA <= p < PAG_LOG_INIT_CODE ==>
      t[p].present && t[p].frame < TOTAL_PAGES && used[t[p].frame]
  }

  lemma DataFrameNotFree(used: Bytemap, t: Table, p: nat)
    requires DataMapped(used, t) && PAG_LOG_INIT_DATA <= p < PAG_LOG_INIT_CODE
    ensures t[p].frame !in FreeFrames(used)
  {
  }

  /** The new frames hold the parent's data pages; every other frame holds what it held. */
  ghost predicate Filled(bytes0: seq<seq<bv8>>, parent0: Table, fs: seq<nat>, bytes: seq<seq<bv8>>) {
    && |bytes| == |bytes0| == TOTAL_PAGES && |fs| <= NUM_PAG_DATA
    && (forall k :: 0 <= k < |fs| && fs[k] < TOTAL_PAGES && parent0[PAG_LOG_INIT_DATA + k].frame < TOTAL_PAGES ==>
          bytes[fs[k]] == bytes0[parent0[PAG_LOG_INIT_DATA + k].frame])
    && (forall f :: 0 <= f < TOTAL_PAGES && f !in fs ==> bytes[f] == bytes0[f])
  }

  lemma FilledMore(bytes0: seq<seq<bv8>>, parent0: Table, fs: seq<nat>, bytes: seq<seq<bv8>>, f: nat)
    requires Filled(bytes0, parent0, fs, bytes) && |fs| < NUM_PAG_DATA && f < TOTAL_PAGES && f !in fs
    requires parent0[PAG_LOG_INIT_DATA + |fs|].frame < TOTAL_PAGES
    ensures Filled(bytes0, parent0, fs + [f], bytes[f := bytes0[parent0[PAG_LOG_INIT_DATA + |fs|].frame]])
  {
  }

  /** The table without its data pages: that of a process that exits, and of a child whose fork failed. */
  ghost predicate Unmapped(t0: Table, t: Table) {
    forall p :: 0 <= p < TOTAL_PAGES ==>
      t[p] == if Between(PAG_LOG_INIT_DATA, p, PAG_LOG_INIT_CODE) then CLEAR else t0[p]
  }

  /** Every data page is unmapped and its frame marked free, except frame 256. */
  ghost predicate Released(used0: Bytemap, t0: Table, used: Bytemap, t: Table) {
    && Unmapped(t0, t)
    && (forall f :: 0 <= f < TOTAL_PAGES ==>
          (used[f] <==> used0[f] && !(f > NUM_PAG_KERNEL && f in DataFrames(t0))))
  }

  /** How copy_and_allocate_pages ends: with 0, with ENOMEM, or by writing to entry -1 of a table. */
  datatype CopyResult = Done | NoMemory | OffTable

  /** It succeeds with a frame and a window for each data page.  Windows that run out before the frames do
      are noticed only for the very first page. */
  function OutcomeOf(frames: nat, windows: nat): CopyResult {
    if frames >= NUM_PAG_DATA && windows >= NUM_PAG_DATA then Done
    else if 0 < windows < frames && windows < NUM_PAG_DATA then OffTable
    else NoMemory
  }

  /** The rounds of the copy from page k on, by what is left: a frame is looked for before a window. */
  function Rounds(frames: nat, windows: nat, k: nat): CopyResult
    decreases NUM_PAG_DATA - k
  {
    if k >= NUM_PAG_DATA then Done
    else if frames == 0 then NoMemory
    else if windows == 0 then (if k == 0 then NoMemory else OffTable)
    else Rounds(frames - 1, windows - 1, k + 1)
  }

  lemma {:induction false} RoundsFrom(frames: nat, windows: nat, k: nat)
    requires k > 0
    ensures Rounds(frames, windows, k) == if k + frames >= NUM_PAG_DATA && k + windows >= NUM_PAG_DATA then Done
                                          else if frames <= windows then NoMemory else OffTable
    decreases NUM_PAG_DATA - k
  {
    if k < NUM_PAG_DATA && frames > 0 && windows > 0 {
      RoundsFrom(frames - 1, windows - 1, k + 1);
    }
  }

  /** How the rounds end can be told beforehand. */
  lemma OutcomeOfRounds(frames: nat, windows: nat)
    ensures Rounds(frames, windows, 0) == OutcomeOf(frames, windows)
  {
    if frames > 0 && windows > 0 {
      RoundsFrom(frames - 1, windows - 1, 1);
    }
  }

  function Min3(a: nat, b: nat, c: nat): nat {
    var m := if a < b then a else b;
    if m < c then m else c
  }

  ghost predicate LowestFree(used: Bytemap, f: int) {
    f in FreeFrames(used) && forall g :: g in FreeFrames(used) ==> f <= g
  }

  /** The bytemap when a copy ends without success: the new frames are used, and the frame that was taken
      before a window for the first page was looked for in vain. */
  ghost predicate TakenSoFar(v0: View, fs: seq<nat>, used: Bytemap) {
    forall f :: 0 <= f < TOTAL_PAGES ==>
      (used[f] <==> v0.used[f] || f in fs || (FreePages(v0.parent) == {} && LowestFree(v0.used, f)))
  }

  /** The bytemap after an abort with n pages copied.  The frames of the parent's other data pages are marked
      free.  Of the frames that were free, all are again but the lowest, if there was no window at all, and
      else but frame 256, which free_frame ignores. */
  ghost predicate Aborted(used0: Bytemap, t0: Table, used: Bytemap, n: nat) {
    n <= NUM_PAG_DATA
    && forall f :: 0 <= f < TOTAL_PAGES ==>
         (used[f] <==> if f in FreeFrames(used0)
                       then if FreePages(t0) == {} then LowestFree(used0, f) else f == NUM_PAG_KERNEL
                       else used0[f] && !(f > NUM_PAG_KERNEL && f in DataFrames(t0)[n..]))
  }

  /** An abort leaves the parent all its frames exactly if those of the pages not yet copied cannot be freed. */
  lemma ParentKeepsFramesIff(used0: Bytemap, t0: Table, used: Bytemap, n: nat)
    requires DataMapped(used0, t0) && Aborted(used0, t0, used, n)
    ensures (forall p :: PAG_LOG_INIT_DATA <= p < PAG_LOG_INIT_CODE ==> used[t0[p].frame])
            <==> (forall p :: PAG_LOG_INIT_DATA + n <= p < PAG_LOG_INIT_CODE ==> t0[p].frame <= NUM_PAG_KERNEL)
  {
    var lost := DataFrames(t0)[n..];
    forall p | PAG_LOG_INIT_DATA <= p < PAG_LOG_INIT_CODE
      ensures used[t0[p].frame] <==> !(t0[p].frame > NUM_PAG_KERNEL && t0[p].frame in lost)
    {
      DataFrameNotFree(used0, t0, p);
    }
    forall p | PAG_LOG_INIT_DATA + n <= p < PAG_LOG_INIT_CODE
      ensures t0[p].frame in lost
    {
      assert lost[p - PAG_LOG_INIT_DATA - n] == t0[p].frame;
    }
  }

  /** The child's data pages halfway: the new frames, then the parent's. */
  lemma HalfwayFrames(used0: Bytemap, t0: Table, used: Bytemap, child: Table, fs: seq<nat>)
    requires Copied(used0, t0, used, child, fs)
    ensures DataFrames(child) == fs + DataFrames(t0)[|fs|..]
  {
    forall k | 0 <= k < NUM_PAG_DATA
      ensures DataFrames(child)[k] == (fs + DataFrames(t0)[|fs|..])[k]
    {
      if k < |fs| {
        assert fs[k] in FreeFrames(used0);
        assert child[PAG_LOG_INIT_DATA + k] == UserPte(fs[k]);
      }
    }
  }

  /** A copy that ended for want of frames has taken every free one. */
  lemma AllTaken(used0: Bytemap, t0: Table, used: Bytemap, child: Table, fs: seq<nat>)
    requires Copied(used0, t0, used, child, fs) && |fs| == |FreeFrames(used0)|
    ensures forall f :: f in FreeFrames(used0) <==> f in fs
  {
    DistinctSize(fs);
    EqualBySize(Elements(fs), FreeFrames(used0));
  }

  lemma AbortIsExact(v0: View, fs: seq<nat>, u: Bytemap, child: Table, used1: Bytemap, used2: Bytemap)
    requires DataMapped(v0.used, v0.parent) && Copied(v0.used, v0.parent, u, child, fs) && TakenSoFar(v0, fs, used1)
    requires |fs| == Min3(NUM_PAG_DATA, |FreeFrames(v0.used)|, |FreePages(v0.parent)|)
    requires OutcomeOf(|FreeFrames(v0.used)|, |FreePages(v0.parent)|).NoMemory?
    requires forall f :: 0 <= f < TOTAL_PAGES ==>
               (used2[f] <==> used1[f] && !(f > NUM_PAG_KERNEL && f in DataFrames(child)))
    ensures Aborted(v0.used, v0.parent, used2, |fs|)
  {
    var lost := DataFrames(v0.parent)[|fs|..];
    HalfwayFrames(v0.used, v0.parent, u, child, fs);
    if FreePages(v0.parent) != {} {
      AllTaken(v0.used, v0.parent, u, child, fs);
    }
    forall f: nat | f in lost
      ensures f !in FreeFrames(v0.used)
    {
      var k :| 0 <= k < |lost| && lost[k] == f;
      DataFrameNotFree(v0.used, v0.parent, PAG_LOG_INIT_DATA + |fs| + k);
    }
    assert forall f :: f in DataFrames(child) <==> f in fs || f in lost;
  }

  lemma LastTaken(v0: View, fs: seq<nat>, v: View, frame: int, used: Bytemap)
    requires Progress(v0, fs, v)
    requires if frame == -1 then |FreeFrames(v0.used)| <= |fs| && used == v.used
             else |fs| == 0 && FreePages(v0.parent) == {} && LowestFree(v.used, frame) && used == v.used[frame := true]
    ensures TakenSoFar(v0, fs, used)
  {
    if |fs| == 0 {
      assert v.used == v0.used;
    }
    if frame == -1 {
      AllTaken(v0.used, v0.parent, v.used, v.child, fs);
    }
  }

  /** What a fork works on: the bytemap, two page tables and all frames. */
  datatype View = View(used: Bytemap, parent: Table, child: Table, bytes: seq<seq<bv8>>)

  /** The state of the copy after |fs| data pages, started in v0. */
  ghost predicate Progress(v0: View, fs: seq<nat>, v: View) {
    && DataMapped(v0.used, v0.parent)
    && Copied(v0.used, v0.parent, v.used, v.child, fs) && Filled(v0.bytes, v0.parent, fs, v.bytes)
    && |FreeFrames(v.used)| + |fs| == |FreeFrames(v0.used)|
    && (forall p :: 0 <= p < FIRST_EXTRA ==> v.parent[p] == v0.parent[p])
    && |FreePages(v.parent)| + |fs| == |FreePages(v0.parent)|
  }

  /** Whether there is a frame, and a window, for one more page can be told from the start of the copy. */
  lemma RoomForNext(v0: View, fs: seq<nat>, v: View)
    requires Progress(v0, fs, v) && |fs| < NUM_PAG_DATA
    ensures FreeFrames(v.used) != {} <==> |FreeFrames(v0.used)| > |fs|
    ensures FreePages(v.parent) != {} <==> |FreePages(v0.parent)| > |fs|
  {
    assert FreeFrames(v.used) != {} <==> |FreeFrames(v.used)| > 0;
    assert FreePages(v.parent) != {} <==> |FreePages(v.parent)| > 0;
  }

  /** One more page: the source frame is none of the new ones, so its bytes are still the original ones. */
  lemma ProgressMore(v0: View, fs: seq<nat>, v: View, frame: nat, window: nat)
    requires Progress(v0, fs, v) && |fs| < NUM_PAG_DATA
    requires frame in FreeFrames(v.used) && window in FreePages(v.parent)
    ensures v.parent[PAG_LOG_INIT_DATA + |fs|] == v0.parent[PAG_LOG_INIT_DATA + |fs|]
    ensures v0.parent[PAG_LOG_INIT_DATA + |fs|].frame != frame
    ensures Progress(v0, fs + [frame],
                     View(v.used[frame := true], v.parent[window := UserPte(frame)],
                          v.child[PAG_LOG_INIT_DATA + |fs| := UserPte(frame)],
                          v.bytes[frame := v.bytes[v0.parent[PAG_LOG_INIT_DATA + |fs|].frame]]))
  {
    var source := v0.parent[PAG_LOG_INIT_DATA + |fs|].frame;
    TakeFrame(v.used, frame);
    CopiedMore(v0.used, v0.parent, v.used, v.child, fs, frame);
    MapPage(v.parent, window, UserPte(frame));
    DataFrameNotFree(v0.used, v0.parent, PAG_LOG_INIT_DATA + |fs|);
    FilledMore(v0.bytes, v0.parent, fs, v.bytes, frame);
    assert source !in fs;
  }

  class Machine {
    const phys: array<bool>           // phys_mem: true is USED_FRAME
    const pt: seq<array<Pte>>         // pagusr_table
    const ram: seq<array<bv8>>        // the bytes of each physical frame
    var sbrk: nat                     // the heap break, shared by all address spaces

    ghost predicate Valid() {
      && phys.Length == TOTAL_PAGES
      && |pt| == NR_TASKS && Distinct(pt) && (forall i :: 0 <= i < NR_TASKS ==> pt[i].Length == TOTAL_PAGES)
      && |ram| == TOTAL_PAGES && Distinct(ram) && (forall f :: 0 <= f < TOTAL_PAGES ==> ram[f].Length == PAGE_SIZE)
    }

    constructor ()
      ensures Valid() && fresh(phys) && sbrk == HEAP_TOP
      ensures (forall i :: 0 <= i < NR_TASKS ==> fresh(pt[i])) && (forall f :: 0 <= f < TOTAL_PAGES ==> fresh(ram[f]))
    {
      phys := new bool[TOTAL_PAGES];
      var tables: seq<array<Pte>> := [];
      for i := 0 to NR_TASKS
        invariant |tables| == i && Distinct(tables)
        invariant forall j :: 0 <= j < i ==> fresh(tables[j]) && tables[j].Length == TOTAL_PAGES
      {
        var a := new Pte[TOTAL_PAGES](_ => CLEAR);
        tables := tables + [a];
      }
      var bytes: seq<array<bv8>> := [];
      for i := 0 to TOTAL_PAGES
        invariant |bytes| == i && Distinct(bytes)
        invariant forall j :: 0 <= j < i ==> fresh(bytes[j]) && bytes[j].Length == PAGE_SIZE
      {
        var a := new bv8[PAGE_SIZE];
        bytes := bytes + [a];
      }
      pt, ram, sbrk := tables, bytes, HEAP_TOP;
    }

    ghost function Used(): Bytemap
      requires Valid()
      reads phys
    {
      phys[..]
    }

    ghost function Row(i: nat): Table
      requires Valid() && i < NR_TASKS
      reads pt[i]
    {
      pt[i][..]
    }

    // ---------- frames

    /** alloc_frame: the lowest frame it can find, or -1. */
    method AllocFrame() returns (f: int)
      requires Valid()
      modifies phys
      ensures f == -1 <==> FreeFrames(old(Used())) == {}
      ensures f == -1 ==> Used() == old(Used())
      ensures f != -1 ==> f in FreeFrames(old(Used())) && Used() == old(Used())[f := true]
      ensures f != -1 ==> forall g :: g in FreeFrames(old(Used())) ==> f <= g
    {
      var i := NUM_PAG_KERNEL;
      while i < TOTAL_PAGES
        invariant NUM_PAG_KERNEL <= i && (i - NUM_PAG_KERNEL) % 2 == 0
        invariant forall g :: g in FreeFrames(Used()) ==> i <= g
        invariant Used() == old(Used())
      {
        if !phys[i] {
          assert i in FreeFrames(Used());
          phys[i] := true;
          return i;
        }
        i := i + 2;
      }
      return -1;
    }

    /** free_frame: the strict comparison leaves frame 256 alone. */
    method FreeFrame(frame: nat)
      requires Valid()
      modifies phys
      ensures Used() == if NUM_PAG_KERNEL < frame < TOTAL_PAGES then old(Used())[frame := false] else old(Used())
    {
      if NUM_PAG_KERNEL < frame < TOTAL_PAGES {
        phys[frame] := false;
      }
    }

    /** init_frames */
    method InitFrames()
      requires Valid()
      modifies phys
      ensures forall f :: 0 <= f < TOTAL_PAGES ==> (Used()[f] <==> f < NUM_PAG_KERNEL)
    {
      for i := 0 to TOTAL_PAGES
        invariant forall f :: 0 <= f < i ==> !phys[f]
      {
        phys[i] := false;
      }
      for i := 0 to NUM_PAG_KERNEL
        invariant forall f :: 0 <= f < TOTAL_PAGES ==> (phys[f] <==> f < i)
      {
        phys[i] := true;
      }
    }

    // ---------- page table entries

    method SetSsPag(i: nat, page: nat, frame: nat)
      requires Valid() && i < NR_TASKS && page < TOTAL_PAGES
      modifies pt[i]
      ensures Row(i) == old(Row(i))[page := UserPte(frame)]
      ensures Row(i)[page].present && Row(i)[page].user && Row(i)[page].rw
      ensures frame < TOTAL_PAGES ==> Row(i)[page].frame == frame
    {
      pt[i][page] := UserPte(frame);
    }

    method DelSsPag(i: nat, page: nat)
      requires Valid() && i < NR_TASKS && page < TOTAL_PAGES
      modifies pt[i]
      ensures Row(i) == old(Row(i))[page := CLEAR]
    {
      pt[i][page] := CLEAR;
    }

    /** get_free_page: the first unmapped page past kernel, data and code, or -1. */
    method GetFreePage(i: nat) returns (p: int)
      requires Valid() && i < NR_TASKS
      ensures p == -1 <==> FreePages(Row(i)) == {}
      ensures p != -1 ==> p in FreePages(Row(i)) && forall g :: g in FreePages(Row(i)) ==> p <= g
    {
      p := FIRST_EXTRA;
      while p < TOTAL_PAGES
        invariant FIRST_EXTRA <= p
        invariant forall g :: g in FreePages(Row(i)) ==> p <= g
      {
        if !pt[i][p].present {
          assert p in FreePages(Row(i));
          return;
        }
        p := p + 1;
      }
      p := -1;
    }

    /** del_ss_extra_pages */
    method DelSsExtraPages(i: nat)
      requires Valid() && i < NR_TASKS
      modifies pt[i]
      ensures forall p :: 0 <= p < TOTAL_PAGES ==> Row(i)[p] == if p < FIRST_EXTRA then old(Row(i))[p] else CLEAR
    {
      for p := FIRST_EXTRA to TOTAL_PAGES
        invariant forall k :: 0 <= k < TOTAL_PAGES ==>
                    Row(i)[k] == if FIRST_EXTRA <= k < p then CLEAR else old(Row(i))[k]
      {
        DelSsPag(i, p);
      }
    }

    /** free_user_pages: every data page is unmapped and its frame given back, except frame 256. */
    method FreeUserPages(i: nat)
      requires Valid() && i < NR_TASKS
      modifies phys, pt[i]
      ensures Released(old(Used()), old(Row(i)), Used(), Row(i))
    {
      for k := 0 to NUM_PAG_DATA
        invariant forall p :: 0 <= p < TOTAL_PAGES ==>
                    Row(i)[p] == if Between(PAG_LOG_INIT_DATA, p, PAG_LOG_INIT_DATA + k) then CLEAR else old(Row(i))[p]
        invariant forall f :: 0 <= f < TOTAL_PAGES ==>
                    (Used()[f] <==> old(Used())[f] && !(f > NUM_PAG_KERNEL && f in DataFrames(old(Row(i)))[..k]))
      {
        var p := PAG_LOG_INIT_DATA + k;
        assert pt[i][p] == old(Row(i))[p];
        assert DataFrames(old(Row(i)))[..k + 1] == DataFrames(old(Row(i)))[..k] + [pt[i][p].frame];
        FreeFrame(pt[i][p].frame);
        pt[i][p] := CLEAR;
      }
    }

    // ---------- memory through a page table

    /** Address a can be reached through table i. */
    predicate Reachable(i: nat, a: nat)
      requires Valid() && i < NR_TASKS
      reads pt[i]
    {
      a / PAGE_SIZE < TOTAL_PAGES && pt[i][a / PAGE_SIZE].present && pt[i][a / PAGE_SIZE].frame < TOTAL_PAGES
    }

    /** The frame that address a is translated to by table i. */
    function FrameOf(i: nat, a: nat): (f: nat)
      requires Valid() && i < NR_TASKS && Reachable(i, a)
      reads pt[i]
      ensures f < TOTAL_PAGES
    {
      pt[i][a / PAGE_SIZE].frame
    }

    function Load(i: nat, a: nat): bv8
      requires Valid() && i < NR_TASKS && Reachable(i, a)
      reads pt[i], ram[FrameOf(i, a)]
    {
      ram[FrameOf(i, a)][a % PAGE_SIZE]
    }

    method Store(i: nat, a: nat, x: bv8)
      requires Valid() && i < NR_TASKS && Reachable(i, a)
      modifies ram[FrameOf(i, a)]
      ensures ram[FrameOf(i, a)][..] == old(ram[FrameOf(i, a)][..])[a % PAGE_SIZE := x]
    {
      ram[FrameOf(i, a)][a % PAGE_SIZE] := x;
    }

    /** The four bytes at p. */
    method LoadWord(i: nat, p: nat) returns (w: seq<bv8>)
      requires Valid() && i < NR_TASKS && Reachable(i, p) && p % PAGE_SIZE + 4 <= PAGE_SIZE
      ensures w == ram[FrameOf(i, p)][p % PAGE_SIZE..p % PAGE_SIZE + 4]
    {
      AddressInPage(p, 1); AddressInPage(p, 2); AddressInPage(p, 3);
      w := [Load(i, p), Load(i, p + 1), Load(i, p + 2), Load(i, p + 3)];
    }

    method StoreWord(i: nat, q: nat, w: seq<bv8>)
      requires Valid() && i < NR_TASKS && Reachable(i, q) && q % PAGE_SIZE + 4 <= PAGE_SIZE && |w| == 4
      modifies ram[FrameOf(i, q)]
      ensures ram[FrameOf(i, q)][..] == Overwritten(old(ram[FrameOf(i, q)][..]), q % PAGE_SIZE, w, 0, 4)
    {
      AddressInPage(q, 1); AddressInPage(q, 2); AddressInPage(q, 3);
      FourStores(ram[FrameOf(i, q)][..], q % PAGE_SIZE, w, 0);
      Store(i, q, w[0]);
      Store(i, q + 1, w[1]);
      Store(i, q + 2, w[2]);
      Store(i, q + 3, w[3]);
    }

    /** *q++ = *p++ on four-byte words. */
    method CopyWord(i: nat, p: nat, q: nat)
      requires Valid() && i < NR_TASKS && Reachable(i, p) && Reachable(i, q) && FrameOf(i, p) != FrameOf(i, q)
      requires p % PAGE_SIZE + 4 <= PAGE_SIZE && q % PAGE_SIZE + 4 <= PAGE_SIZE
      modifies ram[FrameOf(i, q)]
      ensures ram[FrameOf(i, q)][..] == Overwritten(old(ram[FrameOf(i, q)][..]), q % PAGE_SIZE,
                                                   ram[FrameOf(i, p)][..], p % PAGE_SIZE, 4)
    {
      var w := LoadWord(i, p);
      StoreWord(i, q, w);
    }

    /** *q1++ = *p1++ on single bytes. */
    method CopyByte(i: nat, p: nat, q: nat)
      requires Valid() && i < NR_TASKS && Reachable(i, p) && Reachable(i, q) && FrameOf(i, p) != FrameOf(i, q)
      modifies ram[FrameOf(i, q)]
      ensures ram[FrameOf(i, q)][..] == Overwritten(old(ram[FrameOf(i, q)][..]), q % PAGE_SIZE,
                                                   ram[FrameOf(i, p)][..], p % PAGE_SIZE, 1)
    {
      Store(i, q, Load(i, p));
    }

    /** One unit of n bytes, k bytes on from both addresses. */
    method CopyUnit(i: nat, start: nat, dest: nat, k: nat, n: nat)
      requires Valid() && i < NR_TASKS && Reachable(i, start) && Reachable(i, dest) && FrameOf(i, start) != FrameOf(i, dest)
      requires start % PAGE_SIZE + k + n <= PAGE_SIZE && dest % PAGE_SIZE + k + n <= PAGE_SIZE && (n == 4 || n == 1)
      modifies ram[FrameOf(i, dest)]
      ensures ram[FrameOf(i, dest)][..] == Overwritten(old(ram[FrameOf(i, dest)][..]), dest % PAGE_SIZE + k,
                                                      ram[FrameOf(i, start)][..], start % PAGE_SIZE + k, n)
    {
      AddressInPage(start, k);
      AddressInPage(dest, k);
      if n == 4 {
        CopyWord(i, start + k, dest + k);
      } else {
        CopyByte(i, start + k, dest + k);
      }
    }

    /** The loops of copy_data, in units of n bytes while more than rest bytes are left. */
    method CopyUnits(i: nat, start: nat, dest: nat, done: nat, size: nat, n: nat, rest: nat, ghost d0: seq<bv8>)
      returns (k: nat)
      requires Valid() && i < NR_TASKS && Reachable(i, start) && Reachable(i, dest)
      requires start % PAGE_SIZE + size <= PAGE_SIZE && dest % PAGE_SIZE + size <= PAGE_SIZE
      requires FrameOf(i, start) != FrameOf(i, dest) && |d0| == PAGE_SIZE
      requires (n == 4 && rest == 4) || (n == 1 && rest == 0)
      requires done <= size
      requires ram[FrameOf(i, dest)][..] == Overwritten(d0, dest % PAGE_SIZE, ram[FrameOf(i, start)][..], start % PAGE_SIZE, done)
      modifies ram[FrameOf(i, dest)]
      ensures k <= size <= k + rest
      ensures ram[FrameOf(i, dest)][..] == Overwritten(d0, dest % PAGE_SIZE, ram[FrameOf(i, start)][..], start % PAGE_SIZE, k)
    {
      ghost var s0 := ram[FrameOf(i, start)][..];
      k := done;
      while size - k > rest
        invariant k <= size && ram[FrameOf(i, start)][..] == s0
        invariant ram[FrameOf(i, dest)][..] == Overwritten(d0, dest % PAGE_SIZE, s0, start % PAGE_SIZE, k)
      {
        CopyUnit(i, start, dest, k, n);
        OverwrittenMore(d0, dest % PAGE_SIZE, s0, start % PAGE_SIZE, k, n);
        k := k + n;
      }
    }

    /** copy_data between two pages: words while more than four bytes are left, then single bytes. */
    method CopyData(i: nat, start: nat, dest: nat, size: nat)
      requires Valid() && i < NR_TASKS && Reachable(i, start) && Reachable(i, dest)
      requires start % PAGE_SIZE + size <= PAGE_SIZE && dest % PAGE_SIZE + size <= PAGE_SIZE
      requires FrameOf(i, start) != FrameOf(i, dest)
      modifies ram[FrameOf(i, dest)]
      ensures ram[FrameOf(i, dest)][..] == Overwritten(old(ram[FrameOf(i, dest)][..]), dest % PAGE_SIZE,
                                                      ram[FrameOf(i, start)][..], start % PAGE_SIZE, size)
    {
      ghost var d0 := ram[FrameOf(i, dest)][..];
      assert Overwritten(d0, dest % PAGE_SIZE, ram[FrameOf(i, start)][..], start % PAGE_SIZE, 0) == d0;
      var k := CopyUnits(i, start, dest, 0, size, 4, 4, d0);
      k := CopyUnits(i, start, dest, k, size, 1, 0, d0);
    }

    // ---------- fork

    ghost function ViewOf(parent: nat, child: nat): View
      requires Valid() && parent < NR_TASKS && child < NR_TASKS
      reads phys, pt[parent], pt[child], ram
    {
      View(Used(), Row(parent), Row(child), Bytes())
    }

    ghost function Bytes(): (b: seq<seq<bv8>>)
      requires Valid()
      reads ram
      ensures |b| == TOTAL_PAGES && forall f :: 0 <= f < TOTAL_PAGES ==> b[f] == ram[f][..]
    {
      seq(TOTAL_PAGES, f requires 0 <= f < TOTAL_PAGES && Valid() reads ram => ram[f][..])
    }

    /** copy_data of the whole page table. */
    method CopyTable(parent: nat, child: nat)
      requires Valid() && parent < NR_TASKS && child < NR_TASKS && parent != child
      modifies pt[child]
      ensures Row(child) == Row(parent)
    {
      for p := 0 to TOTAL_PAGES
        invariant pt[child][..p] == pt[parent][..p]
      {
        pt[child][p] := pt[parent][p];
      }
    }

    /** copy_data of one page to another. */
    method CopyWholePage(i: nat, page: nat, window: nat)
      requires Valid() && i < NR_TASKS && page < TOTAL_PAGES && window < TOTAL_PAGES
      requires Row(i)[page].present && Row(i)[page].frame < TOTAL_PAGES
      requires Row(i)[window].present && Row(i)[window].frame < TOTAL_PAGES && Row(i)[page].frame != Row(i)[window].frame
      modifies ram[Row(i)[window].frame]
      ensures Bytes() == old(Bytes())[Row(i)[window].frame := old(Bytes())[Row(i)[page].frame]]
    {
      assert (page * PAGE_SIZE) / PAGE_SIZE == page && (window * PAGE_SIZE) / PAGE_SIZE == window;
      CopyData(i, page * PAGE_SIZE, window * PAGE_SIZE, PAGE_SIZE);
      assert ram[Row(i)[window].frame][..] == ram[Row(i)[page].frame][..];
    }

    /** One round of the copy: the new frame goes into the child's table and, as a window, into the
        parent's, and the page is copied through the window. */
    method CopyPage(parent: nat, child: nat, page: nat, window: nat, frame: nat)
      requires Valid() && parent < NR_TASKS && child < NR_TASKS && parent != child
      requires page < FIRST_EXTRA <= window < TOTAL_PAGES && frame < TOTAL_PAGES
      requires Row(parent)[page].present && Row(parent)[page].frame < TOTAL_PAGES && Row(parent)[page].frame != frame
      modifies pt[parent], pt[child], ram[frame]
      ensures Row(parent) == old(Row(parent))[window := UserPte(frame)]
      ensures Row(child) == old(Row(child))[page := UserPte(frame)]
      ensures Bytes() == old(Bytes())[frame := old(Bytes())[old(Row(parent))[page].frame]]
    {
      SetSsPag(parent, window, frame);
      SetSsPag(child, page, frame);
      CopyWholePage(parent, page, window);
    }

    /** abort_copy */
    method AbortCopy(parent: nat, child: nat)
      requires Valid() && parent < NR_TASKS && child < NR_TASKS && parent != child
      modifies phys, pt[parent], pt[child]
      ensures Trimmed(old(Row(parent)), Row(parent))
      ensures Released(old(Used()), old(Row(child)), Used(), Row(child))
    {
      DelSsExtraPages(parent);
      FreeUserPages(child);
    }

    /** The frame and the window page for one round, each -1 if there is none. */
    method TakeFrameAndWindow(parent: nat) returns (frame: int, window: int)
      requires Valid() && parent < NR_TASKS
      modifies phys
      ensures frame == -1 <==> FreeFrames(old(Used())) == {}
      ensures if frame == -1 then Used() == old(Used())
              else LowestFree(old(Used()), frame) && Used() == old(Used())[frame := true]
      ensures window == -1 <==> frame == -1 || FreePages(Row(parent)) == {}
      ensures window != -1 ==> window in FreePages(Row(parent))
    {
      window := -1;
      frame := AllocFrame();
      if frame >= 0 {
        window := GetFreePage(parent);
      }
    }

    /** One round with a frame just taken and a window: v is the view before the frame was taken. */
    method CopyOne(parent: nat, child: nat, pag: nat, frame: nat, window: nat, ghost v0: View, ghost fs: seq<nat>, ghost v: View)
      requires Valid() && parent < NR_TASKS && child < NR_TASKS && parent != child
      requires Progress(v0, fs, v) && pag == |fs| < NUM_PAG_DATA
      requires frame in FreeFrames(v.used) && window in FreePages(v.parent)
      requires ViewOf(parent, child) == v.(used := v.used[frame := true])
      modifies pt[parent], pt[child], ram
      ensures Progress(v0, fs + [frame], ViewOf(parent, child))
    {
      ProgressMore(v0, fs, v, frame, window);
      CopyPage(parent, child, PAG_LOG_INIT_DATA + pag, window, frame);
    }

    /** The body of the copy loop as long as there is a frame and a window for page pag. */
    method CopyNext(parent: nat, child: nat, pag: nat, ghost v0: View, ghost fs: seq<nat>)
      returns (frame: int, window: int, ghost fs': seq<nat>)
      requires Valid() && parent < NR_TASKS && child < NR_TASKS && parent != child
      requires Progress(v0, fs, ViewOf(parent, child)) && pag == |fs| < NUM_PAG_DATA
      modifies phys, pt[parent], pt[child], ram
      ensures frame == -1 <==> |FreeFrames(v0.used)| <= |fs|
      ensures window == -1 <==> |FreeFrames(v0.used)| <= |fs| || |FreePages(v0.parent)| <= |fs|
      ensures window != -1 ==> |fs'| == |fs| + 1 && Progress(v0, fs', ViewOf(parent, child))
      ensures window == -1 ==>
                && fs' == fs
                && if frame == -1 then ViewOf(parent, child) == old(ViewOf(parent, child))
                   else LowestFree(old(Used()), frame)
                        && ViewOf(parent, child) == old(ViewOf(parent, child)).(used := old(Used())[frame := true])
    {
      ghost var v := ViewOf(parent, child);
      RoomForNext(v0, fs, v);
      frame, window := TakeFrameAndWindow(parent);
      fs' := fs;
      if window != -1 {
        CopyOne(parent, child, pag, frame, window, v0, fs, v);
        fs' := fs + [frame];
      }
    }

    /** The copy loop.  It ends early for want of a frame, or of a window; v is the last view with all
        copied pages in order, from which only the bytemap can differ then. */
    method CopyLoop(parent: nat, child: nat, ghost v0: View) returns (r: CopyResult, ghost fs: seq<nat>, ghost v: View)
      requires Valid() && parent < NR_TASKS && child < NR_TASKS && parent != child
      requires Progress(v0, [], ViewOf(parent, child))
      modifies phys, pt[parent], pt[child], ram
      ensures r == OutcomeOf(|FreeFrames(v0.used)|, |FreePages(v0.parent)|)
      ensures |fs| == Min3(NUM_PAG_DATA, |FreeFrames(v0.used)|, |FreePages(v0.parent)|)
      ensures Progress(v0, fs, v) && ViewOf(parent, child) == v.(used := Used())
      ensures r.Done? ==> Used() == v.used
      ensures r.NoMemory? ==> TakenSoFar(v0, fs, Used())
    {
      fs := [];
      for pag := 0 to NUM_PAG_DATA
        invariant |fs| == pag && Progress(v0, fs, ViewOf(parent, child))
      {
        v := ViewOf(parent, child);
        var frame, window;
        frame, window, fs := CopyNext(parent, child, pag, v0, fs);
        if frame == -1 || (window == -1 && pag == 0) {
          LastTaken(v0, fs, v, frame, Used());
          return NoMemory, fs, v;
        }
        if window == -1 {
          return OffTable, fs, v;
        }
      }
      r, v := Done, ViewOf(parent, child);
    }

    /** The abort after |fs| pages. */
    method GiveUp(parent: nat, child: nat, ghost v0: View, ghost fs: seq<nat>, ghost v: View)
      requires Valid() && parent < NR_TASKS && child < NR_TASKS && parent != child
      requires Progress(v0, fs, v) && ViewOf(parent, child) == v.(used := Used()) && TakenSoFar(v0, fs, Used())
      requires |fs| == Min3(NUM_PAG_DATA, |FreeFrames(v0.used)|, |FreePages(v0.parent)|)
      requires OutcomeOf(|FreeFrames(v0.used)|, |FreePages(v0.parent)|).NoMemory?
      modifies phys, pt[parent], pt[child]
      ensures Trimmed(v0.parent, Row(parent)) && Unmapped(v0.parent, Row(child))
      ensures Aborted(v0.used, v0.parent, Used(), |fs|)
    {
      ghost var used1 := Used();
      AbortCopy(parent, child);
      AbortIsExact(v0, fs, v.used, v.child, used1, Used());
    }

    /** All that follows the copy of the page table, from view v0 on. */
    method CopyDataPages(parent: nat, child: nat, ghost v0: View) returns (r: CopyResult, ghost fs: seq<nat>)
      requires Valid() && parent < NR_TASKS && child < NR_TASKS && parent != child
      requires ViewOf(parent, child) == v0 && v0.child == v0.parent && DataMapped(v0.used, v0.parent)
      modifies phys, pt[parent], pt[child], ram
      ensures r == OutcomeOf(|FreeFrames(v0.used)|, |FreePages(v0.parent)|)
      ensures |fs| == Min3(NUM_PAG_DATA, |FreeFrames(v0.used)|, |FreePages(v0.parent)|)
      ensures Trimmed(v0.parent, Row(parent)) && Filled(v0.bytes, v0.parent, fs, Bytes())
      ensures r.Done? ==> Copied(v0.used, v0.parent, Used(), Row(child), fs)
      ensures r.NoMemory? ==> Aborted(v0.used, v0.parent, Used(), |fs|) && Unmapped(v0.parent, Row(child))
    {
      ghost var v;
      r, fs, v := CopyLoop(parent, child, v0);
      if r.NoMemory? {
        GiveUp(parent, child, v0, fs, v);
      } else {
        DelSsExtraPages(parent);
      }
      assert Bytes() == v.bytes;
    }

    /** copy_and_allocate_pages.  A copy that finds no window for its first page aborts, like one that finds
        no frame; one that runs out of windows later goes on to write beside the parent's table, which is
        where the model stops. */
    method CopyAndAllocatePages(parent: nat, child: nat) returns (r: CopyResult, ghost fs: seq<nat>)
      requires Valid() && parent < NR_TASKS && child < NR_TASKS && parent != child
      requires DataMapped(Used(), Row(parent))
      modifies phys, pt[parent], pt[child], ram
      ensures r == OutcomeOf(|FreeFrames(old(Used()))|, |FreePages(old(Row(parent)))|)
      ensures |fs| == Min3(NUM_PAG_DATA, |FreeFrames(old(Used()))|, |FreePages(old(Row(parent)))|)
      ensures Trimmed(old(Row(parent)), Row(parent)) && Filled(old(Bytes()), old(Row(parent)), fs, Bytes())
      ensures r.Done? ==> Copied(old(Used()), old(Row(parent)), Used(), Row(child), fs)
      ensures r.NoMemory? ==> Aborted(old(Used()), old(Row(parent)), Used(), |fs|)
      ensures r.NoMemory? ==> Unmapped(old(Row(parent)), Row(child))
      ensures r.Done? ==> forall p :: PAG_LOG_INIT_DATA <= p < PAG_LOG_INIT_CODE ==>
                Row(child)[p].present && Row(child)[p].user && Row(child)[p].rw
      ensures r.Done? ==> forall p :: 0 <= p < TOTAL_PAGES && !(PAG_LOG_INIT_DATA <= p < PAG_LOG_INIT_CODE) ==>
                Row(child)[p] == old(Row(parent))[p]
    {
      CopyTable(parent, child);
      r, fs := CopyDataPages(parent, child, ViewOf(parent, child));
    }

    // ---------- boot

    /** init_table_pages */
    method InitTablePages()
      requires Valid()
      modifies pt
      ensures forall i :: 0 <= i < NR_TASKS ==> KernelOnly(Row(i))
    {
      for j := 0 to NR_TASKS
        invariant forall i :: 0 <= i < j ==> KernelOnly(Row(i))
      {
        InitTable(j);
      }
    }

    method InitTable(j: nat)
      requires Valid() && j < NR_TASKS
      modifies pt[j]
      ensures KernelOnly(Row(j))
    {
      for i := 0 to TOTAL_PAGES
        invariant forall p :: 0 <= p < i ==> pt[j][p] == CLEAR
      {
        pt[j][i] := CLEAR;
      }
      for i := 1 to NUM_PAG_KERNEL
        invariant forall p :: 0 <= p < TOTAL_PAGES ==>
                    pt[j][p] == if 1 <= p < i then Pte(true, true, false, p) else CLEAR
      {
        pt[j][i] := Pte(true, true, false, i);
      }
    }

    /** set_user_pages for the first process, on the bytemap of init_frames. */
    method SetUserPages(i: nat)
      requires Valid() && i < NR_TASKS && FirstUsed(Used(), 0) && KernelOnly(Row(i))
      modifies phys, pt[i]
      ensures FirstUsed(Used(), NUM_PAG_CODE + NUM_PAG_DATA) && BootTable(Row(i))
      ensures forall p :: PAG_LOG_INIT_DATA <= p < PAG_LOG_INIT_CODE ==>
                Row(i)[p].present && Row(i)[p].user && Row(i)[p].rw
      ensures forall p :: PAG_LOG_INIT_CODE <= p < FIRST_EXTRA ==>
                Row(i)[p].present && Row(i)[p].user && !Row(i)[p].rw
    {
      for pag := 0 to NUM_PAG_CODE
        invariant FirstUsed(Used(), pag) && PartlyBooted(Row(i), pag, 0)
      {
        var frame := AllocFirst(pag);
        BootPage(Row(i), pag, 0);
        pt[i][PAG_LOG_INIT_CODE + pag] := UserPte(frame).(rw := false);
        assert Row(i)[PAG_LOG_INIT_CODE + pag] == CodePte(pag);
      }
      for pag := 0 to NUM_PAG_DATA
        invariant FirstUsed(Used(), NUM_PAG_CODE + pag) && PartlyBooted(Row(i), NUM_PAG_CODE, pag)
      {
        var frame := AllocFirst(NUM_PAG_CODE + pag);
        BootPage(Row(i), NUM_PAG_CODE, pag);
        pt[i][PAG_LOG_INIT_DATA + pag] := UserPte(frame);
        assert Row(i)[PAG_LOG_INIT_DATA + pag] == DataPte(pag);
      }
      BootAccess(Row(i));
    }

    /** alloc_frame while the n first frames are used. */
    method AllocFirst(n: nat) returns (f: nat)
      requires Valid() && FirstUsed(Used(), n) && NUM_PAG_KERNEL + 2 * n < TOTAL_PAGES
      modifies phys
      ensures f == NUM_PAG_KERNEL + 2 * n && FirstUsed(Used(), n + 1)
    {
      ghost var used := Used();
      assert NUM_PAG_KERNEL + 2 * n in FreeFrames(used);
      var r := AllocFrame();
      NextFirst(used, n, r);
      f := r;
    }

    // ---------- thread stacks

    /** get_new_stack.  The source keeps page and frame in unsigned words, so that neither failure is noticed:
        of a missing frame the low 20 bits are mapped, and without a free page it writes beside the table,
        which is where the model stops, inTable being false. */
    method GetNewStack(i: nat) returns (inTable: bool, stack: nat, ghost page: nat)
      requires Valid() && i < NR_TASKS
      modifies phys, pt[i]
      ensures inTable <==> FreePages(old(Row(i))) != {}
      ensures inTable ==> stack == page * PAGE_SIZE != 0
                          && StackMapped(old(Used()), old(Row(i)), Used(), Row(i), page)
                          && Row(i)[page].present && Row(i)[page].user && Row(i)[page].rw
      ensures !inTable ==> Row(i) == old(Row(i))
      ensures !inTable ==> if FreeFrames(old(Used())) == {} then Used() == old(Used())
                           else exists f :: LowestFree(old(Used()), f) && Used() == old(Used())[f := true]
    {
      var p := GetFreePage(i);
      inTable, stack, page := p != -1, 0, 0;
      var f := AllocFrame();
      assert f != -1 ==> LowestFree(old(Used()), f) && Used() == old(Used())[f := true];
      var frame: nat := if f == -1 then 0xFFFF_FFFF else f;
      if inTable {
        page := p;
        SetSsPag(i, p, frame);
        stack := p * PAGE_SIZE;
      }
    }

    // ---------- heap

    /** The growing loop of sys_dyn_mem: map every unmapped page from hi-1 down to lo. */
    method MapDown(i: nat, lo: nat, hi: nat) returns (ok: bool)
      requires Valid() && i < NR_TASKS && lo <= hi <= TOTAL_PAGES
      modifies phys, pt[i]
      ensures ok <==> |Missing(old(Row(i)), lo, hi)| <= |FreeFrames(old(Used()))|
      ensures Grown(old(Used()), old(Row(i)), Used(), Row(i), lo, hi)
      ensures ok ==> forall p :: lo <= p < hi ==> Row(i)[p].present
      ensures !ok ==> RanOut(old(Row(i)), Used(), Row(i), lo, hi)
    {
      ghost var used0, t0 := Used(), Row(i);
      var p := hi;
      GrownNothing(used0, t0, lo, hi);
      while p > lo
        invariant lo <= p <= hi && Mapping(used0, t0, Used(), Row(i), lo, p, hi)
      {
        p := p - 1;
        ok := MapIfMissing(i, p, lo, hi, used0, t0);
        if !ok {
          return;
        }
      }
      ok := true;
    }

    /** One round: a present page is left alone, a missing one gets the next frame. */
    method MapIfMissing(i: nat, p: nat, ghost lo: nat, ghost hi: nat, ghost used0: Bytemap, ghost t0: Table) returns (ok: bool)
      requires Valid() && i < NR_TASKS && lo <= p < hi <= TOTAL_PAGES
      requires Mapping(used0, t0, Used(), Row(i), lo, p + 1, hi)
      modifies phys, pt[i]
      ensures ok ==> Mapping(used0, t0, Used(), Row(i), lo, p, hi)
      ensures !ok ==> |FreeFrames(used0)| < |Missing(t0, lo, hi)|
      ensures !ok ==> Grown(used0, t0, Used(), Row(i), lo, hi) && RanOut(t0, Used(), Row(i), lo, hi)
    {
      MissingOneMore(t0, p, hi);
      if !pt[i][p].present {
        ghost var used, t := Used(), Row(i);
        var frame := AllocFrame();
        if frame == -1 {
          MissingMonotone(t0, lo, p, hi);
          assert StoppedBelow(t0, Row(i), p + 1, hi);
          return false;
        }
        TakeFrame(used, frame);
        GrownMore(used0, t0, used, t, lo, hi, p, frame);
        SetSsPag(i, p, frame);
      }
      ok := true;
    }

    /** The releasing loop of sys_dyn_mem. */
    method UnmapUp(i: nat, lo: nat, hi: nat)
      requires Valid() && i < NR_TASKS && lo <= hi <= TOTAL_PAGES
      modifies pt[i]
      ensures forall p :: 0 <= p < TOTAL_PAGES ==> Row(i)[p] == if lo <= p < hi then CLEAR else old(Row(i))[p]
    {
      for p := lo to hi
        invariant forall k :: 0 <= k < TOTAL_PAGES ==> Row(i)[k] == if lo <= k < p then CLEAR else old(Row(i))[k]
      {
        DelSsPag(i, p);
      }
    }

    /** sys_dyn_mem for the address space of table i; NULL is 0. */
    method SysDynMem(i: nat, numBytes: int) returns (r: nat)
      requires Valid() && i < NR_TASKS && sbrk < WORD && -0x8000_0000 <= numBytes < 0x8000_0000
      requires sbrk / PAGE_SIZE <= TOTAL_PAGES
      modifies this`sbrk, phys, pt[i]
      ensures DynMem(old(Used()), old(Row(i)), old(sbrk), numBytes, Used(), Row(i), sbrk, r)
      ensures forall p :: 0 <= p < TOTAL_PAGES && Row(i)[p].present && !old(Row(i))[p].present ==>
                Row(i)[p].user && Row(i)[p].rw
    {
      var target := (sbrk - numBytes) % WORD;
      var sbrkPage, finalPage := sbrk / PAGE_SIZE, target / PAGE_SIZE;
      if finalPage > TOTAL_PAGES {
        return 0;
      }
      if finalPage <= PAG_LOG_INIT_CODE {
        return 0;
      }
      if sbrkPage - finalPage >= 0 {
        var ok := MapDown(i, finalPage, sbrkPage);
        if !ok {
          return 0;
        }
      } else {
        UnmapUp(i, sbrkPage, finalPage);
      }
      sbrk := target;
      r := sbrk;
    }
  }
}
