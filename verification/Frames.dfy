// Page tables and the bytemap of physical frames as values: the constants of mm_address.h, what a
// table maps, which frames the allocator can hand out, and how these sets change.

module Frames {
  const TOTAL_PAGES: nat := 1024
  const NUM_PAG_KERNEL: nat := 256
  const NUM_PAG_CODE: nat := 8
  const NUM_PAG_DATA: nat := 20
  const PAGE_SIZE: nat := 4096
  const PAG_LOG_INIT_DATA: nat := 256                       // L_USER_START >> 12
  const PAG_LOG_INIT_CODE: nat := PAG_LOG_INIT_DATA + NUM_PAG_DATA
  const FIRST_EXTRA: nat := NUM_PAG_KERNEL + NUM_PAG_DATA + NUM_PAG_CODE

  /** page_table_entry, with the bits the kernel sets. */
  datatype Pte = Pte(present: bool, rw: bool, user: bool, frame: nat)

  /** An entry set to 0. */
  const CLEAR: Pte := Pte(false, false, false, 0)

  /** What set_ss_pag writes; the frame field has 20 bits. */
  function UserPte(frame: nat): Pte {
    Pte(true, true, true, frame % 0x10_0000)
  }

  type Table = t: seq<Pte> | |t| == TOTAL_PAGES witness seq(TOTAL_PAGES, i => CLEAR)
  type Bytemap = u: seq<bool> | |u| == TOTAL_PAGES witness seq(TOTAL_PAGES, i => false)

  /** The frames that alloc_frame can find: it starts at the first frame after the kernel and steps by two. */
  predicate Allocatable(f: int) {
    NUM_PAG_KERNEL <= f < TOTAL_PAGES && (f - NUM_PAG_KERNEL) % 2 == 0
  }

  ghost function FreeFrames(used: Bytemap): set<nat> {
    set f: nat | f < TOTAL_PAGES && Allocatable(f) && !used[f]
  }

  /** Pages past kernel, data and code that map nothing, and those that map something. */
  ghost function FreePages(t: Table): set<nat> {
    set p: nat | p < TOTAL_PAGES && FIRST_EXTRA <= p && !t[p].present
  }

  ghost function ExtraPages(t: Table): set<nat> {
    set p: nat | p < TOTAL_PAGES && FIRST_EXTRA <= p && t[p].present
  }

  /** The frames behind the data pages, in page order. */
  ghost function DataFrames(t: Table): (fs: seq<nat>)
    ensures |fs| == NUM_PAG_DATA
    ensures forall k :: 0 <= k < NUM_PAG_DATA ==> fs[k] == t[PAG_LOG_INIT_DATA + k].frame
  {
    seq<nat>(NUM_PAG_DATA, k requires 0 <= k < NUM_PAG_DATA => t[PAG_LOG_INIT_DATA + k].frame)
  }

  lemma AddressInPage(a: nat, k: nat)
    requires a % PAGE_SIZE + k < PAGE_SIZE
    ensures (a + k) / PAGE_SIZE == a / PAGE_SIZE && (a + k) % PAGE_SIZE == a % PAGE_SIZE + k
  {
  }

  // ---------- sizes of sets of numbers

  predicate Between(lo: nat, p: nat, hi: nat) {
    lo <= p < hi
  }

  ghost function Range(lo: nat, hi: nat): set<nat> {
    set p: nat | p < hi && Between(lo, p, hi)
  }

  lemma {:induction false} RangeSize(lo: nat, hi: nat)
    requires lo <= hi
    ensures |Range(lo, hi)| == hi - lo
    decreases hi - lo
  {
    if lo < hi {
      RangeSize(lo, hi - 1);
      assert Range(lo, hi) == Range(lo, hi - 1) + {hi - 1};
    } else {
      assert Range(lo, hi) == {};
    }
  }

  lemma {:induction false} SubsetSize(a: set<nat>, b: set<nat>)
    requires a <= b
    ensures |a| <= |b|
    decreases a
  {
    if a != {} {
      var x :| x in a;
      SubsetSize(a - {x}, b - {x});
    }
  }

  lemma EqualBySize(a: set<nat>, b: set<nat>)
    requires a <= b && |a| == |b|
    ensures a == b
  {
    if a != b {
      var x :| x in b && x !in a;
      SubsetSize(a, b - {x});
    }
  }

  lemma ExtraAndFree(t: Table)
    ensures |ExtraPages(t)| + |FreePages(t)| == TOTAL_PAGES - FIRST_EXTRA
  {
    RangeSize(FIRST_EXTRA, TOTAL_PAGES);
    assert ExtraPages(t) + FreePages(t) == Range(FIRST_EXTRA, TOTAL_PAGES);
    assert ExtraPages(t) !! FreePages(t);
  }

  // ---------- how the sets change

  lemma TakeFrame(used: Bytemap, f: nat)
    requires f in FreeFrames(used)
    ensures FreeFrames(used[f := true]) == FreeFrames(used) - {f}
    ensures |FreeFrames(used[f := true])| == |FreeFrames(used)| - 1
  {
  }

  lemma MapPage(t: Table, p: nat, e: Pte)
    requires p in FreePages(t) && e.present
    ensures FreePages(t[p := e]) == FreePages(t) - {p} && ExtraPages(t[p := e]) == ExtraPages(t) + {p}
    ensures |FreePages(t[p := e])| == |FreePages(t)| - 1 && |ExtraPages(t[p := e])| == |ExtraPages(t)| + 1
  {
  }

  lemma UnmapPage(t: Table, p: nat)
    requires FIRST_EXTRA <= p < TOTAL_PAGES
    ensures ExtraPages(t[p := CLEAR]) == ExtraPages(t) - {p}
    ensures |ExtraPages(t[p := CLEAR])| <= |ExtraPages(t)|
  {
    assert ExtraPages(t[p := CLEAR]) == ExtraPages(t) - {p};
  }

  // ---------- boot

  /** The first n allocatable frames are used, and the kernel's. */
  ghost predicate FirstUsed(used: Bytemap, n: nat) {
    forall f :: 0 <= f < TOTAL_PAGES ==> (used[f] <==> f < NUM_PAG_KERNEL || (Allocatable(f) && f < NUM_PAG_KERNEL + 2 * n))
  }

  lemma NextFirst(used: Bytemap, n: nat, f: nat)
    requires FirstUsed(used, n) && NUM_PAG_KERNEL + 2 * n < TOTAL_PAGES
    requires f in FreeFrames(used) && forall g :: g in FreeFrames(used) ==> f <= g
    ensures f == NUM_PAG_KERNEL + 2 * n && FirstUsed(used[f := true], n + 1)
  {
    assert NUM_PAG_KERNEL + 2 * n in FreeFrames(used);
  }

  lemma {:induction false} FirstUsedFree(used: Bytemap, n: nat)
    requires FirstUsed(used, n) && NUM_PAG_KERNEL + 2 * n <= TOTAL_PAGES
    ensures |FreeFrames(used)| == (TOTAL_PAGES - NUM_PAG_KERNEL) / 2 - n
    decreases TOTAL_PAGES - n
  {
    var f := NUM_PAG_KERNEL + 2 * n;
    if f == TOTAL_PAGES {
      assert FreeFrames(used) == {};
    } else {
      assert f in FreeFrames(used);
      TakeFrame(used, f);
      FirstUsedFree(used[f := true], n + 1);
    }
  }

  /** The kernel's pages map to themselves; page 0 and every user page map nothing. */
  ghost predicate KernelOnly(t: Table) {
    forall p :: 0 <= p < TOTAL_PAGES ==> t[p] == if 1 <= p < NUM_PAG_KERNEL then Pte(true, true, false, p) else CLEAR
  }

  function CodePte(k: nat): Pte {
    UserPte(NUM_PAG_KERNEL + 2 * k).(rw := false)
  }

  function DataPte(k: nat): Pte {
    UserPte(NUM_PAG_KERNEL + 2 * (NUM_PAG_CODE + k))
  }

  /** User space with the first c code pages and the first d data pages set up. */
  ghost predicate PartlyBooted(t: Table, c: nat, d: nat) {
    && (forall p :: 0 <= p < NUM_PAG_KERNEL ==> t[p] == if p == 0 then CLEAR else Pte(true, true, false, p))
    && (forall p :: PAG_LOG_INIT_DATA <= p < PAG_LOG_INIT_CODE ==>
          t[p] == if p < PAG_LOG_INIT_DATA + d then DataPte(p - PAG_LOG_INIT_DATA) else CLEAR)
    && (forall p :: PAG_LOG_INIT_CODE <= p < FIRST_EXTRA ==>
          t[p] == if p < PAG_LOG_INIT_CODE + c then CodePte(p - PAG_LOG_INIT_CODE) else CLEAR)
    && (forall p :: FIRST_EXTRA <= p < TOTAL_PAGES ==> t[p] == CLEAR)
  }

  lemma BootPage(t: Table, c: nat, d: nat)
    requires PartlyBooted(t, c, d)
    ensures c < NUM_PAG_CODE ==> PartlyBooted(t[PAG_LOG_INIT_CODE + c := CodePte(c)], c + 1, d)
    ensures d < NUM_PAG_DATA ==> PartlyBooted(t[PAG_LOG_INIT_DATA + d := DataPte(d)], c, d + 1)
  {
  }

  /** The page table of the first process: code on the first frames, data on the next, nothing beyond. */
  ghost predicate BootTable(t: Table) {
    PartlyBooted(t, NUM_PAG_CODE, NUM_PAG_DATA)
  }

  // ---------- access

  /** What user programs can do through table t: write the data pages and every page mapped beyond the code, read
      the code pages, and nothing with the kernel's. */
  ghost predicate Access(t: Table) {
    && (forall p :: 0 <= p < NUM_PAG_KERNEL ==> !t[p].user)
    && (forall p :: PAG_LOG_INIT_DATA <= p < PAG_LOG_INIT_CODE ==> t[p].present && t[p].user && t[p].rw)
    && (forall p :: PAG_LOG_INIT_CODE <= p < FIRST_EXTRA ==> t[p].present && t[p].user && !t[p].rw)
    && (forall p :: FIRST_EXTRA <= p < TOTAL_PAGES && t[p].present ==> t[p].user && t[p].rw)
  }

  lemma BootAccess(t: Table)
    requires BootTable(t)
    ensures Access(t)
  {
  }

  lemma MappedAccess(t: Table, p: nat, f: nat)
    requires Access(t) && FIRST_EXTRA <= p < TOTAL_PAGES
    ensures Access(t[p := UserPte(f)]) && Access(t[p := CLEAR])
  {
  }
}
