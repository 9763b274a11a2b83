// Who owns which frame: a ledger from live processes to their data frames, next to the bytemap.

module Ledgers {
  import opened Common
  import opened Frames

  type Ledger = map<nat, seq<nat>>

  /** The kernel's frames and the frames that boot gave to the code pages. */
  ghost predicate Reserved(f: int) {
    0 <= f < NUM_PAG_KERNEL || (Allocatable(f) && f < NUM_PAG_KERNEL + 2 * NUM_PAG_CODE)
  }

  /** Every owned frame is used, and neither the kernel's nor code. */
  ghost predicate Proper(used: Bytemap, own: Ledger) {
    forall t :: t in own ==> |own[t]| == NUM_PAG_DATA && ProperFrames(used, own[t])
  }

  ghost predicate ProperFrames(used: Bytemap, fs: seq<nat>) {
    forall k :: 0 <= k < |fs| ==> fs[k] < TOTAL_PAGES && Allocatable(fs[k]) && !Reserved(fs[k]) && used[fs[k]]
  }

  /** No frame is owned twice: neither by two processes nor at two pages of one. */
  ghost predicate Isolated(own: Ledger) {
    && (forall t :: t in own ==> Distinct(own[t]))
    && (forall t, u :: t in own && u in own && t != u ==> NoneShared(own[t], own[u]))
  }

  ghost predicate NoneShared(a: seq<nat>, b: seq<nat>) {
    forall i :: 0 <= i < |a| ==> a[i] !in b
  }

  ghost predicate Owned(own: Ledger, f: nat) {
    exists t :: t in own && f in own[t]
  }

  /** A frame is used exactly when it is reserved or owned. */
  ghost predicate Accounted(used: Bytemap, own: Ledger) {
    forall f :: 0 <= f < TOTAL_PAGES ==> (used[f] <==> Reserved(f) || Owned(own, f))
  }

  /** The free frames and the owned ones add up. */
  ghost predicate AddsUp(used: Bytemap, own: Ledger) {
    |FreeFrames(used)| + NUM_PAG_DATA * |own| == (TOTAL_PAGES - NUM_PAG_KERNEL) / 2 - NUM_PAG_CODE
  }

  ghost predicate Balanced(used: Bytemap, own: Ledger) {
    Proper(used, own) && Isolated(own) && Accounted(used, own) && AddsUp(used, own)
  }

  // ---------- entering a process

  /** fs are new frames: free before, used after, and nothing else changed. */
  ghost predicate Taken(used: Bytemap, used': Bytemap, fs: seq<nat>) {
    && |fs| == NUM_PAG_DATA && Distinct(fs)
    && (forall k :: 0 <= k < |fs| ==> fs[k] in FreeFrames(used))
    && (forall f :: 0 <= f < TOTAL_PAGES ==> (used'[f] <==> used[f] || f in fs))
  }

  lemma EnterProper(used: Bytemap, used': Bytemap, own: Ledger, child: nat, fs: seq<nat>)
    requires Proper(used, own) && Accounted(used, own) && Taken(used, used', fs)
    ensures Proper(used', own[child := fs])
  {
    forall k | 0 <= k < |fs|
      ensures fs[k] < TOTAL_PAGES && Allocatable(fs[k]) && !Reserved(fs[k]) && used'[fs[k]]
    {
      assert fs[k] in FreeFrames(used);
    }
    assert ProperFrames(used', fs);
    forall t | t in own
      ensures ProperFrames(used', own[t])
    {
    }
  }

  lemma EnterIsolated(used: Bytemap, used': Bytemap, own: Ledger, child: nat, fs: seq<nat>)
    requires Proper(used, own) && Isolated(own) && Taken(used, used', fs) && child !in own
    ensures Isolated(own[child := fs])
  {
    forall t | t in own
      ensures NoneShared(own[t], fs) && NoneShared(fs, own[t])
    {
      forall i, j | 0 <= i < |own[t]| && 0 <= j < |fs|
        ensures own[t][i] != fs[j]
      {
        assert ProperFrames(used, own[t]) && fs[j] in FreeFrames(used);
      }
    }
  }

  lemma EnterAccounted(used: Bytemap, used': Bytemap, own: Ledger, child: nat, fs: seq<nat>)
    requires Accounted(used, own) && Taken(used, used', fs) && child !in own
    ensures Accounted(used', own[child := fs])
  {
    var own' := own[child := fs];
    forall f: nat | f < TOTAL_PAGES
      ensures Owned(own', f) <==> Owned(own, f) || f in fs
    {
      if f in fs {
        assert f in own'[child];
      } else if Owned(own, f) {
        var t :| t in own && f in own[t];
        assert f in own'[t];
      }
    }
  }

  lemma EnterCounted(used: Bytemap, used': Bytemap, own: Ledger, child: nat, fs: seq<nat>)
    requires AddsUp(used, own) && Taken(used, used', fs) && child !in own
    ensures AddsUp(used', own[child := fs])
  {
    DistinctSize(fs);
    assert FreeFrames(used') == FreeFrames(used) - Elements(fs);
    assert Elements(fs) <= FreeFrames(used);
    assert own[child := fs].Keys == own.Keys + {child};
    assert |own[child := fs]| == |own| + 1;
  }

  lemma Enter(used: Bytemap, used': Bytemap, own: Ledger, child: nat, fs: seq<nat>)
    requires Balanced(used, own) && Taken(used, used', fs) && child !in own
    ensures Balanced(used', own[child := fs])
  {
    EnterProper(used, used', own, child, fs);
    EnterIsolated(used, used', own, child, fs);
    EnterAccounted(used, used', own, child, fs);
    EnterCounted(used, used', own, child, fs);
  }

  // ---------- striking a process out

  /** The frames fs are given back, except that free_frame ignores everything up to frame 256. */
  ghost predicate GivenBack(used: Bytemap, used': Bytemap, fs: seq<nat>) {
    forall f :: 0 <= f < TOTAL_PAGES ==> (used'[f] <==> used[f] && !(f > NUM_PAG_KERNEL && f in fs))
  }

  /** The strict comparison in free_frame loses nothing: frame 256 holds code. */
  lemma NothingLost(used: Bytemap, used': Bytemap, own: Ledger, t: nat)
    requires Proper(used, own) && t in own && GivenBack(used, used', own[t])
    ensures forall f :: 0 <= f < TOTAL_PAGES ==> (used'[f] <==> used[f] && f !in own[t])
  {
    assert ProperFrames(used, own[t]);
    assert Reserved(NUM_PAG_KERNEL);
  }

  lemma StrikeProper(used: Bytemap, used': Bytemap, own: Ledger, t: nat)
    requires Proper(used, own) && Isolated(own) && t in own && GivenBack(used, used', own[t])
    ensures Proper(used', own - {t})
  {
    NothingLost(used, used', own, t);
    forall u | u in own && u != t
      ensures ProperFrames(used', own[u])
    {
      assert ProperFrames(used, own[u]) && NoneShared(own[u], own[t]);
    }
  }

  lemma StrikeAccounted(used: Bytemap, used': Bytemap, own: Ledger, t: nat)
    requires Proper(used, own) && Isolated(own) && Accounted(used, own) && t in own && GivenBack(used, used', own[t])
    ensures Accounted(used', own - {t})
  {
    NothingLost(used, used', own, t);
    forall f: nat | f < TOTAL_PAGES
      ensures used'[f] <==> Reserved(f) || Owned(own - {t}, f)
    {
      assert ProperFrames(used, own[t]);
      if f !in own[t] && Owned(own, f) {
        var u :| u in own && f in own[u];
        assert u in own - {t};
      }
    }
  }

  lemma StrikeCounted(used: Bytemap, used': Bytemap, own: Ledger, t: nat)
    requires Proper(used, own) && Isolated(own) && AddsUp(used, own) && t in own && GivenBack(used, used', own[t])
    ensures AddsUp(used', own - {t})
  {
    NothingLost(used, used', own, t);
    DistinctSize(own[t]);
    assert ProperFrames(used, own[t]);
    assert FreeFrames(used') == FreeFrames(used) + Elements(own[t]);
    assert FreeFrames(used) !! Elements(own[t]);
    assert (own - {t}).Keys == own.Keys - {t};
    assert |own - {t}| == |own| - 1;
  }

  lemma Strike(used: Bytemap, used': Bytemap, own: Ledger, t: nat)
    requires Balanced(used, own) && t in own && GivenBack(used, used', own[t])
    ensures Balanced(used', own - {t})
  {
    StrikeProper(used, used', own, t);
    StrikeAccounted(used, used', own, t);
    StrikeCounted(used, used', own, t);
  }

  /** With at most eight processes there are always frames for one more. */
  lemma RoomForOneMore(used: Bytemap, own: Ledger)
    requires Balanced(used, own) && |own| <= 8
    ensures |FreeFrames(used)| >= NUM_PAG_DATA
  {
  }
}
