// What several parts of the kernel share: its sizes, 32-bit words, and sequences without repetition.

module Common {
  const NR_TASKS: nat := 10
  const MAX_MUTEXES: nat := 10

  /** freequeue, readyqueue, blocked, and one queue per mutex. */
  const NR_QUEUES: nat := 3 + MAX_MUTEXES

  const WORD: nat := 0x1_0000_0000

  /** A register: 32 bits. */
  type Word = x: nat | x < WORD

  ghost predicate Distinct<T>(s: seq<T>) {
    forall i, j :: 0 <= i < j < |s| ==> s[i] != s[j]
  }

  ghost function Elements(fs: seq<nat>): set<nat> {
    set f | f in fs
  }

  lemma {:induction false} DistinctSize(fs: seq<nat>)
    requires Distinct(fs)
    ensures |Elements(fs)| == |fs|
  {
    if fs == [] {
      assert Elements(fs) == {};
    } else {
      var n := |fs| - 1;
      DistinctSize(fs[..n]);
      assert fs == fs[..n] + [fs[n]];
      assert Elements(fs) == Elements(fs[..n]) + {fs[n]};
      assert fs[n] !in fs[..n];
    }
  }

  lemma QuotientUnique(n: int, d: int, q: int, r: int)
    requires d > 0 && n == d * q + r && 0 <= r < d
    ensures n / d == q && n % d == r
  {
    var q', r' := n / d, n % d;
    assert d * (q - q') == r' - r;
    assert q - q' >= 1 ==> d * (q - q') >= d;
    assert q - q' <= -1 ==> d * (q - q') <= -d;
  }
}
