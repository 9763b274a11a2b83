// What sys_read stores in the buffer of a single reader, piece by piece over a run, and what the buffer holds
// in the end.

module Deliveries {
  import opened Common
  import opened SchedSpec
  import opened Partition
  import opened PartitionRuns
  import opened Moves

  /** All that a run stores in readers' buffers, in order. */
  ghost function AllHanded(s: Sched, steps: seq<Step>): seq<Copy>
    requires WF(s)
    decreases steps
  {
    if steps == [] then [] else Handed(s, steps[0]) + AllHanded(Apply(s, steps[0]), steps[1..])
  }

  lemma RunUnrolls(s: Sched, a: Step, rest: seq<Step>)
    requires WF(s)
    ensures Run(s, [a] + rest) == Run(Apply(s, a), rest)
    ensures AllAllowed(s, [a] + rest) <==> Allowed(s, a) && AllAllowed(Apply(s, a), rest)
  {
    hide Apply;
    assert ([a] + rest)[1..] == rest;
  }

  lemma ToLastUnrolls(s: Sched, a: Step, rest: seq<Step>)
    requires WF(s)
    ensures AllowedToLast(s, [a] + rest) <==>
            Possible(s, a) && (rest != [] ==> Allowed(s, a)) && AllowedToLast(Apply(s, a), rest)
  {
    hide Apply;
    assert ([a] + rest)[1..] == rest;
  }

  lemma HandedUnrolls(s: Sched, a: Step, rest: seq<Step>, got: seq<Copy>)
    requires WF(s)
    ensures got + AllHanded(s, [a] + rest) == got + Handed(s, a) + AllHanded(Apply(s, a), rest)
  {
    hide Apply, Handed;
    assert ([a] + rest)[1..] == rest;
  }

  ghost predicate NoRead(steps: seq<Step>) {
    forall i :: 0 <= i < |steps| ==> !steps[i].ReadCall?
  }

  /** The characters typed during the steps. */
  function KeysOf(steps: seq<Step>): seq<char> {
    if steps == [] then []
    else (if steps[0].KeyPress? then [steps[0].c] else []) + KeysOf(steps[1..])
  }

  // ---------- the reader's memory

  /** chars stored from position at on, if they fit. */
  function Put(mem: seq<char>, at: int, chars: seq<char>): (r: seq<char>)
    ensures |r| == |mem|
  {
    if 0 <= at && at + |chars| <= |mem| then mem[..at] + chars + mem[at + |chars|..] else mem
  }

  /** The buffer of task t after the copies, whoever they are for. */
  function Stored(mem: seq<char>, copies: seq<Copy>, t: nat): (r: seq<char>)
    ensures |r| == |mem|
    decreases copies
  {
    if copies == [] then mem
    else Stored(if copies[0].t == t then Put(mem, copies[0].at, copies[0].chars) else mem, copies[1..], t)
  }

  lemma {:induction false} StoredInTurn(mem: seq<char>, x: seq<Copy>, y: seq<Copy>, t: nat)
    ensures Stored(mem, x + y, t) == Stored(Stored(mem, x, t), y, t)
    decreases x
  {
    if x == [] {
      assert x + y == y;
    } else {
      assert (x + y)[1..] == x[1..] + y;
      StoredInTurn(if x[0].t == t then Put(mem, x[0].at, x[0].chars) else mem, x[1..], y, t);
    }
  }

  lemma StoredNothing(mem: seq<char>, t: nat)
    ensures Stored(mem, [], t) == mem
  {
  }

  lemma StoredOne(mem: seq<char>, t: nat, at: int, chars: seq<char>)
    ensures Stored(mem, [Copy(t, at, chars)], t) == Put(mem, at, chars)
  {
  }

  lemma StoredTwo(mem: seq<char>, t: nat, at: int, chars: seq<char>, at': int, chars': seq<char>)
    ensures Stored(mem, [Copy(t, at, chars)] + [Copy(t, at', chars')], t) == Put(Put(mem, at, chars), at', chars')
  {
    StoredInTurn(mem, [Copy(t, at, chars)], [Copy(t, at', chars')], t);
  }

  lemma PutPut(mem: seq<char>, at: nat, x: seq<char>, y: seq<char>)
    requires at + |x| + |y| <= |mem|
    ensures Put(Put(mem, at, x), at + |x|, y) == Put(mem, at, x + y)
  {
  }

  /** The buffer of a reader that has asked for n characters, wants left more and stores the next ones at diff,
      with keys in the ring and typed to come. */
  function Fill(mem: seq<char>, n: int, keys: seq<char>, left: int, diff: int, typed: seq<char>): seq<char>
    decreases typed
  {
    if left <= 0 || typed == [] then mem
    else
      var k := Typed(keys, typed[0]);
      if left == 1 then Put(Put(mem, diff, k), n, "\0")
      else if |k| == TAM_BUF then Fill(Put(mem, diff, k), n, [], left - 1, n - (left - 1), typed[1..])
      else Fill(mem, n, k, left - 1, diff, typed[1..])
  }

  lemma FillUnrolls(mem: seq<char>, n: int, keys: seq<char>, left: int, diff: int, c: char, typed: seq<char>)
    requires left > 0
    ensures var k := Typed(keys, c);
            Fill(mem, n, keys, left, diff, [c] + typed) ==
            if left == 1 then Put(Put(mem, diff, k), n, "\0")
            else if |k| == TAM_BUF then Fill(Put(mem, diff, k), n, [], left - 1, n - (left - 1), typed)
            else Fill(mem, n, k, left - 1, diff, typed)
  {
    assert ([c] + typed)[1..] == typed;
  }

  // ---------- one step

  /** Ring, requests, blocked queue and everybody's missing characters are the same. */
  ghost predicate SameReaders(s: Sched, r: Sched)
    requires WF(s) && WF(r)
  {
    && r.keys == s.keys && r.requests == s.requests && r.q[BLOCKED] == s.q[BLOCKED]
    && forall t :: 0 <= t < NR_TASKS ==> r.task[t].toRead == s.task[t].toRead
  }

  lemma SchedNextReaders(s: Sched)
    requires WF(s)
    ensures SameReaders(s, SchedNext(s))
  {
  }

  lemma TickReaders(s: Sched)
    requires WF(s)
    ensures SameReaders(s, Tick(s))
  {
    hide SchedNext;
    var s1 := s.(ticks := s.ticks - 1);
    SchedNextReaders(if s.cur != IDLE then Append(s1, READY, s.cur) else s1);
  }

  lemma ExitReaders(s: Sched)
    requires WF(s)
    ensures SameReaders(s, Exit(s))
  {
    SchedNextReaders(Leave(s));
  }

  lemma LockReaders(s: Sched, m: int)
    requires WF(s)
    ensures SameReaders(s, Lock(s, m))
  {
    if Usable(s, m) && s.count[m] >= 1 {
      var s1 := SetTask(s, s.cur, s.task[s.cur].(resume := Locking(m)));
      SchedNextReaders(Record(Append(s1, MutexQueue(m), s.cur), Queued(m, s.cur)));
    }
  }

  lemma UnlockReaders(s: Sched, m: int)
    requires WF(s)
    ensures SameReaders(s, Unlock(s, m))
  {
  }

  lemma FreeHeadNotBlocked(s: Sched)
    requires Inv(s) && s.q[FREE] != []
    ensures s.q[FREE][0] !in s.q[BLOCKED]
  {
    QueuedIsElsewhere(s.q, s.cur, FREE);
    if s.q[FREE][0] in s.q[BLOCKED] {
      var i :| 0 <= i < |s.q[BLOCKED]| && s.q[BLOCKED][i] == s.q[FREE][0];
      OccMember(s.q[FREE := s.q[FREE][1..]], BLOCKED, i);
    }
  }

  /** Ring, requests, blocked queue and the missing characters of the tasks in it are the same. */
  ghost predicate ReadersKept(s: Sched, r: Sched)
    requires WF(s) && WF(r)
  {
    && r.keys == s.keys && r.requests == s.requests && r.q[BLOCKED] == s.q[BLOCKED]
    && forall t :: t in s.q[BLOCKED] && t < NR_TASKS ==> r.task[t].toRead == s.task[t].toRead
  }

  lemma NewTaskReaders(s: Sched, a: Step)
    requires Inv(s) && (a.ForkCall? || a.CreateThreadCall?)
    ensures ReadersKept(s, Apply(s, a))
  {
    if s.q[FREE] != [] {
      FreeHeadNotBlocked(s);
    }
  }

  lemma OthersKeepReaders(s: Sched, a: Step)
    requires Inv(s) && !a.ReadCall? && !a.KeyPress?
    ensures ReadersKept(s, Apply(s, a)) && Handed(s, a) == []
  {
    match a
    case ClockTick => TickReaders(s);
    case ForkCall(ok) => NewTaskReaders(s, a);
    case CreateThreadCall => NewTaskReaders(s, a);
    case ExitCall => ExitReaders(s);
    case InitMutexCall(m) =>
    case LockCall(m) => LockReaders(s, m);
    case UnlockCall(m) => UnlockReaders(s, m);
  }

  /** t is the first reader; it has asked for n characters, wants left more and stores the next at diff. */
  ghost predicate Waits(s: Sched, t: nat, keys: seq<char>, left: int, n: int, diff: int) {
    && Inv(s) && s.keys == keys && s.q[BLOCKED] != [] && s.q[BLOCKED][0] == t && t < NR_TASKS
    && s.task[t].toRead == left && s.requests[t] == Request(n, diff)
  }

  lemma WaitsOn(s: Sched, a: Step, t: nat, keys: seq<char>, left: int, n: int, diff: int)
    requires Waits(s, t, keys, left, n, diff) && Allowed(s, a) && !a.ReadCall? && !a.KeyPress?
    ensures Waits(Apply(s, a), t, keys, left, n, diff) && Handed(s, a) == []
  {
    StepInv(s, a);
    OthersKeepReaders(s, a);
  }

  /** Where the system is after key c, and what the key has stored. */
  ghost predicate Arrived(r: Sched, copies: seq<Copy>, c: char, t: nat, keys: seq<char>, left: int, n: int, diff: int) {
    var k := Typed(keys, c);
    && left > 0
    && (left == 1 ==>
          copies == [Copy(t, diff, k)] + [Copy(t, n, "\0")] && Inv(r) && t !in r.q[BLOCKED])
    && (left > 1 && |k| == TAM_BUF ==>
          copies == [Copy(t, diff, k)] && Waits(r, t, [], left - 1, n, n - (left - 1)))
    && (left > 1 && |k| != TAM_BUF ==> copies == [] && Waits(r, t, k, left - 1, n, diff))
  }

  /** A blocked task is a reader that still misses characters. */
  lemma WantsMore(s: Sched, t: nat)
    requires Inv(s) && t in s.q[BLOCKED]
    ensures t < NR_TASKS && s.task[t].toRead > 0
  {
    var i :| 0 <= i < |s.q[BLOCKED]| && s.q[BLOCKED][i] == t;
  }

  lemma FirstReaderOnce(s: Sched, t: nat)
    requires Inv(s) && s.q[BLOCKED] != [] && s.q[BLOCKED][0] == t
    ensures t !in s.q[BLOCKED][1..]
  {
    QueuedIsElsewhere(s.q, s.cur, BLOCKED);
    var q := s.q[BLOCKED := s.q[BLOCKED][1..]];
    if t in q[BLOCKED] {
      var i :| 0 <= i < |q[BLOCKED]| && q[BLOCKED][i] == t;
      OccMember(q, BLOCKED, i);
    }
  }

  /** What a key changes about the readers, t being the first: k is the ring with the key in it. */
  ghost predicate Counts(s: Sched, r: Sched, k: seq<char>, t: nat)
    requires WF(s) && WF(r) && t < NR_TASKS && s.q[BLOCKED] != []
  {
    var left := s.task[t].toRead - 1;
    && r.keys == (if left == 0 || |k| == TAM_BUF then [] else k)
    && r.q[BLOCKED] == (if left == 0 then s.q[BLOCKED][1..] else s.q[BLOCKED])
    && (left > 0 ==> r.task[t].toRead == left)
    && (left > 0 ==> r.requests[t] == if |k| == TAM_BUF then s.requests[t].(diff := s.requests[t].maxchars - left)
                                      else s.requests[t])
    && forall u :: 0 <= u < NR_TASKS && u != t ==> r.task[u].toRead == s.task[u].toRead && r.requests[u] == s.requests[u]
  }

  lemma KeyCounts(s: Sched, c: char, t: nat)
    requires WF(s) && s.q[BLOCKED] != [] && s.q[BLOCKED][0] == t && s.task[t].toRead > 0
    requires s.task[t].toRead == 1 || |Typed(s.keys, c)| != TAM_BUF
    ensures Counts(s, Key(s, c), Typed(s.keys, c), t)
  {
  }

  lemma KeyCountsAndDrains(s: Sched, c: char, t: nat)
    requires WF(s) && s.q[BLOCKED] != [] && s.q[BLOCKED][0] == t && s.task[t].toRead > 1
    requires |Typed(s.keys, c)| == TAM_BUF
    ensures Counts(s, Key(s, c), Typed(s.keys, c), t)
  {
    hide SchedNext;
    SchedNextReaders(HandedOver(Counted(s, c)));
  }

  /** A key for the first reader t, on the state. */
  lemma KeyForReader(s: Sched, c: char, t: nat)
    requires Inv(s) && Allowed(s, KeyPress(c)) && s.q[BLOCKED] != [] && s.q[BLOCKED][0] == t
    ensures t < NR_TASKS && s.task[t].toRead > 0 && Counts(s, Key(s, c), Typed(s.keys, c), t)
  {
    hide Key;
    WantsMore(s, t);
    if s.task[t].toRead > 1 && |Typed(s.keys, c)| == TAM_BUF {
      KeyCountsAndDrains(s, c, t);
    } else {
      KeyCounts(s, c, t);
    }
  }

  /** And what it stores. */
  lemma KeyStores(s: Sched, c: char, t: nat)
    requires Inv(s) && s.q[BLOCKED] != [] && s.q[BLOCKED][0] == t && t < NR_TASKS && s.task[t].toRead > 0
    ensures var k, left, n, diff := Typed(s.keys, c), s.task[t].toRead - 1, s.requests[t].maxchars, s.requests[t].diff;
            Handed(s, KeyPress(c)) == if left == 0 then [Copy(t, diff, k)] + [Copy(t, n, "\0")]
                                      else if |k| == TAM_BUF then [Copy(t, diff, k)] else []
  {
    if s.task[t].toRead > 1 {
      assert [Copy(t, s.requests[t].diff, Typed(s.keys, c))] + [] == [Copy(t, s.requests[t].diff, Typed(s.keys, c))];
    }
  }

  /** What the first reader stores, told by its request before the key. */
  ghost predicate Pieces(copies: seq<Copy>, k: seq<char>, t: nat, left: int, n: int, diff: int) {
    copies == if left == 1 then [Copy(t, diff, k)] + [Copy(t, n, "\0")]
              else if |k| == TAM_BUF then [Copy(t, diff, k)] else []
  }

  lemma ArrivedIs(s: Sched, r: Sched, copies: seq<Copy>, c: char, t: nat, keys: seq<char>, left: int, n: int, diff: int)
    requires Waits(s, t, keys, left, n, diff) && left > 0 && Inv(r) && Counts(s, r, Typed(keys, c), t)
    requires t !in s.q[BLOCKED][1..] && Pieces(copies, Typed(keys, c), t, left, n, diff)
    ensures Arrived(r, copies, c, t, keys, left, n, diff)
  {
  }

  lemma KeyPieces(s: Sched, c: char, t: nat, keys: seq<char>, left: int, n: int, diff: int)
    requires Waits(s, t, keys, left, n, diff)
    ensures left > 0 && Pieces(Handed(s, KeyPress(c)), Typed(keys, c), t, left, n, diff)
  {
    hide Handed;
    WantsMore(s, t);
    KeyStores(s, c, t);
  }

  lemma KeyArrives(s: Sched, c: char, t: nat, keys: seq<char>, left: int, n: int, diff: int)
    requires Waits(s, t, keys, left, n, diff) && Allowed(s, KeyPress(c))
    ensures Arrived(Apply(s, KeyPress(c)), Handed(s, KeyPress(c)), c, t, keys, left, n, diff)
  {
    hide Apply, Handed, Arrived, Counts, Pieces;
    FirstReaderOnce(s, t);
    StepInv(s, KeyPress(c));
    KeyForReader(s, c, t);
    KeyPieces(s, c, t, keys, left, n, diff);
    assert Key(s, c) == Apply(s, KeyPress(c)) by {
      ApplyKey(s, c);
    }
    ArrivedIs(s, Apply(s, KeyPress(c)), Handed(s, KeyPress(c)), c, t, keys, left, n, diff);
  }

  lemma ApplyKey(s: Sched, c: char)
    requires WF(s)
    ensures Apply(s, KeyPress(c)) == Key(s, c)
  {
  }

  // ---------- runs

  /** Whoever waits, nothing is stored for t, which does not. */
  lemma {:induction false} NothingForOthers(s: Sched, steps: seq<Step>, t: nat, mem: seq<char>)
    requires Inv(s) && AllowedToLast(s, steps) && NoRead(steps) && t !in s.q[BLOCKED]
    ensures Stored(mem, AllHanded(s, steps), t) == mem
    decreases steps
  {
    hide Apply, Handed, Stored;
    if steps == [] {
      StoredNothing(mem, t);
    } else {
      var a, rest := steps[0], steps[1..];
      NothingNow(s, a, t, mem);
      StoredInTurn(mem, Handed(s, a), AllHanded(Apply(s, a), rest), t);
      if rest != [] {
        StepInv(s, a);
        StaysAway(s, a, t);
        NothingForOthers(Apply(s, a), rest, t, mem);
      } else {
        StoredNothing(mem, t);
      }
    }
  }

  lemma NothingNow(s: Sched, a: Step, t: nat, mem: seq<char>)
    requires Inv(s) && !a.ReadCall? && t !in s.q[BLOCKED]
    ensures Stored(mem, Handed(s, a), t) == mem
  {
    hide Key;
    if a.KeyPress? && s.q[BLOCKED] != [] {
      KeyStoresFor(s, a.c, t, mem);
    } else {
      StoredNothing(mem, t);
    }
  }

  /** A key stores only for the first reader. */
  lemma KeyStoresFor(s: Sched, c: char, t: nat, mem: seq<char>)
    requires Inv(s) && s.q[BLOCKED] != [] && t != s.q[BLOCKED][0]
    ensures Stored(mem, Handed(s, KeyPress(c)), t) == mem
  {
    hide Handed, Stored;
    var h, k := s.q[BLOCKED][0], Typed(s.keys, c);
    WantsMore(s, h);
    KeyStores(s, c, h);
    StoredNothing(mem, t);
    NotStored(mem, h, s.requests[h].diff, k, t);
    NotStored(mem, h, s.requests[h].maxchars, "\0", t);
    StoredInTurn(mem, [Copy(h, s.requests[h].diff, k)], [Copy(h, s.requests[h].maxchars, "\0")], t);
  }

  lemma NotStored(mem: seq<char>, h: nat, at: int, chars: seq<char>, t: nat)
    requires h != t
    ensures Stored(mem, [Copy(h, at, chars)], t) == mem
  {
  }

  /** Who does not wait goes on not waiting, but for a read. */
  lemma StaysAway(s: Sched, a: Step, t: nat)
    requires Inv(s) && Allowed(s, a) && !a.ReadCall? && t !in s.q[BLOCKED]
    ensures t !in Apply(s, a).q[BLOCKED]
  {
    hide Apply;
    StepMoves(s, a, BLOCKED);
    assert [] + s.q[BLOCKED] + [] == s.q[BLOCKED];
  }

  lemma KeysAfterKey(c: char, rest: seq<Step>)
    ensures KeysOf([KeyPress(c)] + rest) == [c] + KeysOf(rest)
  {
    assert ([KeyPress(c)] + rest)[1..] == rest;
  }

  lemma KeysAfterOther(a: Step, rest: seq<Step>)
    requires !a.KeyPress?
    ensures KeysOf([a] + rest) == KeysOf(rest)
  {
    assert ([a] + rest)[1..] == rest;
    assert [] + KeysOf(rest) == KeysOf(rest);
  }

  /** Whatever else happens, the reader's buffer is filled by the keys alone. */
  lemma {:induction false} HandedIsFill(s: Sched, steps: seq<Step>, t: nat, mem: seq<char>,
                                        n: int, keys: seq<char>, left: int, diff: int)
    requires WF(s) && Waits(s, t, keys, left, n, diff) && AllowedToLast(s, steps) && NoRead(steps)
    ensures Stored(mem, AllHanded(s, steps), t) == Fill(mem, n, keys, left, diff, KeysOf(steps))
    decreases steps, 1
  {
    hide Fill, Stored, Apply, Handed, AllHanded, AllowedToLast, Waits, Arrived, KeysOf;
    if steps == [] {
      FilledByNothing(s, steps, t, mem, n, keys, left, diff);
    } else {
      var a, rest := steps[0], steps[1..];
      assert steps == [a] + rest;
      ToLastUnrolls(s, a, rest);
      HandedUnrolls(s, a, rest, []);
      assert [] + AllHanded(s, steps) == AllHanded(s, steps) && [] + Handed(s, a) == Handed(s, a);
      if a.KeyPress? && !Allowed(s, a) {
        assert rest == [] && [a] + rest == [KeyPress(a.c)];
        LastKey(s, a.c, t, mem, n, keys, left, diff);
      } else if a.KeyPress? {
        KeyArrives(s, a.c, t, keys, left, n, diff);
        AfterKey(Apply(s, a), Handed(s, a), a.c, rest, t, mem, n, keys, left, diff);
      } else {
        WaitsOn(s, a, t, keys, left, n, diff);
        AfterOther(Apply(s, a), a, rest, t, mem, n, keys, left, diff);
      }
    }
  }

  /** A key that ends the run, whoever it interrupts. */
  lemma LastKey(s: Sched, c: char, t: nat, mem: seq<char>, n: int, keys: seq<char>, left: int, diff: int)
    requires Waits(s, t, keys, left, n, diff)
    ensures Stored(mem, Handed(s, KeyPress(c)) + AllHanded(Apply(s, KeyPress(c)), []), t)
            == Fill(mem, n, keys, left, diff, KeysOf([KeyPress(c)]))
  {
    hide Handed, Key, Put;
    var k := Typed(keys, c);
    WantsMore(s, t);
    KeyStores(s, c, t);
    KeysAfterKey(c, []);
    assert [KeyPress(c)] + [] == [KeyPress(c)] && [c] + KeysOf([]) == [c] + [];
    FillUnrolls(mem, n, keys, left, diff, c, []);
    assert Handed(s, KeyPress(c)) + [] == Handed(s, KeyPress(c));
    if left == 1 {
      StoredTwo(mem, t, diff, k, n, "\0");
    } else if |k| == TAM_BUF {
      StoredOne(mem, t, diff, k);
    }
  }

  lemma FilledByNothing(s: Sched, steps: seq<Step>, t: nat, mem: seq<char>, n: int, keys: seq<char>, left: int, diff: int)
    requires WF(s) && steps == []
    ensures Stored(mem, AllHanded(s, steps), t) == Fill(mem, n, keys, left, diff, KeysOf(steps))
  {
  }

  lemma AfterKey(r: Sched, copies: seq<Copy>, c: char, rest: seq<Step>, t: nat, mem: seq<char>,
                 n: int, keys: seq<char>, left: int, diff: int)
    requires WF(r) && Arrived(r, copies, c, t, keys, left, n, diff) && AllowedToLast(r, rest) && NoRead(rest)
    ensures Stored(mem, copies + AllHanded(r, rest), t) == Fill(mem, n, keys, left, diff, KeysOf([KeyPress(c)] + rest))
    decreases rest, 2
  {
    hide Apply, Fill, KeysOf, AllHanded, AllowedToLast, Inv, Put;
    var k := Typed(keys, c);
    KeysAfterKey(c, rest);
    FillUnrolls(mem, n, keys, left, diff, c, KeysOf(rest));
    StoredInTurn(mem, copies, AllHanded(r, rest), t);
    if left == 1 {
      StoredTwo(mem, t, diff, k, n, "\0");
      NothingForOthers(r, rest, t, Put(Put(mem, diff, k), n, "\0"));
    } else if |k| == TAM_BUF {
      StoredOne(mem, t, diff, k);
      HandedIsFill(r, rest, t, Put(mem, diff, k), n, [], left - 1, n - (left - 1));
    } else {
      HandedIsFill(r, rest, t, mem, n, k, left - 1, diff);
    }
  }

  lemma AfterOther(r: Sched, a: Step, rest: seq<Step>, t: nat, mem: seq<char>,
                   n: int, keys: seq<char>, left: int, diff: int)
    requires Waits(r, t, keys, left, n, diff) && AllowedToLast(r, rest) && NoRead(rest) && !a.KeyPress?
    ensures Stored(mem, [] + AllHanded(r, rest), t) == Fill(mem, n, keys, left, diff, KeysOf([a] + rest))
    decreases rest, 2
  {
    hide Apply, Fill, Stored;
    HandedIsFill(r, rest, t, mem, n, keys, left, diff);
    KeysAfterOther(a, rest);
    assert [] + AllHanded(r, rest) == AllHanded(r, rest);
  }

  // ---------- what the buffer holds in the end

  /** With the pieces so far in order, the characters wanted follow in order. */
  lemma {:induction false} FillIs(mem: seq<char>, n: nat, keys: seq<char>, left: nat, diff: nat, typed: seq<char>)
    requires |keys| < TAM_BUF && 0 < left <= |typed| && diff + |keys| + left == n < |mem|
    ensures Fill(mem, n, keys, left, diff, typed) == Put(mem, diff, keys + typed[..left] + "\0")
    decreases left
  {
    hide Put;
    var k, rest := keys + [typed[0]], typed[1..];
    assert typed == [typed[0]] + rest && Typed(keys, typed[0]) == k;
    assert keys + typed[..left] == k + rest[..left - 1];
    FillUnrolls(mem, n, keys, left, diff, typed[0], rest);
    if left == 1 {
      PutPut(mem, diff, k, "\0");
      assert k + rest[..0] == k;
    } else if |k| == TAM_BUF {
      FillIs(Put(mem, diff, k), n, [], left - 1, n - (left - 1), rest);
      assert [] + rest[..left - 1] == rest[..left - 1];
      PutPut(mem, diff, k, rest[..left - 1] + "\0");
      assert k + (rest[..left - 1] + "\0") == k + rest[..left - 1] + "\0";
    } else {
      FillIs(mem, n, k, left - 1, diff, rest);
    }
  }

  /** From a full ring, the first key is lost, and the second and later ones overwrite the ring's characters
      from the second on. */
  lemma FillWhenFull(mem: seq<char>, n: nat, keys: seq<char>, typed: seq<char>)
    requires |keys| == TAM_BUF && 0 < n <= |typed| && n < |mem|
    ensures Fill(mem, n, keys, n, 0, typed) == Put(Put(mem, 0, keys), 1, typed[1..n] + "\0")
  {
    hide Put;
    var rest := typed[1..];
    assert typed == [typed[0]] + rest && Typed(keys, typed[0]) == keys;
    FillUnrolls(mem, n, keys, n, 0, typed[0], rest);
    if n == 1 {
      assert typed[1..n] + "\0" == "\0";
    } else {
      FillIs(Put(mem, 0, keys), n, [], n - 1, 1, rest);
      assert [] + rest[..n - 1] == typed[1..n];
    }
  }

  /** The keys that a read of n characters waits for: a full ring on entry is not looked at. */
  predicate Enough(keys: seq<char>, n: nat, typed: seq<char>) {
    n > 0 && |typed| + (if |keys| == TAM_BUF then 0 else |keys|) >= n
  }

  /** The text that the reader finds, up to the NUL behind it. */
  function Text(keys: seq<char>, n: nat, typed: seq<char>): seq<char>
    requires Enough(keys, n, typed)
  {
    if |keys| == TAM_BUF then [keys[0]] + typed[1..n] else if |keys| >= n then keys else (keys + typed)[..n]
  }

  /** What is left of a full ring behind that. */
  function Behind(keys: seq<char>, n: nat): seq<char> {
    if |keys| == TAM_BUF && n + 1 < TAM_BUF then keys[n + 1..] else []
  }

  /** All that a read of n characters changes in its buffer. */
  function Result(keys: seq<char>, n: nat, typed: seq<char>): seq<char>
    requires Enough(keys, n, typed)
  {
    Text(keys, n, typed) + "\0" + Behind(keys, n)
  }

  lemma FullResult(mem: seq<char>, n: nat, keys: seq<char>, typed: seq<char>)
    requires |keys| == TAM_BUF && Enough(keys, n, typed) && n < |mem| && TAM_BUF < |mem|
    ensures Put(Put(mem, 0, keys), 1, typed[1..n] + "\0") == Put(mem, 0, Result(keys, n, typed))
  {
  }

  lemma LongResult(mem: seq<char>, n: nat, keys: seq<char>, typed: seq<char>)
    requires 0 < n <= |keys| < TAM_BUF < |mem|
    ensures Put(Put(mem, 0, keys), |keys|, "\0") == Put(mem, 0, Result(keys, n, typed))
  {
    PutPut(mem, 0, keys, "\0");
    assert Result(keys, n, typed) == keys + "\0";
  }

  lemma ShortText(keys: seq<char>, n: nat, typed: seq<char>)
    requires |keys| < TAM_BUF && |keys| < n && Enough(keys, n, typed)
    ensures Result(keys, n, typed) == (keys + typed)[..n] + "\0"
    ensures keys + typed[..n - |keys|] == (keys + typed)[..n]
  {
    assert (keys + typed)[..n] + "\0" + [] == (keys + typed)[..n] + "\0";
  }

  lemma ShortResult(mem: seq<char>, n: nat, keys: seq<char>, typed: seq<char>)
    requires |keys| < TAM_BUF && |keys| < n && Enough(keys, n, typed) && n < |mem|
    ensures Put(Put(mem, 0, keys), |keys|, [] + typed[..n - |keys|] + "\0") == Put(mem, 0, Result(keys, n, typed))
  {
    hide Put, Result;
    var more := typed[..n - |keys|];
    ShortText(keys, n, typed);
    Regroup(keys, more);
    PutPut(mem, 0, keys, [] + more + "\0");
  }

  lemma Regroup(x: seq<char>, y: seq<char>)
    ensures x + ([] + y + "\0") == x + y + "\0"
  {
  }

  // ---------- the whole read

  /** What the call has stored when it first sleeps or returns. */
  function OnEntry(t: nat, keys: seq<char>, n: nat): seq<Copy> {
    if |keys| == TAM_BUF then []
    else if |keys| < n then [Copy(t, 0, keys)] else [Copy(t, 0, keys)] + [Copy(t, |keys|, "\0")]
  }

  /** Where the call has then got to. */
  ghost predicate AfterEntry(s: Sched, n: nat, r: Sched) {
    if |s.keys| == TAM_BUF then Waits(r, s.cur, s.keys, n, n, 0)
    else if |s.keys| < n then Waits(r, s.cur, [], n - |s.keys|, n, |s.keys|)
    else Inv(r) && r.q[BLOCKED] == []
  }

  lemma EntryStores(s: Sched, n: nat)
    requires WF(s) && n > 0
    ensures Handed(s, ReadCall(n)) == OnEntry(s.cur, s.keys, n)
  {
    assert [Copy(s.cur, 0, s.keys)] + [] == [Copy(s.cur, 0, s.keys)];
  }

  lemma FinishedState(s1: Sched, left: int)
    requires WF(s1) && s1.cur < NR_TASKS
    ensures var r := FinishRead(s1, left);
            && r.keys == s1.keys && r.requests == s1.requests
            && r.q[BLOCKED] == (if left > 0 then s1.q[BLOCKED] + [s1.cur] else s1.q[BLOCKED])
            && r.task[s1.cur].toRead == left
  {
    if left > 0 {
      SchedNextReaders(Block(s1, s1.task[s1.cur].(toRead := left, resume := Reading)));
    }
  }

  lemma ReadEnters(s: Sched, n: nat)
    requires Inv(s) && s.cur != IDLE && n > 0 && s.q[BLOCKED] == []
    ensures AfterEntry(s, n, Read(s, n))
  {
    hide FinishRead;
    ReadInv(s, n);
    FinishedState(Entered(s, n), LeftAtEntry(s, n));
    assert [] + [s.cur] == [s.cur];
  }

  lemma ReadAndRest(s: Sched, n: nat, steps: seq<Step>) returns (r: Sched)
    requires Inv(s) && n > 0 && s.q[BLOCKED] == [] && AllowedToLast(s, [ReadCall(n)] + steps)
    ensures WF(r) && AfterEntry(s, n, r) && AllowedToLast(r, steps)
    ensures AllHanded(s, [ReadCall(n)] + steps) == OnEntry(s.cur, s.keys, n) + AllHanded(r, steps)
  {
    hide Read, Handed, AfterEntry, AllHanded, AllowedToLast, OnEntry;
    r := Apply(s, ReadCall(n));
    ToLastUnrolls(s, ReadCall(n), steps);
    HandedUnrolls(s, ReadCall(n), steps, []);
    ReadEnters(s, n);
    EntryStores(s, n);
    var all := AllHanded(s, [ReadCall(n)] + steps);
    assert [] + all == all && [] + Handed(s, ReadCall(n)) == Handed(s, ReadCall(n));
  }

  lemma RestWhenFull(s: Sched, n: nat, r: Sched, steps: seq<Step>, mem: seq<char>)
    requires |s.keys| == TAM_BUF && Waits(r, s.cur, s.keys, n, n, 0) && Room(n, mem)
    requires NoRead(steps) && AllowedToLast(r, steps) && Enough(s.keys, n, KeysOf(steps))
    ensures Stored(mem, AllHanded(r, steps), s.cur) == Put(mem, 0, Result(s.keys, n, KeysOf(steps)))
  {
    hide Apply, Put, Fill, Stored, Result;
    HandedIsFill(r, steps, s.cur, mem, n, s.keys, n, 0);
    FillWhenFull(mem, n, s.keys, KeysOf(steps));
    FullResult(mem, n, s.keys, KeysOf(steps));
  }

  lemma RestWhenShort(s: Sched, n: nat, r: Sched, steps: seq<Step>, mem: seq<char>)
    requires |s.keys| < TAM_BUF && |s.keys| < n && Waits(r, s.cur, [], n - |s.keys|, n, |s.keys|) && Room(n, mem)
    requires NoRead(steps) && AllowedToLast(r, steps) && Enough(s.keys, n, KeysOf(steps))
    ensures Stored(Put(mem, 0, s.keys), AllHanded(r, steps), s.cur) == Put(mem, 0, Result(s.keys, n, KeysOf(steps)))
  {
    hide Apply, Fill, Stored, Result, Put, AllHanded, AllowedToLast, KeysOf;
    var mem1 := Put(mem, 0, s.keys);
    HandedIsFill(r, steps, s.cur, mem1, n, [], n - |s.keys|, |s.keys|);
    FillIs(mem1, n, [], n - |s.keys|, |s.keys|, KeysOf(steps));
    ShortResult(mem, n, s.keys, KeysOf(steps));
  }

  lemma RestWhenLong(s: Sched, n: nat, r: Sched, steps: seq<Step>, mem: seq<char>)
    requires 0 < n <= |s.keys| < TAM_BUF && Room(n, mem) && Inv(r) && r.q[BLOCKED] == []
    requires NoRead(steps) && AllowedToLast(r, steps)
    ensures Stored(Put(Put(mem, 0, s.keys), |s.keys|, "\0"), AllHanded(r, steps), s.cur)
            == Put(mem, 0, Result(s.keys, n, KeysOf(steps)))
  {
    hide Apply, Put, Result;
    NothingForOthers(r, steps, s.cur, Put(Put(mem, 0, s.keys), |s.keys|, "\0"));
    LongResult(mem, n, s.keys, KeysOf(steps));
  }

  lemma RingFits(s: Sched)
    requires Inv(s)
    ensures |s.keys| <= TAM_BUF
  {
  }

  /** Room for n characters and a NUL, and for a ring that holds more. */
  ghost predicate Room(n: nat, mem: seq<char>) {
    n < |mem| && TAM_BUF < |mem|
  }

  /** Over any run without other reads, what a single read of n characters leaves in its buffer, byte by byte. */
  lemma ReadStores(s: Sched, n: nat, steps: seq<Step>, mem: seq<char>)
    requires Inv(s) && s.q[BLOCKED] == [] && NoRead(steps) && AllowedToLast(s, [ReadCall(n)] + steps)
    requires Enough(s.keys, n, KeysOf(steps)) && Room(n, mem)
    ensures Stored(mem, AllHanded(s, [ReadCall(n)] + steps), s.cur) == Put(mem, 0, Result(s.keys, n, KeysOf(steps)))
  {
    hide Apply, Put, Result, AllHanded, AllowedToLast, Waits, Stored, Inv, NoRead, KeysOf;
    RingFits(s);
    var r := ReadAndRest(s, n, steps);
    StoredInTurn(mem, OnEntry(s.cur, s.keys, n), AllHanded(r, steps), s.cur);
    if |s.keys| == TAM_BUF {
      StoredNothing(mem, s.cur);
      RestWhenFull(s, n, r, steps, mem);
    } else if |s.keys| < n {
      StoredOne(mem, s.cur, 0, s.keys);
      RestWhenShort(s, n, r, steps, mem);
    } else {
      StoredTwo(mem, s.cur, 0, s.keys, |s.keys|, "\0");
      RestWhenLong(s, n, r, steps, mem);
    }
  }

  // ---------- exactly when that is what was asked for

  predicate NoNul(typed: seq<char>) {
    '\0' !in typed
  }

  /** Keys, at least n, of which the second is not c. */
  function OtherKeys(c: char, n: nat): (typed: seq<char>)
    ensures |typed| == n + 2 && NoNul(typed) && typed[1] != c
  {
    seq(n + 2, i => if c == 'a' then 'b' else 'a')
  }

  /** A buffer that is not at position at what it should be. */
  lemma PutsDiffer(x: seq<char>, y: seq<char>, mem: seq<char>, at: nat)
    requires |x| <= |mem| && |y| <= |mem| && at < |x|
    requires if at < |y| then x[at] != y[at] else x[at] != mem[at]
    ensures Put(mem, 0, x) != Put(mem, 0, y)
  {
    assert Put(mem, 0, x)[at] == x[at];
    assert Put(mem, 0, y)[at] == if at < |y| then y[at] else mem[at];
  }

  /** A memory of length n whose contents are nowhere c. */
  function MemoryOf(c: char, n: nat): (mem: seq<char>)
    ensures |mem| == n && forall i :: 0 <= i < n ==> mem[i] != c
  {
    seq(n, i => if c == 'a' then 'b' else 'a')
  }

  /** The buffer is what was asked for: the first n characters, a NUL, and nothing else changed. */
  ghost predicate Exact(keys: seq<char>, n: nat, typed: seq<char>, mem: seq<char>)
    requires Enough(keys, n, typed)
  {
    Put(mem, 0, Result(keys, n, typed)) == Put(mem, 0, (keys + typed)[..n] + "\0")
  }

  /** From a full ring some keys and some memory behind the buffer show a difference. */
  lemma FullIsInexact(keys: seq<char>, n: nat) returns (typed: seq<char>, mem: seq<char>)
    requires |keys| == TAM_BUF && n > 0 && NoNul(keys)
    ensures Enough(keys, n, typed) && NoNul(typed) && Room(n, mem) && !Exact(keys, n, typed, mem)
  {
    hide Put;
    typed := OtherKeys(keys[1], n);
    mem := MemoryOf(keys[2], n + TAM_BUF);
    var x, y := Result(keys, n, typed), (keys + typed)[..n] + "\0";
    if n == 1 {
      assert x == [keys[0]] + [] + "\0" + keys[2..] && x[2] == keys[2];
      PutsDiffer(x, y, mem, 2);
    } else {
      assert x[1] == typed[1] && y[1] == keys[1];
      PutsDiffer(x, y, mem, 1);
    }
  }

  /** From a ring with more than was asked for, too much arrives. */
  lemma LongIsInexact(keys: seq<char>, n: nat) returns (typed: seq<char>, mem: seq<char>)
    requires 0 < n < |keys| < TAM_BUF && NoNul(keys)
    ensures Enough(keys, n, typed) && NoNul(typed) && Room(n, mem) && !Exact(keys, n, typed, mem)
  {
    hide Put;
    typed, mem := OtherKeys('a', n), MemoryOf('a', n + TAM_BUF);
    var x, y := Result(keys, n, typed), (keys + typed)[..n] + "\0";
    assert x[n] == keys[n] && y[n] == '\0';
    PutsDiffer(x, y, mem, n);
  }

  lemma WithinIsExact(keys: seq<char>, n: nat, typed: seq<char>, mem: seq<char>)
    requires |keys| < TAM_BUF && |keys| <= n && Enough(keys, n, typed)
    ensures Exact(keys, n, typed, mem)
  {
    assert Result(keys, n, typed) == (keys + typed)[..n] + "\0";
  }

  /** The text up to the NUL is as asked for, whatever is typed, exactly then or for one character from a full
      ring. */
  lemma TextIsExactIff(keys: seq<char>, n: nat)
    requires n > 0 && |keys| <= TAM_BUF
    ensures (forall typed :: Enough(keys, n, typed) && NoNul(typed) ==> Text(keys, n, typed) == (keys + typed)[..n])
            <==> (|keys| < TAM_BUF && |keys| <= n) || (|keys| == TAM_BUF && n == 1)
  {
    if |keys| == TAM_BUF && n > 1 {
      var typed := OtherKeys(keys[1], n);
      assert Text(keys, n, typed)[1] != (keys + typed)[..n][1];
    } else if n < |keys| < TAM_BUF {
      var typed := OtherKeys('a', n);
      assert |Text(keys, n, typed)| != n;
    }
  }

  // ---------- over real runs

  /** One key press for each character. */
  function Presses(typed: seq<char>): (steps: seq<Step>)
    ensures |steps| == |typed| && forall i :: 0 <= i < |typed| ==> steps[i] == KeyPress(typed[i])
  {
    seq(|typed|, i requires 0 <= i < |typed| => KeyPress(typed[i]))
  }

  lemma PressesUnroll(typed: seq<char>)
    requires typed != []
    ensures Presses(typed) == [KeyPress(typed[0])] + Presses(typed[1..])
  {
  }

  lemma {:induction false} KeysOfPresses(typed: seq<char>)
    ensures KeysOf(Presses(typed)) == typed
  {
    if typed != [] {
      PressesUnroll(typed);
      KeysOfPresses(typed[1..]);
      KeysAfterKey(typed[0], Presses(typed[1..]));
    }
  }

  /** A key never leaves the processor to idle. */
  lemma KeyKeepsBusy(s: Sched, c: char)
    requires Inv(s) && s.cur != IDLE && c != '\0'
    ensures Inv(Key(s, c)) && Key(s, c).cur != IDLE
  {
    KeyInv(s, c);
    if Wakes(s, c) {
      QueuedIsElsewhere(s.q, s.cur, BLOCKED);
      if s.q[READY] != [] {
        QueuedIsElsewhere(s.q, s.cur, READY);
      }
    }
  }

  lemma {:induction false} PressesAllowed(s: Sched, typed: seq<char>)
    requires Inv(s) && s.cur != IDLE && NoNul(typed)
    ensures AllAllowed(s, Presses(typed))
    decreases typed
  {
    if typed != [] {
      PressesUnroll(typed);
      assert typed[0] in typed;
      KeyKeepsBusy(s, typed[0]);
      PressesAllowed(Key(s, typed[0]), typed[1..]);
      RunUnrolls(s, KeyPress(typed[0]), Presses(typed[1..]));
    }
  }

  /** With another task ready, the read does not leave the processor to idle either. */
  lemma ReadKeepsBusy(s: Sched, n: int)
    requires Inv(s) && s.cur != IDLE && s.q[READY] != []
    ensures Inv(Read(s, n)) && Read(s, n).cur != IDLE
  {
    ReadInv(s, n);
    QueuedIsElsewhere(s.q, s.cur, READY);
  }

  /** A read of n characters and the keys after it. */
  function ReadRun(n: nat, typed: seq<char>): seq<Step> {
    [ReadCall(n)] + Presses(typed)
  }

  lemma ReadRunStores(s: Sched, n: nat, typed: seq<char>, mem: seq<char>)
    requires Inv(s) && s.cur != IDLE && s.q[READY] != [] && s.q[BLOCKED] == [] && NoNul(typed)
    requires Enough(s.keys, n, typed) && Room(n, mem)
    ensures AllAllowed(s, ReadRun(n, typed))
    ensures Stored(mem, AllHanded(s, ReadRun(n, typed)), s.cur) == Put(mem, 0, Result(s.keys, n, typed))
  {
    hide Apply, Put, Result, Stored, AllHanded;
    ReadKeepsBusy(s, n);
    PressesAllowed(Read(s, n), typed);
    RunUnrolls(s, ReadCall(n), Presses(typed));
    assert Apply(s, ReadCall(n)) == Read(s, n) by {
      ApplyRead(s, n);
    }
    KeysOfPresses(typed);
    AllowedIsToLast(s, ReadRun(n, typed));
    ReadStores(s, n, Presses(typed), mem);
  }

  lemma ApplyRead(s: Sched, n: int)
    requires WF(s)
    ensures Apply(s, ReadCall(n)) == Read(s, n)
  {
  }

  /** Whatever is typed and whatever the memory held, the reader's buffer ends with the first n characters
      buffered or typed, in order, and a NUL, all else unchanged. */
  ghost predicate AlwaysExact(s: Sched, n: nat)
    requires WF(s)
  {
    forall typed, mem :: Enough(s.keys, n, typed) && NoNul(typed) && Room(n, mem) ==>
      Stored(mem, AllHanded(s, ReadRun(n, typed)), s.cur) == Put(mem, 0, (s.keys + typed)[..n] + "\0")
  }

  /** That is so if and only if the ring held fewer characters than it can and at most n on entry. */
  lemma DeliveryIsExactIff(s: Sched, n: nat)
    requires Inv(s) && s.cur != IDLE && s.q[READY] != [] && s.q[BLOCKED] == [] && n > 0
    ensures AlwaysExact(s, n) <==> |s.keys| < TAM_BUF && |s.keys| <= n
  {
    hide Put, Result, Stored, AllHanded, Apply;
    if |s.keys| < TAM_BUF && |s.keys| <= n {
      forall typed: seq<char>, mem: seq<char> | Enough(s.keys, n, typed) && NoNul(typed) && Room(n, mem)
        ensures Stored(mem, AllHanded(s, ReadRun(n, typed)), s.cur) == Put(mem, 0, (s.keys + typed)[..n] + "\0")
      {
        ReadRunStores(s, n, typed, mem);
        WithinIsExact(s.keys, n, typed, mem);
      }
    } else {
      var typed, mem;
      if |s.keys| == TAM_BUF {
        typed, mem := FullIsInexact(s.keys, n);
      } else {
        typed, mem := LongIsInexact(s.keys, n);
      }
      ReadRunStores(s, n, typed, mem);
    }
  }

  // ---------- readers in line

  /** How many characters the readers want in all. */
  ghost function Wanted(readers: seq<nat>, task: seq<Task>): int {
    if readers == [] then 0 else (if readers[0] < |task| then task[readers[0]].toRead else 0) + Wanted(readers[1..], task)
  }

  lemma {:induction false} WantedIsPositive(readers: seq<nat>, task: seq<Task>)
    requires forall i :: 0 <= i < |readers| ==> readers[i] < |task| && task[readers[i]].toRead > 0
    ensures Wanted(readers, task) >= |readers|
  {
    if readers != [] {
      WantedIsPositive(readers[1..], task);
    }
  }

  lemma {:induction false} WantedSame(readers: seq<nat>, task: seq<Task>, task': seq<Task>)
    requires |task| == |task'|
    requires forall i :: 0 <= i < |readers| && readers[i] < |task| ==> task'[readers[i]].toRead == task[readers[i]].toRead
    ensures Wanted(readers, task') == Wanted(readers, task)
  {
    if readers != [] {
      WantedSame(readers[1..], task, task');
    }
  }

  /** t waits behind k > 0 readers, who want ahead characters in all. */
  ghost predicate InLine(s: Sched, t: nat, k: nat, ahead: int, left: int, n: int, diff: int) {
    && Inv(s) && 0 < k < |s.q[BLOCKED]| && s.q[BLOCKED][k] == t && t < NR_TASKS
    && s.task[t].toRead == left && s.requests[t] == Request(n, diff)
    && Wanted(s.q[BLOCKED][..k], s.task) == ahead
  }

  lemma NotBehind(s: Sched, t: nat, k: nat)
    requires Inv(s) && k < |s.q[BLOCKED]| && s.q[BLOCKED][k] == t
    ensures forall i :: 0 <= i < |s.q[BLOCKED]| && i != k ==> s.q[BLOCKED][i] != t
  {
    var q := s.q[BLOCKED];
    assert q == q[..k] + [t] + q[k + 1..];
    OccMember(s.q, BLOCKED, k);
    assert Occ(s.q, t) + Outside(s.cur, t) == 1;
    assert multiset(q)[t] == multiset(q[..k])[t] + 1 + multiset(q[k + 1..])[t];
    forall i | 0 <= i < |q| && i != k
      ensures q[i] != t
    {
      if i < k {
        assert q[..k][i] in multiset(q[..k]);
      } else {
        assert q[k + 1..][i - k - 1] in multiset(q[k + 1..]);
      }
    }
  }

  lemma InLineOn(s: Sched, a: Step, t: nat, k: nat, ahead: int, left: int, n: int, diff: int)
    requires InLine(s, t, k, ahead, left, n, diff) && Allowed(s, a) && !a.ReadCall? && !a.KeyPress?
    ensures InLine(Apply(s, a), t, k, ahead, left, n, diff) && Handed(s, a) == []
  {
    hide Apply, Handed;
    StepInv(s, a);
    OthersKeepReaders(s, a);
    WantedSame(s.q[BLOCKED][..k], s.task, Apply(s, a).task);
  }

  lemma Nearer(s: Sched, r: Sched, h: nat, t: nat, k: nat, ahead: int, left: int, n: int, diff: int, keys: seq<char>)
    returns (k': nat)
    requires InLine(s, t, k, ahead, left, n, diff) && Inv(r) && s.q[BLOCKED][0] == h && h < NR_TASKS && Counts(s, r, keys, h)
    requires s.task[h].toRead > 0
    requires forall i :: 0 < i < |s.q[BLOCKED]| ==> s.q[BLOCKED][i] != h
    requires Wanted(s.q[BLOCKED][1..k], s.task) >= k - 1
    ensures ahead > 0
    ensures if ahead == 1 then Waits(r, t, [], left, n, diff) else InLine(r, t, k', ahead - 1, left, n, diff)
  {
    hide Partitioned, AllFit, RunningOk, KeysOk;
    var q := s.q[BLOCKED];
    assert q[..k][1..] == q[1..k];
    WantedSame(q[1..k], s.task, r.task);
    k' := if s.task[h].toRead == 1 then k - 1 else k;
    if s.task[h].toRead == 1 {
      assert r.q[BLOCKED][..k - 1] == q[1..k];
    }
  }

  /** A key for the first reader brings the others one character nearer. */
  lemma KeyNearer(s: Sched, c: char, t: nat, k: nat, ahead: int, left: int, n: int, diff: int) returns (k': nat)
    requires InLine(s, t, k, ahead, left, n, diff) && Allowed(s, KeyPress(c))
    ensures ahead > 0
    ensures if ahead == 1 then Waits(Apply(s, KeyPress(c)), t, [], left, n, diff)
            else InLine(Apply(s, KeyPress(c)), t, k', ahead - 1, left, n, diff)
  {
    hide Apply, Counts, Waits;
    var h := s.q[BLOCKED][0];
    StepInv(s, KeyPress(c));
    ApplyKey(s, c);
    KeyForReader(s, c, h);
    NotBehind(s, h, 0);
    WantedIsPositive(s.q[BLOCKED][1..k], s.task);
    k' := Nearer(s, Apply(s, KeyPress(c)), h, t, k, ahead, left, n, diff, Typed(s.keys, c));
  }

  lemma KeyPassesBy(s: Sched, c: char, t: nat, k: nat, mem: seq<char>, ahead: int, left: int, n: int, diff: int)
    requires InLine(s, t, k, ahead, left, n, diff)
    ensures Stored(mem, Handed(s, KeyPress(c)), t) == mem
  {
    NotBehind(s, t, k);
    KeyStoresFor(s, c, t, mem);
  }

  /** The keys that are left for those behind. */
  function Beyond(typed: seq<char>, ahead: nat): seq<char> {
    if |typed| < ahead then [] else typed[ahead..]
  }

  /** A reader in line gets the keys typed once those before it have theirs: exactly the next ones, in order. */
  lemma {:induction false} HandedInLine(s: Sched, steps: seq<Step>, t: nat, k: nat, mem: seq<char>,
                                        ahead: nat, n: int, left: int, diff: int)
    requires WF(s) && InLine(s, t, k, ahead, left, n, diff) && AllAllowed(s, steps) && NoRead(steps)
    ensures Stored(mem, AllHanded(s, steps), t) == Fill(mem, n, [], left, diff, Beyond(KeysOf(steps), ahead))
    decreases steps
  {
    hide Apply, Fill, Stored, Handed, AllHanded, AllAllowed, Beyond, InLine, Waits, Allowed, KeysOf;
    if steps == [] {
      InLineAtEnd(s, steps, t, mem, ahead, n, left, diff);
    } else {
      var a, rest := steps[0], steps[1..];
      assert steps == [a] + rest;
      RunUnrolls(s, a, rest);
      HandedUnrolls(s, a, rest, []);
      assert [] + AllHanded(s, steps) == AllHanded(s, steps) && [] + Handed(s, a) == Handed(s, a);
      StoredInTurn(mem, Handed(s, a), AllHanded(Apply(s, a), rest), t);
      if a.KeyPress? {
        KeyPassesBy(s, a.c, t, k, mem, ahead, left, n, diff);
        var k' := KeyNearer(s, a.c, t, k, ahead, left, n, diff);
        KeysAfterKey(a.c, rest);
        BeyondMore(a.c, KeysOf(rest), ahead);
        if ahead == 1 {
          AllowedIsToLast(Apply(s, a), rest);
          HandedIsFill(Apply(s, a), rest, t, mem, n, [], left, diff);
        } else {
          HandedInLine(Apply(s, a), rest, t, k', mem, ahead - 1, n, left, diff);
        }
      } else {
        InLineOn(s, a, t, k, ahead, left, n, diff);
        StoredNothing(mem, t);
        KeysAfterOther(a, rest);
        HandedInLine(Apply(s, a), rest, t, k, mem, ahead, n, left, diff);
      }
    }
  }

  lemma InLineAtEnd(s: Sched, steps: seq<Step>, t: nat, mem: seq<char>, ahead: nat, n: int, left: int, diff: int)
    requires WF(s) && steps == []
    ensures Stored(mem, AllHanded(s, steps), t) == Fill(mem, n, [], left, diff, Beyond(KeysOf(steps), ahead))
  {
  }

  lemma BeyondMore(c: char, typed: seq<char>, ahead: nat)
    requires ahead > 0
    ensures Beyond([c] + typed, ahead) == Beyond(typed, ahead - 1) && Beyond(typed, 0) == typed
  {
  }

  /** What a read takes from the ring on entry. */
  function Buffered(keys: seq<char>): seq<char> {
    if |keys| == TAM_BUF then [] else keys
  }

  lemma EntersLine(s: Sched, n: nat)
    requires Inv(s) && s.cur != IDLE && s.q[BLOCKED] != [] && LeftAtEntry(s, n) > 0
    ensures var ahead, left := Wanted(s.q[BLOCKED], s.task), LeftAtEntry(s, n);
            ahead > 0 && InLine(Read(s, n), s.cur, |s.q[BLOCKED]|, ahead, left, n, n - left)
  {
    hide SchedNext;
    var q, left, r := s.q[BLOCKED], LeftAtEntry(s, n), Read(s, n);
    ReadInv(s, n);
    SchedNextReaders(Block(Entered(s, n), s.task[s.cur].(toRead := left, resume := Reading)));
    assert r.q[BLOCKED] == q + [s.cur] && r.q[BLOCKED][..|q|] == q;
    RunningNotBlocked(s);
    WantedSame(q, s.task, r.task);
    WantedIsPositive(q, s.task);
  }

  lemma RunningNotBlocked(s: Sched)
    requires Inv(s)
    ensures s.cur !in s.q[BLOCKED]
  {
    assert Occ(s.q, s.cur) + Outside(s.cur, s.cur) == 1;
    if s.cur in s.q[BLOCKED] {
      var i :| 0 <= i < |s.q[BLOCKED]| && s.q[BLOCKED][i] == s.cur;
      OccMember(s.q, BLOCKED, i);
    }
  }

  lemma LineEntryStores(s: Sched, n: nat, mem: seq<char>)
    requires WF(s) && n > 0 && LeftAtEntry(s, n) > 0 && n < |mem|
    ensures Stored(mem, Handed(s, ReadCall(n)), s.cur) == Put(mem, 0, Buffered(s.keys))
  {
    EntryStores(s, n);
    if |s.keys| == TAM_BUF {
      StoredNothing(mem, s.cur);
      assert mem[..0] + [] + mem[0..] == mem;
    } else {
      StoredOne(mem, s.cur, 0, s.keys);
    }
  }

  lemma FillBehind(mem: seq<char>, n: nat, b: seq<char>, left: nat, typed: seq<char>)
    requires |b| + left == n < |mem| && 0 < left <= |typed|
    ensures Fill(Put(mem, 0, b), n, [], left, n - left, typed) == Put(mem, 0, b + typed[..left] + "\0")
  {
    hide Put, Fill;
    FillIs(Put(mem, 0, b), n, [], left, n - left, typed);
    assert [] + typed[..left] + "\0" == typed[..left] + "\0";
    PutPut(mem, 0, b, typed[..left] + "\0");
    assert b + (typed[..left] + "\0") == b + typed[..left] + "\0";
  }

  lemma LineAndRest(s: Sched, n: nat, steps: seq<Step>) returns (r: Sched, ahead: nat)
    requires Inv(s) && s.q[BLOCKED] != [] && LeftAtEntry(s, n) > 0 && AllAllowed(s, [ReadCall(n)] + steps)
    ensures ahead == Wanted(s.q[BLOCKED], s.task) > 0 && WF(r) && AllAllowed(r, steps)
    ensures InLine(r, s.cur, |s.q[BLOCKED]|, ahead, LeftAtEntry(s, n), n, n - LeftAtEntry(s, n))
    ensures AllHanded(s, [ReadCall(n)] + steps) == Handed(s, ReadCall(n)) + AllHanded(r, steps)
  {
    hide Read, Handed, InLine, Wanted;
    r := Apply(s, ReadCall(n));
    RunUnrolls(s, ReadCall(n), steps);
    HandedUnrolls(s, ReadCall(n), steps, []);
    EntersLine(s, n);
    ahead := Wanted(s.q[BLOCKED], s.task);
    var all := AllHanded(s, [ReadCall(n)] + steps);
    assert [] + all == all && [] + Handed(s, ReadCall(n)) == Handed(s, ReadCall(n));
  }

  lemma StoredInLine(s: Sched, n: nat, steps: seq<Step>, mem: seq<char>)
    requires Inv(s) && s.q[BLOCKED] != [] && LeftAtEntry(s, n) > 0 && n < |mem|
    requires NoRead(steps) && AllAllowed(s, [ReadCall(n)] + steps)
    ensures var ahead, left := Wanted(s.q[BLOCKED], s.task), LeftAtEntry(s, n);
            && 0 < ahead
            && Stored(mem, AllHanded(s, [ReadCall(n)] + steps), s.cur)
               == Fill(Put(mem, 0, Buffered(s.keys)), n, [], left, n - left, Beyond(KeysOf(steps), ahead))
  {
    hide Apply, Put, Fill, Stored, Handed, AllHanded, AllAllowed, InLine, KeysOf, Wanted, Beyond, Buffered, NoRead;
    var left := LeftAtEntry(s, n);
    var r, ahead := LineAndRest(s, n, steps);
    LineEntryStores(s, n, mem);
    StoredInTurn(mem, Handed(s, ReadCall(n)), AllHanded(r, steps), s.cur);
    HandedInLine(r, steps, s.cur, |s.q[BLOCKED]|, Put(mem, 0, Buffered(s.keys)), ahead, n, left, n - left);
  }

  /** A read that others are already waiting before: its buffer ends with what the ring held, unless that was full,
      and then exactly the keys typed once the others have theirs, in order, and a NUL. */
  lemma ReadInLineStores(s: Sched, n: nat, steps: seq<Step>, mem: seq<char>)
    requires Inv(s) && s.q[BLOCKED] != [] && LeftAtEntry(s, n) > 0 && n < |mem|
    requires NoRead(steps) && AllAllowed(s, [ReadCall(n)] + steps)
    requires Wanted(s.q[BLOCKED], s.task) + LeftAtEntry(s, n) <= |KeysOf(steps)|
    ensures var ahead, left := Wanted(s.q[BLOCKED], s.task), LeftAtEntry(s, n);
            && 0 < ahead
            && Stored(mem, AllHanded(s, [ReadCall(n)] + steps), s.cur)
               == Put(mem, 0, Buffered(s.keys) + KeysOf(steps)[ahead..ahead + left] + "\0")
  {
    hide Apply, Put, Fill, Stored, AllHanded, AllAllowed, KeysOf, Wanted;
    var left, ahead := LeftAtEntry(s, n), Wanted(s.q[BLOCKED], s.task);
    StoredInLine(s, n, steps, mem);
    FillBehind(mem, n, Buffered(s.keys), left, Beyond(KeysOf(steps), ahead));
    assert Beyond(KeysOf(steps), ahead)[..left] == KeysOf(steps)[ahead..ahead + left];
  }

  // ---------- a reader that may be alone in the system

  /** Keys that at most fill the ring wake the reader only with the last one, which it wants; idle runs until then. */
  lemma {:induction false} LonePresses(s: Sched, typed: seq<char>, t: nat, keys: seq<char>, left: int, n: int, diff: int)
    requires Waits(s, t, keys, left, n, diff) && |typed| == left && |keys| + left <= TAM_BUF && NoNul(typed)
    ensures AllowedToLast(s, Presses(typed))
    decreases typed
  {
    hide Key;
    WantsMore(s, t);
    PressesUnroll(typed);
    assert typed[0] in typed;
    ToLastUnrolls(s, KeyPress(typed[0]), Presses(typed[1..]));
    if left > 1 {
      KeyArrives(s, typed[0], t, keys, left, n, diff);
      LonePresses(Key(s, typed[0]), typed[1..], t, keys + [typed[0]], left - 1, n, diff);
    }
  }

  /** Also with nobody else to run, when its last key wakes the reader over idle, a read that waits for no more
      than fits into the ring gets exactly what was buffered and typed. */
  lemma LoneReadStores(s: Sched, n: nat, typed: seq<char>, mem: seq<char>)
    requires Inv(s) && s.cur != IDLE && s.q[BLOCKED] == [] && |s.keys| < TAM_BUF && NoNul(typed) && Room(n, mem)
    requires 0 < |typed| <= TAM_BUF && n == |s.keys| + |typed|
    ensures AllowedToLast(s, ReadRun(n, typed))
    ensures Stored(mem, AllHanded(s, ReadRun(n, typed)), s.cur) == Put(mem, 0, s.keys + typed + "\0")
  {
    hide Apply, Put, Result, Stored, AllHanded;
    var r := Read(s, n);
    ReadEnters(s, n);
    LonePresses(r, typed, s.cur, [], |typed|, n, |s.keys|);
    ToLastUnrolls(s, ReadCall(n), Presses(typed));
    ApplyRead(s, n);
    KeysOfPresses(typed);
    ReadStores(s, n, Presses(typed), mem);
    ShortText(s.keys, n, typed);
    assert (s.keys + typed)[..n] == s.keys + typed;
  }

  // ---------- a full ring is reachable

  lemma KeyIsBuffered(s: Sched, c: char)
    requires WF(s) && s.q[BLOCKED] == [] && |s.keys| < TAM_BUF
    ensures Apply(s, KeyPress(c)) == s.(keys := s.keys + [c])
  {
  }

  lemma NoPress(s: Sched)
    requires WF(s)
    ensures Run(s, Presses([])) == s && s.(keys := s.keys + []) == s
  {
    assert Presses([]) == [];
    assert s.keys + [] == s.keys;
  }

  lemma {:induction false} PressesAreBuffered(s: Sched, typed: seq<char>)
    requires WF(s) && s.q[BLOCKED] == [] && |s.keys| + |typed| <= TAM_BUF
    ensures Run(s, Presses(typed)) == s.(keys := s.keys + typed)
    decreases typed
  {
    hide Apply, Run, Presses, AllAllowed;
    if typed == [] {
      NoPress(s);
    } else {
      var s1 := s.(keys := s.keys + [typed[0]]);
      PressesUnroll(typed);
      KeyIsBuffered(s, typed[0]);
      RunUnrolls(s, KeyPress(typed[0]), Presses(typed[1..]));
      PressesAreBuffered(s1, typed[1..]);
      assert s.keys + [typed[0]] + typed[1..] == s.keys + typed;
    }
  }

  lemma ThreadFromBoot(s: Sched)
    requires s == Boot()
    ensures var t := CreateThread(s);
            t.cur == 1 && t.q[READY] != [] && t.q[BLOCKED] == [] && t.keys == [] && Inv(t)
            && Allowed(s, CreateThreadCall) && Apply(s, CreateThreadCall) == t
  {
    BootState();
    BootInv();
    CreateThreadInv(s);
  }

  /** Create a thread, type four characters: the ring is full, and the running process may read. */
  lemma FullRingIsReachable(typed: seq<char>)
    requires |typed| == TAM_BUF && NoNul(typed)
    ensures var steps := [CreateThreadCall] + Presses(typed);
            var s := Run(Boot(), steps);
            && AllAllowed(Boot(), steps) && Inv(s) && s.cur != IDLE && s.q[READY] != [] && s.q[BLOCKED] == []
            && s.keys == typed && forall n: nat :: n > 0 ==> !AlwaysExact(s, n)
  {
    hide CreateThread, Boot;
    var t := CreateThread(Boot());
    ThreadFromBoot(Boot());
    PressesAllowed(t, typed);
    PressesAreBuffered(t, typed);
    RunUnrolls(Boot(), CreateThreadCall, Presses(typed));
    RunInv(t, Presses(typed));
    var s := t.(keys := typed);
    assert [] + typed == typed;
    forall n: nat | n > 0
      ensures !AlwaysExact(s, n)
    {
      DeliveryIsExactIff(s, n);
    }
  }
}
