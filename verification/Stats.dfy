// The time accounting of lab/zeos/sched.c: where the ticks of a task go, in 32-bit counters fed by a
// 32-bit clock, both of which wrap around.

module Accounting {
  import opened Common

  /** Which counter a call charges the time since the last call to. */
  datatype Charge = ToUser | ToSystem | ToReady

  /** A call at a moment of real time, counted in ticks without wrap-around. */
  datatype Event = Event(charge: Charge, at: nat)

  /** struct stats without remaining_ticks. */
  datatype Counters = Counters(user: Word, system: Word, blocked: Word, ready: Word, elapsed: Word, trans: Word)

  /** Unsigned subtraction and addition of words. */
  function Minus(a: Word, b: Word): Word { (a - b) % WORD }

  function Plus(a: Word, b: Word): Word { (a + b) % WORD }

  function Fresh(now: Word): Counters {
    Counters(0, 0, 0, 0, now, 0)
  }

  function Charged(c: Counters, charge: Charge, now: Word): Counters {
    var d := Minus(now, c.elapsed);
    match charge
    case ToUser => c.(user := Plus(c.user, d), elapsed := now)
    case ToSystem => c.(system := Plus(c.system, d), elapsed := now)
    case ToReady => c.(ready := Plus(c.ready, d), elapsed := now, trans := Plus(c.trans, 1))
  }

  /** The struct that the stats_* functions update in place; get_ticks supplies now. */
  class Stats {
    var user: Word
    var system: Word
    var blocked: Word
    var ready: Word
    var elapsed: Word
    var trans: Word

    function Abs(): Counters reads this {
      Counters(user, system, blocked, ready, elapsed, trans)
    }

    /** init_process_stats. */
    method Init(now: Word)
      modifies this
      ensures Abs() == Fresh(now)
    {
      user, system, blocked, ready := 0, 0, 0, 0;
      elapsed := now;
      trans := 0;
    }

    /** stats_user_to_sys. */
    method UserToSys(now: Word)
      modifies this
      ensures Abs() == Charged(old(Abs()), ToUser, now)
    {
      user := Plus(user, Minus(now, elapsed));
      elapsed := now;
    }

    /** stats_sys_to_user, and stats_sys_to_ready, which has the same body. */
    method SysToUserOrReady(now: Word)
      modifies this
      ensures Abs() == Charged(old(Abs()), ToSystem, now)
    {
      system := Plus(system, Minus(now, elapsed));
      elapsed := now;
    }

    /** stats_ready_to_sys. */
    method ReadyToSys(now: Word)
      modifies this
      ensures Abs() == Charged(old(Abs()), ToReady, now)
    {
      ready := Plus(ready, Minus(now, elapsed));
      elapsed := now;
      trans := Plus(trans, 1);
    }
  }

  // ---------- whole histories

  /** The counters after the events, each of which reads a clock that shows real time modulo a word. */
  function After(birth: nat, events: seq<Event>): Counters {
    if events == [] then Fresh(birth % WORD)
    else
      var e := events[|events| - 1];
      Charged(After(birth, events[..|events| - 1]), e.charge, e.at % WORD)
  }

  /** Real time of the last event. */
  function Last(birth: nat, events: seq<Event>): nat {
    if events == [] then birth else events[|events| - 1].at
  }

  ghost predicate InOrder(birth: nat, events: seq<Event>) {
    events == []
    || (InOrder(birth, events[..|events| - 1]) && Last(birth, events[..|events| - 1]) <= events[|events| - 1].at)
  }

  /** Real time spent before events of the given kind. */
  ghost function Spent(birth: nat, events: seq<Event>, charge: Charge): int {
    if events == [] then 0
    else
      var e, before := events[|events| - 1], events[..|events| - 1];
      Spent(birth, before, charge) + if e.charge == charge then e.at - Last(birth, before) else 0
  }

  ghost function Dispatches(events: seq<Event>): nat {
    if events == [] then 0
    else Dispatches(events[..|events| - 1]) + if events[|events| - 1].charge.ToReady? then 1 else 0
  }

  /** One interval: the two wrap-arounds, of the clock and of the counter, cancel. */
  lemma IntervalIsExact(total: int, from: nat, to: nat)
    ensures Plus(total % WORD, Minus(to % WORD, from % WORD)) == (total + to - from) % WORD
  {
    var d := Minus(to % WORD, from % WORD);
    assert d == (to - from) % WORD by {
      Shift(to, from);
    }
    Shift(total + (to - from), total + d);
    SumOfRemainders(total, to - from);
  }

  lemma Shift(a: int, b: int)
    ensures (a % WORD - b % WORD) % WORD == (a - b) % WORD
  {
    var k := a / WORD - b / WORD;
    assert a - b == (a % WORD - b % WORD) + WORD * k;
  }

  lemma SumOfRemainders(a: int, b: int)
    ensures (a % WORD + b % WORD) % WORD == (a + b) % WORD
  {
    var k := a / WORD + b / WORD;
    assert a + b == (a % WORD + b % WORD) + WORD * k;
  }

  lemma ThreeRemainders(a: int, b: int, c: int)
    ensures (a % WORD + b % WORD + c % WORD) % WORD == (a + b + c) % WORD
    ensures a >= 0 && b >= 0 && c >= 0 && a + b + c < WORD ==> a % WORD + b % WORD + c % WORD == a + b + c
  {
    var k := a / WORD + b / WORD + c / WORD;
    assert a + b + c == (a % WORD + b % WORD + c % WORD) + WORD * k;
  }

  ghost predicate Exact(birth: nat, events: seq<Event>, c: Counters) {
    && c.user == Spent(birth, events, ToUser) % WORD
    && c.system == Spent(birth, events, ToSystem) % WORD
    && c.ready == Spent(birth, events, ToReady) % WORD
    && c.blocked == 0 && c.elapsed == Last(birth, events) % WORD && c.trans == Dispatches(events) % WORD
  }

  lemma ChargeIsExact(birth: nat, events: seq<Event>, c: Counters)
    requires events != [] && Exact(birth, events[..|events| - 1], c)
    ensures var e := events[|events| - 1]; Exact(birth, events, Charged(c, e.charge, e.at % WORD))
  {
    var e, before := events[|events| - 1], events[..|events| - 1];
    IntervalIsExact(Spent(birth, before, e.charge), Last(birth, before), e.at);
    SumOfRemainders(Dispatches(before), 1);
  }

  /** Each counter holds, modulo a word, exactly the real time of its kind. */
  lemma {:induction false} CountersAreExact(birth: nat, events: seq<Event>)
    ensures Exact(birth, events, After(birth, events))
  {
    if events != [] {
      CountersAreExact(birth, events[..|events| - 1]);
      ChargeIsExact(birth, events, After(birth, events[..|events| - 1]));
    }
  }

  lemma {:induction false} NoTimeIsLost(birth: nat, events: seq<Event>)
    requires InOrder(birth, events)
    ensures Spent(birth, events, ToUser) + Spent(birth, events, ToSystem) + Spent(birth, events, ToReady)
            == Last(birth, events) - birth
    ensures Spent(birth, events, ToUser) >= 0 && Spent(birth, events, ToSystem) >= 0
    ensures Spent(birth, events, ToReady) >= 0
  {
    if events != [] {
      NoTimeIsLost(birth, events[..|events| - 1]);
    }
  }

  /**
   * The time of a task is conserved: modulo a word its counters add up to its age at the last event, and
   * while that age fits a word they add up to it exactly, however often the clock has wrapped around.
   */
  lemma TimeIsConserved(birth: nat, events: seq<Event>)
    requires InOrder(birth, events)
    ensures var c, age := After(birth, events), Last(birth, events) - birth;
            && (c.user + c.system + c.ready) % WORD == age % WORD
            && (age < WORD ==> c.user + c.system + c.ready == age)
  {
    CountersAreExact(birth, events);
    NoTimeIsLost(birth, events);
    ThreeRemainders(Spent(birth, events, ToUser), Spent(birth, events, ToSystem), Spent(birth, events, ToReady));
  }

  lemma AfterOneMore(birth: nat, events: seq<Event>, i: nat)
    requires i < |events|
    ensures After(birth, events[..i + 1])
            == Charged(After(birth, events[..i]), events[i].charge, events[i].at % WORD)
  {
    assert events[..i + 1][..i] == events[..i];
  }

  /** The call that charges now. */
  method ChargeTo(st: Stats, charge: Charge, now: Word)
    modifies st
    ensures st.Abs() == Charged(old(st.Abs()), charge, now)
  {
    match charge
    case ToUser => st.UserToSys(now);
    case ToSystem => st.SysToUserOrReady(now);
    case ToReady => st.ReadyToSys(now);
  }

  /** A whole history on the struct: the calls in order, each with the reading its clock gives. */
  method Replay(st: Stats, birth: nat, events: seq<Event>)
    requires InOrder(birth, events)
    modifies st
    ensures st.Abs() == After(birth, events) && Exact(birth, events, st.Abs())
    ensures (st.Abs().user + st.Abs().system + st.Abs().ready) % WORD == (Last(birth, events) - birth) % WORD
  {
    st.Init(birth % WORD);
    for i := 0 to |events|
      invariant st.Abs() == After(birth, events[..i])
    {
      AfterOneMore(birth, events, i);
      ChargeTo(st, events[i].charge, events[i].at % WORD);
    }
    assert events[..|events|] == events;
    CountersAreExact(birth, events);
    TimeIsConserved(birth, events);
  }
}
