// PIDs: sys_fork never returns one twice, and two live PCBs share one exactly if they are threads of one process.

module Pids {
  import opened Common
  import opened SchedSpec
  import opened Partition
  import opened PartitionRuns
  import opened Moves

  /** What sys_fork returns to the parent, if the step forks: the PID that the child has afterwards. */
  ghost function Forked(s: Sched, a: Step): seq<int>
    requires WF(s)
  {
    if Forks(s, a) then [Apply(s, a).task[s.q[FREE][0]].pid] else []
  }

  /** What all successful forks of a run return, in order. */
  ghost function Returned(s: Sched, steps: seq<Step>): seq<int>
    requires WF(s)
    decreases steps
  {
    if steps == [] then [] else Forked(s, steps[0]) + Returned(Apply(s, steps[0]), steps[1..])
  }

  // ---------- no PID is returned twice

  /** From any state, the successful forks return the PIDs from the counter on, one after the other. */
  lemma {:induction false} ForksCount(s: Sched, steps: seq<Step>)
    requires WF(s)
    ensures Returned(s, steps) == seq(|Returned(s, steps)|, (i: nat) => s.pids + i)
    ensures Run(s, steps).pids == s.pids + |Returned(s, steps)|
    decreases steps
  {
    hide Apply;
    if steps != [] {
      var a, r := steps[0], Apply(s, steps[0]);
      if Takes(s, a) {
        ChildPcb(s, a);
      } else {
        OtherPcbs(s, a);
      }
      ForksCount(r, steps[1..]);
      assert |Returned(s, steps)| == |Forked(s, a)| + |Returned(r, steps[1..])|;
    }
  }

  /** Every PID of a PCB is below the next one to be given out. */
  ghost predicate PidsBelow(s: Sched)
    requires WF(s)
  {
    forall t :: 0 <= t < NR_TASKS ==> 0 <= s.task[t].pid < s.pids
  }

  lemma StepBelow(s: Sched, a: Step)
    requires WF(s) && PidsBelow(s)
    ensures PidsBelow(Apply(s, a))
  {
    hide Apply;
    if Takes(s, a) {
      ChildPcb(s, a);
    } else {
      OtherPcbs(s, a);
    }
  }

  // ---------- threads of one process

  /** By which step each PCB's process came to be; a thread belongs to the process of its creator.  n is the
      number of step a. */
  ghost function Born(births: seq<nat>, s: Sched, a: Step, n: nat): (r: seq<nat>)
    requires WF(s) && |births| == NR_TASKS
    ensures |r| == NR_TASKS
  {
    if !Takes(s, a) then births
    else births[s.q[FREE][0] := if a.ForkCall? then n else births[s.cur]]
  }

  ghost function Births(births: seq<nat>, s: Sched, steps: seq<Step>, n: nat): (r: seq<nat>)
    requires WF(s) && |births| == NR_TASKS
    ensures |r| == NR_TASKS
    decreases steps
  {
    if steps == [] then births else Births(Born(births, s, steps[0], n), Apply(s, steps[0]), steps[1..], n + 1)
  }

  /** Live PCBs have one PID exactly if they have one birth; n is above all births. */
  ghost predicate PidIsBirth(s: Sched, births: seq<nat>, n: nat)
    requires WF(s) && |births| == NR_TASKS
  {
    && (forall t :: 0 <= t < NR_TASKS ==> births[t] < n)
    && forall t: nat, u: nat :: Live(s, t) && Live(s, u) ==> (s.task[t].pid == s.task[u].pid <==> births[t] == births[u])
  }

  lemma StepFamilies(s: Sched, a: Step, births: seq<nat>, n: nat)
    requires Inv(s) && Allowed(s, a) && PidsBelow(s) && |births| == NR_TASKS && PidIsBirth(s, births, n)
    ensures PidIsBirth(Apply(s, a), Born(births, s, a, n), n + 1)
  {
    hide Apply;
    var r, births' := Apply(s, a), Born(births, s, a, n);
    if Takes(s, a) {
      ChildPcb(s, a);
    } else {
      OtherPcbs(s, a);
    }
    forall t: nat, u: nat | Live(r, t) && Live(r, u)
      ensures r.task[t].pid == r.task[u].pid <==> births'[t] == births'[u]
    {
      LiveBefore(s, a, t);
      LiveBefore(s, a, u);
      CurrentIsLive(s);
    }
  }

  /** The children's PIDs and births go together. */
  lemma {:induction false} RunFamilies(s: Sched, steps: seq<Step>, births: seq<nat>, n: nat)
    requires Inv(s) && AllAllowed(s, steps) && PidsBelow(s) && |births| == NR_TASKS && PidIsBirth(s, births, n)
    ensures PidsBelow(Run(s, steps))
    ensures PidIsBirth(Run(s, steps), Births(births, s, steps, n), n + |steps|)
    decreases steps
  {
    hide Apply;
    if steps != [] {
      StepInv(s, steps[0]);
      StepBelow(s, steps[0]);
      StepFamilies(s, steps[0], births, n);
      RunFamilies(Apply(s, steps[0]), steps[1..], Born(births, s, steps[0], n), n + 1);
    }
  }

  // ---------- from boot

  lemma BootPids()
    ensures PidsBelow(Boot()) && Boot().pids == 2 && PidIsBirth(Boot(), Upto(NR_TASKS), NR_TASKS)
  {
    hide PidIsBirth, PidsBelow;
    BootState();
    BootBirths(Boot());
  }

  lemma BootBirths(s: Sched)
    requires WF(s) && s.pids == 2 && s.task[0].pid == 0 && s.task[1].pid == 1
    requires forall t :: 2 <= t < NR_TASKS ==> s.task[t].pid == 0
    requires s.q[FREE] == seq(NR_TASKS - 2, i => 2 + i)
    ensures PidsBelow(s) && PidIsBirth(s, Upto(NR_TASKS), NR_TASKS)
  {
    BootLive(s);
  }

  /** Over every run from boot the i-th fork that succeeds returns PID 2 + i, so that no PID is returned twice. */
  lemma ForkPidsOverRuns(steps: seq<Step>)
    ensures var pids := Returned(Boot(), steps); forall i :: 0 <= i < |pids| ==> pids[i] == 2 + i
    ensures var pids := Returned(Boot(), steps); forall i, j :: 0 <= i < j < |pids| ==> pids[i] != pids[j]
  {
    BootPids();
    ForksCount(Boot(), steps);
  }

  /** Over every run from boot every PID is below the next one, and two live PCBs have the same PID if and only if
      one process's fork, or boot, brought forth both: themselves, or the PCBs whose threads they are. */
  lemma FamiliesOverRuns(steps: seq<Step>, t: nat, u: nat)
    requires AllAllowed(Boot(), steps) && t < NR_TASKS && u < NR_TASKS
    ensures var s, births := Run(Boot(), steps), Births(Upto(NR_TASKS), Boot(), steps, NR_TASKS);
            && 0 <= s.task[t].pid < s.pids
            && (Live(s, t) && Live(s, u) ==> (s.task[t].pid == s.task[u].pid <==> births[t] == births[u]))
  {
    BootPids();
    BootInv();
    RunFamilies(Boot(), steps, Upto(NR_TASKS), NR_TASKS);
  }
}
