/** What starts an execution, over every run of the cluster: which ticks do, what a task that is switched off is
    kept from, and how a startup decides when its first tick starts one. */
module SchedulerStarts {
  import opened Wrappers
  import opened CronSchedule
  import opened SchedulerTask
  import opened SchedulerCluster
  import opened SchedulerEnabled
  import opened SchedulerLock

  /** The executions under way on a node. */
  function Live(s: State, n: nat): set<nat> {
    if n in s.nodes then s.nodes[n].live.Keys else {}
  }

  /** A tick starts an execution exactly if its node's bit is on, its flag is off and its next run is not after the
      clock; a request exactly if the flag is off; no other step starts one, on any node. */
  lemma StartsExactly(w: World, s: State, step: Step)
    requires CanStep(w, s, step)
    ensures step.Tick? ==>
              var task := s.nodes[step.n].task;
              Apply(w, s, step).execs > s.execs <==> task.enabled && !task.running && task.nextRun <= s.clock
    ensures step.RunNow? ==> (Apply(w, s, step).execs > s.execs <==> !s.nodes[step.n].task.running)
    ensures Apply(w, s, step).execs > s.execs ==>
              && (step.Tick? || step.RunNow?) && Apply(w, s, step).execs == s.execs + 1
              && Apply(w, s, step) == s.(nodes := Apply(w, s, step).nodes, execs := s.execs + 1)
              && Apply(w, s, step).nodes == s.nodes[step.n :=
                   Node(s.nodes[step.n].task.(running := true), s.nodes[step.n].live[s.execs := Spawned], Up)]
    ensures Apply(w, s, step).execs <= s.execs ==>
              && Apply(w, s, step).execs == s.execs && (step.Tick? || step.RunNow? ==> Apply(w, s, step) == s)
              && forall n :: Live(Apply(w, s, step), n) <= Live(s, n)
  {
    if !step.Tick? && !step.RunNow? {
      forall n
        ensures Live(Apply(w, s, step), n) <= Live(s, n)
      {
        NoneStarts(w, s, step, n);
      }
      KeepsCount(w, s, step);
      hide Apply;
    }
  }

  lemma NoneStarts(w: World, s: State, step: Step, n: nat)
    requires CanStep(w, s, step) && !step.Tick? && !step.RunNow?
    ensures Live(Apply(w, s, step), n) <= Live(s, n)
  {
    if step.Advance? || step.n != n {
      OtherNode(w, s, step, n);
      hide Apply;
    } else {
      hide NextTime, Finished, LoadedTask, LoadedBoot, NextBoot, LockSucceeds, RowAfter;
    }
  }

  lemma KeepsCount(w: World, s: State, step: Step)
    requires CanStep(w, s, step) && !step.Tick? && !step.RunNow?
    ensures Apply(w, s, step).execs == s.execs
  {
    hide NextTime, Finished, LoadedTask, LoadedBoot, NextBoot, LockSucceeds, RowAfter;
  }

  /** Switches the task off on node `n`: an accepted call, or loading it with the bit off. */
  predicate SwitchesOff(w: World, s: State, step: Step, n: nat) {
    && !w.def.critical
    && (step == SetEnabled(n, false) ||
        (step.StartRead? && step.n == n &&
         if step.read && s.row.Some? then !s.row.value.enabled else !w.configured))
  }

  /** Switches it on, or loads it anew. */
  predicate MaySwitchOn(step: Step, n: nat) {
    step == SetEnabled(n, true) || (step.StartRead? && step.n == n)
  }

  /** Once the task is switched off on a node, and until the node accepts a call that switches it on or starts up
      again, no step but a request on that node starts an execution there. */
  lemma OffStartsNothing(w: World, states: seq<State>, steps: seq<Step>, j: nat, m: nat, n: nat)
    requires IsRun(w, states, steps) && j < m < |steps| && SwitchesOff(w, states[j], steps[j], n)
    requires forall p :: j < p < m ==> !MaySwitchOn(steps[p], n)
    requires steps[m] != RunNow(n)
    ensures Live(states[m + 1], n) <= Live(states[m], n)
    ensures steps[m] == Tick(n) ==> states[m + 1] == states[m]
  {
    AtStep(w, states, steps, m);
    StartsExactly(w, states[m], steps[m]);
    hide Apply;
    if steps[m] == Tick(n) {
      OffStays(w, states, steps, j, m, n);
    }
  }

  lemma {:induction false} OffStays(w: World, states: seq<State>, steps: seq<Step>, j: nat, m: nat, n: nat)
    requires IsRun(w, states, steps) && j < m < |states| && SwitchesOff(w, states[j], steps[j], n)
    requires forall p :: j < p < m ==> !MaySwitchOn(steps[p], n)
    ensures n in states[m].nodes ==> !states[m].nodes[n].task.enabled
    decreases m
  {
    hide Apply, CanStep;
    if n in states[m].nodes {
      AtStep(w, states, steps, m - 1);
      MemoryStep(w, states[m - 1], steps[m - 1], n);
      if m > j + 1 {
        OffStays(w, states, steps, j, m - 1, n);
      }
    }
  }

  /** Over a whole run, a tick starts an execution exactly if nothing runs on its node, its next run is not after the
      clock, and the last step to set the node's bit set it on: an accepted call, or a load that found it on. */
  lemma TickStartsExactly(w: World, states: seq<State>, steps: seq<Step>, m: nat, n: nat) returns (i: nat)
    requires IsRun(w, states, steps) && m < |steps| && steps[m] == Tick(n)
    ensures i < m && n in states[m].nodes && n in states[i + 1].nodes
    ensures steps[i] == SetEnabled(n, true) || SwitchesOff(w, states[i], steps[i], n) ||
            (steps[i].StartRead? && steps[i].n == n)
    ensures forall p :: i < p < m ==> !MaySwitchOn(steps[p], n) && !SwitchesOff(w, states[p], steps[p], n)
    ensures Live(states[m + 1], n) != Live(states[m], n) <==>
            && !SwitchesOff(w, states[i], steps[i], n)
            && Live(states[m], n) == {} && states[m].nodes[n].task.nextRun <= states[m].clock
  {
    AtStep(w, states, steps, m);
    StartsExactly(w, states[m], steps[m]);
    OneExecutionPerNode(w, states, steps, m);
    i := MemoryHolds(w, states, steps, m, n);
    AtStep(w, states, steps, i);
    hide IsRun;
    NoneLive(states[m].nodes[n], states[m].execs);
    SetterLeaves(w, states[i], steps[i], n);
    hide Apply;
  }

  lemma SetterLeaves(w: World, s: State, step: Step, n: nat)
    requires CanStep(w, s, step) && SetsMemory(w, step, n)
    ensures n in Apply(w, s, step).nodes
  {
  }

  lemma NoneLive(node: Node, execs: nat)
    requires NodeExclusive(node, execs)
    ensures node.task.running <==> node.live.Keys != {}
    ensures execs !in node.live
  {
    assert |node.live.Keys| == |node.live|;
  }

  // ---------------------------------------------------------------------------
  // Starting up
  // ---------------------------------------------------------------------------

  /** When a task that a startup at `now` finds in this row, or in none, is next due: at the time in the row, unless
      that was missed by more than the catch-up window. */
  function FirstDue(w: World, seen: Option<Row>, now: nat): nat {
    if seen.Some? && now <= seen.value.nextRun * 1_000_000_000 + w.catchUp then seen.value.nextRun * 1_000_000_000
    else NextTime(w.def.schedule, now, w.zone)
  }

  lemma LoadMeans(w: World, s: State, n: nat, now: nat, read: bool)
    requires CanStep(w, s, StartRead(n, now, read))
    ensures var seen := if read then s.row else None;
            var t := Apply(w, s, StartRead(n, now, read));
            var due := if seen.Some? then seen.value.nextRun * 1_000_000_000 else 0;
            && t == s.(nodes := t.nodes) && t.nodes == s.nodes[n := t.nodes[n]]
            && t.nodes[n].live == map[] && !t.nodes[n].boot.Up?
            && t.nodes[n].task ==
                 TaskState((if seen.Some? then seen.value.enabled else w.configured) || w.def.critical, false,
                           if seen.None? || now > due + w.catchUp then NextTime(w.def.schedule, now, w.zone)
                           else if due > now then due else now, 0)
  {
    hide NextTime;
  }

  /** The first tick of a node that has started starts an execution exactly if the task was loaded switched on and the
      time it was due has come: a missed run is made up for if it is within the catch-up window, and
      otherwise left out. */
  lemma FirstTickExactly(w: World, states: seq<State>, steps: seq<Step>, j: nat, m: nat, n: nat, now: nat, read: bool)
    requires IsRun(w, states, steps) && j < m < |steps|
    requires steps[j] == StartRead(n, now, read) && steps[m] == Tick(n)
    requires forall p :: j < p < m ==> steps[p].Advance? || steps[p].n != n || steps[p].StartWrite?
    ensures var seen := if read then states[j].row else None;
            states[m + 1].execs > states[m].execs <==>
              && ((if seen.Some? then seen.value.enabled else w.configured) || w.def.critical)
              && states[m].clock >= FirstDue(w, seen, now)
  {
    AtStep(w, states, steps, j);
    AtStep(w, states, steps, m);
    LoadMeans(w, states[j], n, now, read);
    StartsExactly(w, states[m], steps[m]);
    ClockMonotone(w, states, steps, j, m);
    LoadedStays(w, states, steps, j, m, n);
    assert now <= states[j].clock;
    hide Apply, CanStep, NextTime, IsRun;
  }

  lemma {:induction false} LoadedStays(w: World, states: seq<State>, steps: seq<Step>, j: nat, m: nat, n: nat)
    requires IsRun(w, states, steps) && j < m < |states| && steps[j].StartRead? && steps[j].n == n
    requires forall p :: j < p < m ==> steps[p].Advance? || steps[p].n != n || steps[p].StartWrite?
    ensures n in states[m].nodes && n in states[j + 1].nodes
    ensures states[m].nodes[n].task == states[j + 1].nodes[n].task && states[m].nodes[n].live == map[]
    decreases m
  {
    hide Apply, CanStep;
    AtStep(w, states, steps, m - 1);
    if m == j + 1 {
      StartIsIdle(w, states[j], steps[j]);
    } else {
      LoadedStays(w, states, steps, j, m - 1, n);
      WritesKeepTask(w, states[m - 1], steps[m - 1], n);
    }
  }

  lemma StartIsIdle(w: World, s: State, step: Step)
    requires CanStep(w, s, step) && step.StartRead?
    ensures step.n in Apply(w, s, step).nodes && Apply(w, s, step).nodes[step.n].live == map[]
  {
    hide LoadedTask, LoadedBoot;
  }

  lemma WritesKeepTask(w: World, s: State, step: Step, n: nat)
    requires CanStep(w, s, step) && n in s.nodes && (step.Advance? || step.n != n || step.StartWrite?)
    ensures var t := Apply(w, s, step);
            n in t.nodes && t.nodes[n].task == s.nodes[n].task && t.nodes[n].live == s.nodes[n].live
  {
    if step.Advance? || step.n != n {
      OtherNode(w, s, step, n);
      hide Apply;
    } else {
      hide RowAfter, NextBoot;
    }
  }

  /** A startup whose statements succeed with no other in between leaves the row unlocked and with the bit of the
      task in memory; a run missed by more than the window is moved to the next time; the counts stay. */
  lemma StartupWrites(w: World, s: State, n: nat, now: nat)
    requires CanStep(w, s, StartRead(n, now, true))
    ensures var s1 := Apply(w, s, StartRead(n, now, true));
            && CanStep(w, s1, StartWrite(n, true))
            && var s2 := Apply(w, s1, StartWrite(n, true));
            && var next := NextTime(w.def.schedule, now, w.zone);
            && s2 == s.(nodes := s.nodes[n := s2.nodes[n]], row := s2.row) && s2.nodes[n].task == s1.nodes[n].task
            && (s.row.None? ==>
                  && s2.row == Some(Row(w.configured || w.def.critical, next / 1_000_000_000, None, 0, 0, 0))
                  && s2.nodes[n].boot.Up?)
            && (s.row.Some? ==>
                  var found := s.row.value;
                  var synced := Row(found.enabled || w.def.critical, found.nextRun, None, 0, found.runs, found.fails);
                  && s2.row == Some(synced)
                  && (now <= found.nextRun * 1_000_000_000 + w.catchUp ==> s2.nodes[n].boot.Up?)
                  && (now > found.nextRun * 1_000_000_000 + w.catchUp ==>
                        && CanStep(w, s2, StartWrite(n, true))
                        && var s3 := Apply(w, s2, StartWrite(n, true));
                        && s3.row == Some(synced.(nextRun := next / 1_000_000_000))
                        && s3 == s2.(nodes := s2.nodes[n := s2.nodes[n].(boot := Up)], row := s3.row)))
  {
    LoadMeans(w, s, n, now, true);
    hide NextTime;
  }
}
