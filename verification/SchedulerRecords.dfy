/** What becomes of an execution once it is started, over every run of the cluster: the order of its steps, what each
    leaves in the row, and what the counts of the row count. */
module SchedulerRecords {
  import opened Wrappers
  import opened CronSchedule
  import opened SchedulerTask
  import opened SchedulerCluster
  import opened SchedulerLock

  /** The request for the lock succeeds exactly if its statement does and finds the row free, or locked more than 300 s
      before the clock reading; it decides between entering the body and giving up until the next time. A task
      that is not global enters and leaves the row alone. */
  lemma AcquireMeans(w: World, s: State, step: Step)
    requires CanStep(w, s, step) && step.Acquire?
    ensures var t := Apply(w, s, step);
            var (before, after) := (s.nodes[step.n], t.nodes[step.n]);
            var wins := step.wrote && s.row.Some? &&
                        (s.row.value.lockedBy.None? || s.row.value.lockedAt + 300 < step.staleRead / 1_000_000_000);
            var second := s.clock / 1_000_000_000;
            && (w.def.global && wins ==>
                  && t.row == Some(s.row.value.(lockedBy := Some(step.n), lockedAt := second))
                  && after == before.(live := before.live[step.e := Executing(second)]))
            && (w.def.global && !wins ==>
                  && t.row == s.row
                  && after == before.(task := before.task.(nextRun := NextTime(w.def.schedule, s.clock, w.zone)),
                                      live := before.live[step.e := Leaving]))
            && (!w.def.global ==>
                  t.row == s.row && after == before.(live := before.live[step.e := Executing(second)]))
  {
    hide NextTime;
  }

  /** Where a phase of an execution comes from: the phase was there, or one step led to it from the one before. */
  lemma PhaseOrigin(w: World, s: State, step: Step, n: nat, e: nat, p: Phase)
    requires CanStep(w, s, step) && InPhase(Apply(w, s, step), n, e, p)
    ensures || InPhase(s, n, e, p)
            || (p.Spawned? && e == s.execs)
            || (p.Executing? && InPhase(s, n, e, Spawned) && step.Acquire? && step.n == n && step.e == e)
            || (p.Recording? && IsExecuting(s, n, e) && step == Finish(n, e, p.failed))
            || (p.Returning? && IsRecording(s, n, e) && step.Record? && step.n == n && step.e == e && w.def.global)
            || (p.Leaving? && InPhase(s, n, e, Returning) && step.Release? && step.n == n && step.e == e)
            || (p.Leaving? && IsRecording(s, n, e) && step.Record? && step.n == n && step.e == e && !w.def.global)
            || (p.Leaving? && InPhase(s, n, e, Spawned) && step.Acquire? && step.n == n && step.e == e && w.def.global)
  {
    if step.Advance? || step.n != n {
      OtherNode(w, s, step, n);
      hide Apply;
    } else {
      hide LoadedTask, Finished, NextTime, Ready, LockSucceeds, RowAfter, LoadedBoot, NextBoot;
    }
  }

  /** Step `k` is the one of execution `e` of node `n`. */
  predicate Finishes(step: Step, n: nat, e: nat) {
    step.Finish? && step.n == n && step.e == e
  }

  predicate Records(step: Step, n: nat, e: nat) {
    step.Record? && step.n == n && step.e == e
  }

  predicate Releases(step: Step, n: nat, e: nat) {
    step.Release? && step.n == n && step.e == e
  }

  /** The step that led an execution that took the lock to the phase it is in. */
  lemma {:induction false} CameBy(w: World, states: seq<State>, steps: seq<Step>, i: nat, m: nat,
                                  n: nat, e: nat, p: Phase) returns (q: nat)
    requires IsRun(w, states, steps) && AcquiresAt(w, states, steps, i, n, e) && i < m < |states|
    requires InPhase(states[m], n, e, p) && !p.Executing?
    ensures i < q < m <= |steps| < |states| && InPhase(states[q + 1], n, e, p) && !InPhase(states[q], n, e, p)
    decreases m
  {
    hide Apply, CanStep, TakesLock;
    if m == i + 1 {
      AcquireEnters(w, states, steps, i, n, e);
      assert false;
    } else if InPhase(states[m - 1], n, e, p) {
      q := CameBy(w, states, steps, i, m - 1, n, e, p);
    } else {
      q := m - 1;
    }
  }

  lemma OriginOf(w: World, states: seq<State>, steps: seq<Step>, i: nat, m: nat, n: nat, e: nat, p: Phase)
      returns (q: nat)
    requires IsRun(w, states, steps) && AcquiresAt(w, states, steps, i, n, e) && i < m < |states|
    requires InPhase(states[m], n, e, p) && !p.Executing?
    ensures i < q < m <= |steps| < |states| && !p.Spawned?
    ensures p.Recording? ==> Finishes(steps[q], n, e)
    ensures p.Returning? ==> Records(steps[q], n, e) && IsRecording(states[q], n, e)
    ensures p.Leaving? ==> Releases(steps[q], n, e) && InPhase(states[q], n, e, Returning)
  {
    TakersAreGlobal(w, states[i], steps[i]);
    PastSpawned(w, states, steps, i, m, n, e);
    q := CameBy(w, states, steps, i, m, n, e, p);
    PastSpawned(w, states, steps, i, q, n, e);
    AtStep(w, states, steps, q);
    PhaseOrigin(w, states[q], steps[q], n, e, p);
    hide IsRun, AcquiresAt, Apply, CanStep;
  }

  /** An execution that took the lock and leaves has in this order finished its body, recorded the outcome and asked
      to release the lock. */
  lemma RunsInOrder(w: World, states: seq<State>, steps: seq<Step>, i: nat, k: nat, n: nat, e: nat)
      returns (f: nat, c: nat, r: nat)
    requires IsRun(w, states, steps) && AcquiresAt(w, states, steps, i, n, e) && i < k < |steps|
    requires steps[k] == Leave(n, e)
    ensures i < f < c < r < k && Finishes(steps[f], n, e) && Records(steps[c], n, e) && Releases(steps[r], n, e)
  {
    AtStep(w, states, steps, k);
    hide Apply, AcquiresAt, IsRun;
    r := OriginOf(w, states, steps, i, k, n, e, Leaving);
    c := OriginOf(w, states, steps, i, r, n, e, Returning);
    f := OriginOf(w, states, steps, i, c, n, e, states[c].nodes[n].live[e]);
  }

  // ---------------------------------------------------------------------------
  // What the counts count
  // ---------------------------------------------------------------------------

  /** Recording adds one to one of the counts and stores the next run; no other step changes a count. */
  lemma CountStep(w: World, s: State, step: Step)
    requires CanStep(w, s, step) && s.row.Some?
    ensures var t := Apply(w, s, step);
            && t.row.Some?
            && (step.Record? && step.wrote && s.nodes[step.n].live[step.e].nextRun >= 0 ==>
                  var done := s.nodes[step.n].live[step.e];
                  && (done.failed ==> t.row == Some(s.row.value.(nextRun := done.nextRun / 1_000_000_000,
                                                                 fails := s.row.value.fails + 1)))
                  && (!done.failed ==> t.row == Some(s.row.value.(nextRun := done.nextRun / 1_000_000_000,
                                                                  runs := s.row.value.runs + 1))))
            && t.row.value.runs == s.row.value.runs +
                 (if step.Record? && step.wrote && !s.nodes[step.n].live[step.e].failed then 1 else 0)
            && t.row.value.fails == s.row.value.fails +
                 (if step.Record? && step.wrote && s.nodes[step.n].live[step.e].failed then 1 else 0)
            && (!(step.Record? && step.wrote) && !(step.StartWrite? && s.nodes[step.n].boot.Skipping?) ==>
                  t.row.value.nextRun == s.row.value.nextRun)
  {
    hide Moved;
  }

  /** Step `p` writes the outcome of an execution whose body returned so. */
  predicate RecordsOutcome(steps: seq<Step>, p: nat, failed: bool) {
    && p < |steps| && steps[p].Record? && steps[p].wrote
    && exists q :: 0 <= q < p && steps[q] == Finish(steps[p].n, steps[p].e, failed)
  }

  /** An execution in the middle of recording has finished with that outcome. */
  lemma {:induction false} RecordingFinished(w: World, states: seq<State>, steps: seq<Step>, m: nat,
                                             n: nat, e: nat, p: Phase) returns (q: nat)
    requires IsRun(w, states, steps) && m < |states| && InPhase(states[m], n, e, p) && p.Recording?
    ensures q < m && steps[q] == Finish(n, e, p.failed)
  {
    hide Apply, CanStep;
    AtStep(w, states, steps, m - 1);
    PhaseOrigin(w, states[m - 1], steps[m - 1], n, e, p);
    if InPhase(states[m - 1], n, e, p) {
      q := RecordingFinished(w, states, steps, m - 1, n, e, p);
    } else {
      q := m - 1;
    }
  }

  /** After its body returned, an execution is recording that outcome or further on. */
  lemma {:induction false} AfterFinish(w: World, states: seq<State>, steps: seq<Step>, q: nat, m: nat,
                                       n: nat, e: nat, p: Phase)
    requires IsRun(w, states, steps) && q < m < |states| && Finishes(steps[q], n, e)
    ensures e < states[m].execs
    ensures InPhase(states[m], n, e, p) ==>
              p.Returning? || p.Leaving? || (p.Recording? && p.failed == steps[q].failed)
    decreases m
  {
    hide Apply, CanStep;
    AtStep(w, states, steps, m - 1);
    ExecsStep(w, states[m - 1], steps[m - 1]);
    if m == q + 1 {
      OneExecutionPerNode(w, states, steps, q);
      FinishRecords(w, states[q], steps[q]);
    } else {
      var s := states[m - 1];
      AfterFinish(w, states, steps, q, m - 1, n, e, p);
      if InPhase(states[m], n, e, p) {
        PhaseOrigin(w, s, steps[m - 1], n, e, p);
        if n in s.nodes && e in s.nodes[n].live {
          AfterFinish(w, states, steps, q, m - 1, n, e, s.nodes[n].live[e]);
        }
      }
    }
  }

  lemma ExecsStep(w: World, s: State, step: Step)
    requires CanStep(w, s, step)
    ensures s.execs <= Apply(w, s, step).execs
  {
    hide NextTime, Finished, LoadedTask, LoadedBoot, NextBoot, LockSucceeds, RowAfter, Ready;
  }

  lemma FinishRecords(w: World, s: State, step: Step)
    requires CanStep(w, s, step) && step.Finish? && Exclusive(s)
    ensures var t := Apply(w, s, step);
            && step.e < s.execs && step.n in t.nodes && step.e in t.nodes[step.n].live
            && t.nodes[step.n].live[step.e] == Recording(t.nodes[step.n].task.nextRun, step.failed)
  {
    hide Finished;
  }

  /** Whatever was written meanwhile, the row's counts of successes and failures grow by exactly the numbers of recorded
      executions whose bodies succeeded and failed. */
  lemma {:induction false} RowCounts(w: World, states: seq<State>, steps: seq<Step>, a: nat, m: nat)
    requires IsRun(w, states, steps) && a <= m < |states| && states[a].row.Some?
    ensures states[m].row.Some? && m <= |steps|
    ensures states[m].row.value.runs ==
            states[a].row.value.runs + |set p: nat | a <= p < m && RecordsOutcome(steps, p, false)|
    ensures states[m].row.value.fails ==
            states[a].row.value.fails + |set p: nat | a <= p < m && RecordsOutcome(steps, p, true)|
    decreases m
  {
    hide Apply, CanStep, RecordsOutcome;
    if a < m {
      RowCounts(w, states, steps, a, m - 1);
      AtStep(w, states, steps, m - 1);
      CountStep(w, states[m - 1], steps[m - 1]);
      OneMore(steps, a, m - 1, false);
      OneMore(steps, a, m - 1, true);
      RecordedOutcome(w, states, steps, m - 1);
    } else {
      assert (set p: nat | a <= p < m && RecordsOutcome(steps, p, false)) == {};
      assert (set p: nat | a <= p < m && RecordsOutcome(steps, p, true)) == {};
    }
  }

  lemma OneMore(steps: seq<Step>, a: nat, m: nat, failed: bool)
    requires a <= m < |steps|
    ensures |set p: nat | a <= p < m + 1 && RecordsOutcome(steps, p, failed)| ==
            |set p: nat | a <= p < m && RecordsOutcome(steps, p, failed)| +
            (if RecordsOutcome(steps, m, failed) then 1 else 0)
  {
    hide RecordsOutcome;
    var before := set p: nat | a <= p < m && RecordsOutcome(steps, p, failed);
    var after := set p: nat | a <= p < m + 1 && RecordsOutcome(steps, p, failed);
    assert after == if RecordsOutcome(steps, m, failed) then before + {m} else before;
  }

  lemma RecordedOutcome(w: World, states: seq<State>, steps: seq<Step>, m: nat)
    requires IsRun(w, states, steps) && m < |steps| && m < |states| && CanStep(w, states[m], steps[m])
    ensures forall failed ::
              RecordsOutcome(steps, m, failed) <==>
              steps[m].Record? && steps[m].wrote && states[m].nodes[steps[m].n].live[steps[m].e].failed == failed
  {
    if steps[m].Record? {
      var (n, e) := (steps[m].n, steps[m].e);
      var p := states[m].nodes[n].live[e];
      var q := RecordingFinished(w, states, steps, m, n, e, p);
      hide IsRun, CanStep;
      forall q0, failed | 0 <= q0 < m && steps[q0] == Finish(n, e, failed)
        ensures failed == p.failed
      {
        AfterFinish(w, states, steps, q0, m, n, e, p);
      }
    }
  }
}
